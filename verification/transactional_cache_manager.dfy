/** The per-session manager of transactional buffers: one buffer per
    delegate cache the session touches, created on first touch, and a single
    `commit` / `rollback` that is fanned out to all of them. */
module TransactionalCacheManager {
  import opened Wrappers
  import Delegate
  import TC = TransactionalCache

  /** The registry, keyed by the identity (id) of each delegate cache. */
  datatype Manager<K, V> = Manager(transactionalCaches: map<string, TC.TxCache<K, V>>)

  /** The shared delegate caches, by id. Other sessions see the same ones. */
  type Delegates<K, V> = map<string, Delegate.Cache<K, V>>

  /** A manager as a session starts with it: nothing registered. */
  function New<K, V>(): (m: Manager<K, V>)
    ensures m.transactionalCaches == map[]
  {
    Manager(map[])
  }

  /** Every registered buffer is in its reset state. */
  predicate AllReset<K, V>(m: Manager<K, V>) {
    forall id :: id in m.transactionalCaches ==> TC.IsReset(m.transactionalCaches[id])
  }

  /** The buffer registered for `id`, or the one get-or-insert would create. */
  function BufferFor<K, V>(m: Manager<K, V>, id: string): TC.TxCache<K, V> {
    if id in m.transactionalCaches then m.transactionalCaches[id] else TC.New()
  }

  /** `getTransactionalCache`: get-or-insert. The first touch of a cache
      registers a fresh buffer; later touches return the registered one and
      leave the registry as it is. */
  function GetTransactionalCache<K, V>(m: Manager<K, V>, cache: Delegate.Cache<K, V>): (res: (Manager<K, V>, TC.TxCache<K, V>))
    ensures cache.id in res.0.transactionalCaches && res.0.transactionalCaches[cache.id] == res.1
    ensures cache.id in m.transactionalCaches ==> res.0 == m
    ensures cache.id !in m.transactionalCaches ==>
              TC.IsReset(res.1) && res.0.transactionalCaches == m.transactionalCaches[cache.id := res.1]
  {
    if cache.id in m.transactionalCaches then (m, m.transactionalCaches[cache.id])
    else
      var tx := TC.New();
      (Manager(m.transactionalCaches[cache.id := tx]), tx)
  }

  /** True iff `m'` differs from `m` at most in the buffer of `id`, which
      it registers. */
  ghost predicate OnlyTouches<K, V>(m: Manager<K, V>, m': Manager<K, V>, id: string) {
    && m'.transactionalCaches.Keys == m.transactionalCaches.Keys + {id}
    && forall other :: other in m.transactionalCaches && other != id ==>
         m'.transactionalCaches[other] == m.transactionalCaches[other]
  }

  /** `getObject`: forwarded to the buffer of `cache`. */
  function GetObject<K, V>(m: Manager<K, V>, cache: Delegate.Cache<K, V>, key: K): (res: (Manager<K, V>, Option<V>))
    ensures OnlyTouches(m, res.0, cache.id)
    ensures (res.0.transactionalCaches[cache.id], res.1) == TC.GetObject(BufferFor(m, cache.id), cache, key)
  {
    var (m1, tx) := GetTransactionalCache(m, cache);
    var (tx', answer) := TC.GetObject(tx, cache, key);
    (Manager(m1.transactionalCaches[cache.id := tx']), answer)
  }

  /** `putObject`: forwarded to the buffer of `cache`. */
  function PutObject<K, V>(m: Manager<K, V>, cache: Delegate.Cache<K, V>, key: K, value: Option<V>): (m': Manager<K, V>)
    ensures OnlyTouches(m, m', cache.id)
    ensures m'.transactionalCaches[cache.id] == TC.PutObject(BufferFor(m, cache.id), key, value)
  {
    var (m1, tx) := GetTransactionalCache(m, cache);
    Manager(m1.transactionalCaches[cache.id := TC.PutObject(tx, key, value)])
  }

  /** `clear`: forwarded to the buffer of `cache`. */
  function Clear<K, V>(m: Manager<K, V>, cache: Delegate.Cache<K, V>): (m': Manager<K, V>)
    ensures OnlyTouches(m, m', cache.id)
    ensures m'.transactionalCaches[cache.id] == TC.Clear(BufferFor(m, cache.id))
  {
    var (m1, tx) := GetTransactionalCache(m, cache);
    Manager(m1.transactionalCaches[cache.id := TC.Clear(tx)])
  }

  /** The delegates after the buffers of `ids` have committed: each of those
      delegates as its own buffer's commit leaves it, every other delegate
      as it was. */
  function CommitSome<K, V>(m: Manager<K, V>, delegates: Delegates<K, V>, ids: set<string>): (r: Delegates<K, V>)
    requires ids <= m.transactionalCaches.Keys
    ensures r.Keys == delegates.Keys
    ensures forall id :: id in delegates && id in ids ==>
              r[id] == TC.Committed(m.transactionalCaches[id], delegates[id])
    ensures forall id :: id in delegates && id !in ids ==> r[id] == delegates[id]
  {
    map id | id in delegates ::
      if id in ids then TC.Committed(m.transactionalCaches[id], delegates[id]) else delegates[id]
  }

  /** The delegates after the buffers of `ids` have rolled back, where
      `failing` names, per cache, the keys whose `removeObject` throws. */
  function RollbackSome<K, V>(m: Manager<K, V>, delegates: Delegates<K, V>, ids: set<string>, failing: map<string, set<K>>): (r: Delegates<K, V>)
    requires ids <= m.transactionalCaches.Keys
    ensures r.Keys == delegates.Keys
    ensures forall id :: id in delegates && id in ids ==>
              r[id] == TC.RolledBack(m.transactionalCaches[id], delegates[id], FailingFor(failing, id))
    ensures forall id :: id in delegates && id !in ids ==> r[id] == delegates[id]
  {
    map id | id in delegates ::
      if id in ids then TC.RolledBack(m.transactionalCaches[id], delegates[id], FailingFor(failing, id))
      else delegates[id]
  }

  function FailingFor<K>(failing: map<string, set<K>>, id: string): set<K> {
    if id in failing then failing[id] else {}
  }

  /** `r` agrees with `CommitSome` key by key, hence equals it. */
  lemma CommitSomeByKey<K, V>(m: Manager<K, V>, delegates: Delegates<K, V>, ids: set<string>, r: Delegates<K, V>)
    requires ids <= m.transactionalCaches.Keys
    requires r.Keys == delegates.Keys
    requires forall id :: id in delegates ==>
               r[id] == if id in ids then TC.Committed(m.transactionalCaches[id], delegates[id]) else delegates[id]
    ensures r == CommitSome(m, delegates, ids)
  {
  }

  /** `r` agrees with `RollbackSome` key by key, hence equals it. */
  lemma RollbackSomeByKey<K, V>(m: Manager<K, V>, delegates: Delegates<K, V>, ids: set<string>,
                                failing: map<string, set<K>>, r: Delegates<K, V>)
    requires ids <= m.transactionalCaches.Keys
    requires r.Keys == delegates.Keys
    requires forall id :: id in delegates ==>
               r[id] == if id in ids then TC.RolledBack(m.transactionalCaches[id], delegates[id], FailingFor(failing, id))
                        else delegates[id]
    ensures r == RollbackSome(m, delegates, ids, failing)
  {
  }

  /** `commit`: every registered buffer commits into its own delegate, in
      the registry's (arbitrary) iteration order; the registry keeps its
      keys and every buffer ends reset. */
  method Commit<K, V>(m: Manager<K, V>, delegates: Delegates<K, V>) returns (m': Manager<K, V>, delegates': Delegates<K, V>)
    requires m.transactionalCaches.Keys <= delegates.Keys
    ensures m'.transactionalCaches.Keys == m.transactionalCaches.Keys
    ensures AllReset(m')
    ensures delegates' == CommitSome(m, delegates, m.transactionalCaches.Keys)
  {
    var caches := m.transactionalCaches;
    m' := m;
    delegates' := delegates;
    var todo := caches.Keys;
    while todo != {}
      invariant todo <= caches.Keys
      invariant forall id :: id in m'.transactionalCaches <==> id in caches
      invariant forall id :: id in caches && id !in todo ==> TC.IsReset(m'.transactionalCaches[id])
      invariant forall id :: id in delegates' <==> id in delegates
      invariant forall id :: id in delegates ==>
                  delegates'[id] == if id in caches && id !in todo then TC.Committed(caches[id], delegates[id]) else delegates[id]
      decreases todo
    {
      var id :| id in todo;
      var tx', d' := TC.Commit(caches[id], delegates'[id]);
      m' := Manager(m'.transactionalCaches[id := tx']);
      delegates' := delegates'[id := d'];
      todo := todo - {id};
    }
    CommitSomeByKey(m, delegates, caches.Keys, delegates');
  }

  /** `rollback`: every registered buffer rolls back against its own
      delegate; `unlocked[id]` is the sequence of keys `removeObject` was
      called with on the delegate `id`. */
  method Rollback<K, V>(m: Manager<K, V>, delegates: Delegates<K, V>, failing: map<string, set<K>>)
    returns (m': Manager<K, V>, delegates': Delegates<K, V>, unlocked: map<string, seq<K>>)
    requires m.transactionalCaches.Keys <= delegates.Keys
    ensures m'.transactionalCaches.Keys == m.transactionalCaches.Keys
    ensures AllReset(m')
    ensures unlocked.Keys == m.transactionalCaches.Keys
    ensures forall id :: id in m.transactionalCaches ==>
              Enumerates(unlocked[id], m.transactionalCaches[id].entriesMissedInCache)
    ensures delegates' == RollbackSome(m, delegates, m.transactionalCaches.Keys, failing)
  {
    var caches := m.transactionalCaches;
    m' := m;
    delegates' := delegates;
    unlocked := map[];
    var todo := caches.Keys;
    while todo != {}
      invariant todo <= caches.Keys
      invariant forall id :: id in m'.transactionalCaches <==> id in caches
      invariant forall id :: id in caches && id !in todo ==> TC.IsReset(m'.transactionalCaches[id])
      invariant forall id :: id in unlocked <==> id in caches && id !in todo
      invariant forall id :: id in unlocked ==> Enumerates(unlocked[id], caches[id].entriesMissedInCache)
      invariant forall id :: id in delegates' <==> id in delegates
      invariant forall id :: id in delegates ==>
                  delegates'[id] == if id in caches && id !in todo
                                    then TC.RolledBack(caches[id], delegates[id], FailingFor(failing, id))
                                    else delegates[id]
      decreases todo
    {
      var id :| id in todo;
      var tx', d', keys := TC.Rollback(caches[id], delegates'[id], FailingFor(failing, id));
      m' := Manager(m'.transactionalCaches[id := tx']);
      delegates' := delegates'[id := d'];
      unlocked := unlocked[id := keys];
      todo := todo - {id};
    }
    RollbackSomeByKey(m, delegates, caches.Keys, failing, delegates');
  }

  // ---------------------------------------------------------------------
  // Properties

  /** Get-or-insert is idempotent: a second lookup returns the same buffer
      and leaves the registry alone. */
  lemma GetTransactionalCacheIsStable<K, V>(m: Manager<K, V>, cache: Delegate.Cache<K, V>)
    ensures GetTransactionalCache(GetTransactionalCache(m, cache).0, cache) == GetTransactionalCache(m, cache)
  {
  }

  /** Rollback writes no staged value into any delegate: every entry a
      delegate holds afterwards it held before, with the same value. */
  lemma RollbackWritesNothing<K, V>(m: Manager<K, V>, delegates: Delegates<K, V>, failing: map<string, set<K>>)
    requires m.transactionalCaches.Keys <= delegates.Keys
    ensures forall id, k :: id in delegates && k in RollbackSome(m, delegates, m.transactionalCaches.Keys, failing)[id].entries ==>
              k in delegates[id].entries &&
              RollbackSome(m, delegates, m.transactionalCaches.Keys, failing)[id].entries[k] == delegates[id].entries[k]
  {
  }

  /** With every buffer reset, commit leaves every delegate as it is, so a
      second commit straight after a commit changes nothing. */
  lemma CommitAfterCommitIsIdentity<K, V>(m: Manager<K, V>, delegates: Delegates<K, V>)
    requires AllReset(m)
    ensures CommitSome(m, delegates, m.transactionalCaches.Keys) == delegates
  {
    forall id | id in delegates && id in m.transactionalCaches
      ensures TC.Committed(m.transactionalCaches[id], delegates[id]) == delegates[id]
    {
      TC.CommitAfterResetIsIdentity(m.transactionalCaches[id], delegates[id]);
    }
  }

  /** Committing the registered buffers one after another in the order
      `order`. */
  function CommitInOrder<K, V>(m: Manager<K, V>, delegates: Delegates<K, V>, order: seq<string>): Delegates<K, V>
    requires forall i :: 0 <= i < |order| ==> order[i] in m.transactionalCaches && order[i] in delegates
    decreases |order|
  {
    if order == [] then delegates
    else
      var id := order[0];
      CommitInOrder(m, delegates[id := TC.Committed(m.transactionalCaches[id], delegates[id])], order[1..])
  }

  /** Committing in an order that visits some buffers once each has the
      same effect as committing those buffers all at once. */
  lemma {:induction false} CommitInOrderIsCommitSome<K, V>(m: Manager<K, V>, delegates: Delegates<K, V>, order: seq<string>, ids: set<string>)
    requires ids <= m.transactionalCaches.Keys && ids <= delegates.Keys
    requires Enumerates(order, ids)
    ensures CommitInOrder(m, delegates, order) == CommitSome(m, delegates, ids)
    decreases |order|
  {
    if order == [] {
      assert ids == {} by {
        EnumerationLength(order, ids);
      }
    } else {
      var id, rest := order[0], order[1..];
      var delegates1 := delegates[id := TC.Committed(m.transactionalCaches[id], delegates[id])];
      assert Enumerates(rest, ids - {id}) by {
        forall i, j | 0 <= i < j < |rest|
          ensures rest[i] != rest[j]
        {
          assert rest[i] == order[i + 1] && rest[j] == order[j + 1];
        }
        forall i | 0 <= i < |rest|
          ensures rest[i] in ids - {id}
        {
          assert rest[i] == order[i + 1] && order[0] != order[i + 1];
        }
        forall y | y in ids - {id}
          ensures y in rest
        {
          var j :| 0 <= j < |order| && order[j] == y;
          assert rest[j - 1] == y;
        }
      }
      CommitInOrderIsCommitSome(m, delegates1, rest, ids - {id});
      assert CommitSome(m, delegates1, ids - {id}) == CommitSome(m, delegates, ids);
    }
  }

  /** The registry's iteration order does not matter: any two orders that
      visit every registered buffer once leave the same delegates. */
  lemma CommitOrderIrrelevant<K, V>(m: Manager<K, V>, delegates: Delegates<K, V>, order1: seq<string>, order2: seq<string>)
    requires m.transactionalCaches.Keys <= delegates.Keys
    requires Enumerates(order1, m.transactionalCaches.Keys)
    requires Enumerates(order2, m.transactionalCaches.Keys)
    ensures CommitInOrder(m, delegates, order1) == CommitInOrder(m, delegates, order2)
  {
    CommitInOrderIsCommitSome(m, delegates, order1, m.transactionalCaches.Keys);
    CommitInOrderIsCommitSome(m, delegates, order2, m.transactionalCaches.Keys);
  }
}
