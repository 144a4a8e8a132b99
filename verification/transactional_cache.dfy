/** The second-level-cache transactional buffer: one session's staging area
    in front of one shared delegate cache. Reads go to the delegate; writes
    wait in the staging map until `commit` sends them to the delegate, or
    `rollback` drops them. Every read that misses is remembered, so that a
    blocking delegate, which locks a key on a miss, is eventually released
    by a put (on commit) or by a remove (on rollback). */
module TransactionalCache {
  import opened Wrappers
  import Delegate

  /** The staging state of one buffer. The delegate is shared with other
      sessions and is therefore passed to each operation, not owned. */
  datatype TxCache<K, V> = TxCache(
    clearOnCommit: bool,
    entriesToAddOnCommit: map<K, Option<V>>,
    entriesMissedInCache: set<K>)

  /** No clear pending, nothing staged, nothing missed. */
  predicate IsReset<K, V>(tx: TxCache<K, V>) {
    && !tx.clearOnCommit
    && tx.entriesToAddOnCommit == map[]
    && tx.entriesMissedInCache == {}
  }

  /** The constructor: a buffer starts with empty staging state. */
  function New<K, V>(): (tx: TxCache<K, V>)
    ensures IsReset(tx)
  {
    TxCache(false, map[], {})
  }

  /** `getId` answers with the delegate's id. */
  function GetId<K, V>(tx: TxCache<K, V>, d: Delegate.Cache<K, V>): (id: string)
    ensures id == d.id
  {
    d.id
  }

  /** `getSize` counts the delegate's entries only: staged writes are not
      in the delegate yet, so they are not counted. */
  function GetSize<K, V>(tx: TxCache<K, V>, d: Delegate.Cache<K, V>): (n: nat)
    ensures n == |d.entries|
  {
    Delegate.GetSize(d)
  }

  /** `getObject`: the answer comes from the delegate, never from the
      staging map, and is `null` while a clear is pending; a delegate miss
      is recorded whether or not a clear is pending. */
  function GetObject<K, V>(tx: TxCache<K, V>, d: Delegate.Cache<K, V>, key: K): (res: (TxCache<K, V>, Option<V>))
    ensures res.1.Some? <==> !tx.clearOnCommit && key in d.entries && d.entries[key].Some?
    ensures res.1.Some? ==> res.1 == d.entries[key]
    ensures res.0.clearOnCommit == tx.clearOnCommit
    ensures res.0.entriesToAddOnCommit == tx.entriesToAddOnCommit
    ensures key in res.0.entriesMissedInCache <==> key in tx.entriesMissedInCache || Delegate.Misses(d, key)
    ensures res.0.entriesMissedInCache - {key} == tx.entriesMissedInCache - {key}
  {
    var found := Delegate.GetObject(d, key);
    var missed := if found.None? then tx.entriesMissedInCache + {key} else tx.entriesMissedInCache;
    var tx' := tx.(entriesMissedInCache := missed);
    if tx.clearOnCommit then (tx', None) else (tx', found)
  }

  /** `putObject` stages the write; the delegate is not touched. */
  function PutObject<K, V>(tx: TxCache<K, V>, key: K, value: Option<V>): (r: TxCache<K, V>)
    ensures r.clearOnCommit == tx.clearOnCommit
    ensures r.entriesMissedInCache == tx.entriesMissedInCache
    ensures r.entriesToAddOnCommit.Keys == tx.entriesToAddOnCommit.Keys + {key}
    ensures r.entriesToAddOnCommit[key] == value
    ensures forall k :: k in tx.entriesToAddOnCommit && k != key ==>
              r.entriesToAddOnCommit[k] == tx.entriesToAddOnCommit[k]
  {
    tx.(entriesToAddOnCommit := tx.entriesToAddOnCommit[key := value])
  }

  /** `removeObject` is a no-op answering `null`: this layer has no
      per-key transactional removal. */
  function RemoveObject<K, V>(tx: TxCache<K, V>, key: K): (res: (TxCache<K, V>, Option<V>))
    ensures res.0 == tx && res.1 == None
  {
    (tx, None)
  }

  /** `clear` only records that the delegate must be cleared on commit and
      drops what was staged so far; misses are kept for the unlock. */
  function Clear<K, V>(tx: TxCache<K, V>): (r: TxCache<K, V>)
    ensures r.clearOnCommit
    ensures r.entriesToAddOnCommit == map[]
    ensures r.entriesMissedInCache == tx.entriesMissedInCache
  {
    TxCache(true, map[], tx.entriesMissedInCache)
  }

  /** `reset`: the staging state both `commit` and `rollback` end in. */
  function Reset<K, V>(tx: TxCache<K, V>): (r: TxCache<K, V>)
    ensures IsReset(r)
  {
    New()
  }

  /** What `flushPendingEntries` leaves in a delegate holding `base`:
      every staged entry, and a `null` stamp for every miss that was not
      written afterwards. */
  function Flushed<K, V>(staged: map<K, Option<V>>, missed: set<K>, base: map<K, Option<V>>): (r: map<K, Option<V>>)
    ensures r.Keys == base.Keys + staged.Keys + missed
    ensures forall k :: k in staged ==> r[k] == staged[k]
    ensures forall k :: k in missed && k !in staged ==> r[k] == None
    ensures forall k :: k in base && k !in staged && k !in missed ==> r[k] == base[k]
  {
    var stamps: map<K, Option<V>> := map k | k in missed && k !in staged :: None;
    base + stamps + staged
  }

  /** The delegate as `commit` leaves it: emptied first if a clear is
      pending, then every staged write, then a `null` stamp for every miss
      that was never written. `CommitContents` states what it holds. */
  function Committed<K, V>(tx: TxCache<K, V>, d: Delegate.Cache<K, V>): (r: Delegate.Cache<K, V>)
    ensures r.id == d.id
  {
    var base := if tx.clearOnCommit then map[] else d.entries;
    Delegate.Cache(d.id, Flushed(tx.entriesToAddOnCommit, tx.entriesMissedInCache, base))
  }

  /** After commit the delegate holds every staged write; a `null` stamp for
      every miss that was not written (a staged write wins over a stamp);
      and, for any other key, what it held before unless a clear was
      pending, in which case nothing. */
  lemma CommitContents<K, V>(tx: TxCache<K, V>, d: Delegate.Cache<K, V>)
    ensures forall k :: k in tx.entriesToAddOnCommit ==>
              k in Committed(tx, d).entries && Committed(tx, d).entries[k] == tx.entriesToAddOnCommit[k]
    ensures forall k :: k in tx.entriesMissedInCache && k !in tx.entriesToAddOnCommit ==>
              k in Committed(tx, d).entries && Committed(tx, d).entries[k] == None
    ensures forall k :: k in Committed(tx, d).entries && k !in tx.entriesToAddOnCommit && k !in tx.entriesMissedInCache ==>
              !tx.clearOnCommit && k in d.entries && Committed(tx, d).entries[k] == d.entries[k]
    ensures !tx.clearOnCommit ==> d.entries.Keys <= Committed(tx, d).entries.Keys
  {
  }

  /** The delegate as `rollback` leaves it: every missed key is removed,
      except those whose removal threw (listed in `failing`), which stay as
      they were. */
  function RolledBack<K, V>(tx: TxCache<K, V>, d: Delegate.Cache<K, V>, failing: set<K>): (r: Delegate.Cache<K, V>)
    ensures r.id == d.id
    ensures forall k :: k in r.entries ==> k in d.entries && r.entries[k] == d.entries[k]
    ensures forall k :: k in d.entries ==>
              (k in r.entries <==> k !in tx.entriesMissedInCache || k in failing)
  {
    Delegate.Cache(d.id, d.entries - (tx.entriesMissedInCache - failing))
  }

  /** `flushPendingEntries`: one pass putting every staged entry, then one
      pass stamping `null` on every miss not staged; both passes visit
      their keys in whatever order the hash collections yield them. */
  method FlushPendingEntries<K, V>(tx: TxCache<K, V>, d: Delegate.Cache<K, V>) returns (d': Delegate.Cache<K, V>)
    ensures d'.id == d.id
    ensures d'.entries == Flushed(tx.entriesToAddOnCommit, tx.entriesMissedInCache, d.entries)
  {
    var staged := tx.entriesToAddOnCommit;
    var missed := tx.entriesMissedInCache;
    d' := d;
    var pending := staged.Keys;
    while pending != {}
      invariant pending <= staged.Keys
      invariant d'.id == d.id
      invariant d'.entries.Keys == d.entries.Keys + (staged.Keys - pending)
      invariant forall k :: k in staged && k !in pending ==> d'.entries[k] == staged[k]
      invariant forall k :: k in d.entries && (k !in staged || k in pending) ==> d'.entries[k] == d.entries[k]
      decreases pending
    {
      var k :| k in pending;
      d' := Delegate.PutObject(d', k, staged[k]);
      pending := pending - {k};
    }
    var unstamped := missed;
    while unstamped != {}
      invariant unstamped <= missed
      invariant d'.id == d.id
      invariant d'.entries.Keys == d.entries.Keys + staged.Keys + (missed - unstamped)
      invariant forall k :: k in staged ==> d'.entries[k] == staged[k]
      invariant forall k :: k in missed && k !in unstamped && k !in staged ==> d'.entries[k] == None
      invariant forall k :: k in d.entries && k !in staged && (k !in missed || k in unstamped) ==>
                  d'.entries[k] == d.entries[k]
      decreases unstamped
    {
      var k :| k in unstamped;
      if k !in staged {
        d' := Delegate.PutObject(d', k, None);
      }
      unstamped := unstamped - {k};
    }
    ghost var f := Flushed(staged, missed, d.entries);
    assert d'.entries.Keys == f.Keys;
    assert forall k :: k in f ==> d'.entries[k] == f[k];
  }

  /** `commit`: clear the delegate if asked to, flush, then reset. */
  method Commit<K, V>(tx: TxCache<K, V>, d: Delegate.Cache<K, V>) returns (tx': TxCache<K, V>, d': Delegate.Cache<K, V>)
    ensures d' == Committed(tx, d)
    ensures IsReset(tx')
  {
    d' := d;
    if tx.clearOnCommit {
      d' := Delegate.Clear(d');
    }
    d' := FlushPendingEntries(tx, d');
    tx' := Reset(tx);
  }

  /** `unlockMissedEntries`: one `removeObject` per missed key, in hash
      order. A removal that throws is logged and skipped, and the loop goes
      on; `failing` names the keys whose removal throws. `unlocked` is the
      sequence of keys `removeObject` was called with. */
  method UnlockMissedEntries<K, V>(tx: TxCache<K, V>, d: Delegate.Cache<K, V>, failing: set<K>)
    returns (d': Delegate.Cache<K, V>, unlocked: seq<K>)
    ensures d' == RolledBack(tx, d, failing)
    ensures Enumerates(unlocked, tx.entriesMissedInCache)
    ensures |unlocked| == |tx.entriesMissedInCache|
  {
    var missed := tx.entriesMissedInCache;
    d' := d;
    unlocked := [];
    var remaining := missed;
    while remaining != {}
      invariant remaining <= missed
      invariant Distinct(unlocked)
      invariant forall i :: 0 <= i < |unlocked| ==> unlocked[i] in missed && unlocked[i] !in remaining
      invariant forall k :: k in missed && k !in remaining ==> k in unlocked
      invariant d' == Delegate.Cache(d.id, d.entries - ((missed - remaining) - failing))
      decreases remaining
    {
      var k :| k in remaining;
      if k !in failing {
        d' := Delegate.RemoveObject(d', k);
      }
      unlocked := unlocked + [k];
      remaining := remaining - {k};
      assert d'.entries == d.entries - ((missed - remaining) - failing);
    }
    EnumerationLength(unlocked, missed);
  }

  /** `rollback`: unlock every miss, then reset. No staged write reaches
      the delegate. */
  method Rollback<K, V>(tx: TxCache<K, V>, d: Delegate.Cache<K, V>, failing: set<K>)
    returns (tx': TxCache<K, V>, d': Delegate.Cache<K, V>, unlocked: seq<K>)
    ensures d' == RolledBack(tx, d, failing)
    ensures Enumerates(unlocked, tx.entriesMissedInCache)
    ensures IsReset(tx')
  {
    d', unlocked := UnlockMissedEntries(tx, d, failing);
    tx' := Reset(tx);
  }

  // ---------------------------------------------------------------------
  // Properties of single calls

  /** A staged write is invisible to reads of any key through the same
      buffer: the read still answers with the delegate's value. */
  lemma ReadIgnoresStagedWrite<K, V>(tx: TxCache<K, V>, d: Delegate.Cache<K, V>, key: K, value: Option<V>, read: K)
    ensures GetObject(PutObject(tx, key, value), d, read).1 == GetObject(tx, d, read).1
  {
  }

  /** While a clear is pending every read answers `null`, whatever the
      delegate holds, yet a delegate miss is still recorded. */
  lemma ReadAfterClearIsNull<K, V>(tx: TxCache<K, V>, d: Delegate.Cache<K, V>, key: K)
    ensures GetObject(Clear(tx), d, key).1 == None
    ensures Delegate.Misses(d, key) ==> key in GetObject(Clear(tx), d, key).0.entriesMissedInCache
  {
  }

  /** The last write to a key wins. */
  lemma LastWriteWins<K, V>(tx: TxCache<K, V>, key: K, first: Option<V>, second: Option<V>)
    ensures PutObject(PutObject(tx, key, first), key, second) == PutObject(tx, key, second)
  {
  }

  /** Writes staged before a clear never reach the delegate: after clear
      and commit the delegate holds only `null` stamps for misses. */
  lemma ClearThenCommitKeepsOnlyStamps<K, V>(tx: TxCache<K, V>, d: Delegate.Cache<K, V>)
    ensures forall k :: k in Committed(Clear(tx), d).entries ==>
              k in tx.entriesMissedInCache && Committed(Clear(tx), d).entries[k] == None
  {
  }

  /** A key that missed and was then written commits to the written value,
      not to a `null` stamp. */
  lemma MissThenWriteCommitsWrite<K, V>(tx: TxCache<K, V>, d: Delegate.Cache<K, V>, key: K, value: Option<V>)
    requires Delegate.Misses(d, key)
    ensures key in GetObject(tx, d, key).0.entriesMissedInCache
    ensures Committed(PutObject(GetObject(tx, d, key).0, key, value), d).entries[key] == value
  {
  }

  /** Every recorded miss is resolved by commit: the committed delegate
      holds an entry (written or stamped) for it, which releases the lock a
      blocking delegate took on the miss. */
  lemma CommitResolvesEveryMiss<K, V>(tx: TxCache<K, V>, d: Delegate.Cache<K, V>)
    ensures tx.entriesMissedInCache <= Committed(tx, d).entries.Keys
  {
  }

  /** Committing a reset buffer leaves the delegate as it is, so a second
      commit straight after a commit changes nothing. */
  lemma CommitAfterResetIsIdentity<K, V>(tx: TxCache<K, V>, d: Delegate.Cache<K, V>)
    requires IsReset(tx)
    ensures Committed(tx, d) == d
  {
    assert Committed(tx, d).entries == d.entries;
  }

  /** Rolling back a reset buffer removes nothing, so a second rollback
      straight after a rollback issues no `removeObject`. */
  lemma RollbackAfterResetIsIdentity<K, V>(tx: TxCache<K, V>, d: Delegate.Cache<K, V>, failing: set<K>, unlocked: seq<K>)
    requires IsReset(tx)
    requires Enumerates(unlocked, tx.entriesMissedInCache)
    ensures unlocked == []
    ensures RolledBack(tx, d, failing) == d
  {
    EnumerationLength(unlocked, tx.entriesMissedInCache);
    assert RolledBack(tx, d, failing).entries == d.entries;
  }

  // ---------------------------------------------------------------------
  // Worked scenarios

  /** Delegate empty; `putObject("a", 1)`; `getObject("a")` still misses;
      `commit` leaves exactly `"a" -> 1` in the delegate. */
  lemma ScenarioPutReadCommit()
    ensures var d := Delegate.Cache("c", map[]);
            var tx1 := PutObject(New<string, int>(), "a", Some(1));
            var read := GetObject(tx1, d, "a");
            read.1 == None && Committed(read.0, d).entries == map["a" := Some(1)]
  {
    var d := Delegate.Cache("c", map[]);
    var tx1 := PutObject(New<string, int>(), "a", Some(1));
    var read := GetObject(tx1, d, "a");
    assert read.0.entriesMissedInCache == {"a"};
    assert Committed(read.0, d).entries == map["a" := Some(1)];
  }

  /** Delegate empty; `getObject("x")` misses; `rollback` calls
      `removeObject("x")` exactly once and the delegate stays empty. */
  lemma ScenarioMissRollback(unlocked: seq<string>)
    requires Enumerates(unlocked, GetObject(New<string, int>(), Delegate.Cache("c", map[]), "x").0.entriesMissedInCache)
    ensures unlocked == ["x"]
    ensures RolledBack(GetObject(New<string, int>(), Delegate.Cache("c", map[]), "x").0, Delegate.Cache("c", map[]), {}).entries == map[]
  {
    var missed := GetObject(New<string, int>(), Delegate.Cache("c", map[]), "x").0.entriesMissedInCache;
    assert missed == {"x"};
    EnumerationLength(unlocked, missed);
    assert unlocked[0] in missed;
  }

  /** Delegate `{"a" -> 1}`; `clear`; `putObject("b", 2)`; `commit` leaves
      exactly `"b" -> 2`. */
  lemma ScenarioClearPutCommit()
    ensures var d := Delegate.Cache("c", map["a" := Some(1)]);
            Committed(PutObject(Clear(New<string, int>()), "b", Some(2)), d).entries == map["b" := Some(2)]
  {
    var d := Delegate.Cache("c", map["a" := Some(1)]);
    var tx := PutObject(Clear(New<string, int>()), "b", Some(2));
    assert Committed(tx, d).entries == map["b" := Some(2)];
  }

  // ---------------------------------------------------------------------
  // Sessions: sequences of calls between two commits or rollbacks

  /** One call a session makes on the buffer. */
  datatype Op<K, V> = Get(key: K) | Put(key: K, value: Option<V>) | Remove(key: K) | ClearAll

  /** The new state and the call's answer (`null` for the void calls). */
  function Step<K, V>(tx: TxCache<K, V>, d: Delegate.Cache<K, V>, op: Op<K, V>): (TxCache<K, V>, Option<V>) {
    match op
    case Get(key) => GetObject(tx, d, key)
    case Put(key, value) => (PutObject(tx, key, value), None)
    case Remove(key) => RemoveObject(tx, key)
    case ClearAll => (Clear(tx), None)
  }

  /** Runs `ops` against a delegate that this session does not change;
      yields the final state and one answer per call. */
  function Run<K, V>(tx: TxCache<K, V>, d: Delegate.Cache<K, V>, ops: seq<Op<K, V>>): (res: (TxCache<K, V>, seq<Option<V>>))
    ensures |res.1| == |ops|
    decreases |ops|
  {
    if ops == [] then (tx, [])
    else
      var (tx1, answer) := Step(tx, d, ops[0]);
      var (tx2, answers) := Run(tx1, d, ops[1..]);
      (tx2, [answer] + answers)
  }

  /** Throughout a session, a read never sees a staged write: each answer
      is `null` or the delegate's own value for the key read. */
  lemma {:induction false} ReadsNeverSeeStagedWrites<K, V>(tx: TxCache<K, V>, d: Delegate.Cache<K, V>, ops: seq<Op<K, V>>)
    ensures forall i :: 0 <= i < |ops| && ops[i].Get? && Run(tx, d, ops).1[i].Some? ==>
              ops[i].key in d.entries && d.entries[ops[i].key] == Run(tx, d, ops).1[i]
    ensures forall i :: 0 <= i < |ops| && !ops[i].Get? ==> Run(tx, d, ops).1[i] == None
    decreases |ops|
  {
    if ops != [] {
      ReadsNeverSeeStagedWrites(Step(tx, d, ops[0]).0, d, ops[1..]);
      var answers := Run(tx, d, ops).1;
      var rest := Run(Step(tx, d, ops[0]).0, d, ops[1..]).1;
      assert answers == [Step(tx, d, ops[0]).1] + rest;
      forall i | 1 <= i < |ops|
        ensures answers[i] == rest[i - 1] && ops[i] == ops[1..][i - 1]
      {
      }
    }
  }

  /** Once a clear is pending it stays pending for the rest of the session,
      and every call answers `null`. */
  lemma {:induction false} ClearIsSticky<K, V>(tx: TxCache<K, V>, d: Delegate.Cache<K, V>, ops: seq<Op<K, V>>)
    requires tx.clearOnCommit
    ensures Run(tx, d, ops).0.clearOnCommit
    ensures forall i :: 0 <= i < |ops| ==> Run(tx, d, ops).1[i] == None
    decreases |ops|
  {
    if ops != [] {
      var tx1 := Step(tx, d, ops[0]).0;
      assert tx1.clearOnCommit;
      ClearIsSticky(tx1, d, ops[1..]);
      var answers := Run(tx, d, ops).1;
      var rest := Run(tx1, d, ops[1..]).1;
      assert answers == [Step(tx, d, ops[0]).1] + rest;
      forall i | 1 <= i < |ops|
        ensures answers[i] == rest[i - 1]
      {
      }
    }
  }

  /** The keys a session's reads missed on. */
  function MissedKeys<K, V>(d: Delegate.Cache<K, V>, ops: seq<Op<K, V>>): set<K> {
    set i | 0 <= i < |ops| && ops[i].Get? && Delegate.Misses(d, ops[i].key) :: ops[i].key
  }

  /** A session adds to the miss set exactly the keys its reads missed on;
      nothing else (not even a clear) removes a recorded miss. */
  lemma {:induction false} RunRecordsExactlyTheMisses<K, V>(tx: TxCache<K, V>, d: Delegate.Cache<K, V>, ops: seq<Op<K, V>>)
    ensures Run(tx, d, ops).0.entriesMissedInCache == tx.entriesMissedInCache + MissedKeys(d, ops)
    decreases |ops|
  {
    if ops != [] {
      var tx1 := Step(tx, d, ops[0]).0;
      RunRecordsExactlyTheMisses(tx1, d, ops[1..]);
      var head := if ops[0].Get? && Delegate.Misses(d, ops[0].key) then {ops[0].key} else {};
      assert tx1.entriesMissedInCache == tx.entriesMissedInCache + head;
      assert MissedKeys(d, ops) == head + MissedKeys(d, ops[1..]) by {
        forall k | k in MissedKeys(d, ops)
          ensures k in head + MissedKeys(d, ops[1..])
        {
          var i :| 0 <= i < |ops| && ops[i].Get? && Delegate.Misses(d, ops[i].key) && ops[i].key == k;
          if i > 0 {
            assert ops[1..][i - 1] == ops[i];
          }
        }
        forall k | k in MissedKeys(d, ops[1..])
          ensures k in MissedKeys(d, ops)
        {
          var i :| 0 <= i < |ops[1..]| && ops[1..][i].Get? && Delegate.Misses(d, ops[1..][i].key) && ops[1..][i].key == k;
          assert ops[i + 1] == ops[1..][i];
        }
      }
    }
  }

  /** Running two pieces of a session one after the other is running the
      whole session. */
  lemma {:induction false} RunAppend<K, V>(tx: TxCache<K, V>, d: Delegate.Cache<K, V>, first: seq<Op<K, V>>, second: seq<Op<K, V>>)
    ensures Run(tx, d, first + second).0 == Run(Run(tx, d, first).0, d, second).0
    decreases |first|
  {
    if first == [] {
      assert first + second == second;
    } else {
      assert (first + second)[0] == first[0];
      assert (first + second)[1..] == first[1..] + second;
      RunAppend(Step(tx, d, first[0]).0, d, first[1..], second);
    }
  }

  /** True iff no call in `ops` puts `key`. */
  predicate NeverPuts<K(==), V>(ops: seq<Op<K, V>>, key: K) {
    forall i :: 0 <= i < |ops| ==> !(ops[i].Put? && ops[i].key == key)
  }

  /** A key that is not staged and that no call puts stays unstaged. */
  lemma {:induction false} UnputKeyStaysUnstaged<K, V>(tx: TxCache<K, V>, d: Delegate.Cache<K, V>, ops: seq<Op<K, V>>, key: K)
    requires key !in tx.entriesToAddOnCommit
    requires NeverPuts(ops, key)
    ensures key !in Run(tx, d, ops).0.entriesToAddOnCommit
    decreases |ops|
  {
    if ops != [] {
      assert !(ops[0].Put? && ops[0].key == key);
      assert NeverPuts(ops[1..], key) by {
        forall i | 0 <= i < |ops[1..]|
          ensures !(ops[1..][i].Put? && ops[1..][i].key == key)
        {
          assert ops[1..][i] == ops[i + 1];
        }
      }
      UnputKeyStaysUnstaged(Step(tx, d, ops[0]).0, d, ops[1..], key);
    }
  }

  /** Across a whole session: once the session clears, a key that is not
      put again afterwards commits at most to a `null` stamp, whatever was
      written to it before the clear and whatever the delegate held. */
  lemma WritesBeforeClearNeverCommitted<K, V>(tx: TxCache<K, V>, d: Delegate.Cache<K, V>,
                                              before: seq<Op<K, V>>, after: seq<Op<K, V>>, key: K)
    requires NeverPuts(after, key)
    ensures var t := Run(tx, d, before + [ClearAll] + after).0;
            t.clearOnCommit && key !in t.entriesToAddOnCommit &&
            (key in Committed(t, d).entries ==>
               key in t.entriesMissedInCache && Committed(t, d).entries[key] == None)
  {
    var cleared := Run(tx, d, before + [ClearAll]).0;
    RunAppend(tx, d, before + [ClearAll], after);
    RunAppend(tx, d, before, [ClearAll]);
    assert cleared == Clear(Run(tx, d, before).0);
    ClearIsSticky(cleared, d, after);
    UnputKeyStaysUnstaged(cleared, d, after, key);
    CommitContents(Run(cleared, d, after).0, d);
  }
}
