# Transactional second-level cache buffer (MyBatis), in Dafny

This project models the transactional layer that MyBatis puts in front of its
shared second-level caches, and proves what that layer promises.

- **`TransactionalCache`** is one session's buffer in front of one shared
  *delegate* cache.
  - Reads go straight to the delegate. Every read that comes back `null` is a
    *miss* and is remembered.
  - Writes are staged in `entriesToAddOnCommit`.
  - `clear` only sets `clearOnCommit` and drops the staged writes.
  - `commit` clears the delegate if asked to, writes every staged entry, then
    writes a `null` stamp for every miss that was never written.
  - `rollback` calls `removeObject` on the delegate once per miss, which
    releases the lock a blocking delegate took on that miss. An exception from
    one call does not stop the others.
  - Both `commit` and `rollback` end by resetting the buffer.
- **`TransactionalCacheManager`** keeps one buffer per delegate cache the
  session touches. It creates a buffer on first touch (get-or-insert) and fans
  `commit` and `rollback` out to every registered buffer.

Modules and files:

- `wrappers.dfy`, module `Wrappers`: `Option`, where `None` is Java `null`. It
  also has `Enumerates` ("lists every element of a set exactly once") and the
  lemma that an enumeration is as long as its set.
- `delegate.dfy`, module `Delegate`: the shared cache as a value.
  - `Cache(id, entries)` has `entries: map<K, Option<V>>`.
  - A key can be absent, map to `Some(v)`, or map to `None`, which is a cached
    `null`. The first and the last are different states.
  - A read misses when the key is absent or maps to `None`
    (`TransactionalCache.java:72`).
  - `removeObject` deletes the entry, as the in-memory perpetual cache does.
- `transactional_cache.dfy`, module `TransactionalCache`:
  - the staging state, with one pure function per call;
  - closed-form results for commit and rollback (`Committed`, `RolledBack`);
  - `Commit`, `Rollback`, `FlushPendingEntries` and `UnlockMissedEntries` as
    methods that loop like the Java code and are proved equal to the closed
    forms;
  - lemmas about single calls and about whole sessions (`Run` over a sequence
    of calls).
- `transactional_cache_manager.dfy`, module `TransactionalCacheManager`:
  - the registry, as a map from delegate id to staging state;
  - the shared delegates, as a map from id to `Delegate.Cache`.

How the model represents what the Java code does not write down:

- **Iteration order.** The Java loops run in `HashMap`/`HashSet` order. The
  methods stand for that order by choosing any remaining key (`:|`). Their
  contracts therefore hold for every order.
- **Order across caches.** `CommitOrderIrrelevant` also proves that the order
  in which the manager commits its caches does not change the result.
- **Failed removals.** Rollback takes a set `failing` of the keys whose
  `removeObject` throws. The exception is swallowed, the entry stays as it
  was, and the loop goes on. `unlocked` is the sequence of keys
  `removeObject` was called with.

## Model

| member | source | states |
|---|---|---|
| TransactionalCache.New | src/main/java/org/apache/ibatis/cache/decorators/TransactionalCache.java:50-55 | a new buffer has no clear pending, nothing staged and nothing missed |
| TransactionalCache.GetId | src/main/java/org/apache/ibatis/cache/decorators/TransactionalCache.java:57-60 | the id is the delegate's id, whatever is staged |
| TransactionalCache.GetSize | src/main/java/org/apache/ibatis/cache/decorators/TransactionalCache.java:62-65 | the size counts only the delegate's entries; staged writes are not counted |
| TransactionalCache.GetObject | src/main/java/org/apache/ibatis/cache/decorators/TransactionalCache.java:67-82 | the answer is non-null exactly when no clear is pending and the delegate holds a non-null value, and then it is that value; the key joins the miss set exactly when the delegate answers null; flag and staged map are unchanged |
| TransactionalCache.PutObject | src/main/java/org/apache/ibatis/cache/decorators/TransactionalCache.java:84-88 | only the staged map changes: the key now maps to the value, other staged keys keep theirs, flag and miss set are unchanged |
| TransactionalCache.RemoveObject | src/main/java/org/apache/ibatis/cache/decorators/TransactionalCache.java:90-93 | answers null and leaves the buffer unchanged |
| TransactionalCache.Clear | src/main/java/org/apache/ibatis/cache/decorators/TransactionalCache.java:95-100 | sets the clear flag, empties the staged map and keeps the miss set |
| TransactionalCache.Reset | src/main/java/org/apache/ibatis/cache/decorators/TransactionalCache.java:118-123 | the result has no clear pending, nothing staged and nothing missed |
| TransactionalCache.Flushed | src/main/java/org/apache/ibatis/cache/decorators/TransactionalCache.java:125-138 | after the flush the keys are the old ones plus the staged and missed keys; staged keys hold their staged value; missed keys that were not staged hold null; other keys keep their old value |
| TransactionalCache.FlushPendingEntries | src/main/java/org/apache/ibatis/cache/decorators/TransactionalCache.java:125-138 | a put of every staged entry, then a null put for every unstaged miss, in any order, leaves exactly `Flushed` in the delegate |
| TransactionalCache.Committed | src/main/java/org/apache/ibatis/cache/decorators/TransactionalCache.java:102-111 | commit never changes the delegate's id |
| TransactionalCache.CommitContents | src/main/java/org/apache/ibatis/cache/decorators/TransactionalCache.java:102-138 | after commit: staged keys hold their staged value, even if they were also missed; unstaged misses hold a null stamp; any other key is present only if no clear was pending, and then keeps its old value |
| TransactionalCache.Commit | src/main/java/org/apache/ibatis/cache/decorators/TransactionalCache.java:102-111 | the optional clear followed by the flush yields `Committed`, and the buffer ends reset |
| TransactionalCache.RolledBack | src/main/java/org/apache/ibatis/cache/decorators/TransactionalCache.java:113-116 | rollback writes nothing: every entry left was in the delegate before, with the same value; a key is gone exactly when it was missed and its removal did not throw |
| TransactionalCache.UnlockMissedEntries | src/main/java/org/apache/ibatis/cache/decorators/TransactionalCache.java:140-150 | `removeObject` is called exactly once per missed key, so the trace is as long as the miss set, and throwing keys are included; the delegate ends as `RolledBack` |
| TransactionalCache.Rollback | src/main/java/org/apache/ibatis/cache/decorators/TransactionalCache.java:113-116 | one unlock per missed key, the delegate ends as `RolledBack`, and the buffer ends reset |
| TransactionalCache.ReadIgnoresStagedWrite | src/main/java/org/apache/ibatis/cache/decorators/TransactionalCache.java:67-88 | after `putObject(k, v)`, a read of any key answers what it would have answered without the put |
| TransactionalCache.ReadAfterClearIsNull | src/main/java/org/apache/ibatis/cache/decorators/TransactionalCache.java:71-81 | after clear, a read answers null whatever the delegate holds, and a delegate miss is still recorded |
| TransactionalCache.LastWriteWins | src/main/java/org/apache/ibatis/cache/decorators/TransactionalCache.java:84-88 | two puts to one key equal the second put alone |
| TransactionalCache.ClearThenCommitKeepsOnlyStamps | src/main/java/org/apache/ibatis/cache/decorators/TransactionalCache.java:95-111 | writes staged before a clear never reach the delegate: right after clear, commit leaves only null stamps for missed keys |
| TransactionalCache.MissThenWriteCommitsWrite | src/main/java/org/apache/ibatis/cache/decorators/TransactionalCache.java:132-137 | a key that missed and was then put commits to the value put, not to a null stamp |
| TransactionalCache.CommitResolvesEveryMiss | src/main/java/org/apache/ibatis/cache/decorators/TransactionalCache.java:132-137 | after commit every missed key has an entry in the delegate (the put that releases a blocking delegate's lock) |
| TransactionalCache.CommitAfterResetIsIdentity | src/main/java/org/apache/ibatis/cache/decorators/TransactionalCache.java:102-123 | committing a reset buffer leaves the delegate unchanged, so a repeated commit is a no-op |
| TransactionalCache.RollbackAfterResetIsIdentity | src/main/java/org/apache/ibatis/cache/decorators/TransactionalCache.java:113-123 | rolling back a reset buffer calls `removeObject` on nothing and leaves the delegate unchanged |
| TransactionalCache.ScenarioPutReadCommit | src/main/java/org/apache/ibatis/cache/decorators/TransactionalCache.java:67-111 | on an empty delegate, put("a",1) then get("a") answers null, and commit leaves exactly "a"->1 |
| TransactionalCache.ScenarioMissRollback | src/main/java/org/apache/ibatis/cache/decorators/TransactionalCache.java:67-116 | on an empty delegate, a miss on "x" then rollback unlocks exactly ["x"] and leaves the delegate empty |
| TransactionalCache.ScenarioClearPutCommit | src/main/java/org/apache/ibatis/cache/decorators/TransactionalCache.java:95-111 | on the delegate {"a"->1}, clear then put("b",2) then commit leaves exactly "b"->2 |
| TransactionalCache.ReadsNeverSeeStagedWrites | src/main/java/org/apache/ibatis/cache/decorators/TransactionalCache.java:67-93 | in any session, every non-null read answer is the delegate's own value for that key, and every call other than a read answers null |
| TransactionalCache.ClearIsSticky | src/main/java/org/apache/ibatis/cache/decorators/TransactionalCache.java:77-100 | once a clear is pending it stays pending for the rest of the session, and every call answers null |
| TransactionalCache.RunRecordsExactlyTheMisses | src/main/java/org/apache/ibatis/cache/decorators/TransactionalCache.java:71-100 | after a session the miss set is the old one plus exactly the keys whose reads missed; no call, clear included, drops a miss |
| TransactionalCache.UnputKeyStaysUnstaged | src/main/java/org/apache/ibatis/cache/decorators/TransactionalCache.java:77-100 | a key that is not staged stays unstaged through any session that never puts it: only putObject stages a write |
| TransactionalCache.WritesBeforeClearNeverCommitted | src/main/java/org/apache/ibatis/cache/decorators/TransactionalCache.java:82-111 | across a whole session, once clear has been called, a key not put again afterwards is unstaged and commits to nothing but a null stamp, whatever was written to it before the clear or held by the delegate |
| TransactionalCacheManager.New | src/main/java/org/apache/ibatis/cache/TransactionalCacheManager.java:31 | a session's manager starts with an empty registry |
| TransactionalCacheManager.GetTransactionalCache | src/main/java/org/apache/ibatis/cache/TransactionalCacheManager.java:60-65 | get-or-insert: the result is registered under the cache's id; a registered buffer is returned with the registry unchanged; otherwise a reset buffer is added and nothing else changes |
| TransactionalCacheManager.GetTransactionalCacheIsStable | src/main/java/org/apache/ibatis/cache/TransactionalCacheManager.java:60-65 | a second lookup returns the same buffer and leaves the registry unchanged |
| TransactionalCacheManager.GetObject | src/main/java/org/apache/ibatis/cache/TransactionalCacheManager.java:38-41 | the answer and new state are the cache's own buffer's `getObject`; every other registered buffer is unchanged; the registry only grows |
| TransactionalCacheManager.PutObject | src/main/java/org/apache/ibatis/cache/TransactionalCacheManager.java:43-46 | only the cache's own buffer stages the write; every other buffer is unchanged; the registry only grows |
| TransactionalCacheManager.Clear | src/main/java/org/apache/ibatis/cache/TransactionalCacheManager.java:33-36 | only the cache's own buffer is cleared; every other buffer is unchanged; the registry only grows |
| TransactionalCacheManager.CommitSome | src/main/java/org/apache/ibatis/cache/TransactionalCacheManager.java:48-52 | after the buffers of `ids` commit, each of their delegates is its own buffer's `Committed` and every other delegate is unchanged |
| TransactionalCacheManager.RollbackSome | src/main/java/org/apache/ibatis/cache/TransactionalCacheManager.java:54-58 | after the buffers of `ids` roll back, each of their delegates is its own buffer's `RolledBack` and every other delegate is unchanged |
| TransactionalCacheManager.Commit | src/main/java/org/apache/ibatis/cache/TransactionalCacheManager.java:48-52 | every registered buffer commits into its own delegate; the registry keeps its keys and every buffer ends reset |
| TransactionalCacheManager.Rollback | src/main/java/org/apache/ibatis/cache/TransactionalCacheManager.java:54-58 | every registered buffer rolls back with one unlock per miss; the registry keeps its keys and every buffer ends reset |
| TransactionalCacheManager.RollbackWritesNothing | src/main/java/org/apache/ibatis/cache/TransactionalCacheManager.java:54-58 | after rollback, every entry of every delegate was there before with the same value, so no staged value is written |
| TransactionalCacheManager.CommitAfterCommitIsIdentity | src/main/java/org/apache/ibatis/cache/TransactionalCacheManager.java:48-52 | with every buffer reset, commit leaves every delegate unchanged, so a repeated commit is a no-op |
| TransactionalCacheManager.CommitInOrderIsCommitSome | src/main/java/org/apache/ibatis/cache/TransactionalCacheManager.java:48-52 | committing buffers one by one in an order that visits each once equals committing them all at once |
| TransactionalCacheManager.CommitOrderIrrelevant | src/main/java/org/apache/ibatis/cache/TransactionalCacheManager.java:48-52 | any two orders that visit every registered buffer once leave the same delegates |

## Left out

- Logging in `unlockMissedEntries`. A throwing `removeObject` is modelled
  only as "the entry stays as it was; go on to the next key".
- Exceptions from the delegate's `getObject`, `putObject` and `clear`. In the
  Java code they propagate out of the buffer, and out of the manager's loops,
  which have no per-cache catch. The model assumes these calls succeed. It
  does not adopt a collect-and-report policy across caches: the code has
  none, and a throw simply aborts the loop.
- Thread safety and the blocking delegate's locks. Locks are visible only
  through their release signals: the null-stamp put on commit
  (`CommitResolvesEveryMiss`) and the `unlocked` trace on rollback. Another
  session cannot change the delegate during a call. During a session (`Run`)
  the delegate is held fixed.
- `CacheKey` construction. Keys are an opaque type with equality.
- `Cache` object identity. The registry is keyed by the delegate's id string,
  the identity the delegate's equality uses.
- The manager's `Commit` and `Rollback` require every registered id to be among
  the supplied delegates. In Java the registry key is the delegate object
  itself, so a registered delegate always exists. A null cache reference is a
  caller error.
- `removeObject` of the delegate is modelled as deleting the entry. A blocking
  delegate instead only releases its lock. For such a delegate the `unlocked`
  trace is the meaningful result, and `RolledBack`'s delegate contents do not
  apply.
- Other parts of the repository are not part of this model: mapper
  registration (`MapperRegistry.java`, which is reflection and proxy
  plumbing), the demo application, and entity/mapper test types.
