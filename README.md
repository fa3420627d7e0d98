# mydb transaction log and reference-counted cache, in Dafny

This project models the bottom layer of the mydb storage engine:

- **Parser**: the codec for the log header. A Java `long` goes to and from 8 big-endian two's-complement bytes.
- **TransactionManagerImpl**: the transaction-status log. The `.xid` file is an 8-byte header holding the transaction counter, then one status byte per transaction id (0 active, 1 committed, 2 aborted). The model covers:
  - the open-time length check `checkXIDCounter`;
  - `begin`, `commit` and `abort`, written as positioned overwrites of the file's bytes;
  - the queries `isActive`, `isCommitted` and `isAborted`, with the super transaction 0.
- **TransactionManager**: the static factory `create`. It creates `path + ".xid"`, checks that the file is readable and writable, writes the zero header and constructs the manager.
- **AbstractCache**: the reference-counted cache. Its bookkeeping is three maps (`cache`, `references`, `getting`), the counter `cnt` and the bound `maxResource`. The class has one method per critical section of `get`, plus `release` and `close`.

Everything is modelled sequentially.
- The file is a `seq<Byte>`. `Byte` is the 0..255 bit pattern of a Java byte.
- Java `long` arithmetic is written out with `Wrap64`. With it, the length check can be stated exactly: a file passes iff its length is at least 8, equals 8 plus the stored counter, and fits in a long.
- A `Panic.panic` is the `Err` outcome of a `Result`. `Panic.java` and `common/Error.java` are not part of this model; only the error names the core uses are kept.
- The file system seen by `create` is a map from path to contents. Whether the OS grants read and write access is a boolean parameter.
- The cache's loader hook `getForCache` is a function parameter. The evictor hook `releaseForCache` is recorded in a ghost log, `evictions`, of the values it receives. A second ghost log, `loads`, records the keys the loader is asked for.

Two behaviours of the code worth knowing:
- The header counter is parsed as a **signed** long, so a negative counter fails the length check.
- `close` on the cache leaves `cnt` (and `getting`) unchanged. After closing a non-empty cache, `cnt` still counts the drained keys, so `Valid()` no longer holds. The source's cache stays usable with that leaked count (a later `get` on a bounded cache can even report it full while `cache` is empty), but operations after a non-empty `close` are outside this model.

## Model

| member | source | states |
|---|---|---|
| Parser.Long2Byte | src/main/java/com/jinwang/mydb/utils/Parser.java:16-18 | long2Byte always returns exactly 8 bytes |
| Parser.ParseLong | src/main/java/com/jinwang/mydb/utils/Parser.java:11-14 | parseLong needs at least 8 bytes and reads the first 8 as a big-endian signed long; re-encoding the result gives those 8 bytes back |
| Parser.Long2ByteAt | src/main/java/com/jinwang/mydb/utils/Parser.java:16-18 | byte i of long2Byte(v) is (v >> (56 - 8i)) & 0xFF: big-endian two's complement, ByteBuffer's default order |
| Parser.ParseLongOfLong2Byte | src/main/java/com/jinwang/mydb/utils/Parser.java:11-18 | parseLong(long2Byte(v)) == v for every long v |
| Parser.Long2ByteOfParseLong | src/main/java/com/jinwang/mydb/utils/Parser.java:11-18 | long2Byte(parseLong(b)) == b[0..8] for every buffer of at least 8 bytes |
| Parser.ParseLongIgnoresTail | src/main/java/com/jinwang/mydb/utils/Parser.java:11-14 | parseLong needs at least 8 bytes and depends only on the first 8 |
| Parser.ZeroBytesDecodeToZero | src/main/java/com/jinwang/mydb/utils/Parser.java:11-18 | eight zero bytes decode to 0, and 0 encodes to eight zero bytes |
| Parser.ValueOfBytes | src/main/java/com/jinwang/mydb/utils/Parser.java:11-18 | reading back n base-256 digits of u < 256^n gives u (the unsigned core of the round trip) |
| Parser.BytesOfValue | src/main/java/com/jinwang/mydb/utils/Parser.java:11-18 | re-encoding the value of a byte sequence gives the sequence back |
| TransactionManagerImpl.XidPosition | src/main/java/com/jinwang/mydb/backend/tm/Impl/TransactionManagerImpl.java:75-77 | for every xid that fits, the status byte of xid n is at 8 + (n - 1), so xid 1 is the first byte after the header |
| TransactionManagerImpl.WriteAt | src/main/java/com/jinwang/mydb/backend/tm/Impl/TransactionManagerImpl.java:89-91 | a positioned channel write: the bytes at the offset become the data, the bytes before and after are kept, and the file grows only when the write runs past its end |
| TransactionManagerImpl.CheckXidCounter | src/main/java/com/jinwang/mydb/backend/tm/Impl/TransactionManagerImpl.java:46-68 | the check passes iff the length is at least 8, equals 8 + the header counter, and fits in a long; it then returns the counter, which lies in 0..MAX_COUNTER; otherwise BadXIDFileException |
| TransactionManagerImpl.ValidXidFileLayout | src/main/java/com/jinwang/mydb/backend/tm/Impl/TransactionManagerImpl.java:75-77 | an accepted file has a counter of at least 0 and exactly that many status bytes; every allocated xid's position is inside the file, after the header |
| TransactionManagerImpl.TruncationDetected | src/main/java/com/jinwang/mydb/backend/tm/Impl/TransactionManagerImpl.java:46-68 | an accepted log cut short by one byte is rejected |
| TransactionManagerImpl.SuperXidIsCommitted | src/main/java/com/jinwang/mydb/backend/tm/Impl/TransactionManagerImpl.java:169-184 | for xid 0, isActive is false, isCommitted true and isAborted false, whatever the file holds |
| TransactionManagerImpl.AtMostOneStatus | src/main/java/com/jinwang/mydb/backend/tm/Impl/TransactionManagerImpl.java:155-184 | the status constants are distinct, so at most one of the three queries holds for any xid |
| TransactionManagerImpl.BeginSpec | src/main/java/com/jinwang/mydb/backend/tm/Impl/TransactionManagerImpl.java:127-137 | after begin, the file is one byte longer and still passes the check; its header holds counter + 1; the new xid's byte is 0 (active); every earlier status byte is unchanged |
| TransactionManagerImpl.BeginAdvances | src/main/java/com/jinwang/mydb/backend/tm/Impl/TransactionManagerImpl.java:127-137 | a begin on a valid log leaves a valid log whose header counter is one higher |
| TransactionManagerImpl.InterruptedBeginDetected | src/main/java/com/jinwang/mydb/backend/tm/Impl/TransactionManagerImpl.java:130-132 | the state between begin's two writes (status byte appended, header still old) fails the length check |
| TransactionManagerImpl.SetStatusSpec | src/main/java/com/jinwang/mydb/backend/tm/Impl/TransactionManagerImpl.java:84-101 | overwriting the status of an allocated xid changes only its byte: the length, the counter and every other byte stay, and the file still passes the check |
| TransactionManagerImpl.BeginMakesActive | src/main/java/com/jinwang/mydb/backend/tm/Impl/TransactionManagerImpl.java:127-137 | right after begin, the new xid is active and neither committed nor aborted |
| TransactionManagerImpl.CommitMakesCommitted | src/main/java/com/jinwang/mydb/backend/tm/Impl/TransactionManagerImpl.java:140-142 | after commit(xid), only isCommitted holds for xid |
| TransactionManagerImpl.AbortMakesAborted | src/main/java/com/jinwang/mydb/backend/tm/Impl/TransactionManagerImpl.java:145-147 | after abort(xid), only isAborted holds for xid |
| TransactionManagerImpl.BeginKeepsStatus | src/main/java/com/jinwang/mydb/backend/tm/Impl/TransactionManagerImpl.java:127-137 | a later begin keeps the recorded status of every earlier xid |
| TransactionManagerImpl.SetStatusKeepsOthers | src/main/java/com/jinwang/mydb/backend/tm/Impl/TransactionManagerImpl.java:84-101 | commit or abort of one xid keeps the recorded status of every other xid |
| TransactionManagerImpl.Begins | src/main/java/com/jinwang/mydb/backend/tm/Impl/TransactionManagerImpl.java:127-137 | n successive begins from counter c return c+1, ..., c+n in order, with no gaps or repeats, and leave a valid log with counter c + n |
| TransactionManagerImpl.TransactionManagerImpl.constructor | src/main/java/com/jinwang/mydb/backend/tm/Impl/TransactionManagerImpl.java:36-41 | the manager over a checked file holds that file and its counter |
| TransactionManagerImpl.Open | src/main/java/com/jinwang/mydb/backend/tm/Impl/TransactionManagerImpl.java:36-41 | constructing a manager runs checkXIDCounter: it panics (BadXIDFileException) iff the file fails the check; otherwise the manager is valid and xidCounter is the header counter |
| TransactionManagerImpl.TransactionManagerImpl.UpdateXid | src/main/java/com/jinwang/mydb/backend/tm/Impl/TransactionManagerImpl.java:84-101 | updateXID writes the one status byte at getXidPosition(xid) and leaves xidCounter alone |
| TransactionManagerImpl.TransactionManagerImpl.IncrXidCounter | src/main/java/com/jinwang/mydb/backend/tm/Impl/TransactionManagerImpl.java:106-120 | incrXIDCCounter increments xidCounter (as a long) and writes its 8-byte encoding at offset 0 |
| TransactionManagerImpl.TransactionManagerImpl.Begin | src/main/java/com/jinwang/mydb/backend/tm/Impl/TransactionManagerImpl.java:127-137 | begin returns old xidCounter + 1; xidCounter becomes that xid; the file becomes BeginFile of the old file; the manager stays valid |
| TransactionManagerImpl.TransactionManagerImpl.Commit | src/main/java/com/jinwang/mydb/backend/tm/Impl/TransactionManagerImpl.java:140-142 | commit writes status 1 to the xid's byte only; the counter stays and the manager stays valid |
| TransactionManagerImpl.TransactionManagerImpl.Abort | src/main/java/com/jinwang/mydb/backend/tm/Impl/TransactionManagerImpl.java:145-147 | abort writes status 2 to the xid's byte only; the counter stays and the manager stays valid |
| TransactionManagerImpl.TransactionManagerImpl.CheckXid | src/main/java/com/jinwang/mydb/backend/tm/Impl/TransactionManagerImpl.java:155-166 | checkXID reads the xid's status byte from the file and compares it with the status; the byte read is the one at offset 8 + xid - 1, just after the header |
| TransactionManagerImpl.TransactionManagerImpl.IsActive | src/main/java/com/jinwang/mydb/backend/tm/Impl/TransactionManagerImpl.java:169-172 | isActive is false for xid 0 without reading the file; otherwise it holds iff the stored byte is 0 |
| TransactionManagerImpl.TransactionManagerImpl.IsCommitted | src/main/java/com/jinwang/mydb/backend/tm/Impl/TransactionManagerImpl.java:175-178 | isCommitted is true for xid 0 without reading the file; otherwise it holds iff the stored byte is 1 |
| TransactionManagerImpl.TransactionManagerImpl.IsAborted | src/main/java/com/jinwang/mydb/backend/tm/Impl/TransactionManagerImpl.java:181-184 | isAborted is false for xid 0 without reading the file; otherwise it holds iff the stored byte is 2 |
| TransactionManager.EmptyLogIsValid | src/main/java/com/jinwang/mydb/backend/tm/TransactionManager.java:54-62 | the eight-zero-byte header that create writes passes the check, with counter 0 |
| TransactionManager.Create | src/main/java/com/jinwang/mydb/backend/tm/TransactionManager.java:29-63 | an existing path + ".xid" panics with FileExistsException and leaves the disk as it was; a file that cannot be read and written panics with FileCannotRWException; otherwise the file holds exactly 8 zero bytes and the fresh manager is valid with xidCounter 0, so its first begin returns 1 |
| TransactionManager.CommitOneAbortTwo | src/main/java/com/jinwang/mydb/backend/tm/Impl/TransactionManagerImpl.java:127-147 | create, begin twice, commit(1), abort(2): the log reopens with counter 2 and length 10, 1 is committed and not active, 2 is aborted |
| AbstractCache.ValuesAt | src/main/java/com/jinwang/mydb/backend/common/AbstractCache.java:122-128 | the values of the map at the listed keys, in that order |
| AbstractCache.Cache.constructor | src/main/java/com/jinwang/mydb/backend/common/AbstractCache.java:26-32 | a new cache is empty, with cnt 0 and the given capacity, and satisfies the invariant |
| AbstractCache.Cache.TryAcquire | src/main/java/com/jinwang/mydb/backend/common/AbstractCache.java:36-69 | one locked pass of get's loop. A key in flight gives InFlight and changes nothing. A cached key gives its value and one more reference, nothing else changing. An absent key with cnt == maxResource > 0 gives Full and changes nothing. Otherwise the key is marked in flight and cnt grows by one. The invariant is kept |
| AbstractCache.Cache.FinishLoad | src/main/java/com/jinwang/mydb/backend/common/AbstractCache.java:71-89 | after the loader: on success the key moves from getting to cache with refcount 1; on an exception cnt and getting return exactly to their values before get, and the exception is returned unchanged |
| AbstractCache.Cache.Get | src/main/java/com/jinwang/mydb/backend/common/AbstractCache.java:34-90 | hit: the stored value, refcount + 1, no load. Full: CacheFullException, no load, no change. In flight: no load, no change, retry. Load: the loader is called once; on success the key is cached with refcount 1 and cnt + 1; on failure the state is exactly as before and the loader's error is returned. The invariant, and with it the capacity bound, holds throughout |
| AbstractCache.Cache.Release | src/main/java/com/jinwang/mydb/backend/common/AbstractCache.java:96-114 | a refcount above 1 is just decremented. At exactly 1, the evictor is called once with the cached value, the key leaves cache and references, and cnt drops by one. getting never changes, and the invariant is kept |
| AbstractCache.Cache.Close | src/main/java/com/jinwang/mydb/backend/common/AbstractCache.java:119-132 | every cached value goes to the evictor once, in the key set's order; cache and references end up empty; getting, cnt and the load log are untouched |
| AbstractCache.ReleaseLastThenGet | src/main/java/com/jinwang/mydb/backend/common/AbstractCache.java:96-114 | after the last holder releases a key, the evictor has run once on its value and the next get loads the key afresh |

## Left out

- Locks and waiting: `counterLock`, the cache `lock`, `Thread.sleep`, the busy-wait and `InterruptedException`. The model is sequential, and the in-flight phase is explicit state (`getting`, `TryAcquire`, `FinishLoad`).
- AbstractCache.Cache.Get: a key in flight ends one call with `Retry`. The source instead sleeps 1 ms and loops until the key is no longer in flight, which needs another thread.
- File I/O machinery: `RandomAccessFile`, `FileChannel`, `fc.force` durability, `IOException` handlers and the manager's `close()`. The file is a byte sequence, and I/O failures, which all panic, are not modelled.
- OS checks: `createNewFile` and `canRead`/`canWrite`. A pre-existing file is a key of the disk map, and read/write access is one flag. The disk map is a snapshot at create: later writes go to the manager's `file` field only.
- TransactionManagerImpl.TransactionManagerImpl.Commit: requires 1 <= xid <= xidCounter. The same holds for Abort and CheckXid, and IsActive, IsCommitted and IsAborted require 0 <= xid <= xidCounter. Writing beyond the end of the file, or reading past it into a zero buffer, is channel behaviour and not a designed contract.
- TransactionManagerImpl.TransactionManagerImpl.Begin: requires xidCounter < MAX_COUNTER. The grown log's length, 8 + counter + 1, must still be a long; wrap-around of the counter at Long.MAX_VALUE is not modelled.
- Status transitions: the source does not stop a second commit or abort of the same xid, and neither does the model. Monotonicity is the callers' obligation.
- AbstractCache.Cache.Close: only the intended drain result is modelled. Removing entries inside `keySet().forEach` would raise ConcurrentModificationException in Java. The hash order of the key set is a parameter, `order`.
- AbstractCache.Cache.Release: requires the key to be held (in `references`). On an unheld key the source fails with a null unboxing.
- The bodies of `getForCache` and `releaseForCache`: they are abstract, and the subclasses are not part of this model. The loader is a pure function of the key.
- Overflow of the cache's `int` counters (`cnt`, the `Integer` refcounts) is not modelled; keys are unbounded integers rather than longs.
