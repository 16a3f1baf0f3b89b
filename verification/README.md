# A verified model of tm-db

tm-db puts one ordered key/value contract over several stores. This project models, in Dafny 4.11,
the code that implements or transforms that contract, and proves what every caller relies on.

The contract is stated once, as `Store.Enumerates`: the items an iterator yields until it is invalid
are exactly the stored pairs whose key lies in `[start, end)`, in strictly ascending or descending
order of `bytes.Compare`. It determines the result uniquely, and every backend below is proved
against it.

| file | models |
|---|---|
| `ByteStrings`, `KeyDomain` | byte order, key domains, `cpIncr` and the exact range it spans |
| `Store`, `OpLog` | the contract, sorted structures, `Set`/`Delete` logs and the B-tree operations |
| `Traversal` | the six-way B-tree walk and the visitor behind a MemDB iterator |
| `IteratorProtocol`, `MemDBSystem`, `MemDBTheorems`, `MemDBCalls` | MemDB under concurrent use, as a step system over whole runs, and each call from start to return |
| `Iterators`, `MemDB` | the iterator interface, MemDB and its batches as objects |
| `PrefixView`, `PrefixIteration`, `PrefixNesting`, `PrefixDB` | PrefixDB as a namespace, its iterator, nesting, and its objects |
| `CursorIterator` | the GoLevelDB and RocksDB iterators over a storage cursor |
| `RemoteBatch`, `RemoteIterator`, `GetStream` | the remote protocol: batches, streamed iteration, streamed reads |

A nil slice is `None` of an `Option<Bytes>` wherever the code tells nil from empty. A panic is an
out-parameter. Storage errors, lost messages and broken streams are parameters, so each statement
holds for every choice of them.

## Where the code falls short of a property

Seven properties one would expect do not hold of the code. The lemmas and methods named give, for each,
the inputs on which it fails and the exact condition under which it holds.

- Reverse iteration through a PrefixDB with a nil end. `cpIncr` keeps the length of the prefix, so
  `[p, cpIncr(p))` also holds "stray" keys: the incremented stem of `p` followed by fewer zero bytes than
  `p` has trailing 0xFF bytes. A stored stray makes the reverse iterator invalid from the start
  (`ReverseIterationLosesKeys`); the iterator is right if and only if no stray is stored or the range is empty
  (`ReverseRefinementExact`). `IteratePrefix` is restricted to the prefix under the same condition
  (`IteratePrefixExact`). Both are right over every store if and only if the prefix is all 0xFF or does not end
  in 0xFF (`PrefixDecides`).
- A PrefixDB over a PrefixDB against the concatenated prefix, reversed with a nil end
  (`NestedAndFlatDiffer`, `NestedReverseExact`).
- memdb.go documents that an iterator holds the read lock until it is closed. The goroutine releases it
  when its walk ends (`LockReleasedBeforeClose`). For an iterator that is left alone this can happen if and only
  if it has been closed or at most 64 items are undelivered (`LockReleaseExact`). The snapshot guarantee does not depend on it.
- A remote batch that sets an empty value is rejected, although the contract allows such values: an empty
  byte field is absent on the wire and arrives as nil (`EmptyValueRejectedRemotely`). A log that a local batch
  accepts is written remotely if and only if it sets no empty value (`RemoteAcceptsExactly`).
- An empty endpoint is an error for a local iterator and no bound for a remote one. Remote and local iteration
  agree, over an unbroken stream, if and only if the endpoints survive the wire, and then item by item (`RemoteAgainstLocal`).
- The loop documented in types.go reads `Error` after it to see whether the iteration was complete. An exhausted
  remote iterator always has one there, EOF after a whole stream, so it is never nil (`RemoteIterate`).
- A failed send in `GetStream` leaves its receiving goroutine blocked for good (`ReceiverLeaks`), if and only if
  the response lost in that send was not an error (`ReceiverLeaksExactly`).

## Model

| member | source | states |
|---|---|---|
| ByteStrings.CompareAntisymmetric | memdb.go:29-33 | the key order is antisymmetric and equal keys compare as zero, so `item.Less` orders the tree |
| ByteStrings.LessTransitive | memdb.go:29-33 | the key order is transitive |
| ByteStrings.AboveWholePrefix | prefixdb_iterator.go:53-55 | a key above a prefix without carrying it is above every key that carries it |
| KeyDomain.Increment | util.go:14-35 | same length, denotes the next big-endian number; nil exactly when all bytes are 0xFF |
| KeyDomain.CpIncr | util.go:18-35 | the backward carry loop computes that increment |
| KeyDomain.RangeOfIncrement | util.go:18-46 | a key is in `[p, cpIncr(p))` if and only if it has prefix `p` or is a stray of `p` |
| Store.EnumerationUnique | types.go:44-58 | the iterator contract determines the yielded sequence |
| Store.WithinEnumerates | util.go:38-46 | filtering sorted items by `IsKeyInDomain`, in order or reversed, meets the contract |
| OpLog.ApplyTreeCorrect | memdb.go:108-132 | `set` and `delete` keep the tree ordered and act on the map as insertion and removal |
| OpLog.ApplyAllAt | memdb_batch.go:70-79 | a log acts on each key through the last operation naming it |
| OpLog.LastOperationWins | memdb_batch.go:63-83 | writing a batch equals applying only the last operation per key, one per key |
| OpLog.Idempotent | remotedb/batch.go:54-65 | a log applied twice gives the same store as once |
| OpLog.ReplayExact | remotedb/batch.go:54-65 | replaying a log after other writes changes nothing if and only if both agree on every key they share |
| Traversal.DispatchIsRange | memdb_iterator.go:54-93 | the six walks with `skipEqual` and `abortLessThan` offer exactly the domain, ascending or exactly reversed, for all endpoints |
| Traversal.DispatchEnumerates | memdb_iterator.go:54-93 | that emission meets the iterator contract |
| Traversal.VisitAll | memdb_iterator.go:58-73 | the visitor's loop, uncancelled, emits what the step-by-step visitor offers |
| Traversal.Traverse | memdb_iterator.go:48-95 | a whole uncancelled traversal enumerates the domain |
| IteratorProtocol.IterStepInv | memdb_iterator.go:34-134 | every goroutine and caller step keeps: delivered + channel + untraversed = the whole range, at most 64 buffered |
| IteratorProtocol.ChannelIsFifo | memdb_iterator.go:67-72 | items leave the channel in the order sent, one per receive, and only a send or a receive touches it |
| MemDBSystem.CommittedCorrect | memdb_batch.go:63-83 | the tree after committed writes is ordered and is their in-order fold |
| MemDBSystem.StepInv | memdb.go:67-132 | every event keeps lock accounting, committed reads and the iterator invariant |
| MemDBSystem.ReachableInv | memdb_iterator.go:34-134 | every reachable state satisfies the system invariant |
| MemDBTheorems.SnapshotSafety | memdb_iterator.go:45-134 | in every interleaving the delivered items are a prefix of the range of the store that all writes issued before left, and all of it when exhausted without Close |
| MemDBTheorems.CommitsAreWrites | memdb_batch.go:67-79 | the commits of a run are exactly the valid writes issued in it, each with every one of its operations, in order |
| MemDBTheorems.ReadsAreAtomic | memdb.go:67-79 | a Get in any interleaving returns what the fold of all operations issued before it gives its key, never part of a batch |
| MemDBTheorems.StoreIsFoldOfCommits | memdb_batch.go:63-83 | with no writer inside, the store is the in-order fold of every operation issued in the run |
| MemDBTheorems.LockDiscipline | memdb_iterator.go:45-95 | one read lock per live goroutine or Get and no other; the tree changes only when none is live |
| MemDBTheorems.ReleaseNeverFatal | memdb_iterator.go:49-51 | the deferred release always finds a lock to release, exactly one |
| MemDBTheorems.GetReleaseNeverFatal | memdb.go:67-79 | so does the release at the end of a Get |
| MemDBTheorems.AbandonedIteratorBlocksWriters | memdb_iterator.go:10-15 | more than 64 undelivered items and no Close keep the lock and every writer out |
| MemDBTheorems.LockReleasedBeforeClose | memdb.go:177-183 | a run in which an open iterator's lock is gone and a writer deletes the item it then delivers |
| MemDBTheorems.LockReleaseExact | memdb_iterator.go:48-95 | an iterator left alone can release its lock by itself if and only if it is closed or at most 64 items are undelivered |
| MemDBTheorems.WaitNeverDeadlocks | memdb_iterator.go:97-134 | in every reachable state a waiting caller or its goroutine can move |
| MemDBTheorems.WorkBoundsMoves | memdb_iterator.go:58-134 | in any run the moves before the next call are bounded by untraversed plus buffered items |
| MemDBTheorems.WaitEnds | memdb_iterator.go:97-134 | priming, Next and Close return through the iterator's own moves, within that bound |
| MemDBTheorems.WritersGetIn | memdb_iterator.go:49-51 | once every iterator is exhausted or closed, one release per held lock admits any writer |
| MemDBTheorems.InvalidForever | memdb_iterator.go:105-134 | an invalid iterator has an empty closed channel and stays invalid, delivering nothing, in every continuation |
| MemDBTheorems.CloseInvalidates | memdb_iterator.go:106-112 | a returned Close leaves the iterator invalid |
| MemDBCalls.PrimingTakesFirst | memdb_iterator.go:97-102 | a new iterator, in any interleaving, returns on the first item of its range, or invalid if that is empty |
| MemDBCalls.NextAdvances | memdb_iterator.go:125-134 | Next, in any interleaving, returns on exactly the next item of the range, or invalid if there is none |
| MemDBCalls.LoopDeliversAll | types.go:109-120 | from any reachable state the loop of Next over an open iterator can run to its end and has then delivered the whole range |
| MemDBCalls.CloseReturns | memdb_iterator.go:106-112 | Close can be called between calls, returns through the iterator's own moves, delivers nothing and leaves the iterator invalid and its channel closed |
| MemDBCalls.CloseStopsWalk | memdb_iterator.go:67-72 | once closed, the goroutine can release its lock within five moves, however much of the range is left |
| MemDBCalls.GetReturns | memdb.go:67-79 | a Get with no writer inside runs to its return and answers from the store it found, which it leaves unchanged |
| MemDBCalls.WriteReturns | memdb_batch.go:63-83 | a write that finds no lock held can run to its end and leaves the fold of all its operations |
| MemDBCalls.AdmissionExact | memdb.go:67-127 | readers get in exactly when no writer is inside, writers exactly when nobody is |
| MemDB.MemDB.Get | memdb.go:67-79 | the stored value or nil, or the error for an empty key |
| MemDB.MemDB.Has | memdb.go:82-90 | whether the key is stored, or the error for an empty key |
| MemDB.MemDB.Set | memdb.go:93-105 | the checks in order; the map gains the pair or is unchanged; the tree stays ordered |
| MemDB.MemDB.Delete | memdb.go:118-127 | the check; the map loses the key or is unchanged; the tree stays ordered |
| MemDB.MemDB.NewIterator | memdb.go:176-192 | empty endpoints are refused; otherwise the iterator enumerates the domain, without empty keys |
| MemDB.MemDBBatch.Set | memdb_batch.go:36-48 | checks in order; the log grows by the operation or is unchanged |
| MemDB.MemDBBatch.Delete | memdb_batch.go:51-60 | checks in order; the log grows by the operation or is unchanged |
| MemDB.MemDBBatch.Write | memdb_batch.go:63-83 | the map becomes the in-order fold of the log, once; a closed batch only errors; the unknown-operation error is never returned |
| MemDB.MemDBBatch.Close | memdb_batch.go:91-94 | closes the batch, any number of times |
| PrefixView.ViewOfApplyAll | prefixdb_batch.go:18-41 | a log or batch through the view acts on the view as on a store of its own |
| PrefixView.OutsideUntouched | prefixdb.go:54-97 | no key outside the namespace changes |
| PrefixView.NamespaceIsolation | prefixdb.go:54-97 | in any interleaving of writes and batches through two unrelated views each evolves as if alone |
| PrefixView.IsolationExact | prefixdb.go:183-185 | two views are isolated if and only if neither prefix is a prefix of the other |
| PrefixView.ViewOfView | prefixdb.go:183-185 | a view of a view is the view behind the concatenated prefix |
| PrefixView.LiftOfLift | prefixdb_batch.go:18-36 | nested views and batches write the same source keys as the flat one |
| PrefixView.NestedSessionIsFlat | prefixdb.go:26-97 | any session of reads, writes and batches through PrefixDBs nested to any depth leaves the same source and reads the same values as through one flat PrefixDB |
| PrefixView.SessionOnOwnStore | prefixdb.go:26-97 | such a session reads and leaves what it would on a store of its own that starts as the view |
| PrefixView.SessionSource | prefixdb.go:54-97 | such a session leaves the fold of its prefixed writes over the source it began with |
| PrefixView.SessionReads | prefixdb.go:26-97 | every read of such a session returns what the writes before it, folded over the view at the start, give its key |
| PrefixIteration.DomainTranslation | prefixdb.go:105-111 | a key is in the view's domain if and only if its source key is in the translated one |
| PrefixIteration.ForwardRefinement | prefixdb.go:100-118 | forward iteration enumerates the view, over any source, strays and the bare prefix key included |
| PrefixIteration.ReverseRefinementBounded | prefixdb.go:121-139 | reverse iteration with a present end enumerates the view |
| PrefixIteration.ReverseRefinementExact | prefixdb.go:121-139 | reverse iteration with a nil end enumerates the view if and only if no stray is stored or the range is empty |
| PrefixIteration.ReverseIterationLosesKeys | prefixdb.go:126-133 | a store and prefix whose reverse iterator yields nothing although the view has a key |
| PrefixIteration.IteratePrefixExact | prefixdb_iterator.go:8-24 | the listed keys are exactly those with the prefix if and only if no stray is stored |
| PrefixIteration.StrayFreeExact | util.go:14-35 | no store can hold a stray if and only if the prefix is all 0xFF or does not end in 0xFF |
| PrefixIteration.PrefixDecides | prefixdb_iterator.go:8-24 | listing the prefix, and reverse iteration of the whole view, are right over every store if and only if the prefix is such |
| PrefixNesting.NestedIterationSame | prefixdb.go:100-139 | nested and flat iterators yield the same forward, and reversed with a present end |
| PrefixNesting.NestedReverseExact | prefixdb.go:121-139 | reversed with a nil end they yield the same if and only if the stated condition on strays holds |
| PrefixNesting.NestedAndFlatDiffer | prefixdb.go:126-133 | a store and two prefixes on which they differ |
| PrefixDB.PrefixIterator.constructor | prefixdb_iterator.go:38-64 | skips a bare prefix key, is invalid on a foreign one, and is left to yield the stripped run |
| PrefixDB.PrefixIterator.Valid | prefixdb_iterator.go:72-85 | true exactly while items remain; the backend error never arises |
| PrefixDB.PrefixIterator.Next | prefixdb_iterator.go:88-99 | drops the current item, panics exactly when invalid; the recursion moves the source at most two items |
| PrefixDB.PrefixIterator.Current | prefixdb_iterator.go:102-112 | the current stripped key, never empty, and its value |
| PrefixDB.Drain | types.go:109-120 | the caller's loop collects exactly what remained |
| PrefixDB.PrefixDB.Get | prefixdb.go:26-37 | the view's value or nil, or the error for an empty key |
| PrefixDB.PrefixDB.Set | prefixdb.go:54-67 | the view gains the pair or is unchanged; nothing outside the namespace changes |
| PrefixDB.PrefixDB.Delete | prefixdb.go:82-88 | the view loses the key or is unchanged; nothing outside the namespace changes |
| PrefixDB.PrefixDB.NewIterator | prefixdb.go:100-139 | refuses empty endpoints; enumerates the view, or nothing in the stray case |
| PrefixDB.IteratePrefix | prefixdb_iterator.go:10-24 | lists every key with the prefix, and only those exactly when no stray is stored, for which a stray-free prefix suffices |
| PrefixDB.PrefixBatch.Set | prefixdb_batch.go:18-27 | checks in order; the prefixed operation is logged |
| PrefixDB.PrefixBatch.Delete | prefixdb_batch.go:30-36 | checks in order; the prefixed operation is logged |
| PrefixDB.PrefixBatch.Write | prefixdb_batch.go:39-41 | the view becomes the fold of the operations as given; nothing outside the namespace changes |
| CursorIterator.SliceEnumerates | goleveldb_iterator.go:19-48 | the items between the two seek positions are the range, in either direction |
| CursorIterator.Position | goleveldb_iterator.go:20-40 | Seek, First, Last and Prev leave the cursor on the first item of the range or next to it, unless the storage fails within exactly these one or two moves |
| CursorIterator.CursorIterator.constructor | rocksdb_iterator.go:21-50 | a new iterator has the whole range ahead, unless the storage failed during positioning |
| CursorIterator.CursorIterator.BoundsAreRange | goleveldb_iterator.go:74-89 | the one-sided bound check sees exactly whether the cursor is still in the range |
| CursorIterator.CursorIterator.Valid | goleveldb_iterator.go:56-93 | true exactly while items remain; the memo never changes the answer |
| CursorIterator.CursorIterator.Next | rocksdb_iterator.go:109-116 | drops the current item, panics exactly when invalid and then moves nothing; fails exactly when the storage does |
| CursorIterator.Drain | types.go:109-120 | all that remained and no error exactly when the storage lasts one move per item; otherwise an error and exactly the items before the failure |
| CursorIterator.AgreeingCursors | goleveldb.go:179-194 | cursors that agree on the domain have the same enumerations |
| CursorIterator.GoLevelDBIterate | goleveldb.go:179-194 | over the limited cursor: the whole range and no error exactly when the storage lasts, else exactly the part before the failure; empty endpoints are refused |
| CursorIterator.RocksDBIterate | rocksdb.go:172-188 | over the unlimited cursor: the same result for the same endpoints and storage |
| CursorIterator.BackendsAgree | goleveldb.go:179-194 | both backends return the same items, an enumeration of the domain when the storage lasts, and an error exactly when it does not |
| RemoteBatch.BatchWrite | remotedb/grpcdb/server.go:215-244 | all or nothing: an error exactly when some operation is faulty, namely the first one's, and the store unchanged; else the fold of all operations |
| RemoteBatch.ReplayOutcome | remotedb/grpcdb/server.go:218-231 | a request is rejected exactly when some operation has an empty key or a nil value to set, by the first such one; else its log is the operations of known type in order |
| RemoteBatch.RemoteOutcome | remotedb/grpcdb/server.go:215-244 | any client log is rejected exactly when some operation lacks a key or sets nil or an empty value, with the first one's error, and else arrives unchanged |
| RemoteBatch.ClientBatch.Set | remotedb/batch.go:28-38 | logs without checks unless closed |
| RemoteBatch.ClientBatch.Delete | remotedb/batch.go:41-51 | logs without checks unless closed |
| RemoteBatch.ClientBatch.Write | remotedb/batch.go:54-84 | success closes the batch, any error keeps its log |
| RemoteBatch.WriteWithRetries | remotedb/batch.go:54-84 | over any losses the store is as after one write if any attempt arrived, untouched otherwise; acknowledged exactly when the server accepts it and some attempt is answered; re-sent until then |
| RemoteBatch.RemoteAcceptsExactly | remotedb/grpcdb/server.go:218-231 | a locally acceptable log is written remotely if and only if it sets no empty value |
| RemoteBatch.EmptyValueRejectedRemotely | remotedb/grpcdb/server.go:218-231 | a batch that sets one empty value: written locally, rejected remotely, and the remote store does not have it |
| RemoteIterator.HandleIterator | remotedb/grpcdb/server.go:170-191 | one message per item, in order, with its key, its value or nil for an empty one, and the endpoints: all of them, ending normally, exactly when no send fails, else exactly those before the failing one |
| RemoteIterator.Serve | remotedb/grpcdb/server.go:161-200 | streams the keys and values of the local enumeration, cut off exactly where a send fails |
| RemoteIterator.ClientIterator.constructor | remotedb/iterator.go:8-18 | primed on the first message of the stream, or on its ending |
| RemoteIterator.ClientIterator.Next | remotedb/iterator.go:104-110 | advances by one message; once invalid it stays invalid although nothing is checked |
| RemoteIterator.Drain | types.go:109-120 | everything received, with the stream's ending as the error, EOF included |
| RemoteIterator.RemoteIterate | remotedb/remotedb.go:117-123 | the client sees the keys and values of the whole local enumeration and EOF exactly when server and connection carry it, otherwise exactly the messages that got through; the error is never nil |
| RemoteIterator.LocalKeys | remotedb/grpcdb/server.go:170-191 | no key of the range is empty, so every key survives the wire |
| RemoteIterator.RemoteAgainstLocal | remotedb/remotedb.go:117-123 | over an unbroken stream remote and local iteration agree in every key and value, nil for an empty value, if and only if the endpoints survive the wire; an empty one, refused locally, is no bound remotely |
| GetStream.Respond | remotedb/grpcdb/server.go:92-121 | the answer to a request is what a Get on the store gives: its value or nil, or its error with the key |
| GetStream.EnabledExactly | remotedb/grpcdb/server.go:100-135 | which of receiver, channel and sender can move when, and that writers can at any time |
| GetStream.StepInv | remotedb/grpcdb/server.go:100-135 | every step of receiver, channel and sender keeps sent + in flight = the answers due |
| GetStream.GetStreamOrder | remotedb/grpcdb/server.go:100-135 | in every run the sent responses are a prefix of the answers to the requests received, in that order: the value stored at the time, nil, or the error for an empty key, only the last an error |
| GetStream.AnswersGetOut | remotedb/grpcdb/server.go:128-134 | unless a send fails, everything received can be answered and sent, and the stream ends if the receiver has |
| GetStream.NothingAfterError | remotedb/grpcdb/server.go:107-121 | nothing is received or sent after an error response |
| GetStream.FailedSendLeaksReceiver | remotedb/grpcdb/server.go:129-133 | after a failed send an unfinished receiver never ends, in any continuation |
| GetStream.ReceiverLeaks | remotedb/grpcdb/server.go:129-133 | a run with one request and a failed send whose receiver never ends |
| GetStream.ReceiverLeaksExactly | remotedb/grpcdb/server.go:105-133 | after a failed send in any run the receiver can still end if and only if the lost response was an error |

## Left out

- badger_db.go, boltdb and cleveldb: wrappers over libraries; their iterator logic repeats the cursor part.
- Point operations and batches of GoLevelDB and RocksDB: thin calls into the library.
- The internals of the B-tree and of the storage engines: a sorted sequence and a cursor with their documented operations.
- `IteratorNoMtx` and `ReverseIteratorNoMtx`: they take no lock, so there is no snapshot to prove; the traversal result covers them on a quiescent store.
- The fairness of `sync.RWMutex`: a waiting writer may hold back new readers in Go; the model admits those schedules and more, so safety covers them, and no bound on a writer's wait is claimed.
- Concurrent use of one iterator by several callers, which the interface rules out.
- MemDB.MemDB.NewIterator: states the result on a store nobody writes meanwhile; interleaved use is the subject of the step system.
- PrefixDB.PrefixDB.NewIterator: the object is modelled over a MemDB source; `PrefixIteration` and `PrefixNesting` cover every source that meets the contract. An empty prefix with a nil end is excluded, since `cpIncr` panics on it.
- An iterator object over an iterator object of another PrefixDB: `PrefixIterator` wraps a source iterator, and nested iteration is covered as the yield of a yield in `PrefixNesting`.
- RemoteBatch.BatchWrite: over a MemDB backend; other backends may not apply a batch atomically.
- Protobuf encoding beyond the fate of empty byte fields, gRPC, TLS and timestamps.
- `Domain`, `Error` accessors, `Print`, `Stats`, `Close` of databases, the backend registry and the durability of the Sync variants: easy members or I/O.
- Callers that modify slices they passed or received, which the interface forbids.
