# A verified model of anarchoredis

anarchoredis puts a proxy in front of a Redis server that answers a write only once it is in a
replicated log. This project models three of its components in Dafny 4.11 and proves what they
promise, or exactly when they keep it:

* **The Raft log store** (`raft/`): a log and a stable key/value map on one ordered byte-string
  database. `Bytes`, `Badger`, `LogStore`, `LogIndex`, `DeleteRangeProofs`, `DeleteSafety`,
  `StoreRefinement`, `Outcomes`, `LogInterval`, `BadgerStores`.
* **The RESP coder** (`protocol/message`): `Decimal`, `Codec`, `Grammar`, `Coder`.
* **The acknowledge-after-log protocol** (`anarchoredis/`): `Protocol`, `ProtocolInvariant`,
  `ProtocolTheorems`, `ProtocolOrder`, `ProtocolRuns`, `ProtocolProgress`, with the lock store in `KeyLocker` and the replication loop in `Replication`.

`dafny verify dfyconfig.toml` checks everything.

## How the environment is modelled

* A Badger transaction is `Txn(room, limit, commits)`: it takes `room` writes, answers the next one
  with "too big" or another error, and its commit takes effect as a whole or not at all. A call
  that starts over when a transaction is full is given a list of them and uses one per start; when
  the list is used up the outcome is `Running`. Nothing bounds the list, so a call that would
  never end is one that is `Running` after every list.
* An iterator is the sorted snapshot of the keys at its creation.
* A log entry is an opaque value that decoding gives back as it was encoded.
* A writer accepts each write or takes some bytes of it and fails; a reader gives any positive
  number of bytes up to what it is asked for, until it has none left.
* A command is a set of keys that bounds what it reads and writes, and a write's effect on the
  upstream store is any change within that set. The replication stream carries that effect.

## What is proved

**Store.** On the one database, every operation is an operation of two independent maps, through
whole runs and with failed calls (`RunRefines`). `DeleteRange` can do more than it is asked: its scan
does not stop at the end of the log, so it can delete index 0 and eight-byte stable names, and a
transaction that fills up on a stable name starts the call over from whatever index that name reads
as. It removes exactly the indices asked for, in every call that ends and however the work is split
into transactions, if and only if the store is `Safe` to begin with (`AlwaysExactIff`). With names
longer than eight bytes, which is what the Raft library stores, truncating the log is exact in that
sense if and only if nothing is kept below the cut (`LongNamesExactIff`). The call is
certain to end if and only if it is not `Restless` (`DeleteEndsIff`): stable names of other
lengths are scanned and never removed, and filling up on them restarts the call for ever.
`LastIndex` is the last index if and only if none is stored from 2^64 - 256 on (`LastExactIff`).
A call that starts over fails if and only if a transaction that it uses meets a fault or does not
commit, and then leaves what it had left before that one (`DeleteOutcomeIff`, `StoreOutcomeIff`,
`FailedDeleteLeaves`, `FailedStoreLeaves`). The log has no hole at any point of a run that appends after the last index, writes stable values as
it likes, and deletes only from the first index on or successfully up to the last one
(`AlwaysContiguous`). A truncation that fails part way can leave a hole (`FailedDeleteLeavesHole`): on
a safe store a deletion leaves none, whatever becomes of it, if and only if it begins at or below
the first index, or finds nothing, or finds one index, the last (`NeverHolesIff`).

**Coder.** A message survives `Encode` and the intended decoder, whatever bytes follow it, if and only
if it is `Encodable` (`RoundTripIff`); so no encoding is the beginning of another. The decoder accepts
exactly what a grammar of the wire format derives, error replies and foreign numerals included
(`DecodeIff`). `Encode` refuses exactly error messages, short bodies and broken iterators
(`EmitOkIff`). The count
`Encode` returns is what the writer accepted, for every message and every writer. The size a decoded
message reports is right only for simple messages and empty collections (`ReportedSizeIff`), and
so is the replication offset that adds those sizes up, unless it is wrong by a multiple of 2^64
(`OffsetExactIff`).

**Protocol.** In every state of every run with any number of requests, in the intended order: replaying the
log gives the upstream value of every unlocked key; an answered write that has a key is in the log;
an answered read returned, on all its keys at once, what a prefix of the log gives, and that prefix
holds every write answered before the read was submitted. Together: there is one order of all
answered requests, but for writes without a key, that keeps to real time and never changes, in which
each finds on its keys what the writes before it have left (`StronglyConsistent`, `OrderStays`). This is
tied to the steps of the run: what they find is what the write steps wrote (`FindsIssued`), the
order is that of real time (`RealTime`), and a request whose keys have all reached the stream can be
answered (`CanBeAnswered`).

## Where the code differs from its intent

* `Transactor.proxy` forwards a request before it locks its keys. The protocol is proved with the lock
  first, as the repository's README states it; `AnswersOnlyLoggedIff` and `ReadsOnlyLoggedIff` show
  that the code's order breaks the promise for every write command and for every read that has a key.
* `LockKeys` puts its locks blindly and without the key prefix, which `UnlockKeys` and the lookup use and
  the subscription does not. `OwnLocksIff`, `UnlockUndoesLockIff` and `UnlockFreesIff` say exactly what is
  left of the locks then: a command does not wait for the locks it has taken, and one that does wait
  is in general never told that it need not (`UnlockNeverTold`). A lookup that fails counts as nothing locked; the model keeps that.
* `Iterate` is unfinished. `Codec.Decode` is the decoder it is meant to be; the header of `Codec.dfy` names
  the repairs. `simpleUnmarshal` is modelled as it stands in `Coder`.
* An error reported by the iterator of a map is overwritten in `Encode` and has no effect; the model has
  none.
* `StreamUpdates` adds `read.Size`, a field that messages do not have; it is read as the total size.

## Model

| member | source | states |
|---|---|---|
| Bytes.Uint64RoundTrip | raft/util.go:44-53 | the two conversions undo each other, in both directions |
| Bytes.Uint64Order | raft/util.go:44-53 | byte order on eight-byte keys is numeric order |
| Badger.NewIterator | raft/badger_store.go:286-289 | an iterator's snapshot is the ascending sequence of exactly the keys |
| Badger.Seek | raft/badger_store.go:189-190 | a forward seek separates the keys before the start from the rest |
| Badger.SeekReverse | raft/badger_store.go:211-212 | a reverse seek separates the keys up to the bound from the rest |
| LogIndex.FirstIsLeast | raft/badger_store.go:180-199 | FirstIndex is the least stored index, 0 when there is none |
| LogIndex.SeekLastReach | raft/badger_store.go:211 | the key LastIndex seeks to is past exactly the indices below 2^64 - 256 |
| LogIndex.LastIsGreatest | raft/badger_store.go:202-221 | LastIndex is the greatest stored index below 2^64 - 256, 0 when there is none |
| LogIndex.LastExactIff | raft/badger_store.go:202-221 | LastIndex is the greatest stored index iff none is stored from 2^64 - 256 on |
| DeleteRangeProofs.HitsAre | raft/badger_store.go:291-298 | the scan hits the indices in range and, unless an index past the range stops it, stable keys |
| DeleteRangeProofs.DeleteEffect | raft/badger_store.go:283-318 | however the work is split on log keys, an ended call removed the range and the strays, any other call exactly the indices below a cut |
| DeleteRangeProofs.StraysAre | raft/badger_store.go:291-300 | beside the range only index 0 and eight-byte stable names reading up to max can go |
| DeleteRangeProofs.DeleteExactIff | raft/badger_store.go:291-311 | an ended call removed exactly the stored indices in [min, max] iff the store was Harmless |
| DeleteRangeProofs.DeleteHarmless | raft/badger_store.go:283-318 | on a harmless store: exactly the range when it ends, exactly an initial part of it otherwise |
| DeleteRangeProofs.DeleteBlocked | raft/badger_store.go:283-318 | with an index stored past the range the same holds for every split into transactions |
| DeleteRangeProofs.DeleteFinishes | raft/badger_store.go:300-308 | with such an index the call ends after at most one transaction more than there are indices in range |
| DeleteRangeProofs.DeleteEnds | raft/badger_store.go:292-308 | unless restless, the call ends after at most one transaction more than there are keys, two more for an empty range |
| DeleteRangeProofs.DeleteNeverEnds | raft/badger_store.go:292-308 | when restless, it is still running after any number of transactions with room for one write |
| DeleteRangeProofs.DeleteEndsIff | raft/badger_store.go:292-308 | there is a bound on its transactions iff it is not restless |
| DeleteSafety.SafeDelete | raft/badger_store.go:283-318 | on a safe store, restarts on stable keys included: exactly the range when it ends, exactly an initial part of it otherwise |
| DeleteSafety.AlwaysExactIff | raft/badger_store.go:283-318 | every ended call removed exactly the stored indices in [min, max], however its work was split, iff the store was Safe |
| DeleteSafety.ExposedRun | raft/badger_store.go:300-308 | a split in which filling up on a stable key makes the call remove every index from what that key reads as up to its range |
| DeleteSafety.LongNamesExactIff | raft/badger_store.go:283-318 | with only names longer than eight bytes and nothing stored past the range, exact for every split iff nothing is stored below it |
| DeleteSafety.ExposedStore | raft/badger_store.go:291-308 | a store with indices 1 to 3 and any one long name, on which deleting index 3 can remove 1 and 2 as well |
| DeleteSafety.HarmfulStore | raft/badger_store.go:291-300 | a store on which deleting a range removes any given eight-byte name that reads up to max |
| DeleteSafety.SoundDelete | raft/badger_store.go:283-318 | the same as SafeDelete for one call whose transactions do not fill up on a stable key, or for which that does no harm |
| StoreRefinement.StorePrefix | raft/badger_store.go:255-280 | StoreLogs leaves the entries of a prefix of the batch stored one by one, of all of it on success |
| StoreRefinement.StoreFinishes | raft/badger_store.go:264-271 | StoreLogs ends after at most one transaction more than there are entries |
| StoreRefinement.StepRefines | raft/badger_store.go:180-364 | each operation gives the answer and the state of the same operation on two maps |
| StoreRefinement.RunRefines | raft/badger_store.go:180-364 | so does every run of operations, failed calls included |
| StoreRefinement.NumberRoundTrip | raft/badger_store.go:353-364 | a number set under a name is read back |
| StoreRefinement.DeleteKeepsWellFormed | raft/badger_store.go:283-318 | on every store, safe or not, DeleteRange leaves keys and values of the store's own layout |
| Outcomes.DeleteOutcomeIff | raft/badger_store.go:283-318 | DeleteRange fails iff a transaction it uses meets a fault or does not commit, and is done iff one it uses takes all that is left and commits |
| Outcomes.FailedDeleteLeaves | raft/badger_store.go:300-315 | a failed call leaves exactly what it had left, still running, after the transactions before the failing one |
| Outcomes.StoreOutcomeIff | raft/badger_store.go:255-280 | StoreLogs fails, is done or goes on exactly as the rooms, faults and commits of its transactions say |
| Outcomes.StoreDoneLeaves | raft/badger_store.go:255-280 | a StoreLogs that is done has stored the whole batch |
| Outcomes.StoreLeaves | raft/badger_store.go:255-280 | any other one has stored as many entries as the transactions it filled and committed had room for |
| Outcomes.FailedStoreLeaves | raft/badger_store.go:264-277 | a failed StoreLogs leaves exactly what it had left, still running, before the failing transaction |
| Outcomes.PutLogsAt | raft/badger_store.go:255-280 | of entries with one index the last one of the batch is stored |
| Outcomes.NumberReadIff | raft/badger_store.go:358-364 | GetUint64 panics iff the value has fewer than eight bytes, and otherwise reads the number of the first eight |
| LogInterval.FoundBetweenBounds | raft/badger_store.go:180-241 | on a log without holes GetLog finds an entry exactly between the two bounds |
| LogInterval.RemoveContiguousIff | raft/badger_store.go:283-318 | a deletion leaves no hole iff it removed nothing, began at or below the first index, or got past the last |
| LogInterval.FailedDeleteLeavesHole | raft/badger_store.go:300-311 | a run in which a deletion of two indices or more past the first one fails and leaves a hole, on every contiguous log |
| LogInterval.NeverHolesIff | raft/badger_store.go:283-318 | on a safe store every split of a deletion, ended, failed or under way, leaves no hole iff it begins at or below the first index, finds no index, or finds only the last |
| LogInterval.CompactionKeeps | raft/badger_store.go:283-318 | a deletion from the first index on that stops short of the last one meets the conditions for every split, whatever stable names are stored |
| LogInterval.OpKeepsContiguous | raft/badger_store.go:180-364 | any operation leaves no hole that continues the log, deletes hole-free or successfully up to the last index, or does not concern the log |
| LogInterval.AlwaysContiguous | raft/badger_store.go:180-364 | from the empty store on, through runs of such operations with stable writes among them, the log never has a hole |
| BadgerStores.FillTxn | raft/badger_store.go:292-311 | the delete loop takes the keys up to the first one reading above max, or fills the transaction |
| BadgerStores.BadgerStore.FirstIndex | raft/badger_store.go:180-199 | returns the least stored index |
| BadgerStores.BadgerStore.LastIndex | raft/badger_store.go:202-221 | returns the greatest stored index it can see |
| BadgerStores.BadgerStore.GetLog | raft/badger_store.go:224-241 | answers as the map of log entries does |
| BadgerStores.BadgerStore.StoreLog | raft/badger_store.go:244-252 | puts the entry into the map of log entries and leaves the stable map, or changes neither |
| BadgerStores.BadgerStore.StoreLogs | raft/badger_store.go:255-280 | the loop and its restarts do what StoreRun specifies, which puts a prefix of the batch into the map, all of it on success |
| BadgerStores.BadgerStore.DeleteRange | raft/badger_store.go:283-318 | the scan and its restarts do what DeleteRun specifies, which if sound takes an initial part of the range out of the map, all of it on success |
| BadgerStores.BadgerStore.Set | raft/badger_store.go:321-325 | puts the value into the stable map and leaves the log, or changes neither |
| BadgerStores.BadgerStore.Get | raft/badger_store.go:328-350 | answers as the stable map does |
| BadgerStores.BadgerStore.SetUint64 | raft/badger_store.go:353-355 | puts the eight bytes of the number into the stable map |
| BadgerStores.BadgerStore.GetUint64 | raft/badger_store.go:358-364 | reads a number out of what the stable map holds; fewer than eight bytes panic |
| Decimal.ParseFormatInt | protocol/message/coder.go:67-106 | a written number is read back |
| Decimal.ParseIntIff | protocol/message/coder.go:67-106 | exactly the decimal numerals of numbers that fit are read, with an optional sign and leading zeros |
| Decimal.FormatNatIs | protocol/message/coder.go:198 | a number is written as its digits, with no zero in front |
| Decimal.LineIff | protocol/message/coder.go:13-35 | a line is read back as written iff its text holds no line end |
| Codec.ChunkFlatten | protocol/message/coder.go:151-166 | pairing up a map's messages gives back its pairs |
| Codec.RoundTrip | protocol/message/coder.go:42-149 | decoding an encodable message's bytes gives it back and leaves exactly what follows |
| Codec.RoundTripIff | protocol/message/coder.go:177-307 | a message survives encoding and decoding iff it is encodable |
| Codec.PrefixFree | protocol/message/coder.go:177-257 | no encoding is the beginning of another one |
| Codec.DecodedIsEncodable | protocol/message/coder.go:42-149 | the decoder returns nothing that could not have been encoded, but error messages |
| Codec.EmitOkIff | protocol/message/coder.go:177-307 | Encode ends well iff nothing in the message is an error message, a body shorter than its run, or a collection whose iterator ends in an error |
| Grammar.SaysIff | protocol/message/coder.go:61-97 | a simple message is decoded from a line iff the line says it: its text, a numeral, or one of the words for its truth value |
| Grammar.DecodeIff | protocol/message/coder.go:42-149 | a message and a rest are decoded iff what precedes the rest is a way to write the message, with any bytes that are no kind before it |
| Grammar.ErrorLineIff | protocol/message/coder.go:64-65 | an error line is decoded as the error it carries iff it is one line |
| Grammar.EmitIsWire | protocol/message/coder.go:177-257 | what Encode writes of an encodable message is a way to write it |
| Grammar.WireShortfall | protocol/message/coder.go:98-128 | how many bytes of a message, however written, its reported size leaves out, kind by kind |
| Codec.ReportedShortfall | protocol/message/coder.go:98-128 | the same of the bytes that Encode writes |
| Codec.ReportedSizeIff | protocol/message/coder.go:98-128 | the reported size is at most that of the encoding, and equal iff the message is simple or an empty collection |
| Coder.SimpleUnmarshal | protocol/message/coder.go:13-35 | returns the shortest non-empty payload before a line end and the size it consumed, or fails having consumed all |
| Coder.UnmarshalsIff | protocol/message/coder.go:13-35 | it recovers a line's text iff that is not empty and holds no line end past its first byte |
| Coder.OneLineUnmarshals | protocol/message/coder.go:27-33 | it reads every one-line text but the empty one, which a null has |
| Coder.UnmarshalSize | protocol/message/coder.go:13-35 | after the kind byte of any simple message with a text it reads that text, and the size it reports adds up to the encoding's |
| Coder.EmptyBuffer | protocol/message/coder.go:310-321 | the smaller of what is left and the chunk size, which is 409 unless one is set; at least one byte |
| Coder.CopyBody | protocol/message/coder.go:261-277 | for any chunk size, short reads and errors, writes a prefix of the run's bytes, all of them on success; bytes that come with an error are dropped; never takes more than the run from the reader |
| Coder.WriteBulk | protocol/message/coder.go:260-282 | writes the run's bytes and a line end, or the beginning of that which the reader or the writer allowed |
| Coder.Encode | protocol/message/coder.go:177-257 | the count is the bytes accepted; they are the encoding on success and a beginning of it otherwise |
| Coder.EncodeList | protocol/message/coder.go:229-239 | the same of a collection's messages |
| Coder.EncodePairs | protocol/message/coder.go:240-253 | the same of a map's pairs |
| Coder.ChunkStream | protocol/message/coder.go:151-166 | pairs the messages up in order, whichever of them come with an error, and yields exactly those errors |
| KeyLocker.LockSeenIff | anarchoredis/localstate/keylocker.go:107-123 | after LockKeys a key is seen locked iff it was before or the command names it in prefixed form |
| KeyLocker.LockSeenAsIntended | anarchoredis/localstate/keylocker.go:105-123 | with the prefix it is seen locked iff it was before or it is a key of the command |
| KeyLocker.UnlockUndoesLockIff | anarchoredis/localstate/keylocker.go:31-42 | exactly when UnlockKeys undoes LockKeys |
| KeyLocker.UnlockUndoesIntendedLockIff | anarchoredis/localstate/keylocker.go:31-42 | with the prefix, iff none of the keys was locked before |
| KeyLocker.DrainIff | anarchoredis/localstate/keylocker.go:81-96 | a wait ends iff every key waited for has been told removed, and waits for those that have not |
| KeyLocker.WaitShrinks | anarchoredis/localstate/keylocker.go:81-96 | more events only shrink the wait |
| KeyLocker.UnlockToldIff | anarchoredis/localstate/keylocker.go:65-96 | of locks dropped in any batches, a key's is told iff some key waited for begins its prefixed name |
| KeyLocker.UnlockFreesIff | anarchoredis/localstate/keylocker.go:65-96 | dropping all the locks waited for, in any batches, frees the command iff that holds of each key |
| KeyLocker.UnlockNeverTold | anarchoredis/localstate/keylocker.go:65-96 | a command waits for ever, whatever locks are dropped, for keys that neither begin the prefix nor begin with it |
| KeyLocker.AwaitIff | anarchoredis/localstate/keylocker.go:47-103 | AwaitUnlocked returns iff a lookup fails or each locked key is told gone by an event that some key waited for begins; it waits for the others |
| KeyLocker.AwaitFreesIff | anarchoredis/localstate/keylocker.go:47-103 | when all the locks it waits for are dropped it returns iff each key, prefixed, begins with one of them unprefixed |
| KeyLocker.AwaitNeverTold | anarchoredis/localstate/keylocker.go:47-103 | it waits for ever, whatever locks are dropped, for keys that neither begin the prefix nor begin with it |
| KeyLocker.OwnLocksIff | anarchoredis/localstate/keylocker.go:47-123 | on every store a command that has just locked its keys is let through at once iff none was locked before or is named in prefixed form |
| KeyLocker.OwnIntendedLocksIff | anarchoredis/localstate/keylocker.go:47-123 | with the prefix it waits for exactly its own keys |
| KeyLocker.LockStore.LockKeys | anarchoredis/localstate/keylocker.go:107-123 | puts the sentinel under every key, or changes nothing |
| KeyLocker.LockStore.UnlockKeys | anarchoredis/localstate/keylocker.go:31-42 | deletes every prefixed key, or changes nothing |
| KeyLocker.LockStore.AwaitUnlocked | anarchoredis/localstate/keylocker.go:47-103 | comes to the specified verdict, free exactly as AwaitIff says; a failed lookup counts as nothing locked |
| KeyLocker.LockStore.Callback | anarchoredis/localstate/keylocker.go:81-96 | takes exactly the keys told removed off the wait set |
| ProtocolInvariant.StepKeepsInv | anarchoredis/txn.go:138-226 | every step of every request, the stream handler and the lock set keeps the invariant |
| ProtocolInvariant.RunKeepsInv | anarchoredis/txn.go:138-226 | so does every run |
| ProtocolTheorems.LogAgreesOnUnlocked | README.md:8-13 | replaying the log gives the upstream value of every key that is not locked |
| ProtocolTheorems.AnsweredWriteIsLogged | README.md:8-13 | every answered write that has a key is in the log |
| ProtocolTheorems.AnsweredReadIsLogged | anarchoredis/txn.go:52-57 | every answered read is what one prefix of the log gives, with all that was logged at submission and every write answered by then in it |
| ProtocolTheorems.AnswersOnlyLoggedIff | anarchoredis/txn.go:168-226 | a write command is answered only when logged iff the lock comes first and it has a key |
| ProtocolTheorems.KeylessLeaks | anarchoredis/txn.go:201-219 | a run in which a write without keys is answered before it is logged |
| ProtocolTheorems.ForwardFirstLeaksWrite | anarchoredis/txn.go:175-206 | a run in the code's order in which a write is answered before it is logged |
| ProtocolTheorems.ForwardFirstLeaksRead | anarchoredis/txn.go:175-219 | for every read command with a key, a run in the code's order in which it returns what no part of the log gives |
| ProtocolTheorems.ReadsOnlyLoggedIff | anarchoredis/txn.go:168-219 | a read command is answered only with what a prefix of the log gives iff the lock comes first or it has no key |
| ProtocolOrder.AnsweredIsEffective | README.md:3-13 | every answered request but a write without a key has taken effect in the log |
| ProtocolOrder.StronglyConsistent | README.md:3-13 | each has its place in one total order, after all that had been answered when it was submitted, finding what a log prefix gives whose writes are exactly those before it |
| ProtocolOrder.OrderStays | README.md:3-13 | the order of two requests that have taken effect, and what they found, stays the same for the rest of the run |
| ProtocolRuns.StoreIsWritten | anarchoredis/txn.go:175-184 | the upstream store holds on each key what the last write step that wrote it wrote, set or deleted |
| ProtocolRuns.StreamIsIssued | anarchoredis/txn.go:138-166 | the stream carries exactly the writes issued, in order, and the log is a beginning of it |
| ProtocolRuns.EntryIff | anarchoredis/txn.go:138-166 | an entry of a request carries what that request's write step wrote, and each such step has one |
| ProtocolRuns.FindsIssued | README.md:3-13 | every answered request found on each key what the last of the writes issued before it in the order left there |
| ProtocolRuns.SubmissionIs | anarchoredis/txn.go:168-175 | a request is the command submitted, and has recorded what had been logged and answered by then |
| ProtocolRuns.RealTime | README.md:3-13 | a request answered in the state in which another was submitted is before it in the order |
| ProtocolRuns.WriteThenRead | README.md:3-13 | every write can come to be answered, and a read after it finds what it set or deleted |
| ProtocolProgress.CanBeAnswered | anarchoredis/txn.go:201-219 | from every reachable state an executed request can be answered unless a key of its is held by a write not in the stream or the removal of a lock has been missed |
| ProtocolProgress.UnstreamedNeverAnswered | anarchoredis/txn.go:201-219 | a write with a key that the upstream store executed without streaming it is never answered |
| Replication.OffsetStep | anarchoredis/replication/replication.go:111-163 | one message moves the offset by its size, from the new base after a resync line |
| Replication.LastResyncIsLast | anarchoredis/replication/replication.go:114-143 | no later message is a resync line |
| Replication.ResyncIs | anarchoredis/replication/replication.go:116-143 | after a resync line with an id and a number, the id is that one and the offset that number and the sizes since |
| Replication.CommandsAre | anarchoredis/replication/replication.go:146-152 | the commands handed on are those at the positions of arrays whose first word is not PING, in order |
| Replication.WrapIs | anarchoredis/replication/replication.go:163 | the offset wraps modulo 2^64 into an int64 |
| Replication.Subscriber.Dispatch | anarchoredis/replication/replication.go:111-161 | which messages end the loop, and what the others do |
| Replication.Subscriber.StreamUpdates | anarchoredis/replication/replication.go:103-167 | the log holds the completed commands in order, at most one more when the loop ends; the offset is the last base and the sizes since |
| Replication.SizesExactIff | protocol/message/coder.go:98-128 | reported sizes add up to the bytes of the messages iff each is simple or an empty collection |
| Replication.OffsetExactIff | anarchoredis/replication/replication.go:111-163 | the offset the loop keeps is the bytes since its last base iff the sizes leave out a multiple of 2^64; if they leave out less than that, iff every message since is simple or an empty collection |

## Left out

- DeleteExactIff: is about calls in which no transaction fills up on a stable key; AlwaysExactIff takes in all.
- AlwaysExactIff: is about transactions that take at least one write; one that takes none only starts the call over.
- CopyBody: a reader that returns no bytes and no error is not modelled; the loop would ask it again.
- Encode: its readers give their errors apart from their bytes; readers that do not are modelled in CopyBody and WriteBulk.
- ChunkStream: does not say what the pair yielded along with an error holds.
- AlwaysContiguous: a truncation is in a run only if it succeeds or is hole-free; NeverHolesIff says that others can leave holes.
- NeverHolesIff: is about safe stores; on others a call can remove indices outside its range.
- ParseBig: reads only the decimal form that big.Int writes; signs, prefixes and underscores are not modelled.
- Message readers are held by value, so two messages sharing one reader are not modelled.
- Floating point: a double carries its literal, neither formatted nor parsed.
- Badger's internals, value-log garbage collection, opening, closing and options.
- Msgpack encoding of log entries, and raft/appender.go, which does not compile.
- Key extraction from commands (protocol/commands.go), which is unfinished.
- CanBeAnswered: says that an answer is possible, not that the scheduler gets there.
- Lock expiry, cancellation and the SELECT database pointer.
- Writes that reach the upstream store other than through the proxy, such as key expiry.
- The replication handshake, the snapshot and the periodic acknowledgement.
- kafka, server, valkey, cmd, protocol/conn.go, logging and CachedSeq2.
