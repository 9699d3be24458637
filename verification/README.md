# Lotos++ in Dafny

A model of the algorithmic and concurrent core of the Lotos++ talker, with proofs.

| part | files | what is proved |
|---|---|---|
| bcrypt | `Words`, `Feistel`, `KeySetup`, `KeySchedule`, `Base64`, `Bcrypt`, `BcryptProperties`, `Published`, `Settings` | the in-place cipher loops compute Eksblowfish, the collision measure for the sign-extension bug works, a stored hash accepts exactly the passwords with its digest, and what crypt returns is, letter by letter of the setting, what an independent transcription of the published algorithm computes |
| lifetimes | `Connection`, `Protocol`, `Lifetime`, `Pool` | reference counts are exact over every interleaving, nothing is reclaimed early or twice, the close protocol |
| threads | `Scheduler`, `SchedulerRuns`, `SchedulerLimits`, `Dispatcher` | timed-wait race, no lost wake-up, exactly-once hand-over, final stops, order |
| telnet | `Telnet`, `Naws` | packet boundaries do not matter, stale buffer bytes do not matter, window sizes decode exactly, and when cutting them does matter |
| tokenizer and ids | `Splitline`, `AutoId` | printing and parsing are inverse exactly when they can be, ids of live users stay distinct |
| shared | `Wrappers`, `Octets` | the option type, and bytes as numbers |

## How it is built

Code that works in place is modelled as classes and methods over arrays, sequences and maps with the loops of the
original, each proved against a specification function or a step relation. The properties are lemmas about those.
Threads are modelled as transition systems with one step for each critical section; their theorems quantify over
whole runs, that is, over every sequence of states and actions that starts in the initial state and follows the step
relation. `hide` statements keep definitions that a proof does not need (above all the bit operations) out of the
solver's sight.

Values that come from outside are parameters: the constant tables of the cipher, the byte order of the machine, the
random characters of a new salt, the clock, the outcome of a socket write, and what a delivered line does to a user.
The cost loop follows the order of the code (key pass, then salt pass), which is also the order of published
implementations; the paper by Provos and Mazieres, "A Future-Adaptable Password Scheme", prints the two passes of
that loop the other way round.

Assumptions on the environment: `BF_LONG` has 32 bits and `BF_ROUNDS` is 16, `char` is signed, the clock does not run
backwards, updates of reference counts are atomic, and each task object is given to the scheduler or dispatcher once.

## What does not hold, and exactly when

* A hash is a setting for its own salt unless the salt text ends in a `$` after a character that stands for non-zero
  bits: `Base64.RewriteKeeps` is an equivalence, `BcryptProperties.CutSaltLosesBits` gives such a setting.
* Without the safety flag a correct and a buggy setup of different keys can be the same: `KeySetup.CollisionExact` says
  exactly for which keys, `KeySetup.CollisionWithoutMeasure` gives two, and `KeySetup.MeasureFires` says that the measure
  fires on every one of them. With the flag `KeySetup.NoCrossCollision` says exactly which pairs still agree.
* A word that ends in a backslash is not read back after quoting: `Splitline.RoundTrip` is an equivalence.
* The offset recorded for a quote that is neither closed nor at the start of the line does not point at its word:
  `Splitline.OffsetsPoint` is an equivalence, `Splitline.UnclosedQuoteMisplaced` gives a line.
* A window size of zero means "keep the old one", and a corrupt option means "keep both", but a call that finds the option
  incomplete after nine or more bytes has already stored what it saw: `Naws.CutsMatter` says for every complete option
  exactly which cuts change the outcome, `Naws.EncodedCutsMatter` what that means for well-formed ones;
  `Naws.LateCutLosesColumns` and `Naws.LateCutStoresCorrupt` give one of each.
* A message that is deferred behind a pending write is never written: `Lifetime.DeferredNeverWritten`. That happens exactly
  on a connection on which a write has thrown: `Lifetime.PendingBehindThrow`, `Lifetime.DeferredBehindThrow`.
* Stops are final and events are not lost only while ids have not wrapped around. With one id more than 2^32 - 1,
  `SchedulerLimits.BoundIsTight` is a run that loses an event and `SchedulerLimits.StopUndone` one that hands over a
  stopped one.
* A thread whose wait has timed out finds something to pop exactly when there has been no shutdown:
  `SchedulerRuns.PopsSomething`. `SchedulerLimits.StopAfterShutdown` is a run in which it does not.

## Model

| member | source | states |
|---|---|---|
| Feistel.Round | src/Security/Blowfish.cpp:156-170 | One round mixes one half with a round key and the four table lookups of the other half. |
| Feistel.EncryptBlock | src/Security/Blowfish.cpp:196-216 | The sixteen alternating rounds equal a textbook Feistel network that swaps halves after each round. |
| Feistel.EncryptUndone | src/Security/Blowfish.cpp:196-216 | For every schedule and table, the transform under the reversed schedule is its two-sided inverse. |
| Feistel.EncryptNInjective | src/Security/Blowfish.cpp:433-444 | The n-fold (so the 64-fold) encryption sends different blocks to different blocks. |
| Feistel.EncryptNOnto | src/Security/Blowfish.cpp:433-444 | The n-fold encryption reaches every block. |
| Words.FromBytesIs | src/Security/Blowfish.cpp:139-152 | Four bytes read as a word count 2^24, 2^16, 2^8 and 1, the first one most. |
| Words.OctetsOf | src/Security/Blowfish.cpp:139-152 | The bytes taken out of a word, highest first, are the four it was put together from. |
| Published.BlowfishIsEncrypt | src/Security/Blowfish.cpp:156-216 | The transform is Blowfish as published: sixteen rounds with ((S1[a] + S2[b]) ^ S3[c]) + S4[d] on the four bytes of the left half, then the last two keys. |
| KeySetup.Deviation | src/Security/Blowfish.cpp:308-312 | The branch-free bit arithmetic yields bit 16 iff the packings agree, a non-benign sign extension occurred and safety was asked for. |
| KeySetup.PackGroup | src/Security/Blowfish.cpp:274-294 | The wrap-around pointer loop packs the next four bytes of the cyclic key stream both ways and records an overwriting sign bit. |
| KeySetup.SetKey | src/Security/Blowfish.cpp:236-324 | The two output tables are the packed key and the init table mixed with it, with bit 16 of word 0 flipped iff the key must deviate. |
| KeySetup.PackingExact | src/Security/Blowfish.cpp:273-299 | Two passwords give equal correct expanded keys iff their first 72 bytes agree. |
| KeySetup.PackingsCoincide | src/Security/Blowfish.cpp:301-307 | Correct and buggy packing agree iff every byte of 128 or more follows only 0xff bytes in its group. |
| KeySetup.CrossPacking | src/Security/Blowfish.cpp:301-307 | The buggy packing is idempotent: a key whose correct words equal another key's buggy words packs the same both ways. |
| KeySetup.NoCrossCollision | src/Security/Blowfish.cpp:236-324 | A "$2a$" setup of k equals a "$2x$" setup of k' iff the keys agree on 72 bytes and hold no non-benign byte. |
| KeySetup.CollisionExact | src/Security/Blowfish.cpp:243-250 | A "$2y$" setup of k equals a "$2x$" setup of k' iff in each of the 18 groups the bytes of k are those that sign extension leaves of k'. |
| KeySetup.MeasureFires | src/Security/Blowfish.cpp:301-323 | Every key that shares its "$2y$" setup with the "$2x$" setup of a different key is one on which the measure fires. |
| KeySetup.CollisionWithoutMeasure | src/Security/Blowfish.cpp:243-250 | Two different keys that share one setup. |
| KeySetup.SetupExact | src/Security/Blowfish.cpp:264-271 | Under every prefix without the bug, the setup separates exactly the keys that differ in their first 72 bytes. |
| KeySetup.SetupDependsOn72 | src/Security/Blowfish.cpp:273-299 | Under every prefix the setup is a function of the first 72 bytes. |
| KeySchedule.ExpandCharacterised | src/Security/Blowfish.cpp:218-234 | The result of a pass is the one table in which each of the 521 blocks, written once, encrypts the block before it under the half-new table. |
| KeySchedule.SaltP | src/Security/Blowfish.cpp:377-384 | The loop over P is the first nine blocks of the uniform salted pass. |
| KeySchedule.SaltBlockS | src/Security/Blowfish.cpp:389-393 | Each half of the loop over S is the next block of the uniform pass, with the salt half its position calls for. |
| KeySchedule.SaltedPass | src/Security/Blowfish.cpp:377-400 | The split loops over P and S equal one uniform pass over 521 blocks with alternating salt halves. |
| KeySchedule.Body | src/Security/Blowfish.cpp:218-234 | BF_body is the uniform pass with the zero salt. |
| KeySchedule.MixKey | src/Security/Blowfish.cpp:405-408 | Every round key is mixed with its key word and the boxes stay. |
| KeySchedule.MixSalt | src/Security/Blowfish.cpp:418-429 | Mixing the four salt words and the last two by hand equals mixing the cyclically repeated salt as a key. |
| KeySchedule.CostLoop | src/Security/Blowfish.cpp:402-431 | The loop runs exactly count steps of ExpandKey with the key and then ExpandKey with the salt. |
| Base64.BfEncode | src/Security/Blowfish.cpp:108-137 | Writes the encoding of the given bytes at the given place and nothing else. |
| Base64.BfDecode | src/Security/Blowfish.cpp:65-106 | Fills the requested bytes, zeros after a `$`, or reports an out-of-alphabet byte; writes nothing beyond. |
| Base64.DecodeEncode | src/Security/Blowfish.cpp:75-137 | Decoding an encoding gives the bytes back, for every length and any text that follows. |
| Base64.EncodeDecode | src/Security/Blowfish.cpp:75-137 | Re-encoding a decoded alphabet text clears the unused low bits of its last character and changes nothing else. |
| BcryptProperties.CanonicalSalt | src/Security/Blowfish.cpp:446-447 | Output positions 7..28 are the encoding of the salt actually used iff the salt text is in the alphabet, but for a last `$` that cut off nothing. |
| BcryptProperties.CanonicalInAlphabet | src/Security/Blowfish.cpp:446-447 | For a salt text in the alphabet they are that text with its unused low bits cleared. |
| Base64.RewriteKeeps | src/Security/Blowfish.cpp:65-73 | Rewriting the last salt character keeps the salt iff it is not a `$` that cut off non-zero bits. |
| Settings.AlphabetOrder | src/Security/Blowfish.cpp:34-63 | The 64 characters are `.` `/` `A`-`Z` `a`-`z` `0`-`9` in this order. |
| Settings.SameBits | src/Security/Blowfish.cpp:108-137 | Three bytes and their four characters are the same 24 bits, the first highest. |
| Settings.DecodeReadable | src/Security/Blowfish.cpp:65-106 | A salt text decodes iff each character needed is in the alphabet or comes with or after a `$`. |
| Bcrypt.BfSwap | src/Security/Blowfish.cpp:139-152 | Swaps every word on a little-endian machine and none on a big-endian one. |
| Bcrypt.LoadSwapped | src/Security/Blowfish.cpp:370-371 | After BF_swap the salt words are the big-endian reading of the salt bytes on either kind of machine. |
| Bcrypt.StoreSwapped | src/Security/Blowfish.cpp:450-451 | The output bytes are the big-endian bytes of the output words on either kind of machine. |
| Bcrypt.ShiftExact | src/Security/Blowfish.cpp:357-366 | The 32-bit shift that makes the iteration count is 2^cost for every cost the two digits can give (0 to 31). |
| Bcrypt.RunSchedule | src/Security/Blowfish.cpp:373-431 | The tables after the cost loop are those of the specification for every key, flags, cost and salt. |
| Bcrypt.EncryptMagic | src/Security/Blowfish.cpp:433-444 | The six output words are the 64-fold encryptions of the magic pairs. |
| Bcrypt.BfCrypt | src/Security/Blowfish.cpp:331-455 | Succeeds iff buffer, prefix, cost and salt are acceptable, then holds the 60 characters and a NUL; on failure the buffer is untouched. |
| Bcrypt.CryptString | src/Security/Blowfish.cpp:14-32 | Draws a setting if it is given none; returns the hash string or the failure token, whatever the byte order of the machine. |
| BcryptProperties.PublishedSetup | src/Security/Blowfish.cpp:373-431 | Unless the collision measure fires, the state is EksBlowfishSetup of the cyclically packed key. |
| Published.DigestIsPublished | src/Security/Blowfish.cpp:366-455 | Unless the collision measure fires, the 23 bytes are those of a separate transcription of the published algorithm, from the magic text to the byte order of the result. |
| Settings.AcceptedMeans | src/Security/Blowfish.cpp:344-370 | A setting is accepted iff it is `$2`, one of `a`, `b`, `x`, `y`, `$`, a cost of 04 to 31, `$` and a readable salt; the cost is the number in its digits. |
| Settings.SetupByLetter | src/Security/Blowfish.cpp:326-329 | Under `b` and `y` the key is packed correctly, under `x` with the sign-extension bug, and under `a` correctly but with bit 16 flipped when the measure fires, so that it is as under `y` iff it does not. |
| Settings.TableByLetter | src/Security/Blowfish.cpp:373-431 | The state after the whole schedule is the published setup of the key words that the letter of the setting calls for. |
| Settings.SettingsDoNotCross | src/Security/Blowfish.cpp:236-324 | For accepted settings, `$2a$` with k and `$2x$` with k' share a setup iff the keys agree on 72 bytes and hold no non-benign byte. |
| Settings.SettingsSeparate | src/Security/Blowfish.cpp:264-271 | Under an accepted setting other than `$2x$`, two passwords share a setup iff they agree on 72 bytes. |
| Settings.HashByLetter | src/Security/Blowfish.cpp:446-451 | Under `$2b$` and `$2y$`, and under `$2a$` when the measure does not fire, the hash is the setting in canonical form followed by the encoded 23 bytes of the published algorithm. |
| Settings.FreshHash | src/Security/Blowfish.cpp:14-32 | A new password is hashed as `$2y$10$`, the 22 drawn characters in canonical form and the encoded 23 bytes of the published algorithm for cost 10. |
| BcryptProperties.HashIsSetting | src/Security/Blowfish.cpp:446-447 | A hash is a setting with the same prefix and cost, and with the same salt iff the salt text was not cut. |
| BcryptProperties.VerificationExact | src/Common/User.cpp:361-376 | A stored hash accepts exactly the passwords whose digest under its setting is the registered one. |
| BcryptProperties.RegisteredAccepted | src/Common/User.cpp:355-380 | crypt(p, crypt(p, s)) = crypt(p, s), also for any password with the same first 72 bytes. |
| BcryptProperties.RegisterThenLogin | src/Security/Blowfish.cpp:16-22 | With any 22 random salt characters, a registered password is accepted at login. |
| BcryptProperties.CutSaltLosesBits | src/Security/Blowfish.cpp:65-73 | An accepted setting whose hash carries another salt. |
| BcryptProperties.RejectedNeverAccepted | src/Security/Blowfish.cpp:457-472 | A stored text that crypt rejects yields a token different from it, and a missing one a hash, so no password is accepted. |
| Connection.ConnectionObject.CloseConnection | src/Network/Connection.cpp:37-52 | On an open connection, and in CLOSING, the state becomes REQUEST_CLOSE and one more close task is queued; a connection in REQUEST_CLOSE or CLOSED is unchanged; keeps the close invariant. |
| Connection.ConnectionObject.CloseConnectionTask | src/Network/Connection.cpp:54-86 | Hands out the protocol to release, and closes and releases at once or waits for the pending write; keeps the close invariant. |
| Connection.ConnectionObject.CloseSocket | src/Network/Connection.cpp:88-129 | Forgets pending reads and writes when the socket was open. |
| Connection.ConnectionObject.ReleaseConnection | src/Network/Connection.cpp:131-140 | Tries again later while messages point at the connection, otherwise stops it. |
| Connection.ConnectionObject.OnStopOperation | src/Network/Connection.cpp:142-164 | Leaves the manager once for each stop that was posted. |
| Connection.ConnectionObject.Send | src/Network/Connection.cpp:270-336 | Refuses unless open and without write error, defers behind a pending write, writes otherwise. |
| Connection.ConnectionObject.OnWriteOperation | src/Network/Connection.cpp:401-426 | Finishes a write or turns it into a close request. |
| Connection.ConnectionObject.HandleReadError | src/Network/Connection.cpp:209-221 | A failed read always ends in a close request: the state is REQUEST_CLOSE or CLOSED, with one close task in the first case. |
| Connection.ConnectionObject.OnWriteTimeout | src/Network/Connection.cpp:465-473 | Closes a connection with a pending or failed write. |
| Connection.ConnectionObject.OnReadTimeout | src/Network/Connection.cpp:455-463 | Closes a connection with a pending or failed read. |
| Connection.ConnectionObject.AddRef | src/Network/Connection.cpp:391-394 | Counts one message more; keeps the close invariant while a protocol is attached. |
| Connection.ConnectionObject.UnRef | src/Network/Connection.cpp:396-399 | Counts one message less; keeps the close invariant. |
| Connection.ApplyKeepsInv | src/Network/Connection.cpp:37-140 | Every step keeps the close invariant and never returns to OPEN or leaves CLOSED. |
| Connection.CloseProtocol | src/Network/Connection.cpp:37-164 | In every run: one close task is queued iff a close is requested, the protocol is detached at most once, the release chain starts once and the connection leaves the manager at most once. |
| Connection.StatesMoveOn | src/Network/Connection.cpp:44-84 | Over every run OPEN is never re-entered and CLOSED is final. |
| Connection.ClosingIsFinal | src/Network/Connection.cpp:37-52 | In every run, once a close has been asked for, a read has failed or a write has failed or been aborted, the connection is never OPEN again. |
| Connection.ClosesWhenIdle | src/Network/Connection.cpp:54-86 | In every run the close task closes the connection and its socket unless a write is pending, and then posts a stop iff nothing refers to it, otherwise a retry. |
| Connection.ReleaseEnds | src/Network/Connection.cpp:131-164 | In every run a retry posts the stop iff nothing refers to the connection any more, and the stop removes it from the manager. |
| Connection.TimeoutFinishesClose | src/Network/Connection.cpp:465-473 | In every run, after a write time-out in CLOSING the connection stays on its way out, with one close task queued, until that task closes it for good, whatever happens in between. |
| Connection.PendingAfterThrow | src/Network/Connection.cpp:306-336 | In every run a connection that sends has a write pending iff a write on it has thrown. |
| Protocol.ProtocolObject.ReleaseProtocol | src/Network/Protocol.cpp:49-58 | Schedules another attempt while messages point at the protocol, otherwise deletes it. |
| Protocol.ProtocolObject.DeleteProtocolTask | src/Network/Protocol.cpp:60-67 | Clears the connection and deletes, only without references. |
| Protocol.ProtocolObject.OnSendMessage | src/Network/Protocol.cpp:19-27 | Lets go of the message just sent and of no other. |
| Lifetime.ApplyKeepsInv | src/Network/OutputMessage.cpp:182-318 | Every step keeps exact counts, matching links and one place for each message. |
| Lifetime.CountsAreExact | src/Network/OutputMessage.cpp:215-311 | In every run each reference count is the number of messages not yet freed that point there, and every message is in exactly one of free list, live handle and release task. |
| Lifetime.NothingFreedEarly | src/Network/Connection.cpp:131-179 | While a message that is not free points at them, no protocol is deleted and no connection is stopped or told to stop. |
| Lifetime.ReleaseAlwaysPossible | src/Network/OutputMessage.cpp:215-246 | A release task always finds a protocol and a connection with a positive count. |
| Lifetime.ReleasedOnce | src/Network/Protocol.cpp:49-67 | From its detachment on a protocol has exactly one release attempt outstanding or has been deleted, once. |
| Lifetime.ReleaseEnds | src/Network/Protocol.cpp:49-67 | In every run a release attempt deletes the protocol iff no message points at it, otherwise it leaves one retry. |
| Lifetime.DetachedCountsFall | src/Network/OutputMessage.cpp:248-262 | After detachment the counts of a protocol and its connection can only fall and nothing is attached again. |
| Lifetime.StepOfConnection | src/Network/Connection.cpp:37-140 | Every step of the whole is, for each connection, a step of the close protocol or none. |
| Lifetime.DeferredNeverWritten | src/Network/OutputMessage.cpp:162-203 | In every run a message that has been deferred is never written before it is released, whatever passes move it between the lists. |
| Lifetime.PendingBehindThrow | src/Network/Connection.cpp:306-336 | In every run a connection that sends has a write pending iff a write on it has thrown. |
| Lifetime.DeferredBehindThrow | src/Network/Connection.cpp:293-300 | A message is deferred only behind a write that threw, on its own connection. |
| Pool.OutputMessagePool.GetOutputMessage | src/Network/OutputMessage.cpp:248-311 | Gives a message iff the pool is open and the protocol has a connection, counts it on both and no other, and puts it at the end of the automatic queue iff `autosend`; the other queues stay. |
| Pool.OutputMessagePool.InternalReleaseMessage | src/Network/OutputMessage.cpp:215-246 | Is always possible for a queued release and returns the message to the free list with the counts of its protocol and connection, and no other, lowered by one. |
| Pool.OutputMessagePool.DropHandle | src/Network/OutputMessage.cpp:210-213 | Dropping the last handle queues exactly one release task. |
| Pool.OutputMessagePool.AddToAutoSend | src/Network/OutputMessage.cpp:313-318 | The deferred queue holds a handle on the message. |
| Pool.OutputMessagePool.SendAll | src/Network/OutputMessage.cpp:162-203 | Sends the queued and then the young deferred messages in that order: sockets, deferred queue and connections end exactly as the fold over that list says, every message without handles awaits its release, and what was deferred before is not written. |
| Pool.TakeAndSend | src/Network/OutputMessage.cpp:162-311 | A message taken for a connection that sends, with nothing pending and nothing queued for it, is written by the next pass iff it was taken with `autosend`. |
| Pool.DrainSortsOut | src/Network/OutputMessage.cpp:182-202 | Each message of a pass is written, deferred or refused, as often as it was queued. |
| Pool.FirstIsWritten | src/Network/OutputMessage.cpp:182-202 | The first queued message of a connection that sends with nothing pending is written. |
| Pool.DrainRefuses | src/Network/OutputMessage.cpp:182-202 | A message is refused only if its connection no longer sends, and nothing outside the queue is written, deferred or refused. |
| Pool.YoungIs | src/Network/OutputMessage.cpp:167-180 | A pass tries again every deferred message that is not too old, as often as it was deferred, and no other. |
| Pool.DrainInOrder | src/Network/Connection.cpp:270-304 | On every connection a pass writes messages in order, and from the first it does not write defers all or refuses all. |
| Pool.DrainStalls | src/Network/OutputMessage.cpp:182-202 | A pass writes nothing on connections on which nothing can be written any more, leaves them alone, and all it defers is on such a connection afterwards. |
| Scheduler.SchedulerThread.AddEvent | src/Common/Scheduler.cpp:109-150 | While running, issues an id if there is none, queues the task under a live id and signals iff it is on top. |
| Scheduler.SchedulerThread.StopEvent | src/Common/Scheduler.cpp:152-174 | Answers true iff the id was live, and retires it. |
| Scheduler.SchedulerThread.Stop | src/Common/Scheduler.cpp:176-184 | Only the state changes. |
| Scheduler.SchedulerThread.Shutdown | src/Common/Scheduler.cpp:186-200 | Terminates with empty queue and no live ids. |
| Scheduler.SchedulerThread.ChooseWait | src/Common/Scheduler.cpp:50-63 | Waits forever iff the queue is empty, otherwise until the earliest deadline. |
| Scheduler.SchedulerThread.AfterWait | src/Common/Scheduler.cpp:68-85 | After a time-out takes a task of earliest deadline and claims its id iff it is live. |
| SchedulerRuns.NextKeepsInv | src/Common/Scheduler.cpp:46-200 | Every step keeps the part of the invariant that does not depend on ids, in every run. |
| SchedulerRuns.NextKeepsIds | src/Common/Scheduler.cpp:72-174 | Every step keeps ids one to one with accepted tasks, and stops final, while at most 2^32 - 1 ids have been issued. |
| SchedulerRuns.StepRulesNothingOut | src/Common/Scheduler.cpp:46-200 | The typing facts that a step asks for hold in every state of every run. |
| SchedulerRuns.HandedOverOnce | src/Common/Scheduler.cpp:72-103 | In every run no task is handed over twice or before max(delay, 20) ms, and a handed-over task never expires. |
| SchedulerRuns.OnTime | src/Common/Scheduler.h:49-56 | In every run an event is not handed over before its delay and 20 ms have passed since its creation, a blocked thread that is owed no notification wakes by that time, and while queued the event counts as expired only after it. |
| SchedulerRuns.StopIsFinal | src/Common/Scheduler.cpp:152-174 | While at most 2^32 - 1 ids have been issued, no task whose stop answered true is handed over. |
| SchedulerRuns.StopFindsQueued | src/Common/Scheduler.cpp:152-174 | While at most 2^32 - 1 ids have been issued, stopping a queued event that has not been stopped answers true. |
| SchedulerRuns.NoEventLost | src/Common/Scheduler.cpp:109-150 | Before a shutdown and while at most 2^32 - 1 ids have been issued, every accepted event that was not stopped is queued live, about to be handed over, or handed over. |
| SchedulerLimits.BoundIsTight | src/Common/Scheduler.cpp:115-122 | A run with 2^32 ids in which an accepted event that nobody stopped is thrown away. |
| SchedulerLimits.StopUndone | src/Common/Scheduler.cpp:115-123 | A run with 2^32 ids in which an event whose stop answered true is handed over. |
| SchedulerRuns.TimedWaitRaceSafe | src/Common/Scheduler.cpp:58-83 | In every run, at a time-out the popped task is due and nothing earlier stays behind, whatever was added during the wait. |
| SchedulerRuns.PopsSomething | src/Common/Scheduler.cpp:72-75 | When the thread is about to pop after a time-out, the queue is not empty iff there has been no shutdown. |
| SchedulerLimits.StopAfterShutdown | src/Common/Scheduler.cpp:176-200 | A run with stop after shutdown in which the thread is about to pop from an empty queue. |
| SchedulerRuns.NeverOversleeps | src/Common/Scheduler.cpp:129-147 | In every run a blocked thread that is owed no notification wakes no later than any queued deadline. |
| Dispatcher.DispatcherThread.AddTask | src/Common/Dispatcher.cpp:100-129 | While running, adds at the requested end and signals iff the list was empty. |
| Dispatcher.DispatcherThread.Take | src/Common/Dispatcher.cpp:68-72 | Takes the front task unless empty or terminated. |
| Dispatcher.DispatcherThread.Shutdown | src/Common/Dispatcher.cpp:131-167 | Runs the remaining tasks in list order and ends empty. |
| Dispatcher.NoLostWakeup | src/Common/Dispatcher.cpp:50-129 | In every run, if the thread is blocked with tasks queued, a notification is owed. |
| Dispatcher.TakenInOrder | src/Common/Dispatcher.cpp:68-129 | Every task is taken at most once, and back-appended tasks in the order accepted despite front insertions. |
| Dispatcher.FrontTakenNext | src/Common/Dispatcher.cpp:68-129 | In every run a task put in front is the next one taken, unless another is put in front before that. |
| Telnet.User.ParseTelopt | src/Common/User.cpp:439-569 | Eats exactly the complete commands and window sizes at the front of the buffer, with the flags they call for; the login starts in LOGIN_ID iff all four options are now known and were not before, otherwise the core stays. |
| Telnet.User.Absorb | src/Common/User.cpp:135-150 | Joining new bytes to carried ones ignores stale bytes and leaves data or a cut command. |
| Telnet.User.DataByte | src/Common/User.cpp:151-201 | Editing the dirty text buffer in place is pushing, popping and delivering a stack. |
| Telnet.User.URead | src/Common/User.cpp:128-203 | One packet takes the reader where the per-byte automaton goes on its bytes. |
| Telnet.User.ReadPackets | src/Common/User.cpp:128-203 | Any sequence of packets takes the reader where the automaton goes on their concatenation, and the session is exact whenever no command is pending. |
| Telnet.CommandRun | src/Common/User.cpp:446-569 | A complete command or window size changes the session as it calls for, and nothing else. |
| Telnet.SplitsAgree | src/Common/User.cpp:134-150 | Two users in the same state with any stale bytes, given the same bytes in different packets, end with the same lines, flags, stage, typed text and pending command. |
| Telnet.FlagsExact | src/Common/User.cpp:487-626 | Over any stream of data, commands and window sizes, each telnet flag is set iff it was or an answer about its option occurred, the options are complete iff all four are, and until then a new session takes no input. |
| Telnet.PartFlags | src/Common/User.cpp:446-569 | One command or window size sets the flag it is about and no other; the core stays, but for the start of the login when the options become complete. |
| Telnet.LoginStarts | src/Common/User.cpp:553-567 | Right after the part with which the options of a new session become complete, the core is the old one in stage LOGIN_ID and nothing else has changed. |
| Telnet.LoginLine | src/Common/User.cpp:128-203 | Negotiation in any order followed by a typed line and CR delivers exactly the edited line, to a user in stage LOGIN_ID. |
| Telnet.EditedMeans | src/Common/User.cpp:154-201 | BS and DEL rub out, NUL and LF are ignored and every other byte is appended. |
| Telnet.LineEnds | src/Common/User.cpp:154-201 | CR delivers exactly the text, once, and the next line starts empty. |
| Telnet.TypedLineDelivered | src/Common/User.cpp:154-201 | A typed line, with commands between its bytes, is delivered as the edited text, and the user is then as the receiver of the line leaves it. |
| Telnet.User.GetTermsize | src/Common/User.cpp:574-628 | Consumes a complete option and nothing of an incomplete one, answers the size flag while logging in, and leaves the sizes that the four positions, or the old ones for zeros, call for. |
| Naws.CombineExact | src/Common/User.cpp:590-594 | Sign extension and truncation of the high byte cancel out for every 16-bit size. |
| Naws.ReadsEncoded | src/Common/User.cpp:583-627 | For all sizes and any following bytes, an encoded option is read with its exact length and values. |
| Naws.EncodedSets | src/Common/User.cpp:583-628 | A well-formed option sets the columns and rows it carries, unless they are zero. |
| Naws.PrefixIncomplete | src/Common/User.cpp:576-599 | Every proper prefix is reported incomplete whatever stale bytes lie beyond it. |
| Naws.ReadCut | src/Common/User.cpp:583-607 | For any bytes, an option is complete from its own length on and no earlier, and neither stale nor following bytes change its meaning. |
| Naws.CutsMatter | src/Common/User.cpp:579-621 | Any complete option read in any number of pieces leaves the sizes one call would leave iff no cut comes after the eighth byte, or what the last such cut stored agrees with the held sizes wherever the option falls back to them. |
| Naws.EncodedCutsMatter | src/Common/User.cpp:579-621 | For a well-formed option: iff every cut comes before the ninth byte or each zero size was zero before. |
| Naws.LateCutStoresCorrupt | src/Common/User.cpp:602-607 | A corrupt option and a cut after which both sizes are overwritten. |
| Naws.LateCutLosesColumns | src/Common/User.cpp:579-621 | An option and a cut after which the columns are zero instead of the held ones. |
| Splitline.SplitlineObject.GetWord | src/Strings/Splitline.cpp:42-74 | Skips bytes below 33 and from 128 up, and finds the next word: up to the closing quote, or all bytes from 33 to 127; advances whenever it finds one. |
| Splitline.SplitlineObject.RemoveSlashes | src/Strings/Splitline.cpp:87-92 | The find and erase loop is left-to-right unescaping. |
| Splitline.SplitlineObject.AddWord | src/Strings/Splitline.cpp:76-98 | Appends the word the span stands for and its offset. |
| Splitline.SplitlineObject.Parse | src/Strings/Splitline.cpp:20-40 | Terminates on every line with all its words; offsets of earlier lines are kept. |
| Splitline.RoundTrip | src/Strings/Splitline.cpp:20-98 | Quoting, joining and parsing a list gives it back iff no word ends in a backslash. |
| Splitline.AnyLineReadBack | src/Strings/Splitline.cpp:20-98 | Words of bytes 33 to 127, typed plainly or in quotes, with any runs of other bytes around them, are read back exactly. |
| Splitline.OffsetsPoint | src/Strings/Splitline.cpp:76-86 | Offsets increase, and each points at its word iff it is not that of an unclosed quote that is not at the line start. |
| Splitline.UnclosedQuoteMisplaced | src/Strings/Splitline.cpp:84-86 | A line whose second offset does not point at its word. |
| AutoId.Allocator.Construct | src/Common/AutoID.h:14-32 | While an id is free the probe ends, at the first free id from the one after the last given, wrapping to 1000 before 0xFFFFFF at the start and after it when probing. |
| AutoId.Allocator.Destroy | src/Common/AutoID.h:34-40 | Frees exactly that id. |
| AutoId.UserIdInjective | src/Common/Creature.cpp:25-28 | Or-ing in the user range keeps ids apart and above every bare id. |
| AutoId.ListNeverOverwrites | src/Common/AutoList.h:22-25 | Listing a user overwrites no other entry. |
| AutoId.LiveIdsDistinct | src/Common/AutoID.h:14-40 | Over every run live ids are distinct and the table maps each id to the live user who has it. |

## Left out

- bcrypt: the run-time self-test is taken to pass; `errno`, the random source and the `BF_SCALE` 0 form of the round are not modelled.
- bcrypt: a setting shorter than 29 bytes whose salt is cut by a `$` makes the original copy bytes beyond the string; the model reads them as NUL, and the verification lemmas ask for all 29 bytes. Likewise, after such a `$` the last salt character may lie outside 0x20..0x7f, where the original looks it up beyond its table; the model then writes the character for zero, and the verification lemmas ask for one inside.
- BcryptProperties.HashIsSetting: when the salt text was cut, says only that the salt differs, because whether the two digests still coincide depends on the cipher.
- Scheduler: restart after shutdown and the exit of the thread are not modelled.
- Scheduler: task objects are entries of a table; `std::priority_queue` is a set with an arbitrary task of earliest deadline on top.
- Dispatcher: tasks run by `flush` under the lock are taken not to add tasks; the work done by a task is not modelled.
- Lifetime: `getOutputMessage` with `configureOutputMessage` is one step, and reference counts change atomically.
- Lifetime: the handle in a protocol's `m_outputBuffer` counts as one held by running code; nothing in the repository calls `getOutputBuffer`.
- Pool.OutputMessagePool.SendAll: is the run without interference from other threads (Lifetime has the interleaved steps); resetting `m_outputBuffer` is a separate step.
- Connection: `m_socket` is a flag, so a late timer that finds it null is not modelled; asio, host names and logging are left out.
- Telnet.User.ParseTelopt: asks that every sub-negotiation in the buffer is about the window size. After `IAC SB` and an option other than the two known ones the original consumes nothing and repeats, so it has no outcome to state; terminal types are left out because their handler drops bytes that follow them. A buffer that ends right after `IAC SB` is excluded too, because the original then looks at an option byte that has not arrived.
- Telnet.User.Absorb: has the restriction of Telnet.User.ParseTelopt, which it calls.
- Telnet.User.URead: has the restriction of Telnet.User.ParseTelopt.
- Telnet.User.ReadPackets: has the restriction of Telnet.User.ParseTelopt, for the stream and for where packets end.
- Telnet.SplitsAgree: has the restriction of Telnet.User.ParseTelopt. The sizes are not part of what agrees, for the reason Naws.CutsMatter gives; a delivered line is taken not to look at them.
- Telnet.FlagsExact: leaves out terminal-type sub-negotiations, which also set the terminal-type flag.
- Telnet: text written back to the client, its order, and packets of 15340 bytes or more (which the original reads as empty) are left out.
- AutoId: the lock around the constructor is taken to make it one step.
- Database drivers and batching, commands, configuration, enumerations, the exception handler and generated code.
