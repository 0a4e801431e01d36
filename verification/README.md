# Verified model of the SOCKS5 proxy's core

The project models, in Dafny, the parts of the proxy in which state is hardest to keep right, and proves what they are
for. Operations that change state in place are classes and methods; each of them is proved equal to a function on
values, and the properties are lemmas about those functions, over every input and every run.

- The hash table: triangular probing over a power-of-two capacity, tombstones, and a rehash in place that kicks live
  entries out of the way (`Probing`, `Capacity`, `Flags`, `Buckets`, `Rehash`, `Khash`). It refines a finite map.
- The user store on it, down to the bytes of a record (`UserRecord`, `UserHandler`).
- The session: handshake, relay and half-close between two sockets through two buffers (`Buffers`, `Session`,
  `SessionSafety`, `SessionTheorems`, `SessionRuns`, `SessionHandlers`). Events are whatever the live interests allow,
  with any legal size for each send and recv.
- The parsers of the handshake and what they make of the client's stream inside the session (`ByteParsers`,
  `HelloParsers`, `AuthRequestParsers`, `RequestParsers`, `Handshakes`).
- DNS over HTTPS on the byte level: the query builder, base64, and the response parser (`DohBuilder`, `Base64`,
  `DnsParser`, `DnsMessages`, `ResponseDns`).
- The credential observer and the string automata under it (`StringMatcher`, `Spoofing`, `SpoofingPop`,
  `SpoofingDialogue`, `SpoofingHttp`, `SpoofingHttpSound`, `SpoofingParsers`), and what a session feeds to it
  (`SessionObservers`).
- The selector's table, the close cascade through it and the count of connections (`Selector`, `Connections`,
  `ConnectionHandlers`).
- The administration request parser (`AdminRequests`).

System calls, their results and sizes, and the answers of the kernel are nondeterministic inputs of the models.

Places where the code does something else than its comments or the standards suggest; the model follows the code:

- A user name of 255 bytes is stored together with its password and never found again, and the password of an
  administrator must not have 255 bytes either (`UserHandler.FoundAgainExactlyWhen`).
- The search returns to its start at step 2m-1, not m; it still sees all m buckets first (`Probing.FirstReturn`).
- The reply to a password has version 5 rather than 1 (`SessionTheorems.RefusalIsDelivered`).
- FLUSH_CLOSER goes on reading after it filled the closy's buffer, and the next event drops the session
  (`SessionTheorems.FlushCloserReadsOn`, `SessionRuns.RelayIsDropped`); a client that sends far ahead in the handshake
  can be dropped too (`SessionRuns.PipelinedHelloIsDropped`). `SessionTheorems.AbortedExactlyWhen` says exactly when.
- The reply to a refused request may be cut (`SessionRuns.RequestErrorCut`); `SessionTheorems.RequestErrorAnswered` says
  exactly when it is not.
- A response that announces 256 answers is read as one without any (`DnsMessages.NoAnswersEndParsing`).
- A DNS record owned by the root is misread unless it is the first (`DnsMessages.OwnerReadExactlyWhen`).
- A name with two adjacent dots is converted to a name that ends at the first of them (`DohBuilder.AdjacentDotsCut`); a
  piece of 64 bytes or more is written with a length that is none of a label (`DohBuilder.LongLabelIsMalformed`), and a
  name may come out longer than section 3.1 of RFC 1035 allows (`DohBuilder.LongNameIsMalformed`).
  `DohBuilder.ReadingInvertsConvert` says exactly when a name reads back.
- A request with an unsupported address type is answered with a general failure, never with the reply code made for it
  (`Handshakes.RequestVerdict`).
- The credential observer does not check its arrays: `SpoofingHttpSound.HttpInBoundsExactlyWhen` and, for dialogues,
  `SpoofingDialogue.CapturesExactlyTheLogin` say exactly when they suffice.
- A base64 text of a partial group decodes to one zero byte too many (`Base64.DecodingInvertsEncoding`).
- The scanner does not compare the mismatching byte again and can miss an occurrence
  (`StringMatcher.OccurrenceFoundExactlyWhen`).
- The selector would look one past its table for the descriptor equal to the table's size
  (`Selector.LookupInBoundsExactly`); in the server's table that descriptor is not a valid one.

## Model

| member | source | states |
|---|---|---|
| `Probing.ProbeStep` | src/utilities/khash.h:235-242 | one turn of the search loop, adding the next step and masking, goes from probe i to probe i+1 of the triangular sequence |
| `Probing.ProbesDistinct` | src/utilities/khash.h:281-283 | no two of the first m probes of a power-of-two table look at the same bucket |
| `Probing.ProbesCover` | src/utilities/khash.h:322-331 | from any start, every bucket is looked at by exactly one of the first m probes |
| `Probing.ProbeNext` | src/utilities/khash.h:235-242 | within the first m probes a search does not come back to its start, so the full-circle exit is not taken before every bucket was seen |
| `Probing.FirstReturn` | src/utilities/khash.h:239 | the walk first returns to its starting bucket at step 2m-1, not m |
| `Capacity.SmearCopiesTopBit` | src/utilities/khash.h:178 | the five shift-or steps turn every 32-bit word into ones from its top bit down |
| `Capacity.RoundUp32Exactly` | src/utilities/khash.h:178 | for every 32-bit request: the least power of two not below it, or 0 for 0 and for requests above 2^31, where the word wraps |
| `Capacity.RoundUpNeighbours` | src/utilities/khash.h:309-320 | the two requests of kh_put for a capacity n: n-1 keeps it, n+1 doubles it, or wraps to 0 at 2^31 |
| `Capacity.UpperBoundExact` | src/utilities/khash.h:253 | with the double nearest to 0.77, the load limit is still (77n+50)/100 for every capacity; it leaves a bucket empty and more than half usable |
| `Capacity.LimitIsNotRounded` | src/utilities/khash.h:194-253 | for every capacity n, the product n * 0.77 and the sum with 0.5 are doubles, so neither operation rounds |
| `Rehash.NewCapacityIsPower` | src/utilities/khash.h:251-252 | for every 32-bit request the capacity is a power of two between 4 and 2^31; it is at least the request, except for requests above 2^31, for which it is 4 |
| `Flags.SetIsDelTrue` | src/utilities/khash.h:173 | marking a bucket deleted changes that bucket's delete bit and no other bit of any bucket |
| `Flags.SetIsEmptyFalse` | src/utilities/khash.h:171 | clearing the empty bit of a bucket changes nothing else |
| `Flags.SetIsBothFalse` | src/utilities/khash.h:172 | clearing both bits of a bucket changes nothing else |
| `Flags.NewFlags` | src/utilities/khash.h:256-258 | 0xaa in every byte means: every bucket empty and none deleted |
| `Buckets.HashString` | src/utilities/khash.h:397-402 | the string hash loop computes the X31 hash in 32-bit arithmetic |
| `Buckets.HashIsPolynomial` | src/utilities/khash.h:397-402 | that hash is the sum of the key's signed characters weighted by powers of 31, modulo 2^32 |
| `Buckets.FirstEmpty` | src/utilities/khash.h:322-331 | while some bucket is empty every search meets one within as many probes as there are buckets |
| `Buckets.AbsentWhenPathEnds` | src/utilities/khash.h:232-245 | a search that reached an empty bucket without meeting the key shows that the key is absent |
| `Buckets.InsertAtPoint` | src/utilities/khash.h:322-345 | writing an absent key to the last deleted bucket of its path, or its end, keeps every other key reachable and adds exactly that entry |
| `Buckets.InsertBucket` | src/utilities/khash.h:281-298 | a key written to the empty end of its probe path keeps the table well formed and adds exactly that entry |
| `Buckets.DeleteBucket` | src/utilities/khash.h:351-357 | a deleted mark removes exactly one entry and every other key stays reachable |
| `Buckets.ChangeValue` | src/utilities/khash.h:523 | a new value changes the map at that key only |
| `Buckets.ContentsSize` | src/utilities/khash.h:196-202 | the map has as many entries as there are live buckets |
| `Buckets.IterationVisitsOnce` | src/utilities/khash.h:574-580 | iterating from begin to end visits every entry of the map exactly once and nothing else |
| `Rehash.PickUp` | src/utilities/khash.h:271-298 | an entry leaves its old bucket, to be carried: old table, new table and hand together still hold the same map |
| `Rehash.PutDown` | src/utilities/khash.h:281-298 | the carried entry lands in the empty bucket where its probe path ends: the same map still |
| `Rehash.RehashStarts` | src/utilities/khash.h:256-270 | before the first move the old table holds everything and the new one nothing |
| `Rehash.RehashEnds` | src/utilities/khash.h:299-308 | when no old bucket is live the new table holds exactly the old map, without tombstones |
| `Khash.NextFree` | src/utilities/khash.h:281-283 | the inner probe loop finds an unused new bucket on the key's path |
| `Khash.Settle` | src/utilities/khash.h:284-297 | one turn of the kick-out loop: the entry in hand moves in, a live old entry standing there comes out, in one array |
| `Khash.KickOut` | src/utilities/khash.h:275-298 | the kick-out loop ends, with nothing in hand and nothing lost: the live old buckets strictly decrease |
| `Khash.MoveAll` | src/utilities/khash.h:271-301 | after the scan the new flags and the arrays store a well-formed table with exactly the old map |
| `Khash.ReallocBoth` | src/utilities/khash.h:259-268 | growing or shrinking both arrays keeps every bucket that is kept |
| `Khash.HashTable.constructor` | src/utilities/khash.h:214-216 | an empty table stands for the empty map |
| `Khash.HashTable.Get` | src/utilities/khash.h:232-245 | returns the bucket where the key lives with its value, or n_buckets exactly when the key is absent; the full-circle exit is dead |
| `Khash.HashTable.Resize` | src/utilities/khash.h:246-308 | keeps the map and its size; takes the new capacity and drops every tombstone exactly when the entries fit it, and changes nothing otherwise |
| `Khash.HashTable.Rebuild` | src/utilities/khash.h:256-308 | the in-place rehash: same map, same size, n_occupied equal to size, arrays of the new capacity |
| `Khash.HashTable.FindSlot` | src/utilities/khash.h:321-335 | the bucket chosen by kh_put: where the key lives, or the last tombstone of its path, or the path's end |
| `Khash.HashTable.Walk` | src/utilities/khash.h:326-332 | the search loop stops at the key or the end of its path, remembering the last tombstone passed |
| `Khash.HashTable.Claim` | src/utilities/khash.h:336-347 | taking the chosen bucket adds the key exactly when it was absent, and reports which |
| `Khash.HashTable.MakeRoom` | src/utilities/khash.h:311-320 | at the load limit, clearing tombstones or doubling leaves the map alone and makes room |
| `Khash.HashTable.Put` | src/utilities/khash.h:309-350 | refines insertion into a finite map: an old value is kept, the size grows by one exactly for a new key, the returned bucket holds the key |
| `Khash.HashTable.Exists` | src/utilities/khash.h:501 | true exactly for a live bucket |
| `Khash.HashTable.Value` | src/utilities/khash.h:523 | the value of a live bucket |
| `Khash.HashTable.SetValue` | src/utilities/khash.h:523 | writing through kh_value updates the map at that bucket's key and nothing else |
| `Khash.HashTable.Delete` | src/utilities/khash.h:351-357 | refines removal from a finite map; any other bucket number, n_buckets included, changes nothing |
| `UserRecord.StrCpy` | src/userHandler/userHandler.c:150-151 | strcpy writes the characters and a terminator and nothing else |
| `UserRecord.PasswordReadsBack` | src/userHandler/userHandler.h:10-19 | a copied password reads back from its record if and only if it has at most 254 bytes, or 255 and the admin flag is false, or the flag is by chance its next byte; whatever malloc returned |
| `UserRecord.NameReadsBack` | src/userHandler/userHandler.h:10-19 | a name of up to 254 bytes reads back; a longer one reads as its first 255 bytes followed by the stored password |
| `UserHandler.CreateUser` | src/userHandler/userHandler.c:143-156 | the record filled by the two copies, the count and the flag, in that order |
| `UserHandler.FoundAgainExactlyWhen` | src/userHandler/userHandler.c:74-104 | an added user is found again under its own name, with its own password, if and only if both read back: for what an administration request can carry, a name of at most 254 bytes and a password of at most 254, or 255 without the admin flag |
| `UserHandler.KeptRunsAsIntended` | src/userHandler/userHandler.c:20-128 | over every run of adds and deletes in which names and passwords read back, the store is the plain map from names to users, with the conditions for an add and a delete to succeed written out |
| `UserHandler.DeletingUndoesAdding` | src/userHandler/userHandler.c:74-128 | adding a new user whose name and password read back makes it found with its password and flag, and deleting it gives the store back as it was, administrator or not |
| `UserHandler.LongNameIsLost` | src/userHandler/userHandler.c:84-104 | a 255-byte name is not found after it was added, and adding it again with another password succeeds and takes a second place |
| `UserHandler.LongAdminPasswordIsLost` | src/userHandler/userHandler.c:143-156 | an administrator whose password has 255 bytes is stored with another one, so no login with it matches |
| `UserHandler.RunsAreSound` | src/userHandler/userHandler.c:20-128 | over every sequence of adds and deletes after init, long names and passwords included: every user is stored under the name in its record, at most 255 users, the anonymous user present and unchanged |
| `UserHandler.ApplyIsSound` | src/userHandler/userHandler.c:74-128 | every add and delete, successful or not, and whatever the new record held before, keeps those properties |
| `UserHandler.UserStore.constructor` | src/userHandler/userHandler.c:20-25 | after init the store holds exactly the anonymous user |
| `UserHandler.UserStore.Exists` | src/userHandler/userHandler.c:27-39 | true exactly for a stored name, with its admin flag |
| `UserHandler.UserStore.GetByUsername` | src/userHandler/userHandler.c:45-58 | the record of that name, or null exactly when the name is blank or absent |
| `UserHandler.UserStore.GetAnonymous` | src/states/authMethodAnnouncement/authMethodAnnouncement.c:31-41 | the anonymous user is always found, so the abort on its absence is unreachable |
| `UserHandler.UserStore.TotalUsers` | src/userHandler/userHandler.c:41-43 | the number of users, between 1 and 255, so the one-byte result does not wrap |
| `UserHandler.UserStore.AddUser` | src/userHandler/userHandler.c:74-104 | adds exactly the record made from its arguments, under the name that record holds, if and only if name and password are not null and not empty, there are fewer than 255 users and the name is not stored; else returns null and changes nothing |
| `UserHandler.UserStore.Store` | src/userHandler/userHandler.c:88-104 | the record is stored under the name in its own memory, which may be a name already there |
| `UserHandler.UserStore.DeleteUser` | src/userHandler/userHandler.c:106-128 | deletes if and only if the name is not null, not empty, not the anonymous one and stored: then exactly that name goes, else nothing changes; the result says which |
| `UserHandler.UserStore.GetAllUsers` | src/userHandler/userHandler.c:60-72 | lists every user exactly once, in a one-byte count that does not wrap |
| `UserHandler.CopyRecords` | src/userHandler/userHandler.c:60-72 | the loop copies the records of the live buckets in bucket order |
| `UserHandler.UsersListed` | src/userHandler/userHandler.c:60-72 | records in iteration order are the users, each once |
| `Buffers.Buffer.constructor` | src/buffer/buffer.c:12-22 | an initialised buffer is empty and has room for its whole block |
| `Buffers.Buffer.PointersSay` | src/buffer/buffer.c:24-48 | room, content and the two questions about them are what the pointers say |
| `Buffers.Buffer.Receive` | src/buffer/buffer.c:50-55 | bytes stored at the write pointer are appended to the content |
| `Buffers.Buffer.ReadAdv` | src/buffer/buffer.c:58-68 | the read pointer drops bytes from the front; emptied, the buffer is compacted; a negative count does nothing |
| `Buffers.Buffer.Compact` | src/buffer/buffer.c:91-103 | the content moves to the start of the block unchanged |
| `Buffers.Buffer.ReadByte` | src/buffer/buffer.c:71-80 | takes the first byte off, or gives 0 and changes nothing when there is none |
| `Buffers.Buffer.WriteByte` | src/buffer/buffer.c:83-88 | appends when there is room and changes nothing otherwise |
| `Session.ChooseIsBest` | src/states/hello/hello.c:19-50 | whatever the order of the offer, method 2 is chosen if offered, else method 0, else 0xff |
| `SessionSafety.InitInv` | src/socks5/socks5.c:482-520 | a new session satisfies the session invariant |
| `SessionTheorems.FirstArrival` | src/stateMachine/selectorStateMachine.c:33-41 | the first event starts a session that waits for a hello, with no method yet; a second one does not start it again |
| `SessionSafety.StepInv` | src/socks5/socks5.c:215-384 | every event that the live interests allow, with any legal size of any send or recv, keeps the session invariant |
| `SessionSafety.RunInv` | src/socks5/socks5.c:215-384 | the invariant holds after every run |
| `SessionTheorems.FlushClosyArrival` | src/states/close/flushClosy/flushClosy.c:7-9 | in every run, when FLUSH_CLOSER is left for FLUSH_CLOSY something is still buffered, so the result that the arrival throws away is never FINISH |
| `SessionTheorems.CloserHasBytes` | src/states/close/flushCloser/flushCloser.c:12-65 | in FLUSH_CLOSER exactly one side is open, and a closer that was not shut down yet has bytes waiting for the other side |
| `SessionTheorems.BytesConserved` | src/socks5/socks5.c:215-384 | at every moment of every run, what each side was sent followed by its buffer is what it is due, in order: nothing lost, duplicated or reordered |
| `SessionTheorems.HandshakeBytes` | src/states/requestSuccessful/requestSuccessful.c:12-40 | while relaying, bytes sent to the client plus those buffered are 5 and the method, 5 and 0 if that is 2, the ten bytes 5, 0, 0, 1 and six zeros, then the server's bytes |
| `SessionTheorems.Authenticated` | src/states/authRequest/authRequest.c:21-54 | REQUEST and later states are reached only as the anonymous user under method 0 or after a password match under method 2 |
| `SessionTheorems.NeverCrashes` | src/states/authMethodAnnouncement/authMethodAnnouncement.c:31-41 | no run reaches the abort on a missing anonymous user |
| `SessionTheorems.CrashesExactlyWhen` | src/states/authMethodAnnouncement/authMethodAnnouncement.c:25-51 | the abort is taken if and only if method 0 was announced in full and there is no anonymous user |
| `SessionTheorems.AbortedExactlyWhen` | src/socks5/socks5.c:223-260 | a session is dropped before its end if and only if a system call fails, the client leaves during the handshake, or a read is asked for with no room |
| `SessionTheorems.NoFullReadWhileForwarding` | src/states/forwarding/forwarding.c:82-106 | the read into a full buffer can only happen in AUTH_REQUEST, REQUEST or FLUSH_CLOSER: in FORWARDING an interest in reading implies room |
| `SessionTheorems.FlushCloserReadsOn` | src/states/close/flushCloser/flushCloser.c:56-58 | it does happen in FLUSH_CLOSER, whichever side is still open: after a read that fills its buffer the state still asks to read and the next event drops the session |
| `SessionRuns.RelayIsDropped` | src/states/close/flushCloser/flushCloser.c:56-58 | a run of seven events from the accepted connection leads to such a drop at the next, for either side |
| `SessionRuns.PipelinedHelloIsDropped` | src/states/hello/hello.c:63-89 | a run in which the client fills the buffer behind its hello ends in a drop at its next byte |
| `SessionTheorems.FinishDelivers` | src/states/close/flushCloser/flushCloser.c:12-65 | a relay that yields FINISH has delivered every byte received from either side and shut each socket's write side down exactly once |
| `SessionTheorems.ShutdownIsFinal` | src/states/close/flushClosy/flushClosy.c:11-53 | a socket is shut down at most once, and no byte is sent on it afterwards |
| `SessionTheorems.ShutdownTiming` | src/states/close/flushCloser/flushCloser.c:67-128 | each shutdown comes after that direction's end of stream and full drain |
| `SessionTheorems.NeverStalls` | src/states/close/flushCloser/flushCloser.c:42-64 | a session that still runs always keeps an interest that the selector can serve |
| `SessionTheorems.FlushClosyProgress` | src/states/close/flushClosy/flushClosy.c:11-53 | in FLUSH_CLOSY every successful send lowers the buffered bytes by its size and FINISH comes exactly at zero |
| `SessionTheorems.RefusalIsDelivered` | src/states/errorStates/helloError/helloError.c:11-37 | a refused hello or password is answered in full before the session ends |
| `SessionTheorems.RequestErrorAnswered` | src/states/errorStates/requestError/requestError.c:24-38 | a session that ends after a refused request has delivered the whole reply, whose ten bytes are 5, its code, 0, 1 and six zeros, if and only if the reply was in the buffer before the last write and that write sent all that was left; it always delivered a prefix |
| `SessionTheorems.ConnectOutcome` | src/states/ipConnect/ipConnect.c:14-27 | in every run, after the kernel's word on the connection, unless the send of early bytes failed or was interrupted: a failed one leads to REQUEST_ERROR with the server's side forgotten and the failure's own code in the reply's second byte, any other to REQUEST_SUCCESSFUL with the server open and code 0; nothing but a prefix of those literal bytes was sent or stands in the buffer |
| `SessionTheorems.RefusalKeepsCode` | src/states/errorStates/requestError/requestError.c:12-38 | a refused request keeps its code until the session ends, and nothing but the end comes after it |
| `SessionTheorems.HandshakeProgress` | src/states/authSuccessful/authSuccessful.c:12-48 | a two-byte answer that was in the buffer and is sent to its last byte is followed by the next state, and before that more of it goes into the buffer; a ten-byte reply is followed by the next state as soon as it found room |
| `SessionTheorems.MarshallFillsUp` | src/states/stateUtilities/request/requestUtilities.c:112-134 | a marshalling puts the rest of its message into the buffer, or as much as there is room for |
| `SessionRuns.RequestErrorCut` | src/states/errorStates/requestError/requestError.c:24-38 | a client that asks for BIND is sent as little of its refusal as the first send takes: a run of four events, for every cut |
| `Handshakes.ClientSaid` | src/socks5/socks5.c:300-346 | a session that came to its connection was sent, in any pieces, exactly the encodings of a hello whose best method is in use, of the stored user's name and password if that method asks for them, and of a CONNECT to an address; the server gets, in order, exactly what the client sent behind them |
| `Handshakes.HelloVerdict` | src/states/hello/hello.c:63-89 | a hello is waited for until it is whole, and then answered with a method if and only if its version is 5 and it offers method 0 or 2 |
| `Handshakes.AuthVerdict` | src/states/authRequest/authRequest.c:21-54 | a name and password are waited for until the bytes decide, and then accepted if and only if they are well formed and the strings in them, cut at a zero byte, are those of a stored user |
| `Handshakes.RequestVerdict` | src/states/request/request.c:39-191 | a request is waited for until its end, or its type if unsupported; a connection is tried if and only if it is a version 5 CONNECT to an address and a socket can be had; else it is refused, with the reply code of the first thing wrong |
| `Handshakes.ReadHasItsEvent` | src/socks5/socks5.c:300-346 | every read a session can make has the event that its own parser determines, unless it completes a version 5 CONNECT to a domain name for which a connection to the resolver can be had |
| `Handshakes.StepIsTracked` | src/socks5/socks5.c:215-384 | every step of a session whose event is its parser's can be followed by its parsers, whatever memory the password parser starts in |
| `Handshakes.TStepInv` | src/socks5/socks5.c:215-384 | every event keeps what the bytes taken so far were, state by state |
| `SessionObservers.ObserverSeesTheRelay` | src/states/forwarding/forwarding.c:12-69 | in every run the observer has run over exactly what was received while the relay was open, each byte once and in order of arrival, which is all that came from the server and all that the client sent since the relay began |
| `SessionObservers.StepIsWatched` | src/states/forwarding/forwarding.c:12-69 | every step of a session has a step of its observer, with any parser just initialised when the relay begins |
| `SessionObservers.SessionCaptureIsSound` | src/states/forwarding/forwarding.c:28-69 | so a POP3 capture of a session is a login that its two sides exchanged on the wire |
| `SessionObservers.SessionCapturesHttpExactlyWhen` | src/states/forwarding/forwarding.c:28-69 | an HTTP login is captured from a session, within the arrays, if and only if what its sides exchanged while it forwarded starts with one |
| `HelloParsers.BestIsChosen` | src/states/hello/hello.c:19-50 | the choice made byte after byte is the choice from the whole offer |
| `HelloParsers.AcceptsExactlyHellos` | src/parsers/hello/helloParser.c:11-76 | for every byte string (section 3 of RFC 1928): done exactly when it starts with a whole hello, with the best method chosen and nothing over-read; else it waits |
| `HelloParsers.HelloParser.FeedByte` | src/parsers/hello/helloParser.c:11-63 | one byte changes the fields, and the chosen method through the callback, exactly as the parser proved to accept hellos |
| `HelloParsers.HelloParser.Consume` | src/parsers/hello/helloParser.c:65-76 | takes exactly the model's bytes off the buffer |
| `AuthRequestParsers.FeedSafe` | src/parsers/authRequest/authRequestParser.c:90-150 | for every byte in every state, no credential is written outside its array |
| `AuthRequestParsers.AcceptsExactlyPairs` | src/parsers/authRequest/authRequestParser.c:39-150 | for every byte string and whatever the memory held (section 2 of RFC 1929): done exactly when it is decided, with an error right at a wrong version or an empty length, else holding the whole pair with nothing over-read |
| `AuthRequestParsers.AuthRequestParser.FeedByte` | src/parsers/authRequest/authRequestParser.c:39-150 | one byte changes the fields and arrays exactly as the parser proved to accept pairs |
| `AuthRequestParsers.AuthRequestParser.Consume` | src/parsers/authRequest/authRequestParser.c:47-58 | takes exactly the model's bytes off the buffer |
| `SessionHandlers.OnAuthMethod` | src/states/hello/hello.c:19-50 | the scan of the priority table keeps the better of the previous and the offered method |
| `SessionHandlers.ChooseMethod` | src/states/hello/hello.c:63-89 | the calls of the hello parser, one a method, leave the best one |
| `SessionHandlers.MarshallInto` | src/states/stateUtilities/request/requestUtilities.c:112-134 | the marshalling loops append exactly the part of the message that fits, from where they stopped |
| `SessionHandlers.SessionHandler.SetForwardingInterests` | src/states/forwarding/forwarding.c:82-106 | both interests follow the two buffers |
| `SessionHandlers.SessionHandler.FlushCloserOnWrite` | src/states/close/flushCloser/flushCloser.c:67-128 | the closer's direction is shut down once drained, and both interests follow the buffers and who is open |
| `SessionHandlers.SessionHandler.FlushCloserOnRead` | src/states/close/flushCloser/flushCloser.c:12-65 | the second end of stream leads to FINISH if the other side is closed and drained, else to FLUSH_CLOSY; more bytes only move interests |
| `SessionHandlers.SessionHandler.FlushClosyOnWrite` | src/states/close/flushClosy/flushClosy.c:11-53 | each drained direction is shut down once; FINISH exactly when both sides are closed |
| `SessionHandlers.SessionHandler.ForwardingOnRead` | src/states/forwarding/forwarding.c:28-69 | to FLUSH_CLOSER exactly when a side is closing, else new interests |
| `SessionHandlers.SessionHandler.OnArrival` | src/states/authMethodAnnouncement/authMethodAnnouncement.c:14-23 | each state's arrival sets its interests and puts the part of its reply that fits into the output buffer, refining the session model |
| `SessionHandlers.SessionHandler.Start` | src/stateMachine/selectorStateMachine.c:33-41 | the first event runs the first arrival, once |
| `SessionHandlers.SessionHandler.JumpTo` | src/stateMachine/selectorStateMachine.c:43-58 | a new state is entered and its arrival run; the same state is left alone |
| `SessionHandlers.SessionHandler.HelloOnRead` | src/states/hello/hello.c:63-89 | an errored hello, a wrong version or no common method is refused, the best method announced otherwise |
| `SessionHandlers.SessionHandler.AuthOnRead` | src/states/authRequest/authRequest.c:21-54 | the password check sets the user exactly on a match |
| `SessionHandlers.SessionHandler.RequestOnRead` | src/states/request/request.c:39-70 | each malformed or unsupported request gets its own reply code; a good one opens the server's side |
| `SessionHandlers.SessionHandler.ProcessReadEvent` | src/stateMachine/selectorStateMachine.c:60-71 | the first event runs the first arrival, then the state's read action and its transition, refining the session model |
| `SessionHandlers.SessionHandler.AnnouncementOnWrite` | src/states/authMethodAnnouncement/authMethodAnnouncement.c:25-51 | once announced and drained: anonymous user and REQUEST, or AUTH_REQUEST |
| `SessionHandlers.SessionHandler.TwoByteOnWrite` | src/states/authSuccessful/authSuccessful.c:24-48 | the two-byte replies are completed and drained before the next state |
| `SessionHandlers.SessionHandler.ReplyOnWrite` | src/states/requestSuccessful/requestSuccessful.c:26-40 | the ten-byte reply moves on once it is in the buffer |
| `SessionHandlers.SessionHandler.ConnectOnWrite` | src/states/ipConnect/ipConnect.c:14-27 | a failed connection unregisters the server and refuses with the failure's code; a good one succeeds; `SessionTheorems.ConnectOutcome` says what that leads to |
| `SessionHandlers.SessionHandler.ProcessWriteEvent` | src/stateMachine/selectorStateMachine.c:73-85 | the first event runs the first arrival, then the state's write action and its transition, refining the session model |
| `SessionHandlers.SessionHandler.ClientReadHandler` | src/socks5/socks5.c:300-346 | bytes go to the input buffer, an end of stream closes or half-closes by state, a full buffer or failure drops the session; refines the session model, histories included |
| `SessionHandlers.SessionHandler.ServerReadHandler` | src/socks5/socks5.c:215-262 | the same for the server's bytes and the output buffer |
| `SessionHandlers.SessionHandler.ClientWriteHandler` | src/socks5/socks5.c:348-384 | exactly the bytes sent leave the output buffer, then the state's write action runs; refines the session model |
| `SessionHandlers.SessionHandler.ServerWriteHandler` | src/socks5/socks5.c:264-298 | the same for the input buffer and the server |
| `DnsParser.Feed` | src/parsers/dns/dnsParser.c:18-359 | for every byte in every reachable state: currentAnswers < totalAnswers <= allocated size where a record is being read, IPv6 indices within 0 to 15, no counter underflows, counter 0 at DONE |
| `DnsMessages.ParseSplit` | src/parsers/dns/dnsParser.c:361-372 | splitting the input anywhere gives the same state and the same number of bytes taken |
| `DnsMessages.ChunkingIsIrrelevant` | src/parsers/dns/dnsParser.c:361-372 | any chunks give the state that the whole input gives |
| `DnsMessages.LeadsQuestion` | src/parsers/dns/dnsParser.c:107-165 | the question is skipped exactly, names compressed or not |
| `DnsMessages.LeadsOwner` | src/parsers/dns/dnsParser.c:166-193 | an owner name is skipped exactly, wherever the previous record left the shared counter |
| `DnsMessages.NetworkOrder` | src/parsers/dns/dnsParser.c:298-321 | the accumulated address, converted by htonl, has the received bytes in memory in their order |
| `DnsMessages.LeadsIpv6` | src/parsers/dns/dnsParser.c:323-345 | AAAA bytes go to positions 0 to 15 in order |
| `DnsMessages.LeadsRecord` | src/parsers/dns/dnsParser.c:166-345 | one record of any type advances the parser by exactly one record, stores an address exactly for A and AAAA, and leaves the shared counter at 3 |
| `DnsMessages.ParseInvertsSerialise` | src/parsers/dns/dnsParser.c:18-372 | parsing undoes serialisation (section 4.1 of RFC 1035): for every message of the profile, in which only the first answer may be owned by the root, and whatever follows it, DONE right after the last answer with exactly the A and AAAA addresses in order |
| `DnsMessages.ParseInvertsSerialiseInChunks` | src/parsers/dns/dnsParser.c:361-372 | the same in any chunks |
| `DnsMessages.NoAnswersEndParsing` | src/parsers/dns/dnsParser.c:59-83 | a message that announces no answers, or any multiple of 256, ends the parsing right after that count, with no address |
| `DnsMessages.ExpectedGoesDown` | src/parsers/dns/dnsParser.c:241-345 | for every byte string, totalAnswers - currentAnswers goes down by exactly one a record |
| `DnsMessages.EveryParseEndsInRange` | src/states/responseDns/responseDns.c:133-151 | for every byte string in any chunks, a finished parse has counter 0 and no more addresses than allocated |
| `DnsMessages.OwnerReadExactlyWhen` | src/parsers/dns/dnsParser.c:166-219 | a root owner name is read right if and only if the shared counter is zero; every record leaves it at 3 |
| `ResponseDns.ResponseDnsParser.FeedByte` | src/parsers/dns/dnsParser.c:18-359 | the in-place parser refines the model byte by byte |
| `ResponseDns.ResponseDnsParser.Consume` | src/parsers/dns/dnsParser.c:361-372 | takes exactly the bytes that the model takes off the buffer, never one more |
| `ResponseDns.ResponseDnsParser.FinishRecord` | src/parsers/dns/dnsParser.c:277-296 | after a record: the next one, or the list cut to the addresses found and DONE |
| `DohBuilder.ConvertDomain` | src/parsers/dns/dohBuilder.c:178-205 | writes exactly the wire form of the name and nothing else of the buffer |
| `DohBuilder.PutLabel` | src/parsers/dns/dohBuilder.c:188-201 | one label: its length truncated to a byte, then its text |
| `DohBuilder.BuildQuery` | src/parsers/dns/dohBuilder.c:149-176 | 0 exactly for a short buffer or a name over 255 bytes; else, in at most L+18 bytes and with nothing behind them touched, a query whose bytes say (section 4.1 of RFC 1035): ID 0, recursion desired, one question and no records, then the name, the type asked for and class 1 |
| `DohBuilder.QueryAsks` | src/parsers/dns/dohBuilder.c:59-176 | for every name and type: the twelve header bytes and the question, field by field; the question's name reads back from the bytes exactly when the name does |
| `DohBuilder.ConvertSize` | src/parsers/dns/dohBuilder.c:178-205 | the exact size of a converted name: L+2, L+1 with a dot at the end, 1 for an empty or dot-led name |
| `DohBuilder.ReadingInvertsConvert` | src/parsers/dns/dohBuilder.c:178-205 | reading the converted name back (section 3.1 of RFC 1035: labels of 1 to 63 bytes, 255 bytes in all), whatever follows it, gives the whole name and takes exactly its bytes if and only if every piece has 1 to 63 bytes and the name at most 253, or 254 with a dot at the end |
| `DohBuilder.ConvertedReads` | src/parsers/dns/dohBuilder.c:178-205 | for every domain that is converted: what its bytes read back as, piece by piece; an empty piece ends the name and a longer one than a label is malformed |
| `DohBuilder.LongLabelIsMalformed` | src/parsers/dns/dohBuilder.c:186-194 | a dotless name of 64 to 255 bytes is written with a length that is none of a label |
| `DohBuilder.LongNameIsMalformed` | src/parsers/dns/dohBuilder.c:178-205 | a name of good labels of 255 bytes, or of 254 without a dot at the end, is written in more bytes than a name may have |
| `DohBuilder.AdjacentDotsCut` | src/parsers/dns/dohBuilder.c:186-201 | what follows two adjacent dots is lost |
| `DohBuilder.SplitJoin` | src/parsers/dns/dohBuilder.c:178-205 | the pieces of a dotted name are its labels, with or without a dot at the end |
| `DohBuilder.ResponseSkipsQuestion` | src/parsers/dns/dnsParser.c:107-165 | the response parser skips the built question exactly and stands on the first answer |
| `DohBuilder.AnswerToTheQuery` | src/parsers/dns/dohBuilder.c:149-176 | a response that echoes the built question parses to exactly its addresses, for every dotted name of labels of 1 to 63 bytes |
| `Base64.GroupIsDigits` | src/utilities/base64/base64.c:30-44 | the four values of a group are the base-64 digits of the 24-bit number of its bytes (section 4 of RFC 4648) |
| `Base64.AlphabetIsStandard` | src/utilities/base64/base64.c:3-12 | the 64 characters in the order of section 4 of RFC 4648: A to Z, a to z, 0 to 9, + and / |
| `Base64.PaddingIsStandard` | src/utilities/base64/base64.c:58-63 | two = signs after a last group of one byte, one after a group of two, none after a whole one or if not asked for |
| `Base64.TestVectors` | src/utilities/base64/base64.c:21-66 | two of the test vectors of section 10 of RFC 4648 |
| `Base64.EncodedLength` | src/utilities/base64/base64.c:21-66 | the exact length of the text |
| `Base64.EncodedSize` | src/utilities/base64/base64.h:8 | text, padding and terminator never exceed BASE64_ENCODE_SIZE, and a padded text is whole groups |
| `Base64.EncodeInto` | src/utilities/base64/base64.c:21-66 | writes the text, its padding and a terminator, and nothing behind them |
| `Base64.Codec.BuildDecodingTable` | src/utilities/base64/base64.c:114-120 | the table inverts the alphabet and is zero elsewhere |
| `Base64.Codec.DecodeInto` | src/utilities/base64/base64.c:68-112 | the decoded text up to a terminator or padding, also when the output is the input, and nothing behind it |
| `Base64.Codec.DecodeSome` | src/utilities/base64/base64.c:77-109 | one turn of the decoding loop: up to four characters, and whether the text ended inside it |
| `Base64.DecodeEncode` | src/utilities/base64/base64.c:68-112 | decoding an unpadded encoding gives the bytes, and one zero byte more exactly when their number is not a multiple of 3 |
| `Base64.DecodingInvertsEncoding` | src/utilities/base64/base64.c:68-112 | the same, padded or not and whatever follows the terminator |
| `Base64.RoundTripInPlace` | src/parsers/spoofing/spoofingParser.c:538 | encoding, then decoding in the same storage, gives the bytes back with that extra zero |
| `StringMatcher.StateMeansCompared` | src/reference/parser_utils/parser_utils.c:57-109 | the automaton's state says how much of the pattern has been matched, or that the text differs |
| `StringMatcher.EqualExactlyWhen` | src/reference/parser/parser.c:24-55 | a parser fed a text answers EQ exactly when the text is as long as the pattern and each byte is the pattern's or the same letter in the other case, NEQ exactly when no continuation can be that |
| `StringMatcher.MatchIsOccurrence` | src/parsers/spoofing/spoofingParser.c:430-471 | a scanner match means that the last n bytes are the pattern ignoring case |
| `StringMatcher.OccurrenceAfterForeignIsFound` | src/parsers/spoofing/spoofingParser.c:392-471 | an occurrence right after a byte foreign to the pattern is always found at its last byte, unless one was found before |
| `StringMatcher.OccurrenceFoundExactlyWhen` | src/parsers/spoofing/spoofingParser.c:463-468 | with nothing found before, an occurrence is found at its last byte if and only if the scanner stands at the start of the pattern when it begins |
| `StringMatcher.OccurrenceCanBeMissed` | src/parsers/spoofing/spoofingParser.c:463-468 | so one can be missed: a carriage return in front of CRLFCRLF hides it |
| `StringMatcher.StrCmpI` | src/reference/parser_utils/parser_utils.c:57-109 | the loops fill the table of the comparison automaton: each of its states leaves for the next one on exactly the byte of the pattern and, for a letter, that letter in the other case |
| `StringMatcher.StringParser.constructor` | src/reference/parser/parser.c:8-18 | a new parser is at the start of its own table |
| `StringMatcher.StringParser.Reset` | src/reference/parser/parser.c:20-22 | back to the start |
| `StringMatcher.StringParser.FeedByte` | src/reference/parser/parser.c:24-55 | the first applicable transition of the table is the automaton's step and event |
| `Spoofing.RunSplit` | src/parsers/spoofing/spoofingParser.c:91-96 | the pieces in which bytes arrive make no difference |
| `Spoofing.WordsRead` | src/parsers/spoofing/spoofingParser.c:138-624 | the words compared with the transcript, and the end of the headers, character by character, ignoring case |
| `Spoofing.BytesRead` | src/parsers/spoofing/spoofingParser.c:138-579 | the characters that end, blank, separate or make up a value, and the two signs of a POP3 reply |
| `SpoofingPop.StepKeeps` | src/parsers/spoofing/spoofingParser.c:125-390 | each of the states keeps an invariant that ties it to the whole transcript |
| `SpoofingPop.PopCaptureIsSound` | src/parsers/spoofing/spoofingParser.c:138-390 | for every transcript within the arrays (section 7 of RFC 1939): success with POP means a +OK greeting, a USER line answered with +, later a PASS line answered with + as the last byte, no USER turn in between, and exactly their arguments, carriage returns removed |
| `SpoofingPop.PopCaptureOfShortLines` | src/parsers/spoofing/spoofingParser.c:228-252 | the same for every session the server opens in which no 256 bytes of the client go by without a line feed |
| `SpoofingPop.ShortLinesStayInBounds` | src/parsers/spoofing/spoofingParser.c:228-252 | such a session never writes past a credential array |
| `SpoofingPop.HttpKeeps` | src/parsers/spoofing/spoofingParser.c:392-624 | an HTTP session never counts as a POP3 one |
| `SpoofingDialogue.CapturesExactlyTheLogin` | src/parsers/spoofing/spoofingParser.c:138-390 | on every dialogue of one line and one reply at a time, with any other commands, refused names and failed attempts, the credential arrays suffice if and only if no argument given before the login has more than 255 bytes, and then a login is captured if and only if a reference automaton over whole lines finds one, with that name and password |
| `SpoofingDialogue.ExchangeAgrees` | src/parsers/spoofing/spoofingParser.c:169-390 | each exchange moves the observer and the reference alike |
| `SpoofingDialogue.PassTurn` | src/parsers/spoofing/spoofingParser.c:275-365 | a line after an accepted name: PASS and USER lead to their arguments, anything else is passed over |
| `SpoofingDialogue.ExtractsArgument` | src/parsers/spoofing/spoofingParser.c:228-365 | the argument of a USER or PASS line is stored whole, carriage returns left out, with its terminator, and nothing else changes |
| `SpoofingDialogue.ArgumentOverruns` | src/parsers/spoofing/spoofingParser.c:228-365 | one that is too long is stored past its array |
| `SpoofingHttp.HttpCaptureIsComplete` | src/parsers/spoofing/spoofingParser.c:392-624 | HTTP Basic capture is complete and exact (section 2 of RFC 7617): every bounded pair in a line-initial Authorization header, padded or not, answered HTTP/1.1 2 or HTTP/1.0 2, is captured as sent |
| `SpoofingHttp.ReadsRequest` | src/parsers/spoofing/spoofingParser.c:392-591 | such a request is read within the arrays up to the wait for the answer, the pair stored |
| `SpoofingHttp.ValueDecodes` | src/parsers/spoofing/spoofingParser.c:533-563 | the decoded value splits at the first colon into user and password, the decoder's extra zero behind the password |
| `SpoofingHttp.HeaderMatches` | src/parsers/spoofing/spoofingParser.c:430-471 | the header is found at its last byte, and the end of the headers is not |
| `SpoofingHttpSound.StepKeeps` | src/parsers/spoofing/spoofingParser.c:392-624 | each state of an HTTP session keeps an invariant that ties it to the whole transcript, the scanners and the collected value included |
| `SpoofingHttpSound.HttpCaptureIsSound` | src/parsers/spoofing/spoofingParser.c:392-624 | for every transcript within the arrays: success with HTTP means that what was read is a first line up to HTTP/1., headers up to Authorization, Basic, a value whose decoding splits at its first colon into the stored pair, and an answer that starts with one of the two 2xx status lines |
| `SpoofingHttpSound.LoginIsCaptured` | src/parsers/spoofing/spoofingParser.c:392-624 | every such transcript is captured, within the arrays, whatever comes after it |
| `SpoofingHttpSound.HttpCapturedExactlyWhen` | src/parsers/spoofing/spoofingParser.c:392-624 | a session is captured as an HTTP one, within the arrays, if and only if its transcript starts with a login |
| `SpoofingHttpSound.HttpInBoundsExactlyWhen` | src/parsers/spoofing/spoofingParser.c:511-577 | a session that the client opens stays within the arrays if and only if no value of it is too long, lacks a colon when decoded, or has a part that does not fit |
| `SpoofingParsers.SpoofingParser.Init` | src/parsers/spoofing/spoofingParser.c:78-89 | a parser used before starts over |
| `SpoofingParsers.SpoofingParser.InitStringParser` | src/parsers/spoofing/spoofingParser.c:107-123 | the first string parser is set up once, and the second left alone |
| `SpoofingParsers.SpoofingParser.InitStringParsers` | src/parsers/spoofing/spoofingParser.c:107-123 | both string parsers are set up, once |
| `SpoofingParsers.SpoofingParser.StateConfirmPop` | src/parsers/spoofing/spoofingParser.c:138-167 | the first server bytes must be +OK in any case; a client byte or anything else ends the observation |
| `SpoofingParsers.SpoofingParser.StateUserServerConsume` | src/parsers/spoofing/spoofingParser.c:169-179 | server bytes are passed over; the first client byte starts a USER comparison |
| `SpoofingParsers.SpoofingParser.StateUserClientConsume` | src/parsers/spoofing/spoofingParser.c:181-191 | client bytes are passed over until the server speaks |
| `SpoofingParsers.SpoofingParser.StateCheckingUser` | src/parsers/spoofing/spoofingParser.c:193-226 | USER leads to its argument, anything else waits for the server, a server byte gives the turn up |
| `SpoofingParsers.SpoofingParser.StateExtractingUser` | src/parsers/spoofing/spoofingParser.c:228-252 | bytes of the argument go to the array in order, carriage returns left out, terminated at the line feed; nothing else is written, all within the array |
| `SpoofingParsers.SpoofingParser.StateCheckingUserResponse` | src/parsers/spoofing/spoofingParser.c:254-273 | + goes on to PASS, - back to USER, all else ends |
| `SpoofingParsers.SpoofingParser.StatePassServerConsume` | src/parsers/spoofing/spoofingParser.c:275-285 | server bytes are passed over; the first client byte starts both comparisons |
| `SpoofingParsers.SpoofingParser.StatePassClientConsume` | src/parsers/spoofing/spoofingParser.c:287-297 | client bytes are passed over until the server speaks |
| `SpoofingParsers.SpoofingParser.StateCheckingPass` | src/parsers/spoofing/spoofingParser.c:299-339 | PASS and USER are compared side by side, and each leads to its argument |
| `SpoofingParsers.SpoofingParser.StateExtractingPass` | src/parsers/spoofing/spoofingParser.c:341-365 | as for the user name, into the password array only |
| `SpoofingParsers.SpoofingParser.StateCheckingPassResponse` | src/parsers/spoofing/spoofingParser.c:367-390 | + is success, - back to USER, all else ends |
| `SpoofingParsers.SpoofingParser.StateConfirmHttp` | src/parsers/spoofing/spoofingParser.c:392-428 | HTTP/1. is scanned for on the first line only |
| `SpoofingParsers.SpoofingParser.StateSearchingAuth` | src/parsers/spoofing/spoofingParser.c:430-471 | header and end of headers are scanned for side by side, each restarted by its own mismatch, the header first |
| `SpoofingParsers.SpoofingParser.StateConfirmBasicScheme` | src/parsers/spoofing/spoofingParser.c:473-514 | leading blanks are ignored, then only Basic will do |
| `SpoofingParsers.SpoofingParser.StateExtractingCredentials` | src/parsers/spoofing/spoofingParser.c:516-579 | leading blanks ignored, base64 characters collected, the value decoded and split at its end, other characters refused; every write within the arrays |
| `SpoofingParsers.SpoofingParser.ExtractCredentials` | src/parsers/spoofing/spoofingParser.c:533-568 | decoding in place and the two copying loops store exactly the model's pair |
| `SpoofingParsers.SpoofingParser.StateClientConfirmationConsume` | src/parsers/spoofing/spoofingParser.c:581-591 | the rest of the request is passed over until the server answers |
| `SpoofingParsers.SpoofingParser.StateCredentialConfirmation` | src/parsers/spoofing/spoofingParser.c:593-624 | either of the two status lines is success; it fails only when neither can match any more |
| `SpoofingParsers.SpoofingParser.SpoofByte` | src/parsers/spoofing/spoofingParser.c:98-101 | the function of the current state |
| `SpoofingParsers.SpoofingParser.Spoof` | src/parsers/spoofing/spoofingParser.c:91-96 | a piece of one sender is the model's run over those bytes, stopped when finished |
| `Selector.CapacitySuffices` | src/selector/selector.c:181-196 | growing for a supported descriptor makes room for it, within the platform's limit |
| `Selector.NextCapacityIsTight` | src/selector/selector.c:181-196 | the new size is one more than the least power of two above the descriptor, or than the platform's limit |
| `Selector.EnsureCapacityKeeps` | src/selector/selector.c:253-296 | growing keeps every item, bit and the highest descriptor, and the new items are unused; it is refused exactly beyond the limit |
| `Selector.ServerCapacity` | src/selector/selector.c:299-315 | the server's table has 1025 items |
| `Selector.ComputeNextCapacity` | src/selector/selector.c:181-196 | the bit-counting loop gives the next power of two, capped, plus one |
| `Selector.LookupInBoundsExactly` | src/selector/selector.c:361-370 | registration looks inside the table for every valid descriptor if and only if it is not the one equal to the table's size |
| `Selector.RegisterIndexed` | src/selector/selector.c:348-392 | registration keeps sets and highest descriptor equal to what the items say, and succeeds exactly for a valid unused descriptor: its item and its bits are the given ones, and every other item and bit is as it was |
| `Selector.RegisterRefused` | src/selector/selector.c:348-392 | which reason is given for a refusal: bad arguments, or a descriptor in use; a valid one never lacks room |
| `Selector.ClearIndexed` | src/selector/selector.c:414-421 | unregistration does too: the descriptor is unused and unwatched, every other item and bit is as it was, and the highest descriptor stays tight |
| `Selector.SetInterestIndexed` | src/selector/selector.c:427-445 | so does every change of interest |
| `Selector.InterestsExactly` | src/selector/selector.c:427-509 | for a valid descriptor in use: after a set exactly the given interests are watched, after an add also those, after a removal no more those; its handler and data, and all other descriptors, stay as they were; any other descriptor is refused and nothing changes |
| `Selector.InterestRoundTrip` | src/selector/selector.c:459-509 | removing an interest undoes adding it if and only if none of it was there before |
| `Selector.FdSelector.constructor` | src/selector/selector.c:299-315 | an empty table of the right size |
| `Selector.FdSelector.Ensure` | src/selector/selector.c:253-296 | enough room, refused, or grown with every item kept |
| `Selector.FdSelector.RegisterFd` | src/selector/selector.c:348-392 | stores the item and updates the sets and the highest descriptor, or reports why not and changes at most the table's size; the index invariant is kept |
| `Selector.FdSelector.UpdateFdset` | src/selector/selector.c:232-246 | the bits of one descriptor follow its item |
| `Selector.FdSelector.ItemsMaxFd` | src/selector/selector.c:218-230 | the loop finds the highest descriptor in use, or 0 |
| `Selector.FdSelector.ClearItem` | src/selector/selector.c:414-421 | empties one item and recomputes sets and highest descriptor; the index invariant is kept |
| `Selector.FdSelector.ChangeInterest` | src/selector/selector.c:427-445 | a valid descriptor in use gets exactly the given interests, in its item and its bits, and all else stays as it was; any other is refused; the index invariant is kept |
| `Selector.FdSelector.AddFdInterest` | src/selector/selector.c:459-477 | a valid descriptor in use is then watched for what it was watched for and what is given, with all else as it was; any other is refused |
| `Selector.FdSelector.RemoveFdInterest` | src/selector/selector.c:491-509 | a valid descriptor in use is then watched for what it was watched for without what is given, with all else as it was; any other is refused |
| `Connections.FewConnections` | src/statistics/statistics.c:13-34 | there are at most 1024 connections, and fewer while a descriptor is free |
| `Connections.NewConnections` | src/socks5/socks5.c:142-196 | an accepted client is watched for reading only under a new session without a server, a new server for writing only under its session, open; each is counted, and every other item, bit and session is left alone |
| `Connections.RegistersExactlyWhen` | src/selector/selector.c:348-392 | a connection can be registered if and only if its descriptor is valid and not in use, its session new for a client and without a server for a server |
| `Connections.OtherOperations` | src/selector/selector.c:427-509 | a half-close changes that session's state only, a change of interests that descriptor's only, and closing a session is unregistering its client |
| `Connections.CountersSaturate` | src/statistics/statistics.c:13-34 | up by one below the type's maximum and down by one above zero; the maximum rises only to a current count above it |
| `Connections.MaximumIsExact` | src/statistics/statistics.c:13-27 | over every run maxConcurrentConnections is the greatest number of connections that were open at once |
| `Connections.CloseSessionCascade` | src/socks5/socks5.c:522-592 | unregistering a client's descriptor closes its server's and its own, each once, frees the session once and leaves every other item and session alone |
| `Connections.CascadeLeavesNoPointer` | src/socks5/socks5.c:522-592 | after the cascade no item points to the session |
| `Connections.ServerIsGivenUp` | src/socks5/socks5.c:584-592 | a server given up on its own is closed once and its item emptied; its session keeps its client, without a server |
| `Connections.StepInv` | src/selector/selector.c:348-425 | every accept, connect, interest change, half-close and close keeps: index exact, items and sessions linked both ways, accounts balanced |
| `Connections.ConnectionsAreAccountedFor` | src/statistics/statistics.c:13-34 | over every run each descriptor was closed as often as opened, but once if it is open now; currentConnections is the number of client and server items, so neither saturation branch is taken |
| `Connections.NothingLeaks` | src/socks5/socks5.c:522-592 | once no session is left, everything opened was closed and everything allocated freed, exactly once each |
| `Connections.KeyStaysLive` | src/selector/selector.c:527-559 | between the read and the write callback of one pass an item is gone, or still has its handler and live data, unless its number was registered anew |
| `ConnectionHandlers.Server.IncCurrentConnection` | src/statistics/statistics.c:13-27 | the saturating increments and the maximum |
| `ConnectionHandlers.Server.DecCurrentConnection` | src/statistics/statistics.c:29-34 | the saturating decrement |
| `ConnectionHandlers.Server.SessionInit` | src/socks5/socks5.c:482-520 | a session without a server, counted |
| `ConnectionHandlers.Server.AcceptClient` | src/socks5/socks5.c:142-164 | the accepted client is registered for reading under its session |
| `ConnectionHandlers.Server.RegisterServer` | src/socks5/socks5.c:190-196 | the server is registered for writing under its session, open and counted |
| `ConnectionHandlers.Server.ServerClose` | src/socks5/socks5.c:584-592 | the connection is marked invalid, its descriptor closed and counted off |
| `ConnectionHandlers.Server.ClientClose` | src/socks5/socks5.c:522-582 | re-enters the selector for the server, then closes, counts off and frees |
| `ConnectionHandlers.Server.UnregisterDescriptor` | src/selector/selector.c:394-425 | callback, then table: refines the model's cascade although the callback changes the table in between |
| `ConnectionHandlers.Server.Close` | src/socks5/socks5.c:612-617 | closing a session unregisters its client |
| `ConnectionHandlers.Server.Destroy` | src/selector/selector.c:317-346 | the loop over the table closes every descriptor exactly once and frees every session, whatever order the callbacks close them in |
| `RequestParsers.FeedSafe` | src/parsers/request/requestParser.c:11-130 | for every byte in every state: indices in range and no counter below zero |
| `RequestParsers.ParseInvertsEncode` | src/parsers/request/requestParser.c:11-143 | parsing undoes encoding (section 4 of RFC 1928) for all three address types and reads nothing of what follows |
| `RequestParsers.AcceptsExactlyRequests` | src/parsers/request/requestParser.c:11-143 | for every byte string: done exactly when it starts with a whole request, which is then the one held; unsupported types fail right after their byte; else it waits |
| `RequestParsers.SplitRequest` | src/parsers/request/requestParser.c:132-143 | a request cut anywhere is taken up where it was left |
| `RequestParsers.RequestParser.FeedByte` | src/parsers/request/requestParser.c:11-130 | one byte changes the fields and address arrays exactly as the parser proved to accept requests, never outside them |
| `RequestParsers.RequestParser.Consume` | src/parsers/request/requestParser.c:132-143 | takes exactly the model's bytes off the buffer |
| `AdminRequests.FeedSafe` | src/parsers/adminRequestParser/adminRequestParser.c:35-167 | for every byte in every state, every index of an argument buffer is in range |
| `AdminRequests.ParseInvertsEncode` | src/parsers/adminRequestParser/adminRequestParser.c:17-167 | parsing undoes the client's messages and reads nothing of what follows |
| `AdminRequests.StreamIsConsumeAndInit` | src/parsers/adminRequestParser/adminRequestParser.c:17-33 | feeding byte after byte is what consume and init do in turn |
| `AdminRequests.SequenceInAnyChunks` | src/parsers/adminRequestParser/adminRequestParser.c:17-167 | any sequence of requests, re-initialised in between and fed in any chunks, parses back to itself with nothing over-read |
| `AdminRequests.RefusedExactly` | src/parsers/adminRequestParser/adminRequestParser.c:35-63 | refused exactly for a type above 1 or a command the type does not have, by their numbers on the wire, as soon as it is read, and the handler is the one that reports it |
| `AdminRequests.AdminRequestParser.Init` | src/parsers/adminRequestParser/adminRequestParser.c:17-25 | every field as after a fresh start |
| `AdminRequests.AdminRequestParser.FeedByte` | src/parsers/adminRequestParser/adminRequestParser.c:35-167 | one byte changes the fields and argument arrays exactly as the parser proved to invert the client's messages, never outside them |
| `AdminRequests.AdminRequestParser.Consume` | src/parsers/adminRequestParser/adminRequestParser.c:27-33 | takes exactly the model's bytes off the buffer |

## Left out

- The session states that resolve a domain name, and their two racing connections; a session leaves the model when it
  enters them. Only the byte formats of query and response are modelled.
- SessionHandlers.SessionHandler.RequestOnRead: excludes the request that goes on to the resolver, a version 5 CONNECT
  to a domain name with a socket to ask on; and takes the parser's result as an input.
- SessionHandlers.SessionHandler.ProcessReadEvent: excludes the same request.
- SessionHandlers.SessionHandler.ClientReadHandler: excludes the same request.
- Handshakes.RequestVerdict: excludes the same request, as Handshakes.ReadHasItsEvent says.
- SessionHandlers.SessionHandler.HelloOnRead: takes the parser's result as an input; `Handshakes` ties it to the parser.
- SessionHandlers.SessionHandler.AuthOnRead: takes the parser's result as an input; `Handshakes` ties it to the parser.
- SessionHandlers.SessionHandler.ForwardingOnRead: does not feed the observer; `SessionObservers` models that on values.
- SessionHandlers.SessionHandler.OnArrival: leaves out the user's connection count at REQUEST, and the observer's start
  at FORWARDING, which is in `SessionObservers`.
- SessionObservers.SessionCaptureIsSound: requires that the observer's run writes within its arrays, as
  SpoofingPop.PopCaptureIsSound does.
- Per-user connection counts, byte counters, inactivity and timeouts. The two count bytes of a record are those of its
  creation; a password of 255 bytes and more of an administrator runs into them.
- UserHandler.UserStore.AddUser: requires that name and password, when copied, stay inside the record of 514 bytes, on
  which the source relies without a check; an administration request cannot carry more than 255 bytes of each.
- UserHandler.UserStore.DeleteUser: models the store only, not the closing of the deleted user's sessions.
- Allocation failure.
- SessionTheorems.ConnectOutcome: takes the failure's reply code as an input, any byte; which code belongs to
  which error number of the kernel is not modelled.
- Khash.HashTable.Put: requires that a table at its load limit is not one of 2^31 buckets that cannot shed deleted ones:
  its doubling wraps to 0, nothing happens (Khash.HashTable.MakeRoom), and the limit would be passed.
- SpoofingPop.PopCaptureIsSound: requires that the run writes within the credential arrays, on which the source relies
  without a check; SpoofingPop.ShortLinesStayInBounds gives a condition that can be read off the transcript, and
  SpoofingDialogue.CapturesExactlyTheLogin the exact one for dialogues.
- SpoofingPop.StepKeeps: requires that the byte is stored within the arrays, for the same reason.
- SpoofingHttpSound.StepKeeps: requires the same; SpoofingHttpSound.HttpInBoundsExactlyWhen says when that is so.
- SpoofingHttpSound.HttpCaptureIsSound: requires that the run writes within the arrays, for the same reason.
- SpoofingPop.ShortLinesStayInBounds: is sufficient only, for sessions that are no dialogue of lines and replies.
- SpoofingParsers.SpoofingParser.StateExtractingUser: requires that the byte is stored within its array, on which the
  source relies without a check.
- SpoofingParsers.SpoofingParser.StateExtractingPass: requires the same.
- SpoofingParsers.SpoofingParser.StateExtractingCredentials: requires the same.
- SpoofingParsers.SpoofingParser.ExtractCredentials: requires that the decoded value splits into two parts that fit.
- SpoofingParsers.SpoofingParser.SpoofByte: requires that the byte is stored within the arrays.
- SpoofingParsers.SpoofingParser.Spoof: requires that the run writes within the arrays.
- SpoofingHttp.HttpCaptureIsComplete: requires a user of at most 255 bytes without a colon and a password that fits its
  array together with the decoder's extra zero; a pair without a colon makes the source's length wrap around.
- SpoofingHttp.HttpCaptureIsComplete: asks for the header at the start of a line and for no earlier occurrence of it,
  because occurrences that overlap an earlier partial match can be missed.
- Base64.Codec.DecodeInto: asks for characters below 128, the size of the decoding table.
- Base64.Codec.DecodeSome: asks for the same.
- Selector.RegisterIndexed: requires that the descriptor is not the one equal to the table's size, as RegisterFd does.
- Selector.FdSelector.RegisterFd: requires that the descriptor is not the one equal to the table's size, for which the
  source looks past the table; the server's table never meets it.
- The passes of the selector over ready descriptors, its blocking jobs and its clock. Of one pass only what two
  callbacks of a descriptor may rely on is stated.
- Connections.KeyStaysLive: says nothing about a number that is closed and registered anew within one pass.
- ConnectionHandlers.Server.ClientClose: leaves out a session's DNS connections and its user's connection count.
- Descriptors from 1024 on, for which registration is refused and its result ignored.
- DNS and administration connections in the count of connections.
- Bit masks are written as remainders and quotients, except for the flag words of the hash table; members of a union
  are kept apart where the source reads only the one it wrote.
- The embedded string parsers are allocated anew where the source copies a table into place.
- Arguments, logging, access records, the administration handlers and their responses, and the interactive client.
