# ncps: proofs about the dev proxy, the ent layer and the data checker

This project models five parts of ncps that keep state or transform data, and proves what they
are for. Modules follow the program:

| files | part of the program |
|---|---|
| `Text`, `PyInt`, `ChunkedCoding`, `ProxyStreams`, `ProxyDrain`, `ProxyHeaders`, `ProxyHandler`, `ProxyConnection`, `RoundRobin` | the HTTP/1.1 reverse proxy of `dev-scripts/run.py` |
| `LogRotation` | log rotation in `dev-scripts/run.py` |
| `ChunkMutation` | deferred updates: `ent/mutation.go`, `ent/chunk_update.go` |
| `HookChain`, `BulkCreate` | hooks and bulk creation: `ent/ent.go`, `ent/narfile_create.go` |
| `EagerLoad` | in-memory joins: `ent/narfile_query.go`, `ent/buildtracesignature_query.go` |
| `VerifyData` | the integrity checker `dev-scripts/verify-data.py` |

## How to read the model

**Streams.** Bytes are characters (a byte is the character with its code). `Reader` is the client's
side: a fixed input and a cursor. Its `Read` may return any non-empty piece (`short`) and may raise
OSError after swallowing bytes (`faulty`); `Sink.Send` may break off part way. A theorem about
`StreamChunkedBody` therefore covers every schedule of reads and every point of failure. With
neither freedom (`Benign`, which is how a buffered Python reader behaves) the contracts say exactly
what is sent and when the call succeeds.

**Meaning of a chunked body.** `ChunkedCoding.Decode` reads a byte string as a chunked body.
`EveryRfcBodyDecodes` ties it to section 4.1 of RFC 7230: every body the grammar generates decodes to
its data and ends at its blank line. `DecodeIgnoresWhatFollows` shows that a body delimits itself.
`PyInt.Parse` is Python's `int(token, 16)` in full: signs, `0x`, single underscores;
`PyInt.AcceptedSizes` says exactly which tokens it reads, and as what. A negative size therefore counts
as a chunk without data, as it does in the program.

**A connection.** `ProxyConnection.Messages` splits a byte stream into requests and payloads. How a
body is framed is section 3.3.3 of RFC 7230 alone; a chunked body is then read by `Decode`, which
takes every body of section 4.1 and besides them the size tokens above, and size and trailer lines that
end in a bare line feed. `Connection.Serve` is the library's request loop around `_proxy`; what each
backend does (refuse, break, answer anything) is an input. Its contract is the whole-run statement. As far as the proxy and
the RFC frame the served requests alike, these are the stream's own messages, in order and none
skipped, and each one forwarded reached its backend as one complete body with the client's payload; a
later request takes nothing of that back. Serving ends only with the connection or with the stream: if
all are framed alike and the last response leaves the connection open, every message has been served.
A response leaves it open exactly if it comes from the backend, has an end of its own, and the client
did not ask for the close; the client then sees that end, provided the backend delivered the response
in full. So on any stream of messages, with a client and backends in order and no reason to close,
every message is served and reaches its backend.

**Calls and their meaning.** A mutation carries ghost logs of the calls made on it. `Valid()` says what
the fields must be in terms of those logs, every method keeps it, and `ChunkUpdate.SqlSave` promises
that the single update has, on any links, the effect of replaying the log.

**Hooks.** A hook passes on, refuses before going on, or objects after having gone on. The chain of a
bulk create is flattened into a path of stages. `HookChain.HooksNest` says in which order stages are
entered and left without following any call.

## What turned out not to hold, and exactly when it does

* The proxy frames a validly framed request as the RFC does exactly when it has no Transfer-Encoding
  field, or its first one mentions `chunked` and its Content-Length, if it has one, parses
  (`ProxyHeaders.IntakeFollowsRfc`). It fails in two ways. With `gzip` and `chunked` in two fields the
  body goes unseen (`ProxyHeaders.SecondTransferEncodingIsNotSeen`). A chunked request whose
  Content-Length, which should be ignored, is not a number is refused
  (`ProxyHeaders.OverriddenLengthIsRefused`).
* `int()` accepts a negative Content-Length, which is then taken as no body. A request for which this
  happens is validly framed exactly if `chunked` stands at the end of a later Transfer-Encoding field
  that the proxy does not look at (`ProxyHeaders.WhenNegativeLengthIsValid`,
  `ProxyHeaders.NegativeLengthOnChunked`).
* A failed upload is drained so that the client does not see a reset instead of the 502. When a whole
  fixed-length upload fails, nothing of it is left unread exactly if at most DRAIN_CAP bytes of it were
  still to be read; a whole chunked upload to an unreachable backend is drained exactly if it has fewer
  (`ProxyHandler.Handler.Proxy`, `ProxyDrain.RemainderIsDrained`, `ProxyDrain.WholeBodyIsDrained`).
  Larger uploads stay partly unread (`ProxyDrain.UploadsAboveTheCap`); the cap is 512 KiB.
* Below the cap it fails for a chunked upload whose forwarding breaks off inside a chunk. The piece has
  been read and the CRLF behind the chunk has not; if it was the chunk's last piece, the drain takes the
  CRLF for a size line and stops (`ProxyDrain.DrainStopsAtCrlf`). Only uploads without any data have
  nothing left unread after every such failure (`ProxyDrain.WhenEveryBreakIsDrained`). Where reads are
  full and chunks fit the buffer, nothing is left unread exactly if the send that failed was that of
  the terminator; in general something is left unless the unread data happens to start with a size
  (`ProxyDrain.WhenBrokenUploadIsDrained`, with the runs `ProxyDrain.OneChunkUpload` and
  `ProxyDrain.LuckyUpload`).
* The builder's comment promises that `ClearNarFileLinks` clears all edges. It spares links added
  before it in the same mutation. The update agrees with the calls taken in order exactly when every
  link pending at the last Clear is named again later (`ChunkMutation.ClearSparesPendingAdds`,
  `ChunkMutation.AddThenClearStillAdds`).
* `SetUpdatedAt` does not undo an earlier `ClearUpdatedAt`, so one update both sets and clears the field
  exactly in the case stated by `ChunkMutation.SetAndCleared`; the shortest log that does is in
  `ChunkMutation.ClearThenSetDoesBoth`.
* The proxy's requirements document has responses preserved end to end. The client sees the backend's
  own values under every name exactly when no field has a line break or is hop-by-hop, but for a
  `Connection: close` that the proxy is about to add itself, and when closing there is just that one
  (`ProxyHeaders.WhenAnswerIsUnchanged`). Already a `Connection: keep-alive` is lost, and a
  `Connection: close` is added (`ProxyHeaders.ConnectionFieldChanges`).
* Bulk creation is all or nothing, whatever the database answers, exactly when a draft does not check
  out, some hook refuses, or no hook objects after going on (`BulkCreate.WhenAllOrNothing`). One good
  draft and one objecting hook leave a row written and its builder done behind a reported error
  (`BulkCreate.ObjectingHookComesTooLate`).
* With `max_backups` below 1, rotation still keeps one backup: ranks above the maximum are left alone
  exactly if it is at least 1 (`LogRotation.WhenRanksAreKept`).

## Model

| member | source | states |
|---|---|---|
| PyInt.ParseHex | dev-scripts/run.py:261-282 | for every length, the printed `%X` size parses back to it, so the proxy's own frames are readable by its own parser |
| PyInt.ParseDecimal | dev-scripts/run.py:425-428 | on the plain numerals the RFC allows, with optional whitespace around them, `int(length_header)` is their value |
| PyInt.ParseNumeral | dev-scripts/run.py:425-428 | every number is read back from its decimal numeral |
| ChunkedCoding.EveryRfcBodyDecodes | dev-scripts/run.py:256-287 | every chunked body of section 4.1 of RFC 7230 (any digit case, leading zeros, extensions, trailers), its sizes read as plain hexadecimal numerals, decodes to its data and ends at its blank line |
| ChunkedCoding.WhichFault | dev-scripts/run.py:256-287 | which framing error a body has, by what its first chunk lacks: data, the CRLF behind it, or the end of the trailers |
| ChunkedCoding.OneBody | dev-scripts/run.py:256-287 | one body with an extension, leading zeros and a trailer, byte for byte |
| ChunkedCoding.OneFrame | dev-scripts/run.py:282 | one frame, byte for byte |
| ChunkedCoding.BareLineFeeds | dev-scripts/run.py:257-274 | size line and blank line may end in a bare line feed |
| ChunkedCoding.DecodeFrames | dev-scripts/run.py:282-288 | whatever follows them, frames decode to the pieces they were made of |
| ChunkedCoding.CompleteBodyDecodes | dev-scripts/run.py:282-288 | frames closed by the terminator are one complete body: the pieces come back and the rest is untouched |
| ChunkedCoding.DecodeIgnoresWhatFollows | dev-scripts/run.py:256-287 | once a body has ended, later bytes change neither its data nor where it ended |
| ChunkedCoding.OpenBodyNeverLooksComplete | dev-scripts/run.py:256-288 | frames followed by a broken-off send are not complete at any point, so a truncated upload never looks finished |
| ChunkedCoding.EveryOutputIsAFixedPoint | dev-scripts/run.py:277-288 | any successful output decodes completely and is sent on byte for byte by a second proxy |
| ChunkedCoding.ReframingIsIdempotent | dev-scripts/run.py:251-288 | reframing keeps the payload, leaves nothing over, and doing it twice changes nothing |
| PyInt.AcceptedSizes | dev-scripts/run.py:259-263 | exactly which size tokens int() takes (a sign, a prefix, digits with single underscores, whitespace around them), and that each stands for the signed value of its digits |
| PyInt.MoreThanHexDigits | dev-scripts/run.py:261-263 | three such tokens that are not plain hexadecimal numerals, and one with a double underscore that is rejected |
| PyInt.HexIgnoresCase | dev-scripts/run.py:261-263 | a size means the same in either letter case |
| Text.StripIsSlice | dev-scripts/run.py:261 | strip() takes away exactly the ASCII whitespace at the two ends |
| ProxyStreams.CopyChunk | dev-scripts/run.py:277-283 | one chunk's data goes out in frames of 1 to PROXY_BUFFER bytes; what is on the wire after every kind of failure, and where a failed send leaves the reader |
| ChunkedCoding.SplitIsFull | dev-scripts/run.py:278-283 | with full reads every frame of a chunk but the last carries 65536 bytes |
| ProxyStreams.StreamChunkedBody | dev-scripts/run.py:251-288 | for every input, read schedule and fault: on return the wire holds one complete body with the client's payload and the reader stands after its blank line; otherwise only whole frames of a prefix of the payload and at most a broken-off send; a failed send leaves the reader behind the piece it carried, before the chunk's CRLF, or at the end of the body; with full reads a body error is reported only of broken framing and says what is broken, and if no send fails the result and every frame are determined |
| ProxyStreams.ForwardFixed | dev-scripts/run.py:475-503 | the declared bytes go out unchanged; at a truncated read the remaining count is exact, at an OSError it is too large by at most PROXY_BUFFER |
| ProxyDrain.DrainFixed | dev-scripts/run.py:355-363 | without an OSError it takes exactly the size, the shared cap or all there is, whichever is least, and takes as much off the cap |
| ProxyDrain.DrainRequestBody | dev-scripts/run.py:344-393 | terminates; at most 8 PROXY_BUFFER body bytes however large the chunks; stays inside the body; without faults, exactly what it leaves unread, of a fixed-length remainder and of a chunked stream entered anywhere |
| ProxyDrain.WholeBodyIsDrained | dev-scripts/run.py:367-391 | from a chunk boundary a whole body is drained to its end exactly if it is below the cap, and never past it |
| ProxyDrain.RemainderIsDrained | dev-scripts/run.py:355-366 | a fixed-length remainder that is all there is drained exactly if it is at most the cap |
| ProxyDrain.UploadsAboveTheCap | dev-scripts/run.py:353-391 | a chunk as large as the cap has its terminator left unread, a fixed-length body one byte above the cap that byte |
| ProxyDrain.UploadsBelowTheCap | dev-scripts/run.py:353-391 | 500000 bytes with a length, and a single chunk of 524287, are drained |
| ProxyDrain.DrainStopsAtCrlf | dev-scripts/run.py:371-379 | entered before the CRLF that closes a chunk's data, the drain takes these two bytes and stops |
| ProxyDrain.BreakLeavesUpload | dev-scripts/run.py:366-391 | a whole upload broken off inside a chunk stays partly unread unless what is unread starts with something that reads as a size |
| ProxyDrain.SmallChunksBreakAtCrlf | dev-scripts/run.py:277-283 | with full reads and chunks that fit the buffer, a send that fails inside a chunk always leaves the reader before a CRLF |
| ProxyDrain.WhenBrokenUploadIsDrained | dev-scripts/run.py:344-393 | what the drain leaves of a whole upload after a failed send: nothing if that was the terminator's, and with full reads and chunks that fit the buffer only then |
| ProxyDrain.WhenEveryBreakIsDrained | dev-scripts/run.py:344-393 | the uploads of which no failure inside a chunk leaves anything unread are exactly those without data |
| ProxyDrain.OneChunkUpload | dev-scripts/run.py:277-288 | the usual case: a one-chunk upload whose frame cannot be sent has its terminator left unread |
| ProxyDrain.LuckyUpload | dev-scripts/run.py:277-288 | an upload of PROXY_BUFFER + 1 bytes that is drained only because its last byte is a zero digit |
| ProxyHeaders.IntakeFollowsRfc | dev-scripts/run.py:424-447 | exactly which validly framed requests the proxy frames as section 3.3.3 of RFC 7230 does, those it refuses included |
| ProxyHeaders.OneTransferEncodingIsSeen | dev-scripts/run.py:439-442 | a validly framed request with at most one Transfer-Encoding field meets the condition, whatever its other codings |
| ProxyHeaders.OneTransferEncodingFollowsRfc | dev-scripts/run.py:424-442 | with at most one Transfer-Encoding field the framings agree exactly if there is none or the Content-Length, if any, parses |
| ProxyHeaders.OrdinaryRequests | dev-scripts/run.py:424-442 | requests without a body, with a length and with a final chunked, in any letter case, are taken as the RFC frames them |
| ProxyHeaders.RequestsWithoutFraming | dev-scripts/run.py:424-442 | codings without a final chunked and lengths that disagree have no valid framing; of two lengths the first is taken |
| Text.TrimIsSlice | dev-scripts/run.py:425-428 | optional whitespace around a value is spaces and tabs |
| ProxyHeaders.SecondTransferEncodingIsNotSeen | dev-scripts/run.py:439-442 | a validly chunked request whose codings are in two fields is taken to have no body |
| ProxyHeaders.OverriddenLengthIsRefused | dev-scripts/run.py:424-431 | a validly chunked request is refused for a Content-Length that should be ignored |
| ProxyHeaders.WhenNegativeLengthIsValid | dev-scripts/run.py:424-442 | a request that gets through with a negative Content-Length is validly framed exactly if the last of its two or more Transfer-Encoding fields ends in chunked |
| ProxyHeaders.NegativeLengthOnChunked | dev-scripts/run.py:424-442 | such a request |
| ProxyHeaders.ForwardableRequestHeaders | dev-scripts/run.py:300-312 | under every name the backend sees the client's safe values in order, nothing hop-by-hop, and itself as the only Host |
| ProxyHeaders.RequestHead | dev-scripts/run.py:453-472 | the same, with Content-Length replaced by a single chunked Transfer-Encoding when the body goes out chunked |
| ProxyHeaders.WhatTheBackendSees | dev-scripts/run.py:225-312 | under every name but the nine hop-by-hop ones, Host, and Content-Length before a chunked body, all values pass if no field of the name has a line break; likewise to the client |
| ProxyHeaders.WhatNobodySees | dev-scripts/run.py:225-312 | nothing passes under the nine names, spelled out; the backend sees one Host, and chunked as the only Transfer-Encoding of a chunked body |
| ProxyHeaders.LineBreaksAreDropped | dev-scripts/run.py:291-298 | a field with CR or LF in its name or value might as well not be there, in both directions |
| ProxyHeaders.HeadAnnouncesBody | dev-scripts/run.py:453-472 | the head sent on has the RFC framing of the client's head |
| ProxyHeaders.AnswerHeaders | dev-scripts/run.py:508-517 | under every name the client sees the backend's safe end-to-end values, and whether a length is among them |
| ProxyHeaders.WhenAnswerIsUnchanged | dev-scripts/run.py:508-539 | exactly when the client sees the backend's own values under every name |
| ProxyHeaders.ConnectionFieldChanges | dev-scripts/run.py:508-539 | two replies whose Connection values change |
| ProxyHandler.Handler.SendBody | dev-scripts/run.py:474-486 | sent means: reader at the end of the body, backend holding one complete body with the same payload; a body error means the backend holds none, and with full reads that the client sent none; where a failed send leaves the reader of a chunked upload; with full reads it succeeds exactly when the body is whole |
| ProxyHandler.Handler.Fail | dev-scripts/run.py:395-415 | marks the close, drains as the drain promises, and any response is a 502 that announces the close |
| ProxyHandler.Handler.Answer | dev-scripts/run.py:504-543 | closes exactly when already closing, or when there is no usable Content-Length, the request is not HEAD and the status not 204, 304 or 1xx; the response shows that close and otherwise the backend's status, headers and body |
| ProxyHandler.WhenAnswerMustClose | dev-scripts/run.py:525-538 | without a usable Content-Length an answer closes unless it is to HEAD or has status 204, 304 or 1xx |
| ProxyHandler.OrdinaryReplies | dev-scripts/run.py:525-538 | a 200 without a length closes, one with its length does not and is delimited by it, nor do an answer to HEAD and a 304 |
| ProxyHandler.WhatTheAnswerIs | dev-scripts/run.py:507-543 | the answer has the backend's status, its body as far as it went, its values under every end-to-end name without line breaks, and Connection: close exactly when closing |
| ProxyHandler.Handler.Proxy | dev-scripts/run.py:417-548 | one request end to end: client reader, backend wire and head, response and close flag when it is forwarded; which failure gives which status; after a failure, a whole fixed-length upload has nothing left unread exactly if what was still to be read fits the drain cap, and a whole chunked one to an unreachable backend is drained exactly if it is below the cap; one whose sending failed is drained from where the failed send left it; only a client that went away makes a request crash |
| ProxyHandler.WhatPlainBodiesAre | dev-scripts/run.py:474-484 | a body with a length is that many bytes of the input, without one there is none, and what follows it is the rest |
| ProxyHandler.WhatChunkedBodiesAre | dev-scripts/run.py:485-486 | a chunked body as section 4.1 of RFC 7230 writes it carries the data of its chunks and ends where the next request starts |
| ProxyHandler.WhatTheDrainPromises | dev-scripts/run.py:344-415 | what the two drain promises say in bytes: 524288 with a length, fewer in chunks |
| ProxyConnection.ForwardedInStep | dev-scripts/run.py:449-486 | what `_proxy` did with a request is what the RFC says its message is, on both sides |
| ProxyConnection.KeptResponseIsDelimited | dev-scripts/run.py:518-539 | a response on a kept connection has the length its header or status announces |
| ProxyConnection.InStepOneMore | dev-scripts/run.py:321-332 | if the exchanges so far are the first messages of the stream, so are they with the next one |
| ProxyConnection.StreamOneMore | dev-scripts/run.py:321-332 | serving the next request keeps the connection at the next message of the stream, for every number of requests so far |
| ProxyConnection.Connection.Serve | dev-scripts/run.py:321-332 | over a whole connection no request is lost, doubled or cut in the wrong place, up to the first one that is framed otherwise; a response leaves the connection open exactly when it can and is then self-delimiting; every message is served unless the connection is closed |
| ProxyConnection.SmoothRunServesAll | dev-scripts/run.py:321-332 | if no message, no backend and not the client gives a reason to stop, every message of the stream is served and reaches its backend |
| ProxyConnection.MessageServed | dev-scripts/run.py:417-486 | serving one head and its body moves the reader from one message of the stream to the next |
| ProxyConnection.LastResponse | dev-scripts/run.py:525-539 | the connection stays open after a response exactly if the backend's answer has an end of its own and the client did not ask for the close, and then the response shows its end |
| ProxyConnection.WhenFramedAlike | dev-scripts/run.py:424-447 | the requests the connection's promise is about are exactly the validly framed ones that the proxy takes as the RFC does |
| ProxyConnection.WhatWasDelivered | dev-scripts/run.py:453-486 | a delivered message: the bytes sent are its payload, or a chunked body that decodes to it to the last byte |
| ProxyConnection.WhatInStepSays | dev-scripts/run.py:321-332 | request by request: the n-th served is the n-th of the stream, also the first one that is framed otherwise |
| ProxyConnection.WhatKeptSays | dev-scripts/run.py:518-539 | a kept response announces no close and has no body or a Content-Length that is the body's |
| RoundRobin.StepKeepsInv | dev-scripts/run.py:338-342 | any atomic step of any thread keeps mutual exclusion and gives each counter value to exactly one call |
| RoundRobin.RunKeepsInv | dev-scripts/run.py:338-342 | so it holds in every state of every interleaving |
| RoundRobin.RoundRobinIsFair | dev-scripts/run.py:246-248 | once the calls under way have returned, backend i got floor((N + k - 1 - i) / k) of the N calls, and any two differ by at most one |
| RoundRobin.TakesTurns | dev-scripts/run.py:246-248 | consecutive counters pick consecutive backends, and the first follows the last |
| RoundRobin.TalliesAddUp | dev-scripts/run.py:246-248 | the shares of all backends add up to the calls |
| RoundRobin.OneCall | dev-scripts/run.py:338-342 | a call that finds the lock free can run through, takes the counter and leaves it one higher |
| LogRotation.LogDirectory.RotateLogs | dev-scripts/run.py:165-186 | from any files, where every file stands after the rotation |
| LogRotation.RotatedByRank | dev-scripts/run.py:170-186 | rank by rank: without a log nothing moves, otherwise each rank takes over from the one below |
| LogRotation.LogDirectory.Start | dev-scripts/run.py:599-640 | over any number of starts, the log is the last one's and backup k, up to the capacity, that of the k-th start before it |
| LogRotation.ExpectedByAge | dev-scripts/run.py:165-186 | with each start every text up to the capacity is one rank older |
| LogRotation.StartOne | dev-scripts/run.py:165-186 | one rotation and one new log take the expected files to the expected files |
| LogRotation.OnlyTheOldestIsLost | dev-scripts/run.py:174-178 | a backup's text survives, one rank up while there is room, unless it has the highest rank and the rank below is taken by another text |
| LogRotation.SingleBackupIsReplaced | dev-scripts/run.py:165-186 | with max_backups below 2 the one backup is replaced by the log and nothing else moves |
| LogRotation.WhenRanksAreKept | dev-scripts/run.py:174-186 | a rotation leaves every rank above max_backups alone exactly if max_backups is at least 1 |
| ChunkMutation.WrapAdds | ent/mutation.go:1528-1534 | adding with int32 wrap-around call by call is wrapping the true sum once |
| ChunkMutation.Mutation.AddSize | ent/mutation.go:1496-1549 | keeps: the value is the last Set since the last Reset, the addend the wrapped sum of the Adds since the last Set or Reset, absent if there are none |
| ChunkMutation.OneMoreAdd | ent/mutation.go:1528-1534 | one more Add leaves the value alone and adds to the addend with int32 wrap-around |
| ChunkMutation.OneMoreSet | ent/mutation.go:1497-1548 | a Set or a Reset forgets what was to be added |
| ChunkMutation.OneMoreTime | ent/mutation.go:1411-1457 | the update sets the nullable field only right after a Set and clears it from a Clear to the next Reset |
| ChunkMutation.Mutation.AddNarFileLinkIDs | ent/mutation.go:1608-1615 | keeps the meaning of the link fields in terms of the calls made |
| ChunkMutation.Mutation.RemoveNarFileLinkIDs | ent/mutation.go:1628-1636 | keeps it, also when no link was ever added |
| ChunkMutation.Mutation.ClearNarFileLinks | ent/mutation.go:1618-1620 | keeps it |
| ChunkMutation.Mutation.ResetNarFileLinks | ent/mutation.go:1655-1659 | keeps it, back to no calls at all |
| ChunkMutation.DeltaIsReplay | ent/mutation.go:1608-1659 | removing all removed links first and adding all added ones last is the same as going through the calls |
| ChunkMutation.LastMentionDecides | ent/mutation.go:1608-1636 | whether a link is there after the calls is decided by the last call that names it |
| ChunkMutation.SinceIsAfterReset | ent/mutation.go:1655-1659 | the calls that count are those behind the last Reset |
| ChunkMutation.ChunkUpdate.SqlSave | ent/chunk_update.go:186-274 | the one update has, on any links, the effect of the calls since the last Reset, from no links if one was a Clear; its fields are what the calls on each of them come to; done is set exactly on success |
| ChunkMutation.EdgesDecide | ent/chunk_update.go:219-263 | an update makes the links its Add edges name and unmakes the others that a Clear edge names or that exist when one names none |
| ChunkMutation.ClearSparesPendingAdds | ent/chunk_update.go:219-263 | exactly when the hoisted Clear agrees with the calls taken in order |
| ChunkMutation.AddThenClearStillAdds | ent/chunk_update.go:128-132 | a link added and then cleared is still added |
| ChunkMutation.SetAndCleared | ent/mutation.go:1411-1457 | exactly when one update both sets and clears the nullable field |
| ChunkMutation.ClearThenSetDoesBoth | ent/mutation.go:1411-1457 | the shortest such history: a Clear and then a Set |
| HookChain.HooksNest | ent/ent.go:530-536 | hooks are entered in order, the operation runs innermost if and only if nothing stops the chain, and they are left in the opposite order |
| HookChain.WithHooks | ent/ent.go:514-545 | a nil hook is reported before anything runs; otherwise success means that the operation succeeded and all hooks passed it on, and the events are spelled out in terms of the hooks alone |
| HookChain.TraceOfHooks | ent/ent.go:530-536 | hooks are entered by index up to the first that refuses, the operation runs only if none does, and they are left in reverse |
| HookChain.HookPathIs | ent/ent.go:530-535 | the chain has one stage for each hook, in index order |
| BulkCreate.DefaultsLeaveHashAndSize | ent/narfile_create.go:243-292 | after defaults a draft can only lack a non-empty hash or a file size, and is told so in this order |
| BulkCreate.DefaultsFieldByField | ent/narfile_create.go:243-264 | a value the caller set is kept, five fields get their default, no other gets a value |
| BulkCreate.BulkSave.Mutate | ent/narfile_create.go:938-971 | from any point of the chain: trace, verdict, specs, the write, and who is done with which ID |
| BulkCreate.Save | ent/narfile_create.go:927-984 | at most one write, with all specs in builder order, exactly when every check passes and no hook refuses; which error comes back; who is done, each with the ID the database gave its own row or 0 without one |
| BulkCreate.WhoIsDone | ent/narfile_create.go:961-970 | a builder is done exactly if every draft checks out, no hook refuses, the database accepts, and no hook of a later builder objects |
| BulkCreate.PathOfBuilder | ent/narfile_create.go:938-975 | the chain runs through the hooks of a builder by index, its own part, then the next builder |
| BulkCreate.ErrorOfRest | ent/narfile_create.go:943-963 | the error that comes back is that of the first stage that stops the chain, else the database's, else an objecting hook's |
| BulkCreate.ReachesWhen | ent/narfile_create.go:943-955 | the write is reached exactly when every draft checks out and no hook refuses |
| BulkCreate.WhenAllOrNothing | ent/narfile_create.go:961-983 | a bulk creation leaves all builders done or none, in step with its result and whatever the database answers, exactly if some draft does not check out, some hook refuses, or no hook objects after going on |
| BulkCreate.ObjectingHookComesTooLate | ent/narfile_create.go:961-983 | one good draft and one objecting hook: an error, though the row is written and its builder done |
| BulkCreate.HooksInOrder | ent/narfile_create.go:972-975 | all hooks of builder 0 by index, then of builder 1, and so on, each once |
| BulkCreate.ReachingCallsAll | ent/narfile_create.go:949-950 | a chain that reaches the write has called every stage |
| EagerLoad.JoinLinks | ent/narfile_query.go:500-508 | over any neighbours: fails exactly if some key matches no node, at the first such row; else every node holds exactly its rows in query order |
| EagerLoad.LoadChunkLinks | ent/narfile_query.go:480-509 | whatever columns are selected, the one query joined through the map agrees with comparing every node with every row |
| EagerLoad.WithoutItsKey | ent/narfile_query.go:490-492 | why the foreign key column is appended: a row scanned without it has lost its key |
| EagerLoad.EveryRowIsHeldOnce | ent/narfile_query.go:500-507 | no matched row is lost or doubled, with or without duplicate IDs |
| EagerLoad.WhoGetsTheRows | ent/narfile_query.go:482-485 | distinct IDs get all their rows; of equal IDs only the last gets any |
| EagerLoad.FirstOccurrencesIsASet | ent/buildtracesignature_query.go:407-413 | the queried keys are free of duplicates and exactly the foreign keys |
| EagerLoad.FirstOccurrencesGrow | ent/buildtracesignature_query.go:407-413 | keys that come later are queried behind those seen before |
| EagerLoad.GroupByKey | ent/buildtracesignature_query.go:405-413 | the queried keys are the first occurrences, and the groups hold every node under its key |
| EagerLoad.FoundIn | ent/buildtracesignature_query.go:423-431 | what a node ends up with: the entry with its key if there is one, else what it held before |
| EagerLoad.LoadBuildTraceEntry | ent/buildtracesignature_query.go:404-432 | every node points to the entry object with its key, and nodes with one key share that object |
| VerifyData.CheckChunk | dev-scripts/verify-data.py:283-329 | the problems reported are exactly the chunk's faults: absent, wrong compressed size, not decodable, wrong size, wrong BLAKE3 hash; there are none exactly if the chunk is intact |
| VerifyData.FaultsByKind | dev-scripts/verify-data.py:287-326 | which problem stands for what |
| VerifyData.StorePaths | dev-scripts/verify-data.py:148-163 | where the objects of chunks and files lie |
| VerifyData.VerifyCdc | dev-scripts/verify-data.py:251-350 | the problems reported are exactly the faults of the NAR, and there are none exactly if there are rows, every chunk is intact, and the concatenation has the recorded size and hash; the whole is judged only if every chunk is sound |
| VerifyData.WhenHashMatches | dev-scripts/verify-data.py:226-243 | exactly the spellings of a hash that match it: hexadecimal or nix base-32, bare or behind `sha256:` |
| VerifyData.WhenNarIsIntact | dev-scripts/verify-data.py:283-348 | what an intact NAR is: every object, size, BLAKE3 hash, and the size and SHA-256 hash of the whole |
| VerifyData.CheckChunks | dev-scripts/verify-data.py:283-329 | the loop reports exactly the faults of all chunks, and feeds the hash the chunks' data in order |
| VerifyData.CdcSizesAddUp | dev-scripts/verify-data.py:313-338 | the recorded chunk sizes of a NAR that passes add up to its recorded size |
| VerifyData.RowsDetermineTheNar | dev-scripts/verify-data.py:320-329 | two stores that pass hold the same NAR, or some row exhibits two different strings with its BLAKE3 hash |
| VerifyData.VerifyFlat | dev-scripts/verify-data.py:358-406 | no problem exactly if the file is there with its recorded size and hash, though it is read in pieces |
| VerifyData.Run | dev-scripts/verify-data.py:448-546 | the failure count, and success exactly if every narinfo has files and all of them pass in the configured mode |
| VerifyData.WhenFilePasses | dev-scripts/verify-data.py:491-535 | a file stored in the other mode never passes, otherwise being intact decides |
| VerifyData.FailuresOneMore | dev-scripts/verify-data.py:482-537 | a narinfo adds one failure if it has no files, else one for each file that fails |
| VerifyData.NoFailures | dev-scripts/verify-data.py:542-546 | the count is zero exactly if every selected narinfo passes |

## Left out

- ProxyConnection.Connection.Serve: the parsing of a request head is a function parameter, which backend a request goes to is arbitrary (the counter is in RoundRobin), and `Expect: 100-continue` and the timeouts are not modelled.
- ProxyHandler.Handler.Proxy: exceptions other than OSError and ProxyBodyError (an unreadable answer from the backend, a backend address without a port) end the thread and are not modelled.
- ProxyHandler.Handler.Answer: a read from the backend that breaks off is a reply with a shorter body, as the program swallows the error.
- PyInt.ParseDecimal: Python's limit on the number of decimal digits and its non-ASCII whitespace are not modelled.
- BulkCreate.Save: the builders' mutations are taken to be distinct objects, and a hook passes on the mutation it was given; conflict clauses of the insert are not modelled.
- ChunkMutation.ChunkUpdate.SqlSave: the database is taken to clear edges before it adds them; which rows the update's predicates select is left to it.
- EagerLoad.LoadBuildTraceEntry: entry IDs are taken to be unique.
- VerifyData.Run: hashes, zstd, nix-hash and the object store are parameters; the rows of a NAR come in chunk_index order; hashes in rows are not empty; NULL hashes are empty strings.
- RoundRobin.RoundRobinIsFair: threads are a fixed number, each making any number of calls.
- Interceptors, column lists of queries, the reflective field accessors, single-node edge setters, upserts, the panicking wrappers and the same generated code for other entities: they repeat what is modelled.
- Sockets, TLS, SQL text, process management, argument parsing: plumbing without state of its own.
