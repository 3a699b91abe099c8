# weir: a verified model of the client, the codecs, the attest chain and the chaos harness

weir is a durable write buffer: producers push records over a framed protocol, the daemon
acknowledges what it has made durable and a sink receives it at least once. This project models
the parts of the repository whose correctness the rest leans on, and proves what they promise.

* **Wire formats** — CRC-32 (`Crc32`, and `CrcDivision` for its textbook definition), frames (`Frame`),
  UTF-8 and record coordinates (`Utf8`, `Coordinate`), batch bodies and ack bitmaps (`Batch`, `AckBatch`)
  in their Rust, Go and C forms; every layout and error spelled out (`Layout`) and the published test
  vectors (`Vectors`).
* **The client** — what one call does to the connection (`Protocol`), the stateful client itself
  (`Client`), whole runs against a peer and a transport that may do anything (`ClientRuns`), and what
  each request carries and each reply means, in the protocol's own bytes (`Requests`).
* **The attest chain** — sidecars (`Sidecar`), the hash chain (`Chain`), segment verification
  (`Attest`). SHA-256 is an arbitrary function to 32 bytes, so tamper evidence is proved as collision
  extraction: from any undetected change a concrete pair of colliding inputs is computed.
* **The chaos harness** — ledger and delivery lines (`LedgerLine`, `LedgerStrict`, `DeliveryLine`,
  `PyNumbers`), the log tailer (`Tailer`), the durability oracle (`Oracle`, `OracleLaws`, `OracleRuns`), its dense form
  (`Cells`, `Accumulators`), the concurrent load generator (`Producer`, `Loadgen`, `LoadgenRuns`,
  `LoadgenBounds`, `Provenance`), how a run is judged (`Verdict`), and the pieces put together
  (`LedgerReading`, `EndToEnd`).

Code that updates state in place is modelled as classes and methods and tied to specification
functions by their `ensures`; threads are modelled as a state machine over interleaved steps; I/O
faults, the peer's bytes and the outcome of each flush are parameters and range over everything.

Verify with `dafny verify dfyconfig.toml`.

## Results worth knowing

Where the code does not meet its own description, the code is kept as it is, the failing input is
exhibited and the exact condition is proved.

* **The frontier slack.** `frontier_slack_for` bounds how many records can be missing from the
  ledger (`UnledgeredBound`), but it is the true worst case only when the wire batch size divides 255
  (`SlackTight`; `SlackMissedHere` shows a configuration that misses it): a buffer holds whole
  batches, so it cannot otherwise come to rest at `LEDGER_FLUSH_THRESHOLD + wire_batch_size - 1`. As a bound on how far *behind* a missing record can
  be it holds for no slack at all once there are two producers, and for every slack with one
  (`FrontierCoversExactly`); `SlackAllowsOrphan` builds a run in which the harness reports an orphan
  against a generator that is only waiting for a reply. The docstring calls a report against a
  still-buffering generator the one failure the harness must never have; the comment at
  `chaos/orchestrator/run.py:1563-1570` says it does happen, briefly.
* **`is_recoverable`.** "Recoverable" and "still usable" differ on exactly two paths
  (`RecoverableExactly`, `ExceptionsHappen`), and on one of them the load generator keeps a dead
  connection for one more request (`StaleConnection`).
* **Line parsers.** The Python ledger parser accepts lines the Rust one rejects (`ParsersDiverge`);
  `ParsersCompared` says which. `from_line` is documented to reject anything `to_line` would never emit;
  it accepts signs, leading zeros, longer tiers and unknown escapes too (`NotStrict`), and
  `StrictExactly` says when an accepted line is one that could have been printed.
* **Sidecars.** The round trip, and with it verification of an untouched segment, holds exactly for
  segment names of at most 65535 bytes (`RoundTripExact`, `UntouchedVerifies`); `LongNameRefused` gives
  one byte more. Such a name can be put in a `Sidecar` and encoded, but `segment_name_for` builds names from
  two path components, so a segment on an ordinary file system does not reach that branch.
* **Oversize batches.** Every request that passes the client's local guards is a valid frame except
  a batch of in-cap records whose body as a whole exceeds the frame cap (`SentValidExactly`);
  `OversizeBatchSent` gives one.
* **Coordinate decoders.** Rust, Go and C accept the same buffers with the same values and differ in
  one error tag on one kind of input (`DecodersAgree`; `TagsDiffer` gives a buffer).
* **The sequence ceiling.** `_grow` is described as refusing a sequence number past `_MAX_SEQ`. It refuses
  one past both the ceiling and the array, and the array doubles, so numbers up to twice the ceiling can be
  accepted (`CeilingBounds`, `PastCeilingAccepted`); `Differential` states exactly when it raises.

## Model

| member | source | states |
|---|---|---|
| `Crc32.TableInit` | demos/c-wire-client/weir_wire.c:18-27 | the table built in place holds, for every byte, eight steps of reflected division of that byte |
| `Crc32.WeirCrc32` | demos/c-wire-client/weir_wire.c:29-36 | the table-driven loop computes the CRC defined bit by bit, on every input; `CrcIsDivision` says which CRC that is |
| `Crc32.TableStep` | demos/c-wire-client/weir_wire.c:33 | eight bit steps of any register are one table look-up xored with the register moved down a byte: the reason the table may replace the division |
| `Crc32.BurstDetected` | demos/c-wire-client/weir_wire.c:29-36 | inputs that differ only inside a window of at most four bytes never share a CRC |
| `Crc32.AlteredByteDetected` | demos/c-wire-client/weir_wire.c:29-36 | changing any one byte changes the CRC |
| `CrcDivision.CrcIsDivision` | demos/c-wire-client/weir_wire.c:15-36 | on every input the CRC is the textbook one, bit for bit: the remainder of schoolbook long division of the preset message, bytes least significant bit first, by x^32 + 0x04C11DB7, complemented; the definition names neither the register nor the reflected constant |
| `CrcDivision.ConstantIsGenerator` | demos/c-wire-client/weir_wire.c:22 | the constant 0xEDB88320 spells that divisor without its leading coefficient |
| `Vectors.CheckValue` | demos/c-wire-client/weir_wire.c:29-36 | the CRC of the digits one to nine is 0xCBF43926 |
| `Frame.EncodeFrame` | demos/go-wire-client/wire.go:184-197 | writes the header, both CRCs and the payload into a fresh buffer that is exactly the frame's layout |
| `Frame.DecodeFrameExact` | demos/go-wire-client/wire.go:261-327 | decoding accepts a buffer as frame f if and only if f is valid and the buffer is its encoding: round trip both ways and nothing else accepted |
| `Frame.FramesPrefixFree` | demos/go-wire-client/wire.go:261-327 | a byte stream can be cut into frames in one way only |
| `Frame.AlteredByteRejected` | demos/go-wire-client/wire.go:261-327 | altering any single byte of an encoded frame, header, payload or CRC, is always rejected |
| `Frame.AlteredHeaderRejected` | crates/weir-core/src/envelope.rs:233-277 | no single altered byte of a header is accepted |
| `Layout.FrameLayout` | demos/go-wire-client/wire.go:184-197 | which bytes of an encoded frame are the magic, the fields, the length, the two CRCs and the payload |
| `Layout.FrameErrors` | demos/go-wire-client/wire.go:215-327 | for every buffer, which error is reported: the first failing check in the order length, magic, version, header CRC, type, tier, flags, cap, length, payload CRC |
| `Vectors.PushHello` | docs/conformance/wire_v1_vectors.json:7-9 | a durable push of "hello" is the published 25 bytes, both CRCs included |
| `Utf8.Utf8Valid` | demos/c-wire-client/weir_wire.c:115-140 | the hand-written loop accepts exactly the grammar of section 4 of RFC 3629 |
| `Utf8.WellFormedExact` | demos/c-wire-client/weir_wire.c:115-140 | that grammar is exactly the encodings of sequences of Unicode scalar values: no overlong form, no surrogate, nothing past U+10FFFF |
| `Coordinate.New` | crates/weir-core/src/coordinate.rs:85-97 | refuses exactly the names over 255 bytes; otherwise returns a valid coordinate holding exactly the arguments |
| `Coordinate.CoordinateExact` | crates/weir-core/src/coordinate.rs:141-197 | decode yields c if and only if c is valid and the buffer is its encoding |
| `Coordinate.DecodeC` | demos/c-wire-client/weir_wire.c:142-169 | the C decoder with its byte loops and its own UTF-8 check gives the Go decoder's result, error tags included |
| `Coordinate.DecodersAgree` | demos/go-wire-client/wire.go:386-419 | Rust and Go accept the same buffers with the same values; their results differ if and only if the version and declared length are acceptable and the tail is short, and then only in the error tag |
| `Coordinate.TagsDiffer` | demos/go-wire-client/wire.go:386-419 | a buffer on which Rust reports a length mismatch and Go a truncation |
| `Layout.CoordinateLayout` | crates/weir-core/src/coordinate.rs:141-151 | which bytes hold version, index, record id, length and name |
| `Layout.CoordinateErrors` | crates/weir-core/src/coordinate.rs:153-197 | for every buffer, which error Rust reports, and that Go's differs only on a short tail |
| `Batch.EncodeBatchBody` | crates/weir-core/src/batch.rs:189-199 | the appending loop produces version, count and every length-prefixed record in order |
| `Batch.DecodeBatchBodyRust` | crates/weir-core/src/batch.rs:219-305 | the cursor loop computes the specified walk on every input, with the same first error |
| `Batch.DecodeBatchBodyGo` | demos/go-wire-client/batch.go:66-118 | the Go loop gives the same verdict, records and error class as the Rust one on every input |
| `Batch.DecodeBatchBodyC` | demos/c-wire-client/weir_wire.c:294-334 | the C loop reports a too-small array exactly when the declared count passed its checks and exceeds the array, and otherwise gives the same verdict and, through its windows, the same records; an array of the cap's size is never too small |
| `Batch.DecodeExact` | crates/weir-core/src/batch.rs:219-305 | a body is accepted as records rs if and only if rs is within the caps and the body is its encoding |
| `Batch.WalkStops` | crates/weir-core/src/batch.rs:244-305 | where the record walk stops and with which error, for every cursor |
| `Layout.BatchErrors` | crates/weir-core/src/batch.rs:219-243 | what is refused before the first record is looked at, and with which error; otherwise the walk over the rest at the smaller of each pair of caps |
| `Vectors.BodyOfThree` | docs/conformance/wire_v1_batch_vectors.json:55-57 | the body of "alpha", "beta" and "gamma" is the published one |
| `AckBatch.EncodeAckBatch` | crates/weir-core/src/batch.rs:329-342 | the bit-setting loop produces the payload whose bit i is outcome i and whose padding is clear |
| `AckBatch.AckExact` | crates/weir-core/src/batch.rs:353-401 | a payload is accepted as outcomes a if and only if it is the encoding of a and the count is the one expected, from 1 to 65535 |
| `AckBatch.PopCountIsAccepted` | crates/weir-core/src/batch.rs:353-401 | the set bits of an accepted payload number the accepted records, so all bits set means all accepted and conversely |
| `AckBatch.DecodeAckBatchC` | demos/c-wire-client/weir_wire.c:353-380 | the C loop reports a too-small array exactly when every earlier check passed and the count exceeds it, and otherwise gives the Rust verdict and writes the same outcomes |
| `Layout.AckErrors` | crates/weir-core/src/batch.rs:353-401 | for every payload and expected count, which error is reported and with which numbers |
| `Vectors.AckOfNine` | docs/conformance/wire_v1_batch_vectors.json:155-169 | records 0, 2 and 8 of nine accepted encode as 01 09 00 05 01, which fixes bit and byte order |
| `Protocol.ReadReplyExact` | crates/weir-client/src/client.rs:747-794 | the client takes a reply off the stream if and only if the stream starts with the encoding of a valid, in-cap frame and all of it arrives |
| `Protocol.SentValidExactly` | crates/weir-client/src/client.rs:422-457 | a request past the local guards goes out as a valid frame if and only if it is not a batch whose body exceeds the frame cap |
| `Protocol.OversizeBatchSent` | crates/weir-client/src/client.rs:549-617 | a batch of two 9 MiB records that passes every guard and goes out as no frame |
| `Requests.OversizeLength` | crates/weir-client/src/client.rs:581-584 | such a batch carries its true length where 32 bits hold it and all ones where they do not |
| `Requests.GuardExactly` | crates/weir-client/src/client.rs:422-450 | what passes the local checks and which error the rest get, by the documented limits of 16 MiB and 2048 records |
| `Requests.RequestDecodes` | crates/weir-client/src/client.rs:451-457 | every request past the guards, an oversize batch apart, decodes at the peer to its own type byte, the caller's tier, no flags and the caller's payload or records |
| `Requests.FramesCarryRequests` | crates/weir-client/src/client.rs:422-475 | over every run the i-th frame written decodes to the i-th request sent |
| `Requests.SuccessExactly` | crates/weir-client/src/client.rs:324-416 | each kind of call succeeds on its own reply type only, a tracked push with the coordinate and a batch with the bitmap whose encoding is the reply's payload, a health check exactly on type 0x05 |
| `Requests.NackExactly` | crates/weir-client/src/client.rs:477-504 | what each Nack payload surfaces as and does to the connection, reason byte by reason byte |
| `Requests.FailedWriteExactly` | crates/weir-client/src/client.rs:462-475 | after a failed write the client is dead; a health check reads nothing, any other request surfaces a whole buffered Nack and otherwise an I/O error |
| `Requests.FlagsExactly` | crates/weir-client/src/client.rs:735-745 | after a complete write, which of the two flags is set, what was read and what was written |
| `Requests.CapsFit` | crates/weir-client/src/client.rs:69-78 | the reply caps are exactly the longest coordinate, the longest batch acknowledgement and two bytes |
| `ClientRuns.RunAligned` | crates/weir-client/src/client.rs:422-475 | after any run of calls and default-tier changes under any faults, a usable client has read exactly one whole reply for each request sent and stands on a frame boundary |
| `ClientRuns.OwnReplyDecides` | crates/weir-client/src/client.rs:462-475 | no misattribution: a call that succeeds was decided by the reply whose place in the peer's stream is its request's place among the requests sent |
| `ClientRuns.UnusableIsFinal` | crates/weir-client/src/client.rs:717-733 | once unusable, no later call reads, writes, succeeds or recovers; only the default tier can still change |
| `ClientRuns.RecoverableExactly` | crates/weir-client/src/client.rs:182-204 | after a failed call, usable-iff-recoverable holds if and only if the call was neither a failed write with a buffered transient Nack nor a default-tier call without a default on an unusable client |
| `ClientRuns.ExceptionsHappen` | crates/weir-client/src/client.rs:462-504 | an input on each of those two paths |
| `Client.WeirClient.ReadResponseInner` | crates/weir-client/src/client.rs:747-794 | reads header, cap, payload and CRC in that order; what it returns and what it leaves unread are those of the specified read |
| `Client.WeirClient.SendFrame` | crates/weir-client/src/client.rs:462-475 | one write; on a failed write the buffered reply is still looked at, and a Nack found there closes the connection |
| `Client.WeirClient.Surface` | crates/weir-client/src/client.rs:496-504 | an empty Nack poisons, a transient one keeps the connection, any other closes it |
| `Client.WeirClient.SendRecord` | crates/weir-client/src/client.rs:422-457 | usability, then emptiness, then the cap, before any byte is sent; otherwise exactly one exchange |
| `Client.WeirClient.Push` | crates/weir-client/src/client.rs:324-346 | new flags, stream and result are those of the specified call, for every state and fault; what the frame carries is `RequestDecodes` |
| `Client.WeirClient.PushTracked` | crates/weir-client/src/client.rs:385-416 | the same for a tracked push, whose coordinate must decode |
| `Client.WeirClient.PushBatch` | crates/weir-client/src/client.rs:549-617 | the same for a batch: first offending record decides the local error, any reply but a well-formed bitmap of the right length poisons |
| `Client.WeirClient.HealthCheck` | crates/weir-client/src/client.rs:636-667 | the same for a health check, whose failed write poisons at once |
| `Client.WeirClient.PushDefault` | crates/weir-client/src/client.rs:512-517 | the default-tier push is the plain push at that tier, or a local refusal without one |
| `Client.WeirClient.PushTrackedDefault` | crates/weir-client/src/client.rs:623-631 | likewise for the tracked push |
| `ClientRuns.PoisonedExactly` | crates/weir-client/src/client.rs:709-711 | what `is_poisoned` means to a caller: over any run from a usable client it is true if and only if some call so far failed with an error that is not recoverable, or met a transient Nack behind a failed write |
| `Client.WeirClient.SetDefaultDurability` | crates/weir-client/src/client.rs:298-300 | changes the default tier and nothing else |
| `Sidecar.RoundTripExact` | crates/weir-attest/src/sidecar.rs:47-62 | decode inverts encode if and only if the version is 1 and the name has at most 65535 bytes; a longer name decodes to a truncation error |
| `Sidecar.LongNameRefused` | crates/weir-attest/src/sidecar.rs:47-62 | a sidecar with a 65536-byte name whose own encoding is refused |
| `Sidecar.DecodeExact` | crates/weir-attest/src/sidecar.rs:67-113 | a buffer is accepted as s if and only if s is such a sidecar and the buffer is its encoding |
| `Sidecar.AlteredByteRejected` | crates/weir-attest/src/sidecar.rs:67-113 | any single altered byte of an encoded sidecar is rejected |
| `Layout.SidecarLayout` | crates/weir-attest/src/sidecar.rs:47-62 | which bytes hold each field, the signed time as two's complement, and what the CRC covers |
| `Layout.SidecarErrors` | crates/weir-attest/src/sidecar.rs:67-113 | for every buffer, which error is reported |
| `Chain.OriginInjective` | crates/weir-attest/src/chain.rs:79-90 | the origin framing determines predecessor, header fields and name |
| `Chain.RecordInputInjective` | crates/weir-sink-sdk/src/lib.rs:492-501 | the record-id framing determines segment name, payload and, among u64 indices, the index |
| `Chain.OriginIsNoStep` | crates/weir-attest/src/chain.rs:79-104 | no origin input is a step input, so chains of different lengths cannot be confused without a collision |
| `Chain.SameHead` | crates/weir-attest/src/chain.rs:79-104 | two segments with one head are equal in predecessor, header, name and every record, or the computed pair of inputs is a collision of the hash |
| `Chain.SameTip` | crates/weir-attest/src/chain.rs:79-104 | two whole linked histories with one tip are equal, or the computed evidence is a collision or a preimage of the fixed origin digest |
| `Layout.OriginLayout` | crates/weir-attest/src/chain.rs:79-90 | which bytes the origin hashes: domain separator, predecessor, header fields, length-prefixed name |
| `Layout.StepLayout` | crates/weir-attest/src/chain.rs:99-104 | a step hashes the predecessor's 32 bytes and then the record id's; the record id hashes length-prefixed name, index and length-prefixed payload |
| `Layout.HeadLayout` | crates/weir-attest/src/verify.rs:101-110 | an empty segment's head is the origin's digest, and each record, numbered from one, is stepped onto the head before it |
| `Layout.TipLayout` | crates/weir-attest/src/chain.rs:24 | a history starts from the all-zero head and each segment moves it to its own |
| `Attest.ChainSegment` | crates/weir-attest/src/verify.rs:27-54 | the structural check first, then the loop over the records: a sidecar with version 1, the file's shard, name, count and time, the given predecessor and the head over all records, or an I/O error exactly when the check, the open or a read fails |
| `Attest.FirstDivergence` | crates/weir-attest/src/verify.rs:132-143 | the first record the sidecar claims beyond those present, or none |
| `Attest.VerifySegment` | crates/weir-attest/src/verify.rs:91-122 | the verdict is the specified one for every sidecar file and whatever each of the two passes reads; `VerdictExactly` says which |
| `Attest.VerdictExactly` | crates/weir-attest/src/verify.rs:91-122 | for every sidecar file: MissingSidecar if and only if there is none; Verified if and only if there is one, it decodes, the segment is readable, the count is as claimed and the recomputed head is the sidecar's; Diverged reports the sidecar's head as expected and the recomputed one as actual |
| `Attest.ErrorsExactly` | crates/weir-attest/src/verify.rs:91-122 | an error is the sidecar's own or a failed read of a pass that was needed |
| `Attest.UntouchedVerifies` | crates/weir-attest/src/verify.rs:91-122 | an untouched chained segment is Verified if its name has at most 65535 bytes, and a truncated-sidecar error otherwise |
| `Attest.VerifiedMeansUntouched` | crates/weir-attest/src/verify.rs:91-122 | Verified against the original's sidecar means the committed header and records are unchanged, or a collision is computed from the two |
| `Attest.PlacedExactly` | crates/weir-attest/src/verify.rs:105-143 | a divergence is placed at record k if and only if the heads or counts differ and the second pass finds k - 1 records where the sidecar claims more |
| `Attest.TruncationPlaced` | crates/weir-attest/src/verify.rs:105-143 | on one stable file: placed at k if and only if it has k - 1 records and the sidecar claims more |
| `LedgerLine.EscapeReason` | chaos/src/lib.rs:156-167 | the loop escapes character by character |
| `LedgerLine.UnescapeReason` | chaos/src/lib.rs:174-194 | the loop with its one-character lookahead computes the specified unescaping |
| `LedgerLine.UnescapeInverts` | chaos/src/lib.rs:156-194 | unescaping inverts escaping on every string |
| `LedgerLine.FromLineInverts` | chaos/src/lib.rs:102-152 | print then parse is the identity on every writable entry, any reason text included |
| `LedgerLine.LineIsOneLine` | chaos/src/lib.rs:102-118 | a printed entry is one non-empty line |
| `LedgerLine.OracleReadsLine` | chaos/orchestrator/verify.py:204-240 | the Python parser reads a printed entry as its sequence number and tag |
| `LedgerLine.ParsersCompared` | chaos/orchestrator/verify.py:204-240 | the Rust parser accepts a line if and only if the Python one does, its numeric and tier fields are in Rust's form, and no trailing newline is left on a line without a reason |
| `LedgerLine.ParsersDiverge` | chaos/orchestrator/verify.py:204-240 | a line the Python parser accepts and the Rust one rejects |
| `LedgerStrict.StrictExactly` | chaos/src/lib.rs:120-152 | an accepted line is one the printer could have emitted if and only if its numbers have no sign and no leading zero, its tier is one of the three letters alone, and its reason has no raw line break and no escape but the three |
| `LedgerStrict.NotStrict` | chaos/src/lib.rs:120-152 | a line that is accepted and never printed, against the documented strictness |
| `LedgerStrict.RustGrammar` | chaos/src/lib.rs:130-152 | what the Rust parser makes of any five or six fields |
| `LedgerStrict.OracleGrammar` | chaos/orchestrator/verify.py:204-240 | the same for the Python parser: a NACK takes a reason, ACK and UNK take none |
| `PyNumbers.PyIntExactly` | chaos/orchestrator/verify.py:216-219 | which texts `int` reads and as which number: surrounding blanks, one sign, digits with single underscores between them |
| `Vectors.NackLine` | chaos/src/lib.rs:330 | a refusal without a reason prints with its trailing space |
| `Vectors.EscapesHere` | chaos/src/lib.rs:156-194 | the three escapes as written, and unknown or unfinished ones left as they stand |
| `DeliveryLine.DecodeInverts` | chaos/src/lib.rs:26-57 | a payload's identity is recovered whatever its padding, also when the requested size is too small |
| `DeliveryLine.EncodedIsOneLine` | chaos/src/lib.rs:26-36 | payloads are non-empty ASCII without a newline |
| `DeliveryLine.DeliveryLog.AppendNdjson` | chaos/src/bin/recorder.rs:39-61 | appends one line for each decodable line of the body, in order, skips the rest and counts what it wrote; with nothing to write it touches no disk, and a failed append or sync is an error that may leave a torn append |
| `DeliveryLine.PayloadLogged` | chaos/src/bin/recorder.rs:39-61 | a generated payload is always logged, under its own identity |
| `DeliveryLine.EncodeRecord` | chaos/src/lib.rs:26-36 | a payload is as long as asked, or as long as its identity needs if that is more |
| `DeliveryLine.ExtractExactly` | chaos/src/lib.rs:50-57 | a key's number is the whole run of digits after its first occurrence, if that is a u64 |
| `DeliveryLine.LoggedExactly` | chaos/src/bin/recorder.rs:39-61 | a line is logged under an identity if and only if it is UTF-8 text that decodes to it, and otherwise leaves no trace |
| `DeliveryLine.OracleReadsDelivery` | chaos/orchestrator/verify.py:243-261 | a log line reads back as its sequence number under its own run and as nothing under another |
| `Tailer.LogTailer.ReadNew` | chaos/orchestrator/verify.py:170-201 | returns the complete new lines, leaves a torn tail for later, refuses a log that shrank |
| `Tailer.TailLog` | chaos/orchestrator/verify.py:153-201 | over any schedule of reads of a growing log, the lines returned are the complete lines of the log at the last read, each once and in order |
| `Oracle.SortedMeaning` | chaos/orchestrator/verify.py:565-670 | the reported lists hold each member of their set once, in ascending order |
| `OracleLaws.VerdictMeaning` | chaos/orchestrator/verify.py:565-670 | passes if and only if there is no conflict, no refused record was delivered and every acknowledged one was delivered or lies beyond the frontier, the last waived only for a buffered tier under power loss |
| `OracleLaws.ListsMeaning` | chaos/orchestrator/verify.py:565-670 | exactly which records are listed missing, leaked and orphaned |
| `OracleLaws.ExemptionsMeaning` | chaos/orchestrator/verify.py:605-641 | for every tier and fault: the exempt count is the acked, undelivered records beyond the frontier, the pending count the delivered, unledgered ones beyond it, and the expected loss the acked, undelivered ones within it when the tier is U under power loss and none otherwise |
| `OracleLaws.CountsMeaning` | chaos/orchestrator/verify.py:642-670 | which records each of the four ledger counts counts |
| `OracleLaws.Conservation` | chaos/orchestrator/verify.py:565-670 | pushed = acked + nacked + unknown; acked = delivered + missing + exempt + expected loss; distinct deliveries = ledgered + orphaned + pending |
| `OracleLaws.WiderFrontier` | chaos/orchestrator/verify.py:565-670 | a wider slack never turns a pass into a failure, only moves records from missing to exempt and from orphaned to pending, and leaves leaks and the duplicate rate alone |
| `OracleRuns.OneBatch` | chaos/orchestrator/verify.py:291-314 | any sequence of ingest calls leaves the state of one call with all the ledger lines and all the delivery lines |
| `OracleRuns.ReadingIrrelevant` | chaos/orchestrator/verify.py:407-478 | the state depends only on the ledger lines in order and the multiset of deliveries: not on batching, interleaving or delivery order |
| `OracleRuns.FirstRowStands` | chaos/orchestrator/verify.py:291-314 | the first tag recorded for a sequence number is kept, whatever follows |
| `OracleRuns.NoConflictExactly` | chaos/orchestrator/verify.py:291-314 | a conflict is reported if and only if two rows give one sequence number different tags |
| `OracleRuns.ConflictsExactly` | chaos/orchestrator/verify.py:291-314 | the conflicts listed are, in order, one for each row that contradicts the first row of its number, with the tag that stands and the one that came later |
| `OracleRuns.HwmIsLargest` | chaos/orchestrator/verify.py:316-328 | the running high-water mark is the largest ledgered sequence number, so checking with it and without it agree |
| `OracleRuns.DuplicateRate` | chaos/orchestrator/verify.py:647-649 | the rate is deliveries of ledgered records per ledgered record delivered, 0 when there is none and otherwise at least 1 |
| `OracleRuns.FiguresGrow` | chaos/orchestrator/run.py:531-546 | no batch lowers any cumulative figure, so the per-episode differences are never negative |
| `Cells.MarkTag` | chaos/orchestrator/verify.py:407-436 | or-ing a tag into an untagged cell adds that ledger row and disturbs no count |
| `Cells.BumpCounts` | chaos/orchestrator/verify.py:438-450 | a bump adds one delivery and disturbs no tag and no other count, below, at and past the ceiling |
| `Cells.GrowKeeps` | chaos/orchestrator/verify.py:382-394 | growth changes neither ledger nor counts |
| `Cells.CeilingBounds` | chaos/orchestrator/verify.py:382-394 | from an empty array, a refusal takes a number past the ceiling, and a number of at least twice the ceiling is always refused |
| `Cells.PastCeilingAccepted` | chaos/orchestrator/verify.py:382-394 | three numbers of which the last is past the ceiling and accepted, though alone it is refused |
| `Accumulators.RowSummary` | chaos/orchestrator/verify.py:407-436 | for a first row the incremental totals and unresolved sets are those recomputed from the whole state |
| `Accumulators.DeliverySummary` | chaos/orchestrator/verify.py:452-466 | the same for a delivery, which changes nothing when it is a repeat |
| `Accumulators.DenseAccumulator.Grow` | chaos/orchestrator/verify.py:382-394 | refuses exactly a sequence number past both the array and the ceiling; otherwise makes room, doubling at least, and keeps the state |
| `Accumulators.DenseAccumulator.IngestLedger` | chaos/orchestrator/verify.py:407-436 | on the bytes, what the reference does on its dictionaries; raises exactly when growth refuses |
| `Accumulators.DenseAccumulator.IngestDelivered` | chaos/orchestrator/verify.py:452-466 | likewise for a delivery |
| `Accumulators.DenseAccumulator.Ingest` | chaos/orchestrator/verify.py:468-478 | raises if and only if some number the batch names lies past the ceiling and past the array as the numbers before it left it; otherwise leaves the reference's state |
| `Accumulators.DenseAccumulator.Check` | chaos/orchestrator/verify.py:480-529 | the verdict from the running totals equals the verdict computed from the whole state, in every field; `ExemptionsMeaning` and its neighbours say what each field counts |
| `Accumulators.ReferenceAccumulator.Ingest` | chaos/orchestrator/verify.py:291-314 | the dictionary loop computes the specified state |
| `Accumulators.Differential` | chaos/orchestrator/test_dense_oracle.py:90-105 | for every stream of batches, slack, tier, fault and count ceiling below a sentinel of at most 63, dense and reference report the same verdict in every field, unless the dense one raised, which happens if and only if some number overran array and ceiling |
| `Producer.PushRowJustified` | chaos/src/bin/loadgen.rs:150-172 | a row says ACK if and only if the record went out whole and a sealed Ack came back, and NACK if and only if nothing was sent or a sealed, non-transient refusal came back |
| `Producer.BatchRowsJustified` | chaos/src/bin/loadgen.rs:329-386 | per record of a batch: ACK if and only if its bit is set in a well-formed reply to a complete write; NACK if and only if nothing was sent or the write failed and a refusal was waiting |
| `Producer.RefusalText` | chaos/src/bin/loadgen.rs:150-172 | the row text of each Nack reason; the transient one is recorded as Unknown |
| `Producer.OtherRefusals` | chaos/src/bin/loadgen.rs:150-172 | the row text of the remaining refusals |
| `Producer.StaleConnection` | chaos/src/bin/loadgen.rs:303-372 | for single pushes and batches alike, the generator keeps an unusable connection on exactly one path; the next request on it sends nothing, is recorded Unknown throughout and drops it |
| `Producer.AckedByOwnReply` | chaos/src/bin/loadgen.rs:283-387 | over a thread's whole run with reconnects, an ACK row was decided by the reply standing, on that very connection, where its request stands among those sent there |
| `Loadgen.Serialise` | chaos/src/bin/loadgen.rs:441-448 | one line for each entry, in order |
| `Loadgen.Ledger.Flush` | chaos/src/bin/loadgen.rs:488-513 | entries leave the buffer only on a successful append and sync; a failure sets `fatal`, keeps them and may leave a torn append |
| `LoadgenRuns.StepInv` | chaos/src/bin/loadgen.rs:277-399 | every step of every thread keeps the invariant: each allocated sequence number is in flight, buffered or confirmed, exactly once, and until a failure the file is what it held at the start and exactly the confirmed rows |
| `LoadgenRuns.RunInv` | chaos/src/bin/loadgen.rs:277-399 | so does every run, whatever the interleaving and whichever flushes fail or threads panic |
| `LoadgenRuns.SettledRows` | chaos/src/bin/loadgen.rs:329-386 | a settled batch adds, for its record k, a row with number base + k, the run's tier, that record's outcome and the two times |
| `Loadgen.ExitCode` | chaos/src/bin/loadgen.rs:407-436 | 0 if and only if no flush failed and no thread panicked, and otherwise 1 |
| `LoadgenBounds.CleanExit` | chaos/src/bin/loadgen.rs:407-436 | exit status 0 means the file is what it held at the start and exactly the rows, and every sequence number below the counter has exactly one row and no other has any |
| `Provenance.AckRowEarned` | chaos/src/bin/loadgen.rs:277-399 | when threads record what their clients returned, an acknowledged row in the ledger goes back to an attempt that carried that very record at the run's tier and to a confirming reply in that request's own place on its own connection |
| `LoadgenBounds.UnledgeredBound` | chaos/orchestrator/run.py:429-448 | in every reachable state the records not confirmed in the ledger number at most the slack of 255 plus the batch size for each thread, and at most the sharper whole-batch bound |
| `LoadgenBounds.PeakReached` | chaos/orchestrator/run.py:429-448 | the sharper bound is met by some run, for every thread count and batch size |
| `LoadgenBounds.SlackTight` | chaos/orchestrator/run.py:429-448 | the slack itself is met by some run if and only if there are no threads or the batch size divides 255 |
| `LoadgenBounds.SlackMissedHere` | chaos/orchestrator/run.py:429-448 | one producer sending pairs: the slack is 257, whole pairs peak at 256, and no run meets the slack |
| `LoadgenBounds.FrontierCoversExactly` | chaos/orchestrator/run.py:429-448 | every missing record lies beyond the frontier in every reachable state if and only if there is at most one producer, for every slack |
| `Verdict.FinalPass` | chaos/orchestrator/run.py:637-911 | counts a violation or anomaly exactly when its own record reads as one; is advisory exactly when the shutdown cannot be trusted; lists exactly the reasons that apply, with the number of unexplained survivors; counts neither exactly when the shutdown was trustworthy, every probe worked, every survivor is a segment quarantined by a power cut and the zero-slack check passed |
| `Verdict.Shutdown` | chaos/orchestrator/run.py:637-800 | which reasons are reported, each exactly when its own condition holds, and that any of them but a failed scrape or a killed drain-out makes the pass advisory |
| `Verdict.UnexplainedExactly` | chaos/orchestrator/run.py:898-903 | the survivors counted are the files that are not segments quarantined by a power cut, so none is counted if and only if every file is one |
| `Verdict.Step` | chaos/orchestrator/run.py:1430-1592 | the counts one episode adds, by its own inputs, are what its record reads as; a record shows a failure exactly when it is not ok, and carries the oracle's verdict, lists and loss; an aborted one keeps its scheduled trigger and is no cut |
| `Verdict.Campaign` | chaos/orchestrator/run.py:1366-1801 | over a whole run the tallies equal the report's selections from the records written; exit 0 takes a clean final pass and, for a buffered tier under power loss, a loss actually seen |
| `Verdict.ExitZeroExactly` | chaos/orchestrator/run.py:478-498 | exit 0 if and only if every record is neither violation nor anomaly and the power-loss verdict is a pass |
| `Verdict.ExitCodesExactly` | chaos/orchestrator/run.py:478-498 | exit 1 if and only if some record is not clean or the power-loss verdict fails; exit 2 if and only if every record is clean and the verdict is inconclusive |
| `Verdict.PowerLossExactly` | chaos/orchestrator/report.py:282-323 | fails if and only if some power cut's record lists a missing, leaked or conflicting record; inconclusive if and only if none does and the last buffered cut lost nothing |
| `Verdict.FailExactly` | chaos/orchestrator/report.py:282-323 | over the records a run writes, the power-loss verdict fails if and only if some record of an actual power cut is not ok |
| `Verdict.FailIsCounted` | chaos/orchestrator/report.py:282-323 | a failed power-loss verdict always comes with a counted violation or anomaly |
| `Verdict.CampaignGate` | chaos/orchestrator/gate.py:53-104 | the gate passes if and only if every run has a final pass, no record violates, every cut's canary bit, no record is anomalous unless allowed, and the cuts reach 200 a schedule and 1000 in all |
| `Verdict.CutsCounted` | chaos/orchestrator/gate.py:37-43 | a schedule's cuts number its episodes that ended in a power cut and were not aborted |
| `LedgerReading.LedgerSoFar` | chaos/orchestrator/verify.py:153-240 | until something fails, the oracle that has tailed the ledger between flushes knows exactly the confirmed rows, with their tags and without conflict |
| `LedgerReading.LedgerMidFlush` | chaos/src/bin/loadgen.rs:488-513 | until something fails, and wherever inside an append or between append and sync the read lands, it knows exactly the confirmed rows and those of the flushing thread's buffer whose lines are on file whole, without conflict |
| `EndToEnd.CleanRunVerdict` | chaos/orchestrator/run.py:806-820 | after generator exit 0, for every interleaving and every way of reading the logs, the oracle knows every record and passes at zero slack if and only if every acknowledged record was delivered (unless that loss is allowed) and no refused one was |
| `EndToEnd.FinalCleanMeansDurable` | chaos/orchestrator/run.py:806-820 | so a clean final pass, which harness exit 0 requires, means durability held of every record the generator took |
| `EndToEnd.StrandedIsOrphan` | chaos/orchestrator/verify.py:605-641 | a delivered record still buffered and overtaken by the slack is reported as an orphan |
| `EndToEnd.SlackAllowsOrphan` | chaos/orchestrator/run.py:429-448 | a run with two producers, no failure and the harness's own slack in which that happens |
| `EndToEnd.BodyLogged` | chaos/src/bin/recorder.rs:39-61 | a posted batch of generated payloads is logged one line each, in order |
| `EndToEnd.DeliveriesReadBack` | chaos/orchestrator/verify.py:243-261 | the oracle counts each logged delivery of its own run once and no other |

## Left out

- The daemon (write-ahead buffer, flusher, drain, recovery, sinks) is not modelled; the client, the oracle and the harness are proved against any daemon.
- SHA-256 is an arbitrary function; its own strength is not modelled, and tamper evidence is stated as a computed collision.
- The Rust and Go CRC-32 are library calls; the one table-driven implementation in the repository, in C, is the one verified.
- The Go ack-bitmap codec and the C and Go ack encoders are not modelled separately; they repeat the Rust ones step for step.
- Tailer.LogTailer.ReadNew: text is a sequence of characters each standing for one byte, so Python's replacement of invalid UTF-8 is not modelled; nor are its non-ASCII digits and white space or its limit on very long integers.
- Clocks, deadlines, socket timeouts, signals and the connect loop are not modelled; a thread may leave its loop, and a timer flush may fall due, at any visit.
- Time and latency fields are carried but constrain nothing; `duplicate_rate` is a real number, without float rounding.
- The load generator's counter does not wrap: results about its ledger are stated for runs of at most 2^64 records, and for a ledger file that starts empty, as it does in a run's own directory.
- A producer's flush is one step, which the ledger mutex makes it for other producers; what a reader sees in the middle of one is stated by LedgerReading.LedgerMidFlush, for reads before any failure.
- EndToEnd.SlackAllowsOrphan: requires slack plus two batches to fit 64 bits, so that the run it builds stays within the counter.
- Attest.VerifiedMeansUntouched: does not cover the sidecar's own name and shard fields, because verification never compares them with the file.
- Client.WeirClient.ReadResponseInner: does not carry the text of protocol errors; all of them are one error value.
- Verdict.Campaign: does not model runs that end in an exception, which reach no exit code; a loop that stops early between episodes is a run with fewer episodes.
- Transports, TLS, C and Go connection code, HTTP handling in the recorder, device-mapper and process control, quiescence polling, report text and dashboards are I/O or presentation.
- Error display text and the metric labels of Nack reasons would only add easy members.
