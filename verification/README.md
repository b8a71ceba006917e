# Evidence pipeline of the attestor: a verified model

The attestor signs claims about what a web server answered, without seeing more of the
conversation than its client chooses to show. Between the bytes of a response and the
signature lie several small machines: a parser that is fed piece by piece, arithmetic over
chunked bodies, redaction of a response that came in several TLS records, a planner that
cuts records into zero-knowledge proofs, a verifier, a template matcher, a handshake
reader, a codec and a session with concurrent requests. This project models them in Dafny
4.11 and proves what they promise for all inputs and all runs.

Check everything with `dafny verify dfyconfig.toml`.

## How the modules fit together

- `ByteData` has bytes, slices and the sequence facts the rest needs.
- `HttpResponse` says what the incremental response parser does; `HttpParser` is the parser
  object with its loops, proved against it. `HttpSplit` proves that the way the bytes are cut
  does not matter, `HttpIndices` what the recorded indices mean in every reachable state,
  `HttpHeaders` and `HttpHead` what the lines of a head say, `HttpFraming` that written
  responses are read back (sections 6.3 and 7.1 of RFC 9112).
- `Redaction` has the simple redaction and the left-to-right sweep; `BlockReveal` the cursor
  machine over blocks that refines it, `EmptyBlocks` what empty blocks do to it.
- `ChunkMap`, `ResponseRedactions` and `HttpProvider` go from ranges of a body to the
  redactions of the response, and `HttpPlan` says what is planned. `Survivors` finds the slice
  that decides about a byte, `ResponseText` and `HashedParts` what is left of the response,
  `HeadText` what is left of its head and when there is an answer at all, `Exposures` responses
  of which too much is left.
- `ZkPlan` and `ZkPartition` plan the proofs of a record, `ZkAccepted` says which records can
  be planned, `ZkGenerator` queues them and
  completes them in any order, `ZkVerify` rebuilds a text from proofs, `ZkRoundTrip` and
  `ZkRefusal` connect the two sides. `Evidence` composes the whole way of a response.
- `Match` and `Template` are the template matcher and the substitution of parameters;
  `HttpRequest` and `HttpRequestParser` print, redact and read back the request, and
  `HttpRequestLines` says what any request is read as.
- `KeyUpdate` is the writer that changes keys between what is shown and what is not, and
  `KeyMarks` says what it reveals in every run; `RequestPrivacy` follows a request through all
  of these, and `HonestRequest` to the attestor's checks.
- `Handshake` and `HandshakeReading` read handshake messages out of records (sections 4 and
  5.1 of RFC 8446), and `HandshakeVerdict` says which transcripts are accepted.
- `Protobuf` and `ProtobufRoundTrip` are the binary codec of the claim request;
  `ProtobufWire` says what its bytes are, and `ProtobufMerge` what becomes of repeated fields.
- `Session`, `SessionSafety` and `SessionTrace` are the attestor's side of a connection as
  steps between `await`s; `SessionTraffic` ties transcripts to what went through the tunnels,
  and `SessionAnswers` says how each request ends.

Code that changes state step by step is a class or a method here, proved equal to a function
of the old state; the properties are lemmas about these functions.

## Assumptions and findings

Cryptography is ideal: a cipher is any involution of the byte at each position, a proof is
accepted exactly when a circuit that decrypts with this cipher would allow it, and the OPRF,
base64, decryption, certificate and signature checks are parameters. So are the readers that
JavaScript provides for status lines, decimal and hexadecimal numbers, and the engines that
find parts of a body.

The code relies on conditions that its callers have to meet, and some are not met in every
case. Where a property does not hold of the code, the model keeps the code, shows a concrete
case and proves exactly when the property holds:

- A hashed reveal that ends where the response ends makes redaction throw: the empty last
  slice of the complement has the same end and sorts in front of it
  (`RedactsExactlyWhen`).
- Redaction passes over slices behind its cursor, and chunk headers move the cursor on. Of
  overlapping ranges, as of a value and one nested in it, a chunk boundary in front of the
  inner one leaves bytes in the clear that belong to neither (`UncoveredExactly`,
  `NestedPartKeepsByte`, `NestedPartsExpose`, `ChunkedBodyExposed`).
- A hashed range that is split between chunks and is no capture group is not refused: its
  bytes in front of the first chunk header stay in the clear (`HashShownExactlyWhen`,
  `SplitHashKeepsBytes`).
- The cursor takes a step over each empty block, as an application record without data makes
  one, so everything behind it is redacted a byte too early (`RedactedAsMeantExactlyWhen`,
  `EmptyBlockShows`).
- The guard for TOPRF locations compares a count of blocks with a count of bytes, so it
  accepts locations that do not fit; the guard modelled is the one in the code
  (`FitsExactlyWhen`, `AcceptedWithoutFitting`).
- A capture group that begins exactly where a later chunk does is refused although it is not
  split, as the end of the chunk before is taken for its place on the wire
  (`GroupSplitExactly`).
- In general the sweep agrees with the simple redaction exactly when no slice reaches back
  (`PlainSweepAgrees`, `SortedByEndMayPassOver`).
- Trailer lines behind the last chunk are read as chunk sizes, and one that reads as a
  hexadecimal number other than 0 makes the parser throw (`ChunkedRoundTrip`).
- `readWithLength` reads 16 of 24 bits, a message header split between records makes reading
  throw, and a change of cipher spec inside a message loses a record (`NextMessage`,
  `LongMessageCut`, `SkippedInsideLosesRecord`).
- The count of written blocks includes packets that the server sends meanwhile, and asking
  for the last zero blocks gives all (`RunSeparatesExactlyWhen`, `RunShowsExactlyWhen`,
  `SeparatesExactlyWhenCalm`, `EmptySectionHidesRequest`).
- A hashed range may run over the end of the block in which it begins; its record is then
  refused, unless the padding of the record happens to continue the hash
  (`SplitHashRefused`, `SplitHashExample`).
- `processHandshake` verifies the certificate chain for no name at all when no client hello
  stands before the signature (`AcceptedSound`, `NamelessAccepted`).
- A message field that comes twice is replaced, where the Protocol Buffers encoding guide asks
  decoders to merge the two (`ConcatMerges`).
- Initialisations that overlap replace each other's metadata, and tunnels requested
  concurrently for one ID replace each other (`MetadataFixedExactlyWhen`,
  `TunnelFixedExactlyWhen`).
- A secret header block that also occurs earlier in the request is redacted there instead,
  and sent in the clear where it stands (`SecretHiddenExactlyWhen`, `RepeatedHeaderSent`).
- The comment of the template matcher speaks of a parameter against stars; the code takes
  any text up to a second closing bracket as the parameter, and the relation follows the
  code (`MatchRedactedStrings`).

## Model

| member | source | states |
|---|---|---|
| `HttpParser.FindIndex` | src/utils/generics.ts:51-62 | the first place where the needle stands, or -1 exactly when it stands nowhere |
| `HttpParser.Parser.GetLine` | src/utils/http-parser.ts:216-230 | takes the bytes up to the first CRLF and moves the cursor behind it; nothing changes without one |
| `HttpParser.Parser.ReadBody` | src/utils/http-parser.ts:188-214 | the new value of every field, for both kinds of bodies |
| `HttpParser.Parser.ReadHead` | src/utils/http-parser.ts:80-128 | the loop over status line and headers does what the specification says about the whole object, throws included |
| `HttpParser.Parser.ReadChunks` | src/utils/http-parser.ts:131-159 | the loop over size lines and chunks does what the specification says, throws included |
| `HttpParser.Parser.OnChunk` | src/utils/http-parser.ts:75-166 | one call takes the whole object to the state the specification gives, or throws exactly when it does |
| `HttpParser.Parser.StreamEnded` | src/utils/http-parser.ts:171-185 | the response ends complete, or throws: before the headers, with unread bytes, or with bytes due |
| `HttpSplit.FeedIsOneCall` | src/utils/http-parser.ts:75-166 | for every list of pieces for which no call throws, the calls end in the state of one call with all bytes |
| `HttpSplit.SplitInvariance` | src/utils/http-parser.ts:75-166 | for every byte string and every way of cutting it: if one call does not throw, no call of the cut parse throws, and both end in the same state, every index, chunk and the remaining bytes included |
| `HttpSplit.AnyTwoSplitsAgree` | src/utils/http-parser.ts:75-166 | two ways of cutting the same bytes end in the same state |
| `HttpIndices.ReachableMeaning` | src/utils/http-parser.ts:80-165 | in every reachable state: consumed and remaining bytes make up the input; header indices name their lines; four bytes at the header end are CRLF CRLF; chunks rise with bytes between them; the body is what they name, the last cut by the bytes due |
| `HttpIndices.ParsedResponse` | src/utils/http-parser.ts:188-230 | in a response parsed to its end, the body is exactly the slices named by the chunks, or the run from the body start, and all lie inside the response |
| `HttpIndices.ParsedHead` | src/utils/http-parser.ts:80-128 | a parsed response has a status line and its headers end with the blank line at the recorded index |
| `HttpHeaders.SplitHeaderExactly` | src/utils/http-parser.ts:108-114 | a header line is read as a name and a value if and only if it spells them: the name in any case of its ASCII letters in front of the first ": ", the value up to the next one, and no value without a separator |
| `HttpHead.ParsedHeadSays` | src/utils/http-parser.ts:80-128 | every response parsed to its end consists of lines that are passed over, a status line, header lines, an empty line and the rest: the status code, the message, and for every name the value of its last line in any case of its letters are what these lines say, and the recorded indices name exactly these lines |
| `HttpFraming.ChunkedRoundTrip` | src/utils/http-parser.ts:75-159 | a response with a line that says "transfer-encoding", in any case of its letters, with "chunked" in the value, written in chunks with trailer lines (sections 6.3 and 7.1 of RFC 9112) and cut anywhere: it is read if and only if every trailer line reads as the size 0 and no chunk stands behind a line that says "content-length: 0", and throws otherwise; what is read is the status, the headers and the joined data of the chunks, each at its recorded place |
| `HttpFraming.PlainRoundTrip` | src/utils/http-parser.ts:75-185 | a response whose lines do not say that it is chunked, cut anywhere: it can end if and only if no line says a length, or one says that of the bytes behind the head, with the name in any case of its letters; what is read is the status, the headers and those bytes up to the length, and it is complete before its end exactly when the length is reached or is "0" |
| `HttpFraming.ChunkSlicesName` | src/utils/http-parser.ts:143-155 | the recorded slices of a written chunked body name the data of the chunks, one by one |
| `Redaction.RedactSlices` | src/utils/redactions.ts:173-183 | stars at the covered positions and the original bytes elsewhere; writes behind the end have no effect |
| `Redaction.IsFullyRedacted` | src/utils/redactions.ts:45-58 | true exactly when every byte is a star |
| `Redaction.IsRedactionCongruent` | src/utils/redactions.ts:24-40 | true exactly when every byte is a star or the original one |
| `Redaction.BinaryHashToStr` | src/utils/redactions.ts:185-191 | as long as asked for, begins with the base64 text, and is filled up with zeros |
| `Redaction.SweepFailure` | src/utils/redactions.ts:111-167 | for slices up to the end of the text, the left-to-right redaction throws if and only if it meets a hashed slice with its cursor at the end |
| `Redaction.PlainSweepAgrees` | src/utils/redactions.ts:98-183 | for plain slices the sweep equals the simple redaction if and only if no slice reaches back over bytes the cursor has passed |
| `Redaction.SortedPassNothingOver` | src/utils/redactions.ts:98-183 | slices sorted by their starts never reach back |
| `Redaction.SortedByEndMayPassOver` | src/utils/redactions.ts:98-183 | of two slices sorted by their ends, one that reaches back over the other leaves a byte in the clear |
| `Redaction.OrderedSweep` | src/utils/redactions.ts:111-155 | for ordered slices the sweep succeeds, writes stars or the text of the hash over exactly the slices, keeps all other bytes, and records every hash at its slice |
| `BlockReveal.BlockRedactor.RedactBlocks` | src/utils/redactions.ts:111-155 | one slice on the block cursors, in place, does one step of the sweep over the blocks as the cursor counts them, or throws exactly when that fails |
| `BlockReveal.BlockRedactor.Advance` | src/utils/redactions.ts:160-167 | moves the cursor one byte on over block ends, and throws exactly at the end of the last block |
| `BlockReveal.GetBlocksToReveal` | src/utils/redactions.ts:78-168 | for every list of blocks, empty ones included, returns what the cursor machine leaves: all, the blocks that are not all stars, or a throw |
| `BlockReveal.RevealedFlat` | src/utils/redactions.ts:78-168 | without empty blocks the result is that of the flat sweep over the concatenated blocks |
| `BlockReveal.BlocksRefineFlat` | src/utils/redactions.ts:78-168 | for ordered slices the redacted blocks, unfiltered, concatenate to the redacted whole, and the blocks returned are those that are not all stars |
| `EmptyBlocks.RedactedTooEarly` | src/utils/redactions.ts:111-167 | for every list sorted by its ends, overlapping or not, hashed or not, and any blocks that are revealed: each byte of a block is what the slices leave of it as many places behind its own as there are empty blocks in front of it |
| `EmptyBlocks.RedactedAsMeantExactlyWhen` | src/utils/redactions.ts:111-167 | for such lists of plain slices and a block without stars: it is redacted as meant if and only if each of its bytes is starred exactly when the one that many places behind it is |
| `EmptyBlocks.MeantIsFlat` | src/utils/redactions.ts:111-167 | what is meant for a block is what the flat sweep over the concatenated blocks leaves of it |
| `EmptyBlocks.EmptyBlockShows` | src/utils/redactions.ts:157-167 | three blocks, the second empty, of which the byte to hide is shown |
| `BlockReveal.RevealedExactly` | src/utils/redactions.ts:103-108 | a block is returned if and only if it is not stars all over, and the blocks keep their order |
| `BlockReveal.HashLocated` | src/utils/redactions.ts:116-145 | each hash is carried by the block with the first byte of its slice, located at that byte, over the length of the slice |
| `ChunkMap.ConvertResponsePos` | src/providers/http/utils.ts:280-302 | the wire position of a body position, or a throw |
| `ChunkMap.GetRedactionsForChunkHeaders` | src/providers/http/utils.ts:304-323 | the slices between neighbouring chunks whose ends lie inside the range |
| `ChunkMap.ChunkedRevealExact` | src/providers/http/utils.ts:280-323 | for chunked bodies: the wire range of a body range, less the chunk headers, is exactly the body range, wherever it starts and ends |
| `ChunkMap.RevealExact` | src/providers/http/index.ts:609-626 | the same for every parsed response; without chunk redactions the range is contiguous body |
| `ChunkMap.PartFits` | src/providers/http/index.ts:609-626 | a range of the body lies behind the head and inside the response on the wire, with its chunk headers inside it, in order |
| `ChunkMap.PartsInOrder` | src/providers/http/utils.ts:280-302 | ranges that follow each other in the body follow each other on the wire |
| `ResponseRedactions.ComplementReveals` | src/providers/http/index.ts:215-240 | the sorted list of chunk headers, gaps between reveals and hashed reveals, as the specification has it |
| `Survivors.SortedSweep` | src/utils/redactions.ts:98-167 | for every list sorted by its ends that can be swept, the first slice that ends behind a position decides what stands there |
| `Survivors.RedactsExactlyWhen` | src/providers/http/index.ts:215-240 | for every list of reveals, overlapping or not, hashed or not, with chunk headers anywhere in them: redacting the response throws if and only if a hashed reveal ends where the response ends |
| `ResponseText.ByteDecided` | src/providers/http/index.ts:215-240 | for every such list and every position: among headers, gaps and hashed reveals that end behind it, the one that ends first decides; a byte in front of it stays, a byte in a plain one becomes a star, and one in a hashed reveal is that byte of the hash text, counted from where the reveal begins or from the last end in front of it |
| `ResponseText.UncoveredExactly` | src/providers/http/index.ts:215-240 | for every such list, a byte that no reveal holds becomes a star if and only if no chunk header stands between it and the end of the gap around it; otherwise it stays as it is |
| `ResponseText.SurvivorsExact` | src/providers/http/index.ts:180-240 | for reveals that do not overlap, with chunk headers anywhere: a star where nothing is revealed and in chunk headers, the original byte in the rest of a plain reveal and in a hashed one in front of a chunk header, and the text of the hash in the rest of it |
| `ResponseText.HashShownExactlyWhen` | src/providers/http/index.ts:589-626 | a hashed reveal is replaced by the text of its hash if and only if no chunk header lies in it; otherwise its bytes in front of the first header stay in the clear |
| `HashedParts.HashesKept` | src/providers/http/index.ts:215-240 | hashed reveals that overlap nothing and hold no header, among plain ones that may overlap: every hash is recorded where its reveal begins, its text stands over the whole of it, and all else is a star or as it was |
| `Exposures.NestedPartKeepsByte` | src/providers/http/index.ts:215-240 | a reveal inside another behind a chunk header: the first byte, which no reveal holds, survives |
| `Exposures.NestedPartsExpose` | src/providers/http/index.ts:155-241 | for every response with one requested range inside another behind a chunk header, the slices that the provider returns leave everything between head and outer range in the clear |
| `Exposures.ChunkedBodyExposed` | src/providers/http/index.ts:155-241 | for every response in two chunks with the inner range in the second one, every body byte in front of the outer range is left in the clear |
| `Exposures.SplitHashKeepsBytes` | src/providers/http/index.ts:589-626 | a hashed reveal with a chunk header in it, of which the first bytes survive |
| `HttpProvider.GetResponseRedactions` | src/providers/http/index.ts:155-241 | the whole call does what the specification says: parsing, the checks that throw, the parts, the redactions |
| `HttpProvider.CollectPart` | src/providers/http/index.ts:589-626 | the reveal of one part and the chunk headers in it, or a throw for a group split between chunks |
| `HttpPlan.PlanExact` | src/providers/http/index.ts:155-241 | for all ranges found in the body, overlapping or not, empty or not, the provider refuses if and only if a capture group is split between chunks; otherwise its slices are those for the head parts and the wire range of every range that is not empty, with the chunk headers inside them |
| `HttpPlan.PlanApart` | src/providers/http/index.ts:180-213 | ranges that do not overlap in the body become reveals and chunk headers of which none overlaps another |
| `HeadText.HeadShownExactly` | src/providers/http/index.ts:173-206 | after redaction, of the bytes in front of the body exactly those of the status line, of the four bytes that separate head and body and of the recorded line of the date header are as they were, and every other one is a star |
| `HeadText.AnsweredExactlyWhen` | src/providers/http/index.ts:155-213 | bytes are answered unless they cannot be parsed, or something is asked for and the status is not 2xx, there is no body, a request throws, or a capture group is cut by a chunk; when nothing is asked for, nothing is redacted |
| `HeadText.GroupSplitExactly` | src/providers/http/index.ts:589-606 | which capture groups are refused: those at whose beginning, or inside which, a chunk other than the first begins |
| `HeadText.EmptyGroupHashed` | src/providers/http/index.ts:589-606 | an empty capture group to be hashed is not passed over: the answer has a hashed slice of no bytes at its place on the wire |
| `ZkPlan.OffsetAligned` | src/utils/zk.ts:675-708 | an accepted offset is a multiple of the block size and not behind the location |
| `ZkPlan.FitsExactlyWhen` | src/utils/zk.ts:675-708 | an accepted location fits into the slice at its offset if and only if it lies in one chunk of the grid or its distance from the block start and its length fit into a chunk |
| `ZkPlan.ShortLocationsFit` | src/utils/zk.ts:675-708 | accepted lengths up to chunk - block + 1 always fit |
| `ZkPlan.AcceptedWithoutFitting` | src/utils/zk.ts:697-700 | a location the guard accepts, since it compares a count of blocks with bytes, that does not fit |
| `ZkPartition.PlanIsPartition` | src/utils/zk.ts:132-240 | after planning, the slices are non-empty, at most one chunk, start on block boundaries and cover every ciphertext byte exactly once; every byte that is not redacted is in exactly one proof |
| `ZkAccepted.AcceptedExactlyWhen` | src/utils/zk.ts:132-209 | a packet is planned if and only if every hash ends inside the ciphertext, there is a place for each, and no position lies in the one-chunk stretches, cut at the end of the ciphertext, of two of them; otherwise it is refused with the error of the first hash for which this does not hold |
| `ZkGenerator.ZkProofGenerator.AddProofsToGenerate` | src/utils/zk.ts:211-240 | the loop over chunks adds what the plan says and counts the proofs |
| `ZkGenerator.ZkProofGenerator.PlaceToprfs` | src/utils/zk.ts:132-167 | the TOPRF slices are placed one after the other, or the packet is refused with the first error |
| `ZkGenerator.ZkProofGenerator.FillRest` | src/utils/zk.ts:169-189 | everything the TOPRF slices leave is planned |
| `ZkGenerator.ZkProofGenerator.AddPacketToProve` | src/utils/zk.ts:108-241 | queues exactly the plan of the packet; a refused packet is not queued, though what was counted for it stays counted |
| `ZkGenerator.ZkProofGenerator.GenerateProofs` | src/utils/zk.ts:245-286 | for every order in which the tasks complete, each packet with proofs is called back exactly once, at its last task, and the queue is emptied |
| `ZkGenerator.ResultsInAnyOrder` | src/utils/zk.ts:252-271 | what a packet is given does not depend on the order of completion, except for its order |
| `ZkGenerator.CompletedResults` | src/utils/zk.ts:252-271 | it is a permutation of the proofs planned for the packet |
| `ZkGenerator.ProofsExactlyWhenShown` | src/utils/zk.ts:634-667 | a packet has something to prove if and only if not everything is redacted |
| `ZkGenerator.EveryPacketRebuilt` | src/utils/zk.ts:108-508 | for every completion order of all tasks: a packet gets no call if all is redacted, and else one call with proofs from which the verifier rebuilds exactly its redacted plaintext |
| `ZkVerify.VerifyProofPacket` | src/utils/zk.ts:399-508 | accepts exactly the proofs that pass all checks, sets the text at its place and nothing else |
| `ZkVerify.VerifyZkPacket` | src/utils/zk.ts:353-397 | the text rebuilt from all proofs in the order in which the checks finish, or a throw |
| `ZkVerify.ProofAcceptedExactly` | src/utils/zk.ts:399-508 | a proof is accepted if and only if its text lies inside the record, each byte of it outside its hash is a star or the decrypted byte, for a star the circuit was given a star, and at its hash stands the text of the hash of exactly the decrypted bytes there |
| `ZkVerify.AcceptedExactlyWhen` | src/utils/zk.ts:386-395 | a packet is accepted if and only if every one of its proofs is, in any order |
| `ZkVerify.AcceptedGenuine` | src/utils/zk.ts:399-508 | an accepted proof shows only stars, decrypted bytes and, at its hash, the text of the hash of the decrypted bytes there |
| `ZkVerify.VerifierSound` | src/utils/zk.ts:382-508 | for every list of proofs, overlapping or not, in every order, each byte of the accepted text is a star or genuine for one of the proofs |
| `ZkRoundTrip.PlannedHonest` | src/utils/zk.ts:634-667 | each planned proof shows stars, true bytes and at most its own hash |
| `ZkRoundTrip.HonestAccepted` | src/utils/zk.ts:289-337 | the proof generated for it passes every check of the verifier |
| `ZkRoundTrip.ProverVerifierRoundTrip` | src/utils/zk.ts:108-508 | for hashes that fit their slices, the proofs generated for a redacted plaintext rebuild exactly that plaintext, in every order |
| `ZkRoundTrip.FitsSliceExactlyWhen` | src/utils/zk.ts:136-166 | which of the accepted hashes fit the slices planned for them: if and only if, in terms of their location alone |
| `Evidence.BlockRedacts` | src/utils/prepare-packets.ts:57-64 | the padded text of every block is a redaction of its record: stars, true bytes, and true hashes at the locations it carries |
| `Evidence.ResponseEvidence` | src/client/create-claim.ts:475-509 | from the response in blocks to the attestor: parsed, planned, redacted, and for records that can be planned proved and verified, the attestor rebuilds exactly the text that redaction leaves, plain ranges overlapping or not, and gets nothing if and only if a hashed range ends at the end of the response; without overlaps that text is known byte by byte |
| `ZkRefusal.RebuiltExactlyWhen` | src/utils/zk.ts:108-508 | a planned packet whose hashes all show their beginning is rebuilt, in any order, if and only if every hash fits its slice and is the true hash of the plaintext at its place; otherwise the verifier refuses it |
| `ZkRefusal.RebuiltGenuine` | src/utils/zk.ts:108-508 | for every planned packet, whatever its hashes and its redacted plaintext, and every order: the verifier refuses it, or rebuilds exactly the redacted plaintext, each byte of which is then a star, that of the plaintext, or that of the text of a hash of the plaintext at its place |
| `Evidence.EvidenceTrue` | src/client/create-claim.ts:475-509 | for every list of slices, overlapping, hashed and split anywhere, blocks empty or not: what the attestor accepts for a revealed block is the redacted text of this block, and each byte of it is a star, that of the record, or that of the text of a hash of the record at its place |
| `Evidence.SplitHashRefused` | src/utils/zk.ts:132-142 | a hash that runs over the end of its block: planning refuses it if it is longer than the rest of the record; if it ends in the padding, the packet is rebuilt only if the padding spells the rest of the hash text and the padded plaintext has the same hash |
| `Evidence.SplitHashExample` | src/utils/zk.ts:132-142 | the blocks "a" and "b" hashed as one: the hash goes with the first block, whose record is refused when it is planned |
| `Evidence.HashBehindRecordRefused` | src/utils/zk.ts:132-142 | a hash whose location runs behind the record of its block is refused when the record is planned |
| `Match.MatchRedactedStrings` | src/providers/http/utils.ts:347-423 | true if and only if template and text are related: equal bytes, or a bracketed span against a maximal run of stars; it always ends |
| `Match.Matcher.MatchSpan` | src/providers/http/utils.ts:362-392 | a span against a run, with the rewind of the cursor: decided as the relation is, or both cursors where it goes on |
| `Match.SpanStep` | src/providers/http/utils.ts:362-392 | behind a span and a run, the relation of the whole texts is that of the rests |
| `Template.ParamAtComplete` | src/providers/http/index.ts:467 | the scan finds a parameter wherever a bracketed name stands |
| `Template.ReplaceMatch` | src/providers/http/index.ts:727-750 | the text for a match and its hidden part, at the offset in the template moved by the change of length so far |
| `Template.ExtractAndReplace` | src/providers/http/index.ts:715-757 | the substituted text and its hidden parts, or a throw exactly when a value is missing |
| `Template.HiddenNamesSecret` | src/providers/http/index.ts:733-739 | every hidden part names exactly the secret substituted there |
| `Template.HiddenExactly` | src/providers/http/index.ts:733-739 | a hidden part is recorded for every secret and for nothing else |
| `Template.RedactedByPiece` | src/providers/http/index.ts:127-147 | redacting the hidden parts puts stars for the secrets and leaves everything else |
| `Template.TemplateRoundTrip` | src/providers/http/index.ts:715-757 | the redacted text is accepted against the template without the secrets when every secret is non-empty and no star follows it, and, where plain text and public values have no opening bracket, only then |
| `HttpRequest.Redactions` | src/providers/http/index.ts:113-149 | the list of the secret headers where they are first found and of the non-empty hidden parts moved to their place, sorted by their ends |
| `HttpRequest.SecretHiddenExactlyWhen` | src/providers/http/index.ts:113-149 | with the list returned, the secret headers become stars if and only if they occur nowhere earlier in the request, or all their bytes that the earlier occurrence does not reach are stars themselves; the others are sent as they are |
| `HttpRequest.RepeatedHeaderSent` | src/providers/http/index.ts:113-125 | a request with the same header in public and in secret, of which the secret one is sent in the clear |
| `HttpRequest.DataLines` | src/providers/http/index.ts:99-111 | the request is its lines, the secret ones as one text, an empty line and the body |
| `HttpRequest.RequestText` | src/providers/http/index.ts:82-111 | the request byte for byte: request line, host, length, connection, encoding, public and secret fields, an empty line, the body |
| `HttpRequest.RedactedRequest` | src/providers/http/index.ts:99-153 | found there, the redacted request is again a request line for line, with stars for the secrets and nothing else changed |
| `HttpRequestParser.GetHttpRequestData` | src/utils/http-parser.ts:238-311 | the request read from the messages, or a throw |
| `HttpRequestLines.RequestReadExactly` | src/utils/http-parser.ts:238-311 | any messages are read as a request if and only if the first one does not begin with a star and the first line, of at least one with a line end, has a word, a space, and another space behind it; verb, target and protocol are those of the leftmost match, each header name has the values of its lines in order, with names and values cut at the first colon and trimmed, and the body is what stands behind the empty line, or behind the last line end without one |
| `HttpRequestParser.ReadsLines` | src/utils/http-parser.ts:256-291 | lines that were printed are read back one after the other, and the rest is the body |
| `HttpRequestParser.PrintRedactParse` | src/utils/http-parser.ts:238-311 | a request printed, redacted and cut into messages in any way is read back: verb, target, host, the connection to be closed, and body, with stars for what is hidden |
| `HttpRequestParser.BodyMatches` | src/providers/http/index.ts:347-349 | a body substituted by the client comes out such that it matches the template of the attestor |
| `Handshake.HandshakeReader.ReadPacketAt` | src/server/utils/process-handshake.ts:151-223 | one call, with its recursion, takes the reader where the specification says, or throws; it always ends |
| `Handshake.HandshakeReader.ProcessHandshake` | src/server/utils/process-handshake.ts:29-233 | the whole loop and the checks behind it; it always ends |
| `HandshakeReading.ReadsMessage` | src/server/utils/process-handshake.ts:151-250 | with a message ahead, however records cut it, it is returned exactly if the record in which reading begins holds its 4-byte header, and reading throws exactly if not |
| `HandshakeReading.LongMessageCut` | src/server/utils/process-handshake.ts:240-250 | a message of 65536 bytes or more is returned cut by the high part of its length |
| `HandshakeReading.SkippedReads` | src/server/utils/process-handshake.ts:167-177 | changes of cipher spec between messages are passed over |
| `HandshakeReading.SkippedInsideLosesRecord` | src/server/utils/process-handshake.ts:167-213 | one inside a message costs the record behind it: reading goes on as if neither were there |
| `HandshakeReading.Reassembly` | src/server/utils/process-handshake.ts:46-223 | for every list of messages coalesced and fragmented in any way, after k turns exactly the encodings of the first k are recorded and no more is used up |
| `HandshakeReading.NextMessage` | src/server/utils/process-handshake.ts:46-250 | the next turn returns the next message as it was sent if and only if the record in which it begins holds its whole header |
| `HandshakeReading.RunRecords` | src/server/utils/process-handshake.ts:46-223 | the loop over a readable sequence of messages that ends after k turns has recorded exactly the first k encodings |
| `HandshakeReading.AcceptedSound` | src/server/utils/process-handshake.ts:29-233 | a transcript is accepted only if one of its recorded messages is signed by the first of the certificates read from the messages before it, over exactly these messages or as a key share, and they chain up for the server name returned, or for none if no client hello stood before; every such message was checked; name, version and suite returned are those the messages say; the next message is one more than the record of the last finished message, or 0; in TLS 1.3 the server has finished, and in TLS 1.2 both sides have changed the cipher spec |
| `HandshakeVerdict.HandshakeDecided` | src/server/utils/process-handshake.ts:29-250 | for messages coalesced and fragmented in any way over records that can be opened, with anything at all behind them once both sides have finished: the transcript is accepted if and only if each message header is in one record, each message can be handled, a signature was verified, and in TLS 1.3 the server has finished or in TLS 1.2 both sides have changed the cipher spec; what is returned is what the messages say, and one more than the record in which the last finished message ends |
| `HandshakeReading.NamelessAccepted` | src/server/utils/process-handshake.ts:46-122 | a receipt with the signature in front of any client hello, accepted although the chain is good for no name only |
| `Protobuf.BinaryWriter.Uint32` | src/proto/api.ts:1868 | a number in base 128 behind what was written |
| `Protobuf.BinaryWriter.Join` | src/proto/api.ts:1883 | the bytes since the fork, with their length in front, behind what was written before |
| `Protobuf.Encode` | src/proto/api.ts:2315-2342 | writes the encoding of every field that is set, in order, behind what was written |
| `Protobuf.DecodeMessage` | src/proto/api.ts:2343-2411 | the loop fills the message as the specification says: unknown fields passed over, later values replacing earlier ones, repeated ones collected; it always ends |
| `ProtobufRoundTrip.ReadsUint32` | src/proto/api.ts:1890-1925 | a number below 2 to the 64 is read back by its low 32 bits |
| `ProtobufRoundTrip.RoundTrip` | src/proto/api.ts:1865-1950 | decode(encode(m)) = m for every message below a claim request, of every nesting and size below 4 GB |
| `ProtobufRoundTrip.EncodingTellsApart` | src/proto/api.ts:2315-2342 | different messages have different encodings, so the signature covers every field |
| `ProtobufRoundTrip.SignatureAgreement` | src/server/utils/assert-valid-claim-request.ts:74-83 | what the attestor encodes again with the signatures taken out are the bytes that the client signed |
| `ProtobufWire.VarintExactly` | src/proto/api.ts:1868 | a number is written as its digits in base 128, the lowest first, each but the last with 128 added, in the one shortest way |
| `ProtobufWire.EncodedAsLaidOut` | src/proto/api.ts:2318-2336 | the encoding of every message is its fields one behind the other: for each that is set its tag as the encoder has it, and then the number, or the length and the bytes |
| `ProtobufWire.UnknownPassedOver` | src/proto/api.ts:2343-2411 | between the fields of a message there may be fields of any wire type with other tags, groups included, and behind them a tag that ends the message: decoding gives the message all the same |
| `ProtobufMerge.ConcatMerges` | src/proto/api.ts:2343-2411 | two encodings one behind the other are decoded as one message: of repeated messages those of both, of every other field the later value that is set, a message in a field being replaced as a whole |
| `KeyUpdate.RequestWriter.GetLastBlocks` | src/client/create-claim.ts:393-407 | the last n blocks of a sender; for none asked, all of them |
| `KeyUpdate.RequestWriter.SetRevealOfLastSentBlocks` | src/client/create-claim.ts:378-391 | these blocks, and no others, are marked or unmarked |
| `KeyUpdate.RequestWriter.WriteWithReveal` | src/client/create-claim.ts:362-376 | new keys when the reveal changes, the records, and their marks |
| `KeyUpdate.RequestWriter.WriteRedactedWithKeyUpdate` | src/client/create-claim.ts:321-343 | the loop over sections writes the parts of the request in order |
| `KeyMarks.MarkedByLast` | src/client/create-claim.ts:362-407 | in every run, whatever the server sends meanwhile: a packet is revealed if and only if the last write that reaches back to it is one to be revealed; a write reaches as many client packets back as the transcript grew by, and all when it did not grow |
| `KeyMarks.RunSeparatesExactlyWhen` | src/client/create-claim.ts:321-407 | in every run, data is revealed as meant and no key of the client encrypts both a revealed packet and data that is not, the handshake reveals included, if and only if under each key of data the last write to reach a packet is of the kind of the key |
| `KeyMarks.RunShowsExactlyWhen` | src/client/create-claim.ts:321-407 | for every request, its sections in order, empty ones included, and every run: the data sent is the request, and it is shown with stars over exactly its sections if and only if for each record that is not all stars the last write to reach it is of the kind of its key |
| `KeyMarks.CalmUndisturbed` | src/client/create-claim.ts:362-376 | a run is not disturbed in this way when no packet arrives during a write and no part without bytes stands behind another |
| `KeyUpdate.CalmRevealsExactlyWhen` | src/client/create-claim.ts:321-407 | when nothing arrives during a write, the sections alone decide: what is shown has stars over exactly them if and only if every byte in front of the last empty section is in a section or a star itself, or writing no bytes sends a record |
| `KeyUpdate.RequestWriter.AddHandshakeReveals` | src/client/create-claim.ts:539-554 | the loop over all packets marks what the specification says |
| `KeyUpdate.HandshakeRevealed` | src/client/create-claim.ts:539-554 | of either side exactly the ciphertext in front of the first application data is revealed besides what was |
| `KeyUpdate.HandshakeKeeps` | src/client/create-claim.ts:542-554 | revealing the handshake records leaves keys apart exactly when they were, and reveals no data |
| `KeyUpdate.SeparatesExactlyWhenCalm` | src/client/create-claim.ts:370-374 | a revealed piece behind data that is not revealed stays apart from it if and only if no packet of the server arrives during the write |
| `KeyUpdate.EmptySectionHidesRequest` | src/client/create-claim.ts:321-407 | the request "a" with an empty section behind it, of which nothing is shown |
| `RequestPrivacy.ReturnsSections` | src/providers/http/index.ts:113-153 | what createRequest returns are sections as the writer needs them, the only empty one in front of everything, when there are no secret headers or they are found in their place |
| `RequestPrivacy.RequestRevealed` | src/client/create-claim.ts:321-407 | a request built, redacted and written with key updates goes out whole in every run; it is revealed as meant under separated keys if and only if the run is not disturbed, and shown with stars over exactly its redactions if and only if every record ends as meant; both hold when nothing arrives during a write |
| `RequestPrivacy.AttestorReads` | src/utils/http-parser.ts:238-311 | in every run in which the records end as meant, from the parts of a request to what the attestor reads of it: verb, host, connection, and target and body with stars over their hidden parts, while the secret headers are all stars |
| `HonestRequest.HonestRequestAccepted` | src/providers/http/index.ts:252-349 | the request of an honest client, made from templates with secrets that stand out, redacted, written and cut into messages, passes the checks on verb, path, host, connection and body by an attestor who does not know the secrets, while its secret headers are all stars |
| `HonestRequest.AcceptedExactly` | src/providers/http/index.ts:252-349 | the request of a receipt passes the checks on it if and only if its first line has the verb in any case of its letters and a target that matches, exactly one line names a host, the one expected, exactly one says what becomes of the connection, "close", and its body matches, if one is expected |
| `Session.AssertTranscriptsMatch` | src/server/utils/assert-valid-claim-request.ts:166-209 | true if and only if the claimed sent bytes equal those of the tunnel and the claimed received bytes begin those received |
| `Session.AttestorServerSocket.ClaimClosed` | src/server/handlers/claimTunnel.ts:38-66 | a claim goes on only if host, port, location and transcript match the tunnel |
| `SessionSafety.RunGrows` | src/server/tunnels/make-tcp-tunnel.ts:42-78 | every run keeps all tunnels with their requests, only lengthens transcripts, and takes no response back |
| `SessionSafety.AlwaysSafe` | src/server/handlers/claimTunnel.ts:17-105 | in every reachable state, however requests interleave: tunnels only after initialisation; every signed response is for a tunnel with the same host, port and location that sent and received what the claim says, with a result only if validated |
| `SessionTraffic.TranscriptIsTraffic` | src/server/tunnels/make-tcp-tunnel.ts:42-78 | in every run, what the transcript of a tunnel says the client sent is exactly the messages that came for an ID while it meant this tunnel, and what it says the server sent exactly the data of its socket before that was first closed, in the order of the events |
| `SessionTraffic.ResponsesEndure` | src/server/handlers/claimTunnel.ts:38-46 | every signed response was issued for a tunnel with the host, port and location of its claim; when it was compared, the claim said exactly what the messages to this tunnel had been and the beginning of what its socket had given; in every later state both are still the beginning of that traffic |
| `SessionAnswers.InitAnswered` | src/server/handlers/init.ts:14-38 | however other requests interleave, an initialisation sets its metadata and opens the session if and only if the session is not initialised when it comes, the signature type is supported, the client version is positive and its authentication holds |
| `SessionAnswers.TunnelAnswered` | src/server/handlers/createTunnel.ts:11-91 | however other requests interleave, a tunnel request that may open a tunnel and connects gives its ID a new tunnel with its options and an empty transcript, and any other gives none |
| `SessionAnswers.ClaimAnswered` | src/server/handlers/claimTunnel.ts:17-105 | however other requests interleave, a claim is answered if and only if its ID meant a tunnel when it came, with its host, port and location, and with a matching transcript when that had closed; the answer has the result of validation under the metadata, or none for a time stamp more than 600 s ahead, and the ID is free again |
| `SessionTrace.InitialisedByValid` | src/server/handlers/init.ts:14-38 | in every run an initialised session has the metadata of a request that came before initialisation, with a supported signature type and a version above 0, and whose authentication was found valid afterwards |
| `SessionTrace.TunnelsAllowed` | src/server/handlers/createTunnel.ts:11-91 | in every run the tunnel an ID means was asked for under this ID with these options, by a session initialised by then, when the ID was not in use and the metadata allowed the host |
| `SessionTrace.MadeAllowed` | src/server/handlers/createTunnel.ts:11-91 | the same for every tunnel ever made, in use or not |
| `SessionTrace.SignedOnlyValidated` | src/server/handlers/claimTunnel.ts:48-105 | in every run a claim signed in a response is what validation gave under metadata that was admitted in this session |
| `SessionSafety.MetadataFixedExactlyWhen` | src/server/handlers/init.ts:14-38 | the metadata of an initialised session is the same in all runs if and only if no other valid initialisation is being checked |
| `SessionSafety.OverlappingInits` | src/server/handlers/init.ts:14-38 | two initialisations that overlap both succeed, and the later one replaces the metadata |
| `SessionSafety.TunnelFixedExactlyWhen` | src/server/handlers/createTunnel.ts:11-91 | an ID in use means the same tunnel in all runs if and only if no other tunnel for it is under way |

## Left out

- EveryPacketRebuilt: assumes hashes that fit the slices planned for them; `FitsSliceExactlyWhen` says which accepted ones do, and `RebuiltExactlyWhen` that the verifier refuses the others.
- ResponseEvidence: assumes non-empty blocks, and hashed ranges that overlap no other and that neither chunks nor blocks split; `EvidenceTrue` is for all cases, and `RedactedTooEarly`, `HashShownExactlyWhen`, `ByteDecided` and `SplitHashRefused` say what happens in the others.
- AnsweredExactlyWhen: assumes capture groups that are not empty; `EmptyGroupHashed` says what an empty one adds.
- HandshakeDecided: assumes records with the messages that are not empty and changes of cipher spec that stand between messages; `SkippedInsideLosesRecord` says what one inside a message does, and `AcceptedSound` is for all transcripts.
- RedactedAsMeantExactlyWhen: for plain slices; with hashes `RedactedTooEarly` still gives every byte.
- AttestorReads: assumes secret headers that occur nowhere before their place; `SecretHiddenExactlyWhen` says what is hidden otherwise.
- GenerateProofs: proof tasks that fail, and packets added while proofs are generated, are not modelled.
- TemplateRoundTrip: the direction "only then" needs plain text without opening brackets, as literal brackets can form spans of their own.
- PrintRedactParse: text is ASCII, public header names set neither host nor connection again and have no line breaks, and the secret headers are found where they stand.
- Handle: tunnels are referred to by their position in a list of all tunnels made, so that aliasing of tunnel objects is not modelled.
- UTF-8 decoding: lines and the strings in messages are bytes, and string lengths count bytes.
- `disconnectTunnel` only closes a tunnel and changes nothing else.
- Readings of JavaScript's `Number` and `parseInt` that are negative or fractional are outside the model; a reading that is not a number counts as 0, as the comparisons of the code treat it.
- Regular expressions other than those for parameters and the request line, XPath, JSONPath and the parser of scripts: requests to find something are arbitrary functions from the body to ranges.
- URL normalisation, and with it the position of hidden parts of a URL inside the built request: hidden parts inside the target are given.
- Templates in other provider parameters than URL and body, the location and the response matches of a receipt.
- Record numbers, nonces and the decryption of single records in `decryptTranscript`.
- `writeRedactedZk`, which is one write and one redaction of the request; redaction itself is modelled.
- Timers, logging, tracing, retries, the BGP listener, proxies and sockets; closing a socket is an event that can come at any time.
- JSON forms of messages, and messages that are not part of a claim request.
- AVS, Mechain and their contracts.
