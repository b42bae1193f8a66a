# Client-side verification logic of the Talon Go SDK

The SDK talks to a database it does not trust blindly. What it proves about the database's answers is
ordinary code: an append-only event stream authenticated by a Merkle mountain range, conditional
transactions with receipts, a strict JSON scanner, binary and decimal codecs, a cancellation protocol
around native SQL calls, and a byte-preserving relocation of local policies. This project models that
code in Dafny and proves what it is for.

`dafny verify dfyconfig.toml` checks everything.

| file | models |
|---|---|
| `Words`, `Numerals`, `Sealing` | machine words, byte order, decimal digits, and the "items in form, keys distinct, total within a bound" pattern of both request builders |
| `Digests`, `Preimages`, `Binding` | symbolic digests, the byte strings really hashed, and the step from one to the other |
| `Merkle`, `Inclusion` | peaks, append, and inclusion proofs, against a recursive tree |
| `Streams`, `Query`, `Paging`, `Answers` | heads and histories, page verification, whole paging runs, and the existence of acceptable answers |
| `Keys` | record keys and the byte layout of stored heads and events |
| `Transactions`, `Receipts` | the reference transaction and the receipt validator |
| `Requests`, `RequestTexts`, `Commands` | sealing a request, its JSON text and size, and its binary command |
| `Appends`, `AppendReceipts`, `AppendBounds` | building an append with its command, its receipt, and the sizes of both |
| `Ledger`, `HashedLedger` | the store invariant over all runs, and what it asks of a real hash |
| `StoredBytes` | the bytes that an append writes and every run leaves, place by place |
| `StrictJson`, `JsonUnique` | the duplicate-key scanner over concrete syntax, and the unambiguity of that syntax |
| `WireValues`, `WireRows` | the tagged value codec, parameter buffers and row sets |
| `Decimals` | exact decimals in their several implementations |
| `SqlContext` | the cancellation protocol as a system of steps |
| `Relocation` | locator spans, the splice, and the marker comparison |

## How it is modelled

Digests are a free datatype with one constructor per hash domain, so "no collision" is not assumed but
built in; `Preimages.PreimageInjective` shows that the hashed byte strings of all domains differ
whenever their fields do, and `Preimages.RenderInjective` and `Binding.RootBytesBindHistory` carry the
result to any 32-byte hash function that has no collision among the strings actually hashed. An answer
may carry foreign digests and malformed hexadecimal text anywhere.

The store invariant is stated for any function from digests to 32 bytes; the only thing asked of it is
that the head roots occurring in the run have distinct bytes. `HashedLedger.HashSeparates` derives that
for a real hash function from the absence of collisions among the strings hashed for these roots; an
append may also expect a head whose root is the hash of no known string.

Byte layouts are defined once by their encoders and stated a second time by offset (`KeyShows`,
`EventShows`, `HeadShows`, `RenderShows`, `ValueShows`) or field after field (`CommandLayout`), so that
injectivity is not all that is known of them. Limits are constants in the code and numbers in the
predicates that say what is accepted.

Code that loops over mutable state is a method proved against a specification function; the scanner is
a class with an offset; the concurrent SQL code is a transition system whose runs are all sequences of
enabled steps. Integers are unbounded, and wrap-around, two's complement and 64-bit limits are written
out where the code relies on them.

Three results say that a natural expectation fails, at an input, and exactly when it holds:

- A counter incremented to zero may be reported with an absent after value, because an absent counter
  reads as zero; such a receipt is accepted (`Receipts.AbsentZeroAccepted`). The reported bytes are the
  reference's exactly when the after value is present (`Receipts.AppliedMutationSound`).
- A text, blob or JSON value longer than 1 MiB is encoded but not decoded (`WireValues.LongBlobRefused`).
  Decoding an encoded value returns it exactly when its payload is within the limit
  (`WireValues.DecodeOfEncoded`).
- The comment on `SQLRollbackContext` says that a rollback always dispatches. It does not after a Close
  (`SqlContext.RollbackOnClosedHandle`) or when no token can be allocated
  (`SqlContext.RollbackWithoutToken`). A finished rollback was dispatched exactly when it found the
  handle open and got a token (`SqlContext.RunIsSafe`).

The comment on `ParseDecimal` speaks of digits and at most one point; the code also takes `.5` and `5.`,
and a plus sign (`Decimals.ParsersDiffer`, `Decimals.TrailingPoint`). `decimalFromText` takes neither
the plus sign nor the bare point in front.

## Model

| member | source | states |
|---|---|---|
| `Merkle.LayoutIsExpansion` | revision_stream.go:597-616 | the canonical layout of n leaves has strictly falling heights and tiles 1..n without gap |
| `Merkle.ExpansionUnique` | revision_stream.go:597-616 | no other list of blocks does: the layout is the binary expansion of n |
| `Merkle.ExpectedPeakLayout` | revision_stream.go:597-616 | the bit-scanning loop returns that layout for every leaf count below 2^64 |
| `Merkle.AppendMerkleLeaf` | revision_stream.go:642-685 | the pop-and-push loop computes the recursive merge, error cases included |
| `Merkle.AppendKeepsLayout` | revision_stream.go:642-685 | from any canonical peaks, whatever their roots, the append succeeds for every revision up to 2^64-1 and is canonical again, so its merge and validation errors are unreachable |
| `Merkle.AppendRefinesTree` | revision_stream.go:642-685 | appending to the peaks of n leaves gives the perfect-subtree roots of n+1 leaves and exactly the nodes the new leaf completes |
| `Merkle.CreatedHeights` | revision_stream.go:659-676 | one append creates one node of each height, from any starting peaks |
| `Merkle.CreatedPlaces` | revision_stream.go:659-676 | from canonical peaks the nodes created end at the new revision, one for each power of two that divides it |
| `Merkle.NodeCount` | revision_stream.go:659-676 | n appends create 2n - popcount(n) nodes |
| `Inclusion.VerifyInclusion` | revision_stream.go:1561-1608 | the bottom-up loop accepts exactly the proofs whose climb ends in the named peak's root |
| `Inclusion.InclusionSound` | revision_stream.go:1561-1608 | against the canonical peaks of any leaf list, an accepted proof forces the claimed content to be the leaf at that revision |
| `Inclusion.InclusionComplete` | revision_stream.go:1561-1608 | the honest sibling path of every leaf is accepted |
| `Inclusion.PeakIndexUnique` | revision_stream.go:1565-1580 | only the one peak that covers a revision can accept a proof for it |
| `Streams.ExtendValid` | revision_stream.go:261-282 | every admitted append succeeds; its head passes the head check, has leaf count equal to revision, and a time no earlier than before |
| `Streams.HeadOfValid` | revision_stream.go:1677-1703 | the head of every history passes the head check |
| `Streams.ExtendHistory` | revision_stream.go:347-368 | an append at the head of a history yields the head, digests and nodes of the longer history |
| `Streams.RunIsHistory` | revision_stream.go:266-282 | a run of appends succeeds exactly on non-decreasing times below the revision bound, and ends at the history's head |
| `Streams.HeadRootBindsHistory` | revision_stream.go:560-595 | equal head roots mean equal histories |
| `Streams.RootBindsHead` | revision_stream.go:1677-1703 | a head that passes the check and shows a history's root is that history's head in every field |
| `Streams.EqualRootsEqualRuns` | revision_stream.go:347-368 | two runs of one stream that end with equal roots appended the same events |
| `Query.PointSound` | revision_stream.go:1510-1533 | a verified proof point carries the history's time, payload digest, content and previous root at its revision, and the head root that its own proof root gives |
| `Query.EntrySound` | revision_stream.go:1535-1559 | a verified entry carries the history's payload, time and previous root |
| `Query.WindowSound` | revision_stream.go:1421-1439 | the four verified points around a non-empty window make it exactly the revisions in the time range |
| `Query.GapSound` | revision_stream.go:1440-1459 | the points of an empty window prove that no revision lies in the range |
| `Query.PageSound` | revision_stream.go:1254-1349 | an accepted page against the pinned head of a chronological history has the exact window, and each entry equals the history's in every field, head and proof roots included |
| `Paging.NextRequestSucceeds` | revision_stream.go:1074-1078 | a continuation yields a valid next request for every limit from 1 to 1000 and for no other |
| `Paging.RunRequests` | revision_stream.go:1060-1078 | every request of a run is in bounds, and each later one asks for the same range of the same pinned head, from the last entry of the page before it |
| `Paging.PageShows` | revision_stream.go:1254-1349 | an accepted page has two checked heads that agree with the request, a window within the pinned head, at most as many entries as asked for, all in range and window, and a cursor at the last of them |
| `Paging.PageProofsShow` | revision_stream.go:1351-1404 | its proofs are of the first version, one for each entry and for its revision, with well-formed siblings of rising height, and boundary points only where the window has neighbours |
| `Paging.RunReadsWindow` | revision_stream.go:1318-1347 | along any run of continuations pinned head and window never change, there are at most as many pages as events, and the entries are the window's revisions in order without gap or repeat, complete exactly when no continuation is left |
| `Paging.LiveNeverGoesBack` | revision_stream.go:1276-1281 | from page to page the revision and the time of the observed live head never fall, a live head of the same revision is the same head, and the same holds of it against the pinned head |
| `Paging.RunReadsHistory` | revision_stream.go:1461-1507 | a finished run returns exactly the history's events in the time range, each with the history's digests |
| `Answers.AnswerExists` | revision_stream.go:1406-1508 | for every truthful request there is a page that is accepted; it shows the history's head and holds the next `limit` events or all that are left |
| `Answers.WindowUnique` | revision_stream.go:1421-1450 | the exact window of a request is determined by the history |
| `Answers.ContinuationTruthful` | revision_stream.go:1342-1347 | the continuation of any accepted page is again a truthful request, so an honest store can answer it |
| `Answers.RunCanFinish` | revision_stream.go:1074-1078 | paging never gets stuck: any run on the head of a chronological history, whoever sent its pages, can be continued to its end with any limit, in as many pages as the limit needs |
| `Answers.PagesForIsCeiling` | revision_stream.go:1074-1078 | those pages number the unread events divided by the limit, rounded up |
| `Answers.WholeReadExists` | revision_stream.go:1406-1508 | every truthful first request begins a run that ends and returns exactly the events in range |
| `Keys.KeyBytesInjective` | revision_stream.go:490-505 | keys of two records are equal only for the same record: streams, kinds, revisions and nodes never collide |
| `Keys.KeyShows` | revision_stream.go:490-505 | each key is its four-letter kind, the length of the stream, the stream, and the revision, the time and revision, or the height and start |
| `Keys.TimeKeyOrder` | revision_stream.go:371-373 | byte order of time keys is order by signed time, then revision |
| `Keys.UserKeyspaceApart` | revision_stream.go:284-284 | no namespace yields the streams' own keyspace |
| `Keys.EncodePeakList` | revision_stream.go:518-524 | the peak loop appends the peaks' fixed-width records |
| `Keys.HeadShows` | revision_stream.go:507-525 | a stored head shows magic, revision, time, root, content, proof root and peaks at their offsets |
| `Keys.EventShows` | revision_stream.go:527-537 | a stored event shows magic, time, five digests, payload length and payload at their offsets |
| `Keys.HeadValueInjective` | revision_stream.go:507-525 | equal stored head values mean equal heads |
| `Keys.EventValueInjective` | revision_stream.go:527-537 | equal stored event values mean equal events |
| `Preimages.PreimageInjective` | revision_stream.go:539-595 | the hashed byte strings of all five domains differ whenever domain, stream or any field differs |
| `Preimages.RenderShows` | revision_stream.go:539-595 | the zero root is 32 zero bytes; every other digest is the hash of its domain's name, the stream and its own fields, each at its offset |
| `Preimages.RenderInjective` | revision_stream.go:539-595 | equal digest bytes mean equal digests, for any hash function without a collision among the strings hashed |
| `Binding.RootBytesBindHistory` | revision_stream.go:560-595 | equal head-root bytes mean equal histories under any such hash function |
| `Transactions.CompareIsOrder` | internal/serverprotocol/conditional.go:1119-1150 | the nullable comparison is the bytewise total order with absent below everything and apart from empty; less and greater are its two sides, the others follow from them, and an unknown operator never holds |
| `Transactions.AddInt64Exact` | internal/serverprotocol/conditional.go:1114-1117 | the wrapped-sum test flags exactly the out-of-range sums, and an unflagged sum is exact |
| `Transactions.I64RoundTrip` | internal/serverprotocol/conditional.go:1156-1161 | counters survive their eight stored bytes |
| `Transactions.BytesMatchIsDecoding` | internal/serverprotocol/conditional.go:1156-1161 | the byte test agrees with decoding, absent reading as zero |
| `Transactions.ApplyAllReads` | internal/serverprotocol/conditional.go:1087-1109 | after the reference transaction each mutated key holds its effect and all others are unchanged |
| `Receipts.ScanConditions` | internal/serverprotocol/conditional.go:758-766 | the loop finds the least rejected condition and notices any condition that changed |
| `Receipts.AppliedReceiptSound` | internal/serverprotocol/conditional.go:1045-1112 | an accepted applied receipt has every condition true on its observed value and every after value equal to the reference effect |
| `Receipts.AppliedMutationSound` | internal/serverprotocol/conditional.go:1087-1109 | applied evidence is the reference effect, counters by number; the bytes agree exactly when the after value is present |
| `Receipts.ConflictReceiptSound` | internal/serverprotocol/conditional.go:756-778 | an accepted conflict changed nothing, and is condition_failed at the least failing index exactly when some condition fails |
| `Receipts.CounterConflictSound` | internal/serverprotocol/conditional.go:1067-1083 | a counter conflict names an increment that the reference refuses with the same kind |
| `Receipts.AbsentZeroAccepted` | internal/serverprotocol/conditional.go:1156-1161 | a whole receipt of an increment to zero with an absent after value is accepted, although the reference stores eight zero bytes |
| `Receipts.ReceiptTellsOutcome` | internal/serverprotocol/conditional.go:1045-1112 | a receipt that observed a store is applied exactly when the reference applies, with the same new values, and names the reference's failing condition |
| `Receipts.AcceptedIsHonest` | internal/serverprotocol/conditional.go:1045-1112 | an accepted receipt that observed a store is that store's honest receipt field by field, but for the after values of applied conditions, an absent zero, left-out counter numbers of a conflict, and a later refused increment |
| `Receipts.AcceptedInBounds` | internal/serverprotocol/conditional.go:820-856 | every observation of an accepted receipt names a known keyspace and keeps to the key and value limits |
| `Receipts.NamesShow` | internal/serverprotocol/conditional.go:30-31 | the known keyspaces and the request ids, by their letters and lengths |
| `Receipts.HonestReceiptAccepted` | internal/serverprotocol/conditional.go:721-784 | every honest receipt within the size limits is accepted |
| `Requests.MarshalBytes` | internal/serverprotocol/conditional.go:244-258 | the marshaller writes the decimal bytes with commas between brackets |
| `Requests.ByteArrayJsonSize` | internal/serverprotocol/conditional.go:498-514 | the size counted is the length of the marshalled array |
| `Requests.BuildRequest` | internal/serverprotocol/conditional.go:417-490 | sealing accepts exactly the requests with valid names, counts, items, distinct keys and an estimate within 32 MiB, and carries every field over |
| `Requests.FormatIntShows` | internal/serverprotocol/conditional.go:477-477 | the text of a delta is a minus sign exactly when it is negative and then the digits that read back as its size |
| `Requests.WireInjective` | internal/serverprotocol/conditional.go:417-490 | equal wire forms of two sealed requests mean equal names, conditions and mutations |
| `Requests.WireWords` | internal/serverprotocol/conditional.go:457-490 | the words of the protocol for operators and operations, and which operation carries a value or a delta |
| `Requests.SealConditions` | internal/serverprotocol/conditional.go:432-456 | the condition loop accepts exactly the fitting lists and adds their array sizes |
| `Requests.SealMutations` | internal/serverprotocol/conditional.go:457-490 | the mutation loop accepts exactly the fitting lists and adds their array sizes |
| `Requests.EstimateBoundsText` | internal/serverprotocol/conditional.go:427-430 | the JSON text of a sealed request is no longer than the estimate, hence within 32 MiB |
| `RequestTexts.SealedTextIsStrict` | internal/serverprotocol/conditional.go:331-350 | the text of every sealed request is the print of one JSON tree with the request's fields, and the strict scanner accepts it |
| `RequestTexts.SealedTextInjective` | internal/serverprotocol/conditional.go:417-490 | equal texts of two sealed requests mean equal requests |
| `Requests.SealedReceiptAccepted` | internal/serverprotocol/conditional.go:721-784 | the honest receipt of every sealed request is accepted when the values it touches fit a receipt |
| `Commands.EncodeCommand` | internal/serverprotocol/conditional.go:529-572 | the one-keyspace encoder writes the command layout |
| `Commands.EncodeStreamCommand` | revision_stream.go:687-754 | the append encoder writes the same layout, and fails exactly on overlong fields or unset mutations |
| `Commands.BuildRequestCommand` | internal/serverprotocol/conditional.go:417-496 | the whole builder, command included, fails on no sealable request |
| `Commands.CommandLayout` | internal/serverprotocol/conditional.go:529-572 | the command is magic, version, and both lists behind their counts, each item as its length-prefixed fields with the numbers of presence, operator and kind |
| `Commands.CommandInjective` | internal/serverprotocol/conditional.go:529-572 | equal commands mean equal ordered conditions and mutations, keyspaces included, absent and empty expectations apart |
| `Commands.SealedCommandInjective` | internal/serverprotocol/conditional.go:424-424 | equal commands of sealed requests mean equal namespace, conditions and mutations |
| `Commands.EmptyCommandsCollide` | internal/serverprotocol/conditional.go:424-424 | without a mutation the namespace would not be bound |
| `Appends.AddSideBytes` | revision_stream.go:404-412 | sizes are added exactly when the sum stays within 4 MiB |
| `Appends.BuildSideConditions` | revision_stream.go:284-304 | side conditions are accepted exactly when well formed, distinct and within the byte bound |
| `Appends.BuildSideMutations` | revision_stream.go:306-345 | the same for side mutations, counting on from the conditions |
| `Appends.BuildAppend` | revision_stream.go:247-390 | conditions and writes are built for exactly the admissible requests, so the Merkle append and the proof root cannot fail |
| `StoredBytes.BuiltRecords` | revision_stream.go:347-390 | an append writes the event with its payload and digests, the time entry, the new head over the expected one, and one node for each power of two that divides the revision, each under its key and byte for byte |
| `StoredBytes.BuiltOrder` | revision_stream.go:369-390 | side items come first in the user's keyspace, then the stream's records in their own, conditions with the head first |
| `AppendBounds.BuiltClear` | revision_stream.go:391-394 | every field of an admissible append fits its length word, so its command is encoded without loss |
| `AppendBounds.BuildAppendCommand` | revision_stream.go:247-402 | the whole builder, command included, fails on no admissible request |
| `AppendBounds.AppendCommandInjective` | revision_stream.go:391-394 | equal commands of two appends mean equal conditions and equal writes, side items included |
| `AppendReceipts.RangeTestsAgree` | revision_stream.go:940-942 | the append's own overflow test agrees with the shared addition on every pair of words |
| `AppendReceipts.AppendValidatorAgrees` | revision_stream.go:897-968 | the append validator accepts exactly what the general one does, plus unchanged conditions and the demanded before values |
| `AppendReceipts.BuiltDistinct` | revision_stream.go:379-390 | the side and internal writes of one append go to different keys |
| `AppendReceipts.AppendReceiptTellsChange` | revision_stream.go:897-968 | an accepted receipt is applied exactly when the reference applies the append, and shows the before and after value of every record and side key, none above 16 MiB |
| `AppendReceipts.HonestAppendAccepted` | revision_stream.go:897-968 | the honest receipt of an append within the decoder's limits is accepted |
| `AppendBounds.HonestAppendFits` | revision_stream.go:782-785 | for every admissible append the limits ask no more than that the stored values it touches fit 16 MiB |
| `Ledger.NewlyCompleted` | revision_stream.go:659-676 | the trees that the last leaf completes are those whose size divides the leaf count |
| `Ledger.OnlyHeadOrSideFails` | revision_stream.go:374-378 | in step with the histories, an append that fails a condition fails a side condition or the head: event, time and node absences follow from the head |
| `Ledger.AppendStep` | revision_stream.go:369-390 | an applied append had the stored head as expected head, and the records then match the longer history |
| `Ledger.AppendApplies` | revision_stream.go:374-390 | an append that expects the stored head applies exactly when its side conditions hold and no side increment is refused |
| `Ledger.TransactionStep` | revision_stream.go:284-284 | a sealed user request leaves every stream record as it was |
| `Ledger.RunKeepsStep` | revision_stream.go:369-390 | after every run of appends to any streams and of user transactions, the streams' keyspace holds exactly the records of the histories |
| `StoredBytes.EventStored` | revision_stream.go:527-537 | in every such state each event is stored with its time, its payload and the digests of its history at their offsets |
| `StoredBytes.HeadStored` | revision_stream.go:507-525 | and the head record shows the head of the history, peaks included, and is absent exactly for an empty history |
| `StoredBytes.RunStoresPayloads` | revision_stream.go:369-390 | after every run the payload of every event can be read back from the store byte for byte |
| `Ledger.TimeEntriesInOrder` | revision_stream.go:277-279 | in every such state the byte order of a stream's time keys is revision order |
| `Ledger.RecordsPermanent` | revision_stream.go:386-390 | an event, time entry or tree node once stored is never changed or removed by any later operation |
| `Ledger.NodeKeysAreCompleted` | revision_stream.go:386-390 | the stored nodes are the complete trees, each added by exactly one append |
| `Ledger.NodeRecordCount` | revision_stream.go:386-390 | after any run the store holds 2n - popcount(n) node records of a stream whose history has n events |
| `HashedLedger.HashSeparates` | revision_stream.go:539-552 | a hash without collisions among the strings hashed for some digests gives them distinct bytes |
| `HashedLedger.NewRootOpened` | revision_stream.go:347-367 | the root that an append makes is a hash of known strings whenever the root it expects is |
| `HashedLedger.AnyRunKeepsStep` | revision_stream.go:369-390 | the store invariant over all runs for any hash without collisions among the strings hashed for the roots that the run expects or makes, whatever heads its appends expect |
| `HashedLedger.HashedRunKeepsStep` | revision_stream.go:369-390 | when the expected roots are hashes of known strings, the absence of such collisions is all that is asked |
| `StrictJson.Scanner.SkipSpace` | internal/serverprotocol/strictjson.go:118-127 | skips exactly the whitespace |
| `StrictJson.Scanner.SkipString` | internal/serverprotocol/strictjson.go:130-144 | stops behind the closing quote and reports whether there was an escape |
| `StrictJson.Scanner.Visit` | internal/serverprotocol/strictjson.go:146-221 | on the text of any value, reads in bounds, stops exactly at its end, and accepts exactly the clean values |
| `StrictJson.RejectDuplicateKeys` | internal/serverprotocol/strictjson.go:95-111 | a text is accepted exactly when it is valid and its tree is clean |
| `StrictJson.CleanEverywhere` | internal/serverprotocol/strictjson.go:146-221 | clean means that every node, by any path, lies within depth 128 and repeats no decoded key |
| `JsonUnique.ValueUnique` | internal/serverprotocol/strictjson.go:95-111 | a text has only one tree, whitespace included, so the verdict depends on the bytes alone |
| `WireValues.EncodeI128` | talon_query.go:704-721 | succeeds exactly on the signed 128-bit range and gives the little-endian two's complement bytes |
| `WireValues.DecodeI128` | talon_query.go:723-733 | reads them back by their top bit |
| `WireValues.I128RoundTrip` | talon_query.go:704-733 | decoding the bytes of any number in range gives the number |
| `WireValues.I128BytesOfValue` | talon_query.go:704-733 | every 16 bytes are the bytes of the number they decode to |
| `WireValues.PrecisionFits` | talon_query.go:697-702 | 38 digits mean below 10^38, which always fits 128 bits |
| `WireValues.ValueShows` | talon_query.go:463-535 | an encoded value shows the tag of its kind and its payload at their offsets |
| `WireValues.DecodeOfEncoded` | talon_query.go:569-695 | decoding an encoded value returns it and its exact end, exactly when its payload is within the decode limit |
| `WireValues.LongBlobRefused` | talon_query.go:611-617 | a blob one byte over 1 MiB is encoded and not decoded |
| `WireValues.EncodeOfDecoded` | talon_query.go:463-535 | any accepted bytes are the encoding of the value they decode to |
| `WireRows.AppendValue` | talon_query.go:463-535 | appending succeeds exactly on encodable values and writes their encoding |
| `WireRows.EncodeParameters` | talon_query.go:447-461 | the buffer is the count and the encodings, for exactly the encodable lists |
| `WireRows.ParametersInjective` | talon_query.go:447-461 | a parameter buffer determines its parameters |
| `WireRows.NewDecimal` | talon_query.go:156-168 | the decimal constructor's last check never fails |
| `WireRows.ReadValue` | talon_query.go:569-695 | reading at a position agrees with decoding the suffix there |
| `WireRows.DecodeRows` | talon_query.go:537-567 | accepted bytes are exactly the encodings of rectangular row sets within the limits, all consumed, with at most as many cells as bytes |
| `Decimals.NewDecimal` | internal/serverprotocol/sql.go:168-176 | takes exactly the coefficients below 10^38 with a scale of at most 38, and keeps them unchanged |
| `Decimals.Text` | internal/serverprotocol/sql.go:259-285 | the builder prints the fixed-point text |
| `Decimals.FormatDecimal` | talon_params.go:289-303 | padding and splitting prints the same text, as does goframe/native_sql.go:420-434 |
| `Decimals.ScanDecimalLiteral` | internal/serverprotocol/sql.go:208-243 | the scan accepts exactly digits with at most one point and at least one digit, and counts the fraction |
| `Decimals.ParseDecimal` | internal/serverprotocol/sql.go:181-206 | parsing accepts exactly the literals within precision and scale; trimming zeros and the whitespace test change nothing |
| `Decimals.DecimalFromText` | talon_params.go:214-247 | accepts exactly what the other parser accepts, without plus sign and with a digit before the point, and gives the same decimal |
| `Decimals.CutIsSplit` | talon_params.go:222-233 | a literal's body is its whole part, and a point and its fraction |
| `Decimals.TextRoundTrip` | internal/serverprotocol/sql.go:259-285 | parsing the text of any decimal of up to 38 digits and scale 38 gives it back, in both parsers |
| `Decimals.ParsersDiffer` | talon_params.go:214-247 | `+1` and `.5` are parsed by one parser and refused by the other |
| `Decimals.TrailingPoint` | internal/serverprotocol/sql.go:208-243 | `5.` is parsed by both parsers |
| `SqlContext.RoundedIsCeiling` | talon_sql_context.go:109-120 | the timeout is at least 1, never before the deadline and less than a millisecond after it |
| `SqlContext.PerformKeeps` | talon_sql_context.go:86-173 | every step of every call, watcher, context and close keeps the protocol invariant |
| `SqlContext.RunIsSafe` | talon_sql_context.go:86-173 | in every interleaving no native call meets a dead token or a closed handle, a token is freed exactly once, a finished rollback was dispatched exactly when it found the handle open and got a token, a query whose context ended before it looked is not dispatched, and a returned call has sent a cancel signal exactly when it or its watcher saw its context cancelled, or ended without a deadline |
| `SqlContext.EndIsSignalled` | talon_sql_context.go:126-153 | in every run, once a call looks at a cancelled context or its watcher wakes for one, the token is cancelled before the call returns |
| `SqlContext.TimeoutIsCeiling` | talon_sql_context.go:109-121 | the timeout given to the token is the remaining time in milliseconds rounded up, and zero exactly without a deadline |
| `SqlContext.RollbackOnClosedHandle` | talon_sql_context.go:100-103 | a rollback after a Close finishes without dispatch |
| `SqlContext.RollbackWithoutToken` | talon_sql_context.go:122-125 | a rollback on an open handle finishes without dispatch when no token can be allocated |
| `SqlContext.StepsCountDown` | talon_sql_context.go:126-143 | every step of a call or its watcher brings it nearer to its end |
| `SqlContext.NoDeadlock` | talon_sql_context.go:86-143 | a call that has not returned can move, or stands before the lock and whoever keeps it out can: Close, or a reader that a waiting Close waits for |
| `SqlContext.WaitingDrains` | talon.go:212-219 | while Close waits for the lock no reader enters |
| `SqlContext.EveryScheduleEnds` | talon_sql_context.go:86-143 | in any order, the steps that follow without a new call or a new Close number at most the budget of the state |
| `SqlContext.CallsCanFinish` | talon_sql_context.go:86-143 | every run can go on until all its calls have returned, without any context ending |
| `SqlContext.StuckMeansDone` | talon_sql_context.go:86-143 | a schedule in which only contexts can still end has brought every call to its return |
| `SqlContext.CloseKeeps` | talon.go:212-219 | closing the handle never happens under a native call |
| `Relocation.LocatorSpans` | native_development_owner.go:151-182 | the walk accepts exactly the objects with each field once and returns the locator spans |
| `Relocation.PolicyLocatorSpans` | native_development_owner.go:151-182 | the same for the eleven policy fields |
| `Relocation.ReplaceTokens` | native_development_owner.go:188-198 | the loop computes the splice at ordered spans |
| `Relocation.SpliceSubstitutes` | native_development_owner.go:188-198 | the splice replaces the locator texts and copies every other byte |
| `Relocation.SpansShift` | native_development_owner.go:188-198 | the spans found in the output are the old ones, shifted |
| `Relocation.ImageIsReplace` | native_development_owner.go:188-202 | the spliced text is the document with other locator values |
| `Relocation.RelocationExact` | native_development_owner.go:220-233 | two documents have the same marker image if and only if they agree in every byte outside the locator values |
| `Relocation.DerivedIsAccepted` | native_development_owner.go:238-255 | a derived policy has every field once exactly when the original has, its locator spans are the old ones shifted, and it always passes the comparison |

## Left out

- SHA-256 itself, Ed25519, X.509, archives: hashes are symbolic or any function.
- JSON struct decoding, the range check of generic JSON numbers, presence of fields and the canonical number strings: the models start from typed records; only the duplicate-key scanner works on bytes.
- Receipt hashes, command-hash comparison and quorum receipts: equality checks on opaque text.
- The wire form of an append request: it copies fields that the model already has.
- The roots of window boundary points, and any prefix relation between a live head and an older pinned head: the verifier does not authenticate them.
- Consistency of before values for a key that is both a condition and a mutation, and "first" for counter conflicts: the code does not check them.
- Unescaping of JSON strings and the library's syntax check: the first is any function, the second a flag that promises a tree.
- Meaning of floating point: bit patterns with a finiteness test; UTF-8, strict JSON and coordinate ranges are any predicates.
- Native results, error texts and error classification: a native call returns something.
- Persist and other readers of the handle lock: they would only add more readers.
- HTTP transport, cgo loading, file permissions and the thin command wrappers.
- Ledger.RunKeepsStep: asks that the head roots of the run have distinct bytes; `HashedLedger.AnyRunKeepsStep` asks for no collision instead, and of a root of unknown origin that its bytes are those of no other root of the run.
- SqlContext.RunIsSafe: a query may give up at the lock whenever its context has ended, which covers every failing attempt to take the lock.
- Decimals.FormatDecimal: the two identical printers are modelled once.
