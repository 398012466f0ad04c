# Verified models of the bundle protocol agent and the CoAP library

This project models the parts of the repository in which state, loops and long
runs interact, and proves what they promise.

**Bundle delivery in µD3TN.** `KnownBundles`, `Reassembly` and `LocalDelivery`
follow the bundle processor: the list of known bundles, sorted and purged by
deadline; the fragment lists with gap scan and copy loop; local delivery.
`DeliveryTracks` shows that these shared lists behave, for each application data
unit (ADU), like one small independent track with a set that never forgets, and
`ExactlyOnce` proves delivery over whole runs, both with the `return` that the code
means behind one of its checks and lacks. `DeliveryAsWritten` and `DeliveryExactly` are
about the code to the letter: when the missing `return` makes a difference, and what is
delivered, exactly. `Bundle7` and `Fragmentation` model
proactive fragmentation of BPv7 bundles against a size limit, `Bundle7Wire` the bytes
that this limit is about, `Fragment6` the fragments of BPv6 bundles, and `EndToEnd`
joins sender and receiver: fragments, and fragments of fragments, permuted and
duplicated, are delivered exactly once.
`BundleFate` is the reference count that decides when a forwarded bundle is
declared forwarded or deleted.

**The BPv6 wire format.** `Sdnv`, `Bundle6`, `Bundle6Serializer` and
`Bundle6Parser` model the self-delimiting numbers, the dictionary, the serializer
and the byte-wise parser (sections 4.1, 4.4 and 4.5 of RFC 5050);
`Bundle6RoundTrip` is the round trip, `Bundle6Wire` the format without the serializer,
bit by bit and byte by byte, `Bundle6SecondTrip` what is lost when a bundle
is sent on, `Bundle6SizeLimit` what the parser refuses as too large, and
`Bundle6Compressed` the primary block without dictionary. `ReceiveStream` says what a
stream of bytes amounts to, `ReceiveTask` how the receive buffer, in rounds, hands it
over: a queue with one service each round, and `ReceiveBundles` what that means for
bundles.

**OSCORE.** `ReplayWindow` shows that the bitfield is a set (section 7.4 of
RFC 8613), `OscoreNonce` that nonces are injective and can be rebuilt by the
receiver (sections 5.2 and 6.1), and `SecurityContext` is the state machine of
memory and file with crashes at every point of a store (appendix B.1), event by event
in `SecurityEvents`; `FailedStores` adds stores that fail in a process that lives on.

**CoAP.** `Exchanges` and `RequestDedup` model the reliability layer (sections 4.2,
4.5, 4.7 and 4.8.2 of RFC 7252), `ExchangeEvents` and `RequestAnswers` what each event
ends, sends and acknowledges, `Blockwise` block-wise transfer in both directions
(RFC 7959), `CoapMessage` the codec with the three-byte message number of
draft-gomez-core-coap-bp-03, `CoapWire` the format without the codec, `OptionFormats`
the formats of option values, and
`ProxySplit` and `TokenMidMapper` the CoAP-over-BP proxy.

Code that updates state in place is modelled by classes and loops
(`BundleProcessor`, `ForwardedBundle`, `ByteSink`, `RxTask`, `Replay`,
`FileContext`, `MessageManager`, `Deduplicator`, `Block1Spool`, `Mapper`), each
proved equal to a function of the state before; the runs and their properties are
stated about these functions.

Some members state where the code does less than one might expect, with the exact
condition under which it does what is meant:

- A fragment nested in another one, or an empty one, can stop the gap scan although
  all bytes are present (`Reassembly.ScanExactly`, `DeliveryExactly.DeliveredExactly`).
- The check for delivered originals has no `return`, so a late fragment is released
  and stored as well (`DeliveryAsWritten.RunIsIntendedExactly`,
  `DeliveryAsWritten.FreedOnceExactly`), and late fragments can deliver an ADU again
  (`DeliveryAsWritten.DeliveredAgain`,
  `DeliveryExactly.DeliveriesAsMeantExactly`). Fragments of one cut are never late
  (`DeliveryAsWritten.EndToEndAsWritten`).
- The size of a BPv7 bundle counts processing flags of the older version, which are not
  sent (`Bundle7Wire.SizeIsBytesExactly`, `Bundle7Wire.OldFlagsAreCounted`).
- A limit equal to the minimum size of a first fragment yields an empty first
  fragment (`Fragmentation.SucceedsExactly`, `Fragmentation.EmptyFirstFragment`), and
  empty ones for ever if it is also that of later ones (`Fragmentation.EndsExactly`).
- Several bundles in one chunk are handed over one by one, each with a read of its own,
  and lost with the link (`ReceiveTask.HandedOverExactly`,
  `ReceiveTask.TogetherOneIsLost`).
- Endpoint references of blocks arrive in reverse, and those of later blocks not at all
  (`Bundle6SecondTrip.BlocksComeBackExactly`).
- A bundle above the size limit of the parser passes if a reference count replaces the
  counter in time, or the counter wraps around (`Bundle6SizeLimit.LimitExactly`).
- A store that fails while the process lives on lets a later crash repeat numbers and
  requests (`FailedStores.NumbersRepeatExactly`, `FailedStores.RequestsRepeatExactly`).
- A bundle without payload that exceeds the limit is never decided
  (`BundleFate.NothingSentExactly`).
- A BPv6 fragment without dictionary is refused, because entering the dictionary
  stage does not reset the number reader
  (`Bundle6Compressed.CompressedRefusedExactly`).
- Whatever is sent with the number of a recent request replaces the acknowledgement that
  is stored for its duplicates, resets for pings included
  (`RequestDedup.StoredIsOwnExactly`, `RequestDedup.PingReplacesAnswer`).
- The documentation of the block-wise spool expects gaps to be answered as
  incomplete; the spool does not catch the value error that comes of them, and the
  request is answered as an internal error (`Blockwise.MisplacedExactly`).
- The proxy takes the first byte 0xFF for the payload marker, and looks for it in the
  message as it would write it itself (`ProxySplit.EndFoundExactly`,
  `ProxySplit.MarkedIsLost`).
- With all tokens in use the proxy draws for ever (`TokenMidMapper.TokenIsLeftExactly`).

## Model

| member | source | states |
|---|---|---|
| KnownBundles.RecordFindsExactly | ud3tn/components/ud3tn/bundle_processor.c:1789-1831 | an unexpired bundle is recognised if and only if an entry with its id stands in front of every entry that expires later; this is what early stopping costs |
| KnownBundles.ReassembledFindsExactly | ud3tn/components/ud3tn/bundle_processor.c:1833-1856 | the same for the search for a delivered original |
| KnownBundles.SearchKeeps | ud3tn/components/ud3tn/bundle_processor.c:1800-1831 | recording keeps the list sorted, loses no entry that has not expired, and adds exactly the new entry, only for a new bundle |
| KnownBundles.InsertKeeps | ud3tn/components/ud3tn/bundle_processor.c:1858-1886 | the reassembled bundle is added in sorted position and nothing else changes |
| KnownBundles.FindsIsMembership | ud3tn/components/ud3tn/bundle_processor.c:1800-1817 | with one deadline per id a search that stops early finds exactly what a set would contain |
| KnownBundles.ExpiredExactly | ud3tn/components/ud3tn/bundle.c:437-461 | a bundle has expired if and only if it is older than its lifetime, by its creation time or else by the age it came with and the time since; one with neither at once |
| KnownBundles.ClocklessCopyIsNew | ud3tn/components/ud3tn/bundle.c:437-461 | without a creation time the deadline depends on the path, and a copy is taken for new |
| Reassembly.CopyOne | ud3tn/components/ud3tn/bundle_processor.c:1217-1236 | one round of the copy loop stays inside fragment and buffer for any offsets and lengths, with 64-bit wrap-around, and does not touch what was copied before |
| Reassembly.ReassemblySound | ud3tn/components/ud3tn/bundle_processor.c:1163-1252 | for every list of slices of one ADU, overlapping or nested, the buffer is the ADU whenever the gap scan succeeds |
| Reassembly.ScanCovers | ud3tn/components/ud3tn/bundle_processor.c:1174-1193 | success of the scan means every byte of the ADU is covered |
| Reassembly.ScanComplete | ud3tn/components/ud3tn/bundle_processor.c:1174-1193 | if ends do not decrease in list order, coverage means success |
| Reassembly.ScanExactly | ud3tn/components/ud3tn/bundle_processor.c:1174-1193 | for a sorted list that covers the ADU the scan succeeds if and only if no fragment ends in front of its successor before the end is reached |
| Reassembly.StoppedByNested | ud3tn/components/ud3tn/bundle_processor.c:1174-1193 | a fragment that stops the scan lies inside an earlier one |
| Reassembly.NestedFragmentBlocks | ud3tn/components/ud3tn/bundle_processor.c:1188 | three fragments that hold all bytes and are not reassembled |
| Reassembly.EmptyFragmentBlocks | ud3tn/components/ud3tn/bundle_processor.c:1188 | an empty fragment with the offset of a stored one has the same effect |
| Reassembly.AddKeeps | ud3tn/components/ud3tn/bundle_processor.c:1131-1161 | the fragment list stays sorted by offset and gains exactly the new fragment |
| LocalDelivery.BundleProcessor.RecordAddAndCheckKnown | ud3tn/components/ud3tn/bundle_processor.c:1789-1831 | the loop with purging on the way computes the list and the answer of the specification |
| LocalDelivery.BundleProcessor.ReassembledIsKnown | ud3tn/components/ud3tn/bundle_processor.c:1833-1856 | the loop answers what the specification says |
| LocalDelivery.BundleProcessor.AddReassembledAsKnown | ud3tn/components/ud3tn/bundle_processor.c:1858-1886 | the list afterwards |
| LocalDelivery.BundleProcessor.AddToReassemblyList | ud3tn/components/ud3tn/bundle_processor.c:1131-1161 | the slot afterwards; other slots are unchanged |
| LocalDelivery.BundleProcessor.CanReassemble | ud3tn/components/ud3tn/bundle_processor.c:1174-1193 | the scan loop decides the gap predicate |
| LocalDelivery.BundleProcessor.CopyFragments | ud3tn/components/ud3tn/bundle_processor.c:1215-1240 | the copy loop over the array gives the specified buffer and releases every fragment once |
| LocalDelivery.BundleProcessor.TryReassemble | ud3tn/components/ud3tn/bundle_processor.c:1163-1252 | state after a reassembly attempt: slot removed, original recorded, ADU delivered |
| LocalDelivery.BundleProcessor.FindAndStore | ud3tn/components/ud3tn/bundle_processor.c:1274-1307 | state after the walk over the fragment lists: the fragment is in the list of its ADU, or starts one, and reassembly was tried |
| LocalDelivery.BundleProcessor.AttemptReassembly | ud3tn/components/ud3tn/bundle_processor.c:1255-1307 | state after a fragment was handed over: dropped if its original was delivered, and stored nevertheless |
| LocalDelivery.BundleProcessor.DeliverLocal | ud3tn/components/ud3tn/bundle_processor.c:1068-1120 | state after local delivery of any bundle |
| LocalDelivery.FindSlot | ud3tn/components/ud3tn/bundle_processor.c:1122-1129 | the slot found is the first whose fragments share source, creation time and sequence number |
| LocalDelivery.WithoutAgent | ud3tn/components/ud3tn/bundle_processor.c:1068-1120 | without an agent for its endpoint a bundle that is no administrative record is recorded and released, and neither delivered nor stored; an administrative record is delivered all the same |
| DeliveryTracks.RecordRefines | ud3tn/components/ud3tn/bundle_processor.c:1789-1831 | the sorted and purged list answers like a set that never forgets |
| DeliveryTracks.ReassembledIsMembership | ud3tn/components/ud3tn/bundle_processor.c:1833-1856 | a fragment is dropped if and only if its whole ADU is in that set |
| Bundle7.HeadSizeGrows | ud3tn/components/bundle7/bundle7.c:26-47 | CBOR head sizes are monotone |
| Bundle7.FragmentFlagIsFree | ud3tn/components/bundle7/bundle7.c:95-131 | setting the fragment flag never changes the size of the flags field |
| Bundle7.GetSerializedSize | ud3tn/components/bundle7/bundle7.c:156-171 | the loop over the block list computes the serialized size |
| Bundle7.GetMinSize | ud3tn/components/bundle7/bundle7.c:192-294 | the loops compute the minimum sizes of first and later fragments |
| Bundle7.WholeBelowFirst | ud3tn/components/bundle7/bundle7.c:156-242 | a bundle is no larger than a first fragment that carried all its payload |
| Bundle7.FirstNotSmaller | ud3tn/components/bundle7/bundle7.c:192-294 | the minimum of a first fragment is not below that of later ones |
| Bundle7Wire.SizeIsBytesExactly | ud3tn/components/bundle7/serializer.c:124-283 | for every bundle with CRC type 0, 1 or 2: the computed size is never below the number of bytes that are written, and equals it if and only if the processing flags that are not sent take no room in their field |
| Bundle7Wire.PrimaryIsLength | ud3tn/components/bundle7/bundle7.c:95-131 | the bytes of the primary block are as many as were computed, or fewer by the flags that are not sent |
| Bundle7Wire.BlockIsSize | ud3tn/components/bundle7/bundle7.c:134-153 | the bytes of a canonical block, CRC field included, are as many as were computed |
| Bundle7Wire.EidIsSize | ud3tn/components/bundle7/eid.c:397-415 | the same for endpoint identifiers |
| Bundle7Wire.OldFlagsAreCounted | ud3tn/components/bundle7/serializer.c:118-122 | three flags of the older version make the size of a bundle two too large |
| Bundle7Wire.SentProcFlagsBits | ud3tn/components/bundle7/serializer.c:118-122 | bit by bit, the bundle processing flags that are sent |
| Bundle7Wire.SentFlagsBits | ud3tn/components/bundle7/bundle7.c:82-92 | bit by bit, the block processing flags that are sent |
| Bundle7Wire.HeadExamples | ud3tn/components/bundle7/bundle7.c:26-47 | the bytes of CBOR heads given in appendix A of RFC 8949 |
| Bundle7Wire.EidExamples | ud3tn/components/bundle7/eid.c:397-415 | the bytes of identifiers of each form |
| Bundle7Wire.PublishedBytes | ud3tn/components/bundle7/serializer.c:124-283 | the bundle of section A.1.1 of RFC 9173 is written as it is published |
| Bundle7Wire.FragmentPrimary | ud3tn/components/bundle7/serializer.c:146-210 | a primary block with distinct fields, those of a fragment and a CRC included, byte by byte |
| Fragmentation.Piece | ud3tn/components/bundle7/fragment.c:26-112 | a cut fragment is well formed: primary block length up to date, within its ADU |
| Fragmentation.MakeFragment | ud3tn/components/bundle7/fragment.c:13-114 | the block loop and payload copy give the specified fragment or the refusal |
| Fragmentation.EnqueueFragments | ud3tn/components/ud3tn/bundle_processor.c:1506-1598 | the fragmentation loop enqueues the specified fragments and stops where specified |
| Fragmentation.PieceSize | ud3tn/components/bundle7/bundle7.c:192-294 | a fragment is no larger than the minimum for its kind plus its payload |
| Fragmentation.PieceKeeps | ud3tn/components/bundle7/fragment.c:26-112 | a cut fragment has the header of the bundle apart from its place in the ADU, and of the extension blocks all or those to be replicated, each as often as the bundle |
| Fragmentation.MinimaExactly | ud3tn/components/bundle7/bundle7.c:192-294 | the minimum of a first fragment is the size of the bundle without its payload, with room for offset and ADU length; that of later ones is less by the blocks that are not replicated |
| Fragmentation.FragmentsCoverAndFit | ud3tn/components/ud3tn/bundle_processor.c:1506-1598 | above the first minimum: what is written of every fragment is no longer than the limit; the fragments are non-empty, keep header and blocks of the bundle, are contiguous and make up the payload, and only a full queue stops the loop |
| Fragmentation.SucceedsExactly | ud3tn/components/ud3tn/bundle_processor.c:1526-1591 | the loop succeeds with non-empty fragments if and only if the limit exceeds the minimum size of a first fragment |
| Fragmentation.EmptyFirstFragment | ud3tn/components/ud3tn/bundle_processor.c:1535-1556 | at the minimum of a first fragment the first one is empty; then, depending on the minimum of later ones, empty fragments follow for ever, the next request is refused, or the next fragment repeats offset and blocks |
| Fragmentation.EndsExactly | ud3tn/components/ud3tn/bundle_processor.c:1526-1591 | the loop ends whatever the queue takes if and only if the limit is not the minimum of both a first and a later fragment; at that limit only a full queue stops it |
| Fragment6.FragmentIsWellFormed | ud3tn/components/bundle6/fragment.c:55-100 | every BPv6 fragment has a payload and the last-block flag on exactly its last block |
| Fragment6.BlocksTravelOnce | ud3tn/components/bundle6/fragment.c:69-95 | for every way to cut up a payload: an extension block that need not be replicated is in the fragment at offset 0 of the ADU if it stands in front of the payload, in the one that ends the ADU if behind, and in no other |
| Fragment6.FragmentsExactly | ud3tn/components/bundle6/fragment.c:55-120 | for every way to cut up a payload: the block list of each fragment, its part of the payload and the last-block flag included |
| Fragment6.FragmentsCarryAll | ud3tn/components/bundle6/fragment.c:96-110 | for every way to cut up a payload: the payloads of the fragments, in order, make up that of the bundle |
| Fragment6.FragmentIsSerializable | ud3tn/components/bundle6/fragment.c:14-125 | the header of a fragment is that of the bundle apart from its place in the ADU; a fragment of a bundle that can be serialized can be serialized, unless its header outgrows the length field |
| Fragment6.MarkEndMeans | ud3tn/components/bundle6/fragment.c:69-100 | marking the end sets bit 3 of the last block and changes nothing else |
| Fragment6.MakeFragment | ud3tn/components/bundle6/fragment.c:14-125 | the block loop, the payload copy and the header give the specified fragment or the refusal |
| EndToEnd.FragmentationCuts | ud3tn/components/ud3tn/bundle_processor.c:1506-1598 | fragmenting a bundle produces a cut of its payload |
| EndToEnd.RefragmentationCuts | ud3tn/components/ud3tn/bundle_processor.c:1506-1598 | fragmenting a fragment again refines the cut of the ADU |
| DeliveryAsWritten.RunIsIntendedExactly | ud3tn/components/ud3tn/bundle_processor.c:1260-1272 | over every run the code as written does what is meant if and only if no new, unexpired fragment arrives of an ADU that is known as delivered |
| DeliveryAsWritten.FreedOnceExactly | ud3tn/components/ud3tn/bundle_processor.c:1255-1307 | over every run of the code as written each bundle is stored or released exactly once if and only if no such late fragment arrives |
| DeliveryAsWritten.LateIsLateInTrack | ud3tn/components/ud3tn/bundle_processor.c:1255-1272 | a fragment is late if and only if it is new, unexpired, and its whole ADU is in the set of its track |
| DeliveryAsWritten.RunRefinesAsWritten | ud3tn/components/ud3tn/bundle_processor.c:1068-1307 | over every run the code as written behaves, for each ADU, as an independent track without the return |
| ExactlyOnce.DeliveredAtMostOnce | ud3tn/components/ud3tn/bundle_processor.c:1068-1307 | with the return that is meant behind line 1272: no ADU is delivered twice or with wrong bytes, however its fragments overlap, nest, repeat or mix with whole copies |
| DeliveryAsWritten.ArrivalCounts | ud3tn/components/ud3tn/bundle_processor.c:1068-1307 | one arrival adds its bundle to the stored or the released ones, and to both if it is a late fragment; others only move from stored to released |
| DeliveryAsWritten.ArrivalRefinesAsWritten | ud3tn/components/ud3tn/bundle_processor.c:1068-1307 | one arrival is one step of the simple track of its ADU, and leaves the tracks of all other ADUs alone |
| DeliveryExactly.DeliveredExactly | ud3tn/components/ud3tn/bundle_processor.c:1068-1307 | for every run and every ADU, however its fragments overlap, nest, repeat, come late or mix with whole copies: it is delivered with its bytes once if a whole copy came in time or the fragments at some time had every byte and none ended in front of its successor before the end, and once more for each late fragment that completes it again |
| DeliveryExactly.DeliveredByArrival | ud3tn/components/ud3tn/bundle_processor.c:1068-1307 | an arrival delivers an ADU if and only if it completes it for the first time, or is a late fragment that completes it again |
| DeliveryExactly.DeliveredOnlyIfAllCame | ud3tn/components/ud3tn/bundle_processor.c:1163-1252 | nothing is delivered before all bytes have come in time |
| DeliveryExactly.CompletedIfAllCame | ud3tn/components/ud3tn/bundle_processor.c:1163-1252 | without nesting an ADU is ever complete if and only if all its bytes came in time |
| DeliveryExactly.OrderDoesNotMatter | ud3tn/components/ud3tn/bundle_processor.c:1068-1307 | without nesting, permuting or repeating arrivals does not change whether an ADU is delivered |
| DeliveryExactly.DeliveriesAsMeantExactly | ud3tn/components/ud3tn/bundle_processor.c:1260-1272 | the missing return makes no difference to what is delivered of an ADU if and only if no late fragment completes it again |
| DeliveryAsWritten.EndToEndAsWritten | ud3tn/components/ud3tn/bundle_processor.c:1068-1598 | for the code as written: fragment, permute and duplicate, reassemble: the ADU is delivered once with its bytes if every piece of the cut came in time, otherwise not |
| DeliveryAsWritten.DeliveredAgain | ud3tn/components/ud3tn/bundle_processor.c:1260-1307 | from the start, a whole bundle and then its two halves make the code as written deliver it twice |
| BundleFate.FateDecidedOnce | ud3tn/components/ud3tn/bundle_processor.c:318-382 | in every run the reference count is the number of outstanding pieces; until the last result is in the bundle is retained as pending, and as our own if it is; then it is discarded, once, and declared forwarded if and only if all was enqueued and transmitted |
| BundleFate.DecidedInTheEndExactly | ud3tn/components/ud3tn/bundle_processor.c:899-965 | with all results in, the bundle is decided if and only if sending did not succeed with nothing enqueued |
| BundleFate.NothingSentExactly | ud3tn/components/ud3tn/bundle_processor.c:1526-1598 | that happens if and only if a bundle without payload exceeds the limit and may be fragmented |
| BundleFate.SendsExactly | ud3tn/components/ud3tn/bundle_processor.c:1600-1695 | what sending comes to with room in the queue: whole within the limit or without one; refused if it must not be fragmented or the limit is below the minimum of a first fragment; in at least two pieces above that minimum |
| BundleFate.FullQueueFails | ud3tn/components/ud3tn/bundle_processor.c:1600-1695 | with a full queue nothing is enqueued, and sending fails unless there is no payload |
| BundleFate.ForwardedBundle.Forward | ud3tn/components/ud3tn/bundle_processor.c:817-895 | state after forwarding with any outcome of sending |
| BundleFate.ForwardedBundle.TransmissionResult | ud3tn/components/ud3tn/bundle_processor.c:318-382 | state after a transmission result |
| BundleFate.ForwardedBundle.ForwardingSuccess | ud3tn/components/ud3tn/bundle_processor.c:899-932 | state after a declared success |
| BundleFate.ForwardedBundle.ForwardingFailed | ud3tn/components/ud3tn/bundle_processor.c:946-965 | state after a declared failure |
| Sdnv.SizeIsLeast | ud3tn/components/bundle6/sdnv.c:105-159 | the size functions give the least number of 7-bit groups that hold the value |
| Sdnv.Write | ud3tn/components/bundle6/sdnv.c:161-204 | the backwards loop writes the encoding and nothing else |
| Sdnv.RoundTrip | ud3tn/components/bundle6/sdnv.c:62-204 | reading what was written gives the value after exactly that many bytes, for each width |
| Sdnv.AcceptedExactly | ud3tn/components/bundle6/sdnv.c:16-103 | a byte string is reported done without error if and only if it is one complete SDNV that fits, and the value is the one it denotes |
| Sdnv.DoneImpliesNoError | ud3tn/components/bundle6/sdnv.c:62-103 | up to its first done byte a string carries no error |
| Sdnv.RevivedAfterDone | ud3tn/components/bundle6/sdnv.c:62-83 | a reader that is done comes back to life two bytes later |
| Sdnv.Examples | ud3tn/components/bundle6/sdnv.c:161-204 | the encodings given in section 4.1 of RFC 5050 |
| Bundle6.CalculateDict | ud3tn/components/bundle6/bundle6.c:171-228 | the offsets and lengths of all entries, those of the references of blocks included |
| Bundle6.SerializeDictionary | ud3tn/components/bundle6/bundle6.c:57-73 | the dictionary bytes, entries of references included |
| Bundle6Serializer.PrimaryLengthIsExact | ud3tn/components/bundle6/bundle6.c:231-274 | the primary length field counts exactly the bytes behind it |
| Bundle6Serializer.OffsetsInside | ud3tn/components/bundle6/bundle6.c:146-228 | all dictionary offsets, also of references, ascend inside the dictionary |
| Bundle6Serializer.Serialize | ud3tn/components/bundle6/serializer.c:30-137 | success if and only if the sink takes as many writes as the bundle has fields; then the bundle has left, otherwise the first writes; references of blocks included |
| Bundle6Serializer.WritesAreBytes | ud3tn/components/bundle6/serializer.c:53-130 | the writes together are the bytes of the bundle |
| Bundle6Wire.FlagsArriveExactly | ud3tn/components/bundle6/serializer.c:56-72 | a bit of the processing flags arrives if and only if it was set and is one of 0 to 5, 7, 8 and 14 to 18 |
| Bundle6Wire.MaskBits | ud3tn/components/bundle6/serializer.c:56-72 | what is written of any flags has exactly those bits |
| Bundle6Wire.ExampleBytes | ud3tn/components/bundle6/serializer.c:30-137 | a fragment in which every field has a value of its own, with an endpoint reference and without a custodian, is written as these bytes |
| Bundle6Wire.ExampleArrives | ud3tn/components/bundle6/parser.c:204-669 | of these bytes the parser makes this bundle: the same, with times in whole seconds and dtn:none for the custodian |
| Bundle6Wire.EidReadExactly | ud3tn/components/bundle6/parser.c:124-156 | an identifier is read from any dictionary if and only if both offsets lie inside and the scheme has no colon; it consists of the two strings that begin there |
| Bundle6Parser.ReadByteKeepsValid | ud3tn/components/bundle6/parser.c:390-669 | no byte leads out of the states in which dictionary and block accesses are in bounds |
| Bundle6Parser.BlockPassesLimitExactly | ud3tn/components/bundle6/parser.c:332-350 | of one block, whatever was counted before: if the counter with it exceeds the limit, it passes if and only if the 32-bit sum wraps around to within the limit |
| Bundle6SizeLimit.AcceptedExactly | ud3tn/components/bundle6/parser.c:291-350 | a serialized bundle is accepted, or refused with nothing handed over, according to what is counted behind each block as a 32-bit number: the size so far, or, from the last block with references on, their number and the lengths since |
| Bundle6SizeLimit.LimitExactly | ud3tn/components/bundle6/parser.c:291-350 | every bundle within the limit is accepted; one above it is accepted if and only if that count is within the limit behind each block, and never unless a block has the flag for references or the size reaches 2^32 |
| Bundle6SizeLimit.LargeWithFlagPasses | ud3tn/components/bundle6/parser.c:584-592 | a bundle of 1.5 GiB passes because its second block has a reference count of zero |
| Bundle6SizeLimit.LargeIsRefused | ud3tn/components/bundle6/parser.c:332-350 | without the count it is refused |
| Bundle6SizeLimit.HugeBlockPasses | ud3tn/components/bundle6/parser.c:332-350 | a bundle with a payload of 2^32 bytes passes |
| Bundle6RoundTrip.PrimaryRunsOut | ud3tn/components/bundle6/parser.c:204-558 | the primary length runs out at the last byte of the primary block |
| Bundle6RoundTrip.RoundTrip | ud3tn/components/bundle6/parser.c:204-669 | the parser gives back every serialized bundle and reports no error: times in whole seconds, flags masked, and for each block as many of the first endpoint references of the bundle as it has, in reverse |
| Bundle6RoundTrip.RefsAreReadable | ud3tn/components/bundle6/bundle6.c:190-228 | every reference of a block is read back from the dictionary |
| Bundle6SecondTrip.BlocksComeBackExactly | ud3tn/components/bundle6/serializer.c:106-130 | the blocks arrive as they were if and only if the references of each are, in reverse, the first of all the references of the bundle |
| Bundle6SecondTrip.ReferencesAreReversed | ud3tn/components/bundle6/parser.c:599-629 | two references of a block arrive in the other order |
| Bundle6SecondTrip.LaterReferencesAreLost | ud3tn/components/bundle6/serializer.c:120-127 | a second block with a reference arrives with that of the first |
| Bundle6SecondTrip.ReceivedIsSerializable | ud3tn/components/bundle6/serializer.c:30-137 | what has arrived can be sent on as it is, in the same bytes, if its blocks have come back |
| Bundle6SecondTrip.ReceivedTwice | ud3tn/components/bundle6/parser.c:204-669 | it is then received again as it is |
| Bundle6Compressed.CompressedRefusedExactly | ud3tn/components/bundle6/parser.c:253-290 | for every primary block without dictionary: the parser fails at the first byte behind it if and only if the bundle is a fragment, because the number reader is not reset |
| Bundle6Compressed.CompressedFragmentRefused | ud3tn/components/bundle6/parser.c:253-290 | sixteen bytes that show it |
| Bundle6Compressed.CompressedEndpoints | ud3tn/components/bundle6/parser.c:166-187 | without dictionary the endpoints are those that the pairs of numbers stand for: dtn:none if one of the two is zero, and ipn with both in decimal otherwise |
| Bundle6Compressed.DecimalIs | ud3tn/components/bundle6/parser.c:181-184 | decimal digits without leading zeros that denote the number |
| ReceiveStream.FeedSplits | ud3tn/components/bundle6/parser.c:671-712 | parsing can be interrupted after any byte |
| ReceiveStream.ReadBufferSplits | ud3tn/components/bundle6/parser.c:671-712 | a call of the parser on a part of the input changes nothing about the outcome of the whole, and consumes at least a byte |
| ReceiveStream.ParserRead | ud3tn/components/bundle6/parser.c:671-712 | the reading loop parses what the specification parses |
| ReceiveStream.ReadBufferStops | ud3tn/components/bundle6/parser.c:671-712 | the parser stops at an end, for want of input, or in front of an empty block |
| ReceiveStream.DrainSplits | ud3tn/components/bundle6/parser.c:671-712 | parsing a stream in two portions, what is left over carried along, is parsing it at once |
| ReceiveTask.BufferOutStops | ud3tn/components/cla/cla_contact_rx_task.c:128-162 | one call of the parser is all there is to a pass over the buffer: it ends with the first parser that ends |
| ReceiveTask.RoundContinues | ud3tn/components/cla/cla_contact_rx_task.c:390-460 | behind a round in which nothing is given up, task and link amount to what they did in front of it |
| ReceiveTask.RoundServes | ud3tn/components/cla/cla_contact_rx_task.c:390-460 | what waits in the buffer behind a round is what waited and what the link brought, less one: a queue with one service each round |
| ReceiveTask.RunKeeps | ud3tn/components/cla/cla_contact_rx_task.c:390-460 | over every run: parser and buffer amount to the stream received, and what waits is the length of that queue |
| ReceiveTask.HandedOverExactly | ud3tn/components/cla/cla_contact_rx_task.c:128-460 | over every run, for every chunking: what was handed over is a first part of what the stream amounts to, and all of it if and only if no last rounds brought more ends than rounds and no empty last block is outstanding |
| ReceiveTask.FurtherRoundsExactly | ud3tn/components/cla/cla_contact_rx_task.c:390-460 | all that had come by some round is handed over after exactly as many further rounds as parsers waited |
| ReceiveBundles.StreamArrivesExactly | ud3tn/components/cla/cla_contact_rx_task.c:128-460 | of bundles sent back to back: all whose end has come are handed over if and only if no last rounds brought more ends than rounds, and the last round has not just reached the end of a bundle with an empty last block |
| ReceiveBundles.EndsInEmptyBlockExactly | ud3tn/components/bundle6/parser.c:684-712 | the task stands in front of the end of an empty last block if and only if the stream ends with one, and its bundle alone was left to be read in the last round |
| ReceiveTask.TogetherOneIsLost | ud3tn/components/cla/cla_contact_rx_task.c:143-150 | two small bundles in one chunk: one is handed over, and a fault of the link then loses the other |
| ReceiveTask.GivesUpExactly | ud3tn/components/cla/cla_contact_rx_task.c:390-460 | the buffer is given up if and only if all its bytes are taken, no parser is at work and the first byte begins no bundle |
| ReceiveTask.LateChunkStartsAnew | ud3tn/components/cla/cla_contact_rx_task.c:336-388 | a late chunk is parsed, with what waited, by a parser that knows nothing of what came before |
| ReceiveTask.BulkFaultDropsAll | ud3tn/components/cla/cla_contact_rx_task.c:182-328 | block data that does not come or comes late ends the bundle, and nothing of it or of the buffer is left |
| ReceiveTask.SmallBundleIsSendable | ud3tn/components/cla/cla_contact_rx_task.c:128-162 | there are bundles of which two fit the buffer |
| ReceiveTask.RxTask.BufferRead | ud3tn/components/cla/cla_contact_rx_task.c:128-162 | receiver and remaining bytes after a pass over the buffer |
| ReceiveTask.RxTask.BulkRead | ud3tn/components/cla/cla_contact_rx_task.c:182-328 | receiver and remaining bytes after a bulk read, from the buffer or the link, with faults and late portions |
| ReceiveTask.RxTask.ChunkRead | ud3tn/components/cla/cla_contact_rx_task.c:336-388 | receiver and remaining bytes after a chunk, with faults and late chunks |
| ReceiveTask.RxTask.Compact | ud3tn/components/cla/cla_contact_rx_task.c:404-438 | the unparsed bytes move to the front |
| ReceiveTask.RxTask.Round | ud3tn/components/cla/cla_contact_rx_task.c:390-460 | parser and buffer after one round, for everything the link may do |
| ReplayWindow.StrikeOutMeans | aiocoap/src/aiocoap/oscore.py:1752-1772 | striking out succeeds if and only if the number is valid, and afterwards exactly that number and those fallen out of the window are invalid in addition |
| ReplayWindow.WindowIsSet | aiocoap/src/aiocoap/oscore.py:1735-1772 | after any run of strike-outs a number is valid if and only if it was not struck out and is not below the window; the bitfield stays below 2^size |
| ReplayWindow.LowestMeans | aiocoap/src/aiocoap/oscore.py:1759-1772 | the lower end in terms of the highest number seen |
| ReplayWindow.StartsProper | aiocoap/src/aiocoap/oscore.py:1735-1750 | what the fresh windows accept |
| ReplayWindow.ZeroSizeNeverStrikes | aiocoap/src/aiocoap/oscore.py:1759-1772 | a window of size zero lets nothing be struck out |
| ReplayWindow.Replay.Strike | aiocoap/src/aiocoap/oscore.py:1759-1772 | the fields after a strike-out, and the callback |
| ReplayWindow.Replay.CarryOver | aiocoap/src/aiocoap/oscore.py:1739-1778 | a window that is loaded from what another one persisted lets the same numbers through, now and after any further numbers |
| OscoreNonce.NonceInjective | aiocoap/src/aiocoap/oscore.py:802-821 | nonces are equal if and only if identifier and padded partial IV are |
| OscoreNonce.NonceBits | aiocoap/src/aiocoap/oscore.py:802-821 | each bit of each byte of the nonce is set if and only if that of the common IV and that of an explicit byte differ: the length of the identifier, zeros, the identifier in front of the last five bytes, and the number big-endian in these |
| OscoreNonce.NonceExamples | aiocoap/src/aiocoap/oscore.py:802-821 | two nonces of appendix C of RFC 8613 |
| OscoreNonce.FreshNumbersGiveFreshNonces | aiocoap/src/aiocoap/oscore.py:1182-1195 | equal nonces come from equal sequence numbers and identifiers |
| OscoreNonce.ReceiverRebuildsNonce | aiocoap/src/aiocoap/oscore.py:1182-1195 | the stripped partial IV gives the receiver the same nonce and the sequence number |
| OscoreNonce.OptionRoundTrip | aiocoap/src/aiocoap/oscore.py:930-979 | unpacking the packed option gives the fields back |
| OscoreNonce.OptionUniqueExactly | aiocoap/src/aiocoap/oscore.py:1454-1493 | packing an accepted option again gives the same bytes if and only if nothing in it was ignored |
| OscoreNonce.FirstByteBits | aiocoap/src/aiocoap/oscore.py:930-979 | the first byte of a packed option, bit by bit |
| OscoreNonce.OptionExamples | aiocoap/src/aiocoap/oscore.py:930-979 | the option values of section 6.3 of RFC 8613 |
| SecurityContext.NoRequestAcceptedTwice | aiocoap/src/aiocoap/oscore.py:1282-1416 | no request number is accepted twice over any run with crashes, shutdowns, restarts and Echo recoveries, as long as no store fails in a process that lives on |
| SecurityContext.StepKeepsReplay | aiocoap/src/aiocoap/oscore.py:1926-1992 | every step keeps: the window on disk, once loaded, is uninitialized or rejects every accepted number |
| SecurityContext.StaleEchoIsAccepted | aiocoap/src/aiocoap/oscore.py:1385-1399 | the assumption on Echo answers is needed |
| SecurityContext.NumbersAscend | aiocoap/src/aiocoap/oscore.py:1994-2008 | over any run the sequence numbers handed out ascend strictly and fit the partial IV, as long as no store fails in a process that lives on |
| SecurityContext.NoncesNeverRepeat | aiocoap/src/aiocoap/oscore.py:1182-1210 | all nonces built from fresh numbers differ, under the same condition |
| SecurityContext.ShutdownResumes | aiocoap/src/aiocoap/oscore.py:2010-2034 | after a clean shutdown number and window go on where they were |
| SecurityEvents.NumberTakenExactly | aiocoap/src/aiocoap/oscore.py:1197-1210 | in every run the next number is handed out if and only if a process runs, it fits five bytes, and it is covered by the file or the store succeeds |
| SecurityEvents.RequestLetThroughExactly | aiocoap/src/aiocoap/oscore.py:1282-1416 | in every run a request is let through if and only if it decrypts and, with the window unknown, its Echo matches, or otherwise the window accepts its number and a store that is due succeeds |
| SecurityEvents.WindowExactly | aiocoap/src/aiocoap/oscore.py:1282-1416 | in every run, which numbers the window accepts behind an event that the process survives: those above the number that initializes it; without the number struck out and what falls out of the window behind it; or the same as before |
| SecurityEvents.CrashWastesFew | aiocoap/src/aiocoap/oscore.py:1994-2008 | in every run without failed stores: the next process would begin at the number in the file, and skip fewer numbers than the largest chunk has |
| SecurityEvents.ChunkDoubles | aiocoap/src/aiocoap/oscore.py:1998-2000 | in every run the chunk begins anew in each process and doubles each time numbers run out, up to its limit |
| SecurityEvents.FirstStart | aiocoap/src/aiocoap/oscore.py:1926-1932 | without a file the numbers begin with 0, and any request is let through |
| SecurityEvents.CrashSkips | aiocoap/src/aiocoap/oscore.py:1994-2008 | after a crash the rest of the chunk is skipped |
| SecurityEvents.CrashForgets | aiocoap/src/aiocoap/oscore.py:1936-1955 | after a request and a crash the next one is let through if and only if its Echo matches |
| SecurityContext.FileContext.Load | aiocoap/src/aiocoap/oscore.py:1926-1955 | the state after loading an absent, unknown or saved file |
| SecurityContext.FileContext.StoreFile | aiocoap/src/aiocoap/oscore.py:1963-1986 | the file and the process after a store that is done, cut short before or after the replacement, or fails |
| SecurityContext.FileContext.NewSequenceNumber | aiocoap/src/aiocoap/oscore.py:1197-1210 | the state and the number handed out, if any |
| SecurityContext.FileContext.ReplayWindowChanged | aiocoap/src/aiocoap/oscore.py:1988-1992 | the file loses its window once |
| SecurityContext.FileContext.UnprotectRequest | aiocoap/src/aiocoap/oscore.py:1282-1416 | the state after a request, and whether it was let through |
| SecurityContext.FileContext.UnprotectResponse | aiocoap/src/aiocoap/oscore.py:1400-1416 | a response with its own number initializes the window |
| SecurityContext.FileContext.Destroy | aiocoap/src/aiocoap/oscore.py:2010-2034 | the state after a shutdown |
| FailedStores.NumbersRepeatExactly | aiocoap/src/aiocoap/oscore.py:1994-2008 | after any run, failed stores included: without further failed stores no number is handed out twice if and only if all handed out lie below the number in the file and the next one, and the process counts no number as stored that it may still hand out and the file does not cover |
| FailedStores.RequestsRepeatExactly | aiocoap/src/aiocoap/oscore.py:1988-1992 | after any run, failed stores included: without further failed stores no request is let through twice if and only if none was, both windows reject what was let through, and the file holds no window that the process has left behind |
| FailedStores.NumberRepeated | aiocoap/src/aiocoap/oscore.py:1994-2008 | one failed store and a crash make a number come twice |
| FailedStores.RequestRepeated | aiocoap/src/aiocoap/oscore.py:1988-1992 | one failed store and a crash let a request through twice |
| Exchanges.RunRefines | aiocoap/src/aiocoap/messagemanager.py:229-342 | in every run the dictionaries and timers are one line for each peer: a message in flight with its timer, and a queue |
| Exchanges.StepRefines | aiocoap/src/aiocoap/messagemanager.py:229-342 | each handler is the corresponding operation on a line |
| Exchanges.OneExchangePerPeer | aiocoap/src/aiocoap/messagemanager.py:274-295 | a peer has a backlog if and only if it has an exchange, at most one, with exactly one live timer |
| Exchanges.MessagesInOrder | aiocoap/src/aiocoap/messagemanager.py:482-510 | the messages handed over for a peer are, in order: over, in flight, waiting; none in two places |
| Exchanges.IdlePeerIsDone | aiocoap/src/aiocoap/messagemanager.py:274-295 | without an exchange every message for the peer is over |
| Exchanges.TransmissionsAreBounded | aiocoap/src/aiocoap/messagemanager.py:319-342 | a message goes out at most once more than it may be retransmitted, and never from the backlog |
| Exchanges.TimeoutsDouble | aiocoap/src/aiocoap/messagemanager.py:319-342 | in every run, after k retransmissions of a message the timer waits 2^k times the timeout drawn at its first transmission, and the whole span is bounded by (2^(limit+1) - 1) times the longest |
| ExchangeEvents.EndsExactly | aiocoap/src/aiocoap/messagemanager.py:150-342 | in every run a message that was handed over ends, and as what, exactly by an answer that names it while it is in flight, by the timeout of its peer behind the last retransmission, or by an error from its peer; and as what it has ended it stays |
| ExchangeEvents.SendsExactly | aiocoap/src/aiocoap/messagemanager.py:229-342 | in every run, exactly what each event puts on the wire |
| ExchangeEvents.NumbersAscend | aiocoap/src/aiocoap/messagemanager.py:517-521 | messages are numbered in the order in which they are handed over, modulo 2^16 |
| Exchanges.MessageManager.Send | aiocoap/src/aiocoap/messagemanager.py:485-495 | state after handing over a confirmable message |
| Exchanges.MessageManager.SendFirst | aiocoap/src/aiocoap/messagemanager.py:229-250 | state after the first transmission |
| Exchanges.MessageManager.WorkOffBacklog | aiocoap/src/aiocoap/messagemanager.py:274-295 | the loop sends the next message or deletes the backlog |
| Exchanges.MessageManager.Answered | aiocoap/src/aiocoap/messagemanager.py:252-272 | state after an acknowledgement or reset |
| Exchanges.MessageManager.Fired | aiocoap/src/aiocoap/messagemanager.py:319-342 | state after a timeout: retransmission with doubled timeout, or failure of the whole line |
| Exchanges.MessageManager.ErrorFrom | aiocoap/src/aiocoap/messagemanager.py:150-181 | state after an error from a peer |
| RequestDedup.ProcessedOnce | aiocoap/src/aiocoap/messagemanager.py:187-215 | a request is processed no more often than it was forgotten, plus one while it is remembered |
| RequestDedup.AcknowledgedOnce | aiocoap/src/aiocoap/messagemanager.py:356-387 | initial acknowledgements and open ones together do not exceed the times a request was processed |
| RequestAnswers.AcknowledgedExactly | aiocoap/src/aiocoap/messagemanager.py:356-461 | in every run, in terms of what has happened: if the last confirmable request taken under a token was not settled yet, a response or the end of the delay sends one acknowledgement with its number, with the body of a response that is not suppressed and empty otherwise, and it is stored; nothing else acknowledges a request |
| RequestAnswers.NoRequestIsLost | aiocoap/src/aiocoap/messagemanager.py:356-461 | in every run each confirmable request that was taken has been acknowledged, is open, or was displaced by another under its token, exactly once |
| RequestAnswers.RecentIsRemembered | aiocoap/src/aiocoap/messagemanager.py:187-215 | in every run a request is remembered if and only if it was received and not forgotten since |
| RequestAnswers.ChancesArePending | aiocoap/src/aiocoap/messagemanager.py:356-387 | in every run the open requests are the last ones taken under their tokens and not settled since |
| RequestAnswers.HandedOnExactly | aiocoap/src/aiocoap/messagemanager.py:187-215 | in every run a request is handed on if and only if it is not remembered |
| RequestAnswers.RepliesExactly | aiocoap/src/aiocoap/messagemanager.py:94-148 | in every run, what pings and responses of a peer are answered with |
| RequestAnswers.OwnExactly | aiocoap/src/aiocoap/messagemanager.py:463-515 | in every run a message of our own gets the next number, and is sent or waits behind those that wait |
| RequestAnswers.ContinueExactly | aiocoap/src/aiocoap/messagemanager.py:274-295 | in every run the first message that waits is the next one sent |
| RequestAnswers.SilentExactly | aiocoap/src/aiocoap/messagemanager.py:356-461 | in every run no other event sends anything |
| RequestAnswers.NumbersAreConsecutive | aiocoap/src/aiocoap/messagemanager.py:517-521 | messages of our own are numbered one after the other, modulo 2^16 |
| RequestAnswers.DelayThenDuplicate | aiocoap/src/aiocoap/messagemanager.py:362-366 | a request, the end of the delay and the request again: an empty acknowledgement, twice |
| RequestDedup.StoredIsOwnExactly | aiocoap/src/aiocoap/messagemanager.py:217-223 | what is stored for requests stays their acknowledgements if and only if nothing else that is sent, reset, acknowledgement of a response or message of our own, has the number of a recent request of that peer and differs from what is stored |
| RequestDedup.StoredIsOwnThroughout | aiocoap/src/aiocoap/messagemanager.py:217-223 | the same throughout every run |
| RequestDedup.DuplicateIsAnswered | aiocoap/src/aiocoap/messagemanager.py:187-208 | in every run a duplicate changes nothing but the wire; a confirmable one gets the acknowledgement of its request again if and only if that is what is stored, and one without an acknowledgement yet gets nothing if and only if nothing is stored that can be sent again |
| RequestDedup.PingReplacesAnswer | aiocoap/src/aiocoap/messagemanager.py:344-354 | a ping with the number of an answered request: its duplicate gets a reset |
| RequestDedup.OwnMessageSilences | aiocoap/src/aiocoap/messagemanager.py:497-510 | a confirmable message of our own with that number: the duplicate gets nothing, because an assertion fails |
| RequestDedup.Deduplicator.Deduplicate | aiocoap/src/aiocoap/messagemanager.py:187-215 | state and answer of the duplicate check |
| RequestDedup.Deduplicator.Receive | aiocoap/src/aiocoap/messagemanager.py:356-387 | state after a request |
| RequestDedup.Deduplicator.ProcessPing | aiocoap/src/aiocoap/messagemanager.py:344-354 | state after a ping |
| RequestDedup.Deduplicator.ReceiveResponse | aiocoap/src/aiocoap/messagemanager.py:121-137 | state after a response, expected or not |
| RequestDedup.Deduplicator.SendMessage | aiocoap/src/aiocoap/messagemanager.py:485-495 | state after a message of our own, sent or put into the backlog |
| RequestDedup.Deduplicator.NextOfBacklog | aiocoap/src/aiocoap/messagemanager.py:288-295 | state after the next message of the backlog |
| RequestDedup.Deduplicator.SendResponse | aiocoap/src/aiocoap/messagemanager.py:434-461 | state after a response, piggybacked, suppressed or separate |
| RequestDedup.Deduplicator.ResponseTookTooLong | aiocoap/src/aiocoap/messagemanager.py:362-366 | state after the delay for a piggybacked response |
| Blockwise.OptionRoundTrip | aiocoap/src/aiocoap/optiontypes.py:226-240 | a block option read back is the option written |
| Blockwise.OptionLayout | aiocoap/src/aiocoap/optiontypes.py:226-240 | the lowest three bits of the option are the exponent, bit 3 says that more follows, the rest is the number, in as few bytes as possible |
| Blockwise.SizeIsPower | aiocoap/src/aiocoap/optiontypes.py:173-175 | a block has 2^(exponent + 4) bytes |
| Blockwise.ReducedKeepsStart | aiocoap/src/aiocoap/optiontypes.py:205-222 | reducing the block size keeps the byte offset |
| Blockwise.ShrinkKeepsOffset | aiocoap/src/aiocoap/protocol.py:881-883 | halving blocks and doubling the cursor keeps the byte offset |
| Blockwise.RoundKeepsCursor | aiocoap/src/aiocoap/protocol.py:876-883 | after a round the cursor, in whatever size, is at the end of what was sent |
| Blockwise.DigestExactly | aiocoap/src/aiocoap/protocol.py:844-916 | the transfer is given up, or over, exactly on these replies; otherwise the next block is as large as this one and what the server asks for allow |
| Blockwise.ClientSendsConsecutively | aiocoap/src/aiocoap/protocol.py:821-916 | whatever the server replies, no byte is skipped, repeated or misplaced |
| Blockwise.RequestIsLossless | aiocoap/src/aiocoap/blockwise.py:65-92 | the spool holds the bytes sent so far; if the last block is sent, exactly the body |
| Blockwise.EveryRoundSends | aiocoap/src/aiocoap/protocol.py:821-916 | every round but the last sends at least 16 bytes |
| Blockwise.RequestArrives | aiocoap/src/aiocoap/protocol.py:821-916 | with a cooperative server the transfer ends and the server has the body |
| Blockwise.ResponseIsLossless | aiocoap/src/aiocoap/protocol.py:1000-1048 | the fetching client always holds a prefix of the body, never fails, and ends with the body |
| Blockwise.ServedExactly | aiocoap/src/aiocoap/blockwise.py:107-146 | what is served for the next request begins where the bytes received end, in blocks of the smallest size that the last one, client and server allow, and as many bytes of that as there are |
| Blockwise.AppendRefusesExactly | aiocoap/src/aiocoap/message.py:379-406 | a fetching client refuses exactly a block that is not of its size, and one that does not begin where the bytes end |
| Blockwise.ResponseArrives | aiocoap/src/aiocoap/blockwise.py:107-146 | a response that needs blocks arrives |
| Blockwise.MisplacedExactly | aiocoap/src/aiocoap/message.py:379-406 | the spool raises its value error if and only if a later block of the announced size, of a transfer under way, does not begin where the body ends |
| Blockwise.BodyBlockIsMisplacedExactly | aiocoap/src/aiocoap/message.py:379-406 | of a body of which a first part is assembled, a later block is misplaced if and only if it begins before or behind the end of that part |
| Blockwise.RepeatedOrSkippedIsMisplaced | aiocoap/src/aiocoap/blockwise.py:77-86 | a block that comes twice, and one that comes before its predecessor |
| Blockwise.RefusedExactly | aiocoap/src/aiocoap/blockwise.py:65-92 | a later block is incomplete if and only if no transfer is under way, and of the wrong size if and only if it claims more without filling its size; neither changes what is assembled |
| Blockwise.Block1Spool.FeedAndTake | aiocoap/src/aiocoap/blockwise.py:65-92 | the assembly for the key and the answer; other keys are unchanged |
| Blockwise.Rescale | aiocoap/src/aiocoap/protocol.py:881-883 | the rescaling loop |
| Blockwise.SendRequest | aiocoap/src/aiocoap/protocol.py:819-893 | the Block1 loop against the spool, with any sizes asked for, ends with exactly the body assembled |
| Blockwise.FetchResponse | aiocoap/src/aiocoap/protocol.py:1016-1048 | the Block2 loop against a cached body, with any limits, ends with exactly the body |
| CoapMessage.ExtendedRoundTrip | aiocoap/src/aiocoap/options.py:12-41 | an extended field read back is the number written |
| CoapMessage.ExtendedUnique | aiocoap/src/aiocoap/options.py:12-41 | there is one encoding of each number |
| CoapWire.ExtendedExamples | aiocoap/src/aiocoap/options.py:12-41 | extended fields at the borders of their forms |
| CoapWire.ExampleBytes | aiocoap/src/aiocoap/message.py:267-314 | a message with a token, options of each form and a payload, byte by byte |
| CoapWire.Utf8Exactly | aiocoap/src/aiocoap/optiontypes.py:11-40 | a value is read as a text if and only if it consists of the bytes of some characters (section 3 of RFC 3629) |
| CoapWire.CharacterExamples | aiocoap/src/aiocoap/optiontypes.py:11-40 | the bytes of characters given in section 7 of RFC 3629 |
| OptionFormats.HeldIsProper | aiocoap/src/aiocoap/optiontypes.py:11-109 | a number option is held without its leading zeros, a text only if it is UTF-8; what is held is no longer than what was read, and as long if and only if it is the same |
| OptionFormats.HeldAllExactly | aiocoap/src/aiocoap/options.py:165-186 | all options are held as they were read if and only if each has the form in which it is written |
| CoapMessage.WriteOptions | aiocoap/src/aiocoap/options.py:188-207 | the loop writes the options, or fails if a delta or length is too large |
| CoapMessage.ReadOptions | aiocoap/src/aiocoap/options.py:165-186 | the loop reads the options, each by its format, and the payload |
| CoapMessage.MessageRoundTrip | aiocoap/src/aiocoap/message.py:267-314 | a message in range comes back from its encoding if and only if every option value has the form in which it is written; it is read at all if and only if its texts are UTF-8 |
| CoapMessage.EncodingIsRead | aiocoap/src/aiocoap/message.py:267-314 | what is read of the encoding of any message, with any bytes in its options |
| CoapMessage.EncodingUniqueExactly | aiocoap/src/aiocoap/message.py:267-314 | encoding an accepted input again gives the input if and only if its header is complete, it has no empty payload behind a marker, no field too large to write, and every option value in the form in which it is written |
| ProxySplit.EndFoundExactly | ud3tn/NodeDaap2.py:160-173 | the end of an announced message is found if and only if every option value has the form in which it is written, numbers without leading zeros, and no byte in front of the marker equals it; it is never taken too far, and an error is raised if and only if a text is not UTF-8 |
| ProxySplit.LeadingZeroCutsPayload | ud3tn/NodeDaap2.py:160-173 | one leading zero in the Payload-Length cuts the last byte of the payload off |
| ProxySplit.SplitInvertsAggregate | ud3tn/NodeDaap2.py:157-205 | splitting gives back exactly the messages that were put together, in order, at either node, if each end is found |
| ProxySplit.GarbageIsSkipped | ud3tn/NodeDaap2.py:157-205 | with bytes between the messages that begin none, the proxy finds all messages and the server those in front of the bytes |
| ProxySplit.MarkedIsLost | ud3tn/NodeDaap2.py:160-173 | a request whose number begins with the byte of the payload marker is lost at both nodes |
| ProxySplit.SplitBundle | ud3tn/NodeDaap2.py:157-205 | the loop of the proxy terminates on any bytes with the specified messages |
| ProxySplit.SplitBundleStrictly | ud3tn/NodeBaap2.py:126-194 | the loop of the server terminates on any bytes with the specified messages |
| TokenMidMapper.RepliesAreRestored | ud3tn/NodeDaap2.py:49-104 | in every run a reply under a request's proxy token and number is restored to its own token, number and source |
| TokenMidMapper.RestoredExactly | ud3tn/NodeDaap2.py:84-104 | in every run a reply with the token of one request and any number gets token and source of that request, and the number of the request that went out under that number, or else keeps it |
| TokenMidMapper.DiscardedExactly | ud3tn/NodeDaap2.py:84-104 | in every run a reply is discarded if and only if its token was drawn for no request |
| TokenMidMapper.NumbersExactly | ud3tn/NodeDaap2.py:49-53 | the numbers go around from the first one, modulo 16777215 |
| TokenMidMapper.MappingsAreDistinct | ud3tn/NodeDaap2.py:49-82 | no two requests share a proxy token or a proxy number |
| TokenMidMapper.RequestsAreFewer | ud3tn/NodeDaap2.py:55-60 | there are no more requests than two-byte tokens, so the number cycle does not wrap |
| TokenMidMapper.TokenIsLeftExactly | ud3tn/NodeDaap2.py:55-60 | a further request can get a token if and only if there were fewer requests than tokens |
| TokenMidMapper.Mapper.GenerateToken | ud3tn/NodeDaap2.py:55-60 | the first token drawn that is not in use; none, and the loop goes on, if and only if all tokens drawn are |
| TokenMidMapper.Mapper.GenerateMid | ud3tn/NodeDaap2.py:49-53 | the number handed out and the next one |
| TokenMidMapper.Mapper.SendRequest | ud3tn/NodeDaap2.py:62-82 | the dictionaries after mapping a request, unchanged as long as no token is drawn |
| TokenMidMapper.Mapper.RestoreReply | ud3tn/NodeDaap2.py:84-104 | the restored reply, or none for an unknown token |

## Left out

- Numbers: sizes, times and counters are unbounded except where wrap-around matters (gap scan, copy loop, fragment length, SDNV widths, message numbers); overflow of timestamps and of size sums is not modelled.
- Memory: allocation always succeeds, and the uninitialised reassembly buffer holds zeros in the model of the code; `Reassembly.ReassemblySound` holds for any contents.
- Concurrency: tasks, semaphores and asyncio are the choice of the next event; the transmission queue is the number of bundles it still takes.
- DeliveryExactly.DeliveredExactly: assumes a creation time, one ADU for each source, creation time and sequence number, fragments other than offset 0 with the full length, a clock that does not run backwards, and an agent for the endpoint.
- DeliveryAsWritten.DeliveredAgain: what is released is freed in the code, so a late fragment that was stored as well is read after it was freed; here and in all runs of the code as written it keeps its contents.
- ExactlyOnce.DeliveredAtMostOnce: about the code with the `return` that is meant, what adding it would give; for the code as it is `DeliveryExactly.DeliveredExactly`. `ExactlyOnce` and `DeliveryTracks` are otherwise what the lemmas about the code as written compare with.
- BundleFate.FateDecidedOnce: one bundle without a dispatcher agent; handovers to a dispatcher are not counted by the code.
- Fragmentation.FragmentsCoverAndFit: for BPv7; the BPv6 minimum sizes do not count the fragment fields. The values of checksums are a parameter.
- Bundle7Wire.SizeIsBytesExactly: the bytes of a BPv7 bundle as a whole; the single calls of the write function, and one that fails, are not modelled.
- Bundle6Serializer.Serialize: assumes, as the source does, that the header length was recalculated before, that identifiers are C strings and that a block with endpoint references carries the flag for them.
- Bundle6Parser.ReadByteKeepsValid: the parser's fields form one value that each byte replaces; the reading loop and the receive task update it in place.
- ReceiveTask.RxTask.Round: with the BPv6 parser behind the version byte; the framing of the individual links and the chunked BPv7 parser are not modelled, and the time between reads is a parameter.
- SecurityContext.NoRequestAcceptedTwice: assumes that a message which initializes the window carries a number above all accepted ones; decryption and the Echo comparison are parameters; stores that fail in a process that lives on are in `FailedStores`.
- OscoreNonce.ReceiverRebuildsNonce: for partial IVs of up to five bytes; longer ones are reserved.
- Exchanges.RunRefines: the callbacks into the token manager are not re-entrant, and shutdown is left out; timeouts are parameters.
- RequestDedup.StoredIsOwnExactly: whether a message of our own has to wait, and when its turn comes, is the choice of the events (`Exchanges` decides it); remotes are unicast addresses, and a message that is handed over with a number of its own is not modelled, since the code clears it.
- Blockwise.RequestIsLossless: exponents 0 to 6 without BERT; the largest payload is a constant of the peer; timeouts of the spool and entity tags are left out. A message that fits one block is sent as it is.
- CoapMessage.MessageRoundTrip: what applications make of option values, such as content formats and block tuples, is left out; the values are held as the bytes that are written for them.
- ProxySplit.SplitInvertsAggregate: handling a message raises no exception after it was split off.
- TokenMidMapper.RepliesAreRestored: the reply carries the proxy number of its request; a reply with another number keeps it or gets that of another request.
- Status reports, custody signals, administrative records, hop counts beyond their check, agent registration and the forwarding table.
- AAP and AAP2 agents, convergence layer set-up, the SQLite store, computing CRCs, and parsing of BPv7 bundles.
- Group OSCORE, key derivation, credentials, observation, multicast, resource directories, the demo clients and the resource handlers of the server node.
