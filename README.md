# io-tools format detection and easystream core, in Dafny

This project models the core of the hp1res/io-tools Java repository and proves properties of the model. The core covers four parts:

- **DROID hit resolution** (`FFSignatureFile`). It turns the signatures that match a file into format hits. It prunes hits that a higher-priority hit overrides, checks the file-name extension (annotating hits or adding tentative ones), and prepares the signature model before use.
- **Format-detection orchestration** (`DetectionStrategy`, `GuessInputStream`, `ZipDetectorModule`, `DefiniteModuleFactory`, `FormatInfo`). This covers:
  - the detector loop, with its shrinking set of formats still to detect;
  - the decode-and-redetect layer loop;
  - the format-set queries and the wrapper-or-impl dispatch;
  - the global default-decoder registry;
  - the "PK" header test;
  - the `ENUM=mode:params` configuration parser;
  - the immutable `FormatInfo` record.
- **Re-readable input streams.** Both versions of `RandomAccessInputStream` (io-tools 1.2.1, and the earlier easystream one) are modelled. Each reads its source once, copies what it reads into a store, and serves `reset`/`seek` re-reads from that store.
- **Counting output wrappers and the SAX tree builder.**
  - `StatsOutputStream` and `SizeRecorderOutputStream` count the bytes written and close the wrapped stream only once.
  - `SAXModelBuilder` builds the signature-file object tree: namespace filtering, an element stack, and reflective `add`/`set` attachment.

## How the model is built

- **Classes keep their own state.** Code that updates objects in place becomes a Dafny `class`:
  - `FFSignatureFile` and `ByteReader`;
  - `DetectionStrategy`;
  - `DecoderRegistry` (the static default-decoder map);
  - both `RandomAccessInputStream`s;
  - the output wrappers and `SAXModelBuilder`.

  Each method's `ensures` ties its result and new state to a state-value function. The lemmas prove the source's promises about these functions. Loops stay loops, with invariants.
- **Exceptions become result values.** A Java exception is a `Result`/`Outcome` value carrying the exception class (`Wrappers.Error`).
- **Unseen collaborators become parameters.** These include:
  - signature matching (`isFileCompliant`) and `hasMatchingExtension`;
  - detector `detect` calls;
  - reflection (`Class.forName`, `getMethod`) and `FormatEnum.getEnum`;
  - classpath resources;
  - `SimpleElement.getText`.
- **The streams read an in-memory source** with `java.io.ByteArrayInputStream` semantics:
  - it returns -1 at the end, otherwise `min(len, remaining)` bytes;
  - its `mark`/`reset` always succeed.
- **A store** (1.2.1) or storage (earlier version) is a byte sequence with a read cursor. `put` appends and leaves the cursor alone; `get` reads from the cursor.

Three defects in the source are modelled as written, and lemmas expose them. The rest of the model follows the code as written; beside each defect stands the evidently intended definition, with its intended property proved:

- `reorderByteSequences` puts every BOF sequence in both the BOF list and the "variable" list, so BOF sequences appear twice (`FFSignatureFileModule.ReorderedDuplicatesBOF`). The comment on the method asks for BOF, then EOF, then the other sequences; `FFSignatureFileModule.ReorderedIntended` reads the second test as `else if`, and is a permutation in that order (`FFSignatureFileModule.ReorderedIntendedPermutes`, `FFSignatureFileModule.ReorderedIntendedOrdered`).
- The `DetectionStrategy` constructor increments `maxRecursion` where `recursionLevel` was meant. The loop is therefore bounded only by Java `int` wrap-around: a decoder whose output keeps being detected as its own format produces 2^31 - maxRecursion layers (`DetectionStrategy.SelfDecodingRunsUntilWrap`). `DetectionStrategy.LayersIntended` increments `recursionLevel` instead and takes at most maxRecursion + 1 layers (`DetectionStrategy.IntendedLayersBounded`).
- `DefiniteModuleFactory.getInstance` takes the end index of the method substring from `enumName` instead of `curLine`. The end index is then always below the begin index, so every non-comment, non-blank line throws an index exception, and a factory is built only from a file with no real line (`DefiniteModuleFactoryModule.GetInstanceAlwaysFails`, `DefiniteModuleFactoryModule.ModulesOfAsWritten`) `DefiniteModuleFactoryModule.GetInstanceIntended` takes the end index from `curLine`, and parses `ENUM=mode:params` lines as the file format describes (`DefiniteModuleFactoryModule.GetInstanceIntendedParses`, `DefiniteModuleFactoryModule.ZipLineIntended`).

The earlier `RandomAccessInputStream` has two behaviours the later one corrects, and the model keeps both:

- its `reset` restores only `sourcePosition` and leaves the cursor where it was;
- bytes read while the cursor is ahead of the source are not stored.

`RandomAccessEarly.MarkResetRereads`, `RandomAccessEarly.ReadFromAhead` and `RandomAccessEarly.ResetKeepsCursor` state the consequences.

## Model

| member | source | states |
|---|---|---|
| FFSignatureFileModule.SignatureHits | branches/droid-integration/src/main/java/uk/gov/nationalarchives/droid/signatureFile/FFSignatureFile.java:140-146 | a compliant signature yields one hit per associated format, each for one of its formats, positive, carrying the signature's `isSpecific` and an empty warning |
| FFSignatureFileModule.PositiveHitsMembers | branches/droid-integration/src/main/java/uk/gov/nationalarchives/droid/signatureFile/FFSignatureFile.java:136-148 | a hit is produced iff it is the hit for some format of some compliant signature (both directions) |
| FFSignatureFileModule.PositiveHitsAppend | branches/droid-integration/src/main/java/uk/gov/nationalarchives/droid/signatureFile/FFSignatureFile.java:136-148 | a non-compliant signature adds nothing; a compliant one adds exactly its hits after the earlier ones |
| FFSignatureFileModule.NoCompliantNoHits | branches/droid-integration/src/main/java/uk/gov/nationalarchives/droid/signatureFile/FFSignatureFile.java:136-148 | with no compliant signature there is no hit and the file is not set positive |
| FFSignatureFileModule.FirstWithFormat | branches/droid-integration/src/main/java/uk/gov/nationalarchives/droid/signatureFile/FFSignatureFile.java:269-283 | the inner search finds the first hit with the format ID, or none exists |
| FFSignatureFileModule.MarksExactly | branches/droid-integration/src/main/java/uk/gov/nationalarchives/droid/signatureFile/FFSignatureFile.java:263-285 | an index is marked iff it is the first hit with a format ID some hit has priority over, all computed on the unpruned hits; marks are valid indices |
| FFSignatureFileModule.CollectHitsToRemove | branches/droid-integration/src/main/java/uk/gov/nationalarchives/droid/signatureFile/FFSignatureFile.java:263-285 | the triple loop with its `break` produces exactly the marks, in loop order |
| FFSignatureFileModule.InsertKeepsAscending | branches/droid-integration/src/main/java/uk/gov/nationalarchives/droid/signatureFile/FFSignatureFile.java:292-298 | one insertion keeps the array ascending and adds exactly the inserted index |
| FFSignatureFileModule.InsertionSortedSorts | branches/droid-integration/src/main/java/uk/gov/nationalarchives/droid/signatureFile/FFSignatureFile.java:287-300 | the insertion sort yields the marks in ascending order, as a permutation |
| FFSignatureFileModule.InsertInto | branches/droid-integration/src/main/java/uk/gov/nationalarchives/droid/signatureFile/FFSignatureFile.java:292-298 | the in-place shifting loop on the array places the index where the sort's reference insertion does, leaving later cells alone |
| FFSignatureFileModule.SortIndexes | branches/droid-integration/src/main/java/uk/gov/nationalarchives/droid/signatureFile/FFSignatureFile.java:287-300 | `indexesOfHits` is the insertion-sorted mark list: ascending and a permutation of the marks |
| FFSignatureFileModule.DeletionFirst | branches/droid-integration/src/main/java/uk/gov/nationalarchives/droid/signatureFile/FFSignatureFile.java:302-304 | in the descending pass over the sorted marks, the first of a run of equal indices removes that original hit from what is left |
| FFSignatureFileModule.DeletionRepeat | branches/droid-integration/src/main/java/uk/gov/nationalarchives/droid/signatureFile/FFSignatureFile.java:305-307 | an index equal to the one after it removes nothing more |
| FFSignatureFileModule.ByteReader.RemoveHit | branches/droid-integration/src/main/java/uk/gov/nationalarchives/droid/signatureFile/FFSignatureFile.java:304-306 | the hit at the index leaves the list, the others keep their order |
| FFSignatureFileModule.RemoveBelowRemoved | branches/droid-integration/src/main/java/uk/gov/nationalarchives/droid/signatureFile/FFSignatureFile.java:302-307 | removing position k, when all earlier removals were above k, removes original hit k |
| FFSignatureFileModule.PrunedMembers | branches/droid-integration/src/main/java/uk/gov/nationalarchives/droid/signatureFile/FFSignatureFile.java:260-310 | a hit survives pruning iff some unmarked position holds it (both directions) |
| FFSignatureFileModule.KeptMembers | branches/droid-integration/src/main/java/uk/gov/nationalarchives/droid/signatureFile/FFSignatureFile.java:301-308 | membership: a hit is kept iff some unremoved index in the range holds it (order is stated by KeptConcat and KeptNoneRemoved) |
| FFSignatureFileModule.KeptConcat | branches/droid-integration/src/main/java/uk/gov/nationalarchives/droid/signatureFile/FFSignatureFile.java:301-308 | the kept hits of a range are those of its lower part followed by those of its upper part, so kept hits keep their original relative order |
| FFSignatureFileModule.KeptNoneRemoved | branches/droid-integration/src/main/java/uk/gov/nationalarchives/droid/signatureFile/FFSignatureFile.java:301-308 | a range in which nothing is removed is kept unchanged, as the same slice |
| FFSignatureFileModule.FFSignatureFile.RemoveLowerPriorityHits | branches/droid-integration/src/main/java/uk/gov/nationalarchives/droid/signatureFile/FFSignatureFile.java:260-310 | the hits become exactly the originals whose index was never marked, in order; the classification is unchanged |
| FFSignatureFileModule.DeleteSorted | branches/droid-integration/src/main/java/uk/gov/nationalarchives/droid/signatureFile/FFSignatureFile.java:302-309 | walking the ascending index array downwards and skipping repeats removes every listed hit exactly once and keeps the rest in order |
| FFSignatureFileModule.SelfPriorityPrunesLoneHit | branches/droid-integration/src/main/java/uk/gov/nationalarchives/droid/signatureFile/FFSignatureFile.java:151-153 | a lone hit whose format has priority over itself would be pruned, which the more-than-one-hit guard prevents |
| FFSignatureFileModule.ExtensionOf | branches/droid-integration/src/main/java/uk/gov/nationalarchives/droid/signatureFile/FFSignatureFile.java:196-211 | a name has an extension iff it has a `.` that is not the last character and no `.`, `/` or `\` follows it; the extension is the non-empty text after that `.` |
| FFSignatureFileModule.Annotated | branches/droid-integration/src/main/java/uk/gov/nationalarchives/droid/signatureFile/FFSignatureFile.java:213-223 | the hit count is unchanged, only the warning of a hit can change, and a hit carries FILEEXTENSIONWARNING iff its format does not expect the extension or it carried it already |
| FFSignatureFileModule.AllWarned | branches/droid-integration/src/main/java/uk/gov/nationalarchives/droid/signatureFile/FFSignatureFile.java:244-251 | without an extension every hit carries the warning, nothing but the warning changes, and none is added or removed |
| FFSignatureFileModule.TentativeHitsMembers | branches/droid-integration/src/main/java/uk/gov/nationalarchives/droid/signatureFile/FFSignatureFile.java:225-241 | a tentative hit is exactly a non-specific, warning-free hit for a format with no internal signature that expects the extension |
| FFSignatureFileModule.ExtensionCheckedCount | branches/droid-integration/src/main/java/uk/gov/nationalarchives/droid/signatureFile/FFSignatureFile.java:193-252 | extension checking never removes a hit, and adds hits (the tentative ones) only when there were none and the name has an extension |
| FFSignatureFileModule.ExtensionWarningIff | branches/droid-integration/src/main/java/uk/gov/nationalarchives/droid/signatureFile/FFSignatureFile.java:209-251 | an existing hit gets the warning iff the name has no extension or the hit's format does not expect it |
| FFSignatureFileModule.FFSignatureFile.CheckExtension | branches/droid-integration/src/main/java/uk/gov/nationalarchives/droid/signatureFile/FFSignatureFile.java:193-252 | the three loops leave the byte reader's hits and classification as the reference extension check says |
| FFSignatureFileModule.IdentifiedClassification | branches/droid-integration/src/main/java/uk/gov/nationalarchives/droid/signatureFile/FFSignatureFile.java:132-162 | a fresh file ends NoIdent iff no hit is left, and ends positive only if some signature matched |
| FFSignatureFileModule.ZipExample | branches/droid-integration/src/main/java/uk/gov/nationalarchives/droid/signatureFile/FFSignatureFile.java:132-162 | one compliant ZIP signature on `archive.zip` gives one warning-free positive hit |
| FFSignatureFileModule.TentativeExample | branches/droid-integration/src/main/java/uk/gov/nationalarchives/droid/signatureFile/FFSignatureFile.java:225-241 | with no compliant signature, `report.pdf` gets one tentative hit for an extension-only PDF format |
| FFSignatureFileModule.FFSignatureFile.RunFileIdentification | branches/droid-integration/src/main/java/uk/gov/nationalarchives/droid/signatureFile/FFSignatureFile.java:132-162 | the byte reader ends as the reference identification says: positive hits, pruning when more than one hit, extension check, NoIdent when none is left |
| FFSignatureFileModule.MatchSignatures | branches/droid-integration/src/main/java/uk/gov/nationalarchives/droid/signatureFile/FFSignatureFile.java:134-148 | the hits gain the positive hits of every compliant signature, in signature order, and the file becomes positive exactly when some signature is compliant |
| FFSignatureFileModule.AddSignatureHits | branches/droid-integration/src/main/java/uk/gov/nationalarchives/droid/signatureFile/FFSignatureFile.java:140-146 | one positive hit per format of the signature, in format order, carrying its `specific` flag |
| FFSignatureFileModule.ReorderMembers | branches/droid-integration/src/main/java/uk/gov/nationalarchives/droid/signatureFile/FFSignatureFile.java:340-350 | the BOF list holds exactly the sequences whose reference starts with BOF, the EOF list exactly those starting with EOF, and the "variable" list exactly those that are not EOF, BOF ones included |
| FFSignatureFileModule.PartitionCounts | branches/droid-integration/src/main/java/uk/gov/nationalarchives/droid/signatureFile/FFSignatureFile.java:340-350 | the EOF and non-EOF lists together are a permutation of the sequences, and the BOF list is a sub-multiset |
| FFSignatureFileModule.ReorderedDuplicatesBOF | branches/droid-integration/src/main/java/uk/gov/nationalarchives/droid/signatureFile/FFSignatureFile.java:340-355 | the reordered list is the original multiset plus every BOF sequence again: length n + #BOF, same members |
| FFSignatureFileModule.SingleBOFTwice | branches/droid-integration/src/main/java/uk/gov/nationalarchives/droid/signatureFile/FFSignatureFile.java:342-349 | a signature with one BOF sequence ends up holding it twice |
| FFSignatureFileModule.BOFNotEOF | branches/droid-integration/src/main/java/uk/gov/nationalarchives/droid/signatureFile/FFSignatureFile.java:342-345 | no reference starts with both BOF and EOF |
| FFSignatureFileModule.OthersMembers | branches/droid-integration/src/main/java/uk/gov/nationalarchives/droid/signatureFile/FFSignatureFile.java:329-331 | the intended "variable" list holds exactly the sequences that are neither BOF nor EOF |
| FFSignatureFileModule.ThreeWaySplit | branches/droid-integration/src/main/java/uk/gov/nationalarchives/droid/signatureFile/FFSignatureFile.java:329-331 | the BOF, EOF and other lists together hold every sequence exactly once |
| FFSignatureFileModule.ReorderedIntendedPermutes | branches/droid-integration/src/main/java/uk/gov/nationalarchives/droid/signatureFile/FFSignatureFile.java:329-331 | the intended reordering is a permutation of the byte sequences |
| FFSignatureFileModule.ReorderedIntendedOrdered | branches/droid-integration/src/main/java/uk/gov/nationalarchives/droid/signatureFile/FFSignatureFile.java:329-331 | the intended reordering lists the BOF sequences first, then the EOF ones, then the rest |
| FFSignatureFileModule.SingleBOFOnceIntended | branches/droid-integration/src/main/java/uk/gov/nationalarchives/droid/signatureFile/FFSignatureFile.java:342-349 | a lone BOF sequence is kept once by the intended reordering, unlike the written one |
| FFSignatureFileModule.ReorderAll | branches/droid-integration/src/main/java/uk/gov/nationalarchives/droid/signatureFile/FFSignatureFile.java:334-357 | the signature count is unchanged and nothing of a signature but its byte-sequence list changes (what that list becomes: ReorderedDuplicatesBOF) |
| FFSignatureFileModule.FFSignatureFile.ReorderByteSequences | branches/droid-integration/src/main/java/uk/gov/nationalarchives/droid/signatureFile/FFSignatureFile.java:334-357 | the signatures become their reordered versions; formats are untouched |
| FFSignatureFileModule.FirstSigWithId | branches/droid-integration/src/main/java/uk/gov/nationalarchives/droid/signatureFile/FFSignatureFile.java:377-383 | the search finds the first signature with the ID, or none exists |
| FFSignatureFileModule.LinkFormatSpec | branches/droid-integration/src/main/java/uk/gov/nationalarchives/droid/signatureFile/FFSignatureFile.java:367-384 | linking one format appends it to each signature once per own signature ID that names it first, changing nothing else |
| FFSignatureFileModule.LinkAllBackLinks | branches/droid-integration/src/main/java/uk/gov/nationalarchives/droid/signatureFile/FFSignatureFile.java:362-386 | every signature ends with its old formats followed by exactly the formats naming it, in format order; IDs, specificity and byte sequences are unchanged |
| FFSignatureFileModule.FFSignatureFile.SetAllSignatureFileFormats | branches/droid-integration/src/main/java/uk/gov/nationalarchives/droid/signatureFile/FFSignatureFile.java:362-386 | the signatures become the linked ones; the formats are untouched |
| FFSignatureFileModule.FFSignatureFile.PrepareForUse | branches/droid-integration/src/main/java/uk/gov/nationalarchives/droid/signatureFile/FFSignatureFile.java:120-124 | linking, then reordering: the signatures are the reordered linked signatures |
| DetectionStrategy.IsDetectorNeeded | trunk/wazformat/src/main/java/com/gc/iotools/fmt/DetectionStrategy.java:79-87 | true iff some declared format of the detector is still to be detected |
| DetectionStrategy.RemoveAll | trunk/wazformat/src/main/java/com/gc/iotools/fmt/DetectionStrategy.java:68 | removal keeps exactly the formats not declared by the detector and never grows the list |
| DetectionStrategy.Visit | trunk/wazformat/src/main/java/com/gc/iotools/fmt/DetectionStrategy.java:63-73 | one iteration resets once and never adds a format; a skipped or throwing detector changes neither result nor toDetect; a returning needed one sets the result and removes all its formats |
| DetectionStrategy.DetectFormatStream | trunk/wazformat/src/main/java/com/gc/iotools/fmt/DetectionStrategy.java:51-77 | the loop's result and number of resets are those of the reference scan |
| DetectionStrategy.AskDetector | trunk/wazformat/src/main/java/com/gc/iotools/fmt/DetectionStrategy.java:61-74 | one pass of the detector loop: the detector runs only if needed, drops its formats from those still to detect, and every pass resets the stream |
| DetectionStrategy.ScanStops | trunk/wazformat/src/main/java/com/gc/iotools/fmt/DetectionStrategy.java:54-76 | toDetect never grows, at most one reset per detector, and the scan stops exactly when detectors run out, a known format is found or nothing is left to detect |
| DetectionStrategy.ScanResultFromDetector | trunk/wazformat/src/main/java/com/gc/iotools/fmt/DetectionStrategy.java:63-72 | any result other than UNKNOWN was returned by a detector that was needed when asked |
| DetectionStrategy.NoDetectorsGiveUnknown | trunk/wazformat/src/main/java/com/gc/iotools/fmt/DetectionStrategy.java:54-60 | a null detector array gives UNKNOWN without any reset |
| DetectionStrategy.GetDecodersMap | trunk/wazformat/src/main/java/com/gc/iotools/fmt/DetectionStrategy.java:88-97 | null gives the empty map; otherwise one key per distinct format, and the last decoder of a format wins its key |
| DetectionStrategy.LayersFrom | trunk/wazformat/src/main/java/com/gc/iotools/fmt/DetectionStrategy.java:115-127 | the layer loop appends at least one format |
| DetectionStrategy.DetectionStrategy.constructor | trunk/wazformat/src/main/java/com/gc/iotools/fmt/DetectionStrategy.java:104-130 | the do/while records the formats and final stream of the reference layer loop, with `maxRecursion++` as a Java int |
| DetectionStrategy.DetectLayers | trunk/wazformat/src/main/java/com/gc/iotools/fmt/DetectionStrategy.java:115-127 | the do/while yields exactly the formats and final stream of the reference layer loop |
| DetectionStrategy.DetectLayer | trunk/wazformat/src/main/java/com/gc/iotools/fmt/DetectionStrategy.java:116-126 | one pass of the do/while is one unfolding of the reference layer loop; it goes on only while the format has a decoder and the incremented `maxRecursion` is not negative |
| DetectionStrategy.FirstLayer | trunk/wazformat/src/main/java/com/gc/iotools/fmt/DetectionStrategy.java:115-127 | the first layer is the detection on the input; it stops there without a decoder, and otherwise continues on the stream, wrapped iff the format is known |
| DetectionStrategy.FinalStreamDepth | trunk/wazformat/src/main/java/com/gc/iotools/fmt/DetectionStrategy.java:117-121 | the final stream is wrapped once per layer whose format is known and has a decoder |
| DetectionStrategy.SelfDecodingRunsUntilWrap | trunk/wazformat/src/main/java/com/gc/iotools/fmt/DetectionStrategy.java:114-127 | because `maxRecursion` is incremented, a self-decoding format runs the loop until the int wraps: 2^31 - maxRecursion layers |
| DetectionStrategy.LayersIntended | trunk/wazformat/src/main/java/com/gc/iotools/fmt/DetectionStrategy.java:114-127 | the loop with `recursionLevel` incremented appends at least one format |
| DetectionStrategy.LayersIntendedBound | trunk/wazformat/src/main/java/com/gc/iotools/fmt/DetectionStrategy.java:114-127 | from level l the intended loop takes at most maxRecursion - l + 1 layers, and one when l >= maxRecursion |
| DetectionStrategy.IntendedLayersBounded | trunk/wazformat/src/main/java/com/gc/iotools/fmt/DetectionStrategy.java:114-127 | the intended constructor records at most maxRecursion + 1 formats, one when maxRecursion <= 0 |
| DetectionStrategy.SelfDecodingIntendedStops | trunk/wazformat/src/main/java/com/gc/iotools/fmt/DetectionStrategy.java:114-127 | with a self-decoding format the intended loop takes exactly maxRecursion - l + 1 layers from level l |
| FmtBase.FormatInfoGetters | wazformat/src/main/java/com/gc/iotools/fmt/base/FormatInfo.java:11-36 | each getter returns the constructor argument; format and version are those of the FormatId |
| FmtBase.PutAllKeys | trunk/wazformat/src/main/java/com/gc/iotools/fmt/DetectionStrategy.java:91-94 | putting decoders by format adds exactly their formats as keys |
| FmtBase.PutAllLaterWins | trunk/wazformat/src/main/java/com/gc/iotools/fmt/DetectionStrategy.java:91-94 | a decoder not followed by one of the same format wins its key |
| FmtBase.PutAllKeepsOthers | branches/droid-integration/src/main/java/com/gc/iotools/fmt/GuessInputStream.java:175-184 | a key no added decoder declares keeps its old decoder |
| FmtBase.PutAllFilesByFormat | branches/droid-integration/src/main/java/com/gc/iotools/fmt/GuessInputStream.java:69-74 | a map filing each decoder under its own format stays so after further puts |
| GuessInputStreamModule.CanDetect | branches/droid-integration/src/main/java/com/gc/iotools/fmt/GuessInputStream.java:186-191 | null throws IllegalArgumentException; otherwise membership in the enabled formats |
| GuessInputStreamModule.CanDetectAll | branches/droid-integration/src/main/java/com/gc/iotools/fmt/GuessInputStream.java:193-203 | null throws; otherwise true iff every element is enabled |
| GuessInputStreamModule.CanDetectAllEmpty | branches/droid-integration/src/main/java/com/gc/iotools/fmt/GuessInputStream.java:193-203 | an empty array is always detectable |
| GuessInputStreamModule.CanDetectAllSingleton | branches/droid-integration/src/main/java/com/gc/iotools/fmt/GuessInputStream.java:186-203 | on one format, canDetectAll agrees with canDetect |
| GuessInputStreamModule.CanDetectAllConcat | branches/droid-integration/src/main/java/com/gc/iotools/fmt/GuessInputStream.java:193-203 | all-enabled of a concatenation is the conjunction of its parts |
| GuessInputStreamModule.GetInstance | branches/droid-integration/src/main/java/com/gc/iotools/fmt/GuessInputStream.java:138-157 | a wrapper iff the stream is a GuessInputStream that can detect all requested formats, else a new impl with the arguments; a null array with a GuessInputStream throws |
| GuessInputStreamModule.GetInstanceReusesForSubset | branches/droid-integration/src/main/java/com/gc/iotools/fmt/GuessInputStream.java:145-151 | re-wrapping for a subset of the enabled formats reuses the stream |
| GuessInputStreamModule.GetFormatId | branches/droid-integration/src/main/java/com/gc/iotools/fmt/GuessInputStream.java:209-211 | `identify()[0]`, an index exception on an empty identification |
| GuessInputStreamModule.GetFormat | branches/droid-integration/src/main/java/com/gc/iotools/fmt/GuessInputStream.java:205-207 | the format of `getFormatId()` |
| GuessInputStreamModule.GetFormats | branches/droid-integration/src/main/java/com/gc/iotools/fmt/GuessInputStream.java:213-220 | same length and order as `identify()`, mapped to their formats; the first is `getFormat()` |
| GuessInputStreamModule.NonNull | branches/droid-integration/src/main/java/com/gc/iotools/fmt/GuessInputStream.java:177-182 | the decoders kept from an array are exactly its non-null elements |
| GuessInputStreamModule.DecoderRegistry.AddDefaultDecoder | branches/droid-integration/src/main/java/com/gc/iotools/fmt/GuessInputStream.java:69-74 | null throws and changes nothing; otherwise the decoder replaces its format's entry |
| GuessInputStreamModule.DecoderRegistry.AddDefaultDecoders | branches/droid-integration/src/main/java/com/gc/iotools/fmt/GuessInputStream.java:175-184 | a null array throws; null elements are skipped and the others put in order, adding exactly their formats as keys |
| GuessInputStreamModule.DecoderRegistry.InstanceInitializer | branches/droid-integration/src/main/java/com/gc/iotools/fmt/GuessInputStream.java:166-168 | every instance registers the Base64 decoder under BASE64 |
| GuessInputStreamModule.DecoderRegistry.NewInstance | branches/droid-integration/src/main/java/com/gc/iotools/fmt/GuessInputStream.java:140-168 | the 4-argument getInstance; a successful call registers the Base64 decoder, a failing one leaves the registry alone |
| GuessInputStreamModule.DecoderRegistry.GetConfiguredInstance | branches/droid-integration/src/main/java/com/gc/iotools/fmt/GuessInputStream.java:81-99 | two null file names throw; otherwise one detector per given file and the registry's decoders go to the 4-argument getInstance with a null format array, and a successful call registers the Base64 decoder |
| GuessInputStreamModule.SetToSeq | branches/droid-integration/src/main/java/com/gc/iotools/fmt/GuessInputStream.java:96 | `toArray` holds each element of the set exactly once |
| GuessInputStreamModule.MapValuesToSeq | branches/droid-integration/src/main/java/com/gc/iotools/fmt/GuessInputStream.java:96-97 | `values().toArray` holds exactly the map's values |
| ZipDetectorModule.NewZipDetectorModule | wazstrm/src/main/java/org/iotools/formats/detectors/ZipDetectorModule.java:40-44 | header length 2 and format ZIP |
| ZipDetectorModule.Detect | wazstrm/src/main/java/org/iotools/formats/detectors/ZipDetectorModule.java:46-50 | true iff the input is exactly the two bytes 0x50 0x4B |
| ZipDetectorModule.LongerHeaderRejected | wazstrm/src/main/java/org/iotools/formats/detectors/ZipDetectorModule.java:48 | an input starting with "PK" but longer than two bytes is rejected |
| ZipDetectorModule.NullAndEmptyRejected | wazstrm/src/main/java/org/iotools/formats/detectors/ZipDetectorModule.java:48 | null and empty input are rejected |
| JavaStrings.SplitHead | branches/droid-integration/src/main/java/com/gc/iotools/fmt/deflen/DefiniteModuleFactory.java:60 | `split("=")[0]` is the text before the first `=`, and throws for a non-empty line made only of `=` |
| DefiniteModuleFactoryModule.ValueOf | branches/droid-integration/src/main/java/com/gc/iotools/fmt/deflen/DefiniteModuleFactory.java:64-65 | only REGEXP, STRING and CLASS are modes; any other token throws IllegalArgumentException |
| DefiniteModuleFactoryModule.InstantiateClass | branches/droid-integration/src/main/java/com/gc/iotools/fmt/deflen/DefiniteModuleFactory.java:87-99 | the named class is loaded iff reflection succeeds; any failure becomes IllegalStateException |
| DefiniteModuleFactoryModule.SelectModule | branches/droid-integration/src/main/java/com/gc/iotools/fmt/deflen/DefiniteModuleFactory.java:69-83 | the mode picks the module kind, which is initialised with the enum and params |
| DefiniteModuleFactoryModule.ParseTail | branches/droid-integration/src/main/java/com/gc/iotools/fmt/deflen/DefiniteModuleFactory.java:64-83 | an unknown mode throws; params start at `enumName.length()+method.length()+2`, and a line too short for that throws |
| DefiniteModuleFactoryModule.GetInstanceAlwaysFails | branches/droid-integration/src/main/java/com/gc/iotools/fmt/deflen/DefiniteModuleFactory.java:58-85 | the method substring's begin exceeds its end, so every line raises an index exception |
| DefiniteModuleFactoryModule.ConfName | branches/droid-integration/src/main/java/com/gc/iotools/fmt/deflen/DefiniteModuleFactory.java:25-26 | a blank configuration name means `deflen.properties` |
| DefiniteModuleFactoryModule.EnumClazz | branches/droid-integration/src/main/java/com/gc/iotools/fmt/deflen/DefiniteModuleFactory.java:24 | a null enum class means `FormatEnum.class` |
| DefiniteModuleFactoryModule.NewFactory | branches/droid-integration/src/main/java/com/gc/iotools/fmt/deflen/DefiniteModuleFactory.java:23-56 | a missing resource throws IllegalArgumentException; otherwise the line loop builds what the reference line fold says, with the first exception escaping |
| DefiniteModuleFactoryModule.ModulesOfErrSticks | branches/droid-integration/src/main/java/com/gc/iotools/fmt/deflen/DefiniteModuleFactory.java:39-53 | once a line throws, the rest of the file is not read and the exception escapes |
| DefiniteModuleFactoryModule.NewDefaultFactory | branches/droid-integration/src/main/java/com/gc/iotools/fmt/deflen/DefiniteModuleFactory.java:19-21 | the no-argument constructor uses `deflen.properties` and `FormatEnum.class` |
| DefiniteModuleFactoryModule.DefaultsApply | branches/droid-integration/src/main/java/com/gc/iotools/fmt/deflen/DefiniteModuleFactory.java:25-26 | a blank name and a null class behave as the explicit defaults |
| DefiniteModuleFactoryModule.ModulesOfAsWritten | branches/droid-integration/src/main/java/com/gc/iotools/fmt/deflen/DefiniteModuleFactory.java:39-53 | a file yields a factory iff every line is a comment or blank, and then it has no module; otherwise an index exception escapes |
| DefiniteModuleFactoryModule.ExampleLineThrows | branches/droid-integration/src/main/java/com/gc/iotools/fmt/deflen/DefiniteModuleFactory.java:58-63 | a comment line followed by `ZIP=regexp:PK.*` makes the constructor throw |
| DefiniteModuleFactoryModule.GetInstanceIntendedParses | branches/droid-integration/src/main/java/com/gc/iotools/fmt/deflen/DefiniteModuleFactory.java:59-84 | with the end index taken from the line, `E=m:p` yields the module mode m selects for getEnum(E) with params p (an unknown mode throws) |
| DefiniteModuleFactoryModule.ZipLineIntended | branches/droid-integration/src/main/java/com/gc/iotools/fmt/deflen/DefiniteModuleFactory.java:59-84 | `ZIP=regexp:PK.*` yields a RegexpDetectorModule for ZIP with `PK.*` under the intended getInstance, and throws as written |
| RandomAccess121.ThresholdStore | tags/io-tools-1.2.1/easystream/src/main/java/com/gc/iotools/stream/is/RandomAccessInputStream.java:89-93 | the default store starts empty and seekable |
| RandomAccess121.ReadStep | tags/io-tools-1.2.1/easystream/src/main/java/com/gc/iotools/stream/is/RandomAccessInputStream.java:252-289 | a read returns at most len bytes and advances the cursor by that many, an exception or -1 changes nothing, and the frontier never moves back |
| RandomAccess121.ReadStepBranches | tags/io-tools-1.2.1/easystream/src/main/java/com/gc/iotools/stream/is/RandomAccessInputStream.java:252-289 | at the frontier both positions advance by n and the n source bytes are stored; behind it at most `min(len, sp - rap)` store bytes, only the cursor moves, and an empty store read throws; ahead of it throws |
| RandomAccess121.ReadFromCoherent | tags/io-tools-1.2.1/easystream/src/main/java/com/gc/iotools/stream/is/RandomAccessInputStream.java:252-289 | on a coherent stream repeated reads return the source bytes from the cursor on and keep the stream coherent |
| RandomAccess121.ReadAllCoherent | trunk/easystream/src/test/java/com/gc/iotools/stream/is/RandomAccessInputStreamTest.java:43-53 | reading to the end returns the rest of the source |
| RandomAccess121.OrderedPreserved | tags/io-tools-1.2.1/easystream/src/main/java/com/gc/iotools/stream/is/RandomAccessInputStream.java:274-287 | every operation keeps cursor and mark at or behind the frontier, so the IllegalStateException of a cursor ahead cannot occur |
| RandomAccess121.InitialCoherent | tags/io-tools-1.2.1/easystream/src/main/java/com/gc/iotools/stream/is/RandomAccessInputStream.java:68-93 | a new stream is coherent |
| RandomAccess121.ResetIff | tags/io-tools-1.2.1/easystream/src/main/java/com/gc/iotools/stream/is/RandomAccessInputStream.java:193-202 | reset succeeds iff the limit is negative or not exceeded and the store is seekable, then restores the cursor; an exceeded limit throws IOException without change |
| RandomAccess121.MarkReadReset | trunk/easystream/src/test/java/com/gc/iotools/stream/is/RandomAccessInputStreamTest.java:73-92 | mark(limit), k reads, reset succeeds iff the bytes read do not exceed the limit, and then the same bytes read again |
| RandomAccess121.SeekCoherent | tags/io-tools-1.2.1/easystream/src/main/java/com/gc/iotools/stream/is/RandomAccessInputStream.java:207-230 | a negative position throws IllegalArgumentException; a position up to the end puts the cursor there; past the end reads to the end and throws IOException |
| RandomAccess121.SeekNeedsSeekableStore | tags/io-tools-1.2.1/easystream/src/main/java/com/gc/iotools/stream/is/RandomAccessInputStream.java:211-216 | a store that is not seekable makes seek throw IllegalStateException without change |
| RandomAccess121.ReadByteCoherent | trunk/easystream/src/test/java/com/gc/iotools/stream/is/RandomAccessInputStreamTest.java:56-70 | read() returns the byte at the cursor, or -1 after the last byte |
| RandomAccess121.SeekThenReadByte | trunk/easystream/src/test/java/com/gc/iotools/stream/is/RandomAccessInputStreamTest.java:95-116 | for every position i, seek(i) then read() returns byte i |
| RandomAccess121.FullReadAndReset | trunk/easystream/src/test/java/com/gc/iotools/stream/is/RandomAccessInputStreamTest.java:43-53 | a full read, seek(0) and another full read both return the whole source |
| RandomAccess121.RandomAccessInputStream.constructor | tags/io-tools-1.2.1/easystream/src/main/java/com/gc/iotools/stream/is/RandomAccessInputStream.java:68-70 | a new stream over a default threshold store |
| RandomAccess121.RandomAccessInputStream.WithThreshold | tags/io-tools-1.2.1/easystream/src/main/java/com/gc/iotools/stream/is/RandomAccessInputStream.java:89-93 | a new stream over a store with the given threshold |
| RandomAccess121.RandomAccessInputStream.WithStore | tags/io-tools-1.2.1/easystream/src/main/java/com/gc/iotools/stream/is/RandomAccessInputStream.java:102-109 | the store is a `SeekableStore` (the parameter type); a null store throws IllegalArgumentException; otherwise a new stream over it |
| RandomAccess121.RandomAccessInputStream.Available | tags/io-tools-1.2.1/easystream/src/main/java/com/gc/iotools/stream/is/RandomAccessInputStream.java:115-119 | the bytes left to read, capped at Integer.MAX_VALUE |
| RandomAccess121.RandomAccessInputStream.InnerRead | tags/io-tools-1.2.1/easystream/src/main/java/com/gc/iotools/stream/is/RandomAccessInputStream.java:252-289 | the fields change and the result is as the read step says |
| RandomAccess121.RandomAccessInputStream.Read | tags/io-tools-1.2.1/easystream/src/main/java/com/gc/iotools/stream/is/RandomAccessInputStream.java:252-289 | `read()` is a one-byte `innerRead`: the byte at the cursor, or -1 at the end, with the state the read step gives |
| RandomAccess121.RandomAccessInputStream.Skip | tags/io-tools-1.2.1/easystream/src/main/java/com/gc/iotools/stream/is/RandomAccessInputStream.java:218-224 | the skip loop of repeated reads agrees with the reference skip |
| RandomAccess121.RandomAccessInputStream.Mark | tags/io-tools-1.2.1/easystream/src/main/java/com/gc/iotools/stream/is/RandomAccessInputStream.java:159-162 | mark records the cursor and the limit |
| RandomAccess121.RandomAccessInputStream.Reset | tags/io-tools-1.2.1/easystream/src/main/java/com/gc/iotools/stream/is/RandomAccessInputStream.java:193-202 | the fields and result are those of the reset step |
| RandomAccess121.RandomAccessInputStream.Seek | tags/io-tools-1.2.1/easystream/src/main/java/com/gc/iotools/stream/is/RandomAccessInputStream.java:207-230 | the fields and result are those of the seek step |
| RandomAccessEarly.MemoryStorage | easystream/src/main/java/com/gc/iotools/stream/is/RandomAccessInputStream.java:65-69 | the storage the constructors create starts empty |
| RandomAccessEarly.ReadStep | easystream/src/main/java/com/gc/iotools/stream/is/RandomAccessInputStream.java:91-124 | a read returns at most len bytes, an exception or -1 changes nothing, the mark stays and the source position never moves back |
| RandomAccessEarly.ReadStepBranches | easystream/src/main/java/com/gc/iotools/stream/is/RandomAccessInputStream.java:91-124 | at the frontier both positions advance and the bytes are stored; behind it at most `sp - rp` storage bytes, only the cursor moves, an empty read throws; ahead of it at most `rp - sp` source bytes, only `sourcePosition` moves, nothing is stored |
| RandomAccessEarly.ReadFromAhead | easystream/src/main/java/com/gc/iotools/stream/is/RandomAccessInputStream.java:94-122 | at or ahead of the frontier reads return the source bytes and store only those read from the cursor on |
| RandomAccessEarly.MarkResetRereads | easystream/src/main/java/com/gc/iotools/stream/is/RandomAccessInputStream.java:127-141 | mark, k reads, reset: reads return the bytes from the mark again, from the source, while the cursor stays ahead |
| RandomAccessEarly.ResetKeepsCursor | easystream/src/main/java/com/gc/iotools/stream/is/RandomAccessInputStream.java:127-141 | mark records `sourcePosition`, and reset restores only `sourcePosition` |
| RandomAccessEarly.NegativeSeekThenReadFails | easystream/src/main/java/com/gc/iotools/stream/is/RandomAccessInputStream.java:143-146 | seek takes any position without a check; after a negative one the next read throws IllegalStateException |
| RandomAccessEarly.RandomAccessInputStream.constructor | easystream/src/main/java/com/gc/iotools/stream/is/RandomAccessInputStream.java:61-63 | a new stream over an empty memory storage |
| RandomAccessEarly.RandomAccessInputStream.WithThreshold | easystream/src/main/java/com/gc/iotools/stream/is/RandomAccessInputStream.java:65-69 | the threshold is ignored: a new stream over an empty memory storage |
| RandomAccessEarly.RandomAccessInputStream.WithStorage | easystream/src/main/java/com/gc/iotools/stream/is/RandomAccessInputStream.java:71-75 | a new stream over the given storage |
| RandomAccessEarly.RandomAccessInputStream.Available | easystream/src/main/java/com/gc/iotools/stream/is/RandomAccessInputStream.java:78-82 | non-negative and capped at Integer.MAX_VALUE; the bytes left in the source when the cursor is not ahead |
| RandomAccessEarly.RandomAccessInputStream.InnerRead | easystream/src/main/java/com/gc/iotools/stream/is/RandomAccessInputStream.java:91-124 | the fields change and the result is as the read step says |
| RandomAccessEarly.RandomAccessInputStream.Mark | easystream/src/main/java/com/gc/iotools/stream/is/RandomAccessInputStream.java:127-130 | the mark becomes the source position |
| RandomAccessEarly.RandomAccessInputStream.Reset | easystream/src/main/java/com/gc/iotools/stream/is/RandomAccessInputStream.java:138-141 | the source position goes back to the mark |
| RandomAccessEarly.RandomAccessInputStream.Seek | easystream/src/main/java/com/gc/iotools/stream/is/RandomAccessInputStream.java:143-146 | cursor and storage cursor are set to the position |
| StatsOutputStreamModule.StatsOutputStream.constructor | easystream/src/main/java/com/gc/iotools/stream/os/StatsOutputStream.java:47-49 | size 0, not closed |
| StatsOutputStreamModule.StatsOutputStream.GetSize | easystream/src/main/java/com/gc/iotools/stream/os/StatsOutputStream.java:79-81 | the number of bytes the wrapped stream received through this wrapper |
| StatsOutputStreamModule.StatsOutputStream.Close | easystream/src/main/java/com/gc/iotools/stream/os/StatsOutputStream.java:55-62 | the wrapped stream is closed on the first call only; the size is unchanged |
| StatsOutputStreamModule.StatsOutputStream.Flush | easystream/src/main/java/com/gc/iotools/stream/os/StatsOutputStream.java:68-72 | flush is forwarded and the size is unchanged |
| StatsOutputStreamModule.StatsOutputStream.Write | easystream/src/main/java/com/gc/iotools/stream/os/StatsOutputStream.java:91-96 | adds `b.length` once the wrapped stream accepted the bytes; unchanged when it throws |
| StatsOutputStreamModule.StatsOutputStream.WriteRange | easystream/src/main/java/com/gc/iotools/stream/os/StatsOutputStream.java:102-108 | adds `len` once the wrapped stream accepted the range; unchanged when it throws |
| StatsOutputStreamModule.StatsOutputStream.WriteByte | easystream/src/main/java/com/gc/iotools/stream/os/StatsOutputStream.java:114-119 | adds 1 once the wrapped stream accepted the byte; unchanged when it throws |
| SizeRecorderOutputStreamModule.SizeRecorderOutputStream.constructor | trunk/easystream/src/main/java/com/gc/iotools/stream/os/SizeRecorderOutputStream.java:35-37 | size 0, not closed |
| SizeRecorderOutputStreamModule.SizeRecorderOutputStream.GetSize | trunk/easystream/src/main/java/com/gc/iotools/stream/os/SizeRecorderOutputStream.java:63-65 | the number of bytes the wrapped stream received through this wrapper |
| SizeRecorderOutputStreamModule.SizeRecorderOutputStream.Close | trunk/easystream/src/main/java/com/gc/iotools/stream/os/SizeRecorderOutputStream.java:43-48 | the wrapped stream is closed on the first call only; the size is unchanged |
| SizeRecorderOutputStreamModule.SizeRecorderOutputStream.Flush | trunk/easystream/src/main/java/com/gc/iotools/stream/os/SizeRecorderOutputStream.java:54-56 | flush is forwarded and the size is unchanged |
| SizeRecorderOutputStreamModule.SizeRecorderOutputStream.Write | trunk/easystream/src/main/java/com/gc/iotools/stream/os/SizeRecorderOutputStream.java:71-74 | adds `b.length` once the wrapped stream accepted the bytes; unchanged when it throws |
| SizeRecorderOutputStreamModule.SizeRecorderOutputStream.WriteRange | trunk/easystream/src/main/java/com/gc/iotools/stream/os/SizeRecorderOutputStream.java:80-84 | adds `len` once the wrapped stream accepted the range; unchanged when it throws |
| SizeRecorderOutputStreamModule.SizeRecorderOutputStream.WriteByte | trunk/easystream/src/main/java/com/gc/iotools/stream/os/SizeRecorderOutputStream.java:90-93 | adds 1 once the wrapped stream accepted the byte; unchanged when it throws |
| SAXModelBuilderModule.HandleNameNS | branches/wazformat-1.1-dev/wazformat/src/main/java/uk/gov/nationalarchives/droid/xmlReader/SAXModelBuilder.java:111-122 | a resolved name is the local name or the qualified name |
| SAXModelBuilderModule.HandleNameNSSettings | branches/wazformat-1.1-dev/wazformat/src/main/java/uk/gov/nationalarchives/droid/xmlReader/SAXModelBuilder.java:64-122 | by default only names without a namespace are accepted, by qualified name; after setupNamespace(ns) names in ns resolve to their local name, and others are ignored unless global names are allowed and their URI is empty |
| SAXModelBuilderModule.AttributeCallsFromAttributes | branches/wazformat-1.1-dev/wazformat/src/main/java/uk/gov/nationalarchives/droid/xmlReader/SAXModelBuilder.java:138-144 | every attribute call comes from an attribute whose name resolves, with its value; when no attribute name resolves there is none |
| SAXModelBuilderModule.SetPropertyOrder | branches/wazformat-1.1-dev/wazformat/src/main/java/uk/gov/nationalarchives/droid/xmlReader/SAXModelBuilder.java:172-205 | the first of `addX(value class)`, `setX(value class)`, `addX(String)` with the text, `setX(String)` with the text is invoked; with none only a warning is given |
| SAXModelBuilderModule.StackDiscipline | branches/wazformat-1.1-dev/wazformat/src/main/java/uk/gov/nationalarchives/droid/xmlReader/SAXModelBuilder.java:124-170 | ignored tags leave everything alone; accepted starts push one element; accepted ends pop one (EmptyStackException on an empty stack), make it the model and attach it to the new top; character data outside any element is dropped |
| SAXModelBuilderModule.NodeRun | branches/wazformat-1.1-dev/wazformat/src/main/java/uk/gov/nationalarchives/droid/xmlReader/SAXModelBuilder.java:124-163 | the callbacks of a well-nested accepted element never fail, restore the stack height with the element attached to the previous top, and make it the model |
| SAXModelBuilderModule.ContentRun | branches/wazformat-1.1-dev/wazformat/src/main/java/uk/gov/nationalarchives/droid/xmlReader/SAXModelBuilder.java:154-170 | the content callbacks set texts and attach children on the element under construction only |
| SAXModelBuilderModule.ParseDocument | branches/wazformat-1.1-dev/wazformat/src/main/java/uk/gov/nationalarchives/droid/xmlReader/SAXModelBuilder.java:207-209 | after a balanced document the stack is empty and `getModel` returns the completed root |
| SAXModelBuilderModule.SAXModelBuilder.constructor | branches/wazformat-1.1-dev/wazformat/src/main/java/uk/gov/nationalarchives/droid/xmlReader/SAXModelBuilder.java:64-70 | empty stack, no model, the signature-file package, no namespace, global names allowed |
| SAXModelBuilderModule.SAXModelBuilder.SetObjectPackage | branches/wazformat-1.1-dev/wazformat/src/main/java/uk/gov/nationalarchives/droid/xmlReader/SAXModelBuilder.java:73-75 | only the object package changes |
| SAXModelBuilderModule.SAXModelBuilder.SetupNamespace | branches/wazformat-1.1-dev/wazformat/src/main/java/uk/gov/nationalarchives/droid/xmlReader/SAXModelBuilder.java:89-98 | null throws IllegalArgumentException and changes nothing; otherwise sets the namespace, turns namespaces on and sets the global flag |
| SAXModelBuilderModule.SAXModelBuilder.StartElement | branches/wazformat-1.1-dev/wazformat/src/main/java/uk/gov/nationalarchives/droid/xmlReader/SAXModelBuilder.java:124-146 | the attribute loop and push agree with the start step |
| SAXModelBuilderModule.SAXModelBuilder.EndElement | branches/wazformat-1.1-dev/wazformat/src/main/java/uk/gov/nationalarchives/droid/xmlReader/SAXModelBuilder.java:148-163 | the fields and outcome agree with the end step |
| SAXModelBuilderModule.SAXModelBuilder.Characters | branches/wazformat-1.1-dev/wazformat/src/main/java/uk/gov/nationalarchives/droid/xmlReader/SAXModelBuilder.java:165-170 | the stack agrees with the characters step |

## Left out

- Signature matching (`isFileCompliant`, `prepareSeqFragments`, sub-sequences) and `hasMatchingExtension`: their code is not part of this model, so the first two are a parameter and `reorderAllSequenceFragments` has no effect on the model's signatures.
- `ByteReader`, `FileFormatHit` and `MessageDisplay` internals: a hit is a plain record and the warning text a constant.
- DetectionLibrary `detect`, `ResettableStreamWrapper` and `Decoder.decode`: these are unseen. Detection is a function parameter, wrapping is recorded as a stream value, and a reset is counted.
- GuessInputStreamImpl and GuessInputStreamWrapper: they are recorded with their constructor arguments, and `identify()` is a field.
- `GuessInputStream` stub `getInstance` overloads that return null, and the `synchronized` and thread-safe map: concurrency is not modelled.
- Reflection, classpath resources, `LineNumberReader` and `FormatEnum.getEnum`: these become function parameters, and a file is its list of lines.
- `DefiniteModuleFactoryModule.GetInstance`: `FormatEnum.getEnum` is a total function parameter, so the model takes it never to throw; in the source it runs first, before the substring that fails. The IOException of reading the file, which the constructor turns into IllegalStateException, is not modelled either. The `default:` branch that throws UnsupportedOperationException has no counterpart, since `DetectMode` has only three constants and it cannot be reached.
- `DetectionStrategy.LayersIntended`: `recursionLevel` is counted without 32-bit wrap-around, so the case maxRecursion = 2^31 - 1 (where a Java `int` level would wrap) is not modelled.
- `DetectionStrategy.DetectFormatStream` and `DetectionStrategy.GetDecodersMap`: three null cases are not modelled. A null `enabledFormats` array makes `Arrays.asList` throw a null-reference exception, and so does a null element of the decoder array at `decoder.getFormat()`. A detector that returns a null FormatId makes the loop condition throw outside the try block. The model's arrays and formats are never null.
- `DefiniteModuleFactoryModule.ParseTail`: upper-casing of the mode name maps only ASCII `a`..`z` and ignores the locale. Java's `toUpperCase()` uses the default locale and full Unicode case mapping, so on inputs such as "ſtring" (Java picks STRING) or under a Turkish locale ("string" becomes "STRİNG", which Java rejects) the model and Java disagree.
- `DetectionStrategy.DetectFormatStream`: which detector threw, and the logging, are not modelled.
- `DetectionStrategy.DetectFormatStream`: a failing `resetToBeginning()` is not modelled. In the source that call sits outside the try block, so its IOException would end the detector loop and propagate out of `detectFormatStream` and the DetectionStrategy constructor. The model counts every reset as one that succeeds, and so do `DetectionStrategy.Visit`, `DetectionStrategy.AskDetector` and `DetectionStrategy.DetectionStrategy.constructor`.
- `RandomAccess121.RandomAccessInputStream`: `setStore` is not modelled, because it swaps in an unrelated cache; the stream is modelled with the store it was built with. Only `setStore` can install a store that is not a `SeekableStore`, so the non-seekable branches of seek and reset are stated by the step functions (`SeekNeedsSeekableStore`, `ResetIff`) but no constructor reaches them.
- `RandomAccess121.RandomAccessInputStream.InnerRead`: the caller's buffer and offset are not modelled; the bytes copied into it are the result.
- `RandomAccess121.RandomAccessInputStream.Skip`: the base class splits a skip into buffer-sized reads. The model asks for all remaining bytes in each read, which returns the same bytes.
- `RandomAccess121.RandomAccessInputStream.Seek`: positions are unbounded integers, so `long` overflow is not modelled.
- `RandomAccess121.ThresholdStore`: disk spilling and clean-up are not modelled; the model takes the store to be seekable and to append on `put`.
- `RandomAccessEarly.RandomAccessInputStream.WithStorage`: a null storage is not modelled.
- `RandomAccessEarly.StorageGet` and `RandomAccessEarly.NegativeSeekThenReadFails`: `Storage` is not part of this model, and a read from a cursor outside the stored bytes (a negative one included) is taken to return no bytes. The IllegalStateException after a negative seek follows from that choice; what the real storage does there is not modelled.
- `RandomAccessEarly.RandomAccessInputStream.Mark`: the source's own mark limit is not modelled, since the in-memory source keeps every byte.
- `markSupported`, `closeOnce` and `close` of both random-access streams: these only delegate.
- StatsOutputStream elapsed time (`System.currentTimeMillis` and `TimeUnit` conversion): clocks are not modelled.
- `StatsOutputStreamModule.StatsOutputStream.Write` and the other write methods: null arrays are not modelled (Java throws a null-reference exception). The same holds for `SizeRecorderOutputStreamModule.SizeRecorderOutputStream.Write`.
- `SAXModelBuilderModule.SetProperty`: an exception thrown by the invoked setter (wrapped in SAXException) is not modelled; the model takes the setters never to throw.
- `SAXModelBuilderModule.SAXModelBuilder.Characters`: the `char[]`, start and length arguments are given as the resulting string. Out-of-range arguments are not modelled, since the SAX parser never passes them.
- `SAXModelBuilderModule.SAXModelBuilder.SetObjectPackage`: a null package (which Java would turn into the text "null") is not modelled.
- `SimpleElement`'s own methods (`setAttributeValue`, `setText`, `completeElementContent`, `getText`): they are unseen, so each call is recorded on the element in order, and `getText` is a parameter.
- Threaded and piped streams (`InputStreamFromOutputStream`, `OutputStreamToInputStream`, `ExecutionModel`) and `DecoderHelperStream`: these lie outside the modelled core.
