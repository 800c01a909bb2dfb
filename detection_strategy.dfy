/**
 * com.gc.iotools.fmt.DetectionStrategy (trunk): runs the detectors over a
 * resettable stream, and repeats detection on the decoded stream while the
 * detected format has a registered decoder.
 */
module DetectionStrategy {
  import opened Wrappers
  import opened FmtBase

  const INT_MAX := 0x7fff_ffff
  const INT_MIN := -0x8000_0000

  predicate IsInt32(x: int) { INT_MIN <= x <= INT_MAX }

  /** `x++` on a Java int: MAX_VALUE wraps around to MIN_VALUE. */
  function Inc32(x: int): int
    requires IsInt32(x)
  {
    if x == INT_MAX then INT_MIN else x + 1
  }

  /**
   * The stream the detectors read: the caller's resettable stream, or a
   * ResettableStreamWrapper that feeds a stream through a decoder.
   */
  datatype Stream = Input(name: string) | DecoderWrapped(inner: Stream, decoder: Decoder)

  /** How many decoders a stream has been wrapped in. */
  function Depth(s: Stream): nat
  {
    match s
    case Input(_) => 0
    case DecoderWrapped(inner, _) => Depth(inner) + 1
  }

  /** A DetectionLibrary, seen through the formats it declares (`getDetectedFormats`). */
  datatype DetectionLibrary = DetectionLibrary(name: string, detectedFormats: seq<FormatEnum>)

  /** What one call of `detect` does: returns a FormatId, or throws. */
  datatype Attempt = Returned(id: FormatId) | Threw

  /**
   * The detectors' own `detect(toDetect, stream)`, which is not part of this model:
   * a function of the detector, the formats still to detect and the stream content.
   */
  type DetectFunction = (DetectionLibrary, seq<FormatEnum>, Stream) -> Attempt

  /** Some declared format of the detector is still to be detected. */
  predicate Needed(d: DetectionLibrary, toDetect: seq<FormatEnum>)
  {
    exists f :: f in d.detectedFormats && f in toDetect
  }

  /** `isDetectorNeeded`: an OR-accumulating loop that stops at the first hit. */
  method IsDetectorNeeded(d: DetectionLibrary, toDetect: seq<FormatEnum>) returns (result: bool)
    ensures result <==> exists i :: 0 <= i < |d.detectedFormats| && d.detectedFormats[i] in toDetect
    ensures result == Needed(d, toDetect)
  {
    var formats := d.detectedFormats;
    result := false;
    var i := 0;
    while i < |formats| && !result
      invariant 0 <= i <= |formats|
      invariant result <==> exists k :: 0 <= k < i && formats[k] in toDetect
    {
      result := result || formats[i] in toDetect;
      i := i + 1;
    }
  }

  /** `Collection.removeAll`: drops every occurrence of every element of `r`, keeping order. */
  function RemoveAll(s: seq<FormatEnum>, r: seq<FormatEnum>): (t: seq<FormatEnum>)
    ensures forall x :: x in t <==> x in s && x !in r
    ensures |t| <= |s|
  {
    if |s| == 0 then []
    else RemoveAll(s[..|s| - 1], r) + (if s[|s| - 1] in r then [] else [s[|s| - 1]])
  }

  /** The state of the detector loop: the result so far, the formats left, the resets done. */
  datatype Scan = Scan(detected: FormatId, toDetect: seq<FormatEnum>, resets: nat)

  /**
   * One iteration of the detector loop: a needed detector is asked, and if it
   * returns, its result replaces `detected` and its formats leave `toDetect`;
   * a skipped or throwing detector changes neither. The stream is reset either way.
   */
  function Visit(d: DetectionLibrary, s: Scan, stream: Stream, detect: DetectFunction): (r: Scan)
    ensures r.resets == s.resets + 1
    ensures forall x :: x in r.toDetect ==> x in s.toDetect
    ensures !Needed(d, s.toDetect) || detect(d, s.toDetect, stream).Threw? ==>
      r.detected == s.detected && r.toDetect == s.toDetect
    ensures Needed(d, s.toDetect) && detect(d, s.toDetect, stream).Returned? ==>
      r.detected == detect(d, s.toDetect, stream).id &&
      forall f :: f in d.detectedFormats ==> f !in r.toDetect
  {
    var s1 :=
      if Needed(d, s.toDetect) then
        match detect(d, s.toDetect, stream)
        case Returned(id) => s.(detected := id, toDetect := RemoveAll(s.toDetect, d.detectedFormats))
        case Threw => s
      else s;
    s1.(resets := s1.resets + 1)
  }

  /** The loop guard of `detectFormatStream`. */
  predicate Continues(ds: seq<DetectionLibrary>, i: nat, s: Scan)
  {
    i < |ds| && s.detected.format == UNKNOWN && |s.toDetect| > 0
  }

  function ScanFrom(ds: seq<DetectionLibrary>, i: nat, s: Scan, stream: Stream, detect: DetectFunction): Scan
    decreases |ds| - i
  {
    if Continues(ds, i, s) then ScanFrom(ds, i + 1, Visit(ds[i], s, stream, detect), stream, detect)
    else s
  }

  function InitialScan(enabledFormats: seq<FormatEnum>): Scan
  {
    Scan(FormatId(UNKNOWN, None), enabledFormats, 0)
  }

  /** What `detectFormatStream` computes; a null detector array gives UNKNOWN at once. */
  function DetectSpec(stream: Stream, detectors: Option<seq<DetectionLibrary>>,
                      enabledFormats: seq<FormatEnum>, detect: DetectFunction): Scan
  {
    match detectors
    case None => InitialScan(enabledFormats)
    case Some(ds) => ScanFrom(ds, 0, InitialScan(enabledFormats), stream, detect)
  }

  /** The body of the detector loop, for one detector. */
  method AskDetector(detectionLibrary: DetectionLibrary, detected: FormatId, toDetect: seq<FormatEnum>,
                     resets: nat, stream: Stream, detect: DetectFunction)
    returns (detected': FormatId, toDetect': seq<FormatEnum>, resets': nat)
    ensures Scan(detected', toDetect', resets') == Visit(detectionLibrary, Scan(detected, toDetect, resets), stream, detect)
  {
    detected', toDetect' := detected, toDetect;
    var needed := IsDetectorNeeded(detectionLibrary, toDetect);
    if needed {
      var attempt := detect(detectionLibrary, toDetect, stream);
      match attempt
      case Returned(id) =>
        detected' := id;
        toDetect' := RemoveAll(toDetect, detectionLibrary.detectedFormats);
      case Threw =>
    }
    resets' := resets + 1;
  }

  /**
   * `detectFormatStream`. `resets` counts the calls of `stream.resetToBeginning()`,
   * one per loop iteration whatever the detector did.
   */
  method DetectFormatStream(stream: Stream, detectors: Option<seq<DetectionLibrary>>,
                            enabledFormats: seq<FormatEnum>, detect: DetectFunction)
    returns (detected: FormatId, resets: nat)
    ensures detected == DetectSpec(stream, detectors, enabledFormats, detect).detected
    ensures resets == DetectSpec(stream, detectors, enabledFormats, detect).resets
  {
    detected := FormatId(UNKNOWN, None);
    var toDetect := enabledFormats;
    resets := 0;
    if detectors.Some? {
      var ds := detectors.value;
      var i := 0;
      while i < |ds| && detected.format == UNKNOWN && |toDetect| > 0
        invariant 0 <= i <= |ds|
        invariant ScanFrom(ds, i, Scan(detected, toDetect, resets), stream, detect)
               == DetectSpec(stream, detectors, enabledFormats, detect)
      {
        detected, toDetect, resets := AskDetector(ds[i], detected, toDetect, resets, stream, detect);
        i := i + 1;
      }
    }
  }

  /**
   * The detector loop never adds formats to `toDetect`, resets the stream once per
   * visited detector, and stops exactly when the detectors run out, a format other
   * than UNKNOWN is found, or no format is left to detect.
   */
  lemma ScanStops(ds: seq<DetectionLibrary>, i: nat, s: Scan, stream: Stream, detect: DetectFunction)
    requires i <= |ds|
    ensures var r := ScanFrom(ds, i, s, stream, detect);
      && (forall x :: x in r.toDetect ==> x in s.toDetect)
      && s.resets <= r.resets <= s.resets + |ds| - i
      && !Continues(ds, i + r.resets - s.resets, r)
  {
    ScanShrinks(ds, i, s, stream, detect);
    ScanHalts(ds, i, s, stream, detect);
  }

  /** The detector loop never adds a format to `toDetect`. */
  lemma {:induction false} ScanShrinks(ds: seq<DetectionLibrary>, i: nat, s: Scan, stream: Stream, detect: DetectFunction)
    requires i <= |ds|
    ensures forall x :: x in ScanFrom(ds, i, s, stream, detect).toDetect ==> x in s.toDetect
    decreases |ds| - i
  {
    if Continues(ds, i, s) {
      ScanShrinks(ds, i + 1, Visit(ds[i], s, stream, detect), stream, detect);
    }
  }

  /** The detector loop resets once per visited detector and stops where the guard fails. */
  lemma {:induction false} ScanHalts(ds: seq<DetectionLibrary>, i: nat, s: Scan, stream: Stream, detect: DetectFunction)
    requires i <= |ds|
    ensures var r := ScanFrom(ds, i, s, stream, detect);
      s.resets <= r.resets <= s.resets + |ds| - i && !Continues(ds, i + r.resets - s.resets, r)
    decreases |ds| - i
  {
    if Continues(ds, i, s) {
      var s1 := Visit(ds[i], s, stream, detect);
      assert s1.resets == s.resets + 1;
      ScanHalts(ds, i + 1, s1, stream, detect);
    }
  }

  /**
   * A result other than the starting one was returned by some detector that was
   * needed at the time it was asked.
   */
  lemma {:induction false} ScanResultFromDetector(ds: seq<DetectionLibrary>, i: nat, s: Scan, stream: Stream, detect: DetectFunction)
    requires i <= |ds|
    ensures var r := ScanFrom(ds, i, s, stream, detect);
      r.detected == s.detected ||
      exists j, td :: i <= j < |ds| && Needed(ds[j], td) && detect(ds[j], td, stream) == Returned(r.detected)
    decreases |ds| - i
  {
    if Continues(ds, i, s) {
      var s1 := Visit(ds[i], s, stream, detect);
      ScanResultFromDetector(ds, i + 1, s1, stream, detect);
      if s1.detected != s.detected {
        assert Needed(ds[i], s.toDetect) && detect(ds[i], s.toDetect, stream) == Returned(s1.detected);
      }
    }
  }

  /** With a null detector array the result is UNKNOWN and the stream is never reset. */
  lemma NoDetectorsGiveUnknown(stream: Stream, enabledFormats: seq<FormatEnum>, detect: DetectFunction)
    ensures DetectSpec(stream, None, enabledFormats, detect).detected.format == UNKNOWN
    ensures DetectSpec(stream, None, enabledFormats, detect).resets == 0
  {
  }

  /** What `getDecodersMap` computes: null gives the empty map. */
  function DecodersMap(decoders: Option<seq<Decoder>>): map<FormatEnum, Decoder>
  {
    match decoders
    case None => map[]
    case Some(ds) => PutAll(map[], ds)
  }

  /** No decoder after position `j` has the format of `ds[j]`. */
  predicate LastOfFormat(ds: seq<Decoder>, j: nat)
    requires j < |ds|
  {
    forall k :: j < k < |ds| ==> ds[k].format != ds[j].format
  }

  /**
   * `getDecodersMap`: one key per distinct `getFormat()`, and the later decoder
   * of a format wins its key.
   */
  method GetDecodersMap(decoders: Option<seq<Decoder>>) returns (formatsMap: map<FormatEnum, Decoder>)
    ensures decoders.None? ==> formatsMap == map[]
    ensures decoders.Some? ==> formatsMap.Keys == set d | d in decoders.value :: d.format
    ensures decoders.Some? ==>
      forall j :: 0 <= j < |decoders.value| && LastOfFormat(decoders.value, j) ==>
        formatsMap[decoders.value[j].format] == decoders.value[j]
    ensures formatsMap == DecodersMap(decoders)
  {
    formatsMap := map[];
    if decoders.Some? {
      var ds := decoders.value;
      var i := 0;
      while i < |ds|
        invariant 0 <= i <= |ds|
        invariant formatsMap == PutAll(map[], ds[..i])
      {
        assert ds[..i + 1][..i] == ds[..i];
        formatsMap := formatsMap[ds[i].format := ds[i]];
        i := i + 1;
      }
      assert ds[..i] == ds;
      PutAllKeys(map[], ds);
      forall j | 0 <= j < |ds| && LastOfFormat(ds, j)
        ensures formatsMap[ds[j].format] == ds[j]
      {
        PutAllLaterWins(map[], ds, j);
      }
    }
  }

  /** One layer is wrapped in a decoder iff its format is known and has a decoder. */
  predicate Wraps(f: FormatId, decMap: map<FormatEnum, Decoder>)
  {
    f.format != UNKNOWN && f.format in decMap
  }

  /**
   * The do/while of the constructor, from a given stream and `maxRecursion`. The
   * guard compares `recursionLevel`, which stays 0, with `maxRecursion`, which the
   * body increments as a Java int: the bound only stops the loop once
   * `maxRecursion` wraps around to a negative value.
   */
  function LayersFrom(stream: Stream, maxRecursion: int, decMap: map<FormatEnum, Decoder>,
                      detectors: Option<seq<DetectionLibrary>>, enabledFormats: seq<FormatEnum>,
                      detect: DetectFunction): (r: (seq<FormatId>, Stream))
    requires IsInt32(maxRecursion)
    ensures |r.0| >= 1
    decreases 0x8000_0000 - maxRecursion
  {
    var curFormat := DetectSpec(stream, detectors, enabledFormats, detect).detected;
    var next := if Wraps(curFormat, decMap) then DecoderWrapped(stream, decMap[curFormat.format]) else stream;
    var m := Inc32(maxRecursion);
    if curFormat.format in decMap && 0 <= m then
      var rest := LayersFrom(next, m, decMap, detectors, enabledFormats, detect);
      ([curFormat] + rest.0, rest.1)
    else ([curFormat], next)
  }

  /** One unfolding of the layer loop, when it goes on after format `f`. */
  lemma LayersContinue(stream: Stream, maxRecursion: int, decMap: map<FormatEnum, Decoder>,
                       detectors: Option<seq<DetectionLibrary>>, enabledFormats: seq<FormatEnum>,
                       detect: DetectFunction, f: FormatId, next: Stream, m: int)
    requires IsInt32(maxRecursion)
    requires f == DetectSpec(stream, detectors, enabledFormats, detect).detected
    requires next == if Wraps(f, decMap) then DecoderWrapped(stream, decMap[f.format]) else stream
    requires m == Inc32(maxRecursion) && 0 <= m && f.format in decMap
    ensures LayersFrom(stream, maxRecursion, decMap, detectors, enabledFormats, detect).0
            == [f] + LayersFrom(next, m, decMap, detectors, enabledFormats, detect).0
    ensures LayersFrom(stream, maxRecursion, decMap, detectors, enabledFormats, detect).1
            == LayersFrom(next, m, decMap, detectors, enabledFormats, detect).1
  {
  }

  /** The last unfolding of the layer loop, when it stops after format `f`. */
  lemma LayersStop(stream: Stream, maxRecursion: int, decMap: map<FormatEnum, Decoder>,
                   detectors: Option<seq<DetectionLibrary>>, enabledFormats: seq<FormatEnum>,
                   detect: DetectFunction, f: FormatId, next: Stream)
    requires IsInt32(maxRecursion)
    requires f == DetectSpec(stream, detectors, enabledFormats, detect).detected
    requires next == if Wraps(f, decMap) then DecoderWrapped(stream, decMap[f.format]) else stream
    requires !(0 <= Inc32(maxRecursion) && f.format in decMap)
    ensures LayersFrom(stream, maxRecursion, decMap, detectors, enabledFormats, detect) == ([f], next)
  {
  }

  /** The formats and final stream the constructor records. */
  function Layers(detectors: Option<seq<DetectionLibrary>>, decoders: Option<seq<Decoder>>,
                  enabledFormats: seq<FormatEnum>, istream: Stream, maxRecursion: int,
                  detect: DetectFunction): (seq<FormatId>, Stream)
    requires IsInt32(maxRecursion)
  {
    LayersFrom(istream, maxRecursion, DecodersMap(decoders), detectors, enabledFormats, detect)
  }

  /**
   * The do/while of the constructor: detect, wrap in the decoder of a known format,
   * increment `maxRecursion` and go on while the format has a decoder and
   * `recursionLevel` (always 0) does not exceed `maxRecursion`.
   */
  method DetectLayers(istream: Stream, maxRecursion: int, decMap: map<FormatEnum, Decoder>,
                      detectors: Option<seq<DetectionLibrary>>, enabledFormats: seq<FormatEnum>,
                      detect: DetectFunction)
    returns (acc: seq<FormatId>, currentStream: Stream)
    requires IsInt32(maxRecursion)
    ensures (acc, currentStream) == LayersFrom(istream, maxRecursion, decMap, detectors, enabledFormats, detect)
  {
    ghost var full := LayersFrom(istream, maxRecursion, decMap, detectors, enabledFormats, detect);
    acc := [];
    currentStream := istream;
    var maxRec := maxRecursion;
    var more := true;
    while more
      invariant IsInt32(maxRec)
      invariant more ==> acc + LayersFrom(currentStream, maxRec, decMap, detectors, enabledFormats, detect).0 == full.0
      invariant more ==> LayersFrom(currentStream, maxRec, decMap, detectors, enabledFormats, detect).1 == full.1
      invariant !more ==> acc == full.0 && currentStream == full.1
      decreases if more then 0x8000_0001 - maxRec else 0
    {
      ghost var acc0 := acc;
      var curFormat, next, m;
      curFormat, next, m, more := DetectLayer(currentStream, maxRec, decMap, detectors, enabledFormats, detect);
      acc := acc + [curFormat];
      currentStream, maxRec := next, m;
      if more {
        ghost var rest := LayersFrom(currentStream, maxRec, decMap, detectors, enabledFormats, detect).0;
        assert acc + rest == acc0 + ([curFormat] + rest);
      }
    }
  }

  /**
   * One pass of the do/while: detect, wrap in the decoder of a known format, increment
   * `maxRecursion`, and decide whether `recursionLevel` (always 0) lets the loop go on.
   */
  method DetectLayer(stream: Stream, maxRecursion: int, decMap: map<FormatEnum, Decoder>,
                     detectors: Option<seq<DetectionLibrary>>, enabledFormats: seq<FormatEnum>,
                     detect: DetectFunction)
    returns (curFormat: FormatId, next: Stream, maxRec: int, more: bool)
    requires IsInt32(maxRecursion)
    ensures IsInt32(maxRec)
    ensures more ==> maxRec == maxRecursion + 1
    ensures more ==> LayersFrom(stream, maxRecursion, decMap, detectors, enabledFormats, detect)
                     == ([curFormat] + LayersFrom(next, maxRec, decMap, detectors, enabledFormats, detect).0,
                         LayersFrom(next, maxRec, decMap, detectors, enabledFormats, detect).1)
    ensures !more ==> LayersFrom(stream, maxRecursion, decMap, detectors, enabledFormats, detect) == ([curFormat], next)
  {
    var recursionLevel := 0;
    var resets;
    curFormat, resets := DetectFormatStream(stream, detectors, enabledFormats, detect);
    next := stream;
    if curFormat.format != UNKNOWN && curFormat.format in decMap {
      var decoder := decMap[curFormat.format];
      next := DecoderWrapped(stream, decoder);
    }
    maxRec := Inc32(maxRecursion);
    more := curFormat.format in decMap && recursionLevel <= maxRec;
    if more {
      LayersContinue(stream, maxRecursion, decMap, detectors, enabledFormats, detect, curFormat, next, maxRec);
    } else {
      LayersStop(stream, maxRecursion, decMap, detectors, enabledFormats, detect, curFormat, next);
    }
  }

  class DetectionStrategy {
    const bis: Stream
    const detectionLibraries: Option<seq<DetectionLibrary>>
    const formats: seq<FormatId>

    constructor (detectors: Option<seq<DetectionLibrary>>, decoders: Option<seq<Decoder>>,
                 enabledFormats: seq<FormatEnum>, istream: Stream, maxRecursion: int,
                 detect: DetectFunction)
      requires IsInt32(maxRecursion)
      ensures detectionLibraries == detectors
      ensures formats == Layers(detectors, decoders, enabledFormats, istream, maxRecursion, detect).0
      ensures bis == Layers(detectors, decoders, enabledFormats, istream, maxRecursion, detect).1
    {
      var decMap := GetDecodersMap(decoders);
      var acc, currentStream := DetectLayers(istream, maxRecursion, decMap, detectors, enabledFormats, detect);
      formats := acc;
      bis := currentStream;
      detectionLibraries := detectors;
    }

    function GetFormats(): seq<FormatId> { formats }

    function GetStream(): Stream { bis }
  }

  /**
   * The first layer is the detection on the caller's stream; detection stops
   * after it when the format has no decoder, and otherwise (while the wrapped
   * counter stays non-negative) continues on the stream, wrapped iff the format
   * is known.
   */
  lemma FirstLayer(stream: Stream, maxRecursion: int, decMap: map<FormatEnum, Decoder>,
                   detectors: Option<seq<DetectionLibrary>>, enabledFormats: seq<FormatEnum>,
                   detect: DetectFunction)
    requires IsInt32(maxRecursion)
    ensures var cur := DetectSpec(stream, detectors, enabledFormats, detect).detected;
      var r := LayersFrom(stream, maxRecursion, decMap, detectors, enabledFormats, detect);
      && r.0[0] == cur
      && (cur.format !in decMap ==> r == ([cur], stream))
      && (cur.format in decMap && -1 <= maxRecursion < INT_MAX ==>
            |r.0| >= 2 &&
            r.0[1] == DetectSpec(if Wraps(cur, decMap) then DecoderWrapped(stream, decMap[cur.format]) else stream,
                                 detectors, enabledFormats, detect).detected)
  {
  }

  function CountWrapped(fs: seq<FormatId>, decMap: map<FormatEnum, Decoder>): nat
  {
    if |fs| == 0 then 0 else CountWrapped(fs[..|fs| - 1], decMap) + (if Wraps(fs[|fs| - 1], decMap) then 1 else 0)
  }

  lemma {:induction false} CountWrappedCons(f: FormatId, fs: seq<FormatId>, decMap: map<FormatEnum, Decoder>)
    ensures CountWrapped([f] + fs, decMap) == (if Wraps(f, decMap) then 1 else 0) + CountWrapped(fs, decMap)
    decreases |fs|
  {
    if |fs| > 0 {
      assert ([f] + fs)[..|[f] + fs| - 1] == [f] + fs[..|fs| - 1];
      CountWrappedCons(f, fs[..|fs| - 1], decMap);
    }
  }

  /** The final stream is the input wrapped once for every layer whose format is known and has a decoder. */
  lemma {:induction false} FinalStreamDepth(stream: Stream, maxRecursion: int, decMap: map<FormatEnum, Decoder>,
                                            detectors: Option<seq<DetectionLibrary>>, enabledFormats: seq<FormatEnum>,
                                            detect: DetectFunction)
    requires IsInt32(maxRecursion)
    ensures var r := LayersFrom(stream, maxRecursion, decMap, detectors, enabledFormats, detect);
      Depth(r.1) == Depth(stream) + CountWrapped(r.0, decMap)
    decreases 0x8000_0000 - maxRecursion
  {
    var cur := DetectSpec(stream, detectors, enabledFormats, detect).detected;
    var next := if Wraps(cur, decMap) then DecoderWrapped(stream, decMap[cur.format]) else stream;
    var m := Inc32(maxRecursion);
    CountWrappedCons(cur, [], decMap);
    if cur.format in decMap && 0 <= m {
      var rest := LayersFrom(next, m, decMap, detectors, enabledFormats, detect);
      FinalStreamDepth(next, m, decMap, detectors, enabledFormats, detect);
      CountWrappedCons(cur, rest.0, decMap);
    }
  }

  /**
   * A decoder whose output is always detected as its own format again: the
   * layer loop is NOT stopped after maxRecursion + 1 layers, but runs until the
   * incremented `maxRecursion` wraps, giving 2^31 - maxRecursion layers.
   */
  lemma {:induction false} SelfDecodingRunsUntilWrap(stream: Stream, maxRecursion: int, decMap: map<FormatEnum, Decoder>,
                                                     detectors: Option<seq<DetectionLibrary>>, enabledFormats: seq<FormatEnum>,
                                                     detect: DetectFunction, f: FormatEnum)
    requires 0 <= maxRecursion <= INT_MAX
    requires f in decMap && f != UNKNOWN
    requires forall s :: DetectSpec(s, detectors, enabledFormats, detect).detected.format == f
    ensures |LayersFrom(stream, maxRecursion, decMap, detectors, enabledFormats, detect).0| == 0x8000_0000 - maxRecursion
    decreases 0x8000_0000 - maxRecursion
  {
    var cur := DetectSpec(stream, detectors, enabledFormats, detect).detected;
    var next := DecoderWrapped(stream, decMap[cur.format]);
    if maxRecursion < INT_MAX {
      SelfDecodingRunsUntilWrap(next, maxRecursion + 1, decMap, detectors, enabledFormats, detect, f);
    }
  }

  // The do/while as its condition evidently means it: the increment applied to
  // `recursionLevel` rather than `maxRecursion`. The level is counted without
  // 32-bit wrap-around.

  /** The layers the intended loop detects, from `recursionLevel` layers already taken. */
  function LayersIntended(stream: Stream, recursionLevel: nat, maxRecursion: int, decMap: map<FormatEnum, Decoder>,
                          detectors: Option<seq<DetectionLibrary>>, enabledFormats: seq<FormatEnum>,
                          detect: DetectFunction): (r: (seq<FormatId>, Stream))
    ensures |r.0| >= 1
    decreases maxRecursion - recursionLevel
  {
    var curFormat := DetectSpec(stream, detectors, enabledFormats, detect).detected;
    var next := if Wraps(curFormat, decMap) then DecoderWrapped(stream, decMap[curFormat.format]) else stream;
    var level := recursionLevel + 1;
    if curFormat.format in decMap && level <= maxRecursion then
      var rest := LayersIntended(next, level, maxRecursion, decMap, detectors, enabledFormats, detect);
      ([curFormat] + rest.0, rest.1)
    else ([curFormat], next)
  }

  /** From level `l`, the intended loop takes at most `maxRecursion - l + 1` layers, and always one. */
  lemma {:induction false} LayersIntendedBound(stream: Stream, recursionLevel: nat, maxRecursion: int,
                                               decMap: map<FormatEnum, Decoder>,
                                               detectors: Option<seq<DetectionLibrary>>, enabledFormats: seq<FormatEnum>,
                                               detect: DetectFunction)
    ensures |LayersIntended(stream, recursionLevel, maxRecursion, decMap, detectors, enabledFormats, detect).0|
            <= if recursionLevel < maxRecursion then maxRecursion - recursionLevel + 1 else 1
    decreases maxRecursion - recursionLevel
  {
    var curFormat := DetectSpec(stream, detectors, enabledFormats, detect).detected;
    var next := if Wraps(curFormat, decMap) then DecoderWrapped(stream, decMap[curFormat.format]) else stream;
    if curFormat.format in decMap && recursionLevel + 1 <= maxRecursion {
      LayersIntendedBound(next, recursionLevel + 1, maxRecursion, decMap, detectors, enabledFormats, detect);
    }
  }

  /** The constructor with the intended loop: at most maxRecursion + 1 layers (one when maxRecursion <= 0). */
  lemma IntendedLayersBounded(detectors: Option<seq<DetectionLibrary>>, decoders: Option<seq<Decoder>>,
                              enabledFormats: seq<FormatEnum>, istream: Stream, maxRecursion: int,
                              detect: DetectFunction)
    ensures |LayersIntended(istream, 0, maxRecursion, DecodersMap(decoders), detectors, enabledFormats, detect).0|
            <= if maxRecursion > 0 then maxRecursion + 1 else 1
  {
    LayersIntendedBound(istream, 0, maxRecursion, DecodersMap(decoders), detectors, enabledFormats, detect);
  }

  /**
   * With a decoder whose output is always its own format again, the intended
   * loop stops after exactly maxRecursion - l + 1 layers from level `l`, where
   * the loop as written runs until its counter wraps.
   */
  lemma {:induction false} SelfDecodingIntendedStops(stream: Stream, recursionLevel: nat, maxRecursion: int,
                                                     decMap: map<FormatEnum, Decoder>,
                                                     detectors: Option<seq<DetectionLibrary>>, enabledFormats: seq<FormatEnum>,
                                                     detect: DetectFunction, f: FormatEnum)
    requires f in decMap
    requires forall s :: DetectSpec(s, detectors, enabledFormats, detect).detected.format == f
    ensures |LayersIntended(stream, recursionLevel, maxRecursion, decMap, detectors, enabledFormats, detect).0|
            == if recursionLevel < maxRecursion then maxRecursion - recursionLevel + 1 else 1
    decreases maxRecursion - recursionLevel
  {
    var curFormat := DetectSpec(stream, detectors, enabledFormats, detect).detected;
    var next := if Wraps(curFormat, decMap) then DecoderWrapped(stream, decMap[curFormat.format]) else stream;
    if recursionLevel + 1 <= maxRecursion {
      SelfDecodingIntendedStops(next, recursionLevel + 1, maxRecursion, decMap, detectors, enabledFormats, detect, f);
    }
  }
}
