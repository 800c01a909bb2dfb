/**
 * com.gc.iotools.fmt.GuessInputStream (droid-integration branch): the format-set
 * queries every GuessInputStream answers, the wrapper-or-impl dispatch of
 * `getInstance`, and the global default-decoder registry.
 */
module GuessInputStreamModule {
  import opened Wrappers
  import opened FmtBase

  /**
   * A GuessInputStream as its final methods see it: the unmodifiable collection
   * of enabled formats, and what the subclass's `identify()` returns.
   */
  datatype GuessInputStream = GuessInputStream(enabledFormats: seq<FormatEnum>, identified: seq<FormatId>)

  /** The stream handed to `getInstance`: a GuessInputStream, or any other InputStream. */
  datatype InputStream = Plain(name: string) | OfGuess(gis: GuessInputStream)

  /** The detectors the configuration `getInstance` builds, and any others a caller passes. */
  datatype Detector =
    | StreamDetectorImpl(configFile: string, clazz: Option<string>)
    | DroidDetectorImpl(clazz: Option<string>, signatureFile: string)
    | OtherDetector(name: string)

  /**
   * What `getInstance` constructs. The subclasses GuessInputStreamWrapper and
   * GuessInputStreamImpl are not part of this model: they are recorded with
   * their constructor arguments.
   */
  datatype Instance =
    | Wrapper(wrapped: GuessInputStream, formats: seq<FormatEnum>)
    | Impl(detectors: Option<seq<Detector>>, decoders: Option<seq<Decoder>>,
           enabled: Option<seq<FormatEnum>>, source: InputStream)

  /** `canDetect`: null is rejected, otherwise membership in the enabled formats. */
  function CanDetect(g: GuessInputStream, formatEnum: Option<FormatEnum>): (r: Result<bool>)
    ensures r.Err? <==> formatEnum.None?
    ensures r.Err? ==> r.error == IllegalArgument
    ensures r.Ok? ==> (r.value <==> exists i :: 0 <= i < |g.enabledFormats| && g.enabledFormats[i] == formatEnum.value)
  {
    match formatEnum
    case None => Err(IllegalArgument)
    case Some(f) => Ok(f in g.enabledFormats)
  }

  /** Every format of `fs` is enabled in `g`. */
  predicate AllEnabled(g: GuessInputStream, fs: seq<FormatEnum>)
  {
    forall i :: 0 <= i < |fs| ==> fs[i] in g.enabledFormats
  }

  /** The value `canDetectAll` returns or the exception it throws. */
  function CanDetectAllSpec(g: GuessInputStream, formatEnums: Option<seq<FormatEnum>>): Result<bool>
  {
    match formatEnums
    case None => Err(IllegalArgument)
    case Some(fs) => Ok(AllEnabled(g, fs))
  }

  /** `canDetectAll`: an AND-accumulating loop that stops at the first format not enabled. */
  method CanDetectAll(g: GuessInputStream, formatEnums: Option<seq<FormatEnum>>) returns (r: Result<bool>)
    ensures r.Err? <==> formatEnums.None?
    ensures r.Ok? ==> (r.value <==> forall i :: 0 <= i < |formatEnums.value| ==> formatEnums.value[i] in g.enabledFormats)
    ensures r == CanDetectAllSpec(g, formatEnums)
  {
    if formatEnums.None? {
      return Err(IllegalArgument);
    }
    var fs := formatEnums.value;
    var result := true;
    var i := 0;
    while i < |fs| && result
      invariant 0 <= i <= |fs|
      invariant result <==> forall k :: 0 <= k < i ==> fs[k] in g.enabledFormats
      invariant !result ==> !AllEnabled(g, fs)
    {
      result := result && fs[i] in g.enabledFormats;
      i := i + 1;
    }
    r := Ok(result);
  }

  /** An empty array is always detectable. */
  lemma CanDetectAllEmpty(g: GuessInputStream)
    ensures CanDetectAllSpec(g, Some([])) == Ok(true)
  {
  }

  /** On a one-element array `canDetectAll` agrees with `canDetect`. */
  lemma CanDetectAllSingleton(g: GuessInputStream, f: FormatEnum)
    ensures CanDetectAllSpec(g, Some([f])) == CanDetect(g, Some(f))
  {
    assert [f][0] == f;
  }

  /** `canDetectAll` of a concatenation is the conjunction of the parts. */
  lemma {:induction false} CanDetectAllConcat(g: GuessInputStream, a: seq<FormatEnum>, b: seq<FormatEnum>)
    ensures AllEnabled(g, a + b) <==> AllEnabled(g, a) && AllEnabled(g, b)
  {
    if AllEnabled(g, a) && AllEnabled(g, b) {
      forall i | 0 <= i < |a + b| ensures (a + b)[i] in g.enabledFormats {
        if i < |a| { assert (a + b)[i] == a[i]; } else { assert (a + b)[i] == b[i - |a|]; }
      }
    }
    if AllEnabled(g, a + b) {
      forall i | 0 <= i < |a| ensures a[i] in g.enabledFormats { assert (a + b)[i] == a[i]; }
      forall i | 0 <= i < |b| ensures b[i] in g.enabledFormats { assert (a + b)[|a| + i] == b[i]; }
    }
  }

  /**
   * The 4-argument `getInstance`: a GuessInputStream that can detect every
   * requested format is wrapped, any other stream gets a new impl. A null format
   * array given with a GuessInputStream makes `canDetectAll` throw.
   */
  function GetInstance(istream: InputStream, enabledFormats: Option<seq<FormatEnum>>,
                       detectors: Option<seq<Detector>>, decoders: Option<seq<Decoder>>): (r: Result<Instance>)
    ensures r.Err? <==> istream.OfGuess? && enabledFormats.None?
    ensures r.Ok? ==> (r.value.Wrapper? <==> istream.OfGuess? && AllEnabled(istream.gis, enabledFormats.value))
    ensures r.Ok? && r.value.Wrapper? ==> r.value == Wrapper(istream.gis, enabledFormats.value)
    ensures r.Ok? && r.value.Impl? ==> r.value == Impl(detectors, decoders, enabledFormats, istream)
  {
    match istream
    case OfGuess(gis) =>
      var can :- CanDetectAllSpec(gis, enabledFormats);
      if can then Ok(Wrapper(gis, enabledFormats.value))
      else Ok(Impl(detectors, decoders, enabledFormats, istream))
    case Plain(_) => Ok(Impl(detectors, decoders, enabledFormats, istream))
  }

  /** Re-wrapping for a subset of the enabled formats always reuses the stream. */
  lemma GetInstanceReusesForSubset(gis: GuessInputStream, fs: seq<FormatEnum>,
                                   detectors: Option<seq<Detector>>, decoders: Option<seq<Decoder>>)
    requires forall i :: 0 <= i < |fs| ==> fs[i] in gis.enabledFormats
    ensures GetInstance(OfGuess(gis), Some(fs), detectors, decoders) == Ok(Wrapper(gis, fs))
  {
  }

  /** `getFormatId`: `identify()[0]`, which throws on an empty result. */
  function GetFormatId(g: GuessInputStream): (r: Result<FormatId>)
    ensures r.Ok? <==> |g.identified| > 0
    ensures r.Ok? ==> r.value == g.identified[0]
    ensures r.Err? ==> r.error == IndexOutOfBounds
  {
    if |g.identified| == 0 then Err(IndexOutOfBounds) else Ok(g.identified[0])
  }

  /** `getFormat`: the format of `getFormatId()`. */
  function GetFormat(g: GuessInputStream): (r: Result<FormatEnum>)
    ensures r.Ok? <==> |g.identified| > 0
    ensures r.Ok? ==> r.value == g.identified[0].format
  {
    var id :- GetFormatId(g);
    Ok(id.format)
  }

  /** `getFormats`: the formats of `identify()`, in the same order. */
  method GetFormats(g: GuessInputStream) returns (result: seq<FormatEnum>)
    ensures |result| == |g.identified|
    ensures forall i :: 0 <= i < |result| ==> result[i] == g.identified[i].format
    ensures |result| > 0 ==> GetFormat(g) == Ok(result[0])
  {
    var formats := g.identified;
    result := [];
    for i := 0 to |formats|
      invariant |result| == i
      invariant forall k :: 0 <= k < i ==> result[k] == formats[k].format
    {
      result := result + [formats[i].format];
    }
  }

  /** The decoders of an array that are not null, in order. */
  function NonNull(ds: seq<Option<Decoder>>): (r: seq<Decoder>)
    ensures forall d :: d in r <==> Some(d) in ds
  {
    if |ds| == 0 then []
    else NonNull(ds[..|ds| - 1]) + (match ds[|ds| - 1] case Some(d) => [d] case None => [])
  }

  /** Every value of a decoder map is filed under its own format. */
  predicate FiledByFormat(m: map<FormatEnum, Decoder>)
  {
    forall f :: f in m ==> m[f].format == f
  }

  /** The global DEFAULT_DECODERS map. */
  class DecoderRegistry {
    var decoders: map<FormatEnum, Decoder>

    ghost predicate Valid()
      reads this
    {
      FiledByFormat(decoders)
    }

    constructor ()
      ensures Valid() && decoders == map[]
    {
      decoders := map[];
    }

    /** `addDefaultDecoder`: null is rejected; otherwise the decoder replaces its format's entry. */
    method AddDefaultDecoder(decoder: Option<Decoder>) returns (o: Outcome)
      requires Valid()
      modifies this
      ensures Valid()
      ensures decoder.None? ==> o == Fail(IllegalArgument) && decoders == old(decoders)
      ensures decoder.Some? ==> o == Done && decoders == old(decoders)[decoder.value.format := decoder.value]
    {
      if decoder.None? {
        return Fail(IllegalArgument);
      }
      var d := decoder.value;
      decoders := decoders[d.format := d];
      o := Done;
    }

    /** `addDefaultDecoders`: a null array is rejected; null elements are skipped. */
    method AddDefaultDecoders(ds: Option<seq<Option<Decoder>>>) returns (o: Outcome)
      requires Valid()
      modifies this
      ensures Valid()
      ensures ds.None? ==> o == Fail(IllegalArgument) && decoders == old(decoders)
      ensures ds.Some? ==> o == Done && decoders == PutAll(old(decoders), NonNull(ds.value))
      ensures ds.Some? ==> decoders.Keys == old(decoders).Keys + set d | d in NonNull(ds.value) :: d.format
    {
      if ds.None? {
        return Fail(IllegalArgument);
      }
      var arr := ds.value;
      for i := 0 to |arr|
        invariant decoders == PutAll(old(decoders), NonNull(arr[..i]))
      {
        assert arr[..i + 1][..i] == arr[..i];
        ghost var before := NonNull(arr[..i]);
        match arr[i]
        case Some(d) =>
          assert NonNull(arr[..i + 1]) == before + [d];
          assert (before + [d])[..|before|] == before;
          decoders := decoders[d.format := d];
        case None =>
          assert NonNull(arr[..i + 1]) == before;
      }
      assert arr[..|arr|] == arr;
      PutAllFilesByFormat(old(decoders), NonNull(arr));
      PutAllKeys(old(decoders), NonNull(arr));
      o := Done;
    }

    /** The instance initializer run by every GuessInputStream: registers the Base64 decoder. */
    method InstanceInitializer()
      requires Valid()
      modifies this
      ensures Valid()
      ensures decoders == old(decoders)[BASE64 := Base64Decoder]
    {
      decoders := decoders[BASE64 := Base64Decoder];
    }

    /**
     * The 4-argument `getInstance` together with its effect on the registry: a
     * successful call constructs a GuessInputStream, whose instance initializer
     * registers the Base64 decoder; the failing call constructs nothing.
     */
    method NewInstance(istream: InputStream, enabledFormats: Option<seq<FormatEnum>>,
                       detectors: Option<seq<Detector>>, decoderArray: Option<seq<Decoder>>)
      returns (r: Result<Instance>)
      requires Valid()
      modifies this
      ensures Valid()
      ensures r == GetInstance(istream, enabledFormats, detectors, decoderArray)
      ensures r.Ok? ==> decoders == old(decoders)[BASE64 := Base64Decoder]
      ensures r.Err? ==> decoders == old(decoders)
    {
      r := GetInstance(istream, enabledFormats, detectors, decoderArray);
      if r.Ok? {
        InstanceInitializer();
      }
    }

    /**
     * The configuration `getInstance(istream, clazz, droidSignatureFile,
     * streamConfigFile)`: rejects two null file names, builds a detector per
     * non-null file and hands them with the registry's decoders to the
     * 4-argument `getInstance` with a null format array; the stream it builds
     * then registers the Base64 decoder. A HashSet and a map's values are
     * unordered, so only the elements of the arrays are promised.
     */
    method GetConfiguredInstance(istream: InputStream, clazz: Option<string>,
                                 droidSignatureFile: Option<string>, streamConfigFile: Option<string>)
      returns (r: Result<Instance>)
      requires Valid()
      modifies this
      ensures Valid()
      ensures r.Ok? ==> decoders == old(decoders)[BASE64 := Base64Decoder]
      ensures r.Err? ==> decoders == old(decoders)
      ensures droidSignatureFile.None? && streamConfigFile.None? ==> r == Err(IllegalArgument)
      ensures (droidSignatureFile.Some? || streamConfigFile.Some?) && istream.OfGuess? ==> r == Err(IllegalArgument)
      ensures (droidSignatureFile.Some? || streamConfigFile.Some?) && istream.Plain? ==>
        && r.Ok? && r.value.Impl? && r.value.enabled.None? && r.value.source == istream
        && r.value.detectors.Some? && r.value.decoders.Some?
        && (set d | d in r.value.detectors.value)
           == (if streamConfigFile.Some? then {StreamDetectorImpl(streamConfigFile.value, clazz)} else {})
            + (if droidSignatureFile.Some? then {DroidDetectorImpl(clazz, droidSignatureFile.value)} else {})
        && (set d | d in r.value.decoders.value) == old(decoders).Values
    {
      if droidSignatureFile.None? && streamConfigFile.None? {
        return Err(IllegalArgument);
      }
      var detectors: set<Detector> := {};
      if streamConfigFile.Some? {
        detectors := detectors + {StreamDetectorImpl(streamConfigFile.value, clazz)};
      }
      if droidSignatureFile.Some? {
        detectors := detectors + {DroidDetectorImpl(clazz, droidSignatureFile.value)};
      }
      var detectorArray := SetToSeq(detectors);
      var decoderArray := MapValuesToSeq(decoders);
      r := NewInstance(istream, None, Some(detectorArray), Some(decoderArray));
    }
  }

  /** `collection.toArray()`: the elements of a set, in some order. */
  method SetToSeq<T>(s: set<T>) returns (r: seq<T>)
    ensures (set x | x in r) == s
    ensures |r| == |s|
  {
    r := [];
    var rest := s;
    while rest != {}
      invariant rest !! set x | x in r
      invariant (set x | x in r) + rest == s
      invariant |r| + |rest| == |s|
      invariant forall i, j :: 0 <= i < j < |r| ==> r[i] != r[j]
      decreases |rest|
    {
      var x :| x in rest;
      r := r + [x];
      rest := rest - {x};
    }
  }

  /** `map.values().toArray()`: every value of the map, in some order. */
  method MapValuesToSeq(m: map<FormatEnum, Decoder>) returns (r: seq<Decoder>)
    ensures (set d | d in r) == m.Values
  {
    r := [];
    var rest := m.Keys;
    while rest != {}
      invariant rest <= m.Keys
      invariant (set d | d in r) == set k | k in m.Keys - rest :: m[k]
      decreases |rest|
    {
      var k :| k in rest;
      ghost var done := m.Keys - rest;
      assert m.Keys - (rest - {k}) == done + {k};
      assert (set j | j in done + {k} :: m[j]) == (set j | j in done :: m[j]) + {m[k]};
      assert (set d | d in r + [m[k]]) == (set d | d in r) + {m[k]};
      r := r + [m[k]];
      rest := rest - {k};
    }
  }
}
