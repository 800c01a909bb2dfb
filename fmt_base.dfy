/**
 * The value types of com.gc.iotools.fmt.base: format tags, format identifiers,
 * the immutable FormatInfo record and the Decoder capability.
 */
module FmtBase {
  import opened Wrappers

  /** A member of the open FormatEnum space, identified by its constant name. */
  datatype FormatEnum = FormatEnum(name: string)

  const UNKNOWN := FormatEnum("UNKNOWN")
  const ZIP := FormatEnum("ZIP")
  const BASE64 := FormatEnum("BASE64")

  /** FormatId: a format tag and a free-form version, which may be null. */
  datatype FormatId = FormatId(format: FormatEnum, version: Option<string>)

  /**
   * FormatInfo: every field is final, so a datatype value models it exactly;
   * the getters are projections of the constructor arguments.
   */
  datatype FormatInfo = FormatInfo(formatId: FormatId, mimeType: string, description: string) {
    function GetFormat(): FormatEnum { formatId.format }
    function GetFormatId(): FormatId { formatId }
    function GetMimeType(): string { mimeType }
    function GetVersion(): Option<string> { formatId.version }
    function GetDescription(): string { description }
  }

  /** Reading a FormatInfo back gives exactly what it was built from. */
  lemma FormatInfoGetters(id: FormatId, mime: string, desc: string)
    ensures FormatInfo(id, mime, desc).GetFormatId() == id
    ensures FormatInfo(id, mime, desc).GetMimeType() == mime
    ensures FormatInfo(id, mime, desc).GetDescription() == desc
    ensures FormatInfo(id, mime, desc).GetFormat() == id.format
    ensures FormatInfo(id, mime, desc).GetVersion() == id.version
  {
  }

  /**
   * A Decoder (com.gc.iotools.fmt.base.Decoder) as far as the orchestration
   * sees it: the one format it decodes, and a name that tells decoders apart.
   * What `decode` produces is not modelled.
   */
  datatype Decoder = Decoder(name: string, format: FormatEnum)

  const Base64Decoder := Decoder("Base64Decoder", BASE64)

  /** `map.put(d.getFormat(), d)` for each decoder in order. */
  function PutAll(m: map<FormatEnum, Decoder>, ds: seq<Decoder>): (r: map<FormatEnum, Decoder>)
  {
    if |ds| == 0 then m
    else var last := ds[|ds| - 1]; PutAll(m, ds[..|ds| - 1])[last.format := last]
  }

  /** The keys after putting `ds` into `m` are the old keys plus every decoder's format. */
  lemma {:induction false} PutAllKeys(m: map<FormatEnum, Decoder>, ds: seq<Decoder>)
    ensures PutAll(m, ds).Keys == m.Keys + set d | d in ds :: d.format
  {
    if |ds| > 0 {
      var init, last := ds[..|ds| - 1], ds[|ds| - 1];
      PutAllKeys(m, init);
      assert ds == init + [last];
      assert (set d | d in ds :: d.format) == (set d | d in init :: d.format) + {last.format};
    }
  }

  /** A key no decoder in `ds` declares keeps its old value. */
  lemma {:induction false} PutAllKeepsOthers(m: map<FormatEnum, Decoder>, ds: seq<Decoder>, f: FormatEnum)
    requires f in m
    requires forall j :: 0 <= j < |ds| ==> ds[j].format != f
    ensures f in PutAll(m, ds) && PutAll(m, ds)[f] == m[f]
  {
    if |ds| > 0 {
      PutAllKeepsOthers(m, ds[..|ds| - 1], f);
    }
  }

  /** A decoder that no LATER decoder of the same format follows wins its key. */
  lemma {:induction false} PutAllLaterWins(m: map<FormatEnum, Decoder>, ds: seq<Decoder>, j: nat)
    requires j < |ds|
    requires forall k :: j < k < |ds| ==> ds[k].format != ds[j].format
    ensures ds[j].format in PutAll(m, ds) && PutAll(m, ds)[ds[j].format] == ds[j]
  {
    var init := ds[..|ds| - 1];
    if j < |ds| - 1 {
      assert init[j] == ds[j];
      forall k | j < k < |init| ensures init[k].format != init[j].format {
        assert init[k] == ds[k];
      }
      PutAllLaterWins(m, init, j);
    }
  }

  /** Every value a decoder map built by PutAll holds is filed under its own format. */
  lemma {:induction false} PutAllFilesByFormat(m: map<FormatEnum, Decoder>, ds: seq<Decoder>)
    requires forall f :: f in m ==> m[f].format == f
    ensures forall f :: f in PutAll(m, ds) ==> PutAll(m, ds)[f].format == f
  {
    if |ds| > 0 {
      PutAllFilesByFormat(m, ds[..|ds| - 1]);
    }
  }
}
