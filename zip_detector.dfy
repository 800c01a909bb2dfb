/** org.iotools.formats.detectors.ZipDetectorModule: recognises the two-byte ZIP header. */
module ZipDetectorModule {
  import opened Wrappers
  import opened FmtBase

  /** "PK".getBytes(): 0x50 0x4B. */
  const ZIP_HEADER: seq<byte> := [0x50, 0x4B]

  /** What the AbstractFormatDetector super-constructor records: header length and format. */
  datatype FormatDetector = FormatDetector(headerLength: nat, format: FormatEnum)

  function NewZipDetectorModule(): (d: FormatDetector)
    ensures d.headerLength == 2 && d.format == ZIP
  {
    FormatDetector(|ZIP_HEADER|, ZIP)
  }

  /**
   * `detect(readedBytes)`: `Arrays.equals(readedBytes, "PK".getBytes())`, which is
   * false for null and for any array whose length is not exactly two.
   */
  function Detect(readedBytes: Option<seq<byte>>): (r: bool)
    ensures r <==> readedBytes.Some? && |readedBytes.value| == 2
                   && readedBytes.value[0] == 0x50 && readedBytes.value[1] == 0x4B
  {
    ArraysEquals(readedBytes, Some(ZIP_HEADER))
  }

  /** java.util.Arrays.equals: both null, or equal length and equal elements. */
  predicate ArraysEquals(a: Option<seq<byte>>, b: Option<seq<byte>>) {
    if a.None? || b.None? then a.None? && b.None?
    else |a.value| == |b.value| && forall i :: 0 <= i < |a.value| ==> a.value[i] == b.value[i]
  }

  /** A buffer that starts with "PK" but has more bytes is rejected. */
  lemma LongerHeaderRejected(b: seq<byte>)
    requires |b| > 2 && b[..2] == ZIP_HEADER
    ensures !Detect(Some(b))
  {
  }

  /** Null and empty input are rejected. */
  lemma NullAndEmptyRejected()
    ensures !Detect(None) && !Detect(Some([]))
  {
  }
}
