/**
 * The earlier com.gc.iotools.stream.is.RandomAccessInputStream of easystream.
 *
 * Like the 1.2.1 stream it copies the bytes it reads at the frontier into a storage, but
 * `mark` and `reset` act on the source's position (through the source's own mark and
 * reset) and `seek` moves the cursor anywhere. A cursor ahead of the source is served by
 * reading the source directly, without storing what was read. The source is an in-memory
 * byte sequence with java.io.ByteArrayInputStream semantics (its mark and reset always
 * succeed), so its position is always `sourcePosition`.
 */
module RandomAccessEarly {
  import opened Wrappers
  import RA = RandomAccess121

  /** Threshold the one-argument constructor passes on (and the threshold constructor ignores). */
  const DEFAULT_THRESHOLD: int := 32768

  /** The Storage the stream caches into: what was put, and a read cursor that `seek` places anywhere. */
  datatype Storage = Storage(contents: seq<byte>, cursor: int)

  /** `new MemoryStorage()`: empty. */
  function MemoryStorage(): (st: Storage)
    ensures st.contents == [] && st.cursor == 0
  {
    Storage([], 0)
  }

  /** `Storage.get(b, off, len)`: up to `len` bytes from the cursor, none outside the stored bytes. */
  function StorageGet(st: Storage, len: nat): (r: seq<byte>)
    ensures |r| <= len
  {
    if 0 <= st.cursor < |st.contents| then
      st.contents[st.cursor .. st.cursor + RA.Min(len, |st.contents| - st.cursor)]
    else []
  }

  /** The fields the stream updates. */
  datatype EState = EState(sourcePosition: nat, resettableIsPosition: int, markPosition: nat, storage: Storage)

  /** A call's result (value or exception) and the state it leaves behind. */
  datatype Step<T> = Step(result: Result<T>, state: EState)

  function Initial(storage: Storage): EState
  {
    EState(0, 0, 0, storage)
  }

  /**
   * `innerRead(b, off, len)`: at the frontier from the source, storing what was read;
   * behind it from the storage; ahead of it from the source, at most up to the cursor,
   * advancing only `sourcePosition` and storing nothing.
   */
  function ReadStep(source: seq<byte>, s: EState, len: nat): (r: Step<RA.ReadResult>)
    ensures r.result.Err? ==> r.state == s
    ensures r.result.Ok? && r.result.value.Bytes? ==> |r.result.value.bytes| <= len
    ensures r.result.Ok? && r.result.value.Bytes? && len > 0 ==> |r.result.value.bytes| > 0
    ensures r.result.Ok? && r.result.value.EndOfStream? ==> r.state == s
    ensures r.state.sourcePosition >= s.sourcePosition
    ensures r.state.markPosition == s.markPosition
  {
    var sp := s.sourcePosition;
    var rp := s.resettableIsPosition;
    if sp == rp then
      if sp >= |source| then Step(Ok(RA.EndOfStream), s)
      else
        var b := source[sp .. sp + RA.Min(len, |source| - sp)];
        if |b| > 0 then
          Step(Ok(RA.Bytes(b)), s.(sourcePosition := sp + |b|, resettableIsPosition := rp + |b|,
                                   storage := s.storage.(contents := s.storage.contents + b)))
        else Step(Ok(RA.Bytes(b)), s)
    else if rp < sp then
      var b := StorageGet(s.storage, RA.Min(len, sp - rp));
      if |b| == 0 then Step(Err(IllegalState), s)
      else Step(Ok(RA.Bytes(b)), s.(resettableIsPosition := rp + |b|,
                                    storage := s.storage.(cursor := s.storage.cursor + |b|)))
    else
      if sp >= |source| then Step(Ok(RA.EndOfStream), s)
      else
        var b := source[sp .. sp + RA.Min(RA.Min(len, rp - sp), |source| - sp)];
        Step(Ok(RA.Bytes(b)), s.(sourcePosition := sp + |b|))
  }

  /** Repeated reads until `n` more bytes are collected or the stream ends; `got` is what came before. */
  function ReadFrom(source: seq<byte>, s: EState, n: nat, got: seq<byte>): Step<seq<byte>>
    decreases n
  {
    if n == 0 then Step(Ok(got), s)
    else
      var st := ReadStep(source, s, n);
      if st.result.Err? then Step(Err(st.result.error), st.state)
      else if st.result.value.EndOfStream? then Step(Ok(got), st.state)
      else ReadFrom(source, st.state, n - |st.result.value.bytes|, got + st.result.value.bytes)
  }

  /** `mark(readlimit)`: the source is marked and its position, not the cursor, is recorded. */
  function MarkStep(s: EState): EState
  {
    s.(markPosition := s.sourcePosition)
  }

  /** `reset()`: the source is reset and `sourcePosition` restored; the cursor stays. */
  function ResetStep(s: EState): EState
  {
    s.(sourcePosition := s.markPosition)
  }

  /** `seek(position)`: cursor and storage cursor set to `position`, whatever it is. */
  function SeekStep(s: EState, position: int): EState
  {
    s.(resettableIsPosition := position, storage := s.storage.(cursor := position))
  }

  /** The three branches of `innerRead`, for every state. */
  lemma ReadStepBranches(source: seq<byte>, s: EState, len: nat)
    ensures var r := ReadStep(source, s, len);
      var sp := s.sourcePosition;
      var rp := s.resettableIsPosition;
      (sp == rp && r.result.Ok? && r.result.value.Bytes? && |r.result.value.bytes| > 0 ==>
          var n := |r.result.value.bytes|;
          r.state.sourcePosition == sp + n && r.state.resettableIsPosition == rp + n
          && r.state.storage.contents == s.storage.contents + r.result.value.bytes
          && r.result.value.bytes == source[sp .. sp + n])
      && (rp < sp ==>
          (r.result.Err? <==> StorageGet(s.storage, RA.Min(len, sp - rp)) == [])
          && (r.result.Ok? ==>
                r.result.value == RA.Bytes(StorageGet(s.storage, RA.Min(len, sp - rp)))
                && |r.result.value.bytes| <= sp - rp
                && r.state.sourcePosition == sp
                && r.state.resettableIsPosition == rp + |r.result.value.bytes|))
      && (rp > sp ==>
          r.result.Ok? && r.state.resettableIsPosition == rp && r.state.storage == s.storage
          && (r.result.value.Bytes? ==>
                var n := |r.result.value.bytes|;
                n <= rp - sp && r.state.sourcePosition == sp + n && r.result.value.bytes == source[sp .. sp + n]))
  {
  }

  /**
   * At or ahead of the frontier, reads return the source's bytes from `sourcePosition` on and
   * never consult the storage; only the bytes read at the frontier (from the cursor on) are
   * stored, so those between the old `sourcePosition` and the cursor are not.
   */
  lemma {:induction false} ReadFromAhead(source: seq<byte>, s: EState, n: nat, got: seq<byte>)
    requires s.sourcePosition <= |source| && s.sourcePosition <= s.resettableIsPosition
    ensures AheadAsSource(source, s, n, got, ReadFrom(source, s, n, got))
    decreases n
  {
    var sp := s.sourcePosition;
    if n == 0 || sp == |source| {
      RA.EmptySlice(source, sp, got);
      RA.EmptySlice(source, sp, s.storage.contents);
    } else {
      var st := ReadStep(source, s, n);
      ReadStepBranches(source, s, n);
      var b := st.result.value.bytes;
      var t := st.state;
      assert ReadFrom(source, s, n, got) == ReadFrom(source, t, n - |b|, got + b);
      ReadFromAhead(source, t, n - |b|, got + b);
      AheadStep(source, s, t, n, got, b, ReadFrom(source, t, n - |b|, got + b));
    }
  }

  /**
   * `r` is what reading `n` more bytes after `got` from `s`, at or ahead of the frontier,
   * should give: the source's bytes from `sourcePosition` on, with only those from the cursor
   * on appended to the storage, whose cursor and the mark stay.
   */
  predicate AheadAsSource(source: seq<byte>, s: EState, n: nat, got: seq<byte>, r: Step<seq<byte>>)
  {
    var e := RA.Min(s.sourcePosition + n, |source|);
    s.sourcePosition <= e
    && r.result == Ok(got + source[s.sourcePosition .. e])
    && r.state.sourcePosition == e
    && r.state.resettableIsPosition == (if s.resettableIsPosition < e then e else s.resettableIsPosition)
    && RA.Min(s.resettableIsPosition, e) >= s.sourcePosition
    && r.state.storage.cursor == s.storage.cursor
    && r.state.storage.contents == s.storage.contents + source[RA.Min(s.resettableIsPosition, e) .. e]
    && r.state.markPosition == s.markPosition
  }

  /** One read of the `b` bytes at `sourcePosition`, followed by reads as the source says. */
  lemma AheadStep(source: seq<byte>, s: EState, t: EState, n: nat, got: seq<byte>, b: seq<byte>,
                  r: Step<seq<byte>>)
    requires s.sourcePosition < |source| && s.sourcePosition <= s.resettableIsPosition
    requires 0 < |b| <= n && t.sourcePosition == s.sourcePosition + |b| <= |source|
    requires b == source[s.sourcePosition .. t.sourcePosition]
    requires s.sourcePosition == s.resettableIsPosition ==>
               t.resettableIsPosition == t.sourcePosition && t.storage.cursor == s.storage.cursor
               && t.storage.contents == s.storage.contents + b
    requires s.sourcePosition < s.resettableIsPosition ==>
               t.sourcePosition <= s.resettableIsPosition && t.resettableIsPosition == s.resettableIsPosition
               && t.storage == s.storage
    requires t.markPosition == s.markPosition
    requires AheadAsSource(source, t, n - |b|, got + b, r)
    ensures AheadAsSource(source, s, n, got, r)
  {
    var sp, e := s.sourcePosition, RA.Min(s.sourcePosition + n, |source|);
    RA.SliceSplit(source, sp, sp + |b|, e, got);
    if sp == s.resettableIsPosition {
      RA.SliceSplit(source, sp, sp + |b|, e, s.storage.contents);
    }
  }

  /**
   * From the frontier: `mark`, `k` bytes read, `reset`, then reads return the bytes from the
   * mark again, taken from the source; the cursor is not moved back.
   */
  lemma MarkResetRereads(source: seq<byte>, s: EState, k: nat, m: nat)
    requires s.sourcePosition <= |source| && s.resettableIsPosition == s.sourcePosition
    ensures var p := s.sourcePosition;
      var read := ReadFrom(source, MarkStep(s), k, []);
      var back := ResetStep(read.state);
      back.sourcePosition == p
      && back.resettableIsPosition == RA.Min(p + k, |source|)
      && ReadFrom(source, back, m, []).result == Ok(source[p .. RA.Min(p + m, |source|)])
  {
    var p := s.sourcePosition;
    ReadFromAhead(source, MarkStep(s), k, []);
    var back := ResetStep(ReadFrom(source, MarkStep(s), k, []).state);
    ReadFromAhead(source, back, m, []);
    assert [] + source[p .. RA.Min(p + m, |source|)] == source[p .. RA.Min(p + m, |source|)];
  }

  /** `seek` accepts every position; after a negative one the next read throws IllegalStateException. */
  lemma NegativeSeekThenReadFails(source: seq<byte>, s: EState, position: int, len: nat)
    requires position < 0
    ensures SeekStep(s, position).resettableIsPosition == position
    ensures ReadStep(source, SeekStep(s, position), len).result == Err(IllegalState)
  {
  }

  /** `reset` restores only `sourcePosition`: cursor, mark and storage are untouched. */
  lemma ResetKeepsCursor(s: EState)
    ensures var r := ResetStep(s);
      r.sourcePosition == s.markPosition && r.resettableIsPosition == s.resettableIsPosition
      && r.storage == s.storage && r.markPosition == s.markPosition
    ensures MarkStep(s).markPosition == s.sourcePosition
  {
  }

  class RandomAccessInputStream {
    const source: seq<byte>
    var sourcePosition: nat
    var resettableIsPosition: int
    var markPosition: nat
    var storage: Storage

    function State(): EState
      reads this
    {
      EState(sourcePosition, resettableIsPosition, markPosition, storage)
    }

    /** `RandomAccessInputStream(source)`, which delegates with a threshold of 32768. */
    constructor (source: seq<byte>)
      ensures this.source == source && State() == Initial(MemoryStorage())
    {
      this.source := source;
      sourcePosition, resettableIsPosition, markPosition := 0, 0, 0;
      storage := MemoryStorage();
    }

    /** `RandomAccessInputStream(source, threshold)`: the threshold is ignored, a MemoryStorage is used. */
    constructor WithThreshold(source: seq<byte>, threshold: int)
      ensures this.source == source && State() == Initial(MemoryStorage())
    {
      this.source := source;
      sourcePosition, resettableIsPosition, markPosition := 0, 0, 0;
      storage := MemoryStorage();
    }

    /** `RandomAccessInputStream(source, storage)`. */
    constructor WithStorage(source: seq<byte>, storage: Storage)
      ensures this.source == source && State() == Initial(storage)
    {
      this.source := source;
      sourcePosition, resettableIsPosition, markPosition := 0, 0, 0;
      this.storage := storage;
    }

    /** `available()`: bytes between the source and a cursor ahead of it plus the source's, capped. */
    function Available(): (r: int)
      reads this
      ensures r <= RA.INT_MAX
      ensures sourcePosition <= |source| ==> r >= 0
      ensures sourcePosition <= |source| && resettableIsPosition <= sourcePosition ==>
                r == RA.Min(|source| - sourcePosition, RA.INT_MAX)
    {
      var ahead := if resettableIsPosition - sourcePosition > 0 then resettableIsPosition - sourcePosition else 0;
      RA.Min(ahead + (if sourcePosition < |source| then |source| - sourcePosition else 0), RA.INT_MAX)
    }

    method InnerRead(len: nat) returns (r: Result<RA.ReadResult>)
      modifies this
      ensures Step(r, State()) == ReadStep(source, old(State()), len)
    {
      if sourcePosition == resettableIsPosition {
        if sourcePosition >= |source| {
          return Ok(RA.EndOfStream);
        }
        var n := RA.Min(len, |source| - sourcePosition);
        var b := source[sourcePosition .. sourcePosition + n];
        if n > 0 {
          sourcePosition := sourcePosition + n;
          resettableIsPosition := resettableIsPosition + n;
          storage := storage.(contents := storage.contents + b);
        }
        r := Ok(RA.Bytes(b));
      } else if resettableIsPosition < sourcePosition {
        var efflen := RA.Min(len, sourcePosition - resettableIsPosition);
        var b := StorageGet(storage, efflen);
        if |b| == 0 {
          return Err(IllegalState);
        }
        resettableIsPosition := resettableIsPosition + |b|;
        storage := storage.(cursor := storage.cursor + |b|);
        r := Ok(RA.Bytes(b));
      } else {
        // sourcePosition += Math.max(n, 0): nothing at the end of the source
        if sourcePosition >= |source| {
          return Ok(RA.EndOfStream);
        }
        var efflen := RA.Min(len, resettableIsPosition - sourcePosition);
        var b := source[sourcePosition .. sourcePosition + RA.Min(efflen, |source| - sourcePosition)];
        sourcePosition := sourcePosition + |b|;
        r := Ok(RA.Bytes(b));
      }
    }

    method Mark(readlimit: int)
      modifies this
      ensures State() == MarkStep(old(State()))
    {
      markPosition := sourcePosition;
    }

    method Reset()
      modifies this
      ensures State() == ResetStep(old(State()))
    {
      sourcePosition := markPosition;
    }

    method Seek(position: int)
      modifies this
      ensures State() == SeekStep(old(State()), position)
    {
      resettableIsPosition := position;
      storage := storage.(cursor := position);
    }
  }
}
