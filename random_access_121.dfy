/**
 * com.gc.iotools.stream.is.RandomAccessInputStream as released in io-tools 1.2.1.
 *
 * The stream reads its source once, copies every byte it reads at the frontier into a
 * store, and serves reads behind the frontier (after a `reset` or a backward `seek`)
 * from that store. The source is an in-memory byte sequence with the semantics of
 * java.io.ByteArrayInputStream; since the source is read only at the frontier, the
 * number of bytes taken from it is always `sourcePosition`.
 *
 * Every operation is given twice: as a function on the state value `RState`, which the
 * lemmas reason about, and as a method of the class `RandomAccessInputStream`, which
 * updates its fields as the Java code does and is proved to agree with the function.
 */
module RandomAccess121 {
  import opened Wrappers

  /** 32768 * 2: bytes kept in memory by the default store before it moves to disk. */
  const DEFAULT_DISK_TRHESHOLD: int := 65536
  const INT_MAX: int := 0x7fff_ffff
  /** IOUtils.toByteArray copies through a buffer of this size. */
  const COPY_BUFFER_SIZE: nat := 4096

  function Min(a: int, b: int): int { if a < b then a else b }

  /** What one `innerRead` returns: -1 (end of stream) or the bytes copied into the caller's buffer. */
  datatype ReadResult = EndOfStream | Bytes(bytes: seq<byte>)

  /**
   * The cache of bytes read from the source: what has been put into it, its read cursor,
   * and whether it is a SeekableStore (a ThresholdStore is one).
   */
  datatype Store = Store(contents: seq<byte>, cursor: nat, seekable: bool)

  /** `new ThresholdStore(threshold)`: empty and seekable; the threshold only decides memory or disk. */
  function ThresholdStore(threshold: int): (st: Store)
    ensures st.contents == [] && st.cursor == 0 && st.seekable
  {
    Store([], 0, true)
  }

  /** `Store.get(b, off, len)`: up to `len` bytes from the cursor, none once the cursor is at the end. */
  function StoreGet(st: Store, len: nat): (r: seq<byte>)
    ensures |r| <= len
  {
    if st.cursor < |st.contents| then st.contents[st.cursor .. st.cursor + Min(len, |st.contents| - st.cursor)]
    else []
  }

  /** The fields the stream updates. */
  datatype RState = RState(sourcePosition: nat, randomAccessIsPosition: nat,
                           markPosition: nat, markLimit: int, store: Store)

  /** A call's result (value or exception) and the state it leaves behind. */
  datatype Step<T> = Step(result: Result<T>, state: RState)

  /** A freshly constructed stream over `store`. */
  function Initial(store: Store): RState
  {
    RState(0, 0, 0, 0, store)
  }

  /**
   * `innerRead(b, off, len)`. At the frontier it reads the source and stores what it read;
   * behind the frontier it reads the store, never past the frontier; a cursor ahead of the
   * source is an IllegalStateException.
   */
  function ReadStep(source: seq<byte>, s: RState, len: nat): (r: Step<ReadResult>)
    ensures r.result.Err? ==> r.state == s
    ensures r.result.Ok? && r.result.value.Bytes? ==>
              |r.result.value.bytes| <= len
              && r.state.randomAccessIsPosition == s.randomAccessIsPosition + |r.result.value.bytes|
    ensures r.result.Ok? && r.result.value.Bytes? && len > 0 ==> |r.result.value.bytes| > 0
    ensures r.result.Ok? && r.result.value.EndOfStream? ==> r.state == s
    ensures r.state.sourcePosition >= s.sourcePosition
    ensures r.state.markPosition == s.markPosition && r.state.markLimit == s.markLimit
    ensures r.state.store.seekable == s.store.seekable
  {
    if s.sourcePosition == s.randomAccessIsPosition then
      if s.sourcePosition >= |source| then Step(Ok(EndOfStream), s)
      else
        var b := source[s.sourcePosition .. s.sourcePosition + Min(len, |source| - s.sourcePosition)];
        if |b| > 0 then
          Step(Ok(Bytes(b)), s.(sourcePosition := s.sourcePosition + |b|,
                                randomAccessIsPosition := s.randomAccessIsPosition + |b|,
                                store := s.store.(contents := s.store.contents + b)))
        else Step(Ok(Bytes(b)), s)
    else if s.randomAccessIsPosition < s.sourcePosition then
      var b := StoreGet(s.store, Min(len, s.sourcePosition - s.randomAccessIsPosition));
      if |b| == 0 then Step(Err(IllegalState), s)
      else Step(Ok(Bytes(b)), s.(randomAccessIsPosition := s.randomAccessIsPosition + |b|,
                                 store := s.store.(cursor := s.store.cursor + |b|)))
    else Step(Err(IllegalState), s)
  }

  /** Repeated reads until `n` more bytes are collected or the stream ends; `got` is what came before. */
  function ReadFrom(source: seq<byte>, s: RState, n: nat, got: seq<byte>): Step<seq<byte>>
    decreases n
  {
    if n == 0 then Step(Ok(got), s)
    else
      var st := ReadStep(source, s, n);
      if st.result.Err? then Step(Err(st.result.error), st.state)
      else if st.result.value.EndOfStream? then Step(Ok(got), st.state)
      else ReadFrom(source, st.state, n - |st.result.value.bytes|, got + st.result.value.bytes)
  }

  /** `skip(n)`: reads and discards up to `n` bytes, returning how many it skipped. */
  function SkipStep(source: seq<byte>, s: RState, n: nat): Step<nat>
  {
    var r := ReadFrom(source, s, n, []);
    if r.result.Err? then Step(Err(r.result.error), r.state) else Step(Ok(|r.result.value|), r.state)
  }

  /** `read()`: one byte as 0..255, or -1 at the end of the stream. */
  function ReadByteStep(source: seq<byte>, s: RState): Step<int>
  {
    var st := ReadStep(source, s, 1);
    if st.result.Err? then Step(Err(st.result.error), st.state)
    else if st.result.value.EndOfStream? then Step(Ok(-1), st.state)
    else Step(Ok(st.result.value.bytes[0] as int), st.state)
  }

  /** `mark(readLimit)`. */
  function MarkStep(s: RState, readLimit: int): RState
  {
    s.(markLimit := readLimit, markPosition := s.randomAccessIsPosition)
  }

  /**
   * `reset()`: the cursor is moved back before the store is cast to SeekableStore, so a
   * store that is not seekable fails with the cursor already moved.
   */
  function ResetStep(s: RState): Step<()>
  {
    if s.markLimit < 0 || s.randomAccessIsPosition - s.markPosition <= s.markLimit then
      var moved := s.(randomAccessIsPosition := s.markPosition);
      if s.store.seekable then Step(Ok(()), moved.(store := s.store.(cursor := s.markPosition)))
      else Step(Err(ClassCast), moved)
    else Step(Err(IOFailure), s)
  }

  /** `seek(position)`: forward by skipping, backward by moving the cursor, equal: nothing. */
  function SeekStep(source: seq<byte>, s: RState, position: int): Step<()>
  {
    if position < 0 then Step(Err(IllegalArgument), s)
    else if !s.store.seekable then Step(Err(IllegalState), s)
    else
      var len := position - s.randomAccessIsPosition;
      if len > 0 then
        var sk := SkipStep(source, s, len);
        if sk.result.Err? then Step(Err(sk.result.error), sk.state)
        else if sk.result.value < len then Step(Err(IOFailure), sk.state)
        else Step(Ok(()), sk.state)
      else if len < 0 then
        Step(Ok(()), s.(randomAccessIsPosition := position, store := s.store.(cursor := position)))
      else Step(Ok(()), s)
  }

  /** `IOUtils.toByteArray(ris)`: reads in COPY_BUFFER_SIZE chunks until the end of the stream. */
  function ReadAll(source: seq<byte>, s: RState, got: seq<byte>): Step<seq<byte>>
    requires Coherent(source, s)
    decreases |source| - s.randomAccessIsPosition
  {
    CoherentRead(source, s, COPY_BUFFER_SIZE);
    var st := ReadStep(source, s, COPY_BUFFER_SIZE);
    if st.result.value.EndOfStream? then Step(Ok(got), st.state)
    else ReadAll(source, st.state, got + st.result.value.bytes)
  }

  /** The cursor and the mark never pass the frontier. */
  predicate Ordered(s: RState)
  {
    s.randomAccessIsPosition <= s.sourcePosition && s.markPosition <= s.sourcePosition
  }

  /**
   * The stream is ordered, its store holds exactly the bytes read from the source, the
   * store's cursor is at the stream's cursor whenever that is behind the frontier, and the
   * store is seekable.
   */
  predicate Coherent(source: seq<byte>, s: RState)
  {
    Ordered(s) && s.sourcePosition <= |source|
    && s.store.contents == source[..s.sourcePosition]
    && (s.randomAccessIsPosition < s.sourcePosition ==> s.store.cursor == s.randomAccessIsPosition)
    && s.store.seekable
  }

  /** The three branches of `innerRead`, for every state. */
  lemma ReadStepBranches(source: seq<byte>, s: RState, len: nat)
    ensures var r := ReadStep(source, s, len);
      (s.sourcePosition == s.randomAccessIsPosition && r.result.Ok? && r.result.value.Bytes?
        && |r.result.value.bytes| > 0 ==>
          var n := |r.result.value.bytes|;
          r.state.sourcePosition == s.sourcePosition + n
          && r.state.randomAccessIsPosition == s.randomAccessIsPosition + n
          && r.state.store.contents == s.store.contents + r.result.value.bytes
          && r.result.value.bytes == source[s.sourcePosition .. s.sourcePosition + n])
      && (s.randomAccessIsPosition < s.sourcePosition ==>
          (r.result.Err? <==> StoreGet(s.store, Min(len, s.sourcePosition - s.randomAccessIsPosition)) == [])
          && (r.result.Ok? ==>
                r.result.value == Bytes(StoreGet(s.store, Min(len, s.sourcePosition - s.randomAccessIsPosition)))
                && |r.result.value.bytes| <= s.sourcePosition - s.randomAccessIsPosition
                && r.state.sourcePosition == s.sourcePosition
                && r.state.store.contents == s.store.contents))
      && (s.randomAccessIsPosition > s.sourcePosition ==> r == Step(Err(IllegalState), s))
  {
  }

  /** On a coherent stream a non-empty read never fails, returns the source's bytes at the cursor and stays coherent. */
  lemma CoherentRead(source: seq<byte>, s: RState, len: nat)
    requires Coherent(source, s) && len > 0
    ensures var r := ReadStep(source, s, len);
      r.result.Ok? && Coherent(source, r.state)
      && (r.result.value.EndOfStream? <==> s.randomAccessIsPosition == |source|)
      && (r.result.value.Bytes? ==>
            r.result.value.bytes == source[s.randomAccessIsPosition .. r.state.randomAccessIsPosition])
  {
    var r := ReadStep(source, s, len);
    if s.randomAccessIsPosition == s.sourcePosition && s.sourcePosition < |source| {
      var b := r.result.value.bytes;
      assert source[..s.sourcePosition] + b == source[..s.sourcePosition + |b|];
    }
  }

  /** One round of `ReadFrom` on a coherent stream. */
  lemma ReadFromOnce(source: seq<byte>, s: RState, n: nat, got: seq<byte>)
    requires Coherent(source, s) && n > 0
    ensures var st := ReadStep(source, s, n);
      st.result.Ok?
      && (st.result.value.EndOfStream? ==>
            s.randomAccessIsPosition == |source| && ReadFrom(source, s, n, got) == Step(Ok(got), s))
      && (st.result.value.Bytes? ==>
            var b := st.result.value.bytes;
            0 < |b| <= n && s.randomAccessIsPosition + |b| <= |source|
            && st.state.randomAccessIsPosition == s.randomAccessIsPosition + |b|
            && b == source[s.randomAccessIsPosition .. s.randomAccessIsPosition + |b|]
            && Coherent(source, st.state)
            && st.state.markPosition == s.markPosition && st.state.markLimit == s.markLimit
            && ReadFrom(source, s, n, got) == ReadFrom(source, st.state, n - |b|, got + b))
  {
    CoherentRead(source, s, n);
  }

  /** Repeated reads of a coherent stream return the next `n` source bytes, fewer only at the end. */
  lemma {:induction false} ReadFromCoherent(source: seq<byte>, s: RState, n: nat, got: seq<byte>)
    requires Coherent(source, s)
    ensures var r := ReadFrom(source, s, n, got);
      ReadAsSource(source, s, n, got, r)
    decreases n
  {
    if n > 0 {
      ReadFromOnce(source, s, n, got);
      var st := ReadStep(source, s, n);
      if st.result.value.Bytes? {
        var b := st.result.value.bytes;
        ReadFromCoherent(source, st.state, n - |b|, got + b);
        ReadAsSourceStep(source, s, st.state, n, got, b, ReadFrom(source, st.state, n - |b|, got + b));
      } else {
        EmptySlice(source, s.randomAccessIsPosition, got);
      }
    } else {
      EmptySlice(source, s.randomAccessIsPosition, got);
    }
  }

  /**
   * `r` is what reading `n` more bytes after `got` from `s` should give on a coherent
   * stream: the next source bytes up to the end, a coherent state with the cursor after them
   * and the mark untouched.
   */
  predicate ReadAsSource(source: seq<byte>, s: RState, n: nat, got: seq<byte>, r: Step<seq<byte>>)
  {
    var e := Min(s.randomAccessIsPosition + n, |source|);
    s.randomAccessIsPosition <= e
    && r.result == Ok(got + source[s.randomAccessIsPosition .. e])
    && Coherent(source, r.state) && r.state.randomAccessIsPosition == e
    && r.state.markPosition == s.markPosition && r.state.markLimit == s.markLimit
  }

  /** A read of the `b` bytes at the cursor, followed by reads as the source says, reads as the source says. */
  lemma ReadAsSourceStep(source: seq<byte>, s: RState, s1: RState, n: nat, got: seq<byte>, b: seq<byte>,
                         r: Step<seq<byte>>)
    requires Coherent(source, s) && 0 < |b| <= n
    requires s1.randomAccessIsPosition == s.randomAccessIsPosition + |b| <= |source|
    requires b == source[s.randomAccessIsPosition .. s1.randomAccessIsPosition]
    requires s1.markPosition == s.markPosition && s1.markLimit == s.markLimit
    requires ReadAsSource(source, s1, n - |b|, got + b, r)
    ensures ReadAsSource(source, s, n, got, r)
  {
    SliceSplit(source, s.randomAccessIsPosition, s1.randomAccessIsPosition,
               Min(s.randomAccessIsPosition + n, |source|), got);
  }

  lemma EmptySlice(a: seq<byte>, i: nat, got: seq<byte>)
    requires i <= |a|
    ensures got + a[i..i] == got
    ensures i == |a| ==> got + a[i..] == got
  {
    assert a[i..i] == [];
  }

  lemma SliceSplit(a: seq<byte>, i: nat, j: nat, k: nat, got: seq<byte>)
    requires i <= j <= k <= |a|
    ensures (got + a[i..j]) + a[j..k] == got + a[i..k]
    ensures k == |a| ==> (got + a[i..j]) + a[j..] == got + a[i..]
  {
    assert a[i..k] == a[i..j] + a[j..k];
  }

  /** Reading a coherent stream to its end returns every source byte from the cursor on. */
  lemma {:induction false} ReadAllCoherent(source: seq<byte>, s: RState, got: seq<byte>)
    requires Coherent(source, s)
    ensures var r := ReadAll(source, s, got);
      r.result == Ok(got + source[s.randomAccessIsPosition..])
      && Coherent(source, r.state) && r.state.randomAccessIsPosition == |source|
      && r.state.markPosition == s.markPosition && r.state.markLimit == s.markLimit
    decreases |source| - s.randomAccessIsPosition
  {
    CoherentRead(source, s, COPY_BUFFER_SIZE);
    var st := ReadStep(source, s, COPY_BUFFER_SIZE);
    if st.result.value.Bytes? {
      var b := st.result.value.bytes;
      assert ReadAll(source, s, got) == ReadAll(source, st.state, got + b);
      ReadAllCoherent(source, st.state, got + b);
      SliceSplit(source, s.randomAccessIsPosition, st.state.randomAccessIsPosition, |source|, got);
    } else {
      EmptySlice(source, s.randomAccessIsPosition, got);
    }
  }

  /** Every operation keeps the cursor and the mark at or behind the frontier. */
  lemma {:induction false} ReadFromOrdered(source: seq<byte>, s: RState, n: nat, got: seq<byte>)
    requires Ordered(s)
    ensures Ordered(ReadFrom(source, s, n, got).state)
    decreases n
  {
    if n > 0 {
      var st := ReadStep(source, s, n);
      ReadStepOrdered(source, s, n);
      if st.result.Ok? && st.result.value.Bytes? {
        ReadFromOrdered(source, st.state, n - |st.result.value.bytes|, got + st.result.value.bytes);
      }
    }
  }

  lemma ReadStepOrdered(source: seq<byte>, s: RState, len: nat)
    requires Ordered(s)
    ensures Ordered(ReadStep(source, s, len).state)
  {
  }

  /** `randomAccessIsPosition <= sourcePosition` holds from construction on, so `innerRead` never throws for it. */
  lemma OrderedPreserved(source: seq<byte>, s: RState, len: nat, readLimit: int, position: int)
    requires Ordered(s)
    ensures Ordered(ReadStep(source, s, len).state)
    ensures Ordered(MarkStep(s, readLimit))
    ensures Ordered(ResetStep(s).state)
    ensures Ordered(SeekStep(source, s, position).state)
    ensures ReadStep(source, s, len).result != Err(IllegalState) || s.randomAccessIsPosition < s.sourcePosition
  {
    ReadStepOrdered(source, s, len);
    if position >= 0 && position > s.randomAccessIsPosition {
      ReadFromOrdered(source, s, position - s.randomAccessIsPosition, []);
    }
  }

  /** A new stream is coherent. */
  lemma InitialCoherent(source: seq<byte>, threshold: int)
    ensures Coherent(source, Initial(ThresholdStore(threshold)))
    ensures Coherent(source, Initial(Store([], 0, true)))
  {
  }

  /** `reset` succeeds iff the store is seekable and the mark is unlimited or not exceeded. */
  lemma ResetIff(s: RState)
    ensures var within := s.markLimit < 0 || s.randomAccessIsPosition - s.markPosition <= s.markLimit;
      var r := ResetStep(s);
      (r.result.Ok? <==> within && s.store.seekable)
      && (r.result.Ok? ==> r.state.randomAccessIsPosition == s.markPosition && r.state.store.cursor == s.markPosition
                           && r.state.sourcePosition == s.sourcePosition && r.state.store.contents == s.store.contents)
      && (within && !s.store.seekable ==> r == Step(Err(ClassCast), s.(randomAccessIsPosition := s.markPosition)))
      && (!within ==> r == Step(Err(IOFailure), s))
  {
  }

  /**
   * `mark(limit)`, `k` bytes read, `reset`: the reset succeeds iff the limit is negative or
   * the bytes actually read do not exceed it, and afterwards the same bytes are read again.
   */
  lemma MarkReadReset(source: seq<byte>, s: RState, limit: int, k: nat)
    requires Coherent(source, s)
    ensures var marked := MarkStep(s, limit);
      var read := ReadFrom(source, marked, k, []);
      var back := ResetStep(read.state);
      (back.result.Ok? <==> limit < 0 || Min(k, |source| - s.randomAccessIsPosition) <= limit)
      && (back.result.Err? ==> back.result.error == IOFailure)
      && (back.result.Ok? ==>
            back.state.randomAccessIsPosition == s.randomAccessIsPosition
            && Coherent(source, back.state)
            && ReadFrom(source, back.state, k, []).result == read.result)
  {
    var marked := MarkStep(s, limit);
    ReadFromCoherent(source, marked, k, []);
    var read := ReadFrom(source, marked, k, []);
    ResetAfterRead(source, s, limit, k, read);
    var back := ResetStep(read.state);
    if back.result.Ok? {
      var b := back.state;
      ReadFromCoherent(source, b, k, []);
    }
  }

  /** The reset after `mark(limit)` and a read of `k` bytes as the source says. */
  lemma ResetAfterRead(source: seq<byte>, s: RState, limit: int, k: nat, read: Step<seq<byte>>)
    requires Coherent(source, s)
    requires ReadAsSource(source, MarkStep(s, limit), k, [], read)
    ensures var back := ResetStep(read.state);
      (back.result.Ok? <==> limit < 0 || Min(k, |source| - s.randomAccessIsPosition) <= limit)
      && (back.result.Err? ==> back.result.error == IOFailure)
      && (back.result.Ok? ==> back.state.randomAccessIsPosition == s.randomAccessIsPosition
                              && Coherent(source, back.state))
  {
    ResetIff(read.state);
  }

  /**
   * `seek` on a coherent stream: a negative position is refused, a position up to the end
   * places the cursor there, a position past the end reads to the end and fails.
   */
  lemma SeekCoherent(source: seq<byte>, s: RState, position: int)
    requires Coherent(source, s)
    ensures var r := SeekStep(source, s, position);
      (position < 0 ==> r == Step(Err(IllegalArgument), s))
      && (0 <= position <= |source| ==>
            r.result.Ok? && r.state.randomAccessIsPosition == position && Coherent(source, r.state))
      && (position > |source| ==>
            r.result == Err(IOFailure) && r.state.randomAccessIsPosition == |source| && Coherent(source, r.state))
      && r.state.markPosition == s.markPosition && r.state.markLimit == s.markLimit
  {
    if position >= 0 && position > s.randomAccessIsPosition {
      ReadFromCoherent(source, s, position - s.randomAccessIsPosition, []);
    }
  }

  /** A seek on a store that is not a SeekableStore throws IllegalStateException and changes nothing. */
  lemma SeekNeedsSeekableStore(source: seq<byte>, s: RState, position: int)
    requires position >= 0 && !s.store.seekable
    ensures SeekStep(source, s, position) == Step(Err(IllegalState), s)
  {
  }

  /** `read()` on a coherent stream returns the byte at the cursor, or -1 at the end. */
  lemma ReadByteCoherent(source: seq<byte>, s: RState)
    requires Coherent(source, s)
    ensures var r := ReadByteStep(source, s);
      r.result == Ok(if s.randomAccessIsPosition < |source| then source[s.randomAccessIsPosition] as int else -1)
      && Coherent(source, r.state)
      && r.state.randomAccessIsPosition == Min(s.randomAccessIsPosition + 1, |source|)
  {
    CoherentRead(source, s, 1);
  }

  /** `seek(i)` then `read()` returns byte `i` for every position of the source. */
  lemma SeekThenReadByte(source: seq<byte>, s: RState, i: int)
    requires Coherent(source, s) && 0 <= i < |source|
    ensures var sk := SeekStep(source, s, i);
      sk.result.Ok? && ReadByteStep(source, sk.state).result == Ok(source[i] as int)
  {
    SeekCoherent(source, s, i);
    ReadByteCoherent(source, SeekStep(source, s, i).state);
  }

  /** A full read, `seek(0)`, and a second full read both return the whole source. */
  lemma FullReadAndReset(source: seq<byte>)
    ensures var first := ReadAll(source, Initial(ThresholdStore(DEFAULT_DISK_TRHESHOLD)), []);
      var back := SeekStep(source, first.state, 0);
      first.result == Ok(source) && back.result.Ok? && Coherent(source, back.state)
      && ReadAll(source, back.state, []).result == Ok(source)
  {
    var s0 := Initial(ThresholdStore(DEFAULT_DISK_TRHESHOLD));
    ReadAllCoherent(source, s0, []);
    var first := ReadAll(source, s0, []);
    SeekCoherent(source, first.state, 0);
    ReadAllCoherent(source, SeekStep(source, first.state, 0).state, []);
    assert [] + source[0..] == source;
  }

  /** The stream object: the Java fields, updated in place. */
  class RandomAccessInputStream {
    const source: seq<byte>
    var sourcePosition: nat
    var randomAccessIsPosition: nat
    var markPosition: nat
    var markLimit: int
    var store: Store

    function State(): RState
      reads this
    {
      RState(sourcePosition, randomAccessIsPosition, markPosition, markLimit, store)
    }

    /** `RandomAccessInputStream(source)`: the default disk threshold. */
    constructor (source: seq<byte>)
      ensures this.source == source && State() == Initial(ThresholdStore(DEFAULT_DISK_TRHESHOLD))
    {
      this.source := source;
      sourcePosition, randomAccessIsPosition, markPosition, markLimit := 0, 0, 0, 0;
      store := ThresholdStore(DEFAULT_DISK_TRHESHOLD);
    }

    /** `RandomAccessInputStream(source, threshold)`. */
    constructor WithThreshold(source: seq<byte>, threshold: int)
      ensures this.source == source && State() == Initial(ThresholdStore(threshold))
    {
      this.source := source;
      sourcePosition, randomAccessIsPosition, markPosition, markLimit := 0, 0, 0, 0;
      store := ThresholdStore(threshold);
    }

    /** `RandomAccessInputStream(source, store)`: the store is a `SeekableStore`; a null one is an IllegalArgumentException. */
    static method WithStore(source: seq<byte>, store: Option<Store>)
      returns (r: Result<RandomAccessInputStream>)
      requires store.None? || store.value.seekable
      ensures store.None? <==> r == Err(IllegalArgument)
      ensures r.Ok? ==> fresh(r.value) && r.value.source == source && r.value.State() == Initial(store.value)
    {
      if store.None? {
        return Err(IllegalArgument);
      }
      var ris := new RandomAccessInputStream(source);
      ris.store := store.value;
      r := Ok(ris);
    }

    /** `available()`: the bytes behind the frontier plus the source's, capped at Integer.MAX_VALUE. */
    function Available(): (r: int)
      reads this
      ensures r <= INT_MAX
      ensures randomAccessIsPosition <= sourcePosition <= |source| ==>
                r == Min(|source| - randomAccessIsPosition, INT_MAX)
    {
      Min(sourcePosition - randomAccessIsPosition
          + (if sourcePosition < |source| then |source| - sourcePosition else 0), INT_MAX)
    }

    method InnerRead(len: nat) returns (r: Result<ReadResult>)
      modifies this
      ensures Step(r, State()) == ReadStep(source, old(State()), len)
    {
      if sourcePosition == randomAccessIsPosition {
        // source.read(b, off, len) on the in-memory source
        if sourcePosition >= |source| {
          return Ok(EndOfStream);
        }
        var n := Min(len, |source| - sourcePosition);
        var b := source[sourcePosition .. sourcePosition + n];
        if n > 0 {
          sourcePosition := sourcePosition + n;
          randomAccessIsPosition := randomAccessIsPosition + n;
          store := store.(contents := store.contents + b);
        }
        r := Ok(Bytes(b));
      } else if randomAccessIsPosition < sourcePosition {
        var efflen := Min(len, sourcePosition - randomAccessIsPosition);
        var b := StoreGet(store, efflen);
        if |b| == 0 {
          return Err(IllegalState);
        }
        store := store.(cursor := store.cursor + |b|);
        randomAccessIsPosition := randomAccessIsPosition + |b|;
        r := Ok(Bytes(b));
      } else {
        r := Err(IllegalState);
      }
    }

    /** `read()`, through `innerRead` with a one-byte buffer. */
    method Read() returns (r: Result<int>)
      modifies this
      ensures Step(r, State()) == ReadByteStep(source, old(State()))
    {
      var st := InnerRead(1);
      if st.Err? {
        return Err(st.error);
      }
      if st.value.EndOfStream? {
        return Ok(-1);
      }
      r := Ok(st.value.bytes[0] as int);
    }

    /** `skip(n)`: repeated `innerRead` calls until `n` bytes are skipped or the stream ends. */
    method Skip(n: nat) returns (r: Result<nat>)
      modifies this
      ensures Step(r, State()) == SkipStep(source, old(State()), n)
    {
      var remaining: nat := n;
      var skipped := 0;
      ghost var got: seq<byte> := [];
      while remaining > 0
        invariant skipped == |got|
        invariant ReadFrom(source, State(), remaining, got) == ReadFrom(source, old(State()), n, [])
        decreases remaining
      {
        var st := InnerRead(remaining);
        if st.Err? {
          return Err(st.error);
        }
        if st.value.EndOfStream? {
          break;
        }
        got := got + st.value.bytes;
        skipped := skipped + |st.value.bytes|;
        remaining := remaining - |st.value.bytes|;
      }
      r := Ok(skipped);
    }

    method Mark(readLimit: int)
      modifies this
      ensures State() == MarkStep(old(State()), readLimit)
    {
      markLimit := readLimit;
      markPosition := randomAccessIsPosition;
    }

    method Reset() returns (r: Result<()>)
      modifies this
      ensures Step(r, State()) == ResetStep(old(State()))
    {
      if markLimit < 0 || randomAccessIsPosition - markPosition <= markLimit {
        randomAccessIsPosition := markPosition;
        if !store.seekable {
          return Err(ClassCast);
        }
        store := store.(cursor := markPosition);
        r := Ok(());
      } else {
        r := Err(IOFailure);
      }
    }

    method Seek(position: int) returns (r: Result<()>)
      modifies this
      ensures Step(r, State()) == SeekStep(source, old(State()), position)
    {
      if position < 0 {
        return Err(IllegalArgument);
      }
      if !store.seekable {
        return Err(IllegalState);
      }
      var len := position - randomAccessIsPosition;
      if len > 0 {
        var n := Skip(len);
        if n.Err? {
          return Err(n.error);
        }
        if n.value < len {
          return Err(IOFailure);
        }
        r := Ok(());
      } else if len < 0 {
        randomAccessIsPosition := position;
        store := store.(cursor := position);
        r := Ok(());
      } else {
        r := Ok(());
      }
    }
  }
}
