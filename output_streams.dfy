/**
 * The destination OutputStream the counting wrappers write to. Its behaviour is not part of
 * the wrappers, so it is modelled by what the java.io.OutputStream contract lets it do: it
 * receives bytes, checks the bounds of a ranged write, and throws IOException whenever it
 * is `failing`.
 */
module OutputDestination {
  import opened Wrappers

  class Destination {
    var written: seq<byte>
    var closes: nat
    var flushes: nat
    var failing: bool

    constructor (failing: bool)
      ensures written == [] && closes == 0 && flushes == 0 && this.failing == failing
    {
      written, closes, flushes := [], 0, 0;
      this.failing := failing;
    }

    /** `write(byte[])`. */
    method Write(b: seq<byte>) returns (r: Outcome)
      modifies this
      ensures r == (if old(failing) then Fail(IOFailure) else Done)
      ensures written == (if r.Done? then old(written) + b else old(written))
      ensures closes == old(closes) && flushes == old(flushes) && failing == old(failing)
    {
      if failing {
        return Fail(IOFailure);
      }
      written := written + b;
      r := Done;
    }

    /** `write(b, off, len)`: an IndexOutOfBoundsException for a range outside `b`. */
    method WriteRange(b: seq<byte>, off: int, len: int) returns (r: Outcome)
      modifies this
      ensures off < 0 || len < 0 || off + len > |b| ==> r == Fail(IndexOutOfBounds)
      ensures 0 <= off && 0 <= len && off + len <= |b| ==>
                r == (if old(failing) then Fail(IOFailure) else Done)
      ensures written == (if r.Done? then old(written) + b[off .. off + len] else old(written))
      ensures closes == old(closes) && flushes == old(flushes) && failing == old(failing)
    {
      if off < 0 || len < 0 || off + len > |b| {
        return Fail(IndexOutOfBounds);
      }
      r := Write(b[off .. off + len]);
    }

    /** `write(int)`: the low eight bits of `v`. */
    method WriteByte(v: int) returns (r: Outcome)
      modifies this
      ensures r == (if old(failing) then Fail(IOFailure) else Done)
      ensures written == (if r.Done? then old(written) + [v % 256] else old(written))
      ensures closes == old(closes) && flushes == old(flushes) && failing == old(failing)
    {
      r := Write([v % 256]);
    }

    method Close() returns (r: Outcome)
      modifies this
      ensures closes == old(closes) + 1
      ensures r == (if old(failing) then Fail(IOFailure) else Done)
      ensures written == old(written) && flushes == old(flushes) && failing == old(failing)
    {
      closes := closes + 1;
      r := if failing then Fail(IOFailure) else Done;
    }

    method Flush() returns (r: Outcome)
      modifies this
      ensures flushes == old(flushes) + 1
      ensures r == (if old(failing) then Fail(IOFailure) else Done)
      ensures written == old(written) && closes == old(closes) && failing == old(failing)
    {
      flushes := flushes + 1;
      r := if failing then Fail(IOFailure) else Done;
    }
  }
}

/**
 * com.gc.iotools.stream.os.StatsOutputStream: counts the bytes written through it and
 * forwards `close` to the destination only once. The elapsed-time statistic is not modelled.
 */
module StatsOutputStreamModule {
  import opened Wrappers
  import opened OutputDestination

  class StatsOutputStream {
    var closeCalled: bool
    const innerOs: Destination
    var size: int
    /** Bytes the destination had received before this wrapper was built. */
    ghost const base: nat

    /** `size` is the number of bytes the destination received through this wrapper. */
    ghost predicate Valid()
      reads this, innerOs
    {
      0 <= size && base + size == |innerOs.written|
    }

    constructor (destination: Destination)
      ensures innerOs == destination && size == 0 && !closeCalled && Valid()
      ensures base == |destination.written|
    {
      innerOs := destination;
      size := 0;
      closeCalled := false;
      base := |destination.written|;
    }

    /** `getSize()`: the running total. */
    function GetSize(): (r: int)
      reads this, innerOs
      requires Valid()
      ensures 0 <= r && r == |innerOs.written| - base
    {
      size
    }

    /** `close()`: forwards to the destination on the first call only; later calls do nothing. */
    method Close() returns (r: Outcome)
      modifies this, innerOs
      ensures closeCalled && size == old(size)
      ensures old(closeCalled) ==> r == Done && unchanged(innerOs)
      ensures !old(closeCalled) ==>
                innerOs.closes == old(innerOs.closes) + 1 && innerOs.written == old(innerOs.written)
                && r == (if old(innerOs.failing) then Fail(IOFailure) else Done)
      ensures old(Valid()) ==> Valid()
    {
      r := Done;
      if !closeCalled {
        closeCalled := true;
        r := innerOs.Close();
      }
    }

    /** `flush()`: forwarded every time; the count is unchanged. */
    method Flush() returns (r: Outcome)
      modifies innerOs
      ensures innerOs.flushes == old(innerOs.flushes) + 1 && innerOs.written == old(innerOs.written)
      ensures r == (if old(innerOs.failing) then Fail(IOFailure) else Done)
      ensures old(Valid()) ==> Valid()
    {
      r := innerOs.Flush();
    }

    /** `write(byte[])`: adds `b.length`, only once the destination has accepted the bytes. */
    method Write(b: seq<byte>) returns (r: Outcome)
      modifies this, innerOs
      ensures old(Valid()) ==> Valid()
      ensures closeCalled == old(closeCalled)
      ensures r.Done? ==> size == old(size) + |b| && innerOs.written == old(innerOs.written) + b
      ensures r.Fail? ==> size == old(size) && r == Fail(IOFailure)
      ensures r.Done? <==> !old(innerOs.failing)
    {
      r := innerOs.Write(b);
      if r.Done? {
        size := size + |b|;
      }
    }

    /** `write(b, off, len)`: adds `len`, only once the destination has accepted the range. */
    method WriteRange(b: seq<byte>, off: int, len: int) returns (r: Outcome)
      modifies this, innerOs
      ensures old(Valid()) ==> Valid()
      ensures closeCalled == old(closeCalled)
      ensures r.Done? <==> 0 <= off && 0 <= len && off + len <= |b| && !old(innerOs.failing)
      ensures r.Done? ==> size == old(size) + len
                          && innerOs.written == old(innerOs.written) + b[off .. off + len]
      ensures r.Fail? ==> size == old(size)
    {
      r := innerOs.WriteRange(b, off, len);
      if r.Done? {
        size := size + len;
      }
    }

    /** `write(int)`: adds one. */
    method WriteByte(v: int) returns (r: Outcome)
      modifies this, innerOs
      ensures old(Valid()) ==> Valid()
      ensures closeCalled == old(closeCalled)
      ensures r.Done? ==> size == old(size) + 1 && innerOs.written == old(innerOs.written) + [v % 256]
      ensures r.Fail? ==> size == old(size)
      ensures r.Done? <==> !old(innerOs.failing)
    {
      r := innerOs.WriteByte(v);
      if r.Done? {
        size := size + 1;
      }
    }
  }
}

/**
 * com.gc.iotools.stream.os.SizeRecorderOutputStream: counts the bytes written through it and
 * forwards `close` to the destination only once.
 */
module SizeRecorderOutputStreamModule {
  import opened Wrappers
  import opened OutputDestination

  class SizeRecorderOutputStream {
    var closeCalled: bool
    const innerOs: Destination
    var size: int
    /** Bytes the destination had received before this wrapper was built. */
    ghost const base: nat

    /** `size` is the number of bytes the destination received through this wrapper. */
    ghost predicate Valid()
      reads this, innerOs
    {
      0 <= size && base + size == |innerOs.written|
    }

    constructor (destination: Destination)
      ensures innerOs == destination && size == 0 && !closeCalled && Valid()
      ensures base == |destination.written|
    {
      innerOs := destination;
      size := 0;
      closeCalled := false;
      base := |destination.written|;
    }

    /** `getSize()`: the running total. */
    function GetSize(): (r: int)
      reads this, innerOs
      requires Valid()
      ensures 0 <= r && r == |innerOs.written| - base
    {
      size
    }

    /** `close()`: forwards to the destination on the first call only; later calls do nothing. */
    method Close() returns (r: Outcome)
      modifies this, innerOs
      ensures closeCalled && size == old(size)
      ensures old(closeCalled) ==> r == Done && unchanged(innerOs)
      ensures !old(closeCalled) ==>
                innerOs.closes == old(innerOs.closes) + 1 && innerOs.written == old(innerOs.written)
                && r == (if old(innerOs.failing) then Fail(IOFailure) else Done)
      ensures old(Valid()) ==> Valid()
    {
      r := Done;
      if !closeCalled {
        closeCalled := true;
        r := innerOs.Close();
      }
    }

    /** `flush()`: forwarded every time; the count is unchanged. */
    method Flush() returns (r: Outcome)
      modifies innerOs
      ensures innerOs.flushes == old(innerOs.flushes) + 1 && innerOs.written == old(innerOs.written)
      ensures r == (if old(innerOs.failing) then Fail(IOFailure) else Done)
      ensures old(Valid()) ==> Valid()
    {
      r := innerOs.Flush();
    }

    /** `write(byte[])`: adds `b.length`, only once the destination has accepted the bytes. */
    method Write(b: seq<byte>) returns (r: Outcome)
      modifies this, innerOs
      ensures old(Valid()) ==> Valid()
      ensures closeCalled == old(closeCalled)
      ensures r.Done? ==> size == old(size) + |b| && innerOs.written == old(innerOs.written) + b
      ensures r.Fail? ==> size == old(size) && r == Fail(IOFailure)
      ensures r.Done? <==> !old(innerOs.failing)
    {
      r := innerOs.Write(b);
      if r.Done? {
        size := size + |b|;
      }
    }

    /** `write(b, off, len)`: adds `len`, only once the destination has accepted the range. */
    method WriteRange(b: seq<byte>, off: int, len: int) returns (r: Outcome)
      modifies this, innerOs
      ensures old(Valid()) ==> Valid()
      ensures closeCalled == old(closeCalled)
      ensures r.Done? <==> 0 <= off && 0 <= len && off + len <= |b| && !old(innerOs.failing)
      ensures r.Done? ==> size == old(size) + len
                          && innerOs.written == old(innerOs.written) + b[off .. off + len]
      ensures r.Fail? ==> size == old(size)
    {
      r := innerOs.WriteRange(b, off, len);
      if r.Done? {
        size := size + len;
      }
    }

    /** `write(int)`: adds one. */
    method WriteByte(v: int) returns (r: Outcome)
      modifies this, innerOs
      ensures old(Valid()) ==> Valid()
      ensures closeCalled == old(closeCalled)
      ensures r.Done? ==> size == old(size) + 1 && innerOs.written == old(innerOs.written) + [v % 256]
      ensures r.Fail? ==> size == old(size)
      ensures r.Done? <==> !old(innerOs.failing)
    {
      r := innerOs.WriteByte(v);
      if r.Done? {
        size := size + 1;
      }
    }
  }
}
