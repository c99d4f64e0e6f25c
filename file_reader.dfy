/**
 * The byte-stream helpers of the GF reader: `read1`..`read4` (big-endian
 * integers of 1 to 4 bytes) and `read_string` (a string of an exact length).
 * The stream is a byte sequence with a read position; the functions say what a
 * read at a position yields, the `Reader` class performs it in place.
 */
module FileReader {
  import opened BigEndian
  import opened Outcome

  /** `readN` with `N == width` at position `at`, failing when the input is too short. */
  function IntAt(data: seq<byte>, at: nat, width: nat): (r: Result<(int, nat)>)
    requires at <= |data| && 1 <= width <= 4
    ensures r.Ok? <==> at + width <= |data|
    ensures r.Err? ==> r.error == UnexpectedEof
    ensures r.Ok? ==> r.value.1 == at + width && IsI32(r.value.0)
    ensures r.Ok? && width < 4 ==> 0 <= r.value.0 < Pow256(width)
    ensures r.Ok? && width == 1 ==> r.value.0 == data[at]
    ensures r.Ok? && width == 4 ==> (r.value.0 < 0 <==> data[at] >= 0x80)
  {
    if at + width <= |data| then
      assert width == 1 ==> data[at..at + width] == [data[at]] && [data[at]][..0] == [];
      Ok((ReadValue(data[at..at + width]), at + width))
    else
      Err(UnexpectedEof)
  }

  /**
   * `readN` as written, over an in-memory stream: `read` copies the bytes that
   * remain (at most `width`) to the front of the buffer slice, leaves the rest
   * zero, and succeeds even when nothing is left.
   */
  function CursorIntAt(data: seq<byte>, at: nat, width: nat): (r: (int, nat))
    requires at <= |data| && 1 <= width <= 4
    ensures r.1 == if at + width <= |data| then at + width else |data|
    ensures width < 4 ==> 0 <= r.0 < Pow256(width)
    ensures at + width <= |data| ==> r.0 == IntAt(data, at, width).value.0
    ensures at == |data| ==> r.0 == 0
  {
    var end := if at + width <= |data| then at + width else |data|;
    var got := data[at..end];
    var bytes := got + seq(width - |got|, _ => 0);
    if at == |data| then
      UnsignedOfZeros(bytes);
      (ReadValue(bytes), end)
    else
      assert at + width <= |data| ==> bytes == data[at..at + width];
      (ReadValue(bytes), end)
  }

  /** `read_string(size)` at position `at`: exactly `size` bytes, `size` must be positive. */
  function StringAt(data: seq<byte>, at: nat, size: int): (r: Result<(seq<byte>, nat)>)
    requires at <= |data|
    ensures r.Ok? <==> 0 < size && at + size <= |data|
    ensures size <= 0 ==> r == Err(NonPositiveStringSize)
    ensures 0 < size && at + size > |data| ==> r == Err(UnexpectedEof)
    ensures r.Ok? ==> |r.value.0| == size && r.value.1 == at + size
    ensures r.Ok? ==> data[at..] == r.value.0 + data[r.value.1..]
  {
    if size <= 0 then
      Err(NonPositiveStringSize)
    else if at + size > |data| then
      Err(UnexpectedEof)
    else
      assert data[at..] == data[at..at + size] + data[at + size..];
      Ok((data[at..at + size], at + size))
  }

  /** An input stream positioned at `pos`: every read consumes from the front of `data[pos..]`. */
  class Reader {
    const data: seq<byte>
    var pos: nat

    ghost predicate Valid()
      reads this
    {
      pos <= |data|
    }

    constructor (data: seq<byte>)
      ensures Valid() && this.data == data && pos == 0
    {
      this.data := data;
      pos := 0;
    }

    /**
     * The read that started at `from` did what `spec` says: on success `r` holds
     * its value and `pos` its end position; on failure nothing was consumed.
     */
    ghost predicate Yields<T>(spec: Result<(T, nat)>, r: Result<T>, from: nat)
      reads this
    {
      match spec
      case Ok(v) => r == Ok(v.0) && pos == v.1
      case Err(e) => r == Err(e) && pos == from
    }

    /** Fills `buf[from..]` in place with the next bytes of the input, or fails if too few remain. */
    method ReadInto(buf: array<byte>, from: nat) returns (ok: bool)
      requires Valid() && from <= buf.Length
      modifies this, buf
      ensures Valid()
      ensures ok == (old(pos) + (buf.Length - from) <= |data|)
      ensures ok ==> pos == old(pos) + (buf.Length - from)
      ensures ok ==> buf[..] == old(buf[..from]) + data[old(pos)..pos]
      ensures !ok ==> pos == old(pos) && buf[..] == old(buf[..])
    {
      var count := buf.Length - from;
      if pos + count > |data| {
        return false;
      }
      var i := 0;
      while i < count
        invariant 0 <= i <= count && pos == old(pos)
        invariant buf[..from] == old(buf[..from])
        invariant buf[from..from + i] == data[pos..pos + i]
      {
        buf[from + i] := data[pos + i];
        i := i + 1;
      }
      assert buf[..] == buf[..from] + buf[from..from + count];
      pos := pos + count;
      ok := true;
    }

    /** `read1`: one byte, as a value in 0..255. */
    method Read1() returns (r: Result<int>)
      requires Valid()
      modifies this
      ensures Valid() && Yields(IntAt(data, old(pos), 1), r, old(pos))
    {
      var buf := new byte[1](_ => 0);
      var ok := ReadInto(buf, 0);
      if !ok {
        return Err(UnexpectedEof);
      }
      assert buf[..] == [buf[0]] && [buf[0]][..0] == [];
      r := Ok(buf[0]);
    }

    /** `read2`: two bytes into the low half of a zeroed 4-byte buffer. */
    method Read2() returns (r: Result<int>)
      requires Valid()
      modifies this
      ensures Valid() && Yields(IntAt(data, old(pos), 2), r, old(pos))
    {
      var buf := new byte[4](_ => 0);
      assert buf[..2] == seq(2, _ => 0);
      var ok := ReadInto(buf, 2);
      if !ok {
        return Err(UnexpectedEof);
      }
      assert buf[..] == ZeroExtended(data[old(pos)..pos]);
      FromBeBytesReads(data[old(pos)..pos]);
      r := Ok(FromBeBytes(buf[..]));
    }

    /** `read3`: three bytes into the low three quarters of a zeroed 4-byte buffer. */
    method Read3() returns (r: Result<int>)
      requires Valid()
      modifies this
      ensures Valid() && Yields(IntAt(data, old(pos), 3), r, old(pos))
    {
      var buf := new byte[4](_ => 0);
      assert buf[..1] == seq(1, _ => 0);
      var ok := ReadInto(buf, 1);
      if !ok {
        return Err(UnexpectedEof);
      }
      assert buf[..] == ZeroExtended(data[old(pos)..pos]);
      FromBeBytesReads(data[old(pos)..pos]);
      r := Ok(FromBeBytes(buf[..]));
    }

    /** `read4`: four bytes, read as a big-endian i32. */
    method Read4() returns (r: Result<int>)
      requires Valid()
      modifies this
      ensures Valid() && Yields(IntAt(data, old(pos), 4), r, old(pos))
    {
      var buf := new byte[4](_ => 0);
      var ok := ReadInto(buf, 0);
      if !ok {
        return Err(UnexpectedEof);
      }
      assert ZeroExtended(buf[..]) == buf[..];
      FromBeBytesReads(buf[..]);
      r := Ok(FromBeBytes(buf[..]));
    }

    /** `read_string(size)`: exactly `size` bytes; a size that is not positive aborts. */
    method ReadString(size: int) returns (r: Result<seq<byte>>)
      requires Valid()
      modifies this
      ensures Valid() && Yields(StringAt(data, old(pos), size), r, old(pos))
    {
      if size <= 0 {
        return Err(NonPositiveStringSize);
      }
      var buf := new byte[size](_ => 0);
      var ok := ReadInto(buf, 0);
      if !ok {
        return Err(UnexpectedEof);
      }
      r := Ok(buf[..]);
    }
  }

  /** The single-byte test of the reader: successive `read1` calls return successive bytes. */
  method ReadSuccessiveBytes(data: seq<byte>) returns (first: Result<int>, second: Result<int>)
    ensures first == if |data| >= 1 then Ok(data[0]) else Err(UnexpectedEof)
    ensures second == if |data| >= 2 then Ok(data[1]) else Err(UnexpectedEof)
  {
    var input := new Reader(data);
    first := input.Read1();
    second := input.Read1();
  }

  /** The string test of the reader: 11 bytes of the alphabet give its first 11 letters. */
  lemma StringAtExample(alphabet: seq<byte>)
    requires |alphabet| == 26
    ensures StringAt(alphabet, 0, 11) == Ok((alphabet[..11], 11))
  {
  }
}
