/** The parts of .NET's `BinaryWriter` and `BinaryReader` that the payload
    and archive formats use, modelled over a byte buffer:

    - `Write(int)` / `ReadInt32`: four bytes, little-endian two's complement;
    - `Write(byte)` / `ReadByte`: one byte;
    - `Write(char[])` / `ReadChars(n)`: one byte per character;
    - `Write(string)` / `ReadString`: a 7-bit-encoded length, then the characters.

    Characters are modelled as one byte each, which is exactly what UTF-8
    writes for ASCII; the round-trip lemmas are stated for ASCII text.

    A reader is a buffer and a position; the position may lie past the end of
    the buffer after a `Seek`. A read that throws in .NET returns `None`. */
module BinaryIO {
  import opened Common

  const TWO_31: int := 0x8000_0000
  const TWO_32: int := 0x1_0000_0000

  predicate IsInt32(x: int) {
    -TWO_31 <= x < TWO_31
  }

  /** C#'s unchecked `int` arithmetic: x reduced to the 32-bit two's
      complement range. */
  function Wrap32(x: int): (r: int)
    ensures IsInt32(r)
    ensures (r - x) % TWO_32 == 0
    ensures IsInt32(x) ==> r == x
  {
    (x + TWO_31) % TWO_32 - TWO_31
  }

  /** C#'s integer division, which truncates toward zero. */
  function TruncDiv(a: int, d: int): (q: int)
    requires d > 0
    ensures a >= 0 ==> q == a / d
    ensures a < 0 ==> q <= 0 && q == -((-a) / d)
  {
    if a >= 0 then a / d else -((-a) / d)
  }

  predicate IsAscii(s: string) {
    forall i | 0 <= i < |s| :: s[i] as int < 128
  }

  /** The bytes `w` occur in `data` starting at `pos`. */
  predicate At(data: seq<byte>, pos: nat, w: seq<byte>) {
    pos + |w| <= |data| && forall i | 0 <= i < |w| :: data[pos + i] == w[i]
  }

  /** `At` is the slice of `data` at `pos` being `w`. */
  lemma AtSlice(data: seq<byte>, pos: nat, w: seq<byte>)
    ensures At(data, pos, w) <==> pos + |w| <= |data| && data[pos..pos + |w|] == w
  {
    if pos + |w| <= |data| && data[pos..pos + |w|] == w {
      forall i | 0 <= i < |w|
        ensures data[pos + i] == w[i]
      {
        assert data[pos..pos + |w|][i] == data[pos + i];
      }
    }
  }

  /** The whole of a sequence occurs in it at 0. */
  lemma AtWhole(data: seq<byte>)
    ensures At(data, 0, data)
  {
  }

  /** A part of bytes that occur at pos occurs at pos plus its start. */
  lemma AtSub(data: seq<byte>, pos: nat, w: seq<byte>, i: nat, j: nat)
    requires At(data, pos, w) && i <= j <= |w|
    ensures At(data, pos + i, w[i..j])
  {
  }

  /** Each part of a concatenation occurs in it. */
  lemma AtAppend(a: seq<byte>, b: seq<byte>)
    ensures At(a + b, 0, a) && At(a + b, |a|, b)
  {
  }

  /** Each of four consecutive parts occurs in their concatenation. */
  lemma AtFour(a: seq<byte>, b: seq<byte>, c: seq<byte>, d: seq<byte>)
    ensures var w := a + (b + (c + d));
      && At(w, 0, a) && At(w, |a|, b) && At(w, |a| + |b|, c) && At(w, |a| + |b| + |c|, d)
  {
    var w := a + (b + (c + d));
    AtAppend(a, b + (c + d));
    AtConcat(w, |a|, b, c + d);
    AtConcat(w, |a| + |b|, c, d);
  }

  /** Each of four consecutive parts that occur at pos occurs at its own
      offset. */
  lemma AtSplit4(data: seq<byte>, pos: nat, a: seq<byte>, b: seq<byte>, c: seq<byte>, d: seq<byte>)
    requires At(data, pos, a + (b + (c + d)))
    ensures At(data, pos, a) && At(data, pos + |a|, b)
    ensures At(data, pos + |a| + |b|, c) && At(data, pos + |a| + |b| + |c|, d)
  {
    AtConcat(data, pos, a, b + (c + d));
    AtConcat(data, pos + |a|, b, c + d);
    AtConcat(data, pos + |a| + |b|, c, d);
  }

  lemma AtConcat(data: seq<byte>, pos: nat, w1: seq<byte>, w2: seq<byte>)
    requires At(data, pos, w1 + w2)
    ensures At(data, pos, w1) && At(data, pos + |w1|, w2)
  {
    forall i | 0 <= i < |w1|
      ensures data[pos + i] == w1[i]
    {
      assert (w1 + w2)[i] == w1[i];
    }
    forall i | 0 <= i < |w2|
      ensures data[pos + |w1| + i] == w2[i]
    {
      assert (w1 + w2)[|w1| + i] == w2[i];
    }
  }

  // ---------------------------------------------------------------- writers

  /** `BinaryWriter.Write(int)`: the low 32 bits of x, least significant
      byte first. */
  function Int32Bytes(x: int): (r: seq<byte>)
    ensures |r| == 4
  {
    var q0 := x % TWO_32;
    var q1 := q0 / 256;
    var q2 := q1 / 256;
    var q3 := q2 / 256;
    [q0 % 256, q1 % 256, q2 % 256, q3]
  }

  /** `Write(char[])`: one byte per character (ASCII-exact). */
  function CharBytes(s: string): (r: seq<byte>)
    ensures |r| == |s|
  {
    if |s| == 0 then [] else [(s[0] as int) % 256] + CharBytes(s[1..])
  }

  /** `Write7BitEncodedInt` for a non-negative value: seven bits per byte,
      low group first, the high bit of a byte set when more bytes follow. */
  function Encode7Bit(n: nat): (r: seq<byte>)
    ensures 1 <= |r|
    decreases n
  {
    if n < 128 then [n] else [n % 128 + 128] + Encode7Bit(n / 128)
  }

  /** `BinaryWriter.Write(string)`: the byte length as a 7-bit-encoded
      integer, then the characters. */
  function StringBytes(s: string): seq<byte> {
    Encode7Bit(|s|) + CharBytes(s)
  }

  // ---------------------------------------------------------------- readers

  /** `ReadByte`: fails at the end of the stream. */
  function ReadByte(data: seq<byte>, pos: nat): (r: Option<Parsed<byte>>)
    ensures r.Some? <==> pos < |data|
    ensures r.Some? ==> r.value == Parsed(data[pos], pos + 1)
  {
    if pos < |data| then Some(Parsed(data[pos], pos + 1)) else None
  }

  /** The signed value of four little-endian bytes. */
  function DecodeInt32(b0: byte, b1: byte, b2: byte, b3: byte): (x: int)
    ensures IsInt32(x)
  {
    var u := b0 as int + 256 * (b1 as int) + 65536 * (b2 as int) + 16777216 * (b3 as int);
    if u < TWO_31 then u else u - TWO_32
  }

  /** `ReadInt32`: fails unless four bytes remain. */
  function ReadInt32(data: seq<byte>, pos: nat): (r: Option<Parsed<int>>)
    ensures r.Some? <==> pos + 4 <= |data|
    ensures r.Some? ==> IsInt32(r.value.value) && r.value.next == pos + 4
  {
    if pos + 4 <= |data| then
      Some(Parsed(DecodeInt32(data[pos], data[pos + 1], data[pos + 2], data[pos + 3]), pos + 4))
    else
      None
  }

  /** The bytes of data from pos on, n of them, or as many as there are
      when data ends first. */
  function TakeAt(data: seq<byte>, pos: nat, n: nat): (r: seq<byte>)
    ensures |r| <= n
    ensures pos + n <= |data| ==> |r| == n
    decreases n
  {
    if n == 0 || pos >= |data| then [] else [data[pos]] + TakeAt(data, pos + 1, n - 1)
  }

  /** `ReadBytes(count)`: a negative count throws; near the end of the
      stream fewer bytes than asked for are returned, without error. */
  function ReadBytes(data: seq<byte>, pos: nat, count: int): (r: Option<Parsed<seq<byte>>>)
    ensures r.Some? <==> count >= 0
    ensures r.Some? ==> |r.value.value| <= count && r.value.next == pos + |r.value.value|
    ensures r.Some? && pos + count <= |data| ==> |r.value.value| == count
  {
    if count < 0 then None
    else
      var bytes := TakeAt(data, pos, count);
      Some(Parsed(bytes, pos + |bytes|))
  }

  lemma {:induction false} TakeAtAt(data: seq<byte>, pos: nat, w: seq<byte>)
    requires At(data, pos, w)
    ensures TakeAt(data, pos, |w|) == w
    decreases |w|
  {
    if |w| > 0 {
      assert At(data, pos + 1, w[1..]) by {
        forall i | 0 <= i < |w| - 1
          ensures data[pos + 1 + i] == w[1..][i]
        {
          assert data[pos + (i + 1)] == w[i + 1];
        }
      }
      TakeAtAt(data, pos + 1, w[1..]);
      assert w == [w[0]] + w[1..];
    }
  }

  /** Reading back a whole field that is there. */
  lemma {:induction false} ReadBytesAt(data: seq<byte>, pos: nat, w: seq<byte>)
    requires At(data, pos, w)
    ensures ReadBytes(data, pos, |w|) == Some(Parsed(w, pos + |w|))
  {
    TakeAtAt(data, pos, w);
  }

  /** Away from the end of the stream, `ReadBytes` returns the slice asked for. */
  lemma {:induction false} ReadBytesSlice(data: seq<byte>, pos: nat, count: nat)
    requires pos + count <= |data|
    ensures ReadBytes(data, pos, count) == Some(Parsed(data[pos..pos + count], pos + count))
  {
    AtSlice(data, pos, data[pos..pos + count]);
    ReadBytesAt(data, pos, data[pos..pos + count]);
  }

  /** The characters one byte each decodes to. */
  function BytesToChars(bytes: seq<byte>): (s: string)
    ensures |s| == |bytes|
  {
    if |bytes| == 0 then [] else [bytes[0] as char] + BytesToChars(bytes[1..])
  }

  /** `ReadChars(count)`: like `ReadBytes`, one character per byte. */
  function ReadChars(data: seq<byte>, pos: nat, count: int): (r: Option<Parsed<string>>)
    ensures r.Some? <==> count >= 0
    ensures r.Some? ==> |r.value.value| <= count && r.value.next >= pos
  {
    var bytes :- ReadBytes(data, pos, count);
    Some(Parsed(BytesToChars(bytes.value), bytes.next))
  }

  /** `Seek(offset, SeekOrigin.Current)`: moving before the start of the
      stream throws; moving past its end is allowed. */
  function Seek(pos: nat, offset: int): (r: Option<nat>)
    ensures r.Some? <==> pos + offset >= 0
    ensures r.Some? ==> r.value == pos + offset
  {
    if pos + offset >= 0 then Some(pos + offset) else None
  }

  /** The weight of the 7-bit group number k. */
  function Group(k: nat): nat
    requires k <= 4
  {
    if k == 0 then 1
    else if k == 1 then 128
    else if k == 2 then 16384
    else if k == 3 then 2097152
    else 268435456
  }

  /** `Read7BitEncodedInt` from group k on, with `acc` the value of the
      groups already read: at most four bytes with the continuation bit, and
      a fifth byte that must not exceed 15 (a format error otherwise). */
  function Read7BitFrom(data: seq<byte>, pos: nat, k: nat, acc: nat): (r: Option<Parsed<int>>)
    requires k <= 4 && acc < Group(k)
    ensures r.Some? ==> IsInt32(r.value.value) && r.value.next > pos
    decreases 4 - k
  {
    var b :- ReadByte(data, pos);
    if k == 4 then
      if b.value > 15 then None
      else Some(Parsed(DecodeUInt32(acc + b.value * Group(4)), b.next))
    else if b.value < 128 then
      Some(Parsed(acc + b.value * Group(k), b.next))
    else
      Read7BitFrom(data, b.next, k + 1, acc + (b.value - 128) * Group(k))
  }

  /** The 32-bit value u read as a signed `int`. */
  function DecodeUInt32(u: nat): (x: int)
    requires u < TWO_32
    ensures IsInt32(x) && (x - u) % TWO_32 == 0
  {
    if u < TWO_31 then u else u - TWO_32
  }

  function Read7BitEncodedInt(data: seq<byte>, pos: nat): (r: Option<Parsed<int>>)
    ensures r.Some? ==> IsInt32(r.value.value) && r.value.next > pos
  {
    Read7BitFrom(data, pos, 0, 0)
  }

  /** `ReadString`: a negative length throws, and so does a string cut
      short by the end of the stream. */
  function ReadString(data: seq<byte>, pos: nat): (r: Option<Parsed<string>>)
    ensures r.Some? ==> r.value.next > pos + |r.value.value|
  {
    var len :- Read7BitEncodedInt(data, pos);
    if len.value < 0 || len.next + len.value > |data| then None
    else Some(Parsed(BytesToChars(data[len.next..len.next + len.value]), len.next + len.value))
  }

  // ------------------------------------------------------------ round trips

  /** The four bytes written for an `int` decode back to it. */
  lemma Int32Decode(x: int)
    requires IsInt32(x)
    ensures var w := Int32Bytes(x); DecodeInt32(w[0], w[1], w[2], w[3]) == x
  {
    var q0 := x % TWO_32;
    var q1 := q0 / 256;
    var q2 := q1 / 256;
    var q3 := q2 / 256;
    assert q0 == q0 % 256 + 256 * q1;
    assert q1 == q1 % 256 + 256 * q2;
    assert q2 == q2 % 256 + 256 * q3;
  }

  lemma Int32RoundTrip(data: seq<byte>, pos: nat, x: int)
    requires IsInt32(x) && At(data, pos, Int32Bytes(x))
    ensures ReadInt32(data, pos) == Some(Parsed(x, pos + 4))
  {
    var w := Int32Bytes(x);
    assert data[pos] == w[0] && data[pos + 1] == w[1] && data[pos + 2] == w[2] && data[pos + 3] == w[3];
    Int32Decode(x);
  }

  lemma {:induction false} CharsRoundTrip(data: seq<byte>, pos: nat, s: string)
    requires IsAscii(s) && At(data, pos, CharBytes(s))
    ensures ReadChars(data, pos, |s|) == Some(Parsed(s, pos + |s|))
  {
    var w := CharBytes(s);
    ReadBytesAt(data, pos, w);
    AsciiBytesToChars(w, s);
    CharsOfBytes(data, pos, w, s);
  }

  /** `ReadChars` is `ReadBytes` seen through `BytesToChars`. */
  lemma {:induction false} CharsOfBytes(data: seq<byte>, pos: nat, w: seq<byte>, s: string)
    requires ReadBytes(data, pos, |w|) == Some(Parsed(w, pos + |w|))
    requires BytesToChars(w) == s
    ensures ReadChars(data, pos, |w|) == Some(Parsed(s, pos + |w|))
  {
  }

  lemma {:induction false} AsciiBytesToChars(bytes: seq<byte>, s: string)
    requires IsAscii(s) && bytes == CharBytes(s)
    ensures BytesToChars(bytes) == s
  {
    if |s| > 0 {
      assert s[0] as int < 128;
      assert IsAscii(s[1..]) by {
        forall i | 0 <= i < |s[1..]| ensures s[1..][i] as int < 128 {
          assert s[1..][i] == s[i + 1];
        }
      }
      AsciiBytesToChars(bytes[1..], s[1..]);
      assert s == [s[0]] + s[1..];
    }
  }

  lemma {:induction false} Read7BitRoundTrip(data: seq<byte>, pos: nat, k: nat, acc: nat, m: nat)
    requires k <= 4 && acc < Group(k)
    requires acc + m * Group(k) < TWO_31
    requires At(data, pos, Encode7Bit(m))
    ensures Read7BitFrom(data, pos, k, acc) == Some(Parsed(acc + m * Group(k), pos + |Encode7Bit(m)|))
    decreases 4 - k
  {
    var w := Encode7Bit(m);
    assert data[pos] == w[0];
    if m < 128 {
      assert w[0] == m;
      if k == 4 {
        assert m <= 7;
      }
    } else {
      assert w == [m % 128 + 128] + Encode7Bit(m / 128);
      assert k < 4;
      AtConcat(data, pos, [m % 128 + 128], Encode7Bit(m / 128));
      assert Group(k + 1) == 128 * Group(k);
      GroupStep(m, Group(k), acc);
      Read7BitRoundTrip(data, pos + 1, k + 1, acc + (m % 128) * Group(k), m / 128);
    }
  }

  /** Splitting m into its low seven bits and the rest, scaled by a group
      weight g. */
  lemma GroupStep(m: nat, g: nat, acc: nat)
    requires acc < g
    ensures m * g == (m % 128) * g + (m / 128) * (128 * g)
    ensures acc + (m % 128) * g < 128 * g
  {
    var a, b := m % 128, m / 128;
    assert m == a + 128 * b;
    calc {
      m * g;
      (a + 128 * b) * g;
      { Distrib(a, 128 * b, g); }
      a * g + (128 * b) * g;
      { assert (128 * b) * g == b * (128 * g); }
      a * g + b * (128 * g);
    }
    Distrib(a, 127 - a, g);
  }

  lemma Distrib(x: int, y: int, g: int)
    ensures (x + y) * g == x * g + y * g
  {
  }

  lemma StringRoundTrip(data: seq<byte>, pos: nat, s: string)
    requires IsAscii(s) && |s| < TWO_31 && At(data, pos, StringBytes(s))
    ensures ReadString(data, pos) == Some(Parsed(s, pos + |StringBytes(s)|))
  {
    AtConcat(data, pos, Encode7Bit(|s|), CharBytes(s));
    Read7BitRoundTrip(data, pos, 0, 0, |s|);
    var start := pos + |Encode7Bit(|s|)|;
    AtSlice(data, start, CharBytes(s));
    AsciiBytesToChars(data[start..start + |s|], s);
  }
}
