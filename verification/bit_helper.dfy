/** `BitHelper.ConvertToBytes`: packs a string of '0'/'1' characters into
    bytes, most significant bit first, zero-padding the last byte.

    The inverse `ConvertToBitString` is called by the Shannon-Fano decoder but
    is not part of this model's source; `ConvertToBitString` below is the
    inverse the packer implies (first `bitLength` bits, most significant first),
    stated as an assumption. */
module BitHelper {
  import opened Common

  /** Every character is '0' or '1'. */
  predicate IsBitString(s: string) {
    forall i | 0 <= i < |s| :: s[i] == '0' || s[i] == '1'
  }

  /** The bit the packer stores for input position i: only the character
      '1' sets a bit, and positions past the end are padding. */
  predicate SetsBit(s: string, i: nat) {
    i < |s| && s[i] == '1'
  }

  /** The number whose binary digits, most significant first, are `bits`. */
  function FromBits(bits: seq<bool>): (v: nat)
    ensures v < Pow2(|bits|)
  {
    if |bits| == 0 then 0
    else 2 * FromBits(bits[..|bits| - 1]) + (if bits[|bits| - 1] then 1 else 0)
  }

  /** The lowest n binary digits of v, most significant first. */
  function ToBits(v: nat, n: nat): (bits: seq<bool>)
    ensures |bits| == n
  {
    if n == 0 then [] else ToBits(v / 2, n - 1) + [v % 2 == 1]
  }

  lemma {:induction false} ToBitsFromBits(bits: seq<bool>)
    ensures ToBits(FromBits(bits), |bits|) == bits
  {
    if |bits| > 0 {
      var init := bits[..|bits| - 1];
      ToBitsFromBits(init);
      assert init + [bits[|bits| - 1]] == bits;
    }
  }

  /** The eight bits of the byte number k of the output: input positions
      8k .. 8k+7, padded with zeros past the end of s. */
  function Chunk(s: string, k: nat): (c: seq<bool>)
    ensures |c| == 8
  {
    seq(8, j requires 0 <= j < 8 => SetsBit(s, 8 * k + j))
  }

  /** BitHelper.ConvertToBytes (helpers/ConvertToBytes.cs:7-21). */
  function ConvertToBytes(s: string): (r: seq<byte>)
    ensures |r| == (|s| + 7) / 8
  {
    seq((|s| + 7) / 8, k requires 0 <= k => assert Pow2(8) == 256; FromBits(Chunk(s, k)))
  }

  /** The eight bits of a byte, most significant first. */
  function BitsOf(b: byte): (bits: seq<bool>)
    ensures |bits| == 8
  {
    ToBits(b, 8)
  }

  /** Bit number i of a byte buffer read most significant bit first. */
  function BitAt(bytes: seq<byte>, i: nat): bool
    requires i < 8 * |bytes|
  {
    BitsOf(bytes[i / 8])[i % 8]
  }

  /** Input position i lands in byte i/8 at MSB-first position i%8, it is set
      exactly when the input has '1' there, and every padding bit is 0. */
  lemma ConvertToBytesBits(s: string)
    ensures var r := ConvertToBytes(s);
      forall i | 0 <= i < 8 * |r| :: BitAt(r, i) == SetsBit(s, i)
  {
    var r := ConvertToBytes(s);
    forall i | 0 <= i < 8 * |r|
      ensures BitAt(r, i) == SetsBit(s, i)
    {
      var k := i / 8;
      ToBitsFromBits(Chunk(s, k));
      assert BitsOf(r[k]) == Chunk(s, k);
      assert 8 * k + i % 8 == i;
    }
  }

  /** The packed buffer always has room for every input bit, and no more
      than seven padding bits. */
  lemma ConvertToBytesRoom(s: string)
    ensures |s| <= 8 * |ConvertToBytes(s)| < |s| + 8
  {
  }

  /** (v / 2^(k+1)) is (v / 2) / 2^k: one more halving. */
  lemma {:induction false} DivPow2Step(v: nat, k: nat)
    ensures v / 2 / Pow2(k) == v / Pow2(k + 1)
  {
    var p := Pow2(k);
    var q := v / 2;
    var q' := q / p;
    var r' := q % p;
    assert q == p * q' + r';
    assert v == 2 * q + v % 2;
    assert v == (2 * p) * q' + (2 * r' + v % 2);
    assert 0 <= 2 * r' + v % 2 < 2 * p;
    DivUnique(v, 2 * p, q', 2 * r' + v % 2);
  }

  lemma DivUnique(v: nat, d: nat, q: nat, r: nat)
    requires d > 0 && v == d * q + r && r < d
    ensures v / d == q
  {
    var q0, r0 := v / d, v % d;
    assert v == d * q0 + r0;
    if q > q0 {
      MulAtLeast(d, q - q0);
    } else if q < q0 {
      MulAtLeast(d, q0 - q);
    }
  }

  lemma MulAtLeast(d: nat, k: nat)
    requires k >= 1
    ensures d * k >= d
  {
    assert d * k == d + d * (k - 1);
  }

  /** Position p of ToBits(v, n) is the binary digit of weight 2^(n-1-p). */
  lemma {:induction false} ToBitsWeight(v: nat, n: nat, p: nat)
    requires p < n
    ensures ToBits(v, n)[p] == ((v / Pow2(n - 1 - p)) % 2 == 1)
  {
    if p == n - 1 {
      assert ToBits(v, n)[p] == (v % 2 == 1);
    } else {
      assert ToBits(v, n)[p] == ToBits(v / 2, n - 1)[p];
      ToBitsWeight(v / 2, n - 1, p);
      DivPow2Step(v, n - 2 - p);
    }
  }

  /** The shape the packing loop writes: `bytes[i / 8] |= 1 << (7 - i % 8)`
      exactly for the positions holding '1'. */
  lemma ConvertToBytesWeights(s: string, i: nat)
    requires i < 8 * |ConvertToBytes(s)|
    ensures (ConvertToBytes(s)[i / 8] / Pow2(7 - i % 8)) % 2 == (if SetsBit(s, i) then 1 else 0)
  {
    ConvertToBytesBits(s);
    ToBitsWeight(ConvertToBytes(s)[i / 8], 8, i % 8);
  }

  /** The decoder's `ConvertToBitString(bytes, bitLength)`: the first
      bitLength bits, most significant first, as '0'/'1' characters. Fails
      (None) when bitLength is negative or exceeds the bits available. */
  function ConvertToBitString(bytes: seq<byte>, bitLength: int): (r: Option<string>)
    ensures r.Some? <==> 0 <= bitLength <= 8 * |bytes|
    ensures r.Some? ==> |r.value| == bitLength && IsBitString(r.value)
  {
    if 0 <= bitLength <= 8 * |bytes| then
      Some(seq(bitLength, i requires 0 <= i < bitLength => if BitAt(bytes, i) then '1' else '0'))
    else
      None
  }

  /** Round trip of the bit packer: reading back |s| bits from the packed
      buffer gives s, for every string of '0'/'1' including the empty one. */
  lemma PackRoundTrip(s: string)
    requires IsBitString(s)
    ensures ConvertToBitString(ConvertToBytes(s), |s|) == Some(s)
  {
    ConvertToBytesBits(s);
    var t := ConvertToBitString(ConvertToBytes(s), |s|).value;
    assert forall i | 0 <= i < |s| :: t[i] == s[i];
    assert t == s;
  }
}
