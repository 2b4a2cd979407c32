/** What the two codecs share: a symbol-to-code table used to encode, and
    the decoder's greedy loop, which appends one bit at a time to an
    accumulator and emits a symbol whenever the accumulator equals a code
    (Services/ShannonFanoCompressor.cs:140-153). */
module PrefixCodes {
  import opened BitHelper

  /** No code of the set is a prefix of a different one. */
  ghost predicate PrefixFree(codes: set<string>) {
    forall a, b | a in codes && b in codes && a != b :: !(a <= b)
  }

  /** The encoded bit string: the codes of the symbols of text, in order. */
  function Encode<T>(code: map<T, string>, text: seq<T>): (bits: string)
    requires forall x | x in text :: x in code
  {
    if |text| == 0 then "" else code[text[0]] + Encode(code, text[1..])
  }

  /** The decoder loop: `currentBits.Append(bit)`, then on a table hit emit
      the symbol and clear the accumulator. Bits left in the accumulator at
      the end are dropped. */
  function Greedy<T>(table: map<string, T>, bits: string, acc: string): seq<T>
    decreases |bits|
  {
    if |bits| == 0 then []
    else
      var cur := acc + [bits[0]];
      if cur in table then [table[cur]] + Greedy(table, bits[1..], "")
      else Greedy(table, bits[1..], cur)
  }

  /** Encoding with binary codes gives a binary string. */
  lemma {:induction false} EncodeIsBitString<T>(code: map<T, string>, text: seq<T>)
    requires forall x | x in text :: x in code && IsBitString(code[x])
    ensures IsBitString(Encode(code, text))
  {
    if |text| > 0 {
      EncodeIsBitString(code, text[1..]);
    }
  }

  /** Decoding a prefix-free table: once the accumulator holds the first k
      bits of a code c, the decoder emits c's symbol exactly when the rest of
      c has been read, and starts afresh after it. */
  lemma {:induction false} GreedyReadsCode<T>(table: map<string, T>, c: string, k: nat, rest: string)
    requires c in table && PrefixFree(table.Keys) && k < |c|
    ensures Greedy(table, c[k..] + rest, c[..k]) == [table[c]] + Greedy(table, rest, "")
    decreases |c| - k
  {
    var bits := c[k..] + rest;
    assert bits[0] == c[k];
    assert c[..k] + [bits[0]] == c[..k + 1];
    assert bits[1..] == c[k + 1..] + rest;
    if k + 1 == |c| {
      assert c[..k + 1] == c;
      assert c[k + 1..] == "";
      assert bits[1..] == rest;
    } else {
      var cur := c[..k + 1];
      assert cur <= c && cur != c;
      assert cur !in table;
      GreedyReadsCode(table, c, k + 1, rest);
    }
  }

  /** Trailing bits that never complete a code produce nothing. */
  lemma {:induction false} GreedyDropsUnmatched<T>(table: map<string, T>, bits: string, acc: string)
    requires forall k | 1 <= k <= |bits| :: acc + bits[..k] !in table
    ensures Greedy(table, bits, acc) == []
    decreases |bits|
  {
    if |bits| > 0 {
      var cur := acc + [bits[0]];
      assert cur == acc + bits[..1];
      forall k | 1 <= k <= |bits| - 1
        ensures cur + bits[1..][..k] !in table
      {
        assert cur + bits[1..][..k] == acc + bits[..k + 1];
      }
      GreedyDropsUnmatched(table, bits[1..], cur);
    }
  }

  /** Decoding a concatenation: when the first part is a sequence of whole
      codes, the decoder's output splits accordingly. */
  lemma {:induction false} GreedyAppend<T>(code: map<T, string>, table: map<string, T>, text: seq<T>, tail: string)
    requires forall x | x in text :: x in code && |code[x]| > 0 && code[x] in table && table[code[x]] == x
    requires PrefixFree(table.Keys)
    ensures Greedy(table, Encode(code, text) + tail, "") == text + Greedy(table, tail, "")
  {
    if |text| == 0 {
      assert Encode(code, text) + tail == tail;
    } else {
      var c := code[text[0]];
      var rest := Encode(code, text[1..]);
      assert c[0..] == c && c[..0] == "";
      assert Encode(code, text) + tail == c[0..] + (rest + tail);
      GreedyReadsCode(table, c, 0, rest + tail);
      GreedyAppend(code, table, text[1..], tail);
      assert text == [text[0]] + text[1..];
    }
  }

  /** Round trip: with non-empty codes whose table inverts the code map and
      is prefix-free, the decoder recovers the encoded text. */
  lemma GreedyDecodes<T>(code: map<T, string>, table: map<string, T>, text: seq<T>)
    requires forall x | x in text :: x in code && |code[x]| > 0 && code[x] in table && table[code[x]] == x
    requires PrefixFree(table.Keys)
    ensures Greedy(table, Encode(code, text), "") == text
  {
    GreedyAppend(code, table, text, "");
    assert Encode(code, text) + "" == Encode(code, text);
    assert text + [] == text;
  }
}
