/** The frequency count both codecs start from: a dictionary from symbol to
    number of occurrences, filled by one pass over the input
    (`if (!freq.ContainsKey(c)) freq[c] = 0; freq[c]++;`).

    The dictionary is modelled as a sequence of records in the order the
    symbols were first inserted, which is the order in which .NET's
    `Dictionary` enumerates when nothing is ever removed. */
module Frequencies {

  datatype SymbolFreq<T> = SymbolFreq(symbol: T, freq: nat)

  /** Number of occurrences of x in s. */
  function Count<T(==)>(s: seq<T>, x: T): nat {
    if |s| == 0 then 0 else Count(s[..|s| - 1], x) + (if s[|s| - 1] == x then 1 else 0)
  }

  function Symbols<T>(t: seq<SymbolFreq<T>>): (r: seq<T>)
    ensures |r| == |t|
  {
    seq(|t|, i requires 0 <= i < |t| => t[i].symbol)
  }

  predicate DistinctSymbols<T(==)>(t: seq<SymbolFreq<T>>) {
    forall i, j | 0 <= i < j < |t| :: t[i].symbol != t[j].symbol
  }

  /** Sum of the frequencies of a table. */
  function TotalFreq<T>(t: seq<SymbolFreq<T>>): nat {
    if |t| == 0 then 0 else TotalFreq(t[..|t| - 1]) + t[|t| - 1].freq
  }

  /** `ContainsKey` / the indexer: the position of x's record, or -1. */
  function IndexOf<T(==)>(t: seq<SymbolFreq<T>>, x: T): (i: int)
    ensures -1 <= i < |t|
    ensures 0 <= i ==> t[i].symbol == x
    ensures i < 0 ==> forall k | 0 <= k < |t| :: t[k].symbol != x
  {
    if |t| == 0 then -1
    else if t[0].symbol == x then 0
    else
      var j := IndexOf(t[1..], x);
      if j < 0 then -1 else j + 1
  }

  /** One iteration of the counting loop. */
  function Bump<T(==)>(t: seq<SymbolFreq<T>>, x: T): seq<SymbolFreq<T>> {
    var i := IndexOf(t, x);
    if i < 0 then t + [SymbolFreq(x, 1)] else t[i := SymbolFreq(x, t[i].freq + 1)]
  }

  /** `BuildFrequencyTable` of both codecs (Services/HuffmanCompressor.cs:20-30,
      Services/ShannonFanoCompressor.cs:28-38): the counting loop over s. */
  function Tally<T(==)>(s: seq<T>): (t: seq<SymbolFreq<T>>)
    ensures |t| <= |s|
  {
    if |s| == 0 then [] else Bump(Tally(s[..|s| - 1]), s[|s| - 1])
  }

  /** t is a frequency table of s: one record per distinct symbol of s, each
      with that symbol's number of occurrences (so at least 1), and the
      frequencies add up to the length of s. */
  ghost predicate IsFrequencyTable<T>(s: seq<T>, t: seq<SymbolFreq<T>>) {
    && DistinctSymbols(t)
    && (forall i | 0 <= i < |t| :: t[i].freq == Count(s, t[i].symbol) && t[i].freq >= 1)
    && (forall x | x in s :: x in Symbols(t))
    && (forall i | 0 <= i < |t| :: t[i].symbol in s)
    && TotalFreq(t) == |s|
  }

  lemma {:induction false} CountAbsent<T>(s: seq<T>, x: T)
    requires x !in s
    ensures Count(s, x) == 0
  {
    if |s| > 0 {
      assert s[|s| - 1] != x;
      CountAbsent(s[..|s| - 1], x);
    }
  }

  lemma {:induction false} TotalFreqUpdate<T>(t: seq<SymbolFreq<T>>, i: nat, e: SymbolFreq<T>)
    requires i < |t|
    ensures TotalFreq(t[i := e]) + t[i].freq == TotalFreq(t) + e.freq
    decreases |t|
  {
    var n := |t| - 1;
    if i < n {
      assert t[i := e][..n] == t[..n][i := e];
      TotalFreqUpdate(t[..n], i, e);
    } else {
      assert t[i := e][..n] == t[..n];
    }
  }

  lemma CountSnoc<T>(p: seq<T>, x: T, y: T)
    ensures Count(p + [x], y) == Count(p, y) + (if x == y then 1 else 0)
  {
    assert (p + [x])[..|p|] == p;
  }

  /** A symbol seen for the first time gets a new record with count 1. */
  lemma BumpNew<T>(p: seq<T>, t0: seq<SymbolFreq<T>>, x: T)
    requires IsFrequencyTable(p, t0) && IndexOf(t0, x) < 0
    ensures IsFrequencyTable(p + [x], Bump(t0, x))
  {
    var s, t := p + [x], t0 + [SymbolFreq(x, 1)];
    assert x !in p;
    CountAbsent(p, x);
    CountSnoc(p, x, x);
    BumpCounts(p, t0, x, t0);
    assert Symbols(t) == Symbols(t0) + [x];
    assert t[..|t| - 1] == t0;
  }

  /** Appending x leaves the count of every record of t0 but x's right. */
  lemma BumpCounts<T>(p: seq<T>, t0: seq<SymbolFreq<T>>, x: T, t: seq<SymbolFreq<T>>)
    requires forall i | 0 <= i < |t0| :: t0[i].freq == Count(p, t0[i].symbol) && t0[i].freq >= 1
    requires |t0| <= |t|
    requires forall i | 0 <= i < |t0| :: t[i] == (if t0[i].symbol == x then SymbolFreq(x, t0[i].freq + 1) else t0[i])
    ensures forall i | 0 <= i < |t0| :: t[i].freq == Count(p + [x], t[i].symbol) && t[i].freq >= 1
  {
    forall i | 0 <= i < |t0|
      ensures t[i].freq == Count(p + [x], t[i].symbol)
    {
      CountSnoc(p, x, t0[i].symbol);
    }
  }

  /** A symbol seen before has its record's count incremented in place. */
  lemma BumpExisting<T>(p: seq<T>, t0: seq<SymbolFreq<T>>, x: T)
    requires IsFrequencyTable(p, t0) && IndexOf(t0, x) >= 0
    ensures IsFrequencyTable(p + [x], Bump(t0, x))
  {
    var i := IndexOf(t0, x);
    var t := t0[i := SymbolFreq(x, t0[i].freq + 1)];
    assert Bump(t0, x) == t;
    forall k | 0 <= k < |t0|
      ensures t[k] == (if t0[k].symbol == x then SymbolFreq(x, t0[k].freq + 1) else t0[k])
    {
      if k != i {
        assert t0[k].symbol != t0[i].symbol;
      }
    }
    BumpCounts(p, t0, x, t);
    assert Symbols(t) == Symbols(t0);
    assert forall k | 0 <= k < |t| :: t[k].symbol == t0[k].symbol;
    assert DistinctSymbols(t);
    assert forall y | y in p + [x] :: y in Symbols(t);
    assert forall k | 0 <= k < |t| :: t[k].symbol in p + [x];
    TotalFreqUpdate(t0, i, SymbolFreq(x, t0[i].freq + 1));
  }

  /** The counting loop builds a frequency table. */
  lemma {:induction false} TallyIsFrequencyTable<T>(s: seq<T>)
    ensures IsFrequencyTable(s, Tally(s))
  {
    if |s| > 0 {
      var p, x := s[..|s| - 1], s[|s| - 1];
      assert s == p + [x];
      TallyIsFrequencyTable(p);
      if IndexOf(Tally(p), x) < 0 {
        BumpNew(p, Tally(p), x);
      } else {
        BumpExisting(p, Tally(p), x);
      }
    }
  }

  /** Two different symbols occur in s. */
  predicate TwoSymbols<T(==)>(s: seq<T>) {
    exists i, j | 0 <= i < |s| && 0 <= j < |s| :: s[i] != s[j]
  }

  /** The table has at least two records exactly when the input holds two
      different symbols. */
  lemma TallyAtLeastTwo<T>(s: seq<T>)
    ensures |Tally(s)| >= 2 <==> TwoSymbols(s)
  {
    TallyIsFrequencyTable(s);
    var t := Tally(s);
    if |t| >= 2 {
      assert t[0].symbol in Symbols(t) && t[1].symbol in Symbols(t);
      var i :| 0 <= i < |s| && s[i] == t[0].symbol;
      var j :| 0 <= j < |s| && s[j] == t[1].symbol;
    }
    if exists i, j | 0 <= i < |s| && 0 <= j < |s| :: s[i] != s[j] {
      var i, j :| 0 <= i < |s| && 0 <= j < |s| && s[i] != s[j];
      assert s[i] in Symbols(t) && s[j] in Symbols(t);
      var a :| 0 <= a < |t| && t[a].symbol == s[i];
      var b :| 0 <= b < |t| && t[b].symbol == s[j];
      assert a != b;
    }
  }
}
