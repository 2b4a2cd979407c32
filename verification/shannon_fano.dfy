/** `ShannonFanoCompressor` (Services/ShannonFanoCompressor.cs): the frequency
    table sorted by descending frequency, codes by recursive bisection, the
    self-describing payload, and the greedy decoder. */
module ShannonFano {
  import opened Common
  import opened BinaryIO
  import opened BitHelper
  import opened Frequencies
  import opened PrefixCodes

  // ------------------------------------------------------ frequency table

  predicate SortedDesc<T>(t: seq<SymbolFreq<T>>) {
    forall i, j | 0 <= i < j < |t| :: t[i].freq >= t[j].freq
  }

  /** Inserts x after every record whose frequency is at least x's: one step
      of a stable sort by descending frequency. */
  function InsertDesc<T(==)>(sorted: seq<SymbolFreq<T>>, x: SymbolFreq<T>): (r: seq<SymbolFreq<T>>)
    ensures |r| == |sorted| + 1
    ensures multiset(r) == multiset(sorted) + multiset{x}
  {
    if |sorted| == 0 then [x]
    else if sorted[0].freq >= x.freq then
      assert sorted == [sorted[0]] + sorted[1..];
      [sorted[0]] + InsertDesc(sorted[1..], x)
    else
      [x] + sorted
  }

  lemma {:induction false} InsertDescSorted<T>(sorted: seq<SymbolFreq<T>>, x: SymbolFreq<T>)
    requires SortedDesc(sorted)
    ensures SortedDesc(InsertDesc(sorted, x))
  {
    if |sorted| > 0 && sorted[0].freq >= x.freq {
      InsertDescSorted(sorted[1..], x);
      InsertDescBound(sorted[1..], x, sorted[0].freq);
    }
  }

  /** Inserting keeps every frequency within a bound both the records and x
      respect. */
  lemma {:induction false} InsertDescBound<T>(sorted: seq<SymbolFreq<T>>, x: SymbolFreq<T>, b: nat)
    requires forall i | 0 <= i < |sorted| :: sorted[i].freq <= b
    requires x.freq <= b
    ensures forall k | 0 <= k < |sorted| + 1 :: InsertDesc(sorted, x)[k].freq <= b
  {
    if |sorted| > 0 && sorted[0].freq >= x.freq {
      InsertDescBound(sorted[1..], x, b);
    }
  }

  /** `OrderByDescending(sc => sc.Frequency)`, a stable sort. */
  function SortDesc<T(==)>(t: seq<SymbolFreq<T>>): (r: seq<SymbolFreq<T>>)
    ensures multiset(r) == multiset(t)
    ensures SortedDesc(r)
  {
    if |t| == 0 then []
    else
      assert t == t[..|t| - 1] + [t[|t| - 1]];
      InsertDescSorted(SortDesc(t[..|t| - 1]), t[|t| - 1]);
      InsertDesc(SortDesc(t[..|t| - 1]), t[|t| - 1])
  }

  lemma {:induction false} TotalFreqCons<T>(a: SymbolFreq<T>, s: seq<SymbolFreq<T>>)
    ensures TotalFreq([a] + s) == a.freq + TotalFreq(s)
    decreases |s|
  {
    if |s| > 0 {
      var n := |s| - 1;
      assert ([a] + s)[..|s|] == [a] + s[..n];
      TotalFreqCons(a, s[..n]);
    }
  }

  lemma {:induction false} InsertDescTotal<T>(sorted: seq<SymbolFreq<T>>, x: SymbolFreq<T>)
    ensures TotalFreq(InsertDesc(sorted, x)) == TotalFreq(sorted) + x.freq
  {
    if |sorted| == 0 {
      assert TotalFreq([x]) == TotalFreq([x][..0]) + x.freq;
    } else if sorted[0].freq >= x.freq {
      InsertDescTotal(sorted[1..], x);
      TotalFreqCons(sorted[0], InsertDesc(sorted[1..], x));
      TotalFreqCons(sorted[0], sorted[1..]);
      assert sorted == [sorted[0]] + sorted[1..];
    } else {
      TotalFreqCons(x, sorted);
    }
  }

  lemma {:induction false} InsertDescDistinct<T>(sorted: seq<SymbolFreq<T>>, x: SymbolFreq<T>)
    requires DistinctSymbols(sorted)
    requires forall i | 0 <= i < |sorted| :: sorted[i].symbol != x.symbol
    ensures DistinctSymbols(InsertDesc(sorted, x))
  {
    if |sorted| > 0 && sorted[0].freq >= x.freq {
      var rest := InsertDesc(sorted[1..], x);
      InsertDescDistinct(sorted[1..], x);
      forall k | 0 <= k < |rest|
        ensures rest[k].symbol != sorted[0].symbol
      {
        assert rest[k] in multiset(sorted[1..]) + multiset{x};
      }
      var r := InsertDesc(sorted, x);
      assert r == [sorted[0]] + rest;
      forall i, j | 0 <= i < j < |r|
        ensures r[i].symbol != r[j].symbol
      {
        if i == 0 {
          assert r[j] == rest[j - 1];
        } else {
          assert r[i] == rest[i - 1] && r[j] == rest[j - 1];
        }
      }
    }
  }

  lemma {:induction false} SortDescKeeps<T>(t: seq<SymbolFreq<T>>)
    requires DistinctSymbols(t)
    ensures DistinctSymbols(SortDesc(t))
    ensures TotalFreq(SortDesc(t)) == TotalFreq(t)
  {
    if |t| > 0 {
      var init, last := t[..|t| - 1], t[|t| - 1];
      SortDescKeeps(init);
      var s := SortDesc(init);
      forall i | 0 <= i < |s|
        ensures s[i].symbol != last.symbol
      {
        assert s[i] in multiset(init);
        var k :| 0 <= k < |init| && init[k] == s[i];
        assert t[k] == init[k];
      }
      InsertDescDistinct(s, last);
      InsertDescTotal(s, last);
      assert SortDesc(t) == InsertDesc(s, last);
    }
  }

  /** `BuildFrequencyTable` (Services/ShannonFanoCompressor.cs:28-43): counts
      the bytes, then orders the records by descending frequency. */
  function BuildFrequencyTable(data: seq<byte>): (t: seq<SymbolFreq<byte>>)
    ensures SortedDesc(t)
  {
    SortDesc(Tally(data))
  }

  /** The table has one record per distinct byte carrying its number of
      occurrences, the frequencies add up to |data|, and frequencies never
      increase along the table. */
  lemma BuildFrequencyTableSpec(data: seq<byte>)
    ensures IsFrequencyTable(data, BuildFrequencyTable(data))
    ensures SortedDesc(BuildFrequencyTable(data))
  {
    var tally := Tally(data);
    var t := BuildFrequencyTable(data);
    TallyIsFrequencyTable(data);
    SortDescKeeps(tally);
    forall i | 0 <= i < |t|
      ensures t[i].freq == Count(data, t[i].symbol) && t[i].freq >= 1 && t[i].symbol in data
    {
      assert t[i] in multiset(tally);
    }
    forall x | x in data
      ensures x in Symbols(t)
    {
      assert x in Symbols(tally);
      var k :| 0 <= k < |tally| && tally[k].symbol == x;
      assert tally[k] in multiset(t);
      var j :| 0 <= j < |t| && t[j] == tally[k];
      assert Symbols(t)[j] == x;
    }
  }

  // ------------------------------------------------ recursive bisection

  function Freqs<T>(t: seq<SymbolFreq<T>>): (f: seq<nat>)
    ensures |f| == |t|
  {
    seq(|t|, i requires 0 <= i < |t| => t[i].freq)
  }

  predicate NonIncreasing(f: seq<nat>) {
    forall i, j | 0 <= i < j < |f| :: f[i] >= f[j]
  }

  /** f[lo] + ... + f[hi - 1]. */
  function Sum(f: seq<nat>, lo: nat, hi: nat): nat
    requires lo <= hi <= |f|
    decreases hi - lo
  {
    if lo == hi then 0 else Sum(f, lo, hi - 1) + f[hi - 1]
  }

  lemma {:induction false} SumAtLeastFirst(f: seq<nat>, lo: nat, hi: nat)
    requires lo < hi <= |f|
    ensures Sum(f, lo, hi) >= f[lo]
    decreases hi - lo
  {
    if hi - 1 > lo {
      SumAtLeastFirst(f, lo, hi - 1);
    }
  }

  /** The split loop from index i on, `sum` being f[start] + ... + f[i - 1]:
      the first index whose running sum reaches `half`; `start` if none. */
  function ScanSplit(f: seq<nat>, start: nat, end: nat, i: nat, half: nat): (split: nat)
    requires start <= end && start <= i <= end + 1 && end < |f|
    requires forall k | start < k <= i :: Sum(f, start, k) < half
    ensures start <= split <= end
    ensures Sum(f, start, end + 1) >= half ==>
      Sum(f, start, split + 1) >= half && forall k | start < k <= split :: Sum(f, start, k) < half
    decreases end + 1 - i
  {
    if i > end then assert Sum(f, start, end + 1) < half; start
    else if Sum(f, start, i + 1) >= half then i
    else ScanSplit(f, start, end, i + 1, half)
  }

  /** The split index of BuildShannonFanoCodes (Services/ShannonFanoCompressor.cs:52-66):
      the first index at which the running sum reaches half the segment's
      total (integer half). */
  function Split(f: seq<nat>, start: nat, end: nat): (split: nat)
    requires start <= end < |f|
    ensures start <= split <= end
    ensures Sum(f, start, split + 1) >= Sum(f, start, end + 1) / 2
    ensures forall k | start < k <= split :: Sum(f, start, k) < Sum(f, start, end + 1) / 2
  {
    ScanSplit(f, start, end, start, Sum(f, start, end + 1) / 2)
  }

  /** With frequencies that never increase, a segment of at least two
      symbols splits into two non-empty halves: the recursion terminates. */
  lemma SplitBelowEnd(f: seq<nat>, start: nat, end: nat)
    requires start < end < |f| && NonIncreasing(f)
    ensures Split(f, start, end) < end
  {
    var total := Sum(f, start, end + 1);
    SumAtLeastFirst(f, start, end);
    assert f[start] >= f[end];
    assert total == Sum(f, start, end) + f[end];
    assert Sum(f, start, end) >= total / 2;
  }

  /** The two marking loops: '0' appended to the codes at start..split,
      '1' to those at split+1..end. */
  function Mark(codes: seq<string>, start: nat, split: nat, end: nat): (r: seq<string>)
    ensures |r| == |codes|
  {
    seq(|codes|, i requires 0 <= i < |codes| =>
      if start <= i <= split then codes[i] + "0"
      else if split < i <= end then codes[i] + "1"
      else codes[i])
  }

  /** `BuildShannonFanoCodes(symbols, start, end)` (Services/ShannonFanoCompressor.cs:47-76)
      on the codes of the symbols; codes outside start..end are untouched. */
  function AssignCodes(f: seq<nat>, start: nat, end: int, codes: seq<string>): (r: seq<string>)
    requires |codes| == |f| && end < |f| && NonIncreasing(f)
    ensures |r| == |codes|
    ensures forall i | 0 <= i < |codes| && (i < start || end < i) :: r[i] == codes[i]
    decreases end - start
  {
    if start >= end then codes
    else
      SplitBelowEnd(f, start, end);
      var split := Split(f, start, end);
      AssignCodes(f, split + 1, end, AssignCodes(f, start, split, Mark(codes, start, split, end)))
  }

  /** c is p followed by at most n bits. */
  predicate Extends(c: string, p: string, n: nat) {
    p <= c && |c| <= |p| + n && IsBitString(c[|p|..])
  }

  lemma ExtendsStep(c: string, p: string, b: char, n: nat)
    requires b == '0' || b == '1'
    requires Extends(c, p + [b], n)
    ensures Extends(c, p, n + 1) && |p| < |c| && c[|p|] == b
  {
    assert c[|p|] == (p + [b])[|p|];
    assert c[|p|..] == [b] + c[|p| + 1..];
  }

  lemma DifferAt(a: string, b: string, k: nat)
    requires k < |a| && k < |b| && a[k] != b[k]
    ensures !(a <= b) && !(b <= a)
  {
  }

  /** Marking followed by the two recursive calls, as AssignCodes does it. */
  lemma AssignCodesStep(f: seq<nat>, start: nat, end: nat, codes: seq<string>, p: string)
    requires |codes| == |f| && start < end < |f| && NonIncreasing(f)
    requires forall i | start <= i <= end :: codes[i] == p
    ensures Split(f, start, end) < end
    ensures var split := Split(f, start, end);
      var marked := Mark(codes, start, split, end);
      var left := AssignCodes(f, start, split, marked);
      && AssignCodes(f, start, end, codes) == AssignCodes(f, split + 1, end, left)
      && (forall i | start <= i <= split :: marked[i] == p + "0")
      && (forall i | split < i <= end :: left[i] == p + "1")
  {
    SplitBelowEnd(f, start, end);
  }

  /** Codes assigned to a segment whose codes all start out as p each extend
      p by at most end - start bits of '0'/'1'. */
  lemma {:induction false} AssignCodesExtends(f: seq<nat>, start: nat, end: nat, codes: seq<string>, p: string)
    requires |codes| == |f| && start <= end < |f| && NonIncreasing(f)
    requires forall i | start <= i <= end :: codes[i] == p
    ensures var r := AssignCodes(f, start, end, codes);
      forall i | start <= i <= end :: Extends(r[i], p, end - start)
    decreases end - start, 1
  {
    var r := AssignCodes(f, start, end, codes);
    if start == end {
      assert r[start][|p|..] == "";
    } else {
      AssignCodesHalves(f, start, end, codes, p);
    }
  }

  /** In a segment of at least two symbols every code grows, and the
      indices up to the split get '0' next and the others '1'. */
  lemma AssignCodesHalves(f: seq<nat>, start: nat, end: nat, codes: seq<string>, p: string)
    requires |codes| == |f| && start < end < |f| && NonIncreasing(f)
    requires forall i | start <= i <= end :: codes[i] == p
    ensures var r := AssignCodes(f, start, end, codes);
      forall i | start <= i <= end ::
        Extends(r[i], p, end - start) && |p| < |r[i]| && r[i][|p|] == (if i <= Split(f, start, end) then '0' else '1')
    decreases end - start, 0
  {
    var r := AssignCodes(f, start, end, codes);
    AssignCodesStep(f, start, end, codes, p);
    var split := Split(f, start, end);
    var marked := Mark(codes, start, split, end);
    var left := AssignCodes(f, start, split, marked);
    AssignCodesExtends(f, start, split, marked, p + "0");
    AssignCodesExtends(f, split + 1, end, left, p + "1");
    assert forall i | start <= i <= split :: r[i] == left[i];
    ExtendsJoin(r, p, start, split, end);
  }

  /** Codes that extend p + "0" up to the split and p + "1" after it
      extend p by one bit more. */
  lemma ExtendsJoin(r: seq<string>, p: string, start: nat, split: nat, end: nat)
    requires start <= split < end < |r|
    requires forall i | start <= i <= split :: Extends(r[i], p + "0", split - start)
    requires forall i | split < i <= end :: Extends(r[i], p + "1", end - split - 1)
    ensures forall i | start <= i <= end ::
      Extends(r[i], p, end - start) && |p| < |r[i]| && r[i][|p|] == (if i <= split then '0' else '1')
  {
    forall i | start <= i <= end
      ensures Extends(r[i], p, end - start)
      ensures |p| < |r[i]| && r[i][|p|] == (if i <= split then '0' else '1')
    {
      if i <= split {
        ExtendsStep(r[i], p, '0', split - start);
      } else {
        ExtendsStep(r[i], p, '1', end - split - 1);
      }
    }
  }

  /** No code assigned to a segment is a prefix of another one of it. */
  lemma {:induction false} AssignCodesPrefixFree(f: seq<nat>, start: nat, end: nat, codes: seq<string>, p: string)
    requires |codes| == |f| && start <= end < |f| && NonIncreasing(f)
    requires forall i | start <= i <= end :: codes[i] == p
    ensures var r := AssignCodes(f, start, end, codes);
      forall i, j | start <= i <= end && start <= j <= end && i != j :: !(r[i] <= r[j])
    decreases end - start
  {
    if start < end {
      AssignCodesStep(f, start, end, codes, p);
      var split := Split(f, start, end);
      var marked := Mark(codes, start, split, end);
      var left := AssignCodes(f, start, split, marked);
      AssignCodesPrefixFree(f, start, split, marked, p + "0");
      AssignCodesPrefixFree(f, split + 1, end, left, p + "1");
      PrefixFreeHalves(f, start, end, codes, p);
    }
  }

  /** Prefix-free codes in each half of a split make the whole segment's
      codes prefix-free. */
  lemma PrefixFreeHalves(f: seq<nat>, start: nat, end: nat, codes: seq<string>, p: string)
    requires |codes| == |f| && start < end < |f| && NonIncreasing(f)
    requires forall i | start <= i <= end :: codes[i] == p
    requires Split(f, start, end) < end
    requires var split := Split(f, start, end);
      var left := AssignCodes(f, start, split, Mark(codes, start, split, end));
      var right := AssignCodes(f, split + 1, end, left);
      && (forall i, j | start <= i <= split && start <= j <= split && i != j :: !(left[i] <= left[j]))
      && (forall i, j | split < i <= end && split < j <= end && i != j :: !(right[i] <= right[j]))
    ensures var r := AssignCodes(f, start, end, codes);
      forall i, j | start <= i <= end && start <= j <= end && i != j :: !(r[i] <= r[j])
  {
    AssignCodesStep(f, start, end, codes, p);
    AssignCodesHalves(f, start, end, codes, p);
    var split := Split(f, start, end);
    var left := AssignCodes(f, start, split, Mark(codes, start, split, end));
    PrefixFreeJoin(AssignCodes(f, start, end, codes), left, p, start, split, end);
  }

  /** Two prefix-free halves whose codes differ at position |p| make a
      prefix-free whole. */
  lemma PrefixFreeJoin(r: seq<string>, left: seq<string>, p: string, start: nat, split: nat, end: nat)
    requires start <= split < end < |r| == |left|
    requires forall i | start <= i <= end :: |p| < |r[i]| && r[i][|p|] == (if i <= split then '0' else '1')
    requires forall i | start <= i <= split :: r[i] == left[i]
    requires forall i, j | start <= i <= split && start <= j <= split && i != j :: !(left[i] <= left[j])
    requires forall i, j | split < i <= end && split < j <= end && i != j :: !(r[i] <= r[j])
    ensures forall i, j | start <= i <= end && start <= j <= end && i != j :: !(r[i] <= r[j])
  {
    forall i, j | start <= i <= end && start <= j <= end && i != j
      ensures !(r[i] <= r[j])
    {
      if (i <= split) != (j <= split) {
        DifferAt(r[i], r[j], |p|);
      } else if i <= split {
        assert !(left[i] <= left[j]);
      }
    }
  }

  // ---------------------------------------------------------- code table

  datatype CodeEntry = CodeEntry(symbol: byte, code: string)

  /** The codes of a table's symbols, all starting out empty (the
      `SymbolCode.Code = ""` initialiser); call on 0 .. Count - 1
      (Services/ShannonFanoCompressor.cs:85). */
  function Codes(table: seq<SymbolFreq<byte>>): (codes: seq<string>)
    requires SortedDesc(table)
    ensures |codes| == |table|
  {
    AssignCodes(Freqs(table), 0, |table| - 1, Blank(|table|))
  }

  /** n empty codes. */
  function Blank(n: nat): (codes: seq<string>)
    ensures |codes| == n && forall i | 0 <= i < n :: codes[i] == ""
  {
    seq(n, _ => "")
  }

  /** The symbol/code records in table order. */
  function CodeTable(table: seq<SymbolFreq<byte>>): (entries: seq<CodeEntry>)
    requires SortedDesc(table)
    ensures |entries| == |table|
  {
    var codes := Codes(table);
    seq(|table|, i requires 0 <= i < |table| => CodeEntry(table[i].symbol, codes[i]))
  }

  predicate DistinctCodes(entries: seq<CodeEntry>) {
    forall i, j | 0 <= i < j < |entries| :: entries[i].code != entries[j].code
  }

  /** The properties the decoder relies on: with two or more symbols every
      code is a non-empty '0'/'1' string shorter than the table and no code is
      a prefix of another; a single symbol gets the empty code. */
  lemma CodeTableSpec(table: seq<SymbolFreq<byte>>)
    requires SortedDesc(table)
    ensures var e := CodeTable(table);
      && (forall i | 0 <= i < |e| :: IsBitString(e[i].code) && |e[i].code| < |e|)
      && (|e| >= 2 ==> forall i | 0 <= i < |e| :: |e[i].code| > 0)
      && (|e| >= 2 ==> forall i, j | 0 <= i < |e| && 0 <= j < |e| && i != j :: !(e[i].code <= e[j].code))
      && (|e| == 1 ==> e[0].code == "")
  {
    var e, codes := CodeTable(table), Codes(table);
    CodesSpec(table);
    assert forall i | 0 <= i < |e| :: e[i].code == codes[i];
  }

  /** The same properties, stated for the codes alone. */
  lemma CodesSpec(table: seq<SymbolFreq<byte>>)
    requires SortedDesc(table)
    ensures var c := Codes(table);
      && (forall i | 0 <= i < |c| :: IsBitString(c[i]) && |c[i]| < |c|)
      && (|c| >= 2 ==> forall i | 0 <= i < |c| :: |c[i]| > 0)
      && (|c| >= 2 ==> forall i, j | 0 <= i < |c| && 0 <= j < |c| && i != j :: !(c[i] <= c[j]))
      && (|c| == 1 ==> c[0] == "")
  {
    if |table| > 0 {
      var f, blank, n := Freqs(table), Blank(|table|), |table| - 1;
      assert Codes(table) == AssignCodes(f, 0, n, blank);
      CodesBits(f, n, blank);
      if n > 0 {
        CodesNonEmpty(f, n, blank);
      }
      CodesPrefixFree(f, n, blank);
    }
  }

  /** Every code of a whole table is a bit string of at most n bits. */
  lemma CodesBits(f: seq<nat>, n: nat, blank: seq<string>)
    requires |blank| == |f| && n < |f| && NonIncreasing(f)
    requires forall i | 0 <= i <= n :: blank[i] == ""
    ensures forall i | 0 <= i <= n :: IsBitString(AssignCodes(f, 0, n, blank)[i]) && |AssignCodes(f, 0, n, blank)[i]| <= n
  {
    AssignCodesExtends(f, 0, n, blank, "");
    assert forall i | 0 <= i <= n :: Extends(AssignCodes(f, 0, n, blank)[i], "", n - 0);
    ExtendsEmpty(AssignCodes(f, 0, n, blank), 0, n);
  }

  lemma ExtendsEmpty(r: seq<string>, start: nat, end: nat)
    requires start <= end < |r|
    requires forall i | start <= i <= end :: Extends(r[i], "", end - start)
    ensures forall i | start <= i <= end :: IsBitString(r[i]) && |r[i]| <= end - start
  {
    forall i | start <= i <= end
      ensures IsBitString(r[i])
    {
      assert r[i][0..] == r[i];
    }
  }

  /** With two symbols or more no code is empty. */
  lemma CodesNonEmpty(f: seq<nat>, n: nat, blank: seq<string>)
    requires |blank| == |f| && 0 < n < |f| && NonIncreasing(f)
    requires forall i | 0 <= i <= n :: blank[i] == ""
    ensures forall i | 0 <= i <= n :: |AssignCodes(f, 0, n, blank)[i]| > 0
  {
    AssignCodesHalves(f, 0, n, blank, "");
  }

  /** No code of a whole table is a prefix of another. */
  lemma CodesPrefixFree(f: seq<nat>, n: nat, blank: seq<string>)
    requires |blank| == |f| && n < |f| && NonIncreasing(f)
    requires forall i | 0 <= i <= n :: blank[i] == ""
    ensures var r := AssignCodes(f, 0, n, blank);
      forall i, j | 0 <= i <= n && 0 <= j <= n && i != j :: !(r[i] <= r[j])
  {
    AssignCodesPrefixFree(f, 0, n, blank, "");
  }

  /** `symbols.ToDictionary(s => s.Symbol, s => s.Code)`. */
  function SymbolMap(entries: seq<CodeEntry>): (m: map<byte, string>)
    ensures forall i | 0 <= i < |entries| :: entries[i].symbol in m
  {
    if |entries| == 0 then map[]
    else
      var n := |entries| - 1;
      SymbolMap(entries[..n])[entries[n].symbol := entries[n].code]
  }

  /** The decoder's `codeTable[code] = symbol` loop: a later record with the
      same code overrides an earlier one. */
  function DecodeTable(entries: seq<CodeEntry>): (m: map<string, byte>)
    ensures forall i | 0 <= i < |entries| :: entries[i].code in m
    ensures forall c | c in m :: exists i | 0 <= i < |entries| :: entries[i].code == c
  {
    if |entries| == 0 then map[]
    else
      var n := |entries| - 1;
      DecodeTable(entries[..n])[entries[n].code := entries[n].symbol]
  }

  predicate DistinctSymbolsOf(entries: seq<CodeEntry>) {
    forall i, j | 0 <= i < j < |entries| :: entries[i].symbol != entries[j].symbol
  }

  /** Every key of the dictionary is the symbol of a record. */
  lemma {:induction false} SymbolMapKeys(entries: seq<CodeEntry>, x: byte)
    requires x in SymbolMap(entries)
    ensures exists k | 0 <= k < |entries| :: entries[k].symbol == x
  {
    var n := |entries| - 1;
    if entries[n].symbol != x {
      SymbolMapKeys(entries[..n], x);
      var k :| 0 <= k < n && entries[..n][k].symbol == x;
      assert entries[k].symbol == x;
    }
  }

  /** With distinct symbols, the dictionary gives each record's code. */
  lemma {:induction false} SymbolMapLookup(entries: seq<CodeEntry>)
    requires DistinctSymbolsOf(entries)
    ensures forall i | 0 <= i < |entries| :: SymbolMap(entries)[entries[i].symbol] == entries[i].code
  {
    if |entries| > 0 {
      SymbolMapLookup(entries[..|entries| - 1]);
    }
  }

  /** With distinct codes, the decoder's dictionary maps each record's code
      back to its symbol. */
  lemma {:induction false} DecodeTableLookup(entries: seq<CodeEntry>)
    requires DistinctCodes(entries)
    ensures forall i | 0 <= i < |entries| :: DecodeTable(entries)[entries[i].code] == entries[i].symbol
  {
    if |entries| > 0 {
      DecodeTableLookup(entries[..|entries| - 1]);
    }
  }

  // -------------------------------------------------------------- payload

  /** Per record: the symbol byte, then its code as a length-prefixed string
      (Services/ShannonFanoCompressor.cs:101-105). */
  function EntriesBytes(entries: seq<CodeEntry>): seq<byte> {
    if |entries| == 0 then []
    else [entries[0].symbol] + StringBytes(entries[0].code) + EntriesBytes(entries[1..])
  }

  /** The payload layout (Services/ShannonFanoCompressor.cs:97-108): record
      count, records, bit length, packed bits. */
  function PayloadBytes(entries: seq<CodeEntry>, bitLength: int, packed: seq<byte>): seq<byte> {
    Int32Bytes(|entries|) + (EntriesBytes(entries) + (Int32Bytes(bitLength) + packed))
  }

  function CodeTableOf(data: seq<byte>): (entries: seq<CodeEntry>) {
    CodeTable(BuildFrequencyTable(data))
  }

  /** Every input byte has a record. */
  lemma CodeTableCovers(data: seq<byte>)
    ensures forall x | x in data :: x in SymbolMap(CodeTableOf(data))
  {
    var table := BuildFrequencyTable(data);
    var entries := CodeTableOf(data);
    BuildFrequencyTableSpec(data);
    forall x | x in data
      ensures x in SymbolMap(entries)
    {
      assert x in Symbols(table);
      var k :| 0 <= k < |table| && table[k].symbol == x;
      assert entries[k].symbol == x;
    }
  }

  /** The encoded bit string: each input byte's code, in order
      (Services/ShannonFanoCompressor.cs:89-93). */
  function EncodedBits(data: seq<byte>): string {
    CodeTableCovers(data);
    Encode(SymbolMap(CodeTableOf(data)), data)
  }

  /** `CompressBytes` (Services/ShannonFanoCompressor.cs:79-115). */
  function CompressBytes(data: seq<byte>): seq<byte> {
    var bits := EncodedBits(data);
    PayloadBytes(CodeTableOf(data), |bits|, ConvertToBytes(bits))
  }

  /** The record loop of `DecompressBytes`: `remaining` records of a symbol
      byte and a code string. */
  function ReadEntries(data: seq<byte>, pos: nat, remaining: int): (r: Option<Parsed<seq<CodeEntry>>>)
    decreases remaining
  {
    if remaining <= 0 then Some(Parsed([], pos))
    else
      var symbol :- ReadByte(data, pos);
      var code :- ReadString(data, symbol.next);
      var rest :- ReadEntries(data, code.next, remaining - 1);
      Some(Parsed([CodeEntry(symbol.value, code.value)] + rest.value, rest.next))
  }

  /** `DecompressBytes` (Services/ShannonFanoCompressor.cs:118-154); None
      where .NET would throw. `(bitLength + 7) / 8` is C# `int` arithmetic:
      it wraps and truncates toward zero. */
  function DecompressBytes(payload: seq<byte>): Option<seq<byte>> {
    var size :- ReadInt32(payload, 0);
    var entries :- ReadEntries(payload, size.next, size.value);
    DecodeBits(payload, entries.value, entries.next)
  }

  /** The rest of `DecompressBytes` once the records are read: the bit
      length, the packed bytes, and the greedy decoding loop. */
  function DecodeBits(payload: seq<byte>, entries: seq<CodeEntry>, pos: nat): Option<seq<byte>> {
    var bitLength :- ReadInt32(payload, pos);
    var packed :- ReadBytes(payload, bitLength.next, PackedLength(bitLength.value));
    var bits :- ConvertToBitString(packed.value, bitLength.value);
    Some(Greedy(DecodeTable(entries), bits, ""))
  }

  /** `(bitLength + 7) / 8` in C# `int` arithmetic: the sum wraps and the
      division truncates toward zero. */
  function PackedLength(bitLength: int): (n: int)
    ensures 0 <= bitLength && bitLength + 7 < TWO_31 ==> n == (bitLength + 7) / 8
  {
    TruncDiv(Wrap32(bitLength + 7), 8)
  }

  // ---------------------------------------------------------- round trip

  /** Records the reader can read back: ASCII codes of int32 length. */
  predicate WritableEntries(entries: seq<CodeEntry>) {
    forall i | 0 <= i < |entries| :: IsAscii(entries[i].code) && |entries[i].code| < TWO_31
  }

  lemma ReadEntriesRoundTrip(data: seq<byte>, pos: nat, entries: seq<CodeEntry>)
    requires WritableEntries(entries) && At(data, pos, EntriesBytes(entries))
    ensures ReadEntries(data, pos, |entries|) == Some(Parsed(entries, pos + |EntriesBytes(entries)|))
  {
    var ps, qs := RecordsAt(data, pos, entries);
    ReadEntriesFrom(data, ps, qs, entries, 0);
    assert entries[0..] == entries;
  }

  /** Record k's symbol byte is at ps[k], its code string at qs[k], and
      record k + 1 starts where the code ends. */
  ghost predicate RecordsRead(data: seq<byte>, ps: seq<nat>, qs: seq<nat>, entries: seq<CodeEntry>) {
    && |ps| == |entries| + 1 && |qs| == |entries|
    && forall k | 0 <= k < |entries| ::
         && ReadByte(data, ps[k]) == Some(Parsed(entries[k].symbol, qs[k]))
         && ReadString(data, qs[k]) == Some(Parsed(entries[k].code, ps[k + 1]))
  }

  /** Where the written records start. */
  lemma {:induction false} RecordsAt(data: seq<byte>, pos: nat, entries: seq<CodeEntry>) returns (ps: seq<nat>, qs: seq<nat>)
    requires WritableEntries(entries) && At(data, pos, EntriesBytes(entries))
    ensures RecordsRead(data, ps, qs, entries) && ps[0] == pos && ps[|entries|] == pos + |EntriesBytes(entries)|
    decreases |entries|
  {
    if |entries| == 0 {
      ps, qs := [pos], [];
    } else {
      var q, mid := RecordAt(data, pos, entries);
      var ps', qs' := RecordsAt(data, mid, entries[1..]);
      ps, qs := [pos] + ps', [q] + qs';
      RecordsCons(data, pos, q, entries[0], ps', qs', entries[1..]);
      assert [entries[0]] + entries[1..] == entries;
    }
  }

  lemma RecordsCons(data: seq<byte>, p: nat, q: nat, e: CodeEntry, ps: seq<nat>, qs: seq<nat>, entries: seq<CodeEntry>)
    requires RecordsRead(data, ps, qs, entries)
    requires ReadByte(data, p) == Some(Parsed(e.symbol, q)) && ReadString(data, q) == Some(Parsed(e.code, ps[0]))
    ensures RecordsRead(data, [p] + ps, [q] + qs, [e] + entries)
  {
    var ps', qs', es' := [p] + ps, [q] + qs, [e] + entries;
    forall k | 1 <= k < |es'|
      ensures ReadByte(data, ps'[k]) == Some(Parsed(es'[k].symbol, qs'[k]))
      ensures ReadString(data, qs'[k]) == Some(Parsed(es'[k].code, ps'[k + 1]))
    {
      assert ps'[k] == ps[k - 1] && ps'[k + 1] == ps[k] && qs'[k] == qs[k - 1] && es'[k] == entries[k - 1];
    }
  }

  /** The record loop reads back records k on. */
  lemma {:induction false} ReadEntriesFrom(data: seq<byte>, ps: seq<nat>, qs: seq<nat>, entries: seq<CodeEntry>, k: nat)
    requires RecordsRead(data, ps, qs, entries) && k <= |entries|
    ensures ReadEntries(data, ps[k], |entries| - k) == Some(Parsed(entries[k..], ps[|entries|]))
    decreases |entries| - k
  {
    if k < |entries| {
      ReadEntriesFrom(data, ps, qs, entries, k + 1);
      assert entries[k..] == [entries[k]] + entries[k + 1..];
      ReadEntriesCons(data, ps[k], entries[k], qs[k], ps[k + 1], entries[k + 1..], ps[|entries|]);
    }
  }

  /** The first record reads back, and the other records follow it. */
  lemma RecordAt(data: seq<byte>, pos: nat, entries: seq<CodeEntry>) returns (q: nat, mid: nat)
    requires |entries| > 0 && WritableEntries(entries) && At(data, pos, EntriesBytes(entries))
    ensures ReadByte(data, pos) == Some(Parsed(entries[0].symbol, q))
    ensures ReadString(data, q) == Some(Parsed(entries[0].code, mid))
    ensures WritableEntries(entries[1..]) && At(data, mid, EntriesBytes(entries[1..]))
    ensures mid + |EntriesBytes(entries[1..])| == pos + |EntriesBytes(entries)|
  {
    var e := entries[0];
    EntriesBytesAt(data, pos, entries);
    assert IsAscii(e.code) && |e.code| < TWO_31;
    StringRoundTrip(data, pos + 1, e.code);
    q := pos + 1;
    mid := q + |StringBytes(e.code)|;
    forall i | 0 <= i < |entries| - 1
      ensures IsAscii(entries[1..][i].code) && |entries[1..][i].code| < TWO_31
    {
      assert entries[1..][i] == entries[i + 1];
    }
  }

  lemma EntriesBytesAt(data: seq<byte>, pos: nat, entries: seq<CodeEntry>)
    requires |entries| > 0 && At(data, pos, EntriesBytes(entries))
    ensures var w := StringBytes(entries[0].code);
      && pos < |data| && data[pos] == entries[0].symbol
      && At(data, pos + 1, w)
      && At(data, pos + 1 + |w|, EntriesBytes(entries[1..]))
      && |EntriesBytes(entries)| == 1 + |w| + |EntriesBytes(entries[1..])|
  {
    var e, tail := entries[0], entries[1..];
    var w := StringBytes(e.code);
    assert EntriesBytes(entries) == ([e.symbol] + w) + EntriesBytes(tail);
    AtConcat(data, pos, [e.symbol] + w, EntriesBytes(tail));
    AtConcat(data, pos, [e.symbol], w);
    assert data[pos + 0] == [e.symbol][0];
  }

  /** A record followed by more records reads as one list. */
  lemma ReadEntriesCons(data: seq<byte>, pos: nat, e: CodeEntry, q: nat, mid: nat, rest: seq<CodeEntry>, next: nat)
    requires ReadByte(data, pos) == Some(Parsed(e.symbol, q))
    requires ReadString(data, q) == Some(Parsed(e.code, mid))
    requires ReadEntries(data, mid, |rest|) == Some(Parsed(rest, next))
    ensures ReadEntries(data, pos, |rest| + 1) == Some(Parsed([e] + rest, next))
  {
  }

  /** The decoder reads back exactly the fields the encoder wrote: the
      records, the bit length, and (bitLength + 7) / 8 packed bytes. */
  lemma DecompressPayload(entries: seq<CodeEntry>, bitLength: nat, packed: seq<byte>)
    requires WritableEntries(entries) && |entries| < TWO_31
    requires bitLength + 7 < TWO_31 && |packed| == (bitLength + 7) / 8
    ensures DecompressBytes(PayloadBytes(entries, bitLength, packed))
      == Some(Greedy(DecodeTable(entries), ConvertToBitString(packed, bitLength).value, ""))
  {
    PayloadAt(entries, bitLength, packed);
    DecompressAt(PayloadBytes(entries, bitLength, packed), entries, bitLength, packed);
  }

  /** The same, for any buffer holding the fields at their places. */
  lemma DecompressAt(d: seq<byte>, entries: seq<CodeEntry>, bitLength: nat, packed: seq<byte>)
    requires WritableEntries(entries) && |entries| < TWO_31
    requires bitLength + 7 < TWO_31 && |packed| == (bitLength + 7) / 8
    requires At(d, 0, Int32Bytes(|entries|)) && At(d, 4, EntriesBytes(entries))
    requires At(d, 4 + |EntriesBytes(entries)|, Int32Bytes(bitLength))
    requires At(d, 8 + |EntriesBytes(entries)|, packed)
    ensures DecompressBytes(d)
      == Some(Greedy(DecodeTable(entries), ConvertToBitString(packed, bitLength).value, ""))
  {
    var mid := 4 + |EntriesBytes(entries)|;
    Int32RoundTrip(d, 0, |entries|);
    ReadEntriesRoundTrip(d, 4, entries);
    DecodeBitsAt(d, entries, mid, bitLength, packed);
    assert DecompressBytes(d) == DecodeBits(d, entries, mid);
  }

  /** The bit-length field and the packed bytes read back. */
  lemma DecodeBitsAt(d: seq<byte>, entries: seq<CodeEntry>, pos: nat, bitLength: nat, packed: seq<byte>)
    requires bitLength + 7 < TWO_31 && |packed| == (bitLength + 7) / 8
    requires At(d, pos, Int32Bytes(bitLength)) && At(d, pos + 4, packed)
    ensures DecodeBits(d, entries, pos)
      == Some(Greedy(DecodeTable(entries), ConvertToBitString(packed, bitLength).value, ""))
  {
    Int32RoundTrip(d, pos, bitLength);
    ReadBytesAt(d, pos + 4, packed);
    PackedLengthFits(bitLength);
  }

  lemma PackedLengthFits(bitLength: nat)
    requires bitLength + 7 < TWO_31
    ensures PackedLength(bitLength) == (bitLength + 7) / 8
    ensures bitLength <= 8 * ((bitLength + 7) / 8)
  {
  }

  /** Where each field of the payload sits. */
  lemma PayloadAt(entries: seq<CodeEntry>, bitLength: int, packed: seq<byte>)
    ensures var d := PayloadBytes(entries, bitLength, packed);
      var eb := EntriesBytes(entries);
      && At(d, 0, Int32Bytes(|entries|))
      && At(d, 4, eb)
      && At(d, 4 + |eb|, Int32Bytes(bitLength))
      && |d| == 8 + |eb| + |packed|
      && At(d, 8 + |eb|, packed)
  {
    AtFour(Int32Bytes(|entries|), EntriesBytes(entries), Int32Bytes(bitLength), packed);
  }

  /** The records written for data can be read back: ASCII codes, and no
      more records than input bytes. */
  lemma EntriesWritable(data: seq<byte>)
    requires |data| < TWO_31
    ensures WritableEntries(CodeTableOf(data)) && |CodeTableOf(data)| <= |data|
  {
    var table := BuildFrequencyTable(data);
    var entries := CodeTableOf(data);
    assert |table| == |multiset(table)| == |multiset(Tally(data))|;
    CodeTableSpec(table);
    forall i | 0 <= i < |entries|
      ensures IsAscii(entries[i].code)
    {
      var c := entries[i].code;
      assert forall k | 0 <= k < |c| :: c[k] == '0' || c[k] == '1';
    }
  }

  /** With two or more symbols the records have distinct symbols and
      non-empty binary codes none of which is a prefix of another. */
  lemma CodeTableOfTwo(data: seq<byte>)
    requires TwoSymbols(data)
    ensures var e := CodeTableOf(data);
      && |e| >= 2
      && DistinctSymbolsOf(e)
      && (forall i | 0 <= i < |e| :: |e[i].code| > 0 && IsBitString(e[i].code))
      && (forall i, j | 0 <= i < |e| && 0 <= j < |e| && i != j :: !(e[i].code <= e[j].code))
  {
    var table := BuildFrequencyTable(data);
    BuildFrequencyTableSpec(data);
    CodeTableSpec(table);
    TallyAtLeastTwo(data);
    assert |table| == |multiset(table)| == |multiset(Tally(data))|;
  }

  /** With two or more symbols, the decoder's dictionary inverts the
      encoder's, every code is a non-empty bit string, and no code is a
      prefix of another. */
  lemma DecodeTableInverts(data: seq<byte>)
    requires TwoSymbols(data)
    ensures var entries := CodeTableOf(data);
      var code, dec := SymbolMap(entries), DecodeTable(entries);
      && (forall x | x in data ::
            x in code && |code[x]| > 0 && IsBitString(code[x]) && code[x] in dec && dec[code[x]] == x)
      && PrefixFree(dec.Keys)
  {
    CodeTableOfTwo(data);
    CodeTableCovers(data);
    MapsInvert(CodeTableOf(data), data);
  }

  /** For records with distinct symbols and prefix-free non-empty codes,
      the two dictionaries are inverse on the symbols of data. */
  lemma MapsInvert(entries: seq<CodeEntry>, data: seq<byte>)
    requires DistinctSymbolsOf(entries)
    requires forall i | 0 <= i < |entries| :: |entries[i].code| > 0 && IsBitString(entries[i].code)
    requires forall i, j | 0 <= i < |entries| && 0 <= j < |entries| && i != j :: !(entries[i].code <= entries[j].code)
    requires forall x | x in data :: x in SymbolMap(entries)
    ensures var code, dec := SymbolMap(entries), DecodeTable(entries);
      && (forall x | x in data ::
            x in code && |code[x]| > 0 && IsBitString(code[x]) && code[x] in dec && dec[code[x]] == x)
      && PrefixFree(dec.Keys)
  {
    var code, dec := SymbolMap(entries), DecodeTable(entries);
    SymbolMapLookup(entries);
    forall x | x in code
      ensures exists k | 0 <= k < |entries| :: entries[k].symbol == x
    {
      SymbolMapKeys(entries, x);
    }
    assert DistinctCodes(entries) by {
      forall i, j | 0 <= i < j < |entries|
        ensures entries[i].code != entries[j].code
      {
        assert !(entries[i].code <= entries[j].code);
      }
    }
    DecodeTableLookup(entries);
    forall x | x in data
      ensures x in code && |code[x]| > 0 && IsBitString(code[x]) && code[x] in dec && dec[code[x]] == x
    {
      var k :| 0 <= k < |entries| && entries[k].symbol == x;
      assert code[x] == entries[k].code;
    }
    assert PrefixFree(dec.Keys) by {
      forall a, b | a in dec && b in dec && a != b
        ensures !(a <= b)
      {
        var i :| 0 <= i < |entries| && entries[i].code == a;
        var j :| 0 <= j < |entries| && entries[j].code == b;
      }
    }
  }

  /** Decompressing a compressed buffer gives it back, for the empty buffer
      and for every buffer holding at least two different bytes (the bound
      keeps the stored bit length and the reader's `bitLength + 7` within
      `int`). */
  lemma RoundTrip(data: seq<byte>)
    requires |data| == 0 || TwoSymbols(data)
    requires |EncodedBits(data)| + 7 < TWO_31
    ensures DecompressBytes(CompressBytes(data)) == Some(data)
  {
    var entries := CodeTableOf(data);
    var bits := EncodedBits(data);
    var code, dec := SymbolMap(entries), DecodeTable(entries);
    if |data| == 0 {
      EntriesWritable(data);
      assert bits == "";
      DecompressPayload(entries, 0, ConvertToBytes(""));
    } else {
      DecodeTableInverts(data);
      EncodeLength(code, data);
      EntriesWritable(data);
      EncodeIsBitString(code, data);
      DecompressPayload(entries, |bits|, ConvertToBytes(bits));
      PackRoundTrip(bits);
      GreedyDecodes(code, dec, data);
    }
  }

  /** Every code of a non-empty encoding contributes at least one bit. */
  lemma {:induction false} EncodeLength(code: map<byte, string>, data: seq<byte>)
    requires forall x | x in data :: x in code && |code[x]| > 0
    ensures |Encode(code, data)| >= |data|
  {
    if |data| > 0 {
      EncodeLength(code, data[1..]);
    }
  }

  /** The single-symbol edge case: a buffer of one repeated byte gets the
      empty code and a bit length of 0, so it decompresses to nothing. */
  lemma SingleSymbolDecodesEmpty(data: seq<byte>)
    requires |data| > 0 && !TwoSymbols(data)
    ensures EncodedBits(data) == ""
    ensures DecompressBytes(CompressBytes(data)) == Some([])
  {
    var entries := CodeTableOf(data);
    CodeTableOfOne(data);
    CodeTableCovers(data);
    OneRecordEncodesEmpty(entries, data);
    DecompressPayload(entries, 0, ConvertToBytes(""));
  }

  lemma OneRecordEncodesEmpty(entries: seq<CodeEntry>, data: seq<byte>)
    requires |entries| == 1 && entries[0].code == ""
    requires forall x | x in data :: x in SymbolMap(entries)
    ensures Encode(SymbolMap(entries), data) == ""
  {
    var code := SymbolMap(entries);
    SymbolMapLookup(entries);
    forall x | x in data
      ensures code[x] == ""
    {
      SymbolMapKeys(entries, x);
    }
    EncodeAllEmpty(code, data);
  }

  /** A buffer of one repeated byte gets a one-record table with the empty
      code. */
  lemma CodeTableOfOne(data: seq<byte>)
    requires |data| > 0 && !TwoSymbols(data)
    ensures |CodeTableOf(data)| == 1 && CodeTableOf(data)[0].code == ""
  {
    var table := BuildFrequencyTable(data);
    BuildFrequencyTableSpec(data);
    TallyAtLeastTwo(data);
    assert |table| == |multiset(table)| == |multiset(Tally(data))|;
    assert data[0] in Symbols(table);
    CodeTableSpec(table);
  }

  lemma {:induction false} EncodeAllEmpty(code: map<byte, string>, data: seq<byte>)
    requires forall x | x in data :: x in code && code[x] == ""
    ensures Encode(code, data) == ""
  {
    if |data| > 0 {
      EncodeAllEmpty(code, data[1..]);
    }
  }

  // ------------------------------------------------- the intended single-symbol code

  /** The code table the single-symbol edge case evidently needs: a lone
      symbol gets the one-bit code "0" in place of the empty code, so that
      every occurrence of it is written as a bit; other tables are kept. */
  function SingleBitCode(e: seq<CodeEntry>): seq<CodeEntry> {
    if |e| == 1 then [CodeEntry(e[0].symbol, "0")] else e
  }

  /** A one-record table with the code "0" meets everything the decoder
      relies on. */
  lemma SingleBitTable(e: seq<CodeEntry>)
    requires |e| == 1
    ensures var r := SingleBitCode(e);
      && DistinctSymbolsOf(r) && WritableEntries(r) && |r| < TWO_31
      && (forall i | 0 <= i < |r| :: |r[i].code| > 0 && IsBitString(r[i].code))
      && (forall i, j | 0 <= i < |r| && 0 <= j < |r| && i != j :: !(r[i].code <= r[j].code))
  {
    var r := SingleBitCode(e);
    assert IsBitString(r[0].code) && IsAscii(r[0].code);
  }

  function IntendedCodeTableOf(data: seq<byte>): seq<CodeEntry> {
    SingleBitCode(CodeTableOf(data))
  }

  /** Every input byte has a record in the intended table. */
  lemma IntendedTableCovers(data: seq<byte>)
    ensures forall x | x in data :: x in SymbolMap(IntendedCodeTableOf(data))
  {
    var e0, e := CodeTableOf(data), IntendedCodeTableOf(data);
    CodeTableCovers(data);
    if |e0| == 1 {
      forall x | x in data
        ensures x in SymbolMap(e)
      {
        SymbolMapKeys(e0, x);
      }
    }
  }

  function IntendedEncodedBits(data: seq<byte>): string {
    IntendedTableCovers(data);
    Encode(SymbolMap(IntendedCodeTableOf(data)), data)
  }

  /** `CompressBytes` with the intended single-symbol code. */
  function IntendedCompressBytes(data: seq<byte>): seq<byte> {
    var bits := IntendedEncodedBits(data);
    PayloadBytes(IntendedCodeTableOf(data), |bits|, ConvertToBytes(bits))
  }

  /** With the intended code, the unchanged decompressor gives back every
      buffer, buffers of one repeated byte included. */
  lemma IntendedRoundTrip(data: seq<byte>)
    requires |IntendedEncodedBits(data)| + 7 < TWO_31
    ensures DecompressBytes(IntendedCompressBytes(data)) == Some(data)
  {
    if |data| == 0 {
      EntriesWritable(data);
      RoundTrip(data);
    } else if TwoSymbols(data) {
      CodeTableOfTwo(data);
      RoundTrip(data);
    } else {
      SingleSymbolRoundTrip(data);
    }
  }

  /** The single-symbol case: one record with the code "0", one bit per byte. */
  lemma SingleSymbolRoundTrip(data: seq<byte>)
    requires |data| > 0 && !TwoSymbols(data)
    requires |IntendedEncodedBits(data)| + 7 < TWO_31
    ensures DecompressBytes(IntendedCompressBytes(data)) == Some(data)
  {
    CodeTableOfOne(data);
    SingleBitTable(CodeTableOf(data));
    IntendedTableCovers(data);
    PayloadRoundTrip(IntendedCodeTableOf(data), data);
  }

  /** The payload written with any table whose codes are non-empty,
      prefix-free bit strings of distinct symbols that cover data decodes
      back to data. */
  lemma PayloadRoundTrip(e: seq<CodeEntry>, data: seq<byte>)
    requires DistinctSymbolsOf(e) && WritableEntries(e) && |e| < TWO_31
    requires forall i | 0 <= i < |e| :: |e[i].code| > 0 && IsBitString(e[i].code)
    requires forall i, j | 0 <= i < |e| && 0 <= j < |e| && i != j :: !(e[i].code <= e[j].code)
    requires forall x | x in data :: x in SymbolMap(e)
    requires |Encode(SymbolMap(e), data)| + 7 < TWO_31
    ensures var bits := Encode(SymbolMap(e), data);
      DecompressBytes(PayloadBytes(e, |bits|, ConvertToBytes(bits))) == Some(data)
  {
    var code, dec := SymbolMap(e), DecodeTable(e);
    var bits := Encode(code, data);
    MapsInvert(e, data);
    EncodeIsBitString(code, data);
    DecompressPayload(e, |bits|, ConvertToBytes(bits));
    PackRoundTrip(bits);
    GreedyDecodes(code, dec, data);
  }
}
