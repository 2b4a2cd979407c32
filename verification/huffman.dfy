/** `HuffmanCompressor` (Services/HuffmanCompressor.cs): the code tree built
    bottom-up by merging the two least frequent nodes, the depth-first code
    table, and the encoding part of `Compress`. The source works on `char`;
    the symbol type is generic here. */
module Huffman {
  import opened Common
  import opened BitHelper
  import opened Frequencies
  import opened PrefixCodes

  /** `Node`: a leaf carries a symbol and no children; an inner node carries
      no symbol and two children. */
  datatype Tree<T> = Leaf(symbol: T, freq: nat) | Node(freq: nat, left: Tree<T>, right: Tree<T>)

  /** The symbol/frequency records at the leaves. */
  function Leaves<T(==)>(t: Tree<T>): (m: multiset<SymbolFreq<T>>)
    ensures |m| >= 1
  {
    match t
    case Leaf(s, f) => multiset{SymbolFreq(s, f)}
    case Node(_, l, r) => Leaves(l) + Leaves(r)
  }

  function LeafSymbols<T(==)>(t: Tree<T>): set<T> {
    set a | a in Leaves(t) :: a.symbol
  }

  lemma LeafSymbolsUnfold<T>(t: Tree<T>)
    ensures t.Leaf? ==> LeafSymbols(t) == {t.symbol}
    ensures t.Node? ==> LeafSymbols(t) == LeafSymbols(t.left) + LeafSymbols(t.right)
  {
    if t.Leaf? {
      assert SymbolFreq(t.symbol, t.freq) in Leaves(t);
    }
  }

  /** Number of nodes. */
  function Size<T>(t: Tree<T>): nat {
    match t
    case Leaf(_, _) => 1
    case Node(_, l, r) => Size(l) + Size(r) + 1
  }

  /** Every inner node's frequency is the sum of its children's. */
  predicate WellFormed<T>(t: Tree<T>) {
    match t
    case Leaf(_, _) => true
    case Node(f, l, r) => f == l.freq + r.freq && WellFormed(l) && WellFormed(r)
  }

  /** No symbol labels two leaves. */
  ghost predicate UniqueSymbols<T>(m: multiset<SymbolFreq<T>>) {
    forall a, b | a in m && b in m && a.symbol == b.symbol :: a == b && m[a] == 1
  }

  /** A tree with S leaves has 2S - 1 nodes. */
  lemma {:induction false} SizeFromLeaves<T>(t: Tree<T>)
    ensures Size(t) == 2 * |Leaves(t)| - 1
  {
    if t.Node? {
      SizeFromLeaves(t.left);
      SizeFromLeaves(t.right);
    }
  }

  // --------------------------------------------------------- the queue

  /** Position of the first node of least frequency in queue order: the
      node a stable `OrderBy(n => n.Frequency)` puts first. */
  function MinIndex<T>(q: seq<Tree<T>>): (i: nat)
    requires |q| > 0
    ensures i < |q|
    ensures forall k | 0 <= k < |q| :: q[i].freq <= q[k].freq
    ensures forall k | 0 <= k < i :: q[i].freq < q[k].freq
  {
    if |q| == 1 then 0
    else
      var j := MinIndex(q[..|q| - 1]);
      if q[|q| - 1].freq < q[j].freq then |q| - 1 else j
  }

  /** `List.Remove` of the node at position i (nodes are compared by
      reference, so it is exactly that one). */
  function RemoveAt<T>(q: seq<T>, i: nat): (r: seq<T>)
    requires i < |q|
    ensures |r| == |q| - 1
  {
    q[..i] + q[i + 1..]
  }

  /** One iteration of the merge loop (Services/HuffmanCompressor.cs:43-57):
      `ordered[0]` and `ordered[1]` of the stable sort are the first
      least-frequent node and the first least-frequent node among the
      others; both are removed and their parent is appended. */
  function MergeStep<T>(q: seq<Tree<T>>): (r: seq<Tree<T>>)
    requires |q| >= 2
    ensures |r| == |q| - 1
  {
    var i := MinIndex(q);
    var rest := RemoveAt(q, i);
    var j := MinIndex(rest);
    RemoveAt(rest, j) + [Node(q[i].freq + rest[j].freq, q[i], rest[j])]
  }

  /** The merge loop, down to a single node. */
  function BuildTree<T>(q: seq<Tree<T>>): Tree<T>
    requires |q| >= 1
    decreases |q|
  {
    if |q| == 1 then q[0] else BuildTree(MergeStep(q))
  }

  /** One leaf per table record, in table order. */
  function InitialQueue<T>(table: seq<SymbolFreq<T>>): (q: seq<Tree<T>>)
    ensures |q| == |table|
  {
    seq(|table|, i requires 0 <= i < |table| => Leaf(table[i].symbol, table[i].freq))
  }

  /** `BuildHuffmanTree` (Services/HuffmanCompressor.cs:32-61); None where
      `priorityQueue[0]` throws because the table is empty. */
  function BuildHuffmanTree<T>(table: seq<SymbolFreq<T>>): (r: Option<Tree<T>>)
    ensures r.Some? <==> |table| > 0
  {
    if |table| == 0 then None else Some(BuildTree(InitialQueue(table)))
  }

  // ---------------------------------------------------- merge invariants

  function QueueLeaves<T(==)>(q: seq<Tree<T>>): multiset<SymbolFreq<T>> {
    if |q| == 0 then multiset{} else QueueLeaves(q[..|q| - 1]) + Leaves(q[|q| - 1])
  }

  function QueueWeight<T>(q: seq<Tree<T>>): nat {
    if |q| == 0 then 0 else QueueWeight(q[..|q| - 1]) + q[|q| - 1].freq
  }

  predicate AllWellFormed<T>(q: seq<Tree<T>>) {
    forall k | 0 <= k < |q| :: WellFormed(q[k])
  }

  lemma {:induction false} QueueLeavesRemoveAt<T>(q: seq<Tree<T>>, i: nat)
    requires i < |q|
    ensures QueueLeaves(q) == QueueLeaves(RemoveAt(q, i)) + Leaves(q[i])
    decreases |q|
  {
    var n := |q| - 1;
    var r := RemoveAt(q, i);
    if i < n {
      assert r[..n - 1] == RemoveAt(q[..n], i);
      assert r[n - 1] == q[n];
      QueueLeavesRemoveAt(q[..n], i);
      assert QueueLeaves(r) == QueueLeaves(r[..n - 1]) + Leaves(r[n - 1]);
    } else {
      assert r == q[..n];
    }
  }

  lemma {:induction false} QueueWeightRemoveAt<T>(q: seq<Tree<T>>, i: nat)
    requires i < |q|
    ensures QueueWeight(q) == QueueWeight(RemoveAt(q, i)) + q[i].freq
    decreases |q|
  {
    var n := |q| - 1;
    var r := RemoveAt(q, i);
    if i < n {
      assert r[..n - 1] == RemoveAt(q[..n], i);
      assert r[n - 1] == q[n];
      QueueWeightRemoveAt(q[..n], i);
      assert QueueWeight(r) == QueueWeight(r[..n - 1]) + r[n - 1].freq;
    } else {
      assert r == q[..n];
    }
  }

  lemma MultisetRemoveAt<T>(q: seq<T>, i: nat)
    requires i < |q|
    ensures multiset(RemoveAt(q, i)) + multiset{q[i]} == multiset(q)
  {
    assert q == q[..i] + [q[i]] + q[i + 1..];
  }

  /** The parent a merge appends: no symbol, the sum of its children's
      frequencies, its left child a least-frequent node of the queue and its
      right child a least-frequent one of the others (so left <= right); the
      other nodes stay. */
  lemma MergeStepSpec<T>(q: seq<Tree<T>>)
    requires |q| >= 2
    ensures var r := MergeStep(q);
      var n := r[|r| - 1];
      && n.Node? && n.freq == n.left.freq + n.right.freq
      && n.left.freq <= n.right.freq
      && (forall k | 0 <= k < |q| :: n.left.freq <= q[k].freq)
      && (forall k | 0 <= k < |r| - 1 :: n.right.freq <= r[k].freq)
      && multiset(r[..|r| - 1]) + multiset{n.left, n.right} == multiset(q)
  {
    var i := MinIndex(q);
    var rest := RemoveAt(q, i);
    var j := MinIndex(rest);
    var r := MergeStep(q);
    assert r[..|r| - 1] == RemoveAt(rest, j);
    MultisetRemoveAt(q, i);
    MultisetRemoveAt(rest, j);
    forall k | 0 <= k < |r| - 1
      ensures rest[j].freq <= r[k].freq
    {
      assert r[k] in multiset(rest);
    }
    assert rest[j] in multiset(q);
  }

  /** A merge keeps the multiset of leaves, the total frequency and
      well-formedness. */
  lemma MergeStepKeeps<T>(q: seq<Tree<T>>)
    requires |q| >= 2
    ensures QueueLeaves(MergeStep(q)) == QueueLeaves(q)
    ensures QueueWeight(MergeStep(q)) == QueueWeight(q)
    ensures AllWellFormed(q) ==> AllWellFormed(MergeStep(q))
  {
    MergeStepLeaves(q);
    MergeStepWeight(q);
    if AllWellFormed(q) {
      MergeStepWellFormed(q);
    }
  }

  lemma QueueSnoc<T>(q: seq<Tree<T>>, t: Tree<T>)
    ensures QueueLeaves(q + [t]) == QueueLeaves(q) + Leaves(t)
    ensures QueueWeight(q + [t]) == QueueWeight(q) + t.freq
  {
    assert (q + [t])[..|q|] == q;
  }

  lemma MergeStepLeaves<T>(q: seq<Tree<T>>)
    requires |q| >= 2
    ensures QueueLeaves(MergeStep(q)) == QueueLeaves(q)
  {
    var i := MinIndex(q);
    var rest := RemoveAt(q, i);
    var j := MinIndex(rest);
    var parent := Node(q[i].freq + rest[j].freq, q[i], rest[j]);
    assert MergeStep(q) == RemoveAt(rest, j) + [parent];
    QueueSnoc(RemoveAt(rest, j), parent);
    QueueLeavesRemoveAt(q, i);
    QueueLeavesRemoveAt(rest, j);
    assert Leaves(parent) == Leaves(q[i]) + Leaves(rest[j]);
    MultisetRegroup(QueueLeaves(q), QueueLeaves(rest), QueueLeaves(RemoveAt(rest, j)),
                    Leaves(q[i]), Leaves(rest[j]), QueueLeaves(MergeStep(q)));
  }

  /** Removing a and then b and adding back a + b gives the same multiset. */
  lemma MultisetRegroup<X>(all: multiset<X>, rest: multiset<X>, rest2: multiset<X>, a: multiset<X>, b: multiset<X>, r: multiset<X>)
    requires all == rest + a && rest == rest2 + b && r == rest2 + (a + b)
    ensures r == all
  {
  }

  lemma MergeStepWeight<T>(q: seq<Tree<T>>)
    requires |q| >= 2
    ensures QueueWeight(MergeStep(q)) == QueueWeight(q)
  {
    var i := MinIndex(q);
    var rest := RemoveAt(q, i);
    var j := MinIndex(rest);
    var parent := Node(q[i].freq + rest[j].freq, q[i], rest[j]);
    assert MergeStep(q) == RemoveAt(rest, j) + [parent];
    QueueSnoc(RemoveAt(rest, j), parent);
    QueueWeightRemoveAt(q, i);
    QueueWeightRemoveAt(rest, j);
  }

  lemma MergeStepWellFormed<T>(q: seq<Tree<T>>)
    requires |q| >= 2 && AllWellFormed(q)
    ensures AllWellFormed(MergeStep(q))
  {
    var i := MinIndex(q);
    var rest := RemoveAt(q, i);
    var j := MinIndex(rest);
    var r := MergeStep(q);
    MultisetRemoveAt(q, i);
    MultisetRemoveAt(rest, j);
    assert r[..|r| - 1] == RemoveAt(rest, j);
    forall k | 0 <= k < |r|
      ensures WellFormed(r[k])
    {
      if k < |r| - 1 {
        assert r[k] in multiset(RemoveAt(rest, j));
        assert r[k] in multiset(rest);
        assert r[k] in multiset(q);
      } else {
        assert rest[j] in multiset(q);
      }
    }
  }

  lemma {:induction false} BuildTreeSpec<T>(q: seq<Tree<T>>)
    requires |q| >= 1
    ensures Leaves(BuildTree(q)) == QueueLeaves(q)
    ensures BuildTree(q).freq == QueueWeight(q)
    ensures AllWellFormed(q) ==> WellFormed(BuildTree(q))
    decreases |q|
  {
    if |q| == 1 {
      assert q[..0] == [];
    } else {
      MergeStepKeeps(q);
      BuildTreeSpec(MergeStep(q));
    }
  }

  lemma {:induction false} InitialQueueSpec<T>(table: seq<SymbolFreq<T>>)
    ensures QueueLeaves(InitialQueue(table)) == multiset(table)
    ensures QueueWeight(InitialQueue(table)) == TotalFreq(table)
    ensures AllWellFormed(InitialQueue(table))
  {
    if |table| > 0 {
      var n := |table| - 1;
      assert InitialQueue(table)[..n] == InitialQueue(table[..n]);
      InitialQueueSpec(table[..n]);
      assert table == table[..n] + [table[n]];
    }
  }

  /** The tree of a text: its leaves are exactly the frequency table's
      records, the root's frequency is the length of the text, every inner
      node's frequency is the sum of its children's, and it has 2S - 1
      nodes for S distinct symbols. An empty text has no tree. */
  lemma BuildHuffmanTreeSpec<T>(text: seq<T>)
    ensures var table := Tally(text);
      var r := BuildHuffmanTree(table);
      && (r.None? <==> |text| == 0)
      && (r.Some? ==>
            && Leaves(r.value) == multiset(table)
            && r.value.freq == |text|
            && WellFormed(r.value)
            && Size(r.value) == 2 * |table| - 1)
  {
    var table := Tally(text);
    TallyIsFrequencyTable(text);
    if |text| > 0 {
      assert text[0] in Symbols(table);
      var q := InitialQueue(table);
      InitialQueueSpec(table);
      BuildTreeSpec(q);
      SizeFromLeaves(BuildTree(q));
    }
  }

  // ---------------------------------------------------------- code table

  /** `BuildCodeTable(node, code, codeTable)` (Services/HuffmanCompressor.cs:63-75):
      a leaf records the path to it; '0' is appended going left and '1'
      going right. */
  function BuildCodeTable<T(==)>(t: Tree<T>, code: string, table: map<T, string>): map<T, string> {
    match t
    case Leaf(s, _) => table[s := code]
    case Node(_, l, r) => BuildCodeTable(r, code + "1", BuildCodeTable(l, code + "0", table))
  }

  /** The symbol reached from the root along path, '0' to the left and '1'
      to the right; None if the path stops at an inner node or runs past a
      leaf. */
  function Follow<T>(t: Tree<T>, path: string): Option<T> {
    match t
    case Leaf(s, _) => if |path| == 0 then Some(s) else None
    case Node(_, l, r) =>
      if |path| == 0 then None
      else if path[0] == '0' then Follow(l, path[1..])
      else if path[0] == '1' then Follow(r, path[1..])
      else None
  }

  lemma NodeUniqueSymbols<T>(f: nat, l: Tree<T>, r: Tree<T>)
    requires UniqueSymbols(Leaves(Node(f, l, r)))
    ensures UniqueSymbols(Leaves(l)) && UniqueSymbols(Leaves(r))
    ensures LeafSymbols(l) !! LeafSymbols(r)
  {
    var m := Leaves(Node(f, l, r));
    forall a, b | a in Leaves(l) && b in Leaves(r)
      ensures a.symbol != b.symbol
    {
      assert a in m && b in m;
      assert m[a] == Leaves(l)[a] + Leaves(r)[a];
    }
  }

  /** Following a path that starts with b means following its rest in the
      child b selects. */
  lemma FollowStep<T>(t: Tree<T>, path: string, b: char)
    requires t.Node? && |path| > 0 && path[0] == b && (b == '0' || b == '1')
    ensures Follow(t, path) == Follow(if b == '0' then t.left else t.right, path[1..])
  {
  }

  /** The table after visiting t from path p: t's leaf symbols are added,
      each mapped to p followed by the path that leads to it in t; entries
      for other symbols are left as they were. */
  lemma BuildCodeTableSpec<T>(t: Tree<T>, p: string, m: map<T, string>)
    requires UniqueSymbols(Leaves(t))
    ensures var r := BuildCodeTable(t, p, m);
      && r.Keys == m.Keys + LeafSymbols(t)
      && (forall s | s in m && s !in LeafSymbols(t) :: r[s] == m[s])
      && (forall s | s in LeafSymbols(t) :: p <= r[s] && Follow(t, r[s][|p|..]) == Some(s))
  {
    BuildCodeTableFrame(t, p, m);
    BuildCodeTablePaths(t, p, m);
  }

  /** Visiting t adds exactly t's leaf symbols and touches no other entry. */
  lemma {:induction false} BuildCodeTableFrame<T>(t: Tree<T>, p: string, m: map<T, string>)
    ensures var r := BuildCodeTable(t, p, m);
      && r.Keys == m.Keys + LeafSymbols(t)
      && (forall s | s in m && s !in LeafSymbols(t) :: r[s] == m[s])
  {
    match t
    case Leaf(s, f) =>
      LeafSymbolsUnfold(t);
    case Node(f, l, rt) =>
      var r1 := BuildCodeTable(l, p + "0", m);
      assert BuildCodeTable(t, p, m) == BuildCodeTable(rt, p + "1", r1);
      BuildCodeTableFrame(l, p + "0", m);
      BuildCodeTableFrame(rt, p + "1", r1);
      LeafSymbolsUnfold(t);
  }

  /** Every leaf symbol of t is a key of r whose code is p followed by the
      path that leads to it in t. */
  ghost predicate PathsFrom<T>(t: Tree<T>, p: string, r: map<T, string>) {
    forall x | x in LeafSymbols(t) :: x in r && p <= r[x] && Follow(t, r[x][|p|..]) == Some(x)
  }

  /** With distinct leaf symbols, every leaf symbol's code is p followed by
      its path in t. */
  lemma {:induction false} BuildCodeTablePaths<T>(t: Tree<T>, p: string, m: map<T, string>)
    requires UniqueSymbols(Leaves(t))
    ensures PathsFrom(t, p, BuildCodeTable(t, p, m))
  {
    match t
    case Leaf(s, f) =>
      LeafSymbolsUnfold(t);
      assert p[|p|..] == [];
    case Node(f, l, rt) =>
      NodeUniqueSymbols(f, l, rt);
      var r1 := BuildCodeTable(l, p + "0", m);
      var r := BuildCodeTable(rt, p + "1", r1);
      assert BuildCodeTable(t, p, m) == r;
      BuildCodeTablePaths(l, p + "0", m);
      BuildCodeTablePaths(rt, p + "1", r1);
      BuildCodeTableFrame(rt, p + "1", r1);
      LeafSymbolsUnfold(t);
      PathsJoin(t, p, r1, r);
  }

  /** The paths of an inner node's two children, visited left then right,
      give the paths of the node. */
  lemma PathsJoin<T>(t: Tree<T>, p: string, r1: map<T, string>, r: map<T, string>)
    requires t.Node? && LeafSymbols(t.left) !! LeafSymbols(t.right)
    requires LeafSymbols(t) == LeafSymbols(t.left) + LeafSymbols(t.right)
    requires PathsFrom(t.left, p + "0", r1) && PathsFrom(t.right, p + "1", r)
    requires forall x | x in r1 && x !in LeafSymbols(t.right) :: x in r && r[x] == r1[x]
    ensures PathsFrom(t, p, r)
  {
    forall s | s in LeafSymbols(t)
      ensures s in r && p <= r[s] && Follow(t, r[s][|p|..]) == Some(s)
    {
      if s in LeafSymbols(t.left) {
        var c := r1[s];
        assert r[s] == c;
        FollowChild(t, p, c, '0', s);
      } else {
        FollowChild(t, p, r[s], '1', s);
      }
    }
  }

  lemma FollowChild<T>(t: Tree<T>, p: string, c: string, b: char, s: T)
    requires t.Node? && (b == '0' || b == '1') && p + [b] <= c
    requires Follow(if b == '0' then t.left else t.right, c[|p| + 1..]) == Some(s)
    ensures p <= c && Follow(t, c[|p|..]) == Some(s)
  {
    ExtendOne(c, p, b);
    FollowStep(t, c[|p|..], b);
  }

  lemma ExtendOne(c: string, p: string, b: char)
    requires p + [b] <= c
    ensures p <= c && |c[|p|..]| > 0 && c[|p|..][0] == b && c[|p|..][1..] == c[|p| + 1..]
  {
    assert c[|p|] == (p + [b])[|p|];
  }

  /** The code table built from the root. */
  function CodeTable<T(==)>(root: Tree<T>): map<T, string> {
    BuildCodeTable(root, "", map[])
  }

  lemma {:induction false} FollowIsBitString<T>(t: Tree<T>, path: string)
    requires Follow(t, path).Some?
    ensures IsBitString(path)
  {
    if t.Node? {
      FollowIsBitString(if path[0] == '0' then t.left else t.right, path[1..]);
      assert path == [path[0]] + path[1..];
    }
  }

  /** Only leaves carry symbols, so a path that reaches one is not a proper
      prefix of another path that reaches one. */
  lemma {:induction false} FollowPrefix<T>(t: Tree<T>, a: string, b: string)
    requires Follow(t, a).Some? && Follow(t, b).Some? && a <= b
    ensures a == b
  {
    if t.Node? {
      assert a[0] == b[0];
      FollowPrefix(if a[0] == '0' then t.left else t.right, a[1..], b[1..]);
    }
  }

  /** The code table maps exactly the tree's symbols, each to its
      root-to-leaf path, a string of '0'/'1'; a single-leaf tree gives the
      empty code, otherwise every code is non-empty; and no code is a prefix
      of another. */
  lemma CodeTableSpec<T>(root: Tree<T>)
    requires UniqueSymbols(Leaves(root))
    ensures var code := CodeTable(root);
      && code.Keys == LeafSymbols(root)
      && (forall s | s in code :: Follow(root, code[s]) == Some(s) && IsBitString(code[s]))
      && (root.Leaf? ==> forall s | s in code :: code[s] == "")
      && (root.Node? ==> forall s | s in code :: |code[s]| > 0)
      && (forall s1, s2 | s1 in code && s2 in code && s1 != s2 :: !(code[s1] <= code[s2]))
  {
    var code := CodeTable(root);
    BuildCodeTableSpec(root, "", map[]);
    forall s | s in code
      ensures Follow(root, code[s]) == Some(s) && IsBitString(code[s])
    {
      assert code[s][0..] == code[s];
      FollowIsBitString(root, code[s]);
    }
    forall s1, s2 | s1 in code && s2 in code && s1 != s2
      ensures !(code[s1] <= code[s2])
    {
      if code[s1] <= code[s2] {
        FollowPrefix(root, code[s1], code[s2]);
      }
    }
  }

  // ------------------------------------------------------------ encoding

  /** Distinct table symbols occur once each among the records. */
  lemma {:induction false} DistinctUnique<T>(table: seq<SymbolFreq<T>>)
    requires DistinctSymbols(table)
    ensures UniqueSymbols(multiset(table))
  {
    if |table| > 0 {
      var n := |table| - 1;
      var init, last := table[..n], table[n];
      DistinctUnique(init);
      assert table == init + [last];
      forall a: SymbolFreq<T> | a in multiset(init)
        ensures a.symbol != last.symbol
      {
        var k :| 0 <= k < n && init[k] == a;
        assert table[k] == a;
      }
    }
  }

  /** The tree of a non-empty text: no symbol labels two leaves, the leaf
      symbols are the symbols of the text, and the root is an inner node
      exactly when the text holds two different symbols. */
  lemma TreeOfText<T>(text: seq<T>, root: Tree<T>)
    requires BuildHuffmanTree(Tally(text)) == Some(root)
    ensures UniqueSymbols(Leaves(root))
    ensures LeafSymbols(root) == set x | x in text
    ensures root.Node? <==> TwoSymbols(text)
  {
    var table := Tally(text);
    BuildHuffmanTreeSpec(text);
    TallyIsFrequencyTable(text);
    DistinctUnique(table);
    LeavesAreText(text, table, Leaves(root));
    TallyAtLeastTwo(text);
    if root.Leaf? {
      assert |Leaves(root)| == 1;
    } else {
      assert |Leaves(root)| >= 2;
    }
  }

  lemma LeavesAreText<T>(text: seq<T>, table: seq<SymbolFreq<T>>, m: multiset<SymbolFreq<T>>)
    requires IsFrequencyTable(text, table) && m == multiset(table)
    ensures (set a | a in m :: a.symbol) == set x | x in text
  {
    forall x | x in text
      ensures exists a | a in m :: a.symbol == x
    {
      assert x in Symbols(table);
      var k :| 0 <= k < |table| && table[k].symbol == x;
      assert table[k] in m;
    }
    forall a | a in m
      ensures a.symbol in text
    {
      var k :| 0 <= k < |table| && table[k] == a;
    }
  }

  /** The encoded bit string of `Compress` (Services/HuffmanCompressor.cs:86-95):
      each symbol's code in text order. None on an empty text. */
  function EncodedBits<T(==)>(text: seq<T>): Option<string> {
    match BuildHuffmanTree(Tally(text))
    case None => None
    case Some(root) =>
      TreeOfText(text, root);
      BuildCodeTableSpec(root, "", map[]);
      Some(Encode(CodeTable(root), text))
  }

  /** `Compress` without the file I/O: the encoded bits packed into bytes
      (Services/HuffmanCompressor.cs:101). */
  function Compress<T(==)>(text: seq<T>): Option<seq<byte>> {
    var bits :- EncodedBits(text);
    Some(ConvertToBytes(bits))
  }

  /** Σ freq · |code| over the records of a table. */
  function WeightedLength<T(==)>(table: seq<SymbolFreq<T>>, code: map<T, string>): nat
    requires forall i | 0 <= i < |table| :: table[i].symbol in code
  {
    if |table| == 0 then 0
    else
      var n := |table| - 1;
      WeightedLength(table[..n], code) + table[n].freq * |code[table[n].symbol]|
  }

  lemma {:induction false} EncodeSnoc<T>(code: map<T, string>, text: seq<T>, x: T)
    requires forall y | y in text :: y in code
    requires x in code
    ensures Encode(code, text + [x]) == Encode(code, text) + code[x]
  {
    if |text| > 0 {
      assert (text + [x])[1..] == text[1..] + [x];
      EncodeSnoc(code, text[1..], x);
    } else {
      assert [x][1..] == [];
    }
  }

  lemma {:induction false} WeightedUpdate<T>(table: seq<SymbolFreq<T>>, code: map<T, string>, i: nat)
    requires i < |table|
    requires forall k | 0 <= k < |table| :: table[k].symbol in code
    ensures var e := SymbolFreq(table[i].symbol, table[i].freq + 1);
      WeightedLength(table[i := e], code) == WeightedLength(table, code) + |code[table[i].symbol]|
    decreases |table|
  {
    var n := |table| - 1;
    var e := SymbolFreq(table[i].symbol, table[i].freq + 1);
    if i < n {
      assert table[i := e][..n] == table[..n][i := e];
      WeightedUpdate(table[..n], code, i);
    } else {
      assert table[i := e][..n] == table[..n];
      var len := |code[table[i].symbol]|;
      assert (table[i].freq + 1) * len == table[i].freq * len + len;
    }
  }

  /** The length of the encoded text is Σ freq(c) · |code(c)| over the
      frequency table. */
  lemma {:induction false} EncodedLength<T>(text: seq<T>, code: map<T, string>)
    requires forall x | x in text :: x in code
    ensures forall i | 0 <= i < |Tally(text)| :: Tally(text)[i].symbol in code
    ensures |Encode(code, text)| == WeightedLength(Tally(text), code)
  {
    TallyIsFrequencyTable(text);
    if |text| > 0 {
      var n := |text| - 1;
      var p, x := text[..n], text[n];
      assert text == p + [x];
      EncodedLength(p, code);
      EncodeSnoc(code, p, x);
      var t := Tally(p);
      var i := IndexOf(t, x);
      if i >= 0 {
        WeightedUpdate(t, code, i);
      } else {
        assert (t + [SymbolFreq(x, 1)])[..|t|] == t;
      }
    }
  }

  /** `Compress` fails exactly on an empty text. Otherwise its output is the
      packed encoded bit string, whose length is Σ freq · |code| and which
      unpacks to that bit string again. */
  lemma CompressSpec<T>(text: seq<T>)
    ensures Compress(text).None? <==> |text| == 0
    ensures Compress(text).Some? ==>
      var root := BuildHuffmanTree(Tally(text)).value;
      var code := CodeTable(root);
      var bits := EncodedBits(text).value;
      && (forall i | 0 <= i < |Tally(text)| :: Tally(text)[i].symbol in code)
      && |bits| == WeightedLength(Tally(text), code)
      && Compress(text).value == ConvertToBytes(bits)
      && ConvertToBitString(Compress(text).value, |bits|) == Some(bits)
  {
    BuildHuffmanTreeSpec(text);
    if |text| > 0 {
      var root := BuildHuffmanTree(Tally(text)).value;
      var code := CodeTable(root);
      TreeOfText(text, root);
      CodeTableSpec(root);
      EncodedLength(text, code);
      EncodeIsBitString(code, text);
      PackRoundTrip(Encode(code, text));
    }
  }

  /** With two or more distinct symbols the encoded bits are uniquely
      decodable: the greedy prefix decoder, given a dictionary from each
      code back to its symbol, recovers the text. */
  lemma EncodedDecodes<T>(text: seq<T>, decode: map<string, T>)
    requires TwoSymbols(text)
    requires var code := CodeTable(BuildHuffmanTree(Tally(text)).value);
      && (forall s | s in code :: code[s] in decode && decode[code[s]] == s)
      && (forall c | c in decode :: exists s | s in code :: code[s] == c)
    ensures EncodedBits(text).Some?
    ensures Greedy(decode, EncodedBits(text).value, "") == text
  {
    TallyAtLeastTwo(text);
    var root := BuildHuffmanTree(Tally(text)).value;
    var code := CodeTable(root);
    TreeOfText(text, root);
    CodeTableSpec(root);
    assert PrefixFree(decode.Keys) by {
      forall a, b | a in decode && b in decode && a != b
        ensures !(a <= b)
      {
        var s1 :| s1 in code && code[s1] == a;
        var s2 :| s2 in code && code[s2] == b;
      }
    }
    GreedyDecodes(code, decode, text);
  }
}
