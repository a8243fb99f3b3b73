/**
 * The Huffman tree the coder builds from a message, and the code table it
 * derives from that tree, as pure values.
 *
 * A tree is built by counting the characters, making one leaf per distinct
 * character in the order `for (char in frequency)` visits them, sorting the
 * leaves by frequency with the stable `Array.prototype.sort`, and then
 * repeatedly taking the two front nodes off the queue, joining them under a
 * new inner node, appending that node and sorting again.  Codes are the paths
 * from the root, "0" for a step left and "1" for a step right.
 */
module HuffmanTree {
  import opened Common
  import opened JsObject
  import opened BinaryText

  /** A `HuffmanNode`, or `null` (`Nil`).  Inner nodes carry no character. */
  datatype Tree = Nil | Node(ch: Option<char>, freq: int, left: Tree, right: Tree)

  function Leaf(c: char, f: int): Tree {
    Node(Some(c), f, Nil, Nil)
  }

  function Freq(t: Tree): int {
    if t.Node? then t.freq else 0
  }

  /** The inner node made from the two front nodes of the queue. */
  function Join(a: Tree, b: Tree): Tree {
    Node(None, Freq(a) + Freq(b), a, b)
  }

  /** The characters carried by the nodes of `t`, in depth-first order (node, left, right). */
  function Labels(t: Tree): seq<char> {
    match t
    case Nil => []
    case Node(ch, _, l, r) => (if ch.Some? then [ch.value] else []) + Labels(l) + Labels(r)
  }

  /** A tree as the builder makes it: leaves carry a character, inner nodes have two children. */
  predicate Full(t: Tree) {
    t.Node? && if t.ch.Some? then t.left.Nil? && t.right.Nil? else Full(t.left) && Full(t.right)
  }

  /** The message has at least two distinct characters. */
  predicate TwoSymbols(s: string) {
    |s| > 0 && exists i :: 0 <= i < |s| && s[i] != s[0]
  }

  // ---------------------------------------------------------------- frequencies

  /** The frequency object: one property per distinct character, created at its first occurrence. */
  function Frequency(s: string): Table<int> {
    if s == [] then []
    else
      var f := Frequency(s[..|s| - 1]);
      var c := s[|s| - 1];
      Put(f, c, Get(f, c).GetOr(0) + 1)
  }

  /** Each character of the message is counted exactly as often as it occurs; no other key exists. */
  lemma {:induction false} FrequencyCounts(s: string, c: char)
    ensures Get(Frequency(s), c) == if c in s then Some(multiset(s)[c]) else None
  {
    if s == [] {
      assert Frequency(s) == [];
      assert Keys(Frequency(s)) == [];
    } else {
      var p, x := s[..|s| - 1], s[|s| - 1];
      var f := Frequency(p);
      var v := Get(f, x).GetOr(0) + 1;
      assert Frequency(s) == Put(f, x, v);
      GetPut(f, x, v, c);
      FrequencyCounts(p, c);
      assert s == p + [x];
      assert multiset(s)[c] == multiset(p)[c] + multiset([x])[c];
      if c == x {
        assert Get(Frequency(s), c) == Some(v);
        assert v == multiset(p)[c] + 1;
      } else {
        assert Get(Frequency(s), c) == Get(f, c);
        assert c in s <==> c in p;
      }
    }
  }

  /** The frequency object has every key once. */
  lemma {:induction false} FrequencyKeysUnique(s: string)
    ensures Unique(Keys(Frequency(s)))
  {
    if s != [] {
      var f := Frequency(s[..|s| - 1]);
      FrequencyKeysUnique(s[..|s| - 1]);
      PutKeys(f, s[|s| - 1], Get(f, s[|s| - 1]).GetOr(0) + 1);
      if s[|s| - 1] !in Keys(f) {
        UniqueAppend(Keys(f), s[|s| - 1]);
      }
    }
  }

  // ---------------------------------------------------------------- the queue

  /** One leaf per key, in the order given, each with its frequency. */
  function LeafQueue(f: Table<int>, ks: seq<char>): (q: seq<Tree>)
    ensures |q| == |ks|
  {
    if ks == [] then []
    else LeafQueue(f, ks[..|ks| - 1]) + [Leaf(ks[|ks| - 1], Get(f, ks[|ks| - 1]).GetOr(0))]
  }

  /** The characters carried by the trees of a queue, front to back. */
  function AllLabels(q: seq<Tree>): seq<char> {
    if q == [] then [] else Labels(q[0]) + AllLabels(q[1..])
  }

  /** Every tree of the queue is as the builder makes it. */
  predicate AllFull(q: seq<Tree>) {
    forall i :: 0 <= i < |q| ==> Full(q[i])
  }

  /** Ordered by frequency, lowest first: what the comparator `a.freq - b.freq` asks of the sort. */
  predicate Sorted(q: seq<Tree>) {
    forall i, j :: 0 <= i < j < |q| ==> Freq(q[i]) <= Freq(q[j])
  }

  /** Places `x` after every element whose frequency is not above its own. */
  function InsertByFreq(x: Tree, q: seq<Tree>): (r: seq<Tree>)
    ensures |r| == |q| + 1
  {
    if q == [] then [x]
    else if Freq(q[0]) <= Freq(x) then [q[0]] + InsertByFreq(x, q[1..])
    else [x] + q
  }

  /**
   * `Array.prototype.sort` with the frequency comparator.  The sort is stable,
   * so it is modelled as insertion sort: elements of equal frequency keep their
   * relative order.
   */
  function SortByFreq(q: seq<Tree>): (r: seq<Tree>)
    ensures |r| == |q|
  {
    if q == [] then [] else InsertByFreq(q[|q| - 1], SortByFreq(q[..|q| - 1]))
  }

  /**
   * The `while (priorityQueue.length > 1)` loop: shift two nodes, join them,
   * push the join, sort again.  What remains is the one-element queue (or the
   * empty one).
   */
  function Merge(q: seq<Tree>): (r: seq<Tree>)
    ensures |r| == if q == [] then 0 else 1
    decreases |q|
  {
    if |q| <= 1 then q else Merge(SortByFreq(q[2..] + [Join(q[0], q[1])]))
  }

  /** `buildHuffmanTree(s)`'s root: `priorityQueue[0]`, which is `undefined` for the empty message. */
  function HuffmanTreeOf(s: string): Tree {
    var q := Merge(InitialQueue(s));
    if q == [] then Nil else q[0]
  }

  /** The sorted leaf queue the merge loop starts from. */
  function InitialQueue(s: string): seq<Tree> {
    var f := Frequency(s);
    SortByFreq(LeafQueue(f, EnumerationOrder(f)))
  }

  lemma {:induction false} AllLabelsConcat(a: seq<Tree>, b: seq<Tree>)
    ensures AllLabels(a + b) == AllLabels(a) + AllLabels(b)
    decreases |a|
  {
    if a == [] {
      assert a + b == b;
    } else {
      assert (a + b)[0] == a[0] && (a + b)[1..] == a[1..] + b;
      AllLabelsConcat(a[1..], b);
    }
  }

  /** The leaf queue carries exactly the keys it was made from, in order. */
  lemma {:induction false} LeafQueueLabels(f: Table<int>, ks: seq<char>)
    ensures AllLabels(LeafQueue(f, ks)) == ks
    ensures AllFull(LeafQueue(f, ks))
  {
    if ks != [] {
      var init, c := ks[..|ks| - 1], ks[|ks| - 1];
      var l := Leaf(c, Get(f, c).GetOr(0));
      LeafQueueLabels(f, init);
      AllLabelsConcat(LeafQueue(f, init), [l]);
      assert Labels(l) == [c];
      assert [l][1..] == [];
      assert ks == init + [c];
    }
  }

  lemma {:induction false} InsertSorted(x: Tree, q: seq<Tree>)
    requires Sorted(q)
    ensures Sorted(InsertByFreq(x, q))
    ensures forall i :: 0 <= i < |q| + 1 ==> InsertByFreq(x, q)[i] == x || InsertByFreq(x, q)[i] in q
  {
    if q != [] && Freq(q[0]) <= Freq(x) {
      InsertSorted(x, q[1..]);
      var r := InsertByFreq(x, q[1..]);
      forall i | 0 <= i < |r| ensures Freq(q[0]) <= Freq(r[i]) {
        if r[i] != x {
          assert r[i] in q[1..];
        }
      }
    }
  }

  /** The characters a queue carries, when one tree is put in front of it. */
  lemma AllLabelsCons(x: Tree, q: seq<Tree>)
    ensures AllLabels([x] + q) == Labels(x) + AllLabels(q)
  {
    assert ([x] + q)[0] == x && ([x] + q)[1..] == q;
  }

  lemma {:induction false} InsertPermutes(x: Tree, q: seq<Tree>)
    ensures multiset(InsertByFreq(x, q)) == multiset(q) + multiset{x}
  {
    if q != [] && Freq(q[0]) <= Freq(x) {
      InsertPermutes(x, q[1..]);
      assert q == [q[0]] + q[1..];
      assert InsertByFreq(x, q) == [q[0]] + InsertByFreq(x, q[1..]);
    }
  }

  lemma {:induction false} InsertKeepsLabels(x: Tree, q: seq<Tree>)
    ensures multiset(AllLabels(InsertByFreq(x, q))) == multiset(AllLabels(q)) + multiset(Labels(x))
  {
    if q == [] {
      AllLabelsCons(x, []);
    } else if Freq(q[0]) <= Freq(x) {
      var r := InsertByFreq(x, q[1..]);
      var a, b := Labels(q[0]), AllLabels(q[1..]);
      assert InsertByFreq(x, q) == [q[0]] + r;
      assert multiset(AllLabels([q[0]] + r)) == multiset(a) + multiset(AllLabels(r)) by {
        AllLabelsCons(q[0], r);
      }
      assert multiset(AllLabels(r)) == multiset(b) + multiset(Labels(x)) by {
        InsertKeepsLabels(x, q[1..]);
      }
      assert multiset(AllLabels(q)) == multiset(a) + multiset(b) by {
        assert AllLabels(q) == a + b;
      }
    } else {
      AllLabelsCons(x, q);
    }
  }

  /** The sort orders the queue by frequency and only rearranges it. */
  lemma {:induction false} SortIsSortedPermutation(q: seq<Tree>)
    ensures Sorted(SortByFreq(q))
    ensures multiset(SortByFreq(q)) == multiset(q)
    ensures multiset(AllLabels(SortByFreq(q))) == multiset(AllLabels(q))
  {
    if q != [] {
      var init, x := q[..|q| - 1], q[|q| - 1];
      SortIsSortedPermutation(init);
      InsertSorted(x, SortByFreq(init));
      InsertPermutes(x, SortByFreq(init));
      InsertKeepsLabels(x, SortByFreq(init));
      assert q == init + [x];
      AllLabelsConcat(init, [x]);
      assert AllLabels([x]) == Labels(x);
    }
  }

  /** Sorting keeps every tree of the queue as the builder makes it. */
  lemma SortKeepsFull(q: seq<Tree>)
    requires AllFull(q)
    ensures AllFull(SortByFreq(q))
  {
    SortIsSortedPermutation(q);
    var r := SortByFreq(q);
    forall i | 0 <= i < |r| ensures Full(r[i]) {
      assert r[i] in multiset(q);
    }
  }

  /**
   * Merging a non-empty queue of builder trees leaves one builder tree carrying
   * every character of the queue; from two or more trees it is an inner node.
   */
  lemma {:induction false} MergeShape(q: seq<Tree>)
    requires |q| >= 1 && AllFull(q)
    ensures |Merge(q)| == 1 && Full(Merge(q)[0])
    ensures multiset(Labels(Merge(q)[0])) == multiset(AllLabels(q))
    ensures |q| >= 2 ==> Merge(q)[0].ch.None?
    decreases |q|
  {
    if |q| >= 2 {
      var j := Join(q[0], q[1]);
      var rest := q[2..] + [j];
      var next := SortByFreq(rest);
      assert Merge(q) == Merge(next);
      assert AllFull(next) by {
        assert AllFull(rest);
        SortKeepsFull(rest);
      }
      assert multiset(AllLabels(next)) == multiset(AllLabels(q)) by {
        SortIsSortedPermutation(rest);
        JoinStepLabels(q);
      }
      MergeShape(next);
    }
  }

  /** Replacing the two front trees by their join keeps the characters the queue carries. */
  lemma JoinStepLabels(q: seq<Tree>)
    requires |q| >= 2
    ensures multiset(AllLabels(q[2..] + [Join(q[0], q[1])])) == multiset(AllLabels(q))
  {
    var j := Join(q[0], q[1]);
    AllLabelsConcat(q[2..], [j]);
    AllLabelsCons(j, []);
    AllLabelsFrontTwo(q);
    MultisetRotate(Labels(q[0]), Labels(q[1]), AllLabels(q[2..]));
  }

  lemma AllLabelsFrontTwo(q: seq<Tree>)
    requires |q| >= 2
    ensures AllLabels(q) == Labels(q[0]) + (Labels(q[1]) + AllLabels(q[2..]))
  {
    assert q[1..][0] == q[1] && q[1..][1..] == q[2..];
  }

  lemma MultisetRotate(a: seq<char>, b: seq<char>, c: seq<char>)
    ensures multiset(c + (a + b + [])) == multiset(a + (b + c))
  {
    assert a + b + [] == a + b;
  }

  /** Two different elements make a sequence of at least two. */
  lemma TwoDistinct(ks: seq<char>, a: char, b: char)
    requires a in ks && b in ks && a != b
    ensures |ks| >= 2
  {
  }

  /** The frequency object's keys are exactly the distinct characters of the message. */
  lemma FrequencyKeys(s: string)
    ensures Unique(Keys(Frequency(s)))
    ensures forall c :: c in Keys(Frequency(s)) <==> c in s
  {
    FrequencyKeysUnique(s);
    forall c ensures c in Keys(Frequency(s)) <==> c in s {
      FrequencyCounts(s, c);
      GetSome(Frequency(s), c);
    }
  }

  /** The initial queue: builder trees, one leaf per distinct character. */
  lemma InitialQueueShape(s: string)
    ensures AllFull(InitialQueue(s))
    ensures forall c :: multiset(AllLabels(InitialQueue(s)))[c] == if c in s then 1 else 0
    ensures |InitialQueue(s)| == |Keys(Frequency(s))|
  {
    var f := Frequency(s);
    var ks := EnumerationOrder(f);
    var leaves := LeafQueue(f, ks);
    FrequencyKeys(s);
    EnumerationVisitsEachKeyOnce(f);
    assert |ks| == |Keys(f)| by {
      assert |multiset(ks)| == |multiset(Keys(f))|;
    }
    LeafQueueLabels(f, ks);
    SortIsSortedPermutation(leaves);
    SortKeepsFull(leaves);
    forall c ensures multiset(AllLabels(InitialQueue(s)))[c] == if c in s then 1 else 0 {
      UniqueCount(Keys(f), c);
    }
  }

  /** A non-empty message has a key; one with two distinct characters has two. */
  lemma KeyCount(s: string)
    ensures s != [] ==> |Keys(Frequency(s))| >= 1
    ensures TwoSymbols(s) ==> |Keys(Frequency(s))| >= 2
  {
    FrequencyKeys(s);
    if s != [] {
      assert s[0] in Keys(Frequency(s));
    }
    if TwoSymbols(s) {
      var i :| 0 <= i < |s| && s[i] != s[0];
      TwoDistinct(Keys(Frequency(s)), s[0], s[i]);
    }
  }

  /**
   * The tree of a message: `undefined` exactly for the empty message; otherwise
   * a builder tree with one leaf per distinct character of the message and no
   * other; an inner root when the message has two distinct characters.
   */
  lemma HuffmanTreeShape(s: string)
    ensures s == [] <==> HuffmanTreeOf(s).Nil?
    ensures s != [] ==> Full(HuffmanTreeOf(s))
    ensures forall c :: multiset(Labels(HuffmanTreeOf(s)))[c] == if c in s then 1 else 0
    ensures TwoSymbols(s) ==> HuffmanTreeOf(s).ch.None?
  {
    var q := InitialQueue(s);
    InitialQueueShape(s);
    KeyCount(s);
    if s == [] {
      assert |Keys(Frequency(s))| == 0;
    } else {
      MergeShape(q);
    }
  }

  /** A message of one distinct character counts that character once per position. */
  lemma {:induction false} LoneSymbolFrequency(s: string)
    requires s != [] && !TwoSymbols(s)
    ensures Frequency(s) == [(s[0], |s|)]
  {
    var p := s[..|s| - 1];
    assert s[|s| - 1] == s[0];
    if p == [] {
      assert Frequency(s) == Put([], s[0], 1);
      assert Keys<int>([]) == [];
    } else {
      assert !TwoSymbols(p) by {
        forall i | 0 <= i < |p| ensures p[i] == p[0] {
          assert p[i] == s[i] && s[i] == s[0];
        }
      }
      LoneSymbolFrequency(p);
      var f := Frequency(p);
      assert p[0] == s[0];
      assert Get(f, s[0]) == Some(|p|);
    }
  }

  /** A one-key object is enumerated as that key alone. */
  lemma OneKeyEnumeration<V>(t: Table<V>)
    requires |t| == 1
    ensures EnumerationOrder(t) == [t[0].0]
  {
    var c := t[0].0;
    assert Keys(t) == [c];
    assert multiset(EnumerationOrder(t)) == multiset([c]) by {
      EnumerationVisitsEachKeyOnce(t);
    }
    Singleton(EnumerationOrder(t), c);
  }

  lemma Singleton(e: seq<char>, c: char)
    requires multiset(e) == multiset([c])
    ensures e == [c]
  {
    assert |e| == |multiset(e)|;
    assert e[0] in multiset(e);
  }

  /** A message of one distinct character has a single leaf as its tree. */
  lemma LoneSymbolTree(s: string)
    requires s != [] && !TwoSymbols(s)
    ensures HuffmanTreeOf(s) == Leaf(s[0], |s|)
  {
    LoneSymbolFrequency(s);
    var f := Frequency(s);
    OneKeyEnumeration(f);
    var l := Leaf(s[0], |s|);
    assert Get(f, s[0]) == Some(|s|);
    assert LeafQueue(f, [s[0]]) == [l];
    assert SortByFreq([l]) == [l];
    assert InitialQueue(s) == [l];
  }

  // ---------------------------------------------------------------- the code table

  /**
   * `generateCodes(node, code)`: a depth-first walk that assigns `code` to a
   * node that carries a character, then walks left with "0" and right with "1".
   * It assigns into the existing table; nothing is cleared.
   */
  function GenerateCodes(t: Tree, code: string, codes: Table<string>): Table<string> {
    match t
    case Nil => codes
    case Node(ch, _, l, r) =>
      var here := if ch.Some? then Put(codes, ch.value, code) else codes;
      GenerateCodes(r, code + "1", GenerateCodes(l, code + "0", here))
  }

  /** The (character, path) pairs of `t` in the order the walk visits them. */
  function Paths(t: Tree, code: string): Table<string> {
    match t
    case Nil => []
    case Node(ch, _, l, r) =>
      (if ch.Some? then [(ch.value, code)] else []) + Paths(l, code + "0") + Paths(r, code + "1")
  }

  /** No code is a prefix of the code of another entry (equal codes included). */
  predicate PrefixFree(t: Table<string>) {
    forall i, j :: 0 <= i < |t| && 0 <= j < |t| && i != j ==> !(t[i].1 <= t[j].1)
  }

  /** Code generation assigns the paths of the tree one after another. */
  lemma {:induction false} GenerateCodesAssignsPaths(t: Tree, code: string, codes: Table<string>)
    ensures GenerateCodes(t, code, codes) == PutAll(codes, Paths(t, code))
  {
    match t
    case Nil =>
    case Node(ch, _, l, r) =>
      var here := if ch.Some? then [(ch.value, code)] else [];
      var pl, pr := Paths(l, code + "0"), Paths(r, code + "1");
      assert PutAll(codes, here) == if ch.Some? then Put(codes, ch.value, code) else codes;
      GenerateCodesAssignsPaths(l, code + "0", PutAll(codes, here));
      GenerateCodesAssignsPaths(r, code + "1", PutAll(PutAll(codes, here), pl));
      PutAllConcat(codes, here, pl);
      PutAllConcat(codes, here + pl, pr);
  }

  /** The walk visits exactly the characters of the tree, in depth-first order. */
  lemma {:induction false} PathsKeys(t: Tree, code: string)
    ensures Keys(Paths(t, code)) == Labels(t)
  {
    match t
    case Nil =>
    case Node(ch, _, l, r) =>
      var here := if ch.Some? then [(ch.value, code)] else [];
      var pl, pr := Paths(l, code + "0"), Paths(r, code + "1");
      PathsKeys(l, code + "0");
      PathsKeys(r, code + "1");
      KeysConcat(here + pl, pr);
      KeysConcat(here, pl);
  }

  /** Every path found below `code` starts with `code`. */
  lemma {:induction false} PathsExtend(t: Tree, code: string)
    ensures forall i :: 0 <= i < |Paths(t, code)| ==> code <= Paths(t, code)[i].1
  {
    match t
    case Nil =>
    case Node(ch, _, l, r) =>
      var here := if ch.Some? then [(ch.value, code)] else [];
      var pl, pr := Paths(l, code + "0"), Paths(r, code + "1");
      PathsExtend(l, code + "0");
      PathsExtend(r, code + "1");
      var p := here + pl + pr;
      forall i | 0 <= i < |p| ensures code <= p[i].1 {
        if i < |here| {
        } else if i < |here| + |pl| {
          assert p[i] == pl[i - |here|];
          PrefixTrans(code, code + "0", p[i].1);
        } else {
          assert p[i] == pr[i - |here| - |pl|];
          PrefixTrans(code, code + "1", p[i].1);
        }
      }
  }

  lemma PrefixTrans(a: string, b: string, c: string)
    requires a <= b && b <= c
    ensures a <= c
  {
    assert c[..|a|] == b[..|a|];
  }

  /** Strings extending `code + "0"` and `code + "1"` are never prefixes of each other. */
  lemma Diverge(code: string, x: string, y: string)
    requires code + "0" <= x && code + "1" <= y
    ensures !(x <= y) && !(y <= x)
  {
    assert x[|code|] == '0' && y[|code|] == '1';
  }

  lemma PrefixFreeConcat(a: Table<string>, b: Table<string>)
    requires PrefixFree(a) && PrefixFree(b)
    requires forall i, j :: 0 <= i < |a| && 0 <= j < |b| ==> !(a[i].1 <= b[j].1) && !(b[j].1 <= a[i].1)
    ensures PrefixFree(a + b)
  {
    var p := a + b;
    forall i, j | 0 <= i < |p| && 0 <= j < |p| && i != j ensures !(p[i].1 <= p[j].1) {
      if i < |a| && j >= |a| {
        assert p[j] == b[j - |a|];
      } else if i >= |a| && j < |a| {
        assert p[i] == b[i - |a|];
      } else if i >= |a| {
        assert p[i] == b[i - |a|] && p[j] == b[j - |a|];
      }
    }
  }

  /** In a builder tree no code is a prefix of another, and below an inner node every code is longer. */
  lemma {:induction false} PathsPrefixFree(t: Tree, code: string)
    requires Full(t)
    ensures PrefixFree(Paths(t, code))
    ensures t.ch.None? ==> forall i :: 0 <= i < |Paths(t, code)| ==> |Paths(t, code)[i].1| > |code|
  {
    var l, r := t.left, t.right;
    if t.ch.Some? {
      assert Paths(t, code) == [(t.ch.value, code)];
    } else {
      var pl, pr := Paths(l, code + "0"), Paths(r, code + "1");
      assert Paths(t, code) == pl + pr;
      PathsPrefixFree(l, code + "0");
      PathsPrefixFree(r, code + "1");
      PathsExtend(l, code + "0");
      PathsExtend(r, code + "1");
      forall i, j | 0 <= i < |pl| && 0 <= j < |pr| ensures !(pl[i].1 <= pr[j].1) && !(pr[j].1 <= pl[i].1) {
        Diverge(code, pl[i].1, pr[j].1);
      }
      PrefixFreeConcat(pl, pr);
      forall i | 0 <= i < |pl + pr| ensures |(pl + pr)[i].1| > |code| {
        if i < |pl| {
          assert code + "0" <= pl[i].1;
        } else {
          assert code + "1" <= pr[i - |pl|].1;
        }
      }
    }
  }

  /** The paths of a message's tree name each distinct character of the message once. */
  lemma PathsOfMessage(s: string)
    ensures Unique(Keys(Paths(HuffmanTreeOf(s), "")))
    ensures forall c :: c in Keys(Paths(HuffmanTreeOf(s), "")) <==> c in s
  {
    var t := HuffmanTreeOf(s);
    assert Keys(Paths(t, "")) == Labels(t) by {
      PathsKeys(t, "");
    }
    assert forall c :: multiset(Labels(t))[c] == if c in s then 1 else 0 by {
      HuffmanTreeShape(s);
    }
    CountedOnce(Labels(t), s);
  }

  /** Counting each character of `s` once and nothing else means holding exactly `s`'s characters, once each. */
  lemma CountedOnce(l: seq<char>, s: string)
    requires forall c :: multiset(l)[c] == if c in s then 1 else 0
    ensures Unique(l) && forall c :: c in l <==> c in s
  {
    CountsUnique(l);
    forall c ensures c in l <==> c in s {
      assert c in l <==> c in multiset(l);
    }
  }

  /**
   * On a fresh coder (empty code table) a message with at least two distinct
   * characters gets a table holding exactly its distinct characters, each once,
   * each with a non-empty binary code, no code a prefix of another.
   */
  lemma FreshCodes(s: string)
    requires TwoSymbols(s)
    ensures GenerateCodes(HuffmanTreeOf(s), "", []) == Paths(HuffmanTreeOf(s), "")
    ensures Unique(Keys(GenerateCodes(HuffmanTreeOf(s), "", [])))
    ensures forall c :: c in Keys(GenerateCodes(HuffmanTreeOf(s), "", [])) <==> c in s
    ensures PrefixFree(GenerateCodes(HuffmanTreeOf(s), "", []))
    ensures forall i :: 0 <= i < |GenerateCodes(HuffmanTreeOf(s), "", [])| ==> GenerateCodes(HuffmanTreeOf(s), "", [])[i].1 != [] && IsBits(GenerateCodes(HuffmanTreeOf(s), "", [])[i].1)
  {
    var t := HuffmanTreeOf(s);
    assert Full(t) && t.ch.None? by {
      HuffmanTreeShape(s);
    }
    PathsOfMessage(s);
    FreshCodesOfTree(t);
  }

  /** Every path found below a binary `code` is binary. */
  lemma {:induction false} PathsBits(t: Tree, code: string)
    requires IsBits(code)
    ensures forall i :: 0 <= i < |Paths(t, code)| ==> IsBits(Paths(t, code)[i].1)
  {
    match t
    case Nil =>
    case Node(ch, _, l, r) =>
      var here := if ch.Some? then [(ch.value, code)] else [];
      var pl, pr := Paths(l, code + "0"), Paths(r, code + "1");
      assert IsBits(code + "0") && IsBits(code + "1");
      PathsBits(l, code + "0");
      PathsBits(r, code + "1");
      var p := here + pl + pr;
      forall i | 0 <= i < |p| ensures IsBits(p[i].1) {
        if i >= |here| + |pl| {
          assert p[i] == pr[i - |here| - |pl|];
        } else if i >= |here| {
          assert p[i] == pl[i - |here|];
        }
      }
  }

  /** A fresh table generated from a builder tree with an inner root is the tree's paths: binary, none empty, prefix-free. */
  lemma FreshCodesOfTree(t: Tree)
    requires Full(t) && t.ch.None? && Unique(Keys(Paths(t, "")))
    ensures GenerateCodes(t, "", []) == Paths(t, "")
    ensures PrefixFree(Paths(t, ""))
    ensures forall i :: 0 <= i < |Paths(t, "")| ==> Paths(t, "")[i].1 != [] && IsBits(Paths(t, "")[i].1)
  {
    var ps := Paths(t, "");
    assert GenerateCodes(t, "", []) == ps by {
      GenerateCodesAssignsPaths(t, "", []);
      assert Keys<string>([]) + Keys(ps) == Keys(ps);
      PutAllFresh([], ps);
      assert [] + ps == ps;
    }
    PathsPrefixFree(t, "");
    PathsBits(t, "");
  }

  /**
   * On a coder that already holds codes, building keeps every stale entry: the
   * message's characters read their new paths, every other key its old code.
   */
  lemma StaleCodesKept(s: string, prior: Table<string>, c: char)
    ensures c in s ==> Get(GenerateCodes(HuffmanTreeOf(s), "", prior), c) == Get(Paths(HuffmanTreeOf(s), ""), c)
    ensures c !in s ==> Get(GenerateCodes(HuffmanTreeOf(s), "", prior), c) == Get(prior, c)
  {
    var t := HuffmanTreeOf(s);
    var ps := Paths(t, "");
    PathsOfMessage(s);
    GenerateCodesAssignsPaths(t, "", prior);
    GetPutAll(prior, ps, c);
  }

  /** A message of one distinct character gives that character the empty code. */
  lemma LoneSymbolEmptyCode(s: string, codes: Table<string>)
    requires s != [] && !TwoSymbols(s)
    ensures GenerateCodes(HuffmanTreeOf(s), "", codes) == Put(codes, s[0], "")
  {
    LoneSymbolTree(s);
  }
}
