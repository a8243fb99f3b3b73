/**
 * The `HuffmanCoding` object: a coder that keeps its current tree in `root`
 * and its code table in `codes`, both updated in place by its methods.  Each
 * method is proved against the pure definitions of the tree, the table, the
 * trie and the walks; the properties the coder promises are proved about
 * those definitions and carried over to the methods.
 */
module HuffmanCoding {
  import opened Common
  import opened JsObject
  import opened BinaryText
  import opened HuffmanTree
  import opened HuffmanTrie

  class HuffmanCoding {
    /** The root of the current tree; `Nil` stands for `null` and `undefined`. */
    var root: Tree
    /** The code table: character to string of '0'/'1'. */
    var codes: Table<string>

    /** A coder with no tree and an empty table. */
    constructor()
      ensures root == Nil && codes == []
    {
      root := Nil;
      codes := [];
    }

    /** `calculateFrequency(str)`: the count of every character, keyed in order of first occurrence. */
    method CalculateFrequency(s: string) returns (f: Table<int>)
      ensures f == Frequency(s)
    {
      f := [];
      for i := 0 to |s|
        invariant f == Frequency(s[..i])
      {
        FrequencyStep(s, i);
        f := Put(f, s[i], Get(f, s[i]).GetOr(0) + 1);
      }
      assert s[..|s|] == s;
    }

    /**
     * `buildHuffmanTree(str)`: count, make one leaf per key in enumeration
     * order, sort, merge the two front nodes until one is left, and assign the
     * paths of the result into the existing table.  For the empty message the
     * queue is empty, `root` becomes `undefined` and the code walk throws.
     */
    method BuildHuffmanTree(s: string) returns (r: Result<Tree>)
      modifies this
      ensures root == HuffmanTreeOf(s) && (root.Nil? <==> s == [])
      ensures s == [] ==> r == Err(TypeError) && codes == old(codes)
      ensures s != [] ==> r == Ok(root) && codes == GenerateCodes(root, "", old(codes))
    {
      var f := CalculateFrequency(s);
      var ks := EnumerationOrder(f);
      var queue: seq<Tree> := [];
      for i := 0 to |ks|
        invariant codes == old(codes)
        invariant queue == LeafQueue(f, ks[..i])
      {
        LeafQueueStep(f, ks, i);
        queue := queue + [Leaf(ks[i], Get(f, ks[i]).GetOr(0))];
      }
      assert ks[..|ks|] == ks;
      queue := SortByFreq(queue);
      while |queue| > 1
        invariant codes == old(codes)
        invariant Merge(queue) == Merge(InitialQueue(s))
        decreases |queue|
      {
        MergeStep(queue);
        var left := queue[0];
        var right := queue[1];
        queue := queue[2..];
        queue := SortByFreq(queue + [Join(left, right)]);
      }
      assert Merge(queue) == queue;
      root := if queue == [] then Nil else queue[0];
      assert root.Nil? <==> s == [] by {
        HuffmanTreeShape(s);
      }
      if root.Nil? {
        r := Err(TypeError);
      } else {
        codes := GenerateCodes(root, "", codes);
        r := Ok(root);
      }
    }

    /**
     * `buildHuffmanTree` with the table cleared first, so that the table
     * describes the new tree alone.
     */
    method BuildFreshHuffmanTree(s: string) returns (r: Result<Tree>)
      modifies this
      ensures root == HuffmanTreeOf(s)
      ensures s == [] ==> r == Err(TypeError) && codes == []
      ensures s != [] ==> r == Ok(root) && codes == GenerateCodes(root, "", [])
    {
      codes := [];
      r := BuildHuffmanTree(s);
    }

    /**
     * `encode(str)`: build a tree from `str` first when there is none, then
     * concatenate the codes of the characters.
     */
    method Encode(s: string) returns (r: Result<string>)
      modifies this
      ensures old(root).Node? ==> root == old(root) && codes == old(codes)
      ensures old(root).Nil? ==> root == HuffmanTreeOf(s)
      ensures old(root).Nil? ==> codes == if s == [] then old(codes) else GenerateCodes(root, "", old(codes))
      ensures r == if root.Nil? then Err(TypeError) else Ok(HuffmanTrie.Encode(codes, s))
    {
      if root.Nil? {
        var built := BuildHuffmanTree(s);
        if built.Err? {
          return Err(built.error);
        }
      }
      ghost var root0, codes0 := root, codes;
      var e := "";
      for i := 0 to |s|
        invariant root == root0 && codes == codes0
        invariant e == HuffmanTrie.Encode(codes, s[..i])
      {
        EncodeStep(codes, s, i);
        e := e + CodeOf(codes, s[i]);
      }
      assert s[..|s|] == s;
      r := Ok(e);
    }

    /** `decode(encodedStr)`: walk the current tree, stopping early when a step leaves it. */
    method Decode(bits: string) returns (d: string)
      ensures d == HuffmanTrie.Decode(root, bits)
    {
      if root.Nil? {
        return [];
      }
      var current := root;
      d := [];
      var i := 0;
      while i < |bits|
        invariant 0 <= i <= |bits| && current.Node?
        invariant d + DecodeFrom(root, current, bits[i..]) == DecodeFrom(root, root, bits)
      {
        assert bits[i..][1..] == bits[i + 1..];
        current := Child(current, bits[i]);
        if current.Node? && current.ch.Some? {
          d := d + [current.ch.value];
          current := root;
        }
        if current.Nil? {
          assert d == DecodeFrom(root, root, bits);
          return;
        }
        i := i + 1;
      }
      assert d == DecodeFrom(root, root, bits);
    }

    /** `getCodesTable()`. */
    method GetCodesTable() returns (t: Table<string>)
      ensures t == codes
    {
      t := codes;
    }

    /** `setCodesTable(codes)`: adopt the table and rebuild the trie from it. */
    method SetCodesTable(t: Table<string>)
      modifies this
      ensures codes == t && root == Reconstruct(t)
    {
      codes := t;
      ReconstructTree();
    }

    /** `reconstructTree()`: a fresh root, then the path of every entry in enumeration order. */
    method ReconstructTree()
      modifies this
      ensures codes == old(codes) && root == Reconstruct(codes)
    {
      root := EmptyNode();
      var ks := EnumerationOrder(codes);
      for i := 0 to |ks|
        invariant codes == old(codes)
        invariant root == InsertAll(EmptyNode(), codes, ks[..i])
      {
        InsertAllStep(codes, ks, i);
        root := InsertPath(root, CodeAt(codes, ks[i]), ks[i]);
      }
      assert ks[..|ks|] == ks;
    }
  }

  // ---------------------------------------------------------------- one loop iteration at a time

  lemma FrequencyStep(s: string, i: nat)
    requires i < |s|
    ensures Frequency(s[..i + 1]) == Put(Frequency(s[..i]), s[i], Get(Frequency(s[..i]), s[i]).GetOr(0) + 1)
  {
    assert s[..i + 1][..i] == s[..i];
  }

  lemma LeafQueueStep(f: Table<int>, ks: seq<char>, i: nat)
    requires i < |ks|
    ensures LeafQueue(f, ks[..i + 1]) == LeafQueue(f, ks[..i]) + [Leaf(ks[i], Get(f, ks[i]).GetOr(0))]
  {
    assert ks[..i + 1][..i] == ks[..i];
  }

  lemma MergeStep(q: seq<Tree>)
    requires |q| > 1
    ensures Merge(q) == Merge(SortByFreq(q[2..] + [Join(q[0], q[1])]))
  {
  }

  lemma InsertAllStep(codes: Table<string>, ks: seq<char>, i: nat)
    requires i < |ks|
    ensures InsertAll(EmptyNode(), codes, ks[..i + 1]) == InsertPath(InsertAll(EmptyNode(), codes, ks[..i]), CodeAt(codes, ks[i]), ks[i])
  {
    assert ks[..i + 1][..i] == ks[..i];
  }

  lemma EncodeStep(codes: Table<string>, s: string, i: nat)
    requires i < |s|
    ensures HuffmanTrie.Encode(codes, s[..i + 1]) == HuffmanTrie.Encode(codes, s[..i]) + CodeOf(codes, s[i])
  {
    assert s[..i + 1][..i] == s[..i];
  }

  // ---------------------------------------------------------------- what a coder promises its clients

  /**
   * On a fresh coder, building from a message with at least two distinct
   * characters gives each of them exactly one non-empty binary code, no other
   * key, and no code that is a prefix of another.
   */
  method FreshTable(s: string) returns (table: Table<string>)
    requires TwoSymbols(s)
    ensures Unique(Keys(table))
    ensures forall c :: c in Keys(table) <==> c in s
    ensures forall i :: 0 <= i < |table| ==> table[i].1 != [] && IsBits(table[i].1)
    ensures PrefixFree(table)
  {
    var coder := new HuffmanCoding();
    var _ := coder.BuildHuffmanTree(s);
    table := coder.GetCodesTable();
    FreshCodes(s);
  }

  /**
   * The Huffman round trip through the table alone: build from `s`, encode
   * `m`, hand the table to `setCodesTable`, and decode; any `m` written in the
   * characters of `s` comes back.
   */
  method RoundTripThroughTable(s: string, m: string) returns (d: string)
    requires TwoSymbols(s)
    requires forall i :: 0 <= i < |m| ==> m[i] in s
    ensures d == m
  {
    var coder := new HuffmanCoding();
    var _ := coder.BuildHuffmanTree(s);
    d := SendThroughTable(coder, s, m);
  }

  /**
   * Encode `m` on a coder whose table is the one built from `s` alone, hand
   * the table to `setCodesTable` and decode.
   */
  method SendThroughTable(coder: HuffmanCoding, s: string, m: string) returns (d: string)
    requires TwoSymbols(s)
    requires forall i :: 0 <= i < |m| ==> m[i] in s
    requires coder.root == HuffmanTreeOf(s) && coder.codes == GenerateCodes(coder.root, "", [])
    modifies coder
    ensures d == m
  {
    assert coder.root.Node? by {
      HuffmanTreeShape(s);
    }
    var table := coder.codes;
    assert WellFormedCodes(table) && forall i :: 0 <= i < |m| ==> m[i] in Keys(table) by {
      FreshCodes(s);
    }
    var e := coder.Encode(m);
    var t := coder.GetCodesTable();
    coder.SetCodesTable(t);
    assert HuffmanTrie.Decode(Reconstruct(table), HuffmanTrie.Encode(table, m)) == m by {
      RoundTrip(table, m, []);
      assert HuffmanTrie.Encode(table, m) + [] == HuffmanTrie.Encode(table, m);
    }
    d := coder.Decode(e.value);
  }

  /**
   * A message of one distinct character gets the empty code: its encoding is
   * empty, and the trie rebuilt from its table labels no node, so every bit
   * string decodes to nothing.
   */
  lemma LoneSymbolLost(s: string, m: string, bits: string)
    requires s != [] && !TwoSymbols(s)
    requires forall i :: 0 <= i < |m| ==> m[i] == s[0]
    ensures GenerateCodes(HuffmanTreeOf(s), "", []) == [(s[0], "")]
    ensures HuffmanTrie.Encode([(s[0], "")], m) == []
    ensures Reconstruct([(s[0], "")]) == EmptyNode()
    ensures HuffmanTrie.Decode(Reconstruct([(s[0], "")]), bits) == []
  {
    LoneSymbolEmptyCode(s, []);
    var codes := [(s[0], "")];
    assert codes == Put([], s[0], "");
    LoneEncoding(codes, s[0], m);
    OneKeyEnumeration(codes);
    assert InsertAll(EmptyNode(), codes, [s[0]]) == InsertPath(InsertAll(EmptyNode(), codes, []), CodeAt(codes, s[0]), s[0]);
  }

  lemma {:induction false} LoneEncoding(codes: Table<string>, c: char, m: string)
    requires codes == [(c, "")]
    requires forall i :: 0 <= i < |m| ==> m[i] == c
    ensures HuffmanTrie.Encode(codes, m) == []
    decreases |m|
  {
    if m != [] {
      LoneEncoding(codes, c, m[..|m| - 1]);
    }
  }

  // ---------------------------------------------------------------- a coder used for a second message

  /**
   * Building again on a coder that already holds a table: the entries of the
   * earlier message stay, so the table handed out is no longer prefix-free
   * and the trie rebuilt from it decodes "abc" as "ycyyc".
   */
  method ReusedCoder() returns (d: string)
    ensures d == "ycyyc"
  {
    var coder := new HuffmanCoding();
    var _ := coder.BuildHuffmanTree("xy");
    var _ := coder.BuildHuffmanTree("abc");
    var e := coder.Encode("abc");
    var table := coder.GetCodesTable();
    coder.SetCodesTable(table);
    StaleTableMisdecodes();
    d := coder.Decode(e.value);
  }

  /** With the table cleared before each build, a reused coder keeps the round trip of the latest message. */
  method ReusedFreshCoder(first: string, s: string, m: string) returns (d: string)
    requires TwoSymbols(s)
    requires forall i :: 0 <= i < |m| ==> m[i] in s
    ensures d == m
  {
    var coder := new HuffmanCoding();
    var _ := coder.BuildFreshHuffmanTree(first);
    var _ := coder.BuildFreshHuffmanTree(s);
    d := SendThroughTable(coder, s, m);
  }

  /** The table after building "xy" and then "abc" on one coder, and what the trie rebuilt from it does. */
  lemma StaleTableMisdecodes()
    ensures GenerateCodes(HuffmanTreeOf("abc"), "", GenerateCodes(HuffmanTreeOf("xy"), "", [])) == StaleTable()
    ensures !PrefixFree(StaleTable())
    ensures HuffmanTrie.Encode(StaleTable(), "abc") == "10110"
    ensures HuffmanTrie.Decode(Reconstruct(StaleTable()), "10110") == "ycyyc"
  {
    StaleCodes();
    var t := StaleTable();
    assert t[1].1 <= t[3].1;
    StaleEncoding();
    StaleTrie();
  }

  function StaleTable(): Table<string> {
    [('x', "0"), ('y', "1"), ('c', "0"), ('a', "10"), ('b', "11")]
  }

  /** Counting a character not seen before appends it with count one. */
  lemma FrequencyFresh(p: string, c: char)
    requires c !in p
    ensures Frequency(p + [c]) == Frequency(p) + [(c, 1)]
  {
    assert (p + [c])[..|p|] == p;
    FrequencyKeys(p);
    GetSome(Frequency(p), c);
    PutFresh(Frequency(p), c, 1);
  }

  lemma StaleCodes()
    ensures GenerateCodes(HuffmanTreeOf("abc"), "", GenerateCodes(HuffmanTreeOf("xy"), "", [])) == StaleTable()
  {
    TreeOfXY();
    TreeOfAbc();
    FirstCodes();
    SecondCodes();
  }

  lemma GenerateCodesLeaf(c: char, f: int, code: string, codes: Table<string>)
    ensures GenerateCodes(Leaf(c, f), code, codes) == Put(codes, c, code)
  {
  }

  lemma GenerateCodesJoin(a: Tree, b: Tree, code: string, codes: Table<string>)
    ensures GenerateCodes(Join(a, b), code, codes) == GenerateCodes(b, code + "1", GenerateCodes(a, code + "0", codes))
  {
  }

  lemma FirstCodes()
    ensures GenerateCodes(Join(Leaf('x', 1), Leaf('y', 1)), "", []) == [('x', "0"), ('y', "1")]
  {
    GenerateCodesJoin(Leaf('x', 1), Leaf('y', 1), "", []);
    assert "" + "0" == "0" && "" + "1" == "1";
    GenerateCodesLeaf('x', 1, "0", []);
    assert Put([], 'x', "0") == [('x', "0")];
    var t1 := [('x', "0")];
    GenerateCodesLeaf('y', 1, "1", t1);
    assert Keys(t1) == ['x'];
    PutFresh(t1, 'y', "1");
  }

  lemma SecondCodes()
    ensures GenerateCodes(Join(Leaf('c', 1), Join(Leaf('a', 1), Leaf('b', 1))), "", [('x', "0"), ('y', "1")]) == StaleTable()
  {
    var t1 := [('x', "0"), ('y', "1")];
    var t2 := t1 + [('c', "0")];
    var t3 := t2 + [('a', "10")];
    assert t3 + [('b', "11")] == StaleTable();
    GenerateCodesJoin(Leaf('c', 1), Join(Leaf('a', 1), Leaf('b', 1)), "", t1);
    assert "" + "0" == "0" && "" + "1" == "1";
    assert GenerateCodes(Leaf('c', 1), "0", t1) == t2 by {
      GenerateCodesLeaf('c', 1, "0", t1);
      assert Keys(t1) == "xy";
      PutFresh(t1, 'c', "0");
    }
    GenerateCodesJoin(Leaf('a', 1), Leaf('b', 1), "1", t2);
    assert "1" + "0" == "10" && "1" + "1" == "11";
    assert GenerateCodes(Leaf('a', 1), "10", t2) == t3 by {
      GenerateCodesLeaf('a', 1, "10", t2);
      assert Keys(t2) == "xyc";
      PutFresh(t2, 'a', "10");
    }
    assert GenerateCodes(Leaf('b', 1), "11", t3) == StaleTable() by {
      GenerateCodesLeaf('b', 1, "11", t3);
      assert Keys(t3) == "xyca";
      PutFresh(t3, 'b', "11");
    }
  }

  lemma SortOne(a: Tree)
    ensures SortByFreq([a]) == [a]
  {
    assert [a][..0] == [];
  }

  lemma SortTwo(a: Tree, b: Tree)
    requires Freq(a) <= Freq(b)
    ensures SortByFreq([a, b]) == [a, b]
  {
    var q := [a, b];
    assert q[..1] == [a] && q[1] == b;
    SortOne(a);
    assert SortByFreq(q) == InsertByFreq(b, [a]);
    assert [a][1..] == [];
    assert InsertByFreq(b, [a]) == [a] + InsertByFreq(b, []);
  }

  lemma SortThree(a: Tree, b: Tree, c: Tree)
    requires Freq(a) <= Freq(b) <= Freq(c)
    ensures SortByFreq([a, b, c]) == [a, b, c]
  {
    var q := [a, b, c];
    assert q[..2] == [a, b] && q[2] == c;
    SortTwo(a, b);
    assert SortByFreq(q) == InsertByFreq(c, [a, b]);
    assert [a, b][1..] == [b] && [b][1..] == [];
    assert InsertByFreq(c, [b]) == [b] + InsertByFreq(c, []);
    assert InsertByFreq(c, [a, b]) == [a] + InsertByFreq(c, [b]);
  }

  lemma MergeTwo(a: Tree, b: Tree)
    ensures Merge([a, b]) == [Join(a, b)]
  {
    assert [a, b][2..] + [Join(a, b)] == [Join(a, b)];
    SortOne(Join(a, b));
  }

  lemma LeafQueueTwo(f: Table<int>, x: char, y: char)
    ensures LeafQueue(f, [x, y]) == [Leaf(x, Get(f, x).GetOr(0)), Leaf(y, Get(f, y).GetOr(0))]
  {
    assert [x, y][..1] == [x];
    assert [x][..0] == [];
  }

  lemma LeafQueueThree(f: Table<int>, x: char, y: char, z: char)
    ensures LeafQueue(f, [x, y, z]) == [Leaf(x, Get(f, x).GetOr(0)), Leaf(y, Get(f, y).GetOr(0)), Leaf(z, Get(f, z).GetOr(0))]
  {
    assert [x, y, z][..2] == [x, y];
    LeafQueueTwo(f, x, y);
  }

  lemma TreeOfXY()
    ensures HuffmanTreeOf("xy") == Join(Leaf('x', 1), Leaf('y', 1))
  {
    QueueOfXY();
    MergeTwo(Leaf('x', 1), Leaf('y', 1));
  }

  lemma QueueOfXY()
    ensures InitialQueue("xy") == [Leaf('x', 1), Leaf('y', 1)]
  {
    var f := Frequency("xy");
    assert f == [('x', 1), ('y', 1)] by {
      FrequencyOfXY();
    }
    var ks := EnumerationOrder(f);
    assert ks == "xy" by {
      EnumerationWithoutIndexKeys(f);
      assert Keys(f) == "xy";
    }
    assert LeafQueue(f, ks) == [Leaf('x', 1), Leaf('y', 1)] by {
      LeafQueueTwo(f, 'x', 'y');
      assert Get(f, 'x') == Some(1) && Get(f, 'y') == Some(1);
    }
    SortTwo(Leaf('x', 1), Leaf('y', 1));
  }

  lemma FrequencyOfXY()
    ensures Frequency("xy") == [('x', 1), ('y', 1)]
  {
    FrequencyOfTwo('x', 'y');
  }

  lemma FrequencyOfTwo(x: char, y: char)
    requires x != y
    ensures Frequency([x, y]) == [(x, 1), (y, 1)]
  {
    FrequencyFresh([], x);
    FrequencyFresh([x], y);
    assert [x, y] == [x] + [y] && [x] == [] + [x];
  }

  lemma FrequencyOfThree(x: char, y: char, z: char)
    requires x != y && x != z && y != z
    ensures Frequency([x, y, z]) == [(x, 1), (y, 1), (z, 1)]
  {
    FrequencyOfTwo(x, y);
    FrequencyFresh([x, y], z);
    assert [x, y, z] == [x, y] + [z];
  }

  lemma TreeOfAbc()
    ensures HuffmanTreeOf("abc") == Join(Leaf('c', 1), Join(Leaf('a', 1), Leaf('b', 1)))
  {
    QueueOfAbc();
    MergeOfAbc();
  }

  lemma MergeOfAbc()
    ensures Merge([Leaf('a', 1), Leaf('b', 1), Leaf('c', 1)]) == [Join(Leaf('c', 1), Join(Leaf('a', 1), Leaf('b', 1)))]
  {
    var la, lb, lc := Leaf('a', 1), Leaf('b', 1), Leaf('c', 1);
    var j1 := Join(la, lb);
    assert [la, lb, lc][2..] + [j1] == [lc, j1];
    SortTwo(lc, j1);
    MergeTwo(lc, j1);
  }

  lemma QueueOfAbc()
    ensures InitialQueue("abc") == [Leaf('a', 1), Leaf('b', 1), Leaf('c', 1)]
  {
    var f := Frequency("abc");
    assert f == [('a', 1), ('b', 1), ('c', 1)] by {
      FrequencyOfAbc();
    }
    var ks := EnumerationOrder(f);
    assert ks == "abc" by {
      EnumerationWithoutIndexKeys(f);
      assert Keys(f) == "abc";
    }
    assert LeafQueue(f, ks) == [Leaf('a', 1), Leaf('b', 1), Leaf('c', 1)] by {
      LeafQueueThree(f, 'a', 'b', 'c');
      assert Get(f, 'a') == Some(1) && Get(f, 'b') == Some(1) && Get(f, 'c') == Some(1);
    }
    SortThree(Leaf('a', 1), Leaf('b', 1), Leaf('c', 1));
  }

  lemma FrequencyOfAbc()
    ensures Frequency("abc") == [('a', 1), ('b', 1), ('c', 1)]
  {
    FrequencyOfThree('a', 'b', 'c');
  }

  lemma StaleEncoding()
    ensures HuffmanTrie.Encode(StaleTable(), "abc") == "10110"
  {
    var t := StaleTable();
    assert "abc"[..2] == "ab" && "ab"[..1] == "a" && "a"[..0] == [];
    assert CodeOf(t, 'a') == "10" && CodeOf(t, 'b') == "11" && CodeOf(t, 'c') == "0";
  }

  function StaleLeaf(c: char): Tree {
    Node(Some(c), 0, Nil, Nil)
  }

  /** The trie `reconstructTree` grows from the stale table: "y" sits on the inner node above "a" and "b". */
  function StaleRoot(): Tree {
    Node(None, 0, StaleLeaf('c'), Node(Some('y'), 0, StaleLeaf('a'), StaleLeaf('b')))
  }

  lemma StaleTrie()
    ensures HuffmanTrie.Decode(Reconstruct(StaleTable()), "10110") == "ycyyc"
  {
    StaleReconstruct();
    StaleDecode();
  }

  lemma StaleDecode()
    ensures DecodeFrom(StaleRoot(), StaleRoot(), "10110") == "ycyyc"
  {
    var root := StaleRoot();
    assert "10110"[1..] == "0110" && "0110"[1..] == "110" && "110"[1..] == "10" && "10"[1..] == "0" && "0"[1..] == [];
    assert DecodeFrom(root, root, "0") == "c";
    assert DecodeFrom(root, root, "10") == "yc";
    assert DecodeFrom(root, root, "110") == "yyc";
    assert DecodeFrom(root, root, "0110") == "cyyc";
  }

  lemma StaleReconstruct()
    ensures Reconstruct(StaleTable()) == StaleRoot()
  {
    var t := StaleTable();
    assert EnumerationOrder(t) == "xycab" by {
      EnumerationWithoutIndexKeys(t);
      assert Keys(t) == "xycab";
    }
    StaleCodeAt();
    StaleInsertions(t, "xycab");
  }

  lemma StaleCodeAt()
    ensures CodeAt(StaleTable(), 'x') == "0" && CodeAt(StaleTable(), 'y') == "1" && CodeAt(StaleTable(), 'c') == "0"
    ensures CodeAt(StaleTable(), 'a') == "10" && CodeAt(StaleTable(), 'b') == "11"
  {
  }

  lemma StaleInsertions(t: Table<string>, ks: seq<char>)
    requires ks == "xycab"
    requires CodeAt(t, 'x') == "0" && CodeAt(t, 'y') == "1" && CodeAt(t, 'c') == "0"
    requires CodeAt(t, 'a') == "10" && CodeAt(t, 'b') == "11"
    ensures InsertAll(EmptyNode(), t, ks) == StaleRoot()
  {
    var x, y, c, a := StaleLeaf('x'), StaleLeaf('y'), StaleLeaf('c'), StaleLeaf('a');
    var t1, t2, t3 := Node(None, 0, x, Nil), Node(None, 0, x, y), Node(None, 0, c, y);
    var t4 := Node(None, 0, c, Node(Some('y'), 0, a, Nil));
    assert ks[..0] == [];
    InsertAllStep(t, ks, 0);
    assert InsertAll(EmptyNode(), t, ks[..1]) == t1;
    InsertAllStep(t, ks, 1);
    assert InsertAll(EmptyNode(), t, ks[..2]) == t2;
    InsertAllStep(t, ks, 2);
    assert InsertAll(EmptyNode(), t, ks[..3]) == t3;
    InsertAllStep(t, ks, 3);
    assert InsertAll(EmptyNode(), t, ks[..4]) == t4 by {
      InsertTwoBits(t3, "10", 'a');
    }
    InsertAllStep(t, ks, 4);
    assert ks[..5] == ks;
    InsertTwoBits(t4, "11", 'b');
  }

  /** Inserting a two-bit code: one step to an existing child, then a label on its new child. */
  lemma InsertTwoBits(t: Tree, code: string, c: char)
    requires t.Node? && |code| == 2 && Child(t, code[0]).Node?
    ensures InsertPath(t, code, c) ==
      var child := Child(t, code[0]);
      var leaf := (if Child(child, code[1]).Nil? then EmptyNode() else Child(child, code[1])).(ch := Some(c));
      var child' := if code[1] == '0' then child.(left := leaf) else child.(right := leaf);
      if code[0] == '0' then t.(left := child') else t.(right := child')
  {
    assert code[1..] == [code[1]];
  }

  // ---------------------------------------------------------------- encodings are binary

  /**
   * A character of the message the tree was just built from gets a binary
   * code, whatever entries the table held before the build.
   */
  lemma MessageCodeBits(s: string, prior: Table<string>, c: char)
    requires TwoSymbols(s) && c in s
    ensures IsBits(CodeOf(GenerateCodes(HuffmanTreeOf(s), "", prior), c))
  {
    var t := HuffmanTreeOf(s);
    var ps := Paths(t, "");
    StaleCodesKept(s, prior, c);
    PathsOfMessage(s);
    FreshCodes(s);
    var i :| 0 <= i < |ps| && Keys(ps)[i] == c;
    GetAt(ps, i);
  }

  /** A message whose every character has a binary code encodes to binary digits only. */
  lemma {:induction false} EncodingBits(codes: Table<string>, m: string)
    requires forall i :: 0 <= i < |m| ==> IsBits(CodeOf(codes, m[i]))
    ensures IsBits(HuffmanTrie.Encode(codes, m))
    decreases |m|
  {
    if m != [] {
      EncodingBits(codes, m[..|m| - 1]);
      BitsConcat(HuffmanTrie.Encode(codes, m[..|m| - 1]), CodeOf(codes, m[|m| - 1]));
    }
  }

  /** `encode` right after `buildHuffmanTree` on the same message writes only '0' and '1'. */
  lemma EncodedMessageBits(s: string, prior: Table<string>)
    requires TwoSymbols(s)
    ensures IsBits(HuffmanTrie.Encode(GenerateCodes(HuffmanTreeOf(s), "", prior), s))
  {
    forall i | 0 <= i < |s| ensures IsBits(CodeOf(GenerateCodes(HuffmanTreeOf(s), "", prior), s[i])) {
      MessageCodeBits(s, prior, s[i]);
    }
    EncodingBits(GenerateCodes(HuffmanTreeOf(s), "", prior), s);
  }
}
