/**
 * The side of the coder that works from a code table alone: the trie that
 * `reconstructTree` grows from the table, the `decode` walk over a tree, and
 * the concatenation `encode` performs.  The round trip is proved for any table
 * whose keys are distinct and whose codes are binary, non-empty and
 * prefix-free, which is what a freshly built table is.
 */
module HuffmanTrie {
  import opened Common
  import opened JsObject
  import opened BinaryText
  import opened HuffmanTree

  /** One step of a walk: "0" goes left, any other character goes right; `null` has no children. */
  function Child(t: Tree, b: char): Tree {
    match t
    case Nil => Nil
    case Node(_, _, l, r) => if b == '0' then l else r
  }

  /** The node reached from `t` along the path `p`. */
  function Follow(t: Tree, p: string): Tree
    decreases |p|
  {
    if p == [] then t else Follow(Child(t, p[0]), p[1..])
  }

  /** `new HuffmanNode(null, 0)`. */
  function EmptyNode(): Tree {
    Node(None, 0, Nil, Nil)
  }

  // ---------------------------------------------------------------- reconstruction

  /**
   * The inner loop of `reconstructTree` for one table entry: walk `code` from
   * `t`, creating an empty node wherever a child is missing, and put `c` on
   * the node the last step reaches.  An empty code changes nothing.
   */
  function InsertPath(t: Tree, code: string, c: char): (r: Tree)
    requires t.Node?
    ensures r.Node?
    decreases |code|
  {
    if code == [] then t
    else
      var child := if Child(t, code[0]).Nil? then EmptyNode() else Child(t, code[0]);
      var child' := if |code| == 1 then child.(ch := Some(c)) else InsertPath(child, code[1..], c);
      if code[0] == '0' then t.(left := child') else t.(right := child')
  }

  /** The code the table holds under a key that `for (char in codes)` produced. */
  function CodeAt(codes: Table<string>, k: char): string {
    Get(codes, k).GetOr([])
  }

  /** The outer loop of `reconstructTree`: insert the entries named by `ks`, first to last. */
  function InsertAll(t: Tree, codes: Table<string>, ks: seq<char>): (r: Tree)
    requires t.Node?
    ensures r.Node?
  {
    if ks == [] then t
    else InsertPath(InsertAll(t, codes, ks[..|ks| - 1]), CodeAt(codes, ks[|ks| - 1]), ks[|ks| - 1])
  }

  /** `reconstructTree()`: a fresh empty root, then every entry in enumeration order. */
  function Reconstruct(codes: Table<string>): Tree {
    InsertAll(EmptyNode(), codes, EnumerationOrder(codes))
  }

  // ---------------------------------------------------------------- decoding and encoding

  /**
   * The `decode` loop from node `cur`: step per character; on reaching a node
   * that carries a character, emit it and restart at `root`; on stepping off
   * the tree, stop with what was emitted.
   */
  function DecodeFrom(root: Tree, cur: Tree, bits: string): string
    decreases |bits|
  {
    if bits == [] then []
    else
      var next := Child(cur, bits[0]);
      if next.Nil? then []
      else if next.ch.Some? then [next.ch.value] + DecodeFrom(root, root, bits[1..])
      else DecodeFrom(root, next, bits[1..])
  }

  /** `decode(bits)`: the empty string when there is no root. */
  function Decode(root: Tree, bits: string): string {
    if root.Nil? then [] else DecodeFrom(root, root, bits)
  }

  /** `this.codes[c]` appended to a string: a missing code appends the text "undefined". */
  function CodeOf(codes: Table<string>, c: char): string {
    match Get(codes, c)
    case Some(w) => w
    case None => "undefined"
  }

  /** The `encode` loop: the codes of the characters, concatenated. */
  function Encode(codes: Table<string>, s: string): string {
    if s == [] then [] else Encode(codes, s[..|s| - 1]) + CodeOf(codes, s[|s| - 1])
  }

  // ---------------------------------------------------------------- paths

  lemma {:induction false} FollowNil(p: string)
    ensures Follow(Nil, p) == Nil
    decreases |p|
  {
    if p != [] {
      FollowNil(p[1..]);
    }
  }

  /** A walk one step longer ends one step further. */
  lemma {:induction false} FollowSnoc(t: Tree, p: string, b: char)
    ensures Follow(t, p + [b]) == Child(Follow(t, p), b)
    decreases |p|
  {
    if p == [] {
      assert [] + [b] == [b];
      assert [b][1..] == [];
    } else {
      assert (p + [b])[0] == p[0] && (p + [b])[1..] == p[1..] + [b];
      FollowSnoc(Child(t, p[0]), p[1..], b);
    }
  }

  /** The node a walk from `child` reaches, when `child` stands for the possibly missing child `prev`. */
  lemma FollowFromCreated(prev: Tree, q: string)
    requires q != [] || prev.Node?
    ensures Follow(if prev.Nil? then EmptyNode() else prev, q) == Follow(prev, q)
  {
    if prev.Nil? {
      assert q != [];
      FollowNil(q[1..]);
      FollowNil(q);
    }
  }

  /** Inserting a code puts its character on the node the code ends at. */
  lemma {:induction false} InsertPathLabels(t: Tree, code: string, c: char)
    requires t.Node? && code != []
    ensures Follow(InsertPath(t, code, c), code).Node?
    ensures Follow(InsertPath(t, code, c), code).ch == Some(c)
    decreases |code|
  {
    var child := if Child(t, code[0]).Nil? then EmptyNode() else Child(t, code[0]);
    var r := InsertPath(t, code, c);
    assert Child(r, code[0]) == if |code| == 1 then child.(ch := Some(c)) else InsertPath(child, code[1..], c);
    if |code| > 1 {
      InsertPathLabels(child, code[1..], c);
    }
  }

  /**
   * On the way to its end a code passes only nodes (created where missing);
   * the characters they already carried stay, the created ones carry none.
   */
  lemma {:induction false} InsertPathPrefix(t: Tree, code: string, c: char, k: nat)
    requires t.Node? && k < |code|
    ensures Follow(InsertPath(t, code, c), code[..k]).Node?
    ensures Follow(InsertPath(t, code, c), code[..k]).ch == if Follow(t, code[..k]).Node? then Follow(t, code[..k]).ch else None
    decreases |code|
  {
    var r := InsertPath(t, code, c);
    if k > 0 {
      var prev := Child(t, code[0]);
      var child := if prev.Nil? then EmptyNode() else prev;
      var q := code[1..][..k - 1];
      assert code[..k] == [code[0]] + q;
      assert code[..k][1..] == q;
      assert Child(r, code[0]) == InsertPath(child, code[1..], c);
      InsertPathPrefix(child, code[1..], c, k - 1);
      assert Follow(r, code[..k]) == Follow(InsertPath(child, code[1..], c), q);
      assert Follow(t, code[..k]) == Follow(prev, q);
      if prev.Nil? {
        FollowNil(q);
        if q != [] {
          FollowNil(q[1..]);
        }
      }
    } else {
      assert code[..k] == [];
    }
  }

  /** Inserting a binary code leaves every binary path that is not a prefix of it where it led. */
  lemma {:induction false} InsertPathElsewhere(t: Tree, code: string, c: char, p: string)
    requires t.Node? && IsBits(code) && IsBits(p) && !(p <= code)
    ensures Follow(InsertPath(t, code, c), p) == Follow(t, p)
    decreases |code|
  {
    if code != [] {
      var r := InsertPath(t, code, c);
      var prev := Child(t, code[0]);
      var child := if prev.Nil? then EmptyNode() else prev;
      assert p != [];
      if p[0] != code[0] {
        assert Child(r, p[0]) == Child(t, p[0]);
      } else {
        var q := p[1..];
        assert !(q <= code[1..]);
        if |code| == 1 {
          assert q != [];
          var child' := child.(ch := Some(c));
          assert Child(r, p[0]) == child';
          assert Follow(child', q) == Follow(child, q) by {
            assert Child(child', q[0]) == Child(child, q[0]);
          }
        } else {
          assert Child(r, p[0]) == InsertPath(child, code[1..], c);
          InsertPathElsewhere(child, code[1..], c, q);
        }
        FollowFromCreated(prev, q);
      }
    }
  }

  // ---------------------------------------------------------------- labelled tries

  /**
   * `code` leads from the root to a node carrying `c`, through nodes (other
   * than the root) that carry no character.
   */
  predicate Labelled(t: Tree, code: string, c: char) {
    code != [] &&
    Follow(t, code).Node? && Follow(t, code).ch == Some(c) &&
    forall k :: 0 < k < |code| ==> Follow(t, code[..k]).Node? && Follow(t, code[..k]).ch.None?
  }

  /** The codes under the keys `ks`, in that order. */
  function CodesAt(codes: Table<string>, ks: seq<char>): (ws: seq<string>)
    ensures |ws| == |ks|
    ensures forall j :: 0 <= j < |ks| ==> ws[j] == CodeAt(codes, ks[j])
  {
    if ks == [] then [] else CodesAt(codes, ks[..|ks| - 1]) + [CodeAt(codes, ks[|ks| - 1])]
  }

  /** Every code of the table is binary and non-empty, and none is a prefix of another. */
  predicate WellFormedCodes(codes: Table<string>) {
    Unique(Keys(codes)) && PrefixFree(codes) &&
    forall i :: 0 <= i < |codes| ==> codes[i].1 != [] && IsBits(codes[i].1)
  }

  /** In a well-formed table, distinct keys have incomparable codes. */
  lemma KeysIncomparable(codes: Table<string>, a: char, b: char)
    requires WellFormedCodes(codes) && a in Keys(codes) && b in Keys(codes) && a != b
    ensures !(CodeAt(codes, a) <= CodeAt(codes, b))
    ensures CodeAt(codes, a) != [] && IsBits(CodeAt(codes, a))
  {
    var i :| 0 <= i < |codes| && codes[i].0 == a;
    var j :| 0 <= j < |codes| && codes[j].0 == b;
    GetAt(codes, i);
    GetAt(codes, j);
  }

  /** The trie after inserting some keys: each carries its label, and no other binary path ends at a label. */
  ghost predicate TrieOf(t: Tree, codes: Table<string>, ks: seq<char>) {
    t.Node? &&
    (forall j :: 0 <= j < |ks| ==> Labelled(t, CodeAt(codes, ks[j]), ks[j])) &&
    (forall p :: IsBits(p) && Follow(t, p).Node? && Follow(t, p).ch.Some? ==> p in CodesAt(codes, ks))
  }

  /** Inserting one more key keeps the trie labelled, as long as its code is incomparable with those inserted. */
  lemma InsertKeepsTrie(t: Tree, codes: Table<string>, ks: seq<char>, k: char)
    requires WellFormedCodes(codes) && TrieOf(t, codes, ks)
    requires k in Keys(codes) && k !in ks && forall j :: 0 <= j < |ks| ==> ks[j] in Keys(codes)
    ensures TrieOf(InsertPath(t, CodeAt(codes, k), k), codes, ks + [k])
  {
    var w := CodeAt(codes, k);
    var r := InsertPath(t, w, k);
    var ks' := ks + [k];
    assert w != [] && IsBits(w) by {
      var i :| 0 <= i < |codes| && codes[i].0 == k;
      GetAt(codes, i);
    }
    // the node of every code already inserted still carries its key
    forall j | 0 <= j < |ks'| ensures Labelled(r, CodeAt(codes, ks'[j]), ks'[j]) {
      if j == |ks| {
        NewKeyLabelled(t, codes, ks, k);
      } else {
        OldKeyLabelled(t, codes, ks, k, ks[j]);
      }
    }
    forall p | IsBits(p) && Follow(r, p).Node? && Follow(r, p).ch.Some? ensures p in CodesAt(codes, ks') {
      NoStrayLabel(t, codes, ks, k, p);
    }
  }

  lemma NewKeyLabelled(t: Tree, codes: Table<string>, ks: seq<char>, k: char)
    requires WellFormedCodes(codes) && TrieOf(t, codes, ks)
    requires k in Keys(codes) && k !in ks && forall j :: 0 <= j < |ks| ==> ks[j] in Keys(codes)
    requires CodeAt(codes, k) != [] && IsBits(CodeAt(codes, k))
    ensures Labelled(InsertPath(t, CodeAt(codes, k), k), CodeAt(codes, k), k)
  {
    var w := CodeAt(codes, k);
    var r := InsertPath(t, w, k);
    InsertPathLabels(t, w, k);
    forall n | 0 < n < |w| ensures Follow(r, w[..n]).Node? && Follow(r, w[..n]).ch.None? {
      InsertPathPrefix(t, w, k, n);
      var p := w[..n];
      if Follow(t, p).Node? && Follow(t, p).ch.Some? {
        assert IsBits(p);
        var ws := CodesAt(codes, ks);
        var j :| 0 <= j < |ks| && ws[j] == p;
        KeysIncomparable(codes, ks[j], k);
      }
    }
  }

  lemma OldKeyLabelled(t: Tree, codes: Table<string>, ks: seq<char>, k: char, k': char)
    requires WellFormedCodes(codes) && TrieOf(t, codes, ks)
    requires k in Keys(codes) && k !in ks && forall j :: 0 <= j < |ks| ==> ks[j] in Keys(codes)
    requires CodeAt(codes, k) != [] && IsBits(CodeAt(codes, k))
    requires k' in ks
    ensures Labelled(InsertPath(t, CodeAt(codes, k), k), CodeAt(codes, k'), k')
  {
    var w, w' := CodeAt(codes, k), CodeAt(codes, k');
    var r := InsertPath(t, w, k);
    var j :| 0 <= j < |ks| && ks[j] == k';
    assert Labelled(t, w', k');
    KeysIncomparable(codes, k', k);
    KeysIncomparable(codes, k, k');
    InsertPathElsewhere(t, w, k, w');
    forall n | 0 < n < |w'| ensures Follow(r, w'[..n]).Node? && Follow(r, w'[..n]).ch.None? {
      var p := w'[..n];
      assert IsBits(p);
      if p <= w {
        assert p == w[..n] && n < |w|;
        InsertPathPrefix(t, w, k, n);
      } else {
        InsertPathElsewhere(t, w, k, p);
      }
    }
  }

  lemma NoStrayLabel(t: Tree, codes: Table<string>, ks: seq<char>, k: char, p: string)
    requires WellFormedCodes(codes) && TrieOf(t, codes, ks)
    requires k in Keys(codes) && k !in ks && forall j :: 0 <= j < |ks| ==> ks[j] in Keys(codes)
    requires CodeAt(codes, k) != [] && IsBits(CodeAt(codes, k))
    requires IsBits(p)
    requires Follow(InsertPath(t, CodeAt(codes, k), k), p).Node? && Follow(InsertPath(t, CodeAt(codes, k), k), p).ch.Some?
    ensures p in CodesAt(codes, ks + [k])
  {
    var w := CodeAt(codes, k);
    var ws := CodesAt(codes, ks + [k]);
    assert ws[|ks|] == w;
    assert forall j :: 0 <= j < |ks| ==> ws[j] == CodesAt(codes, ks)[j];
    if p == w {
    } else if p <= w {
      var n := |p|;
      assert p == w[..n];
      InsertPathPrefix(t, w, k, n);
      assert Follow(t, p).Node? && Follow(t, p).ch.Some?;
      var j :| 0 <= j < |ks| && CodesAt(codes, ks)[j] == p;
      KeysIncomparable(codes, ks[j], k);
    } else {
      InsertPathElsewhere(t, w, k, p);
      var j :| 0 <= j < |ks| && CodesAt(codes, ks)[j] == p;
      assert ws[j] == p;
    }
  }

  /** Inserting distinct keys of a well-formed table one after another yields a trie labelled with all of them. */
  lemma {:induction false} InsertAllTrie(codes: Table<string>, ks: seq<char>)
    requires WellFormedCodes(codes) && Unique(ks) && forall j :: 0 <= j < |ks| ==> ks[j] in Keys(codes)
    ensures TrieOf(InsertAll(EmptyNode(), codes, ks), codes, ks)
  {
    if ks == [] {
      var e := EmptyNode();
      forall p | IsBits(p) && Follow(e, p).Node? && Follow(e, p).ch.Some? ensures false {
        if p != [] {
          FollowNil(p[1..]);
        }
      }
    } else {
      var init, k := ks[..|ks| - 1], ks[|ks| - 1];
      assert Unique(init);
      assert k !in init;
      InsertAllTrie(codes, init);
      InsertKeepsTrie(InsertAll(EmptyNode(), codes, init), codes, init, k);
      assert init + [k] == ks;
    }
  }

  /** `reconstructTree` labels the node of every code in the table, and no other. */
  lemma ReconstructLabels(codes: Table<string>)
    requires WellFormedCodes(codes)
    ensures TrieOf(Reconstruct(codes), codes, EnumerationOrder(codes))
  {
    EnumerationKeys(codes);
    InsertAllTrie(codes, EnumerationOrder(codes));
  }

  lemma EnumerationKeys(codes: Table<string>)
    requires Unique(Keys(codes))
    ensures Unique(EnumerationOrder(codes))
    ensures forall j :: 0 <= j < |EnumerationOrder(codes)| ==> EnumerationOrder(codes)[j] in Keys(codes)
  {
    EnumerationVisitsEachKeyOnce(codes);
  }

  // ---------------------------------------------------------------- the round trip

  /** From any node on the way along `code`, decoding the rest of `code` emits `c` and restarts at the root. */
  lemma {:induction false} DecodeAlongCode(root: Tree, code: string, c: char, n: nat, rest: string)
    requires Labelled(root, code, c) && n < |code|
    ensures DecodeFrom(root, Follow(root, code[..n]), code[n..] + rest) == [c] + DecodeFrom(root, root, rest)
    decreases |code| - n
  {
    var cur := Follow(root, code[..n]);
    var bits := code[n..] + rest;
    assert bits[0] == code[n] && bits[1..] == code[n + 1..] + rest;
    assert code[..n + 1] == code[..n] + [code[n]];
    FollowSnoc(root, code[..n], code[n]);
    if n + 1 < |code| {
      DecodeAlongCode(root, code, c, n + 1, rest);
    } else {
      assert code[..n + 1] == code;
      assert code[n + 1..] + rest == rest;
    }
  }

  /** Decoding a code then anything emits the code's character, then decodes the rest. */
  lemma DecodeOneCode(root: Tree, code: string, c: char, rest: string)
    requires Labelled(root, code, c)
    ensures DecodeFrom(root, root, code + rest) == [c] + DecodeFrom(root, root, rest)
  {
    DecodeAlongCode(root, code, c, 0, rest);
    assert code[..0] == [] && code[0..] == code;
  }

  lemma CodeOfPresent(codes: Table<string>, c: char)
    requires CodeAt(codes, c) != []
    ensures CodeOf(codes, c) == CodeAt(codes, c)
  {
  }

  /** The encoding of a message over a labelled trie decodes back to the message, whatever follows. */
  lemma {:induction false} DecodeEncoded(root: Tree, codes: Table<string>, ks: seq<char>, s: string, rest: string)
    requires Unique(Keys(codes)) && TrieOf(root, codes, ks)
    requires forall i :: 0 <= i < |s| ==> s[i] in ks
    ensures DecodeFrom(root, root, Encode(codes, s) + rest) == s + DecodeFrom(root, root, rest)
    decreases |s|
  {
    if s == [] {
      assert Encode(codes, s) + rest == rest;
    } else {
      var init, c := s[..|s| - 1], s[|s| - 1];
      var w := CodeAt(codes, c);
      assert c in ks;
      assert Labelled(root, w, c);
      CodeOfPresent(codes, c);
      assert Encode(codes, s) == Encode(codes, init) + w;
      DecodeOneCode(root, w, c, rest);
      DecodeEncoded(root, codes, ks, init, w + rest);
      assert Encode(codes, s) + rest == Encode(codes, init) + (w + rest);
      assert s == init + [c];
    }
  }

  /**
   * The Huffman round trip: rebuilding the trie from a well-formed code table
   * and decoding the encoding of any message written in the table's keys gives
   * the message back, followed by whatever the trailing bits `rest` decode to.
   */
  lemma RoundTrip(codes: Table<string>, s: string, rest: string)
    requires WellFormedCodes(codes)
    requires forall i :: 0 <= i < |s| ==> s[i] in Keys(codes)
    ensures Decode(Reconstruct(codes), Encode(codes, s) + rest) == s + Decode(Reconstruct(codes), rest)
  {
    ReconstructLabels(codes);
    var ks := EnumerationOrder(codes);
    assert forall i :: 0 <= i < |s| ==> s[i] in ks by {
      EnumerationVisitsEachKeyOnce(codes);
    }
    DecodeEncoded(Reconstruct(codes), codes, ks, s, rest);
  }

  /** `encode` of a concatenation is the concatenation of the encodings. */
  lemma {:induction false} EncodeConcat(codes: Table<string>, a: string, b: string)
    ensures Encode(codes, a + b) == Encode(codes, a) + Encode(codes, b)
    decreases |b|
  {
    if b == [] {
      assert a + b == a;
    } else {
      var init, c := b[..|b| - 1], b[|b| - 1];
      var ab := a + b;
      assert ab[..|ab| - 1] == a + init && ab[|ab| - 1] == c;
      assert Encode(codes, ab) == Encode(codes, a + init) + CodeOf(codes, c);
      EncodeConcat(codes, a, init);
      assert Encode(codes, b) == Encode(codes, init) + CodeOf(codes, c);
    }
  }

  /**
   * Where the `decode` loop stands after reading `bits` from `cur`: the node
   * `current` points at, or `null` once a step has left the tree.
   */
  function WalkEnd(root: Tree, cur: Tree, bits: string): Tree
    decreases |bits|
  {
    if bits == [] then cur
    else
      var next := Child(cur, bits[0]);
      if next.Nil? then Nil
      else if next.ch.Some? then WalkEnd(root, root, bits[1..])
      else WalkEnd(root, next, bits[1..])
  }

  /**
   * Decoding reads the bits one pass from left to right: once a step leaves
   * the tree, the bits that remain are ignored and what was emitted so far is
   * the result; otherwise decoding `a + rest` is decoding `a` and then going
   * on with `rest` from where the walk stands.
   */
  lemma {:induction false} DecodeStops(root: Tree, cur: Tree, a: string, rest: string)
    ensures WalkEnd(root, cur, a).Nil? ==> DecodeFrom(root, cur, a + rest) == DecodeFrom(root, cur, a)
    ensures WalkEnd(root, cur, a).Node? ==>
      DecodeFrom(root, cur, a + rest) == DecodeFrom(root, cur, a) + DecodeFrom(root, WalkEnd(root, cur, a), rest)
    decreases |a|
  {
    if a == [] {
      assert a + rest == rest;
    } else {
      assert (a + rest)[0] == a[0] && (a + rest)[1..] == a[1..] + rest;
      var next := Child(cur, a[0]);
      if next.Node? {
        if next.ch.Some? {
          DecodeStops(root, root, a[1..], rest);
        } else {
          DecodeStops(root, next, a[1..], rest);
        }
      }
    }
  }

  /**
   * Bits that leave the rebuilt trie after a whole encoded message end the
   * decoding: the message comes back, and nothing behind them is read.
   */
  lemma TrailingBitsIgnored(codes: Table<string>, s: string, q: string, rest: string)
    requires WellFormedCodes(codes)
    requires forall i :: 0 <= i < |s| ==> s[i] in Keys(codes)
    requires WalkEnd(Reconstruct(codes), Reconstruct(codes), q).Nil?
    ensures Decode(Reconstruct(codes), Encode(codes, s) + q + rest) == s + Decode(Reconstruct(codes), q)
  {
    var root := Reconstruct(codes);
    assert Encode(codes, s) + q + rest == Encode(codes, s) + (q + rest);
    RoundTrip(codes, s, q + rest);
    DecodeStops(root, root, q, rest);
  }

  // ---------------------------------------------------------------- the table after JSON

  /** Inserting the same codes under the same keys grows the same trie. */
  lemma {:induction false} InsertAllSameCodes(t: Tree, a: Table<string>, b: Table<string>, ks: seq<char>)
    requires t.Node?
    requires forall i :: 0 <= i < |ks| ==> CodeAt(a, ks[i]) == CodeAt(b, ks[i])
    ensures InsertAll(t, a, ks) == InsertAll(t, b, ks)
  {
    if ks != [] {
      InsertAllSameCodes(t, a, b, ks[..|ks| - 1]);
    }
  }

  /**
   * A table that went through JSON text rebuilds the same trie: the keys
   * come back in the order `for ... in` visits them anyway, each with its code.
   */
  lemma ReconstructEnumerated(codes: Table<string>)
    requires Unique(Keys(codes))
    ensures Reconstruct(Enumerated(codes)) == Reconstruct(codes)
  {
    EnumerationOrderEnumerated(codes);
    forall k ensures CodeAt(Enumerated(codes), k) == CodeAt(codes, k) {
      EnumeratedProperties(codes, k);
    }
    InsertAllSameCodes(EmptyNode(), Enumerated(codes), codes, EnumerationOrder(codes));
  }

  /** Decoding extends: what a prefix of the bits decodes to is a prefix of what all of them decode to. */
  lemma {:induction false} DecodePrefix(root: Tree, cur: Tree, a: string, b: string)
    ensures DecodeFrom(root, cur, a) <= DecodeFrom(root, cur, a + b)
    decreases |a|
  {
    if a != [] {
      assert (a + b)[0] == a[0] && (a + b)[1..] == a[1..] + b;
      var next := Child(cur, a[0]);
      if next.Node? {
        if next.ch.Some? {
          DecodePrefix(root, root, a[1..], b);
        } else {
          DecodePrefix(root, next, a[1..], b);
        }
      }
    }
  }
}
