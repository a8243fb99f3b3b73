/**
 * `binaryStringToData` and `dataToBinaryString`: a string of binary digits
 * cut into groups of eight, the last one right-padded with '0', each group
 * read as a number; and numbers written back as eight-digit numerals,
 * most significant digit first.
 */
module Packing {
  import opened BinaryText
  import opened Sequences

  /** Right-padding a binary group with '0' keeps it binary and appends zeros. */
  lemma PadEndZeros(c: string)
    requires IsBits(c) && |c| <= 8
    ensures PadEnd(c, 8, '0') == c + Zeros(8 - |c|)
    ensures IsBits(PadEnd(c, 8, '0'))
  {
    BitsConcat(c, Zeros(8 - |c|));
  }

  /** One group of at most eight digits: `chunk.padEnd(8, '0')` read by `parseInt(_, 2)`. */
  function GroupValue(chunk: string): nat
    requires IsBits(chunk) && |chunk| <= 8
  {
    PadEndZeros(chunk);
    FromBits(PadEnd(chunk, 8, '0'))
  }

  /** The groups of a bit string, from the front: eight digits at a time, the last one possibly short. */
  function Groups(b: string): seq<nat>
    requires IsBits(b)
    decreases |b|
  {
    if b == [] then []
    else
      var n := Min(8, |b|);
      [GroupValue(b[..n])] + Groups(b[n..])
  }

  /** What `binaryStringToData` returns: `[0]` for the empty string, the groups otherwise. */
  function PackedData(b: string): seq<nat>
    requires IsBits(b)
  {
    if b == [] then [0] else Groups(b)
  }

  /** `Number.prototype.toString(2)` on an integer: a minus sign before the digits of a negative. */
  function JsBin(v: int): string {
    if v < 0 then "-" + Bin(-v) else Bin(v)
  }

  /** One value as `dataToBinaryString` writes it: its numeral left-padded with '0' to eight characters. */
  function Numeral(v: int): string {
    PadStart(JsBin(v), 8, '0')
  }

  /** What `dataToBinaryString` returns: the numerals of the values, in order. */
  function Numerals(d: seq<int>): string {
    Flatten(Numeral, d)
  }

  // ---------------------------------------------------------------- the loops

  /** `binaryStringToData(binaryString)`. */
  method BinaryStringToData(b: string) returns (data: seq<nat>)
    requires IsBits(b)
    ensures data == PackedData(b)
  {
    if b == [] {
      return [0];
    }
    data := [];
    var i := 0;
    while i < |b|
      invariant 0 <= i
      invariant data + Groups(b[Min(i, |b|)..]) == Groups(b)
      decreases |b| - i
    {
      GroupsStep(b, i);
      var chunk := b[i..Min(i + 8, |b|)];
      PadEndZeros(chunk);
      var value := FromBits(PadEnd(chunk, 8, '0'));
      data := data + [value];
      i := i + 8;
    }
  }

  /** `dataToBinaryString(data)`, for values already rounded to integers. */
  method DataToBinaryString(d: seq<int>) returns (s: string)
    ensures s == Numerals(d)
  {
    s := "";
    for i := 0 to |d|
      invariant s == Numerals(d[..i])
    {
      FlattenStep(Numeral, d, i);
      s := s + PadStart(JsBin(d[i]), 8, '0');
    }
    assert d[..|d|] == d;
  }

  lemma GroupsStep(b: string, i: nat)
    requires IsBits(b) && i < |b|
    ensures IsBits(b[i..Min(i + 8, |b|)])
    ensures Groups(b[i..]) == [GroupValue(b[i..Min(i + 8, |b|)])] + Groups(b[Min(i + 8, |b|)..])
  {
    var rest := b[i..];
    var n := Min(8, |rest|);
    assert rest[..n] == b[i..Min(i + 8, |b|)];
    assert rest[n..] == b[Min(i + 8, |b|)..];
  }

  // ---------------------------------------------------------------- what packing promises

  /**
   * The empty string packs to `[0]`; any other string of `n` digits packs to
   * `ceil(n / 8)` values, each a byte.
   */
  lemma {:induction false} PackedShape(b: string)
    requires IsBits(b)
    ensures b == [] ==> PackedData(b) == [0]
    ensures b != [] ==> |PackedData(b)| == (|b| + 7) / 8
    ensures forall i :: 0 <= i < |PackedData(b)| ==> PackedData(b)[i] < 256
  {
    if b != [] {
      GroupsShape(b);
    }
  }

  lemma {:induction false} GroupsShape(b: string)
    requires IsBits(b)
    ensures |Groups(b)| == (|b| + 7) / 8
    ensures forall i :: 0 <= i < |Groups(b)| ==> Groups(b)[i] < 256
    decreases |b|
  {
    if b != [] {
      var n := Min(8, |b|);
      GroupsShape(b[n..]);
      PadEndZeros(b[..n]);
      assert Pow2(8) == 256;
      var g := Groups(b);
      forall i | 0 <= i < |g| ensures g[i] < 256 {
        if i > 0 { assert g[i] == Groups(b[n..])[i - 1]; }
      }
    }
  }

  /** The eight-digit numeral of a byte is its fixed-width numeral. */
  lemma NumeralOfByte(v: nat)
    requires v < 256
    ensures Numeral(v) == Fixed(v, 8)
    ensures |Numeral(v)| == 8 && IsBits(Numeral(v)) && FromBits(Numeral(v)) == v
  {
    assert Pow2(8) == 256;
    FixedValue(v, 8);
  }

  lemma NumeralsConcat(x: seq<int>, y: seq<int>)
    ensures Numerals(x + y) == Numerals(x) + Numerals(y)
  {
    FlattenConcat(Numeral, x, y);
  }

  /**
   * Packing then unpacking returns the digits right-padded with '0' to a
   * multiple of eight.
   */
  lemma {:induction false} GroupsRoundTrip(b: string)
    requires IsBits(b)
    ensures Numerals(Groups(b)) == b + Zeros(PadLength(|b|))
    decreases |b|
  {
    if b == [] {
      assert Zeros(0) == [];
    } else if |b| < 8 {
      LastGroup(b);
    } else {
      var c, rest := b[..8], b[8..];
      assert Numerals(Groups(b)) == c + Numerals(Groups(rest)) by {
        FirstGroup(b);
      }
      GroupsRoundTrip(rest);
      PadLengthStep(|rest|);
      assert b == c + rest;
    }
  }

  /** The groups of a string of at least eight digits: its first eight, then the groups of the rest. */
  lemma FirstGroup(b: string)
    requires IsBits(b) && |b| >= 8
    ensures Numerals(Groups(b)) == b[..8] + Numerals(Groups(b[8..]))
  {
    var c := b[..8];
    GroupNumeral(c);
    PadEndZeros(c);
    var v := GroupValue(c);
    assert Groups(b) == [v] + Groups(b[8..]);
    NumeralsConcat([v], Groups(b[8..]));
    NumeralsSingle(v);
  }

  /** A string shorter than eight digits is one group, padded. */
  lemma LastGroup(b: string)
    requires IsBits(b) && 0 < |b| < 8
    ensures Numerals(Groups(b)) == b + Zeros(PadLength(|b|))
  {
    var v := GroupValue(b);
    assert Groups(b) == [v] by {
      assert b[..|b|] == b && b[|b|..] == [];
    }
    assert Numerals([v]) == PadEnd(b, 8, '0') by {
      NumeralsSingle(v);
      GroupNumeral(b);
    }
    PadEndZeros(b);
    PadLengthShort(|b|);
  }

  /** A group written back as a numeral is the group padded to eight digits. */
  lemma GroupNumeral(c: string)
    requires IsBits(c) && |c| <= 8
    ensures Numeral(GroupValue(c)) == PadEnd(c, 8, '0')
  {
    PadEndZeros(c);
    var p := PadEnd(c, 8, '0');
    FixedOfFromBits(p);
    NumeralOfByte(FromBits(p));
  }

  lemma NumeralsSingle(v: int)
    ensures Numerals([v]) == Numeral(v)
  {
    FlattenSingle(Numeral, v);
  }

  /**
   * `dataToBinaryString(binaryStringToData(b))`: the digits of `b` padded
   * with '0' to a multiple of eight, and eight zeros for the empty string.
   */
  lemma PackedRoundTrip(b: string)
    requires IsBits(b)
    ensures b == [] ==> Numerals(PackedData(b)) == Zeros(8)
    ensures b != [] ==> Numerals(PackedData(b)) == b + Zeros(PadLength(|b|))
  {
    if b == [] {
      NumeralOfByte(0);
      assert Numerals([0]) == Numeral(0) by {
        assert [0][..0] == [];
      }
      assert Fixed(0, 8) == Zeros(8);
    } else {
      GroupsRoundTrip(b);
    }
  }

  /** Bytes written out and packed again are the same bytes. */
  lemma {:induction false} NumeralsRoundTrip(d: seq<int>)
    requires forall i :: 0 <= i < |d| ==> 0 <= d[i] < 256
    ensures IsBits(Numerals(d)) && |Numerals(d)| == 8 * |d|
    ensures Groups(Numerals(d)) == d
    decreases |d|
  {
    if d != [] {
      var v, rest := d[0], d[1..];
      NumeralsRoundTrip(rest);
      var w, tail := Numeral(v), Numerals(rest);
      assert Numerals(d) == w + tail by {
        assert d == [v] + rest;
        NumeralsConcat([v], rest);
        NumeralsSingle(v);
      }
      NumeralOfByte(v);
      BitsConcat(w, tail);
      var s := w + tail;
      assert s[..8] == w && s[8..] == tail;
      assert GroupValue(w) == v by {
        PadEndZeros(w);
      }
      assert d == [v] + rest;
    }
  }
}
