/** A sequence of pieces joined end to end, the shape of every string-building loop of the codec. */
module Sequences {

  function Min(a: int, b: int): int {
    if a < b then a else b
  }

  /** How many elements bring a length `n` up to a multiple of eight. */
  function PadLength(n: nat): nat {
    (8 - n % 8) % 8
  }

  lemma PadLengthStep(n: nat)
    ensures PadLength(n + 8) == PadLength(n)
  {
    assert (n + 8) % 8 == n % 8;
  }

  lemma PadLengthShort(n: nat)
    requires 0 < n < 8
    ensures PadLength(n) == 8 - n
  {
  }

  /** The pieces `f(d[0]) + f(d[1]) + ...`, built from the back as a loop appends them. */
  function Flatten<T, U>(f: T -> seq<U>, d: seq<T>): seq<U> {
    if d == [] then [] else Flatten(f, d[..|d| - 1]) + f(d[|d| - 1])
  }

  lemma FlattenStep<T, U>(f: T -> seq<U>, d: seq<T>, i: nat)
    requires i < |d|
    ensures Flatten(f, d[..i + 1]) == Flatten(f, d[..i]) + f(d[i])
  {
    assert d[..i + 1][..i] == d[..i];
  }

  lemma FlattenSingle<T, U>(f: T -> seq<U>, v: T)
    ensures Flatten(f, [v]) == f(v)
  {
    assert [v][..0] == [];
  }

  /** Joining the pieces of `x + y` is joining those of `x`, then those of `y`. */
  lemma {:induction false} FlattenConcat<T, U>(f: T -> seq<U>, x: seq<T>, y: seq<T>)
    ensures Flatten(f, x + y) == Flatten(f, x) + Flatten(f, y)
    decreases |y|
  {
    if y == [] {
      assert x + y == x;
    } else {
      var xy, init := x + y, y[..|y| - 1];
      assert xy[..|xy| - 1] == x + init && xy[|xy| - 1] == y[|y| - 1];
      FlattenConcat(f, x, init);
    }
  }

  /** Pieces of a fixed length `k` join to `k` elements per input. */
  lemma {:induction false} FlattenLength<T, U>(f: T -> seq<U>, d: seq<T>, k: nat)
    requires forall i :: 0 <= i < |d| ==> |f(d[i])| == k
    ensures |Flatten(f, d)| == k * |d|
    decreases |d|
  {
    if d != [] {
      ghost var n := |d| - 1;
      FlattenLength(f, d[..n], k);
      assert |Flatten(f, d)| == |Flatten(f, d[..n])| + |f(d[n])|;
      assert k * |d| == k * n + k;
    }
  }

  /** In pieces of eight, element `b` of piece `k` stands at `8 * k + b`. */
  lemma {:induction false} FlattenAt<T, U>(f: T -> seq<U>, d: seq<T>, k: nat, b: nat)
    requires forall i :: 0 <= i < |d| ==> |f(d[i])| == 8
    requires k < |d| && b < 8
    ensures |Flatten(f, d)| == 8 * |d|
    ensures Flatten(f, d)[8 * k + b] == f(d[k])[b]
    decreases |d|
  {
    FlattenLength(f, d, 8);
    var init := d[..|d| - 1];
    FlattenLength(f, init, 8);
    if k < |d| - 1 {
      FlattenAt(f, init, k, b);
    }
  }
}
