/**
 * The driver of the `DCT` object: `applyDCT` cuts the data into blocks of
 * eight, pads the last block with zeros and transforms each block on its
 * own; `applyInverseDCT` cuts its input the same way, without padding, and
 * inverts each block.  The per-block transforms are parameters: a forward
 * transform from eight values to eight coefficients, and an inverse from at
 * most eight coefficients to eight values.
 */
module Dct {
  import opened Sequences

  /** A block of `this.N` = 8 values. */
  type Block = b: seq<int> | |b| == 8 witness [0, 0, 0, 0, 0, 0, 0, 0]

  /** `k` zero values. */
  function ZeroValues(k: nat): (r: seq<int>)
    ensures |r| == k && forall i :: 0 <= i < k ==> r[i] == 0
  {
    seq(k, _ => 0)
  }

  /** A short block after `block.push(0)` has run until it holds eight values. */
  function PadBlock(b: seq<int>): Block
    requires |b| <= 8
  {
    b + ZeroValues(8 - |b|)
  }

  /** The blocks of `data`, the last one padded, each forward-transformed, joined in order. */
  function ForwardBlocks(fwd: Block -> Block, data: seq<int>): seq<int>
    decreases |data|
  {
    if data == [] then []
    else
      var n := Min(8, |data|);
      fwd(PadBlock(data[..n])) + ForwardBlocks(fwd, data[n..])
  }

  /** What `applyDCT` returns: eight zeros for empty data, the transformed blocks otherwise. */
  function Transformed(fwd: Block -> Block, data: seq<int>): seq<int> {
    if data == [] then ZeroValues(8) else ForwardBlocks(fwd, data)
  }

  /** What `applyInverseDCT` returns: the blocks of the input, unpadded, each inverted, joined in order. */
  function InverseBlocks(inv: seq<int> -> Block, data: seq<int>): seq<int>
    decreases |data|
  {
    if data == [] then []
    else
      var n := Min(8, |data|);
      inv(data[..n]) + InverseBlocks(inv, data[n..])
  }

  // ---------------------------------------------------------------- the loops

  /** `applyDCT(data)` with `forwardDCT` given as `fwd`. */
  method ApplyDCT(fwd: Block -> Block, data: seq<int>) returns (result: seq<int>)
    ensures result == Transformed(fwd, data)
  {
    if data == [] {
      return [0, 0, 0, 0, 0, 0, 0, 0];
    }
    result := [];
    var i := 0;
    while i < |data|
      invariant 0 <= i
      invariant result + ForwardBlocks(fwd, data[Min(i, |data|)..]) == ForwardBlocks(fwd, data)
      decreases |data| - i
    {
      ForwardStep(fwd, data, i);
      var padded := Pad(data[i..Min(i + 8, |data|)]);
      result := result + fwd(padded);
      i := i + 8;
    }
  }

  /** The `while (block.length < this.N) block.push(0)` loop. */
  method Pad(block: seq<int>) returns (padded: Block)
    requires |block| <= 8
    ensures padded == PadBlock(block)
  {
    var p := block;
    while |p| < 8
      invariant |block| <= |p| <= 8
      invariant p == block + ZeroValues(|p| - |block|)
      decreases 8 - |p|
    {
      p := p + [0];
    }
    assert p == PadBlock(block);
    padded := p;
  }

  /** `applyInverseDCT(dctData)` with `inverseDCT` given as `inv`. */
  method ApplyInverseDCT(inv: seq<int> -> Block, data: seq<int>) returns (result: seq<int>)
    ensures result == InverseBlocks(inv, data)
  {
    result := [];
    var i := 0;
    while i < |data|
      invariant 0 <= i
      invariant result + InverseBlocks(inv, data[Min(i, |data|)..]) == InverseBlocks(inv, data)
      decreases |data| - i
    {
      InverseStep(inv, data, i);
      result := result + inv(data[i..Min(i + 8, |data|)]);
      i := i + 8;
    }
  }

  lemma ForwardStep(fwd: Block -> Block, data: seq<int>, i: nat)
    requires i < |data|
    ensures ForwardBlocks(fwd, data[i..]) == fwd(PadBlock(data[i..Min(i + 8, |data|)])) + ForwardBlocks(fwd, data[Min(i + 8, |data|)..])
  {
    var rest := data[i..];
    assert rest[..Min(8, |rest|)] == data[i..Min(i + 8, |data|)];
    assert rest[Min(8, |rest|)..] == data[Min(i + 8, |data|)..];
  }

  lemma InverseStep(inv: seq<int> -> Block, data: seq<int>, i: nat)
    requires i < |data|
    ensures InverseBlocks(inv, data[i..]) == inv(data[i..Min(i + 8, |data|)]) + InverseBlocks(inv, data[Min(i + 8, |data|)..])
  {
    var rest := data[i..];
    assert rest[..Min(8, |rest|)] == data[i..Min(i + 8, |data|)];
    assert rest[Min(8, |rest|)..] == data[Min(i + 8, |data|)..];
  }

  // ---------------------------------------------------------------- what the driver promises

  /** The number of blocks that `n` values make. */
  function BlockCount(n: nat): nat {
    (n + 7) / 8
  }

  /** The `k`-th block of the input, as `data.slice(8k, 8k + 8)` cuts it. */
  function BlockOf(data: seq<int>, k: nat): seq<int>
    requires k < BlockCount(|data|)
  {
    data[8 * k..Min(8 * k + 8, |data|)]
  }

  /**
   * `applyDCT` of empty data is eight zeros; otherwise the output has eight
   * coefficients per block, and its `k`-th eight are the transform of the
   * `k`-th block of the input, zero-padded.
   */
  lemma TransformedBlocks(fwd: Block -> Block, data: seq<int>)
    ensures data == [] ==> Transformed(fwd, data) == [0, 0, 0, 0, 0, 0, 0, 0]
    ensures data != [] ==> |Transformed(fwd, data)| == 8 * BlockCount(|data|)
    ensures forall k :: 0 <= k < BlockCount(|data|) ==>
      Transformed(fwd, data)[8 * k..8 * k + 8] == fwd(PadBlock(BlockOf(data, k)))
  {
    if data == [] {
      assert ZeroValues(8) == [0, 0, 0, 0, 0, 0, 0, 0];
    } else {
      ForwardShape(fwd, data);
    }
  }

  lemma {:induction false} ForwardShape(fwd: Block -> Block, data: seq<int>)
    ensures |ForwardBlocks(fwd, data)| == 8 * BlockCount(|data|)
    ensures forall k :: 0 <= k < BlockCount(|data|) ==>
      ForwardBlocks(fwd, data)[8 * k..8 * k + 8] == fwd(PadBlock(BlockOf(data, k)))
    decreases |data|
  {
    if data != [] {
      var n := Min(8, |data|);
      var rest := data[n..];
      var head := fwd(PadBlock(data[..n]));
      ForwardShape(fwd, rest);
      var out := ForwardBlocks(fwd, data);
      assert out == head + ForwardBlocks(fwd, rest);
      assert BlockCount(|data|) == BlockCount(|rest|) + 1;
      forall k | 0 <= k < BlockCount(|data|)
        ensures out[8 * k..8 * k + 8] == fwd(PadBlock(BlockOf(data, k)))
      {
        if k == 0 {
          assert out[..8] == head;
        } else {
          var j := k - 1;
          assert n == 8;
          LaterBlock(data, j);
          NextEight(head, ForwardBlocks(fwd, rest), j);
        }
      }
    }
  }

  /** Past the first block, the blocks of `data` are those of the data after it. */
  lemma LaterBlock(data: seq<int>, j: nat)
    requires |data| > 8 && j < BlockCount(|data| - 8)
    ensures j + 1 < BlockCount(|data|)
    ensures BlockOf(data, j + 1) == BlockOf(data[8..], j)
  {
    var rest := data[8..];
    var m := Min(8 * j + 8, |rest|);
    assert m + 8 == Min(8 * (j + 1) + 8, |data|);
    assert rest[8 * j..m] == data[8 * (j + 1)..m + 8];
  }

  /** Eight values past a first block of eight are eight values of what follows it. */
  lemma NextEight(a: seq<int>, b: seq<int>, j: nat)
    requires |a| == 8 && 8 * j + 8 <= |b|
    ensures (a + b)[8 * (j + 1)..8 * (j + 1) + 8] == b[8 * j..8 * j + 8]
  {
  }

  /** `applyInverseDCT` makes eight values per block of its input, and nothing from nothing. */
  lemma {:induction false} InverseShape(inv: seq<int> -> Block, data: seq<int>)
    ensures |InverseBlocks(inv, data)| == 8 * BlockCount(|data|)
    decreases |data|
  {
    if data != [] {
      var n := Min(8, |data|);
      InverseShape(inv, data[n..]);
      assert BlockCount(|data|) == BlockCount(|data| - n) + 1;
    }
  }

  /**
   * When the inverse block transform undoes the forward one, inverting
   * `applyDCT` gives the data back, zero-padded to a whole number of blocks
   * (eight zeros for empty data).
   */
  lemma {:induction false} InverseOfTransformed(fwd: Block -> Block, inv: seq<int> -> Block, data: seq<int>)
    requires forall b: Block :: inv(fwd(b)) == b
    ensures data == [] ==> InverseBlocks(inv, Transformed(fwd, data)) == inv(ZeroValues(8))
    ensures data != [] ==> InverseBlocks(inv, Transformed(fwd, data)) == data + ZeroValues(PadLength(|data|))
    decreases |data|
  {
    if data == [] {
      var z := ZeroValues(8);
      assert InverseBlocks(inv, z) == inv(z) + InverseBlocks(inv, []) by {
        assert z[..8] == z && z[8..] == [];
      }
    } else {
      var n := Min(8, |data|);
      var c, rest := data[..n], data[n..];
      var head := fwd(PadBlock(c));
      assert InverseBlocks(inv, head + ForwardBlocks(fwd, rest)) == PadBlock(c) + InverseBlocks(inv, ForwardBlocks(fwd, rest)) by {
        InverseOfBlock(inv, head, ForwardBlocks(fwd, rest));
      }
      if n == 8 {
        if rest != [] {
          InverseOfTransformed(fwd, inv, rest);
          PadLengthStep(|rest|);
          assert data == c + rest;
        } else {
          assert data == c && PadLength(|data|) == 0;
        }
      } else {
        assert rest == [] && c == data;
        PadLengthShort(|data|);
      }
    }
  }

  /** Inverting a whole block followed by more coefficients. */
  lemma InverseOfBlock(inv: seq<int> -> Block, head: Block, tail: seq<int>)
    ensures InverseBlocks(inv, head + tail) == inv(head) + InverseBlocks(inv, tail)
  {
    var x := head + tail;
    assert x[..Min(8, |x|)] == head && x[Min(8, |x|)..] == tail;
  }
}
