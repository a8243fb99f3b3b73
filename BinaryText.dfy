/**
 * Binary numerals as the codec writes them: strings of '0' and '1',
 * most significant digit first, as produced by `Number.prototype.toString(2)`
 * and read back by `parseInt(_, 2)`, together with the padding helpers
 * `padStart` and `padEnd`.
 */
module BinaryText {

  predicate IsBit(c: char) {
    c == '0' || c == '1'
  }

  predicate IsBits(s: string) {
    forall i :: 0 <= i < |s| ==> IsBit(s[i])
  }

  lemma BitsConcat(a: string, b: string)
    requires IsBits(a) && IsBits(b)
    ensures IsBits(a + b)
  {
    var ab := a + b;
    forall i | 0 <= i < |ab| ensures IsBit(ab[i]) {
      if i >= |a| { assert ab[i] == b[i - |a|]; }
    }
  }

  function Pow2(n: nat): (r: nat)
    ensures r >= 1
  {
    if n == 0 then 1 else 2 * Pow2(n - 1)
  }

  lemma Pow2Of32()
    ensures Pow2(32) == 0x1_0000_0000
  {
    assert Pow2(8) == 0x100;
    assert Pow2(16) == 0x1_0000;
    assert Pow2(24) == 0x100_0000;
  }

  function Digit(b: nat): (c: char)
    requires b < 2
    ensures IsBit(c) && DigitValue(c) == b
  {
    if b == 0 then '0' else '1'
  }

  function DigitValue(c: char): nat {
    if c == '1' then 1 else 0
  }

  /** `k` copies of `c`. */
  function Repeat(c: char, k: nat): (r: string)
    ensures |r| == k && forall i :: 0 <= i < k ==> r[i] == c
  {
    seq(k, _ => c)
  }

  function Zeros(k: nat): (r: string)
    ensures |r| == k && IsBits(r)
  {
    Repeat('0', k)
  }

  /** `s.padStart(w, c)`: `c` repeated on the left up to width `w`; a longer `s` is kept whole. */
  function PadStart(s: string, w: nat, c: char): (r: string)
    ensures |s| >= w ==> r == s
    ensures |s| < w ==> |r| == w && r[w - |s|..] == s
    ensures forall i :: 0 <= i < |r| - |s| ==> r[i] == c
  {
    if |s| >= w then s else Repeat(c, w - |s|) + s
  }

  /** `s.padEnd(w, c)`: `c` repeated on the right up to width `w`. */
  function PadEnd(s: string, w: nat, c: char): (r: string)
    ensures |s| >= w ==> r == s
    ensures |s| < w ==> |r| == w && r[..|s|] == s
    ensures forall i :: |s| <= i < |r| ==> r[i] == c
  {
    if |s| >= w then s else s + Repeat(c, w - |s|)
  }

  /** `n.toString(2)`: the shortest binary numeral of `n`, "0" for zero. */
  function Bin(n: nat): (r: string)
    ensures IsBits(r) && |r| >= 1
    decreases n
  {
    if n < 2 then [Digit(n)] else Bin(n / 2) + [Digit(n % 2)]
  }

  /** `parseInt(bits, 2)` on a string made only of binary digits. */
  function FromBits(bits: string): (r: nat)
    requires IsBits(bits)
    ensures r < Pow2(|bits|)
  {
    if bits == [] then 0
    else 2 * FromBits(bits[..|bits| - 1]) + DigitValue(bits[|bits| - 1])
  }

  /** `byte.toString(2).padStart(8, '0')` and its 32-bit sibling: `n` in exactly `w` digits. */
  function Fixed(n: nat, w: nat): string {
    PadStart(Bin(n), w, '0')
  }

  lemma {:induction false} BinFits(n: nat, k: nat)
    requires 1 <= k && n < Pow2(k)
    ensures |Bin(n)| <= k
    decreases k
  {
    if n >= 2 {
      assert k >= 2;
      BinFits(n / 2, k - 1);
    }
  }

  lemma {:induction false} FromBitsOfBin(n: nat)
    ensures FromBits(Bin(n)) == n
    decreases n
  {
    if n >= 2 {
      var b := Bin(n);
      assert b[..|b| - 1] == Bin(n / 2);
      FromBitsOfBin(n / 2);
    }
  }

  lemma {:induction false} FromBitsLeadingZeros(k: nat, x: string)
    requires IsBits(x)
    ensures IsBits(Zeros(k) + x) && FromBits(Zeros(k) + x) == FromBits(x)
    decreases |x|
  {
    var z := Zeros(k) + x;
    assert IsBits(z) by {
      forall i | 0 <= i < |z| ensures IsBit(z[i]) {
        if i >= k { assert z[i] == x[i - k]; }
      }
    }
    if x == [] {
      assert z == Zeros(k);
      ZerosValue(k);
    } else {
      assert z[..|z| - 1] == Zeros(k) + x[..|x| - 1];
      FromBitsLeadingZeros(k, x[..|x| - 1]);
    }
  }

  lemma {:induction false} ZerosValue(k: nat)
    ensures FromBits(Zeros(k)) == 0
  {
    if k > 0 {
      assert Zeros(k)[..k - 1] == Zeros(k - 1);
      ZerosValue(k - 1);
    }
  }

  /** `n` written in `w` digits is a `w`-digit binary numeral whose value is `n`. */
  lemma FixedValue(n: nat, w: nat)
    requires 1 <= w && n < Pow2(w)
    ensures |Fixed(n, w)| == w && IsBits(Fixed(n, w)) && FromBits(Fixed(n, w)) == n
  {
    BinFits(n, w);
    FromBitsOfBin(n);
    var b := Bin(n);
    if |b| < w {
      assert Fixed(n, w) == Zeros(w - |b|) + b;
      FromBitsLeadingZeros(w - |b|, b);
    }
  }

  /** `Fixed` writes only binary digits, whatever the width. */
  lemma FixedBits(n: nat, w: nat)
    ensures IsBits(Fixed(n, w))
  {
    var b := Bin(n);
    var r := Fixed(n, w);
    if |b| < w {
      forall i | 0 <= i < |r| ensures IsBit(r[i]) {
        if i >= w - |b| { assert r[i] == r[w - |b|..][i - (w - |b|)]; }
      }
    }
  }

  /** Reading a digit and writing it back gives the digit. */
  lemma DigitOfValue(c: char)
    requires IsBit(c)
    ensures Digit(DigitValue(c)) == c
  {
  }

  /** Two binary numerals of the same width with the same value are the same string. */
  lemma {:induction false} FromBitsInjective(x: string, y: string)
    requires IsBits(x) && IsBits(y) && |x| == |y|
    requires FromBits(x) == FromBits(y)
    ensures x == y
    decreases |x|
  {
    if x != [] {
      var n := |x|;
      assert DigitValue(x[n - 1]) == DigitValue(y[n - 1]);
      assert x[n - 1] == y[n - 1];
      FromBitsInjective(x[..n - 1], y[..n - 1]);
      assert x == x[..n - 1] + [x[n - 1]];
      assert y == y[..n - 1] + [y[n - 1]];
    }
  }

  /** Reading a `w`-digit numeral and writing its value back in `w` digits is the identity. */
  lemma FixedOfFromBits(x: string)
    requires IsBits(x) && |x| >= 1
    ensures Fixed(FromBits(x), |x|) == x
  {
    FixedValue(FromBits(x), |x|);
    FromBitsInjective(Fixed(FromBits(x), |x|), x);
  }
}
