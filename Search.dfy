/** `String.prototype.indexOf` and `String.prototype.split` over sequences. */
module Search {
  import opened Common

  /** `m` occurs in `s` starting at position `i`. */
  predicate OccursAt<T(==)>(s: seq<T>, m: seq<T>, i: nat) {
    i + |m| <= |s| && s[i..i + |m|] == m
  }

  /** The first position at or after `from` where `m` occurs. */
  function IndexFrom<T(==)>(s: seq<T>, m: seq<T>, from: nat): (r: Option<nat>)
    ensures r.Some? ==> from <= r.value && r.value + |m| <= |s|
    decreases |s| - from
  {
    if from + |m| > |s| then None
    else if s[from..from + |m|] == m then Some(from)
    else IndexFrom(s, m, from + 1)
  }

  /** `s.indexOf(m)`, with `None` for -1. */
  function IndexOf<T(==)>(s: seq<T>, m: seq<T>): Option<nat> {
    IndexFrom(s, m, 0)
  }

  lemma {:induction false} IndexFromFirst<T>(s: seq<T>, m: seq<T>, from: nat)
    requires forall j :: 0 <= j < from ==> !OccursAt(s, m, j)
    ensures IndexFrom(s, m, from).Some? ==> OccursAt(s, m, IndexFrom(s, m, from).value)
    ensures IndexFrom(s, m, from).Some? ==> forall j :: 0 <= j < IndexFrom(s, m, from).value ==> !OccursAt(s, m, j)
    ensures IndexFrom(s, m, from).None? ==> forall j :: !OccursAt(s, m, j)
    decreases |s| - from
  {
    if from + |m| <= |s| && s[from..from + |m|] != m {
      IndexFromFirst(s, m, from + 1);
    }
  }

  /**
   * `indexOf` finds the first occurrence: it names a position where `m`
   * occurs with no occurrence before it, and reports -1 exactly when `m`
   * occurs nowhere.
   */
  lemma IndexOfFirst<T>(s: seq<T>, m: seq<T>)
    ensures IndexOf(s, m).Some? ==> OccursAt(s, m, IndexOf(s, m).value)
    ensures IndexOf(s, m).Some? ==> forall j :: 0 <= j < IndexOf(s, m).value ==> !OccursAt(s, m, j)
    ensures IndexOf(s, m).None? <==> forall j :: !OccursAt(s, m, j)
  {
    IndexFromFirst(s, m, 0);
  }

  /** A first occurrence is what `indexOf` reports. */
  lemma IndexOfIs<T>(s: seq<T>, m: seq<T>, i: nat)
    requires OccursAt(s, m, i)
    requires forall j :: 0 <= j < i ==> !OccursAt(s, m, j)
    ensures IndexOf(s, m) == Some(i)
  {
    IndexOfFirst(s, m);
  }

  /** Text appended after a first occurrence does not move it. */
  lemma IndexOfExtend<T>(s: seq<T>, t: seq<T>, m: seq<T>)
    requires IndexOf(s, m).Some?
    ensures IndexOf(s + t, m) == IndexOf(s, m)
  {
    IndexOfFirst(s, m);
    var i := IndexOf(s, m).value;
    var st := s + t;
    assert st[i..i + |m|] == s[i..i + |m|];
    forall j | 0 <= j < i ensures !OccursAt(st, m, j) {
      assert !OccursAt(s, m, j);
      assert st[j..j + |m|] == s[j..j + |m|];
    }
    IndexOfIs(st, m, i);
  }

  /** `s.split(m)` for a non-empty separator: the pieces between occurrences, in order. */
  function Split<T(==)>(s: seq<T>, m: seq<T>): (parts: seq<seq<T>>)
    requires |m| > 0
    decreases |s|
  {
    match IndexOf(s, m)
    case None => [s]
    case Some(i) =>
      IndexOfFirst(s, m);
      [s[..i]] + Split(s[i + |m|..], m)
  }

  /** A separator that occurs splits the text into at least two pieces, the first two around its first occurrence. */
  lemma SplitAtFirst<T>(s: seq<T>, m: seq<T>)
    requires |m| > 0 && IndexOf(s, m).Some?
    ensures |Split(s, m)| >= 2
    ensures Split(s, m)[0] == s[..IndexOf(s, m).value]
    ensures Split(s, m)[1] == var rest := s[IndexOf(s, m).value + |m|..];
      match IndexOf(rest, m) case None => rest case Some(j) => rest[..j]
  {
    IndexOfFirst(s, m);
    var i := IndexOf(s, m).value;
    var rest := s[i + |m|..];
    IndexOfFirst(rest, m);
  }
}
