/**
 * The plain JavaScript objects the coder uses as dictionaries (`{}` indexed by
 * one-character strings): the frequency table and the code table.  An object
 * remembers the order in which its properties were created; assigning to an
 * existing property keeps its place.  `for (k in obj)` and `JSON.stringify`
 * visit the array-index keys ("0" .. "9" for one-character keys) first, in
 * ascending numeric order, and then every other key in creation order.
 */
module JsObject {
  import opened Common

  /** The properties of an object, in creation order. */
  type Table<V> = seq<(char, V)>

  /** Every element occurs at most once. */
  predicate Unique(s: seq<char>) {
    forall i, j :: 0 <= i < j < |s| ==> s[i] != s[j]
  }

  function Keys<V>(t: Table<V>): (ks: seq<char>)
    ensures |ks| == |t|
    ensures forall i :: 0 <= i < |t| ==> ks[i] == t[i].0
  {
    seq(|t|, i requires 0 <= i < |t| => t[i].0)
  }

  /** `obj[k]`, with `None` standing for `undefined`: the value of the first property created under `k`. */
  function Get<V>(t: Table<V>, k: char): Option<V> {
    if t == [] then None else if t[0].0 == k then Some(t[0].1) else Get(t[1..], k)
  }

  /** `obj[k] = v`: an existing property is updated in place, a new one is appended. */
  function Put<V>(t: Table<V>, k: char, v: V): Table<V> {
    if t == [] then [(k, v)]
    else if t[0].0 == k then [(k, v)] + t[1..]
    else [t[0]] + Put(t[1..], k, v)
  }

  lemma KeysCons<V>(t: Table<V>)
    requires t != []
    ensures Keys(t) == [t[0].0] + Keys(t[1..])
  {
  }

  /** `obj[k]` is defined exactly for the keys of `obj`. */
  lemma {:induction false} GetSome<V>(t: Table<V>, k: char)
    ensures Get(t, k).Some? <==> k in Keys(t)
  {
    if t != [] {
      KeysCons(t);
      GetSome(t[1..], k);
    }
  }

  /** Assigning to an existing property keeps the keys as they are; a new key goes last. */
  lemma {:induction false} PutKeys<V>(t: Table<V>, k: char, v: V)
    ensures k in Keys(t) ==> Keys(Put(t, k, v)) == Keys(t)
    ensures k !in Keys(t) ==> Keys(Put(t, k, v)) == Keys(t) + [k]
  {
    if t != [] {
      KeysCons(t);
      PutKeys(t[1..], k, v);
      if t[0].0 != k {
        KeysCons(Put(t, k, v));
      } else {
        KeysCons(Put(t, k, v));
      }
    }
  }

  /** After `obj[k] = v`, `obj[k]` reads `v` and every other property reads what it read before. */
  lemma {:induction false} GetPut<V>(t: Table<V>, k: char, v: V, k': char)
    ensures Get(Put(t, k, v), k') == if k' == k then Some(v) else Get(t, k')
  {
    if t != [] && t[0].0 != k {
      var r := Put(t, k, v);
      assert r[0] == t[0] && r[1..] == Put(t[1..], k, v);
      GetPut(t[1..], k, v, k');
    }
  }

  /** Assigning the properties of `es` one after another, first to last. */
  function PutAll<V>(t: Table<V>, es: Table<V>): Table<V>
    decreases |es|
  {
    if es == [] then t else PutAll(Put(t, es[0].0, es[0].1), es[1..])
  }

  predicate IsIndexKey(c: char) {
    '0' <= c <= '9'
  }

  /** The index keys of `ks` ("0" .. "9"), in ascending order. */
  function IndexKeys(ks: seq<char>): seq<char> {
    if ks == [] then []
    else if IsIndexKey(ks[0]) then InsertAscending(ks[0], IndexKeys(ks[1..]))
    else IndexKeys(ks[1..])
  }

  function InsertAscending(c: char, s: seq<char>): seq<char> {
    if s == [] || c <= s[0] then [c] + s else [s[0]] + InsertAscending(c, s[1..])
  }

  /** The keys of `ks` that are not index keys, in their order in `ks`. */
  function OtherKeys(ks: seq<char>): seq<char> {
    if ks == [] then [] else (if IsIndexKey(ks[0]) then [] else [ks[0]]) + OtherKeys(ks[1..])
  }

  /** The order in which `for (k in obj)` and `JSON.stringify` visit the keys. */
  function EnumerationOrder<V>(t: Table<V>): seq<char> {
    IndexKeys(Keys(t)) + OtherKeys(Keys(t))
  }

  /** Inserting into the ascending list adds one occurrence of the key and nothing else. */
  lemma {:induction false} InsertAscendingCount(c: char, s: seq<char>, x: char)
    ensures multiset(InsertAscending(c, s))[x] == multiset(s)[x] + if x == c then 1 else 0
  {
    if s != [] && c > s[0] {
      assert s == [s[0]] + s[1..];
      InsertAscendingCount(c, s[1..], x);
    }
  }

  /** Every index key is listed as often as it occurs. */
  lemma {:induction false} IndexKeysCount(ks: seq<char>, x: char)
    ensures multiset(IndexKeys(ks))[x] == if IsIndexKey(x) then multiset(ks)[x] else 0
  {
    if ks != [] {
      assert ks == [ks[0]] + ks[1..];
      IndexKeysCount(ks[1..], x);
      if IsIndexKey(ks[0]) {
        InsertAscendingCount(ks[0], IndexKeys(ks[1..]), x);
      }
    }
  }

  /** Every other key is listed as often as it occurs. */
  lemma {:induction false} OtherKeysCount(ks: seq<char>, x: char)
    ensures multiset(OtherKeys(ks))[x] == if IsIndexKey(x) then 0 else multiset(ks)[x]
  {
    if ks != [] {
      assert ks == [ks[0]] + ks[1..];
      OtherKeysCount(ks[1..], x);
    }
  }

  /** In a sequence without repetitions an element is counted once if present. */
  lemma {:induction false} UniqueCount(s: seq<char>, x: char)
    requires Unique(s)
    ensures multiset(s)[x] == if x in s then 1 else 0
  {
    if s != [] {
      UniqueTail(s);
      UniqueCount(s[1..], x);
      assert s == [s[0]] + s[1..];
      assert multiset(s)[x] == multiset([s[0]])[x] + multiset(s[1..])[x];
    }
  }

  /** A sequence whose every element is counted at most once has no repetitions. */
  lemma CountsUnique(s: seq<char>)
    requires forall x :: multiset(s)[x] <= 1
    ensures Unique(s)
  {
    forall i, j | 0 <= i < j < |s| ensures s[i] != s[j] {
      assert s == s[..j] + s[j..];
      assert s[i] in s[..j] && s[j] in s[j..];
      assert multiset(s)[s[j]] == multiset(s[..j])[s[j]] + multiset(s[j..])[s[j]];
    }
  }

  lemma SameCounts(a: seq<char>, b: seq<char>)
    requires forall x :: multiset(a)[x] == multiset(b)[x]
    ensures multiset(a) == multiset(b)
  {
  }

  /** Enumeration visits every key of an object exactly once. */
  lemma {:induction false} EnumerationVisitsEachKeyOnce<V>(t: Table<V>)
    requires Unique(Keys(t))
    ensures multiset(EnumerationOrder(t)) == multiset(Keys(t))
    ensures Unique(EnumerationOrder(t))
    ensures forall k :: k in EnumerationOrder(t) <==> k in Keys(t)
  {
    var ks := Keys(t);
    var e := EnumerationOrder(t);
    assert multiset(e) == multiset(ks) by {
      forall x ensures multiset(e)[x] == multiset(ks)[x] {
        EnumerationCount(ks, x);
      }
      SameCounts(e, ks);
    }
    assert Unique(e) by {
      forall x ensures multiset(e)[x] <= 1 {
        UniqueCount(ks, x);
      }
      CountsUnique(e);
    }
    forall k ensures k in e <==> k in ks {
      assert k in e <==> k in multiset(e);
      assert k in ks <==> k in multiset(ks);
    }
  }

  lemma EnumerationCount(ks: seq<char>, x: char)
    ensures multiset(IndexKeys(ks) + OtherKeys(ks))[x] == multiset(ks)[x]
  {
    IndexKeysCount(ks, x);
    OtherKeysCount(ks, x);
  }

  lemma UniqueTail(s: seq<char>)
    requires s != [] && Unique(s)
    ensures Unique(s[1..]) && s[0] !in s[1..]
  {
    forall j | 0 <= j < |s[1..]| ensures s[1..][j] != s[0] {
      assert s[1..][j] == s[j + 1];
    }
  }

  /** In a sequence without repetitions the front part and the back part share nothing. */
  lemma UniqueSplit(a: seq<char>, b: seq<char>)
    requires Unique(a + b)
    ensures forall x :: x in a ==> x !in b
  {
    forall x | x in a ensures x !in b {
      var i :| 0 <= i < |a| && a[i] == x;
      forall j | 0 <= j < |b| ensures b[j] != x {
        assert (a + b)[i] == x && (a + b)[|a| + j] == b[j];
      }
    }
  }

  /** `obj[k]` finds the value of the property created under `k`. */
  lemma {:induction false} GetAt<V>(t: Table<V>, i: nat)
    requires Unique(Keys(t)) && i < |t|
    ensures Get(t, t[i].0) == Some(t[i].1)
  {
    if i > 0 {
      assert Keys(t)[0] == t[0].0 && Keys(t)[i] == t[i].0;
      assert Keys(t)[1..] == Keys(t[1..]);
      UniqueTail(Keys(t));
      GetAt(t[1..], i - 1);
    }
  }


  /** Assigning properties with distinct keys to an object that has none of them appends them in order. */
  lemma {:induction false} PutFresh<V>(t: Table<V>, k: char, v: V)
    requires k !in Keys(t)
    ensures Put(t, k, v) == t + [(k, v)]
  {
    if t != [] {
      KeysCons(t);
      PutFresh(t[1..], k, v);
      assert t == [t[0]] + t[1..];
    }
  }

  lemma KeysConcat<V>(a: Table<V>, b: Table<V>)
    ensures Keys(a + b) == Keys(a) + Keys(b)
  {
  }

  lemma {:induction false} PutAllFresh<V>(t: Table<V>, es: Table<V>)
    requires Unique(Keys(t) + Keys(es))
    ensures PutAll(t, es) == t + es
    decreases |es|
  {
    if es != [] {
      var k, rest := es[0].0, es[1..];
      var t' := t + [es[0]];
      assert es == [es[0]] + rest;
      assert t + es == t' + rest;
      assert Put(t, k, es[0].1) == t' by {
        assert k in Keys(es) by { assert Keys(es)[0] == k; }
        UniqueSplit(Keys(t), Keys(es));
        PutFresh(t, k, es[0].1);
      }
      assert Unique(Keys(t') + Keys(rest)) by {
        KeysConcat(t', rest);
        KeysConcat(t, es);
      }
      PutAllFresh(t', rest);
    }
  }

  /** After assigning properties with distinct keys, each of them reads the value it was given. */
  lemma {:induction false} GetPutAll<V>(t: Table<V>, es: Table<V>, k: char)
    requires Unique(Keys(es))
    ensures k in Keys(es) ==> Get(PutAll(t, es), k) == Get(es, k)
    ensures k !in Keys(es) ==> Get(PutAll(t, es), k) == Get(t, k)
    decreases |es|
  {
    if es != [] {
      var t', rest := Put(t, es[0].0, es[0].1), es[1..];
      assert PutAll(t, es) == PutAll(t', rest);
      assert Keys(es) == [es[0].0] + Keys(rest);
      UniqueTail(Keys(es));
      GetPutAll(t', rest, k);
      GetPut(t, es[0].0, es[0].1, k);
    }
  }

  lemma UniqueAppend(ks: seq<char>, k: char)
    requires Unique(ks) && k !in ks
    ensures Unique(ks + [k])
  {
  }

  lemma {:induction false} PutAllConcat<V>(t: Table<V>, a: Table<V>, b: Table<V>)
    ensures PutAll(t, a + b) == PutAll(PutAll(t, a), b)
    decreases |a|
  {
    if a == [] {
      assert a + b == b;
    } else {
      assert (a + b)[0] == a[0] && (a + b)[1..] == a[1..] + b;
      PutAllConcat(Put(t, a[0].0, a[0].1), a[1..], b);
    }
  }

  /** An object without index keys is enumerated in creation order. */
  lemma EnumerationWithoutIndexKeys<V>(t: Table<V>)
    requires forall i :: 0 <= i < |t| ==> !IsIndexKey(t[i].0)
    ensures EnumerationOrder(t) == Keys(t)
  {
    NoIndexKeys(Keys(t));
    NoOtherKeysDropped(Keys(t));
  }

  lemma {:induction false} NoIndexKeys(ks: seq<char>)
    requires forall i :: 0 <= i < |ks| ==> !IsIndexKey(ks[i])
    ensures IndexKeys(ks) == []
  {
    if ks != [] {
      NoIndexKeys(ks[1..]);
    }
  }

  lemma {:induction false} NoOtherKeysDropped(ks: seq<char>)
    requires forall i :: 0 <= i < |ks| ==> !IsIndexKey(ks[i])
    ensures OtherKeys(ks) == ks
  {
    if ks != [] {
      NoOtherKeysDropped(ks[1..]);
    }
  }
  // ---------------------------------------------------------------- JSON text

  /** The entry `e` put into a list of index-key entries kept in ascending key order. */
  function InsertEntry<V>(e: (char, V), s: Table<V>): Table<V> {
    if s == [] || e.0 <= s[0].0 then [e] + s else [s[0]] + InsertEntry(e, s[1..])
  }

  /** The index-key properties of `t`, in ascending key order. */
  function IndexEntries<V>(t: Table<V>): Table<V> {
    if t == [] then []
    else if IsIndexKey(t[0].0) then InsertEntry(t[0], IndexEntries(t[1..]))
    else IndexEntries(t[1..])
  }

  /** The other properties of `t`, in creation order. */
  function OtherEntries<V>(t: Table<V>): Table<V> {
    if t == [] then [] else (if IsIndexKey(t[0].0) then [] else [t[0]]) + OtherEntries(t[1..])
  }

  /**
   * `JSON.parse(JSON.stringify(t))`: the text lists the properties in
   * enumeration order, and parsing creates them in the order of the text.
   */
  function Enumerated<V>(t: Table<V>): Table<V> {
    IndexEntries(t) + OtherEntries(t)
  }

  lemma {:induction false} InsertEntryKeys<V>(e: (char, V), s: Table<V>)
    ensures Keys(InsertEntry(e, s)) == InsertAscending(e.0, Keys(s))
    ensures forall x :: x in InsertEntry(e, s) <==> x == e || x in s
  {
    if s != [] && e.0 > s[0].0 {
      InsertEntryKeys(e, s[1..]);
      KeysCons(s);
      KeysCons(InsertEntry(e, s));
      assert s == [s[0]] + s[1..];
    }
  }

  lemma {:induction false} IndexEntriesKeys<V>(t: Table<V>)
    ensures Keys(IndexEntries(t)) == IndexKeys(Keys(t))
    ensures forall x :: x in IndexEntries(t) <==> x in t && IsIndexKey(x.0)
  {
    if t != [] {
      KeysCons(t);
      IndexEntriesKeys(t[1..]);
      if IsIndexKey(t[0].0) {
        InsertEntryKeys(t[0], IndexEntries(t[1..]));
      }
      assert t == [t[0]] + t[1..];
    }
  }

  lemma {:induction false} OtherEntriesKeys<V>(t: Table<V>)
    ensures Keys(OtherEntries(t)) == OtherKeys(Keys(t))
  {
    if t != [] {
      var tail := t[1..];
      var h: Table<V> := if IsIndexKey(t[0].0) then [] else [t[0]];
      OtherEntriesKeys(tail);
      assert OtherEntries(t) == h + OtherEntries(tail);
      assert Keys(OtherEntries(t)) == Keys(h) + Keys(OtherEntries(tail)) by {
        KeysConcat(h, OtherEntries(tail));
      }
      assert OtherKeys(Keys(t)) == Keys(h) + OtherKeys(Keys(tail)) by {
        KeysCons(t);
      }
    }
  }

  lemma {:induction false} OtherEntriesMembers<V>(t: Table<V>)
    ensures forall x :: x in OtherEntries(t) <==> x in t && !IsIndexKey(x.0)
  {
    if t != [] {
      var tail := t[1..];
      OtherEntriesMembers(tail);
      assert OtherEntries(t) == (if IsIndexKey(t[0].0) then [] else [t[0]]) + OtherEntries(tail);
      assert t == [t[0]] + tail;
    }
  }

  /** In an object with distinct keys, `obj[k]` reads `v` exactly when `(k, v)` is one of its properties. */
  lemma {:induction false} GetMember<V>(t: Table<V>, k: char, v: V)
    requires Unique(Keys(t))
    ensures Get(t, k) == Some(v) <==> (k, v) in t
  {
    if t != [] {
      var tail := t[1..];
      assert Keys(tail) == Keys(t)[1..];
      UniqueTail(Keys(t));
      GetMember(tail, k, v);
      HeadKeyOnce(t);
      assert (k, v) in t <==> (k, v) == t[0] || (k, v) in tail by {
        assert t == [t[0]] + tail;
      }
      assert Get(t, k) == if t[0].0 == k then Some(t[0].1) else Get(tail, k);
    }
  }

  /** The first property's key is not the key of any later property. */
  lemma HeadKeyOnce<V>(t: Table<V>)
    requires t != [] && Unique(Keys(t))
    ensures forall x :: x in t[1..] ==> x.0 != t[0].0
  {
    forall x | x in t[1..] ensures x.0 != t[0].0 {
      var i :| 0 <= i < |t[1..]| && t[1..][i] == x;
      assert Keys(t)[i + 1] == x.0;
    }
  }

  /**
   * A round trip through JSON text lists the keys in enumeration order and
   * keeps every property: each key reads what it read before.
   */
  lemma EnumeratedProperties<V>(t: Table<V>, k: char)
    requires Unique(Keys(t))
    ensures Keys(Enumerated(t)) == EnumerationOrder(t)
    ensures Unique(Keys(Enumerated(t)))
    ensures Get(Enumerated(t), k) == Get(t, k)
  {
    var e := Enumerated(t);
    IndexEntriesKeys(t);
    OtherEntriesKeys(t);
    OtherEntriesMembers(t);
    KeysConcat(IndexEntries(t), OtherEntries(t));
    EnumerationVisitsEachKeyOnce(t);
    assert forall x :: x in e <==> x in t;
    GetSome(t, k);
    GetSome(e, k);
    if Get(t, k).Some? {
      GetMember(t, k, Get(t, k).value);
      GetMember(e, k, Get(t, k).value);
    }
  }

  // ---------------------------------------------------------------- enumerating twice

  lemma {:induction false} IndexKeysAscending(ks: seq<char>)
    ensures forall i :: 0 <= i < |IndexKeys(ks)| ==> IsIndexKey(IndexKeys(ks)[i])
    ensures forall i, j :: 0 <= i < j < |IndexKeys(ks)| ==> IndexKeys(ks)[i] <= IndexKeys(ks)[j]
  {
    if ks != [] {
      IndexKeysAscending(ks[1..]);
      if IsIndexKey(ks[0]) {
        InsertAscendingSorted(ks[0], IndexKeys(ks[1..]));
      }
    }
  }

  lemma {:induction false} InsertAscendingSorted(c: char, s: seq<char>)
    requires IsIndexKey(c) && forall i :: 0 <= i < |s| ==> IsIndexKey(s[i])
    requires forall i, j :: 0 <= i < j < |s| ==> s[i] <= s[j]
    ensures forall i :: 0 <= i < |InsertAscending(c, s)| ==> IsIndexKey(InsertAscending(c, s)[i])
    ensures forall i, j :: 0 <= i < j < |InsertAscending(c, s)| ==> InsertAscending(c, s)[i] <= InsertAscending(c, s)[j]
  {
    if s != [] && c > s[0] {
      InsertAscendingSorted(c, s[1..]);
      InsertAscendingCount(c, s[1..], InsertAscending(c, s[1..])[0]);
      var r := InsertAscending(c, s[1..]);
      assert r[0] in multiset(s[1..]) + multiset{c};
    }
  }

  /** Index keys already in ascending order stay as they are. */
  lemma {:induction false} IndexKeysOfAscending(s: seq<char>)
    requires forall i :: 0 <= i < |s| ==> IsIndexKey(s[i])
    requires forall i, j :: 0 <= i < j < |s| ==> s[i] <= s[j]
    ensures IndexKeys(s) == s
  {
    if s != [] {
      IndexKeysOfAscending(s[1..]);
      assert s == [s[0]] + s[1..];
    }
  }

  lemma {:induction false} IndexKeysConcat(a: seq<char>, b: seq<char>)
    requires forall i :: 0 <= i < |b| ==> !IsIndexKey(b[i])
    ensures IndexKeys(a + b) == IndexKeys(a)
  {
    if a == [] {
      assert a + b == b;
      NoIndexKeys(b);
    } else {
      assert (a + b)[0] == a[0] && (a + b)[1..] == a[1..] + b;
      IndexKeysConcat(a[1..], b);
    }
  }

  lemma {:induction false} OtherKeysConcat(a: seq<char>, b: seq<char>)
    ensures OtherKeys(a + b) == OtherKeys(a) + OtherKeys(b)
  {
    if a == [] {
      assert a + b == b;
    } else {
      assert (a + b)[0] == a[0] && (a + b)[1..] == a[1..] + b;
      OtherKeysConcat(a[1..], b);
    }
  }

  lemma {:induction false} OtherKeysOfIndexKeys(s: seq<char>)
    requires forall i :: 0 <= i < |s| ==> IsIndexKey(s[i])
    ensures OtherKeys(s) == []
  {
    if s != [] {
      OtherKeysOfIndexKeys(s[1..]);
    }
  }

  lemma {:induction false} OtherKeysAreOther(ks: seq<char>)
    ensures forall i :: 0 <= i < |OtherKeys(ks)| ==> !IsIndexKey(OtherKeys(ks)[i])
  {
    if ks != [] {
      OtherKeysAreOther(ks[1..]);
    }
  }

  /** Enumerating an object that was built in enumeration order gives that same order. */
  lemma EnumerationOrderEnumerated<V>(t: Table<V>)
    requires Unique(Keys(t))
    ensures EnumerationOrder(Enumerated(t)) == EnumerationOrder(t)
  {
    var a, b := IndexKeys(Keys(t)), OtherKeys(Keys(t));
    EnumeratedProperties(t, ' ');
    assert Keys(Enumerated(t)) == a + b;
    IndexKeysAscending(Keys(t));
    OtherKeysAreOther(Keys(t));
    assert IndexKeys(a + b) == a by {
      IndexKeysConcat(a, b);
      IndexKeysOfAscending(a);
    }
    assert OtherKeys(a + b) == b by {
      OtherKeysConcat(a, b);
      OtherKeysOfIndexKeys(a);
      NoOtherKeysDropped(b);
    }
  }
}
