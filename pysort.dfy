/** Python's list filtering, `sorted(xs, key=...)` (a stable sort) and
    `sorted(set(xs))`, as used by the coverage engine. */
module PySort {

  /** The elements `x` of `s` with `p(x) == keep`, in their original order. */
  function Select<T>(s: seq<T>, p: T -> bool, keep: bool): (r: seq<T>)
    ensures |r| <= |s|
  {
    if s == [] then []
    else Select(s[..|s| - 1], p, keep) + (if p(s[|s| - 1]) == keep then [s[|s| - 1]] else [])
  }

  /** What `Select` keeps: exactly the elements of `s` that pass the test. */
  lemma {:induction false} SelectMembers<T>(s: seq<T>, p: T -> bool, keep: bool)
    ensures forall i :: 0 <= i < |Select(s, p, keep)| ==> p(Select(s, p, keep)[i]) == keep
    ensures forall i :: 0 <= i < |Select(s, p, keep)| ==> Select(s, p, keep)[i] in s
    ensures forall i :: 0 <= i < |s| && p(s[i]) == keep ==> s[i] in Select(s, p, keep)
  {
    if s != [] {
      var s' := s[..|s| - 1];
      SelectMembers(s', p, keep);
      var r := Select(s, p, keep);
      assert r == Select(s', p, keep) + (if p(s[|s| - 1]) == keep then [s[|s| - 1]] else []);
      forall i | 0 <= i < |s| && p(s[i]) == keep ensures s[i] in r {
        if i < |s| - 1 { assert s[i] == s'[i]; }
      }
    }
  }

  /** `s` is an interleaving of `a` and `b`: every element of `s` comes from
      exactly one of them, and each keeps its relative order. */
  ghost predicate Interleaving<T>(s: seq<T>, a: seq<T>, b: seq<T>)
    decreases |s|
  {
    if s == [] then a == [] && b == []
    else
      || (a != [] && a[|a| - 1] == s[|s| - 1] && Interleaving(s[..|s| - 1], a[..|a| - 1], b))
      || (b != [] && b[|b| - 1] == s[|s| - 1] && Interleaving(s[..|s| - 1], a, b[..|b| - 1]))
  }

  lemma {:induction false} InterleavingCounts<T>(s: seq<T>, a: seq<T>, b: seq<T>)
    requires Interleaving(s, a, b)
    ensures |a| + |b| == |s|
    ensures multiset(a) + multiset(b) == multiset(s)
  {
    if s != [] {
      var s' := s[..|s| - 1];
      assert s == s' + [s[|s| - 1]];
      if a != [] && a[|a| - 1] == s[|s| - 1] && Interleaving(s', a[..|a| - 1], b) {
        InterleavingCounts(s', a[..|a| - 1], b);
        assert a == a[..|a| - 1] + [a[|a| - 1]];
      } else {
        InterleavingCounts(s', a, b[..|b| - 1]);
        assert b == b[..|b| - 1] + [b[|b| - 1]];
      }
    }
  }

  lemma SelectUnfold<T>(s: seq<T>, p: T -> bool, keep: bool)
    requires s != []
    ensures Select(s, p, keep)
         == Select(s[..|s| - 1], p, keep) + (if p(s[|s| - 1]) == keep then [s[|s| - 1]] else [])
  {
  }

  /** Splitting `s` by a predicate sends each element to exactly one side and
      keeps the order on both sides. */
  lemma {:induction false} SelectPartition<T>(s: seq<T>, p: T -> bool)
    ensures Interleaving(s, Select(s, p, true), Select(s, p, false))
  {
    if s != [] {
      var s', x := s[..|s| - 1], s[|s| - 1];
      var a', b' := Select(s', p, true), Select(s', p, false);
      SelectPartition(s', p);
      SelectUnfold(s, p, true);
      SelectUnfold(s, p, false);
      if p(x) {
        var a := a' + [x];
        assert a[..|a| - 1] == a';
        assert Select(s, p, true) == a && Select(s, p, false) == b';
      } else {
        var b := b' + [x];
        assert b[..|b| - 1] == b';
        assert Select(s, p, true) == a' && Select(s, p, false) == b;
      }
    }
  }

  /** The two sides of a split together hold exactly the elements of `s`. */
  lemma SelectCounts<T>(s: seq<T>, p: T -> bool)
    ensures |Select(s, p, true)| + |Select(s, p, false)| == |s|
    ensures multiset(Select(s, p, true)) + multiset(Select(s, p, false)) == multiset(s)
  {
    SelectPartition(s, p);
    InterleavingCounts(s, Select(s, p, true), Select(s, p, false));
  }

  /** When every element passes, the selection is everything; when none does, nothing. */
  lemma {:induction false} SelectAllOrNone<T>(s: seq<T>, p: T -> bool, keep: bool)
    requires forall i :: 0 <= i < |s| ==> p(s[i]) == keep
    ensures Select(s, p, keep) == s
    ensures Select(s, p, !keep) == []
  {
    if s != [] {
      SelectAllOrNone(s[..|s| - 1], p, keep);
      assert s == s[..|s| - 1] + [s[|s| - 1]];
    }
  }

  lemma SelectAppend<T>(s: seq<T>, x: T, p: T -> bool, keep: bool)
    ensures Select(s + [x], p, keep) == Select(s, p, keep) + (if p(x) == keep then [x] else [])
  {
    assert (s + [x])[..|s + [x]| - 1] == s;
  }

  // ---- stable sort by an integer key: sorted(xs, key=key) ----

  ghost predicate SortedByKey<T>(s: seq<T>, key: T -> int) {
    forall i, j :: 0 <= i < j < |s| ==> key(s[i]) <= key(s[j])
  }

  /** The test "has key k", as a value that filters can use. */
  function HasKey<T>(key: T -> int, k: int): T -> bool {
    x => key(x) == k
  }

  /** Inserts `x` after every element whose key is at most `key(x)`. */
  function InsertByKey<T>(x: T, s: seq<T>, key: T -> int): seq<T>
  {
    if s == [] then [x]
    else if key(s[|s| - 1]) <= key(x) then s + [x]
    else InsertByKey(x, s[..|s| - 1], key) + [s[|s| - 1]]
  }

  /** Inserting adds `x` and loses nothing. */
  lemma {:induction false} InsertByKeyPermutes<T>(x: T, s: seq<T>, key: T -> int)
    ensures multiset(InsertByKey(x, s, key)) == multiset(s) + multiset{x}
  {
    if s != [] && key(x) < key(s[|s| - 1]) {
      InsertByKeyPermutes(x, s[..|s| - 1], key);
      assert s == s[..|s| - 1] + [s[|s| - 1]];
    }
  }

  /** Inserting under a bound on the keys keeps every key under it. */
  lemma {:induction false} InsertByKeyBound<T>(x: T, s: seq<T>, key: T -> int, b: int)
    requires key(x) <= b
    requires forall i :: 0 <= i < |s| ==> key(s[i]) <= b
    ensures forall i :: 0 <= i < |InsertByKey(x, s, key)| ==> key(InsertByKey(x, s, key)[i]) <= b
  {
    if s != [] && key(x) < key(s[|s| - 1]) {
      var s' := s[..|s| - 1];
      assert forall i :: 0 <= i < |s'| ==> s'[i] == s[i];
      InsertByKeyBound(x, s', key, b);
      assert InsertByKey(x, s, key) == InsertByKey(x, s', key) + [s[|s| - 1]];
    }
  }

  lemma {:induction false} InsertByKeySorted<T>(x: T, s: seq<T>, key: T -> int)
    requires SortedByKey(s, key)
    ensures SortedByKey(InsertByKey(x, s, key), key)
  {
    if s != [] {
      var s', y := s[..|s| - 1], s[|s| - 1];
      assert forall i :: 0 <= i < |s'| ==> s'[i] == s[i];
      if key(x) < key(y) {
        var r' := InsertByKey(x, s', key);
        InsertByKeySorted(x, s', key);
        InsertByKeyBound(x, s', key, key(y));
        assert InsertByKey(x, s, key) == r' + [y];
      }
    }
  }

  /** `sorted(s, key=key)`: Python's sort is stable. */
  function SortByKey<T>(s: seq<T>, key: T -> int): seq<T>
  {
    if s == [] then []
    else InsertByKey(s[|s| - 1], SortByKey(s[..|s| - 1], key), key)
  }

  /** The result of the sort is a permutation of the input. */
  lemma {:induction false} SortByKeyPermutes<T>(s: seq<T>, key: T -> int)
    ensures multiset(SortByKey(s, key)) == multiset(s)
  {
    if s != [] {
      var s', x := s[..|s| - 1], s[|s| - 1];
      var sorted := SortByKey(s', key);
      SortByKeyPermutes(s', key);
      InsertByKeyPermutes(x, sorted, key);
      assert s == s' + [x];
      assert multiset(SortByKey(s, key)) == multiset(sorted) + multiset{x};
    }
  }

  /** The result of the sort is ordered by key. */
  lemma {:induction false} SortByKeySorted<T>(s: seq<T>, key: T -> int)
    ensures SortedByKey(SortByKey(s, key), key)
  {
    if s != [] {
      var s' := s[..|s| - 1];
      SortByKeySorted(s', key);
      InsertByKeySorted(s[|s| - 1], SortByKey(s', key), key);
    }
  }

  lemma SortByKeyFacts<T>(s: seq<T>, key: T -> int)
    ensures multiset(SortByKey(s, key)) == multiset(s)
    ensures SortedByKey(SortByKey(s, key), key)
  {
    SortByKeyPermutes(s, key);
    SortByKeySorted(s, key);
  }

  lemma {:induction false} SelectInsertByKey<T>(x: T, s: seq<T>, key: T -> int, k: int)
    ensures Select(InsertByKey(x, s, key), HasKey(key, k), true)
         == Select(s, HasKey(key, k), true) + (if key(x) == k then [x] else [])
  {
    var p := HasKey(key, k);
    var tail := if key(x) == k then [x] else [];
    if s == [] {
      assert InsertByKey(x, s, key) == [] + [x];
      SelectAppend([], x, p, true);
    } else if key(s[|s| - 1]) <= key(x) {
      SelectAppend(s, x, p, true);
    } else {
      var s', y := s[..|s| - 1], s[|s| - 1];
      var r' := InsertByKey(x, s', key);
      assert InsertByKey(x, s, key) == r' + [y];
      assert s == s' + [y];
      assert Select(r', p, true) == Select(s', p, true) + tail by {
        SelectInsertByKey(x, s', key, k);
      }
      SelectInsertAfter(r', s', y, p, tail, x, key, k);
    }
  }

  lemma SelectInsertAfter<T>(r': seq<T>, s': seq<T>, y: T, p: T -> bool, tail: seq<T>,
                             x: T, key: T -> int, k: int)
    requires p == HasKey(key, k) && key(x) < key(y)
    requires tail == if key(x) == k then [x] else []
    requires Select(r', p, true) == Select(s', p, true) + tail
    ensures Select(r' + [y], p, true) == Select(s' + [y], p, true) + tail
  {
    SelectAppend(r', y, p, true);
    SelectAppend(s', y, p, true);
  }

  /** Stability: the elements that share any one key appear in the sorted
      result in the same order as in the input. */
  lemma {:induction false} SortByKeyStable<T>(s: seq<T>, key: T -> int, k: int)
    ensures Select(SortByKey(s, key), HasKey(key, k), true) == Select(s, HasKey(key, k), true)
  {
    if s != [] {
      var s', x := s[..|s| - 1], s[|s| - 1];
      var sorted := SortByKey(s', key);
      assert SortByKey(s, key) == InsertByKey(x, sorted, key);
      SortByKeyStable(s', key, k);
      SelectInsertByKey(x, sorted, key, k);
      SelectAppend(s', x, HasKey(key, k), true);
      assert s == s' + [x];
    }
  }

  // ---- sorted(set(xs)) under a strict total order ----

  ghost predicate Trichotomous<T(!new)>(lt: (T, T) -> bool) {
    forall a, b :: a != b ==> lt(a, b) || lt(b, a)
  }

  ghost predicate Transitive<T(!new)>(lt: (T, T) -> bool) {
    forall a, b, c :: lt(a, b) && lt(b, c) ==> lt(a, c)
  }

  ghost predicate Irreflexive<T(!new)>(lt: (T, T) -> bool) {
    forall a :: !lt(a, a)
  }

  ghost predicate StrictlySorted<T>(s: seq<T>, lt: (T, T) -> bool) {
    forall i, j :: 0 <= i < j < |s| ==> lt(s[i], s[j])
  }

  /** No element occurs twice. */
  predicate Distinct<T(==)>(s: seq<T>) {
    forall i, j :: 0 <= i < j < |s| ==> s[i] != s[j]
  }

  /** A strictly sorted sequence under an irreflexive order holds no element twice. */
  lemma StrictlySortedDistinct<T(!new)>(s: seq<T>, lt: (T, T) -> bool)
    requires Irreflexive(lt) && StrictlySorted(s, lt)
    ensures Distinct(s)
  {
    forall i, j | 0 <= i < j < |s| ensures s[i] != s[j] {
      assert lt(s[i], s[j]);
    }
  }

  /** Adds `x` to the strictly sorted `s` unless it is already there. */
  function InsertUnique<T(!new,==)>(x: T, s: seq<T>, lt: (T, T) -> bool): (r: seq<T>)
    requires Trichotomous(lt) && Transitive(lt) && StrictlySorted(s, lt)
    ensures StrictlySorted(r, lt)
    ensures forall z :: z in r <==> z in s || z == x
  {
    if s == [] then [x]
    else
      var s', y := s[..|s| - 1], s[|s| - 1];
      assert s == s' + [y];
      if y == x then s
      else if lt(y, x) then
        AppendAbove(s, x, lt);
        s + [x]
      else
        var r' := InsertUnique(x, s', lt);
        InsertedBelow(r', s', x, y, lt);
        r' + [y]
  }

  /** Appending a bound of the last element keeps `s` strictly sorted. */
  lemma AppendAbove<T(!new)>(s: seq<T>, x: T, lt: (T, T) -> bool)
    requires Transitive(lt) && StrictlySorted(s, lt)
    requires s != [] ==> lt(s[|s| - 1], x)
    ensures StrictlySorted(s + [x], lt)
  {
    forall i | 0 <= i < |s| ensures lt(s[i], x) {
      if i < |s| - 1 { assert lt(s[i], s[|s| - 1]); }
    }
    SnocSorted(s, x, lt);
  }

  lemma SnocSorted<T>(s: seq<T>, x: T, lt: (T, T) -> bool)
    requires StrictlySorted(s, lt)
    requires forall i :: 0 <= i < |s| ==> lt(s[i], x)
    ensures StrictlySorted(s + [x], lt)
  {
    var r := s + [x];
    forall i, j | 0 <= i < j < |r| ensures lt(r[i], r[j]) {
      assert r[i] == s[i];
      if j < |s| { assert r[j] == s[j]; }
    }
  }

  /** Appending `y` after the insertion of `x` below `y` into elements below `y`. */
  lemma InsertedBelow<T(!new)>(r: seq<T>, s: seq<T>, x: T, y: T, lt: (T, T) -> bool)
    requires Trichotomous(lt) && Transitive(lt) && StrictlySorted(s + [y], lt) && StrictlySorted(r, lt)
    requires forall z :: z in r <==> z in s || z == x
    requires x != y && !lt(y, x)
    ensures StrictlySorted(r + [y], lt)
  {
    forall i | 0 <= i < |r| ensures lt(r[i], y) {
      if r[i] != x {
        assert r[i] in r;
        assert r[i] in s;
        var k :| 0 <= k < |s| && s[k] == r[i];
        assert (s + [y])[k] == s[k] && (s + [y])[|s|] == y;
      }
    }
    SnocSorted(r, y, lt);
  }

  /** `sorted(set(s))`: the distinct elements of `s`, in increasing order. */
  function SortedSet<T(!new,==)>(s: seq<T>, lt: (T, T) -> bool): (r: seq<T>)
    requires Trichotomous(lt) && Transitive(lt)
    ensures StrictlySorted(r, lt)
    ensures forall z :: z in r <==> z in s
  {
    if s == [] then []
    else
      var r := InsertUnique(s[|s| - 1], SortedSet(s[..|s| - 1], lt), lt);
      assert s == s[..|s| - 1] + [s[|s| - 1]];
      r
  }

  // ---- the orders Python uses for characters and strings ----

  /** Characters compare by code point. */
  function CharLess(): (char, char) -> bool {
    (a: char, b: char) => a < b
  }

  /** Strings compare lexicographically by code point; a proper prefix is smaller. */
  predicate StrLt(a: string, b: string) {
    if a == [] then b != []
    else if b == [] then false
    else if a[0] != b[0] then a[0] < b[0]
    else StrLt(a[1..], b[1..])
  }

  function StrLess(): (string, string) -> bool {
    (a: string, b: string) => StrLt(a, b)
  }

  lemma CharLessIsStrictTotal()
    ensures Trichotomous(CharLess()) && Transitive(CharLess()) && Irreflexive(CharLess())
  {
  }

  lemma {:induction false} StrLtTrichotomous(a: string, b: string)
    ensures a != b ==> StrLt(a, b) || StrLt(b, a)
  {
    if a != [] && b != [] && a[0] == b[0] {
      StrLtTrichotomous(a[1..], b[1..]);
      if a != b {
        assert a == [a[0]] + a[1..] && b == [b[0]] + b[1..];
      }
    }
  }

  lemma {:induction false} StrLtIrreflexive(a: string)
    ensures !StrLt(a, a)
  {
    if a != [] {
      StrLtIrreflexive(a[1..]);
    }
  }

  lemma {:induction false} StrLtTransitive(a: string, b: string, c: string)
    requires StrLt(a, b) && StrLt(b, c)
    ensures StrLt(a, c)
  {
    if a != [] && a[0] == b[0] && b[0] == c[0] {
      StrLtTransitive(a[1..], b[1..], c[1..]);
    }
  }

  lemma StrLessIsStrictTotal()
    ensures Trichotomous(StrLess()) && Transitive(StrLess()) && Irreflexive(StrLess())
  {
    forall a: string, b: string, c: string | StrLess()(a, b) && StrLess()(b, c)
      ensures StrLess()(a, c)
    {
      StrLtTransitive(a, b, c);
    }
    forall a: string, b: string ensures a != b ==> StrLess()(a, b) || StrLess()(b, a) {
      StrLtTrichotomous(a, b);
    }
    forall a: string ensures !StrLess()(a, a) {
      StrLtIrreflexive(a);
    }
  }

  /** On one-character strings the string order is the character order. */
  lemma StrLtSingle(a: char, b: char)
    ensures StrLt([a], [b]) <==> a < b
  {
    if a == b {
      assert [a][1..] == [];
    }
  }
}
