/**
 * The Ruby built-ins the core relies on, on flat sequences of strings:
 * Array#uniq, Array#| (union), Array#- (difference), Array#sort,
 * Array#partition, String#<=>, String#index and String#sub with a string pattern.
 */
module Builtins {
  import opened Wrappers

  /** No element occurs twice. */
  predicate NoDup<T(==)>(s: seq<T>) {
    forall i, j :: 0 <= i < j < |s| ==> s[i] != s[j]
  }

  /** Appending an element not yet present keeps a sequence duplicate-free. */
  lemma NoDupSnoc<T>(s: seq<T>, x: T)
    requires NoDup(s) && x !in s
    ensures NoDup(s + [x])
  {
    var r := s + [x];
    forall i, j | 0 <= i < j < |r| ensures r[i] != r[j] {
      if j == |s| { assert r[i] == s[i]; }
      else { assert r[i] == s[i] && r[j] == s[j]; }
    }
  }

  /** `a` is a prefix of `b`. */
  predicate IsPrefix<T(==)>(a: seq<T>, b: seq<T>) {
    |a| <= |b| && b[..|a|] == a
  }

  lemma PrefixTransitive<T>(a: seq<T>, b: seq<T>, c: seq<T>)
    requires IsPrefix(a, b) && IsPrefix(b, c)
    ensures IsPrefix(a, c)
  {
    assert c[..|a|] == c[..|b|][..|a|];
  }

  /** A prefix agrees with the longer sequence at every one of its positions. */
  lemma PrefixAgrees<T>(a: seq<T>, b: seq<T>)
    requires IsPrefix(a, b)
    ensures forall i | 0 <= i < |a| :: b[i] == a[i]
  {
    forall i | 0 <= i < |a| ensures b[i] == a[i] {
      assert b[..|a|][i] == b[i];
    }
  }

  /** Every element of a prefix is an element of the longer sequence. */
  lemma PrefixContains<T>(a: seq<T>, b: seq<T>)
    requires IsPrefix(a, b)
    ensures forall x | x in a :: x in b
  {
    forall x | x in a ensures x in b {
      var i :| 0 <= i < |a| && a[i] == x;
      assert b[..|a|][i] == b[i];
    }
  }

  // ---------------------------------------------------------------- uniq, |, -

  /** Array#uniq: the first occurrence of every element, in order. */
  function Uniq<T(==)>(s: seq<T>): (r: seq<T>)
    ensures NoDup(r)
    ensures forall x :: x in r ==> x in s
    ensures forall x :: x in s ==> x in r
    ensures |r| <= |s|
    decreases |s|
  {
    if |s| == 0 then []
    else
      var init := s[..|s| - 1];
      var u := Uniq(init);
      assert s == init + [s[|s| - 1]];
      if s[|s| - 1] in u then u else u + [s[|s| - 1]]
  }

  /** Array#|: the elements of `a` then those of `b`, each kept at its first occurrence. */
  function Union<T(==)>(a: seq<T>, b: seq<T>): (r: seq<T>)
    ensures NoDup(r)
    ensures forall x :: x in r ==> x in a || x in b
    ensures forall x :: x in a ==> x in r
    ensures forall x :: x in b ==> x in r
  {
    Uniq(a + b)
  }

  /** Array#uniq changes nothing in a sequence without duplicates. */
  lemma {:induction false} UniqOfNoDup<T>(s: seq<T>)
    requires NoDup(s)
    ensures Uniq(s) == s
    decreases |s|
  {
    if |s| > 0 {
      var init := s[..|s| - 1];
      UniqOfNoDup(init);
      assert s[|s| - 1] !in init;
      assert init + [s[|s| - 1]] == s;
    }
  }

  /** Uniting a duplicate-free sequence with anything keeps it as a prefix (Array#| only appends). */
  lemma {:induction false} UnionExtends<T>(a: seq<T>, b: seq<T>)
    requires NoDup(a)
    ensures IsPrefix(a, Union(a, b))
    decreases |b|
  {
    if |b| == 0 {
      assert a + b == a;
      UniqOfNoDup(a);
    } else {
      var b' := b[..|b| - 1];
      UnionExtends(a, b');
      assert (a + b)[..|a + b| - 1] == a + b';
    }
  }

  /** Array#- : every occurrence of the excluded elements removed, the rest in order. */
  function Minus<T(==)>(s: seq<T>, excluded: seq<T>): (r: seq<T>)
    ensures forall x :: x in r ==> x in s && x !in excluded
    ensures forall x :: x in s && x !in excluded ==> x in r
    ensures |r| <= |s|
  {
    if |s| == 0 then []
    else if s[0] in excluded then Minus(s[1..], excluded)
    else [s[0]] + Minus(s[1..], excluded)
  }

  // ------------------------------------------------------------ order kept

  /**
   * `r` is what `s` holds at the positions `idx`, taken in increasing order: `r` is `s` with
   * some elements dropped and the others kept in their order.
   */
  ghost predicate Picks<T>(r: seq<T>, s: seq<T>, idx: seq<nat>) {
    && |idx| == |r|
    && (forall k | 0 <= k < |idx| :: idx[k] < |s| && s[idx[k]] == r[k])
    && (forall k, l | 0 <= k < l < |idx| :: idx[k] < idx[l])
  }

  /** Every position one further on. */
  function Shift(idx: seq<nat>): (r: seq<nat>)
    ensures |r| == |idx| && forall k | 0 <= k < |idx| :: r[k] == idx[k] + 1
  {
    seq(|idx|, k requires 0 <= k < |idx| => idx[k] + 1)
  }

  /** Picks from `s[1..]` are picks from `s` one position further on, with or without `s[0]` first. */
  lemma PicksCons<T>(r: seq<T>, s: seq<T>, idx: seq<nat>)
    requires s != [] && Picks(r, s[1..], idx)
    ensures Picks(r, s, Shift(idx))
    ensures Picks([s[0]] + r, s, [0] + Shift(idx))
    ensures forall i | 0 < i < |s| :: i in Shift(idx) <==> i - 1 in idx
    ensures 0 !in Shift(idx)
  {
    var sh := Shift(idx);
    forall i | 0 < i < |s| ensures i in sh <==> i - 1 in idx {
      if i - 1 in idx {
        var k :| 0 <= k < |idx| && idx[k] == i - 1;
        assert sh[k] == i;
      }
    }
  }

  /** Picks from `s` stay picks when an element is appended, and may take that element last. */
  lemma PicksSnoc<T>(r: seq<T>, s: seq<T>, idx: seq<nat>, x: T)
    requires Picks(r, s, idx)
    ensures Picks(r, s + [x], idx)
    ensures Picks(r + [x], s + [x], idx + [|s|])
    ensures |s| !in idx
  {
    assert forall k | 0 <= k < |idx| :: (s + [x])[idx[k]] == s[idx[k]];
  }

  /** Array#uniq keeps exactly the first occurrence of each element, in the order of the input. */
  lemma {:induction false} UniqKeepsFirsts<T>(s: seq<T>) returns (idx: seq<nat>)
    ensures Picks(Uniq(s), s, idx)
    ensures forall i | 0 <= i < |s| :: i in idx <==> s[i] !in s[..i]
    decreases |s|
  {
    if |s| == 0 {
      idx := [];
    } else {
      var n := |s| - 1;
      var init := s[..n];
      var idx0 := UniqKeepsFirsts(init);
      assert s == init + [s[n]];
      assert Uniq(s) == if s[n] in init then Uniq(init) else Uniq(init) + [s[n]];
      PicksSnoc(Uniq(init), init, idx0, s[n]);
      idx := if s[n] in init then idx0 else idx0 + [n];
      forall i | 0 <= i < n ensures i in idx <==> s[i] !in s[..i] {
        assert s[..i] == init[..i] && s[i] == init[i];
      }
    }
  }

  /** Array#| keeps the first occurrence of each element of `a` followed by `b`, in that order. */
  lemma UnionKeepsFirsts<T>(a: seq<T>, b: seq<T>) returns (idx: seq<nat>)
    ensures Picks(Union(a, b), a + b, idx)
    ensures forall i | 0 <= i < |a + b| :: i in idx <==> (a + b)[i] !in (a + b)[..i]
  {
    idx := UniqKeepsFirsts(a + b);
  }

  /** Array#- keeps every element not excluded, each occurrence, in order, and drops the others. */
  lemma {:induction false} MinusKeepsOrder<T>(s: seq<T>, excluded: seq<T>) returns (idx: seq<nat>)
    ensures Picks(Minus(s, excluded), s, idx)
    ensures forall i | 0 <= i < |s| :: i in idx <==> s[i] !in excluded
  {
    if |s| == 0 {
      idx := [];
    } else {
      var idx0 := MinusKeepsOrder(s[1..], excluded);
      PicksCons(Minus(s[1..], excluded), s, idx0);
      idx := if s[0] in excluded then Shift(idx0) else [0] + Shift(idx0);
      forall i | 0 < i < |s| ensures i in idx <==> s[i] !in excluded {
        assert s[1..][i - 1] == s[i];
      }
    }
  }

  // ------------------------------------------------------------ Array#partition

  /** The elements satisfying `p`, in order. */
  function Filter<T>(s: seq<T>, p: T -> bool): (r: seq<T>)
    ensures forall x :: x in r ==> x in s && p(x)
    ensures forall x :: x in s && p(x) ==> x in r
  {
    if |s| == 0 then []
    else if p(s[0]) then [s[0]] + Filter(s[1..], p)
    else Filter(s[1..], p)
  }

  /** The elements not satisfying `p`, in order. */
  function FilterOut<T>(s: seq<T>, p: T -> bool): (r: seq<T>)
    ensures forall x :: x in r ==> x in s && !p(x)
    ensures forall x :: x in s && !p(x) ==> x in r
  {
    if |s| == 0 then []
    else if p(s[0]) then FilterOut(s[1..], p)
    else [s[0]] + FilterOut(s[1..], p)
  }

  /** Filtering keeps the elements satisfying `p`, each occurrence, in order, and drops the others. */
  lemma {:induction false} FilterKeepsOrder<T>(s: seq<T>, p: T -> bool) returns (idx: seq<nat>)
    ensures Picks(Filter(s, p), s, idx)
    ensures forall i | 0 <= i < |s| :: i in idx <==> p(s[i])
  {
    if |s| == 0 {
      idx := [];
    } else {
      var idx0 := FilterKeepsOrder(s[1..], p);
      PicksCons(Filter(s[1..], p), s, idx0);
      idx := if p(s[0]) then [0] + Shift(idx0) else Shift(idx0);
      forall i | 0 < i < |s| ensures i in idx <==> p(s[i]) {
        assert s[1..][i - 1] == s[i];
      }
    }
  }

  /** The rejected half keeps the elements not satisfying `p`, each occurrence, in order. */
  lemma {:induction false} FilterOutKeepsOrder<T>(s: seq<T>, p: T -> bool) returns (idx: seq<nat>)
    ensures Picks(FilterOut(s, p), s, idx)
    ensures forall i | 0 <= i < |s| :: i in idx <==> !p(s[i])
  {
    if |s| == 0 {
      idx := [];
    } else {
      var idx0 := FilterOutKeepsOrder(s[1..], p);
      PicksCons(FilterOut(s[1..], p), s, idx0);
      idx := if p(s[0]) then Shift(idx0) else [0] + Shift(idx0);
      forall i | 0 < i < |s| ensures i in idx <==> !p(s[i]) {
        assert s[1..][i - 1] == s[i];
      }
    }
  }

  /** Array#partition, in one pass: the selected elements and the rejected ones, each in order. */
  function Partition<T>(s: seq<T>, p: T -> bool): (r: (seq<T>, seq<T>))
    ensures r.0 == Filter(s, p) && r.1 == FilterOut(s, p)
  {
    if |s| == 0 then ([], [])
    else
      var rest := Partition(s[1..], p);
      if p(s[0]) then ([s[0]] + rest.0, rest.1) else (rest.0, [s[0]] + rest.1)
  }

  /** The two halves of a partition hold exactly the elements of the input, counted with multiplicity. */
  lemma {:induction false} PartitionIsPermutation<T>(s: seq<T>, p: T -> bool)
    ensures multiset(Filter(s, p)) + multiset(FilterOut(s, p)) == multiset(s)
  {
    if |s| > 0 {
      PartitionIsPermutation(s[1..], p);
      assert s == [s[0]] + s[1..];
    }
  }

  /** Filtering keeps a duplicate-free sequence duplicate-free. */
  lemma {:induction false} FilterNoDup<T>(s: seq<T>, p: T -> bool)
    requires NoDup(s)
    ensures NoDup(Filter(s, p)) && NoDup(FilterOut(s, p))
  {
    if |s| > 0 {
      assert NoDup(s[1..]) by {
        forall i, j | 0 <= i < j < |s[1..]| ensures s[1..][i] != s[1..][j] {
          assert s[1..][i] == s[i + 1] && s[1..][j] == s[j + 1];
        }
      }
      FilterNoDup(s[1..], p);
      assert s[0] !in s[1..] by {
        forall k | 0 <= k < |s[1..]| ensures s[1..][k] != s[0] {
          assert s[1..][k] == s[k + 1];
        }
      }
    }
  }

  // ------------------------------------------------------------ String#<=>

  /** String#<=> returns -1: lexicographic order on characters, a proper prefix first. */
  predicate Below(a: string, b: string)
    decreases |a|
  {
    if |a| == 0 then |b| > 0
    else if |b| == 0 then false
    else if a[0] == b[0] then Below(a[1..], b[1..])
    else a[0] < b[0]
  }

  /** `a` sorts no later than `b`. */
  predicate AtMost(a: string, b: string) {
    a == b || Below(a, b)
  }

  lemma {:induction false} BelowIrreflexive(a: string)
    ensures !Below(a, a)
    decreases |a|
  {
    if |a| > 0 {
      BelowIrreflexive(a[1..]);
    }
  }

  lemma {:induction false} BelowTransitive(a: string, b: string, c: string)
    requires Below(a, b) && Below(b, c)
    ensures Below(a, c)
    decreases |a|
  {
    if |a| > 0 && |b| > 0 && |c| > 0 && a[0] == b[0] && b[0] == c[0] {
      BelowTransitive(a[1..], b[1..], c[1..]);
    }
  }

  /** Two different strings are always ordered one way or the other. */
  lemma {:induction false} BelowTotal(a: string, b: string)
    requires a != b
    ensures Below(a, b) || Below(b, a)
    decreases |a|
  {
    if |a| > 0 && |b| > 0 && a[0] == b[0] {
      assert a == [a[0]] + a[1..] && b == [b[0]] + b[1..];
      BelowTotal(a[1..], b[1..]);
    }
  }

  lemma BelowAsymmetric(a: string, b: string)
    requires Below(a, b)
    ensures !Below(b, a)
  {
    if Below(b, a) {
      BelowTransitive(a, b, a);
      BelowIrreflexive(a);
    }
  }

  lemma AtMostTransitive(a: string, b: string, c: string)
    requires AtMost(a, b) && AtMost(b, c)
    ensures AtMost(a, c)
  {
    if a != b && b != c {
      BelowTransitive(a, b, c);
    }
  }

  lemma AtMostTotal(a: string, b: string)
    ensures AtMost(a, b) || AtMost(b, a)
  {
    if a != b {
      BelowTotal(a, b);
    }
  }

  // ------------------------------------------------------------ Array#sort

  /** Ascending, ties allowed. */
  predicate Sorted(s: seq<string>) {
    forall i, j :: 0 <= i < j < |s| ==> AtMost(s[i], s[j])
  }

  /** Strictly ascending. */
  predicate Ascending(s: seq<string>) {
    forall i, j :: 0 <= i < j < |s| ==> Below(s[i], s[j])
  }

  /** `x` inserted into a sorted sequence before the first element it does not follow. */
  function Insert(s: seq<string>, x: string): (r: seq<string>)
    requires Sorted(s)
    ensures Sorted(r)
    ensures multiset(r) == multiset(s) + multiset{x}
    ensures |r| == |s| + 1
  {
    if |s| == 0 then [x]
    else if AtMost(x, s[0]) then
      InsertFirst(s, x);
      [x] + s
    else
      var rest := Insert(s[1..], x);
      InsertLater(s, x, rest);
      [s[0]] + rest
  }

  lemma InsertFirst(s: seq<string>, x: string)
    requires Sorted(s) && |s| > 0 && AtMost(x, s[0])
    ensures Sorted([x] + s)
  {
    forall j | 0 <= j < |s| ensures AtMost(x, s[j]) {
      if j > 0 { AtMostTransitive(x, s[0], s[j]); }
    }
    SortedCons(x, s);
  }

  lemma InsertLater(s: seq<string>, x: string, rest: seq<string>)
    requires Sorted(s) && |s| > 0 && !AtMost(x, s[0])
    requires Sorted(rest) && multiset(rest) == multiset(s[1..]) + multiset{x}
    ensures Sorted([s[0]] + rest)
    ensures multiset([s[0]] + rest) == multiset(s) + multiset{x}
  {
    AtMostTotal(x, s[0]);
    assert s == [s[0]] + s[1..];
    forall j | 0 <= j < |rest| ensures AtMost(s[0], rest[j]) {
      assert rest[j] in multiset(rest);
    }
    SortedCons(s[0], rest);
  }

  /** A sorted sequence stays sorted behind an element that is at most all of it. */
  lemma SortedCons(x: string, s: seq<string>)
    requires Sorted(s)
    requires forall j | 0 <= j < |s| :: AtMost(x, s[j])
    ensures Sorted([x] + s)
  {
    var r := [x] + s;
    forall i, j | 0 <= i < j < |r| ensures AtMost(r[i], r[j]) {
      if i > 0 { assert r[i] == s[i - 1] && r[j] == s[j - 1]; }
      else { assert r[j] == s[j - 1]; }
    }
  }

  /** Array#sort on strings. */
  function Sort(s: seq<string>): (r: seq<string>)
    ensures Sorted(r)
    ensures multiset(r) == multiset(s)
    ensures |r| == |s|
  {
    if |s| == 0 then []
    else
      assert s == [s[0]] + s[1..];
      Insert(Sort(s[1..]), s[0])
  }

  /** Array#sort! on an already sorted array changes nothing. */
  lemma {:induction false} SortOfSorted(s: seq<string>)
    requires Sorted(s)
    ensures Sort(s) == s
  {
    if |s| > 0 {
      SortOfSorted(s[1..]);
      if |s| > 1 {
        assert AtMost(s[0], s[1]);
      }
      assert [s[0]] + s[1..] == s;
    }
  }

  /** Sorting is idempotent, which is why sorting an aliased array twice does no harm. */
  lemma SortIdempotent(s: seq<string>)
    ensures Sort(Sort(s)) == Sort(s)
  {
    SortOfSorted(Sort(s));
  }

  /** Array#uniq keeps a sorted sequence sorted. */
  lemma {:induction false} UniqOfSorted(s: seq<string>)
    requires Sorted(s)
    ensures Sorted(Uniq(s))
    decreases |s|
  {
    if |s| > 0 {
      var init := s[..|s| - 1];
      var last := s[|s| - 1];
      UniqOfSorted(init);
      var u := Uniq(init);
      if last !in u {
        forall i | 0 <= i < |u| ensures AtMost(u[i], last) {
          assert u[i] in init;
          var k :| 0 <= k < |init| && init[k] == u[i];
          assert s[k] == u[i];
        }
      }
    }
  }

  /** `.sort.uniq`: the distinct elements of the input in strictly ascending order. */
  function SortedDistinct(s: seq<string>): (r: seq<string>)
    ensures forall x :: x in r <==> x in s
  {
    var sorted := Sort(s);
    assert forall x :: x in sorted <==> x in s by {
      forall x ensures x in sorted <==> x in s {
        assert x in sorted <==> x in multiset(sorted);
        assert x in s <==> x in multiset(s);
      }
    }
    Uniq(sorted)
  }

  lemma SortedDistinctAscends(s: seq<string>)
    ensures Ascending(SortedDistinct(s))
  {
    var r := SortedDistinct(s);
    UniqOfSorted(Sort(s));
    forall i, j | 0 <= i < j < |r| ensures Below(r[i], r[j]) {
      assert AtMost(r[i], r[j]);
      assert r[i] != r[j];
    }
  }

  /** The first element of a strictly ascending sequence is below every later one. */
  lemma AscendingHeadLeast(s: seq<string>, x: string)
    requires Ascending(s) && x in s && x != s[0]
    ensures Below(s[0], x)
  {
    var k :| 0 <= k < |s| && s[k] == x;
  }

  /** Two strictly ascending sequences with the same elements start with the same element. */
  lemma AscendingSameHead(s: seq<string>, t: seq<string>)
    requires Ascending(s) && Ascending(t) && s != [] && t != []
    requires forall x :: x in s <==> x in t
    ensures s[0] == t[0]
  {
    assert s[0] in t && t[0] in s;
    if s[0] != t[0] {
      AscendingHeadLeast(s, t[0]);
      AscendingHeadLeast(t, s[0]);
      BelowAsymmetric(s[0], t[0]);
    }
  }

  /** Dropping the common least element leaves the same elements on both sides. */
  lemma AscendingSameTail(s: seq<string>, t: seq<string>)
    requires Ascending(s) && Ascending(t) && s != [] && t != [] && s[0] == t[0]
    requires forall x :: x in s <==> x in t
    ensures forall x :: x in s[1..] <==> x in t[1..]
  {
    forall x ensures x in s[1..] <==> x in t[1..] {
      if x in s[1..] {
        TailMember(s, t, x);
      }
      if x in t[1..] {
        TailMember(t, s, x);
      }
    }
  }

  /** Sequences with the same elements are empty together. */
  lemma SameElementsEmpty<T>(s: seq<T>, t: seq<T>)
    requires forall x :: x in s <==> x in t
    ensures s == [] <==> t == []
  {
    if s != [] { assert s[0] in s; }
    if t != [] { assert t[0] in t; }
  }

  lemma TailMember(s: seq<string>, t: seq<string>, x: string)
    requires Ascending(s) && s != [] && t != [] && s[0] == t[0]
    requires forall y :: y in s <==> y in t
    requires x in s[1..]
    ensures x in t[1..]
  {
    var k :| 0 <= k < |s[1..]| && s[1..][k] == x;
    assert Below(s[0], s[k + 1]);
    BelowIrreflexive(s[0]);
    assert x in t && x != t[0];
    var m :| 0 <= m < |t| && t[m] == x;
    assert t[1..][m - 1] == x;
  }

  /** Two strictly ascending sequences with the same elements are the same sequence. */
  lemma {:induction false} AscendingDetermined(s: seq<string>, t: seq<string>)
    requires Ascending(s) && Ascending(t)
    requires forall x :: x in s <==> x in t
    ensures s == t
    decreases |s|
  {
    SameElementsEmpty(s, t);
    if s != [] {
      AscendingSameHead(s, t);
      AscendingSameTail(s, t);
      AscendingDetermined(s[1..], t[1..]);
      assert s == [s[0]] + s[1..] == [t[0]] + t[1..] == t;
    }
  }

  /** `.sort.uniq` is the one strictly ascending listing of the input's elements. */
  lemma SortedDistinctIs(s: seq<string>, t: seq<string>)
    requires Ascending(t)
    requires forall x :: x in t <==> x in s
    ensures SortedDistinct(s) == t
  {
    SortedDistinctAscends(s);
    AscendingDetermined(SortedDistinct(s), t);
  }

  // ---------------------------------------------------- String#index, String#sub

  /** `sub` occurs in `s` starting at `j`. */
  predicate OccursAt(s: string, sub: string, j: nat) {
    j + |sub| <= |s| && s[j..j + |sub|] == sub
  }

  /** `s` starts with `pre`. */
  predicate StartsWith(s: string, pre: string) {
    |pre| <= |s| && s[..|pre|] == pre
  }

  /** The first position at or after `k` where `sub` occurs in `s`, if any. */
  function IndexFrom(s: string, sub: string, k: nat): (r: Option<nat>)
    ensures r.Some? ==> k <= r.value && OccursAt(s, sub, r.value)
    ensures r.Some? ==> forall j: nat | k <= j < r.value :: !OccursAt(s, sub, j)
    ensures r.None? ==> forall j: nat | k <= j :: !OccursAt(s, sub, j)
    decreases |s| - k
  {
    if k + |sub| > |s| then None
    else if OccursAt(s, sub, k) then Some(k)
    else IndexFrom(s, sub, k + 1)
  }

  /** String#index with a string argument: the first position where `sub` occurs, or nil. */
  function IndexOf(s: string, sub: string): (r: Option<nat>)
    ensures r.Some? ==> OccursAt(s, sub, r.value)
    ensures r.Some? ==> forall j: nat | j < r.value :: !OccursAt(s, sub, j)
    ensures r.None? ==> forall j: nat :: !OccursAt(s, sub, j)
  {
    IndexFrom(s, sub, 0)
  }

  /** `path.index(prefix) == 0`, the test the classpath partition uses, means "starts with". */
  lemma IndexZeroIsPrefix(s: string, pre: string)
    ensures IndexOf(s, pre) == Some(0) <==> StartsWith(s, pre)
  {
    if IndexOf(s, pre) == Some(0) {
      assert OccursAt(s, pre, 0);
    }
  }

  /**
   * String#sub with a string pattern: the first occurrence of `pat` replaced by `rep`, taken
   * literally. Ruby also expands backslash sequences such as `\0` or `\\` in `rep`; this
   * model does not, so it agrees with Ruby on replacements without a backslash.
   */
  function Sub(s: string, pat: string, rep: string): (r: string)
  {
    match IndexOf(s, pat)
    case None => s
    case Some(i) => s[..i] + rep + s[i + |pat|..]
  }

  /** On a string that starts with the pattern, String#sub swaps that prefix for the replacement. */
  lemma SubOfPrefix(s: string, pat: string, rep: string)
    requires StartsWith(s, pat)
    ensures Sub(s, pat, rep) == rep + s[|pat|..]
  {
    IndexZeroIsPrefix(s, pat);
  }

  /** `s` contains `sub` (what a Regexp match on a plain word tests). */
  predicate Contains(s: string, sub: string) {
    IndexOf(s, sub).Some?
  }

  // ------------------------------------------------ Hash built by merge in a fold

  /** The keys of `xs`, in order. */
  function KeysOf<T, K>(xs: seq<T>, key: T -> K): (r: seq<K>)
    ensures |r| == |xs|
    ensures forall i | 0 <= i < |xs| :: r[i] == key(xs[i])
  {
    if |xs| == 0 then [] else KeysOf(xs[..|xs| - 1], key) + [key(xs[|xs| - 1])]
  }

  /** `xs.inject({}) { |h, x| h.merge(key(x) => x) }`: one element per key, a later one replacing an earlier. */
  function MergedBy<T, K>(xs: seq<T>, key: T -> K): map<K, T> {
    if |xs| == 0 then map[]
    else MergedBy(xs[..|xs| - 1], key)[key(xs[|xs| - 1]) := xs[|xs| - 1]]
  }

  /** The keys of the merged hash are exactly the keys of the elements. */
  lemma {:induction false} MergedByKeys<T, K>(xs: seq<T>, key: T -> K)
    ensures forall k :: k in MergedBy(xs, key) <==> k in KeysOf(xs, key)
    decreases |xs|
  {
    if |xs| > 0 {
      var init := xs[..|xs| - 1];
      MergedByKeys(init, key);
      assert KeysOf(xs, key) == KeysOf(init, key) + [key(xs[|xs| - 1])];
    }
  }

  /** The element kept under a key is the last element with that key. */
  lemma {:induction false} MergedByKeepsLast<T, K>(xs: seq<T>, key: T -> K, k: K) returns (i: nat)
    requires k in MergedBy(xs, key)
    ensures i < |xs| && xs[i] == MergedBy(xs, key)[k] && key(xs[i]) == k
    ensures forall j | i < j < |xs| :: key(xs[j]) != k
    decreases |xs|
  {
    var n := |xs| - 1;
    var init := xs[..n];
    assert MergedBy(xs, key) == MergedBy(init, key)[key(xs[n]) := xs[n]];
    if key(xs[n]) == k {
      i := n;
    } else {
      i := MergedByKeepsLast(init, key, k);
      assert xs[i] == init[i];
      forall j | i < j < |xs| ensures key(xs[j]) != k {
        if j < n {
          assert xs[j] == init[j];
        }
      }
    }
  }

  /**
   * `hs` is the merged hash's values in the order the hash yields them: keys in the order
   * they were first inserted, each holding the last element with that key.
   */
  ghost predicate Filed<T, K>(hs: seq<T>, xs: seq<T>, key: T -> K) {
    var u := Uniq(KeysOf(xs, key));
    var m := MergedBy(xs, key);
    |hs| == |u| && forall k | 0 <= k < |hs| :: key(hs[k]) == u[k] && u[k] in m && hs[k] == m[u[k]]
  }

  lemma MergeByStep<T, K>(xs: seq<T>, key: T -> K, i: nat)
    requires i < |xs|
    ensures MergedBy(xs[..i + 1], key) == MergedBy(xs[..i], key)[key(xs[i]) := xs[i]]
    ensures Uniq(KeysOf(xs[..i + 1], key)) ==
              if key(xs[i]) in Uniq(KeysOf(xs[..i], key)) then Uniq(KeysOf(xs[..i], key))
              else Uniq(KeysOf(xs[..i], key)) + [key(xs[i])]
  {
    assert xs[..i + 1][..i] == xs[..i];
    assert KeysOf(xs[..i + 1], key) == KeysOf(xs[..i], key) + [key(xs[i])];
  }

  /** Merging an element whose key is already present replaces that key's value in place. */
  lemma FiledReplace<T, K>(hs: seq<T>, xs: seq<T>, key: T -> K, i: nat, k: nat)
    requires i < |xs| && Filed(hs, xs[..i], key)
    requires k < |hs| && key(hs[k]) == key(xs[i])
    ensures Filed(hs[k := xs[i]], xs[..i + 1], key)
  {
    MergeByStep(xs, key, i);
    var u := Uniq(KeysOf(xs[..i], key));
    var m' := MergedBy(xs[..i + 1], key);
    var h := hs[k := xs[i]];
    assert u[k] == key(xs[i]);
    assert Uniq(KeysOf(xs[..i + 1], key)) == u;
    forall k' | 0 <= k' < |h| ensures key(h[k']) == u[k'] && u[k'] in m' && h[k'] == m'[u[k']] {
      if k' != k {
        assert u[k'] != u[k];
      }
    }
  }

  /** Merging an element with a new key appends it. */
  lemma FiledAppend<T, K>(hs: seq<T>, xs: seq<T>, key: T -> K, i: nat)
    requires i < |xs| && Filed(hs, xs[..i], key)
    requires forall k | 0 <= k < |hs| :: key(hs[k]) != key(xs[i])
    ensures Filed(hs + [xs[i]], xs[..i + 1], key)
  {
    MergeByStep(xs, key, i);
    var u := Uniq(KeysOf(xs[..i], key));
    var m' := MergedBy(xs[..i + 1], key);
    var h := hs + [xs[i]];
    assert key(xs[i]) !in u;
    var u' := u + [key(xs[i])];
    assert Uniq(KeysOf(xs[..i + 1], key)) == u';
    forall k' | 0 <= k' < |h| ensures key(h[k']) == u'[k'] && u'[k'] in m' && h[k'] == m'[u'[k']] {
      if k' < |hs| {
        assert u'[k'] == u[k'] != key(xs[i]);
      }
    }
  }
}
