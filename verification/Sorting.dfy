/** Go's sort and slices packages, as far as the program uses them. */
module Sorting {
  import opened Text

  method SortedDescending(keys: set<int>) returns (r: seq<int>)
    ensures forall k :: k in keys <==> k in r
    ensures forall i, j :: 0 <= i < j < |r| ==> r[i] > r[j]
  {
    r := [];
    var rest := keys;
    while rest != {}
      invariant rest <= keys
      invariant forall k :: k in keys <==> k in rest || k in r
      invariant forall i :: 0 <= i < |r| ==> forall k :: k in rest ==> r[i] < k
      invariant forall i, j :: 0 <= i < j < |r| ==> r[i] > r[j]
      decreases rest
    {
      HasLeast(rest);
      var least :| least in rest && forall k :: k in rest ==> least <= k;
      r := [least] + r;
      rest := rest - {least};
    }
  }

  lemma {:induction false} LeastOf(keys: set<int>) returns (least: int)
    requires keys != {}
    ensures least in keys && forall k :: k in keys ==> least <= k
  {
    least := Member(keys);
    var rest := keys - {least};
    assert forall k :: k in keys ==> k == least || k in rest;
    if rest != {} {
      var a := LeastOf(rest);
      least := if a < least then a else least;
    }
  }

  lemma HasLeast(keys: set<int>)
    requires keys != {}
    ensures exists least :: least in keys && forall k :: k in keys ==> least <= k
  {
    var least := LeastOf(keys);
  }

  lemma Member<T>(keys: set<T>) returns (b: T)
    requires keys != {}
    ensures b in keys
  {
    b :| b in keys;
  }

  // ---- sort.Slice: some sorted permutation, ties in no particular order ----

  ghost predicate TotalPreorder<T(!new)>(le: (T, T) -> bool) {
    && (forall a, b :: le(a, b) || le(b, a))
    && forall a, b, c :: le(a, b) && le(b, c) ==> le(a, c)
  }

  ghost predicate SortedBy<T>(le: (T, T) -> bool, xs: seq<T>) {
    forall i, j :: 0 <= i < j < |xs| ==> le(xs[i], xs[j])
  }

  method SortSlice<T(!new)>(xs: seq<T>, le: (T, T) -> bool) returns (r: seq<T>)
    requires TotalPreorder(le)
    ensures multiset(r) == multiset(xs) && SortedBy(le, r)
  {
    r := [];
    for i := 0 to |xs|
      invariant multiset(r) == multiset(xs[..i]) && SortedBy(le, r)
    {
      assert xs[..i + 1] == xs[..i] + [xs[i]];
      r := InsertSlice(r, xs[i], le);
    }
    assert xs[..|xs|] == xs;
  }

  method InsertSlice<T(!new)>(xs: seq<T>, x: T, le: (T, T) -> bool) returns (r: seq<T>)
    requires TotalPreorder(le) && SortedBy(le, xs)
    ensures multiset(r) == multiset(xs) + multiset{x} && SortedBy(le, r)
  {
    var k := 0;
    while k < |xs| && le(xs[k], x)
      invariant 0 <= k <= |xs|
      invariant forall j :: 0 <= j < k ==> le(xs[j], x)
    {
      k := k + 1;
    }
    InsertKeepsSorted(le, xs, k, x);
    assert xs == xs[..k] + xs[k..];
    r := xs[..k] + [x] + xs[k..];
  }

  lemma InsertKeepsSorted<T(!new)>(le: (T, T) -> bool, xs: seq<T>, k: nat, x: T)
    requires TotalPreorder(le) && SortedBy(le, xs) && k <= |xs|
    requires forall j :: 0 <= j < k ==> le(xs[j], x)
    requires k < |xs| ==> !le(xs[k], x)
    ensures SortedBy(le, xs[..k] + [x] + xs[k..])
  {
    forall j | k <= j < |xs| ensures le(x, xs[j]) {
      assert le(x, xs[k]);
      assert j > k ==> le(xs[k], xs[j]);
    }
  }

  /** A permutation has the same members. */
  lemma SameMembers<T>(xs: seq<T>, ys: seq<T>)
    requires multiset(xs) == multiset(ys)
    ensures forall x :: x in xs <==> x in ys
  {
    forall x ensures x in xs <==> x in ys {
      assert x in xs <==> x in multiset(xs);
      assert x in ys <==> x in multiset(ys);
    }
  }

  /** A permutation of distinct values is distinct. */
  lemma DistinctPermutation<T>(xs: seq<T>, ys: seq<T>, a: nat, b: nat)
    requires multiset(xs) == multiset(ys) && a < b < |ys|
    requires forall i, j :: 0 <= i < j < |xs| ==> xs[i] != xs[j]
    ensures ys[a] != ys[b]
  {
    if ys[a] == ys[b] {
      var y := ys[a];
      assert ys == ys[..a] + [y] + ys[a + 1..b] + [y] + ys[b + 1..];
      assert multiset(ys)[y] >= 2;
      OnceEach(xs, y);
    }
  }

  lemma {:induction false} OnceEach<T>(xs: seq<T>, y: T)
    requires forall i, j :: 0 <= i < j < |xs| ==> xs[i] != xs[j]
    ensures multiset(xs)[y] <= 1
  {
    if xs != [] {
      OnceEach(xs[1..], y);
      assert xs == [xs[0]] + xs[1..];
      if y == xs[0] {
        assert y !in xs[1..];
        assert y !in multiset(xs[1..]);
      }
    }
  }

  // ---- sort.Strings on distinct values ----

  ghost predicate Increasing(xs: seq<string>) {
    forall i, j :: 0 <= i < j < |xs| ==> Less(xs[i], xs[j])
  }

  method SortStrings(xs: seq<string>) returns (r: seq<string>)
    requires forall i, j :: 0 <= i < j < |xs| ==> xs[i] != xs[j]
    ensures Increasing(r)
    ensures forall s :: s in r <==> s in xs
  {
    AtMostOrdered();
    r := SortSlice(xs, AtMost);
    SameMembers(xs, r);
    StrictlySorted(xs, r);
  }

  lemma AtMostOrdered()
    ensures TotalPreorder(AtMost)
  {
    forall a, b ensures AtMost(a, b) || AtMost(b, a) {
      LessTotal(a, b);
    }
    forall a, b, c | AtMost(a, b) && AtMost(b, c) ensures AtMost(a, c) {
      if a != b && b != c {
        LessTransitive(a, b, c);
      }
    }
  }

  lemma StrictlySorted(list: seq<string>, sorted: seq<string>)
    requires forall a, b :: 0 <= a < b < |list| ==> list[a] != list[b]
    requires multiset(sorted) == multiset(list) && SortedBy(AtMost, sorted)
    ensures Increasing(sorted)
  {
    forall a, b | 0 <= a < b < |sorted| ensures sorted[a] != sorted[b] {
      DistinctPermutation(list, sorted, a, b);
    }
  }

  lemma {:induction false} IncreasingBySet(xs: seq<string>, ys: seq<string>)
    requires Increasing(xs) && Increasing(ys)
    requires forall s :: s in xs <==> s in ys
    ensures xs == ys
    decreases |xs|
  {
    EmptyTogether(xs, ys);
    if xs != [] {
      assert xs[0] in ys && ys[0] in xs;
      NotBoth(xs[0], ys[0]);
      assert xs[0] == ys[0];
      forall s ensures s in xs[1..] <==> s in ys[1..] {
        Heads(xs, s);
        Heads(ys, s);
      }
      IncreasingBySet(xs[1..], ys[1..]);
    }
  }

  lemma EmptyTogether(xs: seq<string>, ys: seq<string>)
    requires forall s :: s in xs <==> s in ys
    ensures xs == [] <==> ys == []
  {
    assert xs != [] ==> xs[0] in ys;
    assert ys != [] ==> ys[0] in xs;
  }

  lemma NotBoth(a: string, b: string)
    ensures !(Less(a, b) && Less(b, a))
  {
    if Less(a, b) {
      LessAsymmetric(a, b);
    }
  }

  lemma Heads(xs: seq<string>, s: string)
    requires Increasing(xs) && xs != []
    ensures s in xs[1..] <==> s in xs && s != xs[0]
  {
    if s in xs[1..] {
      var i :| 0 <= i < |xs[1..]| && xs[1..][i] == s;
      LessAsymmetric(xs[0], xs[i + 1]);
    }
    assert xs == [xs[0]] + xs[1..];
  }
}
