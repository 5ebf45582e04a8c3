/** What merge sort results in, without saying how: the ascending sequence in which equal
    elements stand in exactly the reverse of their original order. There is only one. */
module MergeSortOrder {
  import opened MergeSort

  ghost predicate Sorted<T>(s: seq<T>, lt: (T, T) -> bool) {
    forall i, j :: 0 <= i < j < |s| ==> !lt(s[j], s[i])
  }

  predicate Tie<T>(x: T, y: T, lt: (T, T) -> bool) {
    !lt(x, y) && !lt(y, x)
  }

  /** The elements of s that are equal to x as far as the order can tell, in their order in s. */
  function Ties<T>(s: seq<T>, x: T, lt: (T, T) -> bool): seq<T> {
    if s == [] then [] else (if Tie(s[0], x, lt) then [s[0]] else []) + Ties(s[1..], x, lt)
  }

  function Reverse<T>(s: seq<T>): seq<T> {
    if s == [] then [] else Reverse(s[1..]) + [s[0]]
  }

  lemma HeadAndTail<T>(s: seq<T>)
    requires s != []
    ensures multiset(s) == multiset{s[0]} + multiset(s[1..])
  {
    assert s == [s[0]] + s[1..];
  }

  lemma {:induction false} MergedPermutes<T>(s: seq<T>, t: seq<T>, lt: (T, T) -> bool)
    ensures multiset(Merged(s, t, lt)) == multiset(s) + multiset(t)
  {
    if s != [] && t != [] {
      var r := Merged(s, t, lt);
      HeadAndTail(r);
      if lt(s[0], t[0]) {
        HeadAndTail(s);
        assert r[1..] == Merged(s[1..], t, lt);
        MergedPermutes(s[1..], t, lt);
      } else {
        HeadAndTail(t);
        assert r[1..] == Merged(s, t[1..], lt);
        MergedPermutes(s, t[1..], lt);
      }
    }
  }

  lemma HalvesPermute<T>(s: seq<T>, h: nat)
    requires h <= |s|
    ensures multiset(s) == multiset(s[..h]) + multiset(s[h..])
  {
    assert s == s[..h] + s[h..];
  }

  /** The output is a permutation of the input. */
  lemma {:induction false} SortingPermutes<T>(s: seq<T>, lt: (T, T) -> bool)
    ensures multiset(Sorting(s, lt)) == multiset(s)
  {
    hide Merged;
    if |s| > 1 {
      var h := (|s| + 1) / 2;
      assert Sorting(s, lt) == Merged(Sorting(s[..h], lt), Sorting(s[h..], lt), lt);
      SortingPermutes(s[..h], lt);
      SortingPermutes(s[h..], lt);
      MergedPermutes(Sorting(s[..h], lt), Sorting(s[h..], lt), lt);
      HalvesPermute(s, h);
    }
  }

  /** No element of s precedes x. */
  ghost predicate AllFrom<T>(s: seq<T>, x: T, lt: (T, T) -> bool) {
    forall i :: 0 <= i < |s| ==> !lt(s[i], x)
  }

  lemma {:induction false} MergedAllFrom<T>(s: seq<T>, t: seq<T>, x: T, lt: (T, T) -> bool)
    requires AllFrom(s, x, lt) && AllFrom(t, x, lt)
    ensures AllFrom(Merged(s, t, lt), x, lt)
  {
    if s != [] && t != [] {
      if lt(s[0], t[0]) {
        MergedAllFrom(s[1..], t, x, lt);
      } else {
        MergedAllFrom(s, t[1..], x, lt);
      }
    }
  }

  lemma SortedCons<T>(x: T, s: seq<T>, lt: (T, T) -> bool)
    requires Sorted(s, lt) && AllFrom(s, x, lt)
    ensures Sorted([x] + s, lt)
  {
  }

  lemma {:induction false} MergedSorted<T(!new)>(s: seq<T>, t: seq<T>, lt: (T, T) -> bool)
    requires WeakOrder(lt) && Sorted(s, lt) && Sorted(t, lt)
    ensures Sorted(Merged(s, t, lt), lt)
  {
    if s != [] && t != [] {
      if lt(s[0], t[0]) {
        MergedSorted(s[1..], t, lt);
        MergedAllFrom(s[1..], t, s[0], lt);
        SortedCons(s[0], Merged(s[1..], t, lt), lt);
      } else {
        MergedSorted(s, t[1..], lt);
        MergedAllFrom(s, t[1..], t[0], lt);
        SortedCons(t[0], Merged(s, t[1..], lt), lt);
      }
    }
  }

  lemma {:induction false} SortingSorted<T(!new)>(s: seq<T>, lt: (T, T) -> bool)
    requires WeakOrder(lt)
    ensures Sorted(Sorting(s, lt), lt)
  {
    if |s| > 1 {
      var h := (|s| + 1) / 2;
      SortingSorted(s[..h], lt);
      SortingSorted(s[h..], lt);
      MergedSorted(Sorting(s[..h], lt), Sorting(s[h..], lt), lt);
    }
  }

  lemma {:induction false} TiesConcat<T>(s: seq<T>, t: seq<T>, x: T, lt: (T, T) -> bool)
    ensures Ties(s + t, x, lt) == Ties(s, x, lt) + Ties(t, x, lt)
  {
    if s == [] {
      assert s + t == t;
    } else {
      assert (s + t)[0] == s[0] && (s + t)[1..] == s[1..] + t;
      TiesConcat(s[1..], t, x, lt);
      var head := if Tie(s[0], x, lt) then [s[0]] else [];
      assert head + (Ties(s[1..], x, lt) + Ties(t, x, lt)) == (head + Ties(s[1..], x, lt)) + Ties(t, x, lt);
    }
  }

  lemma {:induction false} NoTiesAfter<T>(s: seq<T>, x: T, lt: (T, T) -> bool)
    requires forall i :: 0 <= i < |s| ==> lt(x, s[i])
    ensures Ties(s, x, lt) == []
  {
    if s != [] {
      NoTiesAfter(s[1..], x, lt);
    }
  }

  lemma TiesPush<T>(y: T, s: seq<T>, x: T, lt: (T, T) -> bool)
    ensures Ties([y] + s, x, lt) == (if Tie(y, x, lt) then [y] else []) + Ties(s, x, lt)
  {
    assert ([y] + s)[1..] == s;
  }

  /** If the left run's head goes first and ties with x, nothing in the right run does. */
  lemma NoTiesOnRight<T(!new)>(s: seq<T>, t: seq<T>, x: T, lt: (T, T) -> bool)
    requires WeakOrder(lt) && Sorted(t, lt) && s != [] && t != [] && lt(s[0], t[0]) && Tie(s[0], x, lt)
    ensures Ties(t, x, lt) == []
  {
    forall i | 0 <= i < |t|
      ensures lt(x, t[i])
    {
      assert i > 0 ==> !lt(t[i], t[0]);
    }
    NoTiesAfter(t, x, lt);
  }

  /** Among equal elements those of the right run come first. */
  lemma {:induction false} MergedTies<T(!new)>(s: seq<T>, t: seq<T>, x: T, lt: (T, T) -> bool)
    requires WeakOrder(lt) && Sorted(s, lt) && Sorted(t, lt)
    ensures Ties(Merged(s, t, lt), x, lt) == Ties(t, x, lt) + Ties(s, x, lt)
  {
    if s != [] && t != [] {
      if lt(s[0], t[0]) {
        assert Merged(s, t, lt) == [s[0]] + Merged(s[1..], t, lt);
        hide Merged;
        MergedTies(s[1..], t, x, lt);
        TiesPush(s[0], Merged(s[1..], t, lt), x, lt);
        if Tie(s[0], x, lt) {
          NoTiesOnRight(s, t, x, lt);
        }
      } else {
        assert Merged(s, t, lt) == [t[0]] + Merged(s, t[1..], lt);
        hide Merged;
        MergedTies(s, t[1..], x, lt);
        TiesPush(t[0], Merged(s, t[1..], lt), x, lt);
      }
    }
  }

  lemma {:induction false} ReverseConcat<T>(s: seq<T>, t: seq<T>)
    ensures Reverse(s + t) == Reverse(t) + Reverse(s)
  {
    if s == [] {
      assert s + t == t;
    } else {
      assert (s + t)[1..] == s[1..] + t;
      ReverseConcat(s[1..], t);
    }
  }

  lemma {:induction false} SortingReversesTies<T(!new)>(s: seq<T>, x: T, lt: (T, T) -> bool)
    requires WeakOrder(lt)
    ensures Ties(Sorting(s, lt), x, lt) == Reverse(Ties(s, x, lt))
  {
    hide Merged;
    if |s| == 1 {
      assert s[1..] == [];
    } else if |s| > 1 {
      var h := (|s| + 1) / 2;
      var left, right := Sorting(s[..h], lt), Sorting(s[h..], lt);
      SortingReversesTies(s[..h], x, lt);
      SortingReversesTies(s[h..], x, lt);
      SortingSorted(s[..h], lt);
      SortingSorted(s[h..], lt);
      MergedTies(left, right, x, lt);
      assert s[..h] + s[h..] == s;
      TiesConcat(s[..h], s[h..], x, lt);
      ReverseConcat(Ties(s[..h], x, lt), Ties(s[h..], x, lt));
    }
  }

  lemma {:induction false} TieInTies<T>(s: seq<T>, x: T, lt: (T, T) -> bool, y: T)
    ensures y in Ties(s, x, lt) <==> y in s && Tie(y, x, lt)
  {
    if s != [] {
      TieInTies(s[1..], x, lt, y);
      assert y in s <==> y == s[0] || y in s[1..];
    }
  }

  lemma FirstTie<T>(s: seq<T>, x: T, lt: (T, T) -> bool)
    requires s != [] && Tie(s[0], x, lt)
    ensures Ties(s, x, lt) != [] && Ties(s, x, lt)[0] == s[0]
  {
  }

  /** The first elements of two sorted sequences with the same ties are the same. */
  lemma {:induction false} SameFirst<T(!new)>(s: seq<T>, t: seq<T>, lt: (T, T) -> bool)
    requires WeakOrder(lt) && Sorted(s, lt) && Sorted(t, lt) && s != [] && t != []
    requires Ties(s, s[0], lt) == Ties(t, s[0], lt) && Ties(s, t[0], lt) == Ties(t, t[0], lt)
    ensures s[0] == t[0]
  {
    TieInTies(s, s[0], lt, s[0]);
    TieInTies(t, s[0], lt, s[0]);
    TieInTies(t, t[0], lt, t[0]);
    TieInTies(s, t[0], lt, t[0]);
    assert !lt(s[0], t[0]) && !lt(t[0], s[0]) && Tie(t[0], s[0], lt);
    FirstTie(s, s[0], lt);
    FirstTie(t, s[0], lt);
  }

  lemma EmptyByTies<T(!new)>(s: seq<T>, t: seq<T>, lt: (T, T) -> bool)
    requires WeakOrder(lt) && (s == [] || t == [])
    requires forall x :: Ties(s, x, lt) == Ties(t, x, lt)
    ensures s == t
  {
    var u := s + t;
    if u != [] {
      assert Tie(u[0], u[0], lt);
      assert u == s || u == t;
      FirstTie(u, u[0], lt);
    }
  }

  lemma {:induction false} SortedByTies<T(!new)>(s: seq<T>, t: seq<T>, lt: (T, T) -> bool)
    requires WeakOrder(lt) && Sorted(s, lt) && Sorted(t, lt)
    requires forall x :: Ties(s, x, lt) == Ties(t, x, lt)
    ensures s == t
  {
    if s == [] || t == [] {
      EmptyByTies(s, t, lt);
    } else {
      SameFirst(s, t, lt);
      forall x
        ensures Ties(s[1..], x, lt) == Ties(t[1..], x, lt)
      {
        var head := if Tie(s[0], x, lt) then [s[0]] else [];
        assert Ties(s, x, lt) == head + Ties(s[1..], x, lt) && Ties(t, x, lt) == head + Ties(t[1..], x, lt);
        assert Ties(s[1..], x, lt) == Ties(s, x, lt)[|head|..];
      }
      SortedByTies(s[1..], t[1..], lt);
      assert s == [s[0]] + s[1..] && t == [t[0]] + t[1..];
    }
  }

  ghost predicate TiesReversed<T(!new)>(s: seq<T>, r: seq<T>, lt: (T, T) -> bool) {
    forall x :: Ties(r, x, lt) == Reverse(Ties(s, x, lt))
  }

  /** The output is determined: it is the one sorted sequence with all ties reversed. */
  lemma SortingIsTheOnly<T(!new)>(s: seq<T>, r: seq<T>, lt: (T, T) -> bool)
    requires WeakOrder(lt)
    ensures r == Sorting(s, lt) <==> Sorted(r, lt) && TiesReversed(s, r, lt)
  {
    SortingSorted(s, lt);
    forall x
      ensures Ties(Sorting(s, lt), x, lt) == Reverse(Ties(s, x, lt))
    {
      SortingReversesTies(s, x, lt);
    }
    if Sorted(r, lt) && TiesReversed(s, r, lt) {
      SortedByTies(r, Sorting(s, lt), lt);
    }
  }
}
