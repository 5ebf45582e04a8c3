/** Merge sort in place, and the one sequence it can result in. */
module MergeSort {

  /** What a template argument's operator< has to satisfy. */
  ghost predicate WeakOrder<T(!new)>(lt: (T, T) -> bool) {
    && (forall x, y :: lt(x, y) ==> !lt(y, x))
    && (forall x, y, z :: !lt(x, y) && !lt(y, z) ==> !lt(x, z))
  }

  /** On ties the element of the right run goes first. */
  function Merged<T>(s: seq<T>, t: seq<T>, lt: (T, T) -> bool): (r: seq<T>)
    ensures |r| == |s| + |t|
  {
    if s == [] then t
    else if t == [] then s
    else if lt(s[0], t[0]) then [s[0]] + Merged(s[1..], t, lt)
    else [t[0]] + Merged(s, t[1..], lt)
  }

  function Sorting<T>(s: seq<T>, lt: (T, T) -> bool): (r: seq<T>)
    ensures |r| == |s|
  {
    if |s| <= 1 then s
    else
      var h := (|s| + 1) / 2;
      Merged(Sorting(s[..h], lt), Sorting(s[h..], lt), lt)
  }

  /** The sequence a with the elements from l on replaced by s. */
  function Splice<T>(a: seq<T>, l: nat, s: seq<T>): (r: seq<T>)
    requires l + |s| <= |a|
    ensures |r| == |a|
  {
    a[..l] + s + a[l + |s|..]
  }

  // ----- The algorithm -----

  /** memcpy between two arrays. */
  method Copy<T>(dst: array<T>, d: nat, src: array<T>, s: nat, n: nat)
    requires dst != src && d + n <= dst.Length && s + n <= src.Length
    modifies dst
    ensures dst[..] == Splice(old(dst[..]), d, src[s..s + n])
  {
    for i := 0 to n
      invariant dst[d..d + i] == src[s..s + i]
      invariant forall x :: 0 <= x < d || d + i <= x < dst.Length ==> dst[x] == old(dst[x])
    {
      dst[d + i] := src[s + i];
    }
  }

  /** One round of merging moves the head of one run. */
  lemma MergedStep<T>(s: seq<T>, t: seq<T>, p: nat, q: nat, lt: (T, T) -> bool, goal: seq<T>, k: nat)
    requires p < |s| && q < |t| && k < |goal|
    requires goal[k..] == Merged(s[p..], t[q..], lt)
    ensures
      if lt(s[p], t[q])
      then goal[k] == s[p] && goal[k + 1..] == Merged(s[p + 1..], t[q..], lt)
      else goal[k] == t[q] && goal[k + 1..] == Merged(s[p..], t[q + 1..], lt)
  {
    assert s[p..][1..] == s[p + 1..] && t[q..][1..] == t[q + 1..];
    assert goal[k..][0] == goal[k] && goal[k..][1..] == goal[k + 1..];
  }

  /** The two remainders are copied over, and at most one of them is not empty. */
  lemma {:induction false} MergedRest<T>(tmp: seq<T>, goal: seq<T>, k: nat, s: seq<T>, t: seq<T>, lt: (T, T) -> bool)
    requires |tmp| == |goal| == k + |s| + |t| && forall x :: 0 <= x < k ==> tmp[x] == goal[x]
    requires goal[k..] == Merged(s, t, lt) && (s == [] || t == [])
    ensures Splice(Splice(tmp, k, s), k + |s|, t) == goal
  {
    assert tmp[..k] == goal[..k] && goal == goal[..k] + goal[k..];
  }

  /** The loop of merge: fills tmp until one of the runs s and t is used up. */
  method MergeRuns<T>(a: array<T>, l: nat, m: nat, r: nat, lt: (T, T) -> bool, tmp: array<T>, ghost c: seq<T>)
    returns (i: nat, j: nat, k: nat)
    requires l <= m < r < a.Length && tmp.Length == r - l + 1 && a != tmp && c == a[..]
    modifies tmp
    ensures l <= i <= m + 1 <= j <= r + 1 && k == (i - l) + (j - m - 1)
    ensures i == m + 1 || j == r + 1
    ensures
      var goal := Merged(c[l..m + 1], c[m + 1..r + 1], lt);
      && goal[k..] == Merged(c[l..m + 1][i - l..], c[m + 1..r + 1][j - m - 1..], lt)
      && forall x :: 0 <= x < k ==> tmp[x] == goal[x]
  {
    hide Merged;
    ghost var s, t := c[l..m + 1], c[m + 1..r + 1];
    ghost var goal := Merged(s, t, lt);
    i, j, k := l, m + 1, 0;
    while i <= m && j <= r
      invariant l <= i <= m + 1 <= j <= r + 1 && k == (i - l) + (j - m - 1)
      invariant forall x :: 0 <= x < k ==> tmp[x] == goal[x]
      invariant goal[k..] == Merged(s[i - l..], t[j - m - 1..], lt)
    {
      MergedStep(s, t, i - l, j - m - 1, lt, goal, k);
      ghost var x, y := s[i - l], t[j - m - 1];
      assert a[i] == x && a[j] == y by {
        assert a[..][i] == c[i] && a[..][j] == c[j];
      }
      if lt(a[i], a[j]) {
        tmp[k] := a[i];
        i := i + 1;
      } else {
        tmp[k] := a[j];
        j := j + 1;
      }
      k := k + 1;
    }
  }

  /** The two copies after the loop of merge: what is left of either run. */
  method CopyRests<T>(a: array<T>, i: nat, p: nat, j: nat, q: nat, tmp: array<T>, k: nat)
    requires a != tmp && i + p <= a.Length && j + q <= a.Length && k + p + q <= tmp.Length
    modifies tmp
    ensures tmp[..] == Splice(Splice(old(tmp[..]), k, a[i..i + p]), k + p, a[j..j + q])
  {
    ghost var t := tmp[..];
    if p != 0 {
      Copy(tmp, k, a, i, p);
    }
    assert tmp[..] == Splice(t, k, a[i..i + p]);
    ghost var u := tmp[..];
    if q != 0 {
      Copy(tmp, k + p, a, j, q);
    }
    assert tmp[..] == Splice(u, k + p, a[j..j + q]);
  }

  method Merge<T(0)>(a: array<T>, l: nat, m: nat, r: nat, lt: (T, T) -> bool)
    requires l <= m < r < a.Length
    modifies a
    ensures a[..] == Splice(old(a[..]), l, Merged(old(a[..])[l..m + 1], old(a[..])[m + 1..r + 1], lt))
  {
    hide Merged, Splice;
    ghost var c := a[..];
    var tmp := new T[r - l + 1];
    var i, j, k := MergeRuns(a, l, m, r, lt, tmp, c);
    ghost var goal := Merged(c[l..m + 1], c[m + 1..r + 1], lt);
    ghost var s, t := c[l..m + 1][i - l..], c[m + 1..r + 1][j - m - 1..];
    MergedRest(tmp[..], goal, k, s, t, lt);
    assert a[i..i + (m - i + 1)] == s && a[j..j + (r - j + 1)] == t;
    CopyRests(a, i, m - i + 1, j, r - j + 1, tmp, k);
    assert tmp[0..0 + tmp.Length] == goal;
    Copy(a, l, tmp, 0, tmp.Length);
  }

  lemma SpliceHalves<T>(a: seq<T>, l: nat, m: nat, r: nat, s: seq<T>, t: seq<T>, u: seq<T>)
    requires l <= m < r < |a| && |s| == m + 1 - l && |t| == r - m && |u| == r + 1 - l
    ensures
      var a1 := Splice(a, l, s);
      var a2 := Splice(a1, m + 1, t);
      && a1[m + 1..r + 1] == a[m + 1..r + 1]
      && a2[l..m + 1] == s && a2[m + 1..r + 1] == t
      && Splice(a2, l, u) == Splice(a, l, u)
  {
  }

  lemma SortingSplit<T>(a: seq<T>, l: nat, m: nat, r: nat, lt: (T, T) -> bool)
    requires l < r < |a| && m == (l + r) / 2
    ensures Sorting(a[l..r + 1], lt) == Merged(Sorting(a[l..m + 1], lt), Sorting(a[m + 1..r + 1], lt), lt)
  {
    hide Merged;
    var s, h := a[l..r + 1], m + 1 - l;
    assert h == (|s| + 1) / 2;
    assert s[..h] == a[l..m + 1] && s[h..] == a[m + 1..r + 1];
  }

  /** Sorting both halves of a range in place and merging them sorts the range. */
  lemma SortingInPlace<T>(a: seq<T>, l: nat, m: nat, r: nat, lt: (T, T) -> bool, a1: seq<T>, a2: seq<T>)
    requires l < r < |a| && m == (l + r) / 2
    requires a1 == Splice(a, l, Sorting(a[l..m + 1], lt))
    requires a2 == Splice(a1, m + 1, Sorting(a1[m + 1..r + 1], lt))
    ensures Splice(a2, l, Merged(a2[l..m + 1], a2[m + 1..r + 1], lt)) == Splice(a, l, Sorting(a[l..r + 1], lt))
  {
    hide *;
    SortingSplit(a, l, m, r, lt);
    SpliceHalves(a, l, m, r, Sorting(a[l..m + 1], lt), Sorting(a[m + 1..r + 1], lt), Sorting(a[l..r + 1], lt));
  }

  lemma SortingOne<T>(a: seq<T>, l: nat, lt: (T, T) -> bool)
    requires l < |a|
    ensures Splice(a, l, Sorting(a[l..l + 1], lt)) == a
  {
  }

  method Mergesort<T(0)>(a: array<T>, l: nat, r: int, lt: (T, T) -> bool)
    requires -1 <= r < a.Length
    modifies a
    ensures a[..] == if l <= r then Splice(old(a[..]), l, Sorting(old(a[..])[l..r + 1], lt)) else old(a[..])
    decreases r + 1 - l
  {
    hide *;
    if l < r {
      var m := (l + r) / 2;
      ghost var a0 := a[..];
      Mergesort(a, l, m, lt);
      ghost var a1 := a[..];
      Mergesort(a, m + 1, r, lt);
      SortingInPlace(a0, l, m, r, lt, a1, a[..]);
      Merge(a, l, m, r, lt);
    } else if l == r {
      SortingOne(a[..], l, lt);
    }
  }
}
