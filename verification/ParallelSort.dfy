/** Merge sort with a task for each half: a tree of tasks that share one array, any of which
    may make the next step. */
module ParallelSort {
  import opened MergeSort

  datatype Task<T> =
    | Call(l: nat, r: int)                                          // not begun
    | Spawned(l: nat, m: nat, r: int, left: Task<T>)                // first task created
    | Waiting(l: nat, m: nat, r: int, left: Task<T>, right: Task<T>)
    | Merging(l: nat, m: nat, r: int, i: nat, j: nat, tmp: seq<T>)
    | Writing(l: nat, r: int, tmp: seq<T>, k: nat)
    | Done(l: nat, r: int)

  /** Every task keeps to a part of its parent's range of an array of n elements. */
  ghost predicate Fits<T>(t: Task<T>, n: nat) {
    && t.l <= t.r + 1 <= n
    && match t
       case Spawned(l, m, r, left) => l < r && m == (l + r) / 2 && left.l == l && left.r == m && Fits(left, n)
       case Waiting(l, m, r, left, right) =>
         && l < r && m == (l + r) / 2 && left.l == l && left.r == m && right.l == m + 1 && right.r == r
         && Fits(left, n) && Fits(right, n)
       case Merging(l, m, r, i, j, tmp) =>
         l < r && m == (l + r) / 2 && l <= i <= m + 1 <= j <= r + 1 && |tmp| == (i - l) + (j - m - 1)
       case Writing(l, r, tmp, k) => l < r && |tmp| == r + 1 - l && k <= |tmp|
       case _ => true
  }

  /** Merging takes the next element of the left run: it is smaller, or the right run is used up. */
  predicate TakesLeft<T>(a: seq<T>, i: nat, m: nat, j: nat, r: int, lt: (T, T) -> bool)
    requires i <= m + 1 <= j <= r + 1 <= |a|
  {
    i <= m && (j > r || lt(a[i], a[j]))
  }

  function MergeNext<T>(a: seq<T>, l: nat, m: nat, r: int, i: nat, j: nat, tmp: seq<T>, lt: (T, T) -> bool)
    : (t: Task<T>)
    requires Fits(Merging(l, m, r, i, j, tmp), |a|)
    ensures Fits(t, |a|) && t.l == l && t.r == r
  {
    if TakesLeft(a, i, m, j, r, lt) then Merging(l, m, r, i + 1, j, tmp + [a[i]])
    else if j <= r then Merging(l, m, r, i, j + 1, tmp + [a[j]])
    else Writing(l, r, tmp, 0)
  }

  /** The path names the task that moves. A task that has to wait does not change anything. */
  function Step<T>(a: seq<T>, t: Task<T>, path: seq<bool>, lt: (T, T) -> bool): (r: (seq<T>, Task<T>))
    requires Fits(t, |a|)
    ensures |r.0| == |a| && Fits(r.1, |a|) && r.1.l == t.l && r.1.r == t.r
    decreases t
  {
    match t
    case Call(l, r) =>
      if l < r then (a, Spawned(l, (l + r) / 2, r, Call(l, (l + r) / 2))) else (a, Done(l, r))
    case Spawned(l, m, r, left) =>
      if path == [] then (a, Waiting(l, m, r, left, Call(m + 1, r)))
      else if path[0] then (a, t)
      else
        var (b, left') := Step(a, left, path[1..], lt);
        (b, Spawned(l, m, r, left'))
    case Waiting(l, m, r, left, right) =>
      if path == [] then (a, if left.Done? && right.Done? then Merging(l, m, r, l, m + 1, []) else t)
      else if path[0] then
        var (b, right') := Step(a, right, path[1..], lt);
        (b, Waiting(l, m, r, left, right'))
      else
        var (b, left') := Step(a, left, path[1..], lt);
        (b, Waiting(l, m, r, left', right))
    case Merging(l, m, r, i, j, tmp) => (a, MergeNext(a, l, m, r, i, j, tmp, lt))
    case Writing(l, r, tmp, k) =>
      if k < |tmp| then (a[l + k := tmp[k]], Writing(l, r, tmp, k + 1)) else (a, Done(l, r))
    case Done(_, _) => (a, t)
  }

  function Run<T>(a: seq<T>, t: Task<T>, schedule: seq<seq<bool>>, lt: (T, T) -> bool): (r: (seq<T>, Task<T>))
    requires Fits(t, |a|)
    ensures |r.0| == |a| && Fits(r.1, |a|) && r.1.l == t.l && r.1.r == t.r
  {
    if schedule == [] then (a, t) else
      var n := |schedule| - 1;
      var (b, u) := Run(a, t, schedule[..n], lt);
      Step(b, u, schedule[n], lt)
  }

  // ----- Footprints -----

  ghost predicate SameOn<T>(a: seq<T>, b: seq<T>, l: nat, r: int)
    requires |a| == |b| && r < |a|
  {
    forall x :: l <= x <= r ==> a[x] == b[x]
  }

  ghost predicate SameOutside<T>(a: seq<T>, b: seq<T>, l: nat, r: int)
    requires |a| == |b| && r < |a|
  {
    forall x :: 0 <= x < |a| && (x < l || r < x) ==> a[x] == b[x]
  }

  lemma MergeNextLocal<T>(a: seq<T>, b: seq<T>, t: Task<T>, lt: (T, T) -> bool)
    requires |a| == |b| && t.Merging? && Fits(t, |a|) && SameOn(a, b, t.l, t.r)
    ensures MergeNext(a, t.l, t.m, t.r, t.i, t.j, t.tmp, lt) == MergeNext(b, t.l, t.m, t.r, t.i, t.j, t.tmp, lt)
  {
  }

  /** What a child's step leaves, seen from the whole range of its parent. */
  lemma AroundChild<T>(a: seq<T>, b: seq<T>, a': seq<T>, b': seq<T>, child: Task<T>, l: nat, r: int)
    requires |a| == |b| == |a'| == |b'| && l <= child.l && child.r <= r < |a|
    requires SameOn(a, b, l, r) && SameOn(a', b', child.l, child.r)
    requires SameOutside(a, a', child.l, child.r) && SameOutside(b, b', child.l, child.r)
    ensures SameOn(a', b', l, r) && SameOutside(a, a', l, r)
  {
  }

  lemma ChildIsLocal<T>(a: seq<T>, b: seq<T>, child: Task<T>, path: seq<bool>, lt: (T, T) -> bool, l: nat, r: int)
    requires |a| == |b| && Fits(child, |a|) && l <= child.l && child.r <= r < |a| && SameOn(a, b, l, r)
    ensures var (a', t) := Step(a, child, path, lt); var (b', u) := Step(b, child, path, lt);
      t == u && SameOn(a', b', l, r) && SameOutside(a, a', l, r)
    decreases child, 1
  {
    hide Step;
    assert SameOn(a, b, child.l, child.r) && SameOn(b, a, child.l, child.r);
    StepIsLocal(a, b, child, path, lt);
    StepIsLocal(b, a, child, path, lt);
    AroundChild(a, b, Step(a, child, path, lt).0, Step(b, child, path, lt).0, child, l, r);
  }

  /** A step writes only in its task's range and depends only on what is there. */
  lemma {:induction false} StepIsLocal<T>(a: seq<T>, b: seq<T>, t: Task<T>, path: seq<bool>, lt: (T, T) -> bool)
    requires |a| == |b| && Fits(t, |a|) && SameOn(a, b, t.l, t.r)
    ensures Step(a, t, path, lt).1 == Step(b, t, path, lt).1
    ensures SameOn(Step(a, t, path, lt).0, Step(b, t, path, lt).0, t.l, t.r)
    ensures SameOutside(a, Step(a, t, path, lt).0, t.l, t.r)
    decreases t, 0
  {
    hide MergeNext;
    match t
    case Spawned(l, m, r, left) =>
      if path != [] {
        ChildIsLocal(a, b, left, path[1..], lt, l, r);
      }
    case Waiting(l, m, r, left, right) =>
      if path != [] {
        ChildIsLocal(a, b, if path[0] then right else left, path[1..], lt, l, r);
      }
    case Merging(_, _, _, _, _, _) => MergeNextLocal(a, b, t, lt);
    case _ =>
  }

  // ----- What every task of a run has come to -----

  /** The task started from the contents a0 of its range; this is how far a has come. */
  ghost predicate OnCourse<T>(a: seq<T>, a0: seq<T>, t: Task<T>, lt: (T, T) -> bool)
    requires |a| == |a0| && Fits(t, |a|)
    decreases t
  {
    match t
    case Call(l, r) => SameOn(a, a0, l, r)
    case Spawned(l, m, r, left) => OnCourse(a, a0, left, lt) && SameOn(a, a0, m + 1, r)
    case Waiting(l, m, r, left, right) => OnCourse(a, a0, left, lt) && OnCourse(a, a0, right, lt)
    case Merging(l, m, r, _, _, _) => MergeOnCourse(a, a0, t, lt)
    case Writing(l, r, tmp, k) => WriteOnCourse(a, a0, l, r, tmp, k, lt)
    case Done(l, r) => RangeSorted(a, a0, l, r, lt)
  }

  ghost predicate MergeOnCourse<T>(a: seq<T>, a0: seq<T>, t: Task<T>, lt: (T, T) -> bool)
    requires |a| == |a0| && t.Merging? && Fits(t, |a|)
  {
    MergeResult(a, t, lt) == Sorting(a0[t.l..t.r + 1], lt)
  }

  ghost predicate WriteOnCourse<T>(a: seq<T>, a0: seq<T>, l: nat, r: int, tmp: seq<T>, k: nat, lt: (T, T) -> bool)
    requires |a| == |a0| && l <= r + 1 <= |a| && |tmp| == r + 1 - l && k <= |tmp|
  {
    tmp == Sorting(a0[l..r + 1], lt) && forall x :: 0 <= x < k ==> a[l + x] == tmp[x]
  }

  ghost predicate RangeSorted<T>(a: seq<T>, a0: seq<T>, l: nat, r: int, lt: (T, T) -> bool)
    requires |a| == |a0| && l <= r + 1 <= |a|
  {
    a[l..r + 1] == Sorting(a0[l..r + 1], lt)
  }

  /** What tmp holds, followed by what is still to be merged. */
  ghost function MergeResult<T>(a: seq<T>, t: Task<T>, lt: (T, T) -> bool): seq<T>
    requires t.Merging? && Fits(t, |a|)
  {
    t.tmp + Merged(a[t.i..t.m + 1], a[t.j..t.r + 1], lt)
  }

  lemma SameSlice<T>(a: seq<T>, b: seq<T>, l: nat, r: int, x: nat, y: nat)
    requires |a| == |b| && r < |a| && SameOn(a, b, l, r)
    requires l <= x <= y <= r + 1
    ensures a[x..y] == b[x..y]
  {
  }

  lemma {:induction false} CourseFrame<T>(a: seq<T>, b: seq<T>, a0: seq<T>, t: Task<T>, lt: (T, T) -> bool)
    requires |a| == |b| == |a0| && Fits(t, |a|) && SameOn(a, b, t.l, t.r)
    requires OnCourse(a, a0, t, lt)
    ensures OnCourse(b, a0, t, lt)
    decreases t
  {
    hide Sorting, Merged;
    match t
    case Call(l, r) =>
    case Spawned(l, m, r, left) => CourseFrame(a, b, a0, left, lt);
    case Waiting(l, m, r, left, right) =>
      CourseFrame(a, b, a0, left, lt);
      CourseFrame(a, b, a0, right, lt);
    case Merging(l, m, r, i, j, tmp) =>
      SameSlice(a, b, l, r, i, m + 1);
      SameSlice(a, b, l, r, j, r + 1);
    case Writing(l, r, tmp, k) =>
    case Done(l, r) => SameSlice(a, b, l, r, l, r + 1);
  }

  lemma MergedLeft<T>(s: seq<T>, t: seq<T>, lt: (T, T) -> bool)
    requires s != [] && (t == [] || lt(s[0], t[0]))
    ensures Merged(s, t, lt) == [s[0]] + Merged(s[1..], t, lt)
  {
  }

  lemma MergedRight<T>(s: seq<T>, t: seq<T>, lt: (T, T) -> bool)
    requires t != [] && (s == [] || !lt(s[0], t[0]))
    ensures Merged(s, t, lt) == [t[0]] + Merged(s, t[1..], lt)
  {
  }

  lemma TakeLeft<T>(s: seq<T>, t: seq<T>, tmp: seq<T>, lt: (T, T) -> bool)
    requires s != [] && (t == [] || lt(s[0], t[0]))
    ensures (tmp + [s[0]]) + Merged(s[1..], t, lt) == tmp + Merged(s, t, lt)
  {
    hide Merged;
    MergedLeft(s, t, lt);
  }

  lemma TakeRight<T>(s: seq<T>, t: seq<T>, tmp: seq<T>, lt: (T, T) -> bool)
    requires t != [] && (s == [] || !lt(s[0], t[0]))
    ensures (tmp + [t[0]]) + Merged(s, t[1..], lt) == tmp + Merged(s, t, lt)
  {
    hide Merged;
    MergedRight(s, t, lt);
  }

  lemma {:induction false} ChildKeepsCourse<T>(a: seq<T>, a0: seq<T>, child: Task<T>, other: Task<T>,
                                               path: seq<bool>, lt: (T, T) -> bool)
    requires |a| == |a0| && Fits(child, |a|) && Fits(other, |a|)
    requires child.r < other.l || other.r < child.l
    requires OnCourse(a, a0, other, lt)
    ensures OnCourse(Step(a, child, path, lt).0, a0, other, lt)
  {
    hide Step, OnCourse, Sorting, Merged, MergeOnCourse, WriteOnCourse, RangeSorted;
    StepIsLocal(a, a, child, path, lt);
    CourseFrame(a, Step(a, child, path, lt).0, a0, other, lt);
  }

  ghost predicate KeepsCourse<T>(a: seq<T>, a0: seq<T>, t: Task<T>, path: seq<bool>, lt: (T, T) -> bool)
    requires |a| == |a0| && Fits(t, |a|)
  {
    OnCourse(Step(a, t, path, lt).0, a0, Step(a, t, path, lt).1, lt)
  }

  lemma {:induction false} SpawnedKeepsCourse<T>(a: seq<T>, a0: seq<T>, t: Task<T>, path: seq<bool>, lt: (T, T) -> bool)
    requires |a| == |a0| && t.Spawned? && Fits(t, |a|) && OnCourse(a, a0, t, lt)
    requires path != [] && !path[0] ==> KeepsCourse(a, a0, t.left, path[1..], lt)
    ensures KeepsCourse(a, a0, t, path, lt)
  {
    hide Sorting, Merged;
    if path == [] {
      assert OnCourse(a, a0, Call(t.m + 1, t.r), lt);
    } else if !path[0] {
      StepIsLocal(a, a, t.left, path[1..], lt);
    }
  }

  lemma {:induction false} WaitingKeepsCourse<T>(a: seq<T>, a0: seq<T>, t: Task<T>, path: seq<bool>, lt: (T, T) -> bool)
    requires |a| == |a0| && t.Waiting? && Fits(t, |a|) && OnCourse(a, a0, t, lt)
    requires path != [] ==> KeepsCourse(a, a0, if path[0] then t.right else t.left, path[1..], lt)
    ensures KeepsCourse(a, a0, t, path, lt)
  {
    hide Sorting, Merged, MergeResult, MergeOnCourse, WriteOnCourse, RangeSorted, MergeNext;
    if path == [] {
      if t.left.Done? && t.right.Done? {
        JoinKeepsCourse(a, a0, t.l, t.m, t.r, lt);
      }
    } else if path[0] {
      ChildKeepsCourse(a, a0, t.right, t.left, path[1..], lt);
    } else {
      ChildKeepsCourse(a, a0, t.left, t.right, path[1..], lt);
    }
  }

  lemma MergeLeft<T>(a: seq<T>, t: Task<T>, lt: (T, T) -> bool)
    requires t.Merging? && Fits(t, |a|) && TakesLeft(a, t.i, t.m, t.j, t.r, lt)
    ensures MergeResult(a, t.(i := t.i + 1, tmp := t.tmp + [a[t.i]]), lt) == MergeResult(a, t, lt)
  {
    hide Merged;
    TakeLeft(a[t.i..t.m + 1], a[t.j..t.r + 1], t.tmp, lt);
  }

  lemma MergeRight<T>(a: seq<T>, t: Task<T>, lt: (T, T) -> bool)
    requires t.Merging? && Fits(t, |a|) && !TakesLeft(a, t.i, t.m, t.j, t.r, lt) && t.j <= t.r
    ensures MergeResult(a, t.(j := t.j + 1, tmp := t.tmp + [a[t.j]]), lt) == MergeResult(a, t, lt)
  {
    hide Merged;
    TakeRight(a[t.i..t.m + 1], a[t.j..t.r + 1], t.tmp, lt);
  }

  lemma {:induction false} MergeNextResult<T>(a: seq<T>, t: Task<T>, lt: (T, T) -> bool)
    requires t.Merging? && Fits(t, |a|)
    ensures
      var u := MergeNext(a, t.l, t.m, t.r, t.i, t.j, t.tmp, lt);
      if u.Merging? then MergeResult(a, u, lt) == MergeResult(a, t, lt)
      else u == Writing(t.l, t.r, MergeResult(a, t, lt), 0)
  {
    hide Merged, MergeResult, TakesLeft;
    if TakesLeft(a, t.i, t.m, t.j, t.r, lt) {
      MergeLeft(a, t, lt);
    } else if t.j <= t.r {
      MergeRight(a, t, lt);
    } else {
      MergeEnds(a, t, lt);
    }
  }

  lemma MergeEnds<T>(a: seq<T>, t: Task<T>, lt: (T, T) -> bool)
    requires t.Merging? && Fits(t, |a|) && !TakesLeft(a, t.i, t.m, t.j, t.r, lt) && t.j > t.r
    ensures MergeResult(a, t, lt) == t.tmp
  {
    NothingLeft(a[t.i..t.m + 1], a[t.j..t.r + 1], t.tmp, lt);
  }

  lemma NothingLeft<T>(s: seq<T>, t: seq<T>, tmp: seq<T>, lt: (T, T) -> bool)
    requires s == [] && t == []
    ensures tmp + Merged(s, t, lt) == tmp
  {
  }

  lemma CourseOfMerge<T>(a: seq<T>, a0: seq<T>, t: Task<T>, lt: (T, T) -> bool)
    requires |a| == |a0| && t.Merging? && Fits(t, |a|)
    ensures OnCourse(a, a0, t, lt) == MergeOnCourse(a, a0, t, lt)
  {
    hide Sorting, MergeResult, Merged, MergeOnCourse;
  }

  lemma CourseOfWrite<T>(a: seq<T>, a0: seq<T>, t: Task<T>, lt: (T, T) -> bool)
    requires |a| == |a0| && t.Writing? && Fits(t, |a|)
    ensures OnCourse(a, a0, t, lt) == WriteOnCourse(a, a0, t.l, t.r, t.tmp, t.k, lt)
  {
    hide Sorting, WriteOnCourse;
  }

  lemma CourseOfDone<T>(a: seq<T>, a0: seq<T>, l: nat, r: int, lt: (T, T) -> bool)
    requires |a| == |a0| && l <= r + 1 <= |a|
    ensures OnCourse(a, a0, Done(l, r), lt) == RangeSorted(a, a0, l, r, lt)
  {
    hide Sorting, RangeSorted;
  }

  lemma {:induction false} MergeGoesOn<T>(a: seq<T>, a0: seq<T>, t: Task<T>, u: Task<T>, lt: (T, T) -> bool)
    requires |a| == |a0| && t.Merging? && u.Merging? && Fits(t, |a|) && Fits(u, |a|)
    requires u.l == t.l && u.r == t.r && MergeOnCourse(a, a0, t, lt)
    requires MergeResult(a, u, lt) == MergeResult(a, t, lt)
    ensures MergeOnCourse(a, a0, u, lt)
  {
    hide Sorting, MergeResult, Merged;
  }

  lemma {:induction false} WriteBegins<T>(a: seq<T>, a0: seq<T>, t: Task<T>, lt: (T, T) -> bool)
    requires |a| == |a0| && t.Merging? && Fits(t, |a|) && MergeOnCourse(a, a0, t, lt)
    requires |MergeResult(a, t, lt)| == t.r + 1 - t.l
    ensures WriteOnCourse(a, a0, t.l, t.r, MergeResult(a, t, lt), 0, lt)
  {
    hide Sorting, MergeResult, Merged;
  }

  lemma {:induction false} MergingKeepsCourse<T>(a: seq<T>, a0: seq<T>, t: Task<T>, path: seq<bool>, lt: (T, T) -> bool)
    requires |a| == |a0| && t.Merging? && Fits(t, |a|) && OnCourse(a, a0, t, lt)
    ensures KeepsCourse(a, a0, t, path, lt)
  {
    hide Sorting, MergeResult, MergeNext, Merged, OnCourse, MergeOnCourse, WriteOnCourse;
    MergeNextResult(a, t, lt);
    CourseOfMerge(a, a0, t, lt);
    var u := MergeNext(a, t.l, t.m, t.r, t.i, t.j, t.tmp, lt);
    assert Step(a, t, path, lt) == (a, u);
    if u.Merging? {
      MergeGoesOn(a, a0, t, u, lt);
      CourseOfMerge(a, a0, u, lt);
    } else {
      WriteBegins(a, a0, t, lt);
      CourseOfWrite(a, a0, u, lt);
    }
  }

  lemma {:induction false} StepKeepsCourse<T>(a: seq<T>, a0: seq<T>, t: Task<T>, path: seq<bool>, lt: (T, T) -> bool)
    requires |a| == |a0| && Fits(t, |a|) && OnCourse(a, a0, t, lt)
    ensures KeepsCourse(a, a0, t, path, lt)
    decreases t
  {
    hide Step, KeepsCourse, Sorting, Merged, MergeOnCourse, WriteOnCourse, RangeSorted;
    match t
    case Call(l, r) => CallKeepsCourse(a, a0, l, r, path, lt);
    case Spawned(l, m, r, left) =>
      if path != [] && !path[0] {
        StepKeepsCourse(a, a0, left, path[1..], lt);
      }
      SpawnedKeepsCourse(a, a0, t, path, lt);
    case Waiting(l, m, r, left, right) =>
      if path != [] {
        StepKeepsCourse(a, a0, if path[0] then right else left, path[1..], lt);
      }
      WaitingKeepsCourse(a, a0, t, path, lt);
    case Merging(_, _, _, _, _, _) => MergingKeepsCourse(a, a0, t, path, lt);
    case Writing(l, r, tmp, k) => WritingKeepsCourse(a, a0, l, r, tmp, k, path, lt);
    case Done(l, r) => DoneKeepsCourse(a, a0, l, r, path, lt);
  }

  lemma CallKeepsCourse<T>(a: seq<T>, a0: seq<T>, l: nat, r: int, path: seq<bool>, lt: (T, T) -> bool)
    requires |a| == |a0| && Fits<T>(Call(l, r), |a|) && OnCourse(a, a0, Call(l, r), lt)
    ensures KeepsCourse(a, a0, Call(l, r), path, lt)
  {
    if l >= r {
      SameSlice(a, a0, l, r, l, r + 1);
    }
  }

  lemma {:induction false} DoneKeepsCourse<T>(a: seq<T>, a0: seq<T>, l: nat, r: int, path: seq<bool>,
                                              lt: (T, T) -> bool)
    requires |a| == |a0| && Fits<T>(Done(l, r), |a|) && OnCourse(a, a0, Done(l, r), lt)
    ensures KeepsCourse(a, a0, Done(l, r), path, lt)
  {
  }

  lemma MergeBegins<T>(a: seq<T>, l: nat, m: nat, r: int, lt: (T, T) -> bool)
    requires l < r < |a| && m == (l + r) / 2
    ensures MergeResult(a, Merging(l, m, r, l, m + 1, []), lt) == Merged(a[l..m + 1], a[m + 1..r + 1], lt)
  {
    hide Merged;
    var whole := Merged(a[l..m + 1], a[m + 1..r + 1], lt);
    assert [] + whole == whole;
  }

  /** taskwait: both halves are sorted when the merge begins to read them. */
  lemma {:induction false} JoinKeepsCourse<T>(a: seq<T>, a0: seq<T>, l: nat, m: nat, r: int, lt: (T, T) -> bool)
    requires |a| == |a0| && l < r < |a| && m == (l + r) / 2
    requires OnCourse(a, a0, Done(l, m), lt) && OnCourse(a, a0, Done(m + 1, r), lt)
    ensures OnCourse(a, a0, Merging(l, m, r, l, m + 1, []), lt)
  {
    hide Sorting, Merged, MergeResult, OnCourse;
    CourseOfDone(a, a0, l, m, lt);
    CourseOfDone(a, a0, m + 1, r, lt);
    SortingSplit(a0, l, m, r, lt);
    MergeBegins(a, l, m, r, lt);
    CourseOfMerge(a, a0, Merging(l, m, r, l, m + 1, []), lt);
  }

  lemma {:induction false} WritingKeepsCourse<T>(a: seq<T>, a0: seq<T>, l: nat, r: int, tmp: seq<T>, k: nat,
                                                 path: seq<bool>, lt: (T, T) -> bool)
    requires |a| == |a0| && Fits(Writing(l, r, tmp, k), |a|) && OnCourse(a, a0, Writing(l, r, tmp, k), lt)
    ensures KeepsCourse(a, a0, Writing(l, r, tmp, k), path, lt)
  {
    hide Sorting, Merged, MergeResult;
    if k == |tmp| {
      assert a[l..r + 1] == tmp;
    }
  }

  // ----- Every schedule -----

  lemma {:induction false} RunKeepsCourse<T>(a: seq<T>, l: nat, r: int, schedule: seq<seq<bool>>, lt: (T, T) -> bool)
    requires l <= r + 1 <= |a|
    ensures var (b, t) := Run(a, Call(l, r), schedule, lt); OnCourse(b, a, t, lt) && SameOutside(a, b, l, r)
  {
    hide Step, Sorting, Merged;
    if schedule != [] {
      var n := |schedule| - 1;
      RunKeepsCourse(a, l, r, schedule[..n], lt);
      var (b, t) := Run(a, Call(l, r), schedule[..n], lt);
      StepKeepsCourse(b, a, t, schedule[n], lt);
      StepIsLocal(b, b, t, schedule[n], lt);
    }
  }

  /** However the tasks are scheduled: once the outermost one is done, the array is what the
      sequential algorithm leaves. */
  lemma ParallelIsSequential<T>(a: seq<T>, l: nat, r: nat, schedule: seq<seq<bool>>, lt: (T, T) -> bool)
    requires l <= r < |a|
    ensures
      var (b, t) := Run(a, Call(l, r), schedule, lt);
      t.Done? ==> b == Splice(a, l, Sorting(a[l..r + 1], lt))
  {
    hide Run, Sorting, Merged;
    RunKeepsCourse(a, l, r, schedule, lt);
    var (b, t) := Run(a, Call(l, r), schedule, lt);
    assert b == b[..l] + b[l..r + 1] + b[r + 1..];
  }

  // ----- No deadlock, and an end to every schedule -----

  /** The steps that sorting n elements still takes. */
  ghost function CallWork(n: nat): nat {
    if n <= 1 then 1 else
      var h := (n + 1) / 2;
      3 + CallWork(h) + CallWork(n - h) + MergeWork(n)
  }

  ghost function MergeWork(n: nat): nat {
    2 * n + 2
  }

  ghost function Work<T>(t: Task<T>, n: nat): nat
    requires Fits(t, n)
    decreases t
  {
    match t
    case Call(l, r) => CallWork(r + 1 - l)
    case Spawned(l, m, r, left) => 2 + Work(left, n) + CallWork(r - m) + MergeWork(r + 1 - l)
    case Waiting(l, m, r, left, right) => 1 + Work(left, n) + Work(right, n) + MergeWork(r + 1 - l)
    case Merging(l, m, r, i, j, tmp) => MergeWork(r + 1 - l) - |tmp|
    case Writing(l, r, tmp, k) => |tmp| - k + 1
    case Done(_, _) => 0
  }

  ghost predicate Progress<T>(a: seq<T>, t: Task<T>, path: seq<bool>, lt: (T, T) -> bool)
    requires Fits(t, |a|)
  {
    var (b, u) := Step(a, t, path, lt);
    (b, u) == (a, t) || Work(u, |a|) < Work(t, |a|)
  }

  lemma {:induction false} CallBegins<T>(l: nat, r: int, n: nat)
    requires l < r < n
    ensures Work<T>(Spawned(l, (l + r) / 2, r, Call(l, (l + r) / 2)), n) < Work<T>(Call(l, r), n)
  {
    var m, k := (l + r) / 2, r + 1 - l;
    CallWorkSplits(k);
    assert m + 1 - l == (k + 1) / 2 && r - m == k - (k + 1) / 2;
    hide CallWork, MergeWork;
    assert Work<T>(Call(l, m), n) == CallWork(m + 1 - l);
  }

  lemma CallWorkSplits(n: nat)
    requires n > 1
    ensures CallWork(n) == 3 + CallWork((n + 1) / 2) + CallWork(n - (n + 1) / 2) + MergeWork(n)
  {
  }

  lemma SecondSpawned<T>(l: nat, m: nat, r: int, left: Task<T>, n: nat)
    requires Fits(Spawned(l, m, r, left), n)
    ensures Work(Waiting(l, m, r, left, Call(m + 1, r)), n) < Work(Spawned(l, m, r, left), n)
  {
    hide CallWork, MergeWork;
    assert Work<T>(Call(m + 1, r), n) == CallWork(r - m);
  }

  lemma {:induction false} FirstWorked<T>(l: nat, m: nat, r: int, left: Task<T>, left': Task<T>, n: nat)
    requires Fits(Spawned(l, m, r, left), n) && Fits(Spawned(l, m, r, left'), n)
    requires Work(left', n) < Work(left, n)
    ensures Work(Spawned(l, m, r, left'), n) < Work(Spawned(l, m, r, left), n)
  {
    hide CallWork, MergeWork;
  }

  lemma WorkOfWaiting<T>(l: nat, m: nat, r: int, left: Task<T>, right: Task<T>, n: nat)
    requires Fits(Waiting(l, m, r, left, right), n)
    ensures Work(Waiting(l, m, r, left, right), n) == 1 + Work(left, n) + Work(right, n) + MergeWork(r + 1 - l)
  {
    hide CallWork, MergeWork;
  }

  lemma {:induction false} EitherWorked<T>(l: nat, m: nat, r: int, left: Task<T>, right: Task<T>,
                                           left': Task<T>, right': Task<T>, n: nat)
    requires Fits(Waiting(l, m, r, left, right), n) && Fits(Waiting(l, m, r, left', right'), n)
    requires Work(left', n) + Work(right', n) < Work(left, n) + Work(right, n)
    ensures Work(Waiting(l, m, r, left', right'), n) < Work(Waiting(l, m, r, left, right), n)
  {
    hide Work;
    WorkOfWaiting(l, m, r, left, right, n);
    WorkOfWaiting(l, m, r, left', right', n);
  }

  lemma BothJoined<T>(l: nat, m: nat, r: int, left: Task<T>, right: Task<T>, n: nat)
    requires Fits(Waiting(l, m, r, left, right), n)
    ensures Work<T>(Merging(l, m, r, l, m + 1, []), n) < Work(Waiting(l, m, r, left, right), n)
  {
    hide CallWork, MergeWork;
  }

  lemma LeafWorks<T>(a: seq<T>, t: Task<T>, path: seq<bool>, lt: (T, T) -> bool)
    requires Fits(t, |a|) && !t.Spawned? && !t.Waiting?
    ensures Progress(a, t, path, lt)
  {
    if t.Call? && t.l < t.r {
      hide CallWork;
      CallBegins<T>(t.l, t.r, |a|);
    }
  }

  lemma SpawnedWorks<T>(a: seq<T>, t: Task<T>, path: seq<bool>, lt: (T, T) -> bool)
    requires t.Spawned? && Fits(t, |a|)
    requires path != [] && !path[0] ==> Progress(a, t.left, path[1..], lt)
    ensures Progress(a, t, path, lt)
  {
    hide Work;
    if path == [] {
      SecondSpawned(t.l, t.m, t.r, t.left, |a|);
    } else if !path[0] {
      var (b, left') := Step(a, t.left, path[1..], lt);
      if (b, left') != (a, t.left) {
        FirstWorked(t.l, t.m, t.r, t.left, left', |a|);
      }
    }
  }

  lemma WaitingWorks<T>(a: seq<T>, t: Task<T>, path: seq<bool>, lt: (T, T) -> bool)
    requires t.Waiting? && Fits(t, |a|)
    requires path != [] ==> Progress(a, if path[0] then t.right else t.left, path[1..], lt)
    ensures Progress(a, t, path, lt)
  {
    hide Work;
    if path == [] {
      if t.left.Done? && t.right.Done? {
        BothJoined(t.l, t.m, t.r, t.left, t.right, |a|);
      }
    } else if path[0] {
      var (b, right') := Step(a, t.right, path[1..], lt);
      if (b, right') != (a, t.right) {
        EitherWorked(t.l, t.m, t.r, t.left, t.right, t.left, right', |a|);
      }
    } else {
      var (b, left') := Step(a, t.left, path[1..], lt);
      if (b, left') != (a, t.left) {
        EitherWorked(t.l, t.m, t.r, t.left, t.right, left', t.right, |a|);
      }
    }
  }

  /** A step of a task that need not wait brings the end nearer. */
  lemma {:induction false} StepWorks<T>(a: seq<T>, t: Task<T>, path: seq<bool>, lt: (T, T) -> bool)
    requires Fits(t, |a|)
    ensures Progress(a, t, path, lt)
    decreases t
  {
    hide Step, Work, Progress;
    match t
    case Spawned(l, m, r, left) =>
      if path != [] {
        StepWorks(a, left, path[1..], lt);
      }
      SpawnedWorks(a, t, path, lt);
    case Waiting(l, m, r, left, right) =>
      if path != [] {
        StepWorks(a, if path[0] then right else left, path[1..], lt);
      }
      WaitingWorks(a, t, path, lt);
    case _ => LeafWorks(a, t, path, lt);
  }

  /** As long as the outermost task is not done, some task can move. */
  lemma {:induction false} SomeTaskMoves<T>(a: seq<T>, t: Task<T>, lt: (T, T) -> bool) returns (path: seq<bool>)
    requires Fits(t, |a|) && !t.Done?
    ensures Step(a, t, path, lt) != (a, t)
    decreases t
  {
    path := [];
    if t.Waiting? && !(t.left.Done? && t.right.Done?) {
      var right := t.left.Done?;
      var rest := SomeTaskMoves(a, if right then t.right else t.left, lt);
      path := [right] + rest;
      assert path[1..] == rest;
    }
  }

  /** How many steps of a schedule change anything. */
  ghost function Moves<T>(a: seq<T>, t: Task<T>, schedule: seq<seq<bool>>, lt: (T, T) -> bool): nat
    requires Fits(t, |a|)
  {
    if schedule == [] then 0 else
      var n := |schedule| - 1;
      var (b, u) := Run(a, t, schedule[..n], lt);
      Moves(a, t, schedule[..n], lt) + if Step(b, u, schedule[n], lt) == (b, u) then 0 else 1
  }

  /** No schedule can go on making moves for ever. */
  lemma {:induction false} MovesAreBounded<T>(a: seq<T>, t: Task<T>, schedule: seq<seq<bool>>, lt: (T, T) -> bool)
    requires Fits(t, |a|)
    ensures Moves(a, t, schedule, lt) + Work(Run(a, t, schedule, lt).1, |a|) <= Work(t, |a|)
  {
    hide Step, Work;
    if schedule != [] {
      var n := |schedule| - 1;
      MovesAreBounded(a, t, schedule[..n], lt);
      var (b, u) := Run(a, t, schedule[..n], lt);
      StepWorks(b, u, schedule[n], lt);
    }
  }
}
