/** The growing branch of realloc, on values: which block it chooses, what it does to the list
    before free neighbours are merged, and exactly when that is right. */
module Growing {
  import opened BlockList
  import opened Results

  /** To the search the block that is to grow counts as free. */
  predicate Available(v: seq<Block>, b: nat, i: nat)
    requires i < |v|
  {
    !v[i].used || i == b
  }

  datatype Candidate = Candidate(at: nat, length: nat)

  /** The search from block i on, with a row of available blocks from c.at on so far. */
  function Search(v: seq<Block>, b: nat, n: nat, i: nat, c: Candidate): (r: Candidate)
    requires i <= |v| && (c.length > 0 ==> c.at < i)
    ensures r.length > 0 ==> r.at < |v|
    decreases |v| - i
  {
    if i == |v| then c
    else if Available(v, b, i) then
      Search(v, b, n, i + 1, Candidate(if c.length == 0 then i else c.at, c.length + v[i].length))
    else if c.length >= n then c
    else Search(v, b, n, i + 1, Candidate(|v|, 0))
  }

  function Chosen(v: seq<Block>, b: nat, n: nat): (r: Candidate)
    ensures r.length > 0 ==> r.at < |v|
  {
    Search(v, b, n, 0, Candidate(|v|, 0))
  }

  method FindCandidate(v: seq<Block>, b: nat, n: nat) returns (at: nat, length: nat)
    ensures Candidate(at, length) == Chosen(v, b, n)
  {
    at, length := |v|, 0;
    var i := 0;
    while i < |v|
      invariant i <= |v| && (length > 0 ==> at < i)
      invariant Search(v, b, n, i, Candidate(at, length)) == Chosen(v, b, n)
    {
      if !v[i].used || i == b {
        if length == 0 {
          at := i;
        }
        length := length + v[i].length;
      } else {
        if length >= n {
          break;
        }
        at, length := |v|, 0;
      }
      i := i + 1;
    }
  }

  // ----- The search finds a row of enough bytes iff there is one -----

  function Length(v: seq<Block>): nat {
    if v == [] then 0 else Length(v[..|v| - 1]) + v[|v| - 1].length
  }

  lemma {:induction false} LengthSplit(v: seq<Block>, w: seq<Block>)
    ensures Length(v + w) == Length(v) + Length(w)
    decreases |w|
  {
    if w == [] {
      assert v + w == v;
    } else {
      assert (v + w)[..|v + w| - 1] == v + w[..|w| - 1];
      LengthSplit(v, w[..|w| - 1]);
    }
  }

  lemma SliceLength(v: seq<Block>, s: nat, p: nat, q: nat)
    requires s <= p <= q <= |v|
    ensures Length(v[s..q]) == Length(v[s..p]) + Length(v[p..q])
  {
    assert v[s..q] == v[s..p] + v[p..q];
    LengthSplit(v[s..p], v[p..q]);
  }

  lemma OneLength(v: seq<Block>, i: nat)
    requires i < |v|
    ensures Length(v[i..i + 1]) == v[i].length
  {
    assert v[i..i + 1] == [v[i]] && [v[i]][..0] == [];
  }

  /** The blocks from p up to q are available. */
  ghost predicate Row(v: seq<Block>, b: nat, p: nat, q: nat) {
    p <= q <= |v| && forall k :: p <= k < q ==> Available(v, b, k)
  }

  ghost predicate LongRow(v: seq<Block>, b: nat, n: nat, s: nat, p: nat, q: nat) {
    s <= p && Row(v, b, p, q) && Length(v[p..q]) >= n
  }

  /** From a row that began at s: the search succeeds iff a long enough row begins at s or later. */
  lemma {:induction false} SearchIsComplete(v: seq<Block>, b: nat, n: nat, s: nat, i: nat, c: Candidate)
    requires s <= i && Row(v, b, s, i) && c.length == Length(v[s..i]) && n > 0
    requires c.length > 0 ==> c.at < i
    ensures Search(v, b, n, i, c).length >= n <==> exists p: nat, q: nat :: LongRow(v, b, n, s, p, q)
    decreases |v| - i
  {
    hide Length;
    SubrowsAreShorter(v, s, i);
    if i == |v| {
      assert c.length >= n ==> LongRow(v, b, n, s, s, i);
    } else if Available(v, b, i) {
      SliceLength(v, s, i, i + 1);
      OneLength(v, i);
      SearchIsComplete(v, b, n, s, i + 1, Candidate(if c.length == 0 then i else c.at, c.length + v[i].length));
    } else if c.length >= n {
      assert LongRow(v, b, n, s, s, i);
    } else {
      var j := i + 1;
      NoLength(v, j);
      SearchIsComplete(v, b, n, j, j, Candidate(|v|, 0));
      forall p: nat, q: nat ensures LongRow(v, b, n, s, p, q) <==> LongRow(v, b, n, j, p, q) {
        assert s <= p <= q <= i ==> Length(v[p..q]) <= Length(v[s..i]);
      }
    }
  }

  lemma NoLength(v: seq<Block>, i: nat)
    requires i <= |v|
    ensures Length(v[i..i]) == 0
  {
  }

  lemma SubrowsAreShorter(v: seq<Block>, s: nat, i: nat)
    requires s <= i <= |v|
    ensures forall p: nat, q: nat :: s <= p <= q <= i ==> Length(v[p..q]) <= Length(v[s..i])
  {
    hide Length;
    forall p: nat, q: nat | s <= p <= q <= i ensures Length(v[p..q]) <= Length(v[s..i]) {
      SliceLength(v, s, p, i);
      SliceLength(v, p, q, i);
    }
  }

  /** realloc fails with NoMemory iff no n bytes in a row are free or the block's own. */
  lemma ChosenIsComplete(v: seq<Block>, b: nat, n: nat)
    requires n > 0
    ensures Chosen(v, b, n).length >= n <==> exists p: nat, q: nat :: LongRow(v, b, n, 0, p, q)
  {
    NoLength(v, 0);
    SearchIsComplete(v, b, n, 0, 0, Candidate(|v|, 0));
  }

  /** A row that ends where no more is available. */
  ghost predicate IsRow(v: seq<Block>, b: nat, c: Candidate, q: nat) {
    c.at < q && Row(v, b, c.at, q) && c.length == Length(v[c.at..q])
  }

  lemma {:induction false} SearchGivesRow(v: seq<Block>, b: nat, n: nat, i: nat, c: Candidate) returns (q: nat)
    requires i <= |v| && n > 0 && (c.length > 0 ==> IsRow(v, b, c, i))
    ensures var r := Search(v, b, n, i, c);
      r.length >= n ==> IsRow(v, b, r, q) && (q == |v| || !Available(v, b, q))
    decreases |v| - i
  {
    hide Length;
    q := i;
    if i < |v| && Available(v, b, i) {
      OneLength(v, i);
      if c.length > 0 {
        SliceLength(v, c.at, i, i + 1);
      }
      q := SearchGivesRow(v, b, n, i + 1, Candidate(if c.length == 0 then i else c.at, c.length + v[i].length));
    } else if i < |v| && c.length < n {
      q := SearchGivesRow(v, b, n, i + 1, Candidate(|v|, 0));
    }
  }

  /** No long enough row begins before the one that is found. */
  lemma {:induction false} SearchIsLowest(v: seq<Block>, b: nat, n: nat, s: nat, i: nat, c: Candidate)
    requires Solid(v) && n > 0 && s <= i && Row(v, b, s, i) && c.length == Length(v[s..i])
    requires if c.length > 0 then c.at == s < i else s == i || i == |v|
    requires forall p: nat, q: nat :: LongRow(v, b, n, 0, p, q) ==> s <= p
    ensures var r := Search(v, b, n, i, c);
      r.length >= n ==> forall p: nat, q: nat :: LongRow(v, b, n, 0, p, q) ==> r.at <= p
    decreases |v| - i
  {
    hide Length;
    if i < |v| {
      if Available(v, b, i) {
        SliceLength(v, s, i, i + 1);
        OneLength(v, i);
        NoLength(v, i);
        SearchIsLowest(v, b, n, s, i + 1, Candidate(if c.length == 0 then i else c.at, c.length + v[i].length));
      } else if c.length < n {
        SubrowsAreShorter(v, s, i);
        NoLength(v, i + 1);
        assert forall p: nat, q: nat :: LongRow(v, b, n, 0, p, q) ==> i + 1 <= p;
        SearchIsLowest(v, b, n, i + 1, i + 1, Candidate(|v|, 0));
      }
    }
  }

  /** The place that is found is the lowest at which n bytes in a row are available. */
  lemma ChosenIsLowest(v: seq<Block>, b: nat, n: nat) returns (end: nat)
    requires Solid(v) && 0 < n <= Chosen(v, b, n).length
    ensures var c := Chosen(v, b, n);
      IsRow(v, b, c, end) && (end == |v| || !Available(v, b, end)) && LongRow(v, b, n, 0, c.at, end)
    ensures forall p: nat, q: nat :: LongRow(v, b, n, 0, p, q) ==> Chosen(v, b, n).at <= p
  {
    hide Length;
    NoLength(v, 0);
    end := SearchGivesRow(v, b, n, 0, Candidate(|v|, 0));
    SearchIsLowest(v, b, n, 0, 0, Candidate(|v|, 0));
  }

  /** n bytes in a row are available that begin no later than the block itself. */
  ghost predicate EarlyRow(v: seq<Block>, b: nat, n: nat) {
    exists p: nat, q: nat :: p <= b && LongRow(v, b, n, 0, p, q)
  }

  lemma BlockIsLongRow(v: seq<Block>, b: nat, n: nat, k: nat)
    requires k < |v| && !v[k].used && v[k].length >= n
    ensures LongRow(v, b, n, 0, k, k + 1)
  {
    OneLength(v, k);
  }

  /** If none do, the place is the first free block behind it that is large enough. */
  lemma LaterPlaceIsFirstFit(v: seq<Block>, b: nat, n: nat, size: nat) returns (end: nat)
    requires Ok(v, size) && b < |v| && 0 < n <= Chosen(v, b, n).length
    ensures var c := Chosen(v, b, n);
      && (c.at <= b <==> EarlyRow(v, b, n))
      && IsRow(v, b, c, end) && (end == |v| || !Available(v, b, end))
      && (b < c.at ==> !v[c.at].used && c.length == v[c.at].length && end == c.at + 1
                       && c.at == FirstFit(v, n, b + 1))
  {
    hide Length, Search;
    var c := Chosen(v, b, n);
    end := ChosenIsLowest(v, b, n);
    if b < c.at {
      assert Available(v, b, c.at) && Parted(v, c.at);
      assert end > c.at + 1 ==> Available(v, b, c.at + 1);
      OneLength(v, c.at);
      var k := FirstFit(v, n, b + 1);
      if k < c.at {
        BlockIsLongRow(v, b, n, k);
      }
    }
  }

  // ----- What growing does to the list -----

  /** The list before neighbouring free blocks are merged. Nothing if the block itself has been
      erased: it is then used after that. From the chosen block on all free blocks are erased, and
      the old block is marked free, even if it is the chosen one. */
  function Grown(v: seq<Block>, b: nat, n: nat): Option<seq<Block>>
    requires b < |v| && 0 < n <= Chosen(v, b, n).length
  {
    var Candidate(at, length) := Chosen(v, b, n);
    if at < b then None else
      var front := (if b < at then Release(v, b) else v)[..at];
      var rest := Block(v[at].offset + n, length - n, false);
      Some(front + [Block(v[at].offset, n, at != b)] + [rest] + Used(v[at + 1..]))
  }

  /** The blocks in use are those that were, but for the b-th, in whose place there is another. */
  ghost predicate Replaced(v: seq<Block>, b: nat, w: seq<Block>, other: Block)
    requires b < |v|
  {
    multiset(Used(w)) == multiset(Used(v)) - multiset{v[b]} + multiset{other}
  }

  /** All bytes of the b-th block are free but those of the other. */
  ghost predicate GivenBack(v: seq<Block>, b: nat, w: seq<Block>, other: Block) {
    forall x :: Covers(v, b, x) && !(other.offset <= x < other.End()) ==> FreeByte(w, x)
  }

  /** In the end the list is in order, and the pointer has a block of n bytes in place of its old one,
      whose bytes are free. */
  ghost predicate GrowthIsRight(v: seq<Block>, b: nat, n: nat, size: nat)
    requires b < |v| && 0 < n <= Chosen(v, b, n).length
  {
    var g, at := Grown(v, b, n), Chosen(v, b, n).at;
    && g.Some? && at < |g.value| && g.value[at].used && g.value[at].length == n
    && Ok(Coalesce(g.value), size)
    && Replaced(v, b, Coalesce(g.value), g.value[at]) && GivenBack(v, b, Coalesce(g.value), g.value[at])
  }

  lemma {:induction false} LengthOfTiles(v: seq<Block>, size: nat)
    requires Tiles(v, size)
    ensures Length(v) == size
    decreases |v|
  {
    if v != [] {
      var k := |v| - 1;
      TilesPrefix(v, size, k);
      assert Adjoins(v, k);
      LengthOfTiles(v[..k], v[k].offset);
    }
  }

  lemma {:induction false} LengthOfUsed(v: seq<Block>)
    ensures Length(v) == Length(Used(v)) + FreeTotal(v)
    decreases |v|
  {
    if v != [] {
      var k := |v| - 1;
      LengthOfUsed(v[..k]);
      if v[k].used {
        assert Used(v) == Used(v[..k]) + [v[k]];
        assert Used(v)[..|Used(v)| - 1] == Used(v[..k]);
      } else {
        assert Used(v) == Used(v[..k]);
      }
    }
  }

  lemma {:induction false} ReleaseKeepsLengths(v: seq<Block>, b: nat, k: nat)
    requires b < |v| && k <= |v|
    ensures Length(Release(v, b)[..k]) == Length(v[..k])
    decreases k
  {
    if k > 0 {
      assert v[..k][..k - 1] == v[..k - 1] && Release(v, b)[..k][..k - 1] == Release(v, b)[..k - 1];
      ReleaseKeepsLengths(v, b, k - 1);
    }
  }

  lemma {:induction false} CoalesceKeepsLength(v: seq<Block>)
    ensures Length(Coalesce(v)) == Length(v)
    decreases |v|
  {
    if v != [] {
      var k := |v| - 1;
      CoalesceKeepsLength(v[..k]);
      var acc := Coalesce(v[..k]);
      if Joins(acc, v[k]) {
        var joined := acc[|acc| - 1].(length := acc[|acc| - 1].length + v[k].length);
        assert Join(acc, v[k])[..|acc| - 1] == acc[..|acc| - 1];
      } else {
        assert Join(acc, v[k])[..|acc|] == acc;
      }
    }
  }

  lemma {:induction false} UsedSplit(v: seq<Block>, w: seq<Block>)
    ensures Used(v + w) == Used(v) + Used(w)
    decreases |w|
  {
    if w == [] {
      assert v + w == v;
    } else {
      assert (v + w)[..|v + w| - 1] == v + w[..|w| - 1];
      UsedSplit(v, w[..|w| - 1]);
    }
  }

  lemma {:induction false} NoneUsed(v: seq<Block>)
    requires forall i :: 0 <= i < |v| ==> !v[i].used
    ensures Used(v) == []
    decreases |v|
  {
    if v != [] {
      NoneUsed(v[..|v| - 1]);
    }
  }

  lemma LengthOfOne(x: Block)
    ensures Length([x]) == x.length
  {
    assert [x][..0] == [];
  }

  lemma LengthInFour(x: seq<Block>, taken: Block, rest: Block, t: seq<Block>)
    ensures Length(x + [taken] + [rest] + t) == Length(x) + taken.length + rest.length + Length(t)
  {
    hide Length;
    LengthSplit(x, [taken]);
    LengthSplit(x + [taken], [rest]);
    LengthSplit(x + [taken] + [rest], t);
    LengthOfOne(taken);
    LengthOfOne(rest);
  }

  lemma LengthInThree(v: seq<Block>, at: nat, end: nat)
    requires at <= end <= |v|
    ensures Length(v) == Length(v[..at]) + Length(v[at..end]) + Length(v[end..])
  {
    hide Length;
    assert v == v[..at] + v[at..end] + v[end..];
    LengthSplit(v[..at], v[at..end]);
    LengthSplit(v[..at] + v[at..end], v[end..]);
  }

  /** Of what is behind the chosen row the used blocks remain. */
  lemma UsedBehindRow(v: seq<Block>, b: nat, at: nat, end: nat)
    requires b <= at < end && Row(v, b, at, end)
    ensures Used(v[at + 1..]) == Used(v[end..])
  {
    hide Used;
    assert v[at + 1..] == v[at + 1..end] + v[end..];
    UsedSplit(v[at + 1..end], v[end..]);
    RowBehindIsFree(v, b, at, end);
  }

  /** Growing loses exactly the free bytes behind the chosen row. */
  lemma GrowingLosesBytes(v: seq<Block>, b: nat, n: nat, size: nat) returns (end: nat)
    requires Ok(v, size) && b < |v| && 0 < n <= Chosen(v, b, n).length && b <= Chosen(v, b, n).at
    ensures IsRow(v, b, Chosen(v, b, n), end) && (end == |v| || !Available(v, b, end))
    ensures Length(Grown(v, b, n).value) + FreeTotal(v[end..]) == size
  {
    hide Length, Chosen, FreeTotal, Used, Ok;
    end := LaterPlaceIsFirstFit(v, b, n, size);
    var Candidate(at, length) := Chosen(v, b, n);
    var front := (if b < at then Release(v, b) else v)[..at];
    var taken, rest := Block(v[at].offset, n, at != b), Block(v[at].offset + n, length - n, false);
    UsedBehindRow(v, b, at, end);
    LengthInFour(front, taken, rest, Used(v[end..]));
    ReleaseKeepsLengths(v, b, at);
    LengthOfUsed(v[end..]);
    LengthOfOk(v, size);
    LengthInThree(v, at, end);
  }

  lemma RowBehindIsFree(v: seq<Block>, b: nat, at: nat, end: nat)
    requires b <= at < end && Row(v, b, at, end)
    ensures Used(v[at + 1..end]) == []
  {
    hide Used;
    var t := v[at + 1..end];
    forall i | 0 <= i < |t| ensures !t[i].used {
      assert Available(v, b, at + 1 + i);
    }
    NoneUsed(t);
  }

  lemma LengthOfOk(v: seq<Block>, size: nat)
    requires Ok(v, size)
    ensures Length(v) == size
  {
    LengthOfTiles(v, size);
  }

  function Start(v: seq<Block>, k: nat): nat
    requires k <= |v|
  {
    if k == 0 then 0 else v[k - 1].End()
  }

  /** Blocks without free bytes among them still tile when the free ones are left out. */
  lemma {:induction false} TilesOn(v: seq<Block>, size: nat, k: nat, j: nat, acc: seq<Block>)
    requires Tiles(v, size) && k <= j <= |v| && Tiles(acc, Start(v, k)) && FreeTotal(v[k..j]) == 0
    ensures Tiles(acc + Used(v[k..j]), Start(v, j))
    decreases j
  {
    hide Tiles;
    if k == j {
      assert acc + Used(v[k..j]) == acc;
    } else {
      assert v[k..j][..j - 1 - k] == v[k..j - 1];
      TilesOn(v, size, k, j - 1, acc);
      AdjoinsStart(v, size, j - 1);
      var more := acc + Used(v[k..j - 1]);
      if v[j - 1].used {
        assert acc + Used(v[k..j]) == more + [v[j - 1]];
        TilesSnoc(more, v[j - 1], v[j - 1].offset);
      } else {
        assert acc + Used(v[k..j]) == more;
      }
    }
  }

  lemma AdjoinsStart(v: seq<Block>, size: nat, i: nat)
    requires Tiles(v, size) && i < |v|
    ensures v[i].offset == Start(v, i)
  {
    assert Adjoins(v, i);
  }

  lemma ReleaseTiles(v: seq<Block>, b: nat, size: nat, k: nat)
    requires Tiles(v, size) && b < |v| && k <= |v|
    ensures Tiles(Release(v, b)[..k], Start(v, k))
  {
    TilesPrefix(v, size, k);
    var w := Release(v, b)[..k];
    forall i | 0 <= i < k ensures Adjoins(w, i) {
      assert Adjoins(v, i);
    }
  }

  /** With no free byte behind the place, the list tiles. */
  lemma GrowingTiles(v: seq<Block>, b: nat, n: nat, size: nat)
    requires Ok(v, size) && b < |v| && 0 < n <= Chosen(v, b, n).length && b < Chosen(v, b, n).at
    requires FreeTotal(v[Chosen(v, b, n).at + 1..]) == 0
    ensures Tiles(Grown(v, b, n).value, size)
  {
    hide Chosen, FreeTotal, Used, Coalesced, Solid;
    var end := LaterPlaceIsFirstFit(v, b, n, size);
    var at := Chosen(v, b, n).at;
    var front := Release(v, b)[..at];
    var taken, rest := Block(v[at].offset, n, true), Block(v[at].offset + n, v[at].length - n, false);
    ReleaseTiles(v, b, size, at);
    AdjoinsStart(v, size, at);
    TilesSnoc(front, taken, v[at].offset);
    TilesSnoc(front + [taken], rest, taken.End());
    assert v[at + 1..|v|] == v[at + 1..];
    TilesOn(v, size, at + 1, |v|, front + [taken] + [rest]);
  }

  lemma {:induction false} UsedAreUsed(v: seq<Block>)
    ensures forall i :: 0 <= i < |Used(v)| ==> Used(v)[i].used && Used(v)[i] in v
    decreases |v|
  {
    if v != [] {
      UsedAreUsed(v[..|v| - 1]);
    }
  }

  /** If the place has more bytes than are asked for, or nothing used is behind it, the only empty
      block is at the end. */
  lemma GrowingIsSolid(v: seq<Block>, b: nat, n: nat, size: nat)
    requires Ok(v, size) && b < |v| && 0 < n <= Chosen(v, b, n).length && b < Chosen(v, b, n).at
    requires n < Chosen(v, b, n).length || Used(v[Chosen(v, b, n).at + 1..]) == []
    ensures Solid(Grown(v, b, n).value)
  {
    hide Chosen, FreeTotal, Used, Coalesced, Tiles;
    var at := Chosen(v, b, n).at;
    var tail := v[at + 1..];
    UsedAreUsed(tail);
    assert forall i :: 0 <= i < |Used(tail)| ==> Used(tail)[i].length > 0;
  }

  lemma {:induction false} CoalesceUsedTail(v: seq<Block>, t: seq<Block>)
    requires forall i :: 0 <= i < |t| ==> t[i].used
    ensures Coalesce(v + t) == Coalesce(v) + t
    decreases |t|
  {
    if t == [] {
      assert v + t == v;
    } else {
      assert (v + t)[..|v + t| - 1] == v + t[..|t| - 1];
      CoalesceUsedTail(v, t[..|t| - 1]);
    }
  }

  /** Merging does not touch a used block, a free block behind it and used blocks behind that. */
  lemma {:induction false} CoalesceAroundRest(x: seq<Block>, taken: Block, rest: Block, t: seq<Block>)
    requires taken.used && !rest.used
    requires forall i :: 0 <= i < |t| ==> t[i].used
    ensures Coalesce(x + [taken] + [rest] + t) == Coalesce(x) + [taken] + [rest] + t
  {
    CoalesceUsedTail(x, [taken]);
    CoalesceUsedTail(x + [taken] + [rest], t);
    assert (x + [taken] + [rest])[..|x| + 1] == x + [taken];
    assert Coalesce(x + [taken] + [rest]) == Coalesce(x) + [taken] + [rest];
  }

  /** So an empty free block between two used ones is there to stay. */
  lemma EmptyBlockStays(x: seq<Block>, taken: Block, rest: Block, t: seq<Block>)
    requires taken.used && !rest.used && rest.length == 0 && t != []
    requires forall i :: 0 <= i < |t| ==> t[i].used
    ensures !Solid(Coalesce(x + [taken] + [rest] + t))
  {
    hide Solid, Coalesce;
    CoalesceAroundRest(x, taken, rest, t);
    NotSolid(Coalesce(x) + [taken] + [rest] + t, |Coalesce(x)| + 1);
  }

  /** What it does there: the next used block is not found any more, and realloc of its pointer takes
      the empty block for it. */
  lemma EmptyBlockHidesNext(v: seq<Block>, b: nat, n: nat, size: nat) returns (j: nat)
    requires Ok(v, size) && b < |v| && 0 < n == Chosen(v, b, n).length && b < Chosen(v, b, n).at
    requires FreeTotal(v[Chosen(v, b, n).at + 1..]) == 0 && Used(v[Chosen(v, b, n).at + 1..]) != []
    ensures var w, next := Coalesce(Grown(v, b, n).value), Used(v[Chosen(v, b, n).at + 1..])[0];
      && Tiles(w, size) && 0 < j < |w| && next.used && w[j] == next
      && w[j - 1] == Block(next.offset, 0, false) && FindOffset(w, next.offset, 0) == j - 1
  {
    hide Chosen, FreeTotal, Used, Coalesce, Coalesced, Solid, Tiles;
    var at, g := Chosen(v, b, n).at, Grown(v, b, n).value;
    var tail := Used(v[at + 1..]);
    var taken, rest := Block(v[at].offset, n, true), Block(v[at].offset + n, 0, false);
    UsedAreUsed(v[at + 1..]);
    GrowingTiles(v, b, n, size);
    CoalesceTiles(g, size);
    CoalesceAroundRest(Release(v, b)[..at], taken, rest, tail);
    var w := Coalesce(g);
    j := |w| - |tail|;
    assert w[j - 2] == taken && w[j - 1] == rest && w[j] == tail[0];
    Neighbours(w, size, j - 2);
    Neighbours(w, size, j - 1);
    FoundIffNotHidden(w, size, j - 1);
  }

  lemma Neighbours(v: seq<Block>, size: nat, i: nat)
    requires Tiles(v, size) && i + 1 < |v|
    ensures v[i + 1].offset == v[i].End()
  {
    assert Adjoins(v, i + 1);
  }

  lemma NotSolid(v: seq<Block>, i: nat)
    requires i + 1 < |v| && v[i].length == 0
    ensures !Solid(v)
  {
  }

  /** The list that stays free of empty blocks, if growing is right. */
  lemma RightMeansRoomOrEnd(v: seq<Block>, b: nat, n: nat, size: nat)
    requires Ok(v, size) && b < |v| && 0 < n <= Chosen(v, b, n).length && b < Chosen(v, b, n).at
    requires GrowthIsRight(v, b, n, size)
    ensures n < Chosen(v, b, n).length || Used(v[Chosen(v, b, n).at + 1..]) == []
  {
    hide Chosen, Used, Coalesce;
    var c := Chosen(v, b, n);
    var tail := v[c.at + 1..];
    UsedAreUsed(tail);
    if n == c.length && Used(tail) != [] {
      var taken, rest := Block(v[c.at].offset, n, true), Block(v[c.at].offset + n, 0, false);
      EmptyBlockStays(Release(v, b)[..c.at], taken, rest, Used(tail));
    }
  }

  // ----- What a move does to the blocks and bytes in use -----

  ghost predicate InUse(us: seq<Block>, x: int) {
    exists i :: 0 <= i < |us| && us[i].offset <= x < us[i].End()
  }

  lemma {:induction false} UsedElements(v: seq<Block>, u: Block)
    ensures u in Used(v) <==> u.used && u in v
    decreases |v|
  {
    if v != [] {
      UsedElements(v[..|v| - 1], u);
      assert v == v[..|v| - 1] + [v[|v| - 1]];
    }
  }

  lemma {:induction false} SomethingCovers(v: seq<Block>, size: nat, x: int) returns (i: nat)
    requires Tiles(v, size) && 0 <= x < size
    ensures Covers(v, i, x)
    decreases |v|
  {
    var n := |v| - 1;
    assert Adjoins(v, n);
    if v[n].offset <= x {
      i := n;
    } else {
      TilesPrefix(v, size, n);
      i := SomethingCovers(v[..n], v[n].offset, x);
    }
  }

  /** In a tiling list a byte is free just when it is in the buffer and in no used block. */
  lemma FreeIffNotInUse(v: seq<Block>, size: nat, x: int)
    requires Tiles(v, size)
    ensures FreeByte(v, x) <==> 0 <= x < size && !InUse(Used(v), x)
  {
    hide Tiles, Used;
    if 0 <= x < size {
      var i := SomethingCovers(v, size, x);
      UsedElements(v, v[i]);
      forall j | Covers(v, j, x) ensures j == i {
        if j != i {
          BlocksDisjoint(v, size, i, j);
        }
      }
      if InUse(Used(v), x) {
        var k :| 0 <= k < |Used(v)| && Used(v)[k].offset <= x < Used(v)[k].End();
        UsedElements(v, Used(v)[k]);
        var j :| 0 <= j < |v| && v[j] == Used(v)[k];
        assert Covers(v, j, x);
      }
    } else if i :| Covers(v, i, x) {
      WithinSize(v, size, i);
    }
  }

  lemma {:induction false} UsedTotalIsLength(v: seq<Block>)
    ensures UsedTotal(v) == Length(Used(v))
    decreases |v|
  {
    if v != [] {
      var n := |v| - 1;
      UsedTotalIsLength(v[..n]);
      if v[n].used {
        assert Used(v) == Used(v[..n]) + [v[n]];
        LengthSplit(Used(v[..n]), [v[n]]);
        LengthOfOne(v[n]);
      } else {
        assert Used(v) == Used(v[..n]);
      }
    }
  }

  lemma LengthOfThree(x: seq<Block>, u: Block, y: seq<Block>)
    ensures Length(x + [u] + y) == Length(x + y) + u.length
  {
    hide Length;
    LengthSplit(x, [u]);
    LengthSplit(x + [u], y);
    LengthSplit(x, y);
    LengthOfOne(u);
  }

  lemma UsedInThree(x: seq<Block>, u: Block, y: seq<Block>)
    ensures Used(x + [u] + y) == Used(x) + (if u.used then [u] else []) + Used(y)
  {
    hide Used;
    UsedOfOne(u);
    UsedSplit(x, [u]);
    UsedSplit(x + [u], y);
  }

  lemma UsedOfOne(u: Block)
    ensures Used([u]) == if u.used then [u] else []
  {
    assert [u][..0] == [];
  }

  lemma UsedAround(v: seq<Block>, i: nat)
    requires i < |v|
    ensures Used(v) == Used(v[..i]) + (if v[i].used then [v[i]] else []) + Used(v[i + 1..])
  {
    hide Used;
    PutTogether(v, i);
    UsedInThree(v[..i], v[i], v[i + 1..]);
  }

  lemma PutTogether(v: seq<Block>, i: nat)
    requires i < |v|
    ensures v[..i] + [v[i]] + v[i + 1..] == v
  {
  }

  lemma {:induction false} UsedOfUsed(t: seq<Block>)
    requires forall i :: 0 <= i < |t| ==> t[i].used
    ensures Used(t) == t
    decreases |t|
  {
    if t != [] {
      UsedOfUsed(t[..|t| - 1]);
    }
  }

  /** The list after a move to a later place and merging. */
  function Settled(v: seq<Block>, b: nat, n: nat): seq<Block>
    requires b < |v| && 0 < n <= Chosen(v, b, n).length && b < Chosen(v, b, n).at
  {
    Coalesce(Grown(v, b, n).value)
  }

  /** The pointer's block after such a move. */
  function Destination(v: seq<Block>, b: nat, n: nat): Block
    requires 0 < n <= Chosen(v, b, n).length
  {
    Block(v[Chosen(v, b, n).at].offset, n, true)
  }

  /** What it consists of. */
  lemma SettledIs(v: seq<Block>, b: nat, n: nat)
    requires b < |v| && 0 < n <= Chosen(v, b, n).length && b < Chosen(v, b, n).at
    ensures var at, to := Chosen(v, b, n).at, Destination(v, b, n);
      Settled(v, b, n) == Coalesce(Release(v, b)[..at]) + [to]
        + ([Block(to.End(), Chosen(v, b, n).length - n, false)] + Used(v[at + 1..]))
  {
    hide Chosen, Used, Coalesce;
    var at, to := Chosen(v, b, n).at, Destination(v, b, n);
    var front, rest := Release(v, b)[..at], Block(to.End(), Chosen(v, b, n).length - n, false);
    UsedAreUsed(v[at + 1..]);
    CoalesceAroundRest(front, to, rest, Used(v[at + 1..]));
    assert Coalesce(front) + [to] + [rest] + Used(v[at + 1..])
        == Coalesce(front) + [to] + ([rest] + Used(v[at + 1..]));
  }

  lemma UsedBefore(v: seq<Block>, b: nat, at: nat)
    requires b < at < |v| && v[b].used && !v[at].used
    ensures Used(v) == Used(v[..b]) + [v[b]] + (Used(v[b + 1..at]) + Used(v[at + 1..]))
  {
    hide Used;
    UsedAround(v, at);
    UsedAround(v[..at], b);
    assert v[..at][..b] == v[..b] && v[..at][b + 1..] == v[b + 1..at];
    var x, y, z := Used(v[..b]), Used(v[b + 1..at]), Used(v[at + 1..]);
    assert x + [v[b]] + y + [] + z == x + [v[b]] + (y + z);
  }

  lemma UsedInFront(v: seq<Block>, b: nat, at: nat)
    requires b < at < |v|
    ensures Used(Coalesce(Release(v, b)[..at])) == Used(v[..b]) + Used(v[b + 1..at])
  {
    hide Used, Coalesce;
    var front := Release(v, b)[..at];
    CoalesceKeepsTotals(front);
    UsedAround(front, b);
    assert front[..b] == v[..b] && front[b + 1..] == v[b + 1..at];
    assert Used(v[..b]) + [] == Used(v[..b]);
  }

  lemma UsedBehind(rest: Block, t: seq<Block>)
    requires !rest.used && forall i :: 0 <= i < |t| ==> t[i].used
    ensures Used([rest] + t) == t
  {
    hide Used;
    UsedSplit([rest], t);
    UsedOfOne(rest);
    UsedOfUsed(t);
    assert [] + t == t;
  }

  /** The blocks in use before and after: x and y and z stay. */
  lemma UsedByMove(v: seq<Block>, b: nat, n: nat, size: nat) returns (x: seq<Block>, y: seq<Block>, z: seq<Block>)
    requires Ok(v, size) && b < |v| && v[b].used && 0 < n <= Chosen(v, b, n).length && b < Chosen(v, b, n).at
    ensures Used(v) == x + [v[b]] + (y + z)
    ensures Used(Settled(v, b, n)) == x + y + [Destination(v, b, n)] + z
  {
    var end := LaterPlaceIsFirstFit(v, b, n, size);
    SettledIs(v, b, n);
    hide Chosen, Used, Coalesce, Ok, Settled;
    var at, to := Chosen(v, b, n).at, Destination(v, b, n);
    var front, rest := Release(v, b)[..at], Block(to.End(), Chosen(v, b, n).length - n, false);
    x, y, z := Used(v[..b]), Used(v[b + 1..at]), Used(v[at + 1..]);
    UsedBefore(v, b, at);
    UsedInFront(v, b, at);
    UsedAreUsed(v[at + 1..]);
    UsedBehind(rest, z);
    UsedInThree(Coalesce(front), to, [rest] + z);
  }

  lemma OldBytesAreFree(v: seq<Block>, b: nat, n: nat, size: nat, x: int)
    requires Ok(v, size) && b < |v| && v[b].used && 0 < n <= Chosen(v, b, n).length && b < Chosen(v, b, n).at
    requires Covers(v, b, x)
    ensures FreeByte(Settled(v, b, n), x)
  {
    SettledIs(v, b, n);
    hide Chosen, Used, Coalesce, Coalesced, Settled;
    var at := Chosen(v, b, n).at;
    var front := Release(v, b)[..at];
    ReleaseTiles(v, b, size, at);
    assert Covers(front, b, x) && !front[b].used;
    CoalesceKeepsByte(front, Start(v, at), x);
    var to := Destination(v, b, n);
    FreeInLonger(Coalesce(front), [to], x);
    FreeInLonger(Coalesce(front) + [to], [Block(to.End(), Chosen(v, b, n).length - n, false)] + Used(v[at + 1..]), x);
  }

  lemma FreeInLonger(v: seq<Block>, w: seq<Block>, x: int)
    requires FreeByte(v, x)
    ensures FreeByte(v + w, x)
  {
    var i :| Covers(v, i, x) && !v[i].used;
    assert Covers(v + w, i, x);
  }

  lemma ReplacedInUse(x: seq<Block>, u: Block, y: seq<Block>, z: seq<Block>, to: Block)
    ensures multiset(x + y + [to] + z) == multiset(x + [u] + (y + z)) - multiset{u} + multiset{to}
    ensures Length(x + y + [to] + z) + u.length == Length(x + [u] + (y + z)) + to.length
  {
    hide Length;
    LengthOfThree(x, u, y + z);
    LengthOfThree(x + y, to, z);
    assert x + y + z == x + (y + z);
  }

  /** A move to a later place, whatever is lost behind that: the old block's bytes are free, the other
      used blocks are still there, and the bytes in use are n in place of the block's. */
  lemma MovingReplacesTheBlock(v: seq<Block>, b: nat, n: nat, size: nat)
    requires Ok(v, size) && b < |v| && v[b].used && 0 < n <= Chosen(v, b, n).length && b < Chosen(v, b, n).at
    ensures Replaced(v, b, Settled(v, b, n), Destination(v, b, n))
    ensures UsedTotal(Settled(v, b, n)) + v[b].length == UsedTotal(v) + n
    ensures forall x :: Covers(v, b, x) ==> FreeByte(Settled(v, b, n), x)
  {
    forall x | Covers(v, b, x) ensures FreeByte(Settled(v, b, n), x) {
      OldBytesAreFree(v, b, n, size, x);
    }
    var x, y, z := UsedByMove(v, b, n, size);
    hide Chosen, Used, Settled, Length, UsedTotal, FreeByte, Ok;
    UsedTotalIsLength(v);
    UsedTotalIsLength(Settled(v, b, n));
    ReplacedInUse(x, v[b], y, z, Destination(v, b, n));
  }

  /** And with no free byte behind the place, a byte is free afterwards just when it was free and is not
      one of the new n, or was one of the block's own. */
  lemma MovingFreesTheOldBytes(v: seq<Block>, b: nat, n: nat, size: nat, x: int)
    requires Ok(v, size) && b < |v| && v[b].used && 0 < n <= Chosen(v, b, n).length && b < Chosen(v, b, n).at
    requires FreeTotal(v[Chosen(v, b, n).at + 1..]) == 0
    ensures var to := Destination(v, b, n);
      FreeByte(Settled(v, b, n), x) <==> Covers(v, b, x) || (FreeByte(v, x) && !(to.offset <= x < to.End()))
  {
    SettledTiles(v, b, n, size);
    hide Chosen, Used, Settled, FreeTotal, Coalesced, Solid, Tiles;
    var end := LaterPlaceIsFirstFit(v, b, n, size);
    FreeIffNotInUse(v, size, x);
    FreeIffNotInUse(Settled(v, b, n), size, x);
    WithinSize(v, size, Chosen(v, b, n).at);
    if Covers(v, b, x) {
      OldBytesAreFree(v, b, n, size, x);
    } else {
      MoveKeepsInUse(v, b, n, size, x);
    }
  }

  lemma SettledTiles(v: seq<Block>, b: nat, n: nat, size: nat)
    requires Ok(v, size) && b < |v| && 0 < n <= Chosen(v, b, n).length && b < Chosen(v, b, n).at
    requires FreeTotal(v[Chosen(v, b, n).at + 1..]) == 0
    ensures Tiles(Settled(v, b, n), size)
  {
    hide Chosen, Coalesce, FreeTotal, Used, Ok, Tiles;
    GrowingTiles(v, b, n, size);
    CoalesceTiles(Grown(v, b, n).value, size);
  }

  lemma MoveKeepsInUse(v: seq<Block>, b: nat, n: nat, size: nat, x: int)
    requires Ok(v, size) && b < |v| && v[b].used && 0 < n <= Chosen(v, b, n).length && b < Chosen(v, b, n).at
    requires !Covers(v, b, x)
    ensures var to := Destination(v, b, n);
      InUse(Used(Settled(v, b, n)), x) <==> InUse(Used(v), x) || to.offset <= x < to.End()
  {
    var p, q, z := UsedByMove(v, b, n, size);
    hide Chosen, Used, Settled, Ok, InUse, Destination;
    InUseReplaced(p, v[b], q, z, Destination(v, b, n), x);
  }

  lemma InUseReplaced(p: seq<Block>, u: Block, q: seq<Block>, z: seq<Block>, to: Block, x: int)
    requires !(u.offset <= x < u.End())
    ensures InUse(p + q + [to] + z, x) <==> InUse(p + [u] + (q + z), x) || to.offset <= x < to.End()
  {
    hide InUse;
    InUseOfThree(p, u, q + z, x);
    InUseOfThree(p + q, to, z, x);
    assert p + q + z == p + (q + z);
  }

  lemma InUseOfThree(p: seq<Block>, u: Block, q: seq<Block>, x: int)
    ensures InUse(p + [u] + q, x) <==> InUse(p + q, x) || u.offset <= x < u.End()
  {
    var all, rest := p + [u] + q, p + q;
    assert all[|p|] == u;
    assert forall i :: 0 <= i < |p| ==> all[i] == rest[i];
    assert forall i :: |p| <= i < |rest| ==> all[i + 1] == rest[i];
    assert forall i :: |p| < i < |all| ==> all[i] == rest[i - 1];
  }

  /** Growing is right just when no n available bytes in a row begin at the block or before it, and
      the first free block behind it that is large enough has no free byte behind it, and is larger
      than needed or has nothing behind it. It never is when the block can grow where it is. */
  lemma GrowthIsRightExactly(v: seq<Block>, b: nat, n: nat, size: nat)
    requires Ok(v, size) && b < |v| && v[b].used && v[b].length < n <= Chosen(v, b, n).length
    ensures
      var k := FirstFit(v, n, b + 1);
      GrowthIsRight(v, b, n, size) <==>
        && !EarlyRow(v, b, n) && k < |v| && FreeTotal(v[k + 1..]) == 0
        && (n < v[k].length || Used(v[k + 1..]) == [])
  {
    hide Chosen, FreeTotal, Used, Ok, Tiles, Length, Coalesce, Coalesced, EarlyRow, Grown;
    var end := LaterPlaceIsFirstFit(v, b, n, size);
    var c := Chosen(v, b, n);
    if b < c.at {
      LaterGrowthIsRightExactly(v, b, n, size);
    } else {
      NeverRightInPlace(v, b, n, size);
    }
  }

  lemma NeverRightInPlace(v: seq<Block>, b: nat, n: nat, size: nat)
    requires b < |v| && 0 < n <= Chosen(v, b, n).length && Chosen(v, b, n).at <= b
    ensures !GrowthIsRight(v, b, n, size)
  {
    hide Chosen, Used, Ok;
  }

  lemma LaterGrowthIsRightExactly(v: seq<Block>, b: nat, n: nat, size: nat)
    requires Ok(v, size) && b < |v| && v[b].used && 0 < n <= Chosen(v, b, n).length && b < Chosen(v, b, n).at
    ensures
      var c := Chosen(v, b, n);
      GrowthIsRight(v, b, n, size) <==>
        FreeTotal(v[c.at + 1..]) == 0 && (n < c.length || Used(v[c.at + 1..]) == [])
  {
    hide Chosen, FreeTotal, Used, Length, Coalesce, Grown;
    TakenIsUsed(v, b, n);
    var c, g := Chosen(v, b, n), Grown(v, b, n).value;
    var row := LaterPlaceIsFirstFit(v, b, n, size);
    var end := GrowingLosesBytes(v, b, n, size);
    CoalesceKeepsLength(g);
    if GrowthIsRight(v, b, n, size) {
      LengthOfOk(Coalesce(g), size);
      RightMeansRoomOrEnd(v, b, n, size);
    }
    if FreeTotal(v[c.at + 1..]) == 0 && (n < c.length || Used(v[c.at + 1..]) == []) {
      GrowingTiles(v, b, n, size);
      GrowingIsSolid(v, b, n, size);
      CoalesceKeeps(g, size);
      MovingReplacesTheBlock(v, b, n, size);
    }
  }

  lemma TakenIsUsed(v: seq<Block>, b: nat, n: nat)
    requires b < |v| && 0 < n <= Chosen(v, b, n).length && b < Chosen(v, b, n).at
    ensures var g, at := Grown(v, b, n), Chosen(v, b, n).at;
      g.Some? && at < |g.value| && g.value[at] == Block(v[at].offset, n, true)
  {
    hide Chosen, Used;
  }

  // ----- The bytes -----

  /** memmove of len bytes between two places that do not overlap. */
  function Moved(c: string, dst: nat, src: nat, len: nat): (d: string)
    requires dst + len <= |c| && src + len <= |c|
    ensures |d| == |c|
  {
    c[..dst] + c[src..src + len] + c[dst + len..]
  }

  ghost predicate Apart(o: nat, l: nat, p: nat, m: nat) {
    o + l <= p || p + m <= o
  }

  lemma MovedBytes(c: string, dst: nat, src: nat, len: nat, o: nat, l: nat)
    requires dst + len <= |c| && src + len <= |c| && o + l <= |c|
    ensures Moved(c, dst, src, len)[dst..dst + len] == c[src..src + len]
    ensures Apart(o, l, dst, len) ==> Moved(c, dst, src, len)[o..o + l] == c[o..o + l]
  {
  }

  /** The block's bytes are at the new place, and all other used blocks have theirs. */
  lemma GrowingKeepsBytes(v: seq<Block>, b: nat, n: nat, size: nat, c: string)
    requires Ok(v, size) && |c| == size && b < |v| && v[b].length < n <= Chosen(v, b, n).length
    requires b < Chosen(v, b, n).at
    ensures
      var from, to := v[b], v[Chosen(v, b, n).at];
      && to.offset + from.length <= size && from.End() <= size
      && var d := Moved(c, to.offset, from.offset, from.length);
      && d[to.offset..to.offset + from.length] == c[from.offset..from.End()]
      && forall j :: 0 <= j < |v| && v[j].used && j != b ==>
           v[j].End() <= size && d[v[j].offset..v[j].End()] == c[v[j].offset..v[j].End()]
  {
    hide Chosen, Moved, Coalesced, Solid;
    var end := LaterPlaceIsFirstFit(v, b, n, size);
    var at := Chosen(v, b, n).at;
    WithinSize(v, size, at);
    WithinSize(v, size, b);
    MovedBytes(c, v[at].offset, v[b].offset, v[b].length, 0, 0);
    var d := Moved(c, v[at].offset, v[b].offset, v[b].length);
    forall j | 0 <= j < |v| && v[j].used && j != b
      ensures v[j].End() <= size && d[v[j].offset..v[j].End()] == c[v[j].offset..v[j].End()]
    {
      WithinSize(v, size, j);
      BlocksDisjoint(v, size, j, at);
      MovedBytes(c, v[at].offset, v[b].offset, v[b].length, v[j].offset, v[j].length);
    }
  }

  // ----- Growing in place -----

  /** A first block with a large enough free block right behind it ends up marked free, although its
      pointer keeps referring to it. */
  lemma GrowingInPlaceLosesTheBlock(v: seq<Block>, size: nat, n: nat)
    requires Ok(v, size) && |v| >= 2 && v[0].used && !v[1].used && v[0].length < n <= v[0].length + v[1].length
    ensures Chosen(v, 0, n).at == 0 && n <= Chosen(v, 0, n).length
    ensures Grown(v, 0, n).Some? && |Grown(v, 0, n).value| > 0
    ensures Grown(v, 0, n).value[0] == Block(v[0].offset, n, false)
  {
    hide Used;
    assert Parted(v, 1);
    var one, two := Candidate(0, v[0].length), Candidate(0, v[0].length + v[1].length);
    assert Search(v, 0, n, 2, two) == two;
    assert Search(v, 0, n, 1, one) == Search(v, 0, n, 2, two);
    assert Chosen(v, 0, n) == Search(v, 0, n, 1, one);
  }

  /** Such a list is what one request leaves: allocate k bytes of a new buffer, then ask for more. */
  lemma FirstGrowthLosesTheBlock(size: nat, k: nat, n: nat)
    requires 0 < k < n <= size
    ensures var v := Place([Block(0, size, false)], 0, k);
      && Ok(v, size) && n <= Chosen(v, 0, n).length
      && Grown(v, 0, n).Some? && |Grown(v, 0, n).value| > 0 && !Grown(v, 0, n).value[0].used
  {
    var whole := [Block(0, size, false)];
    assert Adjoins(whole, 0) && Parted(whole, 0);
    PlaceKeepsOk(whole, size, 0, k);
    assert Place(whole, 0, k) == [Block(0, k, true), Block(k, size - k, false)];
    GrowingInPlaceLosesTheBlock(Place(whole, 0, k), size, n);
  }
}
