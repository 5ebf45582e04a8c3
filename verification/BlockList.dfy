/** The list of memory blocks as a value: what first fit, coalescing and compaction do to it. */
module BlockList {

  datatype Block = Block(offset: nat, length: nat, used: bool) {
    function End(): nat {
      offset + length
    }
  }

  // ----- Well-formed lists -----

  ghost predicate Adjoins(v: seq<Block>, i: int)
    requires 0 <= i < |v|
  {
    v[i].offset == if i == 0 then 0 else v[i-1].End()
  }

  /** The blocks cover [0, size) in order, without gap or overlap. */
  ghost predicate Tiles(v: seq<Block>, size: nat) {
    && (forall i :: 0 <= i < |v| ==> Adjoins(v, i))
    && size == (if v == [] then 0 else v[|v| - 1].End())
  }

  ghost predicate Parted(v: seq<Block>, i: int)
    requires 0 <= i < |v|
  {
    i + 1 < |v| ==> v[i].used || v[i+1].used
  }

  /** No two neighbouring blocks are free. */
  ghost predicate Coalesced(v: seq<Block>) {
    forall i :: 0 <= i < |v| ==> Parted(v, i)
  }

  /** Only a free block at the very end may be empty: compacting a full buffer leaves one there. */
  ghost predicate Solid(v: seq<Block>) {
    forall i :: 0 <= i < |v| ==> v[i].length > 0 || (!v[i].used && i == |v| - 1)
  }

  ghost predicate Ok(v: seq<Block>, size: nat) {
    Tiles(v, size) && Coalesced(v) && Solid(v)
  }

  ghost predicate Covers(v: seq<Block>, i: int, x: int) {
    0 <= i < |v| && v[i].offset <= x < v[i].End()
  }

  ghost predicate FreeByte(v: seq<Block>, x: int) {
    exists i :: Covers(v, i, x) && !v[i].used
  }

  /** N bytes in a row that no used block contains. */
  ghost predicate FreeRun(v: seq<Block>, o: int, n: nat) {
    forall x :: o <= x < o + n ==> FreeByte(v, x)
  }

  function FreeTotal(v: seq<Block>): nat {
    if v == [] then 0
    else FreeTotal(v[..|v| - 1]) + if v[|v| - 1].used then 0 else v[|v| - 1].length
  }

  function UsedTotal(v: seq<Block>): nat {
    if v == [] then 0
    else UsedTotal(v[..|v| - 1]) + if v[|v| - 1].used then v[|v| - 1].length else 0
  }

  /** The used blocks, in order. */
  function Used(v: seq<Block>): seq<Block> {
    if v == [] then []
    else Used(v[..|v| - 1]) + if v[|v| - 1].used then [v[|v| - 1]] else []
  }

  // ----- Tiling facts -----

  lemma TilesPrefix(v: seq<Block>, size: nat, n: nat)
    requires Tiles(v, size) && n <= |v|
    ensures Tiles(v[..n], if n == 0 then 0 else v[n-1].End())
  {
    forall i | 0 <= i < n
      ensures Adjoins(v[..n], i)
    {
      assert Adjoins(v, i);
    }
  }

  lemma {:induction false} TilesInOrder(v: seq<Block>, size: nat, i: nat, j: nat)
    requires Tiles(v, size) && i < j < |v|
    ensures v[i].End() <= v[j].offset
    decreases j - i
  {
    assert Adjoins(v, j);
    if i + 1 < j {
      TilesInOrder(v, size, i, j - 1);
    }
  }

  /** Distinct blocks have no byte in common. */
  lemma BlocksDisjoint(v: seq<Block>, size: nat, i: nat, j: nat)
    requires Tiles(v, size) && i < |v| && j < |v| && i != j
    ensures v[i].End() <= v[j].offset || v[j].End() <= v[i].offset
  {
    if i < j {
      TilesInOrder(v, size, i, j);
    } else {
      TilesInOrder(v, size, j, i);
    }
  }

  lemma WithinSize(v: seq<Block>, size: nat, i: nat)
    requires Tiles(v, size) && i < |v|
    ensures v[i].End() <= size
  {
    if i < |v| - 1 {
      TilesInOrder(v, size, i, |v| - 1);
    }
  }

  // ----- First fit -----

  /** The first free block from i on with at least n bytes, or |v|. */
  function FirstFit(v: seq<Block>, n: nat, i: nat): (r: nat)
    requires i <= |v|
    ensures i <= r <= |v|
    ensures forall j :: i <= j < r ==> v[j].used || v[j].length < n
    ensures r < |v| ==> !v[r].used && v[r].length >= n
    decreases |v| - i
  {
    if i == |v| || (!v[i].used && v[i].length >= n) then i else FirstFit(v, n, i + 1)
  }

  /** In a coalesced list a run of free bytes lies within one free block. */
  lemma RunInOneBlock(v: seq<Block>, size: nat, o: int, n: nat) returns (i: nat)
    requires Ok(v, size) && n > 0 && FreeRun(v, o, n)
    ensures i < |v| && !v[i].used && v[i].offset <= o && o + n <= v[i].End()
  {
    assert FreeByte(v, o);
    i :| Covers(v, i, o) && !v[i].used;
    if v[i].End() < o + n {
      var x := v[i].End();
      assert FreeByte(v, x);
      var j :| Covers(v, j, x) && !v[j].used;
      assert Parted(v, i);
      assert i + 1 < |v| ==> Adjoins(v, i + 1);
      if j < i {
        TilesInOrder(v, size, j, i);
      } else if i + 1 < j {
        TilesInOrder(v, size, i + 1, j);
      }
    }
  }

  lemma BlockIsRun(v: seq<Block>, i: nat, n: nat)
    requires i < |v| && !v[i].used && v[i].length >= n
    ensures FreeRun(v, v[i].offset, n)
  {
    forall x | v[i].offset <= x < v[i].offset + n
      ensures FreeByte(v, x)
    {
      assert Covers(v, i, x);
    }
  }

  /** First fit fails exactly if no n free bytes lie in a row anywhere, and otherwise finds the
      lowest place where n bytes are free. */
  lemma FirstFitIsLowest(v: seq<Block>, size: nat, n: nat)
    requires Ok(v, size) && n > 0
    ensures FirstFit(v, n, 0) == |v| <==> forall o :: !FreeRun(v, o, n)
    ensures
      var i := FirstFit(v, n, 0);
      i < |v| ==> FreeRun(v, v[i].offset, n) && forall o :: FreeRun(v, o, n) ==> v[i].offset <= o
  {
    var i := FirstFit(v, n, 0);
    if i < |v| {
      BlockIsRun(v, i, n);
    }
    forall o | FreeRun(v, o, n)
      ensures i < |v| && v[i].offset <= o
    {
      var j := RunInOneBlock(v, size, o, n);
      if i < j {
        TilesInOrder(v, size, i, j);
      }
    }
  }

  // ----- alloc: the found block is used, and what it has over becomes a new free block -----

  function Place(v: seq<Block>, i: nat, n: nat): seq<Block>
    requires i < |v| && v[i].length >= n
  {
    var w := v[i := Block(v[i].offset, n, true)];
    if v[i].length == n then w
    else w[..i + 1] + [Block(v[i].offset + n, v[i].length - n, false)] + w[i + 1..]
  }

  lemma PlaceIs(v: seq<Block>, i: nat, n: nat)
    requires i < |v| && v[i].length >= n
    ensures var w := v[i := Block(v[i].offset, n, true)];
      Place(v, i, n) == if v[i].length == n then w
                        else w[..i + 1] + [Block(v[i].offset + n, v[i].length - n, false)] + w[i + 1..]
  {
  }

  lemma InsertElements(t: seq<Block>, k: nat, x: Block)
    requires k <= |t|
    ensures var w := t[..k] + [x] + t[k..];
      && |w| == |t| + 1 && w[k] == x
      && (forall j :: 0 <= j < k ==> w[j] == t[j])
      && (forall j :: k < j < |w| ==> w[j] == t[j - 1])
  {
  }

  /** What lies where afterwards; d blocks have come in between. */
  lemma {:induction false} PlaceElements(v: seq<Block>, i: nat, n: nat)
    requires i < |v| && v[i].length >= n
    ensures var w, d := Place(v, i, n), if v[i].length == n then 0 else 1;
      && |w| == |v| + d && w[i] == Block(v[i].offset, n, true)
      && (forall j :: 0 <= j < i ==> w[j] == v[j])
      && (forall j :: i + d < j < |w| ==> w[j] == v[j - d])
      && (d == 1 ==> w[i + 1] == Block(v[i].offset + n, v[i].length - n, false))
  {
    hide Place;
    PlaceIs(v, i, n);
    if v[i].length > n {
      InsertElements(v[i := Block(v[i].offset, n, true)], i + 1, Block(v[i].offset + n, v[i].length - n, false));
    }
  }

  lemma PlaceKeepsOrder(v: seq<Block>, size: nat, i: nat, n: nat, j: nat)
    requires Tiles(v, size) && Coalesced(v) && i < |v| && !v[i].used && v[i].length >= n
    requires j < |Place(v, i, n)|
    ensures Adjoins(Place(v, i, n), j) && Parted(Place(v, i, n), j)
  {
    hide Place;
    PlaceElements(v, i, n);
    assert Parted(v, i) && Adjoins(v, i);
    var d := if v[i].length == n then 0 else 1;
    if j < i {
      assert Adjoins(v, j) && Parted(v, j);
    } else if j > i + d {
      assert Adjoins(v, j - d) && Parted(v, j - d);
    }
  }

  lemma PlaceTiles(v: seq<Block>, size: nat, i: nat, n: nat)
    requires Tiles(v, size) && Coalesced(v) && i < |v| && !v[i].used && v[i].length >= n
    ensures Tiles(Place(v, i, n), size) && Coalesced(Place(v, i, n))
  {
    hide Place, Adjoins, Parted;
    PlaceElements(v, i, n);
    var w := Place(v, i, n);
    forall j | 0 <= j < |w|
      ensures Adjoins(w, j) && Parted(w, j)
    {
      PlaceKeepsOrder(v, size, i, n, j);
    }
    assert w[|w| - 1].End() == v[|v| - 1].End();
  }

  lemma PlaceKeepsOk(v: seq<Block>, size: nat, i: nat, n: nat)
    requires Ok(v, size) && i < |v| && !v[i].used && v[i].length >= n > 0
    ensures Ok(Place(v, i, n), size)
  {
    hide Place, Tiles, Coalesced;
    PlaceElements(v, i, n);
    PlaceTiles(v, size, i, n);
  }

  // ----- find_block: the block of a pointer is looked up by its offset -----

  /** The first block from i on that begins at offset, or |v|. */
  function FindOffset(v: seq<Block>, offset: nat, i: nat): (r: nat)
    requires i <= |v|
    ensures i <= r <= |v| && (r < |v| ==> v[r].offset == offset)
    ensures forall j :: i <= j < r ==> v[j].offset != offset
    decreases |v| - i
  {
    if i == |v| || v[i].offset == offset then i else FindOffset(v, offset, i + 1)
  }

  /** A block is found unless an empty one is right before it. */
  lemma FoundIffNotHidden(v: seq<Block>, size: nat, i: nat)
    requires Tiles(v, size) && i < |v|
    ensures FindOffset(v, v[i].offset, 0) == i <==> i == 0 || v[i-1].length > 0
  {
    assert Adjoins(v, i);
    var j := FindOffset(v, v[i].offset, 0);
    if j < i - 1 {
      TilesInOrder(v, size, j, i - 1);
      assert Adjoins(v, i - 1);
    }
  }

  /** Every block is found. */
  ghost predicate AllFound(v: seq<Block>) {
    forall i :: 0 <= i < |v| ==> FindOffset(v, v[i].offset, 0) == i
  }

  lemma AllFoundIffNoneEmpty(v: seq<Block>, size: nat)
    requires Tiles(v, size)
    ensures AllFound(v) <==> forall i :: 0 <= i < |v| - 1 ==> v[i].length > 0
  {
    if AllFound(v) {
      forall i | 0 <= i < |v| - 1 ensures v[i].length > 0 {
        FoundIffNotHidden(v, size, i + 1);
      }
    } else {
      var i :| 0 <= i < |v| && FindOffset(v, v[i].offset, 0) != i;
      FoundIffNotHidden(v, size, i);
    }
  }

  /** So a request of zero bytes hides the block behind it, unless all it finds is the empty block at
      the end; and no other request hides any. */
  lemma ZeroBytesHideTheNext(v: seq<Block>, size: nat, i: nat, n: nat)
    requires Ok(v, size) && i < |v| && !v[i].used && v[i].length >= n
    ensures AllFound(Place(v, i, n)) <==> n > 0 || v[i].length == 0
  {
    hide Place, Tiles, Coalesced, AllFound;
    PlaceElements(v, i, n);
    PlaceTiles(v, size, i, n);
    AllFoundIffNoneEmpty(Place(v, i, n), size);
  }

  // ----- merge_empty_blocks: a free block joins a free block before it, but not an empty one -----

  predicate Joins(acc: seq<Block>, b: Block) {
    acc != [] && !acc[|acc| - 1].used && !b.used && acc[|acc| - 1].length > 0
  }

  function Join(acc: seq<Block>, b: Block): seq<Block> {
    if Joins(acc, b)
    then acc[..|acc| - 1] + [acc[|acc| - 1].(length := acc[|acc| - 1].length + b.length)]
    else acc + [b]
  }

  function Coalesce(v: seq<Block>): seq<Block> {
    if v == [] then [] else Join(Coalesce(v[..|v| - 1]), v[|v| - 1])
  }

  /** Where the used blocks are and which bytes are free. */
  ghost predicate SameMemory(v: seq<Block>, w: seq<Block>) {
    Used(v) == Used(w) && forall x :: FreeByte(v, x) <==> FreeByte(w, x)
  }

  ghost predicate NoneEmpty(v: seq<Block>) {
    forall i :: 0 <= i < |v| ==> v[i].length > 0
  }

  lemma FreeByteSnoc(v: seq<Block>, b: Block, x: int)
    ensures FreeByte(v + [b], x) <==> FreeByte(v, x) || (!b.used && b.offset <= x < b.End())
  {
    var w := v + [b];
    if FreeByte(v, x) {
      var i :| Covers(v, i, x) && !v[i].used;
      assert Covers(w, i, x);
    }
    if !b.used && b.offset <= x < b.End() {
      assert Covers(w, |v|, x);
    }
    if FreeByte(w, x) {
      var i :| Covers(w, i, x) && !w[i].used;
      assert i < |v| ==> Covers(v, i, x);
    }
  }

  lemma TilesSnoc(v: seq<Block>, b: Block, size: nat)
    requires Tiles(v, size) && b.offset == size
    ensures Tiles(v + [b], b.End())
  {
    forall i | 0 <= i < |v + [b]|
      ensures Adjoins(v + [b], i)
    {
      assert i < |v| ==> Adjoins(v, i);
    }
  }

  lemma CoalescedSnoc(v: seq<Block>, b: Block)
    requires Coalesced(v) && (v != [] ==> v[|v| - 1].used || b.used)
    ensures Coalesced(v + [b])
  {
    forall i | 0 <= i < |v + [b]|
      ensures Parted(v + [b], i)
    {
      assert i < |v| ==> Parted(v, i);
    }
  }

  lemma CoalescedPrefix(v: seq<Block>, n: nat)
    requires Coalesced(v) && n <= |v|
    ensures Coalesced(v[..n])
  {
    forall i | 0 <= i < n
      ensures Parted(v[..n], i)
    {
      assert Parted(v, i);
    }
  }

  lemma JoinKeepsOk(acc: seq<Block>, b: Block)
    requires Ok(acc, b.offset) && NoneEmpty(acc) && (b.length > 0 || !b.used)
    ensures Ok(Join(acc, b), b.End())
    ensures b.length > 0 ==> NoneEmpty(Join(acc, b))
  {
    if acc != [] && !acc[|acc| - 1].used && !b.used {
      var k := |acc| - 1;
      var last := acc[k];
      TilesPrefix(acc, b.offset, k);
      CoalescedPrefix(acc, k);
      assert Adjoins(acc, k);
      assert k > 0 ==> Parted(acc, k - 1);
      TilesSnoc(acc[..k], last.(length := last.length + b.length), last.offset);
      CoalescedSnoc(acc[..k], last.(length := last.length + b.length));
    } else {
      TilesSnoc(acc, b, b.offset);
      CoalescedSnoc(acc, b);
    }
  }

  /** Merging keeps the list tiling, with or without empty blocks in it. */
  lemma {:induction false} CoalesceTiles(v: seq<Block>, size: nat)
    requires Tiles(v, size)
    ensures Tiles(Coalesce(v), size)
  {
    hide Tiles, Adjoins;
    if v != [] {
      var n, b := |v| - 1, v[|v| - 1];
      LastOfTiles(v, size);
      CoalesceTiles(v[..n], b.offset);
      var acc := Coalesce(v[..n]);
      if Joins(acc, b) {
        LastOfTiles(acc, b.offset);
        var last := acc[|acc| - 1];
        TilesSnoc(acc[..|acc| - 1], last.(length := last.length + b.length), last.offset);
      } else {
        TilesSnoc(acc, b, b.offset);
      }
    }
  }

  lemma LastOfTiles(v: seq<Block>, size: nat)
    requires Tiles(v, size) && v != []
    ensures Tiles(v[..|v| - 1], v[|v| - 1].offset) && v[|v| - 1].End() == size
  {
    TilesPrefix(v, size, |v| - 1);
    assert Adjoins(v, |v| - 1);
  }

  lemma JoinKeepsBytes(acc: seq<Block>, b: Block, x: int)
    requires Tiles(acc, b.offset)
    ensures FreeByte(Join(acc, b), x) <==> FreeByte(acc + [b], x)
  {
    FreeByteSnoc(acc, b, x);
    if acc != [] && !acc[|acc| - 1].used && !b.used {
      var k := |acc| - 1;
      FreeByteSnoc(acc[..k], acc[k], x);
      assert acc[..k] + [acc[k]] == acc;
      FreeByteSnoc(acc[..k], acc[k].(length := acc[k].length + b.length), x);
    }
  }

  lemma UsedSnoc(v: seq<Block>, b: Block)
    ensures Used(v + [b]) == Used(v) + if b.used then [b] else []
  {
    assert (v + [b])[..|v|] == v;
  }

  lemma JoinKeepsTotals(acc: seq<Block>, b: Block)
    ensures Used(Join(acc, b)) == Used(acc + [b])
    ensures FreeTotal(Join(acc, b)) == FreeTotal(acc + [b])
  {
    UsedSnoc(acc, b);
    if acc != [] && !acc[|acc| - 1].used && !b.used {
      var k := |acc| - 1;
      assert acc[..k] + [acc[k]] == acc;
      UsedSnoc(acc[..k], acc[k]);
      UsedSnoc(acc[..k], acc[k].(length := acc[k].length + b.length));
    }
  }

  lemma {:induction false} CoalesceKeepsOk(v: seq<Block>, size: nat)
    requires Tiles(v, size) && Solid(v)
    ensures Ok(Coalesce(v), size)
    ensures NoneEmpty(v) ==> NoneEmpty(Coalesce(v))
  {
    hide Join;
    if v != [] {
      var n, b := |v| - 1, v[|v| - 1];
      assert Adjoins(v, n);
      TilesPrefix(v, size, n);
      CoalesceKeepsOk(v[..n], b.offset);
      JoinKeepsOk(Coalesce(v[..n]), b);
    }
  }

  lemma {:induction false} CoalesceKeepsTotals(v: seq<Block>)
    ensures Used(Coalesce(v)) == Used(v) && FreeTotal(Coalesce(v)) == FreeTotal(v)
  {
    hide Join;
    if v != [] {
      var n, b := |v| - 1, v[|v| - 1];
      CoalesceKeepsTotals(v[..n]);
      JoinKeepsTotals(Coalesce(v[..n]), b);
      UsedSnoc(Coalesce(v[..n]), b);
    }
  }

  lemma {:induction false} CoalesceKeepsByte(v: seq<Block>, size: nat, x: int)
    requires Tiles(v, size) && Solid(v)
    ensures FreeByte(v, x) <==> FreeByte(Coalesce(v), x)
  {
    hide Join, FreeByte;
    if v != [] {
      var n, b := |v| - 1, v[|v| - 1];
      assert Adjoins(v, n);
      TilesPrefix(v, size, n);
      CoalesceKeepsByte(v[..n], b.offset, x);
      CoalesceKeepsOk(v[..n], b.offset);
      JoinKeepsBytes(Coalesce(v[..n]), b, x);
      FreeByteSnoc(Coalesce(v[..n]), b, x);
      FreeByteSnoc(v[..n], b, x);
      assert v[..n] + [b] == v;
    }
  }

  /** Coalescing keeps the tiling, moves nothing, and leaves no two free neighbours. */
  lemma {:induction false} CoalesceKeeps(v: seq<Block>, size: nat)
    requires Tiles(v, size) && Solid(v)
    ensures Ok(Coalesce(v), size) && SameMemory(v, Coalesce(v))
    ensures FreeTotal(Coalesce(v)) == FreeTotal(v)
  {
    CoalesceKeepsOk(v, size);
    CoalesceKeepsTotals(v);
    forall x
      ensures FreeByte(v, x) <==> FreeByte(Coalesce(v), x)
    {
      CoalesceKeepsByte(v, size, x);
    }
  }

  // ----- free and the shrinking realloc -----

  /** Block i is marked free, and not yet joined to its neighbours. */
  function Release(v: seq<Block>, i: nat): seq<Block>
    requires i < |v|
  {
    v[i := v[i].(used := false)]
  }

  lemma ReleaseKeeps(v: seq<Block>, size: nat, i: nat)
    requires Ok(v, size) && i < |v| && v[i].used
    ensures Tiles(Release(v, i), size) && Solid(Release(v, i))
    ensures forall x :: FreeByte(Release(v, i), x) <==> FreeByte(v, x) || Covers(v, i, x)
  {
    var w := Release(v, i);
    forall j | 0 <= j < |w|
      ensures Adjoins(w, j)
    {
      assert Adjoins(v, j);
    }
    forall x
      ensures FreeByte(w, x) <==> FreeByte(v, x) || Covers(v, i, x)
    {
      assert forall j :: Covers(w, j, x) <==> Covers(v, j, x);
      if FreeByte(v, x) {
        var j :| Covers(v, j, x) && !v[j].used;
        assert Covers(w, j, x) && !w[j].used;
      }
      if Covers(v, i, x) {
        assert Covers(w, i, x) && !w[i].used;
      }
    }
  }

  /** Block i keeps its first n bytes; the rest becomes a free block, not yet joined to the next. */
  function Cut(v: seq<Block>, i: nat, n: nat): seq<Block>
    requires i < |v| && n < v[i].length
  {
    v[..i] + [v[i].(length := n), Block(v[i].offset + n, v[i].length - n, false)] + v[i + 1..]
  }

  lemma CutKeeps(v: seq<Block>, size: nat, i: nat, n: nat)
    requires Ok(v, size) && i < |v| && v[i].used && 0 < n < v[i].length
    ensures Tiles(Cut(v, i, n), size) && Solid(Cut(v, i, n))
    ensures forall x :: FreeByte(Cut(v, i, n), x) <==> FreeByte(v, x) || v[i].offset + n <= x < v[i].End()
  {
    var w := Cut(v, i, n);
    forall j | 0 <= j < |w|
      ensures Adjoins(w, j)
    {
      assert j <= i ==> Adjoins(v, j);
      assert j > i + 1 ==> w[j] == v[j - 1] && Adjoins(v, j - 1);
    }
    forall x
      ensures FreeByte(w, x) <==> FreeByte(v, x) || v[i].offset + n <= x < v[i].End()
    {
      CutBytes(v, i, n, x);
    }
  }

  lemma CutBytes(v: seq<Block>, i: nat, n: nat, x: int)
    requires i < |v| && v[i].used && n < v[i].length
    ensures FreeByte(Cut(v, i, n), x) <==> FreeByte(v, x) || v[i].offset + n <= x < v[i].End()
  {
    var w := Cut(v, i, n);
    if FreeByte(v, x) {
      var j :| Covers(v, j, x) && !v[j].used;
      assert Covers(w, if j < i then j else j + 1, x);
    }
    if v[i].offset + n <= x < v[i].End() {
      assert Covers(w, i + 1, x);
    }
    if FreeByte(w, x) {
      var j :| Covers(w, j, x) && !w[j].used;
      assert j < i ==> Covers(v, j, x);
      assert j > i + 1 ==> w[j] == v[j - 1] && Covers(v, j - 1, x);
    }
  }

  // ----- defrag -----

  /** The used blocks, each moved down to the end of the one before. */
  function Slide(v: seq<Block>): (r: seq<Block>)
    ensures |r| <= |v|
  {
    if v == [] then []
    else
      var n := |v| - 1;
      Slide(v[..n]) + if v[n].used then [v[n].(offset := UsedTotal(v[..n]))] else []
  }

  /** All free space is one block at the end, even if there is none. */
  function Compact(v: seq<Block>): seq<Block> {
    Slide(v) + [Block(UsedTotal(v), FreeTotal(v), false)]
  }

  lemma {:induction false} TotalsMakeSize(v: seq<Block>, size: nat)
    requires Tiles(v, size)
    ensures UsedTotal(v) + FreeTotal(v) == size
  {
    if v != [] {
      var n := |v| - 1;
      TilesPrefix(v, size, n);
      assert Adjoins(v, n);
      TotalsMakeSize(v[..n], v[n].offset);
    }
  }

  lemma {:induction false} SlideTiles(v: seq<Block>)
    requires Solid(v)
    ensures Tiles(Slide(v), UsedTotal(v))
    ensures forall i :: 0 <= i < |Slide(v)| ==> Slide(v)[i].used && Slide(v)[i].length > 0
  {
    if v != [] {
      var n := |v| - 1;
      SlideTiles(v[..n]);
      if !v[n].used {
        assert Slide(v) == Slide(v[..n]);
      } else {
        TilesSnoc(Slide(v[..n]), v[n].(offset := UsedTotal(v[..n])), UsedTotal(v[..n]));
      }
    }
  }

  lemma CompactKeepsOk(v: seq<Block>, size: nat)
    requires Tiles(v, size) && Solid(v)
    ensures Ok(Compact(v), size)
    ensures FreeTotal(Compact(v)) == FreeTotal(v)
  {
    var s, b := Slide(v), Block(UsedTotal(v), FreeTotal(v), false);
    SlideTiles(v);
    TilesSnoc(s, b, UsedTotal(v));
    TotalsMakeSize(v, size);
    TotalsMakeSize(s + [b], size);
    forall i | 0 <= i < |s + [b]|
      ensures Parted(s + [b], i)
    {
    }
    NothingFree(s);
  }

  lemma {:induction false} NothingFree(v: seq<Block>)
    requires forall i :: 0 <= i < |v| ==> v[i].used
    ensures FreeTotal(v) == 0
  {
    if v != [] {
      NothingFree(v[..|v| - 1]);
    }
  }

  /** Right after compaction, n bytes can be had exactly if that many are free in all. */
  lemma CompactGivesAll(v: seq<Block>, n: nat)
    requires Solid(v) && n > 0
    ensures FirstFit(Compact(v), n, 0) < |Compact(v)| <==> n <= FreeTotal(v)
  {
    SlideTiles(v);
    var w, k := Compact(v), |Slide(v)|;
    assert w[k] == Block(UsedTotal(v), FreeTotal(v), false);
    var i := FirstFit(w, n, 0);
    assert forall j :: 0 <= j < k ==> w[j] == Slide(v)[j];
  }
}
