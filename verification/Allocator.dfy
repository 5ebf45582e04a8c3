/** The allocator: a list of block objects over one buffer. A pointer is a reference to a block
    object, so it follows the block wherever compaction moves it. */
module Allocation {
  import opened BlockList
  import opened Results

  class MemoryBlock {
    var offset: nat
    var length: nat
    var used: bool

    constructor (offset: nat, length: nat)
      ensures this.offset == offset && this.length == length && !used
    {
      this.offset := offset;
      this.length := length;
      used := false;
    }
  }

  type Pointer = MemoryBlock?

  datatype Error = InvalidFree | NoMemory

  ghost predicate Distinct(bs: seq<MemoryBlock>) {
    forall i, j :: 0 <= i < j < |bs| ==> bs[i] != bs[j]
  }

  /** The objects whose blocks are used, in list order. */
  ghost function UsedRefs(bs: seq<MemoryBlock>, v: seq<Block>): seq<MemoryBlock>
    requires |bs| == |v|
  {
    if bs == [] then []
    else
      var n := |bs| - 1;
      UsedRefs(bs[..n], v[..n]) + if v[n].used then [bs[n]] else []
  }

  /** The fields of an object are those of a block. */
  ghost predicate Shows(b: MemoryBlock, v: Block)
    reads b
  {
    b.offset == v.offset && b.length == v.length && b.used == v.used
  }

  /** The objects bs hold the values v. */
  ghost predicate Hold(bs: seq<MemoryBlock>, v: seq<Block>)
    reads bs
  {
    |bs| == |v| && forall i :: 0 <= i < |bs| ==> Shows(bs[i], v[i])
  }

  /** The first objects of the list stand for acc, but the length of the last one, if it is
      free, is still to be set to total. */
  ghost predicate MergedSoFar(bs: seq<MemoryBlock>, acc: seq<Block>, p: Pointer, total: nat)
    reads bs
  {
    var n := |bs| - 1;
    && |bs| == |acc|
    && (forall j :: 0 <= j < n ==> Shows(bs[j], acc[j]))
    && (p != null <==> bs != [] && !acc[n].used)
    && (p == null ==> total == 0)
    && (bs != [] ==> bs[n].offset == acc[n].offset && bs[n].used == acc[n].used)
    && (bs != [] ==> if p == null then bs[n].length == acc[n].length else p == bs[n] && total == acc[n].length)
  }

  lemma JoinKeepsRefs(bs: seq<MemoryBlock>, acc: seq<Block>, p: MemoryBlock, b: Block)
    requires |bs| == |acc|
    ensures
      var erased := Joins(acc, b);
      var bs' := if erased then bs else bs + [p];
      && |bs'| == |Join(acc, b)|
      && UsedRefs(bs', Join(acc, b)) == UsedRefs(bs, acc) + if b.used then [p] else []
  {
    if Joins(acc, b) {
      assert Join(acc, b)[..|acc| - 1] == acc[..|acc| - 1];
    } else {
      assert (bs + [p])[..|bs|] == bs && (acc + [b])[..|acc|] == acc;
    }
  }

  class Allocator {
    const buffer: array<char>
    var blocks: seq<MemoryBlock>
    ghost var view: seq<Block>

    ghost predicate Valid()
      reads this, blocks
    {
      Distinct(blocks) && Hold(blocks, view) && Ok(view, buffer.Length)
    }

    /** The pointers that alloc has given out and free has not taken back. */
    ghost function Handles(): set<MemoryBlock>
      reads this, blocks
    {
      set b | b in blocks && b.used
    }

    /** Where each block lies. */
    ghost function Offsets(): map<MemoryBlock, nat>
      reads this, blocks
    {
      map b | b in blocks :: b.offset
    }

    /** The bytes of live pointers lie in the buffer and do not overlap. */
    lemma HandlesDisjoint(p: MemoryBlock, q: MemoryBlock)
      requires Valid() && p in Handles() && q in Handles() && p != q
      ensures p.offset + p.length <= q.offset || q.offset + q.length <= p.offset
      ensures p.length > 0 && p.offset + p.length <= buffer.Length
    {
      var i :| 0 <= i < |blocks| && blocks[i] == p;
      var j :| 0 <= j < |blocks| && blocks[j] == q;
      assert Shows(blocks[i], view[i]) && Shows(blocks[j], view[j]);
      BlocksDisjoint(view, buffer.Length, i, j);
      WithinSize(view, buffer.Length, i);
    }

    constructor (buffer: array<char>)
      ensures Valid() && this.buffer == buffer
      ensures view == [Block(0, buffer.Length, false)] && fresh(blocks)
    {
      this.buffer := buffer;
      var b := new MemoryBlock(0, buffer.Length);
      blocks := [b];
      view := [Block(0, buffer.Length, false)];
      new;
      assert Adjoins(view, 0) && Parted(view, 0);
    }

    /** blocks.insert: a new free block before position i. */
    method InsertBlock(i: nat, offset: nat, length: nat, ghost v: seq<Block>)
      requires Distinct(blocks) && Hold(blocks, v) && i <= |blocks|
      modifies this`blocks
      ensures Distinct(blocks) && Hold(blocks, v[..i] + [Block(offset, length, false)] + v[i..])
      ensures |blocks| == |old(blocks)| + 1 && fresh(blocks[i]) && !blocks[i].used
      ensures blocks[..i] == old(blocks)[..i] && blocks[i + 1..] == old(blocks)[i..]
    {
      var b := new MemoryBlock(offset, length);
      blocks := blocks[..i] + [b] + blocks[i..];
    }

    /** Position i of a list of objects has been followed by a new one, if grown. */
    ghost predicate GrownAfter(bs: seq<MemoryBlock>, i: nat, grown: bool)
      reads this
    {
      if grown then
        |blocks| == |bs| + 1 && i < |bs| && blocks[..i + 1] == bs[..i + 1] && blocks[i + 2..] == bs[i + 1..]
      else blocks == bs
    }

    lemma GrownElements(bs: seq<MemoryBlock>, i: nat, grown: bool)
      requires GrownAfter(bs, i, grown)
      ensures forall b :: b in blocks <==> b in bs || (grown && b == blocks[i + 1])
    {
      if grown {
        assert blocks == blocks[..i + 1] + [blocks[i + 1]] + blocks[i + 2..];
        assert bs == bs[..i + 1] + bs[i + 1..];
      }
    }

    /** set_state and set_length on the block at position i. */
    method Mark(i: nat, used: bool, length: nat, ghost v: seq<Block>)
      requires Distinct(blocks) && Hold(blocks, v) && i < |blocks|
      modifies blocks[i]
      ensures Hold(blocks, v[i := Block(v[i].offset, length, used)])
      ensures blocks[i].used == used && blocks[i].length == length && blocks[i].offset == v[i].offset
    {
      assert Shows(blocks[i], v[i]);
      blocks[i].used := used;
      blocks[i].length := length;
    }

    /** The part of alloc that follows a successful search. */
    method Take(i: nat, n: nat)
      requires Valid() && i < |blocks| && !view[i].used && view[i].length >= n > 0
      modifies this`blocks, this`view, blocks[i]
      ensures Valid() && view == Place(old(view), i, n)
      ensures GrownAfter(old(blocks), i, old(view)[i].length > n)
      ensures old(view)[i].length > n ==> fresh(blocks[i + 1]) && !blocks[i + 1].used
      ensures old(blocks)[i].used && old(blocks)[i].length == n && old(blocks)[i].offset == old(view)[i].offset
    {
      hide Ok, Place, Distinct;
      PlaceKeepsOk(view, buffer.Length, i, n);
      PlaceIs(view, i, n);
      var length, offset := blocks[i].length, blocks[i].offset;
      assert Shows(blocks[i], view[i]);
      Mark(i, true, n, view);
      ghost var t := view[i := Block(offset, n, true)];
      view := Place(view, i, n);
      hide Shows;
      if length > n {
        InsertBlock(i + 1, offset + n, length - n, t);
      }
    }

    method Alloc(n: nat) returns (r: Result<MemoryBlock, Error>)
      requires Valid() && n > 0
      modifies this, blocks
      ensures Valid()
      ensures
        var v, i := old(view), FirstFit(old(view), n, 0);
        if i == |v| then r == Failure(NoMemory) && blocks == old(blocks) && view == v
        else
          && r == Success(old(blocks)[i]) && view == Place(v, i, n)
          && GrownAfter(old(blocks), i, v[i].length > n)
          && (v[i].length > n ==> fresh(blocks[i + 1]))
      ensures r.Failure? <==> forall o :: !FreeRun(old(view), o, n)
      ensures r.Success? ==>
                && FreeRun(old(view), r.value.offset, n)
                && forall o :: FreeRun(old(view), o, n) ==> r.value.offset <= o
      ensures r.Success? ==> r.value !in old(Handles()) && Handles() == old(Handles()) + {r.value}
      ensures r.Failure? ==> Handles() == old(Handles())
      ensures r.Success? ==> r.value.length == n
      ensures forall b :: b in old(Handles()) ==> b.offset == old(b.offset) && b.length == old(b.length)
      ensures forall i :: 0 <= i < |blocks| ==> blocks[i] in old(blocks) || fresh(blocks[i])
    {
      hide Ok, Place, FreeRun;
      FirstFitIsLowest(view, buffer.Length, n);
      var i := 0;
      while i < |blocks|
        invariant i <= |blocks| && FirstFit(view, n, i) == FirstFit(view, n, 0)
        invariant view == old(view) && blocks == old(blocks) && Valid()
        invariant forall b :: b in blocks ==>
                    b.offset == old(b.offset) && b.length == old(b.length) && b.used == old(b.used)
      {
        if !blocks[i].used && blocks[i].length >= n {
          var b := blocks[i];
          assert Shows(b, view[i]);
          Take(i, n);
          GrownElements(old(blocks), i, old(view)[i].length > n);
          return Success(b);
        }
        i := i + 1;
      }
      return Failure(NoMemory);
    }

    /** The merge has dealt with the first k of the objects bs, which held v; i of them remain in
        the list, in front of those not yet looked at. */
    ghost predicate MergingAt(bs: seq<MemoryBlock>, v: seq<Block>, k: nat, i: nat)
      reads this, bs
    {
      && k <= |bs| == |v| && i <= |blocks| && blocks[i..] == bs[k..]
      && Distinct(blocks)
      && (forall j :: k <= j < |v| ==> Shows(bs[j], v[j]))
      && (forall j :: 0 <= j < i ==> blocks[j] in bs)
      && |Coalesce(v[..k])| == i
      && UsedRefs(blocks[..i], Coalesce(v[..k])) == UsedRefs(bs[..k], v[..k])
    }

    /** One more block looked at. */
    lemma OneMoreBlock(bs: seq<MemoryBlock>, v: seq<Block>, k: nat, i: nat)
      requires k < |bs| == |v| && i <= |blocks| && blocks[i..] == bs[k..]
      ensures i < |blocks| && blocks[i] == bs[k] && blocks[i + 1..] == bs[k + 1..]
      ensures blocks[..i + 1] == blocks[..i] + [bs[k]]
      ensures Coalesce(v[..k + 1]) == Join(Coalesce(v[..k]), v[k])
      ensures UsedRefs(bs[..k + 1], v[..k + 1]) == UsedRefs(bs[..k], v[..k]) + if v[k].used then [bs[k]] else []
    {
      assert blocks[i] == blocks[i..][0] && blocks[i + 1..] == blocks[i..][1..];
      assert v[..k + 1][..k] == v[..k] && bs[..k + 1][..k] == bs[..k];
    }

    lemma FreeBlockOpens(bs: seq<MemoryBlock>, v: seq<Block>, k: nat, i: nat)
      requires MergingAt(bs, v, k, i) && MergedSoFar(blocks[..i], Coalesce(v[..k]), null, 0)
      requires k < |v| && !v[k].used
      ensures MergingAt(bs, v, k + 1, i + 1)
      ensures MergedSoFar(blocks[..i + 1], Coalesce(v[..k + 1]), bs[k], v[k].length)
    {
      hide Coalesce, UsedRefs;
      OneMoreBlock(bs, v, k, i);
      JoinKeepsRefs(blocks[..i], Coalesce(v[..k]), bs[k], v[k]);
    }

    lemma {:induction false} UsedBlockKept(bs: seq<MemoryBlock>, v: seq<Block>, k: nat, i: nat)
      requires MergingAt(bs, v, k, i) && Hold(blocks[..i], Coalesce(v[..k]))
      requires k < |v| && v[k].used
      ensures MergingAt(bs, v, k + 1, i + 1)
      ensures MergedSoFar(blocks[..i + 1], Coalesce(v[..k + 1]), null, 0)
    {
      hide Coalesce, UsedRefs;
      OneMoreBlock(bs, v, k, i);
      JoinKeepsRefs(blocks[..i], Coalesce(v[..k]), bs[k], v[k]);
    }

    /** blocks.erase at position i. */
    method Erase(i: nat, p: MemoryBlock, total: nat, ghost bs: seq<MemoryBlock>, ghost v: seq<Block>, ghost k: nat)
      requires MergingAt(bs, v, k, i) && MergedSoFar(blocks[..i], Coalesce(v[..k]), p, total)
      requires k < |v| && !v[k].used && i < |blocks| && total > 0
      modifies this`blocks
      ensures MergingAt(bs, v, k + 1, i)
      ensures MergedSoFar(blocks[..i], Coalesce(v[..k + 1]), p, total + v[k].length)
    {
      hide Coalesce, UsedRefs;
      OneMoreBlock(bs, v, k, i);
      JoinKeepsRefs(blocks[..i], Coalesce(v[..k]), bs[k], v[k]);
      ghost var head := blocks[..i];
      blocks := blocks[..i] + blocks[i + 1..];
      assert blocks[..i] == head && blocks[i..] == bs[k + 1..];
    }

    /** The end of a row of free blocks: the first of them gets the whole length. */
    method Close(i: nat, p: Pointer, total: nat, ghost bs: seq<MemoryBlock>, ghost v: seq<Block>, ghost k: nat)
      requires MergingAt(bs, v, k, i) && MergedSoFar(blocks[..i], Coalesce(v[..k]), p, total)
      modifies p
      ensures MergingAt(bs, v, k, i) && Hold(blocks[..i], Coalesce(v[..k]))
      ensures p != null ==> p.used == old(p.used) && p.offset == old(p.offset)
    {
      hide Coalesce, UsedRefs;
      if p != null {
        assert forall j :: k <= j < |v| ==> bs[j] == bs[k..][j - k];
        p.length := total;
      }
    }

    /** One round of the merging loop. */
    method MergeRound(i: nat, p: Pointer, total: nat, ghost bs: seq<MemoryBlock>, ghost v: seq<Block>, ghost k: nat)
      returns (i': nat, p': Pointer, total': nat)
      requires MergingAt(bs, v, k, i) && MergedSoFar(blocks[..i], Coalesce(v[..k]), p, total)
      requires Tiles(v, buffer.Length) && Solid(v) && i < |blocks| && (p != null ==> p in bs && !p.used)
      modifies this`blocks, p
      ensures k < |v| && MergingAt(bs, v, k + 1, i')
      ensures MergedSoFar(blocks[..i'], Coalesce(v[..k + 1]), p', total')
      ensures p' != null ==> p' in bs && !p'.used
      ensures p != null ==> p.used == old(p.used) && p.offset == old(p.offset)
    {
      hide Coalesce, UsedRefs, Tiles, Solid;
      OneMoreBlock(bs, v, k, i);
      TotalIsPositive(v, buffer.Length, k);
      var b := blocks[i];
      assert Shows(b, v[k]);
      i', p', total' := i, p, total;
      if !b.used {
        total' := total + b.length;
        if total' == b.length {
          FreeBlockOpens(bs, v, k, i);
          p' := b;
          i' := i + 1;
        } else {
          Erase(i, p, total, bs, v, k);
        }
      } else {
        Close(i, p, total, bs, v, k);
        UsedBlockKept(bs, v, k, i);
        p', total' := null, 0;
        i' := i + 1;
      }
    }

    method CloseLast(i: nat, p: Pointer, total: nat, ghost bs: seq<MemoryBlock>, ghost v: seq<Block>, ghost k: nat)
      requires MergingAt(bs, v, k, i) && MergedSoFar(blocks[..i], Coalesce(v[..k]), p, total) && i == |blocks|
      modifies p
      ensures Distinct(blocks) && Hold(blocks, Coalesce(v)) && UsedRefs(blocks, Coalesce(v)) == UsedRefs(bs, v)
      ensures p != null ==> p.used == old(p.used) && p.offset == old(p.offset)
    {
      hide Coalesce, UsedRefs;
      Close(i, p, total, bs, v, k);
      assert blocks[i..] == [];
      assert blocks[..i] == blocks && v[..k] == v && bs[..k] == bs;
    }

    /** The loop of merge_empty_blocks. */
    method MergeRows(ghost bs: seq<MemoryBlock>, ghost v: seq<Block>)
      returns (i: nat, p: Pointer, total: nat, ghost k: nat)
      requires bs == blocks && v == view
      requires Distinct(blocks) && Hold(blocks, view) && Tiles(view, buffer.Length) && Solid(view)
      modifies this`blocks, blocks
      ensures MergingAt(bs, v, k, i) && MergedSoFar(blocks[..i], Coalesce(v[..k]), p, total) && i == |blocks|
      ensures p != null ==> p in bs && !p.used
      ensures forall b :: b in blocks ==> b in bs
      ensures forall b :: b in bs ==>
                b.used == old(b.used) && (b.used ==> b.offset == old(b.offset) && b.length == old(b.length))
    {
      hide Coalesce, UsedRefs, Tiles, Solid, MergedSoFar, Hold, Distinct;
      MergeStarts(bs, v);
      p, total, i, k := null, 0, 0, 0;
      while i < |blocks|
        invariant MergingAt(bs, v, k, i)
        invariant MergedSoFar(blocks[..i], Coalesce(v[..k]), p, total)
        invariant p != null ==> p in bs && !p.used
        invariant forall b :: b in bs ==>
                    b.used == old(b.used) && (b.used ==> b.offset == old(b.offset) && b.length == old(b.length))
        decreases |v| - k
      {
        i, p, total := MergeRound(i, p, total, bs, v, k);
        k := k + 1;
      }
    }

    method MergeEmptyBlocks()
      requires Distinct(blocks) && Hold(blocks, view) && Tiles(view, buffer.Length) && Solid(view)
      modifies this`blocks, this`view, blocks
      ensures Valid() && view == Coalesce(old(view))
      ensures UsedRefs(blocks, view) == UsedRefs(old(blocks), old(view))
      ensures forall i :: 0 <= i < |blocks| ==> blocks[i] in old(blocks)
      ensures forall b :: b in old(blocks) && old(b.used) ==>
                b.offset == old(b.offset) && b.length == old(b.length) && b.used == old(b.used)
    {
      hide Coalesce, UsedRefs, Ok, Tiles, Solid, MergedSoFar, MergingAt, Distinct;
      ghost var bs, v := blocks, view;
      CoalesceKeepsOk(view, buffer.Length);
      var i, p, total, k := MergeRows(bs, v);
      CloseLast(i, p, total, bs, v, k);
      view := Coalesce(view);
    }

    /** The same used objects make the same handles. */
    lemma {:induction false} HandlesAreUsed(bs: seq<MemoryBlock>, v: seq<Block>, bs': seq<MemoryBlock>, v': seq<Block>)
      requires |bs| == |v| && bs' == blocks && Hold(bs', v') && UsedRefs(bs', v') == UsedRefs(bs, v)
      ensures forall b :: b in Handles() <==> exists i :: 0 <= i < |bs| && bs[i] == b && v[i].used
    {
      forall b
        ensures b in Handles() <==> exists i :: 0 <= i < |bs| && bs[i] == b && v[i].used
      {
        UsedRefsElements(bs, v, b);
        UsedRefsElements(bs', v', b);
        assert b in Handles() <==> exists i :: 0 <= i < |bs'| && bs'[i] == b && v'[i].used;
      }
    }

    lemma MergeStarts(bs: seq<MemoryBlock>, v: seq<Block>)
      requires bs == blocks && Distinct(blocks) && Hold(bs, v)
      ensures MergingAt(bs, v, 0, 0) && MergedSoFar(blocks[..0], Coalesce(v[..0]), null, 0)
    {
    }

    /** A null pointer is refused; any other one has to be live. It comes back as null. */
    method Free(p: Pointer) returns (r: Result<(), Error>, q: Pointer)
      requires Valid() && (p != null ==> p in Handles())
      modifies this`blocks, this`view, blocks
      ensures Valid() && q == null
      ensures p == null ==> r == Failure(InvalidFree) && blocks == old(blocks) && view == old(view)
      ensures p != null ==>
                && r == Success(())
                && exists i :: 0 <= i < |old(blocks)| && old(blocks)[i] == p && view == Coalesce(Release(old(view), i))
                            && UsedRefs(blocks, view) == UsedRefs(old(blocks), Release(old(view), i))
      ensures Handles() == old(Handles()) - {p}
      ensures forall b :: b in Handles() ==> b.offset == old(b.offset) && b.length == old(b.length)
      ensures forall i :: 0 <= i < |blocks| ==> blocks[i] in old(blocks)
    {
      hide Ok, Coalesce, UsedRefs, Tiles, Solid;
      if p == null {
        return Failure(InvalidFree), null;
      }
      ghost var i :| 0 <= i < |blocks| && blocks[i] == p;
      ReleaseKeeps(view, buffer.Length, i);
      p.used := false;
      view := Release(view, i);
      ghost var bs, v := blocks, view;
      MergeEmptyBlocks();
      HandlesAreUsed(bs, v, blocks, view);
      return Success(()), null;
    }

    /** The position of a live pointer's block, found by its offset. */
    method FindBlock(p: MemoryBlock) returns (i: nat)
      requires Valid() && p in Handles()
      ensures i < |blocks| && blocks[i] == p && i == FindOffset(view, p.offset, 0)
    {
      hide Tiles, Coalesced, Distinct;
      ghost var k :| 0 <= k < |blocks| && blocks[k] == p;
      i := 0;
      while i < |blocks| && blocks[i].offset != p.offset
        invariant i <= k && FindOffset(view, p.offset, i) == FindOffset(view, p.offset, 0)
      {
        assert Shows(blocks[i], view[i]);
        i := i + 1;
      }
      assert Shows(blocks[i], view[i]);
      if i < k {
        TilesInOrder(view, buffer.Length, i, k);
      }
    }

    /** set_length and insert in realloc. */
    method CutBlock(i: nat, n: nat)
      requires Distinct(blocks) && Hold(blocks, view) && i < |blocks| && view[i].used && 0 < n < view[i].length
      modifies this`blocks, this`view, blocks[i]
      ensures Distinct(blocks) && Hold(blocks, view) && view == Cut(old(view), i, n)
      ensures GrownAfter(old(blocks), i, true) && fresh(blocks[i + 1]) && !blocks[i + 1].used
      ensures old(blocks)[i].offset == old(blocks[i].offset) && old(blocks)[i].used && old(blocks)[i].length == n
    {
      var length, offset := blocks[i].length, blocks[i].offset;
      assert Shows(blocks[i], view[i]);
      Mark(i, true, n, view);
      ghost var t := view[i := Block(offset, n, true)];
      view := Cut(view, i, n);
      InsertBlock(i + 1, offset + n, length - n, t);
      assert t[..i + 1] + [Block(offset + n, length - n, false)] + t[i + 1..] == view;
    }

    /** The part of realloc that makes a block smaller. */
    method Shrink(i: nat, n: nat)
      requires Valid() && i < |blocks| && view[i].used && 0 < n < view[i].length
      modifies this`blocks, this`view, blocks
      ensures Valid() && view == Coalesce(Cut(old(view), i, n))
      ensures Handles() == old(Handles())
      ensures forall b :: b in Handles() ==> b.offset == old(b.offset)
      ensures forall b :: b in Handles() ==> b.length == if b == old(blocks)[i] then n else old(b.length)
      ensures forall i :: 0 <= i < |blocks| ==> blocks[i] in old(blocks) || fresh(blocks[i])
    {
      hide Ok, Coalesce, Tiles, Solid, UsedRefs, Cut;
      CutKeeps(view, buffer.Length, i, n);
      CutBlock(i, n);
      ghost var bs, v := blocks, view;
      GrownElements(old(blocks), i, true);
      MergeEmptyBlocks();
      HandlesAreUsed(bs, v, blocks, view);
    }

    /** realloc of a null pointer is alloc; otherwise the block keeps its first n bytes. */
    method Realloc(p: Pointer, n: nat) returns (r: Result<(), Error>, q: Pointer)
      requires Valid() && n > 0 && (p != null ==> p in Handles() && n <= p.length)
      modifies this, blocks
      ensures Valid()
      ensures p == null ==>
                var v, i := old(view), FirstFit(old(view), n, 0);
                if i == |v| then r == Failure(NoMemory) && q == null && view == v
                else r == Success(()) && q == old(blocks)[i] && view == Place(v, i, n)
      ensures p == null ==> (q == null <==> forall o :: !FreeRun(old(view), o, n))
      ensures q != null ==> q.length == n && (p == null ==> q !in old(Handles()))
      ensures p != null ==>
                && r == Success(()) && q == p && p.length == n
                && if old(p.length) == n then blocks == old(blocks) && view == old(view)
                   else exists i :: 0 <= i < |old(blocks)| && old(blocks)[i] == p && old(view)[i].length > n
                                    && view == Coalesce(Cut(old(view), i, n))
      ensures Handles() == old(Handles()) + if q == null then {} else {q}
      ensures forall b :: b in old(Handles()) ==> b.offset == old(b.offset) && (b != p ==> b.length == old(b.length))
      ensures forall i :: 0 <= i < |blocks| ==> blocks[i] in old(blocks) || fresh(blocks[i])
    {
      hide Ok, Coalesce, UsedRefs, Tiles, Solid, Place, FreeRun;
      if p == null {
        var a := Alloc(n);
        if a.Failure? {
          return Failure(a.error), null;
        }
        return Success(()), a.value;
      }
      var i := FindBlock(p);
      assert Shows(p, view[i]);
      if p.length > n {
        Shrink(i, n);
      }
      return Success(()), p;
    }

    // ----- defrag -----

    /** memmove towards the front of the buffer; the two ranges may overlap. */
    method MemMove(dst: nat, src: nat, n: nat)
      requires dst <= src && src + n <= buffer.Length
      modifies buffer
      ensures forall x :: 0 <= x < buffer.Length ==>
                buffer[x] == if dst <= x < dst + n then old(buffer[src + (x - dst)]) else old(buffer[x])
    {
      for k := 0 to n
        invariant forall x :: 0 <= x < buffer.Length ==>
                    buffer[x] == if dst <= x < dst + k then old(buffer[src + (x - dst)]) else old(buffer[x])
      {
        buffer[dst + k] := buffer[src + k];
      }
    }

    /** The block's bytes are those that lay at its old place in the old contents c. */
    ghost predicate Carried(b: MemoryBlock, from: map<MemoryBlock, nat>, c: seq<char>)
      reads b, buffer
    {
      && b in from && from[b] + b.length <= |c| && b.offset + b.length <= buffer.Length
      && forall x :: b.offset <= x < b.offset + b.length ==> buffer[x] == c[from[b] + (x - b.offset)]
    }

    /** Compaction has dealt with the first k of the objects bs, which held v; the used ones among
        them are the first i of the list. */
    ghost predicate CompactingAt(bs: seq<MemoryBlock>, v: seq<Block>, k: nat, i: nat)
      reads this, blocks, bs
    {
      && k <= |bs| == |v| && i <= |blocks| && blocks[i..] == bs[k..]
      && Distinct(blocks)
      && (forall j :: k <= j < |v| ==> Shows(bs[j], v[j]))
      && blocks[..i] == UsedRefs(bs[..k], v[..k])
      && Hold(blocks[..i], Slide(v[..k]))
    }

    lemma OneMoreCompacted(bs: seq<MemoryBlock>, v: seq<Block>, k: nat, i: nat)
      requires k < |bs| == |v| && i <= |blocks| && blocks[i..] == bs[k..]
      ensures i < |blocks| && blocks[i] == bs[k] && blocks[i + 1..] == bs[k + 1..]
      ensures blocks[..i + 1] == blocks[..i] + [bs[k]]
      ensures UsedRefs(bs[..k + 1], v[..k + 1]) == UsedRefs(bs[..k], v[..k]) + if v[k].used then [bs[k]] else []
      ensures Slide(v[..k + 1]) == Slide(v[..k]) + if v[k].used then [v[k].(offset := UsedTotal(v[..k]))] else []
      ensures UsedTotal(v[..k + 1]) == UsedTotal(v[..k]) + if v[k].used then v[k].length else 0
      ensures FreeTotal(v[..k + 1]) == FreeTotal(v[..k]) + if v[k].used then 0 else v[k].length
    {
      assert blocks[i] == blocks[i..][0] && blocks[i + 1..] == blocks[i..][1..];
      assert v[..k + 1][..k] == v[..k] && bs[..k + 1][..k] == bs[..k];
    }

    /** A free block leaves the list. */
    method DropFree(i: nat, ghost bs: seq<MemoryBlock>, ghost v: seq<Block>, ghost k: nat)
      requires CompactingAt(bs, v, k, i) && k < |v| && !v[k].used
      modifies this`blocks
      ensures CompactingAt(bs, v, k + 1, i)
      ensures i <= |old(blocks)| && i <= |blocks| && blocks[..i] == old(blocks)[..i]
    {
      hide UsedRefs, Slide, UsedTotal, FreeTotal;
      OneMoreCompacted(bs, v, k, i);
      ghost var head := blocks[..i];
      blocks := blocks[..i] + blocks[i + 1..];
      assert blocks[..i] == head && blocks[i..] == bs[k + 1..];
    }

    /** A block and its bytes move down. */
    method MoveBlock(b: MemoryBlock, from: nat, to: nat)
      requires b.offset == from && to <= from && from + b.length <= buffer.Length
      modifies b`offset, buffer
      ensures b.offset == to
      ensures forall x :: 0 <= x < buffer.Length ==>
                buffer[x] == if to <= x < to + b.length then old(buffer[from + (x - to)]) else old(buffer[x])
    {
      b.offset := to;
      MemMove(to, from, b.length);
    }

    /** A used block is moved down to the end of the ones before it. */
    method MoveUsed(i: nat, to: nat, ghost bs: seq<MemoryBlock>, ghost v: seq<Block>, ghost k: nat)
      requires CompactingAt(bs, v, k, i) && k < |v| && v[k].used && i < |blocks| && blocks[i] == bs[k]
      requires to == UsedTotal(v[..k]) <= v[k].offset && v[k].End() <= buffer.Length
      modifies {blocks[i]}`offset, buffer
      ensures CompactingAt(bs, v, k + 1, i + 1)
      ensures bs[k].offset == to && bs[k].length == v[k].length && bs[k].used
      ensures forall x :: 0 <= x < buffer.Length ==>
                buffer[x] == if to <= x < to + v[k].length then old(buffer[v[k].offset + (x - to)]) else old(buffer[x])
    {
      hide UsedRefs, Slide, UsedTotal, FreeTotal;
      OneMoreCompacted(bs, v, k, i);
      assert forall j :: k <= j < |v| ==> bs[j] == blocks[i..][j - k];
      var b := blocks[i];
      assert Shows(b, v[k]);
      MoveBlock(b, b.offset, to);
    }

    /** What compaction has done to the buffer, whose contents were c: the used blocks dealt with
        have their bytes, and the rest of the buffer is as it was. */
    ghost predicate BytesAt(bs: seq<MemoryBlock>, v: seq<Block>, k: nat, i: nat,
                            from: map<MemoryBlock, nat>, c: seq<char>)
      requires k <= |v| && i <= |blocks|
      reads this, blocks, bs, buffer
    {
      && |c| == buffer.Length
      && (forall b :: b in blocks[..i] ==> Carried(b, from, c))
      && (forall x :: UsedTotal(v[..k]) + FreeTotal(v[..k]) <= x < buffer.Length ==> buffer[x] == c[x])
    }

    lemma OffsetOfNext(v: seq<Block>, size: nat, k: nat)
      requires Tiles(v, size) && k <= |v|
      ensures UsedTotal(v[..k]) + FreeTotal(v[..k]) == if k < |v| then v[k].offset else size
    {
      TilesPrefix(v, size, k);
      TotalsMakeSize(v[..k], if k == 0 then 0 else v[k-1].End());
      assert k < |v| ==> Adjoins(v, k);
      assert k == |v| ==> v[..k] == v;
    }

    /** The blocks dealt with end before the place where the next one goes. */
    lemma DealtWithEnds(bs: seq<MemoryBlock>, v: seq<Block>, k: nat, i: nat, b: MemoryBlock)
      requires CompactingAt(bs, v, k, i) && Solid(v) && b in blocks[..i]
      ensures b.offset + b.length <= UsedTotal(v[..k])
    {
      SlideTiles(v[..k]);
      var j :| 0 <= j < i && blocks[..i][j] == b;
      assert Shows(blocks[..i][j], Slide(v[..k])[j]);
      WithinSize(Slide(v[..k]), UsedTotal(v[..k]), j);
    }

    /** One round of the compacting loop. */
    method CompactRound(i: nat, to: nat, ghost bs: seq<MemoryBlock>, ghost v: seq<Block>, ghost k: nat,
                        ghost from: map<MemoryBlock, nat>, ghost c: seq<char>)
      returns (i': nat, moved: nat, freed: nat)
      requires CompactingAt(bs, v, k, i) && BytesAt(bs, v, k, i, from, c) && i < |blocks|
      requires Tiles(v, buffer.Length) && Solid(v) && to == UsedTotal(v[..k])
      requires forall j :: 0 <= j < |v| ==> bs[j] in from && from[bs[j]] == v[j].offset
      modifies this`blocks, {blocks[i]}`offset, buffer
      ensures k < |v| && CompactingAt(bs, v, k + 1, i') && BytesAt(bs, v, k + 1, i', from, c)
      ensures to + moved == UsedTotal(v[..k + 1])
      ensures FreeTotal(v[..k]) + freed == FreeTotal(v[..k + 1])
    {
      hide UsedRefs, Slide, UsedTotal, FreeTotal, Tiles, Solid;
      OneMoreCompacted(bs, v, k, i);
      OffsetOfNext(v, buffer.Length, k);
      OffsetOfNext(v, buffer.Length, k + 1);
      assert Shows(blocks[i], v[k]);
      i', moved, freed := i, 0, 0;
      if !blocks[i].used {
        freed := blocks[i].length;
        DropFree(i, bs, v, k);
      } else {
        moved := blocks[i].length;
        WithinSize(v, buffer.Length, k);
        DealtWithStay(bs, v, k, i);
        MoveUsed(i, to, bs, v, k);
        i' := i + 1;
      }
    }

    lemma DealtWithStay(bs: seq<MemoryBlock>, v: seq<Block>, k: nat, i: nat)
      requires CompactingAt(bs, v, k, i) && Solid(v)
      ensures forall b :: b in blocks[..i] ==> b.offset + b.length <= UsedTotal(v[..k])
    {
      forall b | b in blocks[..i]
        ensures b.offset + b.length <= UsedTotal(v[..k])
      {
        DealtWithEnds(bs, v, k, i, b);
      }
    }

    /** The loop of defrag. */
    method CompactRows(ghost bs: seq<MemoryBlock>, ghost v: seq<Block>,
                       ghost from: map<MemoryBlock, nat>, ghost c: seq<char>)
      returns (i: nat, blockOffset: nat, blockLength: nat)
      requires Valid() && bs == blocks && v == view && c == buffer[..]
      requires forall j :: 0 <= j < |v| ==> bs[j] in from && from[bs[j]] == v[j].offset
      modifies this`blocks, (set b | b in blocks)`offset, buffer
      ensures CompactingAt(bs, v, |v|, i) && BytesAt(bs, v, |v|, i, from, c) && i == |blocks|
      ensures blockOffset == UsedTotal(v) && blockLength == FreeTotal(v)
    {
      hide UsedRefs, Slide, UsedTotal, FreeTotal, Tiles, Solid, BytesAt, Coalesced;
      CompactStarts(bs, v, from, c);
      i, blockOffset, blockLength := 0, 0, 0;
      ghost var k: nat := 0;
      while i < |blocks|
        invariant k <= |v| && CompactingAt(bs, v, k, i) && BytesAt(bs, v, k, i, from, c)
        invariant blockOffset == UsedTotal(v[..k]) && blockLength == FreeTotal(v[..k])
        decreases |v| - k
      {
        var moved, freed: nat;
        assert blocks[i] == blocks[i..][0];
        i, moved, freed := CompactRound(i, blockOffset, bs, v, k, from, c);
        blockOffset := blockOffset + moved;
        blockLength := blockLength + freed;
        k := k + 1;
      }
      assert blocks[i..] == [];
      assert v[..k] == v;
    }

    lemma CompactStarts(bs: seq<MemoryBlock>, v: seq<Block>, from: map<MemoryBlock, nat>, c: seq<char>)
      requires Valid() && bs == blocks && v == view && c == buffer[..]
      ensures CompactingAt(bs, v, 0, 0) && BytesAt(bs, v, 0, 0, from, c)
      ensures UsedTotal(v[..0]) == 0 && FreeTotal(v[..0]) == 0
    {
    }

    /** After compaction all but the last object are used. */
    lemma CompactedAreUsed(v: seq<Block>)
      requires Solid(v) && Hold(blocks, Compact(v))
      ensures blocks != [] && forall b :: b in Handles() <==> b in blocks[..|blocks| - 1]
    {
      hide UsedTotal, FreeTotal;
      SlideTiles(v);
      var n := |blocks| - 1;
      assert Shows(blocks[n], Compact(v)[n]);
      forall j | 0 <= j < n
        ensures blocks[j].used
      {
        assert Shows(blocks[j], Compact(v)[j]) && Compact(v)[j] == Slide(v)[j];
      }
      assert blocks == blocks[..n] + [blocks[n]];
    }

    /** After compaction the handles are the objects of the blocks that were used before. */
    lemma {:induction false} CompactHandles(bs: seq<MemoryBlock>, v: seq<Block>)
      requires |bs| == |v| && Solid(v) && Hold(blocks, Compact(v)) && blocks[..|blocks| - 1] == UsedRefs(bs, v)
      ensures forall b :: b in Handles() <==> exists i :: 0 <= i < |bs| && bs[i] == b && v[i].used
      ensures forall b :: b in Handles() ==> b in blocks[..|blocks| - 1]
    {
      hide Compact, UsedRefs, Hold;
      CompactedAreUsed(v);
      forall b
        ensures b in Handles() <==> exists i :: 0 <= i < |bs| && bs[i] == b && v[i].used
      {
        UsedRefsElements(bs, v, b);
      }
    }

    method Defrag()
      requires Valid()
      modifies this`blocks, this`view, (set b | b in blocks)`offset, buffer
      ensures Valid() && view == Compact(old(view))
      ensures blocks != [] && blocks[..|blocks| - 1] == UsedRefs(old(blocks), old(view))
      ensures Handles() == old(Handles())
      ensures forall b :: b in Handles() ==> Carried(b, old(Offsets()), old(buffer[..]))
      ensures forall b :: b in Handles() ==> b.length == old(b.length)
      ensures forall i :: 0 <= i < |blocks| ==> blocks[i] in old(blocks) || fresh(blocks[i])
    {
      hide UsedRefs, Slide, UsedTotal, FreeTotal, Tiles, Solid, Coalesced, CompactingAt, BytesAt, Carried;
      ghost var bs, v, c, from := blocks, view, buffer[..], Offsets();
      assert forall j :: 0 <= j < |v| ==> Shows(bs[j], v[j]);
      assert forall b :: b in Handles() <==> exists i :: 0 <= i < |bs| && bs[i] == b && v[i].used;
      var i, blockOffset, blockLength := CompactRows(bs, v, from, c);
      PushFreeBlock(i, blockOffset, blockLength, bs, v, from, c);
      forall b | b in blocks[..|blocks| - 1] ensures b in bs {
        UsedRefsElements(bs, v, b);
      }
      assert blocks == blocks[..|blocks| - 1] + [blocks[|blocks| - 1]];
    }

    /** The end of defrag: all free space becomes one block. */
    method PushFreeBlock(i: nat, blockOffset: nat, blockLength: nat, ghost bs: seq<MemoryBlock>, ghost v: seq<Block>,
                         ghost from: map<MemoryBlock, nat>, ghost c: seq<char>)
      requires CompactingAt(bs, v, |v|, i) && BytesAt(bs, v, |v|, i, from, c) && i == |blocks|
      requires blockOffset == UsedTotal(v) && blockLength == FreeTotal(v)
      requires Tiles(v, buffer.Length) && Solid(v)
      modifies this`blocks, this`view
      ensures Valid() && view == Compact(v)
      ensures blocks != [] && blocks[..|blocks| - 1] == UsedRefs(bs, v) && fresh(blocks[|blocks| - 1])
      ensures forall b :: b in Handles() <==> exists i :: 0 <= i < |bs| && bs[i] == b && v[i].used
      ensures forall b :: b in Handles() ==> Carried(b, from, c)
    {
      hide UsedRefs, Slide, UsedTotal, FreeTotal, Tiles, Solid, Coalesced, Carried;
      assert v[..|v|] == v && bs[..|v|] == bs && blocks[..i] == blocks;
      CompactKeepsOk(v, buffer.Length);
      ghost var listed := blocks;
      InsertBlock(i, blockOffset, blockLength, Slide(v));
      view := Compact(v);
      assert blocks[..i] == listed;
      assert Slide(v)[..i] + [Block(blockOffset, blockLength, false)] + Slide(v)[i..] == view;
      CompactHandles(bs, v);
    }
  }

  /** UsedRefs lists exactly the objects of used blocks. */
  lemma {:induction false} UsedRefsElements(bs: seq<MemoryBlock>, v: seq<Block>, b: MemoryBlock)
    requires |bs| == |v|
    ensures b in UsedRefs(bs, v) <==> exists i :: 0 <= i < |bs| && bs[i] == b && v[i].used
  {
    if bs != [] {
      var n := |bs| - 1;
      UsedRefsElements(bs[..n], v[..n], b);
      if i :| 0 <= i < |bs| && bs[i] == b && v[i].used {
        assert i < n ==> bs[..n][i] == b && v[..n][i].used;
      }
    }
  }

  /** Before the last block there is no empty one, so a row of free blocks has a positive length. */
  lemma TotalIsPositive(v: seq<Block>, size: nat, k: nat)
    requires Tiles(v, size) && Solid(v) && k < |v|
    ensures NoneEmpty(Coalesce(v[..k]))
  {
    TilesPrefix(v, size, k);
    CoalesceKeepsOk(v[..k], if k == 0 then 0 else v[k-1].End());
  }
}
