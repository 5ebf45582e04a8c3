/** Whole runs of the allocator: to its client it is a store of independent texts, one for each
    live pointer, whatever is allocated, freed, shrunk and moved around them. */
module AllocatorRun {
  import opened Results
  import opened BlockList
  import opened Allocation

  /** What a client may do next. Its pointers are numbered in the order of its alloc requests. */
  datatype Request =
    | AllocRequest(n: nat)
    | FreeRequest(h: nat)
    | ReallocRequest(h: nat, n: nat)
    | WriteRequest(h: nat, at: nat, c: char)
    | DefragRequest
  {
    /** Requests are for at least one byte. */
    predicate Positive() {
      AllocRequest? || ReallocRequest? ==> n > 0
    }
  }

  /** What the client's pointers refer to; None stands for a null pointer. */
  type Texts = seq<Option<string>>

  /** The texts, and the allocator's list of blocks. */
  datatype Snapshot = Snapshot(texts: Texts, view: seq<Block>)

  /** The text of pointer h becomes an arbitrary one of n bytes; there is none iff no n bytes in a row
      are free anywhere. */
  ghost predicate Renewed(before: Texts, view: seq<Block>, h: nat, n: nat, after: Texts) {
    && h < |before| == |after| && after == before[h := after[h]]
    && (after[h].Some? ==> |after[h].value| == n)
    && (after[h].None? <==> forall o :: !FreeRun(view, o, n))
  }

  /** The client does not do this: write outside of a text, name a pointer it has not got, or ask for
      more bytes than a text has. */
  predicate Unheard(texts: Texts, q: Request) {
    match q
    case FreeRequest(h) => h >= |texts|
    case ReallocRequest(h, n) => h >= |texts| || (texts[h].Some? && n > |texts[h].value|)
    case WriteRequest(h, at, _) => h >= |texts| || texts[h].None? || at >= |texts[h].value|
    case _ => false
  }

  /** What a request does to the texts: to the one it names what it says, to all others nothing. */
  ghost predicate Served(before: Snapshot, q: Request, after: Snapshot) {
    var texts := before.texts;
    if Unheard(texts, q) then after == before
    else match q
      case AllocRequest(n) => Renewed(texts + [None], before.view, |texts|, n, after.texts)
      case FreeRequest(h) => after.texts == texts[h := None]
      case ReallocRequest(h, n) =>
        if texts[h].None? then Renewed(texts, before.view, h, n, after.texts)
        else after.texts == texts[h := Some(texts[h].value[..n])]
      case WriteRequest(h, at, c) => after == before.(texts := texts[h := Some(texts[h].value[at := c])])
      case DefragRequest => after.texts == texts && after.view == Compact(before.view)
  }

  /** So no request that a client can make of a pointer it has goes unheard. */
  lemma ServedMeans(before: Snapshot, q: Request, after: Snapshot)
    requires Served(before, q, after)
    ensures q.AllocRequest? ==>
      |after.texts| == |before.texts| + 1 && after.texts[..|before.texts|] == before.texts
      && match after.texts[|before.texts|]
         case Some(text) => |text| == q.n && exists o :: FreeRun(before.view, o, q.n)
         case None => forall o :: !FreeRun(before.view, o, q.n)
    ensures q.FreeRequest? && q.h < |before.texts| ==> after.texts == before.texts[q.h := None]
    ensures q.ReallocRequest? && q.h < |before.texts| && before.texts[q.h].Some? ==>
      var text := before.texts[q.h].value;
      q.n <= |text| ==> after.texts == before.texts[q.h := Some(text[..q.n])]
    ensures q.ReallocRequest? && q.h < |before.texts| && before.texts[q.h].None? ==>
      Renewed(before.texts, before.view, q.h, q.n, after.texts)
    ensures q.WriteRequest? && q.h < |before.texts| && before.texts[q.h].Some? ==>
      var text := before.texts[q.h].value;
      q.at < |text| ==> after == before.(texts := before.texts[q.h := Some(text[q.at := q.c])])
    ensures q.DefragRequest? ==> after.texts == before.texts
  {
  }

  /** The bytes a pointer refers to. */
  ghost predicate Refers(buffer: array<char>, p: Pointer, text: Option<string>)
    reads buffer, p
  {
    if p == null then text.None?
    else text.Some? && p.offset + p.length <= buffer.Length && buffer[..][p.offset..p.offset + p.length] == text.value
  }

  /** The pointers are the allocator's handles, each once, and null pointers. */
  ghost predicate Tracks(ps: seq<Pointer>, handles: set<MemoryBlock>) {
    && (forall i, j :: 0 <= i < j < |ps| && ps[i] != null ==> ps[i] != ps[j])
    && (forall i :: 0 <= i < |ps| && ps[i] != null ==> ps[i] in handles)
    && (forall p :: p in handles ==> p in ps)
  }

  ghost predicate ReferTo(buffer: array<char>, ps: seq<Pointer>, texts: Texts)
    reads buffer, ps
  {
    |ps| == |texts| && forall i :: 0 <= i < |ps| ==> Refers(buffer, ps[i], texts[i])
  }

  lemma PointersAreHandles(ps: seq<Pointer>, handles: set<MemoryBlock>)
    requires Tracks(ps, handles)
    ensures forall i :: 0 <= i < |ps| && ps[i] != null ==> ps[i] in handles
  {
  }

  /** Pointer h lets go of its block, if it had one, and takes block p, if that is one. */
  lemma TracksChange(ps: seq<Pointer>, handles: set<MemoryBlock>, h: nat, p: Pointer)
    requires Tracks(ps, handles) && h < |ps| && (p != null && p != ps[h] ==> p !in handles)
    ensures Tracks(ps[h := p], handles - {ps[h]} + if p == null then {} else {p})
  {
    var qs := ps[h := p];
    assert qs[h] == p;
    forall q | q in handles && q != ps[h] ensures q in qs {
      var i :| 0 <= i < |ps| && ps[i] == q;
      assert qs[i] == q;
    }
  }

  lemma AllRefer(buffer: array<char>, ps: seq<Pointer>, texts: Texts)
    requires ReferTo(buffer, ps, texts)
    ensures |ps| == |texts| && forall i :: 0 <= i < |ps| ==> Refers(buffer, ps[i], texts[i])
  {
  }

  /** All pointers but h have kept their texts. */
  lemma ReferAgain(buffer: array<char>, ps: seq<Pointer>, texts: Texts, h: nat, p: Pointer, text: Option<string>)
    requires h < |ps| == |texts| && Refers(buffer, p, text)
    requires forall i :: 0 <= i < |ps| && i != h ==> Refers(buffer, ps[i], texts[i])
    ensures ReferTo(buffer, ps[h := p], texts[h := text])
  {
  }

  lemma OneMoreRefers(buffer: array<char>, ps: seq<Pointer>, texts: Texts, p: Pointer, text: Option<string>)
    requires |ps| == |texts| && (forall i :: 0 <= i < |ps| ==> Refers(buffer, ps[i], texts[i]))
    requires Refers(buffer, p, text)
    ensures ReferTo(buffer, ps + [p], texts + [text])
  {
  }

  lemma SliceOfSlice(s: string, o: nat, l: nat, n: nat)
    requires o + l <= |s| && n <= l
    ensures s[o..o + n] == s[o..o + l][..n]
  {
  }

  lemma SliceOfUpdate(s: string, o: nat, l: nat, at: nat, c: char)
    requires o + l <= |s| && at < l
    ensures s[o + at := c][o..o + l] == s[o..o + l][at := c]
  {
  }

  lemma SliceBeside(s: string, o: nat, l: nat, x: nat, c: char)
    requires o + l <= |s| && x < |s| && (x < o || o + l <= x)
    ensures s[x := c][o..o + l] == s[o..o + l]
  {
  }

  lemma HandleInBuffer(al: Allocator, p: MemoryBlock)
    requires al.Valid() && p in al.Handles()
    ensures p.offset + p.length <= al.buffer.Length
  {
    var i :| 0 <= i < |al.blocks| && al.blocks[i] == p;
    assert Shows(al.blocks[i], al.view[i]);
    WithinSize(al.view, al.buffer.Length, i);
  }

  lemma PointersAreDistinct(ps: seq<Pointer>, handles: set<MemoryBlock>, h: nat)
    requires Tracks(ps, handles) && h < |ps|
    ensures forall i :: 0 <= i < |ps| && i != h && ps[i] != null ==> ps[i] != ps[h]
  {
  }

  lemma TracksOneMore(ps: seq<Pointer>, handles: set<MemoryBlock>, p: Pointer)
    requires Tracks(ps, handles) && (p != null ==> p !in handles)
    ensures Tracks(ps + [p], handles + if p == null then {} else {p})
  {
    var qs := ps + [p];
    assert qs[|ps|] == p;
    forall q | q in handles ensures q in qs {
      assert q in ps;
    }
  }

  // ----- The texts take up the used bytes -----

  function Size(text: Option<string>): nat {
    if text.Some? then |text.value| else 0
  }

  function TextTotal(texts: Texts): nat {
    if texts == [] then 0 else Size(texts[0]) + TextTotal(texts[1..])
  }

  lemma {:induction false} TotalAfterChange(texts: Texts, h: nat, text: Option<string>)
    requires h < |texts|
    ensures TextTotal(texts[h := text]) + Size(texts[h]) == TextTotal(texts) + Size(text)
  {
    if h == 0 {
      assert texts[0 := text][1..] == texts[1..];
    } else {
      TotalAfterChange(texts[1..], h - 1, text);
      assert texts[h := text][1..] == texts[1..][h - 1 := text];
    }
  }

  lemma {:induction false} NoTexts(texts: Texts)
    requires forall i :: 0 <= i < |texts| ==> texts[i].None?
    ensures TextTotal(texts) == 0
  {
    if texts != [] {
      NoTexts(texts[1..]);
    }
  }

  /** A text is as long as its pointer's block, which is in use and listed. */
  ghost predicate Fits(bs: seq<MemoryBlock>, v: seq<Block>, p: Pointer, text: Option<string>)
    requires |bs| == |v|
  {
    if p == null then text.None?
    else text.Some? && exists k :: 0 <= k < |bs| && bs[k] == p && v[k].used && v[k].length == |text.value|
  }

  /** Every block in use has one pointer, and every pointer its block. */
  ghost predicate OneToOne(bs: seq<MemoryBlock>, v: seq<Block>, ps: seq<Pointer>, texts: Texts) {
    && |bs| == |v| && |ps| == |texts|
    && (forall k, l :: 0 <= k < l < |bs| ==> bs[k] != bs[l])
    && (forall i, j :: 0 <= i < j < |ps| && ps[i] != null ==> ps[i] != ps[j])
    && (forall i :: 0 <= i < |ps| ==> Fits(bs, v, ps[i], texts[i]))
    && (forall k :: 0 <= k < |bs| && v[k].used ==> bs[k] in ps)
  }

  lemma OneFewer(bs: seq<MemoryBlock>, v: seq<Block>, ps: seq<Pointer>, texts: Texts, h: nat)
    requires OneToOne(bs, v, ps, texts) && bs != [] && h < |ps| && ps[h] == bs[|bs| - 1]
    ensures OneToOne(bs[..|bs| - 1], v[..|bs| - 1], ps[h := null], texts[h := None])
  {
    var n := |bs| - 1;
    forall i | 0 <= i < |ps| && i != h ensures Fits(bs[..n], v[..n], ps[i], texts[i]) {
      assert Fits(bs, v, ps[i], texts[i]);
      if ps[i] != null {
        var k :| 0 <= k < |bs| && bs[k] == ps[i] && v[k].used && v[k].length == |texts[i].value|;
        assert bs[..n][k] == ps[i] && v[..n][k] == v[k];
      }
    }
    forall k | 0 <= k < n && v[k].used ensures bs[k] in ps[h := null] {
      var i :| 0 <= i < |ps| && ps[i] == bs[k];
      assert ps[h := null][i] == bs[k];
    }
  }

  lemma OneFree(bs: seq<MemoryBlock>, v: seq<Block>, ps: seq<Pointer>, texts: Texts)
    requires OneToOne(bs, v, ps, texts) && bs != [] && !v[|v| - 1].used
    ensures OneToOne(bs[..|bs| - 1], v[..|bs| - 1], ps, texts)
  {
    var n := |bs| - 1;
    forall i | 0 <= i < |ps| ensures Fits(bs[..n], v[..n], ps[i], texts[i]) {
      assert Fits(bs, v, ps[i], texts[i]);
      if ps[i] != null {
        var k :| 0 <= k < |bs| && bs[k] == ps[i] && v[k].used && v[k].length == |texts[i].value|;
        assert bs[..n][k] == ps[i] && v[..n][k] == v[k];
      }
    }
  }

  lemma {:induction false} TextsAreUsedBytes(bs: seq<MemoryBlock>, v: seq<Block>, ps: seq<Pointer>, texts: Texts)
    requires OneToOne(bs, v, ps, texts)
    ensures UsedTotal(v) == TextTotal(texts)
    decreases |v|
  {
    var n := |v| - 1;
    if v == [] {
      assert forall i :: 0 <= i < |texts| ==> Fits(bs, v, ps[i], texts[i]);
      NoTexts(texts);
    } else if v[n].used {
      var h :| 0 <= h < |ps| && ps[h] == bs[n];
      assert Fits(bs, v, ps[h], texts[h]);
      OneFewer(bs, v, ps, texts, h);
      TextsAreUsedBytes(bs[..n], v[..n], ps[h := null], texts[h := None]);
      TotalAfterChange(texts, h, None);
    } else {
      OneFree(bs, v, ps, texts);
      TextsAreUsedBytes(bs[..n], v[..n], ps, texts);
    }
  }

  /** A list in order, whose used bytes are those of the texts. */
  ghost predicate InOrder(s: Snapshot, size: nat) {
    && Ok(s.view, size)
    && UsedTotal(s.view) == TextTotal(s.texts) && FreeTotal(s.view) + TextTotal(s.texts) == size
  }

  lemma OkTotals(v: seq<Block>, size: nat)
    requires Ok(v, size)
    ensures Tiles(v, size) && Solid(v) && UsedTotal(v) + FreeTotal(v) == size
  {
    TotalsMakeSize(v, size);
  }

  class Client {
    const al: Allocator
    var pointers: seq<Pointer>
    ghost var texts: Texts

    ghost predicate Valid()
      reads this, al, al.blocks, al.buffer, pointers
    {
      && al.Valid() && Tracks(pointers, al.Handles()) && ReferTo(al.buffer, pointers, texts)
    }

    constructor (buffer: array<char>)
      ensures Valid() && texts == [] && al.buffer == buffer
      ensures fresh(al) && fresh(al.blocks)
    {
      al := new Allocator(buffer);
      pointers := [];
      texts := [];
    }

    /** All blocks of the list are as old as the allocator's last ones, or new. */
    twostate predicate OwnBlocks()
      reads this, al
    {
      forall i :: 0 <= i < |al.blocks| ==> al.blocks[i] in old(al.blocks) || fresh(al.blocks[i])
    }

    /** Alloc, with null for a failure. */
    method TryAlloc(n: nat) returns (p: Pointer)
      requires al.Valid() && n > 0
      modifies al, al.blocks
      ensures al.Valid() && OwnBlocks()
      ensures p == null <==> forall o :: !FreeRun(old(al.view), o, n)
      ensures p != null ==> p !in old(al.Handles()) && p.length == n && p.offset + n <= al.buffer.Length
      ensures al.Handles() == old(al.Handles()) + if p == null then {} else {p}
      ensures forall b :: b in old(al.Handles()) ==> b.offset == old(b.offset) && b.length == old(b.length)
    {
      hide FreeRun, Place, FirstFit, Ok, Distinct;
      var r := al.Alloc(n);
      if r.Failure? {
        return null;
      }
      HandleInBuffer(al, r.value);
      return r.value;
    }

    method Alloc(n: nat)
      requires Valid() && n > 0
      modifies this, al, al.blocks
      ensures Valid() && OwnBlocks() && Renewed(old(texts) + [None], old(al.view), |old(texts)|, n, texts)
    {
      hide FreeRun, Ok, Distinct, Hold, Tracks, ReferTo;
      AllRefer(al.buffer, pointers, texts);
      var p := TryAlloc(n);
      TracksOneMore(pointers, old(al.Handles()), p);
      PointersAreHandles(pointers, old(al.Handles()));
      forall i | 0 <= i < |pointers| ensures Refers(al.buffer, pointers[i], texts[i]) {
        assert old(Refers(al.buffer, pointers[i], texts[i]));
      }
      ghost var text := if p == null then None else Some(al.buffer[..][p.offset..p.offset + p.length]);
      OneMoreRefers(al.buffer, pointers, texts, p, text);
      texts := texts + [text];
      pointers := pointers + [p];
    }

    method Free(h: nat)
      requires Valid() && h < |pointers|
      modifies this, al, al.blocks
      ensures Valid() && OwnBlocks() && texts == old(texts)[h := None]
    {
      hide Ok, Distinct, Hold, Tracks, UsedRefs, Coalesce, ReferTo;
      AllRefer(al.buffer, pointers, texts);
      var p := pointers[h];
      PointersAreHandles(pointers, al.Handles());
      TracksChange(pointers, al.Handles(), h, null);
      var r, q := al.Free(p);
      assert al.Handles() == old(al.Handles()) - {p} + {};
      PointersAreDistinct(pointers, old(al.Handles()), h);
      forall i | 0 <= i < |pointers| && i != h ensures Refers(al.buffer, pointers[i], texts[i]) {
        assert old(Refers(al.buffer, pointers[i], texts[i]));
      }
      ReferAgain(al.buffer, pointers, texts, h, q, None);
      pointers := pointers[h := q];
      texts := texts[h := None];
    }

    /** A null pointer gets a block if there is room for one. */
    method ReallocNull(h: nat, n: nat)
      requires Valid() && n > 0 && h < |pointers| && pointers[h] == null
      modifies this, al, al.blocks
      ensures Valid() && OwnBlocks() && Renewed(old(texts), old(al.view), h, n, texts)
    {
      hide Ok, Distinct, Hold, Tracks, FreeRun, Place, Coalesce, FirstFit, ReferTo;
      AllRefer(al.buffer, pointers, texts);
      PointersAreHandles(pointers, al.Handles());
      var r, q := al.Realloc(null, n);
      TracksChange(pointers, old(al.Handles()), h, q);
      assert al.Handles() == old(al.Handles()) - {null} + if q == null then {} else {q};
      forall i | 0 <= i < |pointers| && i != h ensures Refers(al.buffer, pointers[i], texts[i]) {
        assert old(Refers(al.buffer, pointers[i], texts[i]));
      }
      if q != null {
        HandleInBuffer(al, q);
      }
      ghost var text := if q == null then None else Some(al.buffer[..][q.offset..q.offset + q.length]);
      ReferAgain(al.buffer, pointers, texts, h, q, text);
      pointers := pointers[h := q];
      texts := texts[h := text];
    }

    /** Realloc of a live pointer to no more bytes than it has. */
    method ShrinkBlock(p: MemoryBlock, n: nat)
      requires al.Valid() && n > 0 && p in al.Handles() && n <= p.length
      modifies al, al.blocks
      ensures al.Valid() && OwnBlocks() && al.Handles() == old(al.Handles())
      ensures forall b :: b in al.Handles() ==> b.offset == old(b.offset)
      ensures forall b :: b in al.Handles() ==> b.length == if b == p then n else old(b.length)
    {
      hide Ok, Distinct, Hold, FreeRun, Place, Coalesce, FirstFit, Cut;
      var r, q := al.Realloc(p, n);
      assert al.Handles() == old(al.Handles());
    }

    /** A text is cut down to its first n bytes. */
    method Shrink(h: nat, n: nat)
      requires Valid() && n > 0 && h < |pointers| && pointers[h] != null && n <= pointers[h].length
      modifies this, al, al.blocks
      ensures Valid() && OwnBlocks() && old(texts)[h].Some? && n <= |old(texts)[h].value|
      ensures texts == old(texts)[h := Some(old(texts)[h].value[..n])]
    {
      hide Ok, Distinct, Hold, Tracks, ReferTo;
      var p := pointers[h];
      PointersAreHandles(pointers, al.Handles());
      PointersAreDistinct(pointers, al.Handles(), h);
      AllRefer(al.buffer, pointers, texts);
      ShrinkBlock(p, n);
      SliceOfSlice(al.buffer[..], p.offset, old(p.length), n);
      forall i | 0 <= i < |pointers| && i != h ensures Refers(al.buffer, pointers[i], texts[i]) {
        assert old(Refers(al.buffer, pointers[i], texts[i]));
      }
      ghost var text := Some(texts[h].value[..n]);
      ReferAgain(al.buffer, pointers, texts, h, p, text);
      assert pointers[h := p] == pointers;
      texts := texts[h := text];
    }

    /** The client writes one byte of its own. */
    method Write(h: nat, at: nat, c: char)
      requires Valid() && h < |pointers| && pointers[h] != null && at < pointers[h].length
      modifies this, al.buffer
      ensures Valid() && OwnBlocks() && old(texts)[h].Some? && at < |old(texts)[h].value|
      ensures texts == old(texts)[h := Some(old(texts)[h].value[at := c])]
    {
      hide Ok, Distinct, Hold, Tracks, ReferTo;
      var p := pointers[h];
      PointersAreHandles(pointers, al.Handles());
      PointersAreDistinct(pointers, al.Handles(), h);
      AllRefer(al.buffer, pointers, texts);
      ghost var s := al.buffer[..];
      al.buffer[p.offset + at] := c;
      assert al.buffer[..] == s[p.offset + at := c];
      SliceOfUpdate(s, p.offset, p.length, at, c);
      forall i | 0 <= i < |pointers| && i != h ensures Refers(al.buffer, pointers[i], texts[i]) {
        assert old(Refers(al.buffer, pointers[i], texts[i]));
        if pointers[i] != null {
          al.HandlesDisjoint(pointers[i], p);
          SliceBeside(s, pointers[i].offset, pointers[i].length, p.offset + at, c);
        }
      }
      ghost var text := Some(texts[h].value[at := c]);
      ReferAgain(al.buffer, pointers, texts, h, p, text);
      assert pointers[h := p] == pointers;
      texts := texts[h := text];
    }

    method Defrag()
      requires Valid()
      modifies this, al, al.blocks, al.buffer
      ensures Valid() && OwnBlocks() && texts == old(texts) && al.view == Compact(old(al.view))
    {
      hide Ok, Distinct, Hold, Tracks, Compact, UsedRefs;
      PointersAreHandles(pointers, al.Handles());
      al.Defrag();
      forall i | 0 <= i < |pointers| ensures Refers(al.buffer, pointers[i], texts[i]) {
        assert old(Refers(al.buffer, pointers[i], texts[i]));
      }
    }

    ghost function Now(): Snapshot
      reads this, al
    {
      Snapshot(texts, al.view)
    }

    /** What a client knows of its pointers. */
    lemma PointersShowTexts()
      requires Valid()
      ensures |pointers| == |texts|
      ensures forall i :: 0 <= i < |pointers| ==> (pointers[i] == null <==> texts[i].None?)
      ensures forall i :: 0 <= i < |pointers| && pointers[i] != null ==> pointers[i].length == |texts[i].value|
    {
      AllRefer(al.buffer, pointers, texts);
    }

    method Serve(q: Request)
      requires Valid() && q.Positive()
      modifies this, al, al.blocks, al.buffer
      ensures Valid() && OwnBlocks() && Served(old(Now()), q, Now())
    {
      hide Valid, Renewed;
      PointersShowTexts();
      match q
      case AllocRequest(n) => Alloc(n);
      case FreeRequest(h) =>
        if h < |pointers| {
          Free(h);
        }
      case ReallocRequest(h, n) =>
        if h < |pointers| {
          if pointers[h] == null {
            ReallocNull(h, n);
          } else if n <= pointers[h].length {
            Shrink(h, n);
          }
        }
      case WriteRequest(h, at, c) =>
        if h < |pointers| && pointers[h] != null && at < pointers[h].length {
          Write(h, at, c);
        }
      case DefragRequest => Defrag();
    }

    lemma TextsInOrder()
      requires Valid()
      ensures InOrder(Now(), al.buffer.Length)
    {
      hide Ok;
      var bs, v := al.blocks, al.view;
      AllRefer(al.buffer, pointers, texts);
      forall i | 0 <= i < |pointers| ensures Fits(bs, v, pointers[i], texts[i]) {
        if pointers[i] != null {
          var k :| 0 <= k < |bs| && bs[k] == pointers[i];
          assert Shows(bs[k], v[k]);
        }
      }
      forall k | 0 <= k < |bs| && v[k].used ensures bs[k] in pointers {
        assert Shows(bs[k], v[k]);
      }
      TextsAreUsedBytes(bs, v, pointers, texts);
      OkTotals(v, al.buffer.Length);
    }

    /** Live pointers never share a byte, and the texts and the free bytes add up to the buffer. */
    lemma NothingSharedNothingLost()
      requires Valid()
      ensures forall i, j :: 0 <= i < j < |pointers| && pointers[i] != null && pointers[j] != null ==>
                pointers[i].offset + pointers[i].length <= pointers[j].offset
                || pointers[j].offset + pointers[j].length <= pointers[i].offset
      ensures InOrder(Now(), al.buffer.Length)
    {
      hide Ok, InOrder, Distinct, Hold, ReferTo;
      forall i, j | 0 <= i < j < |pointers| && pointers[i] != null && pointers[j] != null
        ensures pointers[i].offset + pointers[i].length <= pointers[j].offset
                || pointers[j].offset + pointers[j].length <= pointers[i].offset
      {
        al.HandlesDisjoint(pointers[i], pointers[j]);
      }
      TextsInOrder();
    }

    /** Any number of requests. The history has the state before each of them and after the last. */
    method Run(qs: seq<Request>) returns (ghost history: seq<Snapshot>)
      requires Valid() && forall i :: 0 <= i < |qs| ==> qs[i].Positive()
      modifies this, al, al.blocks, al.buffer
      ensures Valid() && OwnBlocks()
      ensures |history| == |qs| + 1 && history[0] == old(Now()) && history[|qs|] == Now()
      ensures forall i :: 0 <= i < |qs| ==> Served(history[i], qs[i], history[i + 1])
      ensures forall i :: 0 <= i <= |qs| ==> InOrder(history[i], al.buffer.Length)
    {
      hide Valid, Served, InOrder;
      history := [Now()];
      NothingSharedNothingLost();
      for k := 0 to |qs|
        invariant Valid() && |history| == k + 1
        invariant OwnBlocks()
        invariant history[0] == old(Now()) && history[k] == Now()
        invariant forall i :: 0 <= i < k ==> Served(history[i], qs[i], history[i + 1])
        invariant forall i :: 0 <= i <= k ==> InOrder(history[i], al.buffer.Length)
      {
        Serve(qs[k]);
        history := history + [Now()];
        NothingSharedNothingLost();
      }
    }
  }

  /** Right after a defrag request an alloc request succeeds iff it asks for no more than the texts
      leave of the buffer. */
  lemma AllocAfterDefrag(s: Snapshot, t: Snapshot, u: Snapshot, n: nat, size: nat)
    requires InOrder(s, size) && n > 0
    requires Served(s, DefragRequest, t) && Served(t, AllocRequest(n), u)
    ensures |u.texts| == |s.texts| + 1 && u.texts[..|s.texts|] == s.texts
    ensures u.texts[|s.texts|].Some? <==> TextTotal(s.texts) + n <= size
  {
    hide FreeRun, FreeTotal, UsedTotal, TextTotal, Compact;
    OkTotals(s.view, size);
    CompactKeepsOk(s.view, size);
    FirstFitIsLowest(t.view, size, n);
    CompactGivesAll(s.view, n);
  }
}
