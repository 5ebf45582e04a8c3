/** The hash table with sliding expiry, over two arrays that stand for the shared memory. */
module ExpiringTable {
  import opened Arena
  import opened Dictionary
  import opened TableSpec

  // ----- What a sweep should do to the nodes s of a bucket -----

  ghost predicate ExpiredNode(m: Memory<Entry>, n: int, now: int) {
    0 <= n < |m.data| && Expired(m.data[n].body, now)
  }

  /** The nodes that are alive when the clock is read for them, in their order. */
  ghost function Kept(m: Memory<Entry>, s: seq<int>, clock: nat -> int): seq<int> {
    if s == [] then [] else
      var i := |s| - 1;
      Kept(m, s[..i], clock) + if ExpiredNode(m, s[i], clock(i)) then [] else [s[i]]
  }

  /** The others, last first, as they come to lie on the free list. */
  ghost function Swept(m: Memory<Entry>, s: seq<int>, clock: nat -> int): seq<int> {
    if s == [] then [] else
      var i := |s| - 1;
      (if ExpiredNode(m, s[i], clock(i)) then [s[i]] else []) + Swept(m, s[..i], clock)
  }

  ghost function KeysOf(m: Memory<Entry>, s: seq<int>): set<int> {
    set n | n in s && 0 <= n < |m.data| :: m.data[n].key
  }

  /** One more node looked at. */
  lemma SweepStep(m: Memory<Entry>, s: seq<int>, clock: nat -> int, i: nat)
    requires i < |s| && 0 <= s[i] < |m.data|
    ensures
      var now := clock(i);
      && Kept(m, s[..i + 1], clock) == Kept(m, s[..i], clock) + (if ExpiredNode(m, s[i], now) then [] else [s[i]])
      && Swept(m, s[..i + 1], clock) == (if ExpiredNode(m, s[i], now) then [s[i]] else []) + Swept(m, s[..i], clock)
      && KeysOf(m, Swept(m, s[..i + 1], clock)) ==
           (if ExpiredNode(m, s[i], now) then {m.data[s[i]].key} else {}) + KeysOf(m, Swept(m, s[..i], clock))
  {
    assert s[..i + 1][..i] == s[..i];
  }

  /** Taking a node out of the middle of a list without repetitions. */
  lemma WithoutMiddle(a: seq<int>, n: int, b: seq<int>)
    requires NoDup(a + [n] + b)
    ensures n in a + [n] + b && Without(a + [n] + b, n) == a + b
  {
    var s := a + [n] + b;
    assert s[|a|] == n;
    assert IndexOf(s, n) == |a|;
  }

  /** A sweep of bucket h has looked at its first i nodes: where it leaves the chains. */
  ghost predicate SweptChains(m: Memory<Entry>, v: Layout, h: nat, clock: nat -> int, i: nat, w: Layout)
    requires |v.chains| == |w.chains| == FREE + 1 && h < HASH_TABLE_SIZE && i <= |v.chains[h]|
  {
    var s := v.chains[h];
    && w.chains[h] == Kept(m, s[..i], clock) + s[i..]
    && w.chains[FREE] == Swept(m, s[..i], clock) + v.chains[FREE]
    && forall c :: 0 <= c < HASH_TABLE_SIZE && c != h ==> w.chains[c] == v.chains[c]
  }

  lemma SweepErases(m: Memory<Entry>, s: seq<int>, clock: nat -> int, i: nat, before: Store, contents: Store)
    requires i < |s| && 0 <= s[i] < |m.data| && ExpiredNode(m, s[i], clock(i))
    requires contents == before - KeysOf(m, Swept(m, s[..i], clock))
    ensures contents - {m.data[s[i]].key} == before - KeysOf(m, Swept(m, s[..i + 1], clock))
  {
    SweepStep(m, s, clock, i);
  }

  lemma SameEntriesChain(m: Memory<Entry>, m1: Memory<Entry>, m2: Memory<Entry>)
    requires Shape(m) && Shape(m1) && Shape(m2)
    requires SameEntries(m, m1, NIL) && SameEntries(m1, m2, NIL)
    ensures SameEntries(m, m2, NIL)
  {
  }

  lemma SweepStarts(m: Memory<Entry>, v: Layout, h: nat, clock: nat -> int)
    requires |v.chains| == FREE + 1 && h < HASH_TABLE_SIZE
    ensures SweptChains(m, v, h, clock, 0, v)
    ensures KeysOf(m, Swept(m, v.chains[h][..0], clock)) == {}
  {
  }

  lemma SweepVisits(m: Memory<Entry>, v: Layout, h: nat, clock: nat -> int, i: nat, m': Memory<Entry>, w: Layout)
    requires |v.chains| == FREE + 1 && h < HASH_TABLE_SIZE && i < |v.chains[h]|
    requires Linked(m', w) && SweptChains(m, v, h, clock, i, w)
    ensures
      var s := v.chains[h];
      && 0 <= s[i] < BUFFER_SIZE && w.home[s[i]] == h
      && m'.data[s[i]].next == At(s, i + 1)
      && w.chains[h] == Kept(m, s[..i], clock) + [s[i]] + s[i + 1..]
  {
    var s := v.chains[h];
    var before, after := Kept(m, s[..i], clock), s[i + 1..];
    assert s[i..] == [s[i]] + after;
    assert w.chains[h] == before + [s[i]] + after;
    assert Chain(m'.data, m'.table[h], w.chains[h]);
    assert LinkedAt(m'.data, w.chains[h], |before|);
    assert Members(w.chains[h], w.home, h);
    assert w.chains[h][|before|] == s[i];
  }

  lemma SweepKeeps(m: Memory<Entry>, v: Layout, h: nat, clock: nat -> int, i: nat, w: Layout)
    requires |v.chains| == |w.chains| == FREE + 1 && h < HASH_TABLE_SIZE && i < |v.chains[h]|
    requires SweptChains(m, v, h, clock, i, w)
    requires 0 <= v.chains[h][i] < |m.data| && !ExpiredNode(m, v.chains[h][i], clock(i))
    ensures SweptChains(m, v, h, clock, i + 1, w)
    ensures Swept(m, v.chains[h][..i + 1], clock) == Swept(m, v.chains[h][..i], clock)
  {
    SweepStep(m, v.chains[h], clock, i);
  }

  lemma SweepMoves(m: Memory<Entry>, v: Layout, h: nat, clock: nat -> int, i: nat, w: Layout)
    requires |v.chains| == FREE + 1 && h < HASH_TABLE_SIZE && i < |v.chains[h]|
    requires Partition(w) && SweptChains(m, v, h, clock, i, w)
    requires
      var s := v.chains[h];
      && 0 <= s[i] < BUFFER_SIZE && s[i] < |m.data|
      && w.home[s[i]] == h && w.chains[h] == Kept(m, s[..i], clock) + [s[i]] + s[i + 1..]
      && ExpiredNode(m, s[i], clock(i))
    ensures SweptChains(m, v, h, clock, i + 1, Move(w, v.chains[h][i], FREE))
  {
    var s := v.chains[h];
    SweepStep(m, s, clock, i);
    assert Members(w.chains[h], w.home, h);
    WithoutMiddle(Kept(m, s[..i], clock), s[i], s[i + 1..]);
    assert Swept(m, s[..i + 1], clock) + v.chains[FREE] == [s[i]] + w.chains[FREE];
  }

  class HashTable {
    const table: array<Ref>
    const data: array<Node<Entry>>
    ghost var view: View

    ghost function Mem(): Memory<Entry>
      reads table, data
    {
      Memory(table[..], data[..])
    }

    ghost predicate Valid()
      reads this, table, data
    {
      Dictionary.Valid(Mem(), view)
    }

    ghost function Contents(): Store
      requires Valid()
      reads this, table, data
    {
      Dictionary.Contents(Mem(), view)
    }

    /** Fills freshly mapped memory; keys and values are left as they are. */
    static method SharedMemorySet(table: array<Ref>, data: array<Node<Entry>>)
      requires table.Length == HASH_TABLE_SIZE + 1 && data.Length == BUFFER_SIZE
      modifies table, data
      ensures Fresh(Memory(table[..], data[..]))
      ensures forall n :: 0 <= n < BUFFER_SIZE ==>
                data[n].key == old(data[n].key) && data[n].body == old(data[n].body)
    {
      for i := 0 to HASH_TABLE_SIZE
        invariant forall c :: 0 <= c < i ==> table[c] == NIL
        invariant data[..] == old(data[..])
      {
        table[i] := NIL;
      }
      table[HASH_TABLE_SIZE] := 0;
      for i := 0 to BUFFER_SIZE
        invariant forall c :: 0 <= c < HASH_TABLE_SIZE ==> table[c] == NIL
        invariant table[HASH_TABLE_SIZE] == 0
        invariant forall n :: i <= n < BUFFER_SIZE ==> data[n] == old(data[n])
        invariant forall n :: 0 <= n < i ==>
                    data[n] == old(data[n]).(prev := if n > 0 then n - 1 else NIL,
                                             next := if n < BUFFER_SIZE - 1 then n + 1 else NIL)
      {
        data[i] := data[i].(prev := if i > 0 then i - 1 else NIL);
        data[i] := data[i].(next := if i < BUFFER_SIZE - 1 then i + 1 else NIL);
      }
    }

    constructor (table: array<Ref>, data: array<Node<Entry>>)
      requires Fresh(Memory(table[..], data[..]))
      ensures Valid() && Contents() == map[]
      ensures this.table == table && this.data == data
    {
      this.table := table;
      this.data := data;
      view := FreshView();
      FreshIsEmpty(Memory(table[..], data[..]));
    }

    // ----- Node setters -----

    method PutNext(p: Ref, x: Ref)
      requires Shape(Mem())
      modifies data
      ensures Mem() == SetNext(old(Mem()), p, x)
    {
      if p != NIL {
        data[p] := data[p].(next := x);
      }
    }

    method PutPrev(p: Ref, x: Ref)
      requires Shape(Mem())
      modifies data
      ensures Mem() == SetPrev(old(Mem()), p, x)
    {
      if p != NIL {
        data[p] := data[p].(prev := x);
      }
    }

    method PutEntry(p: Ref, key: int, body: Entry)
      requires Shape(Mem())
      modifies data
      ensures Mem() == SetEntry(old(Mem()), p, key, body)
    {
      if p != NIL {
        data[p] := data[p].(key := key);
        data[p] := data[p].(body := body);
      }
    }

    // ----- The routines of the table -----

    method FindNode(key: int) returns (p: Ref)
      requires Valid()
      ensures p == Holder(view, key)
    {
      p := table[GetHash(key)];
      SearchStarts(Mem(), view, key);
      ghost var i := 0;
      while p != NIL && data[p].key != key
        invariant Searched(Mem(), view, key, i, p)
        decreases |view.layout.chains[GetHash(key)]| - i
      {
        SearchAdvances(Mem(), view, key, i, p);
        p := data[p].next;
        i := i + 1;
      }
      if p == NIL {
        SearchEnds(Mem(), view, key, i);
      } else {
        SearchAdvances(Mem(), view, key, i, p);
      }
    }

    /** NIL stands for the NoMemory error. */
    method GetNodeFree() returns (p: Ref)
      requires Shape(Mem())
      modifies table, data
      ensures p == old(Mem()).table[FREE]
      ensures Mem() == if p == NIL then old(Mem()) else Pop(old(Mem()))
    {
      p := table[FREE];
      if p != NIL {
        var f := data[p].next;
        PutPrev(f, NIL);
        table[FREE] := f;
      }
    }

    method SetNodeFree(p: Ref)
      requires Valid() && p != NIL && view.layout.home[p] != FREE
      modifies this`view, table, data
      ensures Valid() && Mem() == Release(old(Mem()), p)
      ensures view == View(Move(old(view.layout), p, FREE), old(view.at - {data[p].key}))
      ensures Contents() == old(Contents() - {data[p].key})
      ensures SameEntries(old(Mem()), Mem(), NIL)
    {
      ghost var m0 := Mem();
      ReleaseRemoves(m0, view, p);
      ReleaseMoves(m0, view.layout, p);
      var before, after := data[p].prev, data[p].next;
      var i := 0;
      while i < HASH_TABLE_SIZE && table[i] != p
        invariant i <= HASH_TABLE_SIZE
        invariant forall j :: 0 <= j < i ==> table[j] != p
      {
        i := i + 1;
      }
      assert i == HeadOf(m0.table, p, 0);
      if i < HASH_TABLE_SIZE {
        table[i] := after;
      }
      PutNext(before, after);
      PutPrev(after, before);
      assert Mem() == Unlink(m0, p);
      var f := table[FREE];
      PutPrev(f, p);
      PutNext(p, f);
      PutPrev(p, NIL);
      table[FREE] := p;
      view := View(Move(view.layout, p, FREE), view.at - {m0.data[p].key});
    }

    method Set(key: int, ttl: int, value: int, now: int) returns (r: Reply)
      requires Valid()
      modifies this`view, table, data
      ensures Valid() && (Contents(), r) == TableSpec.Set(old(Contents()), key, ttl, value, now)
      ensures r == NoMemory ==> Mem() == old(Mem())
    {
      ghost var m0, v0 := Mem(), view;
      ReservedPlusFree(m0, view);
      var entry := Entry(value, ttl, now + ttl);
      var p := FindNode(key);
      if p != NIL {
        OverwriteUpdates(m0, view, p, entry);
        PutEntry(p, key, entry);
        return Done;
      }
      var h := GetHash(key);
      p := GetNodeFree();
      if p == NIL {
        return NoMemory;
      }
      InsertAdds(m0, view, key, entry);
      PutEntry(p, key, entry);
      var x := table[h];
      PutNext(p, x);
      PutPrev(x, p);
      table[h] := p;
      assert Mem() == Insert(m0, key, entry);
      view := View(Move(v0.layout, p, h), v0.at[key := p]);
      return Done;
    }

    method Get(key: int, now: int, later: int) returns (r: Reply)
      requires Valid()
      modifies this`view, table, data
      ensures Valid() && (Contents(), r) == TableSpec.Get(old(Contents()), key, now, later)
      ensures r == NoKey ==> Mem() == old(Mem())
    {
      var p := FindNode(key);
      if p == NIL {
        return NoKey;
      }
      var e := data[p].body;
      if Expired(e, now) {
        SetNodeFree(p);
        return NotExists;
      }
      OverwriteUpdates(Mem(), view, p, e.(death := later + e.ttl));
      PutEntry(p, key, e.(death := later + e.ttl));
      return Value(e.value);
    }

    method Del(key: int, now: int) returns (r: Reply)
      requires Valid()
      modifies this`view, table, data
      ensures Valid() && (Contents(), r) == TableSpec.Del(old(Contents()), key, now)
      ensures r == NoKey ==> Mem() == old(Mem())
    {
      var p := FindNode(key);
      if p == NIL {
        return NoKey;
      }
      var expired := Expired(data[p].body, now);
      SetNodeFree(p);
      return if expired then NotExists else Done;
    }

    /** A sweep that started from memory m and layout v has looked at i nodes of bucket h. */
    ghost predicate Sweeping(m: Memory<Entry>, v: Layout, before: Store, h: nat, clock: nat -> int, i: nat)
      requires |v.chains| == FREE + 1 && h < HASH_TABLE_SIZE
      reads this, table, data
    {
      && Valid()
      && Shape(m) && SameEntries(m, Mem(), NIL)
      && i <= |v.chains[h]|
      && SweptChains(m, v, h, clock, i, view.layout)
      && Contents() == before - KeysOf(m, Swept(m, v.chains[h][..i], clock))
    }

    /** One round of the sweep: the cursor moves on before the node may be freed. */
    method SweepNode(p: Ref, now: int, ghost m: Memory<Entry>, ghost v: Layout, ghost before: Store,
                     ghost h: nat, ghost clock: nat -> int, ghost i: nat)
      returns (cursor: Ref)
      requires |v.chains| == FREE + 1 && h < HASH_TABLE_SIZE && i < |v.chains[h]|
      requires Sweeping(m, v, before, h, clock, i)
      requires p == v.chains[h][i] && now == clock(i)
      modifies this`view, table, data
      ensures Sweeping(m, v, before, h, clock, i + 1)
      ensures cursor == At(v.chains[h], i + 1)
    {
      SweepVisits(m, v, h, clock, i, Mem(), view.layout);
      cursor := data[p].next;
      if Expired(data[p].body, now) {
        ghost var m1 := Mem();
        SweepMoves(m, v, h, clock, i, view.layout);
        SweepErases(m, v.chains[h], clock, i, before, Contents());
        SetNodeFree(p);
        SameEntriesChain(m, m1, Mem());
      } else {
        SweepKeeps(m, v, h, clock, i, view.layout);
      }
    }

    /** The cleaner's pass over one bucket. The clock is read once for every node visited. */
    method SweepBucket(h: nat, clock: nat -> int)
      requires Valid() && h < HASH_TABLE_SIZE
      modifies this`view, table, data
      ensures Sweeping(old(Mem()), old(view.layout), old(Contents()), h, clock, |old(view).layout.chains[h]|)
    {
      ghost var m, v, before := Mem(), view.layout, Contents();
      assert Chain(m.data, m.table[h], v.chains[h]);
      SweepStarts(m, v, h, clock);
      var p := table[h];
      var i := 0;
      while p != NIL
        invariant i <= |v.chains[h]| && p == At(v.chains[h], i)
        invariant Sweeping(m, v, before, h, clock, i)
        decreases |v.chains[h]| - i
      {
        p := SweepNode(p, clock(i), m, v, before, h, clock, i);
        i := i + 1;
      }
      if i < |v.chains[h]| {
        SweepVisits(m, v, h, clock, i, Mem(), view.layout);
      }
    }
  }
}
