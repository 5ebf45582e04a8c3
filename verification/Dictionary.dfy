/** What the arena means: a finite map from the keys of the nodes held in buckets to
    what those nodes store. */
module Dictionary {
  import opened Arena

  /** A layout of the chains and the node that holds each stored key. */
  datatype View = View(layout: Layout, at: map<int, int>)

  /** Every held node is in the bucket of its key's hash, and no two hold the same key. */
  ghost predicate Valid<P>(m: Memory<P>, v: View) {
    && Linked(m, v.layout)
    && (forall k :: k in v.at ==>
          0 <= v.at[k] < BUFFER_SIZE && m.data[v.at[k]].key == k && v.layout.home[v.at[k]] == GetHash(k))
    && (forall n :: 0 <= n < BUFFER_SIZE && v.layout.home[n] != FREE ==>
          m.data[n].key in v.at && v.at[m.data[n].key] == n)
  }

  ghost function Contents<P>(m: Memory<P>, v: View): map<int, P>
    requires Valid(m, v)
  {
    map k | k in v.at :: m.data[v.at[k]].body
  }

  /** The node that find_node should return. */
  ghost function Holder(v: View, key: int): int {
    if key in v.at then v.at[key] else NIL
  }

  // ----- Searching a bucket -----

  /** The search for key has come to the i-th node of its bucket and key is not before it. */
  ghost predicate Searched<P>(m: Memory<P>, v: View, key: int, i: nat, cursor: int)
    requires Valid(m, v)
  {
    var s := v.layout.chains[GetHash(key)];
    && i <= |s|
    && cursor == At(s, i)
    && forall j :: 0 <= j < i ==> s[j] != Holder(v, key)
  }

  lemma SearchStarts<P>(m: Memory<P>, v: View, key: int)
    requires Valid(m, v)
    ensures Searched(m, v, key, 0, m.table[GetHash(key)])
  {
    assert Chain(m.data, m.table[GetHash(key)], v.layout.chains[GetHash(key)]);
  }

  lemma SearchAdvances<P>(m: Memory<P>, v: View, key: int, i: nat, cursor: int)
    requires Valid(m, v) && Searched(m, v, key, i, cursor)
    requires cursor != NIL
    ensures 0 <= cursor < BUFFER_SIZE
    ensures i < |v.layout.chains[GetHash(key)]|
    ensures if m.data[cursor].key == key then cursor == Holder(v, key)
            else Searched(m, v, key, i + 1, m.data[cursor].next)
  {
    var h := GetHash(key);
    var s := v.layout.chains[h];
    assert Chain(m.data, m.table[h], s) && Members(s, v.layout.home, h);
    assert LinkedAt(m.data, s, i) && s[i] in s;
  }

  lemma SearchEnds<P>(m: Memory<P>, v: View, key: int, i: nat)
    requires Valid(m, v) && Searched(m, v, key, i, NIL)
    ensures Holder(v, key) == NIL
  {
    var h := GetHash(key);
    var s := v.layout.chains[h];
    assert i < |s| ==> LinkedAt(m.data, s, i);
  }

  // ----- What the routines do to the map -----

  lemma {:induction false} InsertAdds<P>(m: Memory<P>, v: View, key: int, body: P)
    requires Valid(m, v) && m.table[FREE] != NIL && key !in v.at
    ensures v.layout.home[m.table[FREE]] == FREE
    ensures
      var n := m.table[FREE];
      var m', v' := Insert(m, key, body), View(Move(v.layout, n, GetHash(key)), v.at[key := n]);
      Valid(m', v') && Contents(m', v') == Contents(m, v)[key := body]
  {
    hide Chain, Members, Push, Pop, Without;
    HeadAtHome(m, v.layout, FREE);
    var n := m.table[FREE];
    var m', v' := Insert(m, key, body), View(Move(v.layout, n, GetHash(key)), v.at[key := n]);
    InsertMoves(m, v.layout, key, body);
    assert v'.layout.home == v.layout.home[n := GetHash(key)];
    assert Valid(m', v');
    assert forall k :: k in v.at ==> m'.data[v.at[k]].body == m.data[v.at[k]].body;
  }

  lemma {:induction false} ReleaseRemoves<P>(m: Memory<P>, v: View, n: int)
    requires Valid(m, v) && 0 <= n < BUFFER_SIZE && v.layout.home[n] != FREE
    ensures
      var m', v' := Release(m, n), View(Move(v.layout, n, FREE), v.at - {m.data[n].key});
      Valid(m', v') && Contents(m', v') == Contents(m, v) - {m.data[n].key}
  {
    hide Chain, Members, Unlink, PushFree, Without;
    var m', v' := Release(m, n), View(Move(v.layout, n, FREE), v.at - {m.data[n].key});
    ReleaseMoves(m, v.layout, n);
    assert v'.layout.home == v.layout.home[n := FREE];
    assert Valid(m', v');
    assert forall k :: k in v'.at ==> m'.data[v.at[k]].body == m.data[v.at[k]].body;
  }

  lemma OverwriteKeepsLinks<P>(m: Memory<P>, v: Layout, n: Ref, key: int, body: P)
    requires Linked(m, v) && n != NIL
    ensures Linked(SetEntry(m, n, key, body), v)
  {
    var m' := SetEntry(m, n, key, body);
    forall c | 0 <= c <= FREE
      ensures Chain(m'.data, m'.table[c], v.chains[c])
    {
      assert Members(v.chains[c], v.home, c);
      ChainFrame(m.data, m'.data, m.table[c], v.chains[c]);
    }
  }

  lemma OverwriteUpdates<P>(m: Memory<P>, v: View, n: Ref, body: P)
    requires Valid(m, v) && n != NIL && v.layout.home[n] != FREE
    ensures
      var m' := SetEntry(m, n, m.data[n].key, body);
      Valid(m', v) && Contents(m', v) == Contents(m, v)[m.data[n].key := body]
  {
    var m' := SetEntry(m, n, m.data[n].key, body);
    OverwriteKeepsLinks(m, v.layout, n, m.data[n].key, body);
    assert Valid(m', v);
    assert forall k :: k in v.at && k != m.data[n].key ==> m'.data[v.at[k]].body == m.data[v.at[k]].body;
  }

  // ----- How much is stored -----

  ghost function HeldNodes(at: map<int, int>): set<int> {
    set k | k in at :: at[k]
  }

  lemma AsManyNodesAsKeys(at: map<int, int>)
    requires forall j, k :: j in at && k in at && j != k ==> at[j] != at[k]
    ensures |HeldNodes(at)| == |at|
  {
    if k :| k in at {
      var rest := map j | j in at && j != k :: at[j];
      AsManyNodesAsKeys(rest);
      assert rest.Keys == at.Keys - {k};
      assert forall j :: j in at ==> at[j] in HeldNodes(rest) + {at[k]} by {
        forall j | j in at
          ensures at[j] in HeldNodes(rest) + {at[k]}
        {
          assert j != k ==> rest[j] == at[j];
        }
      }
      assert HeldNodes(at) == HeldNodes(rest) + {at[k]};
    } else {
      assert at == map[];
    }
  }

  lemma DistinctElements(s: seq<int>)
    requires NoDup(s)
    ensures |set x | x in s| == |s|
  {
    if s != [] {
      var t := s[1..];
      DistinctElements(t);
      assert (set x | x in s) == (set x | x in t) + {s[0]};
    }
  }

  lemma Numbers(n: nat) returns (r: set<int>)
    ensures |r| == n
    ensures forall x :: x in r <==> 0 <= x < n
  {
    r := {};
    for i := 0 to n
      invariant |r| == i
      invariant forall x :: x in r <==> 0 <= x < i
    {
      r := r + {i};
    }
  }

  lemma HeldAndFree<P>(m: Memory<P>, v: View, all: set<int>)
    requires Valid(m, v)
    requires forall x :: x in all <==> 0 <= x < BUFFER_SIZE
    ensures all == HeldNodes(v.at) + (set x | x in v.layout.chains[FREE])
    ensures HeldNodes(v.at) !! (set x | x in v.layout.chains[FREE])
  {
    var s := v.layout.chains[FREE];
    assert Members(s, v.layout.home, FREE);
    forall n | n in all
      ensures n in HeldNodes(v.at) || n in s
    {
      assert n in v.layout.chains[v.layout.home[n]];
      if v.layout.home[n] != FREE {
        assert v.at[m.data[n].key] == n;
      }
    }
  }

  /** Held nodes and free nodes make up the whole buffer. */
  lemma ReservedPlusFree<P>(m: Memory<P>, v: View)
    requires Valid(m, v)
    ensures |Contents(m, v)| + |v.layout.chains[FREE]| == BUFFER_SIZE
    ensures |Contents(m, v)| == BUFFER_SIZE <==> m.table[FREE] == NIL
  {
    var s := v.layout.chains[FREE];
    assert Members(s, v.layout.home, FREE);
    HeadAtHome(m, v.layout, FREE);
    DistinctElements(s);
    assert Contents(m, v).Keys == v.at.Keys;
    assert forall k :: k in v.at ==> m.data[v.at[k]].key == k;
    AsManyNodesAsKeys(v.at);
    var all := Numbers(BUFFER_SIZE);
    HeldAndFree(m, v, all);
  }

  lemma SizeAfterUpdate<P>(s: map<int, P>, key: int, x: P)
    ensures |s[key := x]| == |s| + if key in s then 0 else 1
  {
    assert s[key := x].Keys == s.Keys + {key};
    assert |s[key := x]| == |s[key := x].Keys| && |s| == |s.Keys|;
  }

  lemma SizeAfterRemoval<P>(s: map<int, P>, key: int)
    ensures |s - {key}| == |s| - if key in s then 1 else 0
  {
    assert (s - {key}).Keys == s.Keys - {key};
    assert |s - {key}| == |(s - {key}).Keys| && |s| == |s.Keys|;
  }

  // ----- The memory as shared_memory_set leaves it -----

  ghost predicate Fresh<P>(m: Memory<P>) {
    && Shape(m)
    && (forall c :: 0 <= c < FREE ==> m.table[c] == NIL)
    && m.table[FREE] == 0
    && forall n :: 0 <= n < BUFFER_SIZE ==>
         && m.data[n].prev == n - 1
         && m.data[n].next == (if n < BUFFER_SIZE - 1 then n + 1 else NIL)
  }

  ghost function AllNodes(): (s: seq<int>)
    ensures |s| == BUFFER_SIZE && forall n :: 0 <= n < BUFFER_SIZE ==> s[n] == n
  {
    seq(BUFFER_SIZE, n => n)
  }

  ghost function FreshView(): View {
    View(Layout(seq(FREE, _ => []) + [AllNodes()], seq(BUFFER_SIZE, _ => FREE)), map[])
  }

  lemma FreshPartition()
    ensures Partition(FreshView().layout)
  {
    var v := FreshView().layout;
    assert v.chains[FREE] == AllNodes();
    forall n | 0 <= n < BUFFER_SIZE
      ensures v.home[n] == FREE && n in v.chains[FREE]
    {
      assert AllNodes()[n] == n;
    }
    assert forall c :: 0 <= c < FREE ==> v.chains[c] == [];
  }

  lemma FreshIsEmpty<P>(m: Memory<P>)
    requires Fresh(m)
    ensures Valid(m, FreshView()) && Contents(m, FreshView()) == map[]
  {
    FreshPartition();
    var v := FreshView().layout;
    assert v.chains[FREE] == AllNodes();
    assert forall c :: 0 <= c < FREE ==> v.chains[c] == [];
  }
}
