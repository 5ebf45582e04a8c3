/** The shared memory of the hash table, as a value: 257 list heads (256 buckets and the
    free list) and 2048 nodes linked to each other by index.

    Each function below is one routine of the table, written as the same reads and writes
    in the same order. The lemmas say what those writes do to the chains of nodes. */
module Arena {

  const HASH_TABLE_SIZE: nat := 256
  const BUFFER_SIZE: nat := 2048
  const NIL: int := -1
  /** The slot of the head table that holds the head of the free list. */
  const FREE: nat := HASH_TABLE_SIZE

  /** A node number, or NIL: what the heads and links of the shared memory hold. */
  type Ref = n: int | -1 <= n < 2048

  datatype Node<P> = Node(key: int, body: P, prev: Ref, next: Ref)

  datatype Memory<P> = Memory(table: seq<Ref>, data: seq<Node<P>>)

  ghost predicate Shape<P>(m: Memory<P>) {
    |m.table| == HASH_TABLE_SIZE + 1 && |m.data| == BUFFER_SIZE
  }

  /** std::hash<int> is the identity into a 64-bit size_t, so a negative key wraps. */
  function GetHash(key: int): (h: nat)
    ensures h < 256 && (key - h) % 256 == 0
  {
    (if key < 0 then key + 0x1_0000_0000_0000_0000 else key) % HASH_TABLE_SIZE
  }

  // ----- Node setters: writes through a null pointer are ignored -----

  function SetNext<P>(m: Memory<P>, p: Ref, x: Ref): (r: Memory<P>)
    requires Shape(m)
    ensures Shape(r)
  {
    if p == NIL then m else m.(data := m.data[p := m.data[p].(next := x)])
  }

  function SetPrev<P>(m: Memory<P>, p: Ref, x: Ref): (r: Memory<P>)
    requires Shape(m)
    ensures Shape(r)
  {
    if p == NIL then m else m.(data := m.data[p := m.data[p].(prev := x)])
  }

  function SetEntry<P>(m: Memory<P>, p: Ref, key: int, body: P): (r: Memory<P>)
    requires Shape(m)
    ensures Shape(r)
  {
    if p == NIL then m else m.(data := m.data[p := m.data[p].(key := key, body := body)])
  }

  function SetHead<P>(m: Memory<P>, c: nat, x: Ref): (r: Memory<P>)
    requires Shape(m) && c <= FREE
    ensures Shape(r)
  {
    m.(table := m.table[c := x])
  }

  // ----- The relinking routines -----

  /** get_node_free: the head of the free list leaves it. */
  function Pop<P>(m: Memory<P>): (r: Memory<P>)
    requires Shape(m) && m.table[FREE] != NIL
    ensures Shape(r)
  {
    var f := m.data[m.table[FREE]].next;
    SetHead(SetPrev(m, f, NIL), FREE, f)
  }

  /** The end of set: node n goes to the front of bucket h. Its n_prev is not written. */
  function Push<P>(m: Memory<P>, h: nat, n: Ref): (r: Memory<P>)
    requires Shape(m) && h < HASH_TABLE_SIZE
    ensures Shape(r)
  {
    var x := m.table[h];
    SetHead(SetPrev(SetNext(m, n, x), x, n), h, n)
  }

  /** All of set for a key that is not stored and a free list that is not empty. */
  function Insert<P>(m: Memory<P>, key: int, body: P): (r: Memory<P>)
    requires Shape(m) && m.table[FREE] != NIL
    ensures Shape(r)
  {
    var n := m.table[FREE];
    Push(SetEntry(Pop(m), n, key, body), GetHash(key), n)
  }

  /** The first bucket from i on whose head is n, or HASH_TABLE_SIZE if there is none. */
  function HeadOf(table: seq<Ref>, n: Ref, i: nat): (c: nat)
    requires |table| == HASH_TABLE_SIZE + 1 && i <= HASH_TABLE_SIZE
    ensures i <= c <= HASH_TABLE_SIZE
    ensures forall j :: i <= j < c ==> table[j] != n
    ensures c < HASH_TABLE_SIZE ==> table[c] == n
    decreases HASH_TABLE_SIZE - i
  {
    if i == HASH_TABLE_SIZE || table[i] == n then i else HeadOf(table, n, i + 1)
  }

  /** The first half of set_node_free: n's bucket and neighbours let go of it. */
  function Unlink<P>(m: Memory<P>, n: Ref): (r: Memory<P>)
    requires Shape(m) && n != NIL
    ensures Shape(r)
  {
    var p, x := m.data[n].prev, m.data[n].next;
    var c := HeadOf(m.table, n, 0);
    var m1 := if c < HASH_TABLE_SIZE then SetHead(m, c, x) else m;
    SetPrev(SetNext(m1, p, x), x, p)
  }

  /** The second half of set_node_free: n becomes the head of the free list. */
  function PushFree<P>(m: Memory<P>, n: Ref): (r: Memory<P>)
    requires Shape(m)
    ensures Shape(r)
  {
    var f := m.table[FREE];
    SetHead(SetPrev(SetNext(SetPrev(m, f, n), n, f), n, NIL), FREE, n)
  }

  function Release<P>(m: Memory<P>, n: Ref): (r: Memory<P>)
    requires Shape(m) && n != NIL
    ensures Shape(r)
  {
    PushFree(Unlink(m, n), n)
  }

  // ----- Chains -----

  ghost predicate NoDup(s: seq<int>) {
    forall i, j :: 0 <= i < j < |s| ==> s[i] != s[j]
  }

  /** The i-th node of a chain, or NIL beyond either end. */
  ghost function At(s: seq<int>, i: int): int {
    if 0 <= i < |s| then s[i] else NIL
  }

  /** The links of the i-th node of s lead to its neighbours in s. */
  ghost predicate LinkedAt<P>(data: seq<Node<P>>, s: seq<int>, i: int)
    requires |data| == BUFFER_SIZE && 0 <= i < |s|
  {
    && 0 <= s[i] < BUFFER_SIZE
    && data[s[i]].prev == At(s, i - 1)
    && data[s[i]].next == At(s, i + 1)
  }

  /** From this head the links run through exactly the nodes s, forwards and backwards. */
  ghost predicate Chain<P>(data: seq<Node<P>>, head: int, s: seq<int>)
    requires |data| == BUFFER_SIZE
  {
    head == At(s, 0) && forall i :: 0 <= i < |s| ==> LinkedAt(data, s, i)
  }

  /** Which nodes make up each of the 257 chains, and the chain each node is in. */
  datatype Layout = Layout(chains: seq<seq<int>>, home: seq<int>)

  /** The nodes of chain c are distinct and are recorded as being in chain c. */
  ghost predicate Members(s: seq<int>, home: seq<int>, c: int)
    requires |home| == BUFFER_SIZE
  {
    NoDup(s) && forall n :: n in s ==> 0 <= n < BUFFER_SIZE && home[n] == c
  }

  /** Every node is in exactly one chain, once. */
  ghost predicate Partition(v: Layout) {
    && |v.chains| == FREE + 1
    && |v.home| == BUFFER_SIZE
    && (forall n :: 0 <= n < BUFFER_SIZE ==> 0 <= v.home[n] <= FREE && n in v.chains[v.home[n]])
    && (forall c :: 0 <= c <= FREE ==> Members(v.chains[c], v.home, c))
  }

  ghost predicate Linked<P>(m: Memory<P>, v: Layout) {
    && Shape(m)
    && Partition(v)
    && forall c :: 0 <= c <= FREE ==> Chain(m.data, m.table[c], v.chains[c])
  }

  ghost function IndexOf(s: seq<int>, n: int): (i: nat)
    requires n in s
    ensures i < |s| && s[i] == n
  {
    var i :| 0 <= i < |s| && s[i] == n; i
  }

  ghost function Without(s: seq<int>, n: int): seq<int>
    requires n in s
  {
    s[..IndexOf(s, n)] + s[IndexOf(s, n) + 1..]
  }

  /** Node n leaves its chain and becomes the first of chain d. */
  ghost function Move(v: Layout, n: int, d: nat): Layout
    requires Partition(v) && 0 <= n < BUFFER_SIZE && d <= FREE && v.home[n] != d
  {
    var c := v.home[n];
    Layout(v.chains[c := Without(v.chains[c], n)][d := [n] + v.chains[d]], v.home[n := d])
  }

  lemma WithoutElements(s: seq<int>, n: int)
    requires n in s && NoDup(s)
    ensures NoDup(Without(s, n)) && n !in Without(s, n)
    ensures forall x :: x in Without(s, n) <==> x in s && x != n
  {
    var i := IndexOf(s, n);
    var t := Without(s, n);
    forall x | x in s && x != n
      ensures x in t
    {
      var j :| 0 <= j < |s| && s[j] == x;
      assert t[if j < i then j else j - 1] == x;
    }
  }

  lemma MoveKeepsPartition(v: Layout, n: int, d: nat)
    requires Partition(v) && 0 <= n < BUFFER_SIZE && d <= FREE && v.home[n] != d
    ensures Partition(Move(v, n, d))
  {
    var c := v.home[n];
    var w := Move(v, n, d);
    WithoutElements(v.chains[c], n);
    assert Members(v.chains[c], v.home, c) && Members(v.chains[d], v.home, d);
    forall e | 0 <= e <= FREE
      ensures Members(w.chains[e], w.home, e)
    {
      assert Members(v.chains[e], v.home, e);
    }
    forall x | 0 <= x < BUFFER_SIZE
      ensures 0 <= w.home[x] <= FREE && x in w.chains[w.home[x]]
    {
      assert x in v.chains[v.home[x]];
    }
  }

  // ----- One chain at a time -----

  lemma ChainFrame<P>(data: seq<Node<P>>, data': seq<Node<P>>, head: int, s: seq<int>)
    requires |data| == |data'| == BUFFER_SIZE
    requires Chain(data, head, s)
    requires forall n :: n in s ==>
               0 <= n < BUFFER_SIZE && data'[n].prev == data[n].prev && data'[n].next == data[n].next
    ensures Chain(data', head, s)
  {
    forall i | 0 <= i < |s|
      ensures LinkedAt(data', s, i)
    {
      assert LinkedAt(data, s, i) && s[i] in s;
    }
  }

  lemma ChainPush<P>(data: seq<Node<P>>, data': seq<Node<P>>, head: int, s: seq<int>, n: int)
    requires |data| == |data'| == BUFFER_SIZE
    requires Chain(data, head, s) && NoDup(s)
    requires 0 <= n < BUFFER_SIZE && n !in s
    requires data'[n].prev == NIL && data'[n].next == head
    requires forall x :: x in s ==>
               && 0 <= x < BUFFER_SIZE
               && data'[x].next == data[x].next
               && data'[x].prev == (if x == head then n else data[x].prev)
    ensures Chain(data', n, [n] + s)
  {
    var t := [n] + s;
    forall i | 0 <= i < |t|
      ensures LinkedAt(data', t, i)
    {
      if i > 0 {
        assert LinkedAt(data, s, i - 1) && t[i] == s[i-1] && s[i-1] in s;
      }
    }
  }

  /** Where an element of s other than the removed one goes, and who its neighbours become. */
  lemma WithoutNeighbours(s: seq<int>, n: int, k: nat)
    requires n in s && NoDup(s) && k < |s| && s[k] != n
    requires NIL !in s
    ensures
      var i, t := IndexOf(s, n), Without(s, n);
      var j := if k < i then k else k - 1;
      && j < |t| && t[j] == s[k]
      && At(t, j - 1) == (if s[k] == At(s, i + 1) then At(s, i - 1) else At(s, k - 1))
      && At(t, j + 1) == (if s[k] == At(s, i - 1) then At(s, i + 1) else At(s, k + 1))
  {
    var i: int := IndexOf(s, n);
    var t, j := Without(s, n), if k < i then k else k - 1;
    assert t[j] == s[k] && s[k] in s;
    assert 0 < j ==> t[j-1] == s[if j - 1 < i then j - 1 else j];
    assert j + 1 < |t| ==> t[j+1] == s[if j + 1 < i then j + 1 else j + 2];
    assert (s[k] == At(s, i + 1)) == (k == i + 1);
    assert (s[k] == At(s, i - 1)) == (k == i - 1);
  }

  /** The neighbours of n are linked past it. */
  ghost predicate BypassAt<P>(data: seq<Node<P>>, data': seq<Node<P>>, n: int, x: int)
    requires |data| == |data'| == BUFFER_SIZE
    requires 0 <= n < BUFFER_SIZE && 0 <= x < BUFFER_SIZE
  {
    && data'[x].next == (if x == data[n].prev then data[n].next else data[x].next)
    && data'[x].prev == (if x == data[n].next then data[n].prev else data[x].prev)
  }

  lemma ChainRemove<P>(data: seq<Node<P>>, data': seq<Node<P>>, head: int, s: seq<int>, n: int)
    requires |data| == |data'| == BUFFER_SIZE
    requires Chain(data, head, s) && NoDup(s)
    requires n in s && 0 <= n < BUFFER_SIZE
    requires forall x :: x in s ==> 0 <= x < BUFFER_SIZE
    requires forall x :: x in s && x != n ==> BypassAt(data, data', n, x)
    ensures Chain(data', if head == n then data[n].next else head, Without(s, n))
  {
    var i, t := IndexOf(s, n), Without(s, n);
    assert LinkedAt(data, s, i);
    forall j | 0 <= j < |t|
      ensures LinkedAt(data', t, j)
    {
      var k := if j < i then j else j + 1;
      WithoutNeighbours(s, n, k);
      assert LinkedAt(data, s, k) && s[k] in s;
    }
  }

  // ----- All chains -----

  /** Links and heads changed exactly as taking n out of its chain and pushing it onto chain d
      demands; keys and bodies are not looked at. */
  ghost predicate Rewired<P>(m: Memory<P>, m': Memory<P>, v: Layout, n: int, d: nat)
    requires Shape(m) && Shape(m') && Partition(v)
    requires 0 <= n < BUFFER_SIZE && d <= FREE && v.home[n] != d
  {
    var p, x, y, c := m.data[n].prev, m.data[n].next, m.table[d], v.home[n];
    && m'.data[n].prev == NIL && m'.data[n].next == y
    && m'.table == m.table[c := if m.table[c] == n then x else m.table[c]][d := n]
    && forall k :: 0 <= k < BUFFER_SIZE && k != n ==>
         && m'.data[k].next == (if k == p then x else m.data[k].next)
         && m'.data[k].prev == (if k == x then p else if k == y then n else m.data[k].prev)
  }

  lemma RewiredSource<P>(m: Memory<P>, m': Memory<P>, v: Layout, n: int, d: nat)
    requires Linked(m, v) && Shape(m')
    requires 0 <= n < BUFFER_SIZE && d <= FREE && v.home[n] != d && Rewired(m, m', v, n, d)
    ensures Chain(m'.data, m'.table[v.home[n]], Without(v.chains[v.home[n]], n))
  {
    var c := v.home[n];
    HeadAtHome(m, v, d);
    NeighboursAtHome(m, v, n);
    assert Members(v.chains[c], v.home, c);
    ChainRemove(m.data, m'.data, m.table[c], v.chains[c], n);
  }

  lemma RewiredTarget<P>(m: Memory<P>, m': Memory<P>, v: Layout, n: int, d: nat)
    requires Linked(m, v) && Shape(m')
    requires 0 <= n < BUFFER_SIZE && d <= FREE && v.home[n] != d && Rewired(m, m', v, n, d)
    ensures Chain(m'.data, m'.table[d], [n] + v.chains[d])
  {
    NeighboursAtHome(m, v, n);
    assert Members(v.chains[d], v.home, d);
    ChainPush(m.data, m'.data, m.table[d], v.chains[d], n);
  }

  lemma RewiredOther<P>(m: Memory<P>, m': Memory<P>, v: Layout, n: int, d: nat, e: nat)
    requires Linked(m, v) && Shape(m')
    requires 0 <= n < BUFFER_SIZE && d <= FREE && v.home[n] != d && Rewired(m, m', v, n, d)
    requires e <= FREE && e != d && e != v.home[n]
    ensures Chain(m'.data, m'.table[e], v.chains[e])
  {
    NeighboursAtHome(m, v, n);
    HeadAtHome(m, v, d);
    assert Members(v.chains[e], v.home, e);
    ChainFrame(m.data, m'.data, m.table[e], v.chains[e]);
  }

  lemma MoveKeepsLinked<P>(m: Memory<P>, m': Memory<P>, v: Layout, n: int, d: nat)
    requires Linked(m, v) && Shape(m')
    requires 0 <= n < BUFFER_SIZE && d <= FREE && v.home[n] != d && Rewired(m, m', v, n, d)
    ensures Linked(m', Move(v, n, d))
  {
    MoveKeepsPartition(v, n, d);
    forall e | 0 <= e <= FREE
      ensures Chain(m'.data, m'.table[e], Move(v, n, d).chains[e])
    {
      if e == d {
        RewiredTarget(m, m', v, n, d);
      } else if e == v.home[n] {
        RewiredSource(m, m', v, n, d);
      } else {
        RewiredOther(m, m', v, n, d, e);
      }
    }
  }

  lemma NeighboursAtHome<P>(m: Memory<P>, v: Layout, n: int)
    requires Linked(m, v) && 0 <= n < BUFFER_SIZE
    ensures
      var p, x, c := m.data[n].prev, m.data[n].next, v.home[n];
      && p != n && x != n
      && (p != NIL ==> v.home[p] == c)
      && (x != NIL ==> v.home[x] == c && x != p)
      && (m.table[c] == n <==> p == NIL)
  {
    var c := v.home[n];
    var s := v.chains[c];
    assert Members(s, v.home, c) && Chain(m.data, m.table[c], s);
    assert LinkedAt(m.data, s, IndexOf(s, n));
  }

  lemma HeadAtHome<P>(m: Memory<P>, v: Layout, c: nat)
    requires Linked(m, v) && c <= FREE
    ensures m.table[c] == NIL <==> v.chains[c] == []
    ensures m.table[c] != NIL ==> v.home[m.table[c]] == c && m.data[m.table[c]].prev == NIL
  {
    var s := v.chains[c];
    assert Members(s, v.home, c) && Chain(m.data, m.table[c], s);
    if s != [] {
      assert LinkedAt(m.data, s, 0) && s[0] in s;
    }
  }

  /** Insertion moves the first free node to its bucket and writes nothing else's entry. */
  lemma {:induction false} InsertMoves<P>(m: Memory<P>, v: Layout, key: int, body: P)
    requires Linked(m, v) && m.table[FREE] != NIL
    ensures v.home[m.table[FREE]] == FREE
    ensures Linked(Insert(m, key, body), Move(v, m.table[FREE], GetHash(key)))
    ensures SameEntries(m, Insert(m, key, body), m.table[FREE])
    ensures
      var e := Insert(m, key, body).data[m.table[FREE]];
      e.key == key && e.body == body
  {
    var n, h := m.table[FREE], GetHash(key);
    HeadAtHome(m, v, FREE);
    HeadAtHome(m, v, h);
    NeighboursAtHome(m, v, n);
    MoveKeepsLinked(m, Insert(m, key, body), v, n, h);
  }

  /** No entry other than that of node n differs. */
  ghost predicate SameEntries<P>(m: Memory<P>, m': Memory<P>, n: int)
    requires Shape(m) && Shape(m')
  {
    forall k :: 0 <= k < BUFFER_SIZE && k != n ==>
      m'.data[k].key == m.data[k].key && m'.data[k].body == m.data[k].body
  }

  /** The search over all heads finds n exactly in its own bucket, and only if it is first. */
  lemma HeadOfHome<P>(m: Memory<P>, v: Layout, n: int)
    requires Linked(m, v) && 0 <= n < BUFFER_SIZE && v.home[n] < FREE
    ensures HeadOf(m.table, n, 0) == if m.data[n].prev == NIL then v.home[n] else HASH_TABLE_SIZE
  {
    var c := HeadOf(m.table, n, 0);
    NeighboursAtHome(m, v, n);
    if c < HASH_TABLE_SIZE {
      HeadAtHome(m, v, c);
    }
  }

  lemma {:induction false} UnlinkWrites<P>(m: Memory<P>, v: Layout, n: int)
    requires Linked(m, v) && 0 <= n < BUFFER_SIZE && v.home[n] < FREE
    ensures
      var u, p, x, c := Unlink(m, n), m.data[n].prev, m.data[n].next, v.home[n];
      && u.table == m.table[c := if m.table[c] == n then x else m.table[c]]
      && forall k :: 0 <= k < BUFFER_SIZE ==>
           u.data[k] == m.data[k].(
             next := if k == p then x else m.data[k].next,
             prev := if k == x then p else m.data[k].prev)
  {
    hide Chain, Members, HeadOf;
    HeadOfHome(m, v, n);
    NeighboursAtHome(m, v, n);
  }

  lemma PushFreeWrites<P>(m: Memory<P>, n: int)
    requires Shape(m) && 0 <= n < BUFFER_SIZE && m.table[FREE] != n
    ensures
      var u, f := PushFree(m, n), m.table[FREE];
      && u.table == m.table[FREE := n]
      && u.data[n] == m.data[n].(prev := NIL, next := f)
      && forall k :: 0 <= k < BUFFER_SIZE && k != n ==>
           u.data[k] == m.data[k].(prev := if k == f then n else m.data[k].prev)
  {
  }

  /** Freeing moves the node from its bucket to the front of the free list. */
  lemma {:induction false} ReleaseMoves<P>(m: Memory<P>, v: Layout, n: int)
    requires Linked(m, v) && 0 <= n < BUFFER_SIZE && v.home[n] < FREE
    ensures Linked(Release(m, n), Move(v, n, FREE))
    ensures SameEntries(m, Release(m, n), NIL)
  {
    UnlinkWrites(m, v, n);
    HeadAtHome(m, v, FREE);
    NeighboursAtHome(m, v, n);
    PushFreeWrites(Unlink(m, n), n);
    MoveKeepsLinked(m, Release(m, n), v, n, FREE);
  }
}
