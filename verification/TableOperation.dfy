/** One request on the table without expiry, run as the individual reads and writes of the
    shared memory that set, get and del make. Every step makes at most one access. */
module TableOperation {
  import opened Arena
  import opened Dictionary

  datatype Op = GET | SET | DEL | QUIT

  datatype Msg = Msg(op: Op, key: int, value: int)

  /** What goes back to the server: an error code and the message's value field. */
  datatype Reply = Reply(err: nat, value: int)

  const DONE := 0
  const NO_KEY := 1
  const NO_MEMORY := 2

  type Cell = n: int | 0 <= n < 2048

  /** Where a request is: the access it makes next, and what it holds in local variables. */
  datatype Pc =
    // find_node
    | FindHead
    | FindTest(cur: Cell)
    | FindNext(cur: Cell)
    // get and set for a stored key
    | ReadValue(n: Cell)
    | WriteValue(n: Cell)
    // set for a new key: get_node_free, the entry, the bucket
    | FreeHead
    | FreeNext(n: Cell)
    | FreeDetach(n: Cell, f: Ref)
    | FreeAdvance(n: Cell, f: Ref)
    | WriteKey(n: Cell)
    | WriteNew(n: Cell)
    | BucketHead(n: Cell)
    | LinkNext(n: Cell, x: Ref)
    | LinkBack(n: Cell, x: Ref)
    | LinkHead(n: Cell)
    // del: set_node_free
    | ReadPrev(n: Cell)
    | ReadNext(n: Cell, p: Ref)
    | Scan(n: Cell, p: Ref, x: Ref, i: nat)
    | Patch(n: Cell, p: Ref, x: Ref, i: nat)
    | BypassNext(n: Cell, p: Ref, x: Ref)
    | BypassPrev(n: Cell, p: Ref, x: Ref)
    | OldFree(n: Cell)
    | FreeBack(n: Cell, f: Ref)
    | FreeLink(n: Cell, f: Ref)
    | FreeTop(n: Cell)
    | FreeFirst(n: Cell)
    // the call has returned or thrown
    | Finished(reply: Reply)
  {
    ghost predicate Searching() {
      FindHead? || FindTest? || FindNext?
    }

    predicate WellFormed() {
      (Scan? || Patch?) ==> i < HASH_TABLE_SIZE
    }
  }

  /** How the operation goes on with the node that find_node returned. */
  function AfterFind(q: Msg, cur: Ref): Pc {
    if cur != NIL then
      match q.op
      case SET => WriteValue(cur)
      case DEL => ReadPrev(cur)
      case _ => ReadValue(cur)
    else if q.op == SET then FreeHead
    else Finished(Reply(NO_KEY, q.value))
  }

  /** The next access of request q. */
  function Micro(m: Memory<int>, q: Msg, pc: Pc): (r: (Memory<int>, Pc))
    requires Shape(m) && pc.WellFormed()
    ensures Shape(r.0) && r.1.WellFormed()
  {
    match pc
    case FindHead =>
      var cur := m.table[GetHash(q.key)];
      (m, if cur == NIL then AfterFind(q, NIL) else FindTest(cur))
    case FindTest(cur) => (m, if m.data[cur].key == q.key then AfterFind(q, cur) else FindNext(cur))
    case FindNext(cur) =>
      var next := m.data[cur].next;
      (m, if next == NIL then AfterFind(q, NIL) else FindTest(next))
    case ReadValue(n) => (m, Finished(Reply(DONE, m.data[n].body)))
    case WriteValue(n) => (SetEntry(m, n, m.data[n].key, q.value), Finished(Reply(DONE, q.value)))
    case FreeHead =>
      var n := m.table[FREE];
      (m, if n == NIL then Finished(Reply(NO_MEMORY, q.value)) else FreeNext(n))
    case FreeNext(n) => (m, FreeDetach(n, m.data[n].next))
    case FreeDetach(n, f) => (SetPrev(m, f, NIL), FreeAdvance(n, f))
    case FreeAdvance(n, f) => (SetHead(m, FREE, f), WriteKey(n))
    case WriteKey(n) => (SetEntry(m, n, q.key, m.data[n].body), WriteNew(n))
    case WriteNew(n) => (SetEntry(m, n, m.data[n].key, q.value), BucketHead(n))
    case BucketHead(n) => (m, LinkNext(n, m.table[GetHash(q.key)]))
    case LinkNext(n, x) => (SetNext(m, n, x), LinkBack(n, x))
    case LinkBack(n, x) => (SetPrev(m, x, n), LinkHead(n))
    case LinkHead(n) => (SetHead(m, GetHash(q.key), n), Finished(Reply(DONE, q.value)))
    case ReadPrev(n) => (m, ReadNext(n, m.data[n].prev))
    case ReadNext(n, p) => (m, Scan(n, p, m.data[n].next, 0))
    case Scan(n, p, x, i) =>
      (m, if m.table[i] == n then Patch(n, p, x, i)
          else if i + 1 < HASH_TABLE_SIZE then Scan(n, p, x, i + 1)
          else BypassNext(n, p, x))
    case Patch(n, p, x, i) => (SetHead(m, i, x), BypassNext(n, p, x))
    case BypassNext(n, p, x) => (SetNext(m, p, x), BypassPrev(n, p, x))
    case BypassPrev(n, p, x) => (SetPrev(m, x, p), OldFree(n))
    case OldFree(n) => (m, FreeBack(n, m.table[FREE]))
    case FreeBack(n, f) => (SetPrev(m, f, n), FreeLink(n, f))
    case FreeLink(n, f) => (SetNext(m, n, f), FreeTop(n))
    case FreeTop(n) => (SetPrev(m, n, NIL), FreeFirst(n))
    case FreeFirst(n) => (SetHead(m, FREE, n), Finished(Reply(DONE, q.value)))
    case Finished(_) => (m, pc)
  }

  // ----- What the rest of a request comes to when nothing else touches the memory -----

  /** A bound on the accesses still to come once the search is over. */
  ghost function Rank(pc: Pc): nat
    requires !pc.Searching() && pc.WellFormed()
  {
    match pc
    case Finished(_) => 0
    case ReadValue(_) => 1
    case WriteValue(_) => 1
    case FreeHead => 10
    case FreeNext(_) => 9
    case FreeDetach(_, _) => 8
    case FreeAdvance(_, _) => 7
    case WriteKey(_) => 6
    case WriteNew(_) => 5
    case BucketHead(_) => 4
    case LinkNext(_, _) => 3
    case LinkBack(_, _) => 2
    case LinkHead(_) => 1
    case ReadPrev(_) => HASH_TABLE_SIZE + 11
    case ReadNext(_, _) => HASH_TABLE_SIZE + 10
    case Scan(_, _, _, i) => HASH_TABLE_SIZE - i + 9
    case Patch(_, _, _, _) => 8
    case BypassNext(_, _, _) => 7
    case BypassPrev(_, _, _) => 6
    case OldFree(_) => 5
    case FreeBack(_, _) => 4
    case FreeLink(_, _) => 3
    case FreeTop(_) => 2
    case FreeFirst(_) => 1
  }

  ghost function Rest(m: Memory<int>, q: Msg, pc: Pc): (Memory<int>, Reply)
    requires Shape(m) && !pc.Searching() && pc.WellFormed()
    decreases Rank(pc)
  {
    if pc.Finished? then (m, pc.reply) else Rest(Micro(m, q, pc).0, q, Micro(m, q, pc).1)
  }

  /** Every access leaves fewer to come. */
  lemma NextRank(m: Memory<int>, q: Msg, pc: Pc)
    requires Shape(m) && pc.WellFormed() && !pc.Searching() && !pc.Finished?
    ensures !Micro(m, q, pc).1.Searching() && Rank(Micro(m, q, pc).1) < Rank(pc)
  {
    hide GetHash, AfterFind, SetHead, SetNext, SetPrev, SetEntry;
    if pc.FreeHead? || pc.FreeNext? || pc.FreeDetach? || pc.FreeAdvance? || pc.WriteKey? || pc.WriteNew? {
      assert Rank(Micro(m, q, pc).1) < Rank(pc);
    }
  }

  /** The whole request at once, on a memory whose view is v. */
  ghost function Outcome(m: Memory<int>, v: View, q: Msg): (Memory<int>, Reply)
    requires Valid(m, v)
  {
    var n := Holder(v, q.key);
    if n != NIL then
      match q.op
      case SET => (SetEntry(m, n, q.key, q.value), Reply(DONE, q.value))
      case DEL => (Release(m, n), Reply(DONE, q.value))
      case _ => (m, Reply(DONE, m.data[n].body))
    else if q.op != SET then (m, Reply(NO_KEY, q.value))
    else if m.table[FREE] == NIL then (m, Reply(NO_MEMORY, q.value))
    else (Insert(m, q.key, q.value), Reply(DONE, q.value))
  }

  lemma PushRest(m: Memory<int>, q: Msg, n: Cell)
    requires Shape(m)
    ensures Rest(m, q, BucketHead(n)) == (Push(m, GetHash(q.key), n), Reply(DONE, q.value))
  {
    hide GetHash, AfterFind;
    var h := GetHash(q.key);
    var x := m.table[h];
    var m1 := SetNext(m, n, x);
    var m2 := SetPrev(m1, x, n);
    calc {
      Rest(m, q, BucketHead(n));
      Rest(m, q, LinkNext(n, x));
      Rest(m1, q, LinkBack(n, x));
      Rest(m2, q, LinkHead(n));
      Rest(SetHead(m2, h, n), q, Finished(Reply(DONE, q.value)));
    }
  }

  lemma InsertRest(m: Memory<int>, q: Msg)
    requires Shape(m) && m.table[FREE] != NIL
    ensures Rest(m, q, FreeHead) == (Insert(m, q.key, q.value), Reply(DONE, q.value))
  {
    var n: Cell := m.table[FREE];
    var f := m.data[n].next;
    var m1 := SetPrev(m, f, NIL);
    var m2 := SetHead(m1, FREE, f);
    var m3 := SetEntry(m2, n, q.key, m2.data[n].body);
    var m4 := SetEntry(m3, n, m3.data[n].key, q.value);
    calc {
      Rest(m, q, FreeHead);
      Rest(m, q, FreeNext(n));
      Rest(m, q, FreeDetach(n, f));
      Rest(m1, q, FreeAdvance(n, f));
      Rest(m2, q, WriteKey(n));
      Rest(m3, q, WriteNew(n));
      Rest(m4, q, BucketHead(n));
    }
    assert m4 == SetEntry(Pop(m), n, q.key, q.value);
    PushRest(m4, q, n);
  }

  lemma FreeTopRest(m: Memory<int>, q: Msg, n: Cell)
    requires Shape(m)
    ensures Rest(m, q, FreeTop(n)) == (SetHead(SetPrev(m, n, NIL), FREE, n), Reply(DONE, q.value))
  {
    hide GetHash, AfterFind;
    var m1 := SetPrev(m, n, NIL);
    calc {
      Rest(m, q, FreeTop(n));
      Rest(m1, q, FreeFirst(n));
      Rest(SetHead(m1, FREE, n), q, Finished(Reply(DONE, q.value)));
    }
  }

  lemma PushFreeRest(m: Memory<int>, q: Msg, n: Cell)
    requires Shape(m)
    ensures Rest(m, q, OldFree(n)) == (PushFree(m, n), Reply(DONE, q.value))
  {
    hide GetHash, AfterFind;
    var f := m.table[FREE];
    var m1 := SetPrev(m, f, n);
    var m2 := SetNext(m1, n, f);
    calc {
      Rest(m, q, OldFree(n));
      Rest(m, q, FreeBack(n, f));
      Rest(m1, q, FreeLink(n, f));
      Rest(m2, q, FreeTop(n));
    }
    FreeTopRest(m2, q, n);
  }

  lemma {:induction false} ScanRest(m: Memory<int>, q: Msg, n: Cell, p: Ref, x: Ref, i: nat)
    requires Shape(m) && i < HASH_TABLE_SIZE
    ensures
      var c := HeadOf(m.table, n, i);
      Rest(m, q, Scan(n, p, x, i))
      == Rest(if c < HASH_TABLE_SIZE then SetHead(m, c, x) else m, q, BypassNext(n, p, x))
    decreases HASH_TABLE_SIZE - i
  {
    if m.table[i] == n {
      assert Rest(m, q, Scan(n, p, x, i)) == Rest(m, q, Patch(n, p, x, i));
    } else if i + 1 < HASH_TABLE_SIZE {
      ScanRest(m, q, n, p, x, i + 1);
    }
  }

  lemma BypassRest(m: Memory<int>, q: Msg, n: Cell, p: Ref, x: Ref)
    requires Shape(m)
    ensures Rest(m, q, BypassNext(n, p, x))
         == (PushFree(SetPrev(SetNext(m, p, x), x, p), n), Reply(DONE, q.value))
  {
    var m1 := SetNext(m, p, x);
    calc {
      Rest(m, q, BypassNext(n, p, x));
      Rest(m1, q, BypassPrev(n, p, x));
      Rest(SetPrev(m1, x, p), q, OldFree(n));
    }
    PushFreeRest(SetPrev(m1, x, p), q, n);
  }

  lemma {:induction false} ReleaseRest(m: Memory<int>, q: Msg, n: Cell)
    requires Shape(m)
    ensures Rest(m, q, ReadPrev(n)) == (Release(m, n), Reply(DONE, q.value))
  {
    hide GetHash, AfterFind, PushFree;
    var p, x := m.data[n].prev, m.data[n].next;
    var c := HeadOf(m.table, n, 0);
    var m1 := if c < HASH_TABLE_SIZE then SetHead(m, c, x) else m;
    assert Rest(m, q, ReadPrev(n)) == Rest(m, q, ReadNext(n, p));
    assert Rest(m, q, ReadNext(n, p)) == Rest(m, q, Scan(n, p, x, 0));
    ScanRest(m, q, n, p, x, 0);
    BypassRest(m1, q, n, p, x);
  }

  /** Once the search has found what it should, the remaining accesses make up the whole request. */
  lemma RestIsOutcome(m: Memory<int>, v: View, q: Msg)
    requires Valid(m, v)
    ensures -1 <= Holder(v, q.key) < BUFFER_SIZE
    ensures Rest(m, q, AfterFind(q, Holder(v, q.key))) == Outcome(m, v, q)
  {
    var n := Holder(v, q.key);
    if n != NIL {
      match q.op {
        case SET => assert m.data[n].key == q.key;
        case DEL => ReleaseRest(m, q, n);
        case _ =>
      }
    } else if q.op == SET {
      if m.table[FREE] != NIL {
        InsertRest(m, q);
      }
    }
  }
}
