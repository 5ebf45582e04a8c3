/** Requests to two sections: each locked one has a semaphore of its own, but all of them take nodes
    from one free list, and nothing locks that. */
module SectionRace {
  import opened Results
  import opened Arena
  import opened Dictionary
  import opened TableOperation
  import opened Workers
  import opened ReplyLaws

  ghost predicate MessagesInEither(turns: seq<Turn>, x: nat, y: nat) {
    forall i :: 0 <= i < |turns| && turns[i].received.Some? && turns[i].received.value.op != QUIT ==>
      SemId(turns[i].received.value.key) == x || SemId(turns[i].received.value.key) == y
  }

  /** There are lawful replies to the requests in the log, and all replies sent so far are among them. */
  ghost predicate Sequential(s: State)
    requires WellFormed(s)
  {
    exists rs :: Lawful(s.log, rs) && AgreesWith(s, rs)
  }

  ghost predicate AgreesWith(s: State, rs: seq<Reply>)
    requires WellFormed(s)
  {
    |rs| == |s.log| && forall t :: 0 <= t < |s.log| && s.replies[t].Some? ==> s.replies[t].value == rs[t]
  }

  // ----- What the pieces of a schedule do -----

  /** The permits are there, if the section has any. */
  predicate Open(sems: seq<nat>, id: nat, cost: nat) {
    id < |sems| ==> sems[id] >= cost
  }

  function TakePermits(sems: seq<nat>, id: nat, n: nat): seq<nat>
    requires Open(sems, id, n)
  {
    if id < |sems| then sems[id := sems[id] - n] else sems
  }

  function GivePermits(sems: seq<nat>, id: nat, n: nat): seq<nat> {
    if id < |sems| then sems[id := sems[id] + n] else sems
  }

  function Entered(s: State, w: nat, q: Msg): State
    requires WellFormed(s) && w < NUM_WORKERS && Open(s.sems, SemId(q.key), Cost(q.op))
  {
    State(TakePermits(s.sems, SemId(q.key), Cost(q.op)), s.mem, s.workers[w := Running(q, FindHead, |s.log|)],
          s.log + [q], s.replies + [None])
  }

  ghost function Ended(s: State, w: nat, q: Msg, pc: Pc, t: nat): State
    requires WellFormed(s) && w < NUM_WORKERS && pc.WellFormed() && !pc.Searching()
  {
    s.(mem := Rest(s.mem, q, pc).0, workers := s.workers[w := Running(q, Finished(Rest(s.mem, q, pc).1), t)])
  }

  function Departed(s: State, w: nat, q: Msg, reply: Reply, t: nat): State
    requires WellFormed(s) && w < NUM_WORKERS && t < |s.log|
  {
    s.(sems := GivePermits(s.sems, SemId(q.key), Refund(q.op)), workers := s.workers[w := Idle],
       replies := s.replies[t := Some(reply)])
  }

  // ----- Schedules, piece by piece -----

  /** A schedule so far, and what the next piece of it does to the state. */
  ghost predicate Schedule(turns: seq<Turn>, x: nat, y: nat) {
    Turns(turns) && MessagesInEither(turns, x, y)
  }

  lemma Move(s0: State, turns: seq<Turn>, x: nat, y: nat, turn: Turn)
    requires WellFormed(s0) && Schedule(turns, x, y) && turn.w < NUM_WORKERS
    requires turn.received.Some? && turn.received.value.op != QUIT ==>
               SemId(turn.received.value.key) == x || SemId(turn.received.value.key) == y
    ensures Schedule(turns + [turn], x, y) && Run(s0, turns + [turn]) == Step(Run(s0, turns), turn)
  {
    hide Step, SemId;
    RunOneMore(s0, turns, turn);
  }

  /** A worker receives a request and enters its section. */
  lemma {:induction false} Enter(s0: State, turns: seq<Turn>, x: nat, y: nat, w: nat, q: Msg) returns (more: seq<Turn>)
    requires WellFormed(s0) && Schedule(turns, x, y) && w < NUM_WORKERS && q.op != QUIT
    requires Run(s0, turns).workers[w] == Idle && (SemId(q.key) == x || SemId(q.key) == y)
    requires Open(Run(s0, turns).sems, SemId(q.key), Cost(q.op))
    ensures Schedule(more, x, y)
    ensures Run(s0, more) == Entered(Run(s0, turns), w, q)
    ensures more == turns + [Turn(w, Some(q))] + [Turn(w, None)]
  {
    hide Run, SemId;
    var s, receive, acquire := Run(s0, turns), Turn(w, Some(q)), Turn(w, None);
    Move(s0, turns, x, y, receive);
    Move(s0, turns + [receive], x, y, acquire);
    more := turns + [receive] + [acquire];
    var inside := Running(q, FindHead, |s.log|);
    assert s.workers[w := Waiting(q)][w := inside] == s.workers[w := inside];
  }

  /** A worker makes one access. */
  lemma {:induction false} AccessOnce(s0: State, turns: seq<Turn>, x: nat, y: nat, w: nat, q: Msg, pc: Pc, t: nat)
    returns (more: seq<Turn>)
    requires WellFormed(s0) && Schedule(turns, x, y) && w < NUM_WORKERS && pc.WellFormed() && !pc.Finished?
    requires Run(s0, turns).workers[w] == Running(q, pc, t)
    ensures Schedule(more, x, y)
    ensures Run(s0, more) == Access(Run(s0, turns), w, q, pc, t)
    ensures more == turns + [Turn(w, None)]
  {
    hide Run, Micro, SemId;
    Move(s0, turns, x, y, Turn(w, None));
    more := turns + [Turn(w, None)];
  }

  /** A worker makes all the accesses its request still needs, and nobody else moves. */
  lemma {:induction false} Finish(s0: State, turns: seq<Turn>, x: nat, y: nat, w: nat, q: Msg, pc: Pc, t: nat)
    returns (more: seq<Turn>)
    requires WellFormed(s0) && Schedule(turns, x, y) && w < NUM_WORKERS && pc.WellFormed() && !pc.Searching()
    requires Run(s0, turns).workers[w] == Running(q, pc, t)
    ensures Schedule(more, x, y)
    ensures Run(s0, more) == Ended(Run(s0, turns), w, q, pc, t)
    decreases Rank(pc)
  {
    hide Run, SemId;
    var s := Run(s0, turns);
    more := turns;
    if pc.Finished? {
      assert s.workers[w := Running(q, pc, t)] == s.workers;
    } else {
      more := AccessOnce(s0, turns, x, y, w, q, pc, t);
      NextRank(s.mem, q, pc);
      var s1, pc1 := Run(s0, more), Micro(s.mem, q, pc).1;
      more := Finish(s0, more, x, y, w, q, pc1, t);
      var done := Running(q, Finished(Rest(s.mem, q, pc).1), t);
      assert s1.workers[w := done] == s.workers[w := done];
    }
  }

  /** A worker leaves its section and sends the reply. */
  lemma {:induction false} Depart(s0: State, turns: seq<Turn>, x: nat, y: nat, w: nat, q: Msg, reply: Reply, t: nat)
    returns (more: seq<Turn>)
    requires WellFormed(s0) && Schedule(turns, x, y) && w < NUM_WORKERS
    requires Run(s0, turns).workers[w] == Running(q, Finished(reply), t)
    ensures Schedule(more, x, y)
    ensures t < |Run(s0, turns).log| && Run(s0, more) == Departed(Run(s0, turns), w, q, reply, t)
    ensures more == turns + [Turn(w, None)] + [Turn(w, None)]
  {
    hide Run, SemId;
    var s, turn := Run(s0, turns), Turn(w, None);
    Move(s0, turns, x, y, turn);
    Move(s0, turns + [turn], x, y, turn);
    more := turns + [turn] + [turn];
    assert s.workers[w := Replying(q, reply, t)][w := Idle] == s.workers[w := Idle];
  }

  // ----- Two insertions that have read the same head of the free list -----

  /** An insertion that has decided on node n, whatever has become of that node since. */
  function Stolen(m: Memory<int>, q: Msg, n: Cell): (r: Memory<int>)
    requires Shape(m)
    ensures Shape(r)
  {
    var f := m.data[n].next;
    Push(SetEntry(SetHead(SetPrev(m, f, NIL), FREE, f), n, q.key, q.value), GetHash(q.key), n)
  }

  lemma StolenRest(m: Memory<int>, q: Msg, n: Cell)
    requires Shape(m)
    ensures Rest(m, q, FreeNext(n)) == (Stolen(m, q, n), Reply(DONE, q.value))
  {
    hide Push, GetHash;
    var f := m.data[n].next;
    var m1 := SetPrev(m, f, NIL);
    var m2 := SetHead(m1, FREE, f);
    var m3 := SetEntry(m2, n, q.key, m2.data[n].body);
    var m4 := SetEntry(m3, n, m3.data[n].key, q.value);
    calc {
      Rest(m, q, FreeNext(n));
      Rest(m, q, FreeDetach(n, f));
      Rest(m1, q, FreeAdvance(n, f));
      Rest(m2, q, WriteKey(n));
      Rest(m3, q, WriteNew(n));
      Rest(m4, q, BucketHead(n));
    }
    assert m4 == SetEntry(m2, n, q.key, q.value);
    PushRest(m4, q, n);
  }

  lemma StolenShows(m: Memory<int>, q: Msg, n: Cell)
    requires Shape(m)
    ensures var r, h := Stolen(m, q, n), GetHash(q.key);
      && r.table[h] == n && (forall c :: 0 <= c < HASH_TABLE_SIZE && c != h ==> r.table[c] == m.table[c])
      && r.data[n].key == q.key && r.data[n].next == m.table[h]
  {
    hide GetHash;
  }

  /** After both of them, the first key's bucket leads to a node that holds the second key. */
  lemma StolenTwice(m: Memory<int>, p: Msg, q: Msg, g: Msg)
    requires Fresh(m) && GetHash(p.key) != GetHash(q.key) && g.op == GET && g.key == p.key
    ensures var r := Stolen(Stolen(m, p, 0), q, 0);
      && Micro(r, g, FindHead) == (r, FindTest(0)) && Micro(r, g, FindTest(0)) == (r, FindNext(0))
      && Micro(r, g, FindNext(0)) == (r, Finished(Reply(NO_KEY, g.value)))
  {
    hide Stolen, GetHash;
    StolenShows(m, p, 0);
    StolenShows(Stolen(m, p, 0), q, 0);
  }

  // ----- The schedule -----

  /** Two set requests to different buckets, which nothing keeps from going on at once, and then a get
      request for the first one's key. */
  ghost predicate Rivals(p: Msg, q: Msg, g: Msg) {
    && p.op == SET && q.op == SET && g.op == GET && g.key == p.key
    && GetHash(p.key) != GetHash(q.key) && (SemId(p.key) != SemId(q.key) || SemId(p.key) >= NUM_SECTIONS)
  }

  /** The semaphores while a writer is in section id. */
  function Locked(sems: seq<nat>, id: nat): seq<nat> {
    if id < |sems| then sems[id := 0] else sems
  }

  lemma LockingOpens(sems: seq<nat>, x: nat, y: nat)
    requires sems == seq(NUM_SECTIONS, _ => NUM_WORKERS) && (x != y || x >= NUM_SECTIONS)
    ensures Open(sems, x, NUM_WORKERS) && TakePermits(sems, x, NUM_WORKERS) == Locked(sems, x)
    ensures Open(Locked(sems, x), y, NUM_WORKERS)
    ensures TakePermits(Locked(sems, x), y, NUM_WORKERS) == Locked(Locked(sems, x), y)
    ensures GivePermits(Locked(Locked(sems, x), y), x, NUM_WORKERS) == Locked(sems, y)
    ensures GivePermits(Locked(sems, y), y, NUM_WORKERS) == sems
  {
  }

  /** Both workers are inside their sections. */
  ghost function Inside(s0: State, p: Msg, q: Msg, i: Pc, j: Pc): State
    requires Initial(s0)
  {
    State(Locked(Locked(s0.sems, SemId(p.key)), SemId(q.key)), s0.mem,
          [Running(p, i, 0), Running(q, j, 1), Idle, Idle], [p, q], [None, None])
  }

  lemma {:induction false} BothEnter(s0: State, p: Msg, q: Msg, g: Msg) returns (turns: seq<Turn>)
    requires WellFormed(s0) && Initial(s0) && Rivals(p, q, g)
    ensures Schedule(turns, SemId(p.key), SemId(q.key)) && Run(s0, turns) == Inside(s0, p, q, FindHead, FindHead)
  {
    hide SemId, WellFormed, Fresh, Open, TakePermits, Locked;
    var x, y := SemId(p.key), SemId(q.key);
    turns := [];
    assert Run(s0, turns) == s0;
    LockingOpens(s0.sems, x, y);
    turns := Enter(s0, turns, x, y, 0, p);
    turns := Enter(s0, turns, x, y, 1, q);
    hide Run;
    assert s0.workers[0 := Running(p, FindHead, 0)][1 := Running(q, FindHead, 1)]
        == [Running(p, FindHead, 0), Running(q, FindHead, 1), Idle, Idle];
  }

  lemma FirstAccesses(m: Memory<int>, q: Msg)
    requires Fresh(m) && q.op == SET
    ensures Micro(m, q, FindHead) == (m, FreeHead) && Micro(m, q, FreeHead) == (m, FreeNext(0))
  {
    hide GetHash;
  }

  lemma BothReadHead(s0: State, p: Msg, q: Msg, g: Msg) returns (turns: seq<Turn>)
    requires WellFormed(s0) && Initial(s0) && Rivals(p, q, g)
    ensures Schedule(turns, SemId(p.key), SemId(q.key)) && Run(s0, turns) == Inside(s0, p, q, FreeNext(0), FreeNext(0))
  {
    hide SemId, Run, Micro, Fresh;
    var x, y := SemId(p.key), SemId(q.key);
    turns := BothEnter(s0, p, q, g);
    FirstAccesses(s0.mem, p);
    FirstAccesses(s0.mem, q);
    turns := AccessOnce(s0, turns, x, y, 0, p, FindHead, 0);
    assert Run(s0, turns) == Inside(s0, p, q, FreeHead, FindHead);
    turns := AccessOnce(s0, turns, x, y, 0, p, FreeHead, 0);
    assert Run(s0, turns) == Inside(s0, p, q, FreeNext(0), FindHead);
    turns := AccessOnce(s0, turns, x, y, 1, q, FindHead, 1);
    assert Run(s0, turns) == Inside(s0, p, q, FreeNext(0), FreeHead);
    turns := AccessOnce(s0, turns, x, y, 1, q, FreeHead, 1);
  }

  /** The first request has been served. */
  ghost function OneServed(s0: State, p: Msg, q: Msg): State
    requires WellFormed(s0) && Initial(s0)
  {
    State(Locked(s0.sems, SemId(q.key)), Stolen(s0.mem, p, 0), [Idle, Running(q, FreeNext(0), 1), Idle, Idle],
          [p, q], [Some(Reply(DONE, p.value)), None])
  }

  lemma {:induction false} FirstIsServed(s0: State, p: Msg, q: Msg, g: Msg) returns (turns: seq<Turn>)
    requires WellFormed(s0) && Initial(s0) && Rivals(p, q, g)
    ensures Schedule(turns, SemId(p.key), SemId(q.key)) && Run(s0, turns) == OneServed(s0, p, q)
  {
    hide SemId, Run, Micro, Fresh, Stolen, Rest, GivePermits, Locked;
    var x, y := SemId(p.key), SemId(q.key);
    LockingOpens(s0.sems, x, y);
    turns := BothReadHead(s0, p, q, g);
    StolenRest(s0.mem, p, 0);
    turns := Finish(s0, turns, x, y, 0, p, FreeNext(0), 0);
    turns := Depart(s0, turns, x, y, 0, p, Reply(DONE, p.value), 0);
  }

  /** Both requests have been served, and all workers are idle. */
  ghost function TwoServed(s0: State, p: Msg, q: Msg): State
    requires WellFormed(s0) && Initial(s0)
  {
    State(s0.sems, Stolen(Stolen(s0.mem, p, 0), q, 0), [Idle, Idle, Idle, Idle],
          [p, q], [Some(Reply(DONE, p.value)), Some(Reply(DONE, q.value))])
  }

  lemma SecondIsServed(s0: State, p: Msg, q: Msg, g: Msg) returns (turns: seq<Turn>)
    requires WellFormed(s0) && Initial(s0) && Rivals(p, q, g)
    ensures Schedule(turns, SemId(p.key), SemId(q.key)) && Run(s0, turns) == TwoServed(s0, p, q)
  {
    hide SemId, Run, Micro, Fresh, Stolen, Rest, GivePermits, Locked;
    var x, y := SemId(p.key), SemId(q.key);
    LockingOpens(s0.sems, x, y);
    turns := FirstIsServed(s0, p, q, g);
    StolenRest(Stolen(s0.mem, p, 0), q, 0);
    turns := Finish(s0, turns, x, y, 1, q, FreeNext(0), 1);
    turns := Depart(s0, turns, x, y, 1, q, Reply(DONE, q.value), 1);
  }

  /** The get request finds its key's bucket, and in it the other key. */
  lemma ThirdIsLost(s0: State, p: Msg, q: Msg, g: Msg) returns (turns: seq<Turn>)
    requires WellFormed(s0) && Initial(s0) && Rivals(p, q, g)
    ensures Schedule(turns, SemId(p.key), SemId(q.key))
    ensures Run(s0, turns).log == [p, q, g]
    ensures Run(s0, turns).replies == TwoServed(s0, p, q).replies + [Some(Reply(NO_KEY, g.value))]
  {
    hide SemId, Run, Micro, Fresh, Stolen, Rest;
    var x, y := SemId(p.key), SemId(q.key);
    StolenTwice(s0.mem, p, q, g);
    turns := SecondIsServed(s0, p, q, g);
    turns := Enter(s0, turns, x, y, 0, g);
    turns := AccessOnce(s0, turns, x, y, 0, g, FindHead, 2);
    turns := AccessOnce(s0, turns, x, y, 0, g, FindTest(0), 2);
    turns := AccessOnce(s0, turns, x, y, 0, g, FindNext(0), 2);
    turns := Depart(s0, turns, x, y, 0, g, Reply(NO_KEY, g.value), 2);
  }

  /** No lawful reply to the get request says that there is no such key. */
  lemma StoredMustBeFound(p: Msg, q: Msg, g: Msg, rs: seq<Reply>)
    requires p.op == SET && q.op == SET && g.op == GET && g.key == p.key && q.key != p.key
    requires Lawful([p, q, g], rs) && rs[0] == Reply(0, p.value) && rs[1] == Reply(0, q.value)
    ensures rs[2] == Reply(0, p.value)
  {
    var log := [p, q, g];
    assert LawfulAt(log, rs, 2);
    assert log[..2] == [p, q] && [p, q][..1] == [p] && [p][..0] == [];
    assert rs[..2] == [rs[0], rs[1]] && [rs[0], rs[1]][..1] == [rs[0]] && [rs[0]][..0] == [];
    assert LastWrite([p], [rs[0]], g.key) == Stored(p.value);
    assert LastWrite([p, q], [rs[0], rs[1]], g.key) == Stored(p.value);
  }

  /** A key that has been stored, with the reply DONE, is not found. */
  lemma FreeListRace(s0: State, p: Msg, q: Msg, g: Msg) returns (turns: seq<Turn>)
    requires WellFormed(s0) && Initial(s0) && Rivals(p, q, g)
    ensures Schedule(turns, SemId(p.key), SemId(q.key))
    ensures Run(s0, turns).log == [p, q, g]
    ensures Run(s0, turns).replies
      == [Some(Reply(DONE, p.value)), Some(Reply(DONE, q.value)), Some(Reply(NO_KEY, g.value))]
    ensures !Sequential(Run(s0, turns))
  {
    hide SemId, Run, Fresh, Stolen, GetHash, Lawful;
    turns := ThirdIsLost(s0, p, q, g);
    var r := Run(s0, turns);
    assert r.replies[0] == Some(Reply(DONE, p.value)) && r.replies[1] == Some(Reply(DONE, q.value));
    assert r.replies[2] == Some(Reply(NO_KEY, g.value));
    if Sequential(r) {
      var rs :| Lawful(r.log, rs) && AgreesWith(r, rs);
      StoredMustBeFound(p, q, g, rs);
    }
  }

  /** For any two of the 32 sections: requests to them have their replies in sequence in every run
      exactly if the two are the same section, and that one is locked. */
  lemma SequentialExactly(s0: State, x: nat, y: nat)
    requires WellFormed(s0) && Initial(s0)
    requires x < 32 && y < 32
    ensures (forall turns | Schedule(turns, x, y) :: Sequential(Run(s0, turns))) <==> x == y < 8
  {
    hide SemId, GetHash, Run, Fresh, LawfulAt, RemembersWrites;
    if x == y < NUM_SECTIONS {
      forall turns | Schedule(turns, x, y) ensures Sequential(Run(s0, turns)) {
        var rs := RepliesAreLawful(s0, turns, x);
        assert AgreesWith(Run(s0, turns), rs);
      }
    } else {
      var a, b := x * NUM_SECTIONS, y * NUM_SECTIONS + 1;
      InSectionOf(x, 0);
      InSectionOf(y, 1);
      var turns := FreeListRace(s0, Msg(SET, a, 0), Msg(SET, b, 0), Msg(GET, a, 0));
    }
  }

  lemma InSectionOf(x: nat, k: nat)
    requires x * NUM_SECTIONS < HASH_TABLE_SIZE && k < NUM_SECTIONS
    ensures GetHash(x * NUM_SECTIONS + k) == x * NUM_SECTIONS + k && SemId(x * NUM_SECTIONS + k) == x
  {
  }
}
