/** Four worker processes on one shared table: message loop, section semaphores, and every
    single access to the shared memory as a step of its own. */
module Workers {
  import opened Arena
  import opened Dictionary
  import opened TableOperation
  import opened Results

  const NUM_WORKERS: nat := 4
  const NUM_SECTIONS: nat := 8

  /** A ticket is a request's place in the log, which lists requests in the order in which they
      acquired their section. Log and replies are history: no step depends on them. */
  datatype Worker =
    | Idle
    | Waiting(q: Msg)
    | Running(q: Msg, pc: Pc, ticket: nat)
    | Replying(q: Msg, reply: Reply, ticket: nat)
    | Stopped

  datatype State = State(sems: seq<nat>, mem: Memory<int>, workers: seq<Worker>,
                         log: seq<Msg>, replies: seq<Option<Reply>>)

  /** One turn of worker w; a message is received only by an idle worker. */
  datatype Turn = Turn(w: nat, received: Option<Msg>)

  /** The section semaphore of a key. Only the first NUM_SECTIONS of them exist. */
  function SemId(key: int): nat {
    GetHash(key) / NUM_SECTIONS
  }

  /** Eight buckets next to each other make a section, for negative keys too. */
  lemma SemIdIs(key: int)
    ensures SemId(key) == (key % 256) / 8
  {
    assert (key - GetHash(key)) % 256 == 0 && GetHash(key) < 256;
  }

  /** What sem_down asks for before the operation. */
  function Cost(op: Op): nat {
    match op
    case SET => NUM_WORKERS
    case DEL => NUM_WORKERS
    case _ => 1
  }

  /** What sem_up gives back. The end of the try block and the catch block, which runs when there is
      an error, each have their own calls, and they give back the same. */
  function Refund(op: Op): nat {
    match op
    case SET => NUM_WORKERS
    case GET => 1
    case DEL => NUM_WORKERS
    case QUIT => 0
  }

  ghost predicate WellFormed(s: State) {
    && |s.sems| == NUM_SECTIONS && |s.workers| == NUM_WORKERS && Shape(s.mem)
    && |s.replies| == |s.log|
    && forall w :: 0 <= w < NUM_WORKERS ==> WorkerOk(s.workers[w], |s.log|)
  }

  ghost predicate WorkerOk(x: Worker, tickets: nat) {
    && (x.Waiting? || x.Running? || x.Replying? ==> x.q.op != QUIT)
    && (x.Running? ==> x.pc.WellFormed())
    && (x.Running? || x.Replying? ==> x.ticket < tickets)
  }

  function Step(s: State, turn: Turn): (r: State)
    requires WellFormed(s) && turn.w < NUM_WORKERS
    ensures WellFormed(r)
  {
    var w := turn.w;
    match s.workers[w]
    case Idle => if turn.received == None then s else Receive(s, w, turn.received.value)
    case Waiting(q) => Acquire(s, w, q)
    case Running(q, pc, t) => if pc.Finished? then LeaveSection(s, w, q, pc.reply, t) else Access(s, w, q, pc, t)
    case Replying(q, reply, t) => Send(s, w, reply, t)
    case Stopped => s
  }

  function Receive(s: State, w: nat, q: Msg): (r: State)
    requires WellFormed(s) && w < NUM_WORKERS
    ensures WellFormed(r)
  {
    s.(workers := s.workers[w := if q.op == QUIT then Stopped else Waiting(q)])
  }

  /** semop blocks until the permits are there; on a semaphore that does not exist it fails,
      and the worker goes on as if nothing had happened. */
  function Acquire(s: State, w: nat, q: Msg): (r: State)
    requires WellFormed(s) && w < NUM_WORKERS && q.op != QUIT
    ensures WellFormed(r)
  {
    var id := SemId(q.key);
    if id < NUM_SECTIONS && s.sems[id] < Cost(q.op) then s
    else
      s.(sems := if id < NUM_SECTIONS then s.sems[id := s.sems[id] - Cost(q.op)] else s.sems,
         workers := s.workers[w := Running(q, FindHead, |s.log|)],
         log := s.log + [q],
         replies := s.replies + [None])
  }

  function Access(s: State, w: nat, q: Msg, pc: Pc, t: nat): (r: State)
    requires WellFormed(s) && w < NUM_WORKERS && s.workers[w] == Running(q, pc, t)
    ensures WellFormed(r)
  {
    var (m, pc') := Micro(s.mem, q, pc);
    s.(mem := m, workers := s.workers[w := Running(q, pc', t)])
  }

  function LeaveSection(s: State, w: nat, q: Msg, reply: Reply, t: nat): (r: State)
    requires WellFormed(s) && w < NUM_WORKERS && q.op != QUIT && t < |s.log|
    ensures WellFormed(r)
  {
    var id := SemId(q.key);
    s.(sems := if id < NUM_SECTIONS then s.sems[id := s.sems[id] + Refund(q.op)] else s.sems,
       workers := s.workers[w := Replying(q, reply, t)])
  }

  function Send(s: State, w: nat, reply: Reply, t: nat): (r: State)
    requires WellFormed(s) && w < NUM_WORKERS && t < |s.log|
    ensures WellFormed(r)
  {
    s.(workers := s.workers[w := Idle], replies := s.replies[t := Some(reply)])
  }

  // ----- Runs -----

  ghost predicate Initial(s: State) {
    && s.sems == seq(NUM_SECTIONS, _ => NUM_WORKERS)
    && Fresh(s.mem)
    && s.workers == seq(NUM_WORKERS, _ => Idle)
    && s.log == [] && s.replies == []
  }

  ghost predicate Turns(turns: seq<Turn>) {
    forall i :: 0 <= i < |turns| ==> turns[i].w < NUM_WORKERS
  }

  /** The state after a schedule, which names the worker to move next and any message it gets. */
  function Run(s: State, turns: seq<Turn>): (r: State)
    requires WellFormed(s) && Turns(turns)
    ensures WellFormed(r)
  {
    if turns == [] then s else Step(Run(s, turns[..|turns| - 1]), turns[|turns| - 1])
  }

  // ----- Permits -----

  /** The permits of one semaphore that a worker has taken and not given back. */
  function Taken(x: Worker, id: nat): nat {
    if x.Running? && SemId(x.q.key) == id then Cost(x.q.op) else 0
  }

  function TotalTaken(ws: seq<Worker>, id: nat): nat {
    if ws == [] then 0 else Taken(ws[0], id) + TotalTaken(ws[1..], id)
  }

  lemma {:induction false} TotalAfterUpdate(ws: seq<Worker>, id: nat, w: nat, x: Worker)
    requires w < |ws|
    ensures TotalTaken(ws[w := x], id) + Taken(ws[w], id) == TotalTaken(ws, id) + Taken(x, id)
  {
    if w == 0 {
      assert ws[0 := x][1..] == ws[1..];
    } else {
      TotalAfterUpdate(ws[1..], id, w - 1, x);
      assert ws[w := x][1..] == ws[1..][w - 1 := x];
    }
  }

  lemma {:induction false} TotalAtLeast(ws: seq<Worker>, id: nat, w: nat)
    requires w < |ws|
    ensures TotalTaken(ws, id) >= Taken(ws[w], id)
  {
    if w > 0 {
      TotalAtLeast(ws[1..], id, w - 1);
    }
  }

  ghost predicate Conserved(s: State)
    requires WellFormed(s)
  {
    forall id :: 0 <= id < NUM_SECTIONS ==> s.sems[id] + TotalTaken(s.workers, id) == NUM_WORKERS
  }

  lemma StepConservesAt(s: State, turn: Turn, id: nat)
    requires WellFormed(s) && turn.w < NUM_WORKERS && id < NUM_SECTIONS
    requires s.sems[id] + TotalTaken(s.workers, id) == NUM_WORKERS
    ensures Step(s, turn).sems[id] + TotalTaken(Step(s, turn).workers, id) == NUM_WORKERS
  {
    var s', w := Step(s, turn), turn.w;
    TotalAfterUpdate(s.workers, id, w, s'.workers[w]);
    assert s'.workers == s.workers[w := s'.workers[w]];
    match s.workers[w]
    case Idle =>
    case Waiting(q) =>
    case Running(q, pc, t) => assert pc.Finished? ==> s'.sems[id] == s.sems[id] + Taken(s.workers[w], id);
    case Replying(_, _, _) =>
    case Stopped =>
  }

  /** In every reachable state, whatever the keys: free permits, readers and four times the
      writers of each section add up to four. */
  lemma {:induction false} PermitsConserved(s: State, turns: seq<Turn>)
    requires WellFormed(s) && Turns(turns)
    requires Initial(s)
    ensures Conserved(Run(s, turns))
  {
    if turns == [] {
      forall id | 0 <= id < NUM_SECTIONS
        ensures TotalTaken(s.workers, id) == 0
      {
        NothingTaken(s.workers, id);
      }
    } else {
      var n := |turns| - 1;
      PermitsConserved(s, turns[..n]);
      forall id | 0 <= id < NUM_SECTIONS
        ensures Run(s, turns).sems[id] + TotalTaken(Run(s, turns).workers, id) == NUM_WORKERS
      {
        StepConservesAt(Run(s, turns[..n]), turns[n], id);
      }
    }
  }

  lemma {:induction false} NothingTaken(ws: seq<Worker>, id: nat)
    requires forall w :: 0 <= w < |ws| ==> !ws[w].Running?
    ensures TotalTaken(ws, id) == 0
  {
    if ws != [] {
      NothingTaken(ws[1..], id);
    }
  }

  lemma TwoTaken(ws: seq<Worker>, id: nat, i: nat, j: nat)
    requires i < |ws| && j < |ws| && i != j
    ensures TotalTaken(ws, id) >= Taken(ws[i], id) + Taken(ws[j], id)
  {
    TotalAfterUpdate(ws, id, i, Idle);
    TotalAtLeast(ws[i := Idle], id, j);
  }

  /** Two workers inside one section are both readers. */
  lemma WriterExcludes(s: State, i: nat, j: nat)
    requires WellFormed(s) && Conserved(s)
    requires i < NUM_WORKERS && j < NUM_WORKERS && i != j
    requires s.workers[i].Running? && s.workers[j].Running?
    requires SemId(s.workers[i].q.key) == SemId(s.workers[j].q.key) < NUM_SECTIONS
    ensures s.workers[i].q.op == GET && s.workers[j].q.op == GET
  {
    TwoTaken(s.workers, SemId(s.workers[i].q.key), i, j);
  }

  /** A worker is kept waiting only while another one is inside its section and can move on. */
  lemma BlockedBySomeone(s: State, turn: Turn)
    requires WellFormed(s) && Conserved(s) && turn.w < NUM_WORKERS
    requires s.workers[turn.w].Waiting? && Step(s, turn) == s
    ensures exists w: nat ::
              && w < NUM_WORKERS && s.workers[w].Running?
              && SemId(s.workers[w].q.key) == SemId(s.workers[turn.w].q.key)
              && Step(s, Turn(w, None)) != s
  {
    var id := SemId(s.workers[turn.w].q.key);
    if w: nat :| w < NUM_WORKERS && Taken(s.workers[w], id) > 0 {
    } else {
      NoneInside(s.workers, id);
    }
  }

  lemma {:induction false} NoneInside(ws: seq<Worker>, id: nat)
    requires forall w :: 0 <= w < |ws| ==> Taken(ws[w], id) == 0
    ensures TotalTaken(ws, id) == 0
  {
    if ws != [] {
      NoneInside(ws[1..], id);
    }
  }

  // ----- Which sections are locked at all -----

  /** Two workers are inside a section, and not both only to read. */
  ghost predicate Clash(s: State, section: nat)
    requires WellFormed(s)
  {
    exists i, j ::
      && 0 <= i < NUM_WORKERS && 0 <= j < NUM_WORKERS && i != j
      && s.workers[i].Running? && s.workers[j].Running?
      && SemId(s.workers[i].q.key) == section && SemId(s.workers[j].q.key) == section
      && s.workers[i].q.op != GET
  }

  lemma {:induction false} NoClashWhenLocked(s: State, turns: seq<Turn>, section: nat)
    requires WellFormed(s) && Initial(s) && Turns(turns) && section < NUM_SECTIONS
    ensures !Clash(Run(s, turns), section)
  {
    var r := Run(s, turns);
    PermitsConserved(s, turns);
    if Clash(r, section) {
      var i, j :|
        && 0 <= i < NUM_WORKERS && 0 <= j < NUM_WORKERS && i != j
        && r.workers[i].Running? && r.workers[j].Running?
        && SemId(r.workers[i].q.key) == section && SemId(r.workers[j].q.key) == section
        && r.workers[i].q.op != GET;
      WriterExcludes(r, i, j);
    }
  }

  lemma RunOneMore(s: State, turns: seq<Turn>, turn: Turn)
    requires WellFormed(s) && Turns(turns) && turn.w < NUM_WORKERS
    ensures Run(s, turns + [turn]) == Step(Run(s, turns), turn)
  {
    assert (turns + [turn])[..|turns|] == turns;
  }

  lemma Deliver(s: State, w: nat, q: Msg)
    requires WellFormed(s) && w < NUM_WORKERS && s.workers[w] == Idle && q.op != QUIT
    ensures Step(s, Turn(w, Some(q))).workers == s.workers[w := Waiting(q)]
  {
  }

  lemma EnterUnlocked(s: State, w: nat, q: Msg)
    requires WellFormed(s) && w < NUM_WORKERS && s.workers[w] == Waiting(q) && SemId(q.key) >= NUM_SECTIONS
    ensures Step(s, Turn(w, None)).workers == s.workers[w := Running(q, FindHead, |s.log|)]
  {
  }

  /** Two workers each receive a set request, and then each begin it. */
  lemma ClashWhenNotLocked(s: State, key: int) returns (turns: seq<Turn>)
    requires WellFormed(s) && Initial(s) && SemId(key) >= NUM_SECTIONS
    ensures Turns(turns) && Clash(Run(s, turns), SemId(key))
  {
    hide Step, SemId;
    var q := Msg(SET, key, 0);
    var t1, t2 := Turn(0, Some(q)), Turn(1, Some(q));
    var t3, t4 := Turn(0, None), Turn(1, None);
    turns := [];
    RunOneMore(s, turns, t1);
    Deliver(Run(s, turns), 0, q);
    turns := turns + [t1];
    RunOneMore(s, turns, t2);
    Deliver(Run(s, turns), 1, q);
    turns := turns + [t2];
    RunOneMore(s, turns, t3);
    EnterUnlocked(Run(s, turns), 0, q);
    turns := turns + [t3];
    RunOneMore(s, turns, t4);
    EnterUnlocked(Run(s, turns), 1, q);
    turns := turns + [t4];
    var r := Run(s, turns);
    assert r.workers[0].Running? && r.workers[0].q == q;
    assert r.workers[1].Running? && r.workers[1].q == q;
  }

  /** The 256 buckets make 32 sections, and exactly those with a semaphore are exclusive. */
  lemma ExclusionExactly(s: State, section: nat)
    requires WellFormed(s) && Initial(s) && section < 32
    ensures (forall turns | Turns(turns) :: !Clash(Run(s, turns), section)) <==> section < 8
  {
    if section < NUM_SECTIONS {
      forall turns | Turns(turns)
        ensures !Clash(Run(s, turns), section)
      {
        NoClashWhenLocked(s, turns, section);
      }
    } else {
      assert SemId(section * NUM_SECTIONS) == section;
      var turns := ClashWhenNotLocked(s, section * NUM_SECTIONS);
    }
  }
}
