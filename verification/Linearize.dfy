/** All requests in one section: under every interleaving of the workers' accesses, the
    replies are those of a plain map that serves the requests in the order of the log. */
module Linearization {
  import opened Arena
  import opened Dictionary
  import opened TableOperation
  import opened PlainTable
  import opened Results
  import opened Workers

  /** A plain map after serving the requests one after the other. */
  function PlainAfter(log: seq<Msg>): Plain {
    if log == [] then map[] else PlainStep(PlainAfter(log[..|log| - 1]), log[|log| - 1]).0
  }

  /** What that map replies to request t. */
  function PlainReply(log: seq<Msg>, t: nat): Reply
    requires t < |log|
  {
    PlainStep(PlainAfter(log[..t]), log[t]).1
  }

  // ----- One request in flight -----

  /** Request q found memory m0 when it entered its section; by now the memory is m and only
      q has written to it. */
  ghost predicate InFlight(m0: Memory<int>, v: View, m: Memory<int>, q: Msg, pc: Pc)
    requires Valid(m0, v) && Shape(m) && pc.WellFormed()
  {
    && (q.op == GET ==> m == m0 && (pc.Searching() || pc.ReadValue? || pc.Finished?))
    && if pc.Searching() then
         && m == m0
         && (pc.FindHead? || exists i: nat :: Searched(m0, v, q.key, i, pc.cur))
         && (pc.FindNext? ==> m.data[pc.cur].key != q.key)
       else
         Rest(m, q, pc) == Outcome(m0, v, q)
  }

  lemma HeadKeepsFlight(m0: Memory<int>, v: View, q: Msg)
    requires Valid(m0, v)
    ensures InFlight(m0, v, m0, q, Micro(m0, q, FindHead).1)
  {
    SearchStarts(m0, v, q.key);
    if m0.table[GetHash(q.key)] == NIL {
      SearchEnds(m0, v, q.key, 0);
      RestIsOutcome(m0, v, q);
    }
  }

  lemma {:induction false} TestKeepsFlight(m0: Memory<int>, v: View, q: Msg, cur: Cell)
    requires Valid(m0, v) && InFlight(m0, v, m0, q, FindTest(cur))
    ensures InFlight(m0, v, m0, q, Micro(m0, q, FindTest(cur)).1)
  {
    var i: nat :| Searched(m0, v, q.key, i, cur);
    SearchAdvances(m0, v, q.key, i, cur);
    if m0.data[cur].key == q.key {
      RestIsOutcome(m0, v, q);
    }
  }

  lemma NextKeepsFlight(m0: Memory<int>, v: View, q: Msg, cur: Cell)
    requires Valid(m0, v) && InFlight(m0, v, m0, q, FindNext(cur))
    ensures InFlight(m0, v, m0, q, Micro(m0, q, FindNext(cur)).1)
  {
    var i: nat :| Searched(m0, v, q.key, i, cur);
    SearchAdvances(m0, v, q.key, i, cur);
    if m0.data[cur].next == NIL {
      SearchEnds(m0, v, q.key, i + 1);
      RestIsOutcome(m0, v, q);
    }
  }

  lemma {:induction false} AccessKeepsFlight(m0: Memory<int>, v: View, m: Memory<int>, q: Msg, pc: Pc)
    requires Valid(m0, v) && Shape(m) && pc.WellFormed()
    requires InFlight(m0, v, m, q, pc)
    ensures InFlight(m0, v, Micro(m, q, pc).0, q, Micro(m, q, pc).1)
    ensures q.op == GET ==> Micro(m, q, pc).0 == m
  {
    if pc.FindHead? {
      HeadKeepsFlight(m0, v, q);
    } else if pc.FindTest? {
      TestKeepsFlight(m0, v, q, pc.cur);
    } else if pc.FindNext? {
      NextKeepsFlight(m0, v, q, pc.cur);
    }
  }

  // ----- All workers -----

  ghost predicate Writer(x: Worker) {
    x.Running? && x.q.op != GET
  }

  ghost predicate InSection(x: Worker, section: nat) {
    x.Waiting? || x.Running? || x.Replying? ==> SemId(x.q.key) == section
  }

  /** What holds of a worker, given the memory m0 at rest under the current memory. */
  ghost predicate OnCourse(s: State, m0: Memory<int>, v: View, x: Worker)
    requires WellFormed(s) && Valid(m0, v) && WorkerOk(x, |s.log|)
  {
    && (x.Running? ==>
          && s.log[x.ticket] == x.q
          && InFlight(m0, v, s.mem, x.q, x.pc)
          && Contents(m0, v) == PlainAfter(s.log[..x.ticket])
          && (Writer(x) ==> x.ticket + 1 == |s.log|))
    && (x.Replying? ==> x.reply == PlainReply(s.log, x.ticket))
  }

  /** Replies sent are those of the plain map, and one not sent yet is being worked on. */
  ghost predicate Answered(s: State, t: nat)
    requires WellFormed(s) && t < |s.log|
  {
    match s.replies[t]
    case Some(reply) => reply == PlainReply(s.log, t)
    case None => exists w: nat :: w < NUM_WORKERS && WorksOn(s.workers[w], t)
  }

  predicate WorksOn(x: Worker, t: nat) {
    (x.Running? || x.Replying?) && x.ticket == t
  }

  ghost predicate Inv(s: State, section: nat, m0: Memory<int>, v: View) {
    && WellFormed(s) && Conserved(s) && section < NUM_SECTIONS && Valid(m0, v)
    && (forall w :: 0 <= w < NUM_WORKERS ==>
          InSection(s.workers[w], section) && OnCourse(s, m0, v, s.workers[w]))
    && (forall t :: 0 <= t < |s.log| ==> Answered(s, t))
    && ((forall w :: 0 <= w < NUM_WORKERS ==> !Writer(s.workers[w])) ==>
          s.mem == m0 && Contents(m0, v) == PlainAfter(s.log))
  }

  // ----- Every turn keeps the invariant -----

  lemma {:induction false} ReceiveKeeps(s: State, section: nat, m0: Memory<int>, v: View, w: nat, q: Msg)
    requires Inv(s, section, m0, v) && w < NUM_WORKERS && s.workers[w].Idle?
    requires q.op != QUIT ==> SemId(q.key) == section
    ensures Inv(Receive(s, w, q), section, m0, v)
  {
    hide Valid, InFlight, Micro, PlainAfter;
    var s' := Receive(s, w, q);
    ConservedByTurn(s, Turn(w, Some(q)));
    forall i | 0 <= i < NUM_WORKERS
      ensures InSection(s'.workers[i], section) && OnCourse(s', m0, v, s'.workers[i])
      ensures Writer(s'.workers[i]) == Writer(s.workers[i])
    {
      assert InSection(s.workers[i], section) && OnCourse(s, m0, v, s.workers[i]);
    }
    forall t | 0 <= t < |s'.log|
      ensures Answered(s', t)
    {
      AnsweredAgain(s, s', w, t);
    }
  }

  lemma ConservedByTurn(s: State, turn: Turn)
    requires WellFormed(s) && turn.w < NUM_WORKERS && Conserved(s)
    ensures Conserved(Step(s, turn))
  {
    forall id | 0 <= id < NUM_SECTIONS
      ensures Step(s, turn).sems[id] + TotalTaken(Step(s, turn).workers, id) == NUM_WORKERS
    {
      StepConservesAt(s, turn, id);
    }
  }

  /** An old request that the moving worker goes on with, or did not work on, stays answered. */
  lemma AnsweredAgain(s: State, s': State, w: nat, t: nat)
    requires WellFormed(s) && WellFormed(s') && w < NUM_WORKERS && t < |s.log| <= |s'.log|
    requires Answered(s, t)
    requires s'.log[..|s.log|] == s.log && s'.replies[t] == s.replies[t]
    requires forall i :: 0 <= i < NUM_WORKERS && i != w ==> s'.workers[i] == s.workers[i]
    requires WorksOn(s.workers[w], t) ==> WorksOn(s'.workers[w], t)
    ensures Answered(s', t)
  {
    assert s'.log[..t] == s.log[..t] && s'.log[t] == s.log[t];
    if s.replies[t] == None {
      var i: nat :| i < NUM_WORKERS && WorksOn(s.workers[i], t);
      assert WorksOn(s'.workers[i], t);
    }
  }

  /** No writer is inside when the permits for q are there; no one is, if q is a writer. */
  lemma {:induction false} FreeToEnter(s: State, section: nat, m0: Memory<int>, v: View, q: Msg)
    requires Inv(s, section, m0, v)
    requires SemId(q.key) == section && s.sems[section] >= Cost(q.op) && q.op != QUIT
    ensures forall w :: 0 <= w < NUM_WORKERS ==> !Writer(s.workers[w])
    ensures q.op != GET ==> forall w :: 0 <= w < NUM_WORKERS ==> !s.workers[w].Running?
  {
    hide Valid, InFlight, PlainAfter;
    forall w | 0 <= w < NUM_WORKERS
      ensures !Writer(s.workers[w]) && (q.op != GET ==> !s.workers[w].Running?)
    {
      TotalAtLeast(s.workers, section, w);
      assert InSection(s.workers[w], section);
    }
  }

  lemma {:induction false} EnterOnCourse(s: State, section: nat, m0: Memory<int>, v: View, w: nat, i: nat)
    requires Inv(s, section, m0, v) && w < NUM_WORKERS && s.workers[w].Waiting? && i < NUM_WORKERS
    requires Acquire(s, w, s.workers[w].q) != s && SemId(s.workers[w].q.key) == section
    ensures
      var s' := Acquire(s, w, s.workers[w].q);
      InSection(s'.workers[i], section) && OnCourse(s', m0, v, s'.workers[i])
  {
    hide Valid, PlainAfter;
    var q := s.workers[w].q;
    var s' := Acquire(s, w, q);
    FreeToEnter(s, section, m0, v, q);
    assert s'.log[..|s.log|] == s.log;
    if i != w {
      var x := s.workers[i];
      assert InSection(x, section) && OnCourse(s, m0, v, x);
      if x.Running? || x.Replying? {
        assert s'.log[..x.ticket] == s.log[..x.ticket];
      }
    }
  }

  lemma EnterAnswered(s: State, w: nat, t: nat)
    requires WellFormed(s) && w < NUM_WORKERS && s.workers[w].Waiting?
    requires Acquire(s, w, s.workers[w].q) != s
    requires forall u :: 0 <= u < |s.log| ==> Answered(s, u)
    requires t <= |s.log|
    ensures Answered(Acquire(s, w, s.workers[w].q), t)
  {
    var s' := Acquire(s, w, s.workers[w].q);
    if t < |s.log| {
      AnsweredAgain(s, s', w, t);
    } else {
      assert WorksOn(s'.workers[w], t);
    }
  }

  lemma {:induction false} AcquireKeeps(s: State, section: nat, m0: Memory<int>, v: View, w: nat)
    requires Inv(s, section, m0, v) && w < NUM_WORKERS && s.workers[w].Waiting?
    ensures Inv(Acquire(s, w, s.workers[w].q), section, m0, v)
  {
    hide Valid, InFlight, Micro;
    var q := s.workers[w].q;
    var s' := Acquire(s, w, q);
    assert InSection(s.workers[w], section);
    if s' != s {
      FreeToEnter(s, section, m0, v, q);
      ConservedByTurn(s, Turn(w, None));
      forall i | 0 <= i < NUM_WORKERS
        ensures InSection(s'.workers[i], section) && OnCourse(s', m0, v, s'.workers[i])
      {
        EnterOnCourse(s, section, m0, v, w, i);
      }
      forall t | 0 <= t < |s'.log|
        ensures Answered(s', t)
      {
        EnterAnswered(s, w, t);
      }
      assert Writer(s'.workers[w]) || PlainAfter(s'.log) == PlainAfter(s.log) by {
        assert s'.log[..|s'.log| - 1] == s.log;
      }
    }
  }

  lemma {:induction false} AccessKeeps(s: State, section: nat, m0: Memory<int>, v: View, w: nat)
    requires Inv(s, section, m0, v) && w < NUM_WORKERS && s.workers[w].Running?
    ensures var x := s.workers[w]; Inv(Access(s, w, x.q, x.pc, x.ticket), section, m0, v)
  {
    hide Valid, InFlight, Micro, PlainAfter;
    var x := s.workers[w];
    var s' := Access(s, w, x.q, x.pc, x.ticket);
    assert InSection(x, section) && OnCourse(s, m0, v, x);
    AccessKeepsFlight(m0, v, s.mem, x.q, x.pc);
    forall id | 0 <= id < NUM_SECTIONS
      ensures s'.sems[id] + TotalTaken(s'.workers, id) == NUM_WORKERS
    {
      TotalAfterUpdate(s.workers, id, w, s'.workers[w]);
    }
    forall i | 0 <= i < NUM_WORKERS
      ensures InSection(s'.workers[i], section) && OnCourse(s', m0, v, s'.workers[i])
      ensures Writer(s'.workers[i]) == Writer(s.workers[i])
    {
      assert InSection(s.workers[i], section);
      if i != w {
        OthersOnCourse(s, section, m0, v, w, i);
      }
    }
    forall t | 0 <= t < |s'.log|
      ensures Answered(s', t)
    {
      AnsweredAgain(s, s', w, t);
    }
  }

  /** Another worker inside the section means that both only read. */
  lemma {:induction false} OthersOnCourse(s: State, section: nat, m0: Memory<int>, v: View, w: nat, i: nat)
    requires Inv(s, section, m0, v) && w < NUM_WORKERS && i < NUM_WORKERS && i != w
    requires s.workers[w].Running?
    ensures var x := s.workers[w]; OnCourse(Access(s, w, x.q, x.pc, x.ticket), m0, v, s.workers[i])
  {
    hide Valid, InFlight, Micro, PlainAfter;
    assert InSection(s.workers[i], section) && OnCourse(s, m0, v, s.workers[i]);
    if s.workers[i].Running? {
      assert InSection(s.workers[w], section) && OnCourse(s, m0, v, s.workers[w]);
      WriterExcludes(s, i, w);
      AccessKeepsFlight(m0, v, s.mem, s.workers[w].q, s.workers[w].pc);
    }
  }

  /** What a request that has come to its end leaves behind. */
  lemma FlightLands(s: State, section: nat, m0: Memory<int>, v: View, w: nat) returns (v': View)
    requires Inv(s, section, m0, v) && w < NUM_WORKERS
    requires s.workers[w].Running? && s.workers[w].pc.Finished?
    ensures
      var x := s.workers[w];
      && x.pc.reply == PlainReply(s.log, x.ticket)
      && if Writer(x) then Represents(s.mem, v', PlainAfter(s.log)) else v' == v && s.mem == m0
  {
    var x := s.workers[w];
    assert OnCourse(s, m0, v, x);
    v' := OutcomeIsPlainStep(m0, v, x.q);
    if Writer(x) {
      assert s.log[..|s.log| - 1] == s.log[..x.ticket];
    } else {
      v' := v;
    }
  }

  ghost predicate AloneInside(s: State, w: nat) {
    forall i :: 0 <= i < |s.workers| && i != w ==> !s.workers[i].Running?
  }

  predicate Finishing(x: Worker) {
    x.Running? && x.pc.Finished?
  }

  lemma {:induction false} LeaveKeeps(s: State, section: nat, m0: Memory<int>, v: View, w: nat)
    returns (m1: Memory<int>, v1: View)
    requires Inv(s, section, m0, v) && w < NUM_WORKERS
    requires s.workers[w].Running? && s.workers[w].pc.Finished?
    ensures var x := s.workers[w]; Inv(LeaveSection(s, w, x.q, x.pc.reply, x.ticket), section, m1, v1)
    ensures (m1, v1) == (m0, v) || AloneInside(s, w)
  {
    hide Valid, InFlight, PlainAfter;
    var x := s.workers[w];
    var s' := LeaveSection(s, w, x.q, x.pc.reply, x.ticket);
    assert InSection(x, section) && OnCourse(s, m0, v, x);
    v1 := FlightLands(s, section, m0, v, w);
    m1 := s.mem;
    ConservedByTurn(s, Turn(w, None));
    forall i | 0 <= i < NUM_WORKERS
      ensures InSection(s'.workers[i], section) && OnCourse(s', m1, v1, s'.workers[i])
      ensures i != w ==> s'.workers[i] == s.workers[i] && (Writer(x) ==> !s.workers[i].Running?)
    {
      assert InSection(s.workers[i], section) && OnCourse(s, m0, v, s.workers[i]);
      if i != w && s.workers[i].Running? {
        WriterExcludes(s, i, w);
      }
    }
    forall t | 0 <= t < |s'.log|
      ensures Answered(s', t)
    {
      AnsweredAgain(s, s', w, t);
    }
    assert !Writer(x) ==> s'.workers[w].Replying? && !Writer(s.workers[w]);
  }

  lemma {:induction false} SendKeeps(s: State, section: nat, m0: Memory<int>, v: View, w: nat)
    requires Inv(s, section, m0, v) && w < NUM_WORKERS && s.workers[w].Replying?
    ensures var x := s.workers[w]; Inv(Send(s, w, x.reply, x.ticket), section, m0, v)
  {
    hide Valid, InFlight, Micro, PlainAfter;
    var x := s.workers[w];
    var s' := Send(s, w, x.reply, x.ticket);
    assert OnCourse(s, m0, v, x);
    ConservedByTurn(s, Turn(w, None));
    forall i | 0 <= i < NUM_WORKERS
      ensures InSection(s'.workers[i], section) && OnCourse(s', m0, v, s'.workers[i])
      ensures Writer(s'.workers[i]) == Writer(s.workers[i])
    {
      assert InSection(s.workers[i], section) && OnCourse(s, m0, v, s.workers[i]);
    }
    forall t | 0 <= t < |s'.log|
      ensures Answered(s', t)
    {
      if t != x.ticket {
        AnsweredAgain(s, s', w, t);
      }
    }
  }

  // ----- Every run -----

  ghost predicate MessagesIn(turns: seq<Turn>, section: nat) {
    forall i :: 0 <= i < |turns| && turns[i].received.Some? && turns[i].received.value.op != QUIT ==>
      SemId(turns[i].received.value.key) == section
  }

  lemma {:induction false} StepKeeps(s: State, section: nat, m0: Memory<int>, v: View, turn: Turn)
    returns (m1: Memory<int>, v1: View)
    requires Inv(s, section, m0, v) && turn.w < NUM_WORKERS && MessagesIn([turn], section)
    ensures Inv(Step(s, turn), section, m1, v1)
    ensures (m1, v1) == (m0, v) || (Finishing(s.workers[turn.w]) && AloneInside(s, turn.w))
  {
    hide Valid, InFlight, Micro, PlainAfter;
    var w := turn.w;
    m1, v1 := m0, v;
    match s.workers[w]
    case Idle =>
      if turn.received.Some? {
        assert [turn][0] == turn;
        ReceiveKeeps(s, section, m0, v, w, turn.received.value);
      }
    case Waiting(q) => AcquireKeeps(s, section, m0, v, w);
    case Running(q, pc, t) =>
      if pc.Finished? {
        m1, v1 := LeaveKeeps(s, section, m0, v, w);
      } else {
        AccessKeeps(s, section, m0, v, w);
      }
    case Replying(q, reply, t) => SendKeeps(s, section, m0, v, w);
    case Stopped =>
  }

  lemma {:induction false} RunKeeps(s: State, turns: seq<Turn>, section: nat)
    returns (m0: Memory<int>, v: View)
    requires WellFormed(s) && Initial(s) && section < NUM_SECTIONS
    requires Turns(turns) && MessagesIn(turns, section)
    ensures Inv(Run(s, turns), section, m0, v)
  {
    PermitsConserved(s, turns);
    if turns == [] {
      m0, v := s.mem, FreshView();
      FreshIsEmpty(s.mem);
    } else {
      var n := |turns| - 1;
      m0, v := RunKeeps(s, turns[..n], section);
      m0, v := StepKeeps(Run(s, turns[..n]), section, m0, v, turns[n]);
    }
  }

  /** Linearizability. However the accesses of the workers are interleaved: every reply is the
      one a plain map gives to the logged requests, served one at a time in the order of the log;
      and once no worker is busy, every request has its reply and the shared memory holds
      exactly that map. */
  lemma {:induction false} RepliesAreSequential(s: State, turns: seq<Turn>, section: nat)
    requires WellFormed(s) && Initial(s) && section < NUM_SECTIONS
    requires Turns(turns) && MessagesIn(turns, section)
    ensures
      var r := Run(s, turns);
      forall t :: 0 <= t < |r.log| && r.replies[t].Some? ==> r.replies[t].value == PlainReply(r.log, t)
    ensures
      var r := Run(s, turns);
      (forall w :: 0 <= w < NUM_WORKERS ==> r.workers[w].Idle? || r.workers[w].Stopped?) ==>
        && (forall t :: 0 <= t < |r.log| ==> r.replies[t].Some?)
        && exists v :: Represents(r.mem, v, PlainAfter(r.log))
  {
    hide Valid, InFlight, PlainAfter, Conserved;
    var r := Run(s, turns);
    var m0, v := RunKeeps(s, turns, section);
    forall t | 0 <= t < |r.log|
      ensures r.replies[t].Some? ==> r.replies[t].value == PlainReply(r.log, t)
      ensures r.replies[t].None? ==> exists w: nat :: w < NUM_WORKERS && WorksOn(r.workers[w], t)
    {
      assert Answered(r, t);
    }
    if forall w :: 0 <= w < NUM_WORKERS ==> r.workers[w].Idle? || r.workers[w].Stopped? {
      assert Represents(r.mem, v, PlainAfter(r.log));
    }
  }
}
