/** How long a worker may have to wait for a locked section: any number of its turns, although nobody
    stays inside for long, because readers who take turns never let all permits come back. */
module Starvation {
  import opened Results
  import opened Arena
  import opened Dictionary
  import opened TableOperation
  import opened Workers
  import opened SectionRace
  import opened Progress

  /** A set request, and a get request to the same locked section. */
  ghost predicate Contenders(p: Msg, g: Msg) {
    p.op == SET && g.op == GET && SemId(p.key) == SemId(g.key) < NUM_SECTIONS
  }

  function Reader(n: nat): nat {
    1 + n % 2
  }

  /** The writer waits, n get requests have been answered since, and one more has been executed
      by a reader that is still inside. */
  ghost predicate Starved(s0: State, s: State, p: Msg, g: Msg, n: nat)
    requires Initial(s0) && SemId(g.key) < NUM_SECTIONS
  {
    && s.mem == s0.mem && s.sems == s0.sems[SemId(g.key) := NUM_WORKERS - 1]
    && |s.workers| == NUM_WORKERS && s.workers[0] == Waiting(p)
    && s.workers[Reader(n)] == Running(g, Finished(Reply(NO_KEY, g.value)), n)
    && s.workers[Reader(n + 1)] == Idle && s.workers[3] == Idle
    && |s.log| == |s.replies| == n + 1 && (forall t :: 0 <= t <= n ==> s.log[t] == g)
    && forall t :: 0 <= t < n ==> s.replies[t].Some?
  }

  lemma OneMoreTurn(turns: seq<Turn>, turn: Turn)
    ensures TurnsOf(turns + [turn], 0) == TurnsOf(turns, 0) + if turn.w == 0 then 1 else 0
  {
    assert (turns + [turn])[..|turns|] == turns;
  }

  lemma NothingFound(m: Memory<int>, g: Msg)
    requires Fresh(m) && g.op == GET
    ensures Micro(m, g, FindHead) == (m, Finished(Reply(NO_KEY, g.value)))
  {
    hide GetHash;
  }

  /** A reader comes in and looks for its key, while the table is empty. */
  lemma {:induction false} ReaderComes(s0: State, turns: seq<Turn>, x: nat, w: nat, g: Msg) returns (more: seq<Turn>)
    requires WellFormed(s0) && Initial(s0) && Schedule(turns, x, x) && 0 < w < NUM_WORKERS
    requires g.op == GET && SemId(g.key) == x < NUM_SECTIONS
    requires Run(s0, turns).mem == s0.mem && Run(s0, turns).workers[w] == Idle && Run(s0, turns).sems[x] > 0
    ensures Schedule(more, x, x) && TurnsOf(more, 0) == TurnsOf(turns, 0)
    ensures var s, t := Run(s0, turns), |Run(s0, turns).log|;
      Run(s0, more) == State(s.sems[x := s.sems[x] - 1], s.mem,
                             s.workers[w := Running(g, Finished(Reply(NO_KEY, g.value)), t)],
                             s.log + [g], s.replies + [None])
  {
    hide Run, SemId, Micro, Fresh, TurnsOf;
    var s := Run(s0, turns);
    var entered := Enter(s0, turns, x, x, w, g);
    NothingFound(s0.mem, g);
    more := AccessOnce(s0, entered, x, x, w, g, FindHead, |s.log|);
    var out := Running(g, Finished(Reply(NO_KEY, g.value)), |s.log|);
    assert s.workers[w := Running(g, FindHead, |s.log|)][w := out] == s.workers[w := out];
    OneMoreTurn(turns, Turn(w, Some(g)));
    OneMoreTurn(turns + [Turn(w, Some(g))], Turn(w, None));
    OneMoreTurn(entered, Turn(w, None));
  }

  lemma {:induction false} ReaderGoes(s0: State, turns: seq<Turn>, x: nat, w: nat, g: Msg, t: nat)
    returns (more: seq<Turn>)
    requires WellFormed(s0) && Schedule(turns, x, x) && 0 < w < NUM_WORKERS && SemId(g.key) == x < NUM_SECTIONS
    requires g.op == GET && Run(s0, turns).workers[w] == Running(g, Finished(Reply(NO_KEY, g.value)), t)
    ensures Schedule(more, x, x) && TurnsOf(more, 0) == TurnsOf(turns, 0)
    ensures t < |Run(s0, turns).log|
    ensures Run(s0, more) == Departed(Run(s0, turns), w, g, Reply(NO_KEY, g.value), t)
  {
    hide Run, SemId, TurnsOf;
    more := Depart(s0, turns, x, x, w, g, Reply(NO_KEY, g.value), t);
    OneMoreTurn(turns, Turn(w, None));
    OneMoreTurn(turns + [Turn(w, None)], Turn(w, None));
  }

  lemma {:induction false} WriterTries(s0: State, turns: seq<Turn>, p: Msg, g: Msg, n: nat) returns (more: seq<Turn>)
    requires WellFormed(s0) && Initial(s0) && Contenders(p, g) && Schedule(turns, SemId(p.key), SemId(p.key))
    requires Starved(s0, Run(s0, turns), p, g, n)
    ensures Schedule(more, SemId(p.key), SemId(p.key)) && Run(s0, more) == Run(s0, turns)
    ensures TurnsOf(more, 0) == TurnsOf(turns, 0) + 1
  {
    hide Run, SemId, TurnsOf;
    SectionRace.Move(s0, turns, SemId(p.key), SemId(p.key), Turn(0, None));
    OneMoreTurn(turns, Turn(0, None));
    more := turns + [Turn(0, None)];
  }

  /** The next reader comes before the last one goes. */
  lemma {:induction false} ReadersTakeTurns(s0: State, turns: seq<Turn>, p: Msg, g: Msg, n: nat)
    returns (more: seq<Turn>)
    requires WellFormed(s0) && Initial(s0) && Contenders(p, g) && Schedule(turns, SemId(p.key), SemId(p.key))
    requires Starved(s0, Run(s0, turns), p, g, n)
    ensures Schedule(more, SemId(p.key), SemId(p.key)) && Starved(s0, Run(s0, more), p, g, n + 1)
    ensures TurnsOf(more, 0) == TurnsOf(turns, 0)
  {
    hide Run, SemId, TurnsOf, Fresh;
    var x := SemId(p.key);
    more := ReaderComes(s0, turns, x, Reader(n + 1), g);
    more := ReaderGoes(s0, more, x, Reader(n), g, n);
  }

  /** A set request may have to wait for any number of its worker's turns, while as many get requests
      to its section are served. */
  lemma {:induction false} WriterMayStarve(s0: State, p: Msg, g: Msg, n: nat) returns (turns: seq<Turn>)
    requires WellFormed(s0) && Initial(s0) && Contenders(p, g)
    ensures Schedule(turns, SemId(p.key), SemId(p.key)) && Starved(s0, Run(s0, turns), p, g, n)
    ensures TurnsOf(turns, 0) == 1 + n
  {
    hide Run, SemId, TurnsOf, Fresh;
    if n == 0 {
      turns := WriterWaits(s0, p, g);
      turns := ReaderComes(s0, turns, SemId(p.key), 1, g);
    } else {
      turns := WriterMayStarve(s0, p, g, n - 1);
      turns := WriterTries(s0, turns, p, g, n - 1);
      turns := ReadersTakeTurns(s0, turns, p, g, n - 1);
    }
  }

  lemma WriterWaits(s0: State, p: Msg, g: Msg) returns (turns: seq<Turn>)
    requires WellFormed(s0) && Initial(s0) && Contenders(p, g)
    ensures Schedule(turns, SemId(p.key), SemId(p.key)) && TurnsOf(turns, 0) == 1
    ensures Run(s0, turns) == s0.(workers := s0.workers[0 := Waiting(p)])
  {
    assert Run(s0, []) == s0 && TurnsOf([], 0) == 0;
    hide Run, SemId, TurnsOf;
    SectionRace.Move(s0, [], SemId(p.key), SemId(p.key), Turn(0, Some(p)));
    OneMoreTurn([], Turn(0, Some(p)));
    turns := [] + [Turn(0, Some(p))];
  }
}
