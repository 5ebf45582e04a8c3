/** How long a worker stays in a locked section: a bound on the accesses of a request, whatever the
    other workers do meanwhile. */
module Progress {
  import opened Arena
  import opened Dictionary
  import opened TableOperation
  import opened Workers
  import opened Linearization

  /** Once the search is over, deleting takes longest: it may read every head. */
  const AFTER_FIND: nat := HASH_TABLE_SIZE + 11

  /** Two accesses for each node of a bucket that has them all, and what comes before and after. */
  const MAX_ACCESSES: nat := 1 + 2 * BUFFER_SIZE + AFTER_FIND

  /** Request q, which found the table m0, needs no more than n accesses from pc on. */
  ghost predicate Within(m0: Memory<int>, v: View, q: Msg, pc: Pc, n: nat)
    requires Valid(m0, v) && pc.WellFormed()
  {
    var len := |v.layout.chains[GetHash(q.key)]|;
    if pc.FindHead? then n >= 1 + 2 * len + AFTER_FIND
    else if pc.Searching() then
      exists i: nat :: Searched(m0, v, q.key, i, pc.cur)
        && n + 2 * i + (if pc.FindNext? then 1 else 0) >= 2 * len + AFTER_FIND
    else n >= Rank(pc)
  }

  lemma RankIsBounded(pc: Pc)
    requires !pc.Searching() && pc.WellFormed()
    ensures Rank(pc) <= AFTER_FIND
  {
  }

  lemma ChainIsBounded(m: Memory<int>, v: View, h: nat)
    requires Valid(m, v) && h < HASH_TABLE_SIZE
    ensures |v.layout.chains[h]| <= BUFFER_SIZE
  {
    hide Chain;
    var s := v.layout.chains[h];
    assert Members(s, v.layout.home, h);
    DistinctElements(s);
    var all := Numbers(BUFFER_SIZE);
    var listed := set n | n in s;
    assert all == listed + (all - listed);
  }

  lemma MaxIsEnough(m0: Memory<int>, v: View, m: Memory<int>, q: Msg, pc: Pc)
    requires Valid(m0, v) && Shape(m) && pc.WellFormed() && InFlight(m0, v, m, q, pc)
    ensures Within(m0, v, q, pc, MAX_ACCESSES)
  {
    hide Valid, Rest, Rank, GetHash;
    ChainIsBounded(m0, v, GetHash(q.key));
    if !pc.Searching() {
      RankIsBounded(pc);
    }
  }

  lemma SearchComesCloser(m0: Memory<int>, v: View, q: Msg, pc: Pc, n: nat)
    requires Valid(m0, v) && pc.WellFormed() && pc.Searching() && InFlight(m0, v, m0, q, pc)
    requires Within(m0, v, q, pc, n)
    ensures n > 0 && Within(m0, v, q, Micro(m0, q, pc).1, n - 1)
  {
    hide Rest, GetHash;
    if pc.FindHead? {
      SearchStarts(m0, v, q.key);
    } else {
      var i: nat :| Searched(m0, v, q.key, i, pc.cur)
        && n + 2 * i + (if pc.FindNext? then 1 else 0) >= 2 * |v.layout.chains[GetHash(q.key)]| + AFTER_FIND;
      SearchAdvances(m0, v, q.key, i, pc.cur);
    }
  }

  /** With each access there are fewer to come. */
  lemma AccessComesCloser(m0: Memory<int>, v: View, m: Memory<int>, q: Msg, pc: Pc, n: nat)
    requires Valid(m0, v) && Shape(m) && pc.WellFormed() && InFlight(m0, v, m, q, pc) && !pc.Finished?
    requires Within(m0, v, q, pc, n)
    ensures n > 0 && Within(m0, v, q, Micro(m, q, pc).1, n - 1)
  {
    hide Valid, Rest, Rank, Micro, GetHash;
    if pc.Searching() {
      SearchComesCloser(m0, v, q, pc, n);
    } else {
      NextRank(m, q, pc);
    }
  }

  // ----- Runs -----

  function TurnsOf(turns: seq<Turn>, b: nat): nat {
    if turns == [] then 0
    else TurnsOf(turns[..|turns| - 1], b) + if turns[|turns| - 1].w == b then 1 else 0
  }

  /** Worker b is in its section at the start and after every turn. */
  ghost predicate StaysInside(s: State, turns: seq<Turn>, b: nat)
    requires WellFormed(s) && Turns(turns) && b < NUM_WORKERS
  {
    forall k :: 0 <= k <= |turns| ==> Run(s, turns[..k]).workers[b].Running?
  }

  ghost predicate WorkerWithin(x: Worker, m0: Memory<int>, v: View, n: nat) {
    x.Running? && x.pc.WellFormed() && Valid(m0, v) && Within(m0, v, x.q, x.pc, n)
  }

  /** A turn brings the worker whose turn it is closer to its end, and no other further from it. */
  lemma StepComesCloser(s: State, turn: Turn, section: nat, b: nat, m0: Memory<int>, v: View, n: nat)
    returns (m1: Memory<int>, v1: View)
    requires Inv(s, section, m0, v) && turn.w < NUM_WORKERS && MessagesIn([turn], section) && b < NUM_WORKERS
    requires WorkerWithin(s.workers[b], m0, v, n) && Step(s, turn).workers[b].Running?
    ensures Inv(Step(s, turn), section, m1, v1)
    ensures if turn.w != b then WorkerWithin(Step(s, turn).workers[b], m1, v1, n)
            else n > 0 && WorkerWithin(Step(s, turn).workers[b], m1, v1, n - 1)
  {
    hide Valid, InFlight, Within, Micro, PlainAfter, Conserved;
    m1, v1 := StepKeeps(s, section, m0, v, turn);
    var x := s.workers[b];
    assert OnCourse(s, m0, v, x);
    if turn.w == b {
      AccessComesCloser(m0, v, s.mem, x.q, x.pc, n);
    }
  }

  lemma {:induction false} TurnsComeCloser(s: State, turns: seq<Turn>, section: nat, b: nat,
                                           m0: Memory<int>, v: View, n: nat)
    returns (m1: Memory<int>, v1: View)
    requires WellFormed(s) && Turns(turns) && MessagesIn(turns, section) && b < NUM_WORKERS
    requires Inv(s, section, m0, v)
    requires WorkerWithin(s.workers[b], m0, v, n) && StaysInside(s, turns, b)
    ensures Inv(Run(s, turns), section, m1, v1)
    ensures TurnsOf(turns, b) <= n && WorkerWithin(Run(s, turns).workers[b], m1, v1, n - TurnsOf(turns, b))
    decreases |turns|
  {
    hide Inv, WorkerWithin, Step;
    m1, v1 := m0, v;
    if turns != [] {
      var k := |turns| - 1;
      StaysBefore(s, turns, b);
      m1, v1 := TurnsComeCloser(s, turns[..k], section, b, m0, v, n);
      m1, v1 := StepComesCloser(Run(s, turns[..k]), turns[k], section, b, m1, v1, n - TurnsOf(turns[..k], b));
    }
  }

  lemma StaysBefore(s: State, turns: seq<Turn>, b: nat)
    requires WellFormed(s) && Turns(turns) && b < NUM_WORKERS && turns != [] && StaysInside(s, turns, b)
    ensures StaysInside(s, turns[..|turns| - 1], b) && Run(s, turns).workers[b].Running?
  {
    hide Run;
    var n := |turns| - 1;
    assert turns[..|turns|] == turns;
    forall k | 0 <= k <= n ensures Run(s, turns[..n][..k]).workers[b].Running? {
      assert turns[..n][..k] == turns[..k];
    }
  }

  /** From any point of any run on: a worker that is inside a locked section has left it at the latest
      when it has had MAX_ACCESSES turns and another one, however the others move. */
  lemma {:induction false} LeavesInTime(s: State, before: seq<Turn>, turns: seq<Turn>, section: nat, b: nat)
    requires WellFormed(s) && Initial(s) && section < NUM_SECTIONS && b < NUM_WORKERS
    requires Turns(before) && Turns(turns) && MessagesIn(before, section) && MessagesIn(turns, section)
    requires TurnsOf(turns, b) > MAX_ACCESSES
    ensures exists k :: 0 <= k <= |turns| && !Run(Run(s, before), turns[..k]).workers[b].Running?
  {
    hide Run, Valid, InFlight, Within;
    var r := Run(s, before);
    if StaysInside(r, turns, b) {
      var m0, v := RunKeeps(s, before, section);
      var x := r.workers[b];
      InsideAtOnce(r, turns, b);
      assert OnCourse(r, m0, v, x);
      MaxIsEnough(m0, v, r.mem, x.q, x.pc);
      var m1, v1 := TurnsComeCloser(r, turns, section, b, m0, v, MAX_ACCESSES);
    }
  }

  lemma InsideAtOnce(s: State, turns: seq<Turn>, b: nat)
    requires WellFormed(s) && Turns(turns) && b < NUM_WORKERS && StaysInside(s, turns, b)
    ensures s.workers[b].Running?
  {
    assert Run(s, turns[..0]) == s;
  }
}
