/** Each worker's side of a run: the requests it has received, their places in the log, and the
    replies it has sent. The log has every request that has entered a section, once, at the time at
    which it entered. */
module Conversations {
  import opened Results
  import opened TableOperation
  import opened Workers

  function ReceivedIn(s: State, turn: Turn, w: nat): seq<Msg>
    requires WellFormed(s) && turn.w < NUM_WORKERS
  {
    if turn.w == w && s.workers[w].Idle? && turn.received.Some? && turn.received.value.op != QUIT
    then [turn.received.value] else []
  }

  function EnteredIn(s: State, turn: Turn, w: nat): seq<nat>
    requires WellFormed(s) && turn.w < NUM_WORKERS
  {
    if turn.w == w && |Step(s, turn).log| > |s.log| then [|s.log|] else []
  }

  function SentIn(s: State, turn: Turn, w: nat): seq<Reply>
    requires WellFormed(s) && turn.w < NUM_WORKERS
  {
    if turn.w == w && s.workers[w].Replying? then [s.workers[w].reply] else []
  }

  function Received(s: State, turns: seq<Turn>, w: nat): seq<Msg>
    requires WellFormed(s) && Turns(turns)
  {
    if turns == [] then [] else
      var n := |turns| - 1;
      Received(s, turns[..n], w) + ReceivedIn(Run(s, turns[..n]), turns[n], w)
  }

  /** The places in the log of a worker's requests. */
  function Entered(s: State, turns: seq<Turn>, w: nat): seq<nat>
    requires WellFormed(s) && Turns(turns)
  {
    if turns == [] then [] else
      var n := |turns| - 1;
      Entered(s, turns[..n], w) + EnteredIn(Run(s, turns[..n]), turns[n], w)
  }

  function Sent(s: State, turns: seq<Turn>, w: nat): seq<Reply>
    requires WellFormed(s) && Turns(turns)
  {
    if turns == [] then [] else
      var n := |turns| - 1;
      Sent(s, turns[..n], w) + SentIn(Run(s, turns[..n]), turns[n], w)
  }

  /** A worker's requests are in the log as it received them, with the replies it has sent. */
  ghost predicate Logged(s: State, qs: seq<Msg>, ts: seq<nat>, rs: seq<Reply>)
    requires WellFormed(s)
  {
    && |rs| <= |ts| <= |qs|
    && (forall i :: 0 <= i < |ts| ==> ts[i] < |s.log| && s.log[ts[i]] == qs[i])
    && (forall i :: 0 <= i < |rs| ==> s.replies[ts[i]] == Some(rs[i]))
  }

  /** It works on one request at a time. */
  ghost predicate OneAtATime(x: Worker, qs: seq<Msg>, ts: seq<nat>, rs: seq<Reply>) {
    match x
    case Idle => |qs| == |ts| == |rs|
    case Stopped => |qs| == |ts| == |rs|
    case Waiting(q) => |qs| == |ts| + 1 == |rs| + 1 && qs[|ts|] == q
    case Running(q, _, t) => |qs| == |ts| == |rs| + 1 && qs[|rs|] == q && ts[|rs|] == t
    case Replying(q, _, t) => |qs| == |ts| == |rs| + 1 && qs[|rs|] == q && ts[|rs|] == t
  }

  /** Distinct requests have distinct places. */
  ghost predicate Apart(ts: seq<nat>, us: seq<nat>) {
    forall i, j :: 0 <= i < |ts| && 0 <= j < |us| ==> ts[i] != us[j]
  }

  ghost predicate Ascending(ts: seq<nat>) {
    forall i, j :: 0 <= i < j < |ts| ==> ts[i] < ts[j]
  }

  /** Who made entry t, and as which of its requests. */
  ghost predicate MadeBy(s: State, turns: seq<Turn>, t: nat, w: nat, i: nat)
    requires WellFormed(s) && Turns(turns)
  {
    w < NUM_WORKERS && i < |Entered(s, turns, w)| && Entered(s, turns, w)[i] == t
  }

  ghost predicate Made(s: State, turns: seq<Turn>, t: nat)
    requires WellFormed(s) && Turns(turns)
  {
    exists w: nat, i: nat :: MadeBy(s, turns, t, w, i)
  }

  // ----- Every turn -----

  lemma OwnTurn(s: State, turn: Turn, qs: seq<Msg>, ts: seq<nat>, rs: seq<Reply>)
    requires WellFormed(s) && turn.w < NUM_WORKERS
    requires Logged(s, qs, ts, rs) && OneAtATime(s.workers[turn.w], qs, ts, rs) && Ascending(ts)
    ensures var (s', w) := (Step(s, turn), turn.w);
      var qs', ts', rs' := qs + ReceivedIn(s, turn, w), ts + EnteredIn(s, turn, w), rs + SentIn(s, turn, w);
      Logged(s', qs', ts', rs') && OneAtATime(s'.workers[w], qs', ts', rs') && Ascending(ts')
  {
    hide SemId, Micro;
  }

  lemma OthersTurn(s: State, turn: Turn, w: nat, qs: seq<Msg>, ts: seq<nat>, rs: seq<Reply>)
    requires WellFormed(s) && turn.w < NUM_WORKERS && w < NUM_WORKERS && w != turn.w
    requires Logged(s, qs, ts, rs) && OneAtATime(s.workers[w], qs, ts, rs)
    requires s.workers[turn.w].Replying? ==> forall i :: 0 <= i < |ts| ==> ts[i] != s.workers[turn.w].ticket
    ensures Logged(Step(s, turn), qs, ts, rs) && OneAtATime(Step(s, turn).workers[w], qs, ts, rs)
  {
    hide SemId, Micro;
  }

  lemma LogGrows(s: State, turn: Turn)
    requires WellFormed(s) && turn.w < NUM_WORKERS
    ensures s.log <= Step(s, turn).log && |Step(s, turn).log| <= |s.log| + 1
  {
    hide SemId, Micro;
  }

  // ----- Every run -----

  ghost predicate InStep(s: State, turns: seq<Turn>, w: nat)
    requires WellFormed(s) && Turns(turns) && w < NUM_WORKERS
  {
    var qs, ts, rs := Received(s, turns, w), Entered(s, turns, w), Sent(s, turns, w);
    Logged(Run(s, turns), qs, ts, rs) && OneAtATime(Run(s, turns).workers[w], qs, ts, rs) && Ascending(ts)
  }

  ghost predicate EachApart(s: State, turns: seq<Turn>)
    requires WellFormed(s) && Turns(turns)
  {
    forall v: nat, w: nat :: v < w < NUM_WORKERS ==> Apart(Entered(s, turns, v), Entered(s, turns, w))
  }

  ghost predicate AllMade(s: State, turns: seq<Turn>)
    requires WellFormed(s) && Turns(turns)
  {
    forall t: nat :: t < |Run(s, turns).log| ==> Made(s, turns, t)
  }

  lemma {:induction false} WorkersStayInStep(s: State, turns: seq<Turn>, turn: Turn, w: nat)
    requires WellFormed(s) && Turns(turns) && turn.w < NUM_WORKERS && w < NUM_WORKERS
    requires InStep(s, turns, w) && InStep(s, turns, turn.w) && EachApart(s, turns)
    ensures InStep(s, turns + [turn], w)
  {
    OneTurnMore(s, turns, turn, w);
    hide Run, Step, WellFormed, Received, Entered, Sent, Logged, Ascending;
    var r := Run(s, turns);
    var qs, ts, rs := Received(s, turns, w), Entered(s, turns, w), Sent(s, turns, w);
    if turn.w == w {
      OwnTurn(r, turn, qs, ts, rs);
    } else {
      assert qs + [] == qs && ts + [] == ts && rs + [] == rs;
      if r.workers[turn.w].Replying? {
        assert Apart(ts, Entered(s, turns, turn.w)) || Apart(Entered(s, turns, turn.w), ts);
      }
      OthersTurn(r, turn, w, qs, ts, rs);
    }
  }

  lemma OneTurnMore(s: State, turns: seq<Turn>, turn: Turn, w: nat)
    requires WellFormed(s) && Turns(turns) && turn.w < NUM_WORKERS
    ensures var r, more := Run(s, turns), turns + [turn];
      && Run(s, more) == Step(r, turn)
      && Received(s, more, w) == Received(s, turns, w) + ReceivedIn(r, turn, w)
      && Entered(s, more, w) == Entered(s, turns, w) + EnteredIn(r, turn, w)
      && Sent(s, more, w) == Sent(s, turns, w) + SentIn(r, turn, w)
  {
    assert (turns + [turn])[..|turns|] == turns;
    hide Step;
  }

  lemma {:induction false} EntriesStayApart(s: State, turns: seq<Turn>, turn: Turn)
    requires WellFormed(s) && Turns(turns) && turn.w < NUM_WORKERS && EachApart(s, turns)
    requires forall w :: 0 <= w < NUM_WORKERS ==> InStep(s, turns, w)
    ensures EachApart(s, turns + [turn])
  {
    hide Run, Step, Received, Entered, Sent, OneAtATime, Ascending;
    forall v: nat, w: nat | v < w < NUM_WORKERS
      ensures Apart(Entered(s, turns + [turn], v), Entered(s, turns + [turn], w))
    {
      OneTurnMore(s, turns, turn, v);
      OneTurnMore(s, turns, turn, w);
      assert InStep(s, turns, v) && InStep(s, turns, w) && Apart(Entered(s, turns, v), Entered(s, turns, w));
    }
  }

  lemma {:induction false} EntriesAreMade(s: State, turns: seq<Turn>, turn: Turn)
    requires WellFormed(s) && Turns(turns) && turn.w < NUM_WORKERS && AllMade(s, turns)
    ensures AllMade(s, turns + [turn])
  {
    hide Run, Step, Received, Entered, Sent;
    var r, more := Run(s, turns), turns + [turn];
    LogGrows(r, turn);
    OneTurnMore(s, turns, turn, turn.w);
    forall t: nat | t < |Run(s, more).log| ensures Made(s, more, t) {
      if t < |r.log| {
        assert Made(s, turns, t);
        var w: nat, i: nat :| MadeBy(s, turns, t, w, i);
        OneTurnMore(s, turns, turn, w);
        assert MadeBy(s, more, t, w, i);
      } else {
        assert MadeBy(s, more, t, turn.w, |Entered(s, turns, turn.w)|);
      }
    }
  }

  /** In every run, whatever the keys: each worker's requests are in the log once, in the order in
      which it received them, with the replies that it sent; and nothing else is in the log. */
  lemma {:induction false} LogIsOfRequests(s: State, turns: seq<Turn>)
    requires WellFormed(s) && Initial(s) && Turns(turns)
    ensures forall w :: 0 <= w < NUM_WORKERS ==> InStep(s, turns, w)
    ensures EachApart(s, turns) && AllMade(s, turns)
    decreases |turns|
  {
    if turns != [] {
      var n := |turns| - 1;
      LogIsOfRequests(s, turns[..n]);
      assert turns[..n] + [turns[n]] == turns;
      hide InStep, EachApart, AllMade, Run;
      EntriesStayApart(s, turns[..n], turns[n]);
      EntriesAreMade(s, turns[..n], turns[n]);
      forall w | 0 <= w < NUM_WORKERS ensures InStep(s, turns, w) {
        WorkersStayInStep(s, turns[..n], turns[n], w);
      }
    }
  }

  /** A request has its place in the log between the time at which it was received and the time at
      which its reply was sent: what has been entered up to some point of the run comes first. */
  lemma {:induction false} LogKeepsTime(s: State, turns: seq<Turn>, k: nat, w: nat)
    requires WellFormed(s) && Initial(s) && Turns(turns) && k <= |turns| && w < NUM_WORKERS
    ensures var before, all := Entered(s, turns[..k], w), Entered(s, turns, w);
      && before <= all && (forall i :: 0 <= i < |before| ==> before[i] < |Run(s, turns[..k]).log|)
      && (forall i :: |before| <= i < |all| ==> all[i] >= |Run(s, turns[..k]).log|)
    ensures Run(s, turns[..k]).log <= Run(s, turns).log
    decreases |turns|
  {
    if k == |turns| {
      assert turns[..k] == turns;
      LogIsOfRequests(s, turns);
      assert InStep(s, turns, w);
    } else {
      var n := |turns| - 1;
      assert turns[..n] + [turns[n]] == turns && turns[..n][..k] == turns[..k];
      LogKeepsTime(s, turns[..n], k, w);
      hide Step, Run, Entered, Received, Sent;
      LogGrows(Run(s, turns[..n]), turns[n]);
      OneTurnMore(s, turns[..n], turns[n], w);
    }
  }
}
