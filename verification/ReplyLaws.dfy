/** The replies to the requests of one locked section, said in terms of the requests and the replies
    alone: what was written last under a key, and how many keys have been written. */
module ReplyLaws {
  import opened Arena
  import opened Dictionary
  import opened TableOperation
  import opened PlainTable
  import opened Workers
  import opened Linearization
  import opened Conversations

  /** What the last write to a key has left there. */
  datatype Write = Nothing | Stored(value: int)

  /** A set that was answered with error code 0 writes, and so does every del. */
  function Rewrite(w: Write, q: Msg, r: Reply, key: int): Write {
    if q.key != key then w
    else match q.op
      case SET => if r.err == 0 then Stored(q.value) else w
      case DEL => Nothing
      case _ => w
  }

  function LastWrite(log: seq<Msg>, rs: seq<Reply>, key: int): Write
    requires |log| == |rs|
  {
    if log == [] then Nothing else
      var n := |log| - 1;
      Rewrite(LastWrite(log[..n], rs[..n], key), log[n], rs[n], key)
  }

  /** The keys under which something is stored. */
  ghost function StoredKeys(log: seq<Msg>, rs: seq<Reply>): set<int>
    requires |log| == |rs|
  {
    set i | 0 <= i < |log| && LastWrite(log, rs, log[i].key).Stored? :: log[i].key
  }

  /** Error code 1 stands for a missing key and 2 for a full table. The value of the message comes
      back as it was, except that get puts in what was stored last. */
  ghost predicate LawfulAt(log: seq<Msg>, rs: seq<Reply>, t: nat)
    requires t < |log| == |rs|
  {
    var q, was := log[t], LastWrite(log[..t], rs[..t], log[t].key);
    match q.op
    case GET => rs[t] == if was.Stored? then Reply(0, was.value) else Reply(1, q.value)
    case DEL => rs[t] == Reply(if was.Stored? then 0 else 1, q.value)
    case SET =>
      rs[t] == Reply(if was.Nothing? && |StoredKeys(log[..t], rs[..t])| == 2048 then 2 else 0, q.value)
    case QUIT => false
  }

  ghost predicate Lawful(log: seq<Msg>, rs: seq<Reply>) {
    |log| == |rs| && forall t :: 0 <= t < |log| ==> LawfulAt(log, rs, t)
  }

  /** The laws leave no choice. */
  lemma {:induction false} LawfulIsUnique(log: seq<Msg>, rs: seq<Reply>, rs': seq<Reply>)
    requires Lawful(log, rs) && Lawful(log, rs')
    ensures rs == rs'
    decreases |log|
  {
    if log != [] {
      var n := |log| - 1;
      LawfulBefore(log, rs, n);
      LawfulBefore(log, rs', n);
      LawfulIsUnique(log[..n], rs[..n], rs'[..n]);
      assert LawfulAt(log, rs, n) && LawfulAt(log, rs', n);
      assert rs == rs[..n] + [rs[n]] && rs' == rs'[..n] + [rs'[n]];
    }
  }

  lemma LawfulBefore(log: seq<Msg>, rs: seq<Reply>, n: nat)
    requires Lawful(log, rs) && n <= |log|
    ensures Lawful(log[..n], rs[..n])
  {
    hide LastWrite, StoredKeys;
    forall t | 0 <= t < n ensures LawfulAt(log[..n], rs[..n], t) {
      assert LawfulAt(log, rs, t);
      assert log[..n][..t] == log[..t] && rs[..n][..t] == rs[..t];
    }
  }

  // ----- A plain map keeps the laws -----

  function PlainReplies(log: seq<Msg>): (rs: seq<Reply>)
    ensures |rs| == |log|
  {
    seq(|log|, t requires 0 <= t < |log| => PlainReply(log, t))
  }

  lemma RepliesBefore(log: seq<Msg>, n: nat)
    requires n <= |log|
    ensures PlainReplies(log)[..n] == PlainReplies(log[..n])
  {
    hide PlainStep, PlainAfter;
    forall t | 0 <= t < n ensures PlainReply(log, t) == PlainReply(log[..n], t) {
      assert log[..n][..t] == log[..t];
    }
  }

  /** The map holds under each key what was written there last. */
  ghost predicate HoldsAt(s: Plain, w: Write, key: int) {
    (key in s <==> w.Stored?) && (key in s ==> s[key] == w.value)
  }

  lemma StepHolds(s: Plain, q: Msg, w: Write, key: int)
    requires HoldsAt(s, w, key)
    ensures var (s', r) := PlainStep(s, q); HoldsAt(s', Rewrite(w, q, r, key), key)
  {
  }

  lemma {:induction false} PlainHoldsLastWrite(log: seq<Msg>, key: int)
    ensures HoldsAt(PlainAfter(log), LastWrite(log, PlainReplies(log), key), key)
    decreases |log|
  {
    hide PlainStep, Rewrite;
    if log != [] {
      var n := |log| - 1;
      PlainHoldsLastWrite(log[..n], key);
      RepliesBefore(log, n);
      StepHolds(PlainAfter(log[..n]), log[n], LastWrite(log[..n], PlainReplies(log[..n]), key), key);
    }
  }

  lemma {:induction false} OnlyNamedKeys(log: seq<Msg>, rs: seq<Reply>, key: int)
    requires |log| == |rs| && LastWrite(log, rs, key).Stored?
    ensures exists i :: 0 <= i < |log| && log[i].key == key
    decreases |log|
  {
    var n := |log| - 1;
    if log[n].key != key {
      OnlyNamedKeys(log[..n], rs[..n], key);
      var i :| 0 <= i < n && log[..n][i].key == key;
      assert log[i].key == key;
    }
  }

  lemma PlainHoldsStoredKeys(log: seq<Msg>)
    ensures PlainAfter(log).Keys == StoredKeys(log, PlainReplies(log))
  {
    hide PlainAfter, PlainReplies, LastWrite;
    var s, rs := PlainAfter(log), PlainReplies(log);
    forall key ensures key in s <==> key in StoredKeys(log, rs) {
      PlainHoldsLastWrite(log, key);
      if key in s {
        OnlyNamedKeys(log, rs, key);
      }
    }
  }

  lemma PlainIsLawfulAt(log: seq<Msg>, t: nat)
    requires t < |log| && log[t].op != QUIT && |PlainAfter(log[..t])| <= 2048
    ensures LawfulAt(log, PlainReplies(log), t)
  {
    hide PlainAfter, LastWrite, StoredKeys;
    RepliesBefore(log, t);
    PlainHoldsLastWrite(log[..t], log[t].key);
    PlainHoldsStoredKeys(log[..t]);
    assert |PlainAfter(log[..t])| == |PlainAfter(log[..t]).Keys|;
  }

  lemma {:induction false} NeverMoreThanFull(log: seq<Msg>)
    ensures |PlainAfter(log)| <= 2048
    decreases |log|
  {
    if log != [] {
      var n := |log| - 1;
      NeverMoreThanFull(log[..n]);
      StepNeverOverfills(PlainAfter(log[..n]), log[n]);
    }
  }

  lemma StepNeverOverfills(s: Plain, q: Msg)
    requires |s| <= 2048
    ensures |PlainStep(s, q).0| <= 2048
  {
    if q.op == SET {
      SizeAfterUpdate(s, q.key, q.value);
    } else {
      SizeAfterRemoval(s, q.key);
    }
  }

  // ----- Every run -----

  ghost predicate NoQuit(log: seq<Msg>) {
    forall t :: 0 <= t < |log| ==> log[t].op != QUIT
  }

  lemma {:induction false} LogHasNoQuit(s: State, turns: seq<Turn>)
    requires WellFormed(s) && Turns(turns) && Initial(s)
    ensures NoQuit(Run(s, turns).log)
    decreases |turns|
  {
    hide Access, LeaveSection, Send;
    if turns != [] {
      var n := |turns| - 1;
      LogHasNoQuit(s, turns[..n]);
      StepLogsNoQuit(Run(s, turns[..n]), turns[n]);
    }
  }

  lemma StepLogsNoQuit(s: State, turn: Turn)
    requires WellFormed(s) && turn.w < NUM_WORKERS && NoQuit(s.log)
    ensures NoQuit(Step(s, turn).log)
  {
    hide SemId, Micro;
    assert WorkerOk(s.workers[turn.w], |s.log|);
  }

  /** What the shared memory holds is what was written last. */
  ghost predicate RemembersWrites(m: Memory<int>, log: seq<Msg>, rs: seq<Reply>)
    requires |log| == |rs|
  {
    exists v, s :: Represents(m, v, s) && forall key :: HoldsAt(s, LastWrite(log, rs, key), key)
  }

  /** In every run of requests to one locked section, whatever the interleaving: the requests have
      replies that keep the laws, and no others are sent; once all workers are done, the shared memory
      holds what was written last. */
  lemma {:induction false} RepliesAreLawful(s: State, turns: seq<Turn>, section: nat) returns (rs: seq<Reply>)
    requires WellFormed(s) && Initial(s) && section < NUM_SECTIONS
    requires Turns(turns) && MessagesIn(turns, section)
    ensures var r := Run(s, turns);
      && Lawful(r.log, rs)
      && forall t :: 0 <= t < |r.log| && r.replies[t].Some? ==> r.replies[t].value == rs[t]
    ensures var r := Run(s, turns);
      (forall w :: 0 <= w < NUM_WORKERS ==> r.workers[w].Idle? || r.workers[w].Stopped?) ==>
        (forall t :: 0 <= t < |r.log| ==> r.replies[t].Some?) && RemembersWrites(r.mem, r.log, rs)
  {
    hide Run, PlainAfter, LastWrite, LawfulAt, Valid, Initial;
    var r := Run(s, turns);
    rs := PlainReplies(r.log);
    RepliesAreSequential(s, turns, section);
    LogHasNoQuit(s, turns);
    forall t | 0 <= t < |r.log| ensures LawfulAt(r.log, rs, t) {
      NeverMoreThanFull(r.log[..t]);
      PlainIsLawfulAt(r.log, t);
    }
    forall key ensures HoldsAt(PlainAfter(r.log), LastWrite(r.log, rs, key), key) {
      PlainHoldsLastWrite(r.log, key);
    }
  }

  /** A worker's replies so far are those that rs has for its requests, which are in the log. */
  ghost predicate AnsweredFrom(log: seq<Msg>, rs: seq<Reply>, qs: seq<Msg>, ts: seq<nat>, sent: seq<Reply>)
    requires |log| == |rs|
  {
    && |sent| <= |ts| <= |qs| && (forall i :: 0 <= i < |ts| ==> ts[i] < |log| && log[ts[i]] == qs[i])
    && forall i :: 0 <= i < |sent| ==> sent[i] == rs[ts[i]]
  }

  /** So every reply that a worker sends to a request it has received is the one the laws require at
      the place of that request in the log, which has all requests in the order of their entry. */
  lemma RepliesSentAreLawful(s: State, turns: seq<Turn>, section: nat) returns (rs: seq<Reply>)
    requires WellFormed(s) && Initial(s) && section < NUM_SECTIONS
    requires Turns(turns) && MessagesIn(turns, section)
    ensures Lawful(Run(s, turns).log, rs) && EachApart(s, turns) && AllMade(s, turns)
    ensures forall w :: 0 <= w < NUM_WORKERS ==>
      AnsweredFrom(Run(s, turns).log, rs, Received(s, turns, w), Entered(s, turns, w), Sent(s, turns, w))
  {
    hide Run, Received, Entered, Sent, LawfulAt, EachApart, AllMade, OneAtATime, RemembersWrites;
    rs := RepliesAreLawful(s, turns, section);
    LogIsOfRequests(s, turns);
    forall w | 0 <= w < NUM_WORKERS
      ensures AnsweredFrom(Run(s, turns).log, rs, Received(s, turns, w), Entered(s, turns, w), Sent(s, turns, w))
    {
      assert InStep(s, turns, w);
    }
  }
}
