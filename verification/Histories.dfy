/** Requests and passes of the cleaner, mixed: the replies of the table itself. */
module Histories {
  import opened Arena
  import opened TableSpec
  import opened ExpiringTable
  import opened Expiry
  import opened ExpiryLaws
  import opened Serving
  import opened Cleaning

  /** A request, or a pass over bucket h that reads the clock from time start to time end. */
  datatype Action =
    | Request(q: Event)
    | Sweep(h: nat, clock: nat -> int, start: int, end: int)
  {
    ghost predicate Proper() {
      match this
      case Request(q) => !q.SweepEvent? && q.now <= q.End()
      case Sweep(h, clock, start, end) =>
        && h < HASH_TABLE_SIZE && start <= end
        && (forall i :: start <= clock(i) <= end) && (forall i, j :: i < j ==> clock(i) <= clock(j))
    }

    function Begins(): int {
      if Request? then q.now else start
    }

    function Ends(): int {
      if Request? then q.End() else end
    }
  }

  /** The clock does not run backwards. */
  ghost predicate InTime(acts: seq<Action>) {
    && (forall i :: 0 <= i < |acts| ==> acts[i].Proper())
    && (forall i, j :: 0 <= i < j < |acts| ==> acts[i].Ends() <= acts[j].Begins())
  }

  function Requests(acts: seq<Action>): seq<Event> {
    if acts == [] then [] else
      var a := acts[|acts| - 1];
      Requests(acts[..|acts| - 1]) + (if a.Request? then [a.q] else [])
  }

  /** The requests among some events. */
  function Asked(es: seq<Event>): seq<Event> {
    if es == [] then [] else
      var e := es[|es| - 1];
      Asked(es[..|es| - 1]) + (if e.SweepEvent? then [] else [e])
  }

  /** The replies to those requests. */
  function Answers(s: Store, es: seq<Event>): seq<Reply> {
    if es == [] then [] else
      Answers(s, es[..|es| - 1]) + (if es[|es| - 1].SweepEvent? then [] else [LastReply(s, es)])
  }

  /** What an action comes to, for a client of a table with these keys: the request itself, or one look
      at each of the bucket's keys. */
  ghost predicate Played(keys: set<int>, a: Action, fs: seq<Event>) {
    match a
    case Request(q) => fs == [q]
    case Sweep(h, clock, _, _) => h < HASH_TABLE_SIZE && Looks(keys, h, clock, fs)
  }

  function Flat(parts: seq<seq<Event>>): seq<Event> {
    if parts == [] then [] else Flat(parts[..|parts| - 1]) + parts[|parts| - 1]
  }

  /** One part of the history for each action, beginning with what the parts before have left. */
  ghost predicate Plays(before: Store, acts: seq<Action>, parts: seq<seq<Event>>) {
    && |parts| == |acts|
    && forall k :: 0 <= k < |acts| ==> Played(Fold(before, Flat(parts[..k])).Keys, acts[k], parts[k])
  }

  lemma PlaysOn(before: Store, acts: seq<Action>, parts: seq<seq<Event>>, a: Action, fs: seq<Event>)
    requires Plays(before, acts, parts) && Played(Fold(before, Flat(parts)).Keys, a, fs)
    ensures Plays(before, acts + [a], parts + [fs]) && Flat(parts + [fs]) == Flat(parts) + fs
  {
    hide Played, Fold;
    var more := parts + [fs];
    assert more[..|parts|] == parts;
    forall k | 0 <= k < |parts| ensures Played(Fold(before, Flat(more[..k])).Keys, acts[k], more[k]) {
      assert more[..k] == parts[..k];
    }
  }

  lemma {:induction false} FlatStarts(parts: seq<seq<Event>>, k: nat)
    requires k <= |parts|
    ensures Flat(parts[..k]) <= Flat(parts)
    decreases |parts|
  {
    if k == |parts| {
      assert parts[..k] == parts;
    } else {
      var n := |parts| - 1;
      FlatStarts(parts[..n], k);
      assert parts[..n][..k] == parts[..k];
    }
  }

  /** The same for the keys that are stored going by the replies all to the events before. */
  ghost predicate PlaysHeld(acts: seq<Action>, parts: seq<seq<Event>>, all: seq<Reply>) {
    && |parts| == |acts| && |all| == |Flat(parts)|
    && forall k :: 0 <= k < |acts| ==> PlayedHeld(acts[k], parts, all, k)
  }

  ghost predicate PlayedHeld(a: Action, parts: seq<seq<Event>>, all: seq<Reply>, k: nat)
    requires k < |parts| && |all| == |Flat(parts)|
  {
    var es := Flat(parts[..k]);
    |es| <= |all| && Played(HeldKeys(es, all[..|es|]), a, parts[k])
  }

  lemma PlaysByHeldKeys(acts: seq<Action>, parts: seq<seq<Event>>)
    requires Plays(map[], acts, parts)
    ensures PlaysHeld(acts, parts, Replies(map[], Flat(parts)))
  {
    hide Fold, Replies, HeldKeys, Played;
    var es, all := Flat(parts), Replies(map[], Flat(parts));
    OneReplyEach(es);
    forall k | 0 <= k < |acts| ensures PlayedHeld(acts[k], parts, all, k) {
      FlatStarts(parts, k);
      var before := Flat(parts[..k]);
      assert before == es[..|before|];
      RepliesBefore(es, |before|);
      FoldStoresHeldKeys(before);
      assert Played(Fold(map[], before).Keys, acts[k], parts[k]);
    }
  }

  /** When a key was last set or read, by the requests and the replies to them alone. */
  function TouchSeen(qs: seq<Event>, rs: seq<Reply>, key: int): Touch
    requires |qs| == |rs|
  {
    if qs == [] then Never else
      var n := |qs| - 1;
      Retouch(TouchSeen(qs[..n], rs[..n], key), qs[n], rs[n], key)
  }

  /** For that nothing needs to be known about sweeps. */
  lemma {:induction false} TouchIsSeen(es: seq<Event>, key: int)
    ensures |Asked(es)| == |Answers(map[], es)|
    ensures LastTouch(es, key) == TouchSeen(Asked(es), Answers(map[], es), key)
  {
    hide LastReply;
    if es != [] {
      var n := |es| - 1;
      TouchIsSeen(es[..n], key);
      var qs, rs := Asked(es[..n]), Answers(map[], es[..n]);
      if !es[n].SweepEvent? {
        assert Asked(es) == qs + [es[n]] && Answers(map[], es) == rs + [LastReply(map[], es)];
        assert Asked(es)[..|qs|] == qs && Answers(map[], es)[..|qs|] == rs;
      } else {
        assert Asked(es) == qs && Answers(map[], es) == rs;
      }
    }
  }

  lemma {:induction false} HeardIsAnswers(es: seq<Event>)
    ensures |Replies(map[], es)| == |es| && Heard(es, Replies(map[], es)) == Answers(map[], es)
    decreases |es|
  {
    hide LastReply;
    OneReplyEach(es);
    if es != [] {
      var n := |es| - 1;
      HeardIsAnswers(es[..n]);
      RepliesBefore(es, n);
    }
  }

  /** Some events that nobody asked for. */
  ghost predicate Sweeps(es: seq<Event>) {
    forall i :: 0 <= i < |es| ==> es[i].SweepEvent?
  }

  lemma {:induction false} FoldOn(s: Store, es: seq<Event>, fs: seq<Event>)
    ensures Fold(s, es + fs) == Fold(Fold(s, es), fs)
    decreases |fs|
  {
    hide Step;
    if fs == [] {
      assert es + fs == es;
    } else {
      assert (es + fs)[..|es + fs| - 1] == es + fs[..|fs| - 1];
      FoldOn(s, es, fs[..|fs| - 1]);
    }
  }

  lemma {:induction false} SweepsAreSilent(s: Store, es: seq<Event>, fs: seq<Event>)
    requires Sweeps(fs)
    ensures Asked(es + fs) == Asked(es) && Answers(s, es + fs) == Answers(s, es)
    decreases |fs|
  {
    hide LastReply;
    if fs == [] {
      assert es + fs == es;
    } else {
      assert (es + fs)[..|es + fs| - 1] == es + fs[..|fs| - 1];
      SweepsAreSilent(s, es, fs[..|fs| - 1]);
    }
  }

  /** The history goes on with some events from time start on. */
  lemma ClockedOn(es: seq<Event>, fs: seq<Event>, start: int)
    requires Clocked(es) && Clocked(fs)
    requires forall i :: 0 <= i < |es| ==> es[i].End() <= start
    requires forall i :: 0 <= i < |fs| ==> start <= fs[i].now
    ensures Clocked(es + fs)
  {
  }

  /** The action a begins when all of acts are over. */
  ghost predicate Follows(a: Action, acts: seq<Action>) {
    acts != [] ==> acts[|acts| - 1].Ends() <= a.Begins()
  }

  /** The events es are a history of the actions in which the replies are rs. */
  ghost predicate Seen(before: Store, acts: seq<Action>, es: seq<Event>, rs: seq<Reply>) {
    && Clocked(es) && Asked(es) == Requests(acts) && rs == Answers(before, es)
    && forall i :: 0 <= i < |es| ==> acts != [] && es[i].End() <= acts[|acts| - 1].Ends()
  }

  lemma RequestIsSeen(before: Store, acts: seq<Action>, es: seq<Event>, rs: seq<Reply>, q: Event)
    requires Seen(before, acts, es, rs) && Request(q).Proper() && Follows(Request(q), acts)
    ensures Seen(before, acts + [Request(q)], es + [q], rs + [Step(Fold(before, es), q).1])
  {
    hide Step, Fold, Clocked, Asked, Answers, Requests;
    AskedOnce(before, acts, es, q);
    ClockedOn(es, [q], q.now);
  }

  lemma AskedOnce(before: Store, acts: seq<Action>, es: seq<Event>, q: Event)
    requires !q.SweepEvent?
    ensures Asked(es + [q]) == Asked(es) + [q] && Requests(acts + [Request(q)]) == Requests(acts) + [q]
    ensures Answers(before, es + [q]) == Answers(before, es) + [Step(Fold(before, es), q).1]
  {
    hide Step, Fold;
    assert (es + [q])[..|es|] == es && (acts + [Request(q)])[..|acts|] == acts;
  }

  lemma {:induction false} SweepIsSeen(before: Store, acts: seq<Action>, es: seq<Event>, rs: seq<Reply>,
                                       a: Action, fs: seq<Event>)
    requires Seen(before, acts, es, rs) && a.Sweep? && a.Proper() && Follows(a, acts)
    requires Played(Fold(before, es).Keys, a, fs)
    ensures Seen(before, acts + [a], es + fs, rs)
  {
    hide Answers, Asked, Fold, GetHash;
    assert (acts + [a])[..|acts|] == acts;
    ClockedOn(es, fs, a.start);
    SweepsAreSilent(before, es, fs);
  }

  lemma InTimeStart(acts: seq<Action>, k: nat)
    requires InTime(acts) && k < |acts|
    ensures acts[k].Proper() && Follows(acts[k], acts[..k])
  {
  }

  /** Requests and sweeps, in any order: the table goes through one history, in which each request
      stands for itself and each sweep for one look at every stored key of its bucket, and the replies
      are those that a map with expiry gives to the requests. */
  method ServeAll(t: HashTable, acts: seq<Action>) returns (rs: seq<Reply>, ghost parts: seq<seq<Event>>)
    requires t.Valid() && InTime(acts)
    modifies t`view, t.table, t.data
    ensures t.Valid() && t.Contents() == Fold(old(t.Contents()), Flat(parts))
    ensures Plays(old(t.Contents()), acts, parts)
    ensures Seen(old(t.Contents()), acts, Flat(parts), rs)
  {
    hide InTime, Seen, Fold, Step, SweptBetween, Plays, Looks;
    ghost var before := t.Contents();
    rs, parts := [], [];
    NothingSeen(before);
    for k := 0 to |acts|
      invariant t.Valid() && t.Contents() == Fold(before, Flat(parts))
      invariant Plays(before, acts[..k], parts)
      invariant Seen(before, acts[..k], Flat(parts), rs)
    {
      InTimeStart(acts, k);
      assert acts[..k + 1] == acts[..k] + [acts[k]];
      ghost var es := Flat(parts);
      match acts[k]
      case Request(q) =>
        RequestIsSeen(before, acts[..k], es, rs, q);
        FoldOne(before, es, q);
        PlaysOn(before, acts[..k], parts, acts[k], [q]);
        var r := Execute(t, q);
        rs, parts := rs + [r], parts + [[q]];
      case Sweep(h, clock, start, last) =>
        ghost var fs := CleanBucket(t, h, clock, start, last);
        SweepIsSeen(before, acts[..k], es, rs, acts[k], fs);
        FoldOn(before, es, fs);
        PlaysOn(before, acts[..k], parts, acts[k], fs);
        parts := parts + [fs];
    }
    assert acts[..|acts|] == acts;
  }

  lemma FoldOne(s: Store, es: seq<Event>, q: Event)
    ensures Fold(s, es + [q]) == Step(Fold(s, es), q).0
  {
    assert (es + [q])[..|es|] == es;
  }

  lemma NothingSeen(before: Store)
    ensures Seen(before, [], [], []) && Plays(before, [], []) && Fold(before, []) == before
  {
  }

  /** On a table that has been empty: the replies to any requests, with any sweeps between them, keep
      the laws, where a sweep looks at each key that is stored by them; and what is stored in the end is
      what they say. */
  method ServeLawfully(t: HashTable, acts: seq<Action>)
    returns (rs: seq<Reply>, ghost parts: seq<seq<Event>>, ghost all: seq<Reply>)
    requires t.Valid() && t.Contents() == map[] && InTime(acts)
    modifies t`view, t.table, t.data
    ensures t.Valid() && Clocked(Flat(parts)) && Lawful(Flat(parts), all)
    ensures Asked(Flat(parts)) == Requests(acts) && Heard(Flat(parts), all) == rs
    ensures PlaysHeld(acts, parts, all)
    ensures forall key :: StoresHeld(t.Contents(), Held(Flat(parts), all, key), key)
  {
    hide Fold, Plays, Held, Lawful, StoresHeld, Clocked, PlaysHeld;
    rs, parts := ServeAll(t, acts);
    ghost var es := Flat(parts);
    all := Replies(map[], es);
    RepliesAreLawful(es);
    HeardIsAnswers(es);
    PlaysByHeldKeys(acts, parts);
    forall key ensures StoresHeld(t.Contents(), Held(es, all, key), key) {
      FoldStoresHeld(es, key);
    }
  }

  /** One more request after those: its reply, and what is known about the last touch of each key from
      the requests and replies before it. */
  method AskAfter(t: HashTable, acts: seq<Action>, q: Event)
    returns (rs: seq<Reply>, r: Reply, ghost parts: seq<seq<Event>>)
    requires t.Valid() && t.Contents() == map[] && InTime(acts + [Request(q)])
    modifies t`view, t.table, t.data
    ensures t.Valid() && Plays(map[], acts, parts) && Seen(map[], acts, Flat(parts), rs)
    ensures |rs| == |Requests(acts)|
    ensures Clocked(Flat(parts) + [q]) && r == LastReply(map[], Flat(parts) + [q])
    ensures LastTouch(Flat(parts), q.key) == TouchSeen(Requests(acts), rs, q.key)
  {
    hide Fold, LastReply, Step, LastTouch, TouchSeen, Plays;
    InTimePrefix(acts, Request(q));
    rs, parts := ServeAll(t, acts);
    ghost var es := Flat(parts);
    r := Execute(t, q);
    assert r == LastReply(map[], es + [q]) by { LastReplyIs(es, q); }
    TouchIsSeen(es, q.key);
    ClockedOn(es, [q], q.now);
  }

  /** On a table that has been empty, after any requests and sweeps: a lookup returns a value exactly
      if, going by the requests and the replies to them, it is the value last set, and no older than
      its time to live since it was last set or read. */
  method GetAfter(t: HashTable, acts: seq<Action>, key: int, now: int, later: int)
    returns (rs: seq<Reply>, r: Reply, ghost parts: seq<seq<Event>>)
    requires t.Valid() && t.Contents() == map[] && InTime(acts + [Request(GetEvent(key, now, later))])
    modifies t`view, t.table, t.data
    ensures t.Valid() && Plays(map[], acts, parts) && Seen(map[], acts, Flat(parts), rs)
    ensures |rs| == |Requests(acts)|
    ensures
      var touch := TouchSeen(Requests(acts), rs, key);
      forall value :: r == Value(value) <==>
        touch.Touched? && touch.value == value && now - touch.time <= touch.ttl
  {
    hide Fold, LastReply, Step, LastTouch, TouchSeen, Plays, Seen;
    rs, r, parts := AskAfter(t, acts, GetEvent(key, now, later));
    ghost var touch := LastTouch(Flat(parts), key);
    forall value ensures r == Value(value) <==>
      touch.Touched? && touch.value == value && now - touch.time <= touch.ttl
    {
      GetReturnsLiveValue(Flat(parts), key, now, later, value);
    }
  }

  /** And a del is answered Done exactly if, going by them, there is a value no older than that. */
  method DelAfter(t: HashTable, acts: seq<Action>, key: int, now: int)
    returns (rs: seq<Reply>, r: Reply, ghost parts: seq<seq<Event>>)
    requires t.Valid() && t.Contents() == map[] && InTime(acts + [Request(DelEvent(key, now))])
    modifies t`view, t.table, t.data
    ensures t.Valid() && Plays(map[], acts, parts) && Seen(map[], acts, Flat(parts), rs)
    ensures |rs| == |Requests(acts)|
    ensures r == Done <==> Live(TouchSeen(Requests(acts), rs, key), now)
  {
    hide Fold, LastReply, Step, LastTouch, TouchSeen, Plays, Seen;
    rs, r, parts := AskAfter(t, acts, DelEvent(key, now));
    DelReportsLive(Flat(parts), key, now);
  }

  lemma InTimePrefix(acts: seq<Action>, a: Action)
    requires InTime(acts + [a])
    ensures InTime(acts) && a.Proper() && Follows(a, acts)
  {
    var all := acts + [a];
    assert forall i :: 0 <= i < |acts| ==> all[i] == acts[i];
    assert all[|acts|] == a;
  }

  lemma LastReplyIs(es: seq<Event>, q: Event)
    ensures LastReply(map[], es + [q]) == Step(Fold(map[], es), q).1
  {
    assert (es + [q])[..|es|] == es;
  }
}
