/** The replies of the expiring table over whole histories, said in terms of the requests, the looks of
    the cleaner, and the replies alone. */
module ExpiryLaws {
  import opened Dictionary
  import opened TableSpec
  import opened Expiry

  /** What is stored for a key: what was last set, and when it was set or read since; nothing after a
      lookup in vain, a del, or a look of the cleaner at something dead. */
  function Rehold(t: Touch, e: Event, r: Reply, key: int): Touch {
    if e.key != key then t
    else match e
      case SetEvent(_, ttl, value, now) => if r == Done then Touched(value, ttl, now) else t
      case GetEvent(_, _, later) => if r.Value? && t.Touched? then t.(time := later) else Never
      case DelEvent(_, _) => Never
      case SweepEvent(_, now) => if t.Touched? && now - t.time > t.ttl then Never else t
  }

  /** One reply for each event; the cleaner's counts for nothing. */
  function Held(es: seq<Event>, rs: seq<Reply>, key: int): Touch
    requires |es| == |rs|
  {
    if es == [] then Never else
      var n := |es| - 1;
      Rehold(Held(es[..n], rs[..n], key), es[n], rs[n], key)
  }

  ghost function HeldKeys(es: seq<Event>, rs: seq<Reply>): set<int>
    requires |es| == |rs|
  {
    set i | 0 <= i < |es| && Held(es, rs, es[i].key).Touched? :: es[i].key
  }

  /** The time to live has not passed since the entry was set or read. */
  predicate Live(t: Touch, now: int) {
    t.Touched? && now - t.time <= t.ttl
  }

  /** A set is refused only if its key is not stored and 2048 others are. A lookup and a del say
      whether nothing is stored or something dead. */
  ghost predicate LawfulAt(es: seq<Event>, rs: seq<Reply>, t: nat)
    requires t < |es| == |rs|
  {
    var held := Held(es[..t], rs[..t], es[t].key);
    match es[t]
    case SetEvent(_, _, _, _) =>
      rs[t] == if held.Never? && |HeldKeys(es[..t], rs[..t])| == 2048 then NoMemory else Done
    case GetEvent(_, now, _) =>
      rs[t] == if held.Never? then NoKey else if Live(held, now) then Value(held.value) else NotExists
    case DelEvent(_, now) =>
      rs[t] == if held.Never? then NoKey else if Live(held, now) then Done else NotExists
    case SweepEvent(_, _) => true
  }

  ghost predicate Lawful(es: seq<Event>, rs: seq<Reply>) {
    |es| == |rs| && forall t :: 0 <= t < |es| ==> LawfulAt(es, rs, t)
  }

  /** The replies to requests. */
  function Heard(es: seq<Event>, rs: seq<Reply>): seq<Reply>
    requires |es| == |rs|
  {
    if es == [] then [] else
      var n := |es| - 1;
      Heard(es[..n], rs[..n]) + (if es[n].SweepEvent? then [] else [rs[n]])
  }

  // ----- A map whose entries expire keeps the laws -----

  lemma {:induction false} RepliesBefore(es: seq<Event>, n: nat)
    requires n <= |es|
    ensures |Replies(map[], es)| == |es| && |Replies(map[], es[..n])| == n
    ensures Replies(map[], es)[..n] == Replies(map[], es[..n])
    decreases |es|
  {
    hide LastReply;
    if n < |es| {
      RepliesBefore(es[..|es| - 1], n);
      assert es[..|es| - 1][..n] == es[..n];
    } else {
      assert es[..n] == es;
      OneReplyEach(es);
    }
  }

  lemma {:induction false} OneReplyEach(es: seq<Event>)
    ensures |Replies(map[], es)| == |es|
    ensures forall t :: 0 <= t < |es| ==> Replies(map[], es)[t] == Step(Fold(map[], es[..t]), es[t]).1
    decreases |es|
  {
    hide Step, Fold;
    if es != [] {
      var n := |es| - 1;
      OneReplyEach(es[..n]);
      forall t | 0 <= t < |es| ensures Replies(map[], es)[t] == Step(Fold(map[], es[..t]), es[t]).1 {
        if t < n {
          assert es[..n][..t] == es[..t];
        }
      }
    }
  }

  /** An entry is what is held for its key, and dies when its time to live has passed. */
  ghost predicate StoresHeld(s: Store, t: Touch, key: int) {
    (key in s <==> t.Touched?) && (key in s ==> s[key] == Entry(t.value, t.ttl, t.time + t.ttl))
  }

  lemma StepStoresHeld(s: Store, t: Touch, e: Event, key: int)
    requires StoresHeld(s, t, key)
    ensures StoresHeld(Step(s, e).0, Rehold(t, e, Step(s, e).1, key), key)
  {
  }

  lemma {:induction false} FoldStoresHeld(es: seq<Event>, key: int)
    ensures |Replies(map[], es)| == |es|
    ensures StoresHeld(Fold(map[], es), Held(es, Replies(map[], es), key), key)
    decreases |es|
  {
    hide Step, Rehold;
    OneReplyEach(es);
    if es != [] {
      var n := |es| - 1;
      FoldStoresHeld(es[..n], key);
      RepliesBefore(es, n);
      StepStoresHeld(Fold(map[], es[..n]), Held(es[..n], Replies(map[], es[..n]), key), es[n], key);
    }
  }

  lemma {:induction false} OnlyNamedKeys(es: seq<Event>, rs: seq<Reply>, key: int)
    requires |es| == |rs| && Held(es, rs, key).Touched?
    ensures exists i :: 0 <= i < |es| && es[i].key == key
    decreases |es|
  {
    var n := |es| - 1;
    if es[n].key != key {
      OnlyNamedKeys(es[..n], rs[..n], key);
      var i :| 0 <= i < n && es[..n][i].key == key;
      assert es[i].key == key;
    }
  }

  lemma FoldStoresHeldKeys(es: seq<Event>)
    ensures |Replies(map[], es)| == |es| && Fold(map[], es).Keys == HeldKeys(es, Replies(map[], es))
  {
    hide Fold, Replies, Held;
    FoldStoresHeld(es, 0);
    var s, rs := Fold(map[], es), Replies(map[], es);
    forall key ensures key in s <==> key in HeldKeys(es, rs) {
      FoldStoresHeld(es, key);
      if key in s {
        OnlyNamedKeys(es, rs, key);
      }
    }
  }

  lemma StepNeverOverfills(s: Store, e: Event)
    requires |s| <= 2048
    ensures |Step(s, e).0| <= 2048
  {
    SizeAfterRemoval(s, e.key);
    match e
    case SetEvent(key, ttl, value, now) => SizeAfterUpdate(s, key, Entry(value, ttl, now + ttl));
    case GetEvent(key, _, later) =>
      if key in s {
        SizeAfterUpdate(s, key, s[key].(death := later + s[key].ttl));
      }
    case _ =>
  }

  lemma {:induction false} NeverMoreThanFull(es: seq<Event>)
    ensures |Fold(map[], es)| <= 2048
    decreases |es|
  {
    hide Step;
    if es != [] {
      NeverMoreThanFull(es[..|es| - 1]);
      StepNeverOverfills(Fold(map[], es[..|es| - 1]), es[|es| - 1]);
    }
  }

  lemma StepIsLawful(s: Store, e: Event, held: Touch)
    requires StoresHeld(s, held, e.key) && |s| <= 2048
    ensures var r := Step(s, e).1;
      match e
      case SetEvent(_, _, _, _) => r == if held.Never? && |s.Keys| == 2048 then NoMemory else Done
      case GetEvent(_, now, _) =>
        r == if held.Never? then NoKey else if Live(held, now) then Value(held.value) else NotExists
      case DelEvent(_, now) => r == if held.Never? then NoKey else if Live(held, now) then Done else NotExists
      case SweepEvent(_, _) => true
  {
    assert |s| == |s.Keys|;
  }

  /** Over every history, whether or not its clock is right: the replies keep the laws. */
  lemma {:induction false} RepliesAreLawful(es: seq<Event>)
    ensures Lawful(es, Replies(map[], es))
  {
    hide Fold, Replies, Held, HeldKeys, Step;
    var rs := Replies(map[], es);
    OneReplyEach(es);
    forall t | 0 <= t < |es| ensures LawfulAt(es, rs, t) {
      RepliesBefore(es, t);
      FoldStoresHeld(es[..t], es[t].key);
      FoldStoresHeldKeys(es[..t]);
      NeverMoreThanFull(es[..t]);
      StepIsLawful(Fold(map[], es[..t]), es[t], Held(es[..t], rs[..t], es[t].key));
    }
  }

  /** The laws leave no choice: two lists of replies agree on all requests. */
  lemma {:induction false} LawfulIsUnique(es: seq<Event>, rs: seq<Reply>, rs': seq<Reply>)
    requires Lawful(es, rs) && Lawful(es, rs')
    ensures Heard(es, rs) == Heard(es, rs') && forall key :: Held(es, rs, key) == Held(es, rs', key)
    decreases |es|
  {
    hide Rehold, HeldKeys;
    if es != [] {
      var n := |es| - 1;
      LawfulBefore(es, rs, n);
      LawfulBefore(es, rs', n);
      LawfulIsUnique(es[..n], rs[..n], rs'[..n]);
      SameHeldKeys(es[..n], rs[..n], rs'[..n]);
      assert LawfulAt(es, rs, n) && LawfulAt(es, rs', n);
      forall key ensures Held(es, rs, key) == Held(es, rs', key) {
        SameSweep(Held(es[..n], rs[..n], key), es[n], rs[n], rs'[n], key);
      }
    }
  }

  lemma SameSweep(t: Touch, e: Event, r: Reply, r': Reply, key: int)
    requires r == r' || e.SweepEvent?
    ensures Rehold(t, e, r, key) == Rehold(t, e, r', key)
  {
  }

  lemma SameHeldKeys(es: seq<Event>, rs: seq<Reply>, rs': seq<Reply>)
    requires |es| == |rs| == |rs'| && forall key :: Held(es, rs, key) == Held(es, rs', key)
    ensures HeldKeys(es, rs) == HeldKeys(es, rs')
  {
    hide Held;
  }

  lemma LawfulBefore(es: seq<Event>, rs: seq<Reply>, n: nat)
    requires Lawful(es, rs) && n <= |es|
    ensures Lawful(es[..n], rs[..n])
  {
    hide Held, HeldKeys;
    forall t | 0 <= t < n ensures LawfulAt(es[..n], rs[..n], t) {
      assert LawfulAt(es, rs, t);
      assert es[..n][..t] == es[..t] && rs[..n][..t] == rs[..t];
    }
  }

  /** Over a clocked history a del is answered Done exactly if, sweeps unseen, the key was last touched
      within its time to live. */
  lemma {:induction false} DelReportsLive(es: seq<Event>, key: int, now: int)
    requires Clocked(es + [DelEvent(key, now)])
    ensures LastReply(map[], es + [DelEvent(key, now)]) == Done <==> Live(LastTouch(es, key), now)
  {
    hide Fold, LastTouch;
    var all := es + [DelEvent(key, now)];
    assert all[..|es|] == es;
    forall i | 0 <= i < |es| ensures es[i].now <= es[i].End() <= now {
      assert all[i] == es[i] && all[|es|].now == now;
    }
    assert forall i, j :: 0 <= i < j < |es| ==> all[i] == es[i] && all[j] == es[j];
    StoreTracksTouch(es, key, now);
  }
}
