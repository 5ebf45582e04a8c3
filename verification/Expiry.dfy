/** Whole histories of the expiring table: what a client may conclude from the replies alone. */
module Expiry {
  import opened TableSpec

  /** A request, or the cleaner looking at the node of one key. */
  datatype Event =
    | SetEvent(key: int, ttl: int, value: int, now: int)
    | GetEvent(key: int, now: int, later: int)
    | DelEvent(key: int, now: int)
    | SweepEvent(key: int, now: int)
  {
    function End(): int {
      if GetEvent? then later else now
    }
  }

  /** The cleaner says nothing to a client; its reply is Done. */
  function Step(s: Store, e: Event): (Store, Reply) {
    match e
    case SetEvent(key, ttl, value, now) => TableSpec.Set(s, key, ttl, value, now)
    case GetEvent(key, now, later) => TableSpec.Get(s, key, now, later)
    case DelEvent(key, now) => TableSpec.Del(s, key, now)
    case SweepEvent(key, now) => (if key in s && Expired(s[key], now) then s - {key} else s, Done)
  }

  /** What a store has become after some events. */
  function Fold(s: Store, es: seq<Event>): Store {
    if es == [] then s else Step(Fold(s, es[..|es| - 1]), es[|es| - 1]).0
  }

  /** The reply to the last of some events. */
  function LastReply(s: Store, es: seq<Event>): Reply
    requires es != []
  {
    Step(Fold(s, es[..|es| - 1]), es[|es| - 1]).1
  }

  function Replies(s: Store, es: seq<Event>): seq<Reply> {
    if es == [] then [] else Replies(s, es[..|es| - 1]) + [LastReply(s, es)]
  }

  /** The clock never runs backwards. */
  ghost predicate Clocked(es: seq<Event>) {
    && (forall i :: 0 <= i < |es| ==> es[i].now <= es[i].End())
    && (forall i, j :: 0 <= i < j < |es| ==> es[i].End() <= es[j].now)
  }

  /** When a key was last set or successfully read, and with what value and time to live. */
  datatype Touch = Never | Touched(value: int, ttl: int, time: int)

  /** Read off the requests on this key and their replies. Evictions are not looked at:
      neither sweeps nor lookups that came too late. */
  function Retouch(t: Touch, e: Event, r: Reply, key: int): Touch {
    if e.key != key then t
    else match e
      case SetEvent(_, ttl, value, now) => if r == Done then Touched(value, ttl, now) else t
      case GetEvent(_, _, later) => if r.Value? && t.Touched? then t.(time := later) else t
      case DelEvent(_, _) => Never
      case SweepEvent(_, _) => t
  }

  function LastTouch(es: seq<Event>, key: int): Touch {
    if es == [] then Never
    else Retouch(LastTouch(es[..|es| - 1], key), es[|es| - 1], LastReply(map[], es), key)
  }

  /** What is stored for a key is its last touch; what was touched and is stored no more is dead. */
  ghost predicate Tracks(s: Store, t: Touch, key: int, now: int) {
    if key in s then t.Touched? && s[key] == Entry(t.value, t.ttl, t.time + t.ttl)
    else t.Touched? ==> t.time + t.ttl < now
  }

  lemma StepTracks(s: Store, t: Touch, e: Event, key: int)
    requires Tracks(s, t, key, e.now) && e.now <= e.End()
    ensures Tracks(Step(s, e).0, Retouch(t, e, Step(s, e).1, key), key, e.End())
  {
    var s', r := Step(s, e).0, Step(s, e).1;
    if e.key != key {
      assert key in s' <==> key in s;
      assert key in s ==> s'[key] == s[key];
    } else {
      match e
      case SetEvent(_, ttl, value, now) =>
        assert r == Done ==> s'[key] == Entry(value, ttl, now + ttl);
      case GetEvent(_, now, later) =>
      case DelEvent(_, _) =>
      case SweepEvent(_, _) =>
    }
  }

  lemma {:induction false} StoreTracksTouch(es: seq<Event>, key: int, end: int)
    requires Clocked(es) && forall i :: 0 <= i < |es| ==> es[i].End() <= end
    ensures Tracks(Fold(map[], es), LastTouch(es, key), key, end)
  {
    if es != [] {
      var n := |es| - 1;
      StoreTracksTouch(es[..n], key, es[n].now);
      StepTracks(Fold(map[], es[..n]), LastTouch(es[..n], key), es[n], key);
    }
  }

  /** A lookup returns a value exactly if it is the value last set and no more than its time to
      live has passed since it was last set or read, whatever was swept in the meantime. */
  lemma {:induction false} GetReturnsLiveValue(es: seq<Event>, key: int, now: int, later: int, value: int)
    requires Clocked(es + [GetEvent(key, now, later)])
    ensures
      var t := LastTouch(es, key);
      (LastReply(map[], es + [GetEvent(key, now, later)]) == Value(value))
      == (t.Touched? && t.value == value && now - t.time <= t.ttl)
  {
    var all := es + [GetEvent(key, now, later)];
    assert all[..|es|] == es;
    forall i | 0 <= i < |es|
      ensures es[i].now <= es[i].End() <= now
    {
      assert all[i] == es[i] && all[|es|].now == now;
    }
    assert forall i, j :: 0 <= i < j < |es| ==> all[i] == es[i] && all[j] == es[j];
    StoreTracksTouch(es, key, now);
  }
}
