/** The request loop of a worker, and what the cleaner's sweep of a bucket means for a client. */
module Serving {
  import opened Arena
  import opened Dictionary
  import opened TableSpec
  import opened ExpiringTable
  import opened Expiry

  method Execute(t: HashTable, q: Event) returns (r: Reply)
    requires t.Valid() && !q.SweepEvent?
    modifies t`view, t.table, t.data
    ensures t.Valid() && (t.Contents(), r) == Step(old(t.Contents()), q)
  {
    match q
    case SetEvent(key, ttl, value, now) => r := t.Set(key, ttl, value, now);
    case GetEvent(key, now, later) => r := t.Get(key, now, later);
    case DelEvent(key, now) => r := t.Del(key, now);
  }

  method Serve(t: HashTable, qs: seq<Event>) returns (rs: seq<Reply>)
    requires t.Valid() && forall i :: 0 <= i < |qs| ==> !qs[i].SweepEvent?
    modifies t`view, t.table, t.data
    ensures t.Valid() && t.Contents() == Fold(old(t.Contents()), qs)
    ensures rs == Replies(old(t.Contents()), qs)
  {
    rs := [];
    for i := 0 to |qs|
      invariant t.Valid() && t.Contents() == Fold(old(t.Contents()), qs[..i])
      invariant rs == Replies(old(t.Contents()), qs[..i])
    {
      assert qs[..i + 1][..i] == qs[..i];
      var r := Execute(t, qs[i]);
      rs := rs + [r];
    }
    assert qs[..|qs|] == qs;
  }

  /** One look of the cleaner for each node of a bucket. */
  ghost function SweepEvents(m: Memory<Entry>, s: seq<int>, clock: nat -> int): seq<Event> {
    seq(|s|, i requires 0 <= i < |s| => SweepEvent(if 0 <= s[i] < |m.data| then m.data[s[i]].key else 0, clock(i)))
  }

  /** The nodes s hold distinct keys, and the store says what they hold. */
  ghost predicate Holds(m: Memory<Entry>, s: seq<int>, store: Store) {
    && (forall i :: 0 <= i < |s| ==>
          && 0 <= s[i] < |m.data|
          && m.data[s[i]].key in store && store[m.data[s[i]].key] == m.data[s[i]].body)
    && forall i, j :: 0 <= i < j < |s| ==> m.data[s[i]].key != m.data[s[j]].key
  }

  lemma BucketHolds(m: Memory<Entry>, v: View, h: nat)
    requires Dictionary.Valid(m, v) && h < HASH_TABLE_SIZE
    ensures Holds(m, v.layout.chains[h], Dictionary.Contents(m, v))
  {
    var s := v.layout.chains[h];
    assert Members(s, v.layout.home, h);
    forall i | 0 <= i < |s|
      ensures 0 <= s[i] < BUFFER_SIZE && m.data[s[i]].key in v.at && v.at[m.data[s[i]].key] == s[i]
    {
      assert s[i] in s;
    }
  }

  lemma SweptKeysAreVisited(m: Memory<Entry>, s: seq<int>, clock: nat -> int, key: int)
    requires forall i :: 0 <= i < |s| ==> 0 <= s[i] < |m.data| && m.data[s[i]].key != key
    ensures key !in KeysOf(m, Swept(m, s, clock))
  {
    if s != [] {
      SweepStep(m, s, clock, |s| - 1);
      assert s[..|s| - 1 + 1] == s;
      SweptKeysAreVisited(m, s[..|s| - 1], clock, key);
    }
  }

  lemma EvictOne(before: Store, gone: set<int>, key: int, now: int)
    requires key in before && key !in gone
    ensures Step(before - gone, SweepEvent(key, now)).0
         == before - ((if Expired(before[key], now) then {key} else {}) + gone)
  {
  }

  lemma NothingSwept(m: Memory<Entry>, clock: nat -> int)
    ensures KeysOf(m, Swept(m, [], clock)) == {}
  {
  }

  /** Sweeping a bucket evicts what looking at its keys one by one, in chain order, would evict. */
  lemma {:induction false} SweepIsEvents(m: Memory<Entry>, s: seq<int>, store: Store, clock: nat -> int)
    requires Holds(m, s, store)
    ensures Fold(store, SweepEvents(m, s, clock)) == store - KeysOf(m, Swept(m, s, clock))
  {
    hide Step, KeysOf, Swept;
    if s == [] {
      NothingSwept(m, clock);
    } else {
      var i := |s| - 1;
      var t, key := s[..i], m.data[s[i]].key;
      SweepIsEvents(m, t, store, clock);
      SweptKeysAreVisited(m, t, clock, key);
      assert s[..i + 1] == s;
      SweepStep(m, s, clock, i);
      assert SweepEvents(m, s, clock)[..i] == SweepEvents(m, t, clock);
      EvictOne(store, KeysOf(m, Swept(m, t, clock)), key, clock(i));
    }
  }
}
