/** The cleaner process: which entries a pass over the table evicts. */
module Cleaning {
  import opened Arena
  import opened Dictionary
  import opened TableSpec
  import opened ExpiringTable
  import opened Expiry
  import opened Serving

  const NUM_SECTIONS: nat := 8

  /** A pass over bucket h has changed the store s into s', reading times from lo to hi. */
  ghost predicate SweptBetween(s: Store, s': Store, h: int, lo: int, hi: int) {
    && (forall k :: k in s' ==> k in s && s'[k] == s[k])
    && (forall k :: k in s && k !in s' ==> GetHash(k) == h && Expired(s[k], hi))
    && (forall k :: k in s && GetHash(k) == h && Expired(s[k], lo) ==> k !in s')
  }

  lemma {:induction false} SweptWhen(m: Memory<Entry>, s: seq<int>, clock: nat -> int, lo: int, hi: int, n: int)
    requires forall i :: lo <= clock(i) <= hi
    ensures n in Swept(m, s, clock) ==> n in s && ExpiredNode(m, n, hi)
    ensures n in s && ExpiredNode(m, n, lo) ==> n in Swept(m, s, clock)
    decreases |s|
  {
    if s != [] {
      SweptWhen(m, s[..|s| - 1], clock, lo, hi, n);
      assert s == s[..|s| - 1] + [s[|s| - 1]];
      assert lo <= clock(|s| - 1) <= hi;
    }
  }

  lemma {:induction false} SweepIsBetween(m: Memory<Entry>, v: View, h: nat, clock: nat -> int, lo: int, hi: int)
    requires Dictionary.Valid(m, v) && h < HASH_TABLE_SIZE
    requires forall i :: lo <= clock(i) <= hi
    ensures var s := Dictionary.Contents(m, v);
      SweptBetween(s, s - KeysOf(m, Swept(m, v.layout.chains[h], clock)), h, lo, hi)
  {
    hide Swept, Chain, Members, KeysOf;
    var s, gone := Dictionary.Contents(m, v), KeysOf(m, Swept(m, v.layout.chains[h], clock));
    forall k | k in s
      ensures k in gone ==> GetHash(k) == h && Expired(s[k], hi)
      ensures GetHash(k) == h && Expired(s[k], lo) ==> k in gone
    {
      KeySwept(m, v, h, clock, lo, hi, k);
    }
  }

  lemma {:induction false} KeySwept(m: Memory<Entry>, v: View, h: nat, clock: nat -> int, lo: int, hi: int, k: int)
    requires Dictionary.Valid(m, v) && h < HASH_TABLE_SIZE && k in Dictionary.Contents(m, v)
    requires forall i :: lo <= clock(i) <= hi
    ensures var e, gone := Dictionary.Contents(m, v)[k], KeysOf(m, Swept(m, v.layout.chains[h], clock));
      && (k in gone ==> GetHash(k) == h && Expired(e, hi))
      && (GetHash(k) == h && Expired(e, lo) ==> k in gone)
  {
    hide Swept, Chain, NoDup;
    var chain, p := v.layout.chains[h], v.at[k];
    assert Members(chain, v.layout.home, h);
    SweptWhen(m, chain, clock, lo, hi, p);
    var swept := Swept(m, chain, clock);
    if k in KeysOf(m, swept) {
      var n :| n in swept && 0 <= n < |m.data| && m.data[n].key == k;
      SweptWhen(m, chain, clock, lo, hi, n);
      assert v.layout.home[n] == h;
    }
    assert p in v.layout.chains[v.layout.home[p]];
  }

  /** One look at each of the keys that belong into bucket h, at the times that the clock gives. */
  ghost predicate Looks(keys: set<int>, h: nat, clock: nat -> int, es: seq<Event>) {
    && (forall i :: 0 <= i < |es| ==>
          es[i] == SweepEvent(es[i].key, clock(i)) && es[i].key in keys && GetHash(es[i].key) == h)
    && (forall i, j :: 0 <= i < j < |es| ==> es[i].key != es[j].key)
    && (forall k :: k in keys && GetHash(k) == h ==> exists i :: 0 <= i < |es| && es[i].key == k)
  }

  lemma {:induction false} BucketLooks(m: Memory<Entry>, v: View, h: nat, clock: nat -> int)
    requires Dictionary.Valid(m, v) && h < HASH_TABLE_SIZE
    ensures Looks(Dictionary.Contents(m, v).Keys, h, clock, SweepEvents(m, v.layout.chains[h], clock))
  {
    hide Chain, NoDup, GetHash;
    var s, chain := Dictionary.Contents(m, v), v.layout.chains[h];
    var es := SweepEvents(m, chain, clock);
    BucketHolds(m, v, h);
    assert Members(chain, v.layout.home, h);
    forall i | 0 <= i < |es| ensures GetHash(es[i].key) == h {
      assert chain[i] in chain && v.layout.home[chain[i]] == h;
    }
    forall k | k in s && GetHash(k) == h ensures exists i :: 0 <= i < |es| && es[i].key == k {
      var p := v.at[k];
      assert p in v.layout.chains[v.layout.home[p]];
      var i :| 0 <= i < |chain| && chain[i] == p;
      assert es[i].key == k;
    }
  }

  /** One bucket: expired entries go, the others stay, and to a client it is as if its keys had
      been looked at one by one. */
  method CleanBucket(t: HashTable, h: nat, clock: nat -> int, ghost lo: int, ghost hi: int)
    returns (ghost es: seq<Event>)
    requires t.Valid() && h < HASH_TABLE_SIZE && forall i :: lo <= clock(i) <= hi
    modifies t`view, t.table, t.data
    ensures t.Valid() && SweptBetween(old(t.Contents()), t.Contents(), h, lo, hi)
    ensures t.Contents() == Fold(old(t.Contents()), es)
    ensures Looks(old(t.Contents()).Keys, h, clock, es)
  {
    hide Chain, Members, Fold, Holds, Swept, KeysOf, Looks;
    ghost var m, v := t.Mem(), t.view;
    ghost var chain := v.layout.chains[h];
    BucketHolds(m, v, h);
    SweepIsEvents(m, chain, t.Contents(), clock);
    SweepIsBetween(m, v, h, clock, lo, hi);
    BucketLooks(m, v, h, clock);
    es := SweepEvents(m, chain, clock);
    t.SweepBucket(h, clock);
    assert chain[..|chain|] == chain;
  }

  /** The same for all buckets below i. */
  ghost predicate CleanedBelow(s: Store, s': Store, i: int, lo: int, hi: int) {
    && (forall k :: k in s' ==> k in s && s'[k] == s[k])
    && (forall k :: k in s && k !in s' ==> GetHash(k) < i && Expired(s[k], hi))
    && (forall k :: k in s && GetHash(k) < i && Expired(s[k], lo) ==> k !in s')
  }

  lemma CleanOneMore(s: Store, s1: Store, s2: Store, i: nat, lo: int, hi: int)
    requires CleanedBelow(s, s1, i, lo, hi) && SweptBetween(s1, s2, i, lo, hi)
    ensures CleanedBelow(s, s2, i + 1, lo, hi)
  {
    hide GetHash;
  }

  /** All the passes of the cleaner. Its second counter never gets past the first section, so it
      evicts the expired entries of buckets 0 to 7, and none of the others. */
  method Clean(t: HashTable, clock: (nat, nat) -> int, ghost lo: int, ghost hi: int)
    requires t.Valid() && forall h, i :: lo <= clock(h, i) <= hi
    modifies t`view, t.table, t.data
    ensures t.Valid() && CleanedBelow(old(t.Contents()), t.Contents(), NUM_SECTIONS, lo, hi)
  {
    hide SweptBetween, CleanedBelow, Dictionary.Valid, Fold, Looks;
    ghost var s := t.Contents();
    NothingCleaned(s, lo, hi);
    var i: nat := 0;
    for j := 0 to NUM_SECTIONS
      invariant t.Valid() && i <= NUM_SECTIONS && CleanedBelow(s, t.Contents(), i, lo, hi)
      invariant j > 0 ==> i == NUM_SECTIONS
    {
      while i / NUM_SECTIONS == j && i < NUM_SECTIONS
        invariant t.Valid() && i <= NUM_SECTIONS && CleanedBelow(s, t.Contents(), i, lo, hi)
        invariant j > 0 ==> i == NUM_SECTIONS
      {
        ghost var s1 := t.Contents();
        var h: nat := i;
        ghost var es := CleanBucket(t, h, (k: nat) => clock(h, k), lo, hi);
        CleanOneMore(s, s1, t.Contents(), i, lo, hi);
        i := i + 1;
      }
    }
  }

  lemma NothingCleaned(s: Store, lo: int, hi: int)
    ensures CleanedBelow(s, s, 0, lo, hi)
  {
  }

  /** Whatever the clock reads during a pass, at no time before lo and at no time after hi: it meets
      its purpose, to leave nothing that was dead when it began, just when no bucket but its eight
      holds anything dead. It touches none of the others. */
  lemma CleanMissesTheRest(s: Store, s': Store, lo: int, hi: int)
    requires CleanedBelow(s, s', NUM_SECTIONS, lo, hi)
    ensures forall k :: k in s && GetHash(k) >= NUM_SECTIONS ==> k in s' && s'[k] == s[k]
    ensures (forall k :: k in s' ==> !Expired(s'[k], lo))
      <==> (forall k :: k in s && GetHash(k) >= NUM_SECTIONS ==> !Expired(s[k], lo))
  {
    hide GetHash, Expired;
  }

  /** One set request for key 8, with no time to live, and one pass a second later: what Clean
      promises means that the dead entry is still there. */
  lemma CleanLeavesADeadEntry(s': Store)
    requires CleanedBelow(Fold(map[], [SetEvent(8, 0, 1, 0)]), s', NUM_SECTIONS, 1, 1)
    ensures 8 in s' && Expired(s'[8], 1)
  {
    var es := [SetEvent(8, 0, 1, 0)];
    assert es[..0] == [] && Fold(map[], es) == map[8 := Entry(1, 0, 0)];
    assert GetHash(8) == 8;
  }
}
