/** Prefix trees as a pool of nodes linked by index, and the order in which a depth-first
    search goes through them. */
module TrieOrder {
  import opened Results

  const NUM_LATIN_LETTERS: nat := 26
  const NULL: int := -1

  /** A node of the pool; its children are numbers of other nodes, or NULL. */
  datatype Node = Node(next: seq<int>, isFinal: bool, c: char)

  // ----- Letters -----

  function CharIndex(c: char): (i: Option<nat>)
    ensures i.Some? ==> i.value < NUM_LATIN_LETTERS
  {
    if 'a' <= c <= 'z' then Some(c as int - 'a' as int)
    else if 'A' <= c <= 'Z' then Some(c as int - 'A' as int)
    else None
  }

  function Letter(i: nat): char
    requires i < NUM_LATIN_LETTERS
  {
    ('a' as int + i) as char
  }

  /** The lower-case form of a letter. */
  function FoldChar(c: char): char {
    if CharIndex(c).Some? then Letter(CharIndex(c).value) else c
  }

  function Fold(s: string): (r: string)
    ensures |r| == |s| && forall i :: 0 <= i < |s| ==> r[i] == FoldChar(s[i])
  {
    seq(|s|, i requires 0 <= i < |s| => FoldChar(s[i]))
  }

  predicate AllLetters(s: string) {
    forall i :: 0 <= i < |s| ==> CharIndex(s[i]).Some?
  }

  // ----- The same by the characters' codes -----

  predicate IsLatin(c: char) {
    'a' <= c <= 'z' || 'A' <= c <= 'Z'
  }

  /** The capital letters come 32 codes before the small ones. */
  function Lower(c: char): char {
    if 'A' <= c <= 'Z' then (c as int + 32) as char else c
  }

  function Lowered(s: string): (r: string)
    ensures |r| == |s| && forall i :: 0 <= i < |s| ==> r[i] == Lower(s[i])
  {
    seq(|s|, i requires 0 <= i < |s| => Lower(s[i]))
  }

  predicate AllLatin(s: string) {
    forall i :: 0 <= i < |s| ==> IsLatin(s[i])
  }

  /** Exactly the Latin letters have a number, capital and small ones alike, and the numbers order them
      as their codes do. */
  lemma LettersByCode(c: char, d: char)
    ensures CharIndex(c).Some? <==> IsLatin(c)
    ensures FoldChar(c) == Lower(c)
    ensures IsLatin(c) && IsLatin(d) ==> (CharIndex(c).value < CharIndex(d).value <==> Lower(c) < Lower(d))
  {
  }

  lemma {:induction false} FoldIsLowered(s: string)
    ensures Fold(s) == Lowered(s) && (AllLetters(s) <==> AllLatin(s))
  {
    hide FoldChar, Lower, CharIndex, IsLatin;
    forall i | 0 <= i < |s|
      ensures FoldChar(s[i]) == Lower(s[i]) && (CharIndex(s[i]).Some? <==> IsLatin(s[i]))
    {
      LettersByCode(s[i], s[i]);
    }
  }

  // ----- The tree -----

  /** Children come later in the pool than their parents, which they have one of. */
  ghost predicate Child(nodes: seq<Node>, n: int, i: int, m: int) {
    0 <= n < m < |nodes| && 0 <= i < |nodes[n].next| && nodes[n].next[i] == m
  }

  ghost predicate Links(nodes: seq<Node>, n: int, i: int) {
    0 <= n < |nodes| && 0 <= i < |nodes[n].next| && (nodes[n].next[i] == NULL || n < nodes[n].next[i] < |nodes|)
  }

  ghost predicate Forest(nodes: seq<Node>) {
    forall n :: 0 <= n < |nodes| ==>
      |nodes[n].next| == NUM_LATIN_LETTERS && forall i :: 0 <= i < NUM_LATIN_LETTERS ==> Links(nodes, n, i)
  }

  /** spell[n] is what is read on the way from the root to node n, as it was first inserted. */
  ghost predicate Spelled(nodes: seq<Node>, spell: seq<string>, n: int, i: int)
    requires Forest(nodes) && |spell| == |nodes| && 0 <= n < |nodes| && 0 <= i < NUM_LATIN_LETTERS
  {
    var m := nodes[n].next[i];
    m != NULL ==> Links(nodes, n, i) && CharIndex(nodes[m].c) == Some(i) && spell[m] == spell[n] + [nodes[m].c]
  }

  ghost predicate HasParent(nodes: seq<Node>, m: int) {
    exists n, i :: Child(nodes, n, i, m)
  }

  /** No two nodes spell the same word, upper and lower case aside, and all but the root hang somewhere. */
  ghost predicate Named(nodes: seq<Node>, spell: seq<string>)
    requires Forest(nodes)
  {
    && |spell| == |nodes| > 0 && spell[0] == ""
    && (forall n, i :: 0 <= n < |nodes| && 0 <= i < NUM_LATIN_LETTERS ==> Spelled(nodes, spell, n, i))
    && (forall m :: 0 < m < |nodes| ==> HasParent(nodes, m))
    && (forall m, n :: 0 <= m < |nodes| && 0 <= n < |nodes| && Fold(spell[m]) == Fold(spell[n]) ==> m == n)
  }

  /** A tree with root 0. */
  ghost predicate Tree(nodes: seq<Node>, spell: seq<string>) {
    Forest(nodes) && |spell| == |nodes| > 0 && Named(nodes, spell)
  }

  lemma ChildSpells(nodes: seq<Node>, spell: seq<string>, n: int, i: int)
    requires Tree(nodes, spell) && 0 <= n < |nodes| && 0 <= i < NUM_LATIN_LETTERS
    ensures |nodes[n].next| == NUM_LATIN_LETTERS
    ensures var m := nodes[n].next[i];
      m == NULL || (n < m < |nodes| && CharIndex(nodes[m].c) == Some(i) && spell[m] == spell[n] + [nodes[m].c])
  {
    assert Links(nodes, n, i) && Spelled(nodes, spell, n, i);
  }

  lemma ParentOf(nodes: seq<Node>, spell: seq<string>, m: int) returns (n: int, i: int)
    requires Tree(nodes, spell) && 0 < m < |nodes|
    ensures 0 <= n < m && 0 <= i < NUM_LATIN_LETTERS == |nodes[n].next| && nodes[n].next[i] == m
    ensures CharIndex(nodes[m].c) == Some(i) && spell[m] == spell[n] + [nodes[m].c]
  {
    assert HasParent(nodes, m);
    n, i :| Child(nodes, n, i, m);
    ChildSpells(nodes, spell, n, i);
  }

  lemma SpelledOnce(nodes: seq<Node>, spell: seq<string>, m: int, n: int)
    requires Tree(nodes, spell) && 0 <= m < |nodes| && 0 <= n < |nodes| && Fold(spell[m]) == Fold(spell[n])
    ensures m == n
  {
  }

  lemma RootSpellsNothing(nodes: seq<Node>, spell: seq<string>)
    requires Tree(nodes, spell)
    ensures spell[0] == ""
  {
  }

  lemma FoldPush(s: string, c: char)
    ensures Fold(s + [c]) == Fold(s) + [FoldChar(c)]
  {
  }

  lemma FoldKeepsPrefix(s: string, t: string)
    requires s <= t
    ensures Fold(s) <= Fold(t) && Fold(s) == Fold(t)[..|s|] == Fold(t[..|s|])
  {
  }

  // ----- Depth first, children in alphabetical order -----

  /** Node n and all nodes below it, parents first. */
  ghost function Pre(nodes: seq<Node>, n: int): seq<int>
    requires Forest(nodes) && 0 <= n < |nodes|
    decreases |nodes| - n, NUM_LATIN_LETTERS + 1
  {
    [n] + PreFrom(nodes, n, 0)
  }

  /** The nodes below n by way of its children from i on. */
  ghost function PreFrom(nodes: seq<Node>, n: int, i: nat): seq<int>
    requires Forest(nodes) && 0 <= n < |nodes| && i <= NUM_LATIN_LETTERS
    decreases |nodes| - n, NUM_LATIN_LETTERS - i
  {
    if i == NUM_LATIN_LETTERS then [] else
      assert Links(nodes, n, i);
      (if nodes[n].next[i] == NULL then [] else Pre(nodes, nodes[n].next[i])) + PreFrom(nodes, n, i + 1)
  }

  /** The same nodes, children first. */
  ghost function Post(nodes: seq<Node>, n: int): seq<int>
    requires Forest(nodes) && 0 <= n < |nodes|
    decreases |nodes| - n, NUM_LATIN_LETTERS + 1
  {
    PostFrom(nodes, n, 0) + [n]
  }

  ghost function PostFrom(nodes: seq<Node>, n: int, i: nat): seq<int>
    requires Forest(nodes) && 0 <= n < |nodes| && i <= NUM_LATIN_LETTERS
    decreases |nodes| - n, NUM_LATIN_LETTERS - i
  {
    if i == NUM_LATIN_LETTERS then [] else
      assert Links(nodes, n, i);
      (if nodes[n].next[i] == NULL then [] else Post(nodes, nodes[n].next[i])) + PostFrom(nodes, n, i + 1)
  }

  // ----- Alphabetical order -----

  predicate Before(s: string, t: string) {
    t != [] && (s == [] || s[0] < t[0] || (s[0] == t[0] && Before(s[1..], t[1..])))
  }

  lemma {:induction false} PrefixBefore(s: string, t: string)
    requires s <= t && s != t
    ensures Before(s, t)
  {
    if s != [] {
      PrefixBefore(s[1..], t[1..]);
    }
  }

  lemma {:induction false} BranchBefore(p: string, s: string, t: string)
    requires p <= s && p <= t && |p| < |s| && |p| < |t| && s[|p|] < t[|p|]
    ensures Before(s, t)
  {
    if p != [] {
      BranchBefore(p[1..], s[1..], t[1..]);
    }
  }

  lemma {:induction false} NotBeforeItself(s: string)
    ensures !Before(s, s)
  {
    if s != [] {
      NotBeforeItself(s[1..]);
    }
  }

  /** At place k the two words differ for the first time, and there s is the lower one or at its end. */
  ghost predicate LowerAt(s: string, t: string, k: nat) {
    k <= |s| && k < |t| && s[..k] == t[..k] && (k == |s| || s[k] < t[k])
  }

  ghost predicate IsLower(s: string, t: string) {
    exists k: nat :: LowerAt(s, t, k)
  }

  /** Alphabetical order is that of the codes at the first difference. */
  lemma {:induction false} BeforeMeansLower(s: string, t: string)
    ensures Before(s, t) <==> IsLower(s, t)
    decreases |s|
  {
    if s == [] || t == [] || s[0] < t[0] {
      assert t != [] ==> LowerAt(s, t, 0);
    } else {
      BeforeMeansLower(s[1..], t[1..]);
      forall k: nat ensures LowerAt(s, t, k) <==> k > 0 && s[0] == t[0] && LowerAt(s[1..], t[1..], k - 1) {
        LowerOneOn(s, t, k);
      }
      if j: nat :| LowerAt(s[1..], t[1..], j) {
        assert s[0] == t[0] ==> LowerAt(s, t, j + 1);
      }
    }
  }

  lemma LowerOneOn(s: string, t: string, k: nat)
    requires s != [] && t != [] && s[0] >= t[0]
    ensures LowerAt(s, t, k) <==> k > 0 && s[0] == t[0] && LowerAt(s[1..], t[1..], k - 1)
  {
    if k > 0 && k <= |s| && k < |t| {
      assert s[..k] == [s[0]] + s[1..][..k - 1] && t[..k] == [t[0]] + t[1..][..k - 1];
      assert s[..k] == t[..k] ==> s[..k][0] == t[..k][0] && s[..k][1..] == t[..k][1..];
    }
  }

  lemma LettersKeepOrder(c: char, d: char, i: nat, j: nat)
    requires CharIndex(c) == Some(i) && CharIndex(d) == Some(j)
    ensures (FoldChar(c) < FoldChar(d)) <==> i < j
    ensures FoldChar(c) == FoldChar(d) <==> i == j
  {
  }

  // ----- What the search goes through -----

  /** Node m lies below n, by way of a child numbered i or later. */
  ghost predicate Beyond(nodes: seq<Node>, spell: seq<string>, n: int, i: nat, m: int)
    requires |spell| == |nodes| && 0 <= n < |nodes|
  {
    && n < m < |nodes| && spell[n] < spell[m]
    && CharIndex(spell[m][|spell[n]|]).Some? && i <= CharIndex(spell[m][|spell[n]|]).value
  }

  lemma {:induction false} PreSpells(nodes: seq<Node>, spell: seq<string>, n: int)
    requires Tree(nodes, spell) && 0 <= n < |nodes|
    ensures forall m :: m in Pre(nodes, n) ==> n <= m < |nodes| && spell[n] <= spell[m]
    decreases |nodes| - n, NUM_LATIN_LETTERS + 1
  {
    hide Forest, Named;
    PreFromSpells(nodes, spell, n, 0);
    forall m | m in Pre(nodes, n) ensures n <= m < |nodes| && spell[n] <= spell[m] {
      assert m == n || m in PreFrom(nodes, n, 0);
      assert m != n ==> Beyond(nodes, spell, n, 0, m);
    }
  }

  lemma {:induction false} PreFromSpells(nodes: seq<Node>, spell: seq<string>, n: int, i: nat)
    requires Tree(nodes, spell) && 0 <= n < |nodes| && i <= NUM_LATIN_LETTERS
    ensures forall m :: m in PreFrom(nodes, n, i) ==> Beyond(nodes, spell, n, i, m)
    decreases |nodes| - n, NUM_LATIN_LETTERS - i
  {
    hide Forest, Named;
    if i < NUM_LATIN_LETTERS {
      PreFromSpells(nodes, spell, n, i + 1);
      ChildSpells(nodes, spell, n, i);
      if nodes[n].next[i] != NULL {
        PreSpells(nodes, spell, nodes[n].next[i]);
      }
      forall m | m in PreFrom(nodes, n, i) ensures Beyond(nodes, spell, n, i, m) {
        if m in PreFrom(nodes, n, i + 1) {
          assert Beyond(nodes, spell, n, i + 1, m);
        } else {
          assert m in Pre(nodes, nodes[n].next[i]);
        }
      }
    }
  }

  /** Going down from a node of the search stays in the search. */
  lemma {:induction false} PreGoesDown(nodes: seq<Node>, n: int, p: int, i: int)
    requires Forest(nodes) && 0 <= n < |nodes| && p in Pre(nodes, n) && 0 <= p < |nodes|
    requires 0 <= i < NUM_LATIN_LETTERS == |nodes[p].next| && nodes[p].next[i] != NULL
    ensures nodes[p].next[i] in Pre(nodes, n)
    decreases |nodes| - n, NUM_LATIN_LETTERS + 1
  {
    hide Forest;
    if p == n {
      ChildIsListed(nodes, n, 0, i);
    } else {
      PreFromGoesDown(nodes, n, 0, p, i);
    }
  }

  lemma {:induction false} ChildIsListed(nodes: seq<Node>, n: int, j: nat, i: nat)
    requires Forest(nodes) && 0 <= n < |nodes| && j <= i < NUM_LATIN_LETTERS == |nodes[n].next|
    requires nodes[n].next[i] != NULL
    ensures nodes[n].next[i] in PreFrom(nodes, n, j)
    decreases i - j
  {
    assert Links(nodes, n, j) && Links(nodes, n, i);
    hide Forest;
    if j < i {
      ChildIsListed(nodes, n, j + 1, i);
    } else {
      assert nodes[n].next[i] in Pre(nodes, nodes[n].next[i]);
    }
  }

  lemma {:induction false} PreFromGoesDown(nodes: seq<Node>, n: int, j: nat, p: int, i: int)
    requires Forest(nodes) && 0 <= n < |nodes| && j <= NUM_LATIN_LETTERS
    requires p in PreFrom(nodes, n, j) && 0 <= p < |nodes|
    requires 0 <= i < NUM_LATIN_LETTERS == |nodes[p].next| && nodes[p].next[i] != NULL
    ensures nodes[p].next[i] in PreFrom(nodes, n, j)
    decreases |nodes| - n, NUM_LATIN_LETTERS - j
  {
    if j < NUM_LATIN_LETTERS {
      assert Links(nodes, n, j);
      hide Forest;
      if p in PreFrom(nodes, n, j + 1) {
        PreFromGoesDown(nodes, n, j + 1, p, i);
      } else {
        PreGoesDown(nodes, nodes[n].next[j], p, i);
      }
    }
  }

  /** The search from n misses no node whose spelling starts like that of n. */
  lemma {:induction false} PreMissesNothing(nodes: seq<Node>, spell: seq<string>, n: int, m: int)
    requires Tree(nodes, spell) && 0 <= n < |nodes| && 0 <= m < |nodes|
    requires Fold(spell[n]) <= Fold(spell[m])
    ensures m in Pre(nodes, n)
    decreases m
  {
    hide Forest, Named;
    RootSpellsNothing(nodes, spell);
    if |spell[n]| == |spell[m]| {
      SpelledOnce(nodes, spell, m, n);
    } else {
      var p, i := ParentOf(nodes, spell, m);
      FoldPush(spell[p], nodes[m].c);
      PreMissesNothing(nodes, spell, n, p);
      PreGoesDown(nodes, n, p, i);
    }
  }

  // ----- The search is in alphabetical order -----

  ghost predicate Earlier(spell: seq<string>, m: int, n: int) {
    0 <= m < |spell| && 0 <= n < |spell| && Before(Fold(spell[m]), Fold(spell[n]))
  }

  ghost predicate Alphabetical(spell: seq<string>, s: seq<int>) {
    forall i, j :: 0 <= i < j < |s| ==> Earlier(spell, s[i], s[j])
  }

  lemma JoinAlphabetical(spell: seq<string>, s: seq<int>, t: seq<int>)
    requires Alphabetical(spell, s) && Alphabetical(spell, t)
    requires forall m, n :: m in s && n in t ==> Earlier(spell, m, n)
    ensures Alphabetical(spell, s + t)
  {
    hide Earlier;
    var u := s + t;
    forall i, j | 0 <= i < j < |u| ensures Earlier(spell, u[i], u[j]) {
      if j < |s| {
        assert u[i] == s[i] && u[j] == s[j];
      } else if i < |s| {
        assert u[i] in s && u[j] in t;
      } else {
        assert u[i] == t[i - |s|] && u[j] == t[j - |s|];
      }
    }
  }

  lemma BeyondIsEarlier(nodes: seq<Node>, spell: seq<string>, n: int, i: nat, m: int)
    requires |spell| == |nodes| && 0 <= n < |nodes| && Beyond(nodes, spell, n, i, m)
    ensures Earlier(spell, n, m)
  {
    FoldKeepsPrefix(spell[n], spell[m]);
    PrefixBefore(Fold(spell[n]), Fold(spell[m]));
  }

  lemma SiblingIsEarlier(nodes: seq<Node>, spell: seq<string>, n: int, i: nat, k: int, m: int)
    requires |spell| == |nodes| && 0 <= n < |nodes| && 0 <= k < |nodes|
    requires spell[n] < spell[k] && CharIndex(spell[k][|spell[n]|]) == Some(i)
    requires Beyond(nodes, spell, n, i + 1, m)
    ensures Earlier(spell, k, m)
  {
    FoldKeepsPrefix(spell[n], spell[m]);
    FoldKeepsPrefix(spell[n], spell[k]);
    LettersKeepOrder(spell[k][|spell[n]|], spell[m][|spell[n]|], i, CharIndex(spell[m][|spell[n]|]).value);
    BranchBefore(Fold(spell[n]), Fold(spell[k]), Fold(spell[m]));
  }

  lemma {:induction false} PreIsAlphabetical(nodes: seq<Node>, spell: seq<string>, n: int)
    requires Tree(nodes, spell) && 0 <= n < |nodes|
    ensures Alphabetical(spell, Pre(nodes, n))
    decreases |nodes| - n, NUM_LATIN_LETTERS + 1
  {
    hide Forest, Named, Earlier, Beyond;
    PreFromIsAlphabetical(nodes, spell, n, 0);
    PreFromSpells(nodes, spell, n, 0);
    forall m | m in PreFrom(nodes, n, 0) ensures Earlier(spell, n, m) {
      BeyondIsEarlier(nodes, spell, n, 0, m);
    }
    JoinAlphabetical(spell, [n], PreFrom(nodes, n, 0));
  }

  lemma {:induction false} PreFromIsAlphabetical(nodes: seq<Node>, spell: seq<string>, n: int, i: nat)
    requires Tree(nodes, spell) && 0 <= n < |nodes| && i <= NUM_LATIN_LETTERS
    ensures Alphabetical(spell, PreFrom(nodes, n, i))
    decreases |nodes| - n, NUM_LATIN_LETTERS - i
  {
    hide Forest, Named, Earlier, Beyond, CharIndex;
    if i < NUM_LATIN_LETTERS {
      PreFromIsAlphabetical(nodes, spell, n, i + 1);
      ChildSpells(nodes, spell, n, i);
      var child := nodes[n].next[i];
      if child != NULL {
        PreIsAlphabetical(nodes, spell, child);
        PreSpells(nodes, spell, child);
        PreFromSpells(nodes, spell, n, i + 1);
        forall k, m | k in Pre(nodes, child) && m in PreFrom(nodes, n, i + 1) ensures Earlier(spell, k, m) {
          SiblingIsEarlier(nodes, spell, n, i, k, m);
        }
        JoinAlphabetical(spell, Pre(nodes, child), PreFrom(nodes, n, i + 1));
      } else {
        assert PreFrom(nodes, n, i) == PreFrom(nodes, n, i + 1);
      }
    }
  }
}
