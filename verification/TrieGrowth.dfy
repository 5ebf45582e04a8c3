/** How a prefix tree changes when a node is added or a word ends at a node, and which prefixes
    have a node. */
module TrieGrowth {
  import opened Results
  import opened TrieOrder
  import opened TrieWords

  function NewNode(c: char): Node {
    Node(seq(NUM_LATIN_LETTERS, i => NULL), false, c)
  }

  /** The pool after a new node has become child i of node n. */
  function Grown(nodes: seq<Node>, n: int, i: nat, c: char): seq<Node>
    requires 0 <= n < |nodes| && i < |nodes[n].next|
  {
    nodes[n := nodes[n].(next := nodes[n].next[i := |nodes|])] + [NewNode(c)]
  }

  function Ended(nodes: seq<Node>, n: int): seq<Node>
    requires 0 <= n < |nodes|
  {
    nodes[n := nodes[n].(isFinal := true)]
  }

  /** Some node spells s, upper and lower case aside. */
  ghost predicate HasNode(spell: seq<string>, s: string) {
    exists m :: 0 <= m < |spell| && Fold(spell[m]) == Fold(s)
  }

  /** Where a child is missing, no node spells the longer word. */
  lemma NoChildNoNode(nodes: seq<Node>, spell: seq<string>, n: int, i: nat, s: string, c: char)
    requires Tree(nodes, spell) && 0 <= n < |nodes| && Fold(spell[n]) == Fold(s)
    requires CharIndex(c) == Some(i) && |nodes[n].next| == NUM_LATIN_LETTERS && nodes[n].next[i] == NULL
    ensures !HasNode(spell, s + [c])
  {
    hide Forest, Named, Fold, FoldChar;
    RootSpellsNothing(nodes, spell);
    FoldPush(s, c);
    forall m | 0 <= m < |nodes| ensures Fold(spell[m]) != Fold(s + [c]) {
      if m > 0 {
        var p, j := ParentOf(nodes, spell, m);
        FoldPush(spell[p], nodes[m].c);
        LettersKeepOrder(nodes[m].c, c, j, i);
        if Fold(spell[m]) == Fold(s + [c]) {
          assert Fold(spell[p]) == Fold(spell[m])[..|s|] == Fold(s);
          SpelledOnce(nodes, spell, p, n);
        }
      }
    }
  }

  lemma GrownIsForest(nodes: seq<Node>, n: int, i: nat, c: char)
    requires Forest(nodes) && 0 <= n < |nodes| && i < NUM_LATIN_LETTERS
    requires |nodes[n].next| == NUM_LATIN_LETTERS
    ensures Forest(Grown(nodes, n, i, c))
  {
    var g := Grown(nodes, n, i, c);
    forall m, j | 0 <= m < |g| && 0 <= j < NUM_LATIN_LETTERS
      ensures |g[m].next| == NUM_LATIN_LETTERS && Links(g, m, j)
    {
      assert m < |nodes| ==> Links(nodes, m, j);
    }
  }

  lemma GrownSpells(nodes: seq<Node>, spell: seq<string>, n: int, i: nat, c: char, m: int, j: int)
    requires Tree(nodes, spell) && 0 <= n < |nodes| && CharIndex(c) == Some(i)
    requires |nodes[n].next| == NUM_LATIN_LETTERS && nodes[n].next[i] == NULL
    requires Forest(Grown(nodes, n, i, c))
    requires 0 <= m <= |nodes| && 0 <= j < NUM_LATIN_LETTERS
    ensures Spelled(Grown(nodes, n, i, c), spell + [spell[n] + [c]], m, j)
  {
    var g := Grown(nodes, n, i, c);
    assert Links(g, m, j);
    hide Forest, Named;
    if m < |nodes| {
      ChildSpells(nodes, spell, m, j);
    }
  }

  lemma GrownHasParents(nodes: seq<Node>, spell: seq<string>, n: int, i: nat, c: char, m: int)
    requires Tree(nodes, spell) && 0 <= n < |nodes| && i < NUM_LATIN_LETTERS
    requires |nodes[n].next| == NUM_LATIN_LETTERS && nodes[n].next[i] == NULL
    requires 0 < m <= |nodes|
    ensures HasParent(Grown(nodes, n, i, c), m)
  {
    hide Forest, Named;
    var g := Grown(nodes, n, i, c);
    if m == |nodes| {
      assert Child(g, n, i, m);
    } else {
      var p, j := ParentOf(nodes, spell, m);
      assert Child(g, p, j, m);
    }
  }

  lemma GrownIsTree(nodes: seq<Node>, spell: seq<string>, n: int, i: nat, c: char)
    requires Tree(nodes, spell) && 0 <= n < |nodes| && CharIndex(c) == Some(i)
    requires |nodes[n].next| == NUM_LATIN_LETTERS && nodes[n].next[i] == NULL
    ensures Tree(Grown(nodes, n, i, c), spell + [spell[n] + [c]])
  {
    hide Forest, Fold, Spelled, HasParent, Grown, CharIndex;
    var g, t := Grown(nodes, n, i, c), spell + [spell[n] + [c]];
    GrownIsForest(nodes, n, i, c);
    GrownHasOneMore(nodes, n, i, c);
    forall m, j | 0 <= m < |g| && 0 <= j < NUM_LATIN_LETTERS ensures Spelled(g, t, m, j) {
      GrownSpells(nodes, spell, n, i, c, m, j);
    }
    forall m | 0 < m < |g| ensures HasParent(g, m) {
      GrownHasParents(nodes, spell, n, i, c, m);
    }
    NoChildNoNode(nodes, spell, n, i, spell[n], c);
  }

  lemma GrownHasOneMore(nodes: seq<Node>, n: int, i: nat, c: char)
    requires 0 <= n < |nodes| && i < |nodes[n].next|
    ensures |Grown(nodes, n, i, c)| == |nodes| + 1
  {
  }

  lemma GrownKeepsWords(nodes: seq<Node>, spell: seq<string>, n: int, i: nat, c: char)
    requires |spell| == |nodes| && 0 <= n < |nodes| && i < |nodes[n].next|
    ensures Words(Grown(nodes, n, i, c), spell + [spell[n] + [c]]) == Words(nodes, spell)
  {
    hide Fold;
    var g, t := Grown(nodes, n, i, c), spell + [spell[n] + [c]];
    assert forall m :: 0 <= m < |nodes| ==> g[m].isFinal == nodes[m].isFinal && t[m] == spell[m];
    assert !g[|nodes|].isFinal;
  }

  lemma EndedIsTree(nodes: seq<Node>, spell: seq<string>, n: int)
    requires Tree(nodes, spell) && 0 <= n < |nodes|
    ensures Tree(Ended(nodes, n), spell)
  {
    hide Fold, CharIndex;
    var e := Ended(nodes, n);
    assert forall m :: 0 <= m < |e| ==> e[m].next == nodes[m].next && e[m].c == nodes[m].c;
    forall m, j | 0 <= m < |e| && 0 <= j < NUM_LATIN_LETTERS ensures Links(e, m, j) {
      assert Links(nodes, m, j);
    }
    forall m, j | 0 <= m < |e| && 0 <= j < NUM_LATIN_LETTERS ensures Spelled(e, spell, m, j) {
      assert Spelled(nodes, spell, m, j) && Links(e, m, j);
    }
    forall m | 0 < m < |e| ensures HasParent(e, m) {
      var p, j := ParentOf(nodes, spell, m);
      assert Child(e, p, j, m);
    }
  }

  lemma EndedAddsWord(nodes: seq<Node>, spell: seq<string>, n: int)
    requires |spell| == |nodes| && 0 <= n < |nodes|
    ensures Words(Ended(nodes, n), spell) == Words(nodes, spell) + {Fold(spell[n])}
  {
    hide Fold;
    var e := Ended(nodes, n);
    assert forall m :: 0 <= m < |nodes| ==> e[m].isFinal == (nodes[m].isFinal || m == n);
  }

  // ----- Prefixes -----

  /** Every prefix of a spelled word is spelled too. */
  lemma {:induction false} PrefixHasNode(nodes: seq<Node>, spell: seq<string>, m: int, s: string)
    requires Tree(nodes, spell) && 0 <= m < |nodes| && Fold(s) <= Fold(spell[m])
    ensures HasNode(spell, s)
    decreases m
  {
    hide Forest, Named, Fold;
    RootSpellsNothing(nodes, spell);
    if Fold(s) != Fold(spell[m]) {
      var p, i := ParentOf(nodes, spell, m);
      FoldPush(spell[p], nodes[m].c);
      PrefixHasNode(nodes, spell, p, s);
    }
  }

  lemma NoNodeForLonger(nodes: seq<Node>, spell: seq<string>, s: string, t: string)
    requires Tree(nodes, spell) && s <= t && !HasNode(spell, s)
    ensures !HasNode(spell, t)
  {
    hide Forest, Named, Fold;
    FoldKeepsPrefix(s, t);
    forall m | 0 <= m < |nodes| ensures Fold(spell[m]) != Fold(t) {
      if Fold(spell[m]) == Fold(t) {
        PrefixHasNode(nodes, spell, m, s);
      }
    }
  }

  /** Every node but the root lies on the way to the end of some word. */
  ghost predicate Productive(nodes: seq<Node>, spell: seq<string>)
    requires |spell| == |nodes|
  {
    forall n :: 0 < n < |nodes| ==> Completions(Words(nodes, spell), spell[n]) != {}
  }

  /** Then a prefix has a node just when it has a completion. */
  lemma NodeIffCompletion(nodes: seq<Node>, spell: seq<string>, s: string)
    requires Tree(nodes, spell) && Productive(nodes, spell) && s != ""
    ensures HasNode(spell, s) <==> Completions(Words(nodes, spell), s) != {}
  {
    hide Forest, Named, Fold;
    RootSpellsNothing(nodes, spell);
    if HasNode(spell, s) {
      var m :| 0 <= m < |spell| && Fold(spell[m]) == Fold(s);
      assert Completions(Words(nodes, spell), spell[m]) != {};
      var w :| w in Completions(Words(nodes, spell), spell[m]);
      assert w in Completions(Words(nodes, spell), s);
    }
    if Completions(Words(nodes, spell), s) != {} {
      var w :| w in Completions(Words(nodes, spell), s);
      var m :| 0 <= m < |nodes| && nodes[m].isFinal && Fold(spell[m]) == w;
      PrefixHasNode(nodes, spell, m, s);
    }
  }

  /** Adding a word, with nodes on the way to it only, keeps the tree productive. */
  lemma AddingKeepsProductive(nodes: seq<Node>, spell: seq<string>, more: seq<Node>, longer: seq<string>, word: string)
    requires |spell| == |nodes| && |longer| == |more| && Productive(nodes, spell) && spell <= longer
    requires Words(more, longer) == Words(nodes, spell) + {Fold(word)}
    requires forall m :: |spell| <= m < |longer| ==> Fold(longer[m]) <= Fold(word)
    ensures Productive(more, longer)
  {
    hide Fold, Words;
    forall n | 0 < n < |more| ensures Completions(Words(more, longer), longer[n]) != {} {
      if n < |nodes| {
        var w :| w in Completions(Words(nodes, spell), spell[n]);
        assert w in Completions(Words(more, longer), longer[n]);
      } else {
        assert Fold(word) in Completions(Words(more, longer), longer[n]);
      }
    }
  }
}
