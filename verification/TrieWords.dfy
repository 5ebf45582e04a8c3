/** The words of a prefix tree: how they are listed, how one is added, how the tree is taken down. */
module TrieWords {
  import opened TrieOrder

  // ----- Words and their one alphabetical list -----

  ghost predicate InPool(nodes: seq<Node>, ns: seq<int>) {
    forall k :: 0 <= k < |ns| ==> 0 <= ns[k] < |nodes|
  }

  /** The nodes of ns at which a word ends. */
  ghost function Finals(nodes: seq<Node>, ns: seq<int>): (r: seq<int>)
    requires InPool(nodes, ns)
    ensures InPool(nodes, r)
  {
    if ns == [] then [] else
      Finals(nodes, ns[..|ns| - 1]) + (if nodes[ns[|ns| - 1]].isFinal then [ns[|ns| - 1]] else [])
  }

  /** All words of the tree, in lower case. */
  ghost function Words(nodes: seq<Node>, spell: seq<string>): set<string>
    requires |spell| == |nodes|
  {
    set m | 0 <= m < |nodes| && nodes[m].isFinal :: Fold(spell[m])
  }

  /** Those of the words that start with prefix, upper and lower case aside. */
  ghost function Completions(words: set<string>, prefix: string): set<string> {
    set w | w in words && Fold(prefix) <= w
  }

  /** ws is the alphabetical list of the words in the set, each once. */
  ghost predicate Enumerates(ws: seq<string>, words: set<string>) {
    && (forall i, j :: 0 <= i < j < |ws| ==> Before(ws[i], ws[j]))
    && (forall w :: w in ws <==> w in words)
  }

  lemma {:induction false} BeforeIsTransitive(s: string, t: string, u: string)
    requires Before(s, t) && Before(t, u)
    ensures Before(s, u)
  {
    if s != [] && s[0] == t[0] == u[0] {
      BeforeIsTransitive(s[1..], t[1..], u[1..]);
    }
  }

  lemma {:induction false} SameFirst(v: seq<string>, w: seq<string>, words: set<string>)
    requires Enumerates(v, words) && Enumerates(w, words) && v != [] && w != []
    ensures v[0] == w[0]
  {
    hide Before;
    assert v[0] in w && w[0] in v;
    if v[0] != w[0] {
      assert Before(v[0], w[0]) && Before(w[0], v[0]);
      BeforeIsTransitive(v[0], w[0], v[0]);
      NotBeforeItself(v[0]);
    }
  }

  lemma RestEnumerates(v: seq<string>, words: set<string>)
    requires Enumerates(v, words) && v != []
    ensures Enumerates(v[1..], words - {v[0]})
  {
    hide Before;
    var t := v[1..];
    forall i, j | 0 <= i < j < |t| ensures Before(t[i], t[j]) {
      assert t[i] == v[i + 1] && t[j] == v[j + 1];
    }
    forall w ensures w in t <==> w in words - {v[0]} {
      if w in t {
        var k :| 0 <= k < |t| && t[k] == w;
        assert Before(v[0], v[k + 1]) && v[k + 1] in v;
        NotBeforeItself(w);
      }
    }
  }

  /** A set of words has at most one alphabetical list. */
  lemma {:induction false} EnumerationIsUnique(v: seq<string>, w: seq<string>, words: set<string>)
    requires Enumerates(v, words) && Enumerates(w, words)
    ensures v == w
    decreases |v|
  {
    assert (v != [] ==> v[0] in words) && (w != [] ==> w[0] in words);
    if v != [] && w != [] {
      SameFirst(v, w, words);
      RestEnumerates(v, words);
      RestEnumerates(w, words);
      EnumerationIsUnique(v[1..], w[1..], words - {v[0]});
      assert v == [v[0]] + v[1..] && w == [w[0]] + w[1..];
    }
  }

  ghost function Listing(spell: seq<string>, ns: seq<int>): (r: seq<string>)
    requires forall k :: 0 <= k < |ns| ==> 0 <= ns[k] < |spell|
  {
    seq(|ns|, k requires 0 <= k < |ns| => Fold(spell[ns[k]]))
  }

  lemma {:induction false} FinalsAre(nodes: seq<Node>, spell: seq<string>, ns: seq<int>)
    requires |spell| == |nodes| && InPool(nodes, ns) && Alphabetical(spell, ns)
    ensures forall m :: m in Finals(nodes, ns) <==> m in ns && nodes[m].isFinal
    ensures Alphabetical(spell, Finals(nodes, ns))
    decreases |ns|
  {
    hide Earlier;
    if ns != [] {
      var s, m := ns[..|ns| - 1], ns[|ns| - 1];
      assert ns == s + [m];
      FinalsAre(nodes, spell, s);
      forall k, l | k in Finals(nodes, s) && l in [m] ensures Earlier(spell, k, l) {
        assert k in s;
        var i :| 0 <= i < |s| && s[i] == k;
        assert Earlier(spell, ns[i], ns[|ns| - 1]);
      }
      JoinAlphabetical(spell, Finals(nodes, s), if nodes[m].isFinal then [m] else []);
    }
  }

  ghost function Found(nodes: seq<Node>, n: int): (r: seq<int>)
    requires Forest(nodes) && 0 <= n < |nodes|
    requires InPool(nodes, Pre(nodes, n))
    ensures InPool(nodes, r)
  {
    Finals(nodes, Pre(nodes, n))
  }

  /** What the search from n finds is the alphabetical list of all completions. */
  lemma {:induction false} SearchEnumerates(nodes: seq<Node>, spell: seq<string>, n: int)
    requires Tree(nodes, spell) && 0 <= n < |nodes|
    ensures InPool(nodes, Pre(nodes, n))
    ensures Enumerates(Listing(spell, Found(nodes, n)), Completions(Words(nodes, spell), spell[n]))
  {
    hide Forest, Named, Finals, Pre, Before;
    PreSpells(nodes, spell, n);
    assert forall k :: 0 <= k < |Pre(nodes, n)| ==> Pre(nodes, n)[k] in Pre(nodes, n);
    PreIsAlphabetical(nodes, spell, n);
    FinalsAre(nodes, spell, Pre(nodes, n));
    var ns := Found(nodes, n);
    var ws := Listing(spell, ns);
    assert forall i, j :: 0 <= i < j < |ws| ==> Earlier(spell, ns[i], ns[j]);
    forall w ensures w in ws <==> w in Completions(Words(nodes, spell), spell[n]) {
      ListedIffCompletion(nodes, spell, n, w);
    }
  }

  lemma ListedIffCompletion(nodes: seq<Node>, spell: seq<string>, n: int, w: string)
    requires Tree(nodes, spell) && 0 <= n < |nodes|
    requires InPool(nodes, Pre(nodes, n))
    requires forall m :: m in Found(nodes, n) <==> m in Pre(nodes, n) && nodes[m].isFinal
    ensures w in Listing(spell, Found(nodes, n)) <==> w in Completions(Words(nodes, spell), spell[n])
  {
    hide Forest, Named, Finals, Pre, Fold, Found;
    var ns := Found(nodes, n);
    PreSpells(nodes, spell, n);
    if w in Listing(spell, ns) {
      var k :| 0 <= k < |ns| && Listing(spell, ns)[k] == w;
      assert ns[k] in Pre(nodes, n);
      FoldKeepsPrefix(spell[n], spell[ns[k]]);
    }
    if w in Completions(Words(nodes, spell), spell[n]) {
      var m :| 0 <= m < |nodes| && nodes[m].isFinal && w == Fold(spell[m]);
      PreMissesNothing(nodes, spell, n, m);
      assert m in ns;
      var k :| 0 <= k < |ns| && ns[k] == m;
      assert Listing(spell, ns)[k] == w;
    }
  }

  // ----- Taking the tree down -----

  lemma {:induction false} PostIsPre(nodes: seq<Node>, n: int)
    requires Forest(nodes) && 0 <= n < |nodes|
    ensures multiset(Post(nodes, n)) == multiset(Pre(nodes, n))
    decreases |nodes| - n, NUM_LATIN_LETTERS + 1
  {
    hide Forest;
    PostFromIsPreFrom(nodes, n, 0);
  }

  lemma {:induction false} PostFromIsPreFrom(nodes: seq<Node>, n: int, i: nat)
    requires Forest(nodes) && 0 <= n < |nodes| && i <= NUM_LATIN_LETTERS
    ensures multiset(PostFrom(nodes, n, i)) == multiset(PreFrom(nodes, n, i))
    decreases |nodes| - n, NUM_LATIN_LETTERS - i
  {
    if i < NUM_LATIN_LETTERS {
      assert Links(nodes, n, i);
      hide Forest;
      PostFromIsPreFrom(nodes, n, i + 1);
      if nodes[n].next[i] != NULL {
        PostIsPre(nodes, nodes[n].next[i]);
      }
    }
  }

  lemma {:induction false} AscendingIsOnce(spell: seq<string>, s: seq<int>)
    requires Alphabetical(spell, s)
    ensures forall m :: multiset(s)[m] <= 1
    decreases |s|
  {
    hide Before;
    if s != [] {
      var t, m := s[..|s| - 1], s[|s| - 1];
      assert s == t + [m];
      assert forall i, j :: 0 <= i < j < |t| ==> Earlier(spell, s[i], s[j]);
      AscendingIsOnce(spell, t);
      if m in t {
        var i :| 0 <= i < |t| && t[i] == m;
        assert Earlier(spell, s[i], s[|s| - 1]);
        NotBeforeItself(Fold(spell[m]));
      }
    }
  }

  ghost predicate ChildrenFirst(nodes: seq<Node>, s: seq<int>) {
    forall a, b, i :: 0 <= a < |s| && 0 <= b < |s| && Child(nodes, s[a], i, s[b]) ==> b < a
  }

  ghost predicate EachOnce(nodes: seq<Node>, s: seq<int>) {
    forall m :: multiset(s)[m] == if 0 <= m < |nodes| then 1 else 0
  }

  lemma JoinChildrenFirst(nodes: seq<Node>, s: seq<int>, t: seq<int>)
    requires ChildrenFirst(nodes, s) && ChildrenFirst(nodes, t)
    requires forall p, i, m :: p in s && m in t ==> !Child(nodes, p, i, m)
    ensures ChildrenFirst(nodes, s + t)
  {
    hide Child;
    var u := s + t;
    forall a, b, i | 0 <= a < |u| && 0 <= b < |u| && Child(nodes, u[a], i, u[b]) ensures b < a {
      assert a < |s| ==> u[a] == s[a] && s[a] in s;
      assert b >= |s| ==> u[b] == t[b - |s|] && t[b - |s|] in t;
      if b < |s| {
        assert u[b] == s[b];
      } else if a >= |s| {
        assert u[a] == t[a - |s|];
      }
    }
  }

  lemma NoChildOfItself(nodes: seq<Node>, n: int)
    ensures ChildrenFirst(nodes, [n])
  {
  }

  lemma {:induction false} PostIsChildrenFirst(nodes: seq<Node>, spell: seq<string>, n: int)
    requires Tree(nodes, spell) && 0 <= n < |nodes|
    ensures ChildrenFirst(nodes, Post(nodes, n))
    decreases |nodes| - n, NUM_LATIN_LETTERS + 1
  {
    hide Forest, Named, ChildrenFirst, PreFrom, PostFrom;
    PostFromIsChildrenFirst(nodes, spell, n, 0);
    PostFromIsPreFrom(nodes, n, 0);
    PreFromSpells(nodes, spell, n, 0);
    forall p, i, m | p in PostFrom(nodes, n, 0) && m in [n] ensures !Child(nodes, p, i, m) {
      assert p in multiset(PostFrom(nodes, n, 0)) && p in PreFrom(nodes, n, 0);
      assert Beyond(nodes, spell, n, 0, p);
    }
    NoChildOfItself(nodes, n);
    JoinChildrenFirst(nodes, PostFrom(nodes, n, 0), [n]);
  }

  lemma {:induction false} PostFromIsChildrenFirst(nodes: seq<Node>, spell: seq<string>, n: int, i: nat)
    requires Tree(nodes, spell) && 0 <= n < |nodes| && i <= NUM_LATIN_LETTERS
    ensures ChildrenFirst(nodes, PostFrom(nodes, n, i))
    decreases |nodes| - n, NUM_LATIN_LETTERS - i
  {
    hide Forest, Named, ChildrenFirst;
    if i == NUM_LATIN_LETTERS {
      NothingIsChildrenFirst(nodes);
    } else {
      PostFromIsChildrenFirst(nodes, spell, n, i + 1);
      ChildSpells(nodes, spell, n, i);
      if nodes[n].next[i] != NULL {
        PostIsChildrenFirst(nodes, spell, nodes[n].next[i]);
        forall p, j, m | p in Post(nodes, nodes[n].next[i]) && m in PostFrom(nodes, n, i + 1)
          ensures !Child(nodes, p, j, m)
        {
          SiblingsShareNothing(nodes, spell, n, i, p, j, m);
        }
        JoinChildrenFirst(nodes, Post(nodes, nodes[n].next[i]), PostFrom(nodes, n, i + 1));
      } else {
        assert PostFrom(nodes, n, i) == PostFrom(nodes, n, i + 1);
      }
    }
  }

  lemma NothingIsChildrenFirst(nodes: seq<Node>)
    ensures ChildrenFirst(nodes, [])
  {
  }

  lemma SiblingsShareNothing(nodes: seq<Node>, spell: seq<string>, n: int, i: nat, p: int, j: int, m: int)
    requires Tree(nodes, spell) && 0 <= n < |nodes| && i < NUM_LATIN_LETTERS == |nodes[n].next|
    requires n < nodes[n].next[i] < |nodes|
    requires p in Post(nodes, nodes[n].next[i]) && m in PostFrom(nodes, n, i + 1)
    ensures !Child(nodes, p, j, m)
  {
    hide Forest, Named, Pre, Post, PreFrom, PostFrom;
    var child := nodes[n].next[i];
    PostIsPre(nodes, child);
    PostFromIsPreFrom(nodes, n, i + 1);
    assert p in multiset(Post(nodes, child)) && m in multiset(PostFrom(nodes, n, i + 1));
    assert p in Pre(nodes, child) && m in PreFrom(nodes, n, i + 1);
    PreSpells(nodes, spell, child);
    PreFromSpells(nodes, spell, n, i + 1);
    ChildSpells(nodes, spell, n, i);
    assert Beyond(nodes, spell, n, i + 1, m);
    if Child(nodes, p, j, m) {
      ChildSpells(nodes, spell, p, 0);
      PreGoesDown(nodes, child, p, j);
    }
  }

  /** Every node is taken down exactly once, and after all of its children. */
  lemma TakenDownOnce(nodes: seq<Node>, spell: seq<string>)
    requires Tree(nodes, spell)
    ensures ChildrenFirst(nodes, Post(nodes, 0)) && EachOnce(nodes, Post(nodes, 0))
  {
    hide Forest, Named, Pre, Post, Alphabetical, ChildrenFirst;
    PostIsChildrenFirst(nodes, spell, 0);
    PostIsPre(nodes, 0);
    PreIsAlphabetical(nodes, spell, 0);
    AscendingIsOnce(spell, Pre(nodes, 0));
    PreSpells(nodes, spell, 0);
    RootSpellsNothing(nodes, spell);
    forall m ensures multiset(Pre(nodes, 0))[m] == if 0 <= m < |nodes| then 1 else 0 {
      assert m in Pre(nodes, 0) <==> m in multiset(Pre(nodes, 0));
      if 0 <= m < |nodes| {
        PreMissesNothing(nodes, spell, 0, m);
      }
    }
  }
}
