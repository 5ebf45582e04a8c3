/** The prefix tree of the word server: adding words, finding a prefix, listing up to ten of its
    completions with an explicit stack, and taking the tree down the same way. */
module PrefixTrie {
  import opened Results
  import opened TrieOrder
  import opened TrieWords
  import opened TrieGrowth
  import opened WordFile

  const NUM_WORDS: nat := 10

  datatype TrieErrorType = NoPrefix | NotAllowedSymbol

  datatype Stack<T> = Empty | Push(top: T, rest: Stack<T>)

  // ----- The two stacks of a traversal -----

  /** A stack of nodes and the stack of their marks, equally high. */
  ghost predicate Paired(nodes: seq<Node>, ns: Stack<int>, marks: Stack<bool>) {
    if ns.Empty? then marks.Empty? else
      marks.Push? && 0 <= ns.top < |nodes| && Paired(nodes, ns.rest, marks.rest)
  }

  ghost function Height(ns: Stack<int>): nat {
    if ns.Empty? then 0 else 1 + Height(ns.rest)
  }

  /** The nodes still to be visited, in the order in which they will be. */
  ghost function Todo(nodes: seq<Node>, ns: Stack<int>, marks: Stack<bool>): seq<int>
    requires Forest(nodes) && Paired(nodes, ns, marks)
  {
    if ns.Empty? then [] else
      (if marks.top then [] else Pre(nodes, ns.top)) + Todo(nodes, ns.rest, marks.rest)
  }

  /** The nodes still to be left for good, in the order in which they will be. */
  ghost function ToLeave(nodes: seq<Node>, ns: Stack<int>, marks: Stack<bool>): seq<int>
    requires Forest(nodes) && Paired(nodes, ns, marks)
  {
    if ns.Empty? then [] else
      (if marks.top then [ns.top] else Post(nodes, ns.top)) + ToLeave(nodes, ns.rest, marks.rest)
  }

  /** The letters of the visited nodes on the stack, bottom first. */
  ghost function Trail(nodes: seq<Node>, ns: Stack<int>, marks: Stack<bool>): string
    requires Paired(nodes, ns, marks)
  {
    if ns.Empty? then [] else
      Trail(nodes, ns.rest, marks.rest) + (if marks.top then [nodes[ns.top].c] else [])
  }

  /** The letters below a node on the stack, and its own, are what it spells from letter k on. */
  ghost predicate OnTrail(nodes: seq<Node>, spell: seq<string>, k: nat, ns: Stack<int>, marks: Stack<bool>)
    requires |spell| == |nodes| && Paired(nodes, ns, marks)
  {
    ns.Empty? || (
      && k <= |spell[ns.top]| && spell[ns.top][k..] == Trail(nodes, ns.rest, marks.rest) + [nodes[ns.top].c]
      && OnTrail(nodes, spell, k, ns.rest, marks.rest))
  }

  /** The part of the work left after the children of p from i on have been put on the stack. */
  ghost predicate Pushed(nodes: seq<Node>, spell: seq<string>, k: nat, p: int, i: nat,
                         ns: Stack<int>, marks: Stack<bool>, ns': Stack<int>, marks': Stack<bool>)
    requires Tree(nodes, spell) && 0 <= p < |nodes| && i <= NUM_LATIN_LETTERS && Paired(nodes, ns, marks)
  {
    && Paired(nodes, ns', marks')
    && Todo(nodes, ns', marks') == PreFrom(nodes, p, i) + Todo(nodes, ns, marks)
    && ToLeave(nodes, ns', marks') == PostFrom(nodes, p, i) + ToLeave(nodes, ns, marks)
    && Trail(nodes, ns', marks') == Trail(nodes, ns, marks)
    && (OnTrail(nodes, spell, k, ns, marks) && k <= |spell[p]| && spell[p][k..] == Trail(nodes, ns, marks)
        ==> OnTrail(nodes, spell, k, ns', marks'))
    && (if PreFrom(nodes, p, i) == [] then ns' == ns && marks' == marks && PostFrom(nodes, p, i) == []
        else ns'.Push? && ns'.top > p)
  }

  lemma PushedNothing(nodes: seq<Node>, spell: seq<string>, k: nat, p: int, ns: Stack<int>, marks: Stack<bool>)
    requires Tree(nodes, spell) && 0 <= p < |nodes| && Paired(nodes, ns, marks)
    ensures Pushed(nodes, spell, k, p, NUM_LATIN_LETTERS, ns, marks, ns, marks)
  {
    hide Forest, Named;
  }

  lemma {:induction false} PushedNone(nodes: seq<Node>, spell: seq<string>, k: nat, p: int, i: nat,
                   ns: Stack<int>, marks: Stack<bool>, ns': Stack<int>, marks': Stack<bool>)
    requires Tree(nodes, spell) && 0 <= p < |nodes| && i < NUM_LATIN_LETTERS == |nodes[p].next|
    requires Paired(nodes, ns, marks) && Pushed(nodes, spell, k, p, i + 1, ns, marks, ns', marks')
    requires nodes[p].next[i] == NULL
    ensures Pushed(nodes, spell, k, p, i, ns, marks, ns', marks')
  {
    hide Forest, Named, OnTrail, Trail, Todo, ToLeave;
    assert PreFrom(nodes, p, i) == PreFrom(nodes, p, i + 1);
    assert PostFrom(nodes, p, i) == PostFrom(nodes, p, i + 1);
  }

  lemma {:induction false} PushedOne(nodes: seq<Node>, spell: seq<string>, k: nat, p: int, i: nat,
                  ns: Stack<int>, marks: Stack<bool>, ns': Stack<int>, marks': Stack<bool>)
    requires Tree(nodes, spell) && 0 <= p < |nodes| && i < NUM_LATIN_LETTERS == |nodes[p].next|
    requires Paired(nodes, ns, marks) && Pushed(nodes, spell, k, p, i + 1, ns, marks, ns', marks')
    requires nodes[p].next[i] != NULL
    ensures Pushed(nodes, spell, k, p, i, ns, marks, Push(nodes[p].next[i], ns'), Push(false, marks'))
  {
    hide Forest, Named, OnTrail, Trail, Todo, ToLeave, Pre, Post, PreFrom, PostFrom;
    ChildSpells(nodes, spell, p, i);
    var m := nodes[p].next[i];
    FromOne(nodes, p, i);
    PushOne(nodes, m, ns', marks');
    PushOneOnTrail(nodes, spell, k, p, i, ns', marks');
  }

  lemma FromOne(nodes: seq<Node>, p: int, i: nat)
    requires Forest(nodes) && 0 <= p < |nodes| && i < NUM_LATIN_LETTERS == |nodes[p].next|
    requires 0 <= nodes[p].next[i] < |nodes|
    ensures PreFrom(nodes, p, i) == Pre(nodes, nodes[p].next[i]) + PreFrom(nodes, p, i + 1)
    ensures PostFrom(nodes, p, i) == Post(nodes, nodes[p].next[i]) + PostFrom(nodes, p, i + 1)
    ensures PreFrom(nodes, p, i) != []
  {
    hide Forest, Post;
  }

  lemma PushOne(nodes: seq<Node>, m: int, ns: Stack<int>, marks: Stack<bool>)
    requires Forest(nodes) && 0 <= m < |nodes| && Paired(nodes, ns, marks)
    ensures Paired(nodes, Push(m, ns), Push(false, marks))
    ensures Todo(nodes, Push(m, ns), Push(false, marks)) == Pre(nodes, m) + Todo(nodes, ns, marks)
    ensures ToLeave(nodes, Push(m, ns), Push(false, marks)) == Post(nodes, m) + ToLeave(nodes, ns, marks)
    ensures Trail(nodes, Push(m, ns), Push(false, marks)) == Trail(nodes, ns, marks)
  {
    hide Forest, Pre, Post;
  }

  lemma PushOneOnTrail(nodes: seq<Node>, spell: seq<string>, k: nat, p: int, i: nat,
                       ns: Stack<int>, marks: Stack<bool>)
    requires Tree(nodes, spell) && 0 <= p < |nodes| && i < NUM_LATIN_LETTERS == |nodes[p].next|
    requires 0 <= nodes[p].next[i] < |nodes| && Paired(nodes, ns, marks)
    requires Paired(nodes, Push(nodes[p].next[i], ns), Push(false, marks))
    ensures OnTrail(nodes, spell, k, ns, marks) && k <= |spell[p]| && spell[p][k..] == Trail(nodes, ns, marks)
      ==> OnTrail(nodes, spell, k, Push(nodes[p].next[i], ns), Push(false, marks))
  {
    hide Forest, Named, Trail;
    ChildSpells(nodes, spell, p, i);
  }

  /** The children of a node have just been put on top of the mark that it is visited. */
  lemma {:induction false} VisitTop(nodes: seq<Node>, spell: seq<string>, k: nat, ns: Stack<int>, marks: Stack<bool>)
    requires Tree(nodes, spell) && Paired(nodes, ns, marks) && ns.Push? && !marks.top
    ensures Todo(nodes, ns, marks) == [ns.top] + (PreFrom(nodes, ns.top, 0) + Todo(nodes, ns.rest, marks.rest))
    ensures ToLeave(nodes, ns, marks)
      == PostFrom(nodes, ns.top, 0) + ([ns.top] + ToLeave(nodes, ns.rest, marks.rest))
    ensures Paired(nodes, ns, Push(true, marks.rest))
    ensures Todo(nodes, ns, Push(true, marks.rest)) == Todo(nodes, ns.rest, marks.rest)
    ensures ToLeave(nodes, ns, Push(true, marks.rest)) == [ns.top] + ToLeave(nodes, ns.rest, marks.rest)
    ensures Trail(nodes, ns, Push(true, marks.rest)) == Trail(nodes, ns, marks) + [nodes[ns.top].c]
  {
    hide Forest, Named, PreFrom, PostFrom, OnTrail;
    var p, todo, leave := ns.top, Todo(nodes, ns.rest, marks.rest), ToLeave(nodes, ns.rest, marks.rest);
    assert Paired(nodes, ns.rest, marks.rest);
    assert Todo(nodes, ns, marks) == [p] + PreFrom(nodes, p, 0) + todo;
    assert ToLeave(nodes, ns, marks) == PostFrom(nodes, p, 0) + [p] + leave;
    hide Todo, ToLeave, Pre, Post;
    Regroup([p], PreFrom(nodes, p, 0), todo);
    Regroup(PostFrom(nodes, p, 0), [p], leave);
    VisitMarked(nodes, ns, marks.rest);
  }

  lemma Regroup(a: seq<int>, b: seq<int>, c: seq<int>)
    ensures a + b + c == a + (b + c)
  {
  }

  lemma VisitMarked(nodes: seq<Node>, ns: Stack<int>, marks: Stack<bool>)
    requires Forest(nodes) && ns.Push? && Paired(nodes, ns.rest, marks) && 0 <= ns.top < |nodes|
    ensures Paired(nodes, ns, Push(true, marks))
    ensures Todo(nodes, ns, Push(true, marks)) == Todo(nodes, ns.rest, marks)
    ensures ToLeave(nodes, ns, Push(true, marks)) == [ns.top] + ToLeave(nodes, ns.rest, marks)
    ensures Trail(nodes, ns, Push(true, marks)) == Trail(nodes, ns.rest, marks) + [nodes[ns.top].c]
  {
    hide Forest, Pre, Post;
  }

  lemma VisitOnTrail(nodes: seq<Node>, spell: seq<string>, k: nat, ns: Stack<int>, marks: Stack<bool>)
    requires Tree(nodes, spell) && Paired(nodes, ns, marks) && ns.Push? && OnTrail(nodes, spell, k, ns, marks)
    requires Paired(nodes, ns, Push(true, marks.rest))
    ensures k <= |spell[ns.top]| && spell[ns.top][k..] == Trail(nodes, ns, Push(true, marks.rest))
    ensures OnTrail(nodes, spell, k, ns, Push(true, marks.rest))
  {
    hide Forest, Named;
  }

  lemma LeaveTop(nodes: seq<Node>, spell: seq<string>, k: nat, ns: Stack<int>, marks: Stack<bool>)
    requires Tree(nodes, spell) && Paired(nodes, ns, marks) && ns.Push? && marks.top
    ensures Todo(nodes, ns, marks) == Todo(nodes, ns.rest, marks.rest)
    ensures ToLeave(nodes, ns, marks) == [ns.top] + ToLeave(nodes, ns.rest, marks.rest)
    ensures Trail(nodes, ns, marks) == Trail(nodes, ns.rest, marks.rest) + [nodes[ns.top].c]
    ensures OnTrail(nodes, spell, k, ns, marks) ==> OnTrail(nodes, spell, k, ns.rest, marks.rest)
  {
    hide Forest, Named;
  }

  lemma StartTraversal(nodes: seq<Node>, spell: seq<string>, k: nat, n: int)
    requires Tree(nodes, spell) && 0 <= n < |nodes|
    ensures var ns, marks := Push(n, Empty), Push(false, Empty);
      && Paired(nodes, ns, marks) && Todo(nodes, ns, marks) == Pre(nodes, n)
      && ToLeave(nodes, ns, marks) == Post(nodes, n) && Trail(nodes, ns, marks) == ""
      && (k <= |spell[n]| && spell[n][k..] == [nodes[n].c] ==> OnTrail(nodes, spell, k, ns, marks))
  {
    hide Forest, Named, Pre, Post;
  }

  /** In a list without repetition, what is still to come has not been yet. */
  lemma NotYet(nodes: seq<Node>, before: seq<int>, after: seq<int>, p: int)
    requires p in after && EachOnce(nodes, before + after)
    ensures p !in before
  {
    assert multiset(before + after)[p] <= 1;
    assert multiset(before + after)[p] == multiset(before)[p] + multiset(after)[p];
  }

  lemma NothingLeft(nodes: seq<Node>)
    requires Forest(nodes)
    ensures Todo(nodes, Empty, Empty) == [] && ToLeave(nodes, Empty, Empty) == [] && Trail(nodes, Empty, Empty) == ""
  {
  }

  // ----- What adding a word adds -----

  /** A node added for word spells a prefix of it, and its own letter is the one in the word. */
  ghost predicate NewOnTheWay(s: string, word: string) {
    s != "" && Fold(s) <= Fold(word) && s[|s| - 1] == word[|s| - 1]
  }

  // ----- What the destructor touches -----

  /** A node's children are read, or the node is deleted. */
  datatype Access = Read(node: int) | Delete(node: int)

  function Deletions(log: seq<Access>): seq<int> {
    if log == [] then [] else
      var a := log[|log| - 1];
      Deletions(log[..|log| - 1]) + (if a.Delete? then [a.node] else [])
  }

  /** The nodes whose child pointers are read, once for each pointer. */
  function Reads(log: seq<Access>): seq<int> {
    if log == [] then [] else
      var a := log[|log| - 1];
      Reads(log[..|log| - 1]) + (if a.Read? then [a.node] else [])
  }

  function Times(p: int, n: nat): (r: seq<int>)
    ensures |r| == n && forall i :: 0 <= i < n ==> r[i] == p
  {
    seq(n, _ => p)
  }

  /** Each node as often as it has child pointers. */
  function ForEachChild(ns: seq<int>): seq<int> {
    if ns == [] then [] else ForEachChild(ns[..|ns| - 1]) + Times(ns[|ns| - 1], NUM_LATIN_LETTERS)
  }

  lemma OneMoreForEach(ns: seq<int>, p: int)
    ensures ForEachChild(ns + [p]) == ForEachChild(ns) + Times(p, NUM_LATIN_LETTERS)
  {
    assert (ns + [p])[..|ns|] == ns;
  }

  lemma OneMoreTime(s: seq<int>, p: int, n: nat)
    ensures s + Times(p, n) + [p] == s + Times(p, n + 1)
  {
  }

  /** No node is read or deleted after it has been deleted. */
  ghost predicate NoneAfterDelete(log: seq<Access>) {
    forall i, j :: 0 <= i < j < |log| && log[i].Delete? ==> log[j].node != log[i].node
  }

  lemma {:induction false} DeletedIsListed(log: seq<Access>, i: nat)
    requires i < |log| && log[i].Delete?
    ensures log[i].node in Deletions(log)
    decreases |log|
  {
    if i < |log| - 1 {
      DeletedIsListed(log[..|log| - 1], i);
    }
  }

  lemma NothingDeleted()
    ensures Deletions([]) == [] && Reads([]) == [] && NoneAfterDelete([])
    ensures ForEachChild([]) == []
  {
  }

  lemma OneMoreAccess(log: seq<Access>, a: Access)
    requires NoneAfterDelete(log) && a.node !in Deletions(log)
    ensures NoneAfterDelete(log + [a])
    ensures Deletions(log + [a]) == Deletions(log) + (if a.Delete? then [a.node] else [])
    ensures Reads(log + [a]) == Reads(log) + (if a.Read? then [a.node] else [])
  {
    var more := log + [a];
    assert more[..|log|] == log;
    forall i | 0 <= i < |log| && log[i].Delete? ensures log[i].node != a.node {
      DeletedIsListed(log, i);
    }
  }

  // ----- Where a prefix is lost -----

  ghost predicate BadLetterAt(prefix: string, i: int) {
    0 <= i < |prefix| && AllLetters(prefix[..i]) && CharIndex(prefix[i]).None?
  }

  ghost predicate DeadEndAt(spell: seq<string>, prefix: string, i: int) {
    && 0 <= i < |prefix| && AllLetters(prefix[..i + 1])
    && HasNode(spell, prefix[..i]) && !HasNode(spell, prefix[..i + 1])
  }

  // ----- What a search has found -----

  /** The words noted down are those of the nodes in ns, with base for their first letters. */
  ghost predicate Collected(spell: seq<string>, base: string, ns: seq<int>, words: seq<string>) {
    |words| == |ns| && forall j :: 0 <= j < |ns| ==>
      0 <= ns[j] < |spell| && |base| <= |spell[ns[j]]| && words[j] == base + spell[ns[j]][|base|..]
  }

  /** The words found are the first ten completions in alphabetical order, or all of them. */
  ghost predicate FirstTen(found: seq<string>, completions: set<string>) {
    exists ws :: Enumerates(ws, completions) && IsCut(found, ws)
  }

  ghost predicate IsCut(found: seq<string>, ws: seq<string>) {
    && |found| == (if |ws| < NUM_WORDS then |ws| else NUM_WORDS)
    && forall j :: 0 <= j < |found| ==> Fold(found[j]) == ws[j]
  }

  // ----- The same in terms of characters -----

  ghost predicate Listed(found: seq<string>, w: string) {
    exists i :: 0 <= i < |found| && Lowered(found[i]) == w
  }

  /** What is found are words that begin with prefix, in ascending order, and any other such word comes
      after ten of them. */
  ghost predicate LowestTen(found: seq<string>, words: set<string>, prefix: string) {
    && |found| <= 10
    && (forall i :: 0 <= i < |found| ==> Lowered(found[i]) in words && Lowered(prefix) <= Lowered(found[i]))
    && (forall i, j :: 0 <= i < j < |found| ==> IsLower(Lowered(found[i]), Lowered(found[j])))
    && (forall w :: w in words && Lowered(prefix) <= w ==>
          Listed(found, w) || (|found| == 10 && IsLower(Lowered(found[9]), w)))
  }

  lemma FirstTenAreLowest(found: seq<string>, words: set<string>, prefix: string)
    requires FirstTen(found, Completions(words, prefix))
    ensures LowestTen(found, words, prefix)
  {
    hide Fold, Lowered, IsLower;
    var ws :| Enumerates(ws, Completions(words, prefix)) && IsCut(found, ws);
    FoldIsLowered(prefix);
    forall i | 0 <= i < |found| ensures Lowered(found[i]) == ws[i] && ws[i] in Completions(words, prefix) {
      FoldIsLowered(found[i]);
      assert ws[i] in ws;
    }
    forall i, j | 0 <= i < j < |ws| ensures IsLower(ws[i], ws[j]) {
      BeforeMeansLower(ws[i], ws[j]);
    }
    forall w | w in words && Lowered(prefix) <= w
      ensures Listed(found, w) || (|found| == 10 && IsLower(Lowered(found[9]), w))
    {
      assert w in Completions(words, prefix);
      var j :| 0 <= j < |ws| && ws[j] == w;
      if j < |found| {
        assert Lowered(found[j]) == w;
      }
    }
  }

  lemma FinalsPush(nodes: seq<Node>, ns: seq<int>, n: int)
    requires InPool(nodes, ns) && 0 <= n < |nodes|
    ensures InPool(nodes, ns + [n])
    ensures Finals(nodes, ns + [n]) == Finals(nodes, ns) + (if nodes[n].isFinal then [n] else [])
  {
    assert (ns + [n])[..|ns + [n]| - 1] == ns;
  }

  lemma PoolSplit(nodes: seq<Node>, s: seq<int>, t: seq<int>)
    requires InPool(nodes, s + t)
    ensures InPool(nodes, s) && InPool(nodes, t)
  {
    assert forall j :: 0 <= j < |s| ==> (s + t)[j] == s[j];
    assert forall j :: 0 <= j < |t| ==> (s + t)[j + |s|] == t[j];
  }

  lemma {:induction false} FinalsSplit(nodes: seq<Node>, s: seq<int>, t: seq<int>)
    requires InPool(nodes, s + t)
    ensures InPool(nodes, s) && InPool(nodes, t)
    ensures Finals(nodes, s + t) == Finals(nodes, s) + Finals(nodes, t)
    decreases |t|, 0
  {
    PoolSplit(nodes, s, t);
    if t == [] {
      assert s + t == s;
    } else {
      var u, n := t[..|t| - 1], t[|t| - 1];
      assert t == u + [n] && s + t == (s + u) + [n];
      FinalsSplitStep(nodes, s, u, n);
    }
  }

  lemma {:induction false} FinalsSplitStep(nodes: seq<Node>, s: seq<int>, u: seq<int>, n: int)
    requires InPool(nodes, s + u + [n])
    ensures InPool(nodes, s) && InPool(nodes, u + [n])
    ensures Finals(nodes, s + u + [n]) == Finals(nodes, s) + Finals(nodes, u + [n])
    decreases |u|, 1
  {
    hide Finals;
    PoolSplit(nodes, s + u, [n]);
    assert 0 <= [n][0] < |nodes|;
    FinalsSplit(nodes, s, u);
    FinalsPush(nodes, s + u, n);
    FinalsPush(nodes, u, n);
  }

  /** All but the last letter of the prefix are given back as asked for, the rest as in the tree. */
  ghost predicate Respelled(nodes: seq<Node>, spell: seq<string>, prefix: string, w: string)
    requires prefix != "" && |spell| == |nodes|
  {
    exists m :: 0 <= m < |nodes| && nodes[m].isFinal && |prefix| <= |spell[m]|
      && w == prefix[..|prefix| - 1] + spell[m][|prefix| - 1..]
  }

  lemma {:induction false} WordsAreFirstTen(nodes: seq<Node>, spell: seq<string>, root: int, prefix: string,
                         done: seq<int>, rest: seq<int>, words: seq<string>)
    requires Tree(nodes, spell) && 0 <= root < |nodes| && prefix != "" && Fold(spell[root]) == Fold(prefix)
    requires done + rest == Pre(nodes, root) && InPool(nodes, done)
    requires Collected(spell, prefix[..|prefix| - 1], Finals(nodes, done), words)
    requires |words| <= NUM_WORDS && (|words| < NUM_WORDS ==> rest == [])
    ensures FirstTen(words, Completions(Words(nodes, spell), prefix))
    ensures forall w :: w in words ==> Respelled(nodes, spell, prefix, w)
  {
    hide Forest, Named, Finals, Pre, Fold, Words, Enumerates;
    SearchEnumerates(nodes, spell, root);
    FinalsSplit(nodes, done, rest);
    NoFinals(nodes, spell, "");
    var ns := Finals(nodes, done);
    var ws := Listing(spell, Found(nodes, root));
    forall j | 0 <= j < |ns|
      ensures Fold(words[j]) == ws[j] && Respelled(nodes, spell, prefix, words[j])
    {
      assert Found(nodes, root)[j] == ns[j];
      FoundBelow(nodes, spell, root, ns[j]);
    }
    assert Completions(Words(nodes, spell), spell[root]) == Completions(Words(nodes, spell), prefix);
    assert Enumerates(ws, Completions(Words(nodes, spell), prefix)) && IsCut(words, ws);
  }

  lemma FoundBelow(nodes: seq<Node>, spell: seq<string>, n: int, m: int)
    requires Tree(nodes, spell) && 0 <= n < |nodes| && InPool(nodes, Pre(nodes, n)) && m in Found(nodes, n)
    ensures 0 <= m < |nodes| && nodes[m].isFinal && spell[n] <= spell[m]
  {
    hide Forest, Named, Finals, Pre, Alphabetical;
    PreSpells(nodes, spell, n);
    PreIsAlphabetical(nodes, spell, n);
    FinalsAre(nodes, spell, Pre(nodes, n));
  }

  lemma NoFinals(nodes: seq<Node>, spell: seq<string>, base: string)
    ensures InPool(nodes, []) && Collected(spell, base, Finals(nodes, []), [])
  {
  }

  /** The last letter of what a node spells is its own. */
  lemma LastLetter(nodes: seq<Node>, spell: seq<string>, n: int, k: nat)
    requires Tree(nodes, spell) && 0 <= n < |nodes| && |spell[n]| == k + 1
    ensures spell[n][k..] == [nodes[n].c]
  {
    RootSpellsNothing(nodes, spell);
    var p, i := ParentOf(nodes, spell, n);
  }

  class Trie {
    var nodes: seq<Node>
    ghost var spell: seq<string>

    const head: int := 0

    ghost predicate Valid()
      reads this
    {
      Tree(nodes, spell)
    }

    constructor ()
      ensures Valid() && Productive(nodes, spell) && Words(nodes, spell) == {}
    {
      nodes := [NewNode('\0')];
      spell := [""];
      new;
      assert forall i :: 0 <= i < NUM_LATIN_LETTERS ==> Links(nodes, 0, i) && Spelled(nodes, spell, 0, i);
    }

    method GetNewNode(c: char) returns (m: int)
      modifies `nodes
      ensures nodes == old(nodes) + [NewNode(c)] && m == |old(nodes)|
    {
      m := |nodes|;
      nodes := nodes + [NewNode(c)];
    }

    /** One turn of the loop of AddNewWord. */
    method Descend(n: int, s: string, c: char) returns (r: Result<int, TrieErrorType>)
      requires Valid() && 0 <= n < |nodes| && Fold(spell[n]) == Fold(s)
      modifies this
      ensures Valid() && old(spell) <= spell && Words(nodes, spell) == old(Words(nodes, spell))
      ensures CharIndex(c).None? ==> r == Failure(NotAllowedSymbol)
      ensures CharIndex(c).Some? ==> r.Success?
      ensures r.Success? ==> 0 <= r.value < |nodes| && Fold(spell[r.value]) == Fold(s + [c])
      ensures forall m :: |old(spell)| <= m < |spell| ==> NewOnTheWay(spell[m], s + [c])
    {
      hide Forest, Named, Words, Fold, CharIndex;
      var i := CharIndex(c);
      if i == None {
        return Failure(NotAllowedSymbol);
      }
      ChildSpells(nodes, spell, n, i.value);
      FoldPush(s, c);
      FoldPush(spell[n], c);
      if nodes[n].next[i.value] == NULL {
        GrownIsTree(nodes, spell, n, i.value, c);
        GrownKeepsWords(nodes, spell, n, i.value, c);
        var m := GetNewNode(c);
        nodes := nodes[n := nodes[n].(next := nodes[n].next[i.value := m])];
        spell := spell + [spell[n] + [c]];
        assert nodes == Grown(old(nodes), n, i.value, c);
        return Success(m);
      } else {
        var m := nodes[n].next[i.value];
        FoldPush(spell[n], nodes[m].c);
        LettersKeepOrder(nodes[m].c, c, i.value, i.value);
        return Success(m);
      }
    }

    method AddNewWord(word: string) returns (r: Result<(), TrieErrorType>)
      requires Valid()
      modifies this
      ensures Valid() && old(spell) <= spell
      ensures r == if AllLetters(word) then Success(()) else Failure(NotAllowedSymbol)
      ensures Words(nodes, spell) == old(Words(nodes, spell)) + (if AllLetters(word) then {Fold(word)} else {})
      ensures forall m :: |old(spell)| <= m < |spell| ==> NewOnTheWay(spell[m], word)
    {
      hide Forest, Named, Words, Fold, CharIndex;
      var n := head;
      RootSpellsNothing(nodes, spell);
      var i := 0;
      assert word[..0] == "";
      while i < |word|
        invariant 0 <= i <= |word| && AllLetters(word[..i])
        invariant Valid() && old(spell) <= spell && Words(nodes, spell) == old(Words(nodes, spell))
        invariant 0 <= n < |nodes| && Fold(spell[n]) == Fold(word[..i])
        invariant forall m :: |old(spell)| <= m < |spell| ==> NewOnTheWay(spell[m], word[..i])
      {
        assert word[..i] + [word[i]] == word[..i + 1];
        FoldKeepsPrefix(word[..i + 1], word);
        var next := Descend(n, word[..i], word[i]);
        if next.Failure? {
          return Failure(next.error);
        }
        n := next.value;
        i := i + 1;
      }
      assert word[..i] == word;
      EndedIsTree(nodes, spell, n);
      EndedAddsWord(nodes, spell, n);
      nodes := nodes[n := nodes[n].(isFinal := true)];
      return Success(());
    }

    /** Adds words until one is bad, which ends it with an exception. */
    method AddAll(lines: seq<string>) returns (r: Result<(), TrieErrorType>)
      requires Valid()
      modifies this
      ensures Valid()
      ensures r == if forall w :: w in lines ==> AllLetters(w) then Success(()) else Failure(NotAllowedSymbol)
      ensures r.Success? ==> Words(nodes, spell) == old(Words(nodes, spell)) + set w | w in lines :: Fold(w)
      ensures r.Success? && old(Productive(nodes, spell)) ==> Productive(nodes, spell)
    {
      hide Forest, Named, Words, Fold, AllLetters, Productive;
      var i := 0;
      while i < |lines|
        invariant 0 <= i <= |lines| && Valid() && |spell| == |nodes|
        invariant forall w :: w in lines[..i] ==> AllLetters(w)
        invariant Words(nodes, spell) == old(Words(nodes, spell)) + set w | w in lines[..i] :: Fold(w)
        invariant old(Productive(nodes, spell)) ==> Productive(nodes, spell)
      {
        ghost var nodes0, spell0 := nodes, spell;
        var one := AddNewWord(lines[i]);
        if one.Failure? {
          assert lines[i] in lines;
          return Failure(one.error);
        }
        if old(Productive(nodes, spell)) {
          AddingKeepsProductive(nodes0, spell0, nodes, spell, lines[i]);
        }
        assert lines[..i + 1] == lines[..i] + [lines[i]];
        i := i + 1;
      }
      assert lines[..i] == lines;
      return Success(());
    }

    /** The constructor from a file with this text, on the empty tree. */
    method Load(text: string) returns (r: Result<(), TrieErrorType>)
      requires Valid() && Productive(nodes, spell) && Words(nodes, spell) == {}
      modifies this
      ensures Valid() && (r.Success? ==> Productive(nodes, spell))
      ensures r == if forall w :: w in WordsOf(text) ==> AllLetters(w) then Success(()) else Failure(NotAllowedSymbol)
      ensures r.Success? ==> Words(nodes, spell) == set w | w in WordsOf(text) :: Fold(w)
    {
      hide Forest, Named, Words, Fold, Productive, AllLetters;
      var words := ReadWords(text);
      r := AddAll(words);
    }

    /** Finds the node of a prefix, or says what stands in the way at which letter. */
    method GetNodePrefix(prefix: string) returns (r: Result<int, TrieErrorType>)
      requires Valid()
      ensures r.Success? <==> AllLetters(prefix) && HasNode(spell, prefix)
      ensures r.Success? ==> 0 <= r.value < |nodes| && Fold(spell[r.value]) == Fold(prefix)
      ensures r == Failure(NotAllowedSymbol) ==> exists i :: BadLetterAt(prefix, i) && HasNode(spell, prefix[..i])
      ensures r == Failure(NoPrefix) ==> exists i :: DeadEndAt(spell, prefix, i)
    {
      hide Forest, Named, Fold, CharIndex;
      var n := head;
      RootSpellsNothing(nodes, spell);
      var i := 0;
      assert prefix[..0] == "";
      while i < |prefix|
        invariant 0 <= i <= |prefix| && AllLetters(prefix[..i])
        invariant 0 <= n < |nodes| && Fold(spell[n]) == Fold(prefix[..i])
      {
        assert HasNode(spell, prefix[..i]);
        var next := NextNode(n, prefix, i);
        if next.Failure? {
          assert next.error.NoPrefix? || next.error.NotAllowedSymbol?;
          assert AllLetters(prefix) ==> CharIndex(prefix[i]).Some?;
          assert BadLetterAt(prefix, i) || DeadEndAt(spell, prefix, i);
          return next;
        }
        n := next.value;
        i := i + 1;
      }
      assert prefix[..i] == prefix;
      return Success(n);
    }

    /** One turn of the loop of GetNodePrefix. */
    method NextNode(n: int, prefix: string, i: nat) returns (r: Result<int, TrieErrorType>)
      requires Valid() && 0 <= n < |nodes| && i < |prefix|
      requires AllLetters(prefix[..i]) && Fold(spell[n]) == Fold(prefix[..i])
      ensures r == Failure(NotAllowedSymbol) <==> CharIndex(prefix[i]).None?
      ensures r == Failure(NoPrefix) ==>
        AllLetters(prefix[..i + 1]) && !HasNode(spell, prefix[..i + 1]) && !HasNode(spell, prefix)
      ensures r.Success? ==>
        AllLetters(prefix[..i + 1]) && 0 <= r.value < |nodes| && Fold(spell[r.value]) == Fold(prefix[..i + 1])
    {
      hide Forest, Named, Fold, CharIndex;
      var c := prefix[i];
      assert prefix[..i] + [c] == prefix[..i + 1];
      if CharIndex(c).None? {
        return Failure(NotAllowedSymbol);
      }
      var index := CharIndex(c).value;
      ChildSpells(nodes, spell, n, index);
      FoldPush(prefix[..i], c);
      if nodes[n].next[index] == NULL {
        NoChildNoNode(nodes, spell, n, index, prefix[..i], c);
        NoNodeForLonger(nodes, spell, prefix[..i + 1], prefix);
        return Failure(NoPrefix);
      } else {
        var m := nodes[n].next[index];
        FoldPush(spell[n], nodes[m].c);
        LettersKeepOrder(nodes[m].c, c, index, index);
        return Success(m);
      }
    }

    /** Puts the children of p on the stacks, the first in the alphabet on top. */
    method PushChildren(p: int, ns: Stack<int>, marks: Stack<bool>, ghost k: nat, ghost log: seq<Access>)
      returns (ns': Stack<int>, marks': Stack<bool>, ghost log': seq<Access>)
      requires Valid() && 0 <= p < |nodes| && Paired(nodes, ns, marks)
      requires NoneAfterDelete(log) && p !in Deletions(log)
      ensures Pushed(nodes, spell, k, p, 0, ns, marks, ns', marks')
      ensures NoneAfterDelete(log') && Deletions(log') == Deletions(log)
      ensures Reads(log') == Reads(log) + Times(p, NUM_LATIN_LETTERS)
    {
      hide Forest, Named, Pushed, Deletions, Reads, Times, NoneAfterDelete;
      ns', marks', log' := ns, marks, log;
      PushedNothing(nodes, spell, k, p, ns, marks);
      var i: nat := 0;
      assert Reads(log) + Times(p, 0) == Reads(log);
      while i < NUM_LATIN_LETTERS
        invariant 0 <= i <= NUM_LATIN_LETTERS
        invariant Pushed(nodes, spell, k, p, NUM_LATIN_LETTERS - i, ns, marks, ns', marks')
        invariant NoneAfterDelete(log') && Deletions(log') == Deletions(log)
        invariant Reads(log') == Reads(log) + Times(p, i)
      {
        OneMoreTime(Reads(log), p, i);
        OneMoreAccess(log', Read(p));
        log' := log' + [Read(p)];
        ChildSpells(nodes, spell, p, NUM_LATIN_LETTERS - 1 - i);
        var next := nodes[p].next[NUM_LATIN_LETTERS - 1 - i];
        if next != NULL {
          PushedOne(nodes, spell, k, p, NUM_LATIN_LETTERS - 1 - i, ns, marks, ns', marks');
          ns', marks' := Push(next, ns'), Push(false, marks');
        } else {
          PushedNone(nodes, spell, k, p, NUM_LATIN_LETTERS - 1 - i, ns, marks, ns', marks');
        }
        i := i + 1;
      }
    }

    /** The destructor's traversal: the nodes in the order in which they are deleted, and a log of all
        that it reads and deletes. It reads the child pointers of each node as it comes to it. */
    method Destroy() returns (deleted: seq<int>, ghost log: seq<Access>)
      requires Valid()
      ensures deleted == Post(nodes, head) && ChildrenFirst(nodes, deleted) && EachOnce(nodes, deleted)
      ensures Deletions(log) == deleted && NoneAfterDelete(log)
      ensures Reads(log) == ForEachChild(Pre(nodes, head))
    {
      hide Forest, Named, Todo, ToLeave, Pre, PreFrom, Post, PostFrom, Trail, OnTrail, ChildrenFirst, EachOnce,
        Deletions, Reads, ForEachChild, Times, NoneAfterDelete;
      var ns, marks := Push(head, Empty), Push(false, Empty);
      StartTraversal(nodes, spell, 0, head);
      TakenDownOnce(nodes, spell);
      deleted, log := [], [];
      ghost var entered := [];
      NothingDeleted();
      while ns.Push?
        invariant Paired(nodes, ns, marks) && deleted + ToLeave(nodes, ns, marks) == Post(nodes, head)
        invariant Deletions(log) == deleted && NoneAfterDelete(log)
        invariant entered + Todo(nodes, ns, marks) == Pre(nodes, head) && Reads(log) == ForEachChild(entered)
        decreases |Todo(nodes, ns, marks)|, Height(ns)
      {
        ghost var left0 := ToLeave(nodes, ns, marks);
        var p, visited := ns.top, marks.top;
        if !visited {
          VisitTop(nodes, spell, 0, ns, marks);
          NotYet(nodes, deleted, left0, p);
          marks := Push(true, marks.rest);
          var ns', marks', log' := PushChildren(p, ns, marks, 0, log);
          OneMoreForEach(entered, p);
          entered, log := entered + [p], log';
          if p == ns'.top {
            LeaveTop(nodes, spell, 0, ns, marks);
            OneMoreAccess(log, Delete(p));
            deleted, log := deleted + [p], log + [Delete(p)];
            ns, marks := ns'.rest, marks'.rest;
          } else {
            ns, marks := ns', marks';
          }
        } else {
          LeaveTop(nodes, spell, 0, ns, marks);
          NotYet(nodes, deleted, left0, p);
          OneMoreAccess(log, Delete(p));
          deleted, log := deleted + [p], log + [Delete(p)];
          ns, marks := ns.rest, marks.rest;
        }
      }
      NothingLeft(nodes);
      assert entered == Pre(nodes, head);
    }

    /** The state of the search from root in GetWords: done has been visited, words noted down. */
    ghost predicate Searching(root: int, base: string, ns: Stack<int>, marks: Stack<bool>,
                              word: string, done: seq<int>, words: seq<string>)
      reads this
      requires Valid() && 0 <= root < |nodes|
    {
      && Paired(nodes, ns, marks) && OnTrail(nodes, spell, |base|, ns, marks)
      && word == base + Trail(nodes, ns, marks)
      && done + Todo(nodes, ns, marks) == Pre(nodes, root)
      && InPool(nodes, done) && Collected(spell, base, Finals(nodes, done), words)
    }

    /** A turn of the search at a node that has been visited before. */
    lemma LeavingKeepsSearching(root: int, base: string, ns: Stack<int>, marks: Stack<bool>,
                                word: string, done: seq<int>, words: seq<string>)
      requires Valid() && 0 <= root < |nodes| && Searching(root, base, ns, marks, word, done, words)
      requires ns.Push? && marks.top
      ensures word != "" && Searching(root, base, ns.rest, marks.rest, word[..|word| - 1], done, words)
      ensures Todo(nodes, ns.rest, marks.rest) == Todo(nodes, ns, marks)
    {
      hide Forest, Named, Todo, Trail, OnTrail, Finals, Collected, Pre;
      LeaveTop(nodes, spell, |base|, ns, marks);
    }

    /** A turn of the search at a new node, up to the point where its children are looked at. */
    lemma {:induction false} VisitingKeepsSearching(root: int, base: string, ns: Stack<int>, marks: Stack<bool>,
                                 word: string, done: seq<int>, words: seq<string>)
      requires Valid() && 0 <= root < |nodes| && Searching(root, base, ns, marks, word, done, words)
      requires ns.Push? && !marks.top
      ensures var p, word' := ns.top, word + [nodes[ns.top].c];
        && 0 <= p < |nodes| && Paired(nodes, ns, Push(true, marks.rest)) && InPool(nodes, done + [p])
        && word' == base + Trail(nodes, ns, Push(true, marks.rest))
        && |base| <= |spell[p]| && spell[p][|base|..] == Trail(nodes, ns, Push(true, marks.rest))
        && OnTrail(nodes, spell, |base|, ns, Push(true, marks.rest))
        && done + [p] + (PreFrom(nodes, p, 0) + Todo(nodes, ns, Push(true, marks.rest))) == Pre(nodes, root)
        && Collected(spell, base, Finals(nodes, done + [p]), if nodes[p].isFinal then words + [word'] else words)
    {
      hide Forest, Named, Todo, Trail, OnTrail, Finals, Pre, PreFrom;
      VisitTop(nodes, spell, |base|, ns, marks);
      VisitOnTrail(nodes, spell, |base|, ns, marks);
      FinalsPush(nodes, done, ns.top);
    }

    /** A turn of the search at a new node; it stops the search when there are words enough. */
    method LookAt(ghost root: int, ghost base: string, ns: Stack<int>, marks: Stack<bool>, word: string,
                  words: seq<string>, ghost done: seq<int>)
      returns (ns': Stack<int>, marks': Stack<bool>, word': string, words': seq<string>,
               stop: bool, ghost rest: seq<int>)
      requires Valid() && 0 <= root < |nodes| && Searching(root, base, ns, marks, word, done, words)
      requires ns.Push? && !marks.top && |words| < NUM_WORDS
      ensures
        if stop then
          && |words'| == NUM_WORDS && done + [ns.top] + rest == Pre(nodes, root)
          && InPool(nodes, done + [ns.top]) && Collected(spell, base, Finals(nodes, done + [ns.top]), words')
        else
          && |words'| < NUM_WORDS && Searching(root, base, ns', marks', word', done + [ns.top], words')
          && |Todo(nodes, ns', marks')| < |Todo(nodes, ns, marks)|
    {
      hide Forest, Named, Todo, Trail, OnTrail, Finals, Pre, PreFrom, Collected, ToLeave, Deletions, Reads, Times,
        NoneAfterDelete;
      var p := ns.top;
      VisitingKeepsSearching(root, base, ns, marks, word, done, words);
      VisitTop(nodes, spell, |base|, ns, marks);
      ns', marks', word', words', stop, rest := ns, Push(true, marks.rest), word + [nodes[p].c], words, false, [];
      if nodes[p].isFinal {
        words' := words' + [word'];
        if |words'| == NUM_WORDS {
          rest := PreFrom(nodes, p, 0) + Todo(nodes, ns', marks');
          stop := true;
          return;
        }
      }
      NothingDeleted();
      ghost var marked := marks';
      ghost var log;
      ns', marks', log := PushChildren(p, ns, marks', |base|, []);
      if p == ns'.top {
        LeavingKeepsSearching(root, base, ns, marked, word', done + [p], words');
        ns', marks' := ns'.rest, marks'.rest;
        word' := word'[..|word'| - 1];
      }
    }

    method GetWords(prefix: string) returns (r: Result<seq<string>, TrieErrorType>)
      requires Valid() && prefix != ""
      ensures r.Success? <==> AllLetters(prefix) && HasNode(spell, prefix)
      ensures r == Failure(NotAllowedSymbol) ==> exists i :: BadLetterAt(prefix, i) && HasNode(spell, prefix[..i])
      ensures r == Failure(NoPrefix) ==> exists i :: DeadEndAt(spell, prefix, i)
      ensures r.Success? ==> FirstTen(r.value, Completions(Words(nodes, spell), prefix))
      ensures r.Success? ==> LowestTen(r.value, Words(nodes, spell), prefix)
      ensures r.Success? ==> forall w :: w in r.value ==> Respelled(nodes, spell, prefix, w)
    {
      hide Forest, Named, Todo, Trail, OnTrail, Finals, Pre, PreFrom, Collected, FirstTen, CharIndex, Fold, ToLeave,
        Words, Completions, Respelled, LowestTen;
      var base := prefix[..|prefix| - 1];
      var word := base;
      var found := GetNodePrefix(prefix);
      if found.Failure? {
        return Failure(found.error);
      }
      var root := found.value;
      var ns, marks := Push(root, Empty), Push(false, Empty);
      LastLetter(nodes, spell, root, |base|);
      StartTraversal(nodes, spell, |base|, root);
      var words := [];
      ghost var done, rest := [], [];
      NoFinals(nodes, spell, base);
      while ns.Push?
        invariant Searching(root, base, ns, marks, word, done, words)
        invariant |words| < NUM_WORDS && rest == []
        decreases |Todo(nodes, ns, marks)|, Height(ns)
      {
        if !marks.top {
          ghost var p := ns.top;
          var stop;
          ns, marks, word, words, stop, rest := LookAt(root, base, ns, marks, word, words, done);
          done := done + [p];
          if stop {
            break;
          }
          rest := [];
        } else {
          LeavingKeepsSearching(root, base, ns, marks, word, done, words);
          ns, marks := ns.rest, marks.rest;
          word := word[..|word| - 1];
        }
      }
      NothingLeft(nodes);
      WordsAreFirstTen(nodes, spell, root, prefix, done, rest, words);
      FirstTenAreLowest(words, Words(nodes, spell), prefix);
      return Success(words);
    }
  }

  // ----- From a file with a word list to the completions of a prefix -----

  ghost function LoweredWords(words: seq<string>): set<string> {
    set w | w in words :: Lowered(w)
  }

  ghost predicate SomeStartsWith(words: seq<string>, prefix: string) {
    exists w :: w in words && Lowered(prefix) <= Lowered(w)
  }

  /** All before symbol i is well, but that is not a letter. */
  ghost predicate BadSymbolAt(words: seq<string>, prefix: string, i: int) {
    && 0 <= i < |prefix| && AllLatin(prefix[..i]) && !IsLatin(prefix[i])
    && (i > 0 ==> SomeStartsWith(words, prefix[..i]))
  }

  /** All before letter i is well, but no word goes on with that. */
  ghost predicate NothingFrom(words: seq<string>, prefix: string, i: int) {
    && 0 <= i < |prefix| && AllLatin(prefix[..i + 1]) && !SomeStartsWith(words, prefix[..i + 1])
    && (i > 0 ==> SomeStartsWith(words, prefix[..i]))
  }

  /** The words of the tree are those of the file, and its nodes the beginnings of those. */
  lemma LoadedWords(words: seq<string>, loaded: set<string>)
    requires loaded == set w | w in words :: Fold(w)
    ensures loaded == LoweredWords(words)
    ensures forall s :: Completions(loaded, s) != {} <==> SomeStartsWith(words, s)
  {
    hide Fold, Lowered;
    forall w: string ensures Fold(w) == Lowered(w) {
      FoldIsLowered(w);
    }
    forall s ensures Completions(loaded, s) != {} <==> SomeStartsWith(words, s) {
      if Completions(loaded, s) != {} {
        var v :| v in Completions(loaded, s);
        var w :| w in words && Fold(w) == v;
        assert Lowered(s) <= Lowered(w);
      }
      if SomeStartsWith(words, s) {
        var w :| w in words && Lowered(s) <= Lowered(w);
        assert Fold(w) in Completions(loaded, s);
      }
    }
  }

  /** An answer is given exactly if the words that are read and the prefix consist of Latin letters and
      some word begins with the prefix, and it is the ten lowest such words. */
  method Complete(text: string, prefix: string) returns (r: Result<seq<string>, TrieErrorType>)
    requires prefix != ""
    ensures r.Success? <==>
      && (forall w :: w in WordsOf(text) ==> AllLatin(w))
      && AllLatin(prefix) && SomeStartsWith(WordsOf(text), prefix)
    ensures r == Failure(NotAllowedSymbol) ==>
      (exists w :: w in WordsOf(text) && !AllLatin(w)) || exists i :: BadSymbolAt(WordsOf(text), prefix, i)
    ensures r == Failure(NoPrefix) ==>
      (forall w :: w in WordsOf(text) ==> AllLatin(w)) && exists i :: NothingFrom(WordsOf(text), prefix, i)
    ensures r.Success? ==> LowestTen(r.value, LoweredWords(WordsOf(text)), prefix)
  {
    hide Words, Fold, Lowered, Completions, Productive, FirstTen, LowestTen, AllLetters, AllLatin, WordsOf, CharIndex,
      IsLatin, SomeStartsWith, LoweredWords;
    forall w: string ensures AllLetters(w) <==> AllLatin(w) {
      FoldIsLowered(w);
    }
    var t := new Trie();
    var loaded := t.Load(text);
    if loaded.Failure? {
      return Failure(loaded.error);
    }
    LoadedWords(WordsOf(text), Words(t.nodes, t.spell));
    forall s | s != "" ensures HasNode(t.spell, s) <==> SomeStartsWith(WordsOf(text), s) {
      NodeIffCompletion(t.nodes, t.spell, s);
    }
    r := t.GetWords(prefix);
    if r == Failure(NoPrefix) {
      ghost var i :| DeadEndAt(t.spell, prefix, i);
      assert HasNode(t.spell, prefix[..i]) && AllLatin(prefix[..i + 1]);
      assert NothingFrom(WordsOf(text), prefix, i);
    }
    if r == Failure(NotAllowedSymbol) {
      ghost var i :| BadLetterAt(prefix, i) && HasNode(t.spell, prefix[..i]);
      LettersByCode(prefix[i], prefix[i]);
      assert BadSymbolAt(WordsOf(text), prefix, i);
    }
  }
}
