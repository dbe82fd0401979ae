/**
 * The trie of `DictSet` (src/dict/dict_set.rs, src/dict/node.rs) as an arena:
 * node `k` is `ns[k]`, node 0 is the root, and a node's children, parent and
 * suffix are indices.  Nodes are appended when `add_child` allocates them, so
 * a parent always has a smaller index than its child.  A branch that `remove`
 * detaches stays in the arena but is no longer reachable from the root.
 */
module Tries {
  import opened Wrappers
  import opened DictNodes

  type Arena = seq<DictNode>

  /** The arena of `DictSet::new`: the root alone. */
  function Empty(): (ns: Arena)
    ensures Valid(ns) && Unlinked(ns)
    ensures forall u :: InTrie(ns, u) <==> u == []
    ensures forall u :: !IsWord(ns, u)
  {
    var ns := [DictNode.Root()];
    assert forall u :: InTrie(ns, u) <==> u == [] by {
      forall u ensures InTrie(ns, u) <==> u == [] {
        FindEmpty(u);
      }
    }
    ns
  }

  /** In the arena of the root alone only the empty string descends. */
  lemma {:induction false} FindEmpty(u: seq<char>)
    ensures Find([DictNode.Root()], u) == if u == [] then Some(0) else None
    decreases |u|
  {
    if u != [] {
      FindEmpty(u[..|u| - 1]);
    }
  }

  // ---------------------------------------------------------------------------
  // Descending the trie

  /** One transition: from node `o` along character `c` (`get_child`). */
  function Step(ns: Arena, o: Option<nat>, c: char): Option<nat> {
    match o
    case None => None
    case Some(j) => if j < |ns| then ns[j].GetChild(c) else None
  }

  /** The node reached from the root along `u`, if every transition exists. */
  function Find(ns: Arena, u: seq<char>): Option<nat>
    decreases |u|
  {
    if u == [] then Some(0) else Step(ns, Find(ns, u[..|u| - 1]), u[|u| - 1])
  }

  /** `u` is spelled by a path from the root. */
  predicate InTrie(ns: Arena, u: seq<char>) {
    Find(ns, u).Some?
  }

  /** `u` is spelled by a path from the root to a node whose output is a word. */
  predicate IsWord(ns: Arena, u: seq<char>) {
    match Find(ns, u)
    case None => false
    case Some(j) => j < |ns| && ns[j].IsWord()
  }

  /** The string spelled by the parent links from the root down to node `k`. */
  function Path(ns: Arena, k: nat): seq<char>
    decreases k
  {
    if k == 0 || k >= |ns| then []
    else match ns[k].parent
      case None => []
      case Some(p) => if p < k then Path(ns, p) + [ns[k].state] else []
  }

  /** Node `k` hangs from the root: every parent link on its way up is a real edge. */
  predicate Live(ns: Arena, k: nat)
    decreases k
  {
    && k < |ns|
    && (k == 0 ||
        match ns[k].parent
        case None => false
        case Some(p) => p < k && ns[p].GetChild(ns[k].state) == Some(k) && Live(ns, p))
  }

  /** The paths of the reachable word nodes among the first `n` nodes. */
  ghost function WordsBelow(ns: Arena, n: nat): set<seq<char>>
    requires n <= |ns|
    decreases n
  {
    if n == 0 then {}
    else WordsBelow(ns, n - 1) + if Live(ns, n - 1) && ns[n - 1].IsWord() then {Path(ns, n - 1)} else {}
  }

  /** The words of the trie: the paths of the reachable nodes that are words. */
  ghost function WordSet(ns: Arena): set<seq<char>> {
    WordsBelow(ns, |ns|)
  }

  lemma {:induction false} WordsBelowMember(ns: Arena, n: nat, u: seq<char>)
    requires n <= |ns|
    ensures u in WordsBelow(ns, n) <==> exists k | 0 <= k < n :: Live(ns, k) && ns[k].IsWord() && Path(ns, k) == u
    decreases n
  {
    if n > 0 {
      WordsBelowMember(ns, n - 1, u);
    }
  }

  predicate IsPrefix(u: seq<char>, w: seq<char>) {
    |u| <= |w| && w[..|u|] == u
  }

  predicate IsProperSuffix(u: seq<char>, w: seq<char>) {
    |u| < |w| && w[|w| - |u|..] == u
  }

  // ---------------------------------------------------------------------------
  // The invariant every operation keeps

  /** A non-root node: an older parent, not the root, its word is its path, its suffix a proper suffix. */
  ghost predicate NodeOk(ns: Arena, k: nat)
    requires 0 < k < |ns|
  {
    && ns[k].parent.Some? && ns[k].parent.value < k
    && !ns[k].IsRoot()
    && (ns[k].IsWord() ==> ns[k].output.text == Path(ns, k))
    && (ns[k].suffix.Some? ==>
          ns[k].suffix.value < |ns| && IsProperSuffix(Path(ns, ns[k].suffix.value), Path(ns, k)))
  }

  /** Every child entry of node `i` leads to a node whose parent is `i` and whose state is the key. */
  ghost predicate EdgesOk(ns: Arena, i: nat)
    requires i < |ns|
  {
    forall c | c in ns[i].children ::
      && 0 < ns[i].children[c] < |ns|
      && ns[ns[i].children[c]].parent == Some(i)
      && ns[ns[i].children[c]].state == c
  }

  ghost predicate Valid(ns: Arena) {
    && |ns| > 0
    && ns[0].IsRoot() && ns[0].parent == None && ns[0].suffix == None
    && (forall k | 0 < k < |ns| :: NodeOk(ns, k))
    && (forall i | 0 <= i < |ns| :: EdgesOk(ns, i))
  }

  /** Two arenas that agree on the parent and state of the first one's nodes. */
  ghost predicate SameLinks(a: Arena, b: Arena) {
    && |a| <= |b|
    && forall k | 0 <= k < |a| :: b[k].parent == a[k].parent && b[k].state == a[k].state
  }

  /** No node other than the root has a failure link: the trie before `link_suffixes`. */
  predicate Unlinked(ns: Arena) {
    forall k | 0 < k < |ns| :: ns[k].suffix == None
  }

  /** Two arenas of the same nodes with the same child maps. */
  ghost predicate SameChildren(a: Arena, b: Arena) {
    && |a| == |b|
    && forall k | 0 <= k < |a| :: b[k].children == a[k].children
  }

  // ---------------------------------------------------------------------------
  // Arena updates

  /**
   * `add_child(c, p)`: a fresh node with state `c`, output `No`, no children
   * and parent `p` is allocated, and `p`'s entry for `c` (old or not) now
   * leads to it; no other entry and no other node changes.
   */
  function AddChild(ns: Arena, p: nat, c: char): (r: Arena)
    requires p < |ns|
    ensures |r| == |ns| + 1
    ensures r[p].HasChild(c) && r[p].children[c] == |ns|
    ensures forall d | d != c :: r[p].HasChild(d) == ns[p].HasChild(d)
    ensures forall d | d != c && ns[p].HasChild(d) :: r[p].HasChild(d) && r[p].children[d] == ns[p].children[d]
    ensures r[p].(children := ns[p].children) == ns[p]
    ensures r[|ns|].state == c && r[|ns|].output == No && r[|ns|].GetChildren() == {}
    ensures r[|ns|].parent == Some(p) && r[|ns|].suffix == None
    ensures forall k | 0 <= k < |ns| && k != p :: r[k] == ns[k]
  {
    ns[p := ns[p].WithChild(c, |ns|)] + [DictNode.New(c).(parent := Some(p))]
  }

  /** A prefix one character longer. */
  lemma {:induction false} TakeNext(w: seq<char>, i: nat)
    requires i < |w|
    ensures w[..i + 1] == w[..i] + [w[i]]
  {
  }

  /** Dropping the entry `c` of node `p` (`children.remove`); nothing else changes. */
  function RemoveChild(ns: Arena, p: nat, c: char): (r: Arena)
    requires p < |ns|
    ensures |r| == |ns| && !r[p].HasChild(c)
    ensures forall d | d != c :: r[p].HasChild(d) == ns[p].HasChild(d)
    ensures forall d | d != c && ns[p].HasChild(d) :: r[p].HasChild(d) && r[p].children[d] == ns[p].children[d]
    ensures r[p].(children := ns[p].children) == ns[p]
    ensures forall k | 0 <= k < |ns| && k != p :: r[k] == ns[k]
  {
    ns[p := ns[p].(children := ns[p].children - {c})]
  }

  // ---------------------------------------------------------------------------
  // Lemmas about descending

  lemma {:induction false} FindSnoc(ns: Arena, u: seq<char>, c: char)
    ensures Find(ns, u + [c]) == Step(ns, Find(ns, u), c)
  {
    assert (u + [c])[..|u|] == u;
  }

  /** Prefix closure: every prefix of a path is a path. */
  lemma {:induction false} FindPrefix(ns: Arena, u: seq<char>, i: nat)
    requires InTrie(ns, u) && i <= |u|
    ensures InTrie(ns, u[..i])
    decreases |u|
  {
    if i < |u| {
      assert u[..|u| - 1][..i] == u[..i];
      FindPrefix(ns, u[..|u| - 1], i);
    } else {
      assert u[..i] == u;
    }
  }

  /** A node's parent path extended by its state is its path. */
  lemma {:induction false} PathStep(ns: Arena, k: nat)
    requires Valid(ns) && 0 < k < |ns|
    ensures ns[k].parent.Some? && ns[k].parent.value < k
    ensures Path(ns, k) == Path(ns, ns[k].parent.value) + [ns[k].state]
  {
    assert NodeOk(ns, k);
  }

  /** Descending along the path of a reachable node reaches that node. */
  lemma {:induction false} FindPath(ns: Arena, k: nat)
    requires Valid(ns) && Live(ns, k)
    ensures Find(ns, Path(ns, k)) == Some(k)
    decreases k
  {
    if k != 0 {
      var p := ns[k].parent.value;
      FindPath(ns, p);
      FindSnoc(ns, Path(ns, p), ns[k].state);
    }
  }

  /** What a descent reaches is a reachable node whose path is the string descended. */
  lemma {:induction false} FindLive(ns: Arena, u: seq<char>)
    requires Valid(ns) && InTrie(ns, u)
    ensures Find(ns, u).value < |ns|
    ensures Live(ns, Find(ns, u).value) && Path(ns, Find(ns, u).value) == u
    decreases |u|
  {
    if u != [] {
      var v, c := u[..|u| - 1], u[|u| - 1];
      assert u == v + [c];
      FindLive(ns, v);
      var i := Find(ns, v).value;
      var j := Find(ns, u).value;
      assert EdgesOk(ns, i);
      assert ns[i].children[c] == j;
      assert NodeOk(ns, j);
    }
  }

  /** A string whose prefix is not spelled is not spelled either. */
  lemma {:induction false} PrefixClosed(ns: Arena, u: seq<char>, i: nat)
    requires i <= |u|
    ensures InTrie(ns, u) ==> InTrie(ns, u[..i])
  {
    if InTrie(ns, u) {
      FindPrefix(ns, u, i);
    }
  }

  /** The node of a non-empty string hangs, by the string's last character, from the node of the rest. */
  lemma {:induction false} FindParent(ns: Arena, u: seq<char>)
    requires Valid(ns) && InTrie(ns, u) && u != []
    ensures InTrie(ns, u[..|u| - 1]) && Find(ns, u[..|u| - 1]).value < |ns|
    ensures Find(ns, u).value < |ns| && ns[Find(ns, u).value].parent == Find(ns, u[..|u| - 1])
    ensures ns[Find(ns, u).value].state == u[|u| - 1]
  {
    FindLive(ns, u);
    var v := u[..|u| - 1];
    FindLive(ns, v);
    assert EdgesOk(ns, Find(ns, v).value);
  }

  /** Only removing words: the set of words does not grow. */
  lemma {:induction false} WordSetShrinks(a: Arena, b: Arena)
    requires Valid(a) && Valid(b) && forall u | IsWord(b, u) :: IsWord(a, u)
    ensures WordSet(b) <= WordSet(a) && |WordSet(b)| <= |WordSet(a)|
  {
    forall u | u in WordSet(b) ensures u in WordSet(a) {
      WordSetIsWords(a, u);
      WordSetIsWords(b, u);
    }
    var wa, wb := WordSet(a), WordSet(b);
    assert wa == wb + (wa - wb);
  }

  /** Paths name nodes uniquely among the reachable ones. */
  lemma {:induction false} PathInjective(ns: Arena, j: nat, k: nat)
    requires Valid(ns) && Live(ns, j) && Live(ns, k) && Path(ns, j) == Path(ns, k)
    ensures j == k
  {
    FindPath(ns, j);
    FindPath(ns, k);
  }

  /** The children of a reachable node are reachable. */
  lemma {:induction false} LiveChild(ns: Arena, p: nat, c: char)
    requires Valid(ns) && Live(ns, p) && ns[p].HasChild(c)
    ensures Live(ns, ns[p].children[c]) && Path(ns, ns[p].children[c]) == Path(ns, p) + [c]
    ensures Find(ns, Path(ns, p) + [c]) == Some(ns[p].children[c])
  {
    FindPath(ns, p);
    FindSnoc(ns, Path(ns, p), c);
    FindLive(ns, Path(ns, p) + [c]);
  }

  /** The root is the only node whose output is `Root`, and its path is empty. */
  lemma {:induction false} RootFacts(ns: Arena, k: nat)
    requires Valid(ns) && k < |ns|
    ensures ns[k].IsRoot() <==> k == 0
    ensures k == 0 ==> Live(ns, k) && Path(ns, k) == []
    ensures Live(ns, k) && k != 0 ==> |Path(ns, k)| > 0
  {
    if k != 0 {
      assert NodeOk(ns, k);
    }
  }

  /** The words of the trie are exactly the strings `IsWord` accepts. */
  lemma {:induction false} WordSetIsWords(ns: Arena, u: seq<char>)
    requires Valid(ns)
    ensures u in WordSet(ns) <==> IsWord(ns, u)
  {
    WordsBelowMember(ns, |ns|, u);
    if u in WordSet(ns) {
      var k :| 0 <= k < |ns| && Live(ns, k) && ns[k].IsWord() && Path(ns, k) == u;
      FindPath(ns, k);
    }
    if IsWord(ns, u) {
      FindLive(ns, u);
    }
  }

  // ---------------------------------------------------------------------------
  // What the updates preserve

  /** Paths depend only on the parent and state fields. */
  lemma {:induction false} PathStable(a: Arena, b: Arena, k: nat)
    requires SameLinks(a, b) && k < |a|
    ensures Path(b, k) == Path(a, k)
    decreases k
  {
    if k != 0 && a[k].parent.Some? && a[k].parent.value < k {
      PathStable(a, b, a[k].parent.value);
    }
  }

  /** Descents depend only on the child maps. */
  lemma {:induction false} FindSameChildren(a: Arena, b: Arena, u: seq<char>)
    requires SameChildren(a, b)
    ensures Find(b, u) == Find(a, u)
    decreases |u|
  {
    if u != [] {
      FindSameChildren(a, b, u[..|u| - 1]);
    }
  }

  /** Reachability depends only on the parent, state and child fields. */
  lemma {:induction false} LiveSameShape(a: Arena, b: Arena, k: nat)
    requires SameLinks(a, b) && SameChildren(a, b)
    ensures Live(b, k) == Live(a, k)
    decreases k
  {
    if k != 0 && k < |a| && a[k].parent.Some? && a[k].parent.value < k {
      LiveSameShape(a, b, a[k].parent.value);
    }
  }

  /**
   * Replacing node `k` by `n` keeps the invariant when `n` keeps the parent
   * and state, drops no more than child entries, and its output and suffix are
   * allowed for `k`.
   */
  lemma {:induction false} ValidReplace(ns: Arena, k: nat, n: DictNode)
    requires Valid(ns) && k < |ns|
    requires n.parent == ns[k].parent && n.state == ns[k].state
    requires forall c | c in n.children :: c in ns[k].children && n.children[c] == ns[k].children[c]
    requires k == 0 ==> n.IsRoot() && n.suffix == None
    requires k != 0 ==> !n.IsRoot()
    requires n.IsWord() ==> n.output.text == Path(ns, k)
    requires n.suffix.Some? ==> n.suffix.value < |ns| && IsProperSuffix(Path(ns, n.suffix.value), Path(ns, k))
    ensures Valid(ns[k := n])
    ensures SameLinks(ns, ns[k := n]) && SameLinks(ns[k := n], ns)
  {
    var r := ns[k := n];
    assert SameLinks(ns, r);
    forall i | 0 <= i < |ns| ensures Path(r, i) == Path(ns, i) {
      PathStable(ns, r, i);
    }
    forall i | 0 < i < |r| ensures NodeOk(r, i) {
      assert NodeOk(ns, i);
    }
    forall i | 0 <= i < |r| ensures EdgesOk(r, i) {
      assert EdgesOk(ns, i);
    }
  }

  /** `add_child` keeps the invariant and every existing path. */
  lemma {:induction false} ValidAddChild(ns: Arena, p: nat, c: char)
    requires Valid(ns) && p < |ns|
    ensures Valid(AddChild(ns, p, c)) && SameLinks(ns, AddChild(ns, p, c))
    ensures Path(AddChild(ns, p, c), |ns|) == Path(ns, p) + [c]
  {
    var r := AddChild(ns, p, c);
    assert SameLinks(ns, r);
    forall i | 0 <= i < |ns| ensures Path(r, i) == Path(ns, i) {
      PathStable(ns, r, i);
    }
    forall i | 0 < i < |r| ensures NodeOk(r, i) {
      if i < |ns| {
        assert NodeOk(ns, i);
      }
    }
    forall i | 0 <= i < |r| ensures EdgesOk(r, i) {
      if i < |ns| {
        assert EdgesOk(ns, i);
      }
    }
  }

  /**
   * Adding a missing child to a reachable node adds exactly one path, to the
   * new node, and leaves every other descent as it was.
   */
  lemma {:induction false} FindAddChild(ns: Arena, p: nat, c: char, u: seq<char>)
    requires Valid(ns) && Live(ns, p) && !ns[p].HasChild(c)
    ensures Find(AddChild(ns, p, c), u) == if u == Path(ns, p) + [c] then Some(|ns|) else Find(ns, u)
    decreases |u|
  {
    var r := AddChild(ns, p, c);
    var w := Path(ns, p) + [c];
    if u != [] {
      var v, d := u[..|u| - 1], u[|u| - 1];
      assert u == v + [d];
      FindAddChild(ns, p, c, v);
      FindPath(ns, p);
      FindSnoc(ns, Path(ns, p), c);
      if v == w {
        assert Find(r, v) == Some(|ns|);
      } else if Find(ns, v).Some? {
        var j := Find(ns, v).value;
        FindLive(ns, v);
        if j == p {
          assert Path(ns, p) == v;
          assert u != w ==> d != c;
        }
      } else {
        assert v != Path(ns, p);
      }
    }
  }

  /** Dropping a child entry keeps the invariant and every path. */
  lemma {:induction false} ValidRemoveChild(ns: Arena, p: nat, c: char)
    requires Valid(ns) && p < |ns|
    ensures Valid(RemoveChild(ns, p, c))
    ensures SameLinks(ns, RemoveChild(ns, p, c)) && SameLinks(RemoveChild(ns, p, c), ns)
  {
    if p != 0 {
      assert NodeOk(ns, p);
    }
    ValidReplace(ns, p, RemoveChild(ns, p, c)[p]);
    assert RemoveChild(ns, p, c) == ns[p := RemoveChild(ns, p, c)[p]];
  }

  /**
   * Dropping the entry `c` of reachable node `p` cuts off exactly the strings
   * that extend `Path(p) + [c]`.
   */
  lemma {:induction false} FindRemoveEdge(ns: Arena, p: nat, c: char, u: seq<char>)
    requires Valid(ns) && Live(ns, p)
    ensures Find(RemoveChild(ns, p, c), u) == if IsPrefix(Path(ns, p) + [c], u) then None else Find(ns, u)
    decreases |u|
  {
    var r := RemoveChild(ns, p, c);
    assert r == ns[p := ns[p].(children := ns[p].children - {c})];
    var w := Path(ns, p) + [c];
    if u != [] {
      var v, d := u[..|u| - 1], u[|u| - 1];
      assert u == v + [d];
      FindRemoveEdge(ns, p, c, v);
      if IsPrefix(w, v) {
        assert IsPrefix(w, u) by {
          assert u[..|w|] == v[..|w|];
        }
      } else if u == w {
        FindPath(ns, p);
        assert v == Path(ns, p);
        assert IsPrefix(w, u);
      } else {
        assert !IsPrefix(w, u);
        if Find(ns, v).Some? {
          var j := Find(ns, v).value;
          FindLive(ns, v);
          if j == p {
            assert d != c;
          }
        }
      }
    }
  }
}
