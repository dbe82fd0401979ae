/**
 * `DictSet::remove` (src/dict/dict_set.rs:72-100) as functions on the arena:
 * the descent that fails on a missing transition, the unmarking of the
 * landing node and the prune loop over the recorded path, together with a
 * corrected removal that keeps every other word.
 */
module TrieRemove {
  import opened Wrappers
  import opened DictNodes
  import opened Tries
  import opened TrieInsert

  /** The node `u` leads to is the root or a word: where the prune loop of `remove` stops. */
  predicate StopsAt(ns: Arena, u: seq<char>) {
    match Find(ns, u)
    case None => false
    case Some(j) => j < |ns| && (ns[j].IsRoot() || ns[j].IsWord())
  }

  /** Position `m` of `w` is one where the prune loop stops. */
  predicate StopsBelow(ns: Arena, w: seq<char>, m: nat) {
    1 <= m <= |w| && StopsAt(ns, w[..m - 1])
  }

  /**
   * The prune loop pops the path nodes `w[..j]` for `j` from `|w|` down and
   * stops at the first one whose parent, the node of `w[..j - 1]`, is the
   * root or a word.  The parent of the first path node is the root, so the
   * loop always stops, after at most `|w|` pops.
   */
  function PruneDepth(ns: Arena, w: seq<char>, j: nat): (d: nat)
    requires Valid(ns) && 1 <= j <= |w|
    ensures 1 <= d <= j && StopsBelow(ns, w, d)
    ensures forall m | d < m <= j :: !StopsBelow(ns, w, m)
    decreases j
  {
    assert w[..0] == [];
    if StopsAt(ns, w[..j - 1]) then j else PruneDepth(ns, w, j - 1)
  }

  /**
   * The stack `remove` builds while descending along `w`: the nodes of `w`,
   * of `w` without its last character, and so on up to the first
   * character, the deepest on top.
   */
  ghost function PathStack(ns: Arena, w: seq<char>): (s: seq<nat>)
    requires InTrie(ns, w)
    ensures |s| == |w|
    decreases |w|
  {
    if w == [] then []
    else
      FindPrefix(ns, w, |w| - 1);
      [Find(ns, w).value] + PathStack(ns, w[..|w| - 1])
  }

  /** Popping the stack of `w[..j]` yields the node of `w[..j]`, a child of the node of `w[..j - 1]`, and leaves the stack of `w[..j - 1]`. */
  lemma {:induction false} PathStackPop(ns: Arena, w: seq<char>, j: nat)
    requires Valid(ns) && 0 < j <= |w| && InTrie(ns, w[..j])
    ensures InTrie(ns, w[..j - 1]) && PathStack(ns, w[..j]) == [Find(ns, w[..j]).value] + PathStack(ns, w[..j - 1])
    ensures Find(ns, w[..j]).value < |ns| && ns[Find(ns, w[..j]).value].parent == Find(ns, w[..j - 1])
    ensures ns[Find(ns, w[..j]).value].state == w[j - 1] && Find(ns, w[..j - 1]).value < |ns|
  {
    FindParent(ns, w[..j]);
    assert w[..j][..j - 1] == w[..j - 1];
  }

  /** Overwriting the output of node `k` with `No` (line 85). */
  function Unmark(ns: Arena, k: nat): (r: Arena)
    requires Valid(ns) && 0 < k < |ns|
    ensures Valid(r) && SameLinks(ns, r) && SameLinks(r, ns) && SameChildren(ns, r)
    ensures Unlinked(ns) ==> Unlinked(r)
    ensures forall u :: Find(r, u) == Find(ns, u)
    ensures forall u :: IsWord(r, u) <==> IsWord(ns, u) && Find(ns, u) != Some(k)
  {
    var r := ns[k := ns[k].(output := No)];
    assert NodeOk(ns, k);
    ValidReplace(ns, k, r[k]);
    assert forall u :: Find(r, u) == Find(ns, u) by {
      forall u ensures Find(r, u) == Find(ns, u) {
        FindSameChildren(ns, r, u);
      }
    }
    r
  }

  /** Unmarking a node changes no descent, hence not the stack of visited nodes either. */
  lemma {:induction false} PathStackUnmark(ns: Arena, k: nat, w: seq<char>)
    requires Valid(ns) && 0 < k < |ns| && InTrie(ns, w)
    ensures InTrie(Unmark(ns, k), w) && PathStack(Unmark(ns, k), w) == PathStack(ns, w)
    decreases |w|
  {
    if w != [] {
      FindPrefix(ns, w, |w| - 1);
      PathStackUnmark(ns, k, w[..|w| - 1]);
    }
  }

  /** Dropping the edge into the node of `w[..d]` from its parent, the node of `w[..d - 1]`. */
  function Cut(ns: Arena, w: seq<char>, d: nat): (r: Arena)
    requires Valid(ns) && 1 <= d <= |w| && InTrie(ns, w[..d])
    ensures Valid(r) && SameLinks(ns, r) && SameLinks(r, ns)
    ensures Unlinked(ns) ==> Unlinked(r)
    ensures InTrie(ns, w[..d - 1]) && Find(ns, w[..d - 1]).value < |ns|
    ensures ns[Find(ns, w[..d - 1]).value].HasChild(w[d - 1])
    ensures r == RemoveChild(ns, Find(ns, w[..d - 1]).value, w[d - 1])
    ensures forall u :: Find(r, u) == if IsPrefix(w[..d], u) then None else Find(ns, u)
    ensures forall u :: IsWord(r, u) <==> IsWord(ns, u) && !IsPrefix(w[..d], u)
  {
    FindPrefix(ns, w[..d], d - 1);
    assert w[..d][..d - 1] == w[..d - 1];
    assert w[..d] == w[..d - 1] + [w[d - 1]];
    FindSnoc(ns, w[..d - 1], w[d - 1]);
    FindLive(ns, w[..d - 1]);
    var p := Find(ns, w[..d - 1]).value;
    var r := RemoveChild(ns, p, w[d - 1]);
    ValidRemoveChild(ns, p, w[d - 1]);
    assert forall u :: Find(r, u) == if IsPrefix(w[..d], u) then None else Find(ns, u) by {
      forall u ensures Find(r, u) == if IsPrefix(w[..d], u) then None else Find(ns, u) {
        FindRemoveEdge(ns, p, w[d - 1], u);
      }
    }
    r
  }

  /**
   * `remove(w)` as written: a missing transition is a `DictSetError` and
   * changes nothing; a path that is not a word is `Ok` and changes nothing;
   * a word is unmarked and, when its node has no children, the prune loop
   * drops one edge.  The counter is not touched.
   */
  function Remove(ns: Arena, w: seq<char>): (r: (Arena, Result<(), Error>))
    requires Valid(ns)
    ensures Valid(r.0) && SameLinks(ns, r.0)
    ensures Unlinked(ns) ==> Unlinked(r.0)
    ensures !InTrie(ns, w) ==> r == (ns, Failure(DictSetError))
    ensures InTrie(ns, w) && !IsWord(ns, w) ==> r == (ns, Success(()))
    ensures IsWord(ns, w) ==> r.1 == Success(()) && !IsWord(r.0, w)
    ensures forall u | IsWord(r.0, u) :: IsWord(ns, u) && u != w
    ensures forall u | InTrie(r.0, u) :: InTrie(ns, u)
  {
    match Find(ns, w)
    case None => (ns, Failure(DictSetError))
    case Some(k) =>
      FindLive(ns, w);
      if !ns[k].IsWord() then (ns, Success(()))
      else
        RootFacts(ns, k);
        var ns1 := Unmark(ns, k);
        assert forall u | Find(ns, u) == Some(k) :: u == w by {
          forall u | Find(ns, u) == Some(k) ensures u == w {
            FindLive(ns, u);
          }
        }
        if ns1[k].children == map[] then
          var d := PruneDepth(ns1, w, |w|);
          FindPrefix(ns1, w, d);
          (Cut(ns1, w, d), Success(()))
        else
          (ns1, Success(()))
  }

  /** When the word's node has children nothing is pruned: only `w` stops being a word. */
  lemma {:induction false} RemoveInner(ns: Arena, w: seq<char>)
    requires Valid(ns) && IsWord(ns, w) && ns[Find(ns, w).value].children != map[]
    ensures forall u :: InTrie(Remove(ns, w).0, u) <==> InTrie(ns, u)
    ensures forall u :: IsWord(Remove(ns, w).0, u) <==> IsWord(ns, u) && u != w
  {
    var k := Find(ns, w).value;
    FindLive(ns, w);
    assert forall u | Find(ns, u) == Some(k) :: u == w by {
      forall u | Find(ns, u) == Some(k) ensures u == w {
        FindLive(ns, u);
      }
    }
  }

  /**
   * When the word's node has no children, exactly one edge is dropped: the
   * one into the node of `w[..d]`, where `d` is the deepest position whose
   * parent node is the root or a word once `w` is unmarked.  Every string
   * extending `w[..d]` leaves the trie, and with it every word extending it.
   */
  lemma {:induction false} RemovePruned(ns: Arena, w: seq<char>)
    requires Valid(ns) && IsWord(ns, w) && ns[Find(ns, w).value].children == map[]
    ensures 0 < Find(ns, w).value
    ensures
      var ns1 := Unmark(ns, Find(ns, w).value);
      var d := PruneDepth(ns1, w, |w|);
      && InTrie(ns1, w[..d - 1])
      && Remove(ns, w).0 == RemoveChild(ns1, Find(ns1, w[..d - 1]).value, w[d - 1])
      && (forall u :: InTrie(Remove(ns, w).0, u) <==> InTrie(ns, u) && !IsPrefix(w[..d], u))
      && (forall u :: IsWord(Remove(ns, w).0, u) <==> IsWord(ns, u) && u != w && !IsPrefix(w[..d], u))
  {
    var k := Find(ns, w).value;
    FindLive(ns, w);
    RootFacts(ns, k);
    var ns1 := Unmark(ns, k);
    var d := PruneDepth(ns1, w, |w|);
    FindPrefix(ns1, w, d);
    assert forall u | Find(ns, u) == Some(k) :: u == w by {
      forall u | Find(ns, u) == Some(k) ensures u == w {
        FindLive(ns, u);
      }
    }
  }

  // ---------------------------------------------------------------------------
  // Consequences of the code as written

  /**
   * Removing "abc" from the words {"abc", "abd"} also loses "abd": the prune
   * loop passes "ab", which is neither the root nor a word, and drops the
   * edge 'a' from the root although "ab" has a second child.
   */
  lemma {:induction false} RemoveLosesSibling()
    ensures
      var ns := Insert2("abc", "abd");
      IsWord(ns, "abd") && !IsWord(Remove(ns, "abc").0, "abd")
  {
    var ns := Insert2("abc", "abd");
    var w, v := "abc", "abd";
    Leaf2(w, v);
    var k := Find(ns, w).value;
    assert 0 < k by {
      RemovePruned(ns, w);
    }
    assert PruneDepth(Unmark(ns, k), w, |w|) == 1 by {
      PassesInner(Unmark(ns, k), w, v);
    }
    LosesSibling(ns, w, v);
  }

  /** When the prune loop stops at depth one, every word sharing the first character of `w` is lost. */
  lemma {:induction false} LosesSibling(ns: Arena, w: seq<char>, v: seq<char>)
    requires Valid(ns) && IsWord(ns, w) && ns[Find(ns, w).value].children == map[] && 0 < Find(ns, w).value
    requires PruneDepth(Unmark(ns, Find(ns, w).value), w, |w|) == 1
    requires v != [] && w[0] == v[0]
    ensures !IsWord(Remove(ns, w).0, v)
  {
    RemovePruned(ns, w);
    assert w[..1] == [w[0]] && v[..1] == [v[0]];
  }

  /** In the dictionary {`x`, `y`} the node of `x` is a leaf when `x` is not a proper prefix of `y`. */
  lemma {:induction false} Leaf2(x: seq<char>, y: seq<char>)
    requires x != [] && !(|x| < |y| && IsPrefix(x, y))
    ensures IsWord(Insert2(x, y), x)
    ensures Insert2(x, y)[Find(Insert2(x, y), x).value].children == map[]
  {
    var ns := Insert2(x, y);
    var k := Find(ns, x).value;
    forall c ensures c !in ns[k].children {
      ChildOf2(ns, x, y, c);
    }
    assert ns[k].children == map[];
  }

  /** In a trie of the prefixes of `x` and `y` the node of `x` has a child only when `x` is a proper prefix of `y`. */
  lemma {:induction false} ChildOf2(ns: Arena, x: seq<char>, y: seq<char>, c: char)
    requires Valid(ns) && forall u :: InTrie(ns, u) <==> IsPrefix(u, x) || IsPrefix(u, y)
    ensures InTrie(ns, x) && Find(ns, x).value < |ns|
    ensures c in ns[Find(ns, x).value].children ==> |x| < |y| && IsPrefix(x, y)
  {
    assert IsPrefix(x, x);
    var k := Find(ns, x).value;
    FindLive(ns, x);
    if c in ns[k].children {
      LiveChild(ns, k, c);
      var v := x + [c];
      assert InTrie(ns, v);
      assert !IsPrefix(v, x);
      assert y[..|x|] == v[..|x|] == x;
    }
  }

  /** In the dictionary {"abc", "abd"}, with "abc" unmarked, neither "a" nor "ab" stops the prune loop. */
  lemma {:induction false} PassesInner(ns1: Arena, x: seq<char>, y: seq<char>)
    requires x == "abc" && y == "abd"
    requires Valid(ns1) && SameChildren(Insert2(x, y), ns1)
    requires forall u :: IsWord(ns1, u) ==> IsWord(Insert2(x, y), u)
    ensures !StopsBelow(ns1, x, 3) && !StopsBelow(ns1, x, 2)
  {
    var ns := Insert2(x, y);
    assert IsPrefix(x, x);
    PassesShort(ns, ns1, x);
  }

  /** In a trie holding the three-letter `x` whose two shorter prefixes are not words, unmarking words leaves neither prefix a stop. */
  lemma {:induction false} PassesShort(ns: Arena, ns1: Arena, x: seq<char>)
    requires Valid(ns) && Valid(ns1) && SameChildren(ns, ns1)
    requires forall u :: IsWord(ns1, u) ==> IsWord(ns, u)
    requires |x| == 3 && InTrie(ns, x) && forall u | 0 < |u| < 3 :: !IsWord(ns, u)
    ensures !StopsBelow(ns1, x, 3) && !StopsBelow(ns1, x, 2)
  {
    FindPrefix(ns, x, 2);
    FindPrefix(ns, x, 1);
    NotStopsSame(ns, ns1, x[..2]);
    NotStopsSame(ns, ns1, x[..1]);
  }

  /** A non-word of the trie still stops nothing after words are unmarked. */
  lemma {:induction false} NotStopsSame(ns: Arena, ns1: Arena, u: seq<char>)
    requires Valid(ns) && Valid(ns1) && SameChildren(ns, ns1)
    requires forall v :: IsWord(ns1, v) ==> IsWord(ns, v)
    requires InTrie(ns, u) && u != [] && !IsWord(ns, u)
    ensures !StopsAt(ns1, u)
  {
    FindSameChildren(ns, ns1, u);
    NotStops(ns1, u);
  }

  /** A non-empty string of the trie that is not a word leads to neither the root nor a word. */
  lemma {:induction false} NotStops(ns: Arena, u: seq<char>)
    requires Valid(ns) && InTrie(ns, u) && u != [] && !IsWord(ns, u)
    ensures !StopsAt(ns, u)
  {
    FindLive(ns, u);
    RootFacts(ns, Find(ns, u).value);
  }

  /** The dictionary of two words, built by `insert`. */
  function Insert2(x: seq<char>, y: seq<char>): (ns: Arena)
    ensures Valid(ns)
    ensures forall u :: IsWord(ns, u) <==> (u == x || u == y) && u != []
    ensures forall u :: InTrie(ns, u) <==> IsPrefix(u, x) || IsPrefix(u, y)
  {
    var e := Empty();
    assert forall u :: IsPrefix(u, x) ==> InTrie(Insert(e, x).0, u);
    Insert(Insert(e, x).0, y).0
  }

  /** A path that is not a word, such as the prefix "a" of the only word "ab", is removed with `Ok`. */
  lemma {:induction false} RemovePrefixOk()
    ensures
      var ns := Insert(Empty(), "ab").0;
      InTrie(ns, "a") && !IsWord(ns, "a") && Remove(ns, "a").1 == Success(())
  {
    assert IsPrefix("a", "ab");
  }

  /**
   * Removing the only word "a" leaves no word, while the counter that its
   * insertion incremented is never decremented.
   */
  lemma {:induction false} RemoveKeepsCount()
    ensures Insert(Empty(), "a").1
    ensures WordSet(Remove(Insert(Empty(), "a").0, "a").0) == {}
  {
    var ns := Insert(Empty(), "a").0;
    var r := Remove(ns, "a").0;
    forall u | u in WordSet(r) ensures false {
      WordSetIsWords(r, u);
    }
  }

  // ---------------------------------------------------------------------------
  // The intended removal

  /** The node `u` leads to has more than one child. */
  predicate Branches(ns: Arena, u: seq<char>) {
    match Find(ns, u)
    case None => false
    case Some(j) => j < |ns| && |ns[j].children| > 1
  }

  /** Position `m` of `w` is one where pruning must stop: its parent is the root, a word or a branch point. */
  predicate KeepsBelow(ns: Arena, w: seq<char>, m: nat) {
    1 <= m <= |w| && (StopsAt(ns, w[..m - 1]) || Branches(ns, w[..m - 1]))
  }

  /** The corrected prune loop: it also stops at a parent that has other children. */
  function CutDepth(ns: Arena, w: seq<char>, j: nat): (d: nat)
    requires Valid(ns) && 1 <= j <= |w|
    ensures 1 <= d <= j && KeepsBelow(ns, w, d)
    ensures forall m | d < m <= j :: !KeepsBelow(ns, w, m)
    decreases j
  {
    assert w[..0] == [];
    if KeepsBelow(ns, w, j) then j else CutDepth(ns, w, j - 1)
  }

  /** Two keys of a map with at most one entry are the same key. */
  lemma {:induction false} OneKey(m: map<char, nat>, a: char, b: char)
    ensures a in m && b in m && a != b ==> |m| >= 2
  {
    if a in m && b in m && a != b {
      var rest := m.Keys - {a};
      assert b in rest;
      assert |m.Keys| == |rest| + 1;
    }
  }

  /**
   * Below position `d` the path of an unmarked leaf `w` is a chain of
   * non-word nodes with one child each: every string of the trie extending
   * `w[..d]` is a prefix of `w` and not a word.
   */
  lemma {:induction false} DeadChain(ns: Arena, w: seq<char>, d: nat, u: seq<char>)
    requires Valid(ns) && InTrie(ns, w) && !IsWord(ns, w) && 1 <= d <= |w|
    requires Find(ns, w).value < |ns| && ns[Find(ns, w).value].children == map[]
    requires forall m | d < m <= |w| :: !KeepsBelow(ns, w, m)
    requires InTrie(ns, u) && IsPrefix(w[..d], u)
    ensures IsPrefix(u, w) && !IsWord(ns, u)
    decreases |u|
  {
    FindLive(ns, u);
    if |u| == d {
      assert u == w[..d];
      if d < |w| {
        assert !KeepsBelow(ns, w, d + 1);
      } else {
        assert w[..|w|] == w;
      }
    } else {
      var v, c := u[..|u| - 1], u[|u| - 1];
      assert u == v + [c];
      FindPrefix(ns, u, |v|);
      assert IsPrefix(w[..d], v) by {
        assert v[..d] == u[..d];
      }
      DeadChain(ns, w, d, v);
      assert |v| != |w| by {
        assert w[..|w|] == w;
      }
      DeadStep(ns, w, v, c);
      if |u| < |w| {
        assert !KeepsBelow(ns, w, |u| + 1);
      } else {
        assert w[..|w|] == w;
      }
    }
  }

  /** Below a node of `w`'s path with a single child, the only way on in the trie is along `w`. */
  lemma {:induction false} DeadStep(ns: Arena, w: seq<char>, v: seq<char>, c: char)
    requires Valid(ns) && InTrie(ns, w) && |v| < |w| && w[..|v|] == v && InTrie(ns, v + [c])
    requires !KeepsBelow(ns, w, |v| + 1)
    ensures v + [c] == w[..|v| + 1]
  {
    FindSnoc(ns, v, c);
    FindLive(ns, v);
    FindPrefix(ns, w, |v| + 1);
    assert w[..|v| + 1] == v + [w[|v|]];
    FindSnoc(ns, v, w[|v|]);
    OneKey(ns[Find(ns, v).value].children, c, w[|v|]);
  }

  /** Cutting at the corrected depth below an unmarked leaf loses no word. */
  lemma {:induction false} CutKeepsWords(ns: Arena, w: seq<char>)
    requires Valid(ns) && InTrie(ns, w) && !IsWord(ns, w) && 1 <= |w|
    requires Find(ns, w).value < |ns| && ns[Find(ns, w).value].children == map[]
    ensures InTrie(ns, w[..CutDepth(ns, w, |w|)])
    ensures forall u :: IsWord(Cut(ns, w, CutDepth(ns, w, |w|)), u) <==> IsWord(ns, u)
  {
    var d := CutDepth(ns, w, |w|);
    FindPrefix(ns, w, d);
    forall u | IsWord(ns, u) ensures !IsPrefix(w[..d], u) {
      if IsPrefix(w[..d], u) {
        DeadChain(ns, w, d, u);
      }
    }
  }

  /** Two tries whose words differ by `w` have word sets that differ by `w`. */
  lemma {:induction false} WordSetWithout(ns: Arena, r: Arena, w: seq<char>)
    requires Valid(ns) && Valid(r) && IsWord(ns, w)
    requires forall u :: IsWord(r, u) <==> IsWord(ns, u) && u != w
    ensures WordSet(r) == WordSet(ns) - {w} && |WordSet(r)| == |WordSet(ns)| - 1
  {
    forall u ensures u in WordSet(r) <==> u in WordSet(ns) && u != w {
      WordSetIsWords(r, u);
      WordSetIsWords(ns, u);
    }
    WordSetIsWords(ns, w);
  }

  /**
   * The corrected removal of a word: unmark it and, when its node has no
   * children, detach the chain of nodes that served only `w`, stopping below
   * the root, a word or a node with other children.
   */
  function DropWord(ns: Arena, w: seq<char>): (r: Arena)
    requires Valid(ns) && IsWord(ns, w)
    ensures Valid(r) && SameLinks(ns, r)
    ensures forall u :: IsWord(r, u) <==> IsWord(ns, u) && u != w
    ensures forall u | InTrie(r, u) :: InTrie(ns, u)
  {
    var k := Find(ns, w).value;
    FindLive(ns, w);
    RootFacts(ns, k);
    assert forall u | Find(ns, u) == Some(k) :: u == w by {
      forall u | Find(ns, u) == Some(k) ensures u == w {
        FindLive(ns, u);
      }
    }
    var ns1 := Unmark(ns, k);
    if ns1[k].children == map[] then
      CutKeepsWords(ns1, w);
      Cut(ns1, w, CutDepth(ns1, w, |w|))
    else ns1
  }

  /**
   * `remove(w)` as intended: a string that is not a word is
   * reported as `DictSetError` and changes nothing; a word is dropped and the
   * counter decremented, so a counter equal to the number of words stays so.
   */
  function RemoveIntended(ns: Arena, count: nat, w: seq<char>): (r: (Arena, nat, Result<(), Error>))
    requires Valid(ns) && |WordSet(ns)| <= count
    ensures Valid(r.0) && SameLinks(ns, r.0) && |WordSet(r.0)| <= r.1
    ensures !IsWord(ns, w) ==> r == (ns, count, Failure(DictSetError))
    ensures IsWord(ns, w) ==> r.2 == Success(()) && r.1 == count - 1
    ensures forall u :: IsWord(r.0, u) <==> IsWord(ns, u) && u != w
    ensures forall u | InTrie(r.0, u) :: InTrie(ns, u)
    ensures count == |WordSet(ns)| ==> r.1 == |WordSet(r.0)|
  {
    if !IsWord(ns, w) then (ns, count, Failure(DictSetError))
    else
      var r := DropWord(ns, w);
      WordSetWithout(ns, r, w);
      (r, count - 1, Success(()))
  }
}
