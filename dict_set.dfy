/**
 * `DictSet` (src/dict/dict_set.rs): the trie of words with its distinct-word
 * counter, and the operations that walk and update it in place.  The trie is
 * the arena of module Tries; each method is proved to compute the function
 * of modules TrieInsert, TrieRemove and AhoCorasick that specifies it.
 */
module DictSets {
  import opened Wrappers
  import opened DictNodes
  import opened Tries
  import opened TrieInsert
  import opened TrieRemove
  import opened AhoCorasick
  import opened SuffixLinks
  import opened LinkedLists

  /**
   * `for child in node.get_children() { queue.offer(child) }`: every child of
   * `node` once, in no particular order, at the back of the queue.
   */
  method OfferChildren(queue: LinkedList<nat>, node: DictNode) returns (ghost cs: seq<nat>)
    requires queue.Valid()
    modifies queue.Repr
    ensures queue.Valid() && fresh(queue.Repr - old(queue.Repr))
    ensures queue.Contents == old(queue.Contents) + cs
    ensures Distinct(cs)
    ensures forall x :: x in cs <==> x in node.GetChildren()
  {
    var rest := node.GetChildren();
    cs := [];
    while rest != {}
      invariant queue.Valid() && fresh(queue.Repr - old(queue.Repr))
      invariant queue.Contents == old(queue.Contents) + cs
      invariant Distinct(cs)
      invariant rest <= node.GetChildren()
      invariant forall x :: x in cs <==> x in node.GetChildren() && x !in rest
      decreases rest
    {
      assert exists x :: x in rest;
      var x :| x in rest;
      DistinctSnoc(cs, x);
      queue.Offer(x);
      cs := cs + [x];
      rest := rest - {x};
    }
  }

  /** The children of the child `k` of the root, queued in the loop over the root's children. */
  method QueueRootChild(queue: LinkedList<nat>, node: DictNode, ghost ns0: Arena, ghost done: set<nat>, k: nat)
    requires Tries.Valid(ns0) && queue.Valid() && RootPhase(ns0, done, queue.Contents)
    requires k < |ns0| && k in ns0[0].GetChildren() && k !in done && node == ns0[k]
    modifies queue.Repr
    ensures queue.Valid() && fresh(queue.Repr - old(queue.Repr))
    ensures RootPhase(ns0, done + {k}, queue.Contents)
  {
    ghost var q := queue.Contents;
    ghost var cs := OfferChildren(queue, node);
    assert Offered(ns0, k, cs);
    RootStep(ns0, done, q, k, cs);
  }

  /**
   * The move of `advance` along the text: from a node whose path ends
   * `text[..i]` to one whose path ends `text[..i + 1]`; once linked, from
   * the node of the longest spelled suffix of `text[..i]` to that of
   * `text[..i + 1]`.
   */
  lemma {:induction false} AdvanceText(ns: Arena, text: seq<char>, i: nat, ptr: nat, next: nat)
    requires Tries.Valid(ns) && i < |text| && ptr < |ns| && next < |ns| && IsSuffix(Path(ns, ptr), text[..i])
    requires IsSuffix(Path(ns, next), Path(ns, ptr) + [text[i]])
    requires Linked(ns) ==> Live(ns, ptr) && Path(ns, ptr) == LongestSuffix(ns, text[..i])
    requires Linked(ns) ==> Find(ns, Target(ns, Path(ns, ptr), text[i], 0)) == Some(next)
    ensures IsSuffix(Path(ns, next), text[..i + 1])
    ensures Linked(ns) ==> Live(ns, next) && Path(ns, next) == LongestSuffix(ns, text[..i + 1])
  {
    var x, y := text[..i], text[..i + 1];
    assert y == x + [text[i]];
    SuffixSnoc(Path(ns, ptr), x, text[i]);
    SuffixTrans(Path(ns, next), Path(ns, ptr) + [text[i]], y);
    if Linked(ns) {
      LongestStep(ns, x, text[i]);
      FindLive(ns, LongestSuffix(ns, y));
    }
  }

  /**
   * Before `link_suffixes`, the turn of `search` on character `i` of `text`
   * moves from the root to its child `k` for that character, or stays at the
   * root when there is none; the report loop run from `k` then reports the
   * one-character word `text[i]` if the root has that child and it is a
   * word, and nothing otherwise.
   */
  lemma {:induction false} UnlinkedReport(ns: Arena, text: seq<char>, i: nat, k: nat)
    requires Tries.Valid(ns) && Unlinked(ns) && i < |text| && k < |ns| && IsSuffix(Path(ns, k), text[..i + 1])
    requires k == if ns[0].HasChild(text[i]) then ns[0].children[text[i]] else 0
    ensures ChainReports(ns, i + 1, k) ==
      if ns[0].HasChild(text[i]) && IsWord(ns, [text[i]]) then [Match(i, [text[i]])] else []
  {
    RootFacts(ns, 0);
    var y := text[..i + 1];
    assert |y| == i + 1 && y[i] == text[i];
    if !ns[0].HasChild(text[i]) {
      assert ChainReports(ns, i + 1, k) == [];
    } else {
      assert k in ns[0].GetChildren();
      ChildFacts(ns, 0, k);
      UnlinkedChild(ns, y, k);
    }
  }

  /**
   * The whole turn before `link_suffixes`: given what `advance` and the
   * report loop return, it fails exactly when the root has a child for the
   * character, reporting that child's one-character word if it is one, and
   * otherwise stays at the root and reports nothing.
   */
  lemma {:induction false} UnlinkedTurn(ns: Arena, text: seq<char>, i: nat, k: nat, ms: seq<Match>, r: Result<(), Error>)
    requires Tries.Valid(ns) && Unlinked(ns) && i < |text| && k < |ns| && IsSuffix(Path(ns, k), text[..i + 1])
    requires k == if ns[0].HasChild(text[i]) then ns[0].children[text[i]] else 0
    requires ms == ChainReports(ns, i + 1, k) && (r.Failure? <==> k != 0)
    ensures r.Failure? <==> ns[0].HasChild(text[i])
    ensures r.Success? ==> k == 0
    ensures ms == if ns[0].HasChild(text[i]) && IsWord(ns, [text[i]]) then [Match(i, [text[i]])] else []
  {
    if ns[0].HasChild(text[i]) {
      ChildFacts(ns, 0, k);
    }
    UnlinkedReport(ns, text, i, k);
  }

  /** That report loop run from a child `k` of the root: the word of `k`, if it is one, and then no link. */
  lemma {:induction false} UnlinkedChild(ns: Arena, y: seq<char>, k: nat)
    requires Tries.Valid(ns) && Unlinked(ns) && 0 < k < |ns| && IsSuffix(Path(ns, k), y)
    requires k in ns[0].GetChildren()
    ensures 0 < |y| && Path(ns, k) == [y[|y| - 1]] && (ns[k].IsWord() <==> IsWord(ns, Path(ns, k)))
    ensures ChainReports(ns, |y|, k) == if ns[k].IsWord() then [Match(|y| - 1, Path(ns, k))] else []
  {
    RootFacts(ns, 0);
    ChildFacts(ns, 0, k);
    assert ns[k].suffix == None;
    ChainNext(ns, y, k);
    assert ChainReports(ns, |y|, k) == WordReport(ns, |y|, k);
    FindPath(ns, k);
    assert |Path(ns, k)| == 1;
    assert y[|y| - 1..] == [y[|y| - 1]];
    if ns[k].IsWord() {
      assert WordReport(ns, |y|, k) == [Match(|y| - |Path(ns, k)|, Path(ns, k))];
    } else {
      assert WordReport(ns, |y|, k) == [];
    }
  }

  class DictSet {
    /** The arena of nodes; node 0 is `root`. */
    var nodes: seq<DictNode>
    /** How many times `insert` has found a new word. */
    var count: nat

    /** The arena is a valid trie and the counter is at least the number of its words. */
    ghost predicate Valid()
      reads this
    {
      Tries.Valid(nodes) && |WordSet(nodes)| <= count
    }

    /** `DictSet::new`: the root alone and a zero counter. */
    constructor ()
      ensures Valid() && nodes == Empty() && count == 0
      ensures forall u :: !IsWord(nodes, u)
    {
      nodes := [DictNode.Root()];
      count := 0;
      new;
      assert WordSet(nodes) == {} by {
        forall u ensures u !in WordSet(nodes) {
          WordSetIsWords(nodes, u);
        }
      }
    }

    /** `DictSet::aho_corasick`: insert every word of the slice, then link; linking cannot fail. */
    static method AhoCorasick(words: seq<string>) returns (r: Result<DictSet, Error>)
      ensures r.Success? && fresh(r.value) && r.value.Valid()
      ensures r.value.nodes == LinkedArena(TrieInsert.InsertAll(Empty(), words).0)
      ensures r.value.count == TrieInsert.InsertAll(Empty(), words).1
    {
      var d := new DictSet();
      d.InsertAll(words);
      var linked := d.LinkSuffixes();
      assert linked.Success?;
      r := Success(d);
    }

    /** `word_count`: the counter, which bounds the number of words from above. */
    function WordCount(): (n: nat)
      reads this
      requires Valid()
      ensures n == count && |WordSet(nodes)| <= n
    {
      count
    }

    /**
     * `insert`: descend along `word`, adding each missing child, and mark the
     * landing node with the word if it was `No`, counting it.
     */
    method Insert(word: string)
      requires Valid()
      modifies this
      ensures Valid()
      ensures nodes == TrieInsert.Insert(old(nodes), word).0
      ensures count == old(count) + if TrieInsert.Insert(old(nodes), word).1 then 1 else 0
    {
      ghost var ns0 := nodes;
      var ptr := Descend(word);
      if nodes[ptr].output == No {
        count := count + 1;
        nodes := nodes[ptr := nodes[ptr].(output := Yes(word))];
      }
      InsertWordSet(ns0, word);
    }

    /** The descent of `insert`: follow `word` from the root, adding each missing child. */
    method Descend(word: string) returns (ptr: nat)
      requires Tries.Valid(nodes)
      modifies this
      ensures (nodes, ptr) == Walk(old(nodes), 0, word, 0)
      ensures count == old(count)
    {
      ghost var ns0 := nodes;
      assert word[..0] == [];
      ptr := 0;
      for i := 0 to |word|
        invariant Tries.Valid(nodes) && ptr < |nodes| && Find(nodes, word[..i]) == Some(ptr)
        invariant Walk(nodes, ptr, word, i) == Walk(ns0, 0, word, 0)
        invariant count == old(count)
      {
        var c := word[i];
        WalkStep(nodes, ptr, word, i);
        if !nodes[ptr].HasChild(c) {
          nodes := AddChild(nodes, ptr, c);
        }
        ptr := nodes[ptr].GetChild(c).value;
      }
      assert word[..|word|] == word;
    }

    /** `insert_all`: `insert` each word of the slice in order. */
    method InsertAll(words: seq<string>)
      requires Valid()
      modifies this
      ensures Valid()
      ensures nodes == TrieInsert.InsertAll(old(nodes), words).0
      ensures count == old(count) + TrieInsert.InsertAll(old(nodes), words).1
    {
      ghost var ns0, c0 := nodes, count;
      for i := 0 to |words|
        invariant Valid()
        invariant TrieInsert.InsertAll(nodes, words[i..]).0 == TrieInsert.InsertAll(ns0, words).0
        invariant count + TrieInsert.InsertAll(nodes, words[i..]).1 == c0 + TrieInsert.InsertAll(ns0, words).1
      {
        assert words[i..][1..] == words[i + 1..];
        Insert(words[i]);
      }
      assert words[|words|..] == [];
    }

    /**
     * `remove`: descend along `word`, pushing each node visited on a stack,
     * failing on a missing transition; if the landing node is a word, unmark
     * it and, when it has no children, pop the stack up to the first node
     * whose parent is the root or a word and drop the edge into it.  The
     * counter is left alone.
     */
    method Remove(word: string) returns (result: Result<(), Error>)
      requires Valid()
      modifies this
      ensures Valid() && count == old(count)
      ensures (nodes, result) == TrieRemove.Remove(old(nodes), word)
    {
      ghost var ns0 := nodes;
      var found, ptr, stack := Trace(word);
      if !found {
        return Failure(DictSetError);
      }
      FindLive(nodes, word);
      if nodes[ptr].IsWord() {
        RootFacts(nodes, ptr);
        nodes := nodes[ptr := nodes[ptr].(output := No)];
        assert nodes == Unmark(ns0, ptr);
        PathStackUnmark(ns0, ptr, word);
        assert word != [] by {
          assert Find(ns0, []) == Some(0);
        }
        if nodes[ptr].children == map[] {
          ghost var d := PruneDepth(nodes, word, |word|);
          FindPrefix(nodes, word, d);
          Prune(stack, word, d);
        }
      }
      WordSetShrinks(ns0, TrieRemove.Remove(ns0, word).0);
      return Success(());
    }

    /**
     * The descent of `remove`: follow `word` from the root, pushing each node
     * reached on a fresh stack, and report whether every transition exists.
     * Nothing changes.  When the word is spelled, the top of the stack is its
     * node and the `t`-th entry from the top the node of `word[..|word| - t]`.
     */
    method Trace(word: string) returns (found: bool, ptr: nat, stack: LinkedList<nat>)
      requires Tries.Valid(nodes)
      ensures found <==> InTrie(nodes, word)
      ensures found ==> Find(nodes, word) == Some(ptr) && ptr < |nodes|
      ensures stack.Valid() && fresh(stack.Repr) && (found ==> stack.Contents == PathStack(nodes, word))
    {
      stack := new LinkedList<nat>();
      ptr := 0;
      assert word[..0] == [];
      for i := 0 to |word|
        invariant ptr < |nodes| && Find(nodes, word[..i]) == Some(ptr)
        invariant stack.Valid() && fresh(stack.Repr) && stack.Contents == PathStack(nodes, word[..i])
      {
        var c := word[i];
        FindSnoc(nodes, word[..i], c);
        TakeNext(word, i);
        if nodes[ptr].HasChild(c) {
          ptr := nodes[ptr].GetChild(c).value;
          FindLive(nodes, word[..i + 1]);
          assert word[..i + 1][..i] == word[..i];
          stack.Push(ptr);
        } else {
          PrefixClosed(nodes, word, i + 1);
          return false, ptr, stack;
        }
      }
      assert word[..|word|] == word;
      found := true;
    }

    /**
     * The prune loop of `remove`, once the word's node is unmarked and has no
     * children: pop the path nodes up to the first one whose parent is the
     * root or a word and drop the edge into it.
     */
    method Prune(stack: LinkedList<nat>, ghost word: string, ghost d: nat)
      requires Tries.Valid(nodes) && 1 <= |word| && InTrie(nodes, word)
      requires d == PruneDepth(nodes, word, |word|) && InTrie(nodes, word[..d])
      requires stack.Valid() && stack.Contents == PathStack(nodes, word) && this !in stack.Repr
      modifies this, stack
      ensures count == old(count)
      ensures nodes == Cut(old(nodes), word, d)
    {
      ghost var ns1 := nodes;
      ghost var j: nat := |word|;
      assert word[..j] == word;
      while !stack.IsEmpty()
        invariant stack.Valid() && stack.Repr == old(stack.Repr) && count == old(count)
        invariant nodes == ns1 && d <= j <= |word| && j == |stack.Contents|
        invariant InTrie(ns1, word[..j]) && stack.Contents == PathStack(ns1, word[..j])
        decreases j
      {
        PathStackPop(ns1, word, j);
        var back := stack.Pop();
        var backPtr := back.value;
        var parent := nodes[backPtr].parent.value;
        if nodes[parent].IsRoot() || nodes[parent].IsWord() {
          assert StopsBelow(ns1, word, j);
          assert j == d && parent == Find(ns1, word[..d - 1]).value && nodes[backPtr].state == word[d - 1];
          nodes := RemoveChild(nodes, parent, nodes[backPtr].state);
          assert nodes == Cut(ns1, word, d);
          break;
        }
        assert !StopsBelow(ns1, word, j);
        j := j - 1;
      }
    }

    /**
     * `link_suffixes`: give each child of the root the root as failure link
     * and queue its children; then, for each node polled from the queue, set
     * its failure link (see FailureTarget) and queue its children.  Every `?`
     * of `link_suffixes` succeeds here: each failure link read belongs to a
     * shallower node, which is already linked.
     */
    method LinkSuffixes() returns (result: Result<(), Error>)
      requires Valid()
      modifies this
      ensures Valid() && count == old(count)
      ensures nodes == LinkedArena(old(nodes)) && result == Success(())
    {
      ghost var ns0 := nodes;
      var queue := new LinkedList<nat>();
      ghost var done := LinkRootChildren(queue, ns0);
      while !queue.IsEmpty()
        invariant queue.Valid() && fresh(queue.Repr) && this !in queue.Repr && count == old(count)
        invariant Linking(ns0, done, nodes, queue.Contents)
        decreases |ns0| - |done|
      {
        done := LinkNext(queue, ns0, done);
      }
      LinkFinish(ns0, done);
      result := Success(());
    }

    /**
     * One turn of the poll loop of `link_suffixes`: the node at the head of
     * the queue gets its failure link and its children are queued.
     */
    method LinkNext(queue: LinkedList<nat>, ghost ns0: Arena, ghost done: set<nat>) returns (ghost done': set<nat>)
      requires Linking(ns0, done, nodes, queue.Contents)
      requires queue.Valid() && this !in queue.Repr && queue.Contents != []
      modifies this, queue.Repr
      ensures queue.Valid() && fresh(queue.Repr - old(queue.Repr)) && this !in queue.Repr && count == old(count)
      ensures done' == done + {old(queue.Contents)[0]} && old(queue.Contents)[0] !in done
      ensures Linking(ns0, done', nodes, queue.Contents) && |done| < |done'| <= |ns0|
    {
      ghost var q := queue.Contents;
      PolledHead(ns0, done, q);
      var n := LinkHead(queue, ns0, done);
      PartialAt(ns0, done + {n}, n);
      ghost var cs := OfferChildren(queue, nodes[n]);
      LinkTurn(ns0, done, q, cs);
      done' := done + {n};
    }

    /** The head of the queue is polled and given its failure link. */
    method LinkHead(queue: LinkedList<nat>, ghost ns0: Arena, ghost done: set<nat>) returns (n: nat)
      requires Tries.Valid(ns0) && DoneOk(ns0, done) && nodes == Partial(ns0, done)
      requires queue.Valid() && this !in queue.Repr && queue.Contents != [] && Polled(ns0, done, queue.Contents[0])
      modifies this, queue
      ensures queue.Valid() && queue.Repr == old(queue.Repr) && count == old(count)
      ensures n == old(queue.Contents)[0] && queue.Contents == old(queue.Contents)[1..]
      ensures DoneOk(ns0, done + {n}) && nodes == Partial(ns0, done + {n})
    {
      var polled := queue.Poll();
      n := polled.value;
      var target := FailureTarget(n, ns0, done);
      assert nodes[n := nodes[n].(suffix := Some(target))] == Partial(ns0, done + {n}) by {
        PartialStep(ns0, done, n);
      }
      nodes := nodes[n := nodes[n].(suffix := Some(target))];
    }

    /**
     * The loop over the children of the root in `link_suffixes`: each gets
     * the root as failure link and its children are queued.
     */
    method LinkRootChildren(queue: LinkedList<nat>, ghost ns0: Arena) returns (ghost done: set<nat>)
      requires Tries.Valid(ns0) && nodes == ns0
      requires queue.Valid() && queue.Contents == [] && this !in queue.Repr
      modifies this, queue.Repr
      ensures queue.Valid() && fresh(queue.Repr - old(queue.Repr)) && this !in queue.Repr
      ensures count == old(count)
      ensures Linking(ns0, done, nodes, queue.Contents)
    {
      done := {};
      var kids := nodes[0].GetChildren();
      RootStart(ns0);
      while kids != {}
        invariant RootLinking(ns0, done, kids, nodes, queue.Contents)
        invariant queue.Valid() && fresh(queue.Repr - old(queue.Repr)) && this !in queue.Repr
        invariant count == old(count)
        decreases kids
      {
        assert exists k :: k in kids;
        var k :| k in kids;
        LinkRootChild(queue, ns0, done, kids, k);
        kids := kids - {k};
        done := done + {k};
      }
      RootFinish(ns0, done, nodes, queue.Contents);
    }

    /** One turn of that loop: the child `k` of the root gets the root as failure link and its children are queued. */
    method LinkRootChild(queue: LinkedList<nat>, ghost ns0: Arena, ghost done: set<nat>, ghost kids: set<nat>, k: nat)
      requires RootLinking(ns0, done, kids, nodes, queue.Contents) && k in kids
      requires queue.Valid() && this !in queue.Repr
      modifies this, queue.Repr
      ensures queue.Valid() && fresh(queue.Repr - old(queue.Repr)) && this !in queue.Repr && count == old(count)
      ensures RootLinking(ns0, done + {k}, kids - {k}, nodes, queue.Contents)
    {
      RootPick(ns0, done, kids, k);
      var node := SetRootLink(ns0, done, k);
      QueueRootChild(queue, node, ns0, done, k);
    }

    /** The child `k` of the root gets the root as failure link; the node as it was is returned. */
    method SetRootLink(ghost ns0: Arena, ghost done: set<nat>, k: nat) returns (node: DictNode)
      requires Tries.Valid(ns0) && DoneOk(ns0, done) && nodes == Partial(ns0, done)
      requires 0 < k < |nodes| && k in ns0[0].GetChildren() && k !in done
      modifies this
      ensures count == old(count) && node == ns0[k]
      ensures DoneOk(ns0, done + {k}) && nodes == Partial(ns0, done + {k})
    {
      node := nodes[k];
      assert node == ns0[k] && DoneOk(ns0, done + {k})
          && nodes[k := node.(suffix := Some(0))] == Partial(ns0, done + {k}) by {
        RootFacts(ns0, 0);
        ChildFacts(ns0, 0, k);
        PathStep(ns0, k);
        assert ExpectedSuffix(ns0, k) == 0;
        PartialAt(ns0, done, k);
        PartialStep(ns0, done, k);
      }
      nodes := nodes[k := node.(suffix := Some(0))];
    }

    /**
     * The failure link `link_suffixes` gives the polled node `n`: start from
     * its parent's failure link, follow failure links while the node is not
     * the root and has no child for `n`'s state, then take that child, or the
     * root.  This is the node of the longest proper suffix of `n`'s path
     * spelled in the trie.
     */
    method FailureTarget(n: nat, ghost ns0: Arena, ghost done: set<nat>) returns (target: nat)
      requires Tries.Valid(ns0) && Polled(ns0, done, n) && nodes == Partial(ns0, done)
      ensures 0 < n < |ns0| && Live(ns0, n) && target == ExpectedSuffix(ns0, n)
    {
      PartialValid(ns0, done);
      ParentFacts(ns0, n);
      var p := nodes[n].parent.value;
      RootFacts(ns0, p);
      PartialAt(ns0, done, p);
      var link := nodes[p].suffix.value;
      var state := nodes[n].state;
      FallInvStart(ns0, p, state);
      while !nodes[link].IsRoot() && !nodes[link].HasChild(state)
        invariant FallInv(ns0, p, state, link)
        decreases |Path(ns0, link)|
      {
        RootFacts(ns0, link);
        FallInvStep(ns0, p, state, link);
        PartialAt(ns0, done, link);
        link := nodes[link].suffix.value;
      }
      RootFacts(ns0, link);
      FallInvExit(ns0, n, link);
      target := if nodes[link].HasChild(state) then nodes[link].GetChild(state).value else 0;
    }

    /**
     * `search`: read `text` from the left; on each character fall back and
     * move (Advance), then report the words on the failure chain of the node
     * reached (ReportChain).  The reports are the calls of `on_match`, in
     * order; a missing failure link is an error.  Once linked, they are
     * `Matches`; before `link_suffixes`, they are `UnlinkedMatches`.
     */
    method Search(text: string) returns (reported: seq<Match>, result: Result<(), Error>)
      requires Valid()
      ensures forall m | m in reported :: Occurs(text, m)
      ensures Linked(nodes) ==> result == Success(()) && reported == Matches(nodes, text)
      ensures Unlinked(nodes) ==> (result.Failure? <==> exists j | 0 <= j < |text| :: nodes[0].HasChild(text[j]))
      ensures Unlinked(nodes) ==> reported == UnlinkedMatches(nodes, text, 0)
    {
      RootFacts(nodes, 0);
      var ptr: nat := 0;
      reported := [];
      for i := 0 to |text|
        invariant ptr < |nodes| && IsSuffix(Path(nodes, ptr), text[..i])
        invariant forall m | m in reported :: Occurs(text, m)
        invariant Linked(nodes) ==>
          Live(nodes, ptr) && Path(nodes, ptr) == LongestSuffix(nodes, text[..i]) && reported == Matches(nodes, text[..i])
        invariant Unlinked(nodes) ==> ptr == 0 && !RootHit(nodes, text, i) && reported == []
      {
        var next, ms, res := Turn(text, i, ptr);
        reported := reported + ms;
        if res.Failure? {
          if Unlinked(nodes) {
            assert nodes[0].HasChild(text[i]);
            RootHitExists(nodes, text, i);
            UnlinkedMatchesSkip(nodes, text, i);
          }
          return reported, res;
        }
        ptr := next;
        if Linked(nodes) {
          MatchesSnoc(nodes, text, i);
        }
      }
      assert text[..|text|] == text;
      RootHitExists(nodes, text, |text|);
      if Unlinked(nodes) {
        UnlinkedMatchesSkip(nodes, text, |text|);
      }
      result := Success(());
    }

    /**
     * One character's turn of `search`, the `i`-th of `text`: move `ptr`
     * on by that character, then report the words on the failure chain of
     * the new node.  Once linked, that node spells the longest suffix of
     * `text[..i + 1]` in the trie and the reports are the words ending at
     * `i`; unlinked, the turn fails exactly when the root has a child for
     * the character, after reporting that child's word if it is one.
     */
    method Turn(text: string, i: nat, ptr: nat) returns (next: nat, ms: seq<Match>, r: Result<(), Error>)
      requires Valid() && i < |text| && ptr < |nodes| && IsSuffix(Path(nodes, ptr), text[..i])
      requires Linked(nodes) ==> Live(nodes, ptr) && Path(nodes, ptr) == LongestSuffix(nodes, text[..i])
      requires Unlinked(nodes) ==> ptr == 0
      ensures r.Success? ==> next < |nodes| && IsSuffix(Path(nodes, next), text[..i + 1])
      ensures forall m | m in ms :: Occurs(text, m)
      ensures Linked(nodes) ==> r == Success(()) && Live(nodes, next)
      ensures Linked(nodes) ==> Path(nodes, next) == LongestSuffix(nodes, text[..i + 1])
      ensures Linked(nodes) ==> ms == MatchesAt(nodes, text[..i + 1])
      ensures Unlinked(nodes) ==> (r.Failure? <==> nodes[0].HasChild(text[i]))
      ensures Unlinked(nodes) && r.Success? ==> next == 0
      ensures Unlinked(nodes) ==>
        ms == if nodes[0].HasChild(text[i]) && IsWord(nodes, [text[i]]) then [Match(i, [text[i]])] else []
    {
      var step := Advance(ptr, text[i]);
      if step.Failure? {
        return 0, [], Failure(step.error);
      }
      next := step.value;
      AdvanceText(nodes, text, i, ptr, next);
      ms, r := ReportChain(text, i, next);
      if Unlinked(nodes) {
        UnlinkedTurn(nodes, text, i, next, ms, r);
      }
    }

    /**
     * The first half of one character's turn of `search`: fall back from
     * `ptr` to a node with a child `c`, or to the root, then move to that
     * child if there is one.  Once linked, this reaches the node of the
     * longest suffix of `ptr`'s path followed by `c` that is spelled in the
     * trie; unlinked, `ptr` is the root and this is its child `c`, if any.
     */
    method Advance(ptr: nat, c: char) returns (r: Result<nat, Error>)
      requires Valid() && ptr < |nodes|
      requires Linked(nodes) ==> Live(nodes, ptr)
      requires Unlinked(nodes) ==> ptr == 0
      ensures r.Success? ==> r.value < |nodes| && IsSuffix(Path(nodes, r.value), Path(nodes, ptr) + [c])
      ensures Linked(nodes) ==> r.Success? && Find(nodes, Target(nodes, Path(nodes, ptr), c, 0)) == Some(r.value)
      ensures Unlinked(nodes) ==> r == Success(if nodes[0].HasChild(c) then nodes[0].children[c] else 0)
      ensures Unlinked(nodes) ==> (r.value == 0 <==> !nodes[0].HasChild(c))
    {
      ghost var s := Path(nodes, ptr);
      var fell := FallBack(ptr, c);
      if fell.Failure? {
        return Failure(fell.error);
      }
      var at := fell.value;
      StepTarget(nodes, s, c, at);
      if nodes[at].HasChild(c) {
        r := Success(nodes[at].GetChild(c).value);
      } else {
        r := Success(at);
      }
    }

    /**
     * The fall-back loop of `search`: from `ptr`, follow failure links while
     * the node is not the root and has no child `c`.  Once linked, every
     * suffix of `ptr`'s path passed over has no extension by `c` in the trie.
     */
    method FallBack(ptr: nat, c: char) returns (r: Result<nat, Error>)
      requires Valid() && ptr < |nodes|
      requires Linked(nodes) ==> Live(nodes, ptr)
      requires Unlinked(nodes) ==> ptr == 0
      ensures r.Success? ==> r.value < |nodes| && IsSuffix(Path(nodes, r.value), Path(nodes, ptr))
      ensures r.Success? ==> r.value == 0 || nodes[r.value].HasChild(c)
      ensures Linked(nodes) ==> r.Success?
      ensures r.Success? && Linked(nodes) ==>
        Find(nodes, Target(nodes, Path(nodes, ptr), c, 0)) == Some(if nodes[r.value].HasChild(c) then nodes[r.value].children[c] else 0)
      ensures Unlinked(nodes) ==> r == Success(0)
    {
      ghost var s := Path(nodes, ptr);
      ghost var kl: nat := 0;
      var at: nat := ptr;
      while !nodes[at].IsRoot() && !nodes[at].HasChild(c)
        invariant at < |nodes| && kl <= |s| && Path(nodes, at) == s[kl..]
        invariant Linked(nodes) ==> SearchFall(nodes, s, c, kl, at)
        invariant Unlinked(nodes) ==> at == 0
        decreases |Path(nodes, at)|
      {
        RootFacts(nodes, at);
        if Linked(nodes) {
          LinkedAt(nodes, at);
        }
        match nodes[at].TrySuffix()
        case Failure(e) =>
          return Failure(e);
        case Success(j) =>
          FallBackStep(nodes, s, c, kl, at);
          at := j;
          kl := |s| - |Path(nodes, j)|;
      }
      RootFacts(nodes, at);
      if Linked(nodes) {
        SearchFallExit(nodes, s, c, kl, at);
      }
      r := Success(at);
    }

    /**
     * The second half of one character's turn of `search`, the `i`-th of
     * `text`: walk the failure links from `ptr` to the root, reporting
     * `(start, word)` for each word node met.  Once linked, these are the
     * words ending at `i`, longest first; unlinked, only a root `ptr` gets
     * through without a missing link.
     */
    method ReportChain(ghost text: string, i: nat, ptr: nat) returns (ms: seq<Match>, r: Result<(), Error>)
      requires Valid() && i < |text| && ptr < |nodes| && IsSuffix(Path(nodes, ptr), text[..i + 1])
      requires Linked(nodes) ==> Live(nodes, ptr) && Path(nodes, ptr) == LongestSuffix(nodes, text[..i + 1])
      ensures forall m | m in ms :: Occurs(text, m)
      ensures ms == ChainReports(nodes, i + 1, ptr)
      ensures Linked(nodes) ==> r == Success(()) && ms == MatchesAt(nodes, text[..i + 1])
      ensures Unlinked(nodes) ==> (r.Failure? <==> ptr != 0)
    {
      ghost var y := text[..i + 1];
      var check: nat := ptr;
      ms := [];
      assert ms + ChainReports(nodes, i + 1, check) == ChainReports(nodes, i + 1, ptr);
      while !nodes[check].IsRoot()
        invariant check < |nodes| && IsSuffix(Path(nodes, check), y)
        invariant forall m | m in ms :: Occurs(text, m)
        invariant ms + ChainReports(nodes, i + 1, check) == ChainReports(nodes, i + 1, ptr)
        invariant Linked(nodes) ==> Live(nodes, check)
        invariant Unlinked(nodes) ==> check == ptr
        decreases |Path(nodes, check)|
      {
        RootFacts(nodes, check);
        ChainNext(nodes, y, check);
        ghost var ms0 := ms;
        var own := ReportWord(text, i, check);
        ms := ms + own;
        match nodes[check].TrySuffix()
        case Failure(e) =>
          return ms, Failure(e);
        case Success(j) =>
          ConcatAssoc(ms0, own, ChainReports(nodes, i + 1, j));
          check := j;
      }
      RootFacts(nodes, check);
      assert ms + [] == ms;
      if Linked(nodes) {
        ChainReportsLongest(nodes, y, ptr);
      }
      r := Success(());
    }

    /** The report of node `check` at index `i` of `text`: its word, if it is one, ending at `i`. */
    method ReportWord(ghost text: string, i: nat, check: nat) returns (own: seq<Match>)
      requires Valid() && i < |text| && 0 < check < |nodes| && IsSuffix(Path(nodes, check), text[..i + 1])
      ensures nodes[check].output.Yes? ==> |nodes[check].output.text| <= i + 1
      ensures nodes[check].output.Yes? ==> own == [Match(Offset(i, |nodes[check].output.text|), nodes[check].output.text)]
      ensures !nodes[check].output.Yes? ==> own == []
      ensures forall m | m in own :: Occurs(text, m)
      ensures own == WordReport(nodes, i + 1, check)
    {
      ghost var y := text[..i + 1];
      assert NodeOk(nodes, check);
      own := [];
      if nodes[check].output.Yes? {
        var word := nodes[check].output.text;
        var m := Match(Offset(i, |word|), word);
        assert text[m.start..m.start + |word|] == y[|y| - |word|..];
        own := [m];
      }
    }

    /**
     * `contains`: descend along `word`; false on a missing transition,
     * otherwise whether the landing node's output is a word.
     */
    method Contains(word: string) returns (b: bool)
      requires Valid()
      ensures b <==> IsWord(nodes, word)
      ensures word == [] ==> !b
    {
      RootFacts(nodes, 0);
      var ptr := 0;
      assert word[..0] == [];
      for i := 0 to |word|
        invariant ptr < |nodes| && Find(nodes, word[..i]) == Some(ptr)
      {
        var c := word[i];
        FindSnoc(nodes, word[..i], c);
        TakeNext(word, i);
        if !nodes[ptr].HasChild(c) {
          PrefixClosed(nodes, word, i + 1);
          return false;
        }
        ptr := nodes[ptr].GetChild(c).value;
        FindLive(nodes, word[..i + 1]);
      }
      assert word[..|word|] == word;
      b := nodes[ptr].output.Yes?;
    }
  }
}
