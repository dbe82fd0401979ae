/**
 * The breadth-first pass of `DictSet::link_suffixes`
 * (src/dict/dict_set.rs:101-127) part-way through: the arena once some nodes
 * have their failure link, and the invariant of the queue that makes every
 * failure link the pass reads one it has already set.
 */
module SuffixLinks {
  import opened Wrappers
  import opened DictNodes
  import opened Tries
  import opened AhoCorasick
  import opened LinkedLists

  /** The depth of node `k`: the length of its path. */
  function Depth(ns: Arena, k: nat): nat {
    |Path(ns, k)|
  }

  /** The nodes of `done` are reachable nodes other than the root. */
  ghost predicate DoneOk(ns: Arena, done: set<nat>) {
    forall k | k in done :: 0 < k < |ns| && Live(ns, k)
  }

  /** The arena once the nodes of `done` carry their expected failure link and nothing else has changed. */
  ghost function Partial(ns: Arena, done: set<nat>): (r: Arena)
    requires Valid(ns) && DoneOk(ns, done)
    ensures |r| == |ns|
  {
    seq(|ns|, k requires 0 <= k < |ns| => if k in done then ns[k].(suffix := Some(ExpectedSuffix(ns, k))) else ns[k])
  }

  /** One node of the partly linked arena. */
  lemma {:induction false} PartialAt(ns: Arena, done: set<nat>, k: nat)
    requires Valid(ns) && DoneOk(ns, done) && k < |ns|
    ensures Partial(ns, done)[k] == if k in done then ns[k].(suffix := Some(ExpectedSuffix(ns, k))) else ns[k]
  {
  }

  /** There are fewer linked nodes than nodes, which bounds the poll loop. */
  lemma {:induction false} DoneBound(ns: Arena, done: set<nat>)
    requires |ns| > 0 && DoneOk(ns, done)
    ensures |done| < |ns|
  {
    BelowBound(done, |ns|);
  }

  /** A set of positive naturals below `n` has fewer than `n` elements. */
  lemma {:induction false} BelowBound(s: set<nat>, n: nat)
    requires n > 0 && 0 !in s && forall k | k in s :: k < n
    ensures |s| < n
  {
    if n > 1 {
      BelowBound(s - {n - 1}, n - 1);
      if n - 1 in s {
        assert s == (s - {n - 1}) + {n - 1};
      } else {
        assert s == s - {n - 1};
      }
    } else {
      assert s == {} by {
        forall k | k in s ensures false {
        }
      }
    }
  }

  /** Setting expected links keeps the arena valid and its shape unchanged. */
  lemma {:induction false} PartialValid(ns: Arena, done: set<nat>)
    requires Valid(ns) && DoneOk(ns, done)
    ensures Valid(Partial(ns, done)) && SameShape(ns, Partial(ns, done))
    ensures forall k | 0 <= k < |ns| :: Partial(ns, done)[k].output == ns[k].output
    ensures forall k | 0 <= k < |ns| :: Path(Partial(ns, done), k) == Path(ns, k)
  {
    var r := Partial(ns, done);
    assert SameShape(ns, r);
    forall k | 0 <= k < |ns| ensures Path(r, k) == Path(ns, k) {
      PathStable(ns, r, k);
    }
    forall k | 0 < k < |r| ensures NodeOk(r, k) {
      assert NodeOk(ns, k);
    }
    forall k | 0 <= k < |r| ensures EdgesOk(r, k) {
      assert EdgesOk(ns, k);
    }
  }

  /** Before the pass nothing has changed. */
  lemma {:induction false} PartialNone(ns: Arena)
    requires Valid(ns)
    ensures Partial(ns, {}) == ns
  {
  }

  /** Linking one more node is one assignment of its suffix field. */
  lemma {:induction false} PartialStep(ns: Arena, done: set<nat>, n: nat)
    requires Valid(ns) && DoneOk(ns, done) && n !in done && 0 < n < |ns| && Live(ns, n)
    ensures DoneOk(ns, done + {n})
    ensures Partial(ns, done + {n}) ==
      Partial(ns, done)[n := Partial(ns, done)[n].(suffix := Some(ExpectedSuffix(ns, n)))]
  {
    var a, b := Partial(ns, done + {n}), Partial(ns, done);
    var b' := b[n := b[n].(suffix := Some(ExpectedSuffix(ns, n)))];
    forall k | 0 <= k < |ns| ensures a[k] == b'[k] {
      if k == n {
        assert b[n] == ns[n];
      }
    }
  }

  /** Once every reachable node other than the root is linked, the arena is the linked one. */
  lemma {:induction false} PartialAll(ns: Arena, done: set<nat>)
    requires Valid(ns) && DoneOk(ns, done)
    requires forall k | 0 < k < |ns| && Live(ns, k) :: k in done
    ensures Partial(ns, done) == LinkedArena(ns)
  {
    var a, b := Partial(ns, done), LinkedArena(ns);
    forall k | 0 <= k < |ns| ensures a[k] == b[k] {
      if 0 < k && Live(ns, k) {
        assert b[k].parent == ns[k].parent && b[k].state == ns[k].state && b[k].children == ns[k].children;
      }
    }
  }

  // ---------------------------------------------------------------------------
  // The queue

  /** A queued node: reachable, not yet linked, at depth two or more, and its parent is linked. */
  ghost predicate Waiting(ns: Arena, done: set<nat>, x: nat) {
    && 0 < x < |ns| && Live(ns, x) && x !in done && Depth(ns, x) >= 2
    && ns[x].parent.Some? && ns[x].parent.value in done
  }

  /**
   * The invariant of the poll loop (lines 110-125), for the linked nodes
   * `done` and the queue `q`:
   * every queued node is reachable, at depth two or more, not yet linked, and
   * its parent is linked; the queue holds no node twice and is ordered by
   * depth, spanning at most two consecutive depths; every child of a linked
   * node is linked or queued; every child of the root is linked; and no
   * linked node is deeper than the head of the queue.
   */
  ghost predicate Frontier(ns: Arena, done: set<nat>, q: seq<nat>) {
    && |ns| > 0
    && DoneOk(ns, done)
    && AllWaiting(ns, done, q)
    && Distinct(q)
    && DepthOrdered(ns, q)
    && Covered(ns, done, q)
    && (forall c | c in ns[0].children :: ns[0].children[c] in done)
    && NoneDeeper(ns, done, q)
  }

  ghost predicate AllWaiting(ns: Arena, done: set<nat>, q: seq<nat>) {
    forall a | 0 <= a < |q| :: Waiting(ns, done, q[a])
  }

  /** Ordered by depth, spanning at most two consecutive depths. */
  ghost predicate DepthOrdered(ns: Arena, q: seq<nat>) {
    && (forall a, b | 0 <= a < b < |q| :: Depth(ns, q[a]) <= Depth(ns, q[b]))
    && (|q| > 0 ==> Depth(ns, q[|q| - 1]) <= Depth(ns, q[0]) + 1)
  }

  /** Every child of a linked node is linked or queued. */
  ghost predicate Covered(ns: Arena, done: set<nat>, q: seq<nat>) {
    forall k, c {:trigger ns[k].children[c]} | k in done && k < |ns| && c in ns[k].children ::
      ns[k].children[c] in done || ns[k].children[c] in q
  }

  /** No linked node is deeper than the head of the queue. */
  ghost predicate NoneDeeper(ns: Arena, done: set<nat>, q: seq<nat>) {
    |q| > 0 ==> forall k | k in done :: Depth(ns, k) <= Depth(ns, q[0])
  }

  /** The state of `link_suffixes` between turns: `cur` is the arena with the nodes of `done` linked, and the queue is `q`. */
  ghost predicate Linking(ns: Arena, done: set<nat>, cur: Arena, q: seq<nat>) {
    Valid(ns) && Frontier(ns, done, q) && cur == Partial(ns, done)
  }

  /** A turn of the poll loop moves the head of the queue into `done` and queues its children. */
  lemma {:induction false} LinkTurn(ns: Arena, done: set<nat>, q: seq<nat>, cs: seq<nat>)
    requires Valid(ns) && Frontier(ns, done, q) && |q| > 0 && Offered(ns, q[0], cs)
    ensures q[0] !in done && DoneOk(ns, done + {q[0]}) && |done| < |done + {q[0]}| <= |ns|
    ensures Frontier(ns, done + {q[0]}, q[1..] + cs)
  {
    FrontierStep(ns, done, q, cs);
    DoneBound(ns, done + {q[0]});
  }

  /** The head of the queue is the shallowest queued node. */
  lemma {:induction false} HeadShallowest(ns: Arena, done: set<nat>, q: seq<nat>)
    requires Frontier(ns, done, q) && |q| > 0
    ensures forall a | 0 <= a < |q| :: Depth(ns, q[0]) <= Depth(ns, q[a]) <= Depth(ns, q[0]) + 1
  {
    forall a | 0 < a < |q| ensures Depth(ns, q[a]) <= Depth(ns, q[0]) + 1 {
      if a < |q| - 1 {
        assert Depth(ns, q[a]) <= Depth(ns, q[|q| - 1]);
      }
    }
  }

  /** The parent of a reachable node other than the root is one level up, and the node is its child. */
  lemma {:induction false} ParentFacts(ns: Arena, k: nat)
    requires Valid(ns) && 0 < k < |ns| && Live(ns, k)
    ensures ns[k].parent.Some? && ns[k].parent.value < k && Live(ns, ns[k].parent.value)
    ensures ns[ns[k].parent.value].HasChild(ns[k].state)
    ensures ns[ns[k].parent.value].children[ns[k].state] == k
    ensures Depth(ns, k) == Depth(ns, ns[k].parent.value) + 1
  {
    PathStep(ns, k);
  }

  /** A child of a reachable node is reachable, one level down, and its parent is that node. */
  lemma {:induction false} ChildFacts(ns: Arena, n: nat, x: nat)
    requires Valid(ns) && n < |ns| && Live(ns, n) && x in ns[n].GetChildren()
    ensures 0 < x < |ns| && Live(ns, x) && ns[x].parent == Some(n)
    ensures Depth(ns, x) == Depth(ns, n) + 1
  {
    var c :| ns[n].HasChild(c) && ns[n].children[c] == x;
    assert EdgesOk(ns, n);
    LiveChild(ns, n, c);
  }

  /**
   * Every reachable node above the head of the queue (every reachable node
   * once the queue is empty), other than the root, is linked.
   */
  lemma {:induction false} BelowHeadDone(ns: Arena, done: set<nat>, q: seq<nat>, k: nat)
    requires Valid(ns) && Frontier(ns, done, q) && k < |ns| && Live(ns, k) && 1 <= Depth(ns, k)
    requires |q| > 0 ==> Depth(ns, k) < Depth(ns, q[0])
    ensures k in done
    decreases k
  {
    assert k != 0;
    ParentFacts(ns, k);
    var p := ns[k].parent.value;
    if p != 0 {
      RootFacts(ns, p);
      BelowHeadDone(ns, done, q, p);
    }
    if |q| > 0 {
      HeadShallowest(ns, done, q);
    }
    assert k !in q;
  }

  /**
   * What holds of the node `n` just polled: it is reachable, at depth two or
   * more, its parent is linked, and so is every reachable node at a smaller
   * depth other than the root.
   */
  ghost predicate Polled(ns: Arena, done: set<nat>, n: nat) {
    && 0 < n < |ns| && Live(ns, n) && n !in done && Depth(ns, n) >= 2
    && ns[n].parent.Some? && ns[n].parent.value in done
    && DoneOk(ns, done)
    && forall k | 0 <= k < |ns| && Live(ns, k) && 1 <= Depth(ns, k) < Depth(ns, n) :: k in done
  }

  lemma {:induction false} PolledHead(ns: Arena, done: set<nat>, q: seq<nat>)
    requires Valid(ns) && Frontier(ns, done, q) && |q| > 0
    ensures Polled(ns, done, q[0])
  {
    forall k | 0 <= k < |ns| && Live(ns, k) && 1 <= Depth(ns, k) < Depth(ns, q[0]) ensures k in done {
      BelowHeadDone(ns, done, q, k);
    }
  }

  /** The facts about the children `cs` of the head `n` that one round of the poll loop needs. */
  ghost predicate Offered(ns: Arena, n: nat, cs: seq<nat>) {
    && n < |ns|
    && Distinct(cs)
    && (forall x :: x in cs <==> x in ns[n].GetChildren())
  }

  lemma {:induction false} OfferedFacts(ns: Arena, n: nat, cs: seq<nat>)
    requires Valid(ns) && n < |ns| && Live(ns, n) && Offered(ns, n, cs)
    ensures forall b | 0 <= b < |cs| ::
      0 < cs[b] < |ns| && Live(ns, cs[b]) && ns[cs[b]].parent == Some(n) && Depth(ns, cs[b]) == Depth(ns, n) + 1
  {
    forall b | 0 <= b < |cs|
      ensures 0 < cs[b] < |ns| && Live(ns, cs[b]) && ns[cs[b]].parent == Some(n) && Depth(ns, cs[b]) == Depth(ns, n) + 1
    {
      ChildFacts(ns, n, cs[b]);
    }
  }

  /** One round of the poll loop: the head is linked and its children are queued at the back. */
  lemma {:induction false} FrontierStep(ns: Arena, done: set<nat>, q: seq<nat>, cs: seq<nat>)
    requires Valid(ns) && Frontier(ns, done, q) && |q| > 0 && Offered(ns, q[0], cs)
    ensures Frontier(ns, done + {q[0]}, q[1..] + cs)
  {
    assert Waiting(ns, done, q[0]);
    StepQueued(ns, done, q, cs);
    StepDistinct(ns, done, q, cs);
    StepOrdered(ns, done, q, cs);
    StepCovered(ns, done, q, cs);
    StepNoneDeeper(ns, done, q, cs);
  }

  /** The queue after one round holds nodes waiting for the linked nodes plus the head. */
  lemma {:induction false} StepQueued(ns: Arena, done: set<nat>, q: seq<nat>, cs: seq<nat>)
    requires Valid(ns) && Frontier(ns, done, q) && |q| > 0 && Offered(ns, q[0], cs)
    ensures AllWaiting(ns, done + {q[0]}, q[1..] + cs)
  {
    var n, q' := q[0], q[1..] + cs;
    assert Waiting(ns, done, n);
    HeadShallowest(ns, done, q);
    OfferedFacts(ns, n, cs);
    forall a | 0 <= a < |q'| ensures Waiting(ns, done + {n}, q'[a]) {
      if a < |q| - 1 {
        assert q'[a] == q[a + 1] == q[1..][a];
        assert Waiting(ns, done, q[a + 1]);
      } else {
        var b := a - (|q| - 1);
        assert q'[a] == cs[b];
        assert Depth(ns, cs[b]) > Depth(ns, n);
      }
    }
  }

  /** The children of the head are not queued yet, so the new queue holds no node twice. */
  lemma {:induction false} StepDistinct(ns: Arena, done: set<nat>, q: seq<nat>, cs: seq<nat>)
    requires Valid(ns) && Frontier(ns, done, q) && |q| > 0 && Offered(ns, q[0], cs)
    ensures Distinct(q[1..] + cs)
  {
    var n, r := q[0], q[1..];
    assert Waiting(ns, done, n);
    OfferedFacts(ns, n, cs);
    forall x | x in cs ensures x !in r {
      var b :| 0 <= b < |cs| && cs[b] == x;
      forall a | 0 <= a < |r| ensures r[a] != x {
        assert r[a] == q[a + 1] && Waiting(ns, done, q[a + 1]);
      }
    }
    DistinctAppend(r, cs);
  }

  /** The children of the head, one level below it, go to the back of a queue ordered by depth. */
  lemma {:induction false} StepOrdered(ns: Arena, done: set<nat>, q: seq<nat>, cs: seq<nat>)
    requires Valid(ns) && Frontier(ns, done, q) && |q| > 0 && Offered(ns, q[0], cs)
    ensures DepthOrdered(ns, q[1..] + cs)
  {
    var n, r, q' := q[0], q[1..], q[1..] + cs;
    assert Waiting(ns, done, n);
    HeadShallowest(ns, done, q);
    OfferedFacts(ns, n, cs);
    forall a, b | 0 <= a < b < |q'| ensures Depth(ns, q'[a]) <= Depth(ns, q'[b]) {
      if b < |r| {
        assert q'[a] == q[a + 1] && q'[b] == q[b + 1];
      } else if a < |r| {
        assert q'[a] == q[a + 1] && q'[b] == cs[b - |r|];
      } else {
        assert q'[a] == cs[a - |r|] && q'[b] == cs[b - |r|];
      }
    }
    if |q'| > 0 {
      if |r| > 0 {
        assert q'[0] == q[1];
      } else {
        assert q'[0] == cs[0];
      }
    }
  }

  /** The children of the head are queued, so every child of a linked node stays linked or queued. */
  lemma {:induction false} StepCovered(ns: Arena, done: set<nat>, q: seq<nat>, cs: seq<nat>)
    requires Valid(ns) && Frontier(ns, done, q) && |q| > 0 && Offered(ns, q[0], cs)
    ensures Covered(ns, done + {q[0]}, q[1..] + cs)
  {
    var n := q[0];
    forall k, c | k in done + {n} && k < |ns| && c in ns[k].children
      ensures ns[k].children[c] in done + {n} || ns[k].children[c] in q[1..] + cs
    {
      if k == n {
        assert ns[k].children[c] in ns[k].GetChildren();
      } else {
        assert ns[k].children[c] in done || ns[k].children[c] in q;
      }
    }
  }

  /** The head is the shallowest queued node, so after it is linked no linked node is deeper than the new head. */
  lemma {:induction false} StepNoneDeeper(ns: Arena, done: set<nat>, q: seq<nat>, cs: seq<nat>)
    requires Valid(ns) && Frontier(ns, done, q) && |q| > 0 && Offered(ns, q[0], cs)
    ensures NoneDeeper(ns, done + {q[0]}, q[1..] + cs)
  {
    var n, r, q' := q[0], q[1..], q[1..] + cs;
    if |q'| > 0 {
      assert Waiting(ns, done, n);
      HeadShallowest(ns, done, q);
      OfferedFacts(ns, n, cs);
      if |r| > 0 {
        assert q'[0] == q[1];
      } else {
        assert q'[0] == cs[0];
      }
    }
  }

  // ---------------------------------------------------------------------------
  // The fall-back loop for one polled node

  /**
   * The invariant of the loop at lines 113-115 for a node with parent `p`
   * and state `c`: `link` is a reachable node whose path is a proper suffix
   * of `p`'s path, and no longer suffix of `p`'s path extends by `c` in the
   * trie (other than `p`'s path itself, which is where the node hangs).
   */
  ghost predicate FallInv(ns: Arena, p: nat, c: char, link: nat) {
    && link < |ns| && Live(ns, link)
    && |Path(ns, link)| < |Path(ns, p)|
    && Path(ns, link) == Path(ns, p)[|Path(ns, p)| - |Path(ns, link)|..]
    && forall j | 1 <= j < |Path(ns, p)| - |Path(ns, link)| :: !InTrie(ns, Path(ns, p)[j..] + [c])
  }

  /** The loop starts at the parent's failure link. */
  lemma {:induction false} FallInvStart(ns: Arena, p: nat, c: char)
    requires Valid(ns) && 0 < p < |ns| && Live(ns, p)
    ensures FallInv(ns, p, c, ExpectedSuffix(ns, p))
  {
    FallStart(ns, p, c);
  }

  /** A round of the loop follows a failure link to a strictly shorter path. */
  lemma {:induction false} FallInvStep(ns: Arena, p: nat, c: char, link: nat)
    requires Valid(ns) && 0 < p < |ns| && FallInv(ns, p, c, link) && link != 0 && !ns[link].HasChild(c)
    ensures FallInv(ns, p, c, ExpectedSuffix(ns, link))
    ensures |Path(ns, ExpectedSuffix(ns, link))| < |Path(ns, link)|
  {
    var s, kl := Path(ns, p), |Path(ns, p)| - |Path(ns, link)|;
    FallLands(ns, s, kl, link);
    FallPassed(ns, s, c, kl, link);
  }

  /** Where the loop stops, the child along `c` (or the root) is the expected failure link of the node. */
  lemma {:induction false} FallInvExit(ns: Arena, n: nat, link: nat)
    requires Valid(ns) && 0 < n < |ns| && Live(ns, n) && ns[n].parent.value != 0
    requires FallInv(ns, ns[n].parent.value, ns[n].state, link)
    requires link == 0 || ns[link].HasChild(ns[n].state)
    ensures (if ns[link].HasChild(ns[n].state) then ns[link].children[ns[n].state] else 0) == ExpectedSuffix(ns, n)
  {
    var p, c := ns[n].parent.value, ns[n].state;
    var s := Path(ns, p);
    var kl := |s| - |Path(ns, link)|;
    assert 1 <= kl <= |s| && Path(ns, link) == s[kl..] && link < |ns| && Live(ns, link);
    assert forall j | 1 <= j < kl :: !InTrie(ns, s[j..] + [c]);
    FirstExtSkip(ns, s, c, 1, kl);
    FallExit(ns, s, c, 1, kl, link);
    ExpectedViaParent(ns, n);
  }

  // ---------------------------------------------------------------------------
  // The loop over the children of the root

  /**
   * The invariant of the loop over the children of the root (lines 104-109):
   * the linked nodes are children of the root, and the queue holds, once
   * each, exactly the children of the linked nodes.
   */
  ghost predicate RootPhase(ns: Arena, done: set<nat>, q: seq<nat>) {
    && (forall k | k in done :: 0 < k < |ns| && Live(ns, k) && ns[k].parent == Some(0))
    && (forall a | 0 <= a < |q| ::
          0 < q[a] < |ns| && Live(ns, q[a]) && ns[q[a]].parent.Some? && ns[q[a]].parent.value in done)
    && Distinct(q)
    && (forall k, c {:trigger ns[k].children[c]} | k in done && c in ns[k].children :: ns[k].children[c] in q)
  }

  /**
   * The state of that loop: `cur` is the arena with the nodes of `done`
   * linked, `kids` the children of the root still to visit, `q` the queue.
   */
  ghost predicate RootLinking(ns: Arena, done: set<nat>, kids: set<nat>, cur: Arena, q: seq<nat>) {
    && Valid(ns) && DoneOk(ns, done) && cur == Partial(ns, done) && RootPhase(ns, done, q)
    && done + kids == ns[0].GetChildren() && done * kids == {}
  }

  /** The loop starts with nothing linked, every child of the root to visit and an empty queue. */
  lemma {:induction false} RootStart(ns: Arena)
    requires Valid(ns)
    ensures RootLinking(ns, {}, ns[0].GetChildren(), ns, [])
  {
    PartialNone(ns);
  }

  /** A child `k` of the root still to visit is a real node not yet linked. */
  lemma {:induction false} RootPick(ns: Arena, done: set<nat>, kids: set<nat>, k: nat)
    requires Valid(ns) && done + kids == ns[0].GetChildren() && done * kids == {} && k in kids
    ensures 0 < k < |ns| && k in ns[0].GetChildren() && k !in done
    ensures (done + {k}) + (kids - {k}) == ns[0].GetChildren() && (done + {k}) * (kids - {k}) == {}
  {
    RootFacts(ns, 0);
    ChildFacts(ns, 0, k);
    assert k !in done * kids;
  }

  /** When every child of the root is visited, the poll loop can start. */
  lemma {:induction false} RootFinish(ns: Arena, done: set<nat>, cur: Arena, q: seq<nat>)
    requires RootLinking(ns, done, {}, cur, q)
    ensures Linking(ns, done, cur, q)
  {
    RootFacts(ns, 0);
    FrontierStart(ns, done, q);
  }

  /** One round of that loop: a child of the root is linked and its children are queued. */
  lemma {:induction false} RootStep(ns: Arena, done: set<nat>, q: seq<nat>, k: nat, cs: seq<nat>)
    requires Valid(ns) && RootPhase(ns, done, q) && k in ns[0].GetChildren() && k !in done
    requires Offered(ns, k, cs)
    ensures RootPhase(ns, done + {k}, q + cs)
  {
    RootFacts(ns, 0);
    ChildFacts(ns, 0, k);
    RootStepQueued(ns, done, q, k, cs);
    RootStepDistinct(ns, done, q, k, cs);
    forall j, c | j in done + {k} && c in ns[j].children ensures ns[j].children[c] in q + cs {
      if j == k {
        assert ns[j].children[c] in ns[j].GetChildren();
      } else {
        assert ns[j].children[c] in q;
      }
    }
  }

  /** The queue after that round holds live nodes whose parents are linked. */
  lemma {:induction false} RootStepQueued(ns: Arena, done: set<nat>, q: seq<nat>, k: nat, cs: seq<nat>)
    requires Valid(ns) && 0 < k < |ns| && Live(ns, k) && Offered(ns, k, cs)
    requires forall a | 0 <= a < |q| :: 0 < q[a] < |ns| && Live(ns, q[a]) && ns[q[a]].parent.Some? && ns[q[a]].parent.value in done
    ensures forall a | 0 <= a < |q + cs| ::
      0 < (q + cs)[a] < |ns| && Live(ns, (q + cs)[a]) && ns[(q + cs)[a]].parent.Some? && ns[(q + cs)[a]].parent.value in done + {k}
  {
    var q' := q + cs;
    OfferedFacts(ns, k, cs);
    forall a | 0 <= a < |q'|
      ensures 0 < q'[a] < |ns| && Live(ns, q'[a]) && ns[q'[a]].parent.Some? && ns[q'[a]].parent.value in done + {k}
    {
      if a < |q| {
        assert q'[a] == q[a];
      } else {
        assert q'[a] == cs[a - |q|];
      }
    }
  }

  /** The children of a node not yet linked are not already queued. */
  lemma {:induction false} RootStepDistinct(ns: Arena, done: set<nat>, q: seq<nat>, k: nat, cs: seq<nat>)
    requires Valid(ns) && 0 < k < |ns| && Live(ns, k) && Offered(ns, k, cs) && k !in done && Distinct(q)
    requires forall a | 0 <= a < |q| :: 0 < q[a] < |ns| && ns[q[a]].parent.Some? && ns[q[a]].parent.value in done
    ensures Distinct(q + cs)
  {
    OfferedFacts(ns, k, cs);
    forall x | x in cs ensures x !in q {
      var b :| 0 <= b < |cs| && cs[b] == x;
      assert ns[cs[b]].parent == Some(k);
    }
    DistinctAppend(q, cs);
  }

  /** After that loop the queue invariant holds. */
  lemma {:induction false} FrontierStart(ns: Arena, done: set<nat>, q: seq<nat>)
    requires Valid(ns) && RootPhase(ns, done, q)
    requires forall c | c in ns[0].children :: ns[0].children[c] in done
    ensures Frontier(ns, done, q)
  {
    RootFacts(ns, 0);
    forall k | k in done ensures Depth(ns, k) == 1 {
      PathStep(ns, k);
    }
    forall a | 0 <= a < |q| ensures q[a] !in done && Depth(ns, q[a]) == 2 {
      PathStep(ns, q[a]);
    }
  }

  /** Once the queue is empty every reachable node is linked: the arena is the fully linked one, with the same words. */
  lemma {:induction false} LinkFinish(ns: Arena, done: set<nat>)
    requires Valid(ns) && Frontier(ns, done, [])
    ensures DoneOk(ns, done) && Partial(ns, done) == LinkedArena(ns)
    ensures Valid(LinkedArena(ns)) && WordSet(LinkedArena(ns)) == WordSet(ns)
  {
    forall k | 0 < k < |ns| && Live(ns, k) ensures k in done {
      RootFacts(ns, k);
      BelowHeadDone(ns, done, [], k);
    }
    PartialAll(ns, done);
    PartialValid(ns, done);
    LinkedWords(ns);
  }
}
