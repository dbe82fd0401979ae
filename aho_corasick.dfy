/**
 * What `link_suffixes` and `search` (src/dict/dict_set.rs:101-146) compute,
 * stated on the arena: the failure link of a node is the node of the longest
 * proper suffix of its path that is spelled in the trie, and a search
 * reports, position by position, every word that ends there, longest first.
 */
module AhoCorasick {
  import opened Wrappers
  import opened DictNodes
  import opened Tries

  predicate IsSuffix(u: seq<char>, w: seq<char>) {
    |u| <= |w| && w[|w| - |u|..] == u
  }

  lemma {:induction false} SuffixTrans(a: seq<char>, b: seq<char>, c: seq<char>)
    requires IsSuffix(a, b) && IsSuffix(b, c)
    ensures IsSuffix(a, c)
  {
    assert c[|c| - |a|..] == c[|c| - |b|..][|b| - |a|..];
  }

  /** The least `j >= k` such that `s[j..]` is spelled in the trie: `s[j..]` is the longest such suffix of `s[k..]`. */
  function LeastIn(ns: Arena, s: seq<char>, k: nat): (j: nat)
    requires Valid(ns) && k <= |s|
    ensures k <= j <= |s| && InTrie(ns, s[j..])
    ensures forall m | k <= m < j :: !InTrie(ns, s[m..])
    decreases |s| - k
  {
    assert s[|s|..] == [];
    if InTrie(ns, s[k..]) then k else LeastIn(ns, s, k + 1)
  }

  /** Positions with nothing in the trie can be skipped. */
  lemma {:induction false} LeastInSkip(ns: Arena, s: seq<char>, k: nat, k': nat)
    requires Valid(ns) && k <= k' <= |s|
    requires forall m | k <= m < k' :: !InTrie(ns, s[m..])
    ensures LeastIn(ns, s, k) == LeastIn(ns, s, k')
    decreases k' - k
  {
    if k < k' {
      LeastInSkip(ns, s, k + 1, k');
    }
  }

  /**
   * The node a failure link must lead to: the node of the longest proper
   * suffix of the node's path that is spelled in the trie.  For a child of
   * the root this is the root.
   */
  function ExpectedSuffix(ns: Arena, k: nat): (j: nat)
    requires Valid(ns) && 0 < k < |ns| && Live(ns, k)
    ensures j < |ns| && Live(ns, j) && IsProperSuffix(Path(ns, j), Path(ns, k))
    ensures |Path(ns, k)| == 1 ==> j == 0
  {
    var s := Path(ns, k);
    RootFacts(ns, k);
    var l := LeastIn(ns, s, 1);
    FindLive(ns, s[l..]);
    assert forall u | IsProperSuffix(u, s) && InTrie(ns, u) :: |u| <= |s| - l by {
      forall u | IsProperSuffix(u, s) && InTrie(ns, u) ensures |u| <= |s| - l {
        assert s[|s| - |u|..] == u;
      }
    }
    var j := Find(ns, s[l..]).value;
    assert |s| == 1 ==> s[l..] == [];
    j
  }

  /** No proper suffix of a node's path that is spelled in the trie is longer than the path of its expected failure link. */
  lemma {:induction false} ExpectedLongest(ns: Arena, k: nat, u: seq<char>)
    requires Valid(ns) && 0 < k < |ns| && Live(ns, k)
    requires IsProperSuffix(u, Path(ns, k)) && InTrie(ns, u)
    ensures |u| <= |Path(ns, ExpectedSuffix(ns, k))|
  {
    var s := Path(ns, k);
    RootFacts(ns, k);
    var l := LeastIn(ns, s, 1);
    FindLive(ns, s[l..]);
    assert s[|s| - |u|..] == u;
  }

  /** Every reachable node other than the root carries its expected failure link. */
  ghost predicate Linked(ns: Arena) {
    && Valid(ns)
    && forall k {:trigger ExpectedSuffix(ns, k)} | 0 < k < |ns| && Live(ns, k) :: ns[k].suffix == Some(ExpectedSuffix(ns, k))
  }

  /** Once linked, a reachable non-root node's link is its expected failure link. */
  lemma {:induction false} LinkedAt(ns: Arena, k: nat)
    requires Linked(ns) && 0 < k < |ns| && Live(ns, k)
    ensures ns[k].suffix == Some(ExpectedSuffix(ns, k))
  {
  }

  /** Two arenas with the same nodes, parents, states and child maps. */
  ghost predicate SameShape(a: Arena, b: Arena) {
    SameLinks(a, b) && SameLinks(b, a) && SameChildren(a, b)
  }

  lemma {:induction false} LeastInSame(a: Arena, b: Arena, s: seq<char>, k: nat)
    requires Valid(a) && Valid(b) && SameChildren(a, b) && k <= |s|
    ensures LeastIn(a, s, k) == LeastIn(b, s, k)
    decreases |s| - k
  {
    FindSameChildren(a, b, s[k..]);
    if !InTrie(a, s[k..]) {
      LeastInSame(a, b, s, k + 1);
    }
  }

  /** Failure links depend only on the shape of the trie. */
  lemma {:induction false} ExpectedSame(a: Arena, b: Arena, k: nat)
    requires Valid(a) && Valid(b) && SameShape(a, b) && 0 < k < |a| && Live(a, k)
    ensures Live(b, k) && Path(b, k) == Path(a, k) && ExpectedSuffix(b, k) == ExpectedSuffix(a, k)
  {
    LiveSameShape(a, b, k);
    PathStable(a, b, k);
    var s := Path(a, k);
    LeastInSame(a, b, s, 1);
    FindSameChildren(a, b, s[LeastIn(a, s, 1)..]);
  }

  /**
   * The arena after `link_suffixes`: every reachable node other than the root
   * gets its expected failure link; nothing else changes.
   */
  function LinkedArena(ns: Arena): (r: Arena)
    requires Valid(ns)
    ensures Linked(r) && SameShape(ns, r)
    ensures forall k | 0 <= k < |ns| :: r[k].output == ns[k].output
    ensures forall k | 0 < k < |ns| && Live(ns, k) :: r[k].suffix == Some(ExpectedSuffix(ns, k))
    ensures forall k | 0 <= k < |ns| && (k == 0 || !Live(ns, k)) :: r[k] == ns[k]
  {
    var r := seq(|ns|, k requires 0 <= k < |ns| =>
      if 0 < k && Live(ns, k) then ns[k].(suffix := Some(ExpectedSuffix(ns, k))) else ns[k]);
    assert SameShape(ns, r);
    forall k | 0 <= k < |ns| ensures Path(r, k) == Path(ns, k) {
      PathStable(ns, r, k);
    }
    assert Valid(r) by {
      forall k | 0 < k < |r| ensures NodeOk(r, k) {
        assert NodeOk(ns, k);
      }
      forall k | 0 <= k < |r| ensures EdgesOk(r, k) {
        assert EdgesOk(ns, k);
      }
    }
    forall k | 0 < k < |r| && Live(r, k) ensures r[k].suffix == Some(ExpectedSuffix(r, k)) {
      LiveSameShape(ns, r, k);
      ExpectedSame(ns, r, k);
    }
    r
  }

  // ---------------------------------------------------------------------------
  // Suffix chains

  /**
   * The nodes visited by following expected failure links from `k` down to
   * the root (in a linked arena, the failure links themselves).
   */
  function Chain(ns: Arena, k: nat): (c: seq<nat>)
    requires Valid(ns) && k < |ns| && Live(ns, k)
    ensures |c| > 0 && c[0] == k && c[|c| - 1] == 0
    decreases |Path(ns, k)|
  {
    if k == 0 then [0]
    else [k] + Chain(ns, ExpectedSuffix(ns, k))
  }

  /**
   * Each link leads to a strictly shorter path, so the chain from `k` reaches
   * the root after at most `|Path(k)|` links.
   */
  lemma {:induction false} ChainShrinks(ns: Arena, k: nat)
    requires Valid(ns) && k < |ns| && Live(ns, k)
    ensures |Chain(ns, k)| <= |Path(ns, k)| + 1
    ensures forall i, j | 0 <= i < j < |Chain(ns, k)| :: |Path(ns, Chain(ns, k)[j])| < |Path(ns, Chain(ns, k)[i])|
    decreases |Path(ns, k)|
  {
    if k != 0 {
      var e := ExpectedSuffix(ns, k);
      ChainShrinks(ns, e);
      var c, rest := Chain(ns, k), Chain(ns, e);
      assert c == [k] + rest;
      assert forall i | 0 < i < |c| :: c[i] == rest[i - 1];
    }
  }

  /** Every node on the chain from `k` is a reachable node. */
  lemma {:induction false} ChainLive(ns: Arena, k: nat)
    requires Valid(ns) && k < |ns| && Live(ns, k)
    ensures forall i | 0 <= i < |Chain(ns, k)| :: Chain(ns, k)[i] < |ns| && Live(ns, Chain(ns, k)[i])
    decreases |Path(ns, k)|
  {
    if k != 0 {
      var e := ExpectedSuffix(ns, k);
      ChainLive(ns, e);
      var c, rest := Chain(ns, k), Chain(ns, e);
      assert c == [k] + rest;
      forall i | 0 <= i < |c| ensures c[i] < |ns| && Live(ns, c[i]) {
        if i > 0 {
          assert c[i] == rest[i - 1];
        }
      }
    }
  }

  /** The path of every node on the chain from `k` is a suffix of `k`'s path. */
  lemma {:induction false} ChainSuffixes(ns: Arena, k: nat)
    requires Valid(ns) && k < |ns| && Live(ns, k)
    ensures forall i | 0 <= i < |Chain(ns, k)| :: IsSuffix(Path(ns, Chain(ns, k)[i]), Path(ns, k))
    decreases |Path(ns, k)|
  {
    if k != 0 {
      var e := ExpectedSuffix(ns, k);
      ChainSuffixes(ns, e);
      var c, rest := Chain(ns, k), Chain(ns, e);
      assert c == [k] + rest;
      var pk, pe := Path(ns, k), Path(ns, e);
      assert IsSuffix(pe, pk);
      forall i | 0 <= i < |c| ensures IsSuffix(Path(ns, c[i]), pk) {
        if i > 0 {
          assert c[i] == rest[i - 1];
          SuffixTrans(Path(ns, rest[i - 1]), pe, pk);
        }
      }
    }
  }

  /** The chain from `k` passes through the node of every suffix of `k`'s path that is spelled in the trie. */
  lemma {:induction false} ChainComplete(ns: Arena, k: nat, u: seq<char>)
    requires Valid(ns) && k < |ns| && Live(ns, k)
    requires IsSuffix(u, Path(ns, k)) && InTrie(ns, u)
    ensures exists i | 0 <= i < |Chain(ns, k)| :: Path(ns, Chain(ns, k)[i]) == u
    decreases |Path(ns, k)|
  {
    var c := Chain(ns, k);
    var s := Path(ns, k);
    if u == s {
      assert Path(ns, c[0]) == u;
    } else {
      RootFacts(ns, k);
      assert k != 0;
      var e := ExpectedSuffix(ns, k);
      assert IsProperSuffix(u, s);
      ExpectedLongest(ns, k, u);
      var p := Path(ns, e);
      assert IsSuffix(u, p) by {
        assert p[|p| - |u|..] == s[|s| - |u|..];
      }
      ChainComplete(ns, e, u);
      var i :| 0 <= i < |Chain(ns, e)| && Path(ns, Chain(ns, e)[i]) == u;
      assert c == [k] + Chain(ns, e);
      assert Path(ns, c[i + 1]) == u;
    }
  }

  // ---------------------------------------------------------------------------
  // The fall-back transition shared by `link_suffixes` and `search`

  /**
   * From position `k` of `s` on, the first `m` at which `s[m..]` followed by
   * `c` is spelled in the trie; `|s| + 1` when there is none.
   */
  function FirstExt(ns: Arena, s: seq<char>, c: char, k: nat): (m: nat)
    requires k <= |s| + 1
    ensures k <= m <= |s| + 1
    ensures m <= |s| ==> InTrie(ns, s[m..] + [c])
    ensures forall j | k <= j < m :: !InTrie(ns, s[j..] + [c])
    decreases |s| + 1 - k
  {
    if k == |s| + 1 || InTrie(ns, s[k..] + [c]) then k else FirstExt(ns, s, c, k + 1)
  }

  /** The longest `s[m..] + [c]`, `m >= k`, spelled in the trie, or the empty string. */
  function Target(ns: Arena, s: seq<char>, c: char, k: nat): (t: seq<char>)
    requires k <= |s| + 1
    ensures t == [] || InTrie(ns, t)
    ensures forall j | k <= j <= |s| && InTrie(ns, s[j..] + [c]) :: |s| + 1 - j <= |t|
  {
    var m := FirstExt(ns, s, c, k);
    if m <= |s| then s[m..] + [c] else []
  }

  lemma {:induction false} FirstExtSkip(ns: Arena, s: seq<char>, c: char, k: nat, k': nat)
    requires k <= k' <= |s| + 1
    requires forall j | k <= j < k' :: !InTrie(ns, s[j..] + [c])
    ensures FirstExt(ns, s, c, k) == FirstExt(ns, s, c, k')
    decreases k' - k
  {
    if k < k' {
      FirstExtSkip(ns, s, c, k + 1, k');
    }
  }

  /** A string outside the trie has no extension in it. */
  lemma {:induction false} OutsideExt(ns: Arena, u: seq<char>, c: char)
    requires !InTrie(ns, u)
    ensures !InTrie(ns, u + [c])
  {
    FindSnoc(ns, u, c);
  }

  /**
   * The fall-back transition from `x[b..]` along `c` finds the longest suffix
   * of `x + [c]` starting at or after `b + k` that is spelled in the trie.
   */
  lemma {:induction false} TargetIsLeast(ns: Arena, x: seq<char>, c: char, b: nat, k: nat)
    requires Valid(ns) && b <= |x| && k <= |x| - b + 1
    ensures LeastIn(ns, x + [c], b + k) == b + FirstExt(ns, x[b..], c, k)
    ensures (x + [c])[b + FirstExt(ns, x[b..], c, k)..] == Target(ns, x[b..], c, k)
    decreases |x| - b + 1 - k
  {
    if k == |x| - b + 1 {
      assert (x + [c])[b + k..] == [];
    } else {
      DropSnoc(x, c, b, k);
      if !InTrie(ns, x[b..][k..] + [c]) {
        TargetIsLeast(ns, x, c, b, k + 1);
      }
    }
  }

  /** Dropping a prefix of `x` commutes with appending `c`. */
  lemma {:induction false} DropSnoc(x: seq<char>, c: char, b: nat, k: nat)
    requires b + k <= |x|
    ensures x[b..][k..] + [c] == (x + [c])[b + k..]
  {
  }

  /** The failure link of `link`, whose path is `s[kl..]`, has a path that is a shorter suffix of `s`. */
  lemma {:induction false} FallLands(ns: Arena, s: seq<char>, kl: nat, link: nat)
    requires Valid(ns) && 0 < link < |ns| && Live(ns, link)
    requires kl <= |s| && Path(ns, link) == s[kl..]
    ensures kl < |s| - |Path(ns, ExpectedSuffix(ns, link))|
    ensures Path(ns, ExpectedSuffix(ns, link)) == s[|s| - |Path(ns, ExpectedSuffix(ns, link))|..]
  {
    var pl, pe := Path(ns, link), Path(ns, ExpectedSuffix(ns, link));
    assert pe == pl[|pl| - |pe|..];
    assert pl[|pl| - |pe|..] == s[|s| - |pe|..];
  }

  /** The positions a failure link passes over do not extend by `c`. */
  lemma {:induction false} FallPassed(ns: Arena, s: seq<char>, c: char, kl: nat, link: nat)
    requires Valid(ns) && link < |ns| && Live(ns, link) && link != 0 && !ns[link].HasChild(c)
    requires kl <= |s| && Path(ns, link) == s[kl..]
    ensures forall j | kl <= j < |s| - |Path(ns, ExpectedSuffix(ns, link))| :: !InTrie(ns, s[j..] + [c])
  {
    var e := ExpectedSuffix(ns, link);
    var pl, pe := Path(ns, link), Path(ns, e);
    FindPath(ns, link);
    FindSnoc(ns, pl, c);
    assert !InTrie(ns, s[kl..] + [c]);
    forall j | kl < j < |s| - |pe| ensures !InTrie(ns, s[j..] + [c]) {
      PassedAt(ns, s, c, kl, link, j);
    }
  }

  /** One position strictly inside the path of `link` and beyond its expected link does not extend by `c`. */
  lemma {:induction false} PassedAt(ns: Arena, s: seq<char>, c: char, kl: nat, link: nat, j: nat)
    requires Valid(ns) && 0 < link < |ns| && Live(ns, link)
    requires kl < j <= |s| && Path(ns, link) == s[kl..] && |s| - j > |Path(ns, ExpectedSuffix(ns, link))|
    ensures !InTrie(ns, s[j..] + [c])
  {
    var pl := Path(ns, link);
    assert pl[j - kl..] == s[j..];
    assert IsProperSuffix(s[j..], pl);
    BeyondLink(ns, link, s[j..]);
    OutsideExt(ns, s[j..], c);
  }

  /** A proper suffix of a node's path longer than its expected link's path is not in the trie. */
  lemma {:induction false} BeyondLink(ns: Arena, k: nat, u: seq<char>)
    requires Valid(ns) && 0 < k < |ns| && Live(ns, k)
    requires IsProperSuffix(u, Path(ns, k)) && |u| > |Path(ns, ExpectedSuffix(ns, k))|
    ensures !InTrie(ns, u)
  {
    if InTrie(ns, u) {
      ExpectedLongest(ns, k, u);
    }
  }

  /**
   * When the inner loop stops, at the root or at a node with a child `c`, the
   * node it moves to (that child, or the root) is the one of the target.
   */
  lemma {:induction false} FallExit(ns: Arena, s: seq<char>, c: char, k0: nat, kl: nat, link: nat)
    requires Valid(ns) && link < |ns| && Live(ns, link)
    requires k0 <= kl <= |s| && Path(ns, link) == s[kl..]
    requires FirstExt(ns, s, c, k0) == FirstExt(ns, s, c, kl)
    requires link == 0 || ns[link].HasChild(c)
    ensures Find(ns, Target(ns, s, c, k0)) == Some(if ns[link].HasChild(c) then ns[link].children[c] else 0)
  {
    FindPath(ns, link);
    FindSnoc(ns, s[kl..], c);
    if !ns[link].HasChild(c) {
      RootFacts(ns, link);
      assert s[kl..] == [] && kl == |s|;
    }
  }

  /**
   * The fall-back loop of `search` reading `c` from a node of path `s`: it
   * stands at a reachable node `link` whose path is `s[kl..]`, and no
   * position passed over extends by `c`.
   */
  ghost predicate SearchFall(ns: Arena, s: seq<char>, c: char, kl: nat, link: nat) {
    && link < |ns| && Live(ns, link)
    && kl <= |s| && Path(ns, link) == s[kl..]
    && forall j | 0 <= j < kl :: !InTrie(ns, s[j..] + [c])
  }

  /** One round of that loop: the failure link of a node without a child `c` keeps the loop's invariant. */
  lemma {:induction false} SearchFallStep(ns: Arena, s: seq<char>, c: char, kl: nat, link: nat)
    requires Valid(ns) && SearchFall(ns, s, c, kl, link) && link != 0 && !ns[link].HasChild(c)
    ensures |Path(ns, ExpectedSuffix(ns, link))| < |Path(ns, link)|
    ensures SearchFall(ns, s, c, |s| - |Path(ns, ExpectedSuffix(ns, link))|, ExpectedSuffix(ns, link))
  {
    FallLands(ns, s, kl, link);
    FallPassed(ns, s, c, kl, link);
  }

  /**
   * A round of that loop from a node `at` whose path is `s[kl..]`: its link
   * leads to a shorter suffix of `s`, and once linked the loop's invariant
   * carries over.
   */
  lemma {:induction false} FallBackStep(ns: Arena, s: seq<char>, c: char, kl: nat, at: nat)
    requires Valid(ns) && 0 < at < |ns| && kl <= |s| && Path(ns, at) == s[kl..] && ns[at].suffix.Some?
    ensures ns[at].suffix.value < |ns|
    ensures |Path(ns, ns[at].suffix.value)| < |Path(ns, at)|
    ensures Path(ns, ns[at].suffix.value) == s[|s| - |Path(ns, ns[at].suffix.value)|..]
    ensures Linked(ns) && SearchFall(ns, s, c, kl, at) && !ns[at].HasChild(c) ==>
      SearchFall(ns, s, c, |s| - |Path(ns, ns[at].suffix.value)|, ns[at].suffix.value)
  {
    assert NodeOk(ns, at);
    var pj := Path(ns, ns[at].suffix.value);
    assert pj == s[kl..][|s| - kl - |pj|..] == s[|s| - |pj|..];
    if Linked(ns) && SearchFall(ns, s, c, kl, at) && !ns[at].HasChild(c) {
      LinkedAt(ns, at);
      SearchFallStep(ns, s, c, kl, at);
    }
  }

  /** When that loop stops, the node `search` moves to is the one of the fall-back target. */
  lemma {:induction false} SearchFallExit(ns: Arena, s: seq<char>, c: char, kl: nat, link: nat)
    requires Valid(ns) && SearchFall(ns, s, c, kl, link) && (link == 0 || ns[link].HasChild(c))
    ensures Find(ns, Target(ns, s, c, 0)) == Some(if ns[link].HasChild(c) then ns[link].children[c] else 0)
  {
    FirstExtSkip(ns, s, c, 0, kl);
    FallExit(ns, s, c, 0, kl, link);
  }

  /**
   * Where `search` moves when that loop stops at `at`: to its child `c` if
   * there is one, else it stays at the root; either way the node's path
   * ends `s + [c]`, once linked it is the node of the fall-back transition,
   * and unlinked it is the root exactly when the root has no child `c`.
   */
  lemma {:induction false} StepTarget(ns: Arena, s: seq<char>, c: char, at: nat)
    requires Valid(ns) && at < |ns| && IsSuffix(Path(ns, at), s) && (at == 0 || ns[at].HasChild(c))
    requires Linked(ns) ==> Find(ns, Target(ns, s, c, 0)) == Some(if ns[at].HasChild(c) then ns[at].children[c] else 0)
    requires Unlinked(ns) ==> at == 0
    ensures ns[at].HasChild(c) ==>
      && 0 < ns[at].children[c] < |ns| && IsSuffix(Path(ns, ns[at].children[c]), s + [c])
      && (Linked(ns) ==> Find(ns, Target(ns, s, c, 0)) == Some(ns[at].children[c]))
    ensures !ns[at].HasChild(c) ==>
      && at == 0 && IsSuffix(Path(ns, at), s + [c])
      && (Linked(ns) ==> Find(ns, Target(ns, s, c, 0)) == Some(at))
  {
    RootFacts(ns, at);
    assert EdgesOk(ns, at);
    if ns[at].HasChild(c) {
      var kl := |s| - |Path(ns, at)|;
      PathStep(ns, ns[at].children[c]);
      assert (s + [c])[kl..] == s[kl..] + [c];
    } else {
      assert (s + [c])[|s| + 1..] == [];
    }
  }

  /** Extending a suffix and its string by the same character keeps it a suffix. */
  lemma {:induction false} SuffixSnoc(u: seq<char>, w: seq<char>, c: char)
    requires IsSuffix(u, w)
    ensures IsSuffix(u + [c], w + [c])
  {
    assert (w + [c])[|w| - |u|..] == w[|w| - |u|..] + [c];
  }

  /** The loop of `link_suffixes` starts from the parent's failure link with nothing passed over. */
  lemma {:induction false} FallStart(ns: Arena, p: nat, c: char)
    requires Valid(ns) && 0 < p < |ns| && Live(ns, p)
    ensures 1 <= |Path(ns, p)| - |Path(ns, ExpectedSuffix(ns, p))|
    ensures Path(ns, ExpectedSuffix(ns, p)) == Path(ns, p)[|Path(ns, p)| - |Path(ns, ExpectedSuffix(ns, p))|..]
    ensures forall j | 1 <= j < |Path(ns, p)| - |Path(ns, ExpectedSuffix(ns, p))| :: !InTrie(ns, Path(ns, p)[j..] + [c])
  {
    var s, pe := Path(ns, p), Path(ns, ExpectedSuffix(ns, p));
    var kl := |s| - |pe|;
    forall j | 1 <= j < kl ensures !InTrie(ns, s[j..] + [c]) {
      assert IsProperSuffix(s[j..], s) by {
        assert s[|s| - |s[j..]|..] == s[j..];
      }
      BeyondLink(ns, p, s[j..]);
      OutsideExt(ns, s[j..], c);
    }
  }

  /**
   * The expected failure link of a node below depth one is the target of the
   * fall-back transition from its parent's path along its own state,
   * skipping the parent's path itself.
   */
  lemma {:induction false} ExpectedViaParent(ns: Arena, n: nat)
    requires Valid(ns) && 0 < n < |ns| && Live(ns, n) && ns[n].parent.value != 0
    ensures Find(ns, Target(ns, Path(ns, ns[n].parent.value), ns[n].state, 1)) == Some(ExpectedSuffix(ns, n))
  {
    var p := ns[n].parent.value;
    PathStep(ns, n);
    var x, c := Path(ns, p), ns[n].state;
    assert x[0..] == x;
    TargetIsLeast(ns, x, c, 0, 1);
  }

  /** The longest suffix of `x` spelled in the trie: where a search stands after reading `x`. */
  function LongestSuffix(ns: Arena, x: seq<char>): (u: seq<char>)
    requires Valid(ns)
    ensures IsSuffix(u, x) && InTrie(ns, u)
    ensures forall m | 0 <= m <= |x| && InTrie(ns, x[m..]) :: |x| - m <= |u|
  {
    var l := LeastIn(ns, x, 0);
    assert x[|x| - |x[l..]|..] == x[l..];
    x[l..]
  }

  /** No suffix of `x + [c]` longer than the one through `LeastIn(ns, x, 0)` is in the trie. */
  lemma {:induction false} NoneBeforeLeast(ns: Arena, x: seq<char>, c: char)
    requires Valid(ns)
    ensures forall j | 0 <= j < LeastIn(ns, x, 0) :: !InTrie(ns, (x + [c])[j..])
  {
    var y, b := x + [c], LeastIn(ns, x, 0);
    forall j | 0 <= j < b ensures !InTrie(ns, y[j..]) {
      assert !InTrie(ns, x[j..]);
      assert y[j..] == x[j..] + [c];
      OutsideExt(ns, x[j..], c);
    }
  }

  /** Reading one more character moves the search by the fall-back transition along it. */
  lemma {:induction false} LongestStep(ns: Arena, x: seq<char>, c: char)
    requires Valid(ns)
    ensures LongestSuffix(ns, x + [c]) == Target(ns, LongestSuffix(ns, x), c, 0)
  {
    var y, b := x + [c], LeastIn(ns, x, 0);
    NoneBeforeLeast(ns, x, c);
    LeastInSkip(ns, y, 0, b);
    TargetIsLeast(ns, x, c, b, 0);
    assert LongestSuffix(ns, y) == y[LeastIn(ns, y, 0)..];
    assert LongestSuffix(ns, x) == x[b..];
  }

  // ---------------------------------------------------------------------------
  // What a search reports

  /** A report of `search`: the start offset of an occurrence and the word. */
  datatype Match = Match(start: nat, word: seq<char>)

  /** `m` reports an occurrence of its word in `text` at its start offset. */
  predicate Occurs(text: seq<char>, m: Match) {
    m.start + |m.word| <= |text| && text[m.start..m.start + |m.word|] == m.word
  }

  /** Some of the first `i` characters of `text` labels a child of the root. */
  predicate RootHit(ns: Arena, text: seq<char>, i: nat)
    requires 0 < |ns| && i <= |text|
    decreases i
  {
    i > 0 && (RootHit(ns, text, i - 1) || ns[0].HasChild(text[i - 1]))
  }

  lemma {:induction false} RootHitExists(ns: Arena, text: seq<char>, i: nat)
    requires 0 < |ns| && i <= |text|
    ensures RootHit(ns, text, i) <==> exists j | 0 <= j < i :: ns[0].HasChild(text[j])
    decreases i
  {
    if i > 0 {
      RootHitExists(ns, text, i - 1);
    }
  }

  /**
   * What `search` reports, from position `i` on, on a trie without failure
   * links: at the first character that labels a child of the root, the
   * one-character word of that child if it is one; nothing when no character
   * does.
   */
  function UnlinkedMatches(ns: Arena, text: seq<char>, i: nat): seq<Match>
    requires 0 < |ns| && i <= |text|
    decreases |text| - i
  {
    if i == |text| then []
    else if ns[0].HasChild(text[i]) then (if IsWord(ns, [text[i]]) then [Match(i, [text[i]])] else [])
    else UnlinkedMatches(ns, text, i + 1)
  }

  /** Before the first character that labels a child of the root, nothing is reported. */
  lemma {:induction false} UnlinkedMatchesSkip(ns: Arena, text: seq<char>, i: nat)
    requires 0 < |ns| && i <= |text| && !RootHit(ns, text, i)
    ensures UnlinkedMatches(ns, text, 0) == UnlinkedMatches(ns, text, i)
    decreases i
  {
    if i > 0 {
      UnlinkedMatchesSkip(ns, text, i - 1);
    }
  }

  /**
   * Those reports are at most one: a one-character word that occurs in the
   * text, labels a child of the root, and sits at the first character from
   * `i` on that does; when some character labels a child of the root whose
   * word is of one character, there is a report.
   */
  lemma {:induction false} UnlinkedMatchesAt(ns: Arena, text: seq<char>, i: nat)
    requires 0 < |ns| && i <= |text|
    ensures |UnlinkedMatches(ns, text, i)| <= 1
    ensures forall m | m in UnlinkedMatches(ns, text, i) ::
      && i <= m.start < |text| && m.word == [text[m.start]] && Occurs(text, m)
      && IsWord(ns, m.word) && ns[0].HasChild(text[m.start])
      && forall j | i <= j < m.start :: !ns[0].HasChild(text[j])
    ensures UnlinkedMatches(ns, text, i) == [] <==>
      forall j | i <= j < |text| && ns[0].HasChild(text[j]) && IsWord(ns, [text[j]]) ::
        exists h | i <= h < j :: ns[0].HasChild(text[h])
    decreases |text| - i
  {
    if i < |text| && !ns[0].HasChild(text[i]) {
      UnlinkedMatchesAt(ns, text, i + 1);
      var u := UnlinkedMatches(ns, text, i);
      if u == [] {
        forall j | i <= j < |text| && ns[0].HasChild(text[j]) && IsWord(ns, [text[j]])
          ensures exists h | i <= h < j :: ns[0].HasChild(text[h])
        {
          assert j != i;
          var h :| i + 1 <= h < j && ns[0].HasChild(text[h]);
        }
      } else {
        var m := u[0];
        assert m.start + 1 <= m.start + |m.word|;
        assert text[m.start..m.start + 1] == [text[m.start]];
      }
    } else if i < |text| {
      var u := UnlinkedMatches(ns, text, i);
      if u != [] {
        assert text[i..i + 1] == [text[i]];
      } else {
        assert !IsWord(ns, [text[i]]);
      }
    }
  }

  /**
   * The reports for the words among the suffixes `x[m..]`, `m >= j`, of `x`,
   * each at its start offset `m`: longest first.
   */
  function MatchesFrom(ns: Arena, x: seq<char>, j: nat): seq<Match>
    decreases |x| - j
  {
    if j >= |x| then []
    else (if IsWord(ns, x[j..]) then [Match(j, x[j..])] else []) + MatchesFrom(ns, x, j + 1)
  }

  /** Every report from position `j` on is a word of the trie that ends where `x` ends and starts at or after `j`. */
  lemma {:induction false} MatchesFromSound(ns: Arena, x: seq<char>, j: nat)
    ensures forall m | m in MatchesFrom(ns, x, j) :: j <= m.start < |x| && m.word == x[m.start..] && IsWord(ns, m.word)
    decreases |x| - j
  {
    if j < |x| {
      MatchesFromSound(ns, x, j + 1);
    }
  }

  /** Every word among those suffixes is reported. */
  lemma {:induction false} MatchesFromComplete(ns: Arena, x: seq<char>, j: nat, m: nat)
    requires j <= m < |x| && IsWord(ns, x[m..])
    ensures Match(m, x[m..]) in MatchesFrom(ns, x, j)
    decreases |x| - j
  {
    if j < m {
      MatchesFromComplete(ns, x, j + 1, m);
    }
  }

  /** The reports come by strictly increasing start offset, that is longest first. */
  lemma {:induction false} MatchesFromOrder(ns: Arena, x: seq<char>, j: nat)
    ensures forall a, b | 0 <= a < b < |MatchesFrom(ns, x, j)| :: MatchesFrom(ns, x, j)[a].start < MatchesFrom(ns, x, j)[b].start
    decreases |x| - j
  {
    if j < |x| {
      var rest := MatchesFrom(ns, x, j + 1);
      MatchesFromOrder(ns, x, j + 1);
      MatchesFromSound(ns, x, j + 1);
      if IsWord(ns, x[j..]) {
        var ms := MatchesFrom(ns, x, j);
        forall a, b | 0 <= a < b < |ms| ensures ms[a].start < ms[b].start {
          assert ms[b] == rest[b - 1] && rest[b - 1] in rest;
          if a > 0 {
            assert ms[a] == rest[a - 1];
          }
        }
      }
    }
  }

  /** Positions with nothing in the trie can be skipped. */
  lemma {:induction false} MatchesFromSkip(ns: Arena, x: seq<char>, j: nat, j': nat)
    requires Valid(ns) && j <= j' <= |x|
    requires forall m | j <= m < j' :: !InTrie(ns, x[m..])
    ensures MatchesFrom(ns, x, j) == MatchesFrom(ns, x, j')
    decreases j' - j
  {
    if j < j' {
      MatchesFromSkip(ns, x, j + 1, j');
    }
  }

  /** No suffix strictly between a node's path and its link's path is in the trie. */
  lemma {:induction false} NoSuffixBetween(ns: Arena, k: nat, m: nat)
    requires Valid(ns) && 0 < k < |ns| && Live(ns, k)
    requires 1 <= m < |Path(ns, k)| - |Path(ns, ExpectedSuffix(ns, k))|
    ensures !InTrie(ns, Path(ns, k)[m..])
  {
    var s := Path(ns, k);
    assert s[|s| - |s[m..]|..] == s[m..];
    assert IsProperSuffix(s[m..], s);
    BeyondLink(ns, k, s[m..]);
  }

  /**
   * The reports due from a node `k` whose path ends `y`: its own word, if it
   * is one, then those due from its failure link.
   */
  lemma {:induction false} ReportLink(ns: Arena, y: seq<char>, k: nat)
    requires Valid(ns) && 0 < k < |ns| && Live(ns, k) && IsSuffix(Path(ns, k), y)
    ensures MatchesFrom(ns, y, |y| - |Path(ns, k)|) ==
      (if IsWord(ns, Path(ns, k)) then [Match(|y| - |Path(ns, k)|, Path(ns, k))] else [])
      + MatchesFrom(ns, y, |y| - |Path(ns, ExpectedSuffix(ns, k))|)
  {
    var s := Path(ns, k);
    RootFacts(ns, k);
    assert y[|y| - |s|..] == s;
    SkipToLink(ns, y, k);
  }

  /** Between the start of a node's path and the start of its link's path in `y` nothing is reported. */
  lemma {:induction false} SkipToLink(ns: Arena, y: seq<char>, k: nat)
    requires Valid(ns) && 0 < k < |ns| && Live(ns, k) && IsSuffix(Path(ns, k), y)
    ensures |Path(ns, ExpectedSuffix(ns, k))| < |Path(ns, k)|
    ensures MatchesFrom(ns, y, |y| - |Path(ns, k)| + 1) == MatchesFrom(ns, y, |y| - |Path(ns, ExpectedSuffix(ns, k))|)
  {
    RootFacts(ns, k);
    SkipInside(ns, y, k, |y| - |Path(ns, k)| + 1);
  }

  /** The same from any position `j` strictly inside the path of `k` up to the start of its link's path. */
  lemma {:induction false} SkipInside(ns: Arena, y: seq<char>, k: nat, j: nat)
    requires Valid(ns) && 0 < k < |ns| && Live(ns, k) && IsSuffix(Path(ns, k), y)
    requires |y| - |Path(ns, k)| + 1 <= j <= |y| - |Path(ns, ExpectedSuffix(ns, k))|
    ensures MatchesFrom(ns, y, j) == MatchesFrom(ns, y, |y| - |Path(ns, ExpectedSuffix(ns, k))|)
    decreases |y| - j
  {
    if j < |y| - |Path(ns, ExpectedSuffix(ns, k))| {
      NoSuffixAt(ns, y, k, j);
      SkipInside(ns, y, k, j + 1);
    }
  }

  /** A suffix of `y` starting strictly inside the path of `k` and before its link's path is not in the trie. */
  lemma {:induction false} NoSuffixAt(ns: Arena, y: seq<char>, k: nat, m: nat)
    requires Valid(ns) && 0 < k < |ns| && Live(ns, k) && IsSuffix(Path(ns, k), y)
    requires |y| - |Path(ns, k)| + 1 <= m < |y| - |Path(ns, ExpectedSuffix(ns, k))|
    ensures !InTrie(ns, y[m..])
  {
    var s := Path(ns, k);
    var b := |y| - |s|;
    assert y[m..] == s[m - b..];
    NoSuffixBetween(ns, k, m - b);
  }

  /** A failure link leads to a node whose path is a shorter suffix of whatever the path of `k` is a suffix of. */
  lemma {:induction false} ChainStep(ns: Arena, k: nat, y: seq<char>)
    requires Valid(ns) && 0 < k < |ns| && ns[k].suffix.Some? && IsSuffix(Path(ns, k), y)
    ensures ns[k].suffix.value < |ns| && |Path(ns, ns[k].suffix.value)| < |Path(ns, k)|
    ensures IsSuffix(Path(ns, ns[k].suffix.value), y)
  {
    assert NodeOk(ns, k);
    SuffixTrans(Path(ns, ns[k].suffix.value), Path(ns, k), y);
  }

  /** The report node `k` makes when the text read so far has length `e`: its word, if it is one, ending there. */
  function WordReport(ns: Arena, e: nat, k: nat): (own: seq<Match>)
    requires Valid(ns) && 0 < k < |ns| && |Path(ns, k)| <= e
    ensures ns[k].IsWord() ==> own == [Match(e - |Path(ns, k)|, Path(ns, k))]
    ensures !ns[k].IsWord() ==> own == []
  {
    assert NodeOk(ns, k);
    if ns[k].IsWord() then [Match(e - |ns[k].output.text|, ns[k].output.text)] else []
  }

  /**
   * The reports of the walk along the failure links from node `k` when the
   * text read so far has length `e`: each node's word, up to the root or to
   * the first node without a link.
   */
  function ChainReports(ns: Arena, e: nat, k: nat): seq<Match>
    requires Valid(ns) && k < |ns| && |Path(ns, k)| <= e
    decreases |Path(ns, k)|
  {
    if ns[k].IsRoot() then []
    else
      assert NodeOk(ns, k);
      WordReport(ns, e, k) + if ns[k].suffix.Some? then ChainReports(ns, e, ns[k].suffix.value) else []
  }

  /**
   * Once linked, the walk from the node of a suffix `Path(ns, k)` of `y`
   * reports exactly the words ending `y` that are suffixes of that path,
   * longest first.
   */
  lemma {:induction false} ChainReportsAt(ns: Arena, y: seq<char>, k: nat)
    requires Linked(ns) && k < |ns| && Live(ns, k) && IsSuffix(Path(ns, k), y)
    ensures ChainReports(ns, |y|, k) == MatchesFrom(ns, y, |y| - |Path(ns, k)|)
    decreases |Path(ns, k)|
  {
    RootFacts(ns, k);
    if k != 0 {
      var j := ExpectedSuffix(ns, k);
      assert ns[k].suffix == Some(j);
      assert ChainReports(ns, |y|, k) == WordReport(ns, |y|, k) + ChainReports(ns, |y|, j);
      WordReportAt(ns, |y|, k);
      SuffixTrans(Path(ns, j), Path(ns, k), y);
      ChainReportsAt(ns, y, j);
      ReportLink(ns, y, k);
    }
  }

  /** A live node reports exactly when its path is a word. */
  lemma {:induction false} WordReportAt(ns: Arena, e: nat, k: nat)
    requires Valid(ns) && 0 < k < |ns| && Live(ns, k) && |Path(ns, k)| <= e
    ensures WordReport(ns, e, k) == if IsWord(ns, Path(ns, k)) then [Match(e - |Path(ns, k)|, Path(ns, k))] else []
  {
    FindPath(ns, k);
  }

  /**
   * One step of the walk from a non-root node whose path ends `y`: it
   * reports its own word, if any, then goes on from its link, if it has one,
   * to a node with a shorter path that still ends `y`, reachable once linked.
   */
  lemma {:induction false} ChainNext(ns: Arena, y: seq<char>, k: nat)
    requires Valid(ns) && 0 < k < |ns| && IsSuffix(Path(ns, k), y)
    ensures ns[k].suffix == None ==> ChainReports(ns, |y|, k) == WordReport(ns, |y|, k)
    ensures ns[k].suffix.Some? ==>
      && ns[k].suffix.value < |ns| && |Path(ns, ns[k].suffix.value)| < |Path(ns, k)|
      && IsSuffix(Path(ns, ns[k].suffix.value), y)
      && ChainReports(ns, |y|, k) == WordReport(ns, |y|, k) + ChainReports(ns, |y|, ns[k].suffix.value)
    ensures Linked(ns) && Live(ns, k) ==> ns[k].suffix.Some? && Live(ns, ns[k].suffix.value)
  {
    RootFacts(ns, k);
    assert NodeOk(ns, k);
    assert WordReport(ns, |y|, k) + [] == WordReport(ns, |y|, k);
    if Linked(ns) && Live(ns, k) {
      LinkedAt(ns, k);
    }
    if ns[k].suffix.Some? {
      ChainStep(ns, k, y);
    }
  }

  /** Once linked, the walk from the node of the longest suffix of `y` in the trie reports exactly the words ending `y`. */
  lemma {:induction false} ChainReportsLongest(ns: Arena, y: seq<char>, k: nat)
    requires Linked(ns) && k < |ns| && Live(ns, k) && Path(ns, k) == LongestSuffix(ns, y)
    ensures ChainReports(ns, |y|, k) == MatchesAt(ns, y)
  {
    MatchesLongest(ns, y);
    ChainReportsAt(ns, y, k);
  }

  lemma {:induction false} ConcatAssoc(a: seq<Match>, b: seq<Match>, c: seq<Match>)
    ensures (a + b) + c == a + (b + c)
  {
    assert |(a + b) + c| == |a + (b + c)|;
    forall n | 0 <= n < |a + b + c| ensures ((a + b) + c)[n] == (a + (b + c))[n] {
      if n < |a| {
      } else if n < |a| + |b| {
        assert ((a + b) + c)[n] == b[n - |a|];
      }
    }
  }

  /** The reports when the last character of `x` is read: the words ending there, longest first. */
  function MatchesAt(ns: Arena, x: seq<char>): seq<Match> {
    MatchesFrom(ns, x, 0)
  }

  /** The words ending at the end of `x` start within the longest suffix of `x` spelled in the trie. */
  lemma {:induction false} MatchesLongest(ns: Arena, x: seq<char>)
    requires Valid(ns)
    ensures MatchesAt(ns, x) == MatchesFrom(ns, x, |x| - |LongestSuffix(ns, x)|)
  {
    var l := LeastIn(ns, x, 0);
    assert |x| - |LongestSuffix(ns, x)| == l;
    MatchesFromSkip(ns, x, 0, l);
  }

  /**
   * The reports of a search of `text`: for each position, from left to
   * right, the words ending there, longest first.
   */
  function Matches(ns: Arena, text: seq<char>): (ms: seq<Match>)
    decreases |text|
  {
    if text == [] then [] else Matches(ns, text[..|text| - 1]) + MatchesAt(ns, text)
  }

  /** One more character of text adds the reports made at its end. */
  lemma {:induction false} MatchesSnoc(ns: Arena, text: seq<char>, i: nat)
    requires i < |text|
    ensures Matches(ns, text[..i + 1]) == Matches(ns, text[..i]) + MatchesAt(ns, text[..i + 1])
  {
    assert text[..i + 1][..i] == text[..i];
  }

  /** Every report made at the end of `x` is a word that occurs there. */
  lemma {:induction false} MatchesAtSound(ns: Arena, x: seq<char>)
    ensures forall m | m in MatchesAt(ns, x) ::
      && IsWord(ns, m.word) && m.start + |m.word| == |x| && x[m.start..] == m.word
  {
    MatchesFromSound(ns, x, 0);
  }

  /** Every report of `Matches` is a word that occurs in the text at the reported offset. */
  lemma {:induction false} MatchesSound(ns: Arena, text: seq<char>)
    ensures forall m | m in Matches(ns, text) ::
      && IsWord(ns, m.word) && m.start + |m.word| <= |text|
      && text[m.start..m.start + |m.word|] == m.word
    decreases |text|
  {
    if text != [] {
      var pre := text[..|text| - 1];
      MatchesSound(ns, pre);
      MatchesAtSound(ns, text);
      forall m | m in Matches(ns, text)
        ensures IsWord(ns, m.word) && m.start + |m.word| <= |text| && text[m.start..m.start + |m.word|] == m.word
      {
        if m in Matches(ns, pre) {
          assert text[m.start..m.start + |m.word|] == pre[m.start..m.start + |m.word|];
        } else {
          assert m in MatchesAt(ns, text);
          assert text[m.start..m.start + |m.word|] == text[m.start..];
        }
      }
    }
  }

  /** Every occurrence of a word in the text is reported at its offset. */
  lemma {:induction false} MatchesComplete(ns: Arena, text: seq<char>, s: nat, e: nat)
    requires s < e <= |text| && IsWord(ns, text[s..e])
    ensures Match(s, text[s..e]) in Matches(ns, text)
    decreases |text|
  {
    var pre := text[..|text| - 1];
    if e < |text| {
      assert text[s..e] == pre[s..e];
      MatchesComplete(ns, pre, s, e);
    } else {
      assert text[s..e] == text[s..];
      MatchesFromComplete(ns, text, 0, s);
    }
  }

  /** Where a report's occurrence ends. */
  function End(m: Match): nat {
    m.start + |m.word|
  }

  /** Reports come by increasing end offset and, at the same end, longest first. */
  lemma {:induction false} MatchesOrder(ns: Arena, text: seq<char>)
    ensures forall a, b | 0 <= a < b < |Matches(ns, text)| ::
      || End(Matches(ns, text)[a]) < End(Matches(ns, text)[b])
      || (End(Matches(ns, text)[a]) == End(Matches(ns, text)[b])
          && |Matches(ns, text)[a].word| > |Matches(ns, text)[b].word|)
    decreases |text|
  {
    if text != [] {
      var pre := text[..|text| - 1];
      MatchesOrder(ns, pre);
      MatchesSound(ns, pre);
      MatchesAtSound(ns, text);
      MatchesFromOrder(ns, text, 0);
      var l, r := Matches(ns, pre), MatchesAt(ns, text);
      var ms := Matches(ns, text);
      assert ms == l + r;
      forall a | 0 <= a < |l| ensures End(ms[a]) < |text| {
        assert l[a] in Matches(ns, pre);
      }
      forall b | 0 <= b < |r| ensures End(r[b]) == |text| {
        assert r[b] in r;
      }
    }
  }

  /** The reports depend only on the set of words. */
  lemma {:induction false} MatchesWordsOnly(a: Arena, b: Arena, text: seq<char>)
    requires forall u :: IsWord(a, u) <==> IsWord(b, u)
    ensures Matches(a, text) == Matches(b, text)
    decreases |text|
  {
    if text != [] {
      MatchesWordsOnly(a, b, text[..|text| - 1]);
      MatchesFromWordsOnly(a, b, text, 0);
    }
  }

  lemma {:induction false} MatchesFromWordsOnly(a: Arena, b: Arena, x: seq<char>, j: nat)
    requires forall u :: IsWord(a, u) <==> IsWord(b, u)
    ensures MatchesFrom(a, x, j) == MatchesFrom(b, x, j)
    decreases |x| - j
  {
    if j < |x| {
      MatchesFromWordsOnly(a, b, x, j + 1);
    }
  }

  /** Linking changes no word, so the reports of a search are those of the unlinked trie. */
  lemma {:induction false} LinkedWords(ns: Arena)
    requires Valid(ns)
    ensures forall u :: IsWord(LinkedArena(ns), u) <==> IsWord(ns, u)
    ensures WordSet(LinkedArena(ns)) == WordSet(ns)
  {
    var r := LinkedArena(ns);
    assert Valid(r) && SameChildren(ns, r);
    forall u ensures IsWord(r, u) <==> IsWord(ns, u) {
      SameShapeWord(ns, r, u);
    }
    forall u ensures u in WordSet(r) <==> u in WordSet(ns) {
      WordSetIsWords(ns, u);
      WordSetIsWords(r, u);
    }
  }

  lemma {:induction false} SameShapeWord(a: Arena, b: Arena, u: seq<char>)
    requires Valid(a) && Valid(b) && SameChildren(a, b)
    requires forall k | 0 <= k < |a| :: b[k].output == a[k].output
    ensures IsWord(b, u) <==> IsWord(a, u)
  {
    FindSameChildren(a, b, u);
  }

  // ---------------------------------------------------------------------------
  // The start offset of a report

  /**
   * The start offset as `search` computes it, `i - len + 1` on `usize`, where
   * `i` is the index of the last character read and `len` the word's length:
   * the subtraction comes first and overflows (a panic in a debug build)
   * when `len > i`, that is for every occurrence starting at offset 0.
   */
  function OffsetAsWritten(i: nat, len: nat): (r: Option<nat>)
    ensures r.None? <==> len > i
    ensures r.Some? ==> r.value + len == i + 1
  {
    if len > i then None else Some(i - len + 1)
  }

  /** The start offset intended: the occurrence ends at index `i`. */
  function Offset(i: nat, len: nat): (s: nat)
    requires len <= i + 1
    ensures s + len == i + 1
  {
    i + 1 - len
  }

  /** Every occurrence that starts at offset 0 overflows as written, e.g. "he" read at index 1 of "hers". */
  lemma {:induction false} OffsetOverflowsAtStart(i: nat)
    ensures OffsetAsWritten(i, i + 1) == None && Offset(i, i + 1) == 0
    ensures OffsetAsWritten(1, |"he"|) == None && "hers"[Offset(1, |"he"|)..2] == "he"
  {
  }

  /** Elsewhere the offset as written is the intended one. */
  lemma {:induction false} OffsetAgrees(i: nat, len: nat)
    requires len <= i
    ensures OffsetAsWritten(i, len) == Some(Offset(i, len))
  {
  }
}
