/**
 * `DictSet::insert` and `DictSet::insert_all` (src/dict/dict_set.rs:48-71) as
 * functions on the arena: the descent that creates missing children, the
 * marking of the landing node, and the fold over a slice of words.
 */
module TrieInsert {
  import opened Wrappers
  import opened DictNodes
  import opened Tries

  /**
   * The descent of `insert` from node `ptr`, which is where `w[..i]` leads:
   * each missing child on the rest of `w` is added, then followed.
   */
  function Walk(ns: Arena, ptr: nat, w: seq<char>, i: nat): (r: (Arena, nat))
    requires Valid(ns) && i <= |w| && Find(ns, w[..i]) == Some(ptr)
    ensures Valid(r.0) && SameLinks(ns, r.0) && r.1 < |r.0|
    ensures Find(r.0, w) == Some(r.1)
    decreases |w| - i
  {
    if i == |w| then
      assert w[..i] == w;
      FindLive(ns, w);
      (ns, ptr)
    else
      var c := w[i];
      FindSnoc(ns, w[..i], c);
      FindLive(ns, w[..i]);
      assert w[..i + 1] == w[..i] + [c];
      if ns[ptr].HasChild(c) then
        Walk(ns, ns[ptr].children[c], w, i + 1)
      else
        ValidAddChild(ns, ptr, c);
        FindAddChild(ns, ptr, c, w[..i + 1]);
        Walk(AddChild(ns, ptr, c), |ns|, w, i + 1)
  }

  /** One step of the descent: follow the child for `w[i]`, adding it first when it is missing. */
  lemma {:induction false} WalkStep(ns: Arena, ptr: nat, w: seq<char>, i: nat)
    requires Valid(ns) && i < |w| && Find(ns, w[..i]) == Some(ptr)
    ensures ptr < |ns|
    ensures ns[ptr].HasChild(w[i]) ==>
      && ns[ptr].children[w[i]] < |ns|
      && Find(ns, w[..i + 1]) == Some(ns[ptr].children[w[i]])
      && Walk(ns, ptr, w, i) == Walk(ns, ns[ptr].children[w[i]], w, i + 1)
    ensures !ns[ptr].HasChild(w[i]) ==>
      && Valid(AddChild(ns, ptr, w[i]))
      && AddChild(ns, ptr, w[i])[ptr].children[w[i]] == |ns|
      && Find(AddChild(ns, ptr, w[i]), w[..i + 1]) == Some(|ns|)
      && Walk(ns, ptr, w, i) == Walk(AddChild(ns, ptr, w[i]), |ns|, w, i + 1)
  {
    var c := w[i];
    FindSnoc(ns, w[..i], c);
    FindLive(ns, w[..i]);
    assert w[..i + 1] == w[..i] + [c];
    if !ns[ptr].HasChild(c) {
      ValidAddChild(ns, ptr, c);
      FindAddChild(ns, ptr, c, w[..i + 1]);
    } else {
      assert EdgesOk(ns, ptr);
    }
  }

  /**
   * `b` extends `a` along `w`: every string of `a` leads where it led, every
   * new string is a prefix of `w` leading to a new node, old nodes keep their
   * output and suffix, and new nodes are unmarked and unlinked.
   */
  ghost predicate Grows(a: Arena, b: Arena, w: seq<char>) {
    && |a| <= |b|
    && (forall u | InTrie(a, u) :: Find(b, u) == Find(a, u))
    && (forall u | InTrie(b, u) && !InTrie(a, u) :: IsPrefix(u, w) && Find(b, u).value >= |a|)
    && (forall j | 0 <= j < |a| :: b[j].output == a[j].output && b[j].suffix == a[j].suffix)
    && (forall j | |a| <= j < |b| :: b[j].output == No && b[j].suffix == None)
  }

  lemma {:induction false} GrowsTrans(a: Arena, b: Arena, c: Arena, w: seq<char>)
    requires Grows(a, b, w) && Grows(b, c, w)
    ensures Grows(a, c, w)
  {
    forall u | InTrie(c, u) && !InTrie(a, u) ensures IsPrefix(u, w) && Find(c, u).value >= |a| {
      if InTrie(b, u) {
        assert Find(c, u) == Find(b, u);
      }
    }
  }

  /** Adding the missing child for the next character of `w` extends the trie along `w`. */
  lemma {:induction false} GrowsAddChild(ns: Arena, p: nat, w: seq<char>, i: nat)
    requires Valid(ns) && i < |w| && p < |ns| && Find(ns, w[..i]) == Some(p) && !ns[p].HasChild(w[i])
    ensures Grows(ns, AddChild(ns, p, w[i]), w)
  {
    var c := w[i];
    var ns' := AddChild(ns, p, c);
    FindLive(ns, w[..i]);
    FindSnoc(ns, w[..i], c);
    assert w[..i + 1] == w[..i] + [c];
    forall u | InTrie(ns, u) ensures Find(ns', u) == Find(ns, u) {
      FindAddChild(ns, p, c, u);
    }
    forall u | InTrie(ns', u) && !InTrie(ns, u) ensures IsPrefix(u, w) && Find(ns', u).value >= |ns| {
      FindAddChild(ns, p, c, u);
      assert u == w[..i + 1];
    }
  }

  /** What the descent keeps; a descent that finds every child changes nothing. */
  lemma {:induction false} WalkFacts(ns: Arena, ptr: nat, w: seq<char>, i: nat)
    requires Valid(ns) && i <= |w| && Find(ns, w[..i]) == Some(ptr)
    ensures Grows(ns, Walk(ns, ptr, w, i).0, w)
    ensures InTrie(ns, w) ==> Walk(ns, ptr, w, i).0 == ns
    decreases |w| - i
  {
    if i == |w| {
      assert w[..i] == w;
    } else {
      var c := w[i];
      FindSnoc(ns, w[..i], c);
      FindLive(ns, w[..i]);
      assert w[..i + 1] == w[..i] + [c];
      if ns[ptr].HasChild(c) {
        WalkFacts(ns, ns[ptr].children[c], w, i + 1);
      } else {
        var ns' := AddChild(ns, ptr, c);
        ValidAddChild(ns, ptr, c);
        FindAddChild(ns, ptr, c, w[..i + 1]);
        WalkFacts(ns', |ns|, w, i + 1);
        GrowsAddChild(ns, ptr, w, i);
        GrowsTrans(ns, ns', Walk(ns', |ns|, w, i + 1).0, w);
        if InTrie(ns, w) {
          FindPrefix(ns, w, i + 1);
          assert false;
        }
      }
    }
  }

  /** The descent marks no word and unmarks none. */
  lemma {:induction false} WalkWords(ns: Arena, ptr: nat, w: seq<char>, i: nat, u: seq<char>)
    requires Valid(ns) && i <= |w| && Find(ns, w[..i]) == Some(ptr)
    ensures IsWord(Walk(ns, ptr, w, i).0, u) <==> IsWord(ns, u)
  {
    WalkFacts(ns, ptr, w, i);
    var a := Walk(ns, ptr, w, i).0;
    if InTrie(ns, u) {
      FindLive(ns, u);
    } else if InTrie(a, u) {
      FindLive(a, u);
    }
  }

  /** Overwriting the output `No` of node `k`, the node of `w`, with `Yes(w)` (line 63). */
  function Mark(ns: Arena, k: nat, w: seq<char>): (r: Arena)
    requires Valid(ns) && k < |ns| && Find(ns, w) == Some(k) && ns[k].output == No
    ensures Valid(r) && SameLinks(ns, r) && SameChildren(ns, r)
    ensures Unlinked(ns) ==> Unlinked(r)
    ensures forall u :: Find(r, u) == Find(ns, u)
    ensures forall u :: IsWord(r, u) <==> IsWord(ns, u) || u == w
  {
    var r := ns[k := ns[k].(output := Yes(w))];
    FindLive(ns, w);
    RootFacts(ns, k);
    assert NodeOk(ns, k);
    ValidReplace(ns, k, r[k]);
    assert forall u :: Find(r, u) == Find(ns, u) by {
      forall u ensures Find(r, u) == Find(ns, u) {
        FindSameChildren(ns, r, u);
      }
    }
    assert forall u :: IsWord(r, u) <==> IsWord(ns, u) || u == w by {
      forall u ensures IsWord(r, u) <==> IsWord(ns, u) || u == w {
        if InTrie(ns, u) {
          FindLive(ns, u);
        }
      }
    }
    r
  }

  /**
   * `insert(w)`: descend along `w`, creating missing children, and mark the
   * landing node with `w` when its output is `No`; the flag says whether the
   * counter is incremented.  The empty word lands on the root, whose output is
   * `Root`, and changes nothing.
   */
  function Insert(ns: Arena, w: seq<char>): (r: (Arena, bool))
    requires Valid(ns)
    ensures Valid(r.0) && SameLinks(ns, r.0)
    ensures Unlinked(ns) ==> Unlinked(r.0)
    ensures r.1 <==> w != [] && !IsWord(ns, w)
    ensures w != [] ==> IsWord(r.0, w)
    ensures forall u :: IsWord(r.0, u) <==> IsWord(ns, u) || (u == w && w != [])
    ensures forall u :: InTrie(r.0, u) <==> InTrie(ns, u) || IsPrefix(u, w)
    ensures forall u | InTrie(ns, u) :: Find(r.0, u) == Find(ns, u)
    ensures !r.1 ==> r.0 == ns
  {
    assert w[..0] == [];
    var (a, k) := Walk(ns, 0, w, 0);
    WalkFacts(ns, 0, w, 0);
    FindLive(a, w);
    RootFacts(a, k);
    assert forall u :: IsWord(a, u) <==> IsWord(ns, u) by {
      forall u ensures IsWord(a, u) <==> IsWord(ns, u) {
        WalkWords(ns, 0, w, 0, u);
      }
    }
    assert forall u | InTrie(a, u) :: InTrie(ns, u) || IsPrefix(u, w);
    assert forall u | IsPrefix(u, w) :: InTrie(a, u) by {
      forall u | IsPrefix(u, w) ensures InTrie(a, u) {
        FindPrefix(a, w, |u|);
      }
    }
    if a[k].output == No then
      (Mark(a, k, w), true)
    else
      (a, false)
  }

  /** The words of the trie grow by `w` exactly when the counter is incremented. */
  lemma {:induction false} InsertWordSet(ns: Arena, w: seq<char>)
    requires Valid(ns)
    ensures WordSet(Insert(ns, w).0) == WordSet(ns) + (if Insert(ns, w).1 then {w} else {})
    ensures |WordSet(Insert(ns, w).0)| == |WordSet(ns)| + (if Insert(ns, w).1 then 1 else 0)
  {
    var (a, added) := Insert(ns, w);
    WordSetGrow(ns, a, w, added);
  }

  /** When the words of `b` are those of `a` and, if `added`, a new word `w`, so are the sets of words. */
  lemma {:induction false} WordSetGrow(a: Arena, b: Arena, w: seq<char>, added: bool)
    requires Valid(a) && Valid(b)
    requires forall u :: IsWord(b, u) <==> IsWord(a, u) || (added && u == w)
    requires added ==> !IsWord(a, w)
    ensures WordSet(b) == WordSet(a) + (if added then {w} else {})
    ensures |WordSet(b)| == |WordSet(a)| + (if added then 1 else 0)
  {
    forall u ensures u in WordSet(b) <==> u in WordSet(a) || (added && u == w) {
      WordSetIsWords(a, u);
      WordSetIsWords(b, u);
    }
    assert WordSet(b) == WordSet(a) + (if added then {w} else {});
    if added {
      WordSetIsWords(a, w);
    }
  }

  /** Re-inserting a word, or inserting the empty word, changes neither the trie nor the counter. */
  lemma {:induction false} InsertIdempotent(ns: Arena, w: seq<char>)
    requires Valid(ns)
    ensures Insert(Insert(ns, w).0, w) == (Insert(ns, w).0, false)
    ensures Insert(ns, []) == (ns, false)
  {
  }

  /** The non-empty words of `ws` that are not yet words of the trie. */
  ghost function NewWords(ns: Arena, ws: seq<seq<char>>): set<seq<char>> {
    set u | u in ws && u != [] && !IsWord(ns, u)
  }

  /**
   * `insert_all(ws)`: `insert` folded over `ws` from the first word to the
   * last; the number is how many times the counter is incremented.
   */
  function InsertAll(ns: Arena, ws: seq<seq<char>>): (r: (Arena, nat))
    requires Valid(ns)
    ensures Valid(r.0) && SameLinks(ns, r.0)
    ensures Unlinked(ns) ==> Unlinked(r.0)
    decreases |ws|
  {
    if ws == [] then (ns, 0)
    else
      var (a, added) := Insert(ns, ws[0]);
      var (b, n) := InsertAll(a, ws[1..]);
      (b, n + if added then 1 else 0)
  }

  /** After `insert_all(ws)` the words are the old ones and the non-empty words of `ws`. */
  lemma {:induction false} InsertAllWords(ns: Arena, ws: seq<seq<char>>, u: seq<char>)
    requires Valid(ns)
    ensures IsWord(InsertAll(ns, ws).0, u) <==> IsWord(ns, u) || (u in ws && u != [])
    decreases |ws|
  {
    if ws != [] {
      var a := Insert(ns, ws[0]).0;
      assert InsertAll(ns, ws).0 == InsertAll(a, ws[1..]).0;
      InsertAllWords(a, ws[1..], u);
      InCons(ws, u);
    }
  }

  /** A word is in a non-empty list of words when it is the first or in the rest. */
  lemma {:induction false} InCons(ws: seq<seq<char>>, u: seq<char>)
    requires ws != []
    ensures u in ws <==> u == ws[0] || u in ws[1..]
  {
    assert ws == [ws[0]] + ws[1..];
  }

  /**
   * The counter grows by the number of distinct non-empty words of `ws` that
   * were not words before, and the number of words grows exactly as much.
   */
  lemma {:induction false} InsertAllCount(ns: Arena, ws: seq<seq<char>>)
    requires Valid(ns)
    ensures InsertAll(ns, ws).1 == |NewWords(ns, ws)|
    ensures |WordSet(InsertAll(ns, ws).0)| == |WordSet(ns)| + InsertAll(ns, ws).1
    decreases |ws|
  {
    if ws == [] {
      assert NewWords(ns, ws) == {};
    } else {
      var x := ws[0];
      var (a, added) := Insert(ns, x);
      InsertAllCount(a, ws[1..]);
      InsertWordSet(ns, x);
      NewWordsStep(ns, ws);
      if added {
        assert |NewWords(a, ws[1..])| == |NewWords(ns, ws)| - 1;
      }
    }
  }

  /** Inserting the first word of `ws` removes it, and only it, from the new words of `ws`. */
  lemma {:induction false} NewWordsStep(ns: Arena, ws: seq<seq<char>>)
    requires Valid(ns) && ws != []
    ensures NewWords(Insert(ns, ws[0]).0, ws[1..]) == NewWords(ns, ws) - {ws[0]}
    ensures Insert(ns, ws[0]).1 <==> ws[0] in NewWords(ns, ws)
  {
    var x := ws[0];
    var a := Insert(ns, x).0;
    assert ws == [x] + ws[1..];
    forall u ensures u in NewWords(a, ws[1..]) <==> u in NewWords(ns, ws) && u != x {
      assert u in ws <==> u == x || u in ws[1..];
    }
  }

  /**
   * `aho_corasick(ws)` starts from a fresh set, so its counter is the number
   * of distinct non-empty words of `ws`, and that is the number of words.
   */
  lemma {:induction false} BuildCount(ws: seq<seq<char>>)
    ensures InsertAll(Empty(), ws).1 == |set u | u in ws && u != []|
    ensures |WordSet(InsertAll(Empty(), ws).0)| == InsertAll(Empty(), ws).1
  {
    InsertAllCount(Empty(), ws);
    assert NewWords(Empty(), ws) == set u | u in ws && u != [];
    assert WordSet(Empty()) == {} by {
      forall u | u in WordSet(Empty()) ensures false {
        WordSetIsWords(Empty(), u);
      }
    }
  }
}
