/**
 * The singly linked list of src/linked_list/list.rs, with its cells from
 * src/linked_list/node.rs.  The list keeps `head`, `tail` and `size`; pushing
 * relinks the head, appending relinks the old tail's `next`.  The ghost
 * sequence `Nodes` lists the cells from head to tail and `Contents` their data.
 * The same class is the LIFO stack (push/pop) and the FIFO queue (offer = append,
 * poll = pop) of src/linked_list/list.rs:79-119.
 */
module LinkedLists {
  import opened Wrappers

  /** No element occurs twice in `s`; recursive, so that callers see one layer at a time. */
  ghost predicate Distinct<T>(s: seq<T>) {
    |s| == 0 || (s[0] !in s[1..] && Distinct(s[1..]))
  }

  lemma {:induction false} DistinctAt<T>(s: seq<T>, i: nat, j: nat)
    requires Distinct(s) && i < j < |s|
    ensures s[i] != s[j]
    decreases i
  {
    if i == 0 {
      assert s[j] == s[1..][j - 1];
    } else {
      DistinctAt(s[1..], i - 1, j - 1);
    }
  }

  lemma {:induction false} DistinctSnoc<T>(s: seq<T>, x: T)
    requires Distinct(s) && x !in s
    ensures Distinct(s + [x])
    decreases |s|
  {
    if |s| > 0 {
      assert (s + [x])[1..] == s[1..] + [x];
      DistinctSnoc(s[1..], x);
    }
  }

  lemma {:induction false} DistinctAppend<T>(s: seq<T>, t: seq<T>)
    requires Distinct(s) && Distinct(t) && forall x | x in t :: x !in s
    ensures Distinct(s + t)
    decreases |s|
  {
    if |s| > 0 {
      assert (s + t)[1..] == s[1..] + t;
      DistinctAppend(s[1..], t);
    } else {
      assert s + t == t;
    }
  }

  /** A list cell: its data and the next cell, if any. */
  class ListNode<T> {
    var data: T
    var next: ListNode?<T>

    constructor (data: T)
      ensures this.data == data && next == null
    {
      this.data := data;
      next := null;
    }
  }

  class LinkedList<T> {
    var head: ListNode?<T>
    var tail: ListNode?<T>
    var size: nat

    ghost var Contents: seq<T>
    ghost var Nodes: seq<ListNode<T>>
    ghost var Repr: set<object>

    /** The cells form one chain from `head` to `tail`, of length `size`. */
    ghost predicate Valid()
      reads this, Repr
      ensures Valid() ==> this in Repr
    {
      && this in Repr
      && |Nodes| == |Contents| == size
      && (forall i | 0 <= i < |Nodes| :: Nodes[i] in Repr)
      && (forall i {:trigger Nodes[i]} | 0 <= i < |Nodes| :: Nodes[i].data == Contents[i])
      && (forall i {:trigger Nodes[i].next} | 0 <= i < |Nodes| :: Nodes[i].next == if i + 1 < |Nodes| then Nodes[i + 1] else null)
      && head == (if |Nodes| == 0 then null else Nodes[0])
      && tail == (if |Nodes| == 0 then null else Nodes[|Nodes| - 1])
      && Distinct(Nodes)
    }

    /** `LinkedList::new`: no cells, size 0. */
    constructor ()
      ensures Valid() && fresh(Repr)
      ensures Contents == [] && head == null && tail == null && size == 0
    {
      head := null;
      tail := null;
      size := 0;
      Contents := [];
      Nodes := [];
      Repr := {this};
    }

    /** `is_empty` (also the `Stack` and `Queue` `is_empty`). */
    predicate IsEmpty()
      reads this, Repr
      requires Valid()
      ensures IsEmpty() <==> Contents == []
    {
      size == 0
    }

    /** `len` (also the `Stack` and `Queue` `size`): the field `size`. */
    function Len(): (n: nat)
      reads this, Repr
      requires Valid()
      ensures n == |Contents|
    {
      size
    }

    /** `is_full` of the `Stack` and `Queue` impls: a linked list never fills up. */
    predicate IsFull()
      reads this, Repr
      requires Valid()
      ensures !IsFull()
    {
      false
    }

    /** `peek`: the first element, if any; nothing changes. */
    function Peek(): (r: Option<T>)
      reads this, Repr
      requires Valid()
      ensures Contents == [] ==> r == None
      ensures Contents != [] ==> r == Some(Contents[0])
    {
      if head == null then None else Some(head.data)
    }

    /** `push`: a new cell in front; `tail` moves only when the list was empty. */
    method Push(item: T)
      requires Valid()
      modifies Repr
      ensures Valid() && fresh(Repr - old(Repr))
      ensures Contents == [item] + old(Contents) && size == old(size) + 1
      ensures old(size) != 0 ==> tail == old(tail)
    {
      var node := new ListNode(item);
      if size == 0 {
        tail := node;
      }
      node.next := head;
      size := size + 1;
      head := node;
      Contents := [item] + Contents;
      Nodes := [node] + Nodes;
      Repr := Repr + {node};
      assert forall i | 1 <= i < |Nodes| :: Nodes[i] == old(Nodes)[i - 1];
      assert Nodes[1..] == old(Nodes);
    }

    /**
     * `pop`: on an empty list `None` and nothing changes; otherwise the first
     * element, the rest stays, `size` drops by one and `tail` is cleared when
     * the list becomes empty.
     */
    method Pop() returns (r: Option<T>)
      requires Valid()
      modifies this
      ensures Valid() && Repr == old(Repr)
      ensures old(Contents) == [] ==> r == None && Contents == [] && size == 0
      ensures old(Contents) != [] ==>
                r == Some(old(Contents)[0]) && Contents == old(Contents)[1..] && size == old(size) - 1
      ensures Contents == [] ==> head == null && tail == null
    {
      if head == null {
        return None;
      }
      var node := head;
      head := node.next;
      size := size - 1;
      if size == 0 {
        tail := null;
      }
      Contents := Contents[1..];
      Nodes := Nodes[1..];
      r := Some(node.data);
    }

    /** `append`: a new cell after the tail (through `push` when empty). */
    method Append(item: T)
      requires Valid()
      modifies Repr
      ensures Valid() && fresh(Repr - old(Repr))
      ensures Contents == old(Contents) + [item] && size == old(size) + 1
    {
      if size == 0 {
        Push(item);
      } else {
        var node := new ListNode(item);
        forall i | 0 <= i < |Nodes| - 1
          ensures Nodes[i] != tail
        {
          DistinctAt(Nodes, i, |Nodes| - 1);
        }
        DistinctSnoc(Nodes, node);
        tail.next := node;
        tail := node;
        size := size + 1;
        Contents := Contents + [item];
        Nodes := Nodes + [node];
        Repr := Repr + {node};
      }
    }

    /** `clear`: drops every cell. */
    method Clear()
      requires Valid()
      modifies this
      ensures Valid() && Repr == old(Repr)
      ensures Contents == [] && size == 0 && head == null && tail == null
    {
      head := null;
      tail := null;
      size := 0;
      Contents := [];
      Nodes := [];
    }

    /** `Queue::offer`, which is `append`. */
    method Offer(item: T)
      requires Valid()
      modifies Repr
      ensures Valid() && fresh(Repr - old(Repr))
      ensures Contents == old(Contents) + [item] && size == old(size) + 1
    {
      Append(item);
    }

    /** `Queue::poll`, which is `pop`. */
    method Poll() returns (r: Option<T>)
      requires Valid()
      modifies this
      ensures Valid() && Repr == old(Repr)
      ensures old(Contents) == [] ==> r == None && Contents == []
      ensures old(Contents) != [] ==> r == Some(old(Contents)[0]) && Contents == old(Contents)[1..]
    {
      r := Pop();
    }
  }

  /** Moving the first element of `r` to the end of `p` keeps `p + r`. */
  lemma MoveFront<T>(p: seq<T>, r: seq<T>)
    requires |r| > 0
    ensures p + [r[0]] + r[1..] == p + r
  {
    assert r == [r[0]] + r[1..];
  }

  /** Splitting `c + [x]` with a one-element right part gives `c` and `[x]`. */
  lemma SplitLast<T>(p: seq<T>, r: seq<T>, c: seq<T>, x: T)
    requires p + r == c + [x] && |r| == 1
    ensures p == c && r == [x]
  {
    assert (p + r)[..|p|] == p;
    assert (p + r)[|p|] == r[0];
  }

  /** Used as a `Stack`, the list is last-in first-out: on any list, `pop` returns what `push` just added and restores the contents. */
  method StackIsLifo<T>(s: LinkedList<T>, x: T) returns (r: Option<T>)
    requires s.Valid()
    modifies s.Repr
    ensures s.Valid() && r == Some(x) && s.Contents == old(s.Contents)
  {
    s.Push(x);
    r := s.Pop();
  }

  /**
   * Used as a `Queue`, the list is first-in first-out: after `offer(x)` on a
   * queue holding `c`, polling returns the elements of `c` in order and then `x`.
   */
  method QueueIsFifo<T>(q: LinkedList<T>, x: T) returns (polled: seq<T>, last: Option<T>)
    requires q.Valid()
    modifies q.Repr
    ensures q.Valid() && polled == old(q.Contents) && last == Some(x) && q.Contents == []
  {
    ghost var c := q.Contents;
    q.Offer(x);
    polled := [];
    while q.Len() > 1
      invariant q.Valid() && polled + q.Contents == c + [x] && |q.Contents| >= 1
      decreases |q.Contents|
    {
      ghost var rest := q.Contents;
      var e := q.Poll();
      MoveFront(polled, rest);
      polled := polled + [e.value];
    }
    SplitLast(polled, q.Contents, c, x);
    last := q.Poll();
  }
}
