/** Taking a child out of a message node: `lm_message_node_delete_child` unlinks it from
    the doubly linked list of its parent's children. */
module Oob {
  import opened Lists

  class MessageNode {
    var prev: MessageNode?
    var next: MessageNode?
    var parent: MessageNode?
    var children: MessageNode?

    constructor ()
    {
      prev, next, parent, children := null, null, null, null;
    }
  }

  function At(kids: seq<MessageNode>, i: int): MessageNode? {
    if 0 <= i < |kids| then kids[i] else null
  }

  ghost predicate LinkAt(kids: seq<MessageNode>, i: int)
    requires 0 <= i < |kids|
    reads kids
  {
    kids[i].prev == At(kids, i - 1) && kids[i].next == At(kids, i + 1)
  }

  /** The links of the list `kids` and its head: `prev` and `next` are each other's inverse. */
  ghost predicate Linked(parent: MessageNode, kids: seq<MessageNode>)
    reads parent, kids
  {
    parent.children == At(kids, 0) && forall i | 0 <= i < |kids| :: LinkAt(kids, i)
  }

  ghost predicate Distinct(parent: MessageNode, kids: seq<MessageNode>) {
    parent !in kids && forall i, j | 0 <= i < j < |kids| :: kids[i] != kids[j]
  }

  /** `kids` are the children of `parent`, in order. */
  ghost predicate ChildList(parent: MessageNode, kids: seq<MessageNode>)
    reads parent, kids
  {
    Linked(parent, kids) && Distinct(parent, kids) && forall x | x in kids :: x.parent == parent
  }

  lemma {:induction false} SamePrefix(parent: MessageNode, kids: seq<MessageNode>, others: seq<MessageNode>, n: nat)
    requires ChildList(parent, kids) && ChildList(parent, others)
    requires n <= |kids| <= |others|
    ensures kids[..n] == others[..n]
    ensures n == |kids| ==> |others| == n
  {
    if n == 0 {
      assert At(kids, 0) == At(others, 0);
    } else {
      SamePrefix(parent, kids, others, n - 1);
      if n > 1 {
        assert kids[..n - 1][n - 2] == others[..n - 1][n - 2];
        assert LinkAt(kids, n - 2) && LinkAt(others, n - 2);
      }
      assert kids[n - 1] == At(kids, n - 1) == At(others, n - 1);
      assert LinkAt(kids, n - 1) && LinkAt(others, n - 1);
      assert At(kids, n) == At(others, n);
    }
  }

  /** The children are determined by the head pointer: a parent has one list of children. */
  lemma {:induction false} OneChildList(parent: MessageNode, kids: seq<MessageNode>, others: seq<MessageNode>)
    requires ChildList(parent, kids) && ChildList(parent, others)
    ensures kids == others
  {
    if |kids| <= |others| {
      SamePrefix(parent, kids, others, |kids|);
    } else {
      SamePrefix(parent, others, kids, |others|);
    }
  }

  /** The links of child `i` when child `k` has been taken out. */
  ghost predicate PatchedAt(kids: seq<MessageNode>, k: nat, i: int)
    requires 0 <= i < |kids|
    reads kids
  {
    && kids[i].prev == (if i == k + 1 then At(kids, k - 1) else At(kids, i - 1))
    && kids[i].next == (if i == k - 1 then At(kids, k + 1) else At(kids, i + 1))
  }

  lemma LinkedWithout(parent: MessageNode, kids: seq<MessageNode>, k: nat)
    requires k < |kids| && parent.children == if k == 0 then At(kids, 1) else kids[0]
    requires forall i | 0 <= i < |kids| && i != k :: PatchedAt(kids, k, i)
    ensures Linked(parent, RemoveAt(kids, k))
  {
    var rest := RemoveAt(kids, k);
    forall i | 0 <= i < |rest| ensures LinkAt(rest, i) {
      assert PatchedAt(kids, k, if i < k then i else i + 1);
    }
  }

  /** The assignments that unlink `n`, in the branch where the walk has found it. */
  method Unlink(parent: MessageNode, n: MessageNode, ghost kids: seq<MessageNode>, ghost k: nat)
    requires Linked(parent, kids) && Distinct(parent, kids) && k < |kids| && kids[k] == n
    modifies parent`children, kids`prev, kids`next
    ensures Linked(parent, RemoveAt(kids, k)) && n.prev == null && n.next == null
  {
    assert LinkAt(kids, k);
    var next, prev := n.next, n.prev;
    if next != null {
      next.prev := prev;
    }
    if prev != null {
      prev.next := next;
    }
    if n == parent.children {
      parent.children := next;
    }
    n.prev := null;
    n.next := null;
    forall i | 0 <= i < |kids| && i != k ensures PatchedAt(kids, k, i) {
      assert old(LinkAt(kids, i));
    }
    LinkedWithout(parent, kids, k);
  }

  /** How far the walk of `DeleteChild` is: it stands at the `i`-th of the old children,
      the `k`-th of which is to go. */
  ghost predicate Walking(parent: MessageNode, kids: seq<MessageNode>, k: nat, i: nat, n: MessageNode?)
    requires k < |kids|
    reads parent, kids
  {
    && i <= |kids| && n == At(kids, i)
    && (if i <= k then Linked(parent, kids)
        else Linked(parent, RemoveAt(kids, k)) && kids[k].prev == null && kids[k].next == null)
    && kids[k].parent == null && forall x | x in kids && x != kids[k] :: x.parent == parent
  }

  lemma NextOf(parent: MessageNode, kids: seq<MessageNode>, k: nat, i: nat, n: MessageNode)
    requires k < |kids| && Walking(parent, kids, k, i, n)
    ensures i < |kids| && n.next == At(kids, i + 1)
  {
    if i <= k {
      assert LinkAt(kids, i);
    } else {
      assert LinkAt(RemoveAt(kids, k), i - 1) && RemoveAt(kids, k)[i - 1] == n;
    }
  }

  /** One round of the loop: the next node is remembered before this one is unlinked. */
  method Visit(parent: MessageNode, child: MessageNode, n: MessageNode,
               ghost kids: seq<MessageNode>, ghost k: nat, ghost i: nat)
    returns (next: MessageNode?)
    requires k < |kids| && kids[k] == child && Distinct(parent, kids) && Walking(parent, kids, k, i, n)
    modifies parent`children, kids`prev, kids`next
    ensures Walking(parent, kids, k, i + 1, next)
  {
    NextOf(parent, kids, k, i, n);
    next := n.next;
    if n == child {
      assert i == k;
      Unlink(parent, n, kids, k);
    }
  }

  lemma DistinctWithout(parent: MessageNode, kids: seq<MessageNode>, k: nat)
    requires k < |kids| && Distinct(parent, kids)
    ensures Distinct(parent, RemoveAt(kids, k))
    ensures forall x | x in RemoveAt(kids, k) :: x in kids && x != kids[k]
  {
    var rest := RemoveAt(kids, k);
    assert forall j | 0 <= j < |rest| :: rest[j] == kids[if j < k then j else j + 1];
  }

  lemma WalkDone(parent: MessageNode, kids: seq<MessageNode>, k: nat, i: nat)
    requires k < |kids| && Distinct(parent, kids) && Walking(parent, kids, k, i, null)
    ensures ChildList(parent, RemoveAt(kids, k))
    ensures kids[k].parent == null && kids[k].prev == null && kids[k].next == null
  {
    assert i == |kids|;
    DistinctWithout(parent, kids, k);
  }

  /** The first assignments of `lm_message_node_delete_child`. */
  method Orphan(child: MessageNode, ghost kids: seq<MessageNode>, ghost k: nat) returns (parent: MessageNode)
    requires child.parent != null && ChildList(child.parent, kids) && k < |kids| && kids[k] == child
    modifies child`parent
    ensures parent == old(child.parent) && Distinct(parent, kids) && Walking(parent, kids, k, 0, parent.children)
  {
    parent := child.parent;
    child.parent := null;
    forall i | 0 <= i < |kids| ensures LinkAt(kids, i) {
      assert old(LinkAt(kids, i));
    }
  }

  /** The loop of `lm_message_node_delete_child`. */
  method WalkChildren(parent: MessageNode, child: MessageNode, ghost kids: seq<MessageNode>, ghost k: nat)
    requires k < |kids| && kids[k] == child && Distinct(parent, kids) && Walking(parent, kids, k, 0, parent.children)
    modifies parent`children, kids`prev, kids`next
    ensures ChildList(parent, RemoveAt(kids, k))
    ensures child.parent == null && child.prev == null && child.next == null
  {
    var n := parent.children;
    ghost var i: nat := 0;
    while n != null
      invariant Walking(parent, kids, k, i, n)
      decreases |kids| - i
    {
      n := Visit(parent, child, n, kids, k, i);
      i := i + 1;
    }
    WalkDone(parent, kids, k, i);
  }

  /** `lm_message_node_delete_child`: the child is unlinked from its parent's list and
      left detached; the other children keep their order, and the list its form. */
  method DeleteChild(child: MessageNode, ghost kids: seq<MessageNode>, ghost k: nat)
    requires child.parent != null && ChildList(child.parent, kids) && k < |kids| && kids[k] == child
    modifies child.parent`children, kids`prev, kids`next, child`parent
    ensures ChildList(old(child.parent), RemoveAt(kids, k))
    ensures child.parent == null && child.prev == null && child.next == null
  {
    var parent := Orphan(child, kids, k);
    WalkChildren(parent, child, kids, k);
  }
}
