/** The node layout of radix_tree.h, over an arena. A C pointer to a node
    becomes an index into a sequence of node records, and the null pointer
    becomes Null. Allocation appends a zeroed record. */
module Nodes {
  import opened Digits

  datatype Option<T> = None | Some(value: T)

  /** Which reading of the source an operation follows: the code as it is
      written, or the code with its evident defects corrected (each
      correction is named where it is applied). */
  datatype Variant = AsWritten | Corrected

  /** The null node pointer. */
  const Null: int := -1

  /** struct radix_tree_node: a non-owning parent pointer, the residual key
      of a leaf, the payload of a leaf (None is the null pointer), the leaf
      tag and the 64 child slots of an internal node. */
  datatype Node<E> = Node(parent: int, rest: nat, element: Option<E>, isLeaf: bool, children: seq<int>)

  type Arena<E> = seq<Node<E>>

  /** A record as malloc followed by memset(0) leaves it: an internal node
      with no parent, no payload and every slot null. */
  function Zeroed<E>(): (n: Node<E>)
    ensures !n.isLeaf && n.parent == Null && n.element == None && n.rest == 0
    ensures |n.children| == SIZE && forall d | 0 <= d < SIZE :: n.children[d] == Null
  {
    Node(Null, 0, None, false, seq(SIZE, _ => Null))
  }

  /** A record whose pointers all stay inside an arena of the given size. */
  predicate NodeIn<E>(n: Node<E>, size: nat)
  {
    |n.children| == SIZE &&
    (forall d | 0 <= d < SIZE :: n.children[d] == Null || 0 <= n.children[d] < size) &&
    (n.parent == Null || 0 <= n.parent < size)
  }

  /** Every record has SIZE slots and no pointer leaves the arena. */
  predicate Closed<E>(a: Arena<E>)
  {
    forall i | 0 <= i < |a| :: NodeIn(a[i], |a|)
  }

  /** Appending a record whose pointers stay inside the grown arena keeps
      the arena closed. */
  lemma AppendClosed<E>(a: Arena<E>, n: Node<E>)
    requires Closed(a) && NodeIn(n, |a| + 1)
    ensures Closed(a + [n])
  {
    forall i | 0 <= i < |a| + 1 ensures NodeIn((a + [n])[i], |a| + 1) {
      if i < |a| {
        assert (a + [n])[i] == a[i];
        assert NodeIn(a[i], |a|);
      }
    }
  }
}
