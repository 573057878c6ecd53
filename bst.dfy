/** The unbalanced binary search tree (class BinarySearchTree): recursive insert that
    ignores duplicates, recursive delete that replaces a two-child node's key by its
    in-order successor, and the tree object whose root those operations re-link. */
module Bst {
  import opened Nodes

  /** insertRec: descend by comparison and attach a new leaf at the empty slot; a key equal
      to a node's key changes nothing. */
  function InsertRec(node: Tree, key: Key): (r: Tree)
    ensures Keys(r) == Keys(node) + {key}
    ensures r.Node?
  {
    match node
    case Leaf => Node(Leaf, key, Leaf)
    case Node(l, k, rt) =>
      if key < k then Node(InsertRec(l, key), k, rt)
      else if key > k then Node(l, k, InsertRec(rt, key))
      else node
  }

  lemma {:induction false} InsertRecOrdered(t: Tree, key: Key)
    requires Ordered(t)
    ensures Ordered(InsertRec(t, key))
  {
    match t
    case Leaf =>
    case Node(l, k, r) =>
      if key < k {
        InsertRecOrdered(l, key);
      } else if key > k {
        InsertRecOrdered(r, key);
      }
  }

  /** The tree grows by one node exactly when the key is new; an existing key leaves the
      tree as it was. */
  lemma {:induction false} InsertRecSize(t: Tree, key: Key)
    requires Ordered(t)
    ensures key in Keys(t) ==> InsertRec(t, key) == t
    ensures key !in Keys(t) ==> Size(InsertRec(t, key)) == Size(t) + 1
  {
    match t
    case Leaf =>
    case Node(l, k, r) =>
      if key < k {
        assert key !in Keys(r);
        assert key in Keys(t) ==> key in Keys(l);
        InsertRecSize(l, key);
      } else if key > k {
        assert key !in Keys(l);
        assert key in Keys(t) ==> key in Keys(r);
        InsertRecSize(r, key);
      }
  }

  /** deleteRec: descend by comparison; a node with at most one child is replaced by that
      child, a node with two children takes the key of its in-order successor, which is then
      deleted from the right subtree. An absent key changes nothing. */
  function DeleteRec(node: Tree, key: Key): (r: Tree)
    ensures Keys(r) <= Keys(node)
    ensures key !in Keys(node) ==> r == node
  {
    match node
    case Leaf => Leaf
    case Node(l, k, rt) =>
      if key < k then Node(DeleteRec(l, key), k, rt)
      else if key > k then Node(l, k, DeleteRec(rt, key))
      else if l.Leaf? then rt
      else if rt.Leaf? then l
      else
        var successor := Leftmost(rt).key;
        Node(l, successor, DeleteRec(rt, successor))
  }

  lemma {:induction false} DeleteRecOrdered(t: Tree, key: Key)
    requires Ordered(t)
    ensures Ordered(DeleteRec(t, key))
    ensures Keys(DeleteRec(t, key)) == Keys(t) - {key}
  {
    match t
    case Leaf =>
    case Node(l, k, r) =>
      if key < k {
        DeleteRecOrdered(l, key);
      } else if key > k {
        DeleteRecOrdered(r, key);
      } else if l.Node? && r.Node? {
        var m := Leftmost(r).key;
        SuccessorSplits(t);
        DeleteRecOrdered(r, m);
      }
  }

  /** Inserting a new key and then deleting it gives back the very same tree: the new key
      sits in a leaf, and deleting a leaf splices in its (absent) right child. */
  lemma {:induction false} DeleteUndoesInsert(t: Tree, key: Key)
    requires Ordered(t) && key !in Keys(t)
    ensures DeleteRec(InsertRec(t, key), key) == t
  {
    match t
    case Leaf =>
    case Node(l, k, r) =>
      if key < k {
        DeleteUndoesInsert(l, key);
      } else {
        DeleteUndoesInsert(r, key);
      }
  }

  /** The tree object: `root` is re-linked by every insert and delete. */
  class BinarySearchTree {
    var root: Tree

    ghost predicate Valid()
      reads this
    {
      Ordered(root)
    }

    constructor ()
      ensures Valid() && root == Leaf
    {
      root := Leaf;
    }

    method Insert(key: Key)
      requires Valid()
      modifies this
      ensures Valid()
      ensures root == InsertRec(old(root), key)
      ensures Keys(root) == old(Keys(root)) + {key}
      ensures key in old(Keys(root)) ==> root == old(root)
    {
      InsertRecOrdered(root, key);
      InsertRecSize(root, key);
      root := InsertRec(root, key);
    }

    method Delete(key: Key)
      requires Valid()
      modifies this
      ensures Valid()
      ensures root == DeleteRec(old(root), key)
      ensures Keys(root) == old(Keys(root)) - {key}
      ensures key !in old(Keys(root)) ==> root == old(root)
    {
      DeleteRecOrdered(root, key);
      root := DeleteRec(root, key);
    }

    method FindMax() returns (m: Key)
      requires Valid()
      ensures root.Leaf? ==> m == MIN_VALUE
      ensures root.Node? ==> m in Keys(root) && forall x :: x in Keys(root) ==> x <= m
    {
      m := Nodes.FindMax(root);
    }

    method TraverseInOrder() returns (s: seq<Key>)
      requires Valid()
      ensures StrictlyIncreasing(s) && |s| == Size(root)
      ensures forall x :: x in s <==> x in Keys(root)
    {
      s := Nodes.TraverseInOrder(root);
    }
  }
}
