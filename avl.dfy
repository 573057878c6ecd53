/** The self-balancing tree (class AVLTree): the same descent as the unbalanced tree,
    followed on the way back up every recursive call by a balance check at the node and,
    where one side is two levels deeper, a single or double rotation. Heights are
    recomputed from the structure, not cached. */
module Avl {
  import opened Nodes

  /** Math.max on heights. */
  function Max(a: nat, b: nat): nat
  {
    if a >= b then a else b
  }

  /** height: 0 for a null link, otherwise one more than the taller child. */
  function Height(node: Tree): (h: nat)
    ensures h <= Size(node)
    ensures h == 0 <==> node.Leaf?
  {
    match node
    case Leaf => 0
    case Node(l, _, r) => 1 + Max(Height(l), Height(r))
  }

  /** balanceFactor: left height minus right height, 0 for a null link. A positive factor
      means there is a left child, a negative one a right child. */
  function BalanceFactor(node: Tree): (b: int)
    ensures b > 0 ==> node.Node? && node.left.Node?
    ensures b < 0 ==> node.Node? && node.right.Node?
    ensures node.Node? ==> -(Height(node) as int) < b < Height(node)
  {
    match node
    case Leaf => 0
    case Node(l, _, r) => Height(l) - Height(r)
  }

  /** The AVL invariant: at every node the balance factor is -1, 0 or 1. */
  predicate Balanced(t: Tree)
  {
    match t
    case Leaf => true
    case Node(l, _, r) => -1 <= BalanceFactor(t) <= 1 && Balanced(l) && Balanced(r)
  }

  /** rotateLeft: the right child becomes the subtree root, the old root its left child,
      and the right child's old left subtree the old root's right subtree. */
  function RotateLeft(node: Tree): (r: Tree)
    requires node.Node? && node.right.Node?
    ensures InOrder(r) == InOrder(node)
    ensures Keys(r) == Keys(node)
    ensures r.Node? && r.left.Node?
  {
    var rightChild := node.right;
    Node(Node(node.left, node.key, rightChild.left), rightChild.key, rightChild.right)
  }

  /** rotateRight: the mirror image of rotateLeft. */
  function RotateRight(node: Tree): (r: Tree)
    requires node.Node? && node.left.Node?
    ensures InOrder(r) == InOrder(node)
    ensures Keys(r) == Keys(node)
    ensures r.Node? && r.right.Node?
  {
    var leftChild := node.left;
    Node(leftChild.left, leftChild.key, Node(leftChild.right, node.key, node.right))
  }

  /** The two rotations undo each other. */
  lemma RotationsAreInverse(t: Tree)
    ensures t.Node? && t.right.Node? ==> RotateRight(RotateLeft(t)) == t
    ensures t.Node? && t.left.Node? ==> RotateLeft(RotateRight(t)) == t
  {
  }

  /** A rotation keeps a search tree a search tree. */
  lemma RotationsKeepOrder(t: Tree)
    requires Ordered(t)
    ensures t.Node? && t.right.Node? ==> Ordered(RotateLeft(t))
    ensures t.Node? && t.left.Node? ==> Ordered(RotateRight(t))
  {
    if t.Node? && t.right.Node? {
      SameInOrderSameOrder(t, RotateLeft(t));
    }
    if t.Node? && t.left.Node? {
      SameInOrderSameOrder(t, RotateRight(t));
    }
  }

  /** The links that the insert-time rebalancing follows exist: a double rotation needs the
      heavy child's inner grandchild. */
  predicate InsertRotationsDefined(node: Tree, key: Key)
    requires node.Node?
  {
    (BalanceFactor(node) > 1 && key >= node.left.key ==> node.left.right.Node?) &&
    (BalanceFactor(node) < -1 && key <= node.right.key ==> node.right.left.Node?)
  }

  /** The balance step of insertRec: the inserted key, compared with the heavy child's key,
      chooses between a single and a double rotation. */
  function RebalanceInsert(node: Tree, key: Key): (r: Tree)
    requires node.Node? && InsertRotationsDefined(node, key)
    ensures InOrder(r) == InOrder(node)
    ensures Keys(r) == Keys(node)
    ensures -1 <= BalanceFactor(node) <= 1 ==> r == node
  {
    var balance := BalanceFactor(node);
    if balance > 1 then
      if key < node.left.key then RotateRight(node)
      else RotateRight(Node(RotateLeft(node.left), node.key, node.right))
    else if balance < -1 then
      if key > node.right.key then RotateLeft(node)
      else RotateLeft(Node(node.left, node.key, RotateRight(node.right)))
    else node
  }

  /** The balance step of deleteRec: the heavy child's own balance factor chooses between a
      single and a double rotation. */
  function RebalanceDelete(node: Tree): (r: Tree)
    requires node.Node?
    ensures InOrder(r) == InOrder(node)
    ensures Keys(r) == Keys(node)
    ensures -1 <= BalanceFactor(node) <= 1 ==> r == node
  {
    var balance := BalanceFactor(node);
    if balance > 1 then
      if BalanceFactor(node.left) >= 0 then RotateRight(node)
      else RotateRight(Node(RotateLeft(node.left), node.key, node.right))
    else if balance < -1 then
      if BalanceFactor(node.right) <= 0 then RotateLeft(node)
      else RotateLeft(Node(node.left, node.key, RotateRight(node.right)))
    else node
  }

  /** Left subtree two levels too deep and not leaning right: one right rotation restores
      balance, lowering the subtree by one unless the left child was even. */
  lemma RotateRightRepairs(node: Tree)
    requires node.Node? && Balanced(node.left) && Balanced(node.right)
    requires Height(node.left) == Height(node.right) + 2
    requires BalanceFactor(node.left) >= 0
    ensures Balanced(RotateRight(node))
    ensures Height(RotateRight(node)) == Height(node) - (if BalanceFactor(node.left) == 0 then 0 else 1)
  {
    var Node(a, x, b) := node.left;
    var c := node.right;
    assert Height(Node(b, node.key, c)) == Height(b) + 1;
  }

  /** The shape both double rotations produce: the heavy grandchild on top, with the outer
      subtrees and the grandchild's two halves below it. */
  lemma DoubleRotationShape(a: Tree, x: Key, b1: Tree, y: Key, b2: Tree, z: Key, c: Tree)
    requires Balanced(a) && Balanced(b1) && Balanced(b2) && Balanced(c)
    requires Height(a) == Height(c)
    requires Height(a) <= Height(b1) + 1 && Height(b1) <= Height(a)
    requires Height(a) <= Height(b2) + 1 && Height(b2) <= Height(a)
    ensures Balanced(Node(Node(a, x, b1), y, Node(b2, z, c)))
    ensures Height(Node(Node(a, x, b1), y, Node(b2, z, c))) == Height(a) + 2
  {
    assert Height(Node(a, x, b1)) == Height(a) + 1;
    assert Height(Node(b2, z, c)) == Height(c) + 1;
  }

  /** Left subtree two levels too deep and leaning right: a left rotation of the child and a
      right rotation of the node restore balance and lower the subtree by one. */
  lemma RotateLeftRightRepairs(node: Tree)
    requires node.Node? && Balanced(node.left) && Balanced(node.right)
    requires Height(node.left) == Height(node.right) + 2
    requires BalanceFactor(node.left) < 0
    ensures node.left.right.Node?
    ensures Balanced(RotateRight(Node(RotateLeft(node.left), node.key, node.right)))
    ensures Height(RotateRight(Node(RotateLeft(node.left), node.key, node.right))) == Height(node) - 1
  {
    var Node(a, x, b) := node.left;
    var c := node.right;
    assert Height(a) == Height(c) && Height(b) == Height(c) + 1;
    var Node(b1, y, b2) := b;
    assert RotateRight(Node(RotateLeft(node.left), node.key, node.right))
      == Node(Node(a, x, b1), y, Node(b2, node.key, c));
    DoubleRotationShape(a, x, b1, y, b2, node.key, c);
  }

  /** Mirror image of RotateRightRepairs. */
  lemma RotateLeftRepairs(node: Tree)
    requires node.Node? && Balanced(node.left) && Balanced(node.right)
    requires Height(node.right) == Height(node.left) + 2
    requires BalanceFactor(node.right) <= 0
    ensures Balanced(RotateLeft(node))
    ensures Height(RotateLeft(node)) == Height(node) - (if BalanceFactor(node.right) == 0 then 0 else 1)
  {
    var Node(b, x, c) := node.right;
    var a := node.left;
    assert Height(Node(a, node.key, b)) == Height(b) + 1;
  }

  /** Mirror image of RotateLeftRightRepairs. */
  lemma RotateRightLeftRepairs(node: Tree)
    requires node.Node? && Balanced(node.left) && Balanced(node.right)
    requires Height(node.right) == Height(node.left) + 2
    requires BalanceFactor(node.right) > 0
    ensures node.right.left.Node?
    ensures Balanced(RotateLeft(Node(node.left, node.key, RotateRight(node.right))))
    ensures Height(RotateLeft(Node(node.left, node.key, RotateRight(node.right)))) == Height(node) - 1
  {
    var Node(b, x, c) := node.right;
    var a := node.left;
    assert Height(c) == Height(a) && Height(b) == Height(a) + 1;
    var Node(b1, y, b2) := b;
    assert RotateLeft(Node(node.left, node.key, RotateRight(node.right)))
      == Node(Node(a, node.key, b1), y, Node(b2, x, c));
    DoubleRotationShape(a, node.key, b1, y, b2, x, c);
  }

  /** A subtree that grew by one level during an insert leans toward the side that
      received the key: the key is not its root's, and the balance factor is +1 when the
      key is below the root and -1 when above. */
  predicate LeansToward(t: Tree, key: Key)
  {
    t.Node? && key != t.key && BalanceFactor(t) == (if key < t.key then 1 else -1)
  }

  /** insertRec: the unbalanced tree's insert, followed at every node on the way back up by
      the insert-time balance step. On an AVL-balanced tree every link the rotations follow
      exists, the result is balanced, and the height grows by at most one. */
  function InsertRec(node: Tree, key: Key): (r: Tree)
    requires Balanced(node)
    ensures Balanced(r)
    ensures Keys(r) == Keys(node) + {key}
    ensures Height(node) <= Height(r) <= Height(node) + 1
    ensures node.Node? && Height(r) == Height(node) + 1 ==> LeansToward(r, key)
    decreases node
  {
    match node
    case Leaf => Node(Leaf, key, Leaf)
    case Node(l, k, rt) =>
      if key < k then
        var newLeft := InsertRec(l, key);
        InsertLeftRebalances(node, key, newLeft);
        RebalanceInsert(Node(newLeft, k, rt), key)
      else if key > k then
        var newRight := InsertRec(rt, key);
        InsertRightRebalances(node, key, newRight);
        RebalanceInsert(Node(l, k, newRight), key)
      else
        RebalanceInsert(node, key)
  }

  /** The balance step after inserting into the left subtree: when the node is two levels
      left-heavy the left subtree has just grown and leans toward the key, so comparing the
      key with the left child's key picks the rotation that repairs the node. */
  lemma InsertLeftRebalances(node: Tree, key: Key, newLeft: Tree)
    requires node.Node? && Balanced(node) && key < node.key
    requires Balanced(newLeft)
    requires Height(node.left) <= Height(newLeft) <= Height(node.left) + 1
    requires node.left.Node? && Height(newLeft) == Height(node.left) + 1 ==> LeansToward(newLeft, key)
    requires Keys(newLeft) == Keys(node.left) + {key}
    ensures InsertRotationsDefined(Node(newLeft, node.key, node.right), key)
    ensures var r := RebalanceInsert(Node(newLeft, node.key, node.right), key);
      Keys(r) == Keys(node) + {key} &&
      Balanced(r) && Height(node) <= Height(r) <= Height(node) + 1 &&
      (Height(r) == Height(node) + 1 ==> LeansToward(r, key))
  {
    var n := Node(newLeft, node.key, node.right);
    assert Keys(n) == Keys(node) + {key};
    if BalanceFactor(n) > 1 {
      assert node.left.Node? && LeansToward(newLeft, key);
      if key < newLeft.key {
        RotateRightRepairs(n);
      } else {
        RotateLeftRightRepairs(n);
      }
    }
  }

  /** Mirror image of InsertLeftRebalances. */
  lemma InsertRightRebalances(node: Tree, key: Key, newRight: Tree)
    requires node.Node? && Balanced(node) && key > node.key
    requires Balanced(newRight)
    requires Height(node.right) <= Height(newRight) <= Height(node.right) + 1
    requires node.right.Node? && Height(newRight) == Height(node.right) + 1 ==> LeansToward(newRight, key)
    requires Keys(newRight) == Keys(node.right) + {key}
    ensures InsertRotationsDefined(Node(node.left, node.key, newRight), key)
    ensures var r := RebalanceInsert(Node(node.left, node.key, newRight), key);
      Keys(r) == Keys(node) + {key} &&
      Balanced(r) && Height(node) <= Height(r) <= Height(node) + 1 &&
      (Height(r) == Height(node) + 1 ==> LeansToward(r, key))
  {
    var n := Node(node.left, node.key, newRight);
    assert Keys(n) == Keys(node) + {key};
    if BalanceFactor(n) < -1 {
      assert node.right.Node? && LeansToward(newRight, key);
      if key > newRight.key {
        RotateLeftRepairs(n);
      } else {
        RotateRightLeftRepairs(n);
      }
    }
  }

  lemma {:induction false} InsertRecOrdered(t: Tree, key: Key)
    requires Balanced(t) && Ordered(t)
    ensures Ordered(InsertRec(t, key))
    decreases t, 1
  {
    if t.Node? && key < t.key {
      InsertLeftOrdered(t, key);
    } else if t.Node? && key > t.key {
      InsertRightOrdered(t, key);
    }
  }

  lemma {:induction false} InsertLeftOrdered(t: Tree, key: Key)
    requires t.Node? && Balanced(t) && Ordered(t) && key < t.key
    ensures Ordered(InsertRec(t, key))
    decreases t, 0
  {
    var n := Node(InsertRec(t.left, key), t.key, t.right);
    assert Ordered(n) by {
      InsertRecOrdered(t.left, key);
    }
    assert InsertRec(t, key) == RebalanceInsert(n, key);
    SameInOrderSameOrder(n, RebalanceInsert(n, key));
  }

  lemma {:induction false} InsertRightOrdered(t: Tree, key: Key)
    requires t.Node? && Balanced(t) && Ordered(t) && key > t.key
    ensures Ordered(InsertRec(t, key))
    decreases t, 0
  {
    var n := Node(t.left, t.key, InsertRec(t.right, key));
    assert Ordered(n) by {
      InsertRecOrdered(t.right, key);
    }
    assert InsertRec(t, key) == RebalanceInsert(n, key);
    SameInOrderSameOrder(n, RebalanceInsert(n, key));
  }

  /** Inserting a key that is already present leaves the tree as it was. */
  lemma {:induction false} InsertRecExisting(t: Tree, key: Key)
    requires Balanced(t) && Ordered(t) && key in Keys(t)
    ensures InsertRec(t, key) == t
  {
    match t
    case Node(l, k, r) =>
      if key < k {
        assert key !in Keys(r);
        InsertRecExisting(l, key);
      } else if key > k {
        assert key !in Keys(l);
        InsertRecExisting(r, key);
      }
  }

  /** deleteRec: the unbalanced tree's delete, followed at every node on the way back up
      (including the nodes on the path that removes the in-order successor) by the
      delete-time balance step. It never follows a missing link, whatever the input. */
  function DeleteRec(node: Tree, key: Key): (r: Tree)
    ensures Keys(r) <= Keys(node)
    ensures Size(r) <= Size(node)
  {
    match node
    case Leaf => Leaf
    case Node(l, k, rt) =>
      if key < k then RebalanceDelete(Node(DeleteRec(l, key), k, rt))
      else if key > k then RebalanceDelete(Node(l, k, DeleteRec(rt, key)))
      else if l.Leaf? then rt
      else if rt.Leaf? then l
      else
        var successor := Leftmost(rt).key;
        RebalanceDelete(Node(l, successor, DeleteRec(rt, successor)))
  }

  /** The delete-time balance step repairs a node whose children are balanced and whose
      heights differ by at most two, and lowers it by at most one. */
  lemma RebalanceDeleteRepairs(node: Tree)
    requires node.Node? && Balanced(node.left) && Balanced(node.right)
    requires -2 <= BalanceFactor(node) <= 2
    ensures Balanced(RebalanceDelete(node))
    ensures Height(node) - 1 <= Height(RebalanceDelete(node)) <= Height(node)
  {
    if BalanceFactor(node) > 1 {
      if BalanceFactor(node.left) >= 0 {
        RotateRightRepairs(node);
      } else {
        RotateLeftRightRepairs(node);
      }
    } else if BalanceFactor(node) < -1 {
      if BalanceFactor(node.right) <= 0 {
        RotateLeftRepairs(node);
      } else {
        RotateRightLeftRepairs(node);
      }
    }
  }

  /** Deleting from an AVL-balanced tree gives an AVL-balanced tree at most one level lower. */
  /** One level of DeleteRec after descending left: the left subtree was rebalanced and
      lowered by at most one, and the node's own balance step repairs it. */
  lemma DeleteLeftRebalances(t: Tree, newLeft: Tree)
    requires t.Node? && Balanced(t) && Balanced(newLeft)
    requires Height(t.left) - 1 <= Height(newLeft) <= Height(t.left)
    ensures var r := RebalanceDelete(Node(newLeft, t.key, t.right));
      Balanced(r) && Height(t) - 1 <= Height(r) <= Height(t)
  {
    var n := Node(newLeft, t.key, t.right);
    RebalanceDeleteRepairs(n);
    assert BalanceFactor(n) < -1 ==> Height(n) == Height(t);
  }

  /** One level of DeleteRec after descending right, either for the key itself or for the
      in-order successor whose key `k` the node now carries. */
  lemma DeleteRightRebalances(t: Tree, k: Key, newRight: Tree)
    requires t.Node? && Balanced(t) && Balanced(newRight)
    requires Height(t.right) - 1 <= Height(newRight) <= Height(t.right)
    ensures var r := RebalanceDelete(Node(t.left, k, newRight));
      Balanced(r) && Height(t) - 1 <= Height(r) <= Height(t)
  {
    var n := Node(t.left, k, newRight);
    RebalanceDeleteRepairs(n);
    assert BalanceFactor(n) > 1 ==> Height(n) == Height(t);
  }

  /** Deleting from an AVL-balanced tree gives an AVL-balanced tree at most one level lower. */
  lemma {:induction false} DeleteRecBalanced(t: Tree, key: Key)
    requires Balanced(t)
    ensures Balanced(DeleteRec(t, key))
    ensures Height(t) - 1 <= Height(DeleteRec(t, key)) <= Height(t)
  {
    match t
    case Leaf =>
    case Node(l, k, r) =>
      if key < k {
        DeleteRecBalanced(l, key);
        DeleteLeftRebalances(t, DeleteRec(l, key));
        assert DeleteRec(t, key) == RebalanceDelete(Node(DeleteRec(l, key), k, r));
      } else if key > k {
        DeleteRecBalanced(r, key);
        DeleteRightRebalances(t, k, DeleteRec(r, key));
        assert DeleteRec(t, key) == RebalanceDelete(Node(l, k, DeleteRec(r, key)));
      } else if l.Node? && r.Node? {
        var m := Leftmost(r).key;
        DeleteRecBalanced(r, m);
        DeleteRightRebalances(t, m, DeleteRec(r, m));
        assert DeleteRec(t, key) == RebalanceDelete(Node(l, m, DeleteRec(r, m)));
      }
  }

  lemma {:induction false} DeleteRecOrdered(t: Tree, key: Key)
    requires Ordered(t)
    ensures Ordered(DeleteRec(t, key))
    ensures Keys(DeleteRec(t, key)) == Keys(t) - {key}
    decreases t, 1
  {
    match t
    case Leaf =>
    case Node(l, k, r) =>
      if key < k {
        DeleteLeftOrdered(t, key);
      } else if key > k {
        DeleteRightOrdered(t, key);
      } else if l.Node? && r.Node? {
        DeleteSuccessorOrdered(t);
      }
  }

  lemma {:induction false} DeleteLeftOrdered(t: Tree, key: Key)
    requires t.Node? && Ordered(t) && key < t.key
    ensures Ordered(DeleteRec(t, key))
    ensures Keys(DeleteRec(t, key)) == Keys(t) - {key}
    decreases t, 0
  {
    var n := Node(DeleteRec(t.left, key), t.key, t.right);
    assert Ordered(n) && Keys(n) == Keys(t) - {key} by {
      DeleteRecOrdered(t.left, key);
    }
    assert DeleteRec(t, key) == RebalanceDelete(n);
    SameInOrderSameOrder(n, RebalanceDelete(n));
  }

  lemma {:induction false} DeleteRightOrdered(t: Tree, key: Key)
    requires t.Node? && Ordered(t) && key > t.key
    ensures Ordered(DeleteRec(t, key))
    ensures Keys(DeleteRec(t, key)) == Keys(t) - {key}
    decreases t, 0
  {
    var n := Node(t.left, t.key, DeleteRec(t.right, key));
    assert Ordered(n) && Keys(n) == Keys(t) - {key} by {
      DeleteRecOrdered(t.right, key);
    }
    assert DeleteRec(t, key) == RebalanceDelete(n);
    SameInOrderSameOrder(n, RebalanceDelete(n));
  }

  /** Removing a two-child node: its place is taken by the in-order successor, which is
      then removed from the right subtree. */
  lemma {:induction false} DeleteSuccessorOrdered(t: Tree)
    requires t.Node? && t.left.Node? && t.right.Node? && Ordered(t)
    ensures Ordered(DeleteRec(t, t.key))
    ensures Keys(DeleteRec(t, t.key)) == Keys(t) - {t.key}
    decreases t, 0
  {
    var m := Leftmost(t.right).key;
    var n := Node(t.left, m, DeleteRec(t.right, m));
    assert Ordered(n) && Keys(n) == Keys(t) - {t.key} by {
      SuccessorSplits(t);
      DeleteRecOrdered(t.right, m);
    }
    assert DeleteRec(t, t.key) == RebalanceDelete(n);
    SameInOrderSameOrder(n, RebalanceDelete(n));
  }

  /** Deleting an absent key from an AVL-balanced tree leaves it as it was: the descent ends
      at a null link and no node on the way back up is out of balance. */
  lemma {:induction false} DeleteRecAbsent(t: Tree, key: Key)
    requires Balanced(t) && key !in Keys(t)
    ensures DeleteRec(t, key) == t
  {
    match t
    case Leaf =>
    case Node(l, k, r) =>
      if key < k {
        DeleteRecAbsent(l, key);
      } else {
        DeleteRecAbsent(r, key);
      }
  }

  /** Inserting a new key and deleting it again restores the key set (not necessarily the
      shape, since rotations may have moved nodes). */
  lemma DeleteUndoesInsertKeys(t: Tree, key: Key)
    requires Balanced(t) && Ordered(t) && key !in Keys(t)
    ensures Keys(DeleteRec(InsertRec(t, key), key)) == Keys(t)
  {
    InsertRecOrdered(t, key);
    DeleteRecOrdered(InsertRec(t, key), key);
  }

  /** The fewest nodes an AVL-balanced tree of height h can hold. */
  function MinNodes(h: nat): nat
  {
    if h == 0 then 0 else if h == 1 then 1 else 1 + MinNodes(h - 1) + MinNodes(h - 2)
  }

  function Pow2(n: nat): nat
  {
    if n == 0 then 1 else 2 * Pow2(n - 1)
  }

  lemma {:induction false} MinNodesMonotone(a: nat, b: nat)
    requires a <= b
    ensures MinNodes(a) <= MinNodes(b)
    decreases b
  {
    if a < b {
      MinNodesMonotone(a, b - 1);
    }
  }

  lemma {:induction false} BalancedHasMinNodes(t: Tree)
    requires Balanced(t)
    ensures Size(t) >= MinNodes(Height(t))
  {
    match t
    case Leaf =>
    case Node(l, _, r) =>
      BalancedHasMinNodes(l);
      BalancedHasMinNodes(r);
      var h := Height(t);
      if h >= 2 {
        if Height(l) >= Height(r) {
          MinNodesMonotone(h - 2, Height(r));
        } else {
          MinNodesMonotone(h - 2, Height(l));
        }
      }
  }

  lemma {:induction false} MinNodesDoubles(h: nat)
    ensures MinNodes(h) + 1 >= Pow2(h / 2)
  {
    if h >= 2 {
      MinNodesDoubles(h - 2);
      MinNodesMonotone(h - 2, h - 1);
      assert h / 2 == (h - 2) / 2 + 1;
    }
  }

  /** The point of the balance invariant: an AVL-balanced tree of n nodes has height at most
      about 2 log2(n + 1), so every descent is logarithmic. */
  lemma HeightIsLogarithmic(t: Tree)
    requires Balanced(t)
    ensures Pow2(Height(t) / 2) <= Size(t) + 1
  {
    BalancedHasMinNodes(t);
    MinNodesDoubles(Height(t));
  }

  /** The tree object: `root` is re-linked by every insert and delete, and is always an
      AVL-balanced search tree. */
  class AVLTree {
    var root: Tree

    ghost predicate Valid()
      reads this
    {
      Ordered(root) && Balanced(root)
    }

    constructor ()
      ensures Valid() && root == Leaf
    {
      root := Leaf;
    }

    method Insert(key: Key)
      requires Valid()
      modifies this
      ensures Valid()
      ensures root == InsertRec(old(root), key)
      ensures Keys(root) == old(Keys(root)) + {key}
      ensures key in old(Keys(root)) ==> root == old(root)
    {
      InsertRecOrdered(root, key);
      if key in Keys(root) {
        InsertRecExisting(root, key);
      }
      root := InsertRec(root, key);
    }

    method Delete(key: Key)
      requires Valid()
      modifies this
      ensures Valid()
      ensures root == DeleteRec(old(root), key)
      ensures Keys(root) == old(Keys(root)) - {key}
      ensures key !in old(Keys(root)) ==> root == old(root)
    {
      DeleteRecOrdered(root, key);
      DeleteRecBalanced(root, key);
      if key !in Keys(root) {
        DeleteRecAbsent(root, key);
      }
      root := DeleteRec(root, key);
    }

    method FindMax() returns (m: Key)
      requires Valid()
      ensures root.Leaf? ==> m == MIN_VALUE
      ensures root.Node? ==> m in Keys(root) && forall x :: x in Keys(root) ==> x <= m
    {
      m := Nodes.FindMax(root);
    }

    method TraverseInOrder() returns (s: seq<Key>)
      requires Valid()
      ensures StrictlyIncreasing(s) && |s| == Size(root)
      ensures forall x :: x in s <==> x in Keys(root)
    {
      s := Nodes.TraverseInOrder(root);
    }
  }
}
