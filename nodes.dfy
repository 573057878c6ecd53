/** The node shape shared by both trees (class TreeNode), the views of a tree used to
    state what the operations do (its key set, its in-order sequence, its size, the
    search-tree ordering), and the read-only operations both tree classes share:
    findMin, findMax and the in-order traversal. */
module Nodes {

  /** Java's `int`: keys are only compared, never added, so no wrap-around arises. */
  newtype Key = x: int | -0x8000_0000 <= x < 0x8000_0000

  /** Integer.MIN_VALUE, the result findMax gives for an empty tree. */
  const MIN_VALUE: Key := -0x8000_0000

  /** A possibly absent TreeNode: `Leaf` stands for a null link. Nodes are never shared,
      so a subtree is a value. */
  datatype Tree = Leaf | Node(left: Tree, key: Key, right: Tree)

  /** The keys stored in a tree. */
  function Keys(t: Tree): set<Key>
  {
    match t
    case Leaf => {}
    case Node(l, k, r) => Keys(l) + {k} + Keys(r)
  }

  /** The number of nodes. */
  function Size(t: Tree): nat
  {
    match t
    case Leaf => 0
    case Node(l, _, r) => Size(l) + 1 + Size(r)
  }

  /** The keys visited left subtree, node, right subtree: the list traverseInOrder builds. */
  function InOrder(t: Tree): (s: seq<Key>)
    ensures |s| == Size(t)
    ensures forall x :: x in s <==> x in Keys(t)
  {
    match t
    case Leaf => []
    case Node(l, k, r) => InOrder(l) + [k] + InOrder(r)
  }

  /** The binary-search-tree invariant: every key of a left subtree is below its node's key
      and every key of a right subtree above it. */
  predicate Ordered(t: Tree)
  {
    match t
    case Leaf => true
    case Node(l, k, r) =>
      Ordered(l) && Ordered(r) &&
      (forall x :: x in Keys(l) ==> x < k) &&
      (forall x :: x in Keys(r) ==> k < x)
  }

  predicate StrictlyIncreasing(s: seq<Key>)
  {
    forall i, j :: 0 <= i < j < |s| ==> s[i] < s[j]
  }

  /** The node reached by following left links from a non-null node. */
  function Leftmost(t: Tree): (m: Tree)
    requires t.Node?
    ensures m.Node? && m.left.Leaf?
    ensures m.key in Keys(t)
  {
    if t.left.Leaf? then t else Leftmost(t.left)
  }

  /** The node reached by following right links from a non-null node. */
  function Rightmost(t: Tree): (m: Tree)
    requires t.Node?
    ensures m.Node? && m.right.Leaf?
    ensures m.key in Keys(t)
  {
    if t.right.Leaf? then t else Rightmost(t.right)
  }

  lemma {:induction false} LeftmostIsMinimum(t: Tree)
    requires t.Node? && Ordered(t)
    ensures forall x :: x in Keys(t) ==> Leftmost(t).key <= x
  {
    if t.left.Node? {
      LeftmostIsMinimum(t.left);
    }
  }

  lemma {:induction false} RightmostIsMaximum(t: Tree)
    requires t.Node? && Ordered(t)
    ensures forall x :: x in Keys(t) ==> x <= Rightmost(t).key
  {
    if t.right.Node? {
      RightmostIsMaximum(t.right);
    }
  }

  /** In a two-child node of an ordered tree, the in-order successor (the leftmost key of
      the right subtree) lies above the whole left subtree and below the rest of the right
      subtree, so it may take the node's place. */
  lemma SuccessorSplits(t: Tree)
    requires t.Node? && t.right.Node? && Ordered(t)
    ensures var m := Leftmost(t.right).key;
      t.key < m &&
      (forall x :: x in Keys(t.left) ==> x < m) &&
      (forall x :: x in Keys(t.right) && x != m ==> m < x)
  {
    LeftmostIsMinimum(t.right);
  }

  /** findMin: walk left links from a non-null node. */
  method FindMin(node: Tree) returns (m: Tree)
    requires node.Node?
    ensures m == Leftmost(node)
    ensures m.left.Leaf? && m.key in Keys(node)
    ensures Ordered(node) ==> forall x :: x in Keys(node) ==> m.key <= x
  {
    m := node;
    while m.left.Node?
      invariant m.Node? && Leftmost(m) == Leftmost(node)
      decreases m
    {
      m := m.left;
    }
    if Ordered(node) {
      LeftmostIsMinimum(node);
    }
  }

  /** findMax: walk right links from the root; an empty tree gives Integer.MIN_VALUE,
      which a tree holding MIN_VALUE as its largest key gives too. */
  method FindMax(root: Tree) returns (m: Key)
    ensures root.Leaf? ==> m == MIN_VALUE
    ensures root.Node? ==> m == Rightmost(root).key && m in Keys(root)
    ensures Ordered(root) ==> forall x :: x in Keys(root) ==> x <= m
  {
    var current := root;
    while current.Node? && current.right.Node?
      invariant current.Leaf? ==> root.Leaf?
      invariant current.Node? ==> root.Node? && Rightmost(current) == Rightmost(root)
      decreases current
    {
      current := current.right;
    }
    m := if current.Node? then current.key else MIN_VALUE;
    if root.Node? && Ordered(root) {
      RightmostIsMaximum(root);
    }
  }

  /** inOrderRec: append the keys of `node`, in order, to the list built so far. */
  method InOrderRec(node: Tree, result: seq<Key>) returns (out: seq<Key>)
    ensures out == result + InOrder(node)
    decreases node
  {
    out := result;
    if node.Node? {
      out := InOrderRec(node.left, out);
      out := out + [node.key];
      out := InOrderRec(node.right, out);
    }
  }

  /** traverseInOrder: the keys of an ordered tree, each once, in ascending order. */
  method TraverseInOrder(root: Tree) returns (s: seq<Key>)
    requires Ordered(root)
    ensures s == InOrder(root)
    ensures StrictlyIncreasing(s) && |s| == Size(root)
    ensures forall x :: x in s <==> x in Keys(root)
  {
    s := InOrderRec(root, []);
    OrderedIffAscending(root);
  }

  lemma AscendingConcat(a: seq<Key>, k: Key, b: seq<Key>)
    ensures StrictlyIncreasing(a + [k] + b) <==>
      StrictlyIncreasing(a) && StrictlyIncreasing(b) &&
      (forall x :: x in a ==> x < k) && (forall x :: x in b ==> k < x)
  {
    var s := a + [k] + b;
    if StrictlyIncreasing(s) {
      forall i, j | 0 <= i < j < |a| ensures a[i] < a[j] {
        assert a[i] == s[i] && a[j] == s[j];
      }
      forall i, j | 0 <= i < j < |b| ensures b[i] < b[j] {
        assert b[i] == s[|a| + 1 + i] && b[j] == s[|a| + 1 + j];
      }
      forall x | x in a ensures x < k {
        var i :| 0 <= i < |a| && a[i] == x;
        assert s[i] == x && s[|a|] == k;
      }
      forall x | x in b ensures k < x {
        var i :| 0 <= i < |b| && b[i] == x;
        assert s[|a| + 1 + i] == x && s[|a|] == k;
      }
    }
    if StrictlyIncreasing(a) && StrictlyIncreasing(b) &&
      (forall x :: x in a ==> x < k) && (forall x :: x in b ==> k < x)
    {
      forall i, j | 0 <= i < j < |s| ensures s[i] < s[j] {
        if j < |a| {
          assert s[i] == a[i] && s[j] == a[j];
        } else if i > |a| {
          assert s[i] == b[i - |a| - 1] && s[j] == b[j - |a| - 1];
        } else {
          if i < |a| {
            assert s[i] == a[i] && a[i] in a;
          }
          if j > |a| {
            assert s[j] == b[j - |a| - 1] && b[j - |a| - 1] in b;
          }
        }
      }
    }
  }

  /** A tree is ordered exactly when its in-order traversal is strictly ascending. */
  lemma {:induction false} OrderedIffAscending(t: Tree)
    ensures Ordered(t) <==> StrictlyIncreasing(InOrder(t))
  {
    match t
    case Leaf =>
    case Node(l, k, r) =>
      OrderedIffAscending(l);
      OrderedIffAscending(r);
      AscendingConcat(InOrder(l), k, InOrder(r));
  }

  /** Rearranging nodes without changing the in-order sequence keeps the ordering and the keys. */
  lemma SameInOrderSameOrder(a: Tree, b: Tree)
    requires InOrder(a) == InOrder(b)
    ensures Ordered(a) <==> Ordered(b)
    ensures Keys(a) == Keys(b)
  {
    OrderedIffAscending(a);
    OrderedIffAscending(b);
    assert forall x :: x in Keys(a) <==> x in InOrder(b);
  }

  /** In an ordered tree every key is stored exactly once: there are as many keys as nodes. */
  lemma {:induction false} OrderedKeysDistinct(t: Tree)
    requires Ordered(t)
    ensures |Keys(t)| == Size(t)
  {
    match t
    case Leaf =>
    case Node(l, k, r) =>
      OrderedKeysDistinct(l);
      OrderedKeysDistinct(r);
      assert Keys(l) !! {k};
      assert (Keys(l) + {k}) !! Keys(r);
  }
}
