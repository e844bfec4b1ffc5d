/**
 * The `Node` and `BST` classes of both source files: heap nodes whose links
 * and values are updated in place. Every node carries a ghost footprint
 * (Repr) and a ghost abstract value (Model, a TreeModel.Tree); each method is
 * proved to compute the TreeModel function of the same name, and the
 * properties of those functions are proved in module TreeModel.
 */
module BinarySearchTree {
  import opened TreeModel
  import Layout

  class Node {
    var value: int
    var left: Node?
    var right: Node?
    ghost var Repr: set<object>
    ghost var Model: Tree

    /** Links form a tree (disjoint, acyclic footprints) and Model is the value below this node. */
    ghost predicate Valid()
      reads this, Repr
    {
      this in Repr &&
      (left != null ==>
        left in Repr && left.Repr <= Repr && this !in left.Repr && left.Valid()) &&
      (right != null ==>
        right in Repr && right.Repr <= Repr && this !in right.Repr && right.Valid()) &&
      (left != null && right != null ==> left.Repr !! right.Repr) &&
      Model == Branch(ModelOf(left), value, ModelOf(right))
    }

    /** `Node(value)`: a leaf. */
    constructor (v: int)
      ensures Valid() && fresh(Repr)
      ensures value == v && left == null && right == null
      ensures Model == Branch(Empty, v, Empty)
    {
      value, left, right := v, null, null;
      Repr := {this};
      Model := Branch(Empty, v, Empty);
    }
  }

  /** The abstract value below a possibly-null link. */
  ghost function ModelOf(n: Node?): Tree
    reads n
  {
    if n == null then Empty else n.Model
  }

  class BST {
    var root: Node?
    ghost var Repr: set<object>
    ghost var Model: Tree

    /** The object invariant: a well-formed node structure satisfying the ordering invariant. */
    ghost predicate Valid()
      reads this, Repr
    {
      this in Repr &&
      (root != null ==> root in Repr && root.Repr <= Repr && this !in root.Repr && root.Valid()) &&
      Model == ModelOf(root) &&
      IsBst(Model)
    }

    constructor ()
      ensures Valid() && fresh(Repr)
      ensures Model == Empty
    {
      root := null;
      Repr := {this};
      Model := Empty;
    }

    /** `insert`: an empty tree gets `v` as its root, otherwise `_insert` from the root. */
    method Insert(v: int)
      requires Valid()
      modifies Repr
      ensures Valid() && fresh(Repr - old(Repr))
      ensures Model == TreeModel.Insert(old(Model), v)
      ensures Elements(Model) == Elements(old(Model)) + multiset{v}
      ensures old(Model) == Empty ==> Model == Branch(Empty, v, Empty)
    {
      ghost var before := Model;
      if root == null {
        root := new Node(v);
      } else {
        InsertAt(root, v);
      }
      Repr := Repr + root.Repr;
      Model := root.Model;
      assert root.Valid() && this !in root.Repr;
      assert Model == TreeModel.Insert(before, v);
      assert IsBst(Model) by { InsertKeepsBst(before, v); }
      assert Elements(Model) == Elements(before) + multiset{v} by { InsertElements(before, v); }
    }

    /** `_insert`: walks down by comparison and links a new leaf (equal values go right). */
    static method InsertAt(node: Node, v: int)
      requires node.Valid()
      modifies node.Repr
      ensures node.Valid() && fresh(node.Repr - old(node.Repr))
      ensures node.Model == TreeModel.Insert(old(node.Model), v)
      decreases node.Repr
    {
      if v < node.value {
        if node.left == null {
          node.left := new Node(v);
        } else {
          InsertAt(node.left, v);
        }
        node.Repr := node.Repr + node.left.Repr;
      } else {
        if node.right == null {
          node.right := new Node(v);
        } else {
          InsertAt(node.right, v);
        }
        node.Repr := node.Repr + node.right.Repr;
      }
      node.Model := Branch(ModelOf(node.left), node.value, ModelOf(node.right));
    }

    /** `delete`: the root becomes whatever `_delete` returns. */
    method Delete(v: int)
      requires Valid()
      modifies Repr
      ensures Valid() && fresh(Repr - old(Repr))
      ensures Model == TreeModel.Delete(old(Model), v)
      ensures TreeModel.Inorder(Model) == RemoveFirst(TreeModel.Inorder(old(Model)), v)
      ensures v !in Values(old(Model)) ==> Model == old(Model)
    {
      ghost var before := Model;
      DeleteKeepsBst(before, v);
      DeleteInorder(before, v);
      if v !in Values(before) { DeleteAbsent(before, v); }
      root := DeleteAt(root, v);
      Model := ModelOf(root);
    }

    /**
     * `_delete`: returns the node that replaces `node`. A node without a left
     * child gives way to its right child, one without a right child to its
     * left child; a node with two children is handled by CopySuccessor.
     */
    static method DeleteAt(node: Node?, v: int) returns (r: Node?)
      requires node != null ==> node.Valid()
      modifies if node != null then node.Repr else {}
      ensures node == null ==> r == null
      ensures node != null && r != null ==> r.Valid() && r.Repr <= old(node.Repr)
      ensures node != null ==> ModelOf(r) == TreeModel.Delete(old(node.Model), v)
      decreases if node != null then node.Repr else {}, 1
    {
      if node == null {
        return node;
      }
      if v < node.value {
        var l := DeleteAt(node.left, v);
        node.left := l;
      } else if v > node.value {
        var rt := DeleteAt(node.right, v);
        node.right := rt;
      } else {
        if node.left == null {
          return node.right;
        } else if node.right == null {
          return node.left;
        }
        CopySuccessor(node);
        return node;
      }
      node.Model := Branch(ModelOf(node.left), node.value, ModelOf(node.right));
      return node;
    }

    /**
     * The two-child case of `_delete`: the value of the leftmost node of the
     * right subtree is copied into `node` and then deleted from that subtree.
     */
    static method CopySuccessor(node: Node)
      requires node.Valid() && node.left != null && node.right != null
      modifies node.Repr
      ensures node.Valid() && node.Repr <= old(node.Repr)
      ensures node.Model == TreeModel.Delete(old(node.Model), old(node.value))
      decreases node.Repr, 0
    {
      var temp := MinValueNode(node.right);
      node.value := temp.value;
      var rt := DeleteAt(node.right, temp.value);
      node.right := rt;
      node.Model := Branch(ModelOf(node.left), node.value, ModelOf(node.right));
    }

    /** `_min_value_node`: follows left links to the leftmost node of the subtree. */
    static method MinValueNode(node: Node) returns (current: Node)
      requires node.Valid()
      ensures current in node.Repr && current.Valid() && current.left == null
      ensures current.value == Leftmost(node.Model)
      ensures current.value == TreeModel.Inorder(node.Model)[0]
    {
      current := node;
      while current.left != null
        invariant current in node.Repr && current.Repr <= node.Repr && current.Valid()
        invariant Leftmost(current.Model) == Leftmost(node.Model)
        decreases current.Repr
      {
        current := current.left;
      }
      LeftmostIsFirst(node.Model);
    }

    /** `inorder`: the traversal of the whole tree, sorted by the ordering invariant. */
    function Inorder(): (s: seq<int>)
      reads this, Repr
      requires Valid()
      ensures s == TreeModel.Inorder(Model)
      ensures Sorted(s)
    {
      InorderSorted(Model);
      InorderAt(root)
    }

    /** `_inorder`: left subtree, node, right subtree, over the heap nodes. */
    static function InorderAt(node: Node?): (s: seq<int>)
      reads if node != null then node.Repr else {}
      requires node != null ==> node.Valid()
      ensures s == TreeModel.Inorder(ModelOf(node))
      decreases if node != null then node.Repr else {}
    {
      if node == null then [] else InorderAt(node.left) + [node.value] + InorderAt(node.right)
    }

    /** `draw`: the pre-order drawing of the tree with its root at the theme's anchor. */
    function Draw(theme: Layout.Theme): (ps: seq<Layout.Primitive>)
      reads this, Repr
      requires Valid()
      ensures ps == Layout.DrawTree(theme, Model, Layout.RootX, Layout.RootY(theme))
    {
      DrawAt(theme, root, Layout.RootX, Layout.RootY(theme))
    }

    /** The recursive calls of `draw`, over the heap nodes. */
    static function DrawAt(theme: Layout.Theme, node: Node?, x: int, y: int): (ps: seq<Layout.Primitive>)
      reads if node != null then node.Repr else {}
      requires node != null ==> node.Valid()
      ensures ps == Layout.DrawTree(theme, ModelOf(node), x, y)
      decreases if node != null then node.Repr else {}
    {
      if node == null then []
      else
        Layout.NodeGlyph(theme, x, y, node.value)
        + (if node.left != null
           then [Layout.Connector(theme, x, y, x - Layout.Spread, y + Layout.Drop)]
                + DrawAt(theme, node.left, x - Layout.Spread, y + Layout.Drop)
           else [])
        + (if node.right != null
           then [Layout.Connector(theme, x, y, x + Layout.Spread, y + Layout.Drop)]
                + DrawAt(theme, node.right, x + Layout.Spread, y + Layout.Drop)
           else [])
    }
  }
}
