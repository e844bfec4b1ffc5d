/** Concrete sequences of operations on the three structures, with their final values proved. */
module Scenarios {
  import opened Wrappers
  import opened TreeModel
  import BinarySearchTree
  import Containers

  /**
   * Insert 50, 30, 70, 20, 40; the traversal is [20, 30, 40, 50, 70]. Deleting
   * 30 (two children) copies its successor 40 into that node and removes the
   * old 40 leaf, so the node now holding 40 has no right child.
   */
  method TreeScenario() returns (before: seq<int>, after: seq<int>)
    ensures before == [20, 30, 40, 50, 70]
    ensures after == [20, 40, 50, 70]
  {
    var t := BuildScenario();
    before := t.Inorder();
    t.Delete(30);
    ScenarioDelete();
    after := t.Inorder();
  }

  /** A fresh tree after inserting 50, 30, 70, 20, 40. */
  method BuildScenario() returns (t: BinarySearchTree.BST)
    ensures fresh(t.Repr) && t.Valid() && t.Model == Scenario5()
  {
    var leaf20, leaf30, leaf70 := Branch(Empty, 20, Empty), Branch(Empty, 30, Empty), Branch(Empty, 70, Empty);
    t := new BinarySearchTree.BST();
    t.Insert(50);
    assert fresh(t.Repr);
    t.Insert(30);
    assert fresh(t.Repr);
    assert t.Model == Branch(leaf30, 50, Empty);
    t.Insert(70);
    assert fresh(t.Repr);
    assert t.Model == Branch(leaf30, 50, leaf70);
    t.Insert(20);
    assert fresh(t.Repr);
    assert t.Model == Branch(Branch(leaf20, 30, Empty), 50, leaf70);
    t.Insert(40);
  }

  lemma ScenarioDelete()
    ensures Inorder(Scenario5()) == [20, 30, 40, 50, 70]
    ensures Delete(Scenario5(), 30) == Branch(Branch(Branch(Empty, 20, Empty), 40, Empty), 50, Branch(Empty, 70, Empty))
    ensures Inorder(Delete(Scenario5(), 30)) == [20, 40, 50, 70]
  {
    var leaf20, leaf40 := Branch(Empty, 20, Empty), Branch(Empty, 40, Empty);
    assert Inorder(Branch(leaf20, 30, leaf40)) == [20, 30, 40];
    assert Delete(leaf40, 40) == Empty && Leftmost(leaf40) == 40;
    assert Delete(Branch(leaf20, 30, leaf40), 30) == Branch(leaf20, 40, Empty);
    assert Inorder(Branch(leaf20, 40, Empty)) == [20, 40];
  }

  /** The tree that inserting 50, 30, 70, 20, 40 builds. */
  function Scenario5(): Tree {
    Branch(Branch(Branch(Empty, 20, Empty), 30, Branch(Empty, 40, Empty)), 50, Branch(Empty, 70, Empty))
  }

  /** push(a); push(b); then pop gives b, a and finally None. */
  method StackScenario(a: int, b: int) returns (first: Option<int>, second: Option<int>, third: Option<int>)
    ensures first == Some(b) && second == Some(a) && third == None
  {
    var s := new Containers.Stack();
    s.Push(a);
    s.Push(b);
    first := s.Pop();
    second := s.Pop();
    third := s.Pop();
  }

  /** enqueue(a); enqueue(b); then dequeue gives a, b and finally None. */
  method QueueScenario(a: int, b: int) returns (first: Option<int>, second: Option<int>, third: Option<int>)
    ensures first == Some(a) && second == Some(b) && third == None
  {
    var q := new Containers.Queue();
    q.Enqueue(a);
    q.Enqueue(b);
    first := q.Dequeue();
    second := q.Dequeue();
    third := q.Dequeue();
  }
}
