/**
 * The abstract value of a binary search tree and the algorithms that the
 * BST class of both source files runs on it: insert (duplicates go right),
 * delete with the three textbook cases (the two-child case copies the in-order
 * successor's value), the leftmost-minimum search and the in-order traversal.
 * The heap implementation in module BinarySearchTree is proved to compute
 * exactly these functions.
 */
module TreeModel {
  import opened Wrappers

  /** The shape and the stored values of a node and everything below it. */
  datatype Tree = Empty | Branch(left: Tree, value: int, right: Tree)

  /** Number of nodes. */
  function Size(t: Tree): nat {
    match t
    case Empty => 0
    case Branch(l, _, r) => Size(l) + 1 + Size(r)
  }

  /** The set of values stored anywhere in the tree. */
  function Values(t: Tree): set<int> {
    match t
    case Empty => {}
    case Branch(l, x, r) => Values(l) + {x} + Values(r)
  }

  /**
   * The ordering invariant: everything in a left subtree is strictly less than
   * the node's value, everything in a right subtree is greater than or equal.
   */
  predicate IsBst(t: Tree) {
    match t
    case Empty => true
    case Branch(l, x, r) =>
      IsBst(l) && IsBst(r) &&
      (forall y :: y in Values(l) ==> y < x) &&
      (forall y :: y in Values(r) ==> x <= y)
  }

  /** The values stored in the tree, counted with their multiplicity. */
  function Elements(t: Tree): multiset<int> {
    match t
    case Empty => multiset{}
    case Branch(l, x, r) => Elements(l) + multiset{x} + Elements(r)
  }

  /** `_inorder`: left subtree, node, right subtree. */
  function Inorder(t: Tree): seq<int> {
    match t
    case Empty => []
    case Branch(l, x, r) => Inorder(l) + [x] + Inorder(r)
  }

  /** Node values in the order a pre-order walk visits them (the order of drawing). */
  function Preorder(t: Tree): seq<int> {
    match t
    case Empty => []
    case Branch(l, x, r) => [x] + Preorder(l) + Preorder(r)
  }

  /** `insert`/`_insert`: a new leaf below the search path; equal values go right. */
  function Insert(t: Tree, v: int): Tree {
    match t
    case Empty => Branch(Empty, v, Empty)
    case Branch(l, x, r) =>
      if v < x then Branch(Insert(l, v), x, r) else Branch(l, x, Insert(r, v))
  }

  /** The value of the node `_min_value_node` stops at: follow left links to the end. */
  function Leftmost(t: Tree): int
    requires t != Empty
  {
    match t
    case Branch(l, x, _) => if l == Empty then x else Leftmost(l)
  }

  /**
   * `delete`/`_delete`: search by comparison; a node without a left child is
   * replaced by its right child, one without a right child by its left child,
   * and a node with two children takes its successor's value, which is then
   * deleted from the right subtree. An absent value reaches Empty and changes
   * nothing.
   */
  function Delete(t: Tree, v: int): Tree {
    match t
    case Empty => Empty
    case Branch(l, x, r) =>
      if v < x then Branch(Delete(l, v), x, r)
      else if v > x then Branch(l, x, Delete(r, v))
      else if l == Empty then r
      else if r == Empty then l
      else
        var m := Leftmost(r);
        Branch(l, m, Delete(r, m))
  }

  /** Inserting a whole sequence of values, first to last, as the caller does one at a time. */
  function InsertAll(t: Tree, vs: seq<int>): Tree
    decreases |vs|
  {
    if vs == [] then t else InsertAll(Insert(t, vs[0]), vs[1..])
  }

  /** The value at the end of a path of left (false) and right (true) steps from the root. */
  function ValueAt(t: Tree, p: seq<bool>): Option<int> {
    match t
    case Empty => None
    case Branch(l, x, r) =>
      if p == [] then Some(x) else ValueAt(if p[0] then r else l, p[1..])
  }

  // ---------------------------------------------------------------------
  // Reference definitions on sequences

  predicate Sorted(s: seq<int>) {
    forall i, j :: 0 <= i < j < |s| ==> s[i] <= s[j]
  }

  /** `s` with its first occurrence of `v` taken out (unchanged if there is none). */
  function RemoveFirst(s: seq<int>, v: int): seq<int> {
    if s == [] then []
    else if s[0] == v then s[1..]
    else [s[0]] + RemoveFirst(s[1..], v)
  }

  /** How many elements of `s` are at most `v`. */
  function CountAtMost(s: seq<int>, v: int): nat {
    if s == [] then 0 else (if s[0] <= v then 1 else 0) + CountAtMost(s[1..], v)
  }

  // ---------------------------------------------------------------------
  // In-order traversal

  /** The traversal lists exactly the stored values. */
  lemma {:induction false} InorderValues(t: Tree)
    ensures forall y :: y in Inorder(t) <==> y in Values(t)
  {
    match t
    case Empty =>
    case Branch(l, x, r) =>
      InorderValues(l);
      InorderValues(r);
  }

  /** The traversal has one entry per node; an empty tree gives []. */
  lemma {:induction false} InorderLength(t: Tree)
    ensures |Inorder(t)| == Size(t)
    ensures t == Empty <==> Inorder(t) == []
  {
    match t
    case Empty =>
    case Branch(l, x, r) =>
      InorderLength(l);
      InorderLength(r);
  }

  lemma SortedJoin(a: seq<int>, x: int, b: seq<int>)
    requires Sorted(a) && Sorted(b)
    requires forall y :: y in a ==> y < x
    requires forall y :: y in b ==> x <= y
    ensures Sorted(a + [x] + b)
  {
    var s := a + [x] + b;
    forall i, j | 0 <= i < j < |s| ensures s[i] <= s[j] {
      if j < |a| {
        assert s[i] == a[i] && s[j] == a[j];
      } else if i > |a| {
        assert s[i] == b[i - |a| - 1] && s[j] == b[j - |a| - 1];
      } else {
        if i < |a| { assert s[i] == a[i] && a[i] in a; }
        if j > |a| { assert s[j] == b[j - |a| - 1] && b[j - |a| - 1] in b; }
      }
    }
  }

  /** Under the ordering invariant the traversal is non-decreasing. */
  lemma {:induction false} InorderSorted(t: Tree)
    requires IsBst(t)
    ensures Sorted(Inorder(t))
  {
    match t
    case Empty =>
    case Branch(l, x, r) =>
      InorderSorted(l);
      InorderSorted(r);
      InorderValues(l);
      InorderValues(r);
      SortedJoin(Inorder(l), x, Inorder(r));
  }

  // ---------------------------------------------------------------------
  // Insert

  /** Insert adds `v` and keeps every value already stored. */
  lemma {:induction false} InsertValues(t: Tree, v: int)
    ensures Values(Insert(t, v)) == Values(t) + {v}
  {
    match t
    case Empty =>
    case Branch(l, x, r) =>
      if v < x { InsertValues(l, v); } else { InsertValues(r, v); }
  }

  /** Insert keeps the ordering invariant. */
  lemma {:induction false} InsertKeepsBst(t: Tree, v: int)
    requires IsBst(t)
    ensures IsBst(Insert(t, v))
  {
    match t
    case Empty =>
    case Branch(l, x, r) =>
      if v < x {
        InsertKeepsBst(l, v);
        InsertValues(l, v);
      } else {
        InsertKeepsBst(r, v);
        InsertValues(r, v);
      }
  }

  /** The traversal holds exactly the tree's elements, with their multiplicity. */
  lemma {:induction false} InorderElements(t: Tree)
    ensures multiset(Inorder(t)) == Elements(t)
  {
    match t
    case Empty =>
    case Branch(l, x, r) =>
      InorderElements(l);
      InorderElements(r);
  }

  /** The traversal after insert holds the old values plus exactly one more `v`. */
  lemma {:induction false} InsertMultiset(t: Tree, v: int)
    ensures Elements(Insert(t, v)) == Elements(t) + multiset{v}
    ensures multiset(Inorder(Insert(t, v))) == multiset(Inorder(t)) + multiset{v}
  {
    InsertElements(t, v);
    InorderElements(t);
    InorderElements(Insert(t, v));
  }

  /** Reordering a multiset sum. */
  lemma BagAdded(a: multiset<int>, b: multiset<int>, c: multiset<int>)
    ensures (a + c) + b == (a + b) + c
  {
  }

  /** Insert adds one occurrence of `v` to the tree's elements. */
  lemma {:induction false} InsertElements(t: Tree, v: int)
    ensures Elements(Insert(t, v)) == Elements(t) + multiset{v}
  {
    match t
    case Empty =>
    case Branch(l, x, r) =>
      var el, er := Elements(l), Elements(r);
      if v < x {
        InsertElements(l, v);
        assert Elements(Insert(t, v)) == (el + multiset{v}) + multiset{x} + er;
        BagAdded(el, multiset{x} + er, multiset{v});
      } else {
        InsertElements(r, v);
        assert Elements(Insert(t, v)) == el + multiset{x} + (er + multiset{v});
      }
  }

  lemma {:induction false} CountAtMostAppend(a: seq<int>, b: seq<int>, v: int)
    ensures CountAtMost(a + b, v) == CountAtMost(a, v) + CountAtMost(b, v)
  {
    if a == [] {
      assert a + b == b;
    } else {
      assert (a + b)[0] == a[0];
      assert (a + b)[1..] == a[1..] + b;
      CountAtMostAppend(a[1..], b, v);
    }
  }

  lemma {:induction false} CountAtMostAll(s: seq<int>, v: int)
    requires forall y :: y in s ==> y <= v
    ensures CountAtMost(s, v) == |s|
  {
    if s != [] {
      assert s[0] in s;
      assert forall y :: y in s[1..] ==> y in s;
      CountAtMostAll(s[1..], v);
    }
  }

  lemma {:induction false} CountAtMostNone(s: seq<int>, v: int)
    requires forall y :: y in s ==> v < y
    ensures CountAtMost(s, v) == 0
  {
    if s != [] {
      assert s[0] in s;
      assert forall y :: y in s[1..] ==> y in s;
      CountAtMostNone(s[1..], v);
    }
  }

  /**
   * Under the ordering invariant, insert puts `v` into the traversal right
   * after every element that is at most `v`: after all its equals, which is
   * the duplicates-go-right rule seen from the sorted sequence.
   */
  lemma {:induction false} InsertPosition(t: Tree, v: int)
    requires IsBst(t)
    ensures var s := Inorder(t); var k := CountAtMost(s, v);
      k <= |s| && Inorder(Insert(t, v)) == s[..k] + [v] + s[k..]
  {
    match t
    case Empty =>
    case Branch(l, x, r) =>
      InorderValues(l);
      InorderValues(r);
      if v < x {
        InsertPosition(l, v);
        assert forall y :: y in Inorder(r) ==> v < y;
        InsertedLeft(Inorder(l), x, Inorder(r), Inorder(Insert(l, v)), v);
      } else {
        InsertPosition(r, v);
        assert forall y :: y in Inorder(l) ==> y <= v;
        InsertedRight(Inorder(l), x, Inorder(r), Inorder(Insert(r, v)), v);
      }
  }

  /** The sequence step of InsertPosition when `v` goes into the left part. */
  lemma InsertedLeft(sl: seq<int>, x: int, sr: seq<int>, il: seq<int>, v: int)
    requires CountAtMost(sl, v) <= |sl|
    requires il == sl[..CountAtMost(sl, v)] + [v] + sl[CountAtMost(sl, v)..]
    requires v < x && forall y :: y in sr ==> v < y
    ensures var s := sl + [x] + sr; var k := CountAtMost(s, v);
      k <= |s| && il + [x] + sr == s[..k] + [v] + s[k..]
  {
    CountAtMostSplit(sl, x, sr, v);
    CountAtMostNone(sr, v);
    SpliceLeft(sl, x, sr, CountAtMost(sl, v), v);
  }

  /** The sequence step of InsertPosition when `v` goes into the right part. */
  lemma InsertedRight(sl: seq<int>, x: int, sr: seq<int>, ir: seq<int>, v: int)
    requires CountAtMost(sr, v) <= |sr|
    requires ir == sr[..CountAtMost(sr, v)] + [v] + sr[CountAtMost(sr, v)..]
    requires x <= v && forall y :: y in sl ==> y <= v
    ensures var s := sl + [x] + sr; var k := CountAtMost(s, v);
      k <= |s| && sl + [x] + ir == s[..k] + [v] + s[k..]
  {
    CountAtMostSplit(sl, x, sr, v);
    CountAtMostAll(sl, v);
    SpliceRight(sl, x, sr, CountAtMost(sr, v), v);
  }

  /** Counting across a middle element. */
  lemma CountAtMostSplit(sl: seq<int>, x: int, sr: seq<int>, v: int)
    ensures CountAtMost(sl + [x] + sr, v) == CountAtMost(sl, v) + (if x <= v then 1 else 0) + CountAtMost(sr, v)
  {
    assert sl + [x] + sr == sl + ([x] + sr);
    CountAtMostAppend(sl, [x] + sr, v);
    CountAtMostAppend([x], sr, v);
  }

  /** Inserting at position k of the left part is inserting at position k of the whole. */
  lemma SpliceLeft(sl: seq<int>, x: int, sr: seq<int>, k: nat, v: int)
    requires k <= |sl|
    ensures var s := sl + [x] + sr;
      (sl[..k] + [v] + sl[k..]) + [x] + sr == s[..k] + [v] + s[k..]
  {
    var s := sl + [x] + sr;
    assert s[..k] == sl[..k];
    assert s[k..] == sl[k..] + [x] + sr;
  }

  /** Inserting at position j of the right part is inserting after the left part and the middle. */
  lemma SpliceRight(sl: seq<int>, x: int, sr: seq<int>, j: nat, v: int)
    requires j <= |sr|
    ensures var s := sl + [x] + sr; var k := |sl| + 1 + j;
      sl + [x] + (sr[..j] + [v] + sr[j..]) == s[..k] + [v] + s[k..]
  {
    var s := sl + [x] + sr;
    var k := |sl| + 1 + j;
    assert s[..k] == sl + [x] + sr[..j];
    assert s[k..] == sr[j..];
  }

  /** Inserting a sequence of values keeps the ordering invariant. */
  lemma {:induction false} InsertAllKeepsBst(t: Tree, vs: seq<int>)
    requires IsBst(t)
    ensures IsBst(InsertAll(t, vs))
    decreases |vs|
  {
    if vs != [] {
      InsertKeepsBst(t, vs[0]);
      InsertAllKeepsBst(Insert(t, vs[0]), vs[1..]);
    }
  }

  /** A non-empty sequence's multiset is its head plus the rest. */
  lemma MultisetHeadTail(vs: seq<int>)
    requires vs != []
    ensures multiset(vs) == multiset{vs[0]} + multiset(vs[1..])
  {
    assert vs == [vs[0]] + vs[1..];
  }

  /** Inserting a sequence of values adds exactly those values to the tree's elements. */
  lemma {:induction false} InsertAllElements(t: Tree, vs: seq<int>)
    ensures Elements(InsertAll(t, vs)) == Elements(t) + multiset(vs)
    decreases |vs|
  {
    if vs != [] {
      var t' := Insert(t, vs[0]);
      assert InsertAll(t, vs) == InsertAll(t', vs[1..]);
      InsertElements(t, vs[0]);
      InsertAllElements(t', vs[1..]);
      MultisetHeadTail(vs);
    }
  }

  /** Inserting `v1..vn` into a search tree yields a sorted arrangement of the old values and the new ones. */
  lemma InsertAllSorts(t: Tree, vs: seq<int>)
    requires IsBst(t)
    ensures IsBst(InsertAll(t, vs))
    ensures Sorted(Inorder(InsertAll(t, vs)))
    ensures multiset(Inorder(InsertAll(t, vs))) == multiset(Inorder(t)) + multiset(vs)
  {
    InsertAllKeepsBst(t, vs);
    InsertAllElements(t, vs);
    InorderElements(t);
    InorderElements(InsertAll(t, vs));
    InorderSorted(InsertAll(t, vs));
  }

  // ---------------------------------------------------------------------
  // Leftmost (minimum) search

  /** The leftmost value is the first entry of the traversal. */
  lemma {:induction false} LeftmostIsFirst(t: Tree)
    requires t != Empty
    ensures |Inorder(t)| > 0 && Inorder(t)[0] == Leftmost(t)
  {
    match t
    case Branch(l, x, r) =>
      if l != Empty { LeftmostIsFirst(l); }
  }

  /** Under the ordering invariant the leftmost value is the minimum of the subtree. */
  lemma {:induction false} LeftmostIsMinimum(t: Tree)
    requires t != Empty && IsBst(t)
    ensures Leftmost(t) in Values(t)
    ensures forall y :: y in Values(t) ==> Leftmost(t) <= y
  {
    match t
    case Branch(l, x, r) =>
      if l != Empty { LeftmostIsMinimum(l); }
  }

  // ---------------------------------------------------------------------
  // Delete

  /** Removing the first occurrence takes exactly one `v` away, or nothing when there is none. */
  lemma RemoveFirstMultiset(s: seq<int>, v: int)
    ensures multiset(RemoveFirst(s, v)) == multiset(s) - multiset{v}
    ensures v !in s ==> RemoveFirst(s, v) == s
    ensures v in s ==> |RemoveFirst(s, v)| == |s| - 1
  {
    RemoveFirstBag(s, v);
    RemoveFirstAbsent(s, v);
    RemoveFirstLength(s, v);
  }

  /** Removing the first occurrence takes one `v` out of the multiset. */
  lemma {:induction false} RemoveFirstBag(s: seq<int>, v: int)
    ensures multiset(RemoveFirst(s, v)) == multiset(s) - multiset{v}
  {
    if s != [] {
      MultisetHeadTail(s);
      if s[0] != v {
        RemoveFirstBag(s[1..], v);
        MultisetHeadTail([s[0]] + RemoveFirst(s[1..], v));
        assert ([s[0]] + RemoveFirst(s[1..], v))[1..] == RemoveFirst(s[1..], v);
      }
    }
  }

  /** Removing an absent value changes nothing. */
  lemma {:induction false} RemoveFirstAbsent(s: seq<int>, v: int)
    ensures v !in s ==> RemoveFirst(s, v) == s
  {
    if s != [] && v !in s {
      assert forall y :: y in s[1..] ==> y in s;
      RemoveFirstAbsent(s[1..], v);
      assert s == [s[0]] + s[1..];
    }
  }

  /** Removing a present value shortens the sequence by one. */
  lemma {:induction false} RemoveFirstLength(s: seq<int>, v: int)
    ensures v in s ==> |RemoveFirst(s, v)| == |s| - 1
  {
    if s != [] && s[0] != v && v in s {
      assert v in s[1..] by {
        var i :| 0 <= i < |s| && s[i] == v;
        assert s[1..][i - 1] == v;
      }
      RemoveFirstLength(s[1..], v);
    }
  }

  lemma {:induction false} RemoveFirstAppend(a: seq<int>, b: seq<int>, v: int)
    ensures v !in b ==> RemoveFirst(a + b, v) == RemoveFirst(a, v) + b
    ensures v !in a ==> RemoveFirst(a + b, v) == a + RemoveFirst(b, v)
  {
    if a == [] {
      assert a + b == b;
      RemoveFirstMultiset(b, v);
    } else {
      assert (a + b)[0] == a[0];
      assert (a + b)[1..] == a[1..] + b;
      RemoveFirstAppend(a[1..], b, v);
    }
  }

  /** Delete never introduces a value. */
  lemma {:induction false} DeleteValues(t: Tree, v: int)
    ensures Values(Delete(t, v)) <= Values(t)
  {
    match t
    case Empty =>
    case Branch(l, x, r) =>
      if v < x { DeleteValues(l, v); }
      else if v > x { DeleteValues(r, v); }
      else if l != Empty && r != Empty {
        DeleteValues(r, Leftmost(r));
        LeftmostInValues(r);
      }
  }

  lemma {:induction false} LeftmostInValues(t: Tree)
    requires t != Empty
    ensures Leftmost(t) in Values(t)
  {
    match t
    case Branch(l, x, r) =>
      if l != Empty { LeftmostInValues(l); }
  }

  /**
   * Delete keeps the ordering invariant; in the two-child case this rests on
   * the copied successor being the minimum of the right subtree.
   */
  lemma {:induction false} DeleteKeepsBst(t: Tree, v: int)
    requires IsBst(t)
    ensures IsBst(Delete(t, v))
  {
    match t
    case Empty =>
    case Branch(l, x, r) =>
      if v < x {
        DeleteKeepsBst(l, v);
        DeleteValues(l, v);
      } else if v > x {
        DeleteKeepsBst(r, v);
        DeleteValues(r, v);
      } else if l != Empty && r != Empty {
        var m := Leftmost(r);
        LeftmostIsMinimum(r);
        DeleteKeepsBst(r, m);
        DeleteValues(r, m);
      }
  }

  /** A value that is not stored leaves the tree exactly as it was. */
  lemma {:induction false} DeleteAbsent(t: Tree, v: int)
    requires v !in Values(t)
    ensures Delete(t, v) == t
  {
    match t
    case Empty =>
    case Branch(l, x, r) =>
      if v < x { DeleteAbsent(l, v); } else { DeleteAbsent(r, v); }
  }

  /**
   * Under the ordering invariant, the traversal after delete is the old
   * traversal with the first occurrence of `v` taken out: one occurrence of a
   * present value, even a duplicated one, and nothing for an absent value.
   */
  lemma {:induction false} DeleteInorder(t: Tree, v: int)
    requires IsBst(t)
    ensures Inorder(Delete(t, v)) == RemoveFirst(Inorder(t), v)
  {
    match t
    case Empty =>
    case Branch(l, x, r) =>
      var sl, sr := Inorder(l), Inorder(r);
      InorderValues(l);
      InorderValues(r);
      assert forall y :: y in sl ==> y < x;
      assert forall y :: y in sr ==> x <= y;
      if v < x {
        DeleteInorder(l, v);
        RemovedLeft(sl, x, sr, v);
      } else if v > x {
        DeleteInorder(r, v);
        RemovedRight(sl, x, sr, v);
      } else {
        RemovedHere(sl, x, sr);
        if l != Empty && r != Empty {
          var m := Leftmost(r);
          LeftmostIsFirst(r);
          DeleteInorder(r, m);
          SuccessorRemoved(sl, sr);
        }
      }
  }

  /** Removing a value smaller than the middle element only touches the left part. */
  lemma RemovedLeft(sl: seq<int>, x: int, sr: seq<int>, v: int)
    requires v < x && forall y :: y in sr ==> x <= y
    ensures RemoveFirst(sl + [x] + sr, v) == RemoveFirst(sl, v) + [x] + sr
  {
    assert sl + [x] + sr == sl + ([x] + sr);
    assert v !in [x] + sr;
    RemoveFirstAppend(sl, [x] + sr, v);
  }

  /** Removing a value larger than the middle element only touches the right part. */
  lemma RemovedRight(sl: seq<int>, x: int, sr: seq<int>, v: int)
    requires x < v && forall y :: y in sl ==> y < x
    ensures RemoveFirst(sl + [x] + sr, v) == sl + [x] + RemoveFirst(sr, v)
  {
    assert v !in sl + [x];
    RemoveFirstAppend(sl + [x], sr, v);
  }

  /** The first occurrence of the middle element is the middle element itself. */
  lemma RemovedHere(sl: seq<int>, x: int, sr: seq<int>)
    requires forall y :: y in sl ==> y < x
    ensures RemoveFirst(sl + [x] + sr, x) == sl + sr
  {
    assert sl + [x] + sr == sl + ([x] + sr);
    assert x !in sl;
    RemoveFirstAppend(sl, [x] + sr, x);
    assert ([x] + sr)[1..] == sr;
  }

  /** Taking out the first element, which is the successor, and putting it in front. */
  lemma SuccessorRemoved(sl: seq<int>, sr: seq<int>)
    requires sr != []
    ensures sl + [sr[0]] + RemoveFirst(sr, sr[0]) == sl + sr
  {
    assert [sr[0]] + sr[1..] == sr;
  }

  /** Delete in multiset terms: exactly one `v` fewer when present, the same otherwise. */
  lemma DeleteMultiset(t: Tree, v: int)
    requires IsBst(t)
    ensures multiset(Inorder(Delete(t, v))) == multiset(Inorder(t)) - multiset{v}
    ensures v in Values(t) ==> Size(Delete(t, v)) == Size(t) - 1
    ensures v !in Values(t) ==> Delete(t, v) == t
  {
    DeleteInorder(t, v);
    RemoveFirstMultiset(Inorder(t), v);
    InorderValues(t);
    InorderLength(t);
    InorderLength(Delete(t, v));
    if v !in Values(t) { DeleteAbsent(t, v); }
  }
}
