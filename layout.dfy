/**
 * The coordinate logic of the `draw` methods: instead of calling a canvas,
 * each drawing is a sequence of primitives with integer coordinates.
 *
 * The two source files share the same walk and the same loops; their
 * drawings differ in constants, in the bar-width and label formulas, and in
 * the extra shadow shapes and arrow connectors of DSA_python_V2.py. They are
 * two themes of one layout: Polished is DSA_python_V2.py, Classic is
 * DSA_visualizer.py.
 */
module Layout {
  import opened Wrappers
  import opened TreeModel

  datatype Theme = Polished | Classic

  /**
   * One canvas call. An Arrow is the Polished connector (a line with an
   * arrowhead whose two base points are not modelled); a Line is the Classic one.
   */
  datatype Primitive =
    | Oval(x1: int, y1: int, x2: int, y2: int)
    | Rect(x1: int, y1: int, x2: int, y2: int)
    | Line(x1: int, y1: int, x2: int, y2: int)
    | Arrow(x1: int, y1: int, x2: int, y2: int)
    | Text(x: int, y: int, caption: int)

  datatype Shape = OvalShape | RectShape | ConnectorShape | TextShape

  function ShapeOf(p: Primitive): Shape {
    match p
    case Oval(_, _, _, _) => OvalShape
    case Rect(_, _, _, _) => RectShape
    case Line(_, _, _, _) => ConnectorShape
    case Arrow(_, _, _, _) => ConnectorShape
    case Text(_, _, _) => TextShape
  }

  /** How many primitives of the given shape a drawing holds. */
  function CountOf(ps: seq<Primitive>, s: Shape): nat {
    if ps == [] then 0 else (if ShapeOf(ps[0]) == s then 1 else 0) + CountOf(ps[1..], s)
  }

  /** The labels of the Text primitives, in drawing order. */
  function Labels(ps: seq<Primitive>): seq<int> {
    if ps == [] then [] else (if ps[0].Text? then [ps[0].caption] else []) + Labels(ps[1..])
  }

  lemma {:induction false} SummariesAppend(a: seq<Primitive>, b: seq<Primitive>)
    ensures Labels(a + b) == Labels(a) + Labels(b)
    ensures forall s :: CountOf(a + b, s) == CountOf(a, s) + CountOf(b, s)
  {
    if a == [] {
      assert a + b == b;
    } else {
      assert (a + b)[0] == a[0];
      assert (a + b)[1..] == a[1..] + b;
      SummariesAppend(a[1..], b);
    }
  }

  // ---------------------------------------------------------------------
  // Tree layout (`BST.draw`)

  /** Where the top-level call of `BST.draw` puts the root. */
  const RootX := 400

  function RootY(theme: Theme): int {
    match theme
    case Polished => 100
    case Classic => 50
  }

  /** A child sits this far to the left or right of its parent ... */
  const Spread := 100
  /** ... and this far below it. */
  const Drop := 50

  /** The primitives drawn for one node centred at (x, y). */
  function NodeGlyph(theme: Theme, x: int, y: int, v: int): seq<Primitive> {
    match theme
    case Polished =>
      [Oval(x - 23, y - 23, x + 27, y + 27),   // shadow
       Oval(x - 25, y - 25, x + 25, y + 25),
       Text(x, y, v)]
    case Classic =>
      [Oval(x - 20, y - 20, x + 20, y + 20),
       Text(x, y, v)]
  }

  function Connector(theme: Theme, x1: int, y1: int, x2: int, y2: int): Primitive {
    match theme
    case Polished => Arrow(x1, y1, x2, y2)
    case Classic => Line(x1, y1, x2, y2)
  }

  /**
   * The pre-order walk of `BST.draw` from a node at (x, y): the node's glyph,
   * then for a left child its connector and its subtree at (x - 100, y + 50),
   * then the same for a right child at (x + 100, y + 50).
   */
  function DrawTree(theme: Theme, t: Tree, x: int, y: int): seq<Primitive>
    decreases t, 0
  {
    match t
    case Empty => []
    case Branch(l, v, r) =>
      NodeGlyph(theme, x, y, v)
      + ChildPart(theme, l, x, y, x - Spread)
      + ChildPart(theme, r, x, y, x + Spread)
  }

  /** One `if node.left:` / `if node.right:` block: connector and subtree, or nothing. */
  function ChildPart(theme: Theme, c: Tree, x: int, y: int, cx: int): seq<Primitive>
    decreases c, 1
  {
    if c == Empty then []
    else [Connector(theme, x, y, cx, y + Drop)] + DrawTree(theme, c, cx, y + Drop)
  }

  /** Left steps on a path (false is left). */
  function Lefts(p: seq<bool>): nat {
    if p == [] then 0 else (if p[0] then 0 else 1) + Lefts(p[1..])
  }

  /** Right steps on a path. */
  function Rights(p: seq<bool>): nat {
    if p == [] then 0 else (if p[0] then 1 else 0) + Rights(p[1..])
  }

  /** The position of the node reached by path `p` from a root drawn at (x, y). */
  function PlaceX(x: int, p: seq<bool>): int {
    x + Spread * (Rights(p) - Lefts(p))
  }

  function PlaceY(y: int, p: seq<bool>): int {
    y + Drop * |p|
  }

  /** The path to the parent of a non-root node. */
  function Parent(p: seq<bool>): seq<bool>
    requires p != []
  {
    p[..|p| - 1]
  }

  lemma PlaceCons(x: int, y: int, d: bool, q: seq<bool>)
    ensures PlaceX(x, [d] + q) == PlaceX(if d then x + Spread else x - Spread, q)
    ensures PlaceY(y, [d] + q) == PlaceY(y + Drop, q)
  {
    assert ([d] + q)[1..] == q;
  }

  lemma ParentCons(d: bool, q: seq<bool>)
    requires q != []
    ensures Parent([d] + q) == [d] + Parent(q)
  {
  }

  lemma SummariesSingle(p: Primitive)
    ensures Labels([p]) == if p.Text? then [p.caption] else []
    ensures forall s :: CountOf([p], s) == if ShapeOf(p) == s then 1 else 0
  {
    assert [p][1..] == [];
  }

  lemma NodeGlyphSummary(theme: Theme, x: int, y: int, v: int)
    ensures Labels(NodeGlyph(theme, x, y, v)) == [v]
    ensures CountOf(NodeGlyph(theme, x, y, v), TextShape) == 1
    ensures CountOf(NodeGlyph(theme, x, y, v), ConnectorShape) == 0
    ensures CountOf(NodeGlyph(theme, x, y, v), OvalShape) == if theme == Polished then 2 else 1
  {
    var g := NodeGlyph(theme, x, y, v);
    SummariesSingle(Text(x, y, v));
    match theme
    case Polished =>
      var o1, o2 := Oval(x - 23, y - 23, x + 27, y + 27), Oval(x - 25, y - 25, x + 25, y + 25);
      SummariesSingle(o1);
      SummariesSingle(o2);
      SummariesAppend([o1], [o2]);
      SummariesAppend([o1] + [o2], [Text(x, y, v)]);
      assert g == [o1] + [o2] + [Text(x, y, v)];
    case Classic =>
      var o := Oval(x - 20, y - 20, x + 20, y + 20);
      SummariesSingle(o);
      SummariesAppend([o], [Text(x, y, v)]);
      assert g == [o] + [Text(x, y, v)];
  }

  /**
   * Counts of one drawing: one text per node, labelled in pre-order, one
   * connector per parent-child edge (so n - 1 for n nodes) and one oval per
   * node (two with the Polished shadow).
   */
  lemma {:induction false} TreeDrawingCounts(theme: Theme, t: Tree, x: int, y: int)
    ensures Labels(DrawTree(theme, t, x, y)) == Preorder(t)
    ensures CountOf(DrawTree(theme, t, x, y), TextShape) == Size(t)
    ensures CountOf(DrawTree(theme, t, x, y), ConnectorShape) == if t == Empty then 0 else Size(t) - 1
    ensures CountOf(DrawTree(theme, t, x, y), OvalShape) == if theme == Polished then 2 * Size(t) else Size(t)
    decreases t, 0
  {
    match t
    case Empty =>
    case Branch(l, v, r) =>
      var g := NodeGlyph(theme, x, y, v);
      var pl := ChildPart(theme, l, x, y, x - Spread);
      var pr := ChildPart(theme, r, x, y, x + Spread);
      NodeGlyphSummary(theme, x, y, v);
      ChildPartCounts(theme, l, x, y, x - Spread);
      ChildPartCounts(theme, r, x, y, x + Spread);
      SummariesAppend(g + pl, pr);
      SummariesAppend(g, pl);
  }

  lemma {:induction false} ChildPartCounts(theme: Theme, c: Tree, x: int, y: int, cx: int)
    ensures Labels(ChildPart(theme, c, x, y, cx)) == Preorder(c)
    ensures CountOf(ChildPart(theme, c, x, y, cx), TextShape) == Size(c)
    ensures CountOf(ChildPart(theme, c, x, y, cx), ConnectorShape) == Size(c)
    ensures CountOf(ChildPart(theme, c, x, y, cx), OvalShape) == if theme == Polished then 2 * Size(c) else Size(c)
    decreases c, 1
  {
    if c != Empty {
      var k := Connector(theme, x, y, cx, y + Drop);
      TreeDrawingCounts(theme, c, cx, y + Drop);
      SummariesSingle(k);
      SummariesAppend([k], DrawTree(theme, c, cx, y + Drop));
    }
  }

  /** The subtree and the connector of a non-empty child are part of the parent's drawing. */
  lemma ChildDrawn(theme: Theme, t: Tree, d: bool, x: int, y: int)
    requires t.Branch? && (if d then t.right else t.left) != Empty
    ensures Connector(theme, x, y, if d then x + Spread else x - Spread, y + Drop) in DrawTree(theme, t, x, y)
    ensures forall e :: (e in DrawTree(theme, if d then t.right else t.left, if d then x + Spread else x - Spread, y + Drop)
      ==> e in DrawTree(theme, t, x, y))
  {
  }

  /** Each primitive of a node's drawing is in its glyph, or is a child's connector or in a child's drawing. */
  lemma DrawnParts(theme: Theme, t: Tree, x: int, y: int, e: Primitive)
    requires t.Branch? && e in DrawTree(theme, t, x, y)
    ensures e in NodeGlyph(theme, x, y, t.value) ||
      (t.left != Empty && (e == Connector(theme, x, y, x - Spread, y + Drop) ||
                           e in DrawTree(theme, t.left, x - Spread, y + Drop))) ||
      (t.right != Empty && (e == Connector(theme, x, y, x + Spread, y + Drop) ||
                            e in DrawTree(theme, t.right, x + Spread, y + Drop)))
  {
  }

  /** Every node is drawn: its text sits at the position its path gives. */
  lemma {:induction false} NodeTextDrawn(theme: Theme, t: Tree, p: seq<bool>, x: int, y: int)
    requires ValueAt(t, p).Some?
    ensures Text(PlaceX(x, p), PlaceY(y, p), ValueAt(t, p).value) in DrawTree(theme, t, x, y)
  {
    match t
    case Branch(l, v, r) =>
      if p == [] {
        assert Text(x, y, v) in NodeGlyph(theme, x, y, v);
      } else {
        var d, q := p[0], p[1..];
        var child, cx := if d then r else l, if d then x + Spread else x - Spread;
        assert ValueAt(t, p) == ValueAt(child, q);
        NodeTextDrawn(theme, child, q, cx, y + Drop);
        assert p == [d] + q;
        PlaceCons(x, y, d, q);
        ChildDrawn(theme, t, d, x, y);
      }
  }

  /** Every text comes from a node, drawn at the position of that node's path. */
  lemma {:induction false} TextDrawnAtNode(theme: Theme, t: Tree, x: int, y: int, a: int, b: int, v: int)
    requires Text(a, b, v) in DrawTree(theme, t, x, y)
    ensures exists p :: ValueAt(t, p) == Some(v) && a == PlaceX(x, p) && b == PlaceY(y, p)
    decreases t, 1
  {
    match t
    case Branch(l, w, r) =>
      DrawnParts(theme, t, x, y, Text(a, b, v));
      if Text(a, b, v) in NodeGlyph(theme, x, y, w) {
        assert ValueAt(t, []) == Some(v) && a == PlaceX(x, []) && b == PlaceY(y, []);
      } else if l != Empty && Text(a, b, v) in DrawTree(theme, l, x - Spread, y + Drop) {
        TextInChild(theme, t, false, x, y, a, b, v);
      } else {
        TextInChild(theme, t, true, x, y, a, b, v);
      }
  }

  /** The recursive step of TextDrawnAtNode: a text inside one child's drawing. */
  lemma {:induction false} TextInChild(theme: Theme, t: Tree, d: bool, x: int, y: int, a: int, b: int, v: int)
    requires t.Branch? && (if d then t.right else t.left) != Empty
    requires Text(a, b, v) in DrawTree(theme, if d then t.right else t.left, if d then x + Spread else x - Spread, y + Drop)
    ensures exists p :: ValueAt(t, p) == Some(v) && a == PlaceX(x, p) && b == PlaceY(y, p)
    decreases t, 0
  {
    var child, cx := if d then t.right else t.left, if d then x + Spread else x - Spread;
    TextDrawnAtNode(theme, child, cx, y + Drop, a, b, v);
    var q :| ValueAt(child, q) == Some(v) && a == PlaceX(cx, q) && b == PlaceY(y + Drop, q);
    var p := [d] + q;
    assert p[1..] == q;
    assert ValueAt(t, p) == ValueAt(child, q);
    PlaceCons(x, y, d, q);
  }

  /** Every parent-child edge is drawn, from the parent's position to the child's. */
  lemma {:induction false} EdgeDrawn(theme: Theme, t: Tree, p: seq<bool>, x: int, y: int)
    requires p != [] && ValueAt(t, p).Some?
    ensures Connector(theme, PlaceX(x, Parent(p)), PlaceY(y, Parent(p)), PlaceX(x, p), PlaceY(y, p))
            in DrawTree(theme, t, x, y)
  {
    match t
    case Branch(l, v, r) =>
      var d, q := p[0], p[1..];
      var child, cx := if d then r else l, if d then x + Spread else x - Spread;
      assert ValueAt(t, p) == ValueAt(child, q);
      assert p == [d] + q;
      PlaceCons(x, y, d, q);
      ChildDrawn(theme, t, d, x, y);
      if q == [] {
        assert Parent(p) == [];
      } else {
        EdgeDrawn(theme, child, q, cx, y + Drop);
        ParentCons(d, q);
        PlaceCons(x, y, d, Parent(q));
        assert PlaceX(x, Parent(p)) == PlaceX(cx, Parent(q)) && PlaceY(y, Parent(p)) == PlaceY(y + Drop, Parent(q));
      }
  }

  /** Every connector is the edge to some non-root node, from its parent's position to its own. */
  lemma {:induction false} ConnectorIsEdge(theme: Theme, t: Tree, x: int, y: int, c: Primitive)
    requires c in DrawTree(theme, t, x, y) && ShapeOf(c) == ConnectorShape
    ensures exists p :: (p != [] && ValueAt(t, p).Some? &&
      c == Connector(theme, PlaceX(x, Parent(p)), PlaceY(y, Parent(p)), PlaceX(x, p), PlaceY(y, p)))
    decreases t, 1
  {
    match t
    case Branch(l, w, r) =>
      DrawnParts(theme, t, x, y, c);
      assert c !in NodeGlyph(theme, x, y, w);
      if l != Empty && c == Connector(theme, x, y, x - Spread, y + Drop) {
        EdgeToChild(theme, t, false, x, y);
      } else if l != Empty && c in DrawTree(theme, l, x - Spread, y + Drop) {
        ConnectorInChild(theme, t, false, x, y, c);
      } else if r != Empty && c == Connector(theme, x, y, x + Spread, y + Drop) {
        EdgeToChild(theme, t, true, x, y);
      } else {
        ConnectorInChild(theme, t, true, x, y, c);
      }
  }

  /** The connector from a node to a non-empty child is the edge of path [d]. */
  lemma EdgeToChild(theme: Theme, t: Tree, d: bool, x: int, y: int)
    requires t.Branch? && (if d then t.right else t.left) != Empty
    ensures ValueAt(t, [d]).Some? && Parent([d]) == []
    ensures PlaceX(x, [d]) == (if d then x + Spread else x - Spread) && PlaceY(y, [d]) == y + Drop
    ensures PlaceX(x, []) == x && PlaceY(y, []) == y
  {
    assert [d][1..] == [];
    assert Rights([d]) == (if d then 1 else 0) && Lefts([d]) == (if d then 0 else 1);
  }

  /** The recursive step of ConnectorIsEdge: a connector inside one child's drawing. */
  lemma {:induction false} ConnectorInChild(theme: Theme, t: Tree, d: bool, x: int, y: int, c: Primitive)
    requires t.Branch? && ShapeOf(c) == ConnectorShape
    requires (if d then t.right else t.left) != Empty
    requires c in DrawTree(theme, if d then t.right else t.left, if d then x + Spread else x - Spread, y + Drop)
    ensures exists p :: (p != [] && ValueAt(t, p).Some? &&
      c == Connector(theme, PlaceX(x, Parent(p)), PlaceY(y, Parent(p)), PlaceX(x, p), PlaceY(y, p)))
    decreases t, 0
  {
    var child, cx := if d then t.right else t.left, if d then x + Spread else x - Spread;
    ConnectorIsEdge(theme, child, cx, y + Drop, c);
    var q :| q != [] && ValueAt(child, q).Some? &&
      c == Connector(theme, PlaceX(cx, Parent(q)), PlaceY(y + Drop, Parent(q)), PlaceX(cx, q), PlaceY(y + Drop, q));
    var p := [d] + q;
    assert p[1..] == q;
    assert ValueAt(t, p) == ValueAt(child, q);
    ParentCons(d, q);
    PlaceCons(x, y, d, q);
    PlaceCons(x, y, d, Parent(q));
  }

  // ---------------------------------------------------------------------
  // Bar layout (`Stack.draw`, `Queue.draw`)

  function BarWidth(theme: Theme): int {
    match theme
    case Polished => 60
    case Classic => 30
  }

  function BarGap(theme: Theme): int {
    match theme
    case Polished => 15
    case Classic => 10
  }

  /** The `y_pos` of both bar drawings. */
  const BarsY := 300

  function BarHalfHeight(theme: Theme): int {
    match theme
    case Polished => 25
    case Classic => 20
  }

  /** Left edge of bar i: 100 + i * (bar_width + bar_gap) in both files. */
  function BarLeft(theme: Theme, i: nat): int {
    100 + i * (BarWidth(theme) + BarGap(theme))
  }

  /** Right edge of bar i: the Polished bar is bar_width wide, the Classic one bar_width + bar_gap. */
  function BarRight(theme: Theme, i: nat): int {
    match theme
    case Polished => 100 + (i + 1) * BarWidth(theme) + i * BarGap(theme)
    case Classic => 100 + (i + 1) * (BarWidth(theme) + BarGap(theme))
  }

  /**
   * The label's x: the source's (i + 0.5) * width term, written as
   * i * width + width / 2 (both widths are even; see LabelXExact).
   */
  function LabelX(theme: Theme, i: nat): int {
    match theme
    case Polished => 100 + (i * BarWidth(theme) + BarWidth(theme) / 2) + i * BarGap(theme)
    case Classic =>
      var pitch := BarWidth(theme) + BarGap(theme);
      100 + (i * pitch + pitch / 2)
  }

  /** The primitives one loop iteration draws for bar i showing `item`. */
  function BarGlyph(theme: Theme, i: nat, item: int): seq<Primitive> {
    var top, bottom := BarsY - BarHalfHeight(theme), BarsY + BarHalfHeight(theme);
    match theme
    case Polished =>
      [Rect(BarLeft(theme, i) + 2, top + 2, BarRight(theme, i) + 2, bottom + 2),   // shadow
       Rect(BarLeft(theme, i), top, BarRight(theme, i), bottom),
       Text(LabelX(theme, i), BarsY, item)]
    case Classic =>
      [Rect(BarLeft(theme, i), top, BarRight(theme, i), bottom),
       Text(LabelX(theme, i), BarsY, item)]
  }

  /** Bars i, i+1, ... of `shown`, each bar at the position of its index. */
  function BarsFrom(theme: Theme, shown: seq<int>, i: nat): seq<Primitive>
    requires i <= |shown|
    decreases |shown| - i
  {
    if i == |shown| then [] else BarGlyph(theme, i, shown[i]) + BarsFrom(theme, shown, i + 1)
  }

  /** The whole bar drawing of `shown`, which the `enumerate` loop produces. */
  function Bars(theme: Theme, shown: seq<int>): seq<Primitive> {
    BarsFrom(theme, shown, 0)
  }

  /** The `for i, item in enumerate(...)` loop of the bar drawings. */
  method DrawBars(theme: Theme, shown: seq<int>) returns (ps: seq<Primitive>)
    ensures ps == Bars(theme, shown)
  {
    ps := [];
    for i := 0 to |shown|
      invariant ps + BarsFrom(theme, shown, i) == Bars(theme, shown)
    {
      var g := BarGlyph(theme, i, shown[i]);
      BarsFromStep(theme, shown, i);
      AppendAssoc(ps, g, BarsFrom(theme, shown, i + 1));
      ps := ps + g;
    }
    assert ps + [] == ps;
  }

  /** One more bar: the drawing from i is bar i followed by the drawing from i + 1. */
  lemma BarsFromStep(theme: Theme, shown: seq<int>, i: nat)
    requires i < |shown|
    ensures BarsFrom(theme, shown, i) == BarGlyph(theme, i, shown[i]) + BarsFrom(theme, shown, i + 1)
  {
  }

  lemma AppendAssoc(a: seq<Primitive>, b: seq<Primitive>, c: seq<Primitive>)
    ensures (a + b) + c == a + (b + c)
  {
  }

  /**
   * Bar i in closed form: Polished bars span [100+75i, 160+75i] x [275, 325]
   * with the label at 130+75i; Classic bars span [100+40i, 140+40i] x [280, 320]
   * with the label at 120+40i. Labels are centred on their bar.
   */
  lemma BarGeometry(theme: Theme, i: nat)
    ensures theme == Polished ==>
      BarLeft(theme, i) == 100 + 75 * i && BarRight(theme, i) == 160 + 75 * i &&
      LabelX(theme, i) == 130 + 75 * i &&
      BarsY - BarHalfHeight(theme) == 275 && BarsY + BarHalfHeight(theme) == 325
    ensures theme == Classic ==>
      BarLeft(theme, i) == 100 + 40 * i && BarRight(theme, i) == 140 + 40 * i &&
      LabelX(theme, i) == 120 + 40 * i &&
      BarsY - BarHalfHeight(theme) == 280 && BarsY + BarHalfHeight(theme) == 320
    ensures 2 * LabelX(theme, i) == BarLeft(theme, i) + BarRight(theme, i)
  {
  }

  /**
   * Consecutive bars: the Polished ones leave a 15-pixel gap, the Classic ones
   * (whose gap is folded into the width) touch; no two bars overlap.
   */
  lemma BarSpacing(theme: Theme, i: nat, j: nat)
    requires i < j
    ensures BarLeft(theme, i + 1) - BarRight(theme, i) == if theme == Polished then 15 else 0
    ensures BarLeft(theme, i) < BarRight(theme, i) <= BarLeft(theme, j)
  {
    BarGeometry(theme, i);
    BarGeometry(theme, i + 1);
    BarGeometry(theme, j);
  }

  /**
   * The source computes the label's x in floating point; in exact arithmetic
   * the value is always the whole number LabelX.
   */
  lemma LabelXExact(theme: Theme, i: nat)
    ensures theme == Polished ==>
      100.0 + (i as real + 0.5) * 60.0 + (i as real) * 15.0 == LabelX(theme, i) as real
    ensures theme == Classic ==>
      100.0 + (i as real + 0.5) * (30.0 + 10.0) == LabelX(theme, i) as real
  {
    BarGeometry(theme, i);
  }

  /** The labels of the bar drawing read `shown` in order; one text per bar. */
  lemma {:induction false} BarsLabels(theme: Theme, shown: seq<int>, i: nat)
    requires i <= |shown|
    ensures Labels(BarsFrom(theme, shown, i)) == shown[i..]
    ensures CountOf(BarsFrom(theme, shown, i), TextShape) == |shown| - i
    ensures CountOf(BarsFrom(theme, shown, i), RectShape) ==
      if theme == Polished then 2 * (|shown| - i) else |shown| - i
    decreases |shown| - i
  {
    if i < |shown| {
      var g := BarGlyph(theme, i, shown[i]);
      BarsLabels(theme, shown, i + 1);
      BarGlyphSummary(theme, i, shown[i]);
      SummariesAppend(g, BarsFrom(theme, shown, i + 1));
      assert shown[i..] == [shown[i]] + shown[i + 1..];
    }
  }

  lemma BarGlyphSummary(theme: Theme, i: nat, item: int)
    ensures Labels(BarGlyph(theme, i, item)) == [item]
    ensures CountOf(BarGlyph(theme, i, item), TextShape) == 1
    ensures CountOf(BarGlyph(theme, i, item), RectShape) == if theme == Polished then 2 else 1
  {
    var g := BarGlyph(theme, i, item);
    var t := Text(LabelX(theme, i), BarsY, item);
    SummariesSingle(t);
    match theme
    case Polished =>
      var r1, r2 := g[0], g[1];
      SummariesSingle(r1);
      SummariesSingle(r2);
      SummariesAppend([r1], [r2]);
      SummariesAppend([r1] + [r2], [t]);
      assert g == [r1] + [r2] + [t];
    case Classic =>
      var r := g[0];
      SummariesSingle(r);
      SummariesAppend([r], [t]);
      assert g == [r] + [t];
  }

  /** Bar k of the drawing is drawn at index k's position and shows `shown[k]`. */
  lemma {:induction false} BarDrawn(theme: Theme, shown: seq<int>, i: nat, k: nat)
    requires i <= k < |shown|
    ensures Rect(BarLeft(theme, k), BarsY - BarHalfHeight(theme), BarRight(theme, k), BarsY + BarHalfHeight(theme))
            in BarsFrom(theme, shown, i)
    ensures Text(LabelX(theme, k), BarsY, shown[k]) in BarsFrom(theme, shown, i)
    decreases |shown| - i
  {
    if i < k { BarDrawn(theme, shown, i + 1, k); }
  }

  /** Every text of the bar drawing is the label of some bar k, at bar k's position. */
  lemma {:induction false} TextIsBarLabel(theme: Theme, shown: seq<int>, i: nat, a: int, b: int, v: int)
    requires i <= |shown|
    requires Text(a, b, v) in BarsFrom(theme, shown, i)
    ensures exists k :: i <= k < |shown| && shown[k] == v && a == LabelX(theme, k) && b == BarsY
    decreases |shown| - i
  {
    if Text(a, b, v) !in BarGlyph(theme, i, shown[i]) {
      TextIsBarLabel(theme, shown, i + 1, a, b, v);
    }
  }
}
