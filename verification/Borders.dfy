/** The border between two panes: the structural test that accepts it, what it
    means geometrically, and its extents.
 */
module Borders {
  import opened Layout
  import opened Geometry
  import opened Basics
  import opened Reals

  const BORDER_OVERLAP_EPSILON: real := 0.000001

  datatype Edge = Leading | Trailing

  /** Child indices from a queried container to the container owning a border,
      and the two adjacent child slots. */
  datatype BorderPath = BorderPath(path: seq<nat>, paneIdx: nat, neighborIdx: nat)

  // ----- paths -----

  ghost predicate ValidPath(n: Node, path: seq<nat>) {
    path != [] ==>
      && n.Container? && path[0] < |n.children|
      && ValidPath(n.children[path[0]].node, path[1..])
  }

  ghost function NodeAt(n: Node, path: seq<nat>): Node
    requires ValidPath(n, path)
    decreases path
  {
    if path == [] then n else NodeAt(n.children[path[0]].node, path[1..])
  }

  /** The rectangle, in the unit square of `n`, of the subtree at `path`. */
  ghost function BoxAt(n: Node, path: seq<nat>): Rect
    requires ValidPath(n, path)
    decreases path
  {
    if path == [] then UNIT else
      var i := path[0];
      Place(n.direction, Offset(n.children, i), n.children[i].weight, BoxAt(n.children[i].node, path[1..]))
  }

  /** `r`, a rectangle of the unit square, mapped affinely onto `box`. */
  function Embed(box: Rect, r: Rect): Rect {
    Rect(box.x0 + Mul(r.x0, box.x1 - box.x0), box.x0 + Mul(r.x1, box.x1 - box.x0),
         box.y0 + Mul(r.y0, box.y1 - box.y0), box.y0 + Mul(r.y1, box.y1 - box.y0))
  }

  // ----- touching an edge -----

  /** Whether `t` touches the given edge of `n` along `axis`: in every
      container of that direction on the way down it is in the extreme child. */
  predicate TouchesEdge(n: Node, t: PaneId, axis: SplitDirection, edge: Edge)
    decreases n
  {
    match n
    case Leaf(id) => id == t
    case Container(d, cs) =>
      var pos := Find(cs, t);
      && pos < |cs|
      && (d == axis ==> pos == if edge.Leading? then 0 else |cs| - 1)
      && TouchesEdge(cs[pos].node, t, axis, edge)
  }

  /** The structural edge test is exactly the geometric one. */
  lemma {:induction false} TouchesEdgeIsGeometric(n: Node, t: PaneId, axis: SplitDirection)
    requires SumsToOne(n) && Positive(n) && t in PaneIds(n)
    ensures PaneRect(n, t).Some?
    ensures TouchesEdge(n, t, axis, Leading) <==> Lo(PaneRect(n, t).value, axis) == 0.0
    ensures TouchesEdge(n, t, axis, Trailing) <==> Hi(PaneRect(n, t).value, axis) == 1.0
    decreases n
  {
    hide Mul;
    if n.Leaf? {
    } else {
      var cs, i := n.children, Find(n.children, t);
      TouchesEdgeIsGeometric(cs[i].node, t, axis);
      ChildSpan(n, t);
      OffsetBounds(cs, i);
      assert cs[..|cs|] == cs;
    }
  }

  // ----- locating the border -----

  function Min(a: real, b: real): real {
    if a < b then a else b
  }

  function Max(a: real, b: real): real {
    if a > b then a else b
  }

  /** How far two rectangles overlap along `axis` (negative when apart). */
  function Overlap(axis: SplitDirection, a: Rect, b: Rect): real {
    Min(Hi(a, axis), Hi(b, axis)) - Max(Lo(a, axis), Lo(b, axis))
  }

  /** Two rectangles meet edge to edge along `axis`. */
  predicate Abut(axis: SplitDirection, a: Rect, b: Rect) {
    Hi(a, axis) == Lo(b, axis) || Hi(b, axis) == Lo(a, axis)
  }

  /** Whether the two panes, in adjacent children `i` and `j` of a container
      of direction `d`, both reach the shared edge and overlap along it. */
  predicate SharesBorder(d: SplitDirection, cs: seq<Child>, i: nat, p: PaneId, j: nat, q: PaneId)
    requires i < |cs| && j < |cs| && (i == j + 1 || j == i + 1)
    requires p in PaneIds(cs[i].node) && q in PaneIds(cs[j].node)
  {
    var (first, a, b) := if i < j then (i, p, q) else (j, q, p);
    && TouchesEdge(cs[first].node, a, d, Trailing)
    && TouchesEdge(cs[first + 1].node, b, d, Leading)
    && (RectPresence(cs[first].node, a);
        RectPresence(cs[first + 1].node, b);
        Overlap(Cross(d), PaneRect(cs[first].node, a).value, PaneRect(cs[first + 1].node, b).value)
        > BORDER_OVERLAP_EPSILON)
  }

  /** The border between `p` and `q`, if they share one. */
  function LocateBorder(n: Node, p: PaneId, q: PaneId): Option<BorderPath>
    requires n.Container? && p in PaneIds(n) && q in PaneIds(n)
    decreases n
  {
    var cs := n.children;
    var i, j := Find(cs, p), Find(cs, q);
    if i == j then
      if cs[i].node.Leaf? then None
      else
        match LocateBorder(cs[i].node, p, q)
        case None => None
        case Some(b) => Some(b.(path := [i] + b.path))
    else if i != j + 1 && j != i + 1 then None
    else if !SharesBorder(n.direction, cs, i, p, j, q) then None
    else Some(BorderPath([], i, j))
  }

  /** Path to the lowest container that holds both panes. */
  ghost function CommonPath(n: Node, p: PaneId, q: PaneId): (path: seq<nat>)
    requires n.Container? && p in PaneIds(n) && q in PaneIds(n)
    ensures ValidPath(n, path) && NodeAt(n, path).Container?
    ensures p in PaneIds(NodeAt(n, path)) && q in PaneIds(NodeAt(n, path))
    ensures var cs := NodeAt(n, path).children;
      Find(cs, p) == Find(cs, q) ==> cs[Find(cs, p)].node.Leaf?
    decreases n
  {
    var cs := n.children;
    var i := Find(cs, p);
    if i == Find(cs, q) && cs[i].node.Container? then [i] + CommonPath(cs[i].node, p, q) else []
  }

  /** An accepted border always sits at the lowest common container. */
  lemma {:induction false} BorderAtCommonPath(n: Node, p: PaneId, q: PaneId)
    requires n.Container? && p in PaneIds(n) && q in PaneIds(n)
    ensures var b := LocateBorder(n, p, q);
      b.Some? ==>
        var cs := NodeAt(n, CommonPath(n, p, q)).children;
        b.value == BorderPath(CommonPath(n, p, q), Find(cs, p), Find(cs, q))
    decreases n
  {
    var cs := n.children;
    var i := Find(cs, p);
    if i == Find(cs, q) && cs[i].node.Container? {
      BorderAtCommonPath(cs[i].node, p, q);
    }
  }

  /** Acceptance is symmetric, with the two slots exchanged. */
  lemma {:induction false} BorderSymmetric(n: Node, p: PaneId, q: PaneId)
    requires n.Container? && p in PaneIds(n) && q in PaneIds(n)
    ensures LocateBorder(n, q, p) ==
            match LocateBorder(n, p, q)
            case None => None
            case Some(b) => Some(BorderPath(b.path, b.neighborIdx, b.paneIdx))
    decreases n
  {
    hide TouchesEdge;
    hide Overlap;
    hide PaneRect;
    var cs := n.children;
    var i := Find(cs, p);
    if i == Find(cs, q) && cs[i].node.Container? {
      BorderSymmetric(cs[i].node, p, q);
    }
  }

  /** A pane never borders itself. */
  lemma {:induction false} NoBorderWithItself(n: Node, p: PaneId)
    requires n.Container? && p in PaneIds(n)
    ensures LocateBorder(n, p, p).None?
    decreases n
  {
    var child := n.children[Find(n.children, p)].node;
    if child.Container? {
      NoBorderWithItself(child, p);
    }
  }

  lemma {:induction false} SubtreeOk(n: Node, path: seq<nat>)
    requires ValidPath(n, path) && SumsToOne(n) && Positive(n)
    ensures SumsToOne(NodeAt(n, path)) && Positive(NodeAt(n, path))
    decreases path
  {
    if path == [] {
    } else {
      SubtreeOk(n.children[path[0]].node, path[1..]);
    }
  }

  /** Panes of different children meet along the container's direction only
      when the children are adjacent and both panes reach the shared edge. */
  lemma MeetAcrossChildren(m: Node, p: PaneId, q: PaneId)
    requires m.Container? && SumsToOne(m) && Positive(m)
    requires p in PaneIds(m) && q in PaneIds(m) && Find(m.children, p) < Find(m.children, q)
    ensures PaneRect(m, p).Some? && PaneRect(m, q).Some?
    ensures
      var cs, i, j := m.children, Find(m.children, p), Find(m.children, q);
      Abut(m.direction, PaneRect(m, p).value, PaneRect(m, q).value)
      <==> j == i + 1 && TouchesEdge(cs[i].node, p, m.direction, Trailing)
                      && TouchesEdge(cs[j].node, q, m.direction, Leading)
  {
    hide Mul;
    hide Place;
    hide PaneRect;
    var cs, i, j := m.children, Find(m.children, p), Find(m.children, q);
    ChildSpan(m, p);
    ChildSpan(m, q);
    OffsetOrder(cs, i + 1, j);
    TouchesEdgeIsGeometric(cs[i].node, p, m.direction);
    TouchesEdgeIsGeometric(cs[j].node, q, m.direction);
  }

  /** At the container where the panes part ways, the border test holds
      exactly when their rectangles meet along its direction and overlap
      across it. */
  lemma SharesBorderIsGeometric(m: Node, p: PaneId, q: PaneId)
    requires m.Container? && SumsToOne(m) && Positive(m)
    requires p in PaneIds(m) && q in PaneIds(m) && Find(m.children, p) != Find(m.children, q)
    ensures PaneRect(m, p).Some? && PaneRect(m, q).Some?
    ensures LocateBorder(m, p, q).Some? <==>
      && Abut(m.direction, PaneRect(m, p).value, PaneRect(m, q).value)
      && Overlap(Cross(m.direction), PaneRect(m, p).value, PaneRect(m, q).value) > BORDER_OVERLAP_EPSILON
  {
    hide Mul;
    hide Place;
    hide TouchesEdge;
    ChildSpan(m, p);
    ChildSpan(m, q);
    if Find(m.children, p) < Find(m.children, q) {
      MeetAcrossChildren(m, p, q);
    } else {
      MeetAcrossChildren(m, q, p);
    }
  }

  lemma EmbedPlace(d: SplitDirection, s: real, w: real, box: Rect, r: Rect)
    ensures Place(d, s, w, Embed(box, r)) == Embed(Place(d, s, w, box), r)
  {
    hide Mul;
    match d {
      case Horizontal =>
        EmbedCoordinate(s, w, box.x0, box.x1, r.x0);
        EmbedCoordinate(s, w, box.x0, box.x1, r.x1);
      case Vertical =>
        EmbedCoordinate(s, w, box.y0, box.y1, r.y0);
        EmbedCoordinate(s, w, box.y0, box.y1, r.y1);
    }
  }

  lemma EmbedCoordinate(s: real, w: real, lo: real, hi: real, a: real)
    ensures s + Mul(lo + Mul(a, hi - lo), w)
         == (s + Mul(lo, w)) + Mul(a, (s + Mul(hi, w)) - (s + Mul(lo, w)))
  {
    hide Mul;
    MulDistributes(lo, Mul(a, hi - lo), w);
    MulAssociates(a, hi - lo, w);
    MulDistributes(hi, lo, w);
    assert (s + Mul(hi, w)) - (s + Mul(lo, w)) == Mul(hi - lo, w);
  }

  lemma EmbedUnit(r: Rect)
    ensures Embed(UNIT, r) == r
  {
    hide Mul;
    MulUnit(r.x0);
    MulUnit(r.x1);
    MulUnit(r.y0);
    MulUnit(r.y1);
  }

  /** A pane's rectangle in the whole tree is its rectangle in the lowest
      common container, mapped onto that container's box. */
  lemma {:induction false} RectInBox(n: Node, p: PaneId, q: PaneId)
    requires n.Container? && p in PaneIds(n) && q in PaneIds(n)
    ensures var path := CommonPath(n, p, q);
      && PaneRect(NodeAt(n, path), p).Some? && PaneRect(NodeAt(n, path), q).Some?
      && PaneRect(n, p) == Some(Embed(BoxAt(n, path), PaneRect(NodeAt(n, path), p).value))
      && PaneRect(n, q) == Some(Embed(BoxAt(n, path), PaneRect(NodeAt(n, path), q).value))
    decreases n
  {
    hide Mul;
    var cs := n.children;
    var i := Find(cs, p);
    RectPresence(n, p);
    RectPresence(n, q);
    if i == Find(cs, q) && cs[i].node.Container? {
      RectInBox(cs[i].node, p, q);
      PaneRectAt(n, p);
      PaneRectAt(n, q);
      var path := CommonPath(cs[i].node, p, q);
      assert CommonPath(n, p, q)[1..] == path;
      var m, box := NodeAt(cs[i].node, path), BoxAt(cs[i].node, path);
      EmbedPlace(n.direction, Offset(cs, i), cs[i].weight, box, PaneRect(m, p).value);
      EmbedPlace(n.direction, Offset(cs, i), cs[i].weight, box, PaneRect(m, q).value);
    } else {
      EmbedUnit(PaneRect(n, p).value);
      EmbedUnit(PaneRect(n, q).value);
    }
  }

  lemma {:induction false} BoxInside(n: Node, path: seq<nat>)
    requires ValidPath(n, path) && SumsToOne(n) && Positive(n)
    ensures Inside(BoxAt(n, path))
    decreases path
  {
    hide Mul;
    if path == [] {
    } else {
      var i := path[0];
      BoxInside(n.children[i].node, path[1..]);
      OffsetBounds(n.children, i);
      PlaceInside(n.direction, Offset(n.children, i), n.children[i].weight, BoxAt(n.children[i].node, path[1..]));
    }
  }

  lemma EmbedMeasures(box: Rect, a: Rect, b: Rect, axis: SplitDirection)
    requires Inside(box)
    ensures Len(box, axis) > 0.0
    ensures Abut(axis, Embed(box, a), Embed(box, b)) <==> Abut(axis, a, b)
    ensures Overlap(axis, Embed(box, a), Embed(box, b)) == Mul(Overlap(axis, a, b), Len(box, axis))
  {
    hide Mul;
    match axis {
      case Horizontal => EmbedAxis(box.x0, box.x1 - box.x0, a.x0, a.x1, b.x0, b.x1);
      case Vertical => EmbedAxis(box.y0, box.y1 - box.y0, a.y0, a.y1, b.y0, b.y1);
    }
  }

  lemma EmbedAxis(s: real, w: real, a0: real, a1: real, b0: real, b1: real)
    requires w > 0.0
    ensures s + Mul(a1, w) == s + Mul(b0, w) <==> a1 == b0
    ensures s + Mul(b1, w) == s + Mul(a0, w) <==> b1 == a0
    ensures Min(s + Mul(a1, w), s + Mul(b1, w)) - Max(s + Mul(a0, w), s + Mul(b0, w))
         == Mul(Min(a1, b1) - Max(a0, b0), w)
  {
    hide Mul;
    MulOrder(a1, b0, w);
    MulOrder(b1, a0, w);
    MulOrder(a1, b1, w);
    MulOrder(a0, b0, w);
    MulDistributes(Min(a1, b1), Max(a0, b0), w);
  }

  /** A border is accepted exactly when the two panes' rectangles in the whole
      tree meet along the direction of their lowest common container, and
      overlap across it by more than the epsilon scaled to that container. */
  lemma BorderIsGeometric(n: Node, p: PaneId, q: PaneId)
    requires n.Container? && SumsToOne(n) && Positive(n)
    requires p in PaneIds(n) && q in PaneIds(n) && p != q
    ensures PaneRect(n, p).Some? && PaneRect(n, q).Some?
    ensures
      var path := CommonPath(n, p, q);
      var d := NodeAt(n, path).direction;
      LocateBorder(n, p, q).Some? <==>
        && Abut(d, PaneRect(n, p).value, PaneRect(n, q).value)
        && Overlap(Cross(d), PaneRect(n, p).value, PaneRect(n, q).value)
           > Mul(BORDER_OVERLAP_EPSILON, Len(BoxAt(n, path), Cross(d)))
  {
    hide Mul;
    var path := CommonPath(n, p, q);
    var m, box := NodeAt(n, path), BoxAt(n, path);
    SubtreeOk(n, path);
    SharesBorderIsGeometric(m, p, q);
    RectInBox(n, p, q);
    BoxInside(n, path);
    var a, b := PaneRect(m, p).value, PaneRect(m, q).value;
    EmbedMeasures(box, a, b, m.direction);
    EmbedMeasures(box, a, b, Cross(m.direction));
    MulOrder(BORDER_OVERLAP_EPSILON, Overlap(Cross(m.direction), a, b), Len(box, Cross(m.direction)));
    BorderDecidedAtCommon(n, p, q);
  }

  /** The decision depends only on the lowest common container. */
  lemma {:induction false} BorderDecidedAtCommon(n: Node, p: PaneId, q: PaneId)
    requires n.Container? && p in PaneIds(n) && q in PaneIds(n)
    ensures LocateBorder(n, p, q).Some? <==> LocateBorder(NodeAt(n, CommonPath(n, p, q)), p, q).Some?
    decreases n
  {
    var cs := n.children;
    var i := Find(cs, p);
    if i == Find(cs, q) && cs[i].node.Container? {
      BorderDecidedAtCommon(cs[i].node, p, q);
      assert CommonPath(n, p, q)[1..] == CommonPath(cs[i].node, p, q);
    }
  }

  // ----- border extents -----

  datatype BorderExtents = BorderExtents(axis: SplitDirection, paneExtent: real, containerExtent: real)

  lemma EmbedLen(box: Rect, r: Rect, axis: SplitDirection)
    ensures Len(Embed(box, r), axis) == Mul(Len(r, axis), Len(box, axis))
  {
    hide Mul;
    match axis {
      case Horizontal => MulDistributes(r.x1, r.x0, box.x1 - box.x0);
      case Vertical => MulDistributes(r.y1, r.y0, box.y1 - box.y0);
    }
  }

  /** Both extents of a border are positive, the pane's is at most the
      container's, and the container's is at most the whole. */
  lemma BorderExtentBounds(n: Node, p: PaneId, q: PaneId)
    requires n.Container? && SumsToOne(n) && Positive(n)
    requires p in PaneIds(n) && q in PaneIds(n)
    ensures PaneRect(n, p).Some?
    ensures
      var path := CommonPath(n, p, q);
      var d := NodeAt(n, path).direction;
      0.0 < Len(PaneRect(n, p).value, d) <= Len(BoxAt(n, path), d) <= 1.0
  {
    hide Mul;
    var path := CommonPath(n, p, q);
    var m, box := NodeAt(n, path), BoxAt(n, path);
    SubtreeOk(n, path);
    RectInBox(n, p, q);
    BoxInside(n, path);
    RectInside(m, p);
    var r := PaneRect(m, p).value;
    EmbedLen(box, r, m.direction);
    MulUnit(Len(box, m.direction));
    MulOrder(0.0, Len(r, m.direction), Len(box, m.direction));
    MulOrder(Len(r, m.direction), 1.0, Len(box, m.direction));
  }
}
