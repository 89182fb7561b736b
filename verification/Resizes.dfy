/** Dragging a border, and exchanging two panes. */
module Resizes {
  import opened Layout
  import opened Geometry
  import opened Basics
  import opened Borders
  import opened Edits
  import opened Splits
  import opened Closes
  import opened Reals

  const MIN_SIBLING_WEIGHT: real := 0.0001

  function Clamp(x: real, lo: real, hi: real): real
    requires lo <= hi
  {
    if x < lo then lo else if x > hi then hi else x
  }

  /** The least weight a resize leaves to a sibling that was not below it. */
  function Floor(minWeight: real): real {
    Max(minWeight, MIN_SIBLING_WEIGHT)
  }

  /** How much of the requested delta is applied between siblings of weights
      `grow` and `shrink`. */
  function Applied(grow: real, shrink: real, delta: real, minWeight: real): real {
    Clamp(delta, -Max(grow - Floor(minWeight), 0.0), Max(shrink - Floor(minWeight), 0.0))
  }

  /** Weight `a` moved from child `j` to child `i`. */
  function Moved(cs: seq<Child>, i: nat, j: nat, a: real): (r: seq<Child>)
    requires i < |cs| && j < |cs| && i != j
    ensures |r| == |cs|
    ensures forall k :: 0 <= k < |cs| ==> r[k].node == cs[k].node
  {
    cs[i := Child(cs[i].node, cs[i].weight + a)][j := Child(cs[j].node, cs[j].weight - a)]
  }

  /** The border path names two adjacent children of a container. */
  ghost predicate ValidBorder(n: Node, b: BorderPath) {
    && ValidPath(n, b.path) && NodeAt(n, b.path).Container?
    && var cs := NodeAt(n, b.path).children;
    && b.paneIdx < |cs| && b.neighborIdx < |cs|
    && (b.paneIdx == b.neighborIdx + 1 || b.neighborIdx == b.paneIdx + 1)
  }

  /** The amount a resize moves at border `b`. */
  ghost function AppliedAt(n: Node, b: BorderPath, delta: real, minWeight: real): real
    requires ValidBorder(n, b)
  {
    var cs := NodeAt(n, b.path).children;
    Applied(cs[b.paneIdx].weight, cs[b.neighborIdx].weight, delta, minWeight)
  }

  function AdjustHere(n: Node, i: nat, j: nat, delta: real, minWeight: real): Node
    requires n.Container? && i < |n.children| && j < |n.children| && i != j
  {
    var cs := n.children;
    Container(n.direction, Renormalized(Moved(cs, i, j, Applied(cs[i].weight, cs[j].weight, delta, minWeight))))
  }

  /** The tree after moving the border `b`. */
  function ResizeAt(n: Node, b: BorderPath, delta: real, minWeight: real): Node
    requires ValidBorder(n, b)
    decreases b.path
  {
    if b.path == [] then AdjustHere(n, b.paneIdx, b.neighborIdx, delta, minWeight)
    else WithSubtree(n, b.path[0],
                     ResizeAt(n.children[b.path[0]].node, b.(path := b.path[1..]), delta, minWeight))
  }

  // ----- the two weights -----

  /** What a resize does to the two adjacent weights: their sum is conserved
      and each stays positive and at least the lesser of its old value and the
      floor. */
  lemma AppliedBounds(grow: real, shrink: real, delta: real, minWeight: real)
    requires grow > 0.0 && shrink > 0.0
    ensures var a := Applied(grow, shrink, delta, minWeight);
      && (grow + a) + (shrink - a) == grow + shrink
      && grow + a >= Min(grow, Floor(minWeight)) && shrink - a >= Min(shrink, Floor(minWeight))
      && grow + a > 0.0 && shrink - a > 0.0
      && ((grow + delta >= Floor(minWeight) && shrink - delta >= Floor(minWeight)
           && grow >= Floor(minWeight) && shrink >= Floor(minWeight)) ==> a == delta)
      && (delta >= 0.0 ==> 0.0 <= a <= delta)
      && (delta <= 0.0 ==> delta <= a <= 0.0)
  {
  }

  /** A border is dragged as far as asked and allowed: the weight gained goes from nothing towards `delta`,
      stops short of it only where the side giving way has come down to the floor, and takes no side below the
      floor that was not there already. */
  ghost predicate AsFarAs(a: real, grow: real, shrink: real, delta: real, minWeight: real) {
    && (delta >= 0.0 ==> 0.0 <= a <= delta)
    && (delta <= 0.0 ==> delta <= a <= 0.0)
    && (a < delta ==> shrink - a <= minWeight || shrink - a <= 0.0001)
    && (a > delta ==> grow + a <= minWeight || grow + a <= 0.0001)
    && (a > 0.0 ==> shrink - a >= minWeight && shrink - a >= 0.0001)
    && (a < 0.0 ==> grow + a >= minWeight && grow + a >= 0.0001)
  }

  lemma AppliedIsFarthest(grow: real, shrink: real, delta: real, minWeight: real)
    ensures AsFarAs(Applied(grow, shrink, delta, minWeight), grow, shrink, delta, minWeight)
  {
  }

  /** No other amount is as far as asked and allowed. */
  lemma FarthestIsUnique(a: real, b: real, grow: real, shrink: real, delta: real, minWeight: real)
    requires AsFarAs(a, grow, shrink, delta, minWeight) && AsFarAs(b, grow, shrink, delta, minWeight)
    ensures a == b
  {
  }

  /** Moving weight between two children shifts the offsets between them. */
  lemma {:induction false} MovedOffset(cs: seq<Child>, i: nat, j: nat, a: real, k: nat)
    requires i < |cs| && j < |cs| && i != j && k <= |cs|
    ensures Offset(Moved(cs, i, j, a), k)
         == Offset(cs, k) + (if i < k then a else 0.0) - (if j < k then a else 0.0)
  {
    var r := Moved(cs, i, j, a);
    if k == 0 {
    } else {
      MovedOffset(cs, i, j, a, k - 1);
      SumSplit(r, k - 1);
      SumSplit(cs, k - 1);
    }
  }

  lemma MovedSum(cs: seq<Child>, i: nat, j: nat, a: real)
    requires i < |cs| && j < |cs| && i != j
    ensures Sum(Moved(cs, i, j, a)) == Sum(cs)
  {
    var r := Moved(cs, i, j, a);
    MovedOffset(cs, i, j, a, |cs|);
    assert r[..|cs|] == r && cs[..|cs|] == cs;
  }

  /** In a container whose weights sum to one the final renormalisation is the
      identity, so exactly the two weights change. */
  lemma AdjustIsMove(n: Node, i: nat, j: nat, delta: real, minWeight: real)
    requires n.Container? && i < |n.children| && j < |n.children| && (i == j + 1 || j == i + 1)
    requires Sum(n.children) == 1.0
    ensures AdjustHere(n, i, j, delta, minWeight) ==
            Container(n.direction, Moved(n.children, i, j,
                                         Applied(n.children[i].weight, n.children[j].weight, delta, minWeight)))
  {
    var a := Applied(n.children[i].weight, n.children[j].weight, delta, minWeight);
    MovedSum(n.children, i, j, a);
    RenormalizedId(Moved(n.children, i, j, a));
  }

  // ----- invariants -----

  lemma AdjustCanonical(n: Node, i: nat, j: nat, delta: real, minWeight: real)
    requires Canonical(n) && n.Container?
    requires i < |n.children| && j < |n.children| && (i == j + 1 || j == i + 1)
    ensures Canonical(AdjustHere(n, i, j, delta, minWeight))
    ensures PaneIds(AdjustHere(n, i, j, delta, minWeight)) == PaneIds(n)
  {
    var cs := n.children;
    var a := Applied(cs[i].weight, cs[j].weight, delta, minWeight);
    AdjustIsMove(n, i, j, delta, minWeight);
    AppliedBounds(cs[i].weight, cs[j].weight, delta, minWeight);
    MovedSum(cs, i, j, a);
    SameNodesIds(Moved(cs, i, j, a), cs);
  }

  /** A resize keeps the tree canonical and its pane order. */
  lemma {:induction false} ResizeCanonical(n: Node, b: BorderPath, delta: real, minWeight: real)
    requires Canonical(n) && ValidBorder(n, b)
    ensures Canonical(ResizeAt(n, b, delta, minWeight))
    ensures PaneIds(ResizeAt(n, b, delta, minWeight)) == PaneIds(n)
    ensures var r := ResizeAt(n, b, delta, minWeight);
      r.Container? && n.Container? && r.direction == n.direction
    decreases b.path
  {
    if b.path == [] {
      AdjustCanonical(n, b.paneIdx, b.neighborIdx, delta, minWeight);
    } else {
      var i, inner := b.path[0], b.(path := b.path[1..]);
      var child := n.children[i].node;
      var sub := ResizeAt(child, inner, delta, minWeight);
      ResizeCanonical(child, inner, delta, minWeight);
      WithSubtreeCanonical(n, i, sub);
      WithChildIds(n.children, i, sub);
      IdsOfSplit(n.children, i);
    }
  }

  lemma {:induction false} ResizeKeepsMembers(n: Node, b: BorderPath, delta: real, minWeight: real)
    requires ValidBorder(n, b)
    ensures n.Container? && ResizeAt(n, b, delta, minWeight).Container?
    ensures PaneIds(ResizeAt(n, b, delta, minWeight)) == PaneIds(n)
    decreases b.path
  {
    if b.path == [] {
      SameNodesIds(ResizeAt(n, b, delta, minWeight).children, n.children);
    } else {
      var i, inner := b.path[0], b.(path := b.path[1..]);
      var child := n.children[i].node;
      ResizeKeepsMembers(child, inner, delta, minWeight);
      WithChildIds(n.children, i, ResizeAt(child, inner, delta, minWeight));
      IdsOfSplit(n.children, i);
    }
  }

  // ----- rectangles -----

  /** The panes on one side of a border. */
  ghost function Side(n: Node, b: BorderPath, i: nat): seq<PaneId>
    requires ValidBorder(n, b) && (i == b.paneIdx || i == b.neighborIdx)
  {
    PaneIds(NodeAt(n, b.path).children[i].node)
  }

  /** The factor by which a sibling's weight changes. */
  ghost function Factor(n: Node, b: BorderPath, i: nat, delta: real, minWeight: real): real
    requires ValidBorder(n, b) && (i == b.paneIdx || i == b.neighborIdx)
  {
    var w, a := NodeAt(n, b.path).children[i].weight, AppliedAt(n, b, delta, minWeight);
    if w == 0.0 then 0.0 else Div(if i == b.paneIdx then w + a else w - a, w)
  }

  /** What a resize does to a pane: the two subtrees beside the border are
      stretched along it by their change of weight; every other pane keeps its
      rectangle. */
  ghost predicate ResizedAs(n: Node, after: Node, b: BorderPath, delta: real, minWeight: real, q: PaneId)
    requires ValidBorder(n, b)
  {
    var d := NodeAt(n, b.path).direction;
    if q in Side(n, b, b.paneIdx) then
      Stretched(PaneRect(n, q), PaneRect(after, q), d, Factor(n, b, b.paneIdx, delta, minWeight))
    else if q in Side(n, b, b.neighborIdx) then
      Stretched(PaneRect(n, q), PaneRect(after, q), d, Factor(n, b, b.neighborIdx, delta, minWeight))
    else
      PaneRect(after, q) == PaneRect(n, q)
  }

  lemma SameNodesFind(a: seq<Child>, b: seq<Child>, q: PaneId)
    requires |a| == |b| && forall i :: 0 <= i < |a| ==> a[i].node == b[i].node
    requires q in IdsOf(a)
    ensures q in IdsOf(b) && Find(b, q) == Find(a, q)
  {
    FindIs(b, q, Find(a, q));
  }

  /** A slot whose weight changes from `w` to `v` stretches by their ratio. */
  lemma ReplacedSlot(d: SplitDirection, s: real, w: real, s': real, v: real, r: Rect)
    requires w != 0.0
    ensures Stretched(Some(Place(d, s, w, r)), Some(Place(d, s', v, r)), d, Div(v, w))
  {
    hide Mul;
    hide Div;
    hide Stretched;
    hide Place;
    DivMul(v, w);
    MulCommutes(w, Div(v, w));
    ReweightedSlot(d, s, w, s', Div(v, w), r);
  }

  /** A container whose `k`-th slot keeps its subtree, re-weighted. */
  lemma SlotChange(n: Node, after: Node, q: PaneId)
    requires n.Container? && after.Container? && n.direction == after.direction && q in PaneIds(n)
    requires |after.children| == |n.children|
    requires forall i :: 0 <= i < |n.children| ==> after.children[i].node == n.children[i].node
    requires n.children[Find(n.children, q)].weight != 0.0
    ensures var k := Find(n.children, q);
      && Stretched(PaneRect(n, q), PaneRect(after, q), n.direction, Div(after.children[k].weight, n.children[k].weight))
      && (after.children[k].weight == n.children[k].weight && Offset(after.children, k) == Offset(n.children, k)
          ==> PaneRect(after, q) == PaneRect(n, q))
  {
    hide Mul;
    hide Div;
    hide Stretched;
    hide Place;
    hide IdsOf;
    var k := Find(n.children, q);
    SameNodesFind(n.children, after.children, q);
    PaneRectAt(n, q);
    PaneRectAt(after, q);
    ReplacedSlot(n.direction, Offset(n.children, k), n.children[k].weight,
                 Offset(after.children, k), after.children[k].weight, PaneRect(n.children[k].node, q).value);
  }

  lemma AdjustedAs(n: Node, b: BorderPath, delta: real, minWeight: real, q: PaneId)
    requires Canonical(n) && Unique(n) && ValidBorder(n, b) && b.path == [] && q in PaneIds(n)
    ensures ResizedAs(n, ResizeAt(n, b, delta, minWeight), b, delta, minWeight, q)
  {
    hide Div;
    hide Stretched;
    hide Applied;
    hide IdsOf;
    hide PaneRect;
    hide Renormalized;
    hide Flat;
    var cs, k := n.children, Find(n.children, q);
    AdjustIsMove(n, b.paneIdx, b.neighborIdx, delta, minWeight);
    MovedOffset(cs, b.paneIdx, b.neighborIdx, AppliedAt(n, b, delta, minWeight), k);
    SlotChange(n, ResizeAt(n, b, delta, minWeight), q);
    KidsUnique(cs, k);
  }

  lemma ResizedInside(n: Node, b: BorderPath, delta: real, minWeight: real, q: PaneId)
    requires Canonical(n) && Unique(n) && ValidBorder(n, b) && b.path != [] && q in PaneIds(n)
    requires Find(n.children, q) == b.path[0]
    requires var child, inner := n.children[b.path[0]].node, b.(path := b.path[1..]);
      ResizedAs(child, ResizeAt(child, inner, delta, minWeight), inner, delta, minWeight, q)
    ensures ResizedAs(n, ResizeAt(n, b, delta, minWeight), b, delta, minWeight, q)
  {
    hide Mul;
    hide Div;
    hide Stretched;
    hide Place;
    hide Applied;
    hide IdsOf;
    hide PaneRect;
    hide SumsToOne;
    hide Positive;
    hide Flat;
    hide NoDup;
    hide AdjustHere;
    var i, inner := b.path[0], b.(path := b.path[1..]);
    var child := n.children[i].node;
    var sub := ResizeAt(child, inner, delta, minWeight);
    var s, w, d := Offset(n.children, i), n.children[i].weight, NodeAt(n, b.path).direction;
    ResizeKeepsMembers(child, inner, delta, minWeight);
    PaneRectAt(n, q);
    RectWithin(n, i, sub, q);
    var x, y := PaneRect(child, q).value, PaneRect(sub, q).value;
    if q in Side(n, b, b.paneIdx) {
      PlaceStretched(n.direction, s, w, s, w, x, y, d, Factor(n, b, b.paneIdx, delta, minWeight));
    } else if q in Side(n, b, b.neighborIdx) {
      PlaceStretched(n.direction, s, w, s, w, x, y, d, Factor(n, b, b.neighborIdx, delta, minWeight));
    }
  }

  lemma {:induction false} SidesArePanes(n: Node, b: BorderPath, q: PaneId)
    requires ValidBorder(n, b)
    requires q in Side(n, b, b.paneIdx) || q in Side(n, b, b.neighborIdx)
    ensures q in PaneIds(n)
    decreases b.path
  {
    if b.path == [] {
      IdsOfSplit(n.children, b.paneIdx);
      IdsOfSplit(n.children, b.neighborIdx);
    } else {
      SidesArePanes(n.children[b.path[0]].node, b.(path := b.path[1..]), q);
      IdsOfSplit(n.children, b.path[0]);
    }
  }

  /** The effect of a resize on any pane of the tree. */
  lemma {:induction false} ResizeEffect(n: Node, b: BorderPath, delta: real, minWeight: real, q: PaneId)
    requires Canonical(n) && Unique(n) && ValidBorder(n, b) && q in PaneIds(n)
    ensures ResizedAs(n, ResizeAt(n, b, delta, minWeight), b, delta, minWeight, q)
    decreases b.path
  {
    hide Mul;
    hide Div;
    hide Stretched;
    hide Place;
    hide Applied;
    if b.path == [] {
      AdjustedAs(n, b, delta, minWeight, q);
    } else {
      var i, inner := b.path[0], b.(path := b.path[1..]);
      var child := n.children[i].node;
      KidsUnique(n.children, i);
      if Find(n.children, q) == i {
        ResizeEffect(child, inner, delta, minWeight, q);
        ResizedInside(n, b, delta, minWeight, q);
      } else {
        ResizeCanonical(child, inner, delta, minWeight);
        KidsUnique(n.children, Find(n.children, q));
        if q in PaneIds(child) {
          assert false;
        }
        if q in Side(n, b, b.paneIdx) || q in Side(n, b, b.neighborIdx) {
          SidesArePanes(child, inner, q);
        }
        RectElsewhere(n, i, ResizeAt(child, inner, delta, minWeight), q);
      }
    }
  }

  // ----- the border itself -----

  /** A resize leaves paths, the boxes above the border and the border
      container's panes alone. */
  lemma {:induction false} ResizeAbove(n: Node, b: BorderPath, delta: real, minWeight: real)
    requires ValidBorder(n, b)
    ensures var r := ResizeAt(n, b, delta, minWeight);
      && ValidPath(r, b.path) && BoxAt(r, b.path) == BoxAt(n, b.path)
      && NodeAt(r, b.path) == AdjustHere(NodeAt(n, b.path), b.paneIdx, b.neighborIdx, delta, minWeight)
    decreases b.path
  {
    hide Mul;
    if b.path == [] {
    } else {
      var i, inner := b.path[0], b.(path := b.path[1..]);
      var sub := ResizeAt(n.children[i].node, inner, delta, minWeight);
      ResizeAbove(n.children[i].node, inner, delta, minWeight);
      WithChildOffset(n.children, i, sub, i);
    }
  }

  /** A located border is a valid one. */
  lemma LocatedIsValid(n: Node, p: PaneId, q: PaneId)
    requires n.Container? && p in PaneIds(n) && q in PaneIds(n) && LocateBorder(n, p, q).Some?
    ensures ValidBorder(n, LocateBorder(n, p, q).value)
    ensures Find(NodeAt(n, LocateBorder(n, p, q).value.path).children, p) == LocateBorder(n, p, q).value.paneIdx
    ensures Find(NodeAt(n, LocateBorder(n, p, q).value.path).children, q) == LocateBorder(n, p, q).value.neighborIdx
  {
    BorderAtCommonPath(n, p, q);
    BorderDecidedAtCommon(n, p, q);
  }

  /**
   * The border container after a resize: the two siblings' weights keep their sum, each stays positive and
   * at least the lesser of its old value and the floor, and no other weight and no subtree changes.
   */
  lemma ResizeWeights(n: Node, b: BorderPath, delta: real, minWeight: real)
    requires Canonical(n) && ValidBorder(n, b)
    ensures ValidPath(ResizeAt(n, b, delta, minWeight), b.path)
    ensures
      var m, r := NodeAt(n, b.path), NodeAt(ResizeAt(n, b, delta, minWeight), b.path);
      && r.Container? && r.direction == m.direction && |r.children| == |m.children|
      && (forall k :: 0 <= k < |m.children| ==> r.children[k].node == m.children[k].node)
      && (forall k :: 0 <= k < |m.children| && k != b.paneIdx && k != b.neighborIdx ==> r.children[k] == m.children[k])
      && r.children[b.paneIdx].weight + r.children[b.neighborIdx].weight
         == m.children[b.paneIdx].weight + m.children[b.neighborIdx].weight
      && KeepsFloor(m.children[b.paneIdx].weight, r.children[b.paneIdx].weight, minWeight)
      && KeepsFloor(m.children[b.neighborIdx].weight, r.children[b.neighborIdx].weight, minWeight)
      && AsFarAs(r.children[b.paneIdx].weight - m.children[b.paneIdx].weight,
                 m.children[b.paneIdx].weight, m.children[b.neighborIdx].weight, delta, minWeight)
  {
    var m := NodeAt(n, b.path);
    CanonicalAt(n, b.path);
    hide AsFarAs, KeepsFloor, Canonical, BoxAt;
    ResizeAbove(n, b, delta, minWeight);
    AdjustWeights(m, b.paneIdx, b.neighborIdx, delta, minWeight);
    hide AdjustHere;
  }

  lemma AdjustWeights(m: Node, i: nat, j: nat, delta: real, minWeight: real)
    requires Canonical(m) && m.Container?
    requires i < |m.children| && j < |m.children| && (i == j + 1 || j == i + 1)
    ensures var cs, r := m.children, AdjustHere(m, i, j, delta, minWeight).children;
      && |r| == |cs| && (forall k :: 0 <= k < |cs| ==> r[k].node == cs[k].node)
      && (forall k :: 0 <= k < |cs| && k != i && k != j ==> r[k] == cs[k])
      && r[i].weight + r[j].weight == cs[i].weight + cs[j].weight
      && KeepsFloor(cs[i].weight, r[i].weight, minWeight) && KeepsFloor(cs[j].weight, r[j].weight, minWeight)
      && AsFarAs(r[i].weight - cs[i].weight, cs[i].weight, cs[j].weight, delta, minWeight)
  {
    var grow, shrink := m.children[i].weight, m.children[j].weight;
    hide AsFarAs, Renormalized, Sum, Flat;
    AdjustIsMove(m, i, j, delta, minWeight);
    AppliedIsFarthest(grow, shrink, delta, minWeight);
    AppliedBounds(grow, shrink, delta, minWeight);
    hide Applied;
  }

  ghost predicate KeepsFloor(before: real, after: real, minWeight: real) {
    after > 0.0 && after >= Min(before, Floor(minWeight))
  }

  lemma AdjustKeepsBorder(m: Node, p: PaneId, q: PaneId, i: nat, j: nat, delta: real, minWeight: real)
    requires m.Container? && p in PaneIds(m) && q in PaneIds(m)
    requires Find(m.children, p) == i && Find(m.children, q) == j && (i == j + 1 || j == i + 1)
    requires LocateBorder(m, p, q).Some?
    ensures var r := AdjustHere(m, i, j, delta, minWeight);
      && p in PaneIds(r) && q in PaneIds(r) && LocateBorder(r, p, q) == LocateBorder(m, p, q)
  {
    hide Applied, Renormalized, Moved, Find, IdsOf, TouchesEdge, Overlap;
    var r := AdjustHere(m, i, j, delta, minWeight);
    SameNodesFind(m.children, r.children, p);
    SameNodesFind(m.children, r.children, q);
  }

  /** The border survives its own resize: it can be dragged again. */
  lemma {:induction false} ResizeKeepsBorder(n: Node, p: PaneId, q: PaneId, delta: real, minWeight: real)
    requires n.Container? && p in PaneIds(n) && q in PaneIds(n) && LocateBorder(n, p, q).Some?
    ensures var b := LocateBorder(n, p, q).value;
      && ValidBorder(n, b)
      && var r := ResizeAt(n, b, delta, minWeight);
      && r.Container? && p in PaneIds(r) && q in PaneIds(r) && LocateBorder(r, p, q) == Some(b)
    decreases n
  {
    LocatedIsValid(n, p, q);
    var b := LocateBorder(n, p, q).value;
    ResizeKeepsMembers(n, b, delta, minWeight);
    var cs := n.children;
    var i := Find(cs, p);
    if i == Find(cs, q) {
      var child := cs[i].node;
      ResizeKeepsBorder(child, p, q, delta, minWeight);
      var inner := LocateBorder(child, p, q).value;
      assert b.path[1..] == inner.path;
      assert b.(path := b.path[1..]) == inner;
      var sub := ResizeAt(child, inner, delta, minWeight);
      FindIs(WithChild(cs, i, sub), p, i);
      FindIs(WithChild(cs, i, sub), q, i);
    } else {
      AdjustKeepsBorder(n, p, q, i, Find(cs, q), delta, minWeight);
    }
  }

  /** The panes beside border `b` meet at coordinate `x` along `d`. */
  ghost predicate MeetAt(n: Node, p: PaneId, q: PaneId, b: BorderPath, d: SplitDirection, x: real) {
    && PaneRect(n, p).Some? && PaneRect(n, q).Some?
    && (if b.paneIdx < b.neighborIdx
        then Hi(PaneRect(n, p).value, d) == x && Lo(PaneRect(n, q).value, d) == x
        else Lo(PaneRect(n, p).value, d) == x && Hi(PaneRect(n, q).value, d) == x)
  }

  /** Two bordering panes of a container meet at the offset of the second of
      their children. */
  lemma BorderCoordinate(m: Node, p: PaneId, q: PaneId)
    requires m.Container? && SumsToOne(m) && Positive(m)
    requires p in PaneIds(m) && q in PaneIds(m) && Find(m.children, p) != Find(m.children, q)
    requires LocateBorder(m, p, q).Some?
    ensures var b := LocateBorder(m, p, q).value;
      && b == BorderPath([], Find(m.children, p), Find(m.children, q)) && ValidBorder(m, b)
      && MeetAt(m, p, q, b, m.direction,
                Offset(m.children, if b.paneIdx < b.neighborIdx then b.neighborIdx else b.paneIdx))
  {
    hide Mul;
    hide Overlap;
    hide Place;
    hide PaneRect;
    hide Sum;
    hide TouchesEdge, Find, IdsOf;
    ChildSpan(m, p);
    ChildSpan(m, q);
    TouchesEdgeIsGeometric(m.children[Find(m.children, p)].node, p, m.direction);
    TouchesEdgeIsGeometric(m.children[Find(m.children, q)].node, q, m.direction);
  }

  /** The applied weight as a displacement of the border: positive when the
      growing pane comes first. */
  ghost function Shift(b: BorderPath, a: real): real {
    if b.paneIdx < b.neighborIdx then a else -a
  }

  /** The adjusted container still borders the two panes in the same slots. */
  lemma AdjustedBorder(m: Node, p: PaneId, q: PaneId, b: BorderPath, delta: real, minWeight: real)
    requires Canonical(m) && m.Container? && p in PaneIds(m) && q in PaneIds(m)
    requires Find(m.children, p) != Find(m.children, q) && LocateBorder(m, p, q) == Some(b)
    requires b == BorderPath([], Find(m.children, p), Find(m.children, q)) && ValidBorder(m, b)
    ensures var r := AdjustHere(m, b.paneIdx, b.neighborIdx, delta, minWeight);
      && Canonical(r) && p in PaneIds(r) && q in PaneIds(r)
      && Find(r.children, p) == Find(m.children, p) && Find(r.children, q) == Find(m.children, q)
      && LocateBorder(r, p, q) == Some(b)
  {
    hide Applied, Mul, IdsOf, LocateBorder, Renormalized, Canonical;
    var i, j := b.paneIdx, b.neighborIdx;
    var r := AdjustHere(m, i, j, delta, minWeight);
    AdjustCanonical(m, i, j, delta, minWeight);
    AdjustKeepsBorder(m, p, q, i, j, delta, minWeight);
    SameNodesFind(m.children, r.children, p);
    SameNodesFind(m.children, r.children, q);
  }

  /** The offset between the two siblings moves by the applied weight. */
  lemma AdjustedOffset(m: Node, b: BorderPath, delta: real, minWeight: real)
    requires Canonical(m) && b.path == [] && ValidBorder(m, b)
    ensures var k := if b.paneIdx < b.neighborIdx then b.neighborIdx else b.paneIdx;
      var r := AdjustHere(m, b.paneIdx, b.neighborIdx, delta, minWeight);
      && k <= |r.children|
      && Offset(r.children, k) == Offset(m.children, k) + Shift(b, AppliedAt(m, b, delta, minWeight))
  {
    hide Applied, Offset;
    var i, j := b.paneIdx, b.neighborIdx;
    AdjustIsMove(m, i, j, delta, minWeight);
    MovedOffset(m.children, i, j, AppliedAt(m, b, delta, minWeight), if i < j then j else i);
  }

  /** The border after weight moves across it, in the container's own unit
      square. */
  lemma AdjustMovesEdge(m: Node, p: PaneId, q: PaneId, b: BorderPath, delta: real, minWeight: real)
    requires Canonical(m) && m.Container? && p in PaneIds(m) && q in PaneIds(m)
    requires Find(m.children, p) != Find(m.children, q) && LocateBorder(m, p, q) == Some(b)
    requires b.path == [] && ValidBorder(m, b)
    ensures
      var x := Offset(m.children, if b.paneIdx < b.neighborIdx then b.neighborIdx else b.paneIdx);
      && MeetAt(m, p, q, b, m.direction, x)
      && MeetAt(AdjustHere(m, b.paneIdx, b.neighborIdx, delta, minWeight), p, q, b, m.direction,
                x + Shift(b, AppliedAt(m, b, delta, minWeight)))
  {
    hide Applied, AppliedAt, IdsOf, LocateBorder, MeetAt, Offset, SumsToOne, Positive, Flat, Find, Renormalized, Shift;
    BorderCoordinate(m, p, q);
    AdjustedBorder(m, p, q, b, delta, minWeight);
    AdjustedOffset(m, b, delta, minWeight);
    hide AdjustHere;
    BorderCoordinate(AdjustHere(m, b.paneIdx, b.neighborIdx, delta, minWeight), p, q);
  }

  /** Where a coordinate of the unit square lies in `box`. */
  ghost function Coordinate(box: Rect, d: SplitDirection, x: real): real {
    Lo(box, d) + Mul(x, Len(box, d))
  }

  lemma EmbedMeet(n: Node, m: Node, box: Rect, p: PaneId, q: PaneId, b: BorderPath, d: SplitDirection, x: real)
    requires MeetAt(m, p, q, b, d, x)
    requires PaneRect(n, p) == Some(Embed(box, PaneRect(m, p).value))
    requires PaneRect(n, q) == Some(Embed(box, PaneRect(m, q).value))
    ensures MeetAt(n, p, q, b, d, Coordinate(box, d, x))
  {
    hide Mul;
  }

  lemma {:induction false} CanonicalAt(n: Node, path: seq<nat>)
    requires ValidPath(n, path) && Canonical(n)
    ensures Canonical(NodeAt(n, path))
    decreases path
  {
    if path == [] {
    } else {
      CanonicalAt(n.children[path[0]].node, path[1..]);
    }
  }

  /** A located border read off in the border container `m` and in the whole
      tree. */
  lemma LocatedRects(n: Node, p: PaneId, q: PaneId, b: BorderPath)
    requires n.Container? && p in PaneIds(n) && q in PaneIds(n) && LocateBorder(n, p, q) == Some(b)
    ensures ValidBorder(n, b)
    ensures var m := NodeAt(n, b.path);
      && p in PaneIds(m) && q in PaneIds(m)
      && Find(m.children, p) == b.paneIdx && Find(m.children, q) == b.neighborIdx
      && LocateBorder(m, p, q) == Some(BorderPath([], b.paneIdx, b.neighborIdx))
      && PaneRect(m, p).Some? && PaneRect(m, q).Some?
      && PaneRect(n, p) == Some(Embed(BoxAt(n, b.path), PaneRect(m, p).value))
      && PaneRect(n, q) == Some(Embed(BoxAt(n, b.path), PaneRect(m, q).value))
  {
    hide Mul;
    hide Embed;
    LocatedIsValid(n, p, q);
    BorderAtCommonPath(n, p, q);
    BorderDecidedAtCommon(n, p, q);
    RectInBox(n, p, q);
  }

  lemma MovedCoordinate(
    n: Node, after: Node, m: Node, m': Node, box: Rect, p: PaneId, q: PaneId, b: BorderPath, d: SplitDirection,
    y: real, a: real)
    requires MeetAt(m, p, q, b, d, y) && MeetAt(m', p, q, b, d, y + a)
    requires PaneRect(n, p) == Some(Embed(box, PaneRect(m, p).value))
    requires PaneRect(n, q) == Some(Embed(box, PaneRect(m, q).value))
    requires PaneRect(after, p) == Some(Embed(box, PaneRect(m', p).value))
    requires PaneRect(after, q) == Some(Embed(box, PaneRect(m', q).value))
    ensures MeetAt(n, p, q, b, d, Coordinate(box, d, y))
    ensures MeetAt(after, p, q, b, d, Coordinate(box, d, y) + Mul(a, Len(box, d)))
  {
    hide Mul;
    hide Embed;
    hide MeetAt;
    hide PaneRect;
    EmbedMeet(n, m, box, p, q, b, d, y);
    EmbedMeet(after, m', box, p, q, b, d, y + a);
    MulDistributes(y, a, Len(box, d));
  }

  /** A resize moves the shared border, in whole-tree coordinates, by exactly
      the applied weight times the border container's extent; the two panes
      still meet there. */
  lemma ResizeMovesBorder(n: Node, p: PaneId, q: PaneId, delta: real, minWeight: real) returns (x: real)
    requires Canonical(n) && n.Container? && p in PaneIds(n) && q in PaneIds(n)
    requires LocateBorder(n, p, q).Some?
    ensures var b := LocateBorder(n, p, q).value;
      && ValidBorder(n, b)
      && var d := NodeAt(n, b.path).direction;
      && MeetAt(n, p, q, b, d, x)
      && MeetAt(ResizeAt(n, b, delta, minWeight), p, q, b, d,
                x + Mul(Shift(b, AppliedAt(n, b, delta, minWeight)), Len(BoxAt(n, b.path), d)))
  {
    hide Applied;
    hide Mul;
    hide MeetAt;
    hide Embed;
    hide IdsOf;
    hide LocateBorder;
    hide PaneRect;
    hide Positive;
    hide Flat;
    hide SumsToOne;
    hide AdjustHere;
    var b := LocateBorder(n, p, q).value;
    LocatedRects(n, p, q, b);
    var m, box, after := NodeAt(n, b.path), BoxAt(n, b.path), ResizeAt(n, b, delta, minWeight);
    var d, a := m.direction, Shift(b, AppliedAt(n, b, delta, minWeight));
    var local := BorderPath([], b.paneIdx, b.neighborIdx);
    CanonicalAt(n, b.path);
    AdjustMovesEdge(m, p, q, local, delta, minWeight);
    ResizeAbove(n, b, delta, minWeight);
    ResizeKeepsBorder(n, p, q, delta, minWeight);
    LocatedRects(after, p, q, b);
    var y := Offset(m.children, if b.paneIdx < b.neighborIdx then b.neighborIdx else b.paneIdx);
    MovedCoordinate(n, after, m, NodeAt(after, b.path), box, p, q, local, d, y, a);
    x := Coordinate(box, d, y);
    MeetSameOrder(n, p, q, local, b, d, x);
    MeetSameOrder(after, p, q, local, b, d, x + Mul(a, Len(box, d)));
  }

  lemma MeetSameOrder(n: Node, p: PaneId, q: PaneId, b: BorderPath, b': BorderPath, d: SplitDirection, x: real)
    requires MeetAt(n, p, q, b, d, x) && b'.paneIdx == b.paneIdx && b'.neighborIdx == b.neighborIdx
    ensures MeetAt(n, p, q, b', d, x)
  {
  }

  // ----- exchanging two panes -----

  function Exchange(id: PaneId, a: PaneId, b: PaneId): PaneId {
    if id == a then b else if id == b then a else id
  }

  /** Every leaf's identifier exchanged; structure and weights untouched. */
  function SwapTree(n: Node, a: PaneId, b: PaneId): Node
    decreases n
  {
    match n
    case Leaf(id) => Leaf(Exchange(id, a, b))
    case Container(d, cs) => Container(d, SwapAll(cs, a, b))
  }

  function SwapAll(cs: seq<Child>, a: PaneId, b: PaneId): (r: seq<Child>)
    ensures |r| == |cs|
    decreases cs
  {
    if cs == [] then []
    else
      assert cs[0].node < cs[0];
      [Child(SwapTree(cs[0].node, a, b), cs[0].weight)] + SwapAll(cs[1..], a, b)
  }

  lemma {:induction false} SwapAllAt(cs: seq<Child>, a: PaneId, b: PaneId, i: nat)
    requires i < |cs|
    ensures SwapAll(cs, a, b)[i] == Child(SwapTree(cs[i].node, a, b), cs[i].weight)
  {
    if i == 0 {
    } else {
      SwapAllAt(cs[1..], a, b, i - 1);
    }
  }

  lemma {:induction false} SwapRect(n: Node, a: PaneId, b: PaneId, q: PaneId)
    ensures PaneRect(SwapTree(n, a, b), q) == PaneRect(n, Exchange(q, a, b))
    decreases n
  {
    if n.Leaf? {
    } else {
      SwapAllRect(n.direction, n.children, a, b, 0.0, q);
    }
  }

  lemma {:induction false} SwapAllRect(d: SplitDirection, cs: seq<Child>, a: PaneId, b: PaneId, s: real, q: PaneId)
    ensures RectFrom(d, SwapAll(cs, a, b), s, q) == RectFrom(d, cs, s, Exchange(q, a, b))
    decreases cs
  {
    hide Mul;
    if cs == [] {
    } else {
      assert cs[0].node < cs[0];
      SwapRect(cs[0].node, a, b, q);
      assert SwapAll(cs, a, b)[1..] == SwapAll(cs[1..], a, b);
      SwapAllRect(d, cs[1..], a, b, s + cs[0].weight, q);
    }
  }

  /** Swapping exchanges the two panes' rectangles and moves no other pane. */
  lemma SwapExchangesRects(n: Node, a: PaneId, b: PaneId, q: PaneId)
    ensures PaneRect(SwapTree(n, a, b), a) == PaneRect(n, b)
    ensures PaneRect(SwapTree(n, a, b), b) == PaneRect(n, a)
    ensures q != a && q != b ==> PaneRect(SwapTree(n, a, b), q) == PaneRect(n, q)
  {
    SwapRect(n, a, b, a);
    SwapRect(n, a, b, b);
    SwapRect(n, a, b, q);
  }

  function ExchangeAll(ids: seq<PaneId>, a: PaneId, b: PaneId): (r: seq<PaneId>)
    ensures |r| == |ids| && forall i :: 0 <= i < |ids| ==> r[i] == Exchange(ids[i], a, b)
  {
    seq(|ids|, i requires 0 <= i < |ids| => Exchange(ids[i], a, b))
  }

  lemma ExchangeConcat(ids: seq<PaneId>, more: seq<PaneId>, a: PaneId, b: PaneId)
    ensures ExchangeAll(ids + more, a, b) == ExchangeAll(ids, a, b) + ExchangeAll(more, a, b)
  {
  }

  lemma {:induction false} SwapIds(n: Node, a: PaneId, b: PaneId)
    ensures PaneIds(SwapTree(n, a, b)) == ExchangeAll(PaneIds(n), a, b)
    decreases n
  {
    if n.Leaf? {
    } else {
      SwapAllIds(n.children, a, b);
    }
  }

  lemma {:induction false} SwapAllIds(cs: seq<Child>, a: PaneId, b: PaneId)
    ensures IdsOf(SwapAll(cs, a, b)) == ExchangeAll(IdsOf(cs), a, b)
    decreases cs
  {
    if cs == [] {
    } else {
      assert cs[0].node < cs[0];
      SwapIds(cs[0].node, a, b);
      assert SwapAll(cs, a, b)[1..] == SwapAll(cs[1..], a, b);
      SwapAllIds(cs[1..], a, b);
      ExchangeConcat(PaneIds(cs[0].node), IdsOf(cs[1..]), a, b);
      hide ExchangeAll;
    }
  }

  /** Swapping two panes of the tree keeps every pane, once. */
  lemma SwapMembers(n: Node, a: PaneId, b: PaneId)
    requires Unique(n) && a in PaneIds(n) && b in PaneIds(n)
    ensures Unique(SwapTree(n, a, b))
    ensures forall q :: q in PaneIds(SwapTree(n, a, b)) <==> q in PaneIds(n)
  {
    SwapIds(n, a, b);
    var ids, r := PaneIds(n), ExchangeAll(PaneIds(n), a, b);
    forall q | q in ids ensures q in r {
      var i :| 0 <= i < |ids| && ids[i] == Exchange(q, a, b);
      assert r[i] == q;
    }
  }

  lemma {:induction false} SwapCanonical(n: Node, a: PaneId, b: PaneId)
    requires Canonical(n)
    ensures Canonical(SwapTree(n, a, b))
    ensures n.Container? ==> SwapTree(n, a, b).Container? && SwapTree(n, a, b).direction == n.direction
    ensures n.Leaf? ==> SwapTree(n, a, b).Leaf?
    decreases n
  {
    if n.Leaf? {
    } else {
      var cs := n.children;
      forall i | 0 <= i < |cs|
        ensures SwapAll(cs, a, b)[i].weight == cs[i].weight
        ensures Canonical(SwapAll(cs, a, b)[i].node)
        ensures !SameDirection(SwapAll(cs, a, b)[i].node, n.direction)
      {
        SwapAllAt(cs, a, b, i);
        SwapCanonical(cs[i].node, a, b);
      }
      SameWeightsSameSum(SwapAll(cs, a, b), cs);
    }
  }

  /** Swapping twice restores the tree. */
  lemma {:induction false} SwapInvolution(n: Node, a: PaneId, b: PaneId)
    ensures SwapTree(SwapTree(n, a, b), a, b) == n
    decreases n
  {
    if n.Leaf? {
    } else {
      var cs := n.children;
      var r := SwapAll(cs, a, b);
      forall i | 0 <= i < |cs| ensures SwapAll(r, a, b)[i] == cs[i] {
        SwapAllAt(cs, a, b, i);
        SwapAllAt(r, a, b, i);
        SwapInvolution(cs[i].node, a, b);
      }
      assert SwapAll(r, a, b) == cs;
    }
  }
}
