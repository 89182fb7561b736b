/** Where panes sit in the unit square, and how flattening, borders and split
    sites relate to that denotation.
 */
module Geometry {
  import opened Layout
  import opened Basics
  import opened Reals

  /** A pane's bounds, both axes normalised to [0, 1]. */
  datatype Rect = Rect(x0: real, x1: real, y0: real, y1: real)

  const UNIT := Rect(0.0, 1.0, 0.0, 1.0)

  function Lo(r: Rect, axis: SplitDirection): real {
    if axis.Horizontal? then r.x0 else r.y0
  }

  function Hi(r: Rect, axis: SplitDirection): real {
    if axis.Horizontal? then r.x1 else r.y1
  }

  function Len(r: Rect, axis: SplitDirection): real {
    Hi(r, axis) - Lo(r, axis)
  }

  function Cross(d: SplitDirection): SplitDirection {
    if d.Horizontal? then Vertical else Horizontal
  }

  /** `r`, a rectangle of a child's unit square, seen from the parent when the
      child occupies `[start, start + span]` along `d`. */
  function Place(d: SplitDirection, start: real, span: real, r: Rect): Rect {
    match d
    case Horizontal => r.(x0 := start + Mul(r.x0, span), x1 := start + Mul(r.x1, span))
    case Vertical => r.(y0 := start + Mul(r.y0, span), y1 := start + Mul(r.y1, span))
  }

  function PlaceOpt(d: SplitDirection, start: real, span: real, r: Option<Rect>): Option<Rect> {
    match r
    case Some(v) => Some(Place(d, start, span, v))
    case None => None
  }

  lemma PlaceLens(d: SplitDirection, start: real, span: real, r: Rect, axis: SplitDirection)
    ensures axis != d ==> Lo(Place(d, start, span, r), axis) == Lo(r, axis)
                          && Hi(Place(d, start, span, r), axis) == Hi(r, axis)
    ensures Lo(Place(d, start, span, r), d) == start + Mul(Lo(r, d), span)
    ensures Hi(Place(d, start, span, r), d) == start + Mul(Hi(r, d), span)
    ensures Len(Place(d, start, span, r), d) == Mul(Len(r, d), span)
    ensures axis != d ==> Len(Place(d, start, span, r), axis) == Len(r, axis)
  {
    hide Mul;
    MulDistributes(Hi(r, d), Lo(r, d), span);
  }

  lemma PlaceUnit(d: SplitDirection, r: Rect)
    ensures Place(d, 0.0, 1.0, r) == r
  {
    hide Mul;
    MulUnit(if d.Horizontal? then r.x0 else r.y0);
    MulUnit(if d.Horizontal? then r.x1 else r.y1);
  }

  /** Two nested placements along one axis are one placement. */
  lemma PlacePlace(d: SplitDirection, s: real, w: real, s0: real, v: real, start: real, span: real, r: Rect)
    requires start == s + Mul(s0, w) && span == Mul(v, w)
    ensures Place(d, start, span, r) == Place(d, s, w, Place(d, s0, v, r))
  {
    hide Mul;
    match d {
      case Horizontal =>
        NestedCoordinate(s, w, s0, v, r.x0);
        NestedCoordinate(s, w, s0, v, r.x1);
      case Vertical =>
        NestedCoordinate(s, w, s0, v, r.y0);
        NestedCoordinate(s, w, s0, v, r.y1);
    }
  }

  lemma NestedCoordinate(s: real, w: real, s0: real, v: real, a: real)
    ensures s + Mul(s0 + Mul(a, v), w) == s + Mul(s0, w) + Mul(a, Mul(v, w))
  {
    hide Mul;
    MulDistributes(s0, Mul(a, v), w);
    MulAssociates(a, v, w);
  }

  // ----- the denotation -----

  /** The rectangle of the first leaf that is `t`, or none. */
  function PaneRect(n: Node, t: PaneId): Option<Rect>
    decreases n
  {
    match n
    case Leaf(id) => if id == t then Some(UNIT) else None
    case Container(d, cs) => RectFrom(d, cs, 0.0, t)
  }

  /** The same search over children laid out from `start` along `d`. */
  function RectFrom(d: SplitDirection, cs: seq<Child>, start: real, t: PaneId): Option<Rect>
    decreases cs
  {
    if cs == [] then None else
      assert cs[0].node < cs[0];
      match PaneRect(cs[0].node, t)
      case Some(r) => Some(Place(d, start, cs[0].weight, r))
      case None => RectFrom(d, cs[1..], start + cs[0].weight, t)
  }

  lemma {:induction false} RectPresence(n: Node, t: PaneId)
    ensures PaneRect(n, t).Some? <==> t in PaneIds(n)
    decreases n
  {
    if n.Leaf? {
    } else {
      RectFromPresence(n.direction, n.children, 0.0, t);
    }
  }

  lemma {:induction false} RectFromPresence(d: SplitDirection, cs: seq<Child>, s: real, t: PaneId)
    ensures RectFrom(d, cs, s, t).Some? <==> t in IdsOf(cs)
    decreases cs
  {
    if cs == [] {
    } else {
      assert cs[0].node < cs[0];
      RectPresence(cs[0].node, t);
      RectFromPresence(d, cs[1..], s + cs[0].weight, t);
    }
  }

  lemma {:induction false} RectFromAppend(d: SplitDirection, a: seq<Child>, b: seq<Child>, s: real, t: PaneId)
    ensures RectFrom(d, a + b, s, t) == if t in IdsOf(a) then RectFrom(d, a, s, t) else RectFrom(d, b, s + Sum(a), t)
  {
    if a == [] {
      assert a + b == b;
    } else {
      assert (a + b)[1..] == a[1..] + b;
      RectPresence(a[0].node, t);
      RectFromAppend(d, a[1..], b, s + a[0].weight, t);
    }
  }

  /** The running sum of weights before child `i`. */
  function Offset(cs: seq<Child>, i: nat): real
    requires i <= |cs|
  {
    Sum(cs[..i])
  }

  /** A pane's rectangle is that of its child, placed at the child's offset. */
  lemma RectAt(d: SplitDirection, cs: seq<Child>, s: real, t: PaneId)
    requires t in IdsOf(cs)
    ensures var i := Find(cs, t);
      RectFrom(d, cs, s, t) == PlaceOpt(d, s + Offset(cs, i), cs[i].weight, PaneRect(cs[i].node, t))
  {
    var i := Find(cs, t);
    assert cs == cs[..i] + cs[i..];
    NotInAny(cs[..i], t);
    RectFromAppend(d, cs[..i], cs[i..], s, t);
    RectPresence(cs[i].node, t);
  }

  /** `RectAt` for a container's own pane rectangles. */
  lemma PaneRectAt(n: Node, t: PaneId)
    requires n.Container? && t in PaneIds(n)
    ensures var i := Find(n.children, t);
      && PaneRect(n.children[i].node, t).Some?
      && PaneRect(n, t) == Some(Place(n.direction, Offset(n.children, i), n.children[i].weight,
                                      PaneRect(n.children[i].node, t).value))
  {
    RectAt(n.direction, n.children, 0.0, t);
    RectPresence(n.children[Find(n.children, t)].node, t);
  }

  /** The denotation spelled out: the children follow one another left to right or top to bottom, each over
      its weight's share of the side, and a lone pane has the whole square. */
  lemma SlotEquation(n: Node, t: PaneId)
    requires t in PaneIds(n)
    ensures n.Leaf? ==> PaneRect(n, t) == Some(Rect(0.0, 1.0, 0.0, 1.0))
    ensures n.Container? ==>
      var i := Find(n.children, t);
      && PaneRect(n.children[i].node, t).Some?
      && var s, w, r := Sum(n.children[..i]), n.children[i].weight, PaneRect(n.children[i].node, t).value;
      PaneRect(n, t) == Some(if n.direction == Horizontal then Rect(s + Mul(r.x0, w), s + Mul(r.x1, w), r.y0, r.y1)
                             else Rect(r.x0, r.x1, s + Mul(r.y0, w), s + Mul(r.y1, w)))
  {
    hide Mul, Sum;
    if n.Container? {
      PaneRectAt(n, t);
    }
  }

  // ----- flattening preserves the denotation -----

  /** Children scaled by `w` and laid out from `s + Mul(s0, w)` are the children
      laid out from `s0`, placed at `s` with span `w`. */
  lemma {:induction false} ScaledRect(
    d: SplitDirection, cs: seq<Child>, w: real, s: real, s0: real, start: real, t: PaneId)
    requires start == s + Mul(s0, w)
    ensures RectFrom(d, ScaledBy(cs, w), start, t) == PlaceOpt(d, s, w, RectFrom(d, cs, s0, t))
  {
    hide Mul;
    if cs == [] {
    } else {
      var rest := ScaledBy(cs[1..], w);
      assert forall i :: 0 <= i < |rest| ==> rest[i] == ScaledBy(cs, w)[1..][i];
      assert ScaledBy(cs, w)[1..] == rest;
      var v, vw := cs[0].weight, ScaledBy(cs, w)[0].weight;
      MulDistributes(s0, v, w);
      ScaledRect(d, cs[1..], w, s, s0 + v, start + vw, t);
      if PaneRect(cs[0].node, t).Some? {
        PlacePlace(d, s, w, s0, v, start, vw, PaneRect(cs[0].node, t).value);
      }
    }
  }

  lemma SpliceOneRect(d: SplitDirection, f: Node, w: real, s: real, t: PaneId)
    ensures RectFrom(d, SpliceOne(d, f, w), s, t) == PlaceOpt(d, s, w, PaneRect(f, t))
  {
    hide Mul;
    if SameDirection(f, d) {
      MulUnit(w);
      ScaledRect(d, f.children, w, s, 0.0, s, t);
    }
  }

  lemma SpliceOneSum(d: SplitDirection, f: Node, w: real)
    requires SumsToOne(f)
    ensures Sum(SpliceOne(d, f, w)) == w
  {
    hide Mul;
    if SameDirection(f, d) {
      ScaledSum(f.children, w);
      MulUnit(w);
    } else {
      assert [Child(f, w)][1..] == [];
    }
  }

  lemma {:induction false} SplicedRect(d: SplitDirection, cs: seq<Child>, s: real, t: PaneId)
    requires KidsSumToOne(cs)
    ensures RectFrom(d, Spliced(d, cs), s, t) == RectFrom(d, cs, s, t)
    decreases cs
  {
    hide Mul;
    if cs == [] {
    } else {
      assert cs[0].node < cs[0];
      var f, w := Flatten(cs[0].node), cs[0].weight;
      FlattenRect(cs[0].node, t);
      FlattenSums(cs[0].node);
      SplicedRect(d, cs[1..], s + w, t);
      SpliceOneRect(d, f, w, s, t);
      SpliceOneSum(d, f, w);
      SpliceOneIds(d, f, w);
      RectPresence(f, t);
      RectFromAppend(d, SpliceOne(d, f, w), Spliced(d, cs[1..]), s, t);
    }
  }

  /** Flattening keeps every pane's rectangle. */
  lemma {:induction false} FlattenRect(n: Node, t: PaneId)
    requires SumsToOne(n)
    ensures PaneRect(Flatten(n), t) == PaneRect(n, t)
    decreases n
  {
    hide Mul;
    if n.Leaf? {
    } else {
      var out := Spliced(n.direction, n.children);
      SplicedRect(n.direction, n.children, 0.0, t);
      SplicedSums(n.direction, n.children);
      if |out| == 1 {
        assert out[1..] == [];
        assert out[0].weight == 1.0;
        var r := PaneRect(out[0].node, t);
        if r.Some? {
          PlaceUnit(n.direction, r.value);
        }
      }
    }
  }

  // ----- rectangles of a canonical tree -----

  /** A non-degenerate rectangle inside the unit square. */
  ghost predicate Inside(r: Rect) {
    0.0 <= r.x0 < r.x1 <= 1.0 && 0.0 <= r.y0 < r.y1 <= 1.0
  }

  lemma OffsetBounds(cs: seq<Child>, i: nat)
    requires PositiveWeights(cs) && i < |cs|
    ensures 0.0 <= Offset(cs, i)
    ensures i > 0 ==> Offset(cs, i) > 0.0
    ensures Offset(cs, i + 1) == Offset(cs, i) + cs[i].weight <= Sum(cs)
    ensures i + 1 < |cs| ==> Offset(cs, i + 1) < Sum(cs)
  {
    SumSplit(cs, i);
    SumPositive(cs[..i]);
    SumPositive(cs[i + 1..]);
  }

  lemma OffsetOrder(cs: seq<Child>, i: nat, j: nat)
    requires PositiveWeights(cs) && i <= j <= |cs|
    ensures Offset(cs, i) <= Offset(cs, j)
    ensures i < j ==> Offset(cs, i) < Offset(cs, j)
  {
    hide Sum;
    assert cs[..j] == cs[..i] + cs[i..j];
    SumAppend(cs[..i], cs[i..j]);
    SumPositive(cs[i..j]);
  }

  lemma PlaceInside(d: SplitDirection, s: real, w: real, r: Rect)
    requires Inside(r) && 0.0 <= s && 0.0 < w && s + w <= 1.0
    ensures Inside(Place(d, s, w, r))
    ensures s <= Lo(Place(d, s, w, r), d) && Hi(Place(d, s, w, r), d) <= s + w
    ensures Lo(Place(d, s, w, r), d) == s <==> Lo(r, d) == 0.0
    ensures Hi(Place(d, s, w, r), d) == s + w <==> Hi(r, d) == 1.0
  {
    hide Mul;
    match d {
      case Horizontal => ScaledInterval(r.x0, r.x1, w);
      case Vertical => ScaledInterval(r.y0, r.y1, w);
    }
  }

  /** Every pane of a tree with valid weights has a non-degenerate rectangle
      inside the unit square. */
  lemma {:induction false} RectInside(n: Node, t: PaneId)
    requires SumsToOne(n) && Positive(n) && t in PaneIds(n)
    ensures PaneRect(n, t).Some? && Inside(PaneRect(n, t).value)
    decreases n
  {
    hide Mul;
    if n.Leaf? {
    } else {
      var i := Find(n.children, t);
      PaneRectAt(n, t);
      RectInside(n.children[i].node, t);
      OffsetBounds(n.children, i);
      PlaceInside(n.direction, Offset(n.children, i), n.children[i].weight, PaneRect(n.children[i].node, t).value);
    }
  }

  ghost predicate InteriorDisjoint(a: Rect, b: Rect) {
    a.x1 <= b.x0 || b.x1 <= a.x0 || a.y1 <= b.y0 || b.y1 <= a.y0
  }

  lemma PlaceDisjoint(d: SplitDirection, s: real, w: real, a: Rect, b: Rect)
    requires InteriorDisjoint(a, b) && w > 0.0
    ensures InteriorDisjoint(Place(d, s, w, a), Place(d, s, w, b))
  {
    hide Mul;
    match d {
      case Horizontal =>
        PlaceApart(s, w, a.x1, b.x0);
        PlaceApart(s, w, b.x1, a.x0);
      case Vertical =>
        PlaceApart(s, w, a.y1, b.y0);
        PlaceApart(s, w, b.y1, a.y0);
    }
  }

  lemma PlaceApart(s: real, w: real, hi: real, lo: real)
    requires w > 0.0
    ensures hi <= lo <==> s + Mul(hi, w) <= s + Mul(lo, w)
  {
    hide Mul;
    MulOrder(hi, lo, w);
  }

  /** Distinct panes never overlap. */
  lemma {:induction false} RectsDisjoint(n: Node, p: PaneId, q: PaneId)
    requires SumsToOne(n) && Positive(n)
    requires p in PaneIds(n) && q in PaneIds(n) && p != q
    ensures PaneRect(n, p).Some? && PaneRect(n, q).Some?
    ensures InteriorDisjoint(PaneRect(n, p).value, PaneRect(n, q).value)
    decreases n
  {
    hide Mul;
    var cs := n.children;
    var i, j := Find(cs, p), Find(cs, q);
    PaneRectAt(n, p);
    PaneRectAt(n, q);
    if i == j {
      RectsDisjoint(cs[i].node, p, q);
      var a, b := PaneRect(cs[i].node, p).value, PaneRect(cs[i].node, q).value;
      PlaceDisjoint(n.direction, Offset(cs, i), cs[i].weight, a, b);
    } else {
      ChildSpan(n, p);
      ChildSpan(n, q);
      OffsetOrder(cs, if i < j then i + 1 else j + 1, if i < j then j else i);
    }
  }

  /** A pane lies within its child's slot along the container's direction,
      and reaches a side of the slot exactly when it reaches that side of its
      child. */
  lemma ChildSpan(n: Node, t: PaneId)
    requires n.Container? && SumsToOne(n) && Positive(n) && t in PaneIds(n)
    ensures var i := Find(n.children, t);
      && PaneRect(n, t).Some? && PaneRect(n.children[i].node, t).Some?
      && var r, inner := PaneRect(n, t).value, PaneRect(n.children[i].node, t).value;
      && Offset(n.children, i) <= Lo(r, n.direction) < Hi(r, n.direction) <= Offset(n.children, i + 1)
      && (Lo(r, n.direction) == Offset(n.children, i) <==> Lo(inner, n.direction) == 0.0)
      && (Hi(r, n.direction) == Offset(n.children, i + 1) <==> Hi(inner, n.direction) == 1.0)
      && Lo(r, Cross(n.direction)) == Lo(inner, Cross(n.direction))
      && Hi(r, Cross(n.direction)) == Hi(inner, Cross(n.direction))
  {
    hide Mul;
    var i := Find(n.children, t);
    PaneRectAt(n, t);
    RectInside(n.children[i].node, t);
    OffsetBounds(n.children, i);
    PlaceInside(n.direction, Offset(n.children, i), n.children[i].weight, PaneRect(n.children[i].node, t).value);
  }

  // ----- areas -----

  function Area(r: Rect): real {
    Mul(r.x1 - r.x0, r.y1 - r.y0)
  }

  function AreaOf(r: Option<Rect>): real {
    if r.Some? then Area(r.value) else 0.0
  }

  /** Total area of the rectangles of `ids` in `n`. */
  function TotalArea(n: Node, ids: seq<PaneId>): real {
    if ids == [] then 0.0 else AreaOf(PaneRect(n, ids[0])) + TotalArea(n, ids[1..])
  }

  lemma {:induction false} TotalAreaAppend(n: Node, a: seq<PaneId>, b: seq<PaneId>)
    ensures TotalArea(n, a + b) == TotalArea(n, a) + TotalArea(n, b)
  {
    if a == [] {
      assert a + b == b;
    } else {
      assert (a + b)[1..] == a[1..] + b;
      TotalAreaAppend(n, a[1..], b);
    }
  }

  lemma PlaceArea(d: SplitDirection, s: real, w: real, r: Rect)
    ensures Area(Place(d, s, w, r)) == Mul(Area(r), w)
  {
    hide Mul;
    var l, c := Len(r, d), Len(r, Cross(d));
    PlaceLens(d, s, w, r, Cross(d));
    MulAssociates(l, w, c);
    MulAssociates(l, c, w);
    MulAssociates(c, l, w);
    MulCommutes(w, c);
    MulCommutes(l, c);
  }

  /** Panes found in child `i` take that child's share of their own area. */
  lemma {:induction false} ChildArea(n: Node, i: nat, ids: seq<PaneId>)
    requires n.Container? && i < |n.children|
    requires forall p :: p in ids ==> p in PaneIds(n) && Find(n.children, p) == i
    ensures TotalArea(n, ids) == Mul(TotalArea(n.children[i].node, ids), n.children[i].weight)
  {
    hide Mul;
    MulUnit(n.children[i].weight);
    if ids == [] {
    } else {
      ChildArea(n, i, ids[1..]);
      PaneRectAt(n, ids[0]);
      var w, r := n.children[i].weight, PaneRect(n.children[i].node, ids[0]).value;
      PlaceArea(n.direction, Offset(n.children, i), w, r);
      MulDistributes(Area(r), TotalArea(n.children[i].node, ids[1..]), w);
    }
  }

  /** A child whose panes fill its own square fills its slot. */
  lemma FilledSlot(n: Node, i: nat)
    requires n.Container? && Unique(n) && i < |n.children|
    requires TotalArea(n.children[i].node, PaneIds(n.children[i].node)) == 1.0
    ensures TotalArea(n, PaneIds(n.children[i].node)) == n.children[i].weight
  {
    hide Mul;
    var cs := n.children;
    KidsUnique(cs, i);
    forall p | p in PaneIds(cs[i].node) ensures p in PaneIds(n) && Find(cs, p) == i {
      FindIs(cs, p, i);
    }
    ChildArea(n, i, PaneIds(cs[i].node));
    MulUnit(cs[i].weight);
  }

  /** The panes of the first `k` children. */
  lemma IdsOfPrefix(cs: seq<Child>, k: nat)
    requires 0 < k <= |cs|
    ensures IdsOf(cs[..k]) == IdsOf(cs[..k - 1]) + PaneIds(cs[k - 1].node)
  {
    var last := cs[k - 1];
    assert cs[..k] == cs[..k - 1] + [last];
    assert [last][1..] == [];
    IdsOfAppend(cs[..k - 1], [last]);
  }

  /** The children up to `k` cover the container up to their offset. */
  lemma {:induction false} PrefixArea(n: Node, k: nat)
    requires n.Container? && SumsToOne(n) && Unique(n) && k <= |n.children|
    ensures TotalArea(n, IdsOf(n.children[..k])) == Offset(n.children, k)
    decreases n, k
  {
    hide Mul;
    if k == 0 {
    } else {
      PrefixArea(n, k - 1);
      KidsUnique(n.children, k - 1);
      AreasSumToOne(n.children[k - 1].node);
      FilledSlot(n, k - 1);
      IdsOfPrefix(n.children, k);
      TotalAreaAppend(n, IdsOf(n.children[..k - 1]), PaneIds(n.children[k - 1].node));
      SumSplit(n.children, k - 1);
    }
  }

  /** The panes' areas add up to the whole square. */
  lemma {:induction false} AreasSumToOne(n: Node)
    requires SumsToOne(n) && Unique(n)
    ensures TotalArea(n, PaneIds(n)) == 1.0
    decreases n
  {
    match n
    case Leaf(id) =>
      assert PaneIds(n)[1..] == [];
      MulUnit(1.0);
    case Container(_, cs) =>
      PrefixArea(n, |cs|);
      assert cs[..|cs|] == cs;
  }
}
