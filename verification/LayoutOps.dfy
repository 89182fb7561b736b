/** The public operations of the layout tree as functions on trees, the
    validator, and what every run of the operations keeps.
 */
module LayoutOps {
  import opened Layout
  import opened Geometry
  import opened Basics
  import opened Borders
  import opened Splits
  import opened Closes
  import opened Resizes
  import opened Reals

  datatype LayoutError =
    | PaneNotFound(id: PaneId)
    | PaneAlreadyPresent(id: PaneId)
    | NotAdjacentSiblings(pane: PaneId, neighbor: PaneId)
    | InvalidResizeParam

  type LayoutResult<+T> = Result<T, LayoutError>

  datatype Unit = Unit

  datatype CloseOutcome = LastPane | Removed(focusHint: PaneId)

  // ----- the operations as functions of the tree -----

  /** A tree together with what an operation returned. */
  datatype Step<+T> = Step(tree: Node, result: LayoutResult<T>)

  function SplitOp(n: Node, target: PaneId, added: PaneId, d: SplitDirection): Step<Unit> {
    if added in PaneIds(n) then Step(n, Err(PaneAlreadyPresent(added)))
    else if target !in PaneIds(n) then Step(n, Err(PaneNotFound(target)))
    else Step(SplitTree(n, target, added, d), Ok(Unit))
  }

  function OrElse(a: Option<PaneId>, b: Option<PaneId>): Option<PaneId> {
    if a.Some? then a else b
  }

  function CloseOp(n: Node, target: PaneId): Step<CloseOutcome> {
    if target !in PaneIds(n) then Step(n, Err(PaneNotFound(target)))
    else if n.Leaf? then Step(n, Ok(LastPane))
    else
      var after := CloseTree(n, target);
      var hint := OrElse(SiblingHint(n, target), FirstOf(PaneIds(after)));
      Step(after, Ok(Removed(if hint.Some? then hint.value else target)))
  }

  ghost function ResizeOp(n: Node, pane: PaneId, neighbor: PaneId, delta: real, minWeight: real): Step<Unit> {
    if minWeight < 0.0 then Step(n, Err(InvalidResizeParam))
    else if pane !in PaneIds(n) then Step(n, Err(PaneNotFound(pane)))
    else if neighbor !in PaneIds(n) then Step(n, Err(PaneNotFound(neighbor)))
    else if n.Leaf? || LocateBorder(n, pane, neighbor).None? then Step(n, Err(NotAdjacentSiblings(pane, neighbor)))
    else
      LocatedIsValid(n, pane, neighbor);
      Step(ResizeAt(n, LocateBorder(n, pane, neighbor).value, delta, minWeight), Ok(Unit))
  }

  function SwapOp(n: Node, a: PaneId, b: PaneId): Step<Unit> {
    if a !in PaneIds(n) then Step(n, Err(PaneNotFound(a)))
    else if b !in PaneIds(n) then Step(n, Err(PaneNotFound(b)))
    else Step(SwapTree(n, a, b), Ok(Unit))
  }

  // ----- what one operation keeps -----

  /** A canonical tree whose panes are all different. */
  ghost predicate Good(n: Node) {
    Canonical(n) && Unique(n)
  }

  /** A split either is refused and changes nothing, or succeeds and adds
      exactly the newcomer. */
  lemma SplitGood(n: Node, target: PaneId, added: PaneId, d: SplitDirection)
    requires Good(n)
    ensures var s := SplitOp(n, target, added, d);
      && Good(s.tree)
      && (s.result.Ok? <==> target in PaneIds(n) && added !in PaneIds(n))
      && (s.result.Err? ==> s.tree == n)
      && (s.result.Ok? ==> forall q :: q in PaneIds(s.tree) <==> q in PaneIds(n) || q == added)
  {
    if SplitOp(n, target, added, d).result.Ok? {
      SplitCanonical(n, target, added, d);
      SplitUnique(n, target, added, d);
      forall q ensures q in PaneIds(SplitTree(n, target, added, d)) <==> q in PaneIds(n) || q == added {
        SplitMembers(n, target, added, d, q);
      }
    }
  }

  /** A close removes exactly the target and hints at a pane that is next to
      it in pane order; the last pane is never removed. */
  lemma CloseGood(n: Node, target: PaneId)
    requires Good(n)
    ensures var s := CloseOp(n, target);
      && Good(s.tree)
      && (s.result.Ok? <==> target in PaneIds(n))
      && (s.result.Err? || s.result.value.LastPane? ==> s.tree == n)
      && (s.result.Ok? ==> (s.result.value.LastPane? <==> PaneIds(n) == [target]))
      && (s.result.Ok? && s.result.value.Removed? ==>
            && PaneIds(s.tree) == Minus(PaneIds(n), target)
            && NextTo(PaneIds(n), target, s.result.value.focusHint)
            && s.result.value.focusHint in PaneIds(s.tree))
  {
    if n.Container? && target in PaneIds(n) {
      CloseCanonical(n, target);
      CloseIds(n, target);
      HintAdjacent(n, target);
      var hint := SiblingHint(n, target).value;
      NextToOther(PaneIds(n), target, hint);
      MinusMembers(PaneIds(n), target, hint);
    }
  }

  lemma NextToOther(ids: seq<PaneId>, t: PaneId, hint: PaneId)
    requires NoDup(ids) && NextTo(ids, t, hint)
    ensures hint in ids && hint != t
  {
  }

  lemma ResizeGood(n: Node, pane: PaneId, neighbor: PaneId, delta: real, minWeight: real)
    requires Good(n)
    ensures var s := ResizeOp(n, pane, neighbor, delta, minWeight);
      && Good(s.tree) && PaneIds(s.tree) == PaneIds(n)
      && (s.result.Err? ==> s.tree == n)
  {
    if ResizeOp(n, pane, neighbor, delta, minWeight).result.Ok? {
      LocatedIsValid(n, pane, neighbor);
      ResizeCanonical(n, LocateBorder(n, pane, neighbor).value, delta, minWeight);
    }
  }

  /** An accepted resize conserves the two siblings' weight at the border, keeps both above the floor, and moves
      as much of it as asked, up to that floor. */
  lemma ResizeConserves(n: Node, pane: PaneId, neighbor: PaneId, delta: real, minWeight: real)
    requires Good(n) && ResizeOp(n, pane, neighbor, delta, minWeight).result.Ok?
    ensures n.Container? && LocateBorder(n, pane, neighbor).Some?
    ensures
      var b, tree := LocateBorder(n, pane, neighbor).value, ResizeOp(n, pane, neighbor, delta, minWeight).tree;
      && ValidBorder(n, b) && ValidBorder(tree, b)
      && var m, r := NodeAt(n, b.path).children, NodeAt(tree, b.path).children;
      && |r| == |m|
      && (forall k :: 0 <= k < |m| ==> r[k].node == m[k].node)
      && (forall k :: 0 <= k < |m| && k != b.paneIdx && k != b.neighborIdx ==> r[k] == m[k])
      && r[b.paneIdx].weight + r[b.neighborIdx].weight == m[b.paneIdx].weight + m[b.neighborIdx].weight
      && KeepsFloor(m[b.paneIdx].weight, r[b.paneIdx].weight, minWeight)
      && KeepsFloor(m[b.neighborIdx].weight, r[b.neighborIdx].weight, minWeight)
      && AsFarAs(r[b.paneIdx].weight - m[b.paneIdx].weight, m[b.paneIdx].weight, m[b.neighborIdx].weight,
                 delta, minWeight)
  {
    hide Mul, LocateBorder, ResizeAt, KeepsFloor, AsFarAs;
    LocatedIsValid(n, pane, neighbor);
    ResizeWeights(n, LocateBorder(n, pane, neighbor).value, delta, minWeight);
  }

  /** In the whole tree's square the two panes meet along the direction of their lowest common container
      and overlap across it by more than the epsilon of that container. */
  ghost predicate RectsMeet(n: Node, p: PaneId, q: PaneId) {
    && n.Container? && p in PaneIds(n) && q in PaneIds(n) && p != q
    && PaneRect(n, p).Some? && PaneRect(n, q).Some?
    && var path := CommonPath(n, p, q);
    var d := NodeAt(n, path).direction;
    && Abut(d, PaneRect(n, p).value, PaneRect(n, q).value)
    && Overlap(Cross(d), PaneRect(n, p).value, PaneRect(n, q).value)
       > Mul(BORDER_OVERLAP_EPSILON, Len(BoxAt(n, path), Cross(d)))
  }

  /** A resize of a good tree is accepted exactly when its floor is not negative and the rectangles meet;
      otherwise the error tells which of the conditions failed first. */
  lemma ResizeAcceptedIff(n: Node, pane: PaneId, neighbor: PaneId, delta: real, minWeight: real)
    requires Good(n)
    ensures var r := ResizeOp(n, pane, neighbor, delta, minWeight).result;
      && (r.Ok? <==> minWeight >= 0.0 && RectsMeet(n, pane, neighbor))
      && (r == Err(NotAdjacentSiblings(pane, neighbor)) <==>
            minWeight >= 0.0 && pane in PaneIds(n) && neighbor in PaneIds(n) && !RectsMeet(n, pane, neighbor))
  {
    hide Overlap, Mul, Abut, LocateBorder;
    if n.Container? && pane in PaneIds(n) && neighbor in PaneIds(n) {
      if pane == neighbor {
        NoBorderWithItself(n, pane);
      } else {
        BorderIsGeometric(n, pane, neighbor);
      }
    }
  }

  lemma SwapGood(n: Node, a: PaneId, b: PaneId)
    requires Good(n)
    ensures var s := SwapOp(n, a, b);
      && Good(s.tree)
      && (s.result.Ok? <==> a in PaneIds(n) && b in PaneIds(n))
      && (s.result.Err? ==> s.tree == n)
      && (forall q :: q in PaneIds(s.tree) <==> q in PaneIds(n))
  {
    if SwapOp(n, a, b).result.Ok? {
      SwapCanonical(n, a, b);
      SwapMembers(n, a, b);
    }
  }

  // ----- whole runs -----

  datatype Op =
    | Split(target: PaneId, added: PaneId, direction: SplitDirection)
    | Close(target: PaneId)
    | Resize(pane: PaneId, neighbor: PaneId, delta: real, minWeight: real)
    | Swap(a: PaneId, b: PaneId)

  ghost function Apply(n: Node, op: Op): Node {
    match op
    case Split(t, added, d) => SplitOp(n, t, added, d).tree
    case Close(t) => CloseOp(n, t).tree
    case Resize(p, q, delta, minWeight) => ResizeOp(n, p, q, delta, minWeight).tree
    case Swap(a, b) => SwapOp(n, a, b).tree
  }

  ghost function Run(n: Node, ops: seq<Op>): Node
    decreases |ops|
  {
    if ops == [] then n else Run(Apply(n, ops[0]), ops[1..])
  }

  lemma {:induction false} RunGood(n: Node, ops: seq<Op>)
    requires Good(n)
    ensures Good(Run(n, ops))
    decreases |ops|
  {
    if ops == [] {
    } else {
      match ops[0] {
        case Split(t, added, d) => SplitGood(n, t, added, d);
        case Close(t) => CloseGood(n, t);
        case Resize(p, q, delta, minWeight) => ResizeGood(n, p, q, delta, minWeight);
        case Swap(a, b) => SwapGood(n, a, b);
      }
      RunGood(Apply(n, ops[0]), ops[1..]);
    }
  }

  /** The panes of `n` tile the unit square: each has a proper rectangle, no
      two overlap, and together they have the whole area. */
  ghost predicate Tiles(n: Node) {
    && (forall p :: p in PaneIds(n) ==> PaneRect(n, p).Some? && Inside(PaneRect(n, p).value))
    && (forall p, q :: p in PaneIds(n) && q in PaneIds(n) && p != q && PaneRect(n, p).Some? && PaneRect(n, q).Some?
          ==> InteriorDisjoint(PaneRect(n, p).value, PaneRect(n, q).value))
    && TotalArea(n, PaneIds(n)) == 1.0
  }

  lemma GoodTiles(n: Node)
    requires Good(n)
    ensures Tiles(n)
  {
    hide Mul;
    forall p | p in PaneIds(n) ensures PaneRect(n, p).Some? && Inside(PaneRect(n, p).value) {
      RectInside(n, p);
    }
    forall p, q | p in PaneIds(n) && q in PaneIds(n) && p != q && PaneRect(n, p).Some? && PaneRect(n, q).Some?
      ensures InteriorDisjoint(PaneRect(n, p).value, PaneRect(n, q).value)
    {
      RectsDisjoint(n, p, q);
    }
    AreasSumToOne(n);
  }

  /** Every tree reachable from a single pane by any operations, accepted or
      refused, is canonical, passes validation and tiles the square. */
  lemma ReachableTiles(first: PaneId, ops: seq<Op>)
    ensures var n := Run(Leaf(first), ops);
      Canonical(n) && Unique(n) && FirstViolation(n).None? && Tiles(n)
  {
    RunGood(Leaf(first), ops);
    GoodTiles(Run(Leaf(first), ops));
    CanonicalValidates(Run(Leaf(first), ops));
  }

  // ----- validation -----

  const WEIGHT_SUM_TOLERANCE: real := 0.001

  datatype InvariantViolation =
    | TooFewChildren(found: nat)
    | NonPositiveWeight(index: nat, weight: real)
    | WeightsSumOutOfTolerance(sum: real)
    | SameDirectionNesting

  function Abs(x: real): real {
    if x < 0.0 then -x else x
  }

  function FirstNonPositive(cs: seq<Child>): (i: nat)
    ensures i <= |cs|
    ensures i < |cs| ==> cs[i].weight <= 0.0
    ensures forall j :: 0 <= j < i ==> cs[j].weight > 0.0
  {
    if cs == [] || cs[0].weight <= 0.0 then 0
    else
      var k := FirstNonPositive(cs[1..]);
      assert forall j :: 1 <= j < 1 + k ==> cs[j] == cs[1..][j - 1];
      1 + k
  }

  /** The first invariant a tree breaks, in the validator's order. */
  function FirstViolation(n: Node): Option<InvariantViolation>
    decreases n
  {
    match n
    case Leaf(_) => None
    case Container(d, cs) =>
      if |cs| < 2 then Some(TooFewChildren(|cs|))
      else if FirstNonPositive(cs) < |cs| then
        Some(NonPositiveWeight(FirstNonPositive(cs), cs[FirstNonPositive(cs)].weight))
      else if Abs(Sum(cs) - 1.0) >= WEIGHT_SUM_TOLERANCE then Some(WeightsSumOutOfTolerance(Sum(cs)))
      else KidsViolation(d, cs)
  }

  function KidsViolation(d: SplitDirection, cs: seq<Child>): Option<InvariantViolation>
    decreases cs
  {
    if cs == [] then None
    else if SameDirection(cs[0].node, d) then Some(SameDirectionNesting)
    else
      assert cs[0].node < cs[0];
      var v := FirstViolation(cs[0].node);
      if v.Some? then v else KidsViolation(d, cs[1..])
  }

  lemma {:induction false} CanonicalValidates(n: Node)
    requires Canonical(n)
    ensures FirstViolation(n).None?
    decreases n
  {
    if n.Leaf? {
    } else {
      KidsValidate(n.direction, n.children);
    }
  }

  lemma {:induction false} KidsValidate(d: SplitDirection, cs: seq<Child>)
    requires forall i :: 0 <= i < |cs| ==> Canonical(cs[i].node) && !SameDirection(cs[i].node, d)
    ensures KidsViolation(d, cs).None?
    decreases cs
  {
    if cs == [] {
    } else {
      assert cs[0].node < cs[0];
      CanonicalValidates(cs[0].node);
      KidsValidate(d, cs[1..]);
    }
  }
}
