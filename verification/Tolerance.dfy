/** The validator accepts weights that sum to one up to a tolerance. Which operations keep what it accepts:
    all but one kind of close, told apart before the call.
 */
module Tolerance {
  import opened Layout
  import opened Basics
  import opened Borders
  import opened Edits
  import opened Splits
  import opened Closes
  import opened Resizes
  import opened LayoutOps
  import opened Reals

  predicate Balanced(sum: real) {
    Abs(sum - 1.0) < WEIGHT_SUM_TOLERANCE
  }

  /** What the validator accepts, without its order. */
  ghost predicate Accepted(n: Node) {
    n.Container? ==>
      && |n.children| >= 2 && PositiveWeights(n.children) && Balanced(Sum(n.children))
      && forall i :: 0 <= i < |n.children| ==>
           !SameDirection(n.children[i].node, n.direction) && Accepted(n.children[i].node)
  }

  ghost predicate AcceptedUnder(d: SplitDirection, cs: seq<Child>) {
    forall i :: 0 <= i < |cs| ==> !SameDirection(cs[i].node, d) && Accepted(cs[i].node)
  }

  lemma {:induction false} AcceptedIff(n: Node)
    ensures FirstViolation(n).None? <==> Accepted(n)
    decreases n
  {
    match n
    case Leaf(_) =>
    case Container(d, cs) =>
      KidsAcceptedIff(d, cs);
  }

  lemma {:induction false} KidsAcceptedIff(d: SplitDirection, cs: seq<Child>)
    ensures KidsViolation(d, cs).None? <==> AcceptedUnder(d, cs)
    decreases cs
  {
    if cs == [] {
    } else {
      assert cs[0].node < cs[0];
      AcceptedIff(cs[0].node);
      KidsAcceptedIff(d, cs[1..]);
      assert AcceptedUnder(d, cs) <==>
        !SameDirection(cs[0].node, d) && Accepted(cs[0].node) && AcceptedUnder(d, cs[1..]) by {
        assert forall i :: 0 <= i < |cs| - 1 ==> cs[1..][i] == cs[i + 1];
        assert forall i :: 0 < i < |cs| ==> cs[i] == cs[1..][i - 1];
      }
    }
  }

  lemma {:induction false} AcceptedFlat(n: Node)
    requires Accepted(n)
    ensures Flat(n)
    decreases n
  {
    match n
    case Leaf(_) =>
    case Container(d, cs) =>
      forall i | 0 <= i < |cs| ensures Flat(cs[i].node) && !SameDirection(cs[i].node, d) {
        AcceptedFlat(cs[i].node);
      }
  }

  /** Everything the validator looks at before child `i` is in order. */
  ghost predicate CleanBefore(d: SplitDirection, cs: seq<Child>, i: nat)
    requires i <= |cs|
  {
    forall j :: 0 <= j < i ==> !SameDirection(cs[j].node, d) && Accepted(cs[j].node)
  }

  lemma {:induction false} KidsViolationIs(d: SplitDirection, cs: seq<Child>, i: nat)
    requires i < |cs| && CleanBefore(d, cs, i)
    ensures SameDirection(cs[i].node, d) ==> KidsViolation(d, cs) == Some(SameDirectionNesting)
    ensures !SameDirection(cs[i].node, d) && !Accepted(cs[i].node) ==>
      KidsViolation(d, cs) == FirstViolation(cs[i].node)
    decreases i
  {
    hide Accepted;
    if i == 0 {
      AcceptedIff(cs[0].node);
    } else {
      assert !SameDirection(cs[0].node, d) && Accepted(cs[0].node);
      AcceptedIff(cs[0].node);
      assert forall j :: 0 <= j < i - 1 ==> cs[1..][j] == cs[j + 1];
      KidsViolationIs(d, cs[1..], i - 1);
    }
  }

  /** Which violation is reported: of the container itself first, its child count before its weights, these
      from the left and before their sum; then of its children from the left, a nested direction before
      anything inside. */
  lemma FirstViolationIs(d: SplitDirection, cs: seq<Child>, i: nat)
    requires i < |cs|
    ensures var v := FirstViolation(Container(d, cs));
      && (|cs| < 2 ==> v == Some(TooFewChildren(|cs|)))
      && (|cs| >= 2 && PositiveWeights(cs[..i]) && cs[i].weight <= 0.0 ==>
            v == Some(NonPositiveWeight(i, cs[i].weight)))
      && (|cs| >= 2 && PositiveWeights(cs) && !(0.999 < Sum(cs) < 1.001) ==>
            v == Some(WeightsSumOutOfTolerance(Sum(cs))))
      && (|cs| >= 2 && PositiveWeights(cs) && 0.999 < Sum(cs) < 1.001 && CleanBefore(d, cs, i) ==>
            && (SameDirection(cs[i].node, d) ==> v == Some(SameDirectionNesting))
            && (!SameDirection(cs[i].node, d) && !Accepted(cs[i].node) ==> v == FirstViolation(cs[i].node)))
  {
    hide Accepted, Sum, KidsViolation, SameDirection;
    assert FirstViolation(Container(d, [])) == Some(TooFewChildren(0));
    if PositiveWeights(cs[..i]) {
      assert forall j :: 0 <= j < i ==> cs[..i][j] == cs[j];
    }
    if CleanBefore(d, cs, i) {
      KidsViolationIs(d, cs, i);
    }
  }

  // ----- closing -----

  lemma KidsFlat(n: Node)
    requires Accepted(n) && n.Container?
    ensures FlatUnder(n.direction, n.children)
  {
    forall j | 0 <= j < |n.children| ensures Flat(n.children[j].node) {
      AcceptedFlat(n.children[j].node);
    }
  }

  /**
   * Read off before a close of `t`: either the container that holds it is the root, keeps two children or
   * is left with a leaf, so that nothing is merged; or it is left with a container, whose own sum, merged
   * at the weight `w`, moves the sum of the grandparent by `w * (sum - 1)` and stays within the tolerance.
   */
  predicate CloseStaysBalanced(n: Node, t: PaneId)
    requires n.Container? && t in PaneIds(n)
    decreases n
  {
    var cs := n.children;
    if LeafPos(cs, t) < |cs| then true
    else
      HolderIsContainer(cs, t);
      var w, owner := cs[Find(cs, t)].weight, cs[Find(cs, t)].node;
      var p := LeafPos(owner.children, t);
      if p < |owner.children| then
        var rest := Without(owner.children, p);
        |rest| != 1 || rest[0].node.Leaf? || Balanced(Sum(cs) + Mul(w, Sum(rest[0].node.children) - 1.0))
      else CloseStaysBalanced(owner, t)
  }

  /** Closing a pane of the root itself: its siblings share its weight, or the only one takes its place. */
  lemma CloseAtRoot(n: Node, t: PaneId)
    requires Accepted(n) && n.Container? && t in PaneIds(n) && LeafPos(n.children, t) < |n.children|
    ensures Accepted(CloseTree(n, t))
    ensures var rest := Without(n.children, LeafPos(n.children, t));
      && rest != []
      && CloseTree(n, t) == if |rest| == 1 then rest[0].node else Container(n.direction, Renormalized(rest))
  {
    var rest := Without(n.children, LeafPos(n.children, t));
    KidsFlat(n);
    SharedAccepted(n.direction, rest);
    assert FlatUnder(n.direction, Renormalized(rest));
    hide Renormalized, Accepted, Spliced, FlatUnder;
    SplicedFixes(n.direction, Renormalized(rest));
  }

  /** Two or more accepted siblings that share out the whole are accepted together. */
  lemma SharedAccepted(d: SplitDirection, cs: seq<Child>)
    requires cs != [] && PositiveWeights(cs) && AcceptedUnder(d, cs)
    ensures |cs| >= 2 ==> Accepted(Container(d, Renormalized(cs)))
  {
    hide Div;
    SumPositive(cs);
    RenormalizedSum(cs);
    forall i | 0 <= i < |cs| ensures Renormalized(cs)[i].weight > 0.0 {
      DivPositive(cs[i].weight, Sum(cs));
    }
  }

  lemma SplicedAround(d: SplitDirection, a: seq<Child>, c: Child, b: seq<Child>)
    ensures Spliced(d, a + [c] + b) == Spliced(d, a) + SpliceOne(d, Flatten(c.node), c.weight) + Spliced(d, b)
  {
    hide SpliceOne, Flatten;
    SplicedAppend(d, a + [c], b);
    SplicedAppend(d, a, [c]);
    assert [c][1..] == [];
    assert Spliced(d, [c]) == SpliceOne(d, Flatten(c.node), c.weight) + Spliced(d, []);
  }

  /** Flattening a tree in which only the child at `i` is new touches only what that child becomes. */
  lemma FlattenAround(n: Node, i: nat, node: Node)
    requires Accepted(n) && n.Container? && i < |n.children|
    ensures Flatten(WithSubtree(n, i, node)) ==
            Collapse(n.direction, n.children[..i] + SpliceOne(n.direction, Flatten(node), n.children[i].weight)
                                  + n.children[i + 1..])
  {
    var d, cs, c := n.direction, n.children, Child(node, n.children[i].weight);
    KidsFlat(n);
    assert WithChild(cs, i, node) == cs[..i] + [c] + cs[i + 1..];
    assert FlatUnder(d, cs[..i]) && FlatUnder(d, cs[i + 1..]);
    hide Accepted, Spliced, SpliceOne, Collapse, FlatUnder;
    SplicedFixes(d, cs[..i]);
    SplicedFixes(d, cs[i + 1..]);
    SplicedAround(d, cs[..i], c, cs[i + 1..]);
  }

  /** A parent in which one child was replaced, by one that does not take its direction, is accepted if the child is. */
  lemma WithSubtreeIff(n: Node, i: nat, node: Node)
    requires Accepted(n) && n.Container? && i < |n.children| && !SameDirection(node, n.direction)
    ensures Accepted(WithSubtree(n, i, node)) <==> Accepted(node)
  {
    hide Balanced;
    WithChildOffset(n.children, i, node, i);
    assert WithSubtree(n, i, node).children[i].node == node;
  }

  /** A child that does not take the parent's direction is replaced; the parent is accepted if the child is. */
  lemma ReplacedIff(n: Node, i: nat, node: Node)
    requires Accepted(n) && n.Container? && i < |n.children| && !SameDirection(Flatten(node), n.direction)
    ensures Flatten(WithSubtree(n, i, node)) == WithSubtree(n, i, Flatten(node))
    ensures Accepted(Flatten(WithSubtree(n, i, node))) <==> Accepted(Flatten(node))
  {
    assert |n.children| >= 2;
    hide Accepted, Flatten;
    var cs, f := n.children, Flatten(node);
    FlattenAround(n, i, node);
    assert WithChild(cs, i, f) == cs[..i] + [Child(f, cs[i].weight)] + cs[i + 1..];
    WithSubtreeIff(n, i, f);
  }

  /** The sum of a list in which the child at `i` was replaced by the children of `f`, at its weight. */
  lemma MergedSum(cs: seq<Child>, i: nat, f: seq<Child>)
    requires i < |cs|
    ensures Sum(cs[..i] + ScaledBy(f, cs[i].weight) + cs[i + 1..]) == Sum(cs) + Mul(cs[i].weight, Sum(f) - 1.0)
  {
    hide Mul;
    var w := cs[i].weight;
    SumSplit(cs, i);
    SumAppend(cs[..i] + ScaledBy(f, w), cs[i + 1..]);
    SumAppend(cs[..i], ScaledBy(f, w));
    ScaledSum(f, w);
    MulCommutes(w, Sum(f) - 1.0);
    MulDistributes(Sum(f), 1.0, w);
    MulUnit(w);
  }

  /** The children of `f` in place of the child at `i`: accepted if the new sum is. */
  lemma MergedListIff(n: Node, i: nat, f: Node)
    requires Accepted(n) && n.Container? && i < |n.children| && Accepted(f) && SameDirection(f, n.direction)
    ensures var r := n.children[..i] + ScaledBy(f.children, n.children[i].weight) + n.children[i + 1..];
      && |r| >= 2
      && (Accepted(Container(n.direction, r)) <==> Balanced(Sum(r)))
  {
    hide Mul, Sum, Balanced;
    var cs, w := n.children, n.children[i].weight;
    var r := cs[..i] + ScaledBy(f.children, w) + cs[i + 1..];
    forall j | 0 <= j < |r|
      ensures r[j].weight > 0.0 && !SameDirection(r[j].node, n.direction) && Accepted(r[j].node)
    {
      if i <= j < i + |f.children| {
        assert r[j] == ScaledBy(f.children, w)[j - i];
        MulPositive(f.children[j - i].weight, w);
      } else {
        assert r[j] == cs[if j < i then j else j - |f.children| + 1];
      }
    }
  }

  /** A child that takes the parent's direction is merged; the parent is accepted if its new sum is. */
  lemma MergedIff(n: Node, i: nat, node: Node)
    requires Accepted(n) && n.Container? && i < |n.children|
    requires Accepted(Flatten(node)) && SameDirection(Flatten(node), n.direction)
    ensures Accepted(Flatten(WithSubtree(n, i, node))) <==>
            Balanced(Sum(n.children) + Mul(n.children[i].weight, Sum(Flatten(node).children) - 1.0))
    ensures SameDirection(Flatten(WithSubtree(n, i, node)), n.direction)
  {
    hide Mul, Sum, Accepted, Balanced, Flatten;
    FlattenAround(n, i, node);
    MergedListIff(n, i, Flatten(node));
    MergedSum(n.children, i, Flatten(node).children);
  }

  lemma {:induction false} CloseAcceptedIff(n: Node, t: PaneId)
    requires Accepted(n) && n.Container? && t in PaneIds(n)
    ensures Accepted(CloseTree(n, t)) <==> CloseStaysBalanced(n, t)
    ensures LeafPos(n.children, t) == |n.children| ==>
            CloseTree(n, t).Container? && CloseTree(n, t).direction == n.direction
    decreases n
  {
    hide Mul, IdsOf, Balanced, Renormalized;
    var cs := n.children;
    if LeafPos(cs, t) < |cs| {
      CloseAtRoot(n, t);
    } else {
      HolderIsContainer(cs, t);
      var i := Find(cs, t);
      var owner := cs[i].node;
      assert Accepted(owner) && owner.direction != n.direction;
      CloseAcceptedIff(owner, t);
      if LeafPos(owner.children, t) < |owner.children| {
        CloseAtRoot(owner, t);
      }
      hide Accepted;
      CloseInside(n, i, t);
    }
  }

  /** What the close of a pane inside the child at `i` makes of the parent. */
  lemma CloseInside(n: Node, i: nat, t: PaneId)
    requires Accepted(n) && n.Container? && t in PaneIds(n)
    requires LeafPos(n.children, t) == |n.children| && i == Find(n.children, t)
    requires n.children[i].node.Container?
    ensures var f := CloseTree(n.children[i].node, t);
      && (!SameDirection(f, n.direction) ==>
            SameDirection(CloseTree(n, t), n.direction) && (Accepted(CloseTree(n, t)) <==> Accepted(f)))
      && (SameDirection(f, n.direction) && Accepted(f) ==>
            && SameDirection(CloseTree(n, t), n.direction)
            && (Accepted(CloseTree(n, t)) <==>
                Balanced(Sum(n.children) + Mul(n.children[i].weight, Sum(f.children) - 1.0))))
  {
    var node := RemoveIn(n.children[i].node, t);
    hide Mul, Accepted, Balanced, Sum, Flatten;
    FlattenAround(n, i, node);
    if !SameDirection(Flatten(node), n.direction) {
      ReplacedIff(n, i, node);
    } else if Accepted(Flatten(node)) {
      MergedIff(n, i, node);
    }
  }

  /** A close of an accepted tree gives an accepted tree if and only if the condition read off before holds. */
  lemma CloseKeepsAcceptedIff(n: Node, t: PaneId)
    requires FirstViolation(n).None? && n.Container? && t in PaneIds(n)
    ensures FirstViolation(CloseTree(n, t)).None? <==> CloseStaysBalanced(n, t)
  {
    AcceptedIff(n);
    AcceptedIff(CloseTree(n, t));
    CloseAcceptedIff(n, t);
  }

  // ----- splitting, resizing, swapping -----

  /** Making room moves the sum towards one. */
  lemma ShrunkSum(cs: seq<Child>, p: nat, added: PaneId)
    requires p < |cs| && Balanced(Sum(cs))
    ensures Balanced(Sum(Inserted(cs, p, added)))
  {
    var k := Shrink(cs);
    hide Mul, Shrink, NewShare, Inserted, Sum;
    InsertedWeight(cs, p, added);
    MulDistributes(Sum(cs), 1.0, k);
    MulUnit(k);
    Contracts(Sum(cs) - 1.0, k);
  }

  lemma Contracts(x: real, k: real)
    requires 0.0 <= k < 1.0
    ensures Abs(Mul(x, k)) <= Abs(x)
  {
    hide Mul;
    MulUnit(k);
    if x > 0.0 {
      ContractsPositive(x, k);
    } else if x < 0.0 {
      var y := 0.0 - x;
      ContractsPositive(y, k);
      MulDistributes(0.0, y, k);
      assert x == 0.0 - y;
    }
  }

  lemma ContractsPositive(x: real, k: real)
    requires x > 0.0 && 0.0 <= k < 1.0
    ensures 0.0 <= Mul(x, k) <= x
  {
    hide Mul;
    MulCommutes(x, k);
    MulUnit(x);
    MulOrder(0.0, k, x);
    MulOrder(k, 1.0, x);
  }

  lemma InsertedAccepted(n: Node, p: nat, added: PaneId)
    requires Accepted(n) && n.Container? && p < |n.children|
    ensures Accepted(Container(n.direction, Inserted(n.children, p, added)))
  {
    hide Mul, Sum, Balanced;
    var r := Inserted(n.children, p, added);
    ShrunkSum(n.children, p, added);
    forall i | 0 <= i < |r|
      ensures r[i].weight > 0.0 && Accepted(r[i].node) && !SameDirection(r[i].node, n.direction)
    {
      if i == p + 1 {
        InsertedAt(n.children, p, added, p);
      } else {
        var j := if i <= p then i else i - 1;
        InsertedAt(n.children, p, added, j);
        MulPositive(n.children[j].weight, Shrink(n.children));
      }
    }
  }

  lemma {:induction false} SplitAccepted(n: Node, t: PaneId, added: PaneId, d: SplitDirection)
    requires Accepted(n) && t in PaneIds(n)
    ensures Accepted(SplitTree(n, t, added, d))
    ensures n.Container? ==> SplitTree(n, t, added, d).Container? && SplitTree(n, t, added, d).direction == n.direction
    decreases n
  {
    match n
    case Leaf(_) =>
      var m := Halved(t, added, d);
      assert m.children[1..] == [Child(Leaf(added), 0.5)];
      assert Sum(m.children) == 0.5 + Sum(m.children[1..]);
    case Container(dir, cs) =>
      if InsertsHere(dir, cs, t, d) {
        InsertedAccepted(n, LeafPos(cs, t), added);
      } else {
        var i := Find(cs, t);
        SplitAccepted(cs[i].node, t, added, d);
        LeafPosFirst(cs, i, t);
        WithSubtreeIff(n, i, SplitTree(cs[i].node, t, added, d));
      }
  }

  lemma AdjustAccepted(n: Node, i: nat, j: nat, delta: real, minWeight: real)
    requires Accepted(n) && n.Container? && i < |n.children| && j < |n.children| && i != j
    ensures Accepted(AdjustHere(n, i, j, delta, minWeight))
  {
    var cs := n.children;
    AppliedBounds(cs[i].weight, cs[j].weight, delta, minWeight);
    hide Applied, Renormalized;
    SharedAccepted(n.direction, Moved(cs, i, j, Applied(cs[i].weight, cs[j].weight, delta, minWeight)));
  }

  lemma {:induction false} ResizeAccepted(n: Node, b: BorderPath, delta: real, minWeight: real)
    requires Accepted(n) && ValidBorder(n, b)
    ensures n.Container? && Accepted(ResizeAt(n, b, delta, minWeight))
    ensures ResizeAt(n, b, delta, minWeight).Container? && ResizeAt(n, b, delta, minWeight).direction == n.direction
    decreases b.path
  {
    if b.path == [] {
      AdjustAccepted(n, b.paneIdx, b.neighborIdx, delta, minWeight);
    } else {
      var i, inner := b.path[0], b.(path := b.path[1..]);
      ResizeAccepted(n.children[i].node, inner, delta, minWeight);
      WithSubtreeIff(n, i, ResizeAt(n.children[i].node, inner, delta, minWeight));
    }
  }

  lemma {:induction false} SwapAccepted(n: Node, a: PaneId, b: PaneId)
    requires Accepted(n)
    ensures Accepted(SwapTree(n, a, b))
    ensures SwapTree(n, a, b).Container? == n.Container?
    ensures n.Container? ==> SwapTree(n, a, b).direction == n.direction
    decreases n
  {
    hide Balanced;
    match n
    case Leaf(_) =>
    case Container(d, cs) =>
      var r := SwapAll(cs, a, b);
      forall i | 0 <= i < |cs|
        ensures r[i].weight == cs[i].weight && Accepted(r[i].node) && !SameDirection(r[i].node, d)
      {
        SwapAllAt(cs, a, b, i);
        SwapAccepted(cs[i].node, a, b);
      }
      SameWeightsSameSum(r, cs);
  }

  // ----- every operation -----

  /** An accepted close whose merge would carry the sum beyond the tolerance. */
  predicate DriftsOut(n: Node, op: Op) {
    op.Close? && n.Container? && op.target in PaneIds(n) && !CloseStaysBalanced(n, op.target)
  }

  /**
   * On any tree the validator accepts, an operation, granted or refused, leaves a tree it accepts if and
   * only if it is not a close that drifts out: splits, resizes and swaps always do.
   */
  lemma OperationKeepsAcceptedIff(n: Node, op: Op)
    requires FirstViolation(n).None?
    ensures FirstViolation(Apply(n, op)).None? <==> !DriftsOut(n, op)
  {
    hide FirstViolation, Accepted, CloseStaysBalanced, LocateBorder;
    AcceptedIff(n);
    AcceptedIff(Apply(n, op));
    match op
    case Split(t, added, d) =>
      if SplitOp(n, t, added, d).result.Ok? {
        SplitAccepted(n, t, added, d);
      }
    case Close(t) =>
      if n.Container? && t in PaneIds(n) {
        CloseKeepsAcceptedIff(n, t);
      }
    case Resize(p, q, delta, minWeight) =>
      if ResizeOp(n, p, q, delta, minWeight).result.Ok? {
        LocatedIsValid(n, p, q);
        ResizeAccepted(n, LocateBorder(n, p, q).value, delta, minWeight);
      }
    case Swap(a, b) =>
      SwapAccepted(n, a, b);
  }

  // ----- a close that drifts out -----

  const LOOSE_ROW := Container(Horizontal, [Child(Leaf(1), 0.5), Child(Leaf(2), 0.5009)])
  const LOOSE_STACK := Container(Vertical, [Child(LOOSE_ROW, 0.5), Child(Leaf(3), 0.5)])
  const LOOSE := Container(Horizontal, [Child(LOOSE_STACK, 0.5), Child(Leaf(4), 0.5009)])

  lemma TwoSum(cs: seq<Child>)
    requires |cs| == 2
    ensures Sum(cs) == cs[0].weight + cs[1].weight
  {
    assert cs[1..] == [cs[1]] && [cs[1]][1..] == [];
    assert Sum([cs[1]]) == cs[1].weight + Sum([]);
  }

  lemma TwoIds(a: Child, b: Child)
    ensures IdsOf([a, b]) == PaneIds(a.node) + PaneIds(b.node)
  {
    assert [a, b][1..] == [b] && [b][1..] == [];
    assert IdsOf([b]) == PaneIds(b.node) + IdsOf([]);
  }

  lemma LooseAccepted()
    ensures Accepted(LOOSE)
  {
    TwoSum(LOOSE_ROW.children);
    TwoSum(LOOSE_STACK.children);
    TwoSum(LOOSE.children);
    assert Accepted(LOOSE_ROW);
    assert Accepted(LOOSE_STACK);
  }

  /** Validity up to a tolerance is not kept: here the row that pane 3 leaves behind adds its error to its parent's. */
  lemma ToleranceIsNotKept()
    ensures FirstViolation(LOOSE).None? && Unique(LOOSE)
    ensures CloseOp(LOOSE, 3).result.Ok?
    ensures FirstViolation(CloseOp(LOOSE, 3).tree).Some?
  {
    LooseAccepted();
    AcceptedIff(LOOSE);
    TwoIds(LOOSE_ROW.children[0], LOOSE_ROW.children[1]);
    TwoIds(LOOSE_STACK.children[0], LOOSE_STACK.children[1]);
    TwoIds(LOOSE.children[0], LOOSE.children[1]);
    assert PaneIds(LOOSE) == [1, 2, 3, 4];
    LooseDrifts();
    CloseKeepsAcceptedIff(LOOSE, 3);
  }

  lemma LooseDrifts()
    requires 3 in PaneIds(LOOSE)
    ensures !CloseStaysBalanced(LOOSE, 3)
  {
    TwoIds(LOOSE_ROW.children[0], LOOSE_ROW.children[1]);
    TwoIds(LOOSE_STACK.children[0], LOOSE_STACK.children[1]);
    assert LeafPos(LOOSE.children, 3) == 2;
    assert Find(LOOSE.children, 3) == 0;
    assert LeafPos(LOOSE_STACK.children, 3) == 1;
    assert Without(LOOSE_STACK.children, 1) == [Child(LOOSE_ROW, 0.5)];
    TwoSum(LOOSE.children);
    TwoSum(LOOSE_ROW.children);
  }
}
