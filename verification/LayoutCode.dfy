/** The layout code in its own imperative form: loops over child lists, paths
    resolved first and written through afterwards, and the tree object whose
    methods replace it in place.
 */
module LayoutCode {
  import opened Layout
  import opened Geometry
  import opened Basics
  import opened Borders
  import opened Edits
  import opened Splits
  import opened Closes
  import opened Resizes
  import opened LayoutOps
  import opened Reals

  // ----- traversals -----

  /** Pre-order traversal appending to `out`. */
  method CollectPaneIds(n: Node, out: seq<PaneId>) returns (r: seq<PaneId>)
    ensures r == out + PaneIds(n)
    decreases n
  {
    r := out;
    match n
    case Leaf(id) =>
      r := r + [id];
    case Container(_, cs) =>
      for i := 0 to |cs|
        invariant r == out + IdsOf(cs[..i])
      {
        r := CollectPaneIds(cs[i].node, r);
        IdsOfPrefix(cs, i + 1);
      }
      assert cs[..|cs|] == cs;
  }

  /** The running-offset search for a pane's rectangle. */
  method FindRect(n: Node, target: PaneId) returns (r: Option<Rect>)
    ensures r == PaneRect(n, target)
    decreases n
  {
    hide Mul;
    match n
    case Leaf(id) =>
      return if id == target then Some(UNIT) else None;
    case Container(d, cs) =>
      var start := 0.0;
      for i := 0 to |cs|
        invariant RectFrom(d, cs, 0.0, target) == RectFrom(d, cs[i..], start, target)
      {
        var end := start + cs[i].weight;
        var inner := FindRect(cs[i].node, target);
        assert cs[i..][0] == cs[i] && cs[i..][1..] == cs[i + 1..];
        if inner.Some? {
          var span := end - start;
          return Some(Place(d, start, span, inner.value));
        }
        start := end;
      }
      return None;
  }

  /** Flattening bottom-up, pushing merged grandchildren one at a time. */
  method FlattenNode(n: Node) returns (r: Node)
    ensures r == Flatten(n)
    decreases n, 1
  {
    match n
    case Leaf(_) => r := n;
    case Container(_, _) => r := FlattenContainer(n);
  }

  method FlattenContainer(n: Node) returns (r: Node)
    requires n.Container?
    ensures r == Flatten(n)
    decreases n, 0
  {
    hide Mul;
    var d, cs := n.direction, n.children;
    var children: seq<Child> := [];
    for i := 0 to |cs|
      invariant children == Spliced(d, cs[..i])
    {
      ghost var before := children;
      var child := cs[i];
      var flat := FlattenNode(child.node);
      if flat.Container? && flat.direction == d {
        for j := 0 to |flat.children|
          invariant children == before + ScaledBy(flat.children, child.weight)[..j]
        {
          var grandchild := flat.children[j];
          children := children + [Child(grandchild.node, Mul(grandchild.weight, child.weight))];
        }
        assert children == before + SpliceOne(d, flat, child.weight);
      } else {
        children := children + [Child(flat, child.weight)];
      }
      SplicedStep(d, cs, i);
    }
    assert cs[..|cs|] == cs;
    if |children| == 1 {
      return children[0].node;
    }
    return Container(d, children);
  }

  lemma SplicedStep(d: SplitDirection, cs: seq<Child>, i: nat)
    requires i < |cs|
    ensures Spliced(d, cs[..i + 1]) == Spliced(d, cs[..i]) + SpliceOne(d, Flatten(cs[i].node), cs[i].weight)
  {
    hide Mul;
    assert cs[..i + 1] == cs[..i] + [cs[i]];
    SplicedAppend(d, cs[..i], [cs[i]]);
    assert [cs[i]][1..] == [];
  }

  /** The validator: weights first, then nesting, child by child. */
  method Validate(n: Node) returns (v: Option<InvariantViolation>)
    ensures v == FirstViolation(n)
    decreases n
  {
    if n.Leaf? {
      return None;
    }
    var d, cs := n.direction, n.children;
    if |cs| < 2 {
      return Some(TooFewChildren(|cs|));
    }
    var sum := 0.0;
    for index := 0 to |cs|
      invariant sum == Sum(cs[..index])
      invariant index <= FirstNonPositive(cs)
    {
      if cs[index].weight <= 0.0 {
        return Some(NonPositiveWeight(index, cs[index].weight));
      }
      SumSplit(cs, index);
      sum := sum + cs[index].weight;
    }
    assert cs[..|cs|] == cs;
    if Abs(sum - 1.0) >= WEIGHT_SUM_TOLERANCE {
      return Some(WeightsSumOutOfTolerance(sum));
    }
    for i := 0 to |cs|
      invariant KidsViolation(d, cs) == KidsViolation(d, cs[i..])
    {
      assert cs[i..][0] == cs[i] && cs[i..][1..] == cs[i + 1..];
      if SameDirection(cs[i].node, d) {
        return Some(SameDirectionNesting);
      }
      var inner := Validate(cs[i].node);
      if inner.Some? {
        return inner;
      }
    }
    return None;
  }

  // ----- paths -----

  /** The tree with the subtree at `path` written over. */
  function ReplaceAt(n: Node, path: seq<nat>, sub: Node): Node
    requires ValidPath(n, path)
    decreases path
  {
    if path == [] then sub
    else WithSubtree(n, path[0], ReplaceAt(n.children[path[0]].node, path[1..], sub))
  }

  method Descend(n: Node, path: seq<nat>) returns (r: Node)
    requires ValidPath(n, path)
    ensures r == NodeAt(n, path)
  {
    r := n;
    for k := 0 to |path|
      invariant ValidPath(r, path[k..]) && NodeAt(r, path[k..]) == NodeAt(n, path)
    {
      assert path[k..][0] == path[k] && path[k..][1..] == path[k + 1..];
      r := r.children[path[k]].node;
    }
  }

  // ----- splitting -----

  ghost function Prefixed(path: seq<nat>, site: SplitSite): SplitSite {
    match site
    case Sibling(rest, pos) => Sibling(path + rest, pos)
    case Halve(rest) => Halve(path + rest)
  }

  lemma PrefixedUnder(path: seq<nat>, i: nat, site: SplitSite)
    ensures Prefixed(path + [i], site) == Prefixed(path, Under(i, site))
  {
  }

  method FindSplitSite(root: Node, target: PaneId, d: SplitDirection) returns (site: SplitSite)
    requires target in PaneIds(root)
    ensures site == LocateSplitSite(root, target, d)
  {
    var path: seq<nat> := [];
    var node := root;
    assert Prefixed([], LocateSplitSite(root, target, d)) == LocateSplitSite(root, target, d) by {
      PrefixedEmpty(LocateSplitSite(root, target, d));
    }
    while true
      invariant target in PaneIds(node)
      invariant Prefixed(path, LocateSplitSite(node, target, d)) == LocateSplitSite(root, target, d)
      decreases node
    {
      if node.Leaf? {
        assert path + [] == path;
        return Halve(path);
      }
      var cs := node.children;
      if node.direction == d && LeafPos(cs, target) < |cs| {
        assert path + [] == path;
        return Sibling(path, LeafPos(cs, target));
      }
      var next := Find(cs, target);
      PrefixedUnder(path, next, LocateSplitSite(cs[next].node, target, d));
      path := path + [next];
      node := cs[next].node;
    }
  }

  lemma PrefixedEmpty(site: SplitSite)
    ensures Prefixed([], site) == site
  {
  }

  /** Splitting by recursion is writing at the located site. */
  lemma {:induction false} SplitAtSite(n: Node, target: PaneId, added: PaneId, d: SplitDirection)
    requires target in PaneIds(n)
    ensures
      var site := LocateSplitSite(n, target, d);
      match site
      case Sibling(path, pos) =>
        && ValidPath(n, path) && NodeAt(n, path).Container? && pos < |NodeAt(n, path).children|
        && NodeAt(n, path).children[pos].node == Leaf(target)
        && SplitTree(n, target, added, d)
           == ReplaceAt(n, path, Container(NodeAt(n, path).direction, Inserted(NodeAt(n, path).children, pos, added)))
      case Halve(path) =>
        && ValidPath(n, path)
        && SplitTree(n, target, added, d) == ReplaceAt(n, path, Halved(target, added, d))
    decreases n
  {
    hide Mul;
    if n.Container? && !InsertsHere(n.direction, n.children, target, d) {
      var i := Find(n.children, target);
      SplitAtSite(n.children[i].node, target, added, d);
      match LocateSplitSite(n.children[i].node, target, d) {
        case Sibling(path, pos) => assert ([i] + path)[1..] == path;
        case Halve(path) => assert ([i] + path)[1..] == path;
      }
    }
  }

  method SplitIn(n: Node, target: PaneId, added: PaneId, d: SplitDirection) returns (r: Node)
    requires target in PaneIds(n)
    ensures r == SplitTree(n, target, added, d)
  {
    hide Mul;
    var site := FindSplitSite(n, target, d);
    SplitAtSite(n, target, added, d);
    match site
    case Sibling(path, pos) =>
      var c := Descend(n, path);
      var count := |c.children| as real;
      var children := c.children;
      for j := 0 to |children|
        invariant |children| == |c.children|
        invariant forall k :: 0 <= k < j ==> children[k] == ScaledBy(c.children, Shrink(c.children))[k]
        invariant forall k :: j <= k < |children| ==> children[k] == c.children[k]
      {
        children := children[j := Child(children[j].node, Mul(children[j].weight, count / (count + 1.0)))];
      }
      assert children == ScaledBy(c.children, Shrink(c.children));
      children := children[..pos + 1] + [Child(Leaf(added), 1.0 / (count + 1.0))] + children[pos + 1..];
      r := ReplaceAt(n, path, Container(c.direction, children));
    case Halve(path) =>
      r := ReplaceAt(n, path, Halved(target, added, d));
  }

  /** The preview by recursion is the preview read off at the located site. */
  lemma {:induction false} PreviewAtSite(n: Node, target: PaneId, d: SplitDirection)
    requires target in PaneIds(n) && Positive(n)
    ensures
      match LocateSplitSite(n, target, d)
      case Sibling(path, pos) =>
        && ValidPath(n, path) && NodeAt(n, path).Container? && pos < |NodeAt(n, path).children|
        && NodeAt(n, path).children[pos].weight > 0.0
        && Preview(n, target, d) == PreviewOf(NodeAt(n, path).children, pos)
      case Halve(path) =>
        Preview(n, target, d) == SplitPreview(0.5, 0.5, [])
    decreases n
  {
    hide Div;
    if n.Container? && !InsertsHere(n.direction, n.children, target, d) {
      var i := Find(n.children, target);
      PreviewAtSite(n.children[i].node, target, d);
      match LocateSplitSite(n.children[i].node, target, d) {
        case Sibling(path, pos) => assert ([i] + path)[1..] == path;
        case Halve(path) =>
      }
    }
  }

  /** The panes of every child but the one at `pos`. */
  method CollectOthers(cs: seq<Child>, pos: nat) returns (ids: seq<PaneId>)
    requires pos < |cs|
    ensures ids == IdsOf(cs[..pos] + cs[pos + 1..])
  {
    hide IdsOf;
    ids := [];
    EmptyIds();
    for j := 0 to |cs|
      invariant ids == IdsOf(if j <= pos then cs[..j] else cs[..pos] + cs[pos + 1..j])
    {
      if j != pos {
        ids := CollectPaneIds(cs[j].node, ids);
        var done := if j <= pos then cs[..j] else cs[..pos] + cs[pos + 1..j];
        IdsOfSnoc(done, cs[j]);
        assert done + [cs[j]] == if j + 1 <= pos then cs[..j + 1] else cs[..pos] + cs[pos + 1..j + 1];
      } else {
        assert cs[..pos] + cs[pos + 1..j + 1] == cs[..j];
      }
    }
    assert cs[..pos] + cs[pos + 1..|cs|] == cs[..pos] + cs[pos + 1..];
  }

  lemma EmptyIds()
    ensures IdsOf([]) == []
  {
  }

  lemma IdsOfSnoc(cs: seq<Child>, c: Child)
    ensures IdsOf(cs + [c]) == IdsOf(cs) + PaneIds(c.node)
  {
    IdsOfAppend(cs, [c]);
    IdsOfHead([c]);
    assert [c][1..] == [];
  }

  method SplitPreviewIn(n: Node, target: PaneId, d: SplitDirection) returns (r: SplitPreview)
    requires target in PaneIds(n) && Positive(n)
    ensures r == Preview(n, target, d)
  {
    hide Div;
    hide NewShare;
    hide Shrink;
    hide IdsOf;
    var site := FindSplitSite(n, target, d);
    PreviewAtSite(n, target, d);
    match site
    case Halve(_) =>
      r := SplitPreview(0.5, 0.5, []);
    case Sibling(path, pos) =>
      var c := Descend(n, path);
      var shrunk := CollectOthers(c.children, pos);
      r := SplitPreview(Div(NewShare(c.children), c.children[pos].weight), Shrink(c.children), shrunk);
  }

  // ----- closing -----

  method Renormalize(cs: seq<Child>) returns (r: seq<Child>)
    ensures r == Renormalized(cs)
  {
    hide Div;
    r := cs;
    if |cs| == 0 {
      return;
    }
    var sum := 0.0;
    for i := 0 to |cs|
      invariant sum == Sum(cs[..i])
    {
      SumSplit(cs, i);
      sum := sum + cs[i].weight;
    }
    assert cs[..|cs|] == cs;
    var even := 1.0 / |cs| as real;
    for i := 0 to |cs|
      invariant |r| == |cs|
      invariant forall k :: 0 <= k < i ==> r[k] == Renormalized(cs)[k]
      invariant forall k :: i <= k < |cs| ==> r[k] == cs[k]
    {
      if sum > 0.0 {
        r := r[i := Child(r[i].node, Div(r[i].weight, sum))];
      } else {
        r := r[i := Child(r[i].node, even)];
      }
    }
  }

  /** Removing the target's leaf: direct leaves first, then each container
      child in turn. */
  method RemoveLeaf(c: Node, target: PaneId) returns (found: bool, hint: Option<PaneId>, r: Node)
    requires c.Container?
    ensures found <==> target in PaneIds(c)
    ensures found ==> r == RemoveIn(c, target) && hint == SiblingHint(c, target)
    ensures !found ==> r == c
    decreases c
  {
    var cs := c.children;
    var p := LeafPos(cs, target);
    if p < |cs| {
      IdsOfSplit(cs, p);
      if p > 0 {
        var ids := CollectPaneIds(cs[p - 1].node, []);
        hint := LastOf(ids);
      } else if p + 1 < |cs| {
        var ids := CollectPaneIds(cs[p + 1].node, []);
        hint := FirstOf(ids);
      } else {
        hint := None;
      }
      var rest := Renormalize(cs[..p] + cs[p + 1..]);
      return true, hint, Container(c.direction, rest);
    }
    for i := 0 to |cs|
      invariant forall j :: 0 <= j < i ==> target !in PaneIds(cs[j].node)
    {
      LeafPosFirst(cs, i, target);
      if cs[i].node.Container? {
        var inner, innerHint, sub := RemoveLeaf(cs[i].node, target);
        if inner {
          FindIs(cs, target, i);
          return true, innerHint, WithSubtree(c, i, sub);
        }
      }
    }
    NotInAny(cs, target);
    return false, None, c;
  }

  // ----- borders -----

  ghost function PrefixedBorder(path: seq<nat>, b: Option<BorderPath>): Option<BorderPath> {
    match b
    case None => None
    case Some(v) => Some(v.(path := path + v.path))
  }

  lemma PrefixedBorderEmpty(b: Option<BorderPath>)
    ensures PrefixedBorder([], b) == b
  {
    if b.Some? {
      assert [] + b.value.path == b.value.path;
    }
  }

  lemma PrefixedBorderStep(path: seq<nat>, i: nat, b: Option<BorderPath>)
    ensures PrefixedBorder(path + [i], b) == PrefixedBorder(path, PrefixedBorder([i], b))
  {
    if b.Some? {
      assert path + [i] + b.value.path == path + ([i] + b.value.path);
    }
  }

  method FindBorder(root: Node, pane: PaneId, neighbor: PaneId) returns (b: Option<BorderPath>)
    requires root.Container? && pane in PaneIds(root) && neighbor in PaneIds(root)
    ensures b == LocateBorder(root, pane, neighbor)
  {
    hide IdsOf;
    hide SharesBorder;
    var path: seq<nat> := [];
    var c := root;
    PrefixedBorderEmpty(LocateBorder(root, pane, neighbor));
    while true
      invariant c.Container? && pane in PaneIds(c) && neighbor in PaneIds(c)
      invariant PrefixedBorder(path, LocateBorder(c, pane, neighbor)) == LocateBorder(root, pane, neighbor)
      decreases c
    {
      var cs := c.children;
      var i, j := Find(cs, pane), Find(cs, neighbor);
      if i == j {
        if cs[i].node.Leaf? {
          return None;
        }
        PrefixedBorderStep(path, i, LocateBorder(cs[i].node, pane, neighbor));
        path := path + [i];
        c := cs[i].node;
      } else if (i != j + 1 && j != i + 1) || !SharesBorder(c.direction, cs, i, pane, j, neighbor) {
        return None;
      } else {
        assert path + [] == path;
        return Some(BorderPath(path, i, j));
      }
    }
  }

  /** Product of the weights along a path in containers of direction `axis`. */
  ghost function PathExtent(n: Node, path: seq<nat>, axis: SplitDirection): real
    requires ValidPath(n, path)
    decreases path
  {
    if path == [] then 1.0
    else
      var child := n.children[path[0]];
      if n.direction == axis then Mul(PathExtent(child.node, path[1..], axis), child.weight)
      else PathExtent(child.node, path[1..], axis)
  }

  lemma {:induction false} PathExtentIsLen(n: Node, path: seq<nat>, axis: SplitDirection)
    requires ValidPath(n, path)
    ensures PathExtent(n, path, axis) == Len(BoxAt(n, path), axis)
    decreases path
  {
    hide Mul;
    if path == [] {
    } else {
      hide Place, Offset, Len;
      var i := path[0];
      var c, box := n.children[i], BoxAt(n.children[i].node, path[1..]);
      PathExtentIsLen(c.node, path[1..], axis);
      PlaceLens(n.direction, Offset(n.children, i), c.weight, box, axis);
    }
  }

  /** The border container's axis and its extent, accumulated on both axes. */
  method BorderContainerExtent(root: Node, path: seq<nat>) returns (axis: SplitDirection, extent: real)
    requires ValidPath(root, path) && NodeAt(root, path).Container?
    ensures axis == NodeAt(root, path).direction
    ensures extent == Len(BoxAt(root, path), axis)
  {
    hide Mul;
    var width, height := 1.0, 1.0;
    var c := root;
    MulUnit(PathExtent(root, path, Horizontal));
    MulUnit(PathExtent(root, path, Vertical));
    for k := 0 to |path|
      invariant ValidPath(c, path[k..]) && NodeAt(c, path[k..]) == NodeAt(root, path)
      invariant Mul(PathExtent(c, path[k..], Horizontal), width) == PathExtent(root, path, Horizontal)
      invariant Mul(PathExtent(c, path[k..], Vertical), height) == PathExtent(root, path, Vertical)
    {
      assert path[k..][0] == path[k] && path[k..][1..] == path[k + 1..];
      var child := c.children[path[k]];
      match c.direction {
        case Horizontal =>
          MulAssociates(PathExtent(child.node, path[k + 1..], Horizontal), child.weight, width);
          MulCommutes(child.weight, width);
          width := Mul(width, child.weight);
        case Vertical =>
          MulAssociates(PathExtent(child.node, path[k + 1..], Vertical), child.weight, height);
          MulCommutes(child.weight, height);
          height := Mul(height, child.weight);
      }
      c := child.node;
    }
    MulUnit(width);
    MulUnit(height);
    PathExtentIsLen(root, path, Horizontal);
    PathExtentIsLen(root, path, Vertical);
    axis := c.direction;
    extent := match axis case Horizontal => width case Vertical => height;
  }

  /** Resizing by recursion is writing at the border's container. */
  lemma {:induction false} ResizeAtPath(n: Node, b: BorderPath, delta: real, minWeight: real)
    requires ValidBorder(n, b)
    ensures ResizeAt(n, b, delta, minWeight)
         == ReplaceAt(n, b.path, AdjustHere(NodeAt(n, b.path), b.paneIdx, b.neighborIdx, delta, minWeight))
    decreases b.path
  {
    hide AdjustHere;
    if b.path == [] {
    } else {
      ResizeAtPath(n.children[b.path[0]].node, b.(path := b.path[1..]), delta, minWeight);
    }
  }

  /** Clamping the delta and moving the weight between two siblings. */
  method AdjustBorder(border: Node, i: nat, j: nat, delta: real, minWeight: real) returns (r: Node)
    requires border.Container? && i < |border.children| && j < |border.children| && i != j
    ensures r == AdjustHere(border, i, j, delta, minWeight)
  {
    var cs := border.children;
    var floor := Max(minWeight, MIN_SIBLING_WEIGHT);
    var grow, shrink := cs[i].weight, cs[j].weight;
    var lo := -Max(grow - floor, 0.0);
    var hi := Max(shrink - floor, 0.0);
    var applied := Clamp(delta, lo, hi);
    cs := cs[i := Child(cs[i].node, cs[i].weight + applied)];
    cs := cs[j := Child(cs[j].node, cs[j].weight - applied)];
    assert cs == Moved(border.children, i, j, Applied(grow, shrink, delta, minWeight));
    hide Renormalized, Applied, Moved, Sum;
    cs := Renormalize(cs);
    r := Container(border.direction, cs);
  }

  method ResizeAtBorder(n: Node, pane: PaneId, neighbor: PaneId, delta: real, minWeight: real)
    returns (ok: bool, r: Node)
    requires n.Container? && pane in PaneIds(n) && neighbor in PaneIds(n) && minWeight >= 0.0
    ensures Step(r, if ok then Ok(Unit) else Err(NotAdjacentSiblings(pane, neighbor)))
         == ResizeOp(n, pane, neighbor, delta, minWeight)
  {
    hide LocateBorder;
    hide AdjustHere;
    var found := FindBorder(n, pane, neighbor);
    if found.None? {
      return false, n;
    }
    var b := found.value;
    LocatedIsValid(n, pane, neighbor);
    var border := Descend(n, b.path);
    var adjusted := AdjustBorder(border, b.paneIdx, b.neighborIdx, delta, minWeight);
    ResizeAtPath(n, b, delta, minWeight);
    return true, ReplaceAt(n, b.path, adjusted);
  }

  // ----- swapping -----

  method SwapLeaves(n: Node, a: PaneId, b: PaneId) returns (r: Node)
    ensures r == SwapTree(n, a, b)
    decreases n
  {
    match n
    case Leaf(id) =>
      r := if id == a then Leaf(b) else if id == b then Leaf(a) else n;
    case Container(d, cs) =>
      var children := cs;
      for i := 0 to |cs|
        invariant |children| == |cs|
        invariant forall k :: 0 <= k < i ==> children[k] == SwapAll(cs, a, b)[k]
        invariant forall k :: i <= k < |cs| ==> children[k] == cs[k]
      {
        var node := SwapLeaves(children[i].node, a, b);
        children := children[i := Child(node, children[i].weight)];
        SwapAllAt(cs, a, b, i);
      }
      assert children == SwapAll(cs, a, b);
      r := Container(d, children);
  }

  // ----- border extents -----

  ghost predicate BorderShared(n: Node, pane: PaneId, neighbor: PaneId) {
    n.Container? && pane in PaneIds(n) && neighbor in PaneIds(n) && LocateBorder(n, pane, neighbor).Some?
  }

  ghost function BorderError(n: Node, pane: PaneId, neighbor: PaneId): LayoutError {
    if pane !in PaneIds(n) then PaneNotFound(pane)
    else if neighbor !in PaneIds(n) then PaneNotFound(neighbor)
    else NotAdjacentSiblings(pane, neighbor)
  }

  /** The extents reported for a shared border, and the bounds they obey when weights sum to one. */
  ghost predicate ExtentsOf(n: Node, pane: PaneId, neighbor: PaneId, e: BorderExtents)
    requires BorderShared(n, pane, neighbor) && PaneRect(n, pane).Some?
  {
    var path := CommonPath(n, pane, neighbor);
    && e.axis == NodeAt(n, path).direction
    && e.paneExtent == Len(PaneRect(n, pane).value, e.axis)
    && e.containerExtent == Len(BoxAt(n, path), e.axis)
    && (SumsToOne(n) && Positive(n) ==> 0.0 < e.paneExtent <= e.containerExtent <= 1.0)
  }

  // ----- the tree object -----

  /** A tab's layout tree. Every method either performs its operation or
      leaves the tree untouched. */
  class LayoutTree {
    var root: Node

    constructor (id: PaneId)
      ensures root == Leaf(id) && Good(root)
    {
      root := Leaf(id);
    }

    method Split(target: PaneId, added: PaneId, d: SplitDirection) returns (r: LayoutResult<Unit>)
      modifies this
      ensures Step(root, r) == SplitOp(old(root), target, added, d)
      ensures old(Good(root)) ==> Good(root)
    {
      if Good(root) {
        SplitGood(root, target, added, d);
      }
      if Contains(root, added) {
        return Err(PaneAlreadyPresent(added));
      }
      if !Contains(root, target) {
        return Err(PaneNotFound(target));
      }
      root := SplitIn(root, target, added, d);
      return Ok(Unit);
    }

    method Close(target: PaneId) returns (r: LayoutResult<CloseOutcome>)
      modifies this
      ensures Step(root, r) == CloseOp(old(root), target)
      ensures old(Good(root)) ==> Good(root)
    {
      if Good(root) {
        CloseGood(root, target);
      }
      match root
      case Leaf(leaf) =>
        return if leaf == target then Ok(LastPane) else Err(PaneNotFound(target));
      case Container(_, _) =>
        var found, hint, tree := RemoveLeaf(root, target);
        if !found {
          return Err(PaneNotFound(target));
        }
        root := FlattenNode(tree);
        if hint.None? {
          var ids := CollectPaneIds(root, []);
          hint := FirstOf(ids);
        }
        return Ok(Removed(if hint.Some? then hint.value else target));
    }

    method Resize(pane: PaneId, neighbor: PaneId, delta: real, minWeight: real) returns (r: LayoutResult<Unit>)
      modifies this
      ensures Step(root, r) == ResizeOp(old(root), pane, neighbor, delta, minWeight)
      ensures old(Good(root)) ==> Good(root)
    {
      if Good(root) {
        ResizeGood(root, pane, neighbor, delta, minWeight);
      }
      if minWeight < 0.0 {
        return Err(InvalidResizeParam);
      }
      if !Contains(root, pane) {
        return Err(PaneNotFound(pane));
      }
      if !Contains(root, neighbor) {
        return Err(PaneNotFound(neighbor));
      }
      if root.Leaf? {
        return Err(NotAdjacentSiblings(pane, neighbor));
      }
      var ok, tree := ResizeAtBorder(root, pane, neighbor, delta, minWeight);
      if !ok {
        return Err(NotAdjacentSiblings(pane, neighbor));
      }
      root := tree;
      return Ok(Unit);
    }

    method Swap(a: PaneId, b: PaneId) returns (r: LayoutResult<Unit>)
      modifies this
      ensures Step(root, r) == SwapOp(old(root), a, b)
      ensures old(Good(root)) ==> Good(root)
    {
      if Good(root) {
        SwapGood(root, a, b);
      }
      if !Contains(root, a) {
        return Err(PaneNotFound(a));
      }
      if !Contains(root, b) {
        return Err(PaneNotFound(b));
      }
      root := SwapLeaves(root, a, b);
      return Ok(Unit);
    }

    method BorderExtentsOf(pane: PaneId, neighbor: PaneId) returns (r: LayoutResult<BorderExtents>)
      ensures r.Ok? <==> BorderShared(root, pane, neighbor)
      ensures r.Err? ==> r.error == BorderError(root, pane, neighbor)
      ensures r.Ok? ==> PaneRect(root, pane).Some? && ExtentsOf(root, pane, neighbor, r.value)
    {
      if !Contains(root, pane) {
        return Err(PaneNotFound(pane));
      }
      if !Contains(root, neighbor) {
        return Err(PaneNotFound(neighbor));
      }
      if root.Leaf? {
        return Err(NotAdjacentSiblings(pane, neighbor));
      }
      var found := FindBorder(root, pane, neighbor);
      if found.None? {
        return Err(NotAdjacentSiblings(pane, neighbor));
      }
      BorderAtCommonPath(root, pane, neighbor);
      RectPresence(root, pane);
      if SumsToOne(root) && Positive(root) {
        BorderExtentBounds(root, pane, neighbor);
      }
      var axis, containerExtent := BorderContainerExtent(root, found.value.path);
      var rect := FindRect(root, pane);
      var paneExtent := match axis
        case Horizontal => rect.value.x1 - rect.value.x0
        case Vertical => rect.value.y1 - rect.value.y0;
      return Ok(BorderExtents(axis, paneExtent, containerExtent));
    }

    method PreviewSplit(target: PaneId, d: SplitDirection) returns (r: LayoutResult<SplitPreview>)
      requires Positive(root)
      ensures r == if target in PaneIds(root) then Ok(Preview(root, target, d)) else Err(PaneNotFound(target))
    {
      if !Contains(root, target) {
        return Err(PaneNotFound(target));
      }
      var preview := SplitPreviewIn(root, target, d);
      return Ok(preview);
    }
  }
}
