/** Closing a pane: the survivors never shrink, everything outside the closed
    pane's container stays where it is, and closing undoes splitting.
 */
module Closes {
  import opened Layout
  import opened Geometry
  import opened Basics
  import opened Edits
  import opened Splits
  import opened Reals

  /** Weights scaled to sum to one; even weights when the sum is degenerate. */
  function Renormalized(cs: seq<Child>): (r: seq<Child>)
    ensures |r| == |cs|
    ensures forall i :: 0 <= i < |cs| ==> r[i].node == cs[i].node
  {
    if Sum(cs) > 0.0 then
      seq(|cs|, i requires 0 <= i < |cs| => Child(cs[i].node, Div(cs[i].weight, Sum(cs))))
    else
      seq(|cs|, i requires 0 <= i < |cs| => Child(cs[i].node, 1.0 / |cs| as real))
  }

  function Without(cs: seq<Child>, p: nat): seq<Child>
    requires p < |cs|
  {
    cs[..p] + cs[p + 1..]
  }

  /** The first child holding `t` is a container when no child is that leaf. */
  lemma HolderIsContainer(cs: seq<Child>, t: PaneId)
    requires t in IdsOf(cs) && LeafPos(cs, t) == |cs|
    ensures cs[Find(cs, t)].node.Container?
  {
    LeafPosFirst(cs, Find(cs, t), t);
  }

  /** The container with the leaf `t` removed and its weight shared out among
      its former siblings. */
  function RemoveIn(n: Node, t: PaneId): (r: Node)
    requires n.Container? && t in PaneIds(n)
    ensures r.Container? && r.direction == n.direction
    decreases n
  {
    var cs, p := n.children, LeafPos(n.children, t);
    if p < |cs| then Container(n.direction, Renormalized(Without(cs, p)))
    else
      HolderIsContainer(cs, t);
      WithSubtree(n, Find(cs, t), RemoveIn(cs[Find(cs, t)].node, t))
  }

  function CloseTree(n: Node, t: PaneId): Node
    requires n.Container? && t in PaneIds(n)
  {
    Flatten(RemoveIn(n, t))
  }

  function LastOf(ids: seq<PaneId>): Option<PaneId> {
    if ids == [] then None else Some(ids[|ids| - 1])
  }

  function FirstOf(ids: seq<PaneId>): Option<PaneId> {
    if ids == [] then None else Some(ids[0])
  }

  /** The nearest sibling pane: the last pane of the sibling before `t`, else
      the first pane of the sibling after it. */
  function SiblingHint(n: Node, t: PaneId): Option<PaneId>
    requires n.Container? && t in PaneIds(n)
    decreases n
  {
    var cs, p := n.children, LeafPos(n.children, t);
    if p < |cs| then
      if p > 0 then LastOf(PaneIds(cs[p - 1].node))
      else if p + 1 < |cs| then FirstOf(PaneIds(cs[p + 1].node))
      else None
    else
      HolderIsContainer(cs, t);
      SiblingHint(cs[Find(cs, t)].node, t)
  }

  // ----- renormalising -----

  lemma {:induction false} DividedSum(cs: seq<Child>, r: seq<Child>, k: real)
    requires k != 0.0 && |r| == |cs| && forall i :: 0 <= i < |cs| ==> r[i].weight == Div(cs[i].weight, k)
    ensures Sum(r) == Div(Sum(cs), k)
  {
    hide Div;
    if cs == [] {
      DivDistributes(0.0, 0.0, k);
    } else {
      DividedSum(cs[1..], r[1..], k);
      DivDistributes(cs[0].weight, Sum(cs[1..]), k);
    }
  }

  lemma RenormalizedSum(cs: seq<Child>)
    requires Sum(cs) > 0.0
    ensures Sum(Renormalized(cs)) == 1.0
  {
    hide Div;
    DividedSum(cs, Renormalized(cs), Sum(cs));
    DivDistributes(0.0, 0.0, Sum(cs));
  }

  /** Renormalising a list that already sums to one changes nothing. */
  lemma RenormalizedId(cs: seq<Child>)
    requires Sum(cs) == 1.0
    ensures Renormalized(cs) == cs
  {
    hide Div;
    forall i | 0 <= i < |cs| ensures Renormalized(cs)[i] == cs[i] {
      DivOne(cs[i].weight);
    }
  }

  lemma {:induction false} SameNodesIds(a: seq<Child>, b: seq<Child>)
    requires |a| == |b| && forall i :: 0 <= i < |a| ==> a[i].node == b[i].node
    ensures IdsOf(a) == IdsOf(b)
  {
    if a == [] {
    } else {
      SameNodesIds(a[1..], b[1..]);
    }
  }

  lemma WithoutSum(cs: seq<Child>, p: nat)
    requires p < |cs|
    ensures Sum(Without(cs, p)) == Sum(cs) - cs[p].weight
  {
    SumSplit(cs, p);
    SumAppend(cs[..p], cs[p + 1..]);
  }

  /** In a canonical container the remaining siblings keep a positive share. */
  lemma RemainingShare(n: Node, p: nat)
    requires Canonical(n) && n.Container? && p < |n.children|
    ensures 0.0 < Sum(Without(n.children, p)) == 1.0 - n.children[p].weight < 1.0
  {
    WithoutSum(n.children, p);
    SumPositive(Without(n.children, p));
  }

  // ----- canonical form and panes -----

  lemma {:induction false} RemoveValid(n: Node, t: PaneId)
    requires Canonical(n) && n.Container? && t in PaneIds(n)
    ensures SumsToOne(RemoveIn(n, t)) && Positive(RemoveIn(n, t))
    decreases n
  {
    hide Div;
    var cs, p := n.children, LeafPos(n.children, t);
    if p < |cs| {
      var rest := Without(cs, p);
      RemainingShare(n, p);
      RenormalizedSum(rest);
      forall i | 0 <= i < |rest| ensures Renormalized(rest)[i].weight > 0.0 {
        DivPositive(rest[i].weight, Sum(rest));
      }
    } else {
      HolderIsContainer(cs, t);
      var i := Find(cs, t);
      RemoveValid(cs[i].node, t);
      WithSubtreeValid(n, i, RemoveIn(cs[i].node, t));
    }
  }

  /** Closing a pane of a canonical tree leaves a canonical tree. */
  lemma CloseCanonical(n: Node, t: PaneId)
    requires Canonical(n) && n.Container? && t in PaneIds(n)
    ensures Canonical(CloseTree(n, t))
  {
    RemoveValid(n, t);
    FlattenCanonical(RemoveIn(n, t));
  }

  /** `ids` without `t`. */
  function Minus(ids: seq<PaneId>, t: PaneId): seq<PaneId> {
    if ids == [] then []
    else (if ids[0] == t then [] else [ids[0]]) + Minus(ids[1..], t)
  }

  lemma {:induction false} MinusAppend(a: seq<PaneId>, b: seq<PaneId>, t: PaneId)
    ensures Minus(a + b, t) == Minus(a, t) + Minus(b, t)
  {
    if a == [] {
      assert a + b == b;
    } else {
      assert (a + b)[1..] == a[1..] + b;
      MinusAppend(a[1..], b, t);
    }
  }

  lemma {:induction false} MinusAbsent(ids: seq<PaneId>, t: PaneId)
    requires t !in ids
    ensures Minus(ids, t) == ids
  {
    if ids == [] {
    } else {
      MinusAbsent(ids[1..], t);
    }
  }

  lemma {:induction false} MinusMembers(ids: seq<PaneId>, t: PaneId, q: PaneId)
    ensures q in Minus(ids, t) <==> q in ids && q != t
  {
    if ids == [] {
    } else {
      MinusMembers(ids[1..], t, q);
    }
  }

  lemma {:induction false} MinusNoDup(ids: seq<PaneId>, t: PaneId)
    requires NoDup(ids)
    ensures NoDup(Minus(ids, t))
  {
    if ids == [] {
    } else {
      assert ids == [ids[0]] + ids[1..];
      NoDupConcat([ids[0]], ids[1..]);
      assert ids[0] in [ids[0]];
      MinusNoDup(ids[1..], t);
      MinusMembers(ids[1..], t, ids[0]);
      NoDupConcat(if ids[0] == t then [] else [ids[0]], Minus(ids[1..], t));
    }
  }

  lemma MinusAt(a: seq<PaneId>, mid: seq<PaneId>, c: seq<PaneId>, t: PaneId)
    requires NoDup(a + mid + c) && t in mid
    ensures Minus(a + mid + c, t) == a + Minus(mid, t) + c
  {
    NoDupConcat(a + mid, c);
    NoDupConcat(a, mid);
    assert t in a + mid;
    MinusAbsent(a, t);
    MinusAbsent(c, t);
    MinusAppend(a + mid, c, t);
    MinusAppend(a, mid, t);
  }

  lemma MinusSelf(t: PaneId)
    ensures Minus([t], t) == []
  {
    assert [t][1..] == [];
  }

  lemma {:induction false} RemoveIds(n: Node, t: PaneId)
    requires n.Container? && t in PaneIds(n) && Unique(n)
    ensures PaneIds(RemoveIn(n, t)) == Minus(PaneIds(n), t)
    decreases n
  {
    hide Div;
    hide NoDup;
    var cs, p := n.children, LeafPos(n.children, t);
    if p < |cs| {
      var rest := Without(cs, p);
      SameNodesIds(Renormalized(rest), rest);
      IdsOfAppend(cs[..p], cs[p + 1..]);
      IdsOfSplit(cs, p);
      MinusAt(IdsOf(cs[..p]), [t], IdsOf(cs[p + 1..]), t);
      MinusSelf(t);
    } else {
      HolderIsContainer(cs, t);
      var i := Find(cs, t);
      KidsUnique(cs, i);
      RemoveIds(cs[i].node, t);
      WithChildIds(cs, i, RemoveIn(cs[i].node, t));
      IdsOfSplit(cs, i);
      MinusAt(IdsOf(cs[..i]), PaneIds(cs[i].node), IdsOf(cs[i + 1..]), t);
    }
  }

  /** Closing removes the target from the pane order and nothing else. */
  lemma CloseIds(n: Node, t: PaneId)
    requires n.Container? && t in PaneIds(n) && Unique(n)
    ensures PaneIds(CloseTree(n, t)) == Minus(PaneIds(n), t)
    ensures Unique(CloseTree(n, t))
  {
    RemoveIds(n, t);
    FlattenIds(RemoveIn(n, t));
    MinusNoDup(PaneIds(n), t);
  }

  // ----- the focus hint -----

  lemma {:induction false} HasPanes(n: Node)
    requires SumsToOne(n)
    ensures PaneIds(n) != []
    decreases n
  {
    if n.Leaf? {
    } else {
      HasPanes(n.children[0].node);
    }
  }

  /** `hint` is the pane directly before `t` in `ids`, or directly after it. */
  ghost predicate NextTo(ids: seq<PaneId>, t: PaneId, hint: PaneId) {
    exists k :: 0 <= k < |ids| && ids[k] == t
      && ((k > 0 && ids[k - 1] == hint) || (k + 1 < |ids| && ids[k + 1] == hint))
  }

  lemma NextToWithin(a: seq<PaneId>, mid: seq<PaneId>, c: seq<PaneId>, t: PaneId, hint: PaneId)
    requires NextTo(mid, t, hint)
    ensures NextTo(a + mid + c, t, hint)
  {
    var k :| 0 <= k < |mid| && mid[k] == t
      && ((k > 0 && mid[k - 1] == hint) || (k + 1 < |mid| && mid[k + 1] == hint));
    var ids := a + mid + c;
    assert ids[|a| + k] == t;
    assert k > 0 ==> ids[|a| + k - 1] == mid[k - 1];
    assert k + 1 < |mid| ==> ids[|a| + k + 1] == mid[k + 1];
  }

  lemma DirectHint(n: Node, t: PaneId)
    requires Canonical(n) && n.Container? && LeafPos(n.children, t) < |n.children| && t in PaneIds(n)
    ensures SiblingHint(n, t).Some? && NextTo(PaneIds(n), t, SiblingHint(n, t).value)
  {
    var cs, p := n.children, LeafPos(n.children, t);
    IdsOfSplit(cs, p);
    var a, c := IdsOf(cs[..p]), IdsOf(cs[p + 1..]);
    var ids := a + [t] + c;
    assert ids[|a|] == t;
    if p > 0 {
      HasPanes(cs[p - 1].node);
      IdsOfPrefix(cs, p);
      assert ids[|a| - 1] == a[|a| - 1] == PaneIds(cs[p - 1].node)[|PaneIds(cs[p - 1].node)| - 1];
    } else {
      HasPanes(cs[p + 1].node);
      assert cs[p + 1..][0] == cs[p + 1];
      assert ids[|a| + 1] == c[0];
    }
  }

  /** The hint of a canonical tree always exists and is adjacent to the closed
      pane in pane order. */
  lemma {:induction false} HintAdjacent(n: Node, t: PaneId)
    requires Canonical(n) && n.Container? && t in PaneIds(n)
    ensures SiblingHint(n, t).Some? && NextTo(PaneIds(n), t, SiblingHint(n, t).value)
    decreases n
  {
    var cs := n.children;
    if LeafPos(cs, t) < |cs| {
      DirectHint(n, t);
    } else {
      HolderIsContainer(cs, t);
      var i := Find(cs, t);
      HintAdjacent(cs[i].node, t);
      IdsOfSplit(cs, i);
      NextToWithin(IdsOf(cs[..i]), PaneIds(cs[i].node), IdsOf(cs[i + 1..]), t, SiblingHint(n, t).value);
    }
  }

  // ----- survivors' rectangles -----

  /** The container that holds `t` as a direct leaf. */
  function Owner(n: Node, t: PaneId): (m: Node)
    requires n.Container? && t in PaneIds(n)
    ensures m.Container? && LeafPos(m.children, t) < |m.children|
    decreases n
  {
    if LeafPos(n.children, t) < |n.children| then n
    else
      HolderIsContainer(n.children, t);
      Owner(n.children[Find(n.children, t)].node, t)
  }

  /** The share of its container that `t` holds. */
  function ShareOf(n: Node, t: PaneId): real
    requires n.Container? && t in PaneIds(n)
  {
    var m := Owner(n, t);
    m.children[LeafPos(m.children, t)].weight
  }

  lemma {:induction false} OwnerFacts(n: Node, t: PaneId)
    requires Canonical(n) && n.Container? && t in PaneIds(n)
    ensures Canonical(Owner(n, t)) && 0.0 < ShareOf(n, t) < 1.0
    ensures forall q :: q in PaneIds(Owner(n, t)) ==> q in PaneIds(n)
    decreases n
  {
    var cs := n.children;
    if LeafPos(cs, t) < |cs| {
      RemainingShare(n, LeafPos(cs, t));
    } else {
      HolderIsContainer(cs, t);
      OwnerFacts(cs[Find(cs, t)].node, t);
      IdsOfSplit(cs, Find(cs, t));
    }
  }

  lemma WithoutFind(cs: seq<Child>, p: nat, t: PaneId, q: PaneId)
    requires p < |cs| && cs[p].node == Leaf(t) && q in IdsOf(cs) && q != t
    ensures
      var j, r := Find(cs, q), Renormalized(Without(cs, p));
      var k := if j < p then j else j - 1;
      && 0 <= k < |r| && q in IdsOf(r) && Find(r, q) == k
      && r[k].node == cs[j].node && Without(cs, p)[k] == cs[j]
  {
    var j, r := Find(cs, q), Renormalized(Without(cs, p));
    var k := if j < p then j else j - 1;
    assert j != p;
    forall i | 0 <= i < k ensures q !in PaneIds(r[i].node) {
      assert r[i].node == cs[if i < p then i else i + 1].node;
    }
    FindIs(r, q, k);
  }

  /** The factor by which the closed pane's siblings grow. */
  function Growth(w: real): (k: real)
    requires 0.0 < w < 1.0
    ensures k > 1.0
  {
    assert 1.0 < 1.0 / (1.0 - w);
    Div(1.0, 1.0 - w)
  }

  lemma SiblingsGrow(n: Node, t: PaneId, q: PaneId)
    requires Canonical(n) && n.Container? && LeafPos(n.children, t) < |n.children|
    requires t in PaneIds(n) && q in PaneIds(n) && q != t
    requires 0.0 < ShareOf(n, t) < 1.0
    ensures Stretched(PaneRect(n, q), PaneRect(RemoveIn(n, t), q), n.direction, Growth(ShareOf(n, t)))
  {
    hide Mul;
    hide Div;
    hide Stretched;
    hide IdsOf;
    hide RectFrom;
    hide SumsToOne;
    hide Positive;
    hide Flat;
    var cs, p, j := n.children, LeafPos(n.children, t), Find(n.children, q);
    var m, rest := RemoveIn(n, t), Without(n.children, p);
    RemainingShare(n, p);
    WithoutFind(cs, p, t, q);
    var k := Find(m.children, q);
    PaneRectAt(n, q);
    PaneRectAt(m, q);
    DivIsMul(cs[j].weight, Sum(rest));
    assert m.children[k].weight == Div(rest[k].weight, Sum(rest));
    ReweightedSlot(n.direction, Offset(cs, j), cs[j].weight, Offset(m.children, k), Growth(ShareOf(n, t)),
                   PaneRect(cs[j].node, q).value);
  }

  /** What closing `t` does to another pane `q`: it grows by the freed share
      along the container's direction if it was in the same container, and
      keeps its rectangle otherwise. */
  ghost predicate SurvivesAs(n: Node, after: Node, t: PaneId, q: PaneId)
    requires n.Container? && t in PaneIds(n) && 0.0 < ShareOf(n, t) < 1.0
  {
    if q in PaneIds(Owner(n, t)) then
      Stretched(PaneRect(n, q), PaneRect(after, q), Owner(n, t).direction, Growth(ShareOf(n, t)))
    else
      PaneRect(after, q) == PaneRect(n, q)
  }

  lemma SurvivesInside(n: Node, i: nat, t: PaneId, q: PaneId)
    requires Canonical(n) && n.Container? && t in PaneIds(n) && q in PaneIds(n)
    requires LeafPos(n.children, t) == |n.children|
    requires i == Find(n.children, t) == Find(n.children, q) && n.children[i].node.Container?
    requires 0.0 < ShareOf(n, t) < 1.0
    requires SurvivesAs(n.children[i].node, RemoveIn(n.children[i].node, t), t, q)
    requires q in PaneIds(RemoveIn(n.children[i].node, t))
    ensures SurvivesAs(n, RemoveIn(n, t), t, q)
  {
    hide Mul;
    hide Div;
    hide Place;
    hide Stretched;
    var child := n.children[i].node;
    var sub := RemoveIn(child, t);
    var s, w := Offset(n.children, i), n.children[i].weight;
    PaneRectAt(n, q);
    RectWithin(n, i, sub, q);
    if q in PaneIds(Owner(n, t)) {
      PlaceStretched(n.direction, s, w, s, w, PaneRect(child, q).value, PaneRect(sub, q).value,
                     Owner(n, t).direction, Growth(ShareOf(n, t)));
    }
  }

  lemma {:induction false} RemoveSurvivors(n: Node, t: PaneId, q: PaneId)
    requires Canonical(n) && n.Container? && Unique(n)
    requires t in PaneIds(n) && q in PaneIds(n) && q != t
    ensures 0.0 < ShareOf(n, t) < 1.0
    ensures SurvivesAs(n, RemoveIn(n, t), t, q)
    decreases n
  {
    hide Mul;
    hide Div;
    hide Place;
    hide Stretched;
    OwnerFacts(n, t);
    var cs := n.children;
    if LeafPos(cs, t) < |cs| {
      SiblingsGrow(n, t, q);
    } else {
      HolderIsContainer(cs, t);
      var i, j := Find(cs, t), Find(cs, q);
      KidsUnique(cs, i);
      KidsUnique(cs, j);
      RemoveIds(cs[i].node, t);
      MinusMembers(PaneIds(cs[i].node), t, q);
      OwnerFacts(cs[i].node, t);
      if i == j {
        RemoveSurvivors(cs[i].node, t, q);
        SurvivesInside(n, i, t, q);
      } else {
        RectElsewhere(n, i, RemoveIn(cs[i].node, t), q);
      }
    }
  }

  /** Closing a pane: panes of its container grow by exactly its freed share
      along that container's direction; all other panes stay exactly where
      they are. */
  lemma CloseSurvivors(n: Node, t: PaneId, q: PaneId)
    requires Canonical(n) && n.Container? && Unique(n)
    requires t in PaneIds(n) && q in PaneIds(n) && q != t
    ensures 0.0 < ShareOf(n, t) < 1.0
    ensures SurvivesAs(n, CloseTree(n, t), t, q)
  {
    RemoveSurvivors(n, t, q);
    RemoveValid(n, t);
    FlattenRect(RemoveIn(n, t), q);
  }

  /** No survivor loses width or height. */
  lemma CloseNeverShrinks(n: Node, t: PaneId, q: PaneId, axis: SplitDirection)
    requires Canonical(n) && n.Container? && Unique(n)
    requires t in PaneIds(n) && q in PaneIds(n) && q != t
    ensures PaneRect(n, q).Some? && PaneRect(CloseTree(n, t), q).Some?
    ensures Len(PaneRect(CloseTree(n, t), q).value, axis) >= Len(PaneRect(n, q).value, axis)
  {
    hide Mul;
    hide Div;
    CloseSurvivors(n, t, q);
    RectInside(n, q);
    var d, k := Owner(n, t).direction, Growth(ShareOf(n, t));
    var l := Len(PaneRect(n, q).value, d);
    MulCommutes(l, k);
    MulOrder(1.0, k, l);
    MulUnit(l);
    assert axis == d || axis == Cross(d);
  }

  // ----- closing undoes splitting -----

  /** Flattening sees a child only through its own flattening. */
  lemma FlattenWithin(n: Node, i: nat, node: Node)
    requires n.Container? && i < |n.children|
    requires Flatten(node) == Flatten(n.children[i].node)
    ensures Flatten(WithSubtree(n, i, node)) == Flatten(n)
  {
    hide Mul;
    var d, cs, r := n.direction, n.children, WithChild(n.children, i, node);
    assert cs == cs[..i] + cs[i..] && r == cs[..i] + r[i..];
    SplicedAppend(d, cs[..i], cs[i..]);
    SplicedAppend(d, cs[..i], r[i..]);
    assert cs[i..][1..] == r[i..][1..];
  }

  lemma SplitIsContainer(n: Node, t: PaneId, added: PaneId, d: SplitDirection)
    requires t in PaneIds(n)
    ensures SplitTree(n, t, added, d).Container?
  {
  }

  lemma LeafPosIs(cs: seq<Child>, p: nat, t: PaneId)
    requires p <= |cs| && (p < |cs| ==> cs[p].node == Leaf(t))
    requires forall j :: 0 <= j < p ==> cs[j].node != Leaf(t)
    ensures LeafPos(cs, t) == p
  {
    if p < |cs| {
      LeafPosFirst(cs, p, t);
    }
  }

  /** A rule-one split followed by removal of the newcomer. */
  lemma RemoveInserted(n: Node, p: nat, t: PaneId, added: PaneId)
    requires Canonical(n) && n.Container? && p < |n.children|
    requires n.children[p].node == Leaf(t) && added !in PaneIds(n)
    ensures var m := Container(n.direction, Inserted(n.children, p, added));
      added in PaneIds(m) && RemoveIn(m, added) == n && SiblingHint(m, added) == Some(t)
  {
    hide Mul;
    hide Div;
    var cs, k := n.children, Shrink(n.children);
    var s, r := ScaledBy(cs, k), Inserted(cs, p, added);
    InsertedFindFresh(cs, p, added);
    InsertedSum(cs, p, added);
    assert r[p].node == Leaf(t);
    forall j | 0 <= j < p + 1 ensures r[j].node != Leaf(added) {}
    LeafPosIs(r, p + 1, added);
    assert Without(r, p + 1) == s;
    forall j | 0 <= j < |cs| ensures Renormalized(s)[j] == cs[j] {
      DivMul(cs[j].weight, k);
    }
    assert Renormalized(s) == cs;
  }

  /** A rule-two split followed by removal of the newcomer. */
  lemma RemoveHalved(t: PaneId, added: PaneId, d: SplitDirection)
    requires t != added
    ensures var m := Halved(t, added, d);
      added in PaneIds(m) && RemoveIn(m, added) == Container(d, [Child(Leaf(t), 1.0)])
      && SiblingHint(m, added) == Some(t)
  {
    hide Renormalized;
    hide IdsOf;
    hide Find;
    hide LeafPos;
    var m := Halved(t, added, d);
    HalvedIds(t, added, d);
    LeafPosIs(m.children, 1, added);
    assert Without(m.children, 1) == [Child(Leaf(t), 0.5)];
    OnlyChild(t);
    SingleId(t);
  }

  lemma SingleId(t: PaneId)
    ensures LastOf(PaneIds(Leaf(t))) == Some(t)
  {
  }

  lemma OnlyChild(t: PaneId)
    ensures Renormalized([Child(Leaf(t), 0.5)]) == [Child(Leaf(t), 1.0)]
  {
    hide Div;
    var rest := [Child(Leaf(t), 0.5)];
    assert rest[1..] == [];
    assert Sum(rest) == rest[0].weight + Sum(rest[1..]) == 0.5;
    DivDistributes(0.0, 0.0, 0.5);
    assert Renormalized(rest) == [Child(Leaf(t), 1.0)];
  }

  lemma FlattenSingle(d: SplitDirection, t: PaneId)
    ensures Flatten(Container(d, [Child(Leaf(t), 1.0)])) == Leaf(t)
  {
    hide Mul;
    var cs := [Child(Leaf(t), 1.0)];
    assert cs[1..] == [];
    assert Spliced(d, cs) == SpliceOne(d, Leaf(t), 1.0) + Spliced(d, cs[1..]) == cs;
  }

  lemma SplitRemoveInside(n: Node, i: nat, sub: Node, added: PaneId)
    requires n.Container? && i < |n.children| && added !in PaneIds(n)
    requires sub.Container? && added in PaneIds(sub)
    requires Flatten(RemoveIn(sub, added)) == Flatten(n.children[i].node)
    ensures var m := WithSubtree(n, i, sub);
      added in PaneIds(m) && Flatten(RemoveIn(m, added)) == Flatten(n)
      && SiblingHint(m, added) == SiblingHint(sub, added)
  {
    hide Mul;
    hide Div;
    var cs, r := n.children, WithChild(n.children, i, sub);
    forall j | 0 <= j < |cs| ensures added !in PaneIds(cs[j].node) {
      IdsOfSplit(cs, j);
    }
    forall j | 0 <= j < |r| ensures r[j].node != Leaf(added) {}
    FindIs(r, added, i);
    LeafPosIs(r, |r|, added);
    var rem := RemoveIn(sub, added);
    assert RemoveIn(WithSubtree(n, i, sub), added) == WithSubtree(n, i, rem) by {
      assert WithChild(r, i, rem) == WithChild(cs, i, rem);
    }
    FlattenWithin(n, i, rem);
  }

  lemma {:induction false} SplitRemove(n: Node, t: PaneId, added: PaneId, d: SplitDirection)
    requires Canonical(n) && Unique(n) && t in PaneIds(n) && added !in PaneIds(n)
    ensures var m := SplitTree(n, t, added, d);
      m.Container? && added in PaneIds(m) && Flatten(RemoveIn(m, added)) == n && SiblingHint(m, added) == Some(t)
    decreases n
  {
    hide Mul;
    hide Div;
    SplitIsContainer(n, t, added, d);
    match n
    case Leaf(_) =>
      RemoveHalved(t, added, d);
      FlattenSingle(d, t);
    case Container(dir, cs) =>
      FlattenFixes(n);
      if InsertsHere(dir, cs, t, d) {
        RemoveInserted(n, LeafPos(cs, t), t, added);
      } else {
        var i := Find(cs, t);
        KidsUnique(cs, i);
        IdsOfSplit(cs, i);
        SplitRemove(cs[i].node, t, added, d);
        FlattenFixes(cs[i].node);
        SplitRemoveInside(n, i, SplitTree(cs[i].node, t, added, d), added);
      }
  }

  /** Splitting a pane and closing the newcomer restores the very same tree,
      weights included, and hands focus back to the pane that was split. */
  lemma SplitThenClose(n: Node, t: PaneId, added: PaneId, d: SplitDirection)
    requires Canonical(n) && Unique(n) && t in PaneIds(n) && added !in PaneIds(n)
    ensures var m := SplitTree(n, t, added, d);
      m.Container? && added in PaneIds(m) && CloseTree(m, added) == n && SiblingHint(m, added) == Some(t)
  {
    SplitRemove(n, t, added, d);
  }
}
