/** Splitting a pane, and the preview that predicts it. */
module Splits {
  import opened Layout
  import opened Geometry
  import opened Basics
  import opened Borders
  import opened Edits
  import opened Reals

  /** Where a split inserts the newcomer. */
  datatype SplitSite =
    | Sibling(path: seq<nat>, targetPos: nat)
    | Halve(path: seq<nat>)

  datatype SplitPreview = SplitPreview(newPaneFraction: real, targetFraction: real, shrunkSiblings: seq<PaneId>)

  function Under(i: nat, site: SplitSite): SplitSite {
    match site
    case Sibling(path, pos) => Sibling([i] + path, pos)
    case Halve(path) => Halve([i] + path)
  }

  /** Whether a split in direction `d` inserts directly into this list. */
  predicate InsertsHere(dir: SplitDirection, cs: seq<Child>, t: PaneId, d: SplitDirection) {
    dir == d && LeafPos(cs, t) < |cs|
  }

  /** The nearest container of direction `d` holding `t` as a direct leaf,
      else the leaf itself. */
  function LocateSplitSite(n: Node, t: PaneId, d: SplitDirection): SplitSite
    requires t in PaneIds(n)
    decreases n
  {
    match n
    case Leaf(_) => Halve([])
    case Container(dir, cs) =>
      if InsertsHere(dir, cs, t, d) then Sibling([], LeafPos(cs, t))
      else Under(Find(cs, t), LocateSplitSite(cs[Find(cs, t)].node, t, d))
  }

  /** `n / (n + 1)` for a list of `n` children. */
  function Shrink(cs: seq<Child>): (k: real)
    ensures 0.0 <= k < 1.0 && k + NewShare(cs) == 1.0
    ensures cs != [] ==> k > 0.0
  {
    |cs| as real / (|cs| as real + 1.0)
  }

  /** `1 / (n + 1)` for a list of `n` children. */
  function NewShare(cs: seq<Child>): (k: real)
    ensures k > 0.0
  {
    1.0 / (|cs| as real + 1.0)
  }

  /** The children with `added` inserted after position `p` and everything
      else shrunk to make room. */
  function Inserted(cs: seq<Child>, p: nat, added: PaneId): (r: seq<Child>)
    requires p < |cs|
    ensures |r| == |cs| + 1
  {
    var s := ScaledBy(cs, Shrink(cs));
    s[..p + 1] + [Child(Leaf(added), NewShare(cs))] + s[p + 1..]
  }

  function Halved(t: PaneId, added: PaneId, d: SplitDirection): Node {
    Container(d, [Child(Leaf(t), 0.5), Child(Leaf(added), 0.5)])
  }

  /** The tree after splitting `t` in direction `d`. */
  function SplitTree(n: Node, t: PaneId, added: PaneId, d: SplitDirection): Node
    requires t in PaneIds(n)
    decreases n
  {
    match n
    case Leaf(_) => Halved(t, added, d)
    case Container(dir, cs) =>
      if InsertsHere(dir, cs, t, d) then Container(dir, Inserted(cs, LeafPos(cs, t), added))
      else WithSubtree(n, Find(cs, t), SplitTree(cs[Find(cs, t)].node, t, added, d))
  }

  function PreviewOf(cs: seq<Child>, p: nat): SplitPreview
    requires p < |cs| && cs[p].weight != 0.0
  {
    SplitPreview(Div(NewShare(cs), cs[p].weight), Shrink(cs), IdsOf(cs[..p] + cs[p + 1..]))
  }

  /** The extents a split will produce, as fractions of those before it. */
  function Preview(n: Node, t: PaneId, d: SplitDirection): SplitPreview
    requires t in PaneIds(n) && Positive(n)
    decreases n
  {
    match n
    case Leaf(_) => SplitPreview(0.5, 0.5, [])
    case Container(dir, cs) =>
      if InsertsHere(dir, cs, t, d) then PreviewOf(cs, LeafPos(cs, t))
      else Preview(cs[Find(cs, t)].node, t, d)
  }

  // ----- the inserted list -----

  /** The inserted list child by child. */
  lemma InsertedAt(cs: seq<Child>, p: nat, added: PaneId, j: nat)
    requires p < |cs| && j < |cs|
    ensures Inserted(cs, p, added)[p + 1] == Child(Leaf(added), NewShare(cs))
    ensures Inserted(cs, p, added)[if j <= p then j else j + 1] == Child(cs[j].node, Mul(cs[j].weight, Shrink(cs)))
  {
  }

  /** A pane already present is found at its shifted position. */
  lemma InsertedFind(cs: seq<Child>, p: nat, added: PaneId, q: PaneId)
    requires p < |cs| && q in IdsOf(cs) && q != added
    ensures var j := Find(cs, q);
      Find(Inserted(cs, p, added), q) == (if j <= p then j else j + 1) && q in IdsOf(Inserted(cs, p, added))
  {
    var r, j := Inserted(cs, p, added), Find(cs, q);
    var k := if j <= p then j else j + 1;
    InsertedAt(cs, p, added, j);
    forall i | 0 <= i < k ensures q !in PaneIds(r[i].node) {
      InsertedAt(cs, p, added, if i <= p then i else i - 1);
    }
    FindIs(r, q, k);
  }

  lemma InsertedFindFresh(cs: seq<Child>, p: nat, added: PaneId)
    requires p < |cs| && added !in IdsOf(cs)
    ensures Find(Inserted(cs, p, added), added) == p + 1 && added in IdsOf(Inserted(cs, p, added))
  {
    var r := Inserted(cs, p, added);
    forall i | 0 <= i < p + 1 ensures added !in PaneIds(r[i].node) {
      InsertedAt(cs, p, added, i);
      IdsOfSplit(cs, i);
    }
    InsertedAt(cs, p, added, 0);
    FindIs(r, added, p + 1);
  }

  lemma SumAround(a: seq<Child>, c: Child, b: seq<Child>)
    ensures Sum(a + [c] + b) == Sum(a + b) + c.weight
  {
    SumAppend(a + [c], b);
    SumAppend(a, [c]);
    SumAppend(a, b);
    assert [c][1..] == [];
  }

  lemma InsertedWeight(cs: seq<Child>, p: nat, added: PaneId)
    requires p < |cs|
    ensures Sum(Inserted(cs, p, added)) == Mul(Sum(cs), Shrink(cs)) + NewShare(cs)
  {
    hide Mul, Shrink, NewShare, Sum;
    var s := ScaledBy(cs, Shrink(cs));
    SumAround(s[..p + 1], Child(Leaf(added), NewShare(cs)), s[p + 1..]);
    assert s == s[..p + 1] + s[p + 1..];
    ScaledSum(cs, Shrink(cs));
  }

  lemma InsertedSum(cs: seq<Child>, p: nat, added: PaneId)
    requires p < |cs| && Sum(cs) == 1.0
    ensures Sum(Inserted(cs, p, added)) == 1.0
    ensures Sum(ScaledBy(cs, Shrink(cs))) == Shrink(cs)
  {
    hide Mul;
    InsertedWeight(cs, p, added);
    ScaledSum(cs, Shrink(cs));
    MulUnit(Shrink(cs));
  }

  // ----- the preview is exact -----

  /** How `after` relates to `before` when only the extent along `d` changes,
      by the factor `k`. */
  ghost predicate Stretched(before: Option<Rect>, after: Option<Rect>, d: SplitDirection, k: real) {
    && before.Some? && after.Some?
    && Len(after.value, d) == Mul(Len(before.value, d), k)
    && Lo(after.value, Cross(d)) == Lo(before.value, Cross(d))
    && Hi(after.value, Cross(d)) == Hi(before.value, Cross(d))
  }

  lemma PlaceStretched(
    dir: SplitDirection, s: real, w: real, s': real, w': real, a: Rect, b: Rect, d: SplitDirection, k: real)
    requires Stretched(Some(a), Some(b), d, k)
    requires s == s' && w == w'
    ensures Stretched(Some(Place(dir, s, w, a)), Some(Place(dir, s', w', b)), d, k)
  {
    hide Mul;
    PlaceLens(dir, s, w, a, d);
    PlaceLens(dir, s, w, b, d);
    PlaceLens(dir, s, w, a, Cross(d));
    PlaceLens(dir, s, w, b, Cross(d));
    MulAssociates(Len(a, d), k, w);
    MulAssociates(Len(a, d), w, k);
    MulCommutes(k, w);
  }

  /** The slot of one child re-weighted by `k` stretches its panes by `k`. */
  lemma ReweightedSlot(d: SplitDirection, s: real, w: real, s': real, k: real, r: Rect)
    ensures Stretched(Some(Place(d, s, w, r)), Some(Place(d, s', Mul(w, k), r)), d, k)
  {
    hide Mul;
    PlaceLens(d, s, w, r, Cross(d));
    PlaceLens(d, s', Mul(w, k), r, Cross(d));
    MulAssociates(Len(r, d), w, k);
  }

  lemma InsertedStretch(n: Node, p: nat, added: PaneId, q: PaneId)
    requires n.Container? && p < |n.children| && q in PaneIds(n) && q != added
    ensures Stretched(PaneRect(n, q), PaneRect(Container(n.direction, Inserted(n.children, p, added)), q),
                      n.direction, Shrink(n.children))
  {
    hide Mul;
    hide NewShare;
    hide Shrink;
    hide PaneRect;
    hide Place;
    hide IdsOf;
    hide Stretched;
    var cs, j := n.children, Find(n.children, q);
    var m := Container(n.direction, Inserted(cs, p, added));
    InsertedFind(cs, p, added, q);
    InsertedAt(cs, p, added, j);
    PaneRectAt(n, q);
    PaneRectAt(m, q);
    ReweightedSlot(n.direction, Offset(cs, j), cs[j].weight, Offset(m.children, Find(m.children, q)),
                   Shrink(cs), PaneRect(cs[j].node, q).value);
  }

  lemma InsertedFreshStretch(n: Node, p: nat, t: PaneId, added: PaneId)
    requires n.Container? && p < |n.children| && added !in PaneIds(n)
    requires n.children[p].node == Leaf(t) && n.children[p].weight > 0.0 && Find(n.children, t) == p && t in PaneIds(n)
    ensures Stretched(PaneRect(n, t), PaneRect(Container(n.direction, Inserted(n.children, p, added)), added),
                      n.direction, Div(NewShare(n.children), n.children[p].weight))
  {
    hide Mul;
    hide Div;
    hide NewShare;
    hide Shrink;
    var cs, w, share := n.children, n.children[p].weight, NewShare(n.children);
    var m := Container(n.direction, Inserted(cs, p, added));
    InsertedFindFresh(cs, p, added);
    InsertedAt(cs, p, added, p);
    PaneRectAt(n, t);
    PaneRectAt(m, added);
    DivMul(share, w);
    MulCommutes(w, Div(share, w));
    ReweightedSlot(n.direction, Offset(cs, p), w, Offset(m.children, p + 1), Div(share, w), UNIT);
  }

  /** The siblings that shrink are the other panes of the container. */
  lemma OthersOf(cs: seq<Child>, p: nat, q: PaneId)
    requires p < |cs| && NoDup(IdsOf(cs))
    ensures q in IdsOf(cs[..p] + cs[p + 1..]) <==> q in IdsOf(cs) && q !in PaneIds(cs[p].node)
  {
    IdsOfSplit(cs, p);
    IdsOfAppend(cs[..p], cs[p + 1..]);
    var a, b, c := IdsOf(cs[..p]), PaneIds(cs[p].node), IdsOf(cs[p + 1..]);
    NoDupConcat(a + b, c);
    NoDupConcat(a, b);
  }

  lemma {:induction false} ShrunkArePanes(n: Node, t: PaneId, d: SplitDirection, q: PaneId)
    requires t in PaneIds(n) && Positive(n) && Unique(n) && q in Preview(n, t, d).shrunkSiblings
    ensures q in PaneIds(n) && q != t
    decreases n
  {
    if n.Leaf? {
    } else {
      var cs := n.children;
      if InsertsHere(n.direction, cs, t, d) {
        OthersOf(cs, LeafPos(cs, t), q);
      } else {
        var i := Find(cs, t);
        KidsUnique(cs, i);
        ShrunkArePanes(cs[i].node, t, d, q);
        IdsOfSplit(cs, i);
      }
    }
  }

  /** The factor the preview predicts for a pane already in the tree. */
  ghost function Predicted(n: Node, t: PaneId, d: SplitDirection, q: PaneId): real
    requires t in PaneIds(n) && Positive(n)
  {
    if q == t || q in Preview(n, t, d).shrunkSiblings then Preview(n, t, d).targetFraction else 1.0
  }

  lemma Unstretched(r: Option<Rect>, d: SplitDirection)
    requires r.Some?
    ensures Stretched(r, r, d, 1.0)
  {
    hide Mul;
    MulUnit(Len(r.value, d));
  }

  lemma HalvedRects(t: PaneId, added: PaneId, d: SplitDirection)
    requires t != added
    ensures Find(Halved(t, added, d).children, t) == 0 && Find(Halved(t, added, d).children, added) == 1
    ensures t in PaneIds(Halved(t, added, d)) && added in PaneIds(Halved(t, added, d))
    ensures Stretched(Some(UNIT), PaneRect(Halved(t, added, d), t), d, 0.5)
    ensures Stretched(Some(UNIT), PaneRect(Halved(t, added, d), added), d, 0.5)
  {
    hide Mul;
    var m := Halved(t, added, d);
    FindIs(m.children, t, 0);
    FindIs(m.children, added, 1);
    PaneRectAt(m, t);
    PaneRectAt(m, added);
    MulUnit(0.5);
    ReweightedSlot(d, 0.0, 1.0, Offset(m.children, 0), 0.5, UNIT);
    ReweightedSlot(d, 0.0, 1.0, Offset(m.children, 1), 0.5, UNIT);
    PlaceUnit(d, UNIT);
  }

  /** What the preview promises about a pane `q` already in the tree. */
  ghost predicate Foreseen(n: Node, t: PaneId, added: PaneId, d: SplitDirection, q: PaneId)
    requires t in PaneIds(n) && Positive(n)
  {
    && Stretched(PaneRect(n, q), PaneRect(SplitTree(n, t, added, d), q), d, Predicted(n, t, d, q))
    && (q != t && q !in Preview(n, t, d).shrunkSiblings ==> PaneRect(SplitTree(n, t, added, d), q) == PaneRect(n, q))
  }

  lemma ForeseenInside(n: Node, i: nat, t: PaneId, added: PaneId, d: SplitDirection, q: PaneId)
    requires n.Container? && Positive(n) && t in PaneIds(n) && q in PaneIds(n)
    requires !InsertsHere(n.direction, n.children, t, d)
    requires i == Find(n.children, t) == Find(n.children, q)
    requires Foreseen(n.children[i].node, t, added, d, q)
    requires q in PaneIds(SplitTree(n.children[i].node, t, added, d))
    ensures Foreseen(n, t, added, d, q)
  {
    hide Mul;
    hide Stretched;
    hide Place;
    var child := n.children[i].node;
    var sub := SplitTree(child, t, added, d);
    var s, w := Offset(n.children, i), n.children[i].weight;
    PaneRectAt(n, q);
    RectWithin(n, i, sub, q);
    PlaceStretched(n.direction, s, w, s, w, PaneRect(child, q).value, PaneRect(sub, q).value, d, Predicted(n, t, d, q));
  }

  lemma ForeseenOutside(n: Node, t: PaneId, added: PaneId, d: SplitDirection, q: PaneId)
    requires n.Container? && Positive(n) && Unique(n) && t in PaneIds(n) && q in PaneIds(n)
    requires added !in PaneIds(n)
    requires !InsertsHere(n.direction, n.children, t, d)
    requires Find(n.children, t) != Find(n.children, q)
    ensures Foreseen(n, t, added, d, q)
  {
    hide Mul;
    hide Place;
    var cs, i := n.children, Find(n.children, t);
    KidsUnique(cs, i);
    KidsUnique(cs, Find(cs, q));
    if q in Preview(n, t, d).shrunkSiblings {
      ShrunkArePanes(cs[i].node, t, d, q);
    }
    SplitMembers(cs[i].node, t, added, d, q);
    RectElsewhere(n, i, SplitTree(cs[i].node, t, added, d), q);
    RectPresence(n, q);
    Unstretched(PaneRect(n, q), d);
  }

  /** The preview predicts the split exactly for every pane already present:
      the target and the listed siblings shrink by the target fraction along
      the split direction, and every other pane keeps its rectangle. */
  lemma {:induction false} PreviewIsExact(n: Node, t: PaneId, added: PaneId, d: SplitDirection, q: PaneId)
    requires Positive(n) && Unique(n)
    requires t in PaneIds(n) && added !in PaneIds(n) && q in PaneIds(n)
    ensures Foreseen(n, t, added, d, q)
    decreases n
  {
    hide Mul;
    hide Place;
    hide NewShare;
    hide Shrink;
    match n
    case Leaf(_) =>
      HalvedRects(t, added, d);
    case Container(dir, cs) =>
      if InsertsHere(dir, cs, t, d) {
        OthersOf(cs, LeafPos(cs, t), q);
        InsertedStretch(n, LeafPos(cs, t), added, q);
      } else if Find(cs, q) == Find(cs, t) {
        var i := Find(cs, t);
        KidsUnique(cs, i);
        IdsOfSplit(cs, i);
        PreviewIsExact(cs[i].node, t, added, d, q);
        SplitMembers(cs[i].node, t, added, d, q);
        ForeseenInside(n, i, t, added, d, q);
      } else {
        ForeseenOutside(n, t, added, d, q);
      }
  }

  /** What the preview promises about the newcomer. */
  ghost predicate ForeseenNewcomer(n: Node, t: PaneId, added: PaneId, d: SplitDirection)
    requires t in PaneIds(n) && Positive(n)
  {
    Stretched(PaneRect(n, t), PaneRect(SplitTree(n, t, added, d), added), d, Preview(n, t, d).newPaneFraction)
  }

  lemma NewcomerInside(n: Node, t: PaneId, added: PaneId, d: SplitDirection)
    requires n.Container? && Positive(n) && t in PaneIds(n) && added !in PaneIds(n)
    requires !InsertsHere(n.direction, n.children, t, d)
    requires ForeseenNewcomer(n.children[Find(n.children, t)].node, t, added, d)
    requires added in PaneIds(SplitTree(n.children[Find(n.children, t)].node, t, added, d))
    ensures ForeseenNewcomer(n, t, added, d)
  {
    hide Mul;
    hide Stretched;
    hide Place;
    var cs, i := n.children, Find(n.children, t);
    var child := cs[i].node;
    var sub := SplitTree(child, t, added, d);
    var s, w := Offset(cs, i), cs[i].weight;
    PaneRectAt(n, t);
    forall j | 0 <= j < i ensures added !in PaneIds(cs[j].node) {
      IdsOfSplit(cs, j);
    }
    RectWithin(n, i, sub, added);
    PlaceStretched(n.direction, s, w, s, w, PaneRect(child, t).value, PaneRect(sub, added).value, d,
                   Preview(n, t, d).newPaneFraction);
  }

  /** The newcomer's extent is the predicted fraction of the target's old
      one along the split direction, and the target's whole extent across. */
  lemma {:induction false} PreviewOfNewcomer(n: Node, t: PaneId, added: PaneId, d: SplitDirection)
    requires Positive(n) && Unique(n) && t in PaneIds(n) && added !in PaneIds(n)
    ensures ForeseenNewcomer(n, t, added, d)
    decreases n
  {
    hide Mul;
    hide Div;
    hide NewShare;
    hide Shrink;
    hide Place;
    hide Stretched;
    hide IdsOf;
    match n
    case Leaf(_) =>
      HalvedRects(t, added, d);
    case Container(dir, cs) =>
      if InsertsHere(dir, cs, t, d) {
        LeafPosIsFind(cs, t);
        InsertedFreshStretch(n, LeafPos(cs, t), t, added);
      } else {
        var i := Find(cs, t);
        KidsUnique(cs, i);
        IdsOfSplit(cs, i);
        PreviewOfNewcomer(cs[i].node, t, added, d);
        SplitMembers(cs[i].node, t, added, d, added);
        NewcomerInside(n, t, added, d);
      }
  }

  // ----- panes and canonical form -----

  /** `ids` with `added` inserted directly after every `t`. */
  function WithAfter(ids: seq<PaneId>, t: PaneId, added: PaneId): seq<PaneId> {
    if ids == [] then []
    else (if ids[0] == t then [t, added] else [ids[0]]) + WithAfter(ids[1..], t, added)
  }

  lemma {:induction false} WithAfterAppend(a: seq<PaneId>, b: seq<PaneId>, t: PaneId, added: PaneId)
    ensures WithAfter(a + b, t, added) == WithAfter(a, t, added) + WithAfter(b, t, added)
  {
    if a == [] {
      assert a + b == b;
    } else {
      assert (a + b)[1..] == a[1..] + b;
      WithAfterAppend(a[1..], b, t, added);
    }
  }

  lemma {:induction false} WithAfterAbsent(ids: seq<PaneId>, t: PaneId, added: PaneId)
    requires t !in ids
    ensures WithAfter(ids, t, added) == ids
  {
    if ids == [] {
    } else {
      WithAfterAbsent(ids[1..], t, added);
    }
  }

  lemma {:induction false} WithAfterMembers(ids: seq<PaneId>, t: PaneId, added: PaneId, q: PaneId)
    ensures q in WithAfter(ids, t, added) <==> q in ids || (q == added && t in ids)
  {
    if ids == [] {
    } else {
      WithAfterMembers(ids[1..], t, added, q);
    }
  }

  lemma {:induction false} WithAfterNoDup(ids: seq<PaneId>, t: PaneId, added: PaneId)
    requires NoDup(ids) && added !in ids
    ensures NoDup(WithAfter(ids, t, added))
  {
    if ids == [] {
    } else {
      var head, rest := if ids[0] == t then [t, added] else [ids[0]], WithAfter(ids[1..], t, added);
      assert ids == [ids[0]] + ids[1..];
      NoDupConcat([ids[0]], ids[1..]);
      assert ids[0] in [ids[0]];
      WithAfterNoDup(ids[1..], t, added);
      forall x | x in head ensures x !in rest {
        WithAfterMembers(ids[1..], t, added, x);
      }
      NoDupConcat(head, rest);
    }
  }

  /** Only the one occurrence of `t` is followed by the newcomer. */
  lemma WithAfterAt(a: seq<PaneId>, mid: seq<PaneId>, c: seq<PaneId>, t: PaneId, added: PaneId)
    requires NoDup(a + mid + c) && t in mid
    ensures WithAfter(a + mid + c, t, added) == a + WithAfter(mid, t, added) + c
  {
    NoDupConcat(a + mid, c);
    NoDupConcat(a, mid);
    assert t in a + mid;
    WithAfterAbsent(a, t, added);
    WithAfterAbsent(c, t, added);
    WithAfterAppend(a + mid, c, t, added);
    WithAfterAppend(a, mid, t, added);
  }

  lemma WithAfterSelf(t: PaneId, added: PaneId)
    ensures WithAfter([t], t, added) == [t, added]
  {
    assert [t][1..] == [];
  }

  lemma InsertedIds(cs: seq<Child>, p: nat, t: PaneId, added: PaneId)
    requires p < |cs| && cs[p].node == Leaf(t) && NoDup(IdsOf(cs))
    ensures IdsOf(Inserted(cs, p, added)) == WithAfter(IdsOf(cs), t, added)
  {
    hide Mul;
    hide IdsOf;
    hide WithAfter;
    hide NoDup;
    var s, r := ScaledBy(cs, Shrink(cs)), Inserted(cs, p, added);
    IdsOfSplit(r, p + 1);
    assert r[..p + 1] == s[..p + 1] && r[p + 2..] == s[p + 1..];
    IdsOfPrefix(s, p + 1);
    ScaledIds(cs, Shrink(cs));
    IdsOfSplit(s, p);
    WithAfterAt(IdsOf(s[..p]), [t], IdsOf(s[p + 1..]), t, added);
    WithAfterSelf(t, added);
  }

  lemma HalvedIds(t: PaneId, added: PaneId, d: SplitDirection)
    ensures PaneIds(Halved(t, added, d)) == [t, added]
  {
    var cs := Halved(t, added, d).children;
    var rest := [Child(Leaf(added), 0.5)];
    assert cs[1..] == rest;
    assert rest[1..] == [];
    assert IdsOf(rest) == PaneIds(rest[0].node) + IdsOf(rest[1..]) == [added];
    assert IdsOf(cs) == PaneIds(cs[0].node) + IdsOf(rest);
  }

  /** A split puts the newcomer directly after the target in pane order and
      changes nothing else in it. */
  lemma {:induction false} SplitIds(n: Node, t: PaneId, added: PaneId, d: SplitDirection)
    requires Unique(n) && t in PaneIds(n)
    ensures PaneIds(SplitTree(n, t, added, d)) == WithAfter(PaneIds(n), t, added)
    decreases n
  {
    match n
    case Leaf(_) =>
      HalvedIds(t, added, d);
      WithAfterSelf(t, added);
    case Container(dir, cs) =>
      if InsertsHere(dir, cs, t, d) {
        InsertedIds(cs, LeafPos(cs, t), t, added);
      } else {
        var i := Find(cs, t);
        KidsUnique(cs, i);
        SplitIds(cs[i].node, t, added, d);
        WithChildIds(cs, i, SplitTree(cs[i].node, t, added, d));
        IdsOfSplit(cs, i);
        WithAfterAt(IdsOf(cs[..i]), PaneIds(cs[i].node), IdsOf(cs[i + 1..]), t, added);
      }
  }

  lemma SplitMembers(n: Node, t: PaneId, added: PaneId, d: SplitDirection, q: PaneId)
    requires Unique(n) && t in PaneIds(n)
    ensures q in PaneIds(SplitTree(n, t, added, d)) <==> q in PaneIds(n) || q == added
  {
    SplitIds(n, t, added, d);
    WithAfterMembers(PaneIds(n), t, added, q);
  }

  lemma SplitUnique(n: Node, t: PaneId, added: PaneId, d: SplitDirection)
    requires Unique(n) && t in PaneIds(n) && added !in PaneIds(n)
    ensures Unique(SplitTree(n, t, added, d))
  {
    SplitIds(n, t, added, d);
    WithAfterNoDup(PaneIds(n), t, added);
  }

  lemma HalvedCanonical(t: PaneId, added: PaneId, d: SplitDirection)
    ensures Canonical(Halved(t, added, d))
  {
    var m := Halved(t, added, d);
    assert m.children[1..] == [Child(Leaf(added), 0.5)];
    assert Sum(m.children) == 0.5 + Sum(m.children[1..]);
  }

  lemma InsertedCanonical(n: Node, p: nat, added: PaneId)
    requires Canonical(n) && n.Container? && p < |n.children|
    ensures Canonical(Container(n.direction, Inserted(n.children, p, added)))
  {
    hide Mul;
    var r := Inserted(n.children, p, added);
    InsertedSum(n.children, p, added);
    forall i | 0 <= i < |r|
      ensures r[i].weight > 0.0 && Canonical(r[i].node) && !SameDirection(r[i].node, n.direction)
    {
      if i != p + 1 {
        var j := if i <= p then i else i - 1;
        InsertedAt(n.children, p, added, j);
        MulPositive(n.children[j].weight, Shrink(n.children));
      }
    }
  }

  /** A split keeps the tree canonical, and gives it the split's direction at
      the root only when it already had it or was a leaf. */
  lemma {:induction false} SplitCanonical(n: Node, t: PaneId, added: PaneId, d: SplitDirection)
    requires Canonical(n) && t in PaneIds(n)
    ensures Canonical(SplitTree(n, t, added, d))
    ensures n.Container? ==> SplitTree(n, t, added, d).Container? && SplitTree(n, t, added, d).direction == n.direction
    decreases n
  {
    match n
    case Leaf(_) =>
      HalvedCanonical(t, added, d);
    case Container(dir, cs) =>
      if InsertsHere(dir, cs, t, d) {
        InsertedCanonical(n, LeafPos(cs, t), added);
      } else {
        var i := Find(cs, t);
        SplitCanonical(cs[i].node, t, added, d);
        LeafPosFirst(cs, i, t);
        WithSubtreeCanonical(n, i, SplitTree(cs[i].node, t, added, d));
      }
  }

  /** The newcomer and the target are neighbours in the split's direction,
      the target first. */
  ghost predicate Beside(after: Node, t: PaneId, added: PaneId, d: SplitDirection) {
    && after.Container? && t in PaneIds(after) && added in PaneIds(after)
    && var b := LocateBorder(after, t, added);
    && b.Some? && b.value.neighborIdx == b.value.paneIdx + 1
    && NodeAt(after, CommonPath(after, t, added)).direction == d
  }

  lemma BesideAsLeaves(m: Node, p: nat, t: PaneId, added: PaneId)
    requires m.Container? && t in PaneIds(m) && added in PaneIds(m)
    requires p + 1 < |m.children| && m.children[p].node == Leaf(t) && m.children[p + 1].node == Leaf(added)
    requires Find(m.children, t) == p && Find(m.children, added) == p + 1
    ensures Beside(m, t, added, m.direction)
  {
  }

  lemma BesideWithin(n: Node, i: nat, sub: Node, t: PaneId, added: PaneId, d: SplitDirection)
    requires n.Container? && i < |n.children| && Beside(sub, t, added, d)
    requires forall j :: 0 <= j < i ==> t !in PaneIds(n.children[j].node) && added !in PaneIds(n.children[j].node)
    ensures Beside(WithSubtree(n, i, sub), t, added, d)
  {
    var after := WithSubtree(n, i, sub);
    FindIs(after.children, t, i);
    FindIs(after.children, added, i);
    assert CommonPath(after, t, added)[1..] == CommonPath(sub, t, added);
  }

  /** The newcomer ends up directly beside the target: the two share a border
      in the split's direction, with the target first. */
  lemma {:induction false} NewcomerBordersTarget(n: Node, t: PaneId, added: PaneId, d: SplitDirection)
    requires Unique(n) && t in PaneIds(n) && added !in PaneIds(n)
    ensures Beside(SplitTree(n, t, added, d), t, added, d)
    decreases n
  {
    hide Beside;
    hide Mul;
    hide IdsOf;
    hide NoDup;
    match n
    case Leaf(_) =>
      HalvedRects(t, added, d);
      BesideAsLeaves(Halved(t, added, d), 0, t, added);
    case Container(dir, cs) =>
      if InsertsHere(dir, cs, t, d) {
        var p := LeafPos(cs, t);
        LeafPosIsFind(cs, t);
        InsertedFind(cs, p, added, t);
        InsertedFindFresh(cs, p, added);
        InsertedAt(cs, p, added, p);
        BesideAsLeaves(SplitTree(n, t, added, d), p, t, added);
      } else {
        var i := Find(cs, t);
        KidsUnique(cs, i);
        IdsOfSplit(cs, i);
        NewcomerBordersTarget(cs[i].node, t, added, d);
        forall j | 0 <= j < i ensures added !in PaneIds(cs[j].node) {
          IdsOfSplit(cs, j);
        }
        BesideWithin(n, i, SplitTree(cs[i].node, t, added, d), t, added, d);
      }
  }
}
