/** What the operations on a tree mean to someone who sees only rectangles, weights and the pane order: the
    shares a split gives, the pane a close hands focus to, how far a resize goes and which pane it grows, and
    which error is reported.
 */
module Effects {
  import opened Layout
  import opened Geometry
  import opened Basics
  import opened Borders
  import opened Edits
  import opened Splits
  import opened Closes
  import opened Resizes
  import opened LayoutOps
  import opened Reals

  // ----- split: equal shares -----

  /** `after` is `before` with a leaf `added` at position `p + 1`: it holds one part in n + 1, and each of the
      n old children n parts of its weight in n + 1. */
  ghost predicate SharedOut(before: seq<Child>, after: seq<Child>, p: nat, added: PaneId) {
    var n := |before| as real;
    && p < |before| && |after| == |before| + 1
    && after[p + 1].node == Leaf(added) && Mul(after[p + 1].weight, n + 1.0) == 1.0
    && forall j :: 0 <= j < |before| ==>
         var k := if j <= p then j else j + 1;
         after[k].node == before[j].node && Mul(after[k].weight, n + 1.0) == Mul(before[j].weight, n)
  }

  lemma InsertedShares(cs: seq<Child>, p: nat, added: PaneId)
    requires p < |cs|
    ensures SharedOut(cs, Inserted(cs, p, added), p, added)
  {
    var r, n := Inserted(cs, p, added), |cs| as real;
    PartsInAll(cs);
    hide Mul, NewShare, Shrink, Inserted;
    InsertedAt(cs, p, added, p);
    forall j | 0 <= j < |cs|
      ensures var k := if j <= p then j else j + 1;
        r[k].node == cs[j].node && Mul(r[k].weight, n + 1.0) == Mul(cs[j].weight, n)
    {
      InsertedAt(cs, p, added, j);
      MulAssociates(cs[j].weight, Shrink(cs), n + 1.0);
    }
  }

  lemma PartsInAll(cs: seq<Child>)
    ensures Mul(NewShare(cs), |cs| as real + 1.0) == 1.0 && Mul(Shrink(cs), |cs| as real + 1.0) == |cs| as real
  {
  }

  /** Where the newcomer of a split stands: directly after the target in a container of the split's direction,
      whose n children give it one n-th. If the target's own container had that direction it is that one, with
      room made in equal parts; otherwise it is a new one around the two, half and half. */
  ghost predicate Shares(n: Node, after: Node, t: PaneId, added: PaneId, d: SplitDirection)
    requires t in PaneIds(n)
  {
    && after.Container? && added in PaneIds(after)
    && var m := Owner(after, added);
    && var p := LeafPos(m.children, added);
    && m.direction == d && p > 0 && m.children[p - 1].node == Leaf(t) && Find(m.children, added) == p
    && Mul(m.children[p].weight, |m.children| as real) == 1.0
    && (if n.Container? && Owner(n, t).direction == d
        then SharedOut(Owner(n, t).children, m.children, p - 1, added)
        else m.children == [Child(Leaf(t), 0.5), Child(Leaf(added), 0.5)])
  }

  lemma {:induction false} SplitShares(n: Node, t: PaneId, added: PaneId, d: SplitDirection)
    requires Unique(n) && t in PaneIds(n) && added !in PaneIds(n)
    ensures Shares(n, SplitTree(n, t, added, d), t, added, d)
    decreases n
  {
    hide Shares, Inserted, NoDup;
    match n
    case Leaf(_) =>
      HalvedShares(t, added, d);
    case Container(dir, cs) =>
      if InsertsHere(dir, cs, t, d) {
        SharesHere(n, t, added);
      } else {
        var i := Find(cs, t);
        KidsUnique(cs, i);
        IdsOfSplit(cs, i);
        SplitShares(cs[i].node, t, added, d);
        SharesBelow(n, t, added, d);
      }
  }

  lemma HalvedShares(t: PaneId, added: PaneId, d: SplitDirection)
    requires t != added
    ensures Shares(Leaf(t), Halved(t, added, d), t, added, d)
  {
    hide Mul, PaneRect, Stretched, SharedOut;
    HalvedRects(t, added, d);
    LeafPosIs(Halved(t, added, d).children, 1, added);
    TwoHalves();
  }

  lemma TwoHalves()
    ensures Mul(0.5, 2.0) == 1.0
  {
  }

  lemma SharesHere(n: Node, t: PaneId, added: PaneId)
    requires n.Container? && Unique(n) && t in PaneIds(n) && added !in PaneIds(n)
    requires LeafPos(n.children, t) < |n.children|
    ensures Shares(n, SplitTree(n, t, added, n.direction), t, added, n.direction)
  {
    hide Mul, NewShare, Shrink, Inserted;
    var cs, p := n.children, LeafPos(n.children, t);
    var r := Inserted(cs, p, added);
    InsertedShares(cs, p, added);
    InsertedFindFresh(cs, p, added);
    forall j | 0 <= j < p + 1 ensures r[j].node != Leaf(added) {
      assert added !in PaneIds(r[j].node);
    }
    LeafPosIs(r, p + 1, added);
    assert r[p].node == cs[p].node;
  }

  /** A pane that only the new subtree holds has its container there. */
  lemma OwnerBelow(n: Node, i: nat, sub: Node, added: PaneId)
    requires n.Container? && i < |n.children| && added !in PaneIds(n) && sub.Container? && added in PaneIds(sub)
    ensures var after := WithSubtree(n, i, sub);
      after.Container? && added in PaneIds(after) && Owner(after, added) == Owner(sub, added)
  {
    assert added !in IdsOf(n.children);
    var r := WithChild(n.children, i, sub);
    hide IdsOf, NoDup;
    forall j | 0 <= j < |r| && j != i ensures added !in PaneIds(r[j].node) {
      IdsOfSplit(n.children, j);
    }
    forall j | 0 <= j < |r| ensures r[j].node != Leaf(added) {
      if j != i {
        SelfHeld(r[j].node, added);
      }
    }
    FindIs(r, added, i);
    LeafPosIs(r, |r|, added);
  }

  lemma SelfHeld(m: Node, t: PaneId)
    ensures m == Leaf(t) ==> t in PaneIds(m)
  {
  }

  lemma SharesBelow(n: Node, t: PaneId, added: PaneId, d: SplitDirection)
    requires n.Container? && Unique(n) && t in PaneIds(n) && added !in PaneIds(n)
    requires !InsertsHere(n.direction, n.children, t, d)
    requires var child := n.children[Find(n.children, t)].node;
      Shares(child, SplitTree(child, t, added, d), t, added, d)
    ensures Shares(n, SplitTree(n, t, added, d), t, added, d)
  {
    var cs, i := n.children, Find(n.children, t);
    var child := cs[i].node;
    var sub := SplitTree(child, t, added, d);
    assert SplitTree(n, t, added, d) == WithSubtree(n, i, sub);
    hide SharedOut, SplitTree, NoDup, Mul;
    OwnerBelow(n, i, sub, added);
    if LeafPos(cs, t) < |cs| {
      LeafPosIsFind(cs, t);
    }
  }

  /** The newcomer's extent in its container: one n-th along the split, all of it across. */
  lemma NewcomerExtent(n: Node, t: PaneId, added: PaneId, d: SplitDirection)
    requires Unique(n) && t in PaneIds(n) && added !in PaneIds(n)
    ensures var after := SplitOp(n, t, added, d).tree;
      && after.Container? && added in PaneIds(after)
      && var m := Owner(after, added);
      && PaneRect(m, added).Some?
      && Mul(Len(PaneRect(m, added).value, d), |m.children| as real) == 1.0
      && Lo(PaneRect(m, added).value, Cross(d)) == 0.0 && Hi(PaneRect(m, added).value, Cross(d)) == 1.0
  {
    hide SharedOut, SplitTree, Owner, PaneRect, Sum, Mul, NoDup;
    SplitShares(n, t, added, d);
    LeafInOwner(SplitTree(n, t, added, d), added);
  }

  /** A leaf's slot in its container is as wide as its weight. */
  lemma LeafInOwner(n: Node, t: PaneId)
    requires n.Container? && t in PaneIds(n)
    requires Find(Owner(n, t).children, t) == LeafPos(Owner(n, t).children, t)
    ensures var m := Owner(n, t);
      && PaneRect(m, t).Some? && Len(PaneRect(m, t).value, m.direction) == m.children[LeafPos(m.children, t)].weight
      && Lo(PaneRect(m, t).value, Cross(m.direction)) == 0.0 && Hi(PaneRect(m, t).value, Cross(m.direction)) == 1.0
  {
    var m := Owner(n, t);
    hide Owner, PaneRect, Sum, IdsOf;
    SlotEquation(m, t);
    SlotEquation(Leaf(t), t);
  }

  lemma {:induction false} ShrunkInOwner(n: Node, t: PaneId, d: SplitDirection, q: PaneId)
    requires t in PaneIds(n) && Positive(n) && Unique(n) && q in Preview(n, t, d).shrunkSiblings
    ensures n.Container? && q in PaneIds(Owner(n, t))
    decreases n
  {
    var cs := n.children;
    if InsertsHere(n.direction, cs, t, d) {
      OthersOf(cs, LeafPos(cs, t), q);
    } else {
      var i := Find(cs, t);
      KidsUnique(cs, i);
      if LeafPos(cs, t) < |cs| {
        LeafPosIsFind(cs, t);
      }
      ShrunkInOwner(cs[i].node, t, d, q);
    }
  }

  lemma OthersInOrder(cs: seq<Child>, p: nat, t: PaneId)
    requires p < |cs| && cs[p].node == Leaf(t) && NoDup(IdsOf(cs))
    ensures IdsOf(cs[..p] + cs[p + 1..]) == Minus(IdsOf(cs), t)
  {
    hide IdsOf, NoDup, Minus;
    IdsOfSplit(cs, p);
    IdsOfAppend(cs[..p], cs[p + 1..]);
    MinusAt(IdsOf(cs[..p]), [t], IdsOf(cs[p + 1..]), t);
    MinusSelf(t);
  }

  /** The siblings a preview lists are the other panes of the target's container, in pane order; none when the
      target's place is halved. */
  lemma {:induction false} PreviewLists(n: Node, t: PaneId, d: SplitDirection)
    requires t in PaneIds(n) && Positive(n) && Unique(n)
    ensures Preview(n, t, d).shrunkSiblings ==
      if n.Container? && Owner(n, t).direction == d then Minus(PaneIds(Owner(n, t)), t) else []
    decreases n
  {
    if n.Container? {
      var cs := n.children;
      if LeafPos(cs, t) < |cs| {
        PreviewListsHere(n, t, d);
      } else {
        hide NoDup, Minus, Div, NewShare, Shrink;
        KidsUnique(cs, Find(cs, t));
        HolderIsContainer(cs, t);
        PreviewLists(cs[Find(cs, t)].node, t, d);
      }
    }
  }

  lemma PreviewListsHere(n: Node, t: PaneId, d: SplitDirection)
    requires n.Container? && t in PaneIds(n) && LeafPos(n.children, t) < |n.children| && Positive(n) && Unique(n)
    ensures Preview(n, t, d).shrunkSiblings == if n.direction == d then Minus(PaneIds(n), t) else []
  {
    hide NoDup, Minus, Div, NewShare, Shrink;
    LeafPosIsFind(n.children, t);
    OthersInOrder(n.children, LeafPos(n.children, t), t);
    hide IdsOf;
  }

  /** A split moves no pane outside the target's container. */
  lemma SplitElsewhere(n: Node, t: PaneId, added: PaneId, d: SplitDirection, q: PaneId)
    requires Good(n) && t in PaneIds(n) && added !in PaneIds(n) && q in PaneIds(n) && q != t
    requires n.Container? ==> q !in PaneIds(Owner(n, t))
    ensures PaneRect(SplitTree(n, t, added, d), q) == PaneRect(n, q)
  {
    hide Stretched, PaneRect, SplitTree, Preview, Owner, Positive, NoDup;
    PreviewIsExact(n, t, added, d, q);
    if q in Preview(n, t, d).shrunkSiblings {
      ShrunkInOwner(n, t, d, q);
    }
  }

  // ----- close: which pane gets the focus -----

  /** `x` stands directly before `y`. */
  ghost predicate DirectlyBefore(ids: seq<PaneId>, x: PaneId, y: PaneId) {
    exists k :: 0 <= k < |ids| - 1 && ids[k] == x && ids[k + 1] == y
  }

  lemma BeforeWithin(a: seq<PaneId>, mid: seq<PaneId>, c: seq<PaneId>, x: PaneId, y: PaneId)
    requires DirectlyBefore(mid, x, y)
    ensures DirectlyBefore(a + mid + c, x, y)
  {
    var k :| 0 <= k < |mid| - 1 && mid[k] == x && mid[k + 1] == y;
    var ids := a + mid + c;
    assert ids[|a| + k] == x && ids[|a| + k + 1] == y;
  }

  /** The pane directly before the closed one in pane order, unless that one comes first in its container;
      then the pane directly after it. */
  ghost predicate HintFor(n: Node, t: PaneId, hint: PaneId)
    requires n.Container? && t in PaneIds(n)
  {
    if LeafPos(Owner(n, t).children, t) > 0 then DirectlyBefore(PaneIds(n), hint, t)
    else DirectlyBefore(PaneIds(n), t, hint)
  }

  lemma HintBefore(n: Node, t: PaneId)
    requires Canonical(n) && n.Container? && t in PaneIds(n) && 0 < LeafPos(n.children, t) < |n.children|
    ensures SiblingHint(n, t).Some? && DirectlyBefore(PaneIds(n), SiblingHint(n, t).value, t)
  {
    hide IdsOf, Sum;
    var cs, p := n.children, LeafPos(n.children, t);
    var a, c, last := IdsOf(cs[..p]), IdsOf(cs[p + 1..]), PaneIds(cs[p - 1].node);
    IdsOfSplit(cs, p);
    HasPanes(cs[p - 1].node);
    IdsOfPrefix(cs, p);
    var ids := a + [t] + c;
    assert a[|a| - 1] == last[|last| - 1];
    assert ids[|a| - 1] == a[|a| - 1] && ids[|a| - 1 + 1] == t;
  }

  lemma HintAfter(n: Node, t: PaneId)
    requires Canonical(n) && n.Container? && t in PaneIds(n) && LeafPos(n.children, t) == 0
    ensures SiblingHint(n, t).Some? && DirectlyBefore(PaneIds(n), t, SiblingHint(n, t).value)
  {
    var cs := n.children;
    assert |cs| >= 2 && cs[0].node == Leaf(t);
    hide IdsOf, Sum;
    var c := IdsOf(cs[1..]);
    IdsOfHead(cs);
    HasPanes(cs[1].node);
    IdsOfHead(cs[1..]);
    assert cs[1..][0] == cs[1];
    var ids := [t] + c;
    assert ids[0] == t && ids[0 + 1] == c[0];
  }

  lemma {:induction false} HintPrefersBefore(n: Node, t: PaneId)
    requires Canonical(n) && n.Container? && t in PaneIds(n)
    ensures SiblingHint(n, t).Some? && HintFor(n, t, SiblingHint(n, t).value)
    decreases n
  {
    hide DirectlyBefore;
    var cs, p := n.children, LeafPos(n.children, t);
    if p == 0 {
      HintAfter(n, t);
    } else if p < |cs| {
      HintBefore(n, t);
    } else {
      HolderIsContainer(cs, t);
      var i := Find(cs, t);
      var child := cs[i].node;
      HintPrefersBefore(child, t);
      IdsOfSplit(cs, i);
      var hint := SiblingHint(child, t).value;
      if LeafPos(Owner(child, t).children, t) > 0 {
        BeforeWithin(IdsOf(cs[..i]), PaneIds(child), IdsOf(cs[i + 1..]), hint, t);
      } else {
        BeforeWithin(IdsOf(cs[..i]), PaneIds(child), IdsOf(cs[i + 1..]), t, hint);
      }
    }
  }

  /** What a close reports: the last pane of a tree, or the pane that gets the focus. On a tree that is not
      well formed there may be no pane to prefer; then it is the first one left, if any. */
  lemma CloseHints(n: Node, t: PaneId)
    requires t in PaneIds(n)
    ensures var s := CloseOp(n, t);
      && s.result.Ok?
      && (s.result == Ok(LastPane) <==> n == Leaf(t))
      && (Canonical(n) && n != Leaf(t) ==> s.result.value.Removed? && HintFor(n, t, s.result.value.focusHint))
      && (n != Leaf(t) && SiblingHint(n, t).None? ==>
            s.result == Ok(Removed(if PaneIds(s.tree) == [] then t else PaneIds(s.tree)[0])))
  {
    if n.Container? && Canonical(n) {
      HintPrefersBefore(n, t);
    }
  }

  // ----- resize: how far, and for whom -----

  /** The two panes and their border before and after: the border moved by `a` of the extent of their lowest
      common container, away from `p` when `a` is positive, so that `p` gains and `q` loses along it, and
      nothing changed across it. */
  ghost predicate Dragged(n: Node, after: Node, p: PaneId, q: PaneId, a: real)
    requires n.Container? && p in PaneIds(n) && q in PaneIds(n)
  {
    var path := CommonPath(n, p, q);
    var d := NodeAt(n, path).direction;
    var e := Mul(a, Len(BoxAt(n, path), d));
    && PaneRect(n, p).Some? && PaneRect(n, q).Some? && PaneRect(after, p).Some? && PaneRect(after, q).Some?
    && var P, Q := PaneRect(n, p).value, PaneRect(n, q).value;
    && var P', Q' := PaneRect(after, p).value, PaneRect(after, q).value;
    && (if Lo(P, d) < Lo(Q, d) then Hi(P, d) == Lo(Q, d) && Hi(P', d) == Lo(Q', d) == Hi(P, d) + e
        else Lo(P, d) == Hi(Q, d) && Lo(P', d) == Hi(Q', d) == Lo(P, d) - e)
    && (a >= 0.0 ==> Len(P', d) >= Len(P, d) && Len(Q', d) <= Len(Q, d))
    && (a <= 0.0 ==> Len(P', d) <= Len(P, d) && Len(Q', d) >= Len(Q, d))
    && Lo(P', Cross(d)) == Lo(P, Cross(d)) && Hi(P', Cross(d)) == Hi(P, Cross(d))
    && Lo(Q', Cross(d)) == Lo(Q, Cross(d)) && Hi(Q', Cross(d)) == Hi(Q, Cross(d))
  }

  lemma WeightAt(m: Node, i: nat)
    requires Canonical(m) && m.Container? && i < |m.children|
    ensures m.children[i].weight > 0.0
  {
  }

  lemma {:induction false} UniqueAt(n: Node, path: seq<nat>)
    requires ValidPath(n, path) && Unique(n)
    ensures Unique(NodeAt(n, path))
    decreases path
  {
    if path == [] {
    } else {
      KidsUnique(n.children, path[0]);
      UniqueAt(n.children[path[0]].node, path[1..]);
    }
  }

  /** The two panes stand on either side of their border. */
  lemma SidesOf(n: Node, p: PaneId, q: PaneId)
    requires n.Container? && Unique(n) && p in PaneIds(n) && q in PaneIds(n) && LocateBorder(n, p, q).Some?
    ensures var b := LocateBorder(n, p, q).value;
      && ValidBorder(n, b) && b.path == CommonPath(n, p, q)
      && p in Side(n, b, b.paneIdx) && q in Side(n, b, b.neighborIdx) && q !in Side(n, b, b.paneIdx)
  {
    hide LocateBorder, IdsOf, NoDup;
    LocatedIsValid(n, p, q);
    BorderAtCommonPath(n, p, q);
    UniqueAt(n, CommonPath(n, p, q));
    var cs := NodeAt(n, CommonPath(n, p, q)).children;
    KidsUnique(cs, Find(cs, q));
  }

  /** An extent scaled by the ratio of two weights grows exactly when the weight does. */
  lemma RatioOrder(l: real, w: real, v: real)
    requires l > 0.0 && w > 0.0
    ensures Mul(l, Div(v, w)) >= l <==> v >= w
    ensures Mul(l, Div(v, w)) <= l <==> v <= w
  {
    hide Mul, Div;
    DivMul(v, w);
    MulUnit(w);
    MulUnit(l);
    MulOrder(Div(v, w), 1.0, w);
    MulOrder(1.0, Div(v, w), w);
    MulCommutes(l, Div(v, w));
    MulOrder(Div(v, w), 1.0, l);
    MulOrder(1.0, Div(v, w), l);
  }

  lemma DraggedFrom(n: Node, after: Node, p: PaneId, q: PaneId, b: BorderPath, a: real, x: real,
                    delta: real, minWeight: real)
    requires n.Container? && p in PaneIds(n) && q in PaneIds(n) && ValidBorder(n, b) && b.path == CommonPath(n, p, q)
    requires Canonical(NodeAt(n, b.path)) && a == AppliedAt(n, b, delta, minWeight)
    requires p in Side(n, b, b.paneIdx) && q in Side(n, b, b.neighborIdx) && q !in Side(n, b, b.paneIdx)
    requires ResizedAs(n, after, b, delta, minWeight, p) && ResizedAs(n, after, b, delta, minWeight, q)
    requires PaneRect(n, p).Some? && PaneRect(n, q).Some?
    requires Inside(PaneRect(n, p).value) && Inside(PaneRect(n, q).value)
    requires var d := NodeAt(n, b.path).direction;
      && MeetAt(n, p, q, b, d, x) && MeetAt(after, p, q, b, d, x + Mul(Shift(b, a), Len(BoxAt(n, b.path), d)))
    ensures Dragged(n, after, p, q, a)
  {
    hide Mul, Div, Applied, AppliedAt, PaneRect, Side, Canonical, BoxAt, NodeAt, CommonPath, ValidPath;
    var d, cs := NodeAt(n, b.path).direction, NodeAt(n, b.path).children;
    var w, u := cs[b.paneIdx].weight, cs[b.neighborIdx].weight;
    WeightAt(NodeAt(n, b.path), b.paneIdx);
    WeightAt(NodeAt(n, b.path), b.neighborIdx);
    RatioOrder(Len(PaneRect(n, p).value, d), w, w + a);
    RatioOrder(Len(PaneRect(n, q).value, d), u, u - a);
    NegatedProduct(a, Len(BoxAt(n, b.path), d));
  }

  lemma NegatedProduct(a: real, l: real)
    ensures Mul(-a, l) == -Mul(a, l)
  {
  }

  /** An accepted resize drags the border as far as it was asked to and the floor allows. */
  lemma ResizeDrags(n: Node, p: PaneId, q: PaneId, delta: real, minWeight: real) returns (a: real)
    requires Good(n) && ResizeOp(n, p, q, delta, minWeight).result.Ok?
    ensures n.Container? && p in PaneIds(n) && q in PaneIds(n)
    ensures
      var cs := NodeAt(n, CommonPath(n, p, q)).children;
      AsFarAs(a, cs[Find(cs, p)].weight, cs[Find(cs, q)].weight, delta, minWeight)
    ensures Dragged(n, ResizeOp(n, p, q, delta, minWeight).tree, p, q, a)
  {
    hide Mul, Applied, AsFarAs, Embed, MeetAt, ResizedAs, ResizeAt, LocateBorder, PaneRect, Positive, SumsToOne, NoDup;
    var b := LocateBorder(n, p, q).value;
    LocatedIsValid(n, p, q);
    BorderAtCommonPath(n, p, q);
    CanonicalAt(n, b.path);
    var cs := NodeAt(n, b.path).children;
    a := AppliedAt(n, b, delta, minWeight);
    AppliedIsFarthest(cs[b.paneIdx].weight, cs[b.neighborIdx].weight, delta, minWeight) by {
      WeightAt(NodeAt(n, b.path), b.paneIdx);
      WeightAt(NodeAt(n, b.path), b.neighborIdx);
    }
    var x := ResizeMovesBorder(n, p, q, delta, minWeight);
    SidesOf(n, p, q);
    ResizeEffect(n, b, delta, minWeight, p);
    ResizeEffect(n, b, delta, minWeight, q);
    RectInside(n, p);
    RectInside(n, q);
    DraggedFrom(n, ResizeAt(n, b, delta, minWeight), p, q, b, a, x, delta, minWeight);
  }

  // ----- refusals -----

  /** Which error each operation reports, and when: what is checked first is told first. */
  lemma Refusals(n: Node, t: PaneId, added: PaneId, d: SplitDirection, q: PaneId, delta: real, minWeight: real)
    ensures var r := SplitOp(n, t, added, d).result;
      && (r.Ok? <==> added !in PaneIds(n) && t in PaneIds(n))
      && (forall e :: r == Err(e) <==>
            || (e == PaneAlreadyPresent(added) && added in PaneIds(n))
            || (e == PaneNotFound(t) && added !in PaneIds(n) && t !in PaneIds(n)))
    ensures var r := CloseOp(n, t).result;
      forall e :: r == Err(e) <==> e == PaneNotFound(t) && t !in PaneIds(n)
    ensures var r := SwapOp(n, t, q).result;
      forall e :: r == Err(e) <==>
        || (e == PaneNotFound(t) && t !in PaneIds(n))
        || (e == PaneNotFound(q) && t in PaneIds(n) && q !in PaneIds(n))
    ensures var r := ResizeOp(n, t, q, delta, minWeight).result;
      forall e :: r == Err(e) ==>
        || (e == InvalidResizeParam && minWeight < 0.0)
        || (e == PaneNotFound(t) && minWeight >= 0.0 && t !in PaneIds(n))
        || (e == PaneNotFound(q) && minWeight >= 0.0 && t in PaneIds(n) && q !in PaneIds(n))
        || (e == NotAdjacentSiblings(t, q) && minWeight >= 0.0 && t in PaneIds(n) && q in PaneIds(n))
    ensures minWeight < 0.0 || t !in PaneIds(n) || q !in PaneIds(n) ==> ResizeOp(n, t, q, delta, minWeight).result.Err?
  {
  }
}
