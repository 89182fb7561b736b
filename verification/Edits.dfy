/** Replacing one child's subtree: what it does to pane order, rectangles and
    the tree invariants. Every in-place operation is such an edit all the way
    down to the container it really changes.
 */
module Edits {
  import opened Layout
  import opened Geometry
  import opened Basics
  import opened Reals

  function WithChild(cs: seq<Child>, i: nat, node: Node): (r: seq<Child>)
    requires i < |cs|
  {
    cs[i := Child(node, cs[i].weight)]
  }

  /** `n` with the subtree of child `i` replaced. */
  function WithSubtree(n: Node, i: nat, node: Node): Node
    requires n.Container? && i < |n.children|
  {
    Container(n.direction, WithChild(n.children, i, node))
  }

  lemma {:induction false} SameWeightsSameSum(a: seq<Child>, b: seq<Child>)
    requires |a| == |b| && forall i :: 0 <= i < |a| ==> a[i].weight == b[i].weight
    ensures Sum(a) == Sum(b)
  {
    if a == [] {
    } else {
      SameWeightsSameSum(a[1..], b[1..]);
    }
  }

  lemma WithChildOffset(cs: seq<Child>, i: nat, node: Node, k: nat)
    requires i < |cs| && k <= |cs|
    ensures Offset(WithChild(cs, i, node), k) == Offset(cs, k)
    ensures Sum(WithChild(cs, i, node)) == Sum(cs)
  {
    SameWeightsSameSum(WithChild(cs, i, node)[..k], cs[..k]);
    SameWeightsSameSum(WithChild(cs, i, node), cs);
  }

  lemma WithChildIds(cs: seq<Child>, i: nat, node: Node)
    requires i < |cs|
    ensures IdsOf(WithChild(cs, i, node)) == IdsOf(cs[..i]) + PaneIds(node) + IdsOf(cs[i + 1..])
  {
    var r := WithChild(cs, i, node);
    IdsOfSplit(r, i);
    assert r[..i] == cs[..i] && r[i + 1..] == cs[i + 1..];
  }

  /** A pane of an untouched child keeps its rectangle. */
  lemma RectElsewhere(n: Node, i: nat, node: Node, q: PaneId)
    requires n.Container? && i < |n.children| && q in PaneIds(n)
    requires Find(n.children, q) != i
    requires Find(n.children, q) > i ==> q !in PaneIds(node)
    ensures Find(WithChild(n.children, i, node), q) == Find(n.children, q)
    ensures PaneRect(WithSubtree(n, i, node), q) == PaneRect(n, q)
  {
    hide Mul;
    var cs, k := n.children, Find(n.children, q);
    var r := WithChild(cs, i, node);
    FindIs(r, q, k);
    PaneRectAt(n, q);
    PaneRectAt(WithSubtree(n, i, node), q);
    WithChildOffset(cs, i, node, k);
  }

  /** A pane of the new subtree sits where that subtree is placed. */
  lemma RectWithin(n: Node, i: nat, node: Node, q: PaneId)
    requires n.Container? && i < |n.children| && q in PaneIds(node)
    requires forall j :: 0 <= j < i ==> q !in PaneIds(n.children[j].node)
    ensures Find(WithChild(n.children, i, node), q) == i
    ensures PaneRect(node, q).Some?
    ensures q in PaneIds(WithSubtree(n, i, node))
    ensures PaneRect(WithSubtree(n, i, node), q) ==
            Some(Place(n.direction, Offset(n.children, i), n.children[i].weight, PaneRect(node, q).value))
  {
    hide Mul;
    var r := WithChild(n.children, i, node);
    FindIs(r, q, i);
    PaneRectAt(WithSubtree(n, i, node), q);
    WithChildOffset(n.children, i, node, i);
  }

  /** Replacing a subtree by a canonical one that does not repeat the parent's
      direction keeps the tree canonical. */
  lemma WithSubtreeCanonical(n: Node, i: nat, node: Node)
    requires Canonical(n) && n.Container? && i < |n.children|
    requires Canonical(node) && !SameDirection(node, n.direction)
    ensures Canonical(WithSubtree(n, i, node))
  {
    WithChildOffset(n.children, i, node, i);
  }

  lemma WithSubtreeValid(n: Node, i: nat, node: Node)
    requires n.Container? && i < |n.children|
    ensures SumsToOne(n) && SumsToOne(node) ==> SumsToOne(WithSubtree(n, i, node))
    ensures Positive(n) && Positive(node) ==> Positive(WithSubtree(n, i, node))
  {
    WithChildOffset(n.children, i, node, i);
  }
}
