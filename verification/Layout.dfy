/** The n-ary weighted split tree: pane order, the canonical form, and the
    rewrite that restores it.

    Weights are exact reals. A pane identifier is a 32-bit unsigned integer.
 */
module Layout {
  import opened Basics
  import opened Reals

  type PaneId = U32

  datatype SplitDirection = Horizontal | Vertical

  datatype Child = Child(node: Node, weight: real)

  datatype Node =
    | Leaf(id: PaneId)
    | Container(direction: SplitDirection, children: seq<Child>)

  // ----- pane order -----

  /** Pane identifiers in pre-order. */
  function PaneIds(n: Node): seq<PaneId>
    decreases n
  {
    match n
    case Leaf(id) => [id]
    case Container(_, cs) => IdsOf(cs)
  }

  function IdsOf(cs: seq<Child>): seq<PaneId>
    decreases cs
  {
    if cs == [] then [] else
      assert cs[0].node < cs[0];
      PaneIds(cs[0].node) + IdsOf(cs[1..])
  }

  lemma {:induction false} IdsOfAppend(a: seq<Child>, b: seq<Child>)
    ensures IdsOf(a + b) == IdsOf(a) + IdsOf(b)
  {
    if a == [] {
      assert a + b == b;
    } else {
      assert (a + b)[1..] == a[1..] + b;
      IdsOfAppend(a[1..], b);
    }
  }

  lemma IdsOfHead(cs: seq<Child>)
    requires cs != []
    ensures IdsOf(cs) == PaneIds(cs[0].node) + IdsOf(cs[1..])
  {
  }

  /** The identifiers of a child list split around the child at `i`. */
  lemma IdsOfSplit(cs: seq<Child>, i: nat)
    requires i < |cs|
    ensures IdsOf(cs) == IdsOf(cs[..i]) + PaneIds(cs[i].node) + IdsOf(cs[i + 1..])
  {
    hide IdsOf;
    hide PaneIds;
    IdsOfAppend(cs[..i], cs[i..]);
    assert cs == cs[..i] + cs[i..];
    IdsOfHead(cs[i..]);
    assert cs[i..][1..] == cs[i + 1..];
  }

  lemma {:induction false} NotInAny(cs: seq<Child>, t: PaneId)
    requires forall i :: 0 <= i < |cs| ==> t !in PaneIds(cs[i].node)
    ensures t !in IdsOf(cs)
  {
    if cs == [] {
    } else {
      NotInAny(cs[1..], t);
    }
  }

  /** Whether any leaf refers to `id`. */
  predicate Contains(n: Node, id: PaneId)
    decreases n
    ensures Contains(n, id) <==> id in PaneIds(n)
  {
    match n
    case Leaf(leaf) => leaf == id
    case Container(_, cs) => AnyContains(cs, id)
  }

  predicate AnyContains(cs: seq<Child>, id: PaneId)
    decreases cs
    ensures AnyContains(cs, id) <==> id in IdsOf(cs)
  {
    cs != [] &&
    assert cs[0].node < cs[0];
    (Contains(cs[0].node, id) || AnyContains(cs[1..], id))
  }

  /** Position of the first child holding `id`, or the number of children. */
  function Find(cs: seq<Child>, id: PaneId): (i: nat)
    ensures i <= |cs|
    ensures i < |cs| <==> id in IdsOf(cs)
    ensures i < |cs| ==> id in PaneIds(cs[i].node)
    ensures forall j :: 0 <= j < i ==> id !in PaneIds(cs[j].node)
  {
    if cs == [] then 0
    else if Contains(cs[0].node, id) then 0
    else
      var k := Find(cs[1..], id);
      assert forall j :: 1 <= j < 1 + k ==> cs[j] == cs[1..][j - 1];
      1 + k
  }

  /** Position of the first child that is exactly the leaf `id`. */
  function LeafPos(cs: seq<Child>, id: PaneId): (i: nat)
    ensures i <= |cs|
    ensures i < |cs| ==> cs[i].node == Leaf(id)
    ensures forall j :: 0 <= j < i ==> cs[j].node != Leaf(id)
  {
    if cs == [] then 0
    else if cs[0].node == Leaf(id) then 0
    else
      var k := LeafPos(cs[1..], id);
      assert forall j :: 1 <= j < 1 + k ==> cs[j] == cs[1..][j - 1];
      1 + k
  }

  lemma LeafPosFirst(cs: seq<Child>, i: nat, id: PaneId)
    requires i < |cs|
    ensures cs[i].node == Leaf(id) ==> LeafPos(cs, id) <= i
  {
  }

  lemma FindIs(cs: seq<Child>, id: PaneId, i: nat)
    requires i < |cs|
    requires id in PaneIds(cs[i].node)
    requires forall j :: 0 <= j < i ==> id !in PaneIds(cs[j].node)
    ensures Find(cs, id) == i
    ensures id in IdsOf(cs)
  {
  }

  // ----- unique pane identifiers -----

  ghost predicate NoDup<T>(s: seq<T>) {
    forall i, j :: 0 <= i < j < |s| ==> s[i] != s[j]
  }

  lemma NoDupConcat<T>(a: seq<T>, b: seq<T>)
    ensures NoDup(a + b) <==> NoDup(a) && NoDup(b) && forall x :: x in a ==> x !in b
  {
    var s := a + b;
    if NoDup(s) {
      forall i, j | 0 <= i < j < |a| ensures a[i] != a[j] { assert s[i] != s[j]; }
      forall i, j | 0 <= i < j < |b| ensures b[i] != b[j] { assert s[|a| + i] != s[|a| + j]; }
      forall x | x in a ensures x !in b {
        var i :| 0 <= i < |a| && a[i] == x;
        forall j | 0 <= j < |b| ensures b[j] != x { assert s[i] != s[|a| + j]; }
      }
    }
    if NoDup(a) && NoDup(b) && forall x :: x in a ==> x !in b {
      forall i, j | 0 <= i < j < |s| ensures s[i] != s[j] {
        if i < |a| <= j { assert s[i] in a && s[j] in b; }
      }
    }
  }

  ghost predicate Unique(n: Node) {
    NoDup(PaneIds(n))
  }

  /** In a child list without duplicate panes each child has unique panes and
      no pane occurs in two children. */
  lemma KidsUnique(cs: seq<Child>, i: nat)
    requires NoDup(IdsOf(cs)) && i < |cs|
    ensures Unique(cs[i].node)
    ensures forall j, p :: 0 <= j < |cs| && j != i && p in PaneIds(cs[i].node) ==> p !in PaneIds(cs[j].node)
  {
    IdsOfSplit(cs, i);
    var before, mid, after := IdsOf(cs[..i]), PaneIds(cs[i].node), IdsOf(cs[i + 1..]);
    NoDupConcat(before + mid, after);
    NoDupConcat(before, mid);
    forall j, p | 0 <= j < |cs| && j != i && p in PaneIds(cs[i].node)
      ensures p !in PaneIds(cs[j].node)
    {
      if j < i {
        IdsOfSplit(cs[..i], j);
        assert cs[..i][j] == cs[j];
        assert p in PaneIds(cs[j].node) ==> p in before;
      } else {
        IdsOfSplit(cs[i + 1..], j - i - 1);
        assert cs[i + 1..][j - i - 1] == cs[j];
        assert p in PaneIds(cs[j].node) ==> p in after;
      }
    }
  }

  /** With unique panes a pane that is a direct leaf is found at that leaf. */
  lemma LeafPosIsFind(cs: seq<Child>, id: PaneId)
    requires NoDup(IdsOf(cs))
    requires LeafPos(cs, id) < |cs|
    ensures Find(cs, id) == LeafPos(cs, id)
  {
    var p := LeafPos(cs, id);
    KidsUnique(cs, p);
    FindIs(cs, id, p);
  }

  // ----- weights -----

  function Sum(cs: seq<Child>): real {
    if cs == [] then 0.0 else cs[0].weight + Sum(cs[1..])
  }

  lemma {:induction false} SumAppend(a: seq<Child>, b: seq<Child>)
    ensures Sum(a + b) == Sum(a) + Sum(b)
  {
    if a == [] {
      assert a + b == b;
    } else {
      assert (a + b)[1..] == a[1..] + b;
      SumAppend(a[1..], b);
    }
  }

  lemma SumSplit(cs: seq<Child>, i: nat)
    requires i < |cs|
    ensures Sum(cs) == Sum(cs[..i]) + cs[i].weight + Sum(cs[i + 1..])
    ensures Sum(cs[..i + 1]) == Sum(cs[..i]) + cs[i].weight
  {
    var rest := cs[i..];
    assert Sum(rest) == cs[i].weight + Sum(cs[i + 1..]) by {
      assert rest[1..] == cs[i + 1..];
    }
    assert Sum([cs[i]]) == cs[i].weight;
    hide Sum;
    SumAppend(cs[..i], rest);
    assert cs == cs[..i] + rest;
    SumAppend(cs[..i], [cs[i]]);
    assert cs[..i + 1] == cs[..i] + [cs[i]];
  }

  ghost predicate PositiveWeights(cs: seq<Child>) {
    forall i :: 0 <= i < |cs| ==> cs[i].weight > 0.0
  }

  lemma {:induction false} SumPositive(cs: seq<Child>)
    requires PositiveWeights(cs)
    ensures Sum(cs) >= 0.0
    ensures cs != [] ==> Sum(cs) > 0.0
  {
    if cs == [] {
    } else {
      SumPositive(cs[1..]);
    }
  }

  // ----- canonical form -----

  /** Every container's weights sum to exactly one. */
  ghost predicate SumsToOne(n: Node) {
    n.Container? ==>
      && Sum(n.children) == 1.0
      && forall i :: 0 <= i < |n.children| ==> SumsToOne(n.children[i].node)
  }

  ghost predicate Positive(n: Node) {
    n.Container? ==>
      forall i :: 0 <= i < |n.children| ==> n.children[i].weight > 0.0 && Positive(n.children[i].node)
  }

  predicate SameDirection(n: Node, d: SplitDirection) {
    n.Container? && n.direction == d
  }

  /** No single-child container and no container directly inside another of
      its own direction. */
  ghost predicate Flat(n: Node) {
    n.Container? ==>
      && |n.children| != 1
      && forall i :: 0 <= i < |n.children| ==>
           Flat(n.children[i].node) && !SameDirection(n.children[i].node, n.direction)
  }

  ghost predicate NoEmpty(n: Node) {
    n.Container? ==>
      n.children != [] && forall i :: 0 <= i < |n.children| ==> NoEmpty(n.children[i].node)
  }

  ghost predicate Canonical(n: Node) {
    SumsToOne(n) && Positive(n) && Flat(n)
  }

  // ----- flatten -----

  /** The children with every weight multiplied by `w`. */
  function ScaledBy(cs: seq<Child>, w: real): (r: seq<Child>)
    ensures |r| == |cs|
    ensures forall i :: 0 <= i < |cs| ==> r[i] == Child(cs[i].node, Mul(cs[i].weight, w))
  {
    seq(|cs|, i requires 0 <= i < |cs| => Child(cs[i].node, Mul(cs[i].weight, w)))
  }

  /** What one flattened child of weight `w` contributes to a parent of
      direction `d`: its own children when the directions agree. */
  function SpliceOne(d: SplitDirection, f: Node, w: real): seq<Child> {
    if SameDirection(f, d) then ScaledBy(f.children, w) else [Child(f, w)]
  }

  function Spliced(d: SplitDirection, cs: seq<Child>): seq<Child>
    decreases cs
  {
    if cs == [] then [] else
      assert cs[0].node < cs[0];
      SpliceOne(d, Flatten(cs[0].node), cs[0].weight) + Spliced(d, cs[1..])
  }

  function Collapse(d: SplitDirection, cs: seq<Child>): Node {
    if |cs| == 1 then cs[0].node else Container(d, cs)
  }

  function Flatten(n: Node): Node
    decreases n
  {
    match n
    case Leaf(_) => n
    case Container(d, cs) => Collapse(d, Spliced(d, cs))
  }

  lemma {:induction false} SplicedAppend(d: SplitDirection, a: seq<Child>, b: seq<Child>)
    ensures Spliced(d, a + b) == Spliced(d, a) + Spliced(d, b)
  {
    if a == [] {
      assert a + b == b;
    } else {
      assert (a + b)[1..] == a[1..] + b;
      SplicedAppend(d, a[1..], b);
    }
  }

  /** The rewrite rules, one child at a time: a child that flattens to a container of the same direction gives
      way to its children, each at its weight times the child's; any other keeps its place and weight. A
      container that ends up with one child is that child; no other changes its direction. */
  lemma FlattenRules(d: SplitDirection, cs: seq<Child>, c: Child)
    ensures
      var before, all, f := Spliced(d, cs), Spliced(d, cs + [c]), Flatten(c.node);
      && before <= all
      && (if f.Container? && f.direction == d then
            && |all| == |before| + |f.children|
            && forall j :: 0 <= j < |f.children| ==>
                 all[|before| + j] == Child(f.children[j].node, Mul(f.children[j].weight, c.weight))
          else all == before + [Child(f, c.weight)])
      && Spliced(d, []) == []
      && Flatten(Container(d, cs)) == if |before| == 1 then before[0].node else Container(d, before)
  {
    SplicedSingle(d, c, cs);
    SplicedAppend(d, cs, [c]);
    var before, one, f := Spliced(d, cs), SpliceOne(d, Flatten(c.node), c.weight), Flatten(c.node);
    hide Spliced, Mul, Flatten, Collapse;
    assert Spliced(d, cs + [c]) == before + one;
    if f.Container? && f.direction == d {
      forall j | 0 <= j < |f.children| ensures (before + one)[|before| + j] == one[j] {}
    }
  }

  lemma SplicedSingle(d: SplitDirection, c: Child, cs: seq<Child>)
    ensures Spliced(d, []) == [] && Spliced(d, [c]) == SpliceOne(d, Flatten(c.node), c.weight)
    ensures var out := Spliced(d, cs);
      Flatten(Container(d, cs)) == if |out| == 1 then out[0].node else Container(d, out)
  {
    hide SpliceOne, Mul;
    assert [c][1..] == [];
    assert Spliced(d, [c]) == SpliceOne(d, Flatten(c.node), c.weight) + Spliced(d, []);
  }

  // Pane order is preserved.

  lemma {:induction false} ScaledIds(cs: seq<Child>, w: real)
    ensures IdsOf(ScaledBy(cs, w)) == IdsOf(cs)
  {
    if cs == [] {
    } else {
      var rest := ScaledBy(cs[1..], w);
      assert forall i :: 0 <= i < |rest| ==> rest[i] == ScaledBy(cs, w)[1..][i];
      assert ScaledBy(cs, w)[1..] == rest;
      ScaledIds(cs[1..], w);
    }
  }

  lemma {:induction false} ScaledSum(cs: seq<Child>, w: real)
    ensures Sum(ScaledBy(cs, w)) == Mul(Sum(cs), w)
  {
    hide Mul;
    MulUnit(w);
    if cs == [] {
    } else {
      MulDistributes(cs[0].weight, Sum(cs[1..]), w);
      var rest := ScaledBy(cs[1..], w);
      assert forall i :: 0 <= i < |rest| ==> rest[i] == ScaledBy(cs, w)[1..][i];
      assert ScaledBy(cs, w)[1..] == rest;
      ScaledSum(cs[1..], w);
    }
  }

  lemma SpliceOneIds(d: SplitDirection, f: Node, w: real)
    ensures IdsOf(SpliceOne(d, f, w)) == PaneIds(f)
  {
    if SameDirection(f, d) {
      ScaledIds(f.children, w);
    } else {
      assert [Child(f, w)][1..] == [];
    }
  }

  lemma {:induction false} SplicedIds(d: SplitDirection, cs: seq<Child>)
    ensures IdsOf(Spliced(d, cs)) == IdsOf(cs)
    decreases cs
  {
    if cs == [] {
    } else {
      assert cs[0].node < cs[0];
      var f := Flatten(cs[0].node);
      FlattenIds(cs[0].node);
      SplicedIds(d, cs[1..]);
      SpliceOneIds(d, f, cs[0].weight);
      IdsOfAppend(SpliceOne(d, f, cs[0].weight), Spliced(d, cs[1..]));
    }
  }

  /** Flattening never reorders, drops or duplicates a pane. */
  lemma {:induction false} FlattenIds(n: Node)
    ensures PaneIds(Flatten(n)) == PaneIds(n)
    decreases n
  {
    if n.Leaf? {
    } else {
      SplicedIds(n.direction, n.children);
      var out := Spliced(n.direction, n.children);
      if |out| == 1 {
        assert out[1..] == [];
      }
    }
  }

  // Structure is canonical afterwards, whatever the input.

  ghost predicate FlatUnder(d: SplitDirection, cs: seq<Child>) {
    forall i :: 0 <= i < |cs| ==> Flat(cs[i].node) && !SameDirection(cs[i].node, d)
  }

  lemma {:induction false} SplicedFlat(d: SplitDirection, cs: seq<Child>)
    ensures FlatUnder(d, Spliced(d, cs))
    decreases cs
  {
    if cs == [] {
    } else {
      assert cs[0].node < cs[0];
      FlattenFlat(cs[0].node);
      SplicedFlat(d, cs[1..]);
    }
  }

  /** The result of flattening is always structurally flat. */
  lemma {:induction false} FlattenFlat(n: Node)
    ensures Flat(Flatten(n))
    decreases n
  {
    if n.Leaf? {
    } else {
      SplicedFlat(n.direction, n.children);
    }
  }

  lemma {:induction false} SplicedFixes(d: SplitDirection, cs: seq<Child>)
    requires FlatUnder(d, cs)
    ensures Spliced(d, cs) == cs
    decreases cs
  {
    if cs == [] {
    } else {
      assert cs[0].node < cs[0];
      FlattenFixes(cs[0].node);
      SplicedFixes(d, cs[1..]);
      assert SpliceOne(d, cs[0].node, cs[0].weight) == [cs[0]];
    }
  }

  lemma {:induction false} FlattenFixes(n: Node)
    requires Flat(n)
    ensures Flatten(n) == n
    decreases n
  {
    if n.Leaf? {
    } else {
      SplicedFixes(n.direction, n.children);
    }
  }

  /** Flattening changes a tree exactly when the tree is not flat; hence it is
      idempotent on every tree, well-formed or not. */
  lemma FlattenIdempotent(n: Node)
    ensures Flatten(n) == n <==> Flat(n)
    ensures Flatten(Flatten(n)) == Flatten(n)
  {
    FlattenFlat(n);
    FlattenFixes(Flatten(n));
    if Flat(n) {
      FlattenFixes(n);
    }
  }

  // Weights stay valid.

  ghost predicate KidsSumToOne(cs: seq<Child>) {
    forall i :: 0 <= i < |cs| ==> SumsToOne(cs[i].node)
  }

  ghost predicate KidsPositive(cs: seq<Child>) {
    forall i :: 0 <= i < |cs| ==> cs[i].weight > 0.0 && Positive(cs[i].node)
  }

  ghost predicate KidsNonEmpty(cs: seq<Child>) {
    forall i :: 0 <= i < |cs| ==> NoEmpty(cs[i].node)
  }

  lemma {:induction false} SplicedSums(d: SplitDirection, cs: seq<Child>)
    requires KidsSumToOne(cs)
    ensures Sum(Spliced(d, cs)) == Sum(cs)
    ensures KidsSumToOne(Spliced(d, cs))
    decreases cs
  {
    hide Mul;
    if cs == [] {
    } else {
      assert cs[0].node < cs[0];
      var f, w := Flatten(cs[0].node), cs[0].weight;
      FlattenSums(cs[0].node);
      SplicedSums(d, cs[1..]);
      SumAppend(SpliceOne(d, f, w), Spliced(d, cs[1..]));
      if SameDirection(f, d) {
        ScaledSum(f.children, w);
        MulUnit(w);
      } else {
        assert [Child(f, w)][1..] == [];
      }
    }
  }

  lemma {:induction false} FlattenSums(n: Node)
    requires SumsToOne(n)
    ensures SumsToOne(Flatten(n))
    decreases n
  {
    if n.Leaf? {
    } else {
      SplicedSums(n.direction, n.children);
    }
  }

  lemma {:induction false} SplicedPositive(d: SplitDirection, cs: seq<Child>)
    requires KidsPositive(cs)
    ensures KidsPositive(Spliced(d, cs))
    decreases cs
  {
    hide Mul;
    if cs == [] {
    } else {
      assert cs[0].node < cs[0];
      var f, w := Flatten(cs[0].node), cs[0].weight;
      FlattenPositive(cs[0].node);
      SplicedPositive(d, cs[1..]);
      if SameDirection(f, d) {
        forall i | 0 <= i < |f.children| ensures Mul(f.children[i].weight, w) > 0.0 {
          MulPositive(f.children[i].weight, w);
        }
      }
    }
  }

  lemma {:induction false} FlattenPositive(n: Node)
    requires Positive(n)
    ensures Positive(Flatten(n))
    decreases n
  {
    if n.Leaf? {
    } else {
      SplicedPositive(n.direction, n.children);
    }
  }

  lemma {:induction false} SplicedNonEmpty(d: SplitDirection, cs: seq<Child>)
    requires KidsNonEmpty(cs)
    ensures KidsNonEmpty(Spliced(d, cs))
    ensures cs != [] ==> Spliced(d, cs) != []
    decreases cs
  {
    if cs == [] {
    } else {
      assert cs[0].node < cs[0];
      FlattenNonEmpty(cs[0].node);
      SplicedNonEmpty(d, cs[1..]);
    }
  }

  lemma {:induction false} FlattenNonEmpty(n: Node)
    requires NoEmpty(n)
    ensures NoEmpty(Flatten(n))
    decreases n
  {
    if n.Leaf? {
    } else {
      SplicedNonEmpty(n.direction, n.children);
    }
  }

  /** A tree with valid weights flattens to a canonical tree over the same
      panes, in the same order. */
  lemma FlattenCanonical(n: Node)
    requires SumsToOne(n) && Positive(n)
    ensures Canonical(Flatten(n))
    ensures PaneIds(Flatten(n)) == PaneIds(n)
  {
    FlattenSums(n);
    FlattenPositive(n);
    FlattenFlat(n);
    FlattenIds(n);
  }

  /** The structural invariants alone: two children at least, and no nesting of one direction. */
  ghost predicate Structured(n: Node) {
    n.Container? ==>
      && |n.children| >= 2
      && forall i :: 0 <= i < |n.children| ==>
           !SameDirection(n.children[i].node, n.direction) && Structured(n.children[i].node)
  }

  lemma {:induction false} StructuredIff(n: Node)
    ensures Structured(n) <==> Flat(n) && NoEmpty(n)
    decreases n
  {
    match n
    case Leaf(_) =>
    case Container(d, cs) =>
      forall i | 0 <= i < |cs| ensures Structured(cs[i].node) <==> Flat(cs[i].node) && NoEmpty(cs[i].node) {
        StructuredIff(cs[i].node);
      }
  }

  /** Flattening restores the structure of any tree without an empty container, whatever its weights. */
  lemma FlattenStructured(n: Node)
    requires NoEmpty(n)
    ensures Structured(Flatten(n))
  {
    FlattenFlat(n);
    FlattenNonEmpty(n);
    StructuredIff(Flatten(n));
  }
}
