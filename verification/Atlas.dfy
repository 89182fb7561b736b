/**
 * The glyph atlas: a least-recently-used cache over a rectangle allocator, whose entries in use by the
 * current frame must not move. The allocator may follow any policy that keeps its contract.
 */
module Atlas {
  import opened Basics

  const INITIAL_SIZE: nat := 512
  const MAX_SIZE: nat := 4096
  const I32_MAX: nat := 0x7FFF_FFFF

  // ----- The rectangle allocator -------------------------------------------------------------------

  datatype Box = Box(x: nat, y: nat, w: nat, h: nat)

  ghost predicate Apart(a: Box, b: Box) {
    a.x + a.w <= b.x || b.x + b.w <= a.x || a.y + a.h <= b.y || b.y + b.h <= a.y
  }

  ghost predicate Within(b: Box, width: nat, height: nat) {
    b.x + b.w <= width && b.y + b.h <= height
  }

  ghost predicate Covers(outer: Box, inner: Box) {
    && outer.x <= inner.x && inner.x + inner.w <= outer.x + outer.w
    && outer.y <= inner.y && inner.y + inner.h <= outer.y + outer.h
  }

  /** Live allocations lie in the texture and apart from one another. */
  ghost predicate Packed(live: map<nat, Box>, width: nat, height: nat) {
    && (forall i <- live :: Within(live[i], width, height))
    && (forall i <- live, j <- live :: i != j ==> Apart(live[i], live[j]))
  }

  /** What happened to an allocator: enough to determine any deterministic allocator's next answer. */
  datatype Event = Asked(w: nat, h: nat, granted: Option<nat>) | Freed(id: nat) | Grew(width: nat, height: nat)

  /** From the history, the live boxes, the texture size and a request to an allocation, or none. */
  type Policy = (seq<Event>, map<nat, Box>, nat, nat, nat, nat) -> Option<(nat, Box)>

  ghost predicate Fits(live: map<nat, Box>, width: nat, height: nat, w: nat, h: nat, id: nat, b: Box) {
    && id !in live
    && w <= b.w && h <= b.h
    && Packed(live[id := b], width, height)
  }

  /** The allocator's contract: it answers a request with a fresh box that fits, or refuses. */
  ghost predicate Sound(policy: Policy) {
    forall history, live, width, height, w, h
      {:trigger policy(history, live, width, height, w, h)} ::
      Packed(live, width, height) && policy(history, live, width, height, w, h).Some? ==>
        var (id, b) := policy(history, live, width, height, w, h).value;
        Fits(live, width, height, w, h, id, b)
  }

  /** An allocator's state as a value. */
  datatype AllocatorV = AllocatorV(history: seq<Event>, live: map<nat, Box>, width: nat, height: nat) {
    function Freeing(id: nat): AllocatorV {
      this.(live := live - {id}, history := history + [Freed(id)])
    }

    function Growing(newWidth: nat, newHeight: nat): AllocatorV {
      this.(width := newWidth, height := newHeight, history := history + [Grew(newWidth, newHeight)])
    }
  }

  class Allocator {
    const policy: Policy
    var width: nat
    var height: nat
    var live: map<nat, Box>
    var history: seq<Event>

    ghost function View(): AllocatorV
      reads this
    {
      AllocatorV(history, live, width, height)
    }

    ghost predicate Valid()
      reads this
    {
      Sound(policy) && Packed(live, width, height)
    }

    constructor (policy: Policy, width: nat, height: nat)
      requires Sound(policy)
      ensures Valid() && this.policy == policy
      ensures this.width == width && this.height == height && live == map[] && history == []
    {
      this.policy := policy;
      this.width, this.height := width, height;
      live, history := map[], [];
    }

    method Allocate(w: nat, h: nat) returns (r: Option<(nat, Box)>)
      requires Valid()
      modifies this`live, this`history
      ensures Valid()
      ensures r == policy(old(history), old(live), width, height, w, h)
      ensures match r
        case None => live == old(live) && history == old(history) + [Asked(w, h, None)]
        case Some((id, b)) =>
          && Fits(old(live), width, height, w, h, id, b)
          && live == old(live)[id := b]
          && history == old(history) + [Asked(w, h, Some(id))]
    {
      r := policy(history, live, width, height, w, h);
      if r.Some? {
        live := live[r.value.0 := r.value.1];
        history := history + [Asked(w, h, Some(r.value.0))];
      } else {
        history := history + [Asked(w, h, None)];
      }
    }

    method Deallocate(id: nat)
      requires Valid()
      modifies this`live, this`history
      ensures Valid()
      ensures live == old(live) - {id} && history == old(history) + [Freed(id)]
    {
      live := live - {id};
      history := history + [Freed(id)];
    }

    method Grow(newWidth: nat, newHeight: nat)
      requires Valid() && width <= newWidth && height <= newHeight
      modifies this`width, this`height, this`history
      ensures Valid()
      ensures width == newWidth && height == newHeight && history == old(history) + [Grew(newWidth, newHeight)]
    {
      width, height := newWidth, newHeight;
      history := history + [Grew(newWidth, newHeight)];
    }
  }

  // ----- The cache as a sequence, least recently used first -----------------------------------------

  datatype Key = Key(fontId: nat, glyphId: nat, sizeTenths: nat)
  datatype Placement = Placement(top: int, left: int)
  datatype Region = Region(box: Box, placement: Placement, allocId: nat)
  datatype Entry = Entry(key: Key, region: Region)

  /** What an insertion asks for. */
  datatype Glyph = Glyph(key: Key, w: nat, h: nat, placement: Placement)

  function Keys(es: seq<Entry>): (ks: set<Key>) {
    set e <- es :: e.key
  }

  function Ids(es: seq<Entry>): (ids: set<nat>) {
    set e <- es :: e.region.allocId
  }

  /** No entry twice, and no two entries with one key or one allocation. */
  ghost predicate Distinct(es: seq<Entry>) {
    && (forall e :: multiset(es)[e] <= 1)
    && (forall e, f :: e in es && f in es && (e.key == f.key || e.region.allocId == f.region.allocId) ==> e == f)
  }

  ghost predicate BackedBy(e: Entry, live: map<nat, Box>) {
    e.region.allocId in live && Covers(live[e.region.allocId], e.region.box)
  }

  /** Every entry's region lies in a live box of its own. */
  ghost predicate Backed(es: seq<Entry>, live: map<nat, Box>) {
    Distinct(es) && forall e <- es :: BackedBy(e, live)
  }

  function Lookup(es: seq<Entry>, key: Key): (r: Option<Region>)
    ensures r.Some? ==> Entry(key, r.value) in es
    ensures r.None? ==> key !in Keys(es)
  {
    if es == [] then None
    else if es[0].key == key then Some(es[0].region)
    else Lookup(es[1..], key)
  }

  /** The entries without the one for `key`; `LruCache::push` replaces it. */
  function Without(es: seq<Entry>, key: Key): (r: seq<Entry>) {
    if es == [] then []
    else if es[0].key == key then Without(es[1..], key)
    else [es[0]] + Without(es[1..], key)
  }

  function Pushed(es: seq<Entry>, e: Entry): (r: seq<Entry>) {
    Without(es, e.key) + [e]
  }

  /** The entries of `es` in use, and those not, in order. */
  function Held(es: seq<Entry>, inUse: set<Key>): (r: seq<Entry>) {
    if es == [] then []
    else if es[0].key in inUse then [es[0]] + Held(es[1..], inUse)
    else Held(es[1..], inUse)
  }

  function Evictable(es: seq<Entry>, inUse: set<Key>): (r: seq<Entry>) {
    if es == [] then []
    else if es[0].key in inUse then Evictable(es[1..], inUse)
    else [es[0]] + Evictable(es[1..], inUse)
  }

  /** The cache after `n` pops: the rest, then the popped entries that were in use, pushed back. */
  function AfterPops(es: seq<Entry>, inUse: set<Key>, n: nat): (r: seq<Entry>)
    requires n <= |es|
  {
    es[n..] + Held(es[..n], inUse)
  }

  lemma {:induction false} HeldMembers(es: seq<Entry>, inUse: set<Key>, e: Entry)
    ensures e in Held(es, inUse) <==> e in es && e.key in inUse
    ensures e in Evictable(es, inUse) <==> e in es && e.key !in inUse
  {
    if es == [] {
    } else {
      HeldMembers(es[1..], inUse, e);
      assert es == [es[0]] + es[1..];
    }
  }

  lemma ConcatAssoc<T>(a: seq<T>, b: seq<T>, c: seq<T>)
    ensures (a + b) + c == a + (b + c)
  {
  }

  lemma {:induction false} HeldConcat(a: seq<Entry>, b: seq<Entry>, inUse: set<Key>)
    ensures Held(a + b, inUse) == Held(a, inUse) + Held(b, inUse)
  {
    if a == [] {
      assert a + b == b;
    } else {
      HeldConcat(a[1..], b, inUse);
      assert (a + b)[1..] == a[1..] + b;
      ConcatAssoc([a[0]], Held(a[1..], inUse), Held(b, inUse));
    }
  }

  lemma {:induction false} EvictableConcat(a: seq<Entry>, b: seq<Entry>, inUse: set<Key>)
    ensures Evictable(a + b, inUse) == Evictable(a, inUse) + Evictable(b, inUse)
  {
    if a == [] {
      assert a + b == b;
    } else {
      EvictableConcat(a[1..], b, inUse);
      assert (a + b)[1..] == a[1..] + b;
      ConcatAssoc([a[0]], Evictable(a[1..], inUse), Evictable(b, inUse));
    }
  }

  /** What `n` pops evict is a prefix, in least-recently-used order, of all that may be evicted. */
  lemma EvictedIsLruPrefix(es: seq<Entry>, inUse: set<Key>, n: nat)
    requires n <= |es|
    ensures Evictable(es[..n], inUse) <= Evictable(es, inUse)
    ensures n == |es| ==> AfterPops(es, inUse, n) == Held(es, inUse)
  {
    EvictableConcat(es[..n], es[n..], inUse);
    assert es == es[..n] + es[n..];
    if n == |es| {
      assert es[n..] == [] && es[..n] == es;
    }
  }

  lemma {:induction false} HeldAndEvictable(es: seq<Entry>, inUse: set<Key>)
    ensures multiset(es) == multiset(Held(es, inUse)) + multiset(Evictable(es, inUse))
  {
    if es == [] {
    } else {
      HeldAndEvictable(es[1..], inUse);
      assert es == [es[0]] + es[1..];
    }
  }

  /** Pops neither lose nor copy an entry: each one is evicted, or still cached with its region. */
  lemma PopsConserve(es: seq<Entry>, inUse: set<Key>, n: nat)
    requires n <= |es|
    ensures multiset(es) == multiset(AfterPops(es, inUse, n)) + multiset(Evictable(es[..n], inUse))
  {
    HeldAndEvictable(es[..n], inUse);
    assert es == es[..n] + es[n..];
  }

  /** No entry in use is ever evicted. */
  lemma HeldSurvive(es: seq<Entry>, inUse: set<Key>, n: nat, e: Entry)
    requires n <= |es| && e in es && e.key in inUse
    ensures e in AfterPops(es, inUse, n)
  {
    assert es == es[..n] + es[n..];
    HeldMembers(es[..n], inUse, e);
  }

  lemma {:induction false} WithoutMembers(es: seq<Entry>, key: Key, e: Entry)
    ensures multiset(Without(es, key))[e] == if e.key == key then 0 else multiset(es)[e]
  {
    if es == [] {
    } else {
      WithoutMembers(es[1..], key, e);
      assert es == [es[0]] + es[1..];
    }
  }

  lemma PushedMembers(es: seq<Entry>, p: Entry, e: Entry)
    ensures multiset(Pushed(es, p))[e] == if e.key == p.key then if e == p then 1 else 0 else multiset(es)[e]
    ensures e in Pushed(es, p) <==> e == p || (e in es && e.key != p.key)
  {
    WithoutMembers(es, p.key, e);
    assert e in Without(es, p.key) <==> multiset(Without(es, p.key))[e] > 0;
    assert e in es <==> multiset(es)[e] > 0;
  }

  /** Pushing an entry that is cached already only moves it. */
  lemma PromotedMembers(es: seq<Entry>, p: Entry)
    requires Distinct(es) && p in es
    ensures multiset(Pushed(es, p)) == multiset(es)
    ensures forall e :: e in Pushed(es, p) <==> e in es
  {
    hide Pushed;
    forall e ensures multiset(Pushed(es, p))[e] == multiset(es)[e] && (e in Pushed(es, p) <==> e in es) {
      PushedMembers(es, p, e);
      assert e in es <==> multiset(es)[e] > 0;
      assert multiset(es)[p] > 0;
    }
  }

  /** Pushing puts the entry last, in place of the one for its key if there is one; the others keep their
      order. */
  lemma PushedIsLast(es: seq<Entry>, k: nat, p: Entry)
    requires Distinct(es) && k <= |es| && (k < |es| ==> es[k].key == p.key)
    requires k == |es| ==> p.key !in Keys(es)
    ensures Pushed(es, p) == es[..k] + (if k < |es| then es[k + 1..] else []) + [p]
  {
    if k == |es| {
      WithoutAbsent(es, p.key);
    } else {
      hide Without, Distinct, Keys;
      OthersApart(es, k);
      WithoutOne(es[..k], es[k], es[k + 1..]);
      assert es == es[..k] + ([es[k]] + es[k + 1..]);
    }
  }

  lemma WithoutOne(a: seq<Entry>, e: Entry, b: seq<Entry>)
    requires e.key !in Keys(a) && e.key !in Keys(b)
    ensures Without(a + ([e] + b), e.key) == a + b
  {
    assert Without([e] + b, e.key) == Without(b, e.key) by {
      assert ([e] + b)[1..] == b;
    }
    hide Without, Keys;
    WithoutAbsent(a, e.key);
    WithoutAbsent(b, e.key);
    WithoutConcat(a, [e] + b, e.key);
  }

  lemma OthersApart(es: seq<Entry>, k: nat)
    requires Distinct(es) && k < |es|
    ensures es[k].key !in Keys(es[..k]) && es[k].key !in Keys(es[k + 1..])
  {
    FreshInOrder(es, k);
    forall j | k < j < |es| ensures es[j].key != es[k].key {
      FreshInOrder(es, j);
      assert es[k] in es[..j];
    }
  }

  lemma {:induction false} WithoutConcat(a: seq<Entry>, b: seq<Entry>, key: Key)
    ensures Without(a + b, key) == Without(a, key) + Without(b, key)
  {
    if a == [] {
      assert a + b == b;
    } else {
      WithoutConcat(a[1..], b, key);
      assert (a + b)[1..] == a[1..] + b;
    }
  }

  /** In a cache without repetitions no entry's key occurs before it. */
  lemma FreshInOrder(es: seq<Entry>, n: nat)
    requires Distinct(es) && n < |es|
    ensures es[n].key !in Keys(es[..n])
  {
    assert es == es[..n] + [es[n]] + es[n + 1..];
    assert multiset(es)[es[n]] == multiset(es[..n])[es[n]] + 1 + multiset(es[n + 1..])[es[n]];
    assert es[n] !in es[..n];
    assert forall e :: e in es[..n] ==> e in es;
  }

  /** A key that is not cached is simply appended. */
  lemma {:induction false} WithoutAbsent(es: seq<Entry>, key: Key)
    requires key !in Keys(es)
    ensures Without(es, key) == es
  {
    if es == [] {
    } else {
      assert es[0] in es && forall e <- es[1..] :: e in es;
      WithoutAbsent(es[1..], key);
    }
  }

  /** Freeing what the pops evicted leaves every remaining entry backed, and frees nothing else. */
  lemma PopsKeepBacked(es: seq<Entry>, inUse: set<Key>, n: nat, live: map<nat, Box>)
    requires n <= |es| && Backed(es, live)
    ensures Backed(AfterPops(es, inUse, n), live - Ids(Evictable(es[..n], inUse)))
    ensures Ids(es) - Ids(Evictable(es[..n], inUse)) == Ids(AfterPops(es, inUse, n))
  {
    hide AfterPops, Evictable;
    PopsConserve(es, inUse, n);
    var kept, gone := AfterPops(es, inUse, n), Evictable(es[..n], inUse);
    forall e ensures multiset(es)[e] == multiset(kept)[e] + multiset(gone)[e] {}
    assert forall e :: e in es <==> multiset(es)[e] > 0;
    assert forall e :: e in kept <==> multiset(kept)[e] > 0;
    assert forall e :: e in gone <==> multiset(gone)[e] > 0;
    forall e | e in kept ensures e in es && e !in gone && e.region.allocId !in Ids(gone) {
      assert multiset(es)[e] <= 1;
    }
    assert forall e :: e in es <==> e in kept || e in gone;
  }

  /** A new entry in a fresh box keeps the cache backed. */
  lemma PushKeepsBacked(es: seq<Entry>, live: map<nat, Box>, p: Entry, b: Box)
    requires Backed(es, live) && p.region.allocId !in live && Covers(b, p.region.box)
    ensures Backed(Pushed(es, p), live[p.region.allocId := b])
  {
    hide Pushed, Covers;
    forall e ensures multiset(Pushed(es, p))[e] <= 1 {
      PushedMembers(es, p, e);
    }
    forall e ensures e in Pushed(es, p) <==> e == p || (e in es && e.key != p.key) {
      PushedMembers(es, p, e);
    }
    forall e | e in es ensures BackedBy(e, live) && e.region.allocId != p.region.allocId {}
  }

  /** Cached regions lie in the texture and apart from one another. */
  lemma RegionsApart(es: seq<Entry>, live: map<nat, Box>, width: nat, height: nat, e: Entry, f: Entry)
    requires Backed(es, live) && Packed(live, width, height) && e in es && f in es
    ensures Within(e.region.box, width, height)
    ensures e != f ==> Apart(e.region.box, f.region.box)
  {
    assert BackedBy(e, live) && BackedBy(f, live);
  }

  // ----- One plane of the atlas ----------------------------------------------------------------------

  /** No box was freed and the texture did not grow except right after the request was refused. */
  ghost predicate OnlyWhenRefused(before: seq<Event>, after: seq<Event>, w: nat, h: nat) {
    && before <= after
    && forall i :: |before| <= i < |after| && !after[i].Asked? ==> i > |before| && after[i - 1] == Asked(w, h, None)
  }

  ghost predicate JustRefused(before: seq<Event>, after: seq<Event>, w: nat, h: nat) {
    |before| < |after| && after[|after| - 1] == Asked(w, h, None)
  }

  predicate Askable(w: nat, h: nat) {
    w <= I32_MAX && h <= I32_MAX
  }

  function Doubled(n: nat): (r: nat)
    ensures r <= MAX_SIZE && (n <= MAX_SIZE ==> r >= n)
  {
    if n * 2 < MAX_SIZE then n * 2 else MAX_SIZE
  }

  /** The cache once an insertion is over: unchanged, or with the new entry most recently used. */
  function Settled(es: seq<Entry>, key: Key, r: Option<Region>): (es': seq<Entry>) {
    match r
    case None => es
    case Some(region) => Pushed(es, Entry(key, region))
  }

  /** An allocation was taken for the region `r`, or none was. */
  ghost predicate Granted(
    before: map<nat, Box>, after: map<nat, Box>, w: nat, h: nat, placement: Placement, r: Option<Region>)
  {
    match r
    case None => after == before
    case Some(region) =>
      && region.placement == placement && region.box.w == w && region.box.h == h
      && region.allocId !in before && region.allocId in after
      && Covers(after[region.allocId], region.box)
      && after == before[region.allocId := after[region.allocId]]
  }

  /** The cache and the allocations after inserting `g`, when `n` entries were popped and `r` came back. */
  ghost predicate Outcome(
    es: seq<Entry>, inUse: set<Key>, live: map<nat, Box>, g: Glyph, n: nat, r: Option<Region>,
    es': seq<Entry>, live': map<nat, Box>)
  {
    && n <= |es|
    && es' == Settled(AfterPops(es, inUse, n), g.key, r)
    && Granted(live - Ids(Evictable(es[..n], inUse)), live', g.w, g.h, g.placement, r)
  }

  /** The size a side reaches when it is doubled as often as the cap allows. */
  function Largest(n: nat): (r: nat)
    ensures r <= MAX_SIZE && (n <= MAX_SIZE ==> r >= n)
  {
    if n == 0 then 0 else MAX_SIZE
  }

  /** The sizes an insertion may leave: the same, or, once everything was popped, any up to the largest. */
  ghost predicate Resized(s: AllocatorV, t: AllocatorV, everything: bool) {
    && s.width <= t.width <= Largest(s.width) && s.height <= t.height <= Largest(s.height)
    && (!everything ==> t.width == s.width && t.height == s.height)
  }

  /** An outcome whose boxes also fit in a texture of a size the insertion may leave. */
  ghost predicate Feasible(
    es: seq<Entry>, inUse: set<Key>, s: AllocatorV, g: Glyph, n: nat, r: Option<Region>,
    es': seq<Entry>, t: AllocatorV)
  {
    && Outcome(es, inUse, s.live, g, n, r, es', t.live)
    && Resized(s, t, n == |es|)
    && Packed(t.live, t.width, t.height)
  }

  // ----- One insertion under a given policy --------------------------------------------------------

  /** One request: the answer, and the allocator after it. */
  function Ask(policy: Policy, s: AllocatorV, w: nat, h: nat): (r: (Option<(nat, Box)>, AllocatorV))
    ensures r.1.width == s.width && r.1.height == s.height
  {
    if !Askable(w, h) then (None, s)
    else
      match policy(s.history, s.live, s.width, s.height, w, h)
      case None => (None, s.(history := s.history + [Asked(w, h, None)]))
      case Some((id, b)) =>
        (Some((id, b)), s.(live := s.live[id := b], history := s.history + [Asked(w, h, Some(id))]))
  }

  /** How many entries were popped, what was granted, and the allocator after it. */
  datatype Attempt = Attempt(popped: nat, granted: Option<(nat, Box)>, allocator: AllocatorV)

  /** Evicting from the least-recently-used end, `n` entries popped so far, until the request is granted. */
  function EvictUntil(
    policy: Policy, s: AllocatorV, es: seq<Entry>, inUse: set<Key>, n: nat, w: nat, h: nat): (r: Attempt)
    requires n <= |es|
    ensures n <= r.popped <= |es| && (r.granted.None? ==> r.popped == |es|)
    ensures r.allocator.width == s.width && r.allocator.height == s.height
    decreases |es| - n
  {
    if n == |es| then Attempt(n, None, s)
    else if es[n].key in inUse then EvictUntil(policy, s, es, inUse, n + 1, w, h)
    else
      var (a, t) := Ask(policy, s.Freeing(es[n].region.allocId), w, h);
      if a.Some? then Attempt(n + 1, a, t) else EvictUntil(policy, t, es, inUse, n + 1, w, h)
  }

  /** Growing until the request is granted or the texture is at its largest. */
  function GrowUntil(policy: Policy, s: AllocatorV, w: nat, h: nat): (r: (Option<(nat, Box)>, AllocatorV))
    requires s.width <= MAX_SIZE && s.height <= MAX_SIZE
    decreases MAX_SIZE - s.width + (MAX_SIZE - s.height)
  {
    var newW, newH := Doubled(s.width), Doubled(s.height);
    if newW == s.width && newH == s.height then (None, s)
    else
      var (a, t) := Ask(policy, s.Growing(newW, newH), w, h);
      if a.Some? then (a, t) else GrowUntil(policy, t, w, h)
  }

  /** A whole insertion: at once, else by evicting, else by growing. */
  function InsertRun(
    policy: Policy, s: AllocatorV, es: seq<Entry>, inUse: set<Key>, w: nat, h: nat): (r: Attempt)
    requires s.width <= MAX_SIZE && s.height <= MAX_SIZE
    ensures r.popped <= |es|
  {
    var (a, t) := Ask(policy, s, w, h);
    if a.Some? then Attempt(0, a, t)
    else
      var e := EvictUntil(policy, t, es, inUse, 0, w, h);
      if e.granted.Some? then e
      else
        var (b, u) := GrowUntil(policy, e.allocator, w, h);
        Attempt(|es|, b, u)
  }

  lemma AskSound(policy: Policy, s: AllocatorV, w: nat, h: nat)
    requires Sound(policy) && Packed(s.live, s.width, s.height)
    ensures var (a, t) := Ask(policy, s, w, h);
      && Packed(t.live, t.width, t.height)
      && match a
         case None => t.live == s.live
         case Some((id, b)) => Fits(s.live, s.width, s.height, w, h, id, b) && t.live == s.live[id := b]
  {
    hide Packed;
  }

  lemma EvictStep(policy: Policy, s: AllocatorV, es: seq<Entry>, inUse: set<Key>, n: nat, w: nat, h: nat)
    requires n <= |es|
    ensures EvictUntil(policy, s, es, inUse, n, w, h) ==
      if n == |es| then Attempt(n, None, s)
      else if es[n].key in inUse then EvictUntil(policy, s, es, inUse, n + 1, w, h)
      else
        var (a, t) := Ask(policy, s.Freeing(es[n].region.allocId), w, h);
        if a.Some? then Attempt(n + 1, a, t) else EvictUntil(policy, t, es, inUse, n + 1, w, h)
  {
  }

  lemma FreeingKeepsPacked(s: AllocatorV, id: nat)
    requires Packed(s.live, s.width, s.height)
    ensures Packed(s.Freeing(id).live, s.width, s.height)
  {
  }

  /** What popping from position `n` on leaves: everything evictable freed, or a box granted on the way. */
  lemma {:induction false} EvictSound(
    policy: Policy, s: AllocatorV, es: seq<Entry>, inUse: set<Key>, n: nat, w: nat, h: nat, live: map<nat, Box>)
    requires Sound(policy) && Packed(s.live, s.width, s.height)
    requires n <= |es| && s.live == live - Ids(Evictable(es[..n], inUse))
    ensures var r := EvictUntil(policy, s, es, inUse, n, w, h);
      var left := live - Ids(Evictable(es[..r.popped], inUse));
      && Packed(r.allocator.live, s.width, s.height)
      && match r.granted
         case None => r.allocator.live == left
         case Some((id, b)) => Fits(left, s.width, s.height, w, h, id, b) && r.allocator.live == left[id := b]
    decreases |es| - n
  {
    hide Sound, Packed, Fits, Evictable, Ids, Ask, Held;
    if n == |es| {
    } else {
      PopOne(es, inUse, n, live);
      if es[n].key in inUse {
        EvictSound(policy, s, es, inUse, n + 1, w, h, live);
      } else {
        var f := s.Freeing(es[n].region.allocId);
        FreeingKeepsPacked(s, es[n].region.allocId);
        AskSound(policy, f, w, h);
        var (a, t) := Ask(policy, f, w, h);
        if a.None? {
          EvictSound(policy, t, es, inUse, n + 1, w, h, live);
        }
      }
    }
  }

  lemma GrowingKeepsPacked(live: map<nat, Box>, width: nat, height: nat, newWidth: nat, newHeight: nat)
    requires Packed(live, width, height) && width <= newWidth && height <= newHeight
    ensures Packed(live, newWidth, newHeight)
  {
  }

  /** Growing keeps every box, and gives up only at the largest size. */
  lemma {:induction false} GrowSound(policy: Policy, s: AllocatorV, w: nat, h: nat)
    requires Sound(policy) && Packed(s.live, s.width, s.height) && s.width <= MAX_SIZE && s.height <= MAX_SIZE
    ensures var (a, t) := GrowUntil(policy, s, w, h);
      && Packed(t.live, t.width, t.height)
      && Resized(s, t, true)
      && match a
         case None => t.live == s.live && t.width == Largest(s.width) && t.height == Largest(s.height)
         case Some((id, b)) => Fits(s.live, t.width, t.height, w, h, id, b) && t.live == s.live[id := b]
    decreases MAX_SIZE - s.width + (MAX_SIZE - s.height)
  {
    hide Sound, Packed, Fits, Ask;
    var newW, newH := Doubled(s.width), Doubled(s.height);
    if newW == s.width && newH == s.height {
    } else {
      GrowingKeepsPacked(s.live, s.width, s.height, newW, newH);
      var grown := s.Growing(newW, newH);
      AskSound(policy, grown, w, h);
      var (a, t) := Ask(policy, grown, w, h);
      if a.None? {
        GrowSound(policy, t, w, h);
      }
    }
  }

  /** A side after `k` doublings, none past the cap of 4096. */
  function AfterDoublings(n: nat, k: nat): (r: nat) {
    if k == 0 then n
    else
      var m := 2 * AfterDoublings(n, k - 1);
      if m < 4096 then m else 4096
  }

  lemma {:induction false} OneMoreDoubling(n: nat, k: nat)
    ensures AfterDoublings(Doubled(n), k) == AfterDoublings(n, k + 1)
  {
    if k == 0 {
    } else {
      OneMoreDoubling(n, k - 1);
    }
  }

  lemma {:induction false} GrowDoubles(policy: Policy, s: AllocatorV, w: nat, h: nat) returns (k: nat)
    requires s.width <= MAX_SIZE && s.height <= MAX_SIZE
    ensures var t := GrowUntil(policy, s, w, h).1;
      t.width == AfterDoublings(s.width, k) && t.height == AfterDoublings(s.height, k)
    decreases MAX_SIZE - s.width + (MAX_SIZE - s.height)
  {
    hide Ask;
    var newW, newH := Doubled(s.width), Doubled(s.height);
    k := 0;
    if newW == s.width && newH == s.height {
    } else {
      var (a, t) := Ask(policy, s.Growing(newW, newH), w, h);
      if a.None? {
        k := GrowDoubles(policy, t, w, h);
      }
      OneMoreDoubling(s.width, k);
      OneMoreDoubling(s.height, k);
      k := k + 1;
    }
  }

  /** An insertion leaves a texture whose sides were doubled some number of times, together. */
  lemma RunDoubles(policy: Policy, s: AllocatorV, es: seq<Entry>, inUse: set<Key>, w: nat, h: nat) returns (k: nat)
    requires s.width <= MAX_SIZE && s.height <= MAX_SIZE
    ensures var t := InsertRun(policy, s, es, inUse, w, h).allocator;
      t.width == AfterDoublings(s.width, k) && t.height == AfterDoublings(s.height, k)
  {
    hide Ask, EvictUntil, GrowUntil;
    k := 0;
    var (a, t) := Ask(policy, s, w, h);
    if a.None? {
      var e := EvictUntil(policy, t, es, inUse, 0, w, h);
      if e.granted.None? {
        k := GrowDoubles(policy, e.allocator, w, h);
      }
    }
  }

  /** Every insertion, whatever sound policy answers it, has a feasible outcome. */
  lemma RunFeasible(policy: Policy, s: AllocatorV, es: seq<Entry>, inUse: set<Key>, g: Glyph)
    requires Sound(policy) && Packed(s.live, s.width, s.height) && s.width <= MAX_SIZE && s.height <= MAX_SIZE
    ensures var run := InsertRun(policy, s, es, inUse, g.w, g.h);
      var r := RegionOf(run.granted, g.w, g.h, g.placement);
      && Feasible(es, inUse, s, g, run.popped, r, Settled(AfterPops(es, inUse, run.popped), g.key, r), run.allocator)
      && (run.popped < |es| ==> r.Some?)
      && (r.None? ==> run.allocator.width == Largest(s.width) && run.allocator.height == Largest(s.height))
  {
    hide Sound, Packed, Evictable, Ids, Ask, AfterPops, Settled, EvictUntil, GrowUntil;
    NoPops(es, inUse, s.live);
    AskSound(policy, s, g.w, g.h);
    var (a, t) := Ask(policy, s, g.w, g.h);
    if a.None? {
      EvictSound(policy, t, es, inUse, 0, g.w, g.h, s.live);
      var e := EvictUntil(policy, t, es, inUse, 0, g.w, g.h);
      if e.granted.None? {
        GrowSound(policy, e.allocator, g.w, g.h);
      }
    }
  }

  /** Asking once more keeps every other event right after a refusal. */
  lemma AskFrugal(policy: Policy, before: seq<Event>, s: AllocatorV, w: nat, h: nat)
    requires Askable(w, h) && OnlyWhenRefused(before, s.history, w, h)
    ensures var (a, t) := Ask(policy, s, w, h);
      OnlyWhenRefused(before, t.history, w, h) && (a.None? ==> JustRefused(before, t.history, w, h))
  {
  }

  lemma {:induction false} EvictFrugal(
    policy: Policy, before: seq<Event>, s: AllocatorV, es: seq<Entry>, inUse: set<Key>, n: nat, w: nat, h: nat)
    requires Askable(w, h) && n <= |es|
    requires OnlyWhenRefused(before, s.history, w, h) && JustRefused(before, s.history, w, h)
    ensures var r := EvictUntil(policy, s, es, inUse, n, w, h);
      && OnlyWhenRefused(before, r.allocator.history, w, h)
      && (r.granted.None? ==> JustRefused(before, r.allocator.history, w, h))
    decreases |es| - n
  {
    hide Ask, Askable;
    if n == |es| {
    } else if es[n].key in inUse {
      EvictFrugal(policy, before, s, es, inUse, n + 1, w, h);
    } else {
      var f := s.Freeing(es[n].region.allocId);
      assert OnlyWhenRefused(before, f.history, w, h);
      hide OnlyWhenRefused, JustRefused;
      AskFrugal(policy, before, f, w, h);
      var (a, t) := Ask(policy, f, w, h);
      if a.None? {
        EvictFrugal(policy, before, t, es, inUse, n + 1, w, h);
      }
    }
  }

  lemma {:induction false} GrowFrugal(policy: Policy, before: seq<Event>, s: AllocatorV, w: nat, h: nat)
    requires Askable(w, h) && s.width <= MAX_SIZE && s.height <= MAX_SIZE
    requires OnlyWhenRefused(before, s.history, w, h) && JustRefused(before, s.history, w, h)
    ensures OnlyWhenRefused(before, GrowUntil(policy, s, w, h).1.history, w, h)
    decreases MAX_SIZE - s.width + (MAX_SIZE - s.height)
  {
    hide Ask, Askable;
    var newW, newH := Doubled(s.width), Doubled(s.height);
    if newW == s.width && newH == s.height {
    } else {
      var grown := s.Growing(newW, newH);
      assert OnlyWhenRefused(before, grown.history, w, h);
      hide OnlyWhenRefused, JustRefused;
      AskFrugal(policy, before, grown, w, h);
      var (a, t) := Ask(policy, grown, w, h);
      if a.None? {
        GrowFrugal(policy, before, t, w, h);
      }
    }
  }

  /** An insertion that can ask frees or grows only right after a refusal. */
  lemma RunFrugal(policy: Policy, s: AllocatorV, es: seq<Entry>, inUse: set<Key>, w: nat, h: nat)
    requires s.width <= MAX_SIZE && s.height <= MAX_SIZE
    ensures Askable(w, h) ==>
      OnlyWhenRefused(s.history, InsertRun(policy, s, es, inUse, w, h).allocator.history, w, h)
  {
    if Askable(w, h) {
      hide Ask, Askable, EvictUntil, GrowUntil;
      assert OnlyWhenRefused(s.history, s.history, w, h);
      hide OnlyWhenRefused, JustRefused;
      AskFrugal(policy, s.history, s, w, h);
      var (a, t) := Ask(policy, s, w, h);
      if a.None? {
        EvictFrugal(policy, s.history, t, es, inUse, 0, w, h);
        var e := EvictUntil(policy, t, es, inUse, 0, w, h);
        if e.granted.None? {
          GrowFrugal(policy, s.history, e.allocator, w, h);
        }
      }
    }
  }

  function RegionOf(granted: Option<(nat, Box)>, w: nat, h: nat, placement: Placement): (r: Option<Region>) {
    match granted
    case None => None
    case Some((id, b)) => Some(Region(Box(b.x, b.y, w, h), placement, id))
  }

  class AtlasPlane {
    var allocator: Allocator
    var width: nat
    var height: nat
    var lru: seq<Entry>
    var inUse: set<Key>

    ghost predicate Valid()
      reads this, allocator
    {
      && allocator.Valid()
      && allocator.width == width <= MAX_SIZE && allocator.height == height <= MAX_SIZE
      && Backed(lru, allocator.live)
    }

    /** No side of the texture can grow any more. */
    ghost predicate Full()
      reads this
    {
      (width == 0 || width == 4096) && (height == 0 || height == 4096)
    }

    /** Every live allocation backs a cached glyph: nothing has leaked. */
    ghost predicate Tight()
      reads this, allocator
    {
      allocator.live.Keys == Ids(lru)
    }

    constructor (policy: Policy)
      requires Sound(policy)
      ensures Valid() && Tight() && fresh(allocator) && allocator.policy == policy
      ensures lru == [] && inUse == {} && width == INITIAL_SIZE && height == INITIAL_SIZE
    {
      allocator := new Allocator(policy, INITIAL_SIZE, INITIAL_SIZE);
      width, height := INITIAL_SIZE, INITIAL_SIZE;
      lru, inUse := [], {};
    }

    constructor WithSize(policy: Policy, width: nat, height: nat)
      requires Sound(policy) && width <= MAX_SIZE && height <= MAX_SIZE
      ensures Valid() && Tight() && fresh(allocator) && allocator.policy == policy
      ensures lru == [] && inUse == {} && this.width == width && this.height == height
    {
      allocator := new Allocator(policy, width, height);
      this.width, this.height := width, height;
      lru, inUse := [], {};
    }

    /** Looking a glyph up makes it the most recently used and changes nothing else. */
    method Get(key: Key) returns (r: Option<Region>)
      requires Valid()
      modifies this`lru
      ensures Valid()
      ensures r == Lookup(old(lru), key)
      ensures lru == Settled(old(lru), key, r)
      ensures forall e :: e in lru <==> e in old(lru)
    {
      r := Lookup(lru, key);
      if r.Some? {
        PromotedMembers(lru, Entry(key, r.value));
        lru := Without(lru, key) + [Entry(key, r.value)];
      }
    }

    method MarkInUse(key: Key)
      modifies this`inUse
      ensures inUse == old(inUse) + {key}
    {
      inUse := inUse + {key};
    }

    method ClearInUse()
      modifies this`inUse
      ensures inUse == {}
    {
      inUse := {};
    }

    method Clear()
      requires Valid()
      modifies this`allocator, this`lru, this`inUse
      ensures Valid() && Tight() && fresh(allocator) && allocator.policy == old(allocator.policy)
      ensures lru == [] && inUse == {}
    {
      lru := [];
      inUse := {};
      allocator := new Allocator(allocator.policy, width, height);
    }

    method TryAllocate(w: nat, h: nat) returns (r: Option<(nat, Box)>)
      requires allocator.Valid()
      modifies allocator`live, allocator`history
      ensures allocator.Valid()
      ensures match r
        case None => allocator.live == old(allocator.live)
        case Some((id, b)) =>
          && Fits(old(allocator.live), allocator.width, allocator.height, w, h, id, b)
          && allocator.live == old(allocator.live)[id := b]
      ensures (r, allocator.View()) == Ask(allocator.policy, old(allocator.View()), w, h)
    {
      if !Askable(w, h) {
        return None;
      }
      r := allocator.Allocate(w, h);
    }

    /** The skipped entries go back one by one, most recently used last. */
    method PushBack(skipped: seq<Entry>)
      requires Distinct(lru + skipped)
      modifies this`lru
      ensures lru == old(lru) + skipped
    {
      hide Distinct, Without, Keys;
      ghost var was := lru;
      for i := 0 to |skipped|
        invariant lru == was + skipped[..i]
      {
        FreshInOrder(was + skipped, |was| + i);
        assert (was + skipped)[..|was| + i] == was + skipped[..i];
        WithoutAbsent(lru, skipped[i].key);
        lru := Without(lru, skipped[i].key) + [skipped[i]];
      }
      assert skipped[..|skipped|] == skipped;
    }

    /** Doubles the texture until the request fits or both sides are at the cap. */
    method GrowAndRetry(key: Key, w: nat, h: nat, placement: Placement) returns (r: Option<Region>)
      requires Valid()
      modifies this`lru, this`width, this`height, allocator
      ensures Valid()
      ensures var (granted, after) := GrowUntil(allocator.policy, old(allocator.View()), w, h);
        allocator.View() == after && r == RegionOf(granted, w, h, placement)
      ensures lru == Settled(old(lru), key, r)
      ensures Granted(old(allocator.live), allocator.live, w, h, placement, r)
      ensures width >= old(width) && height >= old(height)
      ensures r.None? ==> Doubled(width) == width && Doubled(height) == height
    {
      hide Sound, Packed, Fits, Backed, Pushed, Covers, Ask, Askable;
      while true
        invariant Valid()
        invariant lru == old(lru) && allocator.live == old(allocator.live)
        invariant GrowUntil(allocator.policy, allocator.View(), w, h)
               == GrowUntil(allocator.policy, old(allocator.View()), w, h)
        invariant width >= old(width) && height >= old(height)
        decreases MAX_SIZE - width + (MAX_SIZE - height)
      {
        var newW, newH := Doubled(width), Doubled(height);
        if newW == width && newH == height {
          return None;
        }
        allocator.Grow(newW, newH);
        width, height := newW, newH;
        var a := TryAllocate(w, h);
        if a.Some? {
          r := Adopt(key, w, h, placement, a.value.0, a.value.1, old(allocator.live));
          return;
        }
      }
    }

    /** Records a granted allocation under `key`. */
    method Adopt(key: Key, w: nat, h: nat, placement: Placement, id: nat, b: Box, ghost live: map<nat, Box>)
      returns (r: Option<Region>)
      requires allocator.Valid()
      requires allocator.width == width <= MAX_SIZE && allocator.height == height <= MAX_SIZE
      requires Backed(lru, live) && Fits(live, width, height, w, h, id, b) && allocator.live == live[id := b]
      modifies this`lru
      ensures Valid()
      ensures r == Some(Region(Box(b.x, b.y, w, h), placement, id))
      ensures lru == Settled(old(lru), key, r)
      ensures Granted(live, allocator.live, w, h, placement, r)
    {
      var region := Region(Box(b.x, b.y, w, h), placement, id);
      PushKeepsBacked(lru, live, Entry(key, region), b);
      lru := Pushed(lru, Entry(key, region));
      r := Some(region);
    }

    /**
     * Caches a new glyph. `popped` entries leave the least-recently-used end: those in use are pushed
     * back with their regions, the others are evicted and freed. Eviction stops at the first success;
     * only when nothing more can be evicted does the texture grow, and it fails only at its largest.
     */
    method Insert(key: Key, w: nat, h: nat, placement: Placement) returns (r: Option<Region>, ghost popped: nat)
      requires Valid()
      modifies this`lru, this`width, this`height, allocator
      ensures Valid()
      ensures var run := InsertRun(allocator.policy, old(allocator.View()), old(lru), inUse, w, h);
        popped == run.popped && r == RegionOf(run.granted, w, h, placement) && allocator.View() == run.allocator
      ensures Feasible(old(lru), inUse, old(allocator.View()), Glyph(key, w, h, placement), popped, r,
                       lru, allocator.View())
      ensures popped < |old(lru)| ==> r.Some? && width == old(width) && height == old(height)
      ensures r.None? ==> Doubled(width) == width && Doubled(height) == height
      ensures Askable(w, h) ==> OnlyWhenRefused(old(allocator.history), allocator.history, w, h)
    {
      hide Sound, Packed, Fits, Backed, Settled, Granted, AfterPops, Evictable, Held, Distinct, Feasible;
      hide OnlyWhenRefused, Ask, EvictUntil, GrowUntil, Outcome;
      ghost var was, live, s := lru, allocator.live, allocator.View();
      ghost var policy := allocator.policy;
      RunFeasible(policy, s, was, inUse, Glyph(key, w, h, placement));
      RunFrugal(policy, s, was, inUse, w, h);
      popped := 0;
      var a := TryAllocate(w, h);
      NoPops(was, inUse, live);
      if a.Some? {
        r := Adopt(key, w, h, placement, a.value.0, a.value.1, live);
        return;
      }
      ghost var evicting := EvictUntil(policy, allocator.View(), was, inUse, 0, w, h);
      var skipped: seq<Entry> := [];
      while |lru| > 0
        invariant popped <= |was| && lru == was[popped..]
        invariant skipped == Held(was[..popped], inUse)
        invariant allocator.Valid() && allocator.width == width && allocator.height == height
        invariant width == old(width) && height == old(height)
        invariant allocator.live == live - Ids(Evictable(was[..popped], inUse))
        invariant EvictUntil(policy, allocator.View(), was, inUse, popped, w, h) == evicting
      {
        EvictStep(policy, allocator.View(), was, inUse, popped, w, h);
        var e := lru[0];
        lru := lru[1..];
        PopOne(was, inUse, popped, live);
        popped := popped + 1;
        if e.key in inUse {
          skipped := skipped + [e];
          continue;
        }
        allocator.Deallocate(e.region.allocId);
        var a := TryAllocate(w, h);
        if a.Some? {
          PopsKeepBacked(was, inUse, popped, live);
          RepushedIsAfterPops(was, inUse, popped, live);
          PushBack(skipped);
          r := Adopt(key, w, h, placement, a.value.0, a.value.1,
                     live - Ids(Evictable(was[..popped], inUse)));
          return;
        }
      }
      EvictStep(policy, allocator.View(), was, inUse, popped, w, h);
      PopsKeepBacked(was, inUse, popped, live);
      RepushedIsAfterPops(was, inUse, popped, live);
      PushBack(skipped);
      r := GrowAndRetry(key, w, h, placement);
    }
  }

  lemma NoPops(es: seq<Entry>, inUse: set<Key>, live: map<nat, Box>)
    ensures AfterPops(es, inUse, 0) == es
    ensures Evictable(es[..0], inUse) == [] && Held(es[..0], inUse) == []
    ensures live - Ids(Evictable(es[..0], inUse)) == live
  {
    assert es[..0] == [] && es[0..] == es;
  }

  /** One more pop: an entry in use is held, any other is evicted and its box freed. */
  lemma PopOne(es: seq<Entry>, inUse: set<Key>, n: nat, live: map<nat, Box>)
    requires n < |es|
    ensures var e := es[n];
      if e.key in inUse then
        && Held(es[..n + 1], inUse) == Held(es[..n], inUse) + [e]
        && Evictable(es[..n + 1], inUse) == Evictable(es[..n], inUse)
      else
        && Held(es[..n + 1], inUse) == Held(es[..n], inUse)
        && live - Ids(Evictable(es[..n + 1], inUse)) ==
           live - Ids(Evictable(es[..n], inUse)) - {e.region.allocId}
  {
    assert es[..n + 1] == es[..n] + [es[n]];
    HeldConcat(es[..n], [es[n]], inUse);
    EvictableConcat(es[..n], [es[n]], inUse);
    var gone := Evictable(es[..n], inUse);
    assert Ids(gone + [es[n]]) == Ids(gone) + {es[n].region.allocId} by {
      assert forall e :: e in gone + [es[n]] <==> e in gone || e == es[n];
    }
  }

  lemma RepushedIsAfterPops(es: seq<Entry>, inUse: set<Key>, n: nat, live: map<nat, Box>)
    requires n <= |es| && Backed(es, live)
    ensures es[n..] + Held(es[..n], inUse) == AfterPops(es, inUse, n)
    ensures Distinct(AfterPops(es, inUse, n))
  {
    PopsKeepBacked(es, inUse, n, live);
  }

  // ----- Drawing a frame -----------------------------------------------------------------------------

  /**
   * The renderer's use of a plane for one glyph: look it up, insert it on a miss, mark it in use. Every
   * glyph already in use keeps its region, and no allocation is leaked. A cached glyph has its cached
   * region, another one a new region of its own size; only a glyph without area, or one that found no room
   * in a texture at its largest, has none.
   */
  method DrawGlyph(plane: AtlasPlane, g: Glyph) returns (r: Option<Region>)
    requires plane.Valid()
    modifies plane`lru, plane`width, plane`height, plane`inUse, plane.allocator
    ensures plane.Valid()
    ensures old(plane.Tight()) ==> plane.Tight()
    ensures forall e :: e in old(plane.lru) && e.key in old(plane.inUse) ==> e in plane.lru
    ensures plane.inUse == if r.Some? then old(plane.inUse) + {g.key} else old(plane.inUse)
    ensures r.Some? ==> Entry(g.key, r.value) in plane.lru
    ensures g.key in Keys(old(plane.lru)) ==> r.Some? && Entry(g.key, r.value) in old(plane.lru)
    ensures g.key !in Keys(old(plane.lru)) && r.Some? ==>
      g.w > 0 && g.h > 0 && r.value.box.w == g.w && r.value.box.h == g.h && r.value.placement == g.placement
    ensures r.None? ==> g.w == 0 || g.h == 0 || plane.Full()
    ensures old(plane.Full()) ==> plane.Full()
  {
    hide Sound, Packed, Backed, Pushed, AfterPops, Evictable, Held, Without, OnlyWhenRefused, Distinct, InsertRun;
    r := plane.Get(g.key);
    if r.None? {
      if g.w == 0 || g.h == 0 {
        return;
      }
      ghost var es, inUse, live := plane.lru, plane.inUse, plane.allocator.live;
      ghost var popped;
      r, popped := plane.Insert(g.key, g.w, g.h, g.placement);
      InsertKeeps(es, inUse, popped, live, g, r, plane.lru, plane.allocator.live);
      if r.None? {
        return;
      }
    }
    plane.MarkInUse(g.key);
  }

  /** What an insertion of an uncached key keeps. */
  lemma InsertKeeps(
    es: seq<Entry>, inUse: set<Key>, n: nat, live: map<nat, Box>, g: Glyph, r: Option<Region>,
    es': seq<Entry>, live': map<nat, Box>)
    requires Backed(es, live) && g.key !in Keys(es)
    requires Outcome(es, inUse, live, g, n, r, es', live')
    ensures live.Keys == Ids(es) ==> live'.Keys == Ids(es')
    ensures forall e :: e in es && e.key in inUse ==> e in es'
    ensures r.Some? ==> Entry(g.key, r.value) in es'
  {
    hide AfterPops, Evictable, Pushed;
    var kept := AfterPops(es, inUse, n);
    PopsKeepBacked(es, inUse, n, live);
    PopsConserve(es, inUse, n);
    forall e | e in kept ensures e in es {
      assert multiset(es)[e] >= multiset(kept)[e] > 0;
    }
    forall e | e in es && e.key in inUse ensures e in kept {
      HeldSurvive(es, inUse, n, e);
    }
    if r.Some? {
      var p := Entry(g.key, r.value);
      forall e ensures e in es' <==> e == p || (e in kept && e.key != p.key) {
        PushedMembers(kept, p, e);
      }
      assert forall e :: e in es' <==> e == p || e in kept;
      assert Ids(es') == Ids(kept) + {p.region.allocId};
    }
  }

  /** With nothing leaked before, an outcome leaks exactly when its new entry replaced one still cached. */
  lemma OutcomeLeaksIff(
    es: seq<Entry>, inUse: set<Key>, n: nat, live: map<nat, Box>, g: Glyph, r: Option<Region>,
    es': seq<Entry>, live': map<nat, Box>)
    requires Backed(es, live) && live.Keys == Ids(es)
    requires Outcome(es, inUse, live, g, n, r, es', live')
    ensures n <= |es|
    ensures live'.Keys == Ids(es') <==> r.None? || g.key !in Keys(AfterPops(es, inUse, n))
  {
    hide AfterPops, Evictable, Pushed;
    var kept := AfterPops(es, inUse, n);
    PopsKeepBacked(es, inUse, n, live);
    if r.Some? {
      var p := Entry(g.key, r.value);
      forall e ensures e in es' <==> e == p || (e in kept && e.key != p.key) {
        PushedMembers(kept, p, e);
      }
      assert live'.Keys == Ids(kept) + {p.region.allocId};
      if g.key in Keys(kept) {
        var f :| f in kept && f.key == g.key;
        assert BackedBy(f, live - Ids(Evictable(es[..n], inUse)));
        assert f.region.allocId in live'.Keys && f.region.allocId !in Ids(es');
      } else {
        assert forall e :: e in es' <==> e == p || e in kept;
        assert Ids(es') == Ids(kept) + {p.region.allocId};
      }
    }
  }

  // ----- When an insertion can leak ------------------------------------------------------------------

  /** The position of a cached key, least recently used first. */
  function Position(es: seq<Entry>, key: Key): (i: nat)
    requires key in Keys(es)
    ensures i < |es| && es[i].key == key
  {
    if es[0].key == key then 0
    else
      assert forall e <- es :: e == es[0] || e in es[1..];
      1 + Position(es[1..], key)
  }

  /** The most entries that can be popped with the key still cached: all when it is in use, else those before it. */
  function LastPop(es: seq<Entry>, inUse: set<Key>, key: Key): (n: nat)
    requires key in Keys(es)
    ensures n <= |es|
  {
    if key in inUse then |es| else Position(es, key)
  }

  /** A box free of the live ones. */
  ghost predicate Vacant(live: map<nat, Box>, width: nat, height: nat, b: Box) {
    Within(b, width, height) && forall i <- live :: Apart(live[i], b)
  }

  /**
   * Room for a second box of the key's size while the key is still cached: what may be evicted before it is
   * gone, and, when the key is in use so that everything else may, the texture at its largest.
   */
  ghost predicate Room(es: seq<Entry>, inUse: set<Key>, s: AllocatorV, g: Glyph) {
    g.key in Keys(es)
    && var live := s.live - Ids(Evictable(es[..LastPop(es, inUse, g.key)], inUse));
    && var (width, height) := if g.key in inUse then (Largest(s.width), Largest(s.height)) else (s.width, s.height);
    exists x, y :: Vacant(live, width, height, Box(x, y, g.w, g.h))
  }

  /** The key is still cached after `n` pops exactly when they are not too many. */
  lemma CachedAfterPopsIff(es: seq<Entry>, inUse: set<Key>, n: nat, key: Key)
    requires Distinct(es) && n <= |es|
    ensures key in Keys(AfterPops(es, inUse, n)) <==> key in Keys(es) && n <= LastPop(es, inUse, key)
  {
    forall e ensures e in AfterPops(es, inUse, n) <==> e in es[n..] || (e in es[..n] && e.key in inUse) {
      HeldMembers(es[..n], inUse, e);
    }
    hide AfterPops;
    if key in Keys(es) {
      var k := Position(es, key);
      assert key in Keys(es[n..]) <==> n <= k by {
        if n <= k {
          assert es[n..][k - n] == es[k];
        } else if key in Keys(es[n..]) {
          var j :| n <= j < |es| && es[j].key == key;
          FreshInOrder(es, j);
        }
      }
      assert es == es[..n] + es[n..];
    }
  }

  /** A number above every identifier in use. */
  ghost function Above(ids: set<nat>): (bound: nat)
    ensures forall id <- ids :: id < bound
  {
    if ids == {} then 0
    else
      var id :| id in ids;
      var rest := Above(ids - {id});
      assert forall j <- ids :: j == id || j in ids - {id};
      if rest > id then rest else id + 1
  }

  /** The policy that grants one request, in one state of the texture, and refuses every other. */
  function Only(target: map<nat, Box>, width: nat, height: nat, w: nat, h: nat, id: nat, b: Box): Policy {
    (_, live, width', height', w', h') =>
      if live == target && width' == width && height' == height && w' == w && h' == h then Some((id, b)) else None
  }

  lemma OnlySound(target: map<nat, Box>, width: nat, height: nat, w: nat, h: nat, id: nat, b: Box)
    requires Fits(target, width, height, w, h, id, b)
    ensures Sound(Only(target, width, height, w, h, id, b))
  {
    hide Fits, Packed;
  }

  lemma AskOnly(
    target: map<nat, Box>, width: nat, height: nat, w: nat, h: nat, id: nat, b: Box, s: AllocatorV)
    requires Askable(w, h)
    ensures var (a, t) := Ask(Only(target, width, height, w, h, id, b), s, w, h);
      && (a.Some? <==> s.live == target && s.width == width && s.height == height)
      && (a.None? ==> t.live == s.live)
  {
  }

  /** Evicting reaches the state the policy waits for, or is granted before. */
  lemma {:induction false} EvictReaches(
    live: map<nat, Box>, target: map<nat, Box>, w: nat, h: nat, id: nat, b: Box, s: AllocatorV,
    es: seq<Entry>, inUse: set<Key>, n: nat, k: nat)
    requires Askable(w, h) && n <= k <= |es| && s.live != target
    requires s.live == live - Ids(Evictable(es[..n], inUse)) && target == live - Ids(Evictable(es[..k], inUse))
    ensures var r := EvictUntil(Only(target, s.width, s.height, w, h, id, b), s, es, inUse, n, w, h);
      r.granted.Some? && r.popped <= k
    decreases k - n
  {
    hide Askable, Evictable, Ids, Ask, Only, Held;
    PopOne(es, inUse, n, live);
    if es[n].key in inUse {
      EvictReaches(live, target, w, h, id, b, s, es, inUse, n + 1, k);
    } else {
      var f := s.Freeing(es[n].region.allocId);
      AskOnly(target, s.width, s.height, w, h, id, b, f);
      var (a, t) := Ask(Only(target, s.width, s.height, w, h, id, b), f, w, h);
      if a.None? {
        EvictReaches(live, target, w, h, id, b, t, es, inUse, n + 1, k);
      }
    }
  }

  /** Growing reaches the largest size. */
  lemma {:induction false} GrowReaches(w: nat, h: nat, id: nat, b: Box, s: AllocatorV, width: nat, height: nat)
    requires Askable(w, h) && s.width <= MAX_SIZE && s.height <= MAX_SIZE
    requires width == Largest(s.width) && height == Largest(s.height) && !(s.width == width && s.height == height)
    ensures GrowUntil(Only(s.live, width, height, w, h, id, b), s, w, h).0.Some?
    decreases MAX_SIZE - s.width + (MAX_SIZE - s.height)
  {
    hide Askable, Ask, Only;
    var grown := s.Growing(Doubled(s.width), Doubled(s.height));
    AskOnly(s.live, width, height, w, h, id, b, grown);
    var (a, t) := Ask(Only(s.live, width, height, w, h, id, b), grown, w, h);
    if a.None? {
      GrowReaches(w, h, id, b, t, width, height);
    }
  }

  /** A policy that waits for the state after `k` pops, at the present size or at the largest, is reached by then. */
  lemma RunReaches(
    s: AllocatorV, es: seq<Entry>, inUse: set<Key>, k: nat, width: nat, height: nat, w: nat, h: nat, id: nat, b: Box)
    requires s.width <= MAX_SIZE && s.height <= MAX_SIZE && Packed(s.live, s.width, s.height) && k <= |es|
    requires (width == s.width && height == s.height)
          || (k == |es| && width == Largest(s.width) && height == Largest(s.height))
    requires Fits(s.live - Ids(Evictable(es[..k], inUse)), width, height, w, h, id, b) && Askable(w, h)
    ensures
      var run := InsertRun(
        Only(s.live - Ids(Evictable(es[..k], inUse)), width, height, w, h, id, b), s, es, inUse, w, h);
      run.granted.Some? && run.popped <= k
  {
    hide Askable, Evictable, Ids, Ask, Only, Packed, Fits, Sound, EvictUntil, GrowUntil;
    var target := s.live - Ids(Evictable(es[..k], inUse));
    var policy := Only(target, width, height, w, h, id, b);
    NoPops(es, inUse, s.live);
    AskOnly(target, width, height, w, h, id, b, s);
    var (a, t) := Ask(policy, s, w, h);
    if a.None? {
      if width == s.width && height == s.height {
        EvictReaches(s.live, target, w, h, id, b, t, es, inUse, 0, k);
      } else {
        OnlySound(target, width, height, w, h, id, b);
        var e := EvictUntil(policy, t, es, inUse, 0, w, h);
        EvictSound(policy, t, es, inUse, 0, w, h, s.live);
        if e.granted.None? {
          GrowReaches(w, h, id, b, e.allocator, width, height);
        }
      }
    }
  }

  /** Under this policy the insertion leaves a live box that backs no cached glyph. */
  ghost predicate LeaksUnder(policy: Policy, s: AllocatorV, es: seq<Entry>, inUse: set<Key>, g: Glyph)
    requires s.width <= MAX_SIZE && s.height <= MAX_SIZE
  {
    var run := InsertRun(policy, s, es, inUse, g.w, g.h);
    var r := RegionOf(run.granted, g.w, g.h, g.placement);
    run.allocator.live.Keys != Ids(Settled(AfterPops(es, inUse, run.popped), g.key, r))
  }

  lemma VacantFits(s: AllocatorV, gone: set<nat>, width: nat, height: nat, id: nat, b: Box)
    requires Packed(s.live, s.width, s.height) && s.width <= width && s.height <= height && id !in s.live
    requires Vacant(s.live - gone, width, height, b)
    ensures Fits(s.live - gone, width, height, b.w, b.h, id, b)
  {
  }

  /** With room, some sound policy makes the insertion leak. */
  lemma RoomLeaks(es: seq<Entry>, inUse: set<Key>, s: AllocatorV, g: Glyph)
    requires Backed(es, s.live) && s.live.Keys == Ids(es) && Packed(s.live, s.width, s.height)
    requires s.width <= MAX_SIZE && s.height <= MAX_SIZE && Room(es, inUse, s, g)
    ensures exists policy :: Sound(policy) && LeaksUnder(policy, s, es, inUse, g)
  {
    hide Packed, Fits, Sound, Evictable, Ids, AfterPops, Settled, InsertRun, Only, Outcome;
    var k := LastPop(es, inUse, g.key);
    var gone := Ids(Evictable(es[..k], inUse));
    var (width, height) := if g.key in inUse then (Largest(s.width), Largest(s.height)) else (s.width, s.height);
    var x, y :| Vacant(s.live - gone, width, height, Box(x, y, g.w, g.h));
    var b, id := Box(x, y, g.w, g.h), Above(s.live.Keys);
    VacantFits(s, gone, width, height, id, b);
    OnlySound(s.live - gone, width, height, g.w, g.h, id, b);
    RunReaches(s, es, inUse, k, width, height, g.w, g.h, id, b);
    var policy := Only(s.live - gone, width, height, g.w, g.h, id, b);
    RunFeasible(policy, s, es, inUse, g);
    var run := InsertRun(policy, s, es, inUse, g.w, g.h);
    CachedAfterPopsIff(es, inUse, run.popped, g.key);
    var r := RegionOf(run.granted, g.w, g.h, g.placement);
    OutcomeLeaksIff(es, inUse, run.popped, s.live, g, r, Settled(AfterPops(es, inUse, run.popped), g.key, r),
                    run.allocator.live);
    assert LeaksUnder(policy, s, es, inUse, g);
  }

  /** More pops leave fewer live boxes. */
  lemma MorePops(es: seq<Entry>, inUse: set<Key>, n: nat, k: nat)
    requires n <= k <= |es|
    ensures Ids(Evictable(es[..n], inUse)) <= Ids(Evictable(es[..k], inUse))
  {
    assert es[..k] == es[..n] + es[n..k];
    EvictableConcat(es[..n], es[n..k], inUse);
    hide Evictable;
    forall e | e in Evictable(es[..n], inUse) ensures e in Evictable(es[..k], inUse) {}
  }

  /** A granted box leaves, among any fewer boxes and in any larger texture, a vacant one of the size asked for. */
  lemma GrantedWasVacant(
    live: map<nat, Box>, live': map<nat, Box>, g: Glyph, r: Option<Region>, fewer: map<nat, Box>,
    width: nat, height: nat, width': nat, height': nat)
    requires r.Some? && Granted(live, live', g.w, g.h, g.placement, r) && Packed(live', width, height)
    requires width <= width' && height <= height' && forall i <- fewer :: i in live && live[i] == fewer[i]
    ensures exists x, y :: Vacant(fewer, width', height', Box(x, y, g.w, g.h))
  {
    var b := live'[r.value.allocId];
    forall i <- fewer ensures Apart(fewer[i], Box(b.x, b.y, g.w, g.h)) {
      assert i in live' && live'[i] == fewer[i] && Apart(live'[i], b);
    }
    assert Vacant(fewer, width', height', Box(b.x, b.y, g.w, g.h));
  }

  /** A feasible outcome leaks only where there is room. */
  lemma LeakHasRoom(
    es: seq<Entry>, inUse: set<Key>, s: AllocatorV, g: Glyph, n: nat, r: Option<Region>,
    es': seq<Entry>, t: AllocatorV)
    requires Backed(es, s.live) && s.live.Keys == Ids(es) && s.width <= MAX_SIZE && s.height <= MAX_SIZE
    requires Feasible(es, inUse, s, g, n, r, es', t) && t.live.Keys != Ids(es')
    ensures Room(es, inUse, s, g)
  {
    hide Packed, Evictable, AfterPops, Settled, Granted, Vacant;
    OutcomeLeaksIff(es, inUse, n, s.live, g, r, es', t.live);
    CachedAfterPopsIff(es, inUse, n, g.key);
    var k := LastPop(es, inUse, g.key);
    MorePops(es, inUse, n, k);
    var (width, height) := if g.key in inUse then (Largest(s.width), Largest(s.height)) else (s.width, s.height);
    GrantedWasVacant(s.live - Ids(Evictable(es[..n], inUse)), t.live, g, r, s.live - Ids(Evictable(es[..k], inUse)),
                     t.width, t.height, width, height);
  }

  /**
   * Exactly when an insertion can leak, from a plane in which nothing has: when there is room for a second box
   * while the key is still cached. Then some sound policy makes it leak, and otherwise none does, nor does any
   * feasible outcome.
   */
  lemma InsertLeaksIff(es: seq<Entry>, inUse: set<Key>, s: AllocatorV, g: Glyph)
    requires Backed(es, s.live) && s.live.Keys == Ids(es) && Packed(s.live, s.width, s.height)
    requires s.width <= MAX_SIZE && s.height <= MAX_SIZE
    ensures Room(es, inUse, s, g) <==> exists policy :: Sound(policy) && LeaksUnder(policy, s, es, inUse, g)
    ensures Room(es, inUse, s, g) <==>
      exists n, r, es', t :: Feasible(es, inUse, s, g, n, r, es', t) && t.live.Keys != Ids(es')
  {
    hide Room, Feasible, Sound, Packed, Backed, InsertRun, Settled, AfterPops, Ids;
    if exists n, r, es', t :: Feasible(es, inUse, s, g, n, r, es', t) && t.live.Keys != Ids(es') {
      var n, r, es', t :| Feasible(es, inUse, s, g, n, r, es', t) && t.live.Keys != Ids(es');
      LeakHasRoom(es, inUse, s, g, n, r, es', t);
    }
    if Room(es, inUse, s, g) {
      RoomLeaks(es, inUse, s, g);
    }
    if exists policy :: Sound(policy) && LeaksUnder(policy, s, es, inUse, g) {
      var policy :| Sound(policy) && LeaksUnder(policy, s, es, inUse, g);
      RunFeasible(policy, s, es, inUse, g);
    }
  }

  /** A key that is not cached never leaks. */
  lemma UncachedNeverLeaks(
    es: seq<Entry>, inUse: set<Key>, s: AllocatorV, g: Glyph, n: nat, r: Option<Region>,
    es': seq<Entry>, t: AllocatorV)
    requires Backed(es, s.live) && s.live.Keys == Ids(es) && s.width <= MAX_SIZE && s.height <= MAX_SIZE
    requires Feasible(es, inUse, s, g, n, r, es', t) && g.key !in Keys(es)
    ensures t.live.Keys == Ids(es')
  {
    hide Feasible, Backed;
    if t.live.Keys != Ids(es') {
      LeakHasRoom(es, inUse, s, g, n, r, es', t);
    }
  }

  /** A key that is cached and in use leaks whenever its insertion succeeds. */
  lemma HeldAlwaysLeaks(
    es: seq<Entry>, inUse: set<Key>, s: AllocatorV, g: Glyph, n: nat, r: Option<Region>,
    es': seq<Entry>, t: AllocatorV)
    requires Backed(es, s.live) && s.live.Keys == Ids(es)
    requires Feasible(es, inUse, s, g, n, r, es', t) && g.key in Keys(es) && g.key in inUse && r.Some?
    ensures t.live.Keys != Ids(es')
  {
    hide Backed, AfterPops;
    OutcomeLeaksIff(es, inUse, n, s.live, g, r, es', t.live);
    var e :| e in es && e.key == g.key;
    HeldSurvive(es, inUse, n, e);
  }

  /** A policy that grants the first request the corner and the second the space to its right. */
  function TwoSlots(
    history: seq<Event>, live: map<nat, Box>, width: nat, height: nat, w: nat, h: nat): Option<(nat, Box)>
  {
    if live == map[] && w <= width && h <= height then Some((0, Box(0, 0, w, h)))
    else if live.Keys == {0} && live[0].x + live[0].w + w <= width && h <= height then
      Some((1, Box(live[0].x + live[0].w, 0, w, h)))
    else None
  }

  lemma TwoSlotsSound()
    ensures Sound(TwoSlots)
  {
  }

  /** An insertion that leaks: one glyph inserted twice within a frame, as a plane of the usual size allows. */
  method InsertTwice(key: Key, placement: Placement) returns (plane: AtlasPlane)
    ensures fresh(plane) && plane.Valid() && !plane.Tight()
  {
    hide Sound, Packed, Backed, Granted, AfterPops, Evictable, Held, Pushed, OnlyWhenRefused;
    TwoSlotsSound();
    plane := new AtlasPlane(TwoSlots);
    ghost var live0, es0 := plane.allocator.live, plane.lru;
    var first, popped := plane.Insert(key, 10, 20, placement);
    NoPops(es0, plane.inUse, live0);
    InsertKeeps(es0, plane.inUse, popped, live0, Glyph(key, 10, 20, placement), first, plane.lru, plane.allocator.live);
    plane.MarkInUse(key);
    ghost var s, es1 := plane.allocator.View(), plane.lru;
    var second;
    second, popped := plane.Insert(key, 10, 20, placement);
    HeldAlwaysLeaks(es1, plane.inUse, s, Glyph(key, 10, 20, placement), popped, second, plane.lru,
                    plane.allocator.View());
  }

  /**
   * Over a whole frame, whatever glyphs it draws: every region handed out is still cached at the end,
   * one key always has one region, the regions of different keys do not overlap, and a glyph goes without
   * a region only if it has no area or the texture cannot grow any more.
   */
  method DrawFrame(plane: AtlasPlane, glyphs: seq<Glyph>) returns (regions: seq<Option<Region>>)
    requires plane.Valid()
    modifies plane`lru, plane`width, plane`height, plane`inUse, plane.allocator
    ensures plane.Valid()
    ensures old(plane.Tight()) ==> plane.Tight()
    ensures |regions| == |glyphs|
    ensures forall i :: 0 <= i < |glyphs| && regions[i].Some? ==>
      && Entry(glyphs[i].key, regions[i].value) in plane.lru
      && Within(regions[i].value.box, plane.width, plane.height)
    ensures forall i, j :: 0 <= i < j < |glyphs| && regions[i].Some? && regions[j].Some? ==>
      if glyphs[i].key == glyphs[j].key then regions[i] == regions[j]
      else Apart(regions[i].value.box, regions[j].value.box)
    ensures forall i :: 0 <= i < |glyphs| && regions[i].None? ==>
      glyphs[i].w == 0 || glyphs[i].h == 0 || plane.Full()
    ensures plane.inUse == {}
  {
    hide Sound, Packed, Backed, Apart, Within, Distinct;
    regions := [];
    for n := 0 to |glyphs|
      invariant plane.Valid()
      invariant old(plane.Tight()) ==> plane.Tight()
      invariant |regions| == n
      invariant forall i :: 0 <= i < n && regions[i].Some? ==>
        Entry(glyphs[i].key, regions[i].value) in plane.lru && glyphs[i].key in plane.inUse
      invariant forall i :: 0 <= i < n && regions[i].None? ==>
        glyphs[i].w == 0 || glyphs[i].h == 0 || plane.Full()
    {
      var r := DrawGlyph(plane, glyphs[n]);
      regions := regions + [r];
    }
    FrameApart(plane.lru, plane.allocator.live, plane.width, plane.height, glyphs, regions);
    plane.ClearInUse();
  }

  lemma FrameApart(es: seq<Entry>, live: map<nat, Box>, width: nat, height: nat, glyphs: seq<Glyph>,
                   regions: seq<Option<Region>>)
    requires Backed(es, live) && Packed(live, width, height) && |regions| == |glyphs|
    requires forall i :: 0 <= i < |glyphs| && regions[i].Some? ==> Entry(glyphs[i].key, regions[i].value) in es
    ensures forall i :: 0 <= i < |glyphs| && regions[i].Some? ==> Within(regions[i].value.box, width, height)
    ensures forall i, j :: 0 <= i < j < |glyphs| && regions[i].Some? && regions[j].Some? ==>
      if glyphs[i].key == glyphs[j].key then regions[i] == regions[j]
      else Apart(regions[i].value.box, regions[j].value.box)
  {
    hide Packed, Apart, Within, BackedBy;
    forall i, j | 0 <= i <= j < |glyphs| && regions[i].Some? && regions[j].Some?
      ensures Within(regions[i].value.box, width, height)
      ensures if glyphs[i].key == glyphs[j].key then regions[i] == regions[j]
              else Apart(regions[i].value.box, regions[j].value.box)
    {
      var e, f := Entry(glyphs[i].key, regions[i].value), Entry(glyphs[j].key, regions[j].value);
      assert e in es && f in es;
      RegionsApart(es, live, width, height, e, f);
      assert e.key == f.key ==> e.region == f.region;
    }
  }
}
