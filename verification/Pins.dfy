/** The copy-mode pin protocol of one pane: clients pin a published history
    coordinate, resizes that capture rows drop every pin, and each dropped client
    is told once and refused until it answers.
 */
module Pins {
  import opened Basics

  type ClientId = nat

  /** Whether a client that lost its pin has yet been sent the notice. */
  datatype Invalidation = Queued | Sent

  /** What the protocol keeps of a pane. `history` counts the rows ever pushed
      to scrollback. */
  datatype PinState = PinState(
    history: nat,
    pins: map<ClientId, nat>,
    watermark: nat,
    pending: map<ClientId, Invalidation>)

  const FRESH := PinState(0, map[], 0, map[])

  datatype PinResult = Pinned(replaced: Option<nat>) | OutOfRange(watermark: nat, history: nat)

  // ----- the steps -----

  /** Terminal output scrolling `rows` rows into history. */
  function Output(s: PinState, rows: nat): PinState {
    s.(history := s.history + rows)
  }

  function Pin(s: PinState, c: ClientId, base: nat): (PinState, PinResult) {
    if base < s.watermark || base > s.history then (s, OutOfRange(s.watermark, s.history))
    else
      (s.(pending := s.pending - {c}, pins := s.pins[c := base]),
       Pinned(if c in s.pins then Some(s.pins[c]) else None))
  }

  /** These clients' invalidations queued over what was pending. */
  function QueueAll(cs: set<ClientId>, pending: map<ClientId, Invalidation>): map<ClientId, Invalidation> {
    pending + map c | c in cs :: Queued
  }

  lemma QueueNone(pending: map<ClientId, Invalidation>)
    ensures QueueAll({}, pending) == pending
  {
  }

  lemma QueueOneMore(cs: set<ClientId>, c: ClientId, pending: map<ClientId, Invalidation>)
    ensures QueueAll(cs, pending)[c := Queued] == QueueAll(cs + {c}, pending)
  {
  }

  /** Drop every pin when the history moved from `before`. */
  function Invalidate(s: PinState, before: nat): PinState {
    if s.history == before then s
    else s.(watermark := s.history, pending := QueueAll(s.pins.Keys, s.pending), pins := map[])
  }

  /** A resize that captures `rows` grid rows, followed at once, under the pane
      lock, by the invalidation pass. */
  function Resize(s: PinState, rows: nat): PinState {
    Invalidate(Output(s, rows), s.history)
  }

  /** Claim a queued push for writing. */
  function Take(s: PinState, c: ClientId): (PinState, bool) {
    if c in s.pending && s.pending[c].Queued? then (s.(pending := s.pending[c := Sent]), true) else (s, false)
  }

  /** Requeue a claimed push that could not be delivered. */
  function Requeue(s: PinState, c: ClientId): PinState {
    if c in s.pins then s else s.(pending := s.pending[c := Queued])
  }

  function Unpin(s: PinState, c: ClientId): (PinState, bool) {
    (s.(pending := s.pending - {c}, pins := s.pins - {c}), c in s.pins)
  }

  /** The row a client's reads resolve against. */
  function Base(s: PinState, c: ClientId): nat {
    if c in s.pins then s.pins[c] else s.history
  }

  /** Reads that would fall back to live coordinates are refused. */
  predicate Refused(s: PinState, c: ClientId) {
    c in s.pending
  }

  /** What a request to enter copy mode does: within the bounds the client is pinned at the very base it sent
      and what was owed to it is settled; outside them it is told the bounds and nothing changes. */
  lemma PinTakesBase(s: PinState, c: ClientId, base: nat)
    ensures var (t, r) := Pin(s, c, base);
      && (r.Pinned? <==> s.watermark <= base <= s.history)
      && (r.OutOfRange? ==> t == s && r == OutOfRange(s.watermark, s.history))
      && (r.Pinned? ==>
            && c in t.pins && t.pins[c] == base && Base(t, c) == base && !Refused(t, c)
            && r == Pinned(if c in s.pins then Some(s.pins[c]) else None)
            && OnlyFor(s, t, c))
  {
  }

  /** A step that concerns one client leaves every other one's pin and pending push, and the history, alone. */
  ghost predicate OnlyFor(s: PinState, t: PinState, c: ClientId) {
    && t.history == s.history && t.watermark == s.watermark
    && forall d :: d != c ==>
         && (d in t.pins <==> d in s.pins) && (d in s.pins ==> t.pins[d] == s.pins[d])
         && (d in t.pending <==> d in s.pending) && (d in s.pending ==> t.pending[d] == s.pending[d])
         && Base(t, d) == Base(s, d)
  }

  /** Leaving, claiming and requeueing concern one client: leaving settles everything, a claim is granted
      exactly while a push waits and leaves the refusal, and a requeue makes the push wait again unless the
      client has a pin. */
  lemma OwnStepsOnly(s: PinState, c: ClientId)
    ensures var (t, had) := Unpin(s, c);
      OnlyFor(s, t, c) && (had <==> c in s.pins) && c !in t.pins && !Refused(t, c)
    ensures var (t, granted) := Take(s, c);
      && OnlyFor(s, t, c) && (granted <==> c in s.pending && s.pending[c] == Queued) && t.pins == s.pins
      && (Refused(t, c) <==> Refused(s, c)) && !Take(t, c).1 && (!granted ==> t == s)
    ensures var t := Requeue(s, c);
      && OnlyFor(s, t, c) && t.pins == s.pins
      && (if c in s.pins then t == s else Refused(t, c) && Take(t, c).1)
  {
  }

  /** A resize that captures rows drops every pin and leaves each of those clients a push to claim, once; one
      that captures none changes nothing. Clients without a pin keep what was pending for them, and no base
      from before the resize is accepted after it. */
  lemma ResizeTellsEveryPin(s: PinState, rows: nat, c: ClientId)
    requires PinsOk(s)
    ensures var t := Resize(s, rows);
      && t.history == s.history + rows
      && (rows == 0 ==> t == s)
      && (rows > 0 ==>
            && t.pins == map[] && t.watermark == t.history
            && (c in s.pins ==> Refused(t, c) && Take(t, c).1 && !Take(Take(t, c).0, c).1)
            && (c !in s.pins ==> (c in t.pending <==> c in s.pending)
                                 && (c in s.pending ==> t.pending[c] == s.pending[c]))
            && forall base: nat :: base <= s.history ==> Pin(t, c, base).1.OutOfRange?)
  {
  }

  /** Output moves the end of history only. */
  lemma OutputScrolls(s: PinState, rows: nat, c: ClientId)
    ensures var t := Output(s, rows);
      && t == s.(history := s.history + rows)
      && Base(t, c) == if c in s.pins then Base(s, c) else Base(s, c) + rows
  {
  }

  // ----- runs -----

  datatype Event =
    | Scrolled(rows: nat)
    | Resized(rows: nat)
    | Published(to: ClientId)
    | Entered(client: ClientId, base: nat)
    | Exited(client: ClientId)
    | Taken(client: ClientId)
    | Requeued(client: ClientId)

  /** A base the daemon told some client, and how many capturing resizes had
      happened by then. */
  datatype Publication = Publication(base: nat, era: nat)

  /** A state with the history of the run that the properties speak of. */
  datatype Trace = Trace(
    s: PinState,
    era: nat,
    published: set<Publication>,
    inside: set<ClientId>,
    queued: map<ClientId, nat>,
    claimed: map<ClientId, nat>)

  function Count(m: map<ClientId, nat>, c: ClientId): nat {
    if c in m then m[c] else 0
  }

  ghost const START := Trace(FRESH, 0, {Publication(0, 0)}, {}, map[], map[])

  /** Clients whose push a step puts into the queue. */
  function Queueing(s: PinState, e: Event): set<ClientId> {
    match e
    case Resized(rows) => if rows == 0 then {} else s.pins.Keys
    case Requeued(c) => if c in s.pins then {} else {c}
    case _ => {}
  }

  function Step(s: PinState, e: Event): PinState {
    match e
    case Scrolled(rows) => Output(s, rows)
    case Resized(rows) => Resize(s, rows)
    case Published(_) => s
    case Entered(c, base) => Pin(s, c, base).0
    case Exited(c) => Unpin(s, c).0
    case Taken(c) => Take(s, c).0
    case Requeued(c) => Requeue(s, c)
  }

  ghost function Bumped(m: map<ClientId, nat>, cs: set<ClientId>): map<ClientId, nat> {
    map c | c in m.Keys + cs :: Count(m, c) + if c in cs then 1 else 0
  }

  ghost function Next(t: Trace, e: Event): Trace {
    Trace(
      Step(t.s, e),
      if e.Resized? && e.rows > 0 then t.era + 1 else t.era,
      if e.Published?
        then t.published + {Publication(t.s.history, t.era), Publication(Base(t.s, e.to), t.era)}
        else t.published,
      if e.Entered? && Pin(t.s, e.client, e.base).1.Pinned? then t.inside + {e.client}
      else if e.Exited? then t.inside - {e.client} else t.inside,
      Bumped(t.queued, Queueing(t.s, e)),
      Bumped(t.claimed, if e.Taken? && Take(t.s, e.client).1 then {e.client} else {}))
  }

  ghost function Run(t: Trace, es: seq<Event>): Trace
    decreases |es|
  {
    if es == [] then t else Run(Next(t, es[0]), es[1..])
  }

  // ----- what every run keeps -----

  /** Pins lie between the watermark and the history, and no client has both a
      pin and a pending invalidation. */
  ghost predicate PinsOk(s: PinState) {
    && s.watermark <= s.history
    && (forall c :: c in s.pins ==> s.watermark <= s.pins[c] <= s.history)
    && s.pins.Keys !! s.pending.Keys
  }

  /** Publications of the current era are in range; older ones fell below the
      watermark. */
  ghost predicate PublicationsOk(t: Trace) {
    forall p :: p in t.published ==>
      && p.era <= t.era && p.base <= t.s.history
      && (p.era == t.era <==> p.base >= t.s.watermark)
  }

  /** A client that entered and did not exit is either pinned or told, and
      nobody else is pinned. */
  ghost predicate ClientsOk(t: Trace) {
    && (forall c :: c in t.inside ==> c in t.s.pins || c in t.s.pending)
    && (forall c :: c in t.s.pins ==> c in t.inside)
  }

  /** How many pushes still wait for this client. */
  ghost function Waiting(s: PinState, c: ClientId): nat {
    if c in s.pending && s.pending[c].Queued? then 1 else 0
  }

  /** No more pushes are claimed than were queued, counting one still waiting. */
  ghost predicate ClaimsOk(t: Trace) {
    forall c :: Count(t.claimed, c) + Waiting(t.s, c) <= Count(t.queued, c)
  }

  ghost predicate TraceOk(t: Trace) {
    PinsOk(t.s) && PublicationsOk(t) && ClientsOk(t) && ClaimsOk(t)
  }

  lemma StepPins(s: PinState, e: Event)
    requires PinsOk(s)
    ensures PinsOk(Step(s, e))
  {
  }

  lemma StepPublications(t: Trace, e: Event)
    requires PinsOk(t.s) && PublicationsOk(t)
    ensures PublicationsOk(Next(t, e))
  {
  }

  lemma StepClients(t: Trace, e: Event)
    requires PinsOk(t.s) && ClientsOk(t)
    ensures ClientsOk(Next(t, e))
  {
  }

  lemma StepClaims(t: Trace, e: Event)
    requires PinsOk(t.s) && ClaimsOk(t)
    ensures ClaimsOk(Next(t, e))
  {
    forall c ensures Count(Next(t, e).claimed, c) + Waiting(Next(t, e).s, c) <= Count(Next(t, e).queued, c) {
      assert Count(t.claimed, c) + Waiting(t.s, c) <= Count(t.queued, c);
    }
  }

  lemma {:induction false} RunOk(t: Trace, es: seq<Event>)
    requires TraceOk(t)
    ensures TraceOk(Run(t, es))
    decreases |es|
  {
    if es == [] {
    } else {
      StepPins(t.s, es[0]);
      StepPublications(t, es[0]);
      StepClients(t, es[0]);
      StepClaims(t, es[0]);
      RunOk(Next(t, es[0]), es[1..]);
    }
  }

  lemma StartOk()
    ensures TraceOk(START)
  {
  }

  // ----- a published base is accepted until the next capturing resize -----

  predicate Capturing(e: Event) {
    e.Resized? && e.rows > 0
  }

  ghost predicate NoCapture(es: seq<Event>) {
    forall i :: 0 <= i < |es| ==> !Capturing(es[i])
  }

  lemma {:induction false} EraCounts(t: Trace, es: seq<Event>)
    ensures Run(t, es).era >= t.era
    ensures Run(t, es).era == t.era <==> NoCapture(es)
    decreases |es|
  {
    if es == [] {
    } else {
      EraCounts(Next(t, es[0]), es[1..]);
      if NoCapture(es) {
        assert !Capturing(es[0]);
        assert NoCapture(es[1..]);
      }
      if NoCapture(es[1..]) && !Capturing(es[0]) {
        forall i | 0 <= i < |es| ensures !Capturing(es[i]) {
          if i > 0 { assert es[i] == es[1..][i - 1]; }
        }
      }
    }
  }

  lemma {:induction false} PublishedStays(t: Trace, es: seq<Event>, p: Publication)
    requires p in t.published
    ensures p in Run(t, es).published
    decreases |es|
  {
    if es == [] {
    } else {
      PublishedStays(Next(t, es[0]), es[1..], p);
    }
  }

  /** After any run, a base published at any earlier point is accepted from any
      client exactly when no capturing resize has happened since; a refusal
      changes nothing. */
  lemma EchoAcceptedIff(before: seq<Event>, to: ClientId, after: seq<Event>, c: ClientId)
    ensures
      var t := Run(START, before);
      var now := Run(t, [Published(to)] + after);
      && (Pin(now.s, c, t.s.history).1.Pinned? <==> NoCapture(after))
      && (Pin(now.s, c, Base(t.s, to)).1.Pinned? <==> NoCapture(after))
      && (forall base :: Pin(now.s, c, base).1.OutOfRange? ==> Pin(now.s, c, base).0 == now.s)
  {
    var t := Run(START, before);
    var u := Next(t, Published(to));
    var now := Run(u, after);
    StartOk();
    RunOk(START, before);
    StepPublications(t, Published(to));
    StepPins(t.s, Published(to));
    StepClients(t, Published(to));
    StepClaims(t, Published(to));
    RunOk(u, after);
    var p, q := Publication(t.s.history, t.era), Publication(Base(t.s, to), t.era);
    PublishedStays(u, after, p);
    PublishedStays(u, after, q);
    EraCounts(u, after);
    assert ([Published(to)] + after)[1..] == after;
  }

  // ----- a pinned view never slides -----

  /** The client neither enters nor exits during these events. */
  ghost predicate Untouched(es: seq<Event>, c: ClientId) {
    forall i :: 0 <= i < |es| ==> es[i] != Exited(c) && !(es[i].Entered? && es[i].client == c)
  }

  lemma {:induction false} RefusedStays(t: Trace, es: seq<Event>, c: ClientId)
    requires PinsOk(t.s) && c in t.s.pending && Untouched(es, c)
    ensures c in Run(t, es).s.pending
    decreases |es|
  {
    if es == [] {
    } else {
      StepPins(t.s, es[0]);
      assert es[0] != Exited(c) && !(es[0].Entered? && es[0].client == c);
      assert Untouched(es[1..], c);
      RefusedStays(Next(t, es[0]), es[1..], c);
    }
  }

  /** From the moment a client is pinned, and until it enters or exits again,
      its reads resolve against the very base it was pinned at or are refused:
      never against the live end. It stays pinned exactly while no resize
      captures rows. */
  lemma {:induction false} PinHoldsOrRefuses(t: Trace, es: seq<Event>, c: ClientId)
    requires PinsOk(t.s) && c in t.s.pins && Untouched(es, c)
    ensures var u := Run(t, es);
      && (NoCapture(es) ==> c in u.s.pins && Base(u.s, c) == t.s.pins[c] && !Refused(u.s, c))
      && (!NoCapture(es) ==> c !in u.s.pins && Refused(u.s, c))
    decreases |es|
  {
    if es == [] {
    } else {
      var u, rest := Next(t, es[0]), es[1..];
      StepPins(t.s, es[0]);
      assert es[0] != Exited(c) && !(es[0].Entered? && es[0].client == c);
      assert Untouched(rest, c);
      if Capturing(es[0]) {
        RefusedStays(u, rest, c);
        RunPins(u, rest);
      } else {
        PinHoldsOrRefuses(u, rest, c);
        assert NoCapture(es) <==> NoCapture(rest) by {
          if NoCapture(rest) {
            forall i | 0 <= i < |es| ensures !Capturing(es[i]) {
              if i > 0 { assert es[i] == rest[i - 1]; }
            }
          }
        }
      }
    }
  }

  /** From entering on: an accepted base is what the client reads against until it enters or leaves again, as
      long as no resize captures rows. */
  lemma EnteredHolds(t: Trace, c: ClientId, base: nat, es: seq<Event>)
    requires PinsOk(t.s) && t.s.watermark <= base <= t.s.history && Untouched(es, c)
    ensures var u := Run(Next(t, Entered(c, base)), es);
      if NoCapture(es) then Base(u.s, c) == base && !Refused(u.s, c) else Refused(u.s, c)
  {
    StepPins(t.s, Entered(c, base));
    PinTakesBase(t.s, c, base);
    PinHoldsOrRefuses(Next(t, Entered(c, base)), es, c);
  }

  lemma {:induction false} RunPins(t: Trace, es: seq<Event>)
    requires PinsOk(t.s)
    ensures PinsOk(Run(t, es).s)
    decreases |es|
  {
    if es == [] {
    } else {
      StepPins(t.s, es[0]);
      RunPins(Next(t, es[0]), es[1..]);
    }
  }

  // ----- stray invalidations -----

  /** Every client with a pending invalidation is inside copy mode. */
  ghost predicate NoStray(t: Trace) {
    forall c :: c in t.s.pending ==> c in t.inside
  }

  /** A pending entry for a client that is not in copy mode can only come from
      requeueing a push after that client left: a step keeps the entries
      accounted for exactly when it is not such a requeue. */
  lemma StrayOnlyByLateRequeue(t: Trace, e: Event)
    requires TraceOk(t) && NoStray(t)
    ensures NoStray(Next(t, e)) <==> !(e.Requeued? && e.client !in t.inside)
  {
    if e.Requeued? && e.client !in t.inside {
      assert e.client in Next(t, e).s.pending;
    }
  }

  /** The last word a client's pending entry had: a requeue, an exit, or neither. */
  function LastWord(es: seq<Event>, c: ClientId): Option<Event> {
    if es == [] then None
    else
      var later := LastWord(es[1..], c);
      if later.Some? then later
      else if es[0] == Requeued(c) || es[0] == Exited(c) then Some(es[0])
      else None
  }

  /** One step's word about a client that is outside after it. */
  lemma StepWord(t: Trace, e: Event, c: ClientId)
    requires ClientsOk(t) && c !in Next(t, e).inside
    ensures
      if e == Requeued(c) then c in Next(t, e).s.pending
      else if e == Exited(c) then c !in Next(t, e).s.pending
      else c !in t.inside && (c in Next(t, e).s.pending <==> c in t.s.pending)
  {
    hide Bumped, Queueing;
  }

  lemma {:induction false} LastWordDecides(t: Trace, es: seq<Event>, c: ClientId)
    requires PinsOk(t.s) && ClientsOk(t)
    requires c !in Run(t, es).inside
    ensures match LastWord(es, c)
      case Some(e) => c in Run(t, es).s.pending <==> e.Requeued?
      case None => c !in t.inside && (c in Run(t, es).s.pending <==> c in t.s.pending)
    decreases |es|
  {
    if es == [] {
    } else {
      StepPins(t.s, es[0]);
      StepClients(t, es[0]);
      hide Next, Step, PinsOk, ClientsOk;
      LastWordDecides(Next(t, es[0]), es[1..], c);
      if LastWord(es[1..], c).None? {
        StepWord(t, es[0], c);
      }
    }
  }

  /**
   * After any run, a client outside copy mode has a pending entry if and only if a push of its own was
   * requeued after it last exited, or without its ever exiting.
   */
  lemma StrayIff(es: seq<Event>, c: ClientId)
    requires c !in Run(START, es).inside
    ensures c in Run(START, es).s.pending <==> LastWord(es, c) == Some(Requeued(c))
  {
    LastWordDecides(START, es, c);
    LastWordIs(es, c);
  }

  lemma {:induction false} LastWordIs(es: seq<Event>, c: ClientId)
    ensures LastWord(es, c) in {None, Some(Requeued(c)), Some(Exited(c))}
  {
    if es == [] {
    } else {
      LastWordIs(es[1..], c);
    }
  }

  /** A concrete run that leaves one behind. */
  lemma LateRequeueLeavesStray(c: ClientId)
    ensures !NoStray(Run(START, [Entered(c, 0), Resized(1), Taken(c), Exited(c), Requeued(c)]))
  {
    var es := [Entered(c, 0), Resized(1), Taken(c), Exited(c), Requeued(c)];
    var t1 := Next(START, es[0]);
    var t2 := Next(t1, es[1]);
    var t3 := Next(t2, es[2]);
    var t4 := Next(t3, es[3]);
    var t5 := Next(t4, es[4]);
    assert es[1..][1..] == es[2..] && es[2..][1..] == es[3..] && es[3..][1..] == es[4..] && es[4..][1..] == [];
    assert Run(START, es) == Run(t1, es[1..]) == Run(t2, es[2..]);
    assert Run(t2, es[2..]) == Run(t3, es[3..]) == Run(t4, es[4..]) == Run(t5, []);
    assert c in t5.s.pending && c !in t5.inside;
  }

  // ----- the pane object -----

  class PaneState {
    var pushed: nat
    var copyModePins: map<ClientId, nat>
    var resizeWatermark: nat
    var pendingPinInvalidations: map<ClientId, Invalidation>

    constructor ()
      ensures State() == FRESH
    {
      pushed := 0;
      copyModePins := map[];
      resizeWatermark := 0;
      pendingPinInvalidations := map[];
    }

    ghost function State(): PinState
      reads this
    {
      PinState(pushed, copyModePins, resizeWatermark, pendingPinInvalidations)
    }

    method PinCopyMode(c: ClientId, base: nat) returns (r: PinResult)
      modifies this
      ensures (State(), r) == Pin(old(State()), c, base)
      ensures old(PinsOk(State())) ==> PinsOk(State())
    {
      if PinsOk(State()) {
        StepPins(State(), Entered(c, base));
      }
      if base < resizeWatermark || base > pushed {
        return OutOfRange(resizeWatermark, pushed);
      }
      pendingPinInvalidations := pendingPinInvalidations - {c};
      r := Pinned(if c in copyModePins then Some(copyModePins[c]) else None);
      copyModePins := copyModePins[c := base];
    }

    /** Whether the client's reads are refused; then it has no pin to read against. */
    method PinInvalidationPending(c: ClientId) returns (b: bool)
      ensures b == Refused(State(), c)
      ensures PinsOk(State()) && b ==> c !in State().pins
    {
      b := c in pendingPinInvalidations;
    }

    /** Queue every pinned client's push, then drop the pins. */
    method InvalidatePinsAfterResize(before: nat) returns (dropped: nat)
      modifies this
      ensures State() == Invalidate(old(State()), before)
      ensures dropped == if old(pushed) == before then 0 else |old(copyModePins)|
    {
      if pushed == before {
        return 0;
      }
      hide QueueAll;
      resizeWatermark := pushed;
      dropped := |copyModePins|;
      var keys := copyModePins.Keys;
      ghost var done: set<ClientId> := {};
      QueueNone(pendingPinInvalidations);
      while keys != {}
        invariant done + keys == copyModePins.Keys
        invariant copyModePins == old(copyModePins) && pushed == old(pushed) && resizeWatermark == pushed
        invariant pendingPinInvalidations == QueueAll(done, old(pendingPinInvalidations))
        decreases keys
      {
        var c :| c in keys;
        QueueOneMore(done, c, old(pendingPinInvalidations));
        pendingPinInvalidations := pendingPinInvalidations[c := Queued];
        keys, done := keys - {c}, done + {c};
      }
      copyModePins := map[];
    }

    method TakePendingPinInvalidation(c: ClientId) returns (taken: bool)
      modifies this
      ensures (State(), taken) == Take(old(State()), c)
      ensures old(PinsOk(State())) ==> PinsOk(State())
    {
      if PinsOk(State()) {
        StepPins(State(), Taken(c));
      }
      if c in pendingPinInvalidations && pendingPinInvalidations[c] == Queued {
        pendingPinInvalidations := pendingPinInvalidations[c := Sent];
        return true;
      }
      return false;
    }

    method RequeuePinInvalidation(c: ClientId)
      modifies this
      ensures State() == Requeue(old(State()), c)
      ensures old(PinsOk(State())) ==> PinsOk(State())
    {
      if PinsOk(State()) {
        StepPins(State(), Requeued(c));
      }
      if c !in copyModePins {
        pendingPinInvalidations := pendingPinInvalidations[c := Queued];
      }
    }

    method UnpinCopyMode(c: ClientId) returns (held: bool)
      modifies this
      ensures (State(), held) == Unpin(old(State()), c)
      ensures old(PinsOk(State())) ==> PinsOk(State())
    {
      if PinsOk(State()) {
        StepPins(State(), Exited(c));
      }
      pendingPinInvalidations := pendingPinInvalidations - {c};
      held := c in copyModePins;
      copyModePins := copyModePins - {c};
    }

    /** A pinned client gets its own base and any other the end of history; whichever it is, a client that
        echoes it before anything else happens is accepted. */
    method CopyModeBase(c: ClientId) returns (base: nat)
      ensures base == Base(State(), c)
      ensures base == if c in State().pins then State().pins[c] else State().history
      ensures PinsOk(State()) ==> forall d :: Pin(State(), d, base).1.Pinned?
    {
      base := if c in copyModePins then copyModePins[c] else pushed;
    }

    /** Output scrolling rows off the grid. */
    method PushRows(rows: nat)
      modifies this`pushed
      ensures State() == Output(old(State()), rows)
    {
      pushed := pushed + rows;
    }

    /** A resize under the pane lock: the capture and the invalidation pass are
        one step. */
    method ResizeAll(rows: nat) returns (dropped: nat)
      modifies this
      ensures State() == Resize(old(State()), rows)
      ensures old(PinsOk(State())) ==> PinsOk(State())
    {
      if PinsOk(State()) {
        StepPins(State(), Resized(rows));
      }
      var before := pushed;
      PushRows(rows);
      dropped := InvalidatePinsAfterResize(before);
    }
  }
}
