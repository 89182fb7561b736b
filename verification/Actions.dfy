/** The binding registry and the action catalog's hints, which must name chords that still work. */
module Actions {
  import opened Basics
  import opened Keybind

  datatype Action =
    | ScrollUp(lines: nat) | ScrollDown(lines: nat) | ScrollToPrompt(step: int) | SendString(bytes: Text)
    | Copy | Paste | ToggleFullscreen | ReloadConfig
    | SplitPane(direction: Text, size: real) | ClosePane | FocusPaneDirection(direction: Text)
    | NewTab | CloseTab | SwitchTab(index: nat) | NextTab | PreviousTab
    | ShowCommandPalette | EnterCopyMode | Find | Callback(registryKey: nat)

  datatype ActionId =
    | SplitPaneRight | SplitPaneDown | ClosePaneId
    | FocusPaneLeft | FocusPaneRight | FocusPaneUp | FocusPaneDown
    | NewTabId | CloseTabId | NextTabId | PreviousTabId
    | ToggleFullscreenId | ShowCommandPaletteId | ReloadConfigId | EnterCopyModeId | FindId

  /** `action_id_of`: split directions collapse onto two entries, focus directions do not. */
  function ActionIdOf(a: Action): (r: Option<ActionId>) {
    match a
    case SplitPane(direction, _) =>
      if direction == "left" || direction == "right" then Some(SplitPaneRight)
      else if direction == "up" || direction == "down" then Some(SplitPaneDown)
      else None
    case ClosePane => Some(ClosePaneId)
    case FocusPaneDirection(direction) =>
      if direction == "left" then Some(FocusPaneLeft)
      else if direction == "right" then Some(FocusPaneRight)
      else if direction == "up" then Some(FocusPaneUp)
      else if direction == "down" then Some(FocusPaneDown)
      else None
    case NewTab => Some(NewTabId)
    case CloseTab => Some(CloseTabId)
    case NextTab => Some(NextTabId)
    case PreviousTab => Some(PreviousTabId)
    case ToggleFullscreen => Some(ToggleFullscreenId)
    case ShowCommandPalette => Some(ShowCommandPaletteId)
    case ReloadConfig => Some(ReloadConfigId)
    case EnterCopyMode => Some(EnterCopyModeId)
    case Find => Some(FindId)
    case _ => None
  }

  /** The entries of the catalog: focus directions have one each, split directions one for each axis, and
      some actions have none. */
  lemma CatalogFocus()
    ensures ActionIdOf(FocusPaneDirection("left")) == Some(FocusPaneLeft)
    ensures ActionIdOf(FocusPaneDirection("right")) == Some(FocusPaneRight)
    ensures ActionIdOf(FocusPaneDirection("up")) == Some(FocusPaneUp)
    ensures ActionIdOf(FocusPaneDirection("down")) == Some(FocusPaneDown)
  {
  }

  lemma CatalogSplits(size: real)
    ensures ActionIdOf(SplitPane("left", size)) == ActionIdOf(SplitPane("right", size)) == Some(SplitPaneRight)
    ensures ActionIdOf(SplitPane("up", size)) == ActionIdOf(SplitPane("down", size)) == Some(SplitPaneDown)
  {
  }

  lemma CatalogPlainIds()
    ensures ActionIdOf(ClosePane) == Some(ClosePaneId) && ActionIdOf(NewTab) == Some(NewTabId)
    ensures ActionIdOf(CloseTab) == Some(CloseTabId) && ActionIdOf(NextTab) == Some(NextTabId)
    ensures ActionIdOf(PreviousTab) == Some(PreviousTabId) && ActionIdOf(Find) == Some(FindId)
    ensures ActionIdOf(ToggleFullscreen) == Some(ToggleFullscreenId) && ActionIdOf(ReloadConfig) == Some(ReloadConfigId)
    ensures ActionIdOf(ShowCommandPalette) == Some(ShowCommandPaletteId)
    ensures ActionIdOf(EnterCopyMode) == Some(EnterCopyModeId)
    ensures forall n: nat :: ActionIdOf(SwitchTab(n)) == None && ActionIdOf(ScrollUp(n)) == None
    ensures ActionIdOf(Copy) == ActionIdOf(Paste) == None
  {
  }

  datatype Binding = Binding(chord: KeyChord, action: Action)

  // ----- Lookups -----------------------------------------------------------------------------------

  /** `KeyTable::lookup_index`: the last binding for the chord. */
  function LookupIndex(bs: seq<Binding>, chord: KeyChord): (r: Option<nat>)
    ensures r.Some? ==> r.value < |bs| && bs[r.value].chord == chord
    ensures r.Some? ==> forall j :: r.value < j < |bs| ==> bs[j].chord != chord
    ensures r.None? ==> forall j :: 0 <= j < |bs| ==> bs[j].chord != chord
  {
    if bs == [] then None
    else if bs[|bs| - 1].chord == chord then Some(|bs| - 1)
    else LookupIndex(bs[..|bs| - 1], chord)
  }

  /** `KeyTable::lookup`. */
  function Lookup(bs: seq<Binding>, chord: KeyChord): (r: Option<Action>) {
    if bs == [] then None
    else if bs[|bs| - 1].chord == chord then Some(bs[|bs| - 1].action)
    else Lookup(bs[..|bs| - 1], chord)
  }

  /** The map in which each registration overrides the earlier ones for its chord. */
  function LastWins(bs: seq<Binding>): (m: map<KeyChord, Action>) {
    if bs == [] then map[]
    else LastWins(bs[..|bs| - 1])[bs[|bs| - 1].chord := bs[|bs| - 1].action]
  }

  /** The bindings among the first `n` that a lookup in the whole table resolves to, in order. */
  function EffectiveFirst(bs: seq<Binding>, n: nat): (r: seq<Binding>)
    requires n <= |bs|
  {
    if n == 0 then []
    else
      var before := EffectiveFirst(bs, n - 1);
      if LookupIndex(bs, bs[n - 1].chord) == Some(n - 1) then before + [bs[n - 1]] else before
  }

  /** `KeybindRegistry::effective_bindings`. */
  function Effective(bs: seq<Binding>): (r: seq<Binding>) {
    EffectiveFirst(bs, |bs|)
  }

  lemma {:induction false} LookupIsLastWins(bs: seq<Binding>, chord: KeyChord)
    ensures Lookup(bs, chord) == if chord in LastWins(bs) then Some(LastWins(bs)[chord]) else None
    ensures Lookup(bs, chord) ==
            if LookupIndex(bs, chord).Some? then Some(bs[LookupIndex(bs, chord).value].action) else None
  {
    if bs == [] {
    } else {
      LookupIsLastWins(bs[..|bs| - 1], chord);
    }
  }

  lemma {:induction false} EffectiveMembers(bs: seq<Binding>, n: nat, b: Binding)
    requires n <= |bs|
    ensures b in EffectiveFirst(bs, n) <==>
      exists i :: 0 <= i < n && bs[i] == b && LookupIndex(bs, b.chord) == Some(i)
  {
    hide LookupIndex;
    if n == 0 {
    } else {
      EffectiveMembers(bs, n - 1, b);
    }
  }

  /** The effective bindings are the last-wins map: one entry a chord, with the action a lookup finds. */
  lemma EffectiveIsLastWins(bs: seq<Binding>)
    ensures forall b :: b in Effective(bs) <==> b.chord in LastWins(bs) && LastWins(bs)[b.chord] == b.action
    ensures forall i, j :: 0 <= i < j < |Effective(bs)| ==> Effective(bs)[i].chord != Effective(bs)[j].chord
  {
    hide LookupIndex, Lookup, LastWins;
    forall b ensures b in Effective(bs) <==> b.chord in LastWins(bs) && LastWins(bs)[b.chord] == b.action {
      EffectiveMembers(bs, |bs|, b);
      LookupIsLastWins(bs, b.chord);
      var at := LookupIndex(bs, b.chord);
      if at.Some? && bs[at.value] == b {
        assert 0 <= at.value < |bs| && LookupIndex(bs, b.chord) == Some(at.value);
      }
    }
    EffectiveDistinct(bs, |bs|);
  }

  lemma {:induction false} EffectiveDistinct(bs: seq<Binding>, n: nat)
    requires n <= |bs|
    ensures forall i, j :: 0 <= i < j < |EffectiveFirst(bs, n)| ==>
      EffectiveFirst(bs, n)[i].chord != EffectiveFirst(bs, n)[j].chord
  {
    hide LookupIndex;
    if n == 0 {
    } else {
      EffectiveDistinct(bs, n - 1);
      var before := EffectiveFirst(bs, n - 1);
      if LookupIndex(bs, bs[n - 1].chord) == Some(n - 1) {
        forall i | 0 <= i < |before| ensures before[i].chord != bs[n - 1].chord {
          EffectiveMembers(bs, n - 1, before[i]);
        }
      }
    }
  }

  /** The effective bindings stand in the order in which they were registered. */
  lemma {:induction false} EffectiveInOrder(bs: seq<Binding>, n: nat)
    requires n <= |bs|
    ensures forall i :: 0 <= i < |EffectiveFirst(bs, n)| ==>
      LookupIndex(bs, EffectiveFirst(bs, n)[i].chord).Some? && LookupIndex(bs, EffectiveFirst(bs, n)[i].chord).value < n
    ensures forall i, j :: 0 <= i < j < |EffectiveFirst(bs, n)| ==>
      LookupIndex(bs, EffectiveFirst(bs, n)[i].chord).value < LookupIndex(bs, EffectiveFirst(bs, n)[j].chord).value
    ensures n == |bs| ==> Effective(bs) == EffectiveFirst(bs, n)
  {
    hide LookupIndex;
    if n == 0 {
    } else {
      EffectiveInOrder(bs, n - 1);
    }
  }

  // ----- Hints -------------------------------------------------------------------------------------

  /** `resolve_hint`: the last effective chord for the action that has a label. */
  function ResolveFrom(p: Platform, id: ActionId, bs: seq<Binding>): (r: Option<Text>) {
    if bs == [] then None
    else
      var b := bs[|bs| - 1];
      if ActionIdOf(b.action) == Some(id) && DisplayHint(p, b.chord).Some? then DisplayHint(p, b.chord)
      else ResolveFrom(p, id, bs[..|bs| - 1])
  }

  function ResolveHint(p: Platform, id: ActionId, bs: seq<Binding>): (r: Option<Text>) {
    ResolveFrom(p, id, Effective(bs))
  }

  /** The binding a hint was taken from. */
  lemma {:induction false} HintSource(p: Platform, id: ActionId, bs: seq<Binding>)
    ensures match ResolveFrom(p, id, bs)
      case Some(hint) =>
        exists i :: 0 <= i < |bs| && ActionIdOf(bs[i].action) == Some(id)
                    && DisplayHint(p, bs[i].chord) == Some(hint)
                    && forall j :: i < j < |bs| && ActionIdOf(bs[j].action) == Some(id) ==> bs[j].chord.key.Physical?
      case None =>
        forall i :: 0 <= i < |bs| && ActionIdOf(bs[i].action) == Some(id) ==> bs[i].chord.key.Physical?
  {
    hide ActionIdOf, DisplayHint;
    if bs == [] {
    } else {
      HintWhen(p, bs[|bs| - 1].chord);
      HintSource(p, id, bs[..|bs| - 1]);
    }
  }

  /** Chords reach the table by parsing, or by moving a parsed chord to a physical key. */
  ghost predicate Registered(bs: seq<Binding>) {
    forall b <- bs :: b.chord.key.Physical? || exists text, oakMod :: Parse(text, oakMod) == Ok(b.chord)
  }

  /**
   * A displayed hint stands for a chord the table resolves to that very action, and typing it gives that
   * chord, in any context, if and only if the chord is one a user can type. On a table filled by parsing
   * every such chord is, so typing the hint runs the action.
   */
  lemma TypingTheHintRunsTheAction(p: Platform, id: ActionId, bs: seq<Binding>, oakMod: Option<ModifierSet>)
    requires ResolveHint(p, id, bs).Some?
    ensures exists chord <- LastWins(bs) ::
      && ActionIdOf(LastWins(bs)[chord]) == Some(id)
      && DisplayHint(p, chord) == ResolveHint(p, id, bs)
      && (Parse(ResolveHint(p, id, bs).value, oakMod) == Ok(chord) <==> Typable(chord))
    ensures Registered(bs) ==>
      var typed := Parse(ResolveHint(p, id, bs).value, oakMod);
      && typed.Ok?
      && Lookup(bs, typed.value).Some?
      && ActionIdOf(Lookup(bs, typed.value).value) == Some(id)
  {
    hide ActionIdOf, DisplayHint, Parse, Lookup, LastWins, Effective, ResolveFrom, Typable;
    var es := Effective(bs);
    var hint := ResolveHint(p, id, bs).value;
    HintSource(p, id, es);
    var i :| 0 <= i < |es| && ActionIdOf(es[i].action) == Some(id) && DisplayHint(p, es[i].chord) == Some(hint);
    var chord := es[i].chord;
    EffectiveIsLastWins(bs);
    EffectiveSubset(bs, es[i]);
    LookupIsLastWins(bs, chord);
    HintRoundTrip(p, chord, oakMod);
    if Registered(bs) {
      var text, given :| Parse(text, given) == Ok(chord);
      ParseGivesTypable(text, given);
    }
  }

  lemma EffectiveSubset(bs: seq<Binding>, b: Binding)
    requires b in Effective(bs)
    ensures b in bs
  {
    EffectiveMembers(bs, |bs|, b);
  }

  /** An action is shown without a hint exactly when every chord that still runs it is a physical key. */
  lemma NoHintIff(p: Platform, id: ActionId, bs: seq<Binding>)
    ensures ResolveHint(p, id, bs).None? <==>
      forall chord :: chord in LastWins(bs) && ActionIdOf(LastWins(bs)[chord]) == Some(id) ==> chord.key.Physical?
  {
    hide ActionIdOf, DisplayHint, LastWins, Effective, ResolveFrom;
    var es := Effective(bs);
    HintSource(p, id, es);
    EffectiveIsLastWins(bs);
    if ResolveHint(p, id, bs).None? {
      forall chord | chord in LastWins(bs) && ActionIdOf(LastWins(bs)[chord]) == Some(id)
        ensures chord.key.Physical?
      {
        assert Binding(chord, LastWins(bs)[chord]) in es;
      }
    } else {
      var i :| 0 <= i < |es| && ActionIdOf(es[i].action) == Some(id) && DisplayHint(p, es[i].chord).Some?;
      HintWhen(p, es[i].chord);
      assert es[i] in es;
    }
  }

  // ----- The registry ------------------------------------------------------------------------------

  class KeybindRegistry {
    var bindings: seq<Binding>
    var leaderBindings: seq<Binding>

    constructor ()
      ensures bindings == [] && leaderBindings == []
    {
      bindings, leaderBindings := [], [];
    }

    /** A later registration for a chord overrides the earlier ones; no other chord's action changes. */
    method Register(chord: KeyChord, action: Action)
      modifies this`bindings
      ensures LastWins(bindings) == LastWins(old(bindings))[chord := action]
      ensures bindings == old(bindings) + [Binding(chord, action)]
    {
      bindings := bindings + [Binding(chord, action)];
    }

    method RegisterLeader(chord: KeyChord, action: Action)
      modifies this`leaderBindings
      ensures LastWins(leaderBindings) == LastWins(old(leaderBindings))[chord := action]
      ensures leaderBindings == old(leaderBindings) + [Binding(chord, action)]
    {
      leaderBindings := leaderBindings + [Binding(chord, action)];
    }
  }
}
