/** What the user keeps seeing while the multiplexer changes around it, and what
    holds over every run of its operations.
 */
module MuxRuns {
  import opened Layout
  import opened Basics
  import opened LayoutOps
  import opened Effects
  import opened Bags
  import opened Mux
  import opened Multiplexer

  // ----- the view -----

  /** The workspace, tab and pane the user is looking at. */
  datatype View = View(workspace: U32, tab: U32, focused: PaneId)

  ghost function InFront(m: MuxV): Option<View> {
    if m.active < |m.workspaces| && m.workspaces[m.active].active < |m.workspaces[m.active].tabs| then
      var w := m.workspaces[m.active];
      Some(View(w.id, w.tabs[w.active].id, w.tabs[w.active].focused))
    else None
  }

  lemma InvHasView(m: MuxV)
    requires Inv(m)
    ensures InFront(m).Some? <==> m.workspaces != []
  {
  }

  /** Replacing a tab shows through only if it is the active one. */
  lemma WithTabView(m: MuxV, wi: nat, ti: nat, t: TabV)
    requires wi < |m.workspaces| && ti < |m.workspaces[wi].tabs| && t.id == m.workspaces[wi].tabs[ti].id
    requires wi == m.active && ti == m.workspaces[wi].active ==> t.focused == m.workspaces[wi].tabs[ti].focused
    ensures InFront(WithTab(m, wi, ti, t)) == InFront(m)
  {
  }

  lemma WithoutWorkspaceView(m: MuxV, wi: nat)
    requires Inv(m) && wi < |m.workspaces| && wi != m.active
    ensures InFront(WithoutWorkspace(m, wi)) == InFront(m)
  {
  }

  lemma WithoutTabView(m: MuxV, wi: nat, ti: nat)
    requires Inv(m) && wi < |m.workspaces| && ti < |m.workspaces[wi].tabs|
    requires wi != m.active || ti != m.workspaces[wi].active
    ensures InFront(WithoutTab(m, wi, ti)) == InFront(m)
  {
  }

  /** Closing any pane other than the focused one in view, in whatever tab or
      workspace and however far the close cascades, changes nothing of what
      the user looks at. */
  lemma ClosingElsewhereKeepsView(m: MuxV, pane: PaneId)
    requires Inv(m) && InFront(m).Some? && pane != InFront(m).value.focused
    ensures InFront(ClosePane(m, pane).mux) == InFront(m)
  {
    hide CloseOp;
    hide Bag;
    hide WithTab;
    hide WithoutTab;
    hide WithoutWorkspace;
    if Tracked(m, pane) {
      var wi := WorkspaceOf(m.workspaces, pane);
      var ti := TabOf(m.workspaces[wi].tabs, pane);
      var w := m.workspaces[wi];
      var t := w.tabs[ti];
      assert WorkspaceOk(w) && TabOk(t);
      CloseGood(t.layout, pane);
      var s := CloseOp(t.layout, pane);
      if s.result.value.Removed? {
        var hint := s.result.value.focusHint;
        WithTabView(m, wi, ti, t.(layout := s.tree, focused := if t.focused == pane then hint else t.focused));
      } else {
        assert t.focused in [pane];
        if |w.tabs| == 1 {
          WithoutWorkspaceView(m, wi);
        } else {
          WithoutTabView(m, wi, ti);
        }
      }
    }
  }

  /** Closing the focused pane keeps the tab in view as long as it holds other
      panes, and moves focus to the pane before the closed one, or the one after when it came first in its
      container. */
  lemma ClosingFocusMovesFocus(m: MuxV, pane: PaneId)
    requires Inv(m) && InFront(m).Some? && pane == InFront(m).value.focused
    ensures
      var s := ClosePane(m, pane);
      var t := m.workspaces[m.active].tabs[m.workspaces[m.active].active];
      && s.result.Ok?
      && (s.result.value.PaneRemoved? <==> PaneIds(t.layout) != [pane])
      && (s.result.value.PaneRemoved? ==>
            && InFront(s.mux) == Some(InFront(m).value.(focused := s.result.value.focusHint))
            && t.layout.Container? && pane in PaneIds(t.layout)
            && HintFor(t.layout, pane, s.result.value.focusHint))
  {
    hide CloseOp;
    hide Bag;
    var w := m.workspaces[m.active];
    assert WorkspaceOk(w);
    var t := w.tabs[w.active];
    assert TabOk(t);
    HeldByTab(m, m.active, w.active, pane);
    TrackedIsHeld(m, pane);
    var wj := WorkspaceOf(m.workspaces, pane);
    SamePlace(m, m.active, w.active, wj, TabOf(m.workspaces[wj].tabs, pane), pane);
    CloseGood(t.layout, pane);
    hide HintFor, Canonical;
    CloseHints(t.layout, pane);
  }

  /** When the tab in view closes with its last pane, the tab after it comes
      into view, or the one before when it was last; when its workspace goes
      too, the same holds of workspaces. */
  lemma ClosingLastPaneActivatesNeighbour(m: MuxV, pane: PaneId)
    requires Inv(m) && InFront(m).Some? && pane == InFront(m).value.focused
    requires PaneIds(m.workspaces[m.active].tabs[m.workspaces[m.active].active].layout) == [pane]
    ensures
      var r := ClosePane(m, pane).mux;
      var w := m.workspaces[m.active];
      if |w.tabs| > 1 then
        && InFront(r).Some? && InFront(r).value.workspace == w.id
        && InFront(r).value.tab == w.tabs[if w.active + 1 < |w.tabs| then w.active + 1 else w.active - 1].id
      else if |m.workspaces| > 1 then
        && InFront(r).Some?
        && InFront(r).value.workspace
           == m.workspaces[if m.active + 1 < |m.workspaces| then m.active + 1 else m.active - 1].id
      else r.workspaces == []
  {
    hide CloseOp;
    hide Bag;
    hide PaneIds;
    var w := m.workspaces[m.active];
    assert WorkspaceOk(w);
    var t := w.tabs[w.active];
    assert TabOk(t);
    HeldByTab(m, m.active, w.active, pane);
    TrackedIsHeld(m, pane);
    var wj := WorkspaceOf(m.workspaces, pane);
    SamePlace(m, m.active, w.active, wj, TabOf(m.workspaces[wj].tabs, pane), pane);
    CloseGood(t.layout, pane);
    ClampKeepsActive(w.tabs, w.active, w.active);
    ClampKeepsActive(m.workspaces, m.active, m.active);
    ClosePaneInv(m, pane);
    InvHasView(ClosePane(m, pane).mux);
  }

  /** Closing a workspace other than the one in view. */
  lemma ClosingOtherWorkspaceKeepsView(m: MuxV, id: U32)
    requires Inv(m) && InFront(m).Some? && id != InFront(m).value.workspace
    ensures InFront(CloseWorkspace(m, id).0) == InFront(m)
  {
    var wi := WorkspaceWithId(m.workspaces, id);
    if wi < |m.workspaces| {
      WithoutWorkspaceView(m, wi);
    }
  }

  /** What one would see of a workspace if it came into view. */
  ghost function ViewOf(w: WorkspaceV): Option<View> {
    if w.active < |w.tabs| then Some(View(w.id, w.tabs[w.active].id, w.tabs[w.active].focused)) else None
  }

  /** Closing the workspace in view brings in the next one, or the previous when it was last, as it was left;
      closing the only one leaves nothing. */
  lemma ClosingActiveWorkspaceShowsNeighbour(m: MuxV, id: U32)
    requires Inv(m) && InFront(m).Some? && id == InFront(m).value.workspace
    ensures
      var r := CloseWorkspace(m, id).0;
      if |m.workspaces| == 1 then r.workspaces == []
      else
        && InFront(r).Some?
        && InFront(r) == ViewOf(m.workspaces[if m.active + 1 < |m.workspaces| then m.active + 1 else m.active - 1])
  {
    hide Bag;
    var wi := WorkspaceWithId(m.workspaces, id);
    WorkspaceIdsDistinct(m, wi, m.active);
    ClampKeepsActive(m.workspaces, wi, wi);
    CloseWorkspaceInv(m, id);
    InvHasView(CloseWorkspace(m, id).0);
  }

  /** Reordering tabs never changes what is in view. */
  lemma MovingTabKeepsView(m: MuxV, id: U32, index: nat)
    requires Inv(m)
    ensures InFront(MoveTab(m, id, index).0) == InFront(m)
  {
    hide Bag;
    hide MoveTab;
    MoveTabInv(m, id, index);
  }

  /** Splitting, resizing and swapping keep the view: focus follows pane
      identity, not position. */
  lemma TabOperationsKeepView(m: MuxV, a: PaneId, b: PaneId, d: SplitDirection, delta: real, minWeight: real)
    requires Inv(m)
    ensures InFront(SplitPane(m, a, b, d).mux) == InFront(m)
    ensures InFront(ResizePane(m, a, b, delta, minWeight).mux) == InFront(m)
    ensures InFront(SwapPanes(m, a, b).mux) == InFront(m)
  {
    hide SplitOp;
    hide ResizeOp;
    hide SwapOp;
    if Tracked(m, a) {
      var wi := WorkspaceOf(m.workspaces, a);
      var ti := TabOf(m.workspaces[wi].tabs, a);
      var t := m.workspaces[wi].tabs[ti];
      WithTabView(m, wi, ti, t.(layout := SplitOp(t.layout, a, b, d).tree));
      WithTabView(m, wi, ti, t.(layout := ResizeOp(t.layout, a, b, delta, minWeight).tree));
      WithTabView(m, wi, ti, t.(layout := SwapOp(t.layout, a, b).tree));
    }
  }

  // ----- whole runs -----

  datatype MuxOp =
    | Allocate
    | SeedOp(pane: PaneId)
    | NewTabOp(pane: PaneId)
    | NewWorkspaceOp(pane: PaneId)
    | SplitPaneOp(target: PaneId, added: PaneId, direction: SplitDirection)
    | ResizePaneOp(pane: PaneId, neighbor: PaneId, delta: real, minWeight: real)
    | SwapPanesOp(a: PaneId, b: PaneId)
    | FocusOp(pane: PaneId)
    | MoveTabOp(tab: U32, index: nat)
    | ClosePaneOp(pane: PaneId)
    | CloseWorkspaceOp(workspace: U32)

  ghost function Effect(m: MuxV, op: MuxOp): MuxV {
    match op
    case Allocate => AllocPane(m).0
    case SeedOp(p) => Seed(m, p).0
    case NewTabOp(p) => NewTab(m, p).0
    case NewWorkspaceOp(p) => NewWorkspace(m, p).0
    case SplitPaneOp(t, a, d) => SplitPane(m, t, a, d).mux
    case ResizePaneOp(p, q, delta, minWeight) => ResizePane(m, p, q, delta, minWeight).mux
    case SwapPanesOp(a, b) => SwapPanes(m, a, b).mux
    case FocusOp(p) => FocusPane(m, p).0
    case MoveTabOp(t, i) => MoveTab(m, t, i).0
    case ClosePaneOp(p) => ClosePane(m, p).mux
    case CloseWorkspaceOp(w) => CloseWorkspace(m, w).0
  }

  /** The state together with every pane identifier ever returned by the
      allocator or held by a tab. */
  datatype History = History(mux: MuxV, used: iset<PaneId>)

  ghost function Advance(h: History, op: MuxOp): History {
    var m := Effect(h.mux, op);
    var returned := if op.Allocate? && AllocPane(h.mux).1.Some? then iset{h.mux.nextPane} else iset{};
    History(m, h.used + returned + (iset p | p in AllPanes(m)))
  }

  ghost function After(h: History, ops: seq<MuxOp>): History
    decreases |ops|
  {
    if ops == [] then h else After(Advance(h, ops[0]), ops[1..])
  }

  ghost const NOTHING_YET := History(EMPTY, iset{})

  ghost predicate HistoryOk(h: History) {
    && Inv(h.mux)
    && forall p :: p in h.used ==> Behind(p, h.mux.nextPane)
  }

  lemma EffectInv(m: MuxV, op: MuxOp)
    requires Inv(m)
    ensures Inv(Effect(m, op))
  {
    hide Inv, AllocPane, Seed, NewTab, NewWorkspace, SplitPane, ResizePane, SwapPanes, FocusPane, MoveTab, ClosePane,
         CloseWorkspace;
    match op
    case Allocate => AllocInv(m);
    case SeedOp(p) => assert Inv(Seed(m, p).0) by { SeedInv(m, p); }
    case NewTabOp(p) => assert Inv(NewTab(m, p).0) by { NewTabInv(m, p); }
    case NewWorkspaceOp(p) => assert Inv(NewWorkspace(m, p).0) by { NewWorkspaceInv(m, p); }
    case FocusOp(p) => assert Inv(FocusPane(m, p).0) by { FocusPaneInv(m, p); }
    case MoveTabOp(t, i) => assert Inv(MoveTab(m, t, i).0) by { MoveTabInv(m, t, i); }
    case CloseWorkspaceOp(w) => assert Inv(CloseWorkspace(m, w).0) by { CloseWorkspaceInv(m, w); }
    case _ => PaneEffectInv(m, op);
  }

  /** The operations on one pane's tab. */
  lemma PaneEffectInv(m: MuxV, op: MuxOp)
    requires Inv(m) && (op.SplitPaneOp? || op.ResizePaneOp? || op.SwapPanesOp? || op.ClosePaneOp?)
    ensures Inv(Effect(m, op))
  {
    hide Inv, SplitPane, ResizePane, SwapPanes, ClosePane;
    match op
    case SplitPaneOp(t, a, d) => assert Inv(SplitPane(m, t, a, d).mux) by { SplitPaneInv(m, t, a, d); }
    case ResizePaneOp(p, q, delta, minWeight) =>
      assert Inv(ResizePane(m, p, q, delta, minWeight).mux) by { ResizePaneInv(m, p, q, delta, minWeight); }
    case SwapPanesOp(a, b) => assert Inv(SwapPanes(m, a, b).mux) by { SwapPanesInv(m, a, b); }
    case ClosePaneOp(p) => assert Inv(ClosePane(m, p).mux) by { ClosePaneInv(m, p); }
    case _ =>
  }

  lemma AllocInv(m: MuxV)
    requires Inv(m)
    ensures Inv(AllocPane(m).0)
  {
    hide Inv;
    CounterInv(m, if m.nextPane == U32_MAX then m.nextPane else m.nextPane + 1);
  }

  /** No operation moves the pane counter back. */
  lemma EffectCounter(m: MuxV, op: MuxOp)
    ensures Effect(m, op).nextPane >= m.nextPane
  {
  }

  lemma {:induction false} AfterOk(h: History, ops: seq<MuxOp>)
    requires HistoryOk(h)
    ensures HistoryOk(After(h, ops))
    decreases |ops|
  {
    if ops == [] {
    } else {
      EffectInv(h.mux, ops[0]);
      EffectCounter(h.mux, ops[0]);
      AdvanceOk(h, ops[0]);
      AfterOk(Advance(h, ops[0]), ops[1..]);
    }
  }

  lemma AdvanceOk(h: History, op: MuxOp)
    requires HistoryOk(h) && Inv(Effect(h.mux, op)) && Effect(h.mux, op).nextPane >= h.mux.nextPane
    ensures HistoryOk(Advance(h, op))
  {
    hide Effect;
    hide Inv;
    hide AllPanes;
    hide AllocPane;
    var r := Advance(h, op);
    HeldBehind(r.mux);
    AllocMoves(h.mux);
    AllocEffect(h.mux, op);
    forall p | p in r.used ensures Behind(p, r.mux.nextPane) {
      if p in h.used {
        assert Behind(p, h.mux.nextPane);
      }
    }
  }

  lemma HeldBehind(m: MuxV)
    requires Inv(m)
    ensures forall p :: p in AllPanes(m) ==> Behind(p, m.nextPane)
  {
  }

  lemma AllocMoves(m: MuxV)
    ensures AllocPane(m).0.nextPane >= m.nextPane
    ensures AllocPane(m).1.Some? ==> m.nextPane < AllocPane(m).0.nextPane
  {
  }

  lemma AllocEffect(m: MuxV, op: MuxOp)
    ensures op.Allocate? ==> Effect(m, op) == AllocPane(m).0
  {
  }

  /** In every reachable state: active indices are in range, no workspace or
      tab is empty, all identifiers are unique, every focused pane is in its
      tab; and the next pane identifier handed out was never handed out before
      nor ever held by any tab. */
  lemma EveryRun(ops: seq<MuxOp>)
    ensures
      var h := After(NOTHING_YET, ops);
      && Inv(h.mux)
      && (AllocPane(h.mux).1.Some? ==> AllocPane(h.mux).1.value !in h.used)
  {
    assert AllPanes(EMPTY) == multiset{} && AllTabs(EMPTY) == multiset{} && AllWorkspaces(EMPTY) == multiset{};
    AfterOk(NOTHING_YET, ops);
  }
}
