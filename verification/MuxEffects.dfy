/** What each operation of the multiplexer does, to the one tab or workspace it is about and to nothing else:
    through rectangles, focus and order, on any reachable state.
 */
module MuxEffects {
  import opened Layout
  import opened Geometry
  import opened Basics
  import opened Borders
  import opened Splits
  import opened Closes
  import opened Resizes
  import opened LayoutOps
  import opened Effects
  import opened Bags
  import opened Mux
  import opened Multiplexer

  /** Tab `ti` of workspace `wi` holds the pane. */
  ghost predicate InTab(m: MuxV, wi: nat, ti: nat, pane: PaneId) {
    wi < |m.workspaces| && ti < |m.workspaces[wi].tabs| && pane in PaneIds(m.workspaces[wi].tabs[ti].layout)
  }

  /** Nothing but the tree and the focus of tab `ti` of workspace `wi`, and the pane counter, may differ. */
  ghost predicate OnlyTab(m: MuxV, r: MuxV, wi: nat, ti: nat)
    requires wi < |m.workspaces| && ti < |m.workspaces[wi].tabs|
  {
    && |r.workspaces| == |m.workspaces| && r.active == m.active && r.nextTab == m.nextTab && r.nextWs == m.nextWs
    && (forall i :: 0 <= i < |m.workspaces| && i != wi ==> r.workspaces[i] == m.workspaces[i])
    && var w, w' := m.workspaces[wi], r.workspaces[wi];
    && w'.id == w.id && w'.active == w.active && |w'.tabs| == |w.tabs| && w'.tabs[ti].id == w.tabs[ti].id
    && forall j :: 0 <= j < |w.tabs| && j != ti ==> w'.tabs[j] == w.tabs[j]
  }

  /** Where a pane is found is where it is. */
  lemma FoundAt(m: MuxV, wi: nat, ti: nat, pane: PaneId)
    requires Inv(m) && InTab(m, wi, ti, pane)
    ensures Tracked(m, pane) && WorkspaceOf(m.workspaces, pane) == wi && TabOf(m.workspaces[wi].tabs, pane) == ti
    ensures TabOk(m.workspaces[wi].tabs[ti])
  {
    hide Bag;
    HeldByTab(m, wi, ti, pane);
    TrackedIsHeld(m, pane);
    var wj := WorkspaceOf(m.workspaces, pane);
    SamePlace(m, wi, ti, wj, TabOf(m.workspaces[wj].tabs, pane), pane);
    assert WorkspaceOk(m.workspaces[wi]);
  }

  lemma WithTabIsOnly(m: MuxV, wi: nat, ti: nat, t: TabV)
    requires wi < |m.workspaces| && ti < |m.workspaces[wi].tabs| && t.id == m.workspaces[wi].tabs[ti].id
    ensures OnlyTab(m, WithTab(m, wi, ti, t), wi, ti) && WithTab(m, wi, ti, t).workspaces[wi].tabs[ti] == t
    ensures WithTab(m, wi, ti, t).nextPane == m.nextPane
  {
  }

  // ----- counters -----

  /** Allocation hands out the counter and takes one step; noting an external identifier moves the counter no
      further than just past it. */
  lemma CounterSteps(m: MuxV, pane: PaneId)
    ensures m.nextPane < U32_MAX ==> AllocPane(m) == (m.(nextPane := m.nextPane + 1), Some(m.nextPane))
    ensures m.nextPane == U32_MAX ==> AllocPane(m) == (m, None)
    ensures var n := Noted(m, pane);
      && n == m.(nextPane := n.nextPane) && n.nextPane >= m.nextPane && Behind(pane, n.nextPane)
      && (n.nextPane > m.nextPane ==> n.nextPane == pane || n.nextPane == pane + 1)
      && (n.nextPane == pane ==> pane == U32_MAX)
  {
  }

  // ----- splitting, resizing, exchanging -----

  /** The tab that holds the target takes in the newcomer, directly after the target and with its fair share;
      panes outside the target's container do not move, and the focus stays. */
  lemma SplitPaneEffect(m: MuxV, target: PaneId, added: PaneId, d: SplitDirection, wi: nat, ti: nat)
    requires Inv(m) && InTab(m, wi, ti, target) && !Tracked(m, added)
    ensures
      var s := SplitPane(m, target, added, d);
      && s.result == Ok(Unit) && OnlyTab(m, s.mux, wi, ti) && s.mux.nextPane == Noted(m, added).nextPane
      && var t, t' := m.workspaces[wi].tabs[ti], s.mux.workspaces[wi].tabs[ti];
      && t'.focused == t.focused && PaneIds(t'.layout) == WithAfter(PaneIds(t.layout), target, added)
      && Shares(t.layout, t'.layout, target, added, d) && Beside(t'.layout, target, added, d)
      && forall q :: q in PaneIds(t.layout) && q != target
           && (t.layout.Container? ==> q !in PaneIds(Owner(t.layout, target)))
           ==> PaneRect(t'.layout, q) == PaneRect(t.layout, q)
  {
    hide Inv, Shares, Beside, Noted, WithTab, OnlyTab, Canonical, NoDup, SplitTree, PaneRect, Owner;
    FoundAt(m, wi, ti, target);
    var t := m.workspaces[wi].tabs[ti];
    assert added !in PaneIds(t.layout) by {
      HeldByTab(m, wi, ti, added);
      TrackedIsHeld(m, added);
    }
    var t' := t.(layout := SplitTree(t.layout, target, added, d));
    WithTabIsOnly(m, wi, ti, t');
    NotedOnly(m, WithTab(m, wi, ti, t'), added, wi, ti);
    SplitIds(t.layout, target, added, d);
    SplitShares(t.layout, target, added, d);
    NewcomerBordersTarget(t.layout, target, added, d);
    forall q | q in PaneIds(t.layout) && q != target
               && (t.layout.Container? ==> q !in PaneIds(Owner(t.layout, target)))
      ensures PaneRect(t'.layout, q) == PaneRect(t.layout, q)
    {
      SplitElsewhere(t.layout, target, added, d, q);
    }
  }

  lemma NotedOnly(m: MuxV, r: MuxV, pane: PaneId, wi: nat, ti: nat)
    requires wi < |m.workspaces| && ti < |m.workspaces[wi].tabs| && OnlyTab(m, r, wi, ti) && r.nextPane == m.nextPane
    ensures OnlyTab(m, Noted(r, pane), wi, ti) && Noted(r, pane).workspaces == r.workspaces
    ensures Noted(r, pane).nextPane == Noted(m, pane).nextPane
  {
  }

  /** The tab that holds `pane` is resized: accepted exactly when the two panes' rectangles meet and the floor
      is not negative, and then their border goes towards `neighbor`, `pane` gaining, as far as asked and
      allowed. An error names the panes as they were given. */
  lemma ResizePaneEffect(
    m: MuxV, pane: PaneId, neighbor: PaneId, delta: real, minWeight: real, wi: nat, ti: nat) returns (a: real)
    requires Inv(m) && InTab(m, wi, ti, pane)
    ensures
      var s := ResizePane(m, pane, neighbor, delta, minWeight);
      && OnlyTab(m, s.mux, wi, ti) && s.mux.nextPane == m.nextPane
      && var t, t' := m.workspaces[wi].tabs[ti], s.mux.workspaces[wi].tabs[ti];
      && t'.focused == t.focused
      && (s.result.Ok? <==> minWeight >= 0.0 && RectsMeet(t.layout, pane, neighbor))
      && (s.result.Err? ==>
            && t' == t
            && s.result.error in {InvalidResizeParam, PaneNotFound(neighbor), NotAdjacentSiblings(pane, neighbor)})
      && (s.result.Ok? ==>
            && t.layout.Container? && neighbor in PaneIds(t.layout) && Dragged(t.layout, t'.layout, pane, neighbor, a)
            && var cs := NodeAt(t.layout, CommonPath(t.layout, pane, neighbor)).children;
               AsFarAs(a, cs[Find(cs, pane)].weight, cs[Find(cs, neighbor)].weight, delta, minWeight))
  {
    hide Inv, WithTab, OnlyTab, Canonical, NoDup, RectsMeet, Dragged, AsFarAs, PaneIds, Find;
    FoundAt(m, wi, ti, pane);
    var t := m.workspaces[wi].tabs[ti];
    assert (ResizeOp(t.layout, pane, neighbor, delta, minWeight).result.Ok? <==>
            minWeight >= 0.0 && RectsMeet(t.layout, pane, neighbor)) by {
      ResizeAcceptedIff(t.layout, pane, neighbor, delta, minWeight);
    }
    WithTabIsOnly(m, wi, ti, t.(layout := ResizeOp(t.layout, pane, neighbor, delta, minWeight).tree));
    a := 0.0;
    if ResizeOp(t.layout, pane, neighbor, delta, minWeight).result.Ok? {
      a := ResizeDrags(t.layout, pane, neighbor, delta, minWeight);
    }
  }

  /** Within one tab the two panes trade rectangles and no other moves; across tabs the exchange is refused. */
  lemma SwapPanesEffect(m: MuxV, a: PaneId, b: PaneId, wi: nat, ti: nat)
    requires Inv(m) && InTab(m, wi, ti, a)
    ensures
      var s := SwapPanes(m, a, b);
      && OnlyTab(m, s.mux, wi, ti) && s.mux.nextPane == m.nextPane
      && var t, t' := m.workspaces[wi].tabs[ti], s.mux.workspaces[wi].tabs[ti];
      && t'.focused == t.focused
      && s.result == (if b in PaneIds(t.layout) then Ok(Unit) else Err(PaneNotFound(b)))
      && (s.result.Err? ==> t' == t)
      && (s.result.Ok? ==>
            && PaneRect(t'.layout, a) == PaneRect(t.layout, b) && PaneRect(t'.layout, b) == PaneRect(t.layout, a)
            && forall q :: q != a && q != b ==> PaneRect(t'.layout, q) == PaneRect(t.layout, q))
  {
    hide Inv, WithTab, OnlyTab, PaneRect, SwapTree;
    FoundAt(m, wi, ti, a);
    var t := m.workspaces[wi].tabs[ti];
    WithTabIsOnly(m, wi, ti, t.(layout := SwapOp(t.layout, a, b).tree));
    forall q ensures q != a && q != b ==> PaneRect(SwapTree(t.layout, a, b), q) == PaneRect(t.layout, q) {
      SwapExchangesRects(t.layout, a, b, q);
    }
    SwapExchangesRects(t.layout, a, b, a);
  }

  // ----- focus -----

  /** The pane's workspace and tab come to the front and the tab focuses it; nothing else changes. */
  lemma FocusPaneEffect(m: MuxV, pane: PaneId, wi: nat, ti: nat)
    requires Inv(m) && InTab(m, wi, ti, pane)
    ensures
      var (r, ok) := FocusPane(m, pane);
      && ok && r.active == wi && r == m.(workspaces := r.workspaces, active := wi)
      && |r.workspaces| == |m.workspaces|
      && (forall i :: 0 <= i < |m.workspaces| && i != wi ==> r.workspaces[i] == m.workspaces[i])
      && var w, w' := m.workspaces[wi], r.workspaces[wi];
      && w'.id == w.id && w'.active == ti && |w'.tabs| == |w.tabs| && w'.tabs[ti] == w.tabs[ti].(focused := pane)
      && forall j :: 0 <= j < |w.tabs| && j != ti ==> w'.tabs[j] == w.tabs[j]
  {
    hide Inv;
    FoundAt(m, wi, ti, pane);
  }

  // ----- closing -----

  /** A tab that holds other panes loses just this one: the others of its container share its place, panes
      elsewhere do not move, and a tab that focused it focuses the pane the close hands on to. */
  lemma ClosePaneEffect(m: MuxV, pane: PaneId, wi: nat, ti: nat)
    requires Inv(m) && InTab(m, wi, ti, pane) && m.workspaces[wi].tabs[ti].layout != Leaf(pane)
    ensures
      var s := ClosePane(m, pane);
      && OnlyTab(m, s.mux, wi, ti) && s.mux.nextPane == m.nextPane
      && var t, t' := m.workspaces[wi].tabs[ti], s.mux.workspaces[wi].tabs[ti];
      && t.layout.Container? && s.result.Ok? && s.result.value.PaneRemoved?
      && HintFor(t.layout, pane, s.result.value.focusHint)
      && t'.focused == (if t.focused == pane then s.result.value.focusHint else t.focused)
      && PaneIds(t'.layout) == Minus(PaneIds(t.layout), pane)
      && 0.0 < ShareOf(t.layout, pane) < 1.0
      && forall q :: q in PaneIds(t.layout) && q != pane ==> SurvivesAs(t.layout, t'.layout, pane, q)
  {
    hide Inv, WithTab, OnlyTab, Canonical, NoDup, PaneIds, CloseTree, SiblingHint, HintFor, ShareOf, SurvivesAs;
    FoundAt(m, wi, ti, pane);
    var t := m.workspaces[wi].tabs[ti];
    CloseHints(t.layout, pane);
    CloseIds(t.layout, pane);
    OwnerFacts(t.layout, pane);
    var s := CloseOp(t.layout, pane);
    forall q | q in PaneIds(t.layout) && q != pane ensures SurvivesAs(t.layout, s.tree, pane, q) {
      CloseSurvivors(t.layout, pane, q);
    }
    var hint := s.result.value.focusHint;
    WithTabIsOnly(m, wi, ti, t.(layout := s.tree, focused := if t.focused == pane then hint else t.focused));
  }

  /** A tab goes with its only pane, the others staying in order; a workspace goes with its only tab. */
  lemma CloseLastPaneEffect(m: MuxV, pane: PaneId, wi: nat, ti: nat)
    requires Inv(m) && InTab(m, wi, ti, pane) && m.workspaces[wi].tabs[ti].layout == Leaf(pane)
    ensures
      var s := ClosePane(m, pane);
      var w := m.workspaces[wi];
      && s.mux == m.(workspaces := s.mux.workspaces, active := s.mux.active)
      && (|w.tabs| == 1 ==>
            && s.result == Ok(TabClosed(w.tabs[ti].id, Some(w.id)))
            && s.mux.workspaces == m.workspaces[..wi] + m.workspaces[wi + 1..])
      && (|w.tabs| > 1 ==>
            && s.result == Ok(TabClosed(w.tabs[ti].id, None))
            && s.mux.active == m.active && |s.mux.workspaces| == |m.workspaces|
            && (forall i :: 0 <= i < |m.workspaces| && i != wi ==> s.mux.workspaces[i] == m.workspaces[i])
            && s.mux.workspaces[wi].id == w.id && s.mux.workspaces[wi].tabs == w.tabs[..ti] + w.tabs[ti + 1..])
  {
    hide Inv, ClampActive;
    FoundAt(m, wi, ti, pane);
    CloseHints(m.workspaces[wi].tabs[ti].layout, pane);
  }

  /** A workspace closes with all its tabs, whose panes are told tab by tab, each in pane order. */
  lemma CloseWorkspaceEffect(m: MuxV, wi: nat)
    requires Inv(m) && wi < |m.workspaces|
    ensures
      var (r, panes) := CloseWorkspace(m, m.workspaces[wi].id);
      && r == m.(workspaces := m.workspaces[..wi] + m.workspaces[wi + 1..], active := r.active)
      && panes == Some(TabPaneList(m.workspaces[wi].tabs))
    ensures forall tabs: seq<TabV>, t :: TabPaneList([t] + tabs) == PaneIds(t.layout) + TabPaneList(tabs)
    ensures TabPaneList([]) == []
  {
    hide ClampActive, PaneIds;
    assert WorkspaceWithId(m.workspaces, m.workspaces[wi].id) == wi by {
      hide Inv;
      WorkspaceIdsDistinct(m, WorkspaceWithId(m.workspaces, m.workspaces[wi].id), wi);
    }
    forall tabs: seq<TabV>, t ensures TabPaneList([t] + tabs) == PaneIds(t.layout) + TabPaneList(tabs) {
      assert ([t] + tabs)[1..] == tabs;
    }
  }

  // ----- creating -----

  /** A new tab goes last in the active workspace, under the next tab identifier, and is in view. */
  lemma NewTabEffect(m: MuxV, pane: PaneId)
    requires Inv(m) && m.workspaces != [] && !Tracked(m, pane)
    ensures
      var (r, o) := NewTab(m, pane);
      var w := m.workspaces[m.active];
      && (o.Aborted? <==> m.nextTab == U32_MAX)
      && (o.Aborted? ==> r == Noted(m, pane))
      && (o.Done? ==>
            && o.value == Some(m.nextTab) && r.nextTab == m.nextTab + 1 && r.nextWs == m.nextWs
            && r.nextPane == Noted(m, pane).nextPane && r.active == m.active && |r.workspaces| == |m.workspaces|
            && (forall i :: 0 <= i < |m.workspaces| && i != m.active ==> r.workspaces[i] == m.workspaces[i])
            && r.workspaces[m.active]
               == WorkspaceV(w.id, w.tabs + [TabV(m.nextTab, Leaf(pane), pane)], |w.tabs|))
  {
    assert m.active < |m.workspaces|;
    hide Inv;
  }

  /** A new workspace goes last, under the next identifiers, with one tab around the pane, and is in view; the
      first one of all likewise. */
  lemma NewWorkspaceEffect(m: MuxV, pane: PaneId)
    requires Inv(m) && !Tracked(m, pane)
    ensures
      var (r, o) := NewWorkspace(m, pane);
      && (o.Aborted? <==> m.nextTab == U32_MAX || m.nextWs == U32_MAX)
      && (o.Aborted? ==> r.workspaces == m.workspaces && r.active == m.active)
      && (o.Done? ==> o.value == Some(m.nextWs) && WithWorkspaceLast(m, r, pane))
    ensures
      var (r, o) := Seed(m, pane);
      && (m.workspaces == [] ==>
            && (o.Aborted? <==> m.nextTab == U32_MAX || m.nextWs == U32_MAX)
            && (o.Done? ==> o.value && WithWorkspaceLast(m, r, pane)))
      && (m.workspaces != [] ==> r == m && o == Done(false))
  {
    hide Inv;
  }

  ghost predicate WithWorkspaceLast(m: MuxV, r: MuxV, pane: PaneId) {
    && r.workspaces == m.workspaces + [WorkspaceV(m.nextWs, [TabV(m.nextTab, Leaf(pane), pane)], 0)]
    && r.active == |m.workspaces| && r.nextTab == m.nextTab + 1 && r.nextWs == m.nextWs + 1
    && r.nextPane == Noted(m, pane).nextPane
  }
}
