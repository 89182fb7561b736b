/** The daemon's pane manager: a pane map kept in step with the multiplexer, so
    that none of its desynchronisation branches can be reached.
 */
module PaneManager {
  import opened Layout
  import opened Basics
  import opened LayoutOps
  import opened Bags
  import opened Mux
  import opened Multiplexer
  import opened Pins

  /** The map's keys are exactly the panes of the multiplexer's tabs. */
  ghost predicate InStep(keys: set<PaneId>, m: MuxV) {
    forall p :: p in keys <==> p in AllPanes(m)
  }

  /** A non-empty multiplexer has an active tab whose focused pane is tracked. */
  lemma FocusIsTracked(m: MuxV)
    requires Inv(m) && m.workspaces != []
    ensures ActiveTab(m).Some? && Tracked(m, ActiveTab(m).value.focused)
  {
  }

  /** A freshly allocated pane identifier is tracked by nobody. */
  lemma AllocatedIsNew(m: MuxV)
    requires Inv(m) && m.nextPane < U32_MAX
    ensures !Tracked(AllocPane(m).0, m.nextPane) && m.nextPane !in AllPanes(m)
    ensures Inv(AllocPane(m).0) && AllPanes(AllocPane(m).0) == AllPanes(m)
  {
    CounterInv(m, m.nextPane + 1);
    TrackedIsHeld(m, m.nextPane);
    TrackedIsHeld(AllocPane(m).0, m.nextPane);
  }

  lemma InStepSame(keys: set<PaneId>, m: MuxV, r: MuxV)
    requires InStep(keys, m) && AllPanes(r) == AllPanes(m)
    ensures InStep(keys, r)
  {
  }

  lemma InStepAdds(keys: set<PaneId>, m: MuxV, r: MuxV, p: PaneId)
    requires InStep(keys, m) && AllPanes(r) == AllPanes(m) + multiset{p}
    ensures InStep(keys + {p}, r)
  {
  }

  lemma InStepTells(keys: set<PaneId>, m: MuxV, p: PaneId)
    requires InStep(keys, m)
    ensures p in keys <==> p in AllPanes(m)
  {
  }

  class PaneManager {
    var panes: map<PaneId, PaneState>
    const mux: MultiplexerState
    ghost var Repr: set<object>

    /** The manager owns the multiplexer and everything below it. */
    ghost predicate Owned()
      reads this, Repr
    {
      && this in Repr && mux in Repr && mux.Repr <= Repr && this !in mux.Repr
      && mux.Valid()
    }

    ghost predicate Valid()
      reads this, Repr
    {
      Owned() && InStep(panes.Keys, mux.view)
    }

    constructor ()
      ensures Valid() && fresh(Repr) && panes == map[]
    {
      panes := map[];
      mux := new MultiplexerState();
      new;
      Repr := {this, mux} + mux.Repr;
    }

    /** The map entry for a new pane. */
    method InsertPaneState(id: PaneId)
      requires Owned() && InStep(panes.Keys + {id}, mux.view)
      modifies this`panes
      ensures Valid() && panes.Keys == old(panes).Keys + {id} && fresh(panes[id])
      ensures forall p :: p in old(panes) && p != id ==> panes[p] == old(panes)[p]
    {
      hide MultiplexerState.Matches;
      hide Inv;
      hide InStep;
      var state := new PaneState();
      panes := panes[id := state];
      assert panes.Keys == old(panes).Keys + {id};
    }

    /** Reserve an identifier nobody holds. */
    method Reserve() returns (id: Option<PaneId>)
      requires Valid()
      modifies Repr
      ensures Valid() && Repr == old(Repr) && mux.Repr == old(mux.Repr) && panes == old(panes)
      ensures (mux.view, id) == AllocPane(old(mux.view))
      ensures id.Some? ==> id.value !in panes && !Tracked(mux.view, id.value)
    {
      hide MultiplexerState.Matches;
      hide Inv;
      hide InStep;
      hide Tracked;
      hide AllPanes;
      if mux.view.nextPane < U32_MAX {
        AllocatedIsNew(mux.view);
        InStepTells(panes.Keys, mux.view, mux.view.nextPane);
        InStepSame(panes.Keys, mux.view, AllocPane(mux.view).0);
      }
      id := mux.AllocatePaneId();
    }

    /** Put a reserved pane beside the active tab's focused one. */
    method PlaceBesideFocus(id: PaneId)
      requires Valid() && mux.view.workspaces != [] && !Tracked(mux.view, id)
      modifies mux.Repr
      ensures Owned() && Repr == old(Repr) && mux.Repr == old(mux.Repr) && panes == old(panes)
      ensures InStep(panes.Keys + {id}, mux.view)
      ensures ActiveTab(old(mux.view)).Some?
      ensures mux.view == Mux.SplitPane(old(mux.view), ActiveTab(old(mux.view)).value.focused, id, Horizontal).mux
    {
      hide MultiplexerState.Matches;
      hide Inv;
      hide InStep;
      hide Tracked;
      hide AllPanes;
      FocusIsTracked(mux.view);
      var tab := mux.ActiveTabRef();
      if tab.Some? {
        var target := tab.value.1;
        SplitPaneInv(mux.view, target, id, Horizontal);
        InStepAdds(panes.Keys, mux.view, Mux.SplitPane(mux.view, target, id, Horizontal).mux, id);
        var split := mux.SplitPane(target, id, Horizontal);
        if split.Err? {
          assert false;
        }
      } else {
        assert false;
      }
    }

    /** Seed the empty multiplexer with a reserved pane. */
    method SeedWith(id: PaneId) returns (ok: bool)
      requires Valid() && mux.view.workspaces == []
      modifies mux, this`Repr
      ensures Owned() && fresh(Repr - old(Repr)) && panes == old(panes)
      ensures (mux.view, if ok then Done(true) else Aborted) == Mux.Seed(old(mux.view), id)
      ensures InStep(if ok then panes.Keys + {id} else panes.Keys, mux.view)
    {
      hide MultiplexerState.Matches;
      hide Inv;
      hide InStep;
      hide AllPanes;
      SeedInv(mux.view, id);
      SeedInStep(panes.Keys, mux.view, id);
      var seeded := mux.Seed(id);
      Repr := Repr + mux.Repr;
      if seeded == Done(false) {
        assert false;
      }
      return seeded.Done?;
    }

    /** Create a pane: the first seeds the multiplexer, later ones split the
        active tab's focused pane. Aborts only on identifier exhaustion. */
    method Create() returns (r: Outcome<PaneId>)
      requires Valid()
      modifies Repr
      ensures Valid() && fresh(Repr - old(Repr))
      ensures r.Done? ==> r.value == old(mux.view).nextPane && r.value !in old(panes)
                          && panes.Keys == old(panes).Keys + {r.value}
      ensures r.Aborted? ==> panes == old(panes)
      ensures r.Done? && old(mux.view).workspaces != [] ==>
        && ActiveTab(old(mux.view)).Some?
        && var target := ActiveTab(old(mux.view)).value.focused;
        && mux.view == Mux.SplitPane(AllocPane(old(mux.view)).0, target, r.value, Horizontal).mux
      ensures r.Done? && old(mux.view).workspaces == [] ==>
        mux.view == Mux.Seed(AllocPane(old(mux.view)).0, r.value).0
      ensures forall p :: p in old(panes) ==> p in panes && panes[p] == old(panes)[p]
      ensures r.Done? ==> fresh(panes[r.value])
      ensures r.Aborted? <==>
        || old(mux.view).nextPane == U32_MAX
        || (old(mux.view).workspaces == [] && (old(mux.view).nextTab == U32_MAX || old(mux.view).nextWs == U32_MAX))
    {
      hide MultiplexerState.Matches;
      hide Inv;
      hide InStep;
      var reserved := Reserve();
      if reserved.None? {
        return Aborted;
      }
      var id := reserved.value;
      var hasPanes := mux.HasPanes();
      if hasPanes {
        PlaceBesideFocus(id);
      } else {
        var ok := SeedWith(id);
        if !ok {
          return Aborted;
        }
      }
      InsertPaneState(id);
      return Done(id);
    }

    /** Split the target's tab with a reserved pane and focus it. */
    method SplitAndFocus(target: PaneId, id: PaneId, d: SplitDirection) returns (r: LayoutResult<Unit>)
      requires Valid() && !Tracked(mux.view, id)
      modifies mux.Repr
      ensures Owned() && Repr == old(Repr) && panes == old(panes)
      ensures r == if target in panes then Ok(Unit) else Err(PaneNotFound(target))
      ensures r.Err? ==> mux.view == old(mux.view)
      ensures r.Ok? ==>
        && InStep(panes.Keys + {id}, mux.view)
        && mux.view == Mux.FocusPane(Mux.SplitPane(old(mux.view), target, id, d).mux, id).0
        && ActiveTab(mux.view).Some? && ActiveTab(mux.view).value.focused == id
    {
      hide MultiplexerState.Matches;
      hide Inv;
      hide InStep;
      hide Tracked;
      hide AllPanes;
      TrackedIsHeld(mux.view, target);
      InStepTells(panes.Keys, mux.view, target);
      SplitPaneInv(mux.view, target, id, d);
      SplitRefusal(mux.view, target, id, d);
      r := mux.SplitPane(target, id, d);
      if r.Err? {
        return;
      }
      InStepAdds(panes.Keys, old(mux.view), mux.view, id);
      FocusPaneInv(mux.view, id);
      InStepSame(panes.Keys + {id}, mux.view, Mux.FocusPane(mux.view, id).0);
      var focused := mux.FocusPane(id);
      if !focused {
        assert false;
      }
    }

    /** Create a pane beside `target` and focus it. Nothing but the identifier
        counter changes on error. */
    method SplitCreate(target: PaneId, d: SplitDirection) returns (r: Outcome<LayoutResult<PaneId>>)
      requires Valid()
      modifies Repr
      ensures Valid() && Repr == old(Repr)
      ensures r.Done? ==> (r.value.Ok? <==> target in old(panes))
      ensures r.Done? && r.value.Err? ==> panes == old(panes) && r.value == Err(PaneNotFound(target))
                                          && mux.view == AllocPane(old(mux.view)).0
      ensures r.Done? && r.value.Ok? ==>
        && r.value.value == old(mux.view).nextPane && r.value.value !in old(panes)
        && panes.Keys == old(panes).Keys + {r.value.value}
        && mux.view == Mux.FocusPane(
             Mux.SplitPane(AllocPane(old(mux.view)).0, target, r.value.value, d).mux, r.value.value).0
        && ActiveTab(mux.view).Some? && ActiveTab(mux.view).value.focused == r.value.value
      ensures forall p :: p in old(panes) ==> p in panes && panes[p] == old(panes)[p]
      ensures r.Done? && r.value.Ok? ==> fresh(panes[r.value.value])
      ensures r.Aborted? <==> old(mux.view).nextPane == U32_MAX
      ensures r.Aborted? ==> panes == old(panes) && mux.view == old(mux.view)
    {
      hide MultiplexerState.Matches;
      hide Inv;
      hide InStep;
      var reserved := Reserve();
      if reserved.None? {
        return Aborted;
      }
      var id := reserved.value;
      var split := SplitAndFocus(target, id, d);
      if split.Err? {
        return Done(Err(split.error));
      }
      InsertPaneState(id);
      return Done(Ok(id));
    }

    /** Create a pane in a fresh tab of the active workspace, or seed. */
    method NewTabCreate() returns (r: Outcome<(U32, PaneId)>)
      requires Valid()
      modifies Repr
      ensures Valid() && fresh(Repr - old(Repr))
      ensures r.Done? ==> r.value.1 == old(mux.view).nextPane && r.value.1 !in old(panes)
                          && panes.Keys == old(panes).Keys + {r.value.1}
      ensures r.Done? ==>
        var m := AllocPane(old(mux.view)).0;
        if m.workspaces == [] then (mux.view, Done(true)) == Mux.Seed(m, r.value.1)
        else (mux.view, Done(Some(r.value.0))) == Mux.NewTab(m, r.value.1)
      ensures r.Done? ==> ActiveTab(mux.view).Some? && ActiveTab(mux.view).value.id == r.value.0
                          && ActiveTab(mux.view).value.focused == r.value.1
      ensures r.Aborted? ==> panes == old(panes)
      ensures forall p :: p in old(panes) ==> p in panes && panes[p] == old(panes)[p]
      ensures r.Done? ==> fresh(panes[r.value.1])
      ensures r.Aborted? <==>
        || old(mux.view).nextPane == U32_MAX || old(mux.view).nextTab == U32_MAX
        || (old(mux.view).workspaces == [] && old(mux.view).nextWs == U32_MAX)
    {
      hide MultiplexerState.Matches;
      hide Inv;
      hide InStep;
      var reserved := Reserve();
      if reserved.None? {
        return Aborted;
      }
      var id := reserved.value;
      var tabId: Option<U32>;
      var hasPanes := mux.HasPanes();
      if hasPanes {
        tabId := TabAround(id);
      } else {
        tabId := SeedTab(id);
      }
      if tabId.None? {
        return Aborted;
      }
      InsertPaneState(id);
      return Done((tabId.value, id));
    }

    /** A new tab around a reserved pane; none only when the program aborts. */
    method TabAround(id: PaneId) returns (tabId: Option<U32>)
      requires Valid() && mux.view.workspaces != [] && !Tracked(mux.view, id)
      modifies mux.Repr, this`Repr
      ensures Owned() && fresh(Repr - old(Repr)) && panes == old(panes)
      ensures InStep(if tabId.Some? then panes.Keys + {id} else panes.Keys, mux.view)
      ensures tabId.Some? ==> InView(mux.view, id, tabId.value)
      ensures tabId.Some? ==> (mux.view, Done(tabId)) == Mux.NewTab(old(mux.view), id)
      ensures tabId.None? <==> old(mux.view).nextTab == U32_MAX
    {
      hide MultiplexerState.Matches;
      hide Inv;
      hide InStep;
      hide Tracked;
      hide AllPanes;
      NewTabInv(mux.view, id);
      NewTabInStep(panes.Keys, mux.view, id);
      var made := mux.NewTab(id);
      Repr := Repr + mux.Repr;
      if made.Aborted? {
        return None;
      }
      if made.value.None? {
        assert false;
      }
      return made.value;
    }

    method SeedTab(id: PaneId) returns (tabId: Option<U32>)
      requires Valid() && mux.view.workspaces == []
      modifies mux, this`Repr
      ensures Owned() && fresh(Repr - old(Repr)) && panes == old(panes)
      ensures InStep(if tabId.Some? then panes.Keys + {id} else panes.Keys, mux.view)
      ensures tabId.Some? ==> InView(mux.view, id, tabId.value)
      ensures tabId.Some? ==> (mux.view, Done(true)) == Mux.Seed(old(mux.view), id)
      ensures tabId.None? <==> old(mux.view).nextTab == U32_MAX || old(mux.view).nextWs == U32_MAX
    {
      hide MultiplexerState.Matches;
      hide Inv;
      hide InStep;
      SeedInView(mux.view, id);
      var ok := SeedWith(id);
      if !ok {
        return None;
      }
      var tab := mux.ActiveTabRef();
      if tab.None? {
        assert false;
      }
      return Some(tab.value.0);
    }

    /** Create a pane in a fresh workspace and make it active. */
    method NewWorkspaceCreate() returns (r: Outcome<(U32, U32, PaneId)>)
      requires Valid()
      modifies Repr
      ensures Valid() && fresh(Repr - old(Repr))
      ensures r.Done? ==> r.value.2 == old(mux.view).nextPane && r.value.2 !in old(panes)
                          && panes.Keys == old(panes).Keys + {r.value.2}
      ensures r.Done? ==> (mux.view, Done(Some(r.value.0))) == Mux.NewWorkspace(AllocPane(old(mux.view)).0, r.value.2)
      ensures r.Done? ==> ActiveTab(mux.view) == Some(NewTabV(r.value.1, r.value.2))
      ensures r.Done? ==> ActiveWorkspace(mux.view).Some? && ActiveWorkspace(mux.view).value.id == r.value.0
      ensures r.Aborted? ==> panes == old(panes)
      ensures forall p :: p in old(panes) ==> p in panes && panes[p] == old(panes)[p]
      ensures r.Done? ==> fresh(panes[r.value.2])
      ensures r.Aborted? <==> U32_MAX in {old(mux.view).nextPane, old(mux.view).nextTab, old(mux.view).nextWs}
    {
      hide Inv;
      hide MultiplexerState.Matches;
      hide Tracked;
      hide AllPanes;
      hide InStep;
      var reserved := Reserve();
      if reserved.None? {
        return Aborted;
      }
      var id := reserved.value;
      NewWorkspaceInv(mux.view, id);
      NewWorkspaceInStep(panes.Keys, mux.view, id);
      NewWorkspaceTab(mux.view, id);
      var made := mux.NewWorkspace(id);
      Repr := Repr + mux.Repr;
      if made.Aborted? {
        return Aborted;
      }
      if made.value.None? {
        assert false;
      }
      FocusIsTracked(mux.view);
      var tab := mux.ActiveTabRef();
      if tab.None? {
        assert false;
      }
      InsertPaneState(id);
      return Done((made.value.value, tab.value.0, id));
    }

    /** Focus a pane; the map and the multiplexer agree on whether it exists. */
    method Focus(id: PaneId) returns (focused: bool)
      requires Valid()
      modifies Repr
      ensures Valid() && Repr == old(Repr) && panes == old(panes)
      ensures focused <==> id in panes
      ensures mux.view == Mux.FocusPane(old(mux.view), id).0
    {
      hide Inv;
      hide MultiplexerState.Matches;
      hide AllPanes;
      hide InStep;
      FocusPaneInv(mux.view, id);
      InStepTells(panes.Keys, mux.view, id);
      InStepSame(panes.Keys, mux.view, Mux.FocusPane(mux.view, id).0);
      focused := mux.FocusPane(id);
      if focused != (id in panes) {
        assert false;
      }
    }

    /** Activate a workspace, keeping its own active tab and focused pane. */
    method SwitchWorkspace(id: U32) returns (found: bool)
      requires Valid()
      modifies Repr
      ensures Valid() && Repr == old(Repr) && panes == old(panes)
      ensures var wi := WorkspaceWithId(old(mux.view).workspaces, id);
        && (found <==> wi < |old(mux.view).workspaces|)
        && (!found ==> mux.view == old(mux.view))
        && (found ==> mux.view == old(mux.view).(active := wi))
    {
      hide Inv;
      hide MultiplexerState.Matches;
      hide AllPanes;
      hide InStep;
      ghost var wi := WorkspaceWithId(mux.view.workspaces, id);
      var pane := mux.FocusOfWorkspace(id);
      if pane.None? {
        return false;
      }
      FocusInTab(mux.view, wi, mux.view.workspaces[wi].active);
      FocusPaneInv(mux.view, pane.value);
      InStepSame(panes.Keys, mux.view, Mux.FocusPane(mux.view, pane.value).0);
      found := mux.FocusPane(pane.value);
      if !found {
        assert false;
      }
    }

    /** Activate a tab, keeping its own focused pane. */
    method SwitchTab(id: U32) returns (found: bool)
      requires Valid()
      modifies Repr
      ensures Valid() && Repr == old(Repr) && panes == old(panes)
      ensures found <==> WorkspaceWithTab(old(mux.view).workspaces, id) < |old(mux.view).workspaces|
      ensures !found ==> mux.view == old(mux.view)
      ensures found ==>
        var m := old(mux.view);
        var wi := WorkspaceWithTab(m.workspaces, id);
        var ti := TabWithId(m.workspaces[wi].tabs, id);
        && mux.view == m.(workspaces := m.workspaces[wi := m.workspaces[wi].(active := ti)], active := wi)
        && ActiveTab(mux.view) == Some(m.workspaces[wi].tabs[ti]) && m.workspaces[wi].tabs[ti].id == id
    {
      hide Inv;
      hide MultiplexerState.Matches;
      hide AllPanes;
      hide InStep;
      ghost var wi := WorkspaceWithTab(mux.view.workspaces, id);
      var pane := mux.FocusOfTab(id);
      if pane.None? {
        return false;
      }
      FocusInTab(mux.view, wi, TabWithId(mux.view.workspaces[wi].tabs, id));
      FocusPaneInv(mux.view, pane.value);
      InStepSame(panes.Keys, mux.view, Mux.FocusPane(mux.view, pane.value).0);
      found := mux.FocusPane(pane.value);
      if !found {
        assert false;
      }
    }

    method MoveTab(id: U32, index: nat) returns (found: bool)
      requires Valid()
      modifies Repr
      ensures Valid() && Repr == old(Repr) && panes == old(panes)
      ensures (mux.view, found) == Mux.MoveTab(old(mux.view), id, index)
    {
      hide Inv;
      hide MultiplexerState.Matches;
      hide AllPanes;
      hide InStep;
      MoveTabInv(mux.view, id, index);
      InStepSame(panes.Keys, mux.view, Mux.MoveTab(mux.view, id, index).0);
      found := mux.MoveTab(id, index);
    }

    method ResizeLayout(pane: PaneId, neighbor: PaneId, delta: real, minWeight: real) returns (r: LayoutResult<Unit>)
      requires Valid()
      modifies Repr
      ensures Valid() && Repr == old(Repr) && panes == old(panes)
      ensures MuxStep(mux.view, r) == Mux.ResizePane(old(mux.view), pane, neighbor, delta, minWeight)
    {
      hide Inv;
      hide MultiplexerState.Matches;
      hide AllPanes;
      hide InStep;
      ResizePaneInv(mux.view, pane, neighbor, delta, minWeight);
      InStepSame(panes.Keys, mux.view, Mux.ResizePane(mux.view, pane, neighbor, delta, minWeight).mux);
      r := mux.ResizePane(pane, neighbor, delta, minWeight);
    }

    method SwapLayout(a: PaneId, b: PaneId) returns (r: LayoutResult<Unit>)
      requires Valid()
      modifies Repr
      ensures Valid() && Repr == old(Repr) && panes == old(panes)
      ensures MuxStep(mux.view, r) == Mux.SwapPanes(old(mux.view), a, b)
    {
      hide Inv;
      hide MultiplexerState.Matches;
      hide AllPanes;
      hide InStep;
      SwapPanesInv(mux.view, a, b);
      InStepSame(panes.Keys, mux.view, Mux.SwapPanes(mux.view, a, b).mux);
      r := mux.SwapPanes(a, b);
    }

    /** Remove a pane from the map and close it out of its tab. */
    method Remove(id: PaneId) returns (removed: Option<PaneState>)
      requires Valid()
      modifies Repr
      ensures Valid() && Repr == old(Repr)
      ensures panes == old(panes) - {id}
      ensures removed == if id in old(panes) then Some(old(panes)[id]) else None
      ensures mux.view == Mux.ClosePane(old(mux.view), id).mux
    {
      hide Inv;
      hide MultiplexerState.Matches;
      hide AllPanes;
      hide InStep;
      ClosePaneInv(mux.view, id);
      InStepTells(panes.Keys, mux.view, id);
      if id !in panes {
        return None;
      }
      InStepRemoves(panes.Keys, mux.view, Mux.ClosePane(mux.view, id).mux, id);
      removed := Some(panes[id]);
      panes := panes - {id};
      assert panes.Keys == old(panes).Keys - {id};
      var closed := mux.ClosePane(id);
      match closed
      case Ok(_) =>
      case Err(_) =>
        assert false;
    }

    /** Close a workspace and remove every pane it held; none is ever missing
        from the map. */
    method CloseWorkspace(id: U32) returns (r: Option<(seq<(PaneId, PaneState)>, nat)>)
      requires Valid()
      modifies Repr
      ensures Valid() && Repr == old(Repr)
      ensures mux.view == Mux.CloseWorkspace(old(mux.view), id).0
      ensures r.None? <==> Mux.CloseWorkspace(old(mux.view), id).1.None?
      ensures r.None? ==> panes == old(panes)
      ensures r.Some? ==>
        var ids := Mux.CloseWorkspace(old(mux.view), id).1.value;
        && r.value.1 == 0 && |r.value.0| == |ids|
        && (forall i :: 0 <= i < |ids| ==> ids[i] in old(panes) && r.value.0[i] == (ids[i], old(panes)[ids[i]]))
        && panes == old(panes) - (set p | p in ids)
    {
      hide Inv;
      hide MultiplexerState.Matches;
      hide AllPanes;
      hide InStep;
      ghost var was := mux.view;
      CloseWorkspaceInv(was, id);
      ClosedPanesApart(panes.Keys, was, id);
      var closed := mux.CloseWorkspace(id);
      if closed.None? {
        return None;
      }
      var ids := closed.value;
      var removed: seq<(PaneId, PaneState)> := [];
      var missing := 0;
      for i := 0 to |ids|
        modifies this`panes
        invariant missing == 0 && |removed| == i
        invariant forall k :: 0 <= k < i ==> removed[k] == (ids[k], old(panes)[ids[k]])
        invariant panes == old(panes) - (set p | p in ids[..i])
      {
        assert ids[..i + 1] == ids[..i] + [ids[i]];
        if ids[i] in panes {
          removed := removed + [(ids[i], panes[ids[i]])];
          panes := panes - {ids[i]};
        } else {
          assert false;
          missing := missing + 1;
        }
      }
      assert ids[..|ids|] == ids;
      assert panes.Keys == old(panes).Keys - (set p | p in ids);
      return Some((removed, missing));
    }
  }

  /** Creating panes keeps the map in step once the pane is inserted, and an
      abort leaves it in step as it is. */
  lemma SeedInStep(keys: set<PaneId>, m: MuxV, id: PaneId)
    requires Inv(m) && InStep(keys, m)
    ensures Seed(m, id).1 == Done(true) ==> InStep(keys + {id}, Seed(m, id).0)
    ensures Seed(m, id).1 == Aborted ==> InStep(keys, Seed(m, id).0)
  {
    SeedInv(m, id);
    NotedPanes(m, id);
    if m.workspaces == [] {
      assert AllPanes(m) == multiset{};
    }
  }

  lemma NewTabInStep(keys: set<PaneId>, m: MuxV, id: PaneId)
    requires Inv(m) && InStep(keys, m)
    ensures var (r, o) := Mux.NewTab(m, id);
      && (o.Done? && o.value.Some? ==> InStep(keys + {id}, r))
      && (o.Aborted? ==> InStep(keys, r))
  {
    NewTabInv(m, id);
    NewTabAborts(m, id);
  }

  lemma NewWorkspaceInStep(keys: set<PaneId>, m: MuxV, id: PaneId)
    requires Inv(m) && InStep(keys, m)
    ensures var (r, o) := Mux.NewWorkspace(m, id);
      && (o.Done? && o.value.Some? ==> InStep(keys + {id}, r) && r.workspaces != [])
      && (o.Aborted? ==> InStep(keys, r))
  {
    NewWorkspaceInv(m, id);
    NewWorkspaceAborts(m, id);
  }

  lemma NewWorkspaceTab(m: MuxV, pane: PaneId)
    ensures var (r, o) := Mux.NewWorkspace(m, pane);
      o.Done? && o.value.Some? ==>
        ActiveTab(r).Some? && ActiveTab(r) == Some(NewTabV(ActiveTab(r).value.id, pane))
  {
  }

  lemma NewTabAborts(m: MuxV, id: PaneId)
    requires Inv(m)
    ensures Mux.NewTab(m, id).1.Aborted? ==> AllPanes(Mux.NewTab(m, id).0) == AllPanes(m)
  {
  }

  lemma NewWorkspaceAborts(m: MuxV, id: PaneId)
    requires Inv(m)
    ensures Mux.NewWorkspace(m, id).1.Aborted? ==> AllPanes(Mux.NewWorkspace(m, id).0) == AllPanes(m)
    ensures Mux.NewWorkspace(m, id).1.Done? && Mux.NewWorkspace(m, id).1.value.Some? ==>
      Mux.NewWorkspace(m, id).0.workspaces != []
  {
    hide Inv, Bag;
  }

  lemma SeedInView(m: MuxV, id: PaneId)
    requires m.workspaces == []
    ensures Seed(m, id).1 == Done(true) ==>
      ActiveTab(Seed(m, id).0).Some? && ActiveTab(Seed(m, id).0).value.focused == id
  {
  }

  lemma SplitRefusal(m: MuxV, target: PaneId, added: PaneId, d: SplitDirection)
    requires Inv(m) && !Tracked(m, added)
    ensures Mux.SplitPane(m, target, added, d).result.Err? ==>
      Mux.SplitPane(m, target, added, d).result == Err(PaneNotFound(target))
  {
  }

  lemma InStepRemoves(keys: set<PaneId>, m: MuxV, r: MuxV, id: PaneId)
    requires Inv(m) && InStep(keys, m) && AllPanes(r) + multiset{id} == AllPanes(m)
    ensures InStep(keys - {id}, r)
  {
  }

  /** The panes a closed workspace returns are pairwise different, were all
      tracked, and are exactly those no longer tracked. */
  lemma ClosedPanesApart(keys: set<PaneId>, m: MuxV, id: U32)
    requires Inv(m) && InStep(keys, m)
    ensures var (r, panes) := Mux.CloseWorkspace(m, id);
      panes.Some? ==>
        && NoDup(panes.value)
        && (forall p :: p in panes.value ==> p in keys)
        && InStep(keys - (set p | p in panes.value), r)
  {
    assert NoRepeats(AllPanes(m));
    hide Inv, AllPanes, Mux.CloseWorkspace;
    CloseWorkspaceInv(m, id);
    var (r, panes) := Mux.CloseWorkspace(m, id);
    if panes.Some? {
      var ids := panes.value;
      forall p ensures multiset(ids)[p] <= 1 && (p in AllPanes(r) <==> p in AllPanes(m) && p !in ids) {
        assert AllPanes(m)[p] == AllPanes(r)[p] + multiset(ids)[p];
        assert AllPanes(m)[p] <= 1;
        assert p in ids <==> p in multiset(ids);
      }
      NoDupNoRepeats(ids);
    }
  }

  /** Focusing a tab's own focused pane only brings that tab to the front. */
  lemma FocusInTab(m: MuxV, wi: nat, ti: nat)
    requires Inv(m) && wi < |m.workspaces| && ti < |m.workspaces[wi].tabs|
    ensures var pane := m.workspaces[wi].tabs[ti].focused;
      && pane in AllPanes(m)
      && Mux.FocusPane(m, pane)
         == (m.(workspaces := m.workspaces[wi := m.workspaces[wi].(active := ti)], active := wi), true)
    ensures var pane := m.workspaces[wi].tabs[ti].focused;
      ti == m.workspaces[wi].active ==> Mux.FocusPane(m, pane).0 == m.(active := wi)
  {
    hide Bag;
    var w := m.workspaces[wi];
    var pane := w.tabs[ti].focused;
    assert WorkspaceOk(w) && TabOk(w.tabs[ti]);
    HeldByTab(m, wi, ti, pane);
    TrackedIsHeld(m, pane);
    var wj := WorkspaceOf(m.workspaces, pane);
    SamePlace(m, wi, ti, wj, TabOf(m.workspaces[wj].tabs, pane), pane);
    assert w.tabs[ti].(focused := pane) == w.tabs[ti];
    assert w.tabs[ti := w.tabs[ti]] == w.tabs;
    assert m.workspaces[wi := w] == m.workspaces;
  }
}
