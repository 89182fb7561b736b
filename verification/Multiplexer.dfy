/** The multiplexer as objects: tabs that own a layout tree, workspaces that own
    tabs, and the state that owns the workspaces. Every method is proved against
    the value-level operation of module Mux on the object's view. That no two
    tabs or trees are the same object is not assumed: it follows from the
    uniqueness of their identifiers.
 */
module Multiplexer {
  import opened Layout
  import opened Basics
  import opened LayoutOps
  import opened LayoutCode
  import opened Bags
  import opened Mux

  class Tab {
    const id: U32
    const layout: LayoutTree
    var focused: PaneId

    constructor (id: U32, pane: PaneId)
      ensures View() == NewTabV(id, pane) && fresh(layout)
    {
      this.id := id;
      layout := new LayoutTree(pane);
      focused := pane;
    }

    ghost function View(): TabV
      reads this, layout
    {
      TabV(id, layout.root, focused)
    }

    method Split(target: PaneId, added: PaneId, d: SplitDirection) returns (r: LayoutResult<Unit>)
      modifies layout
      ensures View() == old(View()).(layout := SplitOp(old(View()).layout, target, added, d).tree)
      ensures r == SplitOp(old(View()).layout, target, added, d).result
    {
      if Contains(layout.root, added) {
        return Err(PaneAlreadyPresent(added));
      }
      r := layout.Split(target, added, d);
    }

    method ClosePane(target: PaneId) returns (r: LayoutResult<CloseOutcome>)
      modifies this`focused, layout
      ensures r == CloseOp(old(View()).layout, target).result
      ensures View() == TabV(id, CloseOp(old(View()).layout, target).tree,
        if r.Ok? && r.value.Removed? && old(focused) == target then r.value.focusHint else old(focused))
    {
      r := layout.Close(target);
      if r.Ok? && r.value.Removed? && focused == target {
        focused := r.value.focusHint;
      }
    }

    method FocusPane(pane: PaneId) returns (known: bool)
      modifies this`focused
      ensures known <==> pane in PaneIds(layout.root)
      ensures View() == if known then old(View()).(focused := pane) else old(View())
    {
      known := Contains(layout.root, pane);
      if known {
        focused := pane;
      }
    }

    method Resize(pane: PaneId, neighbor: PaneId, delta: real, minWeight: real) returns (r: LayoutResult<Unit>)
      modifies layout
      ensures View() == old(View()).(layout := ResizeOp(old(View()).layout, pane, neighbor, delta, minWeight).tree)
      ensures r == ResizeOp(old(View()).layout, pane, neighbor, delta, minWeight).result
    {
      r := layout.Resize(pane, neighbor, delta, minWeight);
    }

    method Swap(a: PaneId, b: PaneId) returns (r: LayoutResult<Unit>)
      modifies layout
      ensures View() == old(View()).(layout := SwapOp(old(View()).layout, a, b).tree)
      ensures r == SwapOp(old(View()).layout, a, b).result
    {
      r := layout.Swap(a, b);
    }
  }

  /** The old position of what stands at `k` once position `removed` is gone. */
  function OldPosition(removed: nat, k: nat): nat {
    if k < removed then k else k + 1
  }

  /** Re-point an active index after a removal: at the element that was active, or, when that one went, at
      the one that followed it, or at the one before when it was last. */
  method ClampActiveAfterRemove(active: nat, removed: nat, newLen: nat) returns (a: nat)
    ensures active <= newLen && removed <= newLen && newLen > 0 ==>
      && a < newLen
      && OldPosition(removed, a) ==
         if active != removed then active else if removed < newLen then removed + 1 else removed - 1
    ensures active == 0 && newLen == 0 ==> a == 0
    ensures a == ClampActive(active, removed, newLen)
  {
    a := active;
    if active > removed || active >= newLen {
      a := if active == 0 then 0 else active - 1;
    }
  }

  class Workspace {
    const id: U32
    var tabs: seq<Tab>
    var active: nat

    constructor (id: U32, tab: Tab)
      ensures this.id == id && tabs == [tab] && active == 0
      ensures Shows(WorkspaceV(id, [tab.View()], 0))
    {
      this.id := id;
      tabs := [tab];
      active := 0;
    }

    /** This workspace looks like `v`. */
    ghost predicate Shows(v: WorkspaceV)
      reads this, tabs, set t | t in tabs :: t.layout
    {
      && id == v.id && active == v.active && |tabs| == |v.tabs|
      && forall a :: 0 <= a < |tabs| ==> tabs[a].View() == v.tabs[a]
    }

    /** Take the tab at `from` out and put it back at `to`. */
    method Reorder(from: nat, to: nat, ghost v: WorkspaceV)
      requires Shows(v) && from < |tabs| && to < |tabs|
      modifies this`tabs
      ensures Shows(v.(tabs := PutAt(Dropped(v.tabs, from), to, v.tabs[from])))
      ensures forall t :: t in tabs ==> t in old(tabs)
    {
      hide PutAt, Dropped, CameFrom, Tab.View;
      MovedIndex(tabs, from, to);
      MovedIndex(v.tabs, from, to);
      tabs := PutAt(Dropped(tabs, from), to, tabs[from]);
      ghost var moved := PutAt(Dropped(v.tabs, from), to, v.tabs[from]);
      forall a | 0 <= a < |tabs| ensures tabs[a].View() == moved[a] {
        var k := CameFrom(from, to, a);
        assert old(tabs[k].View()) == v.tabs[k];
      }
    }

    /** Remove a tab, keeping the active index on the same tab when it
        survives. Returns whether the workspace is left empty. */
    method CloseTab(tab: U32, ghost v: WorkspaceV) returns (empty: bool)
      requires Shows(v)
      modifies this`tabs, this`active
      ensures var i := TabWithId(v.tabs, tab);
        && (i == |v.tabs| ==> Shows(v) && !empty)
        && (i < |v.tabs| ==>
              && Shows(v.(tabs := Dropped(v.tabs, i), active := ClampActive(v.active, i, |v.tabs| - 1)))
              && (empty <==> |v.tabs| == 1))
      ensures forall t :: t in tabs ==> t in old(tabs)
    {
      hide TabWithId, ClampActive;
      var i := FindTab(tab, v);
      if i == |tabs| {
        return false;
      }
      tabs := tabs[..i] + tabs[i + 1..];
      active := ClampActiveAfterRemove(active, i, |tabs|);
      empty := |tabs| == 0;
    }

    /** Position of the tab with this identifier, or the number of tabs. */
    method FindTab(id: U32, ghost v: WorkspaceV) returns (i: nat)
      requires Shows(v)
      ensures i == TabWithId(v.tabs, id) <= |tabs|
    {
      hide TabWithId;
      i := 0;
      while i < |tabs| && tabs[i].id != id
        invariant 0 <= i <= |tabs|
        invariant forall k :: 0 <= k < i ==> v.tabs[k].id != id
      {
        assert tabs[i].View() == v.tabs[i];
        i := i + 1;
      }
      if i < |tabs| {
        assert tabs[i].View() == v.tabs[i];
      }
      TabWithIdIs(v.tabs, id, i);
    }

    /** Position of the tab holding this pane, or the number of tabs. */
    method FindPane(pane: PaneId, ghost v: WorkspaceV) returns (i: nat)
      requires Shows(v)
      ensures i == TabOf(v.tabs, pane) <= |tabs|
    {
      hide TabOf;
      i := 0;
      while i < |tabs|
        invariant 0 <= i <= |tabs|
        invariant forall k :: 0 <= k < i ==> pane !in PaneIds(v.tabs[k].layout)
      {
        assert tabs[i].View() == v.tabs[i];
        if Contains(tabs[i].layout.root, pane) {
          break;
        }
        i := i + 1;
      }
      TabOfIs(v.tabs, pane, i);
    }
  }

  lemma TabOfIs(tabs: seq<TabV>, pane: PaneId, i: nat)
    requires i <= |tabs| && (i < |tabs| ==> pane in PaneIds(tabs[i].layout))
    requires forall k :: 0 <= k < i ==> pane !in PaneIds(tabs[k].layout)
    ensures TabOf(tabs, pane) == i
  {
  }

  lemma TabWithIdIs(tabs: seq<TabV>, id: U32, i: nat)
    requires i <= |tabs| && (i < |tabs| ==> tabs[i].id == id)
    requires forall k :: 0 <= k < i ==> tabs[k].id != id
    ensures TabWithId(tabs, id) == i
  {
  }

  class MultiplexerState {
    var workspaces: seq<Workspace>
    var active: nat
    var nextPane: U32
    var nextTab: U32
    var nextWs: U32

    /** What the objects amount to, as a value. */
    ghost var view: MuxV
    /** Every object the state owns. */
    ghost var Repr: set<object>

    /** The objects are those of `Repr` and look like `view`. */
    ghost predicate Matches()
      reads this, Repr
    {
      && this in Repr
      && active == view.active && nextPane == view.nextPane && nextTab == view.nextTab && nextWs == view.nextWs
      && |workspaces| == |view.workspaces|
      && (forall i :: 0 <= i < |workspaces| ==> workspaces[i] in Repr)
      && (forall i, a :: 0 <= i < |workspaces| && 0 <= a < |workspaces[i].tabs| ==>
            workspaces[i].tabs[a] in Repr && workspaces[i].tabs[a].layout in Repr)
      && (forall i :: 0 <= i < |workspaces| ==> workspaces[i].Shows(view.workspaces[i]))
    }

    ghost predicate Valid()
      reads this, Repr
    {
      Matches() && Inv(view)
    }

    constructor ()
      ensures Valid() && fresh(Repr) && view == EMPTY
    {
      workspaces := [];
      active, nextPane, nextTab, nextWs := 0, 0, 0, 0;
      view := EMPTY;
      Repr := {this};
    }

    // ----- separation -----

    /** Different positions hold different tabs and trees. */
    lemma Apart(i: nat, a: nat, j: nat, b: nat)
      requires Valid()
      requires i < |workspaces| && a < |workspaces[i].tabs| && j < |workspaces| && b < |workspaces[j].tabs|
      requires i != j || a != b
      ensures workspaces[i].tabs[a] != workspaces[j].tabs[b]
      ensures workspaces[i].tabs[a].layout != workspaces[j].tabs[b].layout
    {
      hide Bag;
      assert workspaces[i].Shows(view.workspaces[i]) && workspaces[j].Shows(view.workspaces[j]);
      var s, t := view.workspaces[i].tabs[a], view.workspaces[j].tabs[b];
      assert s == workspaces[i].tabs[a].View() && t == workspaces[j].tabs[b].View();
      assert WorkspaceOk(view.workspaces[i]);
      assert TabOk(s);
      if s.layout == t.layout {
        SamePlace(view, i, a, j, b, s.focused);
      }
    }

    lemma WorkspacesApart(i: nat, j: nat)
      requires Valid() && i < |workspaces| && j < |workspaces| && i != j
      ensures workspaces[i] != workspaces[j]
    {
      hide Bag;
      assert workspaces[i].Shows(view.workspaces[i]) && workspaces[j].Shows(view.workspaces[j]);
      if view.workspaces[i].id == view.workspaces[j].id {
        NotTwice(WsIds, view.workspaces, i, j, view.workspaces[i].id);
      }
    }

    /** Everything but one tab is a different object. */
    lemma AllApart(i: nat, a: nat)
      requires Valid() && i < |workspaces| && a < |workspaces[i].tabs|
      ensures forall j, b :: 0 <= j < |workspaces| && 0 <= b < |workspaces[j].tabs| && (j != i || b != a) ==>
        workspaces[j].tabs[b] != workspaces[i].tabs[a] && workspaces[j].tabs[b].layout != workspaces[i].tabs[a].layout
      ensures forall j :: 0 <= j < |workspaces| && j != i ==> workspaces[j] != workspaces[i]
    {
      hide Inv;
      forall j, b | 0 <= j < |workspaces| && 0 <= b < |workspaces[j].tabs| && (j != i || b != a)
        ensures workspaces[j].tabs[b] != workspaces[i].tabs[a]
        ensures workspaces[j].tabs[b].layout != workspaces[i].tabs[a].layout
      {
        Apart(i, a, j, b);
      }
      forall j | 0 <= j < |workspaces| && j != i ensures workspaces[j] != workspaces[i] {
        WorkspacesApart(i, j);
      }
    }

    lemma OthersApart(i: nat)
      requires Valid() && i < |workspaces|
      ensures forall j :: 0 <= j < |workspaces| && j != i ==> workspaces[j] != workspaces[i]
    {
      hide Inv;
      forall j | 0 <= j < |workspaces| && j != i ensures workspaces[j] != workspaces[i] {
        WorkspacesApart(i, j);
      }
    }

    // ----- locating -----

    lemma InRange(wi: nat)
      requires Valid() && wi < |workspaces|
      ensures wi < |view.workspaces| && |workspaces[wi].tabs| == |view.workspaces[wi].tabs|
      ensures workspaces[wi].Shows(view.workspaces[wi])
      ensures WorkspaceOk(view.workspaces[wi])
    {
      assert workspaces[wi].Shows(view.workspaces[wi]);
    }

    /** Workspace and tab position of the tab holding `pane`. */
    method Locate(pane: PaneId) returns (found: bool, wi: nat, ti: nat)
      requires Valid()
      ensures found <==> Tracked(view, pane)
      ensures found ==> wi == WorkspaceOf(view.workspaces, pane) && ti == TabOf(view.workspaces[wi].tabs, pane)
      ensures found ==> wi < |workspaces| && ti < |workspaces[wi].tabs|
    {
      hide Inv, TabOf;
      wi := 0;
      while wi < |workspaces|
        invariant wi <= WorkspaceOf(view.workspaces, pane)
        invariant wi <= |workspaces|
      {
        var w := workspaces[wi];
        assert w.Shows(view.workspaces[wi]);
        ti := w.FindPane(pane, view.workspaces[wi]);
        if ti < |w.tabs| {
          return true, wi, ti;
        }
        wi := wi + 1;
      }
      return false, 0, 0;
    }

    lemma InRepr(wi: nat, ti: nat)
      requires Matches() && wi < |workspaces| && ti < |workspaces[wi].tabs|
      ensures this in Repr && workspaces[wi] in Repr
      ensures workspaces[wi].tabs[ti] in Repr && workspaces[wi].tabs[ti].layout in Repr
    {
    }

    lemma SelfInRepr()
      requires Matches()
      ensures this in Repr
    {
    }

    method HasPanes() returns (b: bool)
      requires Valid()
      ensures b <==> view.workspaces != []
    {
      b := |workspaces| != 0;
    }

    /** The tab in view. */
    method ActiveTabRef() returns (tab: Option<(U32, PaneId)>)
      requires Valid()
      ensures tab == match ActiveTab(view) case Some(t) => Some((t.id, t.focused)) case None => None
    {
      hide Inv;
      if active >= |workspaces| {
        return None;
      }
      InRange(active);
      var w := workspaces[active];
      assert w.tabs[w.active].View() == view.workspaces[active].tabs[w.active];
      return Some((w.tabs[w.active].id, w.tabs[w.active].focused));
    }

    /** The focused pane of the active tab of the workspace with this id. */
    method FocusOfWorkspace(id: U32) returns (pane: Option<PaneId>)
      requires Valid()
      ensures var wi := WorkspaceWithId(view.workspaces, id);
        if wi == |view.workspaces| then pane == None
        else view.workspaces[wi].active < |view.workspaces[wi].tabs|
             && pane == Some(view.workspaces[wi].tabs[view.workspaces[wi].active].focused)
    {
      hide Inv;
      var wi := 0;
      while wi < |workspaces| && workspaces[wi].id != id
        invariant wi <= |workspaces|
        invariant forall k :: 0 <= k < wi ==> view.workspaces[k].id != id
      {
        InRange(wi);
        wi := wi + 1;
      }
      if wi < |workspaces| {
        InRange(wi);
      }
      WorkspaceWithIdIs(view.workspaces, id, wi);
      if wi == |workspaces| {
        return None;
      }
      var w := workspaces[wi];
      assert w.tabs[w.active].View() == view.workspaces[wi].tabs[w.active];
      return Some(w.tabs[w.active].focused);
    }

    /** The focused pane of the tab with this id. */
    method FocusOfTab(id: U32) returns (pane: Option<PaneId>)
      requires Valid()
      ensures var wi := WorkspaceWithTab(view.workspaces, id);
        if wi == |view.workspaces| then pane == None
        else pane == Some(view.workspaces[wi].tabs[TabWithId(view.workspaces[wi].tabs, id)].focused)
    {
      hide Inv;
      var found, wi, ti := LocateTab(id);
      if !found {
        return None;
      }
      InRange(wi);
      var tab := workspaces[wi].tabs[ti];
      assert tab.View() == view.workspaces[wi].tabs[ti];
      return Some(tab.focused);
    }

    // ----- identifiers -----

    method AllocatePaneId() returns (id: Option<PaneId>)
      requires Valid()
      modifies this`nextPane, this`view
      ensures Valid() && (view, id) == AllocPane(old(view))
    {
      hide Inv;
      CounterInv(view, if nextPane == U32_MAX then nextPane else nextPane + 1);
      if nextPane == U32_MAX {
        return None;
      }
      id := Some(nextPane);
      nextPane := nextPane + 1;
      view := view.(nextPane := nextPane);
    }

    method NoteExternalPaneId(pane: PaneId)
      requires Matches()
      modifies this`nextPane, this`view
      ensures Matches() && view == Noted(old(view), pane)
    {
      var after := if pane == U32_MAX then U32_MAX else pane + 1;
      if nextPane < after {
        nextPane := after;
      }
      view := view.(nextPane := nextPane);
    }

    // ----- operations on one tab -----

    method SplitAt(wi: nat, ti: nat, target: PaneId, added: PaneId, d: SplitDirection) returns (r: LayoutResult<Unit>)
      requires Valid() && wi < |workspaces| && ti < |workspaces[wi].tabs|
      modifies workspaces[wi].tabs[ti].layout, this`view
      ensures Matches() && wi < |old(view).workspaces| && ti < |old(view).workspaces[wi].tabs|
      ensures var t := old(view).workspaces[wi].tabs[ti];
        && view == WithTab(old(view), wi, ti, t.(layout := SplitOp(t.layout, target, added, d).tree))
        && r == SplitOp(t.layout, target, added, d).result
    {
      hide SplitOp;
      hide Inv;
      AllApart(wi, ti);
      InRange(wi);
      var tab := workspaces[wi].tabs[ti];
      r := tab.Split(target, added, d);
      view := WithTab(view, wi, ti, tab.View());
    }

    method SplitPane(target: PaneId, added: PaneId, d: SplitDirection) returns (r: LayoutResult<Unit>)
      requires Valid()
      modifies Repr
      ensures Valid() && Repr == old(Repr)
      ensures MuxStep(view, r) == Mux.SplitPane(old(view), target, added, d)
    {
      hide SplitOp;
      hide Inv;
      hide Noted;
      hide WithTab;
      hide Matches;
      hide Tracked;
      hide WorkspaceOf;
      hide TabOf;
      SelfInRepr();
      assert Inv(Mux.SplitPane(view, target, added, d).mux) by {
        SplitPaneInv(view, target, added, d);
      }
      var tracked, _, _ := Locate(added);
      if tracked {
        return Err(PaneAlreadyPresent(added));
      }
      var found, wi, ti := Locate(target);
      if !found {
        return Err(PaneNotFound(target));
      }
      SplitFound(view, target, added, d, wi, ti);
      InRepr(wi, ti);
      r := SplitAt(wi, ti, target, added, d);
      if r.Ok? {
        NoteExternalPaneId(added);
      }
    }

    method ResizeAt(wi: nat, ti: nat, pane: PaneId, neighbor: PaneId, delta: real, minWeight: real)
      returns (r: LayoutResult<Unit>)
      requires Valid() && wi < |workspaces| && ti < |workspaces[wi].tabs|
      modifies workspaces[wi].tabs[ti].layout, this`view
      ensures Matches() && wi < |old(view).workspaces| && ti < |old(view).workspaces[wi].tabs|
      ensures var t := old(view).workspaces[wi].tabs[ti];
        && view == WithTab(old(view), wi, ti, t.(layout := ResizeOp(t.layout, pane, neighbor, delta, minWeight).tree))
        && r == ResizeOp(t.layout, pane, neighbor, delta, minWeight).result
    {
      hide ResizeOp;
      hide Inv;
      AllApart(wi, ti);
      InRange(wi);
      var tab := workspaces[wi].tabs[ti];
      r := tab.Resize(pane, neighbor, delta, minWeight);
      view := WithTab(view, wi, ti, tab.View());
    }

    method ResizePane(pane: PaneId, neighbor: PaneId, delta: real, minWeight: real) returns (r: LayoutResult<Unit>)
      requires Valid()
      modifies Repr
      ensures Valid() && Repr == old(Repr)
      ensures MuxStep(view, r) == Mux.ResizePane(old(view), pane, neighbor, delta, minWeight)
    {
      hide ResizeOp;
      hide Inv;
      hide WithTab;
      hide Matches;
      hide WorkspaceOf;
      hide TabOf;
      SelfInRepr();
      assert Inv(Mux.ResizePane(view, pane, neighbor, delta, minWeight).mux) by {
        ResizePaneInv(view, pane, neighbor, delta, minWeight);
      }
      var found, wi, ti := Locate(pane);
      if !found {
        return Err(PaneNotFound(pane));
      }
      InRepr(wi, ti);
      r := ResizeAt(wi, ti, pane, neighbor, delta, minWeight);
    }

    method SwapAt(wi: nat, ti: nat, a: PaneId, b: PaneId) returns (r: LayoutResult<Unit>)
      requires Valid() && wi < |workspaces| && ti < |workspaces[wi].tabs|
      modifies workspaces[wi].tabs[ti].layout, this`view
      ensures Matches() && wi < |old(view).workspaces| && ti < |old(view).workspaces[wi].tabs|
      ensures var t := old(view).workspaces[wi].tabs[ti];
        && view == WithTab(old(view), wi, ti, t.(layout := SwapOp(t.layout, a, b).tree))
        && r == SwapOp(t.layout, a, b).result
    {
      hide SwapOp;
      hide Inv;
      AllApart(wi, ti);
      InRange(wi);
      var tab := workspaces[wi].tabs[ti];
      r := tab.Swap(a, b);
      view := WithTab(view, wi, ti, tab.View());
    }

    method SwapPanes(a: PaneId, b: PaneId) returns (r: LayoutResult<Unit>)
      requires Valid()
      modifies Repr
      ensures Valid() && Repr == old(Repr)
      ensures MuxStep(view, r) == Mux.SwapPanes(old(view), a, b)
    {
      hide SwapOp;
      hide Inv;
      hide WithTab;
      hide Matches;
      hide WorkspaceOf;
      hide TabOf;
      SelfInRepr();
      assert Inv(Mux.SwapPanes(view, a, b).mux) by {
        SwapPanesInv(view, a, b);
      }
      var found, wi, ti := Locate(a);
      if !found {
        return Err(PaneNotFound(a));
      }
      InRepr(wi, ti);
      r := SwapAt(wi, ti, a, b);
    }

    // ----- creating -----

    method AppendTab(wi: nat, pane: PaneId)
      requires Valid() && wi < |workspaces| && nextTab < U32_MAX
      modifies this, workspaces[wi]
      ensures Matches() && wi < |old(view).workspaces| && fresh(Repr - old(Repr)) && old(Repr) <= Repr
      ensures old(view).nextTab < U32_MAX && view == WithNewTab(old(view), wi, pane)
    {
      hide Inv;
      OthersApart(wi);
      InRange(wi);
      var tab := new Tab(nextTab, pane);
      nextTab := nextTab + 1;
      var w := workspaces[wi];
      w.tabs := w.tabs + [tab];
      w.active := |w.tabs| - 1;
      Repr := Repr + {tab, tab.layout};
      view := WithNewTab(view, wi, pane);
    }

    method AllocateTabId() returns (id: Option<U32>)
      requires Matches()
      modifies this`nextTab, this`view
      ensures Matches()
      ensures old(view).nextTab == U32_MAX ==> id == None && view == old(view)
      ensures old(view).nextTab < U32_MAX ==>
        id == Some(old(view).nextTab) && view == old(view).(nextTab := old(view).nextTab + 1)
    {
      hide Workspace.Shows;
      if nextTab == U32_MAX {
        return None;
      }
      id := Some(nextTab);
      nextTab := nextTab + 1;
      view := view.(nextTab := nextTab);
      assert forall i :: 0 <= i < |workspaces| ==> old(workspaces[i].Shows(view.workspaces[i]));
    }

    method AllocateWorkspaceId() returns (id: Option<U32>)
      requires Matches()
      modifies this`nextWs, this`view
      ensures Matches()
      ensures old(view).nextWs == U32_MAX ==> id == None && view == old(view)
      ensures old(view).nextWs < U32_MAX ==>
        id == Some(old(view).nextWs) && view == old(view).(nextWs := old(view).nextWs + 1)
    {
      hide Workspace.Shows;
      if nextWs == U32_MAX {
        return None;
      }
      id := Some(nextWs);
      nextWs := nextWs + 1;
      view := view.(nextWs := nextWs);
      assert forall i :: 0 <= i < |workspaces| ==> old(workspaces[i].Shows(view.workspaces[i]));
    }

    /** A workspace around a new tab; aborts when either identifier space is
        exhausted. */
    method AppendWorkspace(pane: PaneId) returns (ok: bool)
      requires Matches()
      modifies this
      ensures Matches() && fresh(Repr - old(Repr)) && old(Repr) <= Repr
      ensures (view, if ok then Done(Unit) else Aborted) == CreateWorkspace(old(view), pane, Unit)
    {
      hide Workspace.Shows;
      hide Matches;
      var tabId := AllocateTabId();
      if tabId == None {
        return false;
      }
      var wsId := AllocateWorkspaceId();
      if wsId == None {
        return false;
      }
      var tab := new Tab(tabId.value, pane);
      var w := new Workspace(wsId.value, tab);
      AddWorkspace(w, tab, WorkspaceV(wsId.value, [NewTabV(tabId.value, pane)], 0));
      return true;
    }

    /** Appends a workspace around one tab and makes it the active one. */
    method AddWorkspace(w: Workspace, ghost tab: Tab, ghost v: WorkspaceV)
      requires Matches() && w.Shows(v) && w.tabs == [tab]
      modifies this`workspaces, this`active, this`Repr, this`view
      ensures Matches()
      ensures Repr == old(Repr) + {w, tab, tab.layout}
      ensures view == old(view).(workspaces := old(view).workspaces + [v], active := |old(view).workspaces|)
    {
      hide Workspace.Shows;
      workspaces := workspaces + [w];
      active := |workspaces| - 1;
      Repr := Repr + {w, tab, tab.layout};
      view := view.(workspaces := view.workspaces + [v], active := |view.workspaces|);
      forall i | 0 <= i < |workspaces| ensures workspaces[i].Shows(view.workspaces[i]) {
        if i < |workspaces| - 1 {
          assert old(workspaces[i].Shows(view.workspaces[i]));
        }
      }
    }

    method Seed(pane: PaneId) returns (r: Outcome<bool>)
      requires Valid()
      modifies this
      ensures Valid() && fresh(Repr - old(Repr)) && old(Repr) <= Repr
      ensures (view, r) == Mux.Seed(old(view), pane)
    {
      hide Inv;
      hide Noted;
      hide WithNewWorkspace;
      SeedInv(view, pane);
      if |workspaces| != 0 {
        return Done(false);
      }
      NotedPanes(view, pane);
      NoteExternalPaneId(pane);
      ghost var noted := view;
      var ok := AppendWorkspace(pane);
      SameCreation(noted, pane, true);
      return if ok then Done(true) else Aborted;
    }

    method NewTab(pane: PaneId) returns (r: Outcome<Option<U32>>)
      requires Valid()
      modifies Repr
      ensures Valid() && fresh(Repr - old(Repr)) && old(Repr) <= Repr
      ensures (view, r) == Mux.NewTab(old(view), pane)
    {
      hide Inv;
      hide Noted;
      hide WithNewTab;
      SelfInRepr();
      NewTabInv(view, pane);
      if active >= |workspaces| {
        return Done(None);
      }
      var tracked, _, _ := Locate(pane);
      if tracked {
        return Done(None);
      }
      NotedPanes(view, pane);
      NotedInv(view, pane);
      NoteExternalPaneId(pane);
      if nextTab == U32_MAX {
        return Aborted;
      }
      var tab := nextTab;
      AppendTab(active, pane);
      return Done(Some(tab));
    }

    method NewWorkspace(pane: PaneId) returns (r: Outcome<Option<U32>>)
      requires Valid()
      modifies this
      ensures Valid() && fresh(Repr - old(Repr)) && old(Repr) <= Repr
      ensures (view, r) == Mux.NewWorkspace(old(view), pane)
    {
      hide Inv;
      hide Noted;
      hide WithNewWorkspace;
      NewWorkspaceInv(view, pane);
      var tracked, _, _ := Locate(pane);
      if tracked {
        return Done(None);
      }
      NotedPanes(view, pane);
      NoteExternalPaneId(pane);
      ghost var noted := view;
      var id := nextWs;
      var ok := AppendWorkspace(pane);
      SameCreation(noted, pane, Some(id));
      return if ok then Done(Some(id)) else Aborted;
    }

    // ----- focus -----

    method FocusAt(wi: nat, ti: nat, pane: PaneId) returns (known: bool)
      requires Valid() && wi < |workspaces| && ti < |workspaces[wi].tabs|
      modifies workspaces[wi].tabs[ti], this`view
      ensures Matches() && wi < |old(view).workspaces| && ti < |old(view).workspaces[wi].tabs|
      ensures wi < |workspaces| && ti < |workspaces[wi].tabs|
      ensures var t := old(view).workspaces[wi].tabs[ti];
        && (known <==> pane in PaneIds(t.layout))
        && view == WithTab(old(view), wi, ti, if known then t.(focused := pane) else t)
    {
      hide Inv;
      AllApart(wi, ti);
      InRange(wi);
      var tab := workspaces[wi].tabs[ti];
      known := tab.FocusPane(pane);
      view := WithTab(view, wi, ti, tab.View());
    }

    /** Make tab `ti` of workspace `wi` the one in view. */
    method Activate(wi: nat, ti: nat)
      requires Matches() && wi < |workspaces|
      requires forall j :: 0 <= j < |workspaces| && j != wi ==> workspaces[j] != workspaces[wi]
      modifies workspaces[wi], this`active, this`view
      ensures Matches() && wi < |old(view).workspaces|
      ensures var ws := old(view).workspaces;
        view == old(view).(workspaces := ws[wi := ws[wi].(active := ti)], active := wi)
    {
      assert workspaces[wi].Shows(view.workspaces[wi]);
      workspaces[wi].active := ti;
      active := wi;
      view := view.(workspaces := view.workspaces[wi := view.workspaces[wi].(active := ti)], active := wi);
    }

    method FocusPane(pane: PaneId) returns (focused: bool)
      requires Valid()
      modifies Repr
      ensures Valid() && Repr == old(Repr)
      ensures (view, focused) == Mux.FocusPane(old(view), pane)
    {
      hide Inv;
      hide Matches;
      hide WithTab;
      SelfInRepr();
      assert Inv(Mux.FocusPane(view, pane).0) by {
        FocusPaneInv(view, pane);
      }
      var found, wi, ti := Locate(pane);
      if !found {
        return false;
      }
      OthersApart(wi);
      InRepr(wi, ti);
      FocusFound(view, pane, wi, ti);
      var known := FocusAt(wi, ti, pane);
      if !known {
        assert false;
      }
      Activate(wi, ti);
      return true;
    }

    // ----- closing -----

    method CloseAt(wi: nat, ti: nat, pane: PaneId) returns (r: LayoutResult<CloseOutcome>)
      requires Valid() && wi < |workspaces| && ti < |workspaces[wi].tabs|
      modifies workspaces[wi].tabs[ti], workspaces[wi].tabs[ti].layout, this`view
      ensures Matches() && wi < |old(view).workspaces| && ti < |old(view).workspaces[wi].tabs|
      ensures var t := old(view).workspaces[wi].tabs[ti];
        && r == CloseOp(t.layout, pane).result
        && view == WithTab(old(view), wi, ti, TabV(t.id, CloseOp(t.layout, pane).tree,
             if r.Ok? && r.value.Removed? && t.focused == pane then r.value.focusHint else t.focused))
    {
      hide CloseOp;
      hide Inv;
      AllApart(wi, ti);
      InRange(wi);
      var tab := workspaces[wi].tabs[ti];
      r := tab.ClosePane(pane);
      view := WithTab(view, wi, ti, tab.View());
    }

    /** Remove the tab at `ti` by its identifier. */
    method CloseTabAt(wi: nat, ti: nat) returns (empty: bool)
      requires Valid() && wi < |workspaces| && ti < |workspaces[wi].tabs|
      modifies workspaces[wi], this`view
      ensures Matches() && wi < |old(view).workspaces| && ti < |old(view).workspaces[wi].tabs|
      ensures view == WithoutTab(old(view), wi, ti)
      ensures workspaces == old(workspaces) && wi < |workspaces|
      ensures empty <==> |old(view).workspaces[wi].tabs| == 1
    {
      hide Inv;
      OthersApart(wi);
      InRange(wi);
      var w := workspaces[wi];
      ghost var v := view.workspaces[wi];
      assert w.tabs[ti].View() == v.tabs[ti];
      TabFoundById(view, wi, ti);
      hide ClampActive, TabWithId;
      assert forall t :: t in w.tabs ==> t in Repr && t.layout in Repr;
      empty := w.CloseTab(w.tabs[ti].id, v);
      assert forall a :: 0 <= a < |w.tabs| ==> w.tabs[a] in w.tabs;
      view := WithoutTab(view, wi, ti);
    }

    /** Remove the workspace at `wi`, re-pointing the active index. */
    method CloseWorkspaceAt(wi: nat) returns (closed: U32)
      requires Matches() && wi < |workspaces|
      modifies this`workspaces, this`active, this`view
      ensures Matches() && wi < |old(view).workspaces|
      ensures view == WithoutWorkspace(old(view), wi) && closed == old(view).workspaces[wi].id
    {
      closed := workspaces[wi].id;
      assert workspaces[wi].Shows(view.workspaces[wi]);
      hide Workspace.Shows;
      workspaces := workspaces[..wi] + workspaces[wi + 1..];
      active := ClampActiveAfterRemove(active, wi, |workspaces|);
      view := WithoutWorkspace(view, wi);
      forall i | 0 <= i < |workspaces| ensures workspaces[i].Shows(view.workspaces[i]) {
        assert old(workspaces[OldPosition(wi, i)].Shows(view.workspaces[OldPosition(wi, i)]));
      }
    }

    method ClosePane(pane: PaneId) returns (r: LayoutResult<PaneCloseOutcome>)
      requires Valid()
      modifies Repr
      ensures Valid() && Repr == old(Repr)
      ensures MuxStep(view, r) == Mux.ClosePane(old(view), pane)
    {
      hide Inv;
      hide CloseOp;
      hide Matches;
      hide WithTab;
      hide WithoutTab;
      hide WithoutWorkspace;
      SelfInRepr();
      assert Inv(Mux.ClosePane(view, pane).mux) by {
        ClosePaneInv(view, pane);
      }
      var found, wi, ti := Locate(pane);
      if !found {
        return Err(PaneNotFound(pane));
      }
      ghost var was := view;
      CloseFound(was, pane, wi, ti);
      InRepr(wi, ti);
      var tabId := workspaces[wi].tabs[ti].id;
      TabIdAt(wi, ti);
      var closed := CloseAt(wi, ti, pane);
      match closed
      case Err(e) =>
        return Err(e);
      case Ok(Removed(hint)) =>
        return Ok(PaneRemoved(hint));
      case Ok(LastPane) =>
        var empty := CloseTabAt(wi, ti);
        if empty {
          var ws := CloseWorkspaceAt(wi);
          return Ok(TabClosed(tabId, Some(ws)));
        }
        return Ok(TabClosed(tabId, None));
    }

    lemma TabIdAt(wi: nat, ti: nat)
      requires Valid() && wi < |workspaces| && ti < |workspaces[wi].tabs|
      ensures wi < |view.workspaces| && ti < |view.workspaces[wi].tabs|
      ensures workspaces[wi].tabs[ti].id == view.workspaces[wi].tabs[ti].id
    {
      hide Inv;
      InRange(wi);
      assert workspaces[wi].tabs[ti].View() == view.workspaces[wi].tabs[ti];
    }

    method WorkspacePanes(wi: nat) returns (ids: seq<PaneId>)
      requires Valid() && wi < |workspaces|
      ensures wi < |view.workspaces| && ids == TabPaneList(view.workspaces[wi].tabs)
    {
      ids := [];
      var w := workspaces[wi];
      ghost var v := view.workspaces[wi];
      assert w.Shows(v);
      for ti := 0 to |w.tabs|
        invariant ids == TabPaneList(v.tabs[..ti])
      {
        assert w.tabs[ti].View() == v.tabs[ti];
        ids := CollectPaneIds(w.tabs[ti].layout.root, ids);
        TabPaneListSnoc(v.tabs, ti);
      }
      assert v.tabs[..|w.tabs|] == v.tabs;
    }

    /** Close an entire workspace and return every pane it held. */
    method CloseWorkspace(id: U32) returns (panes: Option<seq<PaneId>>)
      requires Valid()
      modifies this`workspaces, this`active, this`view
      ensures Valid()
      ensures (view, panes) == Mux.CloseWorkspace(old(view), id)
    {
      hide Inv;
      CloseWorkspaceInv(view, id);
      var wi := 0;
      while wi < |workspaces| && workspaces[wi].id != id
        invariant wi <= |workspaces|
        invariant forall k :: 0 <= k < wi ==> view.workspaces[k].id != id
      {
        assert workspaces[wi].Shows(view.workspaces[wi]);
        wi := wi + 1;
      }
      if wi < |workspaces| {
        assert workspaces[wi].Shows(view.workspaces[wi]);
      }
      WorkspaceWithIdIs(view.workspaces, id, wi);
      if wi == |workspaces| {
        return None;
      }
      var ids := WorkspacePanes(wi);
      var _ := CloseWorkspaceAt(wi);
      return Some(ids);
    }

    // ----- reordering -----

    method MoveTab(id: U32, index: nat) returns (found: bool)
      requires Valid()
      modifies Repr
      ensures Valid() && Repr == old(Repr)
      ensures (view, found) == Mux.MoveTab(old(view), id, index)
    {
      MoveMissing(view, id, index);
      hide Inv, Matches, Mux.MoveTab, TabWithId, WorkspaceWithTab;
      SelfInRepr();
      assert Inv(Mux.MoveTab(view, id, index).0) by {
        MoveTabInv(view, id, index);
      }
      var wi, from;
      found, wi, from := LocateTab(id);
      if !found {
        return false;
      }
      InRange(wi);
      InRepr(wi, from);
      MoveTabAt(wi, from, index);
    }

    /** Workspace and tab position of the tab with this identifier. */
    method LocateTab(id: U32) returns (found: bool, wi: nat, ti: nat)
      requires Valid()
      ensures found <==> WorkspaceWithTab(view.workspaces, id) < |view.workspaces|
      ensures found ==> wi == WorkspaceWithTab(view.workspaces, id) && ti == TabWithId(view.workspaces[wi].tabs, id)
      ensures found ==> wi < |workspaces| && ti < |workspaces[wi].tabs|
    {
      hide Inv, TabWithId;
      wi := 0;
      while wi < |workspaces|
        invariant wi <= WorkspaceWithTab(view.workspaces, id)
        invariant wi <= |workspaces|
      {
        var w := workspaces[wi];
        assert w.Shows(view.workspaces[wi]);
        ti := w.FindTab(id, view.workspaces[wi]);
        if ti < |w.tabs| {
          return true, wi, ti;
        }
        wi := wi + 1;
      }
      return false, 0, 0;
    }

    /** Take the tab at `from` out and put it back at `to`. */
    method Reorder(wi: nat, from: nat, to: nat)
      requires Matches() && wi < |workspaces| && from < |workspaces[wi].tabs| && to < |workspaces[wi].tabs|
      requires forall j :: 0 <= j < |workspaces| && j != wi ==> workspaces[j] != workspaces[wi]
      modifies workspaces[wi], this`view
      ensures Matches() && workspaces == old(workspaces)
      ensures wi < |old(view).workspaces|
      ensures from < |old(view).workspaces[wi].tabs| && to < |old(view).workspaces[wi].tabs|
      ensures var v := old(view).workspaces[wi];
        view == old(view).(workspaces := old(view).workspaces[wi :=
          v.(tabs := PutAt(Dropped(v.tabs, from), to, v.tabs[from]))])
    {
      hide PutAt;
      hide Dropped;
      var w := workspaces[wi];
      ghost var v := view.workspaces[wi];
      assert w.Shows(v);
      assert forall t :: t in w.tabs ==> t in Repr && t.layout in Repr;
      w.Reorder(from, to, v);
      assert forall a :: 0 <= a < |w.tabs| ==> w.tabs[a] in w.tabs;
      view := view.(workspaces := view.workspaces[wi := v.(tabs := PutAt(Dropped(v.tabs, from), to, v.tabs[from]))]);
    }

    method PositionOf(wi: nat, id: U32) returns (pos: nat)
      requires Matches() && wi < |workspaces|
      ensures wi < |view.workspaces| && pos == TabWithId(view.workspaces[wi].tabs, id)
      ensures pos <= |workspaces[wi].tabs| == |view.workspaces[wi].tabs|
    {
      var w := workspaces[wi];
      ghost var v := view.workspaces[wi];
      assert w.Shows(v);
      pos := w.FindTab(id, v);
    }

    /** Re-point the active tab of workspace `wi`. */
    method PointAt(wi: nat, ti: nat)
      requires Matches() && wi < |workspaces|
      requires forall j :: 0 <= j < |workspaces| && j != wi ==> workspaces[j] != workspaces[wi]
      modifies workspaces[wi], this`view
      ensures Matches() && wi < |old(view).workspaces|
      ensures view == old(view).(workspaces := old(view).workspaces[wi := old(view).workspaces[wi].(active := ti)])
    {
      assert workspaces[wi].Shows(view.workspaces[wi]);
      workspaces[wi].active := ti;
      view := view.(workspaces := view.workspaces[wi := view.workspaces[wi].(active := ti)]);
    }

    method MoveTabAt(wi: nat, from: nat, index: nat)
      requires Valid() && wi < |workspaces| && from < |workspaces[wi].tabs|
      requires wi < |view.workspaces| && from < |view.workspaces[wi].tabs|
      requires wi == WorkspaceWithTab(view.workspaces, view.workspaces[wi].tabs[from].id)
      requires from == TabWithId(view.workspaces[wi].tabs, view.workspaces[wi].tabs[from].id)
      modifies workspaces[wi], this`view
      ensures Matches()
      ensures (view, true) == Mux.MoveTab(old(view), old(view).workspaces[wi].tabs[from].id, index)
    {
      hide Inv;
      hide Matches;
      hide Mux.MoveTab, TabWithId, WorkspaceWithTab;
      hide PutAt;
      hide Dropped;
      OthersApart(wi);
      InRange(wi);
      ghost var m := view;
      ghost var v := view.workspaces[wi];
      TabIdAt(wi, workspaces[wi].active);
      var activeId := workspaces[wi].tabs[workspaces[wi].active].id;
      var to := MinNat(index, |workspaces[wi].tabs| - 1);
      MoveFound(m, wi, from, index);
      if to != from {
        Reorder(wi, from, to);
        var pos := PositionOf(wi, activeId);
        if pos == |workspaces[wi].tabs| {
          assert false;
        }
        PointAt(wi, pos);
      }
    }
  }

  /** Where each element of a reordered list comes from. */
  function CameFrom(from: nat, to: nat, a: nat): nat {
    if a == to then from
    else
      var b := if a < to then a else a - 1;
      if b < from then b else b + 1
  }

  lemma MovedIndex<T>(s: seq<T>, from: nat, to: nat)
    requires from < |s| && to < |s|
    ensures var r := PutAt(Dropped(s, from), to, s[from]);
      |r| == |s| && forall a :: 0 <= a < |s| ==> CameFrom(from, to, a) < |s| && r[a] == s[CameFrom(from, to, a)]
  {
  }

  /** A tab that no workspace lists is not moved. */
  lemma MoveMissing(m: MuxV, id: U32, index: nat)
    ensures WorkspaceWithTab(m.workspaces, id) == |m.workspaces| ==> Mux.MoveTab(m, id, index) == (m, false)
  {
  }

  /** A move once the tab's position is known. */
  lemma MoveFound(m: MuxV, wi: nat, from: nat, index: nat)
    requires Inv(m) && wi < |m.workspaces| && from < |m.workspaces[wi].tabs|
    requires wi == WorkspaceWithTab(m.workspaces, m.workspaces[wi].tabs[from].id)
    requires from == TabWithId(m.workspaces[wi].tabs, m.workspaces[wi].tabs[from].id)
    ensures
      var w := m.workspaces[wi];
      var to := MinNat(index, |w.tabs| - 1);
      && w.active < |w.tabs|
      && Mux.MoveTab(m, w.tabs[from].id, index).1
      && (to == from ==> Mux.MoveTab(m, w.tabs[from].id, index).0 == m)
      && (to != from ==>
            && var tabs := PutAt(Dropped(w.tabs, from), to, w.tabs[from]);
            var n := m.(workspaces := m.workspaces[wi := w.(tabs := tabs)]);
            var pos := TabWithId(tabs, w.tabs[w.active].id);
            && wi < |n.workspaces| && pos < |tabs|
            && Mux.MoveTab(m, w.tabs[from].id, index).0
               == n.(workspaces := n.workspaces[wi := n.workspaces[wi].(active := pos)]))
  {
    hide Bag;
    hide PutAt;
    hide Dropped;
    var w := m.workspaces[wi];
    assert WorkspaceOk(w);
    var to := MinNat(index, |w.tabs| - 1);
    if to != from {
      MovedBag(TabPanes, w.tabs, from, to);
      MovedBag(TabIds, w.tabs, from, to);
      MovedMultiset(w.tabs, from, to);
      MovedList(w.tabs, from, to);
      Mux.MoveTabAt(m, wi, PutAt(Dropped(w.tabs, from), to, w.tabs[from]));
      var n := m.(workspaces := m.workspaces[wi := w.(tabs := PutAt(Dropped(w.tabs, from), to, w.tabs[from]))]);
      assert n.workspaces[wi := n.workspaces[wi].(active := TabWithId(n.workspaces[wi].tabs, w.tabs[w.active].id))]
          == Mux.MoveTab(m, w.tabs[from].id, index).0.workspaces;
    }
  }

  lemma WorkspaceWithIdIs(ws: seq<WorkspaceV>, id: U32, i: nat)
    requires i <= |ws| && (i < |ws| ==> ws[i].id == id)
    requires forall k :: 0 <= k < i ==> ws[k].id != id
    ensures WorkspaceWithId(ws, id) == i
  {
  }

  lemma {:induction false} TabPaneListAppend(a: seq<TabV>, b: seq<TabV>)
    ensures TabPaneList(a + b) == TabPaneList(a) + TabPaneList(b)
  {
    if a == [] {
      assert a + b == b;
    } else {
      assert (a + b)[1..] == a[1..] + b;
      TabPaneListAppend(a[1..], b);
    }
  }

  lemma TabPaneListSnoc(tabs: seq<TabV>, i: nat)
    requires i < |tabs|
    ensures TabPaneList(tabs[..i + 1]) == TabPaneList(tabs[..i]) + PaneIds(tabs[i].layout)
  {
    assert tabs[..i + 1] == tabs[..i] + [tabs[i]];
    TabPaneListAppend(tabs[..i], [tabs[i]]);
    assert [tabs[i]][1..] == [];
  }

  lemma TabFoundById(m: MuxV, wi: nat, ti: nat)
    requires Inv(m) && wi < |m.workspaces| && ti < |m.workspaces[wi].tabs|
    ensures TabWithId(m.workspaces[wi].tabs, m.workspaces[wi].tabs[ti].id) == ti
  {
    var tabs := m.workspaces[wi].tabs;
    var i := TabWithId(tabs, tabs[ti].id);
    assert i <= ti;
    TabIdsDistinct(m, wi, i, ti);
  }

  /** Focusing once the pane's tab is known. */
  lemma FocusFound(m: MuxV, pane: PaneId, wi: nat, ti: nat)
    requires Tracked(m, pane)
    requires wi == WorkspaceOf(m.workspaces, pane) && ti == TabOf(m.workspaces[wi].tabs, pane)
    ensures var n := WithTab(m, wi, ti, m.workspaces[wi].tabs[ti].(focused := pane));
      && wi < |n.workspaces|
      && Mux.FocusPane(m, pane)
         == (n.(workspaces := n.workspaces[wi := n.workspaces[wi].(active := ti)], active := wi), true)
  {
    var n := WithTab(m, wi, ti, m.workspaces[wi].tabs[ti].(focused := pane));
    assert n.workspaces[wi := n.workspaces[wi].(active := ti)] == Mux.FocusPane(m, pane).0.workspaces;
  }

  /** Creating a workspace does the same whatever value is handed back. */
  lemma SameCreation<T>(m: MuxV, pane: PaneId, value: T)
    ensures var (a, x) := CreateWorkspace(m, pane, value);
      var (b, y) := CreateWorkspace(m, pane, Unit);
      a == b && x == if y.Done? then Done(value) else Aborted
  {
  }

  /** A close once the pane's tab is known. */
  lemma CloseFound(m: MuxV, pane: PaneId, wi: nat, ti: nat)
    requires Inv(m) && Tracked(m, pane)
    requires wi == WorkspaceOf(m.workspaces, pane) && ti == TabOf(m.workspaces[wi].tabs, pane)
    ensures var w := m.workspaces[wi];
      var t := w.tabs[ti];
      var s := CloseOp(t.layout, pane);
      var n := WithTab(m, wi, ti, TabV(t.id, s.tree,
        if s.result.Ok? && s.result.value.Removed? && t.focused == pane then s.result.value.focusHint else t.focused));
      && s.result.Ok?
      && (s.result.value.Removed? ==> Mux.ClosePane(m, pane) == MuxStep(n, Ok(PaneRemoved(s.result.value.focusHint))))
      && (s.result.value.LastPane? ==> n == m)
      && (s.result.value.LastPane? && |w.tabs| == 1 ==>
            && wi < |WithoutTab(m, wi, ti).workspaces|
            && Mux.ClosePane(m, pane)
               == MuxStep(WithoutWorkspace(WithoutTab(m, wi, ti), wi), Ok(TabClosed(t.id, Some(w.id))))
            && WithoutTab(m, wi, ti).workspaces[wi].id == w.id)
      && (s.result.value.LastPane? && |w.tabs| != 1 ==>
            Mux.ClosePane(m, pane) == MuxStep(WithoutTab(m, wi, ti), Ok(TabClosed(t.id, None))))
  {
    var w := m.workspaces[wi];
    var t := w.tabs[ti];
    CloseGood(t.layout, pane);
    WithTabSelf(m, wi, ti);
    assert TabV(t.id, t.layout, t.focused) == t;
    var n := WithoutTab(m, wi, ti);
    assert Dropped(n.workspaces, wi) == Dropped(m.workspaces, wi);
  }

  /** A split once the target's tab is known. */
  lemma SplitFound(m: MuxV, target: PaneId, added: PaneId, d: SplitDirection, wi: nat, ti: nat)
    requires Tracked(m, target) && !Tracked(m, added)
    requires wi == WorkspaceOf(m.workspaces, target) && ti == TabOf(m.workspaces[wi].tabs, target)
    ensures var t := m.workspaces[wi].tabs[ti];
      var s := SplitOp(t.layout, target, added, d);
      var n := WithTab(m, wi, ti, t.(layout := s.tree));
      Mux.SplitPane(m, target, added, d) == MuxStep(if s.result.Ok? then Noted(n, added) else n, s.result)
  {
    hide Noted;
    hide WithTab;
    var t := m.workspaces[wi].tabs[ti];
    var s := SplitOp(t.layout, target, added, d);
    if s.result.Err? {
      assert t.(layout := s.tree) == t;
      WithTabSelf(m, wi, ti);
    }
  }

  /** A pane occurs in one tab only. */
  lemma SamePlace(m: MuxV, i: nat, a: nat, j: nat, b: nat, p: PaneId)
    requires Inv(m)
    requires i < |m.workspaces| && a < |m.workspaces[i].tabs| && j < |m.workspaces| && b < |m.workspaces[j].tabs|
    requires p in PaneIds(m.workspaces[i].tabs[a].layout) && p in PaneIds(m.workspaces[j].tabs[b].layout)
    ensures i == j && a == b
  {
    hide Bag;
    BagUpdate(TabPanes, m.workspaces[i].tabs, a, m.workspaces[i].tabs[a]);
    BagUpdate(TabPanes, m.workspaces[j].tabs, b, m.workspaces[j].tabs[b]);
    assert p in TabPanes(m.workspaces[i].tabs[a]) && p in TabPanes(m.workspaces[j].tabs[b]);
    assert TabPanes(m.workspaces[i].tabs[a])[p] <= WsPanes(m.workspaces[i])[p];
    assert TabPanes(m.workspaces[j].tabs[b])[p] <= WsPanes(m.workspaces[j])[p];
    NotTwice(WsPanes, m.workspaces, i, j, p);
    NoRepeatsIn(WsPanes, m.workspaces, i);
    NotTwice(TabPanes, m.workspaces[i].tabs, a, b, p);
  }
}
