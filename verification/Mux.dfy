/** Tabs, workspaces and the multiplexer state as values: what each operation
    does to them and what every run keeps.
 */
module Mux {
  import opened Layout
  import opened Basics
  import opened Splits
  import opened Closes
  import opened LayoutOps
  import opened Bags

  datatype TabV = TabV(id: U32, layout: Node, focused: PaneId)

  datatype WorkspaceV = WorkspaceV(id: U32, tabs: seq<TabV>, active: nat)

  datatype MuxV = MuxV(workspaces: seq<WorkspaceV>, active: nat, nextPane: U32, nextTab: U32, nextWs: U32)

  const EMPTY := MuxV([], 0, 0, 0, 0)

  // ----- bags of identifiers -----

  ghost function TabPanes(t: TabV): multiset<U32> {
    multiset(PaneIds(t.layout))
  }

  ghost function TabIds(t: TabV): multiset<U32> {
    multiset{t.id}
  }

  ghost function WsPanes(w: WorkspaceV): multiset<U32> {
    Bag(TabPanes, w.tabs)
  }

  ghost function WsTabs(w: WorkspaceV): multiset<U32> {
    Bag(TabIds, w.tabs)
  }

  ghost function WsIds(w: WorkspaceV): multiset<U32> {
    multiset{w.id}
  }

  ghost function AllPanes(m: MuxV): multiset<U32> {
    Bag(WsPanes, m.workspaces)
  }

  ghost function AllTabs(m: MuxV): multiset<U32> {
    Bag(WsTabs, m.workspaces)
  }

  ghost function AllWorkspaces(m: MuxV): multiset<U32> {
    Bag(WsIds, m.workspaces)
  }

  // ----- the invariant -----

  ghost predicate TabOk(t: TabV) {
    Good(t.layout) && t.focused in PaneIds(t.layout)
  }

  ghost predicate WorkspaceOk(w: WorkspaceV) {
    w.active < |w.tabs| && forall i :: 0 <= i < |w.tabs| ==> TabOk(w.tabs[i])
  }

  /** The pane-identifier counter is ahead of `p`; it saturates at the top. */
  predicate Behind(p: U32, next: U32) {
    p < next || p == next == U32_MAX
  }

  /** What holds of every reachable state. */
  ghost predicate Inv(m: MuxV) {
    && m.active < |m.workspaces| + (if m.workspaces == [] then 1 else 0)
    && (forall i :: 0 <= i < |m.workspaces| ==> WorkspaceOk(m.workspaces[i]))
    && NoRepeats(AllPanes(m)) && NoRepeats(AllTabs(m)) && NoRepeats(AllWorkspaces(m))
    && (forall p :: p in AllPanes(m) ==> Behind(p, m.nextPane))
    && (forall t :: t in AllTabs(m) ==> t < m.nextTab)
    && (forall w :: w in AllWorkspaces(m) ==> w < m.nextWs)
  }

  // ----- locating -----

  /** The first tab holding `pane`, or the number of tabs. */
  function TabOf(tabs: seq<TabV>, pane: PaneId): (i: nat)
    ensures i <= |tabs|
    ensures i < |tabs| ==> pane in PaneIds(tabs[i].layout)
    ensures forall j :: 0 <= j < i ==> pane !in PaneIds(tabs[j].layout)
  {
    if tabs == [] || pane in PaneIds(tabs[0].layout) then 0
    else
      var k := TabOf(tabs[1..], pane);
      assert forall j :: 1 <= j < 1 + k ==> tabs[j] == tabs[1..][j - 1];
      1 + k
  }

  predicate Holds(w: WorkspaceV, pane: PaneId) {
    TabOf(w.tabs, pane) < |w.tabs|
  }

  /** The first workspace holding `pane`, or the number of workspaces. */
  function WorkspaceOf(ws: seq<WorkspaceV>, pane: PaneId): (i: nat)
    ensures i <= |ws|
    ensures i < |ws| ==> Holds(ws[i], pane)
    ensures forall j :: 0 <= j < i ==> !Holds(ws[j], pane)
  {
    if ws == [] || Holds(ws[0], pane) then 0
    else
      var k := WorkspaceOf(ws[1..], pane);
      assert forall j :: 1 <= j < 1 + k ==> ws[j] == ws[1..][j - 1];
      1 + k
  }

  predicate Tracked(m: MuxV, pane: PaneId) {
    WorkspaceOf(m.workspaces, pane) < |m.workspaces|
  }

  /** Position of the tab with this identifier in a list, or its length. */
  function TabWithId(tabs: seq<TabV>, id: U32): (i: nat)
    ensures i <= |tabs|
    ensures i < |tabs| ==> tabs[i].id == id
    ensures forall j :: 0 <= j < i ==> tabs[j].id != id
  {
    if tabs == [] || tabs[0].id == id then 0
    else
      var k := TabWithId(tabs[1..], id);
      assert forall j :: 1 <= j < 1 + k ==> tabs[j] == tabs[1..][j - 1];
      1 + k
  }

  /** Position of the first workspace with a tab of this identifier. */
  function WorkspaceWithTab(ws: seq<WorkspaceV>, id: U32): (i: nat)
    ensures i <= |ws|
    ensures i < |ws| ==> TabWithId(ws[i].tabs, id) < |ws[i].tabs|
    ensures forall j :: 0 <= j < i ==> TabWithId(ws[j].tabs, id) == |ws[j].tabs|
  {
    if ws == [] || TabWithId(ws[0].tabs, id) < |ws[0].tabs| then 0
    else
      var k := WorkspaceWithTab(ws[1..], id);
      assert forall j :: 1 <= j < 1 + k ==> ws[j] == ws[1..][j - 1];
      1 + k
  }

  function WorkspaceWithId(ws: seq<WorkspaceV>, id: U32): (i: nat)
    ensures i <= |ws|
    ensures i < |ws| ==> ws[i].id == id
    ensures forall j :: 0 <= j < i ==> ws[j].id != id
  {
    if ws == [] || ws[0].id == id then 0
    else
      var k := WorkspaceWithId(ws[1..], id);
      assert forall j :: 1 <= j < 1 + k ==> ws[j] == ws[1..][j - 1];
      1 + k
  }

  /** A pane is tracked exactly when some tab's tree holds it. */
  lemma TrackedIsHeld(m: MuxV, pane: PaneId)
    ensures Tracked(m, pane) <==> pane in AllPanes(m)
  {
    hide Bag;
    var wi := WorkspaceOf(m.workspaces, pane);
    if wi < |m.workspaces| {
      var w := m.workspaces[wi];
      BagUpdate(TabPanes, w.tabs, TabOf(w.tabs, pane), w.tabs[TabOf(w.tabs, pane)]);
      BagUpdate(WsPanes, m.workspaces, wi, w);
      assert TabPanes(w.tabs[TabOf(w.tabs, pane)])[pane] > 0;
    } else {
      NotHeldAnywhere(m.workspaces, pane);
    }
  }

  lemma {:induction false} NotHeldByTabs(tabs: seq<TabV>, pane: PaneId)
    requires forall i :: 0 <= i < |tabs| ==> pane !in PaneIds(tabs[i].layout)
    ensures pane !in Bag(TabPanes, tabs)
  {
    if tabs == [] {
    } else {
      assert pane !in TabPanes(tabs[0]);
      NotHeldByTabs(tabs[1..], pane);
    }
  }

  lemma {:induction false} NotHeldAnywhere(ws: seq<WorkspaceV>, pane: PaneId)
    requires forall i :: 0 <= i < |ws| ==> !Holds(ws[i], pane)
    ensures pane !in Bag(WsPanes, ws)
  {
    if ws == [] {
    } else {
      assert !Holds(ws[0], pane);
      NotHeldByTabs(ws[0].tabs, pane);
      NotHeldAnywhere(ws[1..], pane);
    }
  }

  // ----- edits of one tab or workspace -----

  function WithTab(m: MuxV, wi: nat, ti: nat, t: TabV): MuxV
    requires wi < |m.workspaces| && ti < |m.workspaces[wi].tabs|
  {
    var w := m.workspaces[wi];
    m.(workspaces := m.workspaces[wi := w.(tabs := w.tabs[ti := t])])
  }

  /** Replacing a tab by one of the same identity trades its panes and
      nothing else. */
  lemma WithTabBags(m: MuxV, wi: nat, ti: nat, t: TabV)
    requires wi < |m.workspaces| && ti < |m.workspaces[wi].tabs| && t.id == m.workspaces[wi].tabs[ti].id
    ensures var r, old' := WithTab(m, wi, ti, t), m.workspaces[wi].tabs[ti];
      && AllPanes(r) + TabPanes(old') == AllPanes(m) + TabPanes(t)
      && TabPanes(old') <= AllPanes(m)
      && AllTabs(r) == AllTabs(m) && AllWorkspaces(r) == AllWorkspaces(m)
  {
    hide Bag;
    var w := m.workspaces[wi];
    var w' := w.(tabs := w.tabs[ti := t]);
    BagUpdate(TabPanes, w.tabs, ti, t);
    BagUpdate(TabIds, w.tabs, ti, t);
    BagUpdate(WsPanes, m.workspaces, wi, w');
    BagUpdate(WsTabs, m.workspaces, wi, w');
    BagUpdate(WsIds, m.workspaces, wi, w');
    assert WsTabs(w') == WsTabs(w) by {
      Cancel(WsTabs(w'), WsTabs(w), TabIds(t));
    }
    Cancel(AllTabs(WithTab(m, wi, ti, t)), AllTabs(m), WsTabs(w));
    Cancel(AllWorkspaces(WithTab(m, wi, ti, t)), AllWorkspaces(m), WsIds(w));
    Trade(AllPanes(m), AllPanes(WithTab(m, wi, ti, t)), WsPanes(w), WsPanes(w'), TabPanes(w.tabs[ti]), TabPanes(t));
  }

  lemma Cancel(a: multiset<U32>, b: multiset<U32>, c: multiset<U32>)
    requires a + c == b + c
    ensures a == b
  {
    forall p ensures a[p] == b[p] {
      assert (a + c)[p] == (b + c)[p];
    }
  }

  /** Trading `t` for `t'` inside `w`, and `w` for `w'` inside `a`. */
  lemma Trade(
    a: multiset<U32>, a': multiset<U32>, w: multiset<U32>, w': multiset<U32>, t: multiset<U32>, t': multiset<U32>)
    requires a' + w == a + w' && w' + t == w + t'
    ensures a' + t == a + t'
  {
    forall p ensures (a' + t)[p] == (a + t')[p] {
      assert (a' + w)[p] == (a + w')[p];
      assert (w' + t)[p] == (w + t')[p];
    }
  }

  /** A tab's panes are its own: exchanging its tree for a good one over bag
      `b` of panes keeps the invariant when `b` stays clear of the others. */
  lemma WithTabInv(m: MuxV, wi: nat, ti: nat, t: TabV)
    requires Inv(m) && wi < |m.workspaces| && ti < |m.workspaces[wi].tabs|
    requires t.id == m.workspaces[wi].tabs[ti].id && TabOk(t)
    requires forall p :: p in TabPanes(t) ==> p in TabPanes(m.workspaces[wi].tabs[ti]) || p !in AllPanes(m)
    requires forall p :: p in TabPanes(t) ==> Behind(p, m.nextPane)
    ensures Inv(WithTab(m, wi, ti, t))
  {
    hide Bag;
    hide Good;
    hide NoDup;
    var r, was := WithTab(m, wi, ti, t), m.workspaces[wi].tabs[ti];
    WithTabBags(m, wi, ti, t);
    assert NoRepeats(TabPanes(t)) by { GoodBag(t); }
    TradeNoRepeats(AllPanes(m), AllPanes(r), TabPanes(was), TabPanes(t));
    forall p | p in AllPanes(r) ensures Behind(p, m.nextPane) {
      assert (AllPanes(r) + TabPanes(was))[p] == (AllPanes(m) + TabPanes(t))[p];
    }
  }

  lemma GoodBag(t: TabV)
    requires TabOk(t)
    ensures NoRepeats(TabPanes(t))
  {
    NoDupNoRepeats(PaneIds(t.layout));
  }

  lemma TradeNoRepeats(a: multiset<U32>, a': multiset<U32>, t: multiset<U32>, t': multiset<U32>)
    requires a' + t == a + t' && NoRepeats(a) && NoRepeats(t')
    requires forall p :: p in t' ==> p in t || p !in a
    ensures NoRepeats(a')
  {
    forall p ensures a'[p] <= 1 {
      assert (a' + t)[p] == (a + t')[p];
      assert a[p] <= 1 && t'[p] <= 1;
    }
  }

  /** The pane counter only has to be ahead of every pane held. */
  lemma CounterInv(m: MuxV, next: U32)
    requires Inv(m) && next >= m.nextPane
    ensures Inv(m.(nextPane := next))
  {
  }

  // ----- identifier allocation -----

  /** The next pane identifier, or none when the space is exhausted (the
      program aborts there). */
  function AllocPane(m: MuxV): (MuxV, Option<PaneId>) {
    if m.nextPane == U32_MAX then (m, None) else (m.(nextPane := m.nextPane + 1), Some(m.nextPane))
  }

  /** Keep the counter ahead of an identifier supplied from outside. */
  function Noted(m: MuxV, pane: PaneId): MuxV {
    var after := if pane == U32_MAX then U32_MAX else pane + 1;
    m.(nextPane := if m.nextPane >= after then m.nextPane else after)
  }

  lemma NotedInv(m: MuxV, pane: PaneId)
    requires Inv(m)
    ensures Inv(Noted(m, pane)) && Behind(pane, Noted(m, pane).nextPane)
    ensures Noted(m, pane).nextPane >= m.nextPane
  {
  }

  // ----- operations on one tab -----

  datatype MuxStep<+T> = MuxStep(mux: MuxV, result: LayoutResult<T>)

  function SplitPane(m: MuxV, target: PaneId, added: PaneId, d: SplitDirection): MuxStep<Unit> {
    if Tracked(m, added) then MuxStep(m, Err(PaneAlreadyPresent(added)))
    else if !Tracked(m, target) then MuxStep(m, Err(PaneNotFound(target)))
    else
      var wi := WorkspaceOf(m.workspaces, target);
      var ti := TabOf(m.workspaces[wi].tabs, target);
      var t := m.workspaces[wi].tabs[ti];
      var s := SplitOp(t.layout, target, added, d);
      if s.result.Err? then MuxStep(m, Err(s.result.error))
      else MuxStep(Noted(WithTab(m, wi, ti, t.(layout := s.tree)), added), Ok(Unit))
  }

  ghost function ResizePane(m: MuxV, pane: PaneId, neighbor: PaneId, delta: real, minWeight: real): MuxStep<Unit> {
    if !Tracked(m, pane) then MuxStep(m, Err(PaneNotFound(pane)))
    else
      var wi := WorkspaceOf(m.workspaces, pane);
      var ti := TabOf(m.workspaces[wi].tabs, pane);
      var t := m.workspaces[wi].tabs[ti];
      var s := ResizeOp(t.layout, pane, neighbor, delta, minWeight);
      MuxStep(WithTab(m, wi, ti, t.(layout := s.tree)), s.result)
  }

  function SwapPanes(m: MuxV, a: PaneId, b: PaneId): MuxStep<Unit> {
    if !Tracked(m, a) then MuxStep(m, Err(PaneNotFound(a)))
    else
      var wi := WorkspaceOf(m.workspaces, a);
      var ti := TabOf(m.workspaces[wi].tabs, a);
      var t := m.workspaces[wi].tabs[ti];
      var s := SwapOp(t.layout, a, b);
      MuxStep(WithTab(m, wi, ti, t.(layout := s.tree)), s.result)
  }

  /** Splitting adds exactly the newcomer, and is refused exactly when the
      target is unknown or the newcomer already tracked. */
  lemma SplitPaneInv(m: MuxV, target: PaneId, added: PaneId, d: SplitDirection)
    requires Inv(m)
    ensures var s := SplitPane(m, target, added, d);
      && Inv(s.mux)
      && (s.result.Ok? <==> Tracked(m, target) && !Tracked(m, added))
      && (s.result.Err? ==> s.mux == m)
      && (s.result.Ok? ==> AllPanes(s.mux) == AllPanes(m) + multiset{added})
      && AllTabs(s.mux) == AllTabs(m) && AllWorkspaces(s.mux) == AllWorkspaces(m)
      && s.mux.nextPane >= m.nextPane
  {
    hide Bag;
    TrackedIsHeld(m, target);
    TrackedIsHeld(m, added);
    if !Tracked(m, added) && Tracked(m, target) {
      var wi := WorkspaceOf(m.workspaces, target);
      var ti := TabOf(m.workspaces[wi].tabs, target);
      var t := m.workspaces[wi].tabs[ti];
      HeldByTab(m, wi, ti, added);
      SplitGood(t.layout, target, added, d);
      var t' := t.(layout := SplitTree(t.layout, target, added, d));
      SplitBag(t.layout, target, added, d);
      NotedInv(m, added);
      WithTabBags(m, wi, ti, t');
      assert TabPanes(t') == TabPanes(t) + multiset{added};
      assert AllPanes(m) + TabPanes(t') == AllPanes(m) + multiset{added} + TabPanes(t);
      Cancel(AllPanes(WithTab(m, wi, ti, t')), AllPanes(m) + multiset{added}, TabPanes(t));
      var n := Noted(m, added);
      TabPanesBehind(n, wi, ti);
      assert AllPanes(n) == AllPanes(m);
      WithTabInv(n, wi, ti, t');
      assert WithTab(n, wi, ti, t') == Noted(WithTab(m, wi, ti, t'), added);
    }
  }

  lemma HeldByTab(m: MuxV, wi: nat, ti: nat, pane: PaneId)
    requires wi < |m.workspaces| && ti < |m.workspaces[wi].tabs|
    ensures pane in PaneIds(m.workspaces[wi].tabs[ti].layout) ==> pane in AllPanes(m)
  {
    hide Bag;
    var t := m.workspaces[wi].tabs[ti];
    WithTabBags(m, wi, ti, t);
    assert TabPanes(t)[pane] <= AllPanes(m)[pane];
  }

  lemma TabPanesBehind(m: MuxV, wi: nat, ti: nat)
    requires Inv(m) && wi < |m.workspaces| && ti < |m.workspaces[wi].tabs|
    ensures forall p :: p in TabPanes(m.workspaces[wi].tabs[ti]) ==> Behind(p, m.nextPane)
  {
    hide Bag;
    forall p | p in TabPanes(m.workspaces[wi].tabs[ti]) ensures Behind(p, m.nextPane) {
      HeldByTab(m, wi, ti, p);
    }
  }

  lemma {:induction false} WithAfterBag(ids: seq<PaneId>, t: PaneId, added: PaneId)
    requires NoDup(ids)
    ensures multiset(WithAfter(ids, t, added)) == multiset(ids) + (if t in ids then multiset{added} else multiset{})
  {
    if ids == [] {
    } else {
      assert ids == [ids[0]] + ids[1..];
      NoDupConcat([ids[0]], ids[1..]);
      assert ids[0] in [ids[0]];
      WithAfterBag(ids[1..], t, added);
      WithAfterBagStep(ids, t, added);
      assert multiset(ids) == multiset{ids[0]} + multiset(ids[1..]);
    }
  }

  lemma WithAfterBagStep(ids: seq<PaneId>, t: PaneId, added: PaneId)
    requires ids != []
    ensures multiset(WithAfter(ids, t, added))
         == multiset{ids[0]} + (if ids[0] == t then multiset{added} else multiset{})
            + multiset(WithAfter(ids[1..], t, added))
  {
  }

  lemma SplitBag(n: Node, t: PaneId, added: PaneId, d: SplitDirection)
    requires Unique(n) && t in PaneIds(n)
    ensures multiset(PaneIds(SplitTree(n, t, added, d))) == multiset(PaneIds(n)) + multiset{added}
  {
    hide PaneIds;
    hide SplitTree;
    var ids := PaneIds(n);
    SplitIds(n, t, added, d);
    WithAfterBag(ids, t, added);
  }

  /** Exchanging a tab's tree for a good one over the same panes. */
  lemma SamePanesInv(m: MuxV, wi: nat, ti: nat, layout: Node)
    requires Inv(m) && wi < |m.workspaces| && ti < |m.workspaces[wi].tabs| && Good(layout)
    requires forall p :: p in PaneIds(layout) <==> p in PaneIds(m.workspaces[wi].tabs[ti].layout)
    ensures var r := WithTab(m, wi, ti, m.workspaces[wi].tabs[ti].(layout := layout));
      Inv(r) && AllPanes(r) == AllPanes(m) && AllTabs(r) == AllTabs(m) && AllWorkspaces(r) == AllWorkspaces(m)
  {
    hide Bag;
    var t := m.workspaces[wi].tabs[ti];
    var t' := t.(layout := layout);
    NoDupNoRepeats(PaneIds(t.layout));
    NoDupNoRepeats(PaneIds(layout));
    forall p ensures TabPanes(t)[p] == TabPanes(t')[p] {
      assert p in TabPanes(t) <==> p in PaneIds(t.layout);
      assert p in TabPanes(t') <==> p in PaneIds(layout);
    }
    assert TabPanes(t) == TabPanes(t');
    WithTabBags(m, wi, ti, t');
    Cancel(AllPanes(WithTab(m, wi, ti, t')), AllPanes(m), TabPanes(t));
    TabPanesBehind(m, wi, ti);
    WithTabInv(m, wi, ti, t');
  }

  lemma ResizePaneInv(m: MuxV, pane: PaneId, neighbor: PaneId, delta: real, minWeight: real)
    requires Inv(m)
    ensures var s := ResizePane(m, pane, neighbor, delta, minWeight);
      && Inv(s.mux) && AllPanes(s.mux) == AllPanes(m) && AllTabs(s.mux) == AllTabs(m)
      && AllWorkspaces(s.mux) == AllWorkspaces(m) && (s.result.Err? ==> s.mux == m)
      && s.mux.nextPane == m.nextPane && s.mux.nextTab == m.nextTab && s.mux.nextWs == m.nextWs
  {
    hide Bag;
    if Tracked(m, pane) {
      var wi := WorkspaceOf(m.workspaces, pane);
      var ti := TabOf(m.workspaces[wi].tabs, pane);
      var t := m.workspaces[wi].tabs[ti];
      ResizeGood(t.layout, pane, neighbor, delta, minWeight);
      SamePanesInv(m, wi, ti, ResizeOp(t.layout, pane, neighbor, delta, minWeight).tree);
      WithTabSelf(m, wi, ti);
    }
  }

  lemma SwapPanesInv(m: MuxV, a: PaneId, b: PaneId)
    requires Inv(m)
    ensures var s := SwapPanes(m, a, b);
      && Inv(s.mux) && AllPanes(s.mux) == AllPanes(m) && AllTabs(s.mux) == AllTabs(m)
      && AllWorkspaces(s.mux) == AllWorkspaces(m) && (s.result.Err? ==> s.mux == m)
      && s.mux.nextPane == m.nextPane && s.mux.nextTab == m.nextTab && s.mux.nextWs == m.nextWs
  {
    hide Bag;
    if Tracked(m, a) {
      var wi := WorkspaceOf(m.workspaces, a);
      var ti := TabOf(m.workspaces[wi].tabs, a);
      var t := m.workspaces[wi].tabs[ti];
      SwapGood(t.layout, a, b);
      SamePanesInv(m, wi, ti, SwapOp(t.layout, a, b).tree);
      WithTabSelf(m, wi, ti);
    }
  }

  lemma WithTabSelf(m: MuxV, wi: nat, ti: nat)
    requires wi < |m.workspaces| && ti < |m.workspaces[wi].tabs|
    ensures WithTab(m, wi, ti, m.workspaces[wi].tabs[ti]) == m
  {
    var w := m.workspaces[wi];
    assert w.tabs[ti := w.tabs[ti]] == w.tabs;
    assert m.workspaces[wi := w] == m.workspaces;
  }

  // ----- creating tabs and workspaces -----

  /** Result of an operation that may abort on identifier exhaustion. */
  datatype Outcome<+T> = Done(value: T) | Aborted

  function NewTabV(id: U32, pane: PaneId): TabV {
    TabV(id, Leaf(pane), pane)
  }

  /** A fresh tab around `pane` appended to workspace `wi` and made active. */
  function WithNewTab(m: MuxV, wi: nat, pane: PaneId): MuxV
    requires wi < |m.workspaces| && m.nextTab < U32_MAX
  {
    var w := m.workspaces[wi];
    var w' := w.(tabs := w.tabs + [NewTabV(m.nextTab, pane)], active := |w.tabs|);
    m.(workspaces := m.workspaces[wi := w'], nextTab := m.nextTab + 1)
  }

  /** A fresh workspace with one tab around `pane`, appended and made active. */
  function WithNewWorkspace(m: MuxV, pane: PaneId): MuxV
    requires m.nextTab < U32_MAX && m.nextWs < U32_MAX
  {
    var w := WorkspaceV(m.nextWs, [NewTabV(m.nextTab, pane)], 0);
    m.(workspaces := m.workspaces + [w], active := |m.workspaces|, nextTab := m.nextTab + 1, nextWs := m.nextWs + 1)
  }

  /** Wrap the first pane; refused once anything exists. */
  function Seed(m: MuxV, pane: PaneId): (MuxV, Outcome<bool>) {
    if m.workspaces != [] then (m, Done(false))
    else CreateWorkspace(Noted(m, pane), pane, true)
  }

  function CreateWorkspace<T>(m: MuxV, pane: PaneId, value: T): (MuxV, Outcome<T>) {
    if m.nextTab == U32_MAX then (m, Aborted)
    else if m.nextWs == U32_MAX then (m.(nextTab := m.nextTab + 1), Aborted)
    else (WithNewWorkspace(m, pane), Done(value))
  }

  function NewTab(m: MuxV, pane: PaneId): (MuxV, Outcome<Option<U32>>) {
    if m.active >= |m.workspaces| || Tracked(m, pane) then (m, Done(None))
    else
      var n := Noted(m, pane);
      if n.nextTab == U32_MAX then (n, Aborted)
      else (WithNewTab(n, n.active, pane), Done(Some(n.nextTab)))
  }

  function NewWorkspace(m: MuxV, pane: PaneId): (MuxV, Outcome<Option<U32>>) {
    if Tracked(m, pane) then (m, Done(None))
    else CreateWorkspace(Noted(m, pane), pane, Some(m.nextWs))
  }

  lemma NewTabOk(id: U32, pane: PaneId)
    ensures TabOk(NewTabV(id, pane)) && TabPanes(NewTabV(id, pane)) == multiset{pane}
  {
  }

  /** Bags after appending a workspace. */
  lemma AppendWorkspaceBags(ws: seq<WorkspaceV>, w: WorkspaceV)
    ensures Bag(WsPanes, ws + [w]) == Bag(WsPanes, ws) + WsPanes(w)
    ensures Bag(WsTabs, ws + [w]) == Bag(WsTabs, ws) + WsTabs(w)
    ensures Bag(WsIds, ws + [w]) == Bag(WsIds, ws) + WsIds(w)
  {
    BagAppend(WsPanes, ws, [w]);
    BagAppend(WsTabs, ws, [w]);
    BagAppend(WsIds, ws, [w]);
    BagOne(WsPanes, w);
    BagOne(WsTabs, w);
    BagOne(WsIds, w);
  }

  lemma OneTabBags(t: TabV)
    ensures Bag(TabPanes, [t]) == TabPanes(t) && Bag(TabIds, [t]) == TabIds(t)
  {
  }

  lemma WithNewWorkspaceInv(m: MuxV, pane: PaneId)
    requires Inv(m) && m.nextTab < U32_MAX && m.nextWs < U32_MAX
    requires pane !in AllPanes(m) && Behind(pane, m.nextPane)
    ensures Inv(WithNewWorkspace(m, pane))
    ensures AllPanes(WithNewWorkspace(m, pane)) == AllPanes(m) + multiset{pane}
  {
    hide Bag;
    var t := NewTabV(m.nextTab, pane);
    var w := WorkspaceV(m.nextWs, [t], 0);
    NewTabOk(m.nextTab, pane);
    OneTabBags(t);
    AppendWorkspaceBags(m.workspaces, w);
    var r := WithNewWorkspace(m, pane);
    assert forall i :: 0 <= i < |m.workspaces| ==> r.workspaces[i] == m.workspaces[i];
    FreshNoRepeats(AllPanes(m), pane);
    FreshNoRepeats(AllTabs(m), m.nextTab);
    FreshNoRepeats(AllWorkspaces(m), m.nextWs);
  }

  lemma FreshNoRepeats(b: multiset<U32>, x: U32)
    requires NoRepeats(b) && x !in b
    ensures NoRepeats(b + multiset{x})
  {
  }

  lemma WithNewTabInv(m: MuxV, wi: nat, pane: PaneId)
    requires Inv(m) && wi < |m.workspaces| && m.nextTab < U32_MAX
    requires pane !in AllPanes(m) && Behind(pane, m.nextPane)
    ensures Inv(WithNewTab(m, wi, pane))
    ensures AllPanes(WithNewTab(m, wi, pane)) == AllPanes(m) + multiset{pane}
  {
    hide Bag;
    var w, t, r := m.workspaces[wi], NewTabV(m.nextTab, pane), WithNewTab(m, wi, pane);
    var w' := r.workspaces[wi];
    NewTabOk(m.nextTab, pane);
    OneTabBags(t);
    BagAppend(TabPanes, w.tabs, [t]);
    BagAppend(TabIds, w.tabs, [t]);
    BagUpdate(WsPanes, m.workspaces, wi, w');
    BagUpdate(WsTabs, m.workspaces, wi, w');
    BagUpdate(WsIds, m.workspaces, wi, w');
    assert AllPanes(m) + WsPanes(w') == AllPanes(m) + multiset{pane} + WsPanes(w);
    Cancel(AllPanes(r), AllPanes(m) + multiset{pane}, WsPanes(w));
    assert AllTabs(m) + WsTabs(w') == AllTabs(m) + multiset{m.nextTab} + WsTabs(w);
    Cancel(AllTabs(r), AllTabs(m) + multiset{m.nextTab}, WsTabs(w));
    Cancel(AllWorkspaces(r), AllWorkspaces(m), WsIds(w));
    FreshNoRepeats(AllPanes(m), pane);
    FreshNoRepeats(AllTabs(m), m.nextTab);
    assert WorkspaceOk(w') by {
      forall i | 0 <= i < |w'.tabs| ensures TabOk(w'.tabs[i]) {
        if i < |w.tabs| { assert w'.tabs[i] == w.tabs[i]; }
      }
    }
  }

  lemma CreateWorkspaceInv<T>(m: MuxV, pane: PaneId, value: T)
    requires Inv(m) && pane !in AllPanes(m) && Behind(pane, m.nextPane)
    ensures var (r, o) := CreateWorkspace(m, pane, value);
      && Inv(r) && (o.Done? ==> o.value == value && AllPanes(r) == AllPanes(m) + multiset{pane})
      && (o.Aborted? ==> AllPanes(r) == AllPanes(m))
  {
    hide Bag;
    hide WithNewWorkspace;
    if m.nextTab < U32_MAX {
      TabCounterInv(m);
      if m.nextWs < U32_MAX {
        WithNewWorkspaceInv(m, pane);
      }
    }
  }

  /** Seeding happens exactly on the empty state and adds exactly the pane.
      Even an abort leaves a consistent state. */
  lemma SeedInv(m: MuxV, pane: PaneId)
    requires Inv(m)
    ensures var (r, o) := Seed(m, pane);
      && Inv(r) && (o == Done(true) ==> m.workspaces == [] && AllPanes(r) == multiset{pane})
      && (o == Done(false) <==> m.workspaces != []) && (o == Done(false) ==> r == m)
  {
    hide CreateWorkspace;
    hide Noted;
    if m.workspaces == [] {
      NotedInv(m, pane);
      assert AllPanes(m) == multiset{};
      assert AllPanes(Noted(m, pane)) == AllPanes(m) by { NotedPanes(m, pane); }
      CreateWorkspaceInv(Noted(m, pane), pane, true);
    }
  }

  lemma NotedPanes(m: MuxV, pane: PaneId)
    ensures AllPanes(Noted(m, pane)) == AllPanes(m) && Noted(m, pane).workspaces == m.workspaces
    ensures Noted(m, pane).active == m.active
    ensures Noted(m, pane).nextTab == m.nextTab && Noted(m, pane).nextWs == m.nextWs
  {
  }

  /** A new tab is refused exactly when nothing exists yet or the pane is
      already tracked; otherwise it adds exactly the pane, in view. */
  lemma NewTabInv(m: MuxV, pane: PaneId)
    requires Inv(m)
    ensures var (r, o) := NewTab(m, pane);
      && Inv(r)
      && (o.Done? && o.value.Some? ==> AllPanes(r) == AllPanes(m) + multiset{pane} && InView(r, pane, o.value.value))
      && (o == Done(None) <==> m.workspaces == [] || Tracked(m, pane)) && (o == Done(None) ==> r == m)
  {
    hide Bag;
    hide Noted;
    TrackedIsHeld(m, pane);
    NotedInv(m, pane);
    NotedPanes(m, pane);
    var n := Noted(m, pane);
    if !Tracked(m, pane) && n.nextTab < U32_MAX && n.active < |n.workspaces| {
      WithNewTabInv(n, n.active, pane);
    }
  }

  /** The tab with this identifier is active and focuses `pane`. */
  ghost predicate InView(m: MuxV, pane: PaneId, tab: U32) {
    && m.active < |m.workspaces|
    && var w := m.workspaces[m.active];
    && w.active < |w.tabs| && w.tabs[w.active].id == tab && w.tabs[w.active].focused == pane
  }

  /** A new workspace is refused exactly when the pane is already tracked;
      otherwise it adds exactly the pane and becomes active. */
  lemma NewWorkspaceInv(m: MuxV, pane: PaneId)
    requires Inv(m)
    ensures var (r, o) := NewWorkspace(m, pane);
      && Inv(r)
      && (o.Done? && o.value.Some? ==>
            && AllPanes(r) == AllPanes(m) + multiset{pane}
            && r.active < |r.workspaces| && r.workspaces[r.active].id == o.value.value)
      && (o == Done(None) <==> Tracked(m, pane)) && (o == Done(None) ==> r == m)
  {
    hide Bag;
    hide Noted;
    TrackedIsHeld(m, pane);
    NotedInv(m, pane);
    NotedPanes(m, pane);
    if !Tracked(m, pane) {
      CreateWorkspaceInv(Noted(m, pane), pane, Some(m.nextWs));
    }
  }

  lemma TabCounterInv(m: MuxV)
    requires Inv(m) && m.nextTab < U32_MAX
    ensures Inv(m.(nextTab := m.nextTab + 1))
  {
  }

  // ----- focus -----

  /** Focus a pane and bring its workspace and tab to the front. */
  function FocusPane(m: MuxV, pane: PaneId): (MuxV, bool) {
    if !Tracked(m, pane) then (m, false)
    else
      var wi := WorkspaceOf(m.workspaces, pane);
      var ti := TabOf(m.workspaces[wi].tabs, pane);
      var w := m.workspaces[wi];
      (m.(workspaces := m.workspaces[wi := w.(tabs := w.tabs[ti := w.tabs[ti].(focused := pane)], active := ti)],
          active := wi), true)
  }

  ghost function ActiveWorkspace(m: MuxV): Option<WorkspaceV> {
    if m.active < |m.workspaces| then Some(m.workspaces[m.active]) else None
  }

  ghost function ActiveTab(m: MuxV): Option<TabV> {
    if m.active < |m.workspaces| && m.workspaces[m.active].active < |m.workspaces[m.active].tabs|
    then Some(m.workspaces[m.active].tabs[m.workspaces[m.active].active]) else None
  }

  /** A tracked pane can always be focused, and is then the one in view. */
  lemma FocusPaneInv(m: MuxV, pane: PaneId)
    requires Inv(m)
    ensures var (r, ok) := FocusPane(m, pane);
      && Inv(r) && (ok <==> pane in AllPanes(m)) && (!ok ==> r == m)
      && (ok ==> ActiveTab(r).Some? && ActiveTab(r).value.focused == pane)
      && AllPanes(r) == AllPanes(m) && AllTabs(r) == AllTabs(m) && AllWorkspaces(r) == AllWorkspaces(m)
  {
    hide Bag;
    TrackedIsHeld(m, pane);
    if Tracked(m, pane) {
      var wi := WorkspaceOf(m.workspaces, pane);
      var ti := TabOf(m.workspaces[wi].tabs, pane);
      var t := m.workspaces[wi].tabs[ti].(focused := pane);
      TabPanesBehind(m, wi, ti);
      WithTabInv(m, wi, ti, t);
      WithTabBags(m, wi, ti, t);
      var n := WithTab(m, wi, ti, t);
      Cancel(AllPanes(n), AllPanes(m), TabPanes(t));
      RePointedInv(n, wi, n.workspaces[wi].(active := ti), wi);
      var r := FocusPane(m, pane).0;
      assert r.workspaces == n.workspaces[wi := n.workspaces[wi].(active := ti)];
    }
  }

  /** Changing which tab of workspace `wi` is active, and making the workspace
      active, keeps everything else. */
  lemma RePointedInv(m: MuxV, wi: nat, w: WorkspaceV, a: nat)
    requires Inv(m) && wi < |m.workspaces| && a < |m.workspaces|
    requires w.id == m.workspaces[wi].id && w.tabs == m.workspaces[wi].tabs && w.active < |w.tabs|
    ensures var r := m.(workspaces := m.workspaces[wi := w], active := a);
      Inv(r) &&
      AllPanes(r) == AllPanes(m) && AllTabs(r) == AllTabs(m) && AllWorkspaces(r) == AllWorkspaces(m)
  {
    hide Bag;
    var r := m.(workspaces := m.workspaces[wi := w], active := a);
    BagUpdate(WsPanes, m.workspaces, wi, w);
    BagUpdate(WsTabs, m.workspaces, wi, w);
    BagUpdate(WsIds, m.workspaces, wi, w);
    Cancel(AllPanes(r), AllPanes(m), WsPanes(w));
    Cancel(AllTabs(r), AllTabs(m), WsTabs(w));
    Cancel(AllWorkspaces(r), AllWorkspaces(m), WsIds(w));
  }

  // ----- closing -----

  /** The active index after removing position `removed` from a list now
      `newLen` long. */
  function ClampActive(active: nat, removed: nat, newLen: nat): nat {
    if active > removed || active >= newLen then (if active == 0 then 0 else active - 1) else active
  }

  function Dropped<T>(s: seq<T>, i: nat): (r: seq<T>)
    requires i < |s|
    ensures |r| == |s| - 1
  {
    s[..i] + s[i + 1..]
  }

  /** The surviving active element stays active; when the active element
      itself goes, the next one takes over, or the previous one when it was
      last. */
  lemma ClampKeepsActive<T>(s: seq<T>, active: nat, removed: nat)
    requires active < |s| && removed < |s|
    ensures var a, r := ClampActive(active, removed, |s| - 1), Dropped(s, removed);
      && (r == [] ==> a == 0)
      && (r != [] ==> a < |r|)
      && (removed != active ==> r[a] == s[active])
      && (removed == active && active + 1 < |s| ==> r[a] == s[active + 1])
      && (removed == active && active + 1 == |s| && active > 0 ==> r[a] == s[active - 1])
  {
  }

  function WithoutWorkspace(m: MuxV, wi: nat): MuxV
    requires wi < |m.workspaces|
  {
    m.(workspaces := Dropped(m.workspaces, wi), active := ClampActive(m.active, wi, |m.workspaces| - 1))
  }

  function WithoutTab(m: MuxV, wi: nat, ti: nat): MuxV
    requires wi < |m.workspaces| && ti < |m.workspaces[wi].tabs|
  {
    var w := m.workspaces[wi];
    var left := w.(tabs := Dropped(w.tabs, ti), active := ClampActive(w.active, ti, |w.tabs| - 1));
    m.(workspaces := m.workspaces[wi := left])
  }

  datatype PaneCloseOutcome =
    | PaneRemoved(focusHint: PaneId)
    | TabClosed(tab: U32, workspaceClosed: Option<U32>)

  /** Close a pane; the last pane takes its tab along, the last tab its
      workspace. */
  function ClosePane(m: MuxV, pane: PaneId): MuxStep<PaneCloseOutcome> {
    if !Tracked(m, pane) then MuxStep(m, Err(PaneNotFound(pane)))
    else
      var wi := WorkspaceOf(m.workspaces, pane);
      var ti := TabOf(m.workspaces[wi].tabs, pane);
      var w := m.workspaces[wi];
      var t := w.tabs[ti];
      var s := CloseOp(t.layout, pane);
      match s.result
      case Err(e) => MuxStep(m, Err(e))
      case Ok(Removed(hint)) =>
        MuxStep(WithTab(m, wi, ti, t.(layout := s.tree, focused := if t.focused == pane then hint else t.focused)),
                Ok(PaneRemoved(hint)))
      case Ok(LastPane) =>
        if |w.tabs| == 1 then MuxStep(WithoutWorkspace(m, wi), Ok(TabClosed(t.id, Some(w.id))))
        else MuxStep(WithoutTab(m, wi, ti), Ok(TabClosed(t.id, None)))
  }

  function TabPaneList(tabs: seq<TabV>): seq<PaneId> {
    if tabs == [] then [] else PaneIds(tabs[0].layout) + TabPaneList(tabs[1..])
  }

  /** Close a workspace, returning every pane it held. */
  function CloseWorkspace(m: MuxV, id: U32): (MuxV, Option<seq<PaneId>>) {
    var wi := WorkspaceWithId(m.workspaces, id);
    if wi == |m.workspaces| then (m, None)
    else (WithoutWorkspace(m, wi), Some(TabPaneList(m.workspaces[wi].tabs)))
  }

  lemma {:induction false} TabPaneListBag(tabs: seq<TabV>)
    ensures multiset(TabPaneList(tabs)) == Bag(TabPanes, tabs)
  {
    if tabs == [] {
    } else {
      TabPaneListBag(tabs[1..]);
    }
  }

  /** Dropping a workspace drops exactly its panes, tabs and identifier. */
  lemma WithoutWorkspaceInv(m: MuxV, wi: nat)
    requires Inv(m) && wi < |m.workspaces|
    ensures Inv(WithoutWorkspace(m, wi))
    ensures AllPanes(WithoutWorkspace(m, wi)) + WsPanes(m.workspaces[wi]) == AllPanes(m)
    ensures AllTabs(WithoutWorkspace(m, wi)) + WsTabs(m.workspaces[wi]) == AllTabs(m)
  {
    hide Bag;
    var r := WithoutWorkspace(m, wi);
    BagRemove(WsPanes, m.workspaces, wi);
    BagRemove(WsTabs, m.workspaces, wi);
    BagRemove(WsIds, m.workspaces, wi);
    SmallerBag(AllPanes(r), AllPanes(m), WsPanes(m.workspaces[wi]));
    SmallerBag(AllTabs(r), AllTabs(m), WsTabs(m.workspaces[wi]));
    SmallerBag(AllWorkspaces(r), AllWorkspaces(m), WsIds(m.workspaces[wi]));
    ClampKeepsActive(m.workspaces, m.active, wi);
    forall i | 0 <= i < |r.workspaces| ensures WorkspaceOk(r.workspaces[i]) {
      assert r.workspaces[i] == m.workspaces[if i < wi then i else i + 1];
    }
  }

  lemma SmallerBag(a: multiset<U32>, b: multiset<U32>, c: multiset<U32>)
    requires a + c == b && NoRepeats(b)
    ensures NoRepeats(a) && forall p :: p in a ==> p in b && p !in c
  {
    forall p ensures a[p] <= 1 && (p in a ==> p in b && p !in c) {
      assert b[p] == a[p] + c[p];
      assert b[p] <= 1;
    }
  }

  /** The workspace that is left: well-formed, without the panes and the identifier of the tab. */
  lemma WithoutTabOk(m: MuxV, wi: nat, ti: nat)
    requires Inv(m) && wi < |m.workspaces| && ti < |m.workspaces[wi].tabs| && |m.workspaces[wi].tabs| > 1
    ensures var w, w' := m.workspaces[wi], WithoutTab(m, wi, ti).workspaces[wi];
      && WorkspaceOk(w') && WsIds(w') == WsIds(w)
      && WsPanes(w') + TabPanes(w.tabs[ti]) == WsPanes(w) && WsTabs(w') + TabIds(w.tabs[ti]) == WsTabs(w)
  {
    hide Bag;
    var w := m.workspaces[wi];
    var w' := WithoutTab(m, wi, ti).workspaces[wi];
    assert WorkspaceOk(w);
    BagRemove(TabPanes, w.tabs, ti);
    BagRemove(TabIds, w.tabs, ti);
    ClampKeepsActive(w.tabs, w.active, ti);
    forall i | 0 <= i < |w'.tabs| ensures TabOk(w'.tabs[i]) {
      assert w'.tabs[i] == w.tabs[if i < ti then i else i + 1];
    }
  }

  /** A state with fewer panes, tabs and workspaces and the same counters keeps the invariant. */
  lemma SmallerInv(m: MuxV, r: MuxV, panes: multiset<U32>, tabs: multiset<U32>, ids: multiset<U32>)
    requires Inv(m)
    requires r.nextPane == m.nextPane && r.nextTab == m.nextTab && r.nextWs == m.nextWs
    requires r.active < |r.workspaces| + (if r.workspaces == [] then 1 else 0)
    requires forall i :: 0 <= i < |r.workspaces| ==> WorkspaceOk(r.workspaces[i])
    requires AllPanes(r) + panes == AllPanes(m) && AllTabs(r) + tabs == AllTabs(m)
    requires AllWorkspaces(r) + ids == AllWorkspaces(m)
    ensures Inv(r)
  {
    hide WorkspaceOk, AllPanes, AllTabs, AllWorkspaces;
    SmallerBag(AllPanes(r), AllPanes(m), panes);
    SmallerBag(AllTabs(r), AllTabs(m), tabs);
    SmallerBag(AllWorkspaces(r), AllWorkspaces(m), ids);
  }

  lemma WithoutTabInv(m: MuxV, wi: nat, ti: nat)
    requires Inv(m) && wi < |m.workspaces| && ti < |m.workspaces[wi].tabs| && |m.workspaces[wi].tabs| > 1
    ensures Inv(WithoutTab(m, wi, ti))
    ensures AllPanes(WithoutTab(m, wi, ti)) + TabPanes(m.workspaces[wi].tabs[ti]) == AllPanes(m)
    ensures AllTabs(WithoutTab(m, wi, ti)) + TabIds(m.workspaces[wi].tabs[ti]) == AllTabs(m)
    ensures AllWorkspaces(WithoutTab(m, wi, ti)) == AllWorkspaces(m)
  {
    var t, r := m.workspaces[wi].tabs[ti], WithoutTab(m, wi, ti);
    hide WorkspaceOk, AllPanes, AllTabs, AllWorkspaces, TabPanes, TabIds, Dropped, ClampActive, NoRepeats;
    WithoutTabOk(m, wi, ti);
    WithoutTabBags(m, wi, ti, r.workspaces[wi]);
    forall i | 0 <= i < |r.workspaces| ensures WorkspaceOk(r.workspaces[i]) {
      if i != wi {
        assert r.workspaces[i] == m.workspaces[i];
      }
    }
    SmallerInv(m, r, TabPanes(t), TabIds(t), multiset{});
  }

  /** What replacing a workspace by one without tab `t` takes out of the whole. */
  lemma WithoutTabBags(m: MuxV, wi: nat, ti: nat, w': WorkspaceV)
    requires wi < |m.workspaces| && ti < |m.workspaces[wi].tabs|
    requires var w, t := m.workspaces[wi], m.workspaces[wi].tabs[ti];
      WsIds(w') == WsIds(w) && WsPanes(w') + TabPanes(t) == WsPanes(w) && WsTabs(w') + TabIds(t) == WsTabs(w)
    ensures var t, r := m.workspaces[wi].tabs[ti], m.(workspaces := m.workspaces[wi := w']);
      && AllPanes(r) + TabPanes(t) == AllPanes(m)
      && AllTabs(r) + TabIds(t) == AllTabs(m)
      && AllWorkspaces(r) == AllWorkspaces(m)
  {
    var w, t, r := m.workspaces[wi], m.workspaces[wi].tabs[ti], m.(workspaces := m.workspaces[wi := w']);
    hide Bag, WsPanes, WsTabs, WsIds, TabPanes, TabIds;
    BagUpdate(WsPanes, m.workspaces, wi, w');
    BagUpdate(WsTabs, m.workspaces, wi, w');
    BagUpdate(WsIds, m.workspaces, wi, w');
    Release(AllPanes(m), AllPanes(r), WsPanes(w), WsPanes(w'), TabPanes(t));
    Release(AllTabs(m), AllTabs(r), WsTabs(w), WsTabs(w'), TabIds(t));
    Cancel(AllWorkspaces(r), AllWorkspaces(m), WsIds(w));
  }

  lemma Release(a: multiset<U32>, a': multiset<U32>, w: multiset<U32>, w': multiset<U32>, t: multiset<U32>)
    requires a' + w == a + w' && w' + t == w
    ensures a' + t == a
  {
    forall p ensures (a' + t)[p] == a[p] {
      assert (a' + w)[p] == (a + w')[p];
      assert (w' + t)[p] == w[p];
    }
  }

  lemma {:induction false} MinusBag(ids: seq<PaneId>, t: PaneId)
    requires NoDup(ids)
    ensures multiset(Minus(ids, t)) + (if t in ids then multiset{t} else multiset{}) == multiset(ids)
  {
    if ids == [] {
    } else {
      assert ids == [ids[0]] + ids[1..];
      NoDupConcat([ids[0]], ids[1..]);
      assert ids[0] in [ids[0]];
      MinusBag(ids[1..], t);
      assert multiset(ids) == multiset{ids[0]} + multiset(ids[1..]);
      MinusBagStep(ids, t);
    }
  }

  lemma MinusBagStep(ids: seq<PaneId>, t: PaneId)
    requires ids != []
    ensures multiset(Minus(ids, t))
         == (if ids[0] == t then multiset{} else multiset{ids[0]}) + multiset(Minus(ids[1..], t))
  {
  }

  /** Closing a pane removes exactly that pane, whatever cascades. */
  lemma ClosePaneInv(m: MuxV, pane: PaneId)
    requires Inv(m)
    ensures var s := ClosePane(m, pane);
      && Inv(s.mux) && (s.result.Ok? <==> pane in AllPanes(m))
      && (s.result.Err? ==> s.mux == m && s.result == Err(PaneNotFound(pane)))
      && (s.result.Ok? ==> AllPanes(s.mux) + multiset{pane} == AllPanes(m))
  {
    hide Bag;
    TrackedIsHeld(m, pane);
    if Tracked(m, pane) {
      var wi := WorkspaceOf(m.workspaces, pane);
      var ti := TabOf(m.workspaces[wi].tabs, pane);
      var w := m.workspaces[wi];
      var t := w.tabs[ti];
      CloseGood(t.layout, pane);
      var s := CloseOp(t.layout, pane);
      match s.result.value {
        case Removed(hint) =>
          ClosePaneKeepsTab(m, wi, ti, pane, hint);
        case LastPane =>
          assert TabPanes(t) == multiset{pane};
          if |w.tabs| == 1 {
            WithoutWorkspaceInv(m, wi);
            assert w.tabs == [t];
            OneTabBags(t);
          } else {
            WithoutTabInv(m, wi, ti);
          }
      }
    }
  }

  lemma ClosePaneKeepsTab(m: MuxV, wi: nat, ti: nat, pane: PaneId, hint: PaneId)
    requires Inv(m) && wi < |m.workspaces| && ti < |m.workspaces[wi].tabs|
    requires pane in PaneIds(m.workspaces[wi].tabs[ti].layout)
    requires CloseOp(m.workspaces[wi].tabs[ti].layout, pane).result == Ok(Removed(hint))
    ensures
      var t := m.workspaces[wi].tabs[ti];
      var t' := t.(layout := CloseOp(t.layout, pane).tree, focused := if t.focused == pane then hint else t.focused);
      && Inv(WithTab(m, wi, ti, t')) && AllPanes(WithTab(m, wi, ti, t')) + multiset{pane} == AllPanes(m)
      && AllTabs(WithTab(m, wi, ti, t')) == AllTabs(m)
  {
    hide Bag;
    hide CloseOp;
    var t := m.workspaces[wi].tabs[ti];
    var s := CloseOp(t.layout, pane);
    var t' := t.(layout := s.tree, focused := if t.focused == pane then hint else t.focused);
    CloseGood(t.layout, pane);
    MinusBag(PaneIds(t.layout), pane);
    forall q ensures q in TabPanes(t') ==> q in TabPanes(t) {
      MinusMembers(PaneIds(t.layout), pane, q);
    }
    MinusMembers(PaneIds(t.layout), pane, t.focused);
    TabPanesBehind(m, wi, ti);
    WithTabInv(m, wi, ti, t');
    WithTabBags(m, wi, ti, t');
    var r := WithTab(m, wi, ti, t');
    assert TabPanes(t') + multiset{pane} == TabPanes(t);
    Release(AllPanes(m), AllPanes(r), TabPanes(t), TabPanes(t'), multiset{pane});
  }

  lemma CloseWorkspaceInv(m: MuxV, id: U32)
    requires Inv(m)
    ensures var (r, panes) := CloseWorkspace(m, id);
      && Inv(r) && (panes.None? ==> r == m) && (panes.Some? <==> id in AllWorkspaces(m))
      && (panes.Some? ==> AllPanes(r) + multiset(panes.value) == AllPanes(m))
  {
    hide Bag;
    var wi := WorkspaceWithId(m.workspaces, id);
    if wi < |m.workspaces| {
      WithoutWorkspaceInv(m, wi);
      TabPaneListBag(m.workspaces[wi].tabs);
      BagUpdate(WsIds, m.workspaces, wi, m.workspaces[wi]);
      assert id in WsIds(m.workspaces[wi]);
      assert WsIds(m.workspaces[wi])[id] <= AllWorkspaces(m)[id];
    } else {
      NoWorkspaceWithId(m.workspaces, id);
    }
  }

  lemma {:induction false} NoWorkspaceWithId(ws: seq<WorkspaceV>, id: U32)
    requires forall i :: 0 <= i < |ws| ==> ws[i].id != id
    ensures id !in Bag(WsIds, ws)
  {
    if ws == [] {
    } else {
      NoWorkspaceWithId(ws[1..], id);
    }
  }

  // ----- reordering -----

  function PutAt<T>(s: seq<T>, i: nat, x: T): seq<T>
    requires i <= |s|
  {
    s[..i] + [x] + s[i..]
  }

  function MinNat(a: nat, b: nat): nat {
    if a < b then a else b
  }

  /** Move a tab to `index`, clamped; the active tab keeps its identity. */
  function MoveTab(m: MuxV, id: U32, index: nat): (MuxV, bool) {
    var wi := WorkspaceWithTab(m.workspaces, id);
    if wi == |m.workspaces| then (m, false)
    else
      var w := m.workspaces[wi];
      var from := TabWithId(w.tabs, id);
      var to := MinNat(index, |w.tabs| - 1);
      if to == from || w.active >= |w.tabs| then (m, true)
      else
        var tabs := PutAt(Dropped(w.tabs, from), to, w.tabs[from]);
        var pos := TabWithId(tabs, w.tabs[w.active].id);
        (m.(workspaces := m.workspaces[wi := w.(tabs := tabs, active := if pos < |tabs| then pos else w.active)]), true)
  }

  /** What moving one element does to a list. */
  lemma MovedList<T>(s: seq<T>, from: nat, to: nat)
    requires from < |s| && to < |s|
    ensures var r := PutAt(Dropped(s, from), to, s[from]);
      |r| == |s| && r[to] == s[from] && Dropped(r, to) == Dropped(s, from)
  {
  }

  lemma MovedMultiset<T>(s: seq<T>, from: nat, to: nat)
    requires from < |s| && to < |s|
    ensures multiset(PutAt(Dropped(s, from), to, s[from])) == multiset(s)
  {
    var d := Dropped(s, from);
    assert s == s[..from] + ([s[from]] + s[from + 1..]);
    assert d == d[..to] + d[to..];
    var r := PutAt(d, to, s[from]);
    assert multiset(s) == multiset(s[..from]) + multiset{s[from]} + multiset(s[from + 1..]);
    assert multiset(r) == multiset(d[..to]) + multiset{s[from]} + multiset(d[to..]);
    assert multiset(d) == multiset(d[..to]) + multiset(d[to..]);
    assert multiset(d) == multiset(s[..from]) + multiset(s[from + 1..]);
    assert multiset(r) == multiset(d) + multiset{s[from]};
    assert multiset(s) == multiset(d) + multiset{s[from]};
  }

  lemma MovedBag<T>(f: T -> multiset<U32>, s: seq<T>, from: nat, to: nat)
    requires from < |s| && to < |s|
    ensures Bag(f, PutAt(Dropped(s, from), to, s[from])) == Bag(f, s)
  {
    hide Bag;
    hide PutAt;
    hide Dropped;
    var r := PutAt(Dropped(s, from), to, s[from]);
    MovedList(s, from, to);
    DroppedBag(f, s, from);
    DroppedBag(f, r, to);
  }

  lemma DroppedBag<T>(f: T -> multiset<U32>, s: seq<T>, i: nat)
    requires i < |s|
    ensures Bag(f, Dropped(s, i)) + f(s[i]) == Bag(f, s)
  {
    hide Bag;
    BagRemove(f, s, i);
  }

  /** What moving a tab promises about its workspace. */
  ghost predicate TabMoved(w: WorkspaceV, w': WorkspaceV, id: U32, index: nat)
    requires w.active < |w.tabs| && TabWithId(w.tabs, id) < |w.tabs|
  {
    var to := MinNat(index, |w.tabs| - 1);
    && |w'.tabs| == |w.tabs| && multiset(w'.tabs) == multiset(w.tabs)
    && w'.tabs[to].id == id
    && Dropped(w'.tabs, to) == Dropped(w.tabs, TabWithId(w.tabs, id))
    && w'.active < |w'.tabs| && w'.tabs[w'.active] == w.tabs[w.active]
  }

  /** Moving a tab permutes its workspace's tabs, puts the tab at the clamped
      index, keeps the others in order, and keeps the active tab active. */
  lemma MoveTabInv(m: MuxV, id: U32, index: nat)
    requires Inv(m)
    ensures var (r, ok) := MoveTab(m, id, index);
      var wi := WorkspaceWithTab(m.workspaces, id);
      && Inv(r) && AllPanes(r) == AllPanes(m) && AllTabs(r) == AllTabs(m) && AllWorkspaces(r) == AllWorkspaces(m)
      && (!ok ==> r == m) && (ok <==> wi < |m.workspaces|)
      && (ok ==> |r.workspaces| == |m.workspaces| && r.active == m.active
                 && r.workspaces == m.workspaces[wi := r.workspaces[wi]]
                 && r.workspaces[wi].id == m.workspaces[wi].id && WorkspaceOk(m.workspaces[wi])
                 && TabMoved(m.workspaces[wi], r.workspaces[wi], id, index))
  {
    hide Bag;
    hide PutAt;
    hide Dropped;
    var wi := WorkspaceWithTab(m.workspaces, id);
    if wi < |m.workspaces| {
      var w := m.workspaces[wi];
      var from, to := TabWithId(w.tabs, id), MinNat(index, |w.tabs| - 1);
      assert WorkspaceOk(w) && w.active < |w.tabs|;
      hide Inv, WorkspaceOk, AllPanes, AllTabs, AllWorkspaces;
      if from != to {
        MovedBag(TabPanes, w.tabs, from, to);
        MovedBag(TabIds, w.tabs, from, to);
        MovedMultiset(w.tabs, from, to);
        MovedList(w.tabs, from, to);
        MoveTabAt(m, wi, PutAt(Dropped(w.tabs, from), to, w.tabs[from]));
      }
    }
  }

  lemma TabIdsDistinct(m: MuxV, wi: nat, i: nat, j: nat)
    requires Inv(m) && wi < |m.workspaces| && i < |m.workspaces[wi].tabs| && j < |m.workspaces[wi].tabs|
    requires m.workspaces[wi].tabs[i].id == m.workspaces[wi].tabs[j].id
    ensures i == j
  {
    hide Bag;
    NoRepeatsIn(WsTabs, m.workspaces, wi);
    NotTwice(TabIds, m.workspaces[wi].tabs, i, j, m.workspaces[wi].tabs[i].id);
  }

  lemma WorkspaceIdsDistinct(m: MuxV, i: nat, j: nat)
    requires Inv(m) && i < |m.workspaces| && j < |m.workspaces| && m.workspaces[i].id == m.workspaces[j].id
    ensures i == j
  {
    hide Bag;
    NotTwice(WsIds, m.workspaces, i, j, m.workspaces[i].id);
  }

  /** A permutation of a workspace's tabs still lists the active tab, found by its identifier. */
  lemma ActiveTabFound(m: MuxV, wi: nat, tabs: seq<TabV>)
    requires Inv(m) && wi < |m.workspaces| && multiset(tabs) == multiset(m.workspaces[wi].tabs)
    ensures var w := m.workspaces[wi];
      && w.active < |w.tabs|
      && var pos := TabWithId(tabs, w.tabs[w.active].id);
      && pos < |tabs| && tabs[pos] == w.tabs[w.active]
  {
    hide Bag;
    var w := m.workspaces[wi];
    assert WorkspaceOk(w);
    var t := w.tabs[w.active];
    var pos := TabWithId(tabs, t.id);
    assert t in multiset(w.tabs);
    assert t in tabs;
    assert tabs[pos] in multiset(tabs);
    assert tabs[pos] in w.tabs;
    var j :| 0 <= j < |w.tabs| && w.tabs[j] == tabs[pos];
    TabIdsDistinct(m, wi, j, w.active);
  }

  /** Any permutation of a workspace's tabs that follows the active tab. */
  lemma MoveTabAt(m: MuxV, wi: nat, tabs: seq<TabV>)
    requires Inv(m) && wi < |m.workspaces| && |tabs| == |m.workspaces[wi].tabs|
    requires multiset(tabs) == multiset(m.workspaces[wi].tabs)
    requires Bag(TabPanes, tabs) == WsPanes(m.workspaces[wi]) && Bag(TabIds, tabs) == WsTabs(m.workspaces[wi])
    ensures
      var w := m.workspaces[wi];
      var pos := TabWithId(tabs, w.tabs[w.active].id);
      var r := m.(workspaces := m.workspaces[wi := w.(tabs := tabs, active := if pos < |tabs| then pos else w.active)]);
      && Inv(r) && AllPanes(r) == AllPanes(m) && AllTabs(r) == AllTabs(m) && AllWorkspaces(r) == AllWorkspaces(m)
      && pos < |tabs| && tabs[pos] == w.tabs[w.active]
  {
    hide Bag;
    var w := m.workspaces[wi];
    assert WorkspaceOk(w);
    ActiveTabFound(m, wi, tabs);
    hide TabWithId;
    var pos := TabWithId(tabs, w.tabs[w.active].id);
    var w' := w.(tabs := tabs, active := pos);
    forall i | 0 <= i < |tabs| ensures TabOk(tabs[i]) {
      assert tabs[i] in multiset(tabs);
      assert tabs[i] in w.tabs;
    }
    var r := m.(workspaces := m.workspaces[wi := w']);
    BagUpdate(WsPanes, m.workspaces, wi, w');
    BagUpdate(WsTabs, m.workspaces, wi, w');
    BagUpdate(WsIds, m.workspaces, wi, w');
    Cancel(AllPanes(r), AllPanes(m), WsPanes(w));
    Cancel(AllTabs(r), AllTabs(m), WsTabs(w));
    Cancel(AllWorkspaces(r), AllWorkspaces(m), WsIds(w));
  }
}
