# OakTerm layout, multiplexer and wire protocol: a verified model

This Dafny project models the core of OakTerm, a terminal emulator with a multiplexing daemon, and proves
what its parts promise.

- **Layout engine** (`Basics`, `Reals`, `Layout`, `Geometry`, `Borders`, `Edits`, `Splits`, `Closes`, `Resizes`,
  `LayoutOps`, `Tolerance`, `Effects`, `LayoutCode`). A tab is an n-ary weighted tree. Its meaning is the rectangle
  each pane gets in the unit square. The operations and the geometry queries are recursive functions over that tree,
  with their laws; `LayoutCode` holds the loops with cursors and paths as the code runs them, each proved equal to its
  function, and the class whose methods update a tab's tree. `Tolerance` has the validator's looser form of a valid
  tree and which operations keep it; `Effects` says what each operation means in rectangles, shares, focus and errors.
- **Multiplexer** (`Bags`, `Mux`, `Multiplexer`, `MuxEffects`, `MuxRuns`). Workspaces hold tabs, tabs hold trees.
  `Mux` has the state as a value with its invariant; `Multiplexer` has the objects, updated in place, which must look
  like that value at every method's end; `MuxEffects` says what each operation changes and what it leaves alone;
  `MuxRuns` has the statements about whole runs and about what stays in view. That two tabs never share an object is
  derived from their identifiers being unique.
- **Pane manager and copy-mode pins** (`PaneManager`, `Pins`). The daemon's pane map beside the multiplexer, and the
  protocol by which clients pin a viewport while output and resizes go on.
- **Wire protocol** (`Bytes`, `Frames`, `Render`, `Messages`, `WireCode`, `WireErrors`, `Wire`). The frame codec over
  a growing buffer, the nested payload codecs, and both together.
- **Glyph atlas** (`Atlas`). The least-recently-used cache over a rectangle allocator. The allocator is any policy,
  depending on everything that happened to it, that answers a request with a fresh box that fits or refuses. The run
  of an insertion is a function of that policy; the class performs it in place.
- **Key bindings** (`Keybind`, `Chords`, `Actions`). Parsing, printing, last-wins lookup and the hints of the action
  catalog.

Run `dafny verify dfyconfig.toml` in this directory to check everything.

Weights are exact reals. Conditions the code treats as a panic, the exhaustion of a 32-bit identifier space, are an
`Aborted` outcome. A branch the code marks as out of sync is a bare `assert false` here: the proof that it cannot
be reached. `hide` statements only narrow what the solver looks at.

Where the code and its own words differ, the model follows the code:

- The documentation of `flatten` says that the weight-sum bound is preserved by the operations. With the validator's
  tolerance a close can leave it (`Tolerance.ToleranceIsNotKept`), exactly when `Tolerance.CloseKeepsAcceptedIff` says
  so; splits, resizes and swaps always keep it, and with exact sums every operation does.
- `ScrollbackData` can be encoded with far more rows than its decoder accepts, and `SearchResults` uses the largest
  index both as an index and for "none". `Messages.ScrollbackRoundTrip` and `Messages.SearchRoundTrip` say exactly
  what comes back, `Messages.ScrollbackBeyondCap` and `Messages.SearchLosesLargestIndex` show messages that do not.
- A requeue that arrives after a client left copy mode leaves a pending entry behind (`Pins.LateRequeueLeavesStray`);
  over whole runs, exactly when `Pins.StrayIff` says so.
- Inserting a glyph that is still cached can leak its old allocation: under some sound allocator exactly when the
  texture has room for a second box of its size before the old one would be evicted (`Atlas.InsertLeaksIff`, with a
  leaking call in `Atlas.InsertTwice`), always when the glyph is in use and the call succeeds, and never when it is
  not cached (`Atlas.HeldAlwaysLeaks`, `Atlas.UncachedNeverLeaks`). The renderer looks the glyph up first, so a drawn
  frame never does (`Atlas.DrawFrame`). An insertion that fails has by then evicted everything not in use and grown
  the texture to its largest.

## Model

| member | source | states |
|---|---|---|
| `Layout.Contains` | crates/oakterm-mux/src/ops.rs:65-70 | a pane is found by the recursive search exactly when it occurs in the pane order |
| `LayoutCode.CollectPaneIds` | crates/oakterm-mux/src/layout.rs:134-149 | the accumulating traversal appends exactly the pane order to what was collected before |
| `LayoutCode.FlattenContainer` | crates/oakterm-mux/src/layout.rs:223-251 | the loop that pushes merged grandchildren one at a time builds the flattened tree |
| `Layout.FlattenIds` | crates/oakterm-mux/src/layout.rs:151-170 | flattening never reorders, drops or duplicates a pane, on any tree |
| `Layout.FlattenIdempotent` | crates/oakterm-mux/src/layout.rs:151-170 | flattening changes a tree if and only if the tree is not flat, so flattening twice is flattening once, on any tree |
| `Layout.FlattenFlat` | crates/oakterm-mux/src/layout.rs:151-170 | the result of flattening any tree has no single-child container and no same-direction nesting |
| `Layout.FlattenStructured` | crates/oakterm-mux/src/layout.rs:151-170 | on any tree without an empty container, whatever its weights, flattening restores both structural invariants: two children at least, and no nesting of one direction |
| `Layout.FlattenRules` | crates/oakterm-mux/src/layout.rs:223-251 | what one more child adds to a flattened container: its own children, each at its weight times the child's, when the directions agree, else the flattened child at its old weight; a single result takes the container's place |
| `Layout.FlattenCanonical` | crates/oakterm-mux/src/layout.rs:151-170 | positive weights that sum to one in every container flatten to a canonical tree over the same panes in the same order |
| `Geometry.FlattenRect` | crates/oakterm-mux/src/layout.rs:223-251 | meaning preservation: when every container sums to one, every pane has the same rectangle before and after flattening |
| `LayoutCode.Validate` | crates/oakterm-mux/src/layout.rs:183-220 | the validator loop reports the first violated invariant in its order: child count, weights left to right, sum, then children |
| `LayoutOps.CanonicalValidates` | crates/oakterm-mux/src/layout.rs:183-220 | every canonical tree passes the validator |
| `Tolerance.FirstViolationIs` | crates/oakterm-mux/src/layout.rs:183-220 | which violation is reported, in every case: child count, then weights from the left, then their sum outside 0.999 to 1.001, then the first bad child, a nested direction before anything inside it |
| `Tolerance.AcceptedIff` | crates/oakterm-mux/src/layout.rs:183-220 | the validator finds nothing exactly when every container has two children or more, positive weights, a sum within the tolerance and no child of its own direction |
| `Tolerance.OperationKeepsAcceptedIff` | crates/oakterm-mux/src/layout.rs:151-170 | on any tree the validator accepts, an operation, granted or refused, leaves one it accepts if and only if it is not a close that drifts out |
| `Tolerance.CloseKeepsAcceptedIff` | crates/oakterm-mux/src/layout.rs:151-170 | a close keeps the validator's verdict if and only if the pane is a child of the root, or its container keeps two panes, or its only sibling is a leaf, or the container above stays within the tolerance once that sibling's own sum is scaled in: all computed before the close |
| `Tolerance.SplitAccepted` | crates/oakterm-mux/src/ops.rs:190-222 | a split of a tree within the tolerance stays within it |
| `Tolerance.ResizeAccepted` | crates/oakterm-mux/src/ops.rs:306-333 | a resize of a tree within the tolerance stays within it |
| `Tolerance.SwapAccepted` | crates/oakterm-mux/src/ops.rs:348-363 | a swap in a tree within the tolerance stays within it |
| `Tolerance.ToleranceIsNotKept` | crates/oakterm-mux/src/layout.rs:207-209 | a concrete tree that passes the validator, and an accepted close of it, after which the validator reports a violation |
| `LayoutCode.FindRect` | crates/oakterm-mux/src/geometry.rs:365-398 | the running-offset search computes the denotation of a pane as a rectangle of the unit square |
| `Geometry.SlotEquation` | crates/oakterm-mux/src/geometry.rs:365-398 | the denotation spelled out in coordinates: children stand left to right or top to bottom, each over its weight's share of the side, and a lone pane has the whole square |
| `Geometry.RectInside` | crates/oakterm-mux/src/geometry.rs:356-398 | in a tree with valid weights every pane has a rectangle of positive size inside the unit square |
| `Geometry.RectsDisjoint` | crates/oakterm-mux/src/geometry.rs:365-398 | two different panes never overlap |
| `Geometry.AreasSumToOne` | crates/oakterm-mux/src/geometry.rs:365-398 | the areas of the panes add up to the whole square |
| `Geometry.ChildSpan` | crates/oakterm-mux/src/geometry.rs:365-398 | a pane stays within its child's slot along the container's direction, and reaches a side of the slot exactly when it reaches that side of its child |
| `Borders.TouchesEdgeIsGeometric` | crates/oakterm-mux/src/geometry.rs:325-354 | the structural edge test holds exactly when the pane's coordinate on that axis is 0 (leading) or 1 (trailing) |
| `Borders.MeetAcrossChildren` | crates/oakterm-mux/src/geometry.rs:154-158 | panes of different children meet along the container's direction exactly when the children are adjacent and both panes touch the shared edge; others never meet |
| `Borders.SharesBorderIsGeometric` | crates/oakterm-mux/src/geometry.rs:281-316 | in the container where two panes part ways the border is accepted exactly when their rectangles abut and overlap by more than the epsilon |
| `Borders.BorderIsGeometric` | crates/oakterm-mux/src/geometry.rs:118-165 | for any two panes of the whole tree: a border is accepted exactly when their rectangles abut along the lowest common container's direction and overlap across it by more than that container's epsilon |
| `Borders.BorderSymmetric` | crates/oakterm-mux/src/geometry.rs:126-165 | acceptance is symmetric in the two panes, with the two child slots exchanged |
| `Borders.BorderAtCommonPath` | crates/oakterm-mux/src/geometry.rs:109-116 | an accepted border is always at the lowest common container, with each pane's own child slot |
| `Borders.NoBorderWithItself` | crates/oakterm-mux/src/geometry.rs:145-149 | a pane never borders itself |
| `Borders.BorderExtentBounds` | crates/oakterm-mux/src/geometry.rs:15-32 | 0 < pane extent <= container extent <= 1 along the border container's axis |
| `LayoutCode.FindBorder` | crates/oakterm-mux/src/geometry.rs:126-165 | the descending loop with its cursor and path finds exactly the border the recursive definition finds, or none |
| `LayoutCode.BorderContainerExtent` | crates/oakterm-mux/src/geometry.rs:167-191 | the extent accumulated along the path is the container's extent in the whole tree |
| `LayoutCode.LayoutTree.BorderExtentsOf` | crates/oakterm-mux/src/geometry.rs:59-89 | on any tree, succeeds exactly when a border is shared; then gives the axis and both extents in whole-tree units, else the matching error |
| `LayoutCode.FindSplitSite` | crates/oakterm-mux/src/geometry.rs:206-236 | the loop finds the nearest same-direction container holding the target as a direct leaf, else the leaf itself |
| `LayoutCode.SplitPreviewIn` | crates/oakterm-mux/src/geometry.rs:250-279 | the preview read off at the located site is the recursive preview |
| `LayoutCode.LayoutTree.PreviewSplit` | crates/oakterm-mux/src/geometry.rs:97-106 | a preview for every pane of the tree, an error for any other, and the tree is left alone |
| `Splits.PreviewIsExact` | crates/oakterm-mux/src/geometry.rs:91-106 | the preview against the split it predicts, for every pane present before: target and listed siblings scale by the target fraction along the split axis, everything else keeps its rectangle |
| `Splits.PreviewOfNewcomer` | crates/oakterm-mux/src/geometry.rs:38-49 | the newcomer gets the predicted fraction of the target's old extent along the split axis and its full extent across |
| `Effects.PreviewLists` | crates/oakterm-mux/src/geometry.rs:38-49 | the listed siblings are the other panes of the target's container in pane order, and none when its place is halved |
| `LayoutCode.SplitIn` | crates/oakterm-mux/src/ops.rs:190-222 | writing at the located site, with scaling and insertion, is the recursive split, whose shares Effects.SplitShares gives |
| `LayoutCode.LayoutTree.Split` | crates/oakterm-mux/src/ops.rs:83-97 | new tree, result and error as specified; a good tree (canonical, unique panes) stays good |
| `LayoutOps.SplitGood` | crates/oakterm-mux/src/ops.rs:83-97 | accepted exactly when the target is present and the newcomer is not; adds exactly the newcomer; refused leaves the tree unchanged; the tree stays canonical with unique panes |
| `Effects.SplitShares` | crates/oakterm-mux/src/ops.rs:72-82 | the newcomer stands directly after the target in a container of the split's direction and holds one n-th of it; the n - 1 children there before keep n - 1 parts in n of their weights, or the two are a new pair, half and half |
| `Effects.NewcomerExtent` | crates/oakterm-mux/src/ops.rs:72-82 | in its container's square the newcomer spans one n-th along the split and all of it across |
| `Effects.SplitElsewhere` | crates/oakterm-mux/src/ops.rs:190-222 | a split moves no pane outside the target's container |
| `Splits.SplitIds` | crates/oakterm-mux/src/ops.rs:190-222 | the newcomer stands directly after the target in pane order and nothing else changes there |
| `Splits.SplitCanonical` | crates/oakterm-mux/src/ops.rs:190-222 | a split of a canonical tree is canonical, without a flattening pass |
| `Splits.NewcomerBordersTarget` | crates/oakterm-mux/src/ops.rs:72-82 | after either rule the newcomer sits directly after the target in a container of the split's direction |
| `LayoutCode.Renormalize` | crates/oakterm-mux/src/ops.rs:278-296 | the scaling loop, with the even fallback, computes the renormalised list |
| `LayoutCode.RemoveLeaf` | crates/oakterm-mux/src/ops.rs:245-276 | direct leaves first, then each container child in turn: finds the target exactly when present, removes it, and returns the hint computed from the neighbours before removal, which Effects.HintPrefersBefore pins down |
| `LayoutCode.LayoutTree.Close` | crates/oakterm-mux/src/ops.rs:105-131 | new tree, outcome and error as specified, including the last pane and the fallbacks on degenerate trees; a good tree stays good |
| `LayoutOps.CloseGood` | crates/oakterm-mux/src/ops.rs:105-131 | accepted exactly when the target is present; the last pane is reported exactly when it is alone; otherwise removes exactly the target and hints at a pane next to it |
| `Closes.CloseCanonical` | crates/oakterm-mux/src/ops.rs:99-131 | closing a pane of a canonical tree leaves a canonical tree |
| `Closes.CloseIds` | crates/oakterm-mux/src/ops.rs:249-276 | the pane order loses the target and nothing else |
| `Closes.HintAdjacent` | crates/oakterm-mux/src/ops.rs:255-263 | the focus hint always exists on a canonical tree and is adjacent to the closed pane in pane order |
| `Effects.HintPrefersBefore` | crates/oakterm-mux/src/ops.rs:255-263 | the hint is the pane directly before the closed one in pane order, or, when that one comes first in its container, the pane directly after it |
| `Effects.CloseHints` | crates/oakterm-mux/src/ops.rs:105-131 | what a close reports: the last pane exactly of a single leaf, else that hint; on a degenerate tree without one the first pane left, if any |
| `Closes.CloseSurvivors` | crates/oakterm-mux/src/ops.rs:249-296 | panes of the closed pane's container grow by exactly its freed share along that container's direction; every other pane keeps its rectangle exactly |
| `Closes.CloseNeverShrinks` | crates/oakterm-mux/src/ops.rs:99-131 | no surviving pane loses width or height |
| `Closes.SplitThenClose` | crates/oakterm-mux/src/ops.rs:83-131 | splitting and closing the newcomer restores the same tree, weights included, and hands focus back to the target, for both split rules |
| `LayoutCode.AdjustBorder` | crates/oakterm-mux/src/ops.rs:320-332 | clamping, moving the weight and renormalising computes the adjusted container; Resizes.AppliedIsFarthest says how much moves |
| `LayoutCode.LayoutTree.Resize` | crates/oakterm-mux/src/ops.rs:149-171 | new tree, result and error as specified, checked in the code's order; a good tree stays good |
| `LayoutOps.ResizeAcceptedIff` | crates/oakterm-mux/src/ops.rs:149-171 | accepted exactly when the floor is not negative and the two rectangles meet; not-adjacent is reported exactly when both panes exist and they do not |
| `LayoutOps.ResizeGood` | crates/oakterm-mux/src/ops.rs:149-171 | pane order is unchanged, a refusal changes nothing, and the tree stays canonical |
| `LayoutOps.ResizeConserves` | crates/oakterm-mux/src/ops.rs:133-148 | in the tree after an accepted resize the two siblings keep their combined weight, each has at least the lesser of its old weight and the floor, and no other weight and no subtree changed |
| `Resizes.AppliedIsFarthest` | crates/oakterm-mux/src/ops.rs:320-328 | the weight moved goes towards the requested delta and stops short of it only where the side giving way is at the floor; no side is taken below the floor that was not there already |
| `Resizes.FarthestIsUnique` | crates/oakterm-mux/src/ops.rs:320-328 | only one amount is as far as asked and allowed |
| `Effects.ResizeDrags` | crates/oakterm-mux/src/ops.rs:133-148 | in whole-tree coordinates the border goes by that amount of the container's extent towards the neighbour, so that a positive delta grows the pane and shrinks the neighbour along the border's axis, and nothing changes across it |
| `Effects.Refusals` | crates/oakterm-mux/src/ops.rs:83-187 | which error each operation reports and which panes it names, in the order of the checks |
| `Resizes.AppliedBounds` | crates/oakterm-mux/src/ops.rs:320-330 | the two weights' sum is conserved, each stays positive and at least the lesser of its old value and the floor, and the full delta applies when the floor allows |
| `Resizes.AdjustIsMove` | crates/oakterm-mux/src/ops.rs:329-331 | when the weights sum to one the final renormalisation is the identity, so exactly the two weights change |
| `Resizes.ResizeEffect` | crates/oakterm-mux/src/ops.rs:306-333 | effect on every pane: those under the two siblings stretch by the ratio of new to old weight along the axis, all others keep their rectangle |
| `Resizes.ResizeMovesBorder` | crates/oakterm-mux/src/ops.rs:133-148 | the shared border moves by exactly the applied weight times the container's extent, and the two panes still meet there |
| `Resizes.ResizeKeepsBorder` | crates/oakterm-mux/src/ops.rs:306-333 | the border survives its own resize, so it can be dragged again |
| `LayoutCode.LayoutTree.Swap` | crates/oakterm-mux/src/ops.rs:178-187 | new tree, result and error as specified; a good tree stays good |
| `LayoutOps.SwapGood` | crates/oakterm-mux/src/ops.rs:178-187 | accepted exactly when both panes are present; the same panes remain; the tree stays canonical; a refusal changes nothing |
| `Resizes.SwapExchangesRects` | crates/oakterm-mux/src/ops.rs:348-363 | the two panes trade rectangles and no other pane moves |
| `Resizes.SwapInvolution` | crates/oakterm-mux/src/ops.rs:348-363 | swapping twice restores the tree |
| `LayoutOps.ReachableTiles` | crates/oakterm-mux/src/ops.rs:4-8 | every tree reachable from one leaf by any sequence of operations, accepted or refused, is canonical, validates, has unique panes, and tiles the square: disjoint, inside, areas summing to one |
| `Mux.ClampKeepsActive` | crates/oakterm-mux/src/state.rs:203-211 | after removing any element the surviving active element stays active; a removed active element hands over to the next one, or the previous when it was last |
| `Multiplexer.ClampActiveAfterRemove` | crates/oakterm-mux/src/state.rs:203-211 | the index it returns stands, in the shortened list, for the element that was active, or, when that one was removed, for the next, or for the previous when it was last; in range unless nothing is left |
| `Multiplexer.Workspace.CloseTab` | crates/oakterm-mux/src/state.rs:265-277 | removes the tab of that identifier and clamps, or does nothing for an unknown one; reports exactly whether none is left |
| `Multiplexer.MultiplexerState.AllocatePaneId` | crates/oakterm-mux/src/state.rs:306-320 | hands out the counter and advances it; aborts at the last identifier |
| `Multiplexer.MultiplexerState.AllocateTabId` | crates/oakterm-mux/src/state.rs:329-336 | hands out the tab counter and advances it, or aborts at the last identifier; nothing else changes |
| `Multiplexer.MultiplexerState.AllocateWorkspaceId` | crates/oakterm-mux/src/state.rs:338-345 | hands out the workspace counter and advances it, or aborts at the last identifier; nothing else changes |
| `Multiplexer.MultiplexerState.Locate` | crates/oakterm-mux/src/state.rs:367-375 | finds the workspace and tab holding a pane exactly when some tab does |
| `Multiplexer.MultiplexerState.Seed` | crates/oakterm-mux/src/state.rs:459-475 | new state and result as specified, on objects; validity (invariant and agreement of objects with the value) is kept |
| `Multiplexer.MultiplexerState.NewTab` | crates/oakterm-mux/src/state.rs:480-495 | new state and result as specified; validity is kept |
| `Multiplexer.MultiplexerState.NewWorkspace` | crates/oakterm-mux/src/state.rs:499-511 | new state and result as specified; validity is kept |
| `Multiplexer.MultiplexerState.SplitPane` | crates/oakterm-mux/src/state.rs:409-430 | updates one tab's tree in place and nothing else; new state and result as specified; validity is kept |
| `Multiplexer.MultiplexerState.ResizePane` | crates/oakterm-mux/src/state.rs:431-447 | as above for a resize, whose effect MuxEffects.ResizePaneEffect gives |
| `Multiplexer.MultiplexerState.SwapPanes` | crates/oakterm-mux/src/state.rs:448-455 | as above for a swap |
| `Multiplexer.MultiplexerState.FocusPane` | crates/oakterm-mux/src/state.rs:513-528 | new state and result as specified; the branch in which the located tab lacks the pane is unreachable |
| `Multiplexer.MultiplexerState.ClosePane` | crates/oakterm-mux/src/state.rs:606-631 | the cascade from pane to tab to workspace, on objects, as specified; validity is kept |
| `Multiplexer.MultiplexerState.CloseWorkspace` | crates/oakterm-mux/src/state.rs:589-604 | collects every pane of the workspace and removes it, as specified; validity is kept |
| `Multiplexer.MultiplexerState.MoveTab` | crates/oakterm-mux/src/state.rs:559-587 | the remove, insert and re-find steps as specified; the branch in which the active tab vanished is unreachable |
| `Mux.SeedInv` | crates/oakterm-mux/src/state.rs:459-475 | happens only on the empty state, adds exactly the pane, and keeps the invariant even when it aborts |
| `Mux.NewTabInv` | crates/oakterm-mux/src/state.rs:480-495 | refused exactly when nothing exists or the pane is tracked; else adds exactly the pane, in view; invariant kept |
| `Mux.NewWorkspaceInv` | crates/oakterm-mux/src/state.rs:499-511 | refused exactly when the pane is tracked; else adds exactly the pane in a workspace that becomes active; invariant kept |
| `Mux.SplitPaneInv` | crates/oakterm-mux/src/state.rs:409-430 | accepted exactly when the target is tracked and the newcomer is not; adds exactly the newcomer to the panes; tabs and workspaces unchanged; invariant kept |
| `Mux.ResizePaneInv` | crates/oakterm-mux/src/state.rs:431-447 | panes, tabs, workspaces and counters unchanged; a refusal changes nothing; invariant kept |
| `Mux.SwapPanesInv` | crates/oakterm-mux/src/state.rs:448-455 | panes, tabs, workspaces and counters unchanged; a refusal changes nothing; invariant kept |
| `Mux.FocusPaneInv` | crates/oakterm-mux/src/state.rs:513-528 | succeeds exactly for a tracked pane, which is then the focused pane of the tab in view; membership unchanged; invariant kept |
| `Mux.ClosePaneInv` | crates/oakterm-mux/src/state.rs:606-631 | succeeds exactly for a tracked pane; whatever cascades, exactly that pane goes; invariant kept |
| `Mux.CloseWorkspaceInv` | crates/oakterm-mux/src/state.rs:589-604 | succeeds exactly for a known workspace; the panes returned and the panes left make up the panes before; invariant kept |
| `Mux.MoveTabInv` | crates/oakterm-mux/src/state.rs:559-587 | a permutation that puts the tab at min(index, len - 1), keeps the others in order and the active tab active; invariant kept |
| `MuxEffects.SplitPaneEffect` | crates/oakterm-mux/src/state.rs:409-430 | only the target's tab changes: the newcomer stands directly after the target in the split's direction with its fair share, panes outside that container do not move, and the focus stays |
| `MuxEffects.ResizePaneEffect` | crates/oakterm-mux/src/state.rs:431-447 | only the pane's tab changes: accepted exactly when the two rectangles meet and the floor is not negative; the border goes towards the neighbour, the pane gaining, as far as asked and allowed; errors name the panes as given |
| `MuxEffects.SwapPanesEffect` | crates/oakterm-mux/src/state.rs:448-455 | only that tab changes: the two panes trade rectangles and no other moves; across tabs it is refused |
| `MuxEffects.FocusPaneEffect` | crates/oakterm-mux/src/state.rs:513-528 | the pane's workspace and tab come to the front and the tab focuses it; nothing else changes |
| `MuxEffects.ClosePaneEffect` | crates/oakterm-mux/src/state.rs:606-631 | a tab with other panes loses just this one: its container's others share its place, panes elsewhere do not move, and a tab that focused it focuses the pane hinted at |
| `MuxEffects.CloseLastPaneEffect` | crates/oakterm-mux/src/state.rs:606-631 | a tab goes with its only pane and a workspace with its only tab, the others staying in order, and the result names what went |
| `MuxEffects.CloseWorkspaceEffect` | crates/oakterm-mux/src/state.rs:589-604 | the workspace goes, the others staying in order, and its panes are told tab by tab, each in pane order |
| `MuxEffects.NewTabEffect` | crates/oakterm-mux/src/state.rs:480-495 | the new tab goes last in the active workspace under the next identifier, the others staying in order; it aborts exactly at the last identifier |
| `MuxEffects.NewWorkspaceEffect` | crates/oakterm-mux/src/state.rs:459-511 | the new workspace, or the first one of all, goes last under the next identifiers, with one tab around the pane, and becomes active; it aborts exactly when one of the two identifier spaces is used up |
| `MuxEffects.CounterSteps` | crates/oakterm-mux/src/state.rs:306-327 | allocation takes one step; noting an external identifier moves the counter no further than just past it |
| `MuxRuns.EveryRun` | crates/oakterm-mux/src/state.rs:280-345 | after any sequence of operations: indices in range, nothing empty, all identifiers unique, each focused pane in its tab; the next identifier handed out was never handed out nor held before |
| `MuxRuns.ClosingElsewhereKeepsView` | crates/oakterm-mux/src/state.rs:606-631 | closing any pane but the focused one in view, however far it cascades, leaves active workspace, active tab and focused pane as they were |
| `MuxRuns.ClosingFocusMovesFocus` | crates/oakterm-mux/src/state.rs:159-167 | closing the focused pane in view keeps the tab while it has other panes, and focus moves to the pane before it, or after it when it came first in its container |
| `MuxRuns.ClosingLastPaneActivatesNeighbour` | crates/oakterm-mux/src/state.rs:203-211 | when the tab in view goes with its last pane the next tab, or the previous when it was last, comes into view; likewise for workspaces |
| `MuxRuns.ClosingOtherWorkspaceKeepsView` | crates/oakterm-mux/src/state.rs:589-604 | closing another workspace leaves the view unchanged |
| `MuxRuns.ClosingActiveWorkspaceShowsNeighbour` | crates/oakterm-mux/src/state.rs:589-604 | closing the workspace in view brings the next one into view, or the previous when it was last, with its own tab and focus; closing the only one leaves nothing |
| `MuxRuns.MovingTabKeepsView` | crates/oakterm-mux/src/state.rs:559-563 | reordering tabs, of any workspace, leaves the view unchanged |
| `MuxRuns.TabOperationsKeepView` | crates/oakterm-mux/src/state.rs:193-200 | split, resize and swap leave the view unchanged: focus follows the pane, not its place |
| `PaneManager.PaneManager.Create` | crates/oakterm-daemon/src/pane.rs:345-381 | the map gains exactly the fresh identifier and keeps every other pane's handle, the multiplexer is seeded or the focused pane split, and the two stay in step; every desync branch is unreachable |
| `PaneManager.PaneManager.SplitCreate` | crates/oakterm-daemon/src/pane.rs:383-413 | succeeds exactly when the target is in the map; then the new pane is split in, focused and entered; on error only the identifier counter moves; every other pane keeps its handle |
| `PaneManager.PaneManager.NewTabCreate` | crates/oakterm-daemon/src/pane.rs:415-443 | a new tab, or a seed of the empty state, around a fresh pane that ends up focused in view; map and multiplexer in step, every other pane's handle kept |
| `PaneManager.PaneManager.NewWorkspaceCreate` | crates/oakterm-daemon/src/pane.rs:450-474 | a new active workspace whose tab shows and focuses a fresh pane; map and multiplexer in step, every other pane's handle kept; the refusal branches are unreachable |
| `PaneManager.PaneManager.Focus` | crates/oakterm-daemon/src/pane.rs:752-763 | the map and the multiplexer never disagree on whether a pane can be focused |
| `PaneManager.PaneManager.SwitchWorkspace` | crates/oakterm-daemon/src/pane.rs:479-499 | only the active workspace changes, to the one of that identifier; its tab and focus are its own |
| `PaneManager.PaneManager.SwitchTab` | crates/oakterm-daemon/src/pane.rs:550-567 | succeeds exactly for a known tab, which comes into view with its own focused pane; nothing but the two active indices changes |
| `PaneManager.PaneManager.MoveTab` | crates/oakterm-daemon/src/pane.rs:583-587 | the multiplexer's move; the map is untouched |
| `PaneManager.PaneManager.ResizeLayout` | crates/oakterm-daemon/src/pane.rs:666-675 | the multiplexer's resize; the map is untouched |
| `PaneManager.PaneManager.SwapLayout` | crates/oakterm-daemon/src/pane.rs:677-679 | the multiplexer's swap; the map is untouched |
| `PaneManager.PaneManager.Remove` | crates/oakterm-daemon/src/pane.rs:694-717 | removes the pane from map and multiplexer together; the branch in which only one knows it is unreachable |
| `PaneManager.PaneManager.CloseWorkspace` | crates/oakterm-daemon/src/pane.rs:610-632 | removes every pane of the workspace from the map and returns each identifier with the very handle the map held; the count of missing panes is always zero |
| `PaneManager.ClosedPanesApart` | crates/oakterm-daemon/src/pane.rs:610-632 | the panes a closed workspace returns are pairwise different, all in the map, and exactly those no longer tracked |
| `Pins.PaneState.PinCopyMode` | crates/oakterm-daemon/src/pane.rs:131-154 | new state and answer as specified, which Pins.PinTakesBase spells out: refused outside the watermark and the history length, with the bounds and no change; else pinned at the base sent |
| `Pins.PaneState.InvalidatePinsAfterResize` | crates/oakterm-daemon/src/pane.rs:164-182 | the loop queues one push for every pin, drops all pins, moves the watermark, and counts them; nothing when no row was captured |
| `Pins.PaneState.TakePendingPinInvalidation` | crates/oakterm-daemon/src/pane.rs:184-198 | claims a queued push once, leaving the refusal in place |
| `Pins.PaneState.PinInvalidationPending` | crates/oakterm-daemon/src/pane.rs:156-162 | says whether the client's reads are refused; a client that is refused has no pin to read against |
| `Pins.PaneState.RequeuePinInvalidation` | crates/oakterm-daemon/src/pane.rs:200-208 | requeues unless the client is pinned again |
| `Pins.PaneState.UnpinCopyMode` | crates/oakterm-daemon/src/pane.rs:210-216 | drops pin and pending entry, telling whether there was a pin |
| `Pins.PaneState.CopyModeBase` | crates/oakterm-daemon/src/pane.rs:218-225 | a pinned client gets its own base, any other the end of history; either way a client that echoes the base at once is accepted |
| `Pins.PaneState.ResizeAll` | crates/oakterm-daemon/src/pane.rs:164-182 | a resize and its invalidation pass as the single step they are under the pane lock |
| `Pins.PinTakesBase` | crates/oakterm-daemon/src/pane.rs:131-154 | accepted exactly between watermark and history; the client is then pinned at the very base it sent and owed nothing, is told any base it replaced, and no other client is affected |
| `Pins.OwnStepsOnly` | crates/oakterm-daemon/src/pane.rs:184-216 | leaving settles everything; a claim is granted exactly while a push waits, once, and leaves the refusal; a requeue makes it wait again unless the client has a pin; no other client is affected |
| `Pins.ResizeTellsEveryPin` | crates/oakterm-daemon/src/pane.rs:164-198 | a capturing resize drops every pin, leaves each of those clients one push to claim, and makes every older base unacceptable; one that captures nothing changes nothing |
| `Pins.OutputScrolls` | crates/oakterm-daemon/src/pane.rs:123-129 | output moves the end of history, and with it what a client without a pin reads against, and nothing else |
| `Pins.EnteredHolds` | crates/oakterm-daemon/src/pane.rs:131-162 | after an accepted base, and until the client enters or leaves again, it reads against that base while no resize captures rows, and is refused afterwards |
| `Pins.StepPins` | crates/oakterm-daemon/src/pane.rs:137-225 | every step keeps watermark <= base <= history for every pin, and no client both pinned and pending |
| `Pins.StepClients` | crates/oakterm-daemon/src/pane.rs:137-225 | every step keeps each client that entered and has not exited either pinned or pending, and nobody else pinned |
| `Pins.StepClaims` | crates/oakterm-daemon/src/pane.rs:184-208 | every step keeps the count: a client's pushes claimed never exceed those queued for it |
| `Pins.RunOk` | crates/oakterm-daemon/src/pane.rs:137-225 | all three, so each client inside is in exactly one of the two maps, and what was published, hold after any interleaving of output, resizes and clients |
| `Pins.EchoAcceptedIff` | crates/oakterm-daemon/src/pane.rs:137-148 | a base published at any point of any run is accepted from any client exactly when no capturing resize has happened since; a refusal changes nothing |
| `Pins.PinHoldsOrRefuses` | crates/oakterm-daemon/src/pane.rs:156-162 | until it enters or exits again, a pinned client reads against the very base it pinned, while no resize captures rows, and is refused afterwards: never served from the live end |
| `Pins.RefusedStays` | crates/oakterm-daemon/src/pane.rs:95-102 | a pending refusal outlives its push until the client exits or enters again |
| `Pins.StrayOnlyByLateRequeue` | crates/oakterm-daemon/src/pane.rs:200-208 | a step leaves a pending entry for a client outside copy mode if and only if it requeues a push of a client that is outside |
| `Pins.StrayIff` | crates/oakterm-daemon/src/pane.rs:200-216 | after any run, a client outside copy mode has a pending entry if and only if the last requeue or exit of that client was a requeue |
| `Pins.LateRequeueLeavesStray` | crates/oakterm-daemon/src/pane.rs:200-208 | a concrete run that does so |
| `Frames.FrameCodec.Decode` | crates/oakterm-protocol/src/frame.rs:126-174 | agrees with the one-shot decoder on every buffer: takes the frame off the front, leaves an incomplete one, clears the buffer on bad data |
| `Frames.FrameCodec.Encode` | crates/oakterm-protocol/src/frame.rs:181-199 | appends the frame's encoding exactly when the payload is within the bound; else an error and no change |
| `Frames.DecodeIsExact` | crates/oakterm-protocol/src/frame.rs:68-115 | the one-shot decoder accepts the first n bytes as a frame if and only if they are the encoding of that frame and its payload is within the bound |
| `Frames.EncodingFields` | crates/oakterm-protocol/src/frame.rs:53-60 | which bytes of an encoding hold magic, flags, type, serial, payload length and payload |
| `Frames.FrameRoundTrip` | crates/oakterm-protocol/src/frame.rs:48-61 | encoding then decoding, with any bytes after it, gives the frame back if and only if the payload is within the bound |
| `Frames.DecodeIsStable` | crates/oakterm-protocol/src/frame.rs:68-115 | more bytes never change a verdict other than "incomplete" |
| `Frames.VerdictIff` | crates/oakterm-protocol/src/frame.rs:68-115 | the three verdicts by what the bytes could be: incomplete when no whole header or the proper start of some frame's encoding, a frame when they start with one, bad when neither |
| `Frames.NewFrameIs` | crates/oakterm-protocol/src/frame.rs:28-45 | a new frame carries no flags and what it was given, up to 16 MiB of payload, beyond which the input is called invalid |
| `Frames.DispatchIncoming` | crates/oakterm-daemon/src/server/mod.rs:408-418 | the decode loop hands on exactly the frames of the buffered bytes, in order, keeps the leftover, and closes exactly on bad data |
| `Frames.DrainThenMore` | crates/oakterm-protocol/src/frame.rs:126-174 | draining before or after more bytes arrive makes no difference |
| `Frames.FragmentationIndependent` | crates/oakterm-protocol/src/frame.rs:126-174 | for every byte stream and every way of cutting it into reads: the same frames, leftover and failure |
| `Frames.DrainIsExact` | crates/oakterm-protocol/src/frame.rs:126-174 | a stream delivers frames fs and keeps rest if and only if it is the encodings of fs, each within the bound, followed by an incomplete frame |
| `Frames.StreamRoundTrip` | crates/oakterm-protocol/src/frame.rs:122-199 | for any list of encodable frames and any cutting of their encodings: exactly that list, and an empty buffer |
| `Wire.FramedReply` | crates/oakterm-protocol/src/message.rs:1092-1094 | a search result, tab list or pane list wrapped as a response frame is encodable, carries its serial, and unwraps to the message, up to the one ambiguous index |
| `Wire.RepliesArriveAsSent` | crates/oakterm-protocol/src/message.rs:2637-2639 | replies framed and sent one after another are received whole, in order, with their serials, however the bytes are cut |
| `Bytes.FromLeOfLe` | crates/oakterm-protocol/src/frame.rs:56-58 | reading a little-endian integer of any width gives back what was written, when it fits the width |
| `Bytes.LeOfFromLe` | crates/oakterm-protocol/src/frame.rs:84-86 | every byte string of a width is the writing of the integer it reads as |
| `Bytes.LittleEndian` | crates/oakterm-protocol/src/frame.rs:56-58 | the bytes of 16, 32 and 64-bit integers are the digits of base 256, least significant first |
| `Bytes.TwosComplement` | crates/oakterm-protocol/src/message.rs:1307-1317 | signed integers travel as their two's complement |
| `Bytes.Utf8Iff` | crates/oakterm-protocol/src/message.rs:381-414 | bytes pass as a string exactly when they are the UTF-8 encoding of some Unicode scalar values |
| `Bytes.ManyExact` | crates/oakterm-protocol/src/render.rs:195-201 | if items decode exactly then a counted list of them does, both ways and with its exact length |
| `Bytes.ExactIsPrefixFree` | crates/oakterm-protocol/src/render.rs:109-148 | an exact codec gives each value one encoding, and no encoding is the start of another |
| `Bytes.ExactRejectsTruncation` | crates/oakterm-protocol/src/render.rs:109-148 | an exact decoder rejects every encoding cut short |
| `WireCode.DecodeEach` | crates/oakterm-protocol/src/render.rs:195-201 | the loop over an advancing offset decodes what the list definition does, and reports the offset reached |
| `WireCode.EncodeEach` | crates/oakterm-protocol/src/render.rs:174-176 | the appending loop writes what the list definition does after the given bytes, and stops at the first error |
| `Render.CellFields` | crates/oakterm-protocol/src/render.rs:93-106 | which bytes of an encoded cell hold which field |
| `Render.RowFields` | crates/oakterm-protocol/src/render.rs:171-180 | which bytes of an encoded row hold which field |
| `Render.UpdateFields` | crates/oakterm-protocol/src/render.rs:275-294 | which bytes of an encoded update hold which field |
| `Messages.PaneFields` | crates/oakterm-protocol/src/message.rs:1307-1317 | which bytes of encoded pane metadata hold which field |
| `Messages.TabsFields` | crates/oakterm-protocol/src/message.rs:2578-2587 | which bytes of an encoded tab list hold which field |
| `Messages.ScrollbackFields` | crates/oakterm-protocol/src/message.rs:742-752 | which bytes of encoded scrollback data hold which field |
| `Messages.SearchFields` | crates/oakterm-protocol/src/message.rs:1023-1036 | which bytes of an encoded search result hold which field |
| `Render.CellIsExact` | crates/oakterm-protocol/src/render.rs:83-149 | a cell decodes from k bytes if and only if those bytes are its encoding, whatever follows |
| `Render.RowIsExact` | crates/oakterm-protocol/src/render.rs:160-233 | likewise for a row with its nested cells and metadata |
| `WireCode.RowEncode` | crates/oakterm-protocol/src/render.rs:163-181 | the buffer-appending encoder, with both length checks first |
| `WireCode.RowDecode` | crates/oakterm-protocol/src/render.rs:185-232 | the offset-advancing decoder with its early returns |
| `Render.UpdateIsExact` | crates/oakterm-protocol/src/render.rs:299-351 | a buffer decodes to an update if and only if, flag bytes read as 0 or 1, it starts with the update's encoding |
| `Render.UpdateRoundTrip` | crates/oakterm-protocol/src/render.rs:268-351 | encoding then decoding, with any bytes after it, gives the update back whenever encoding succeeds |
| `Render.UpdateRejectsTruncation` | crates/oakterm-protocol/src/render.rs:299-351 | an update cut short anywhere is rejected, never read as another update |
| `WireCode.UpdateEncode` | crates/oakterm-protocol/src/render.rs:271-295 | the buffer-appending encoder |
| `WireCode.UpdateDecode` | crates/oakterm-protocol/src/render.rs:299-351 | the decoder with its row loop |
| `Messages.StrIsExact` | crates/oakterm-protocol/src/message.rs:381-414 | a string decodes at an offset if and only if its length-prefixed encoding stands there |
| `Messages.PaneIsExact` | crates/oakterm-protocol/src/message.rs:1295-1387 | pane metadata decodes from k bytes if and only if those bytes are its encoding, UTF-8 checks included |
| `Messages.PanesAreExact` | crates/oakterm-protocol/src/message.rs:1399-1431 | a buffer decodes to a pane list if and only if it starts with the list's encoding |
| `WireCode.PanesEncode` | crates/oakterm-protocol/src/message.rs:1399-1411 | the appending encoder |
| `WireCode.PanesDecode` | crates/oakterm-protocol/src/message.rs:1415-1431 | the decoder with its loop |
| `Messages.TabIsExact` | crates/oakterm-protocol/src/message.rs:2502-2548 | a tab entry decodes from k bytes if and only if those bytes are its encoding |
| `Messages.TabsAreExact` | crates/oakterm-protocol/src/message.rs:2567-2631 | a buffer decodes to a tab list if and only if it starts with the list's encoding |
| `WireCode.TabsEncode` | crates/oakterm-protocol/src/message.rs:2567-2588 | the appending encoder |
| `WireCode.TabsDecode` | crates/oakterm-protocol/src/message.rs:2592-2631 | the decoder with its loop |
| `Messages.ScrollbackIsExact` | crates/oakterm-protocol/src/message.rs:757-799 | a buffer decodes to scrollback data if and only if, its flag read as 0 or 1, it starts with the encoding and holds at most 10,000 rows |
| `Messages.ScrollbackRoundTrip` | crates/oakterm-protocol/src/message.rs:734-799 | an encoded message comes back if and only if it holds at most 10,000 rows |
| `Messages.ScrollbackBeyondCap` | crates/oakterm-protocol/src/message.rs:734-799 | ten thousand and one copies of any encodable row are encoded without complaint and rejected by the decoder |
| `Messages.EmptyRowsBeyondCap` | crates/oakterm-protocol/src/message.rs:734-799 | one such message: ten thousand and one empty rows |
| `WireCode.ScrollbackEncode` | crates/oakterm-protocol/src/message.rs:737-753 | the appending encoder |
| `WireCode.ScrollbackDecode` | crates/oakterm-protocol/src/message.rs:757-799 | the decoder with its cap and its loop |
| `Messages.SearchIsExact` | crates/oakterm-protocol/src/message.rs:1041-1086 | a buffer decodes to a search result if and only if, flags read as 0 or 1, it starts with the encoding and the active index is not the value standing for none |
| `Messages.SearchRoundTrip` | crates/oakterm-protocol/src/message.rs:1019-1086 | an encoded result comes back as it was, except that the one ambiguous index comes back as none |
| `Messages.SearchLosesLargestIndex` | crates/oakterm-protocol/src/message.rs:1019-1086 | a result whose active index is the largest one is encoded without complaint and comes back with none |
| `WireCode.SearchEncode` | crates/oakterm-protocol/src/message.rs:1019-1037 | the appending encoder |
| `WireCode.SearchDecode` | crates/oakterm-protocol/src/message.rs:1041-1086 | the decoder with its loop |
| `WireErrors.RowEncodesIff` | crates/oakterm-protocol/src/render.rs:163-181 | a row is encodable exactly when its counts and every cell's extra bytes fit 16 bits; else the input is called invalid |
| `WireErrors.UpdateEncodesIff` | crates/oakterm-protocol/src/render.rs:268-295 | an update is encodable exactly when its rows are and fit a 16-bit count; scrollback data likewise with 32 bits |
| `WireErrors.ListsEncodeIff` | crates/oakterm-protocol/src/message.rs:1399-1411 | pane lists, tab lists and search results are encodable exactly when every text and count fits 16 bits |
| `WireErrors.RejectedIsShort` | crates/oakterm-protocol/src/render.rs:299-351 | an update or search result that does not decode is cut short; scrollback data is bad exactly when it claims more than ten thousand rows |
| `WireErrors.StrVerdict` | crates/oakterm-protocol/src/message.rs:381-414 | a string is cut short, or complete and not UTF-8, or read |
| `WireErrors.PaneVerdict` | crates/oakterm-protocol/src/message.rs:1322-1387 | pane metadata is checked front to back: too short for the title, a bad title, too short for the directory, a bad directory, else read |
| `WireErrors.TabVerdict` | crates/oakterm-protocol/src/message.rs:2520-2631 | a tab entry and the head of a tab list are cut short, or have a bad name, or are read |
| `WireErrors.ManyInOrder` | crates/oakterm-protocol/src/render.rs:174-176 | the items of a list are written in its order |
| `WireErrors.TextsOnlyShort` | crates/oakterm-protocol/src/message.rs:1295-1431 | where all bytes are text, pane and tab lists can only be cut short |
| `Atlas.AtlasPlane.constructor` | crates/oakterm-renderer/src/atlas.rs:59-64 | an empty plane of the initial size in which nothing has leaked |
| `Atlas.AtlasPlane.WithSize` | crates/oakterm-renderer/src/atlas.rs:66-81 | an empty plane of that size in which nothing has leaked |
| `Atlas.AtlasPlane.Get` | crates/oakterm-renderer/src/atlas.rs:83-86 | finds a cached glyph, makes it most recently used, and loses, adds or moves nothing |
| `Atlas.AtlasPlane.Insert` | crates/oakterm-renderer/src/atlas.rs:88-151 | the result, the pops, the cache and the allocator are those of the one run the allocator's answers determine, and its outcome is feasible: pops from the least-recently-used end, holding back entries in use and freeing the others until the request fits; grows only when nothing more can be evicted; fails only at the largest size; for a size that can be asked for, frees or grows only right after a refusal |
| `Atlas.AtlasPlane.GrowAndRetry` | crates/oakterm-renderer/src/atlas.rs:191-227 | doubles up to the cap until the request fits, as the run does; terminates; changes no cached entry |
| `Atlas.AtlasPlane.Clear` | crates/oakterm-renderer/src/atlas.rs:181-189 | an empty plane of the same size over a fresh allocator |
| `Atlas.EvictedIsLruPrefix` | crates/oakterm-renderer/src/atlas.rs:112-138 | what is evicted is a prefix, in least-recently-used order, of all that may be evicted |
| `Atlas.PopsConserve` | crates/oakterm-renderer/src/atlas.rs:112-144 | every entry is either evicted or still cached with its region, once |
| `Atlas.HeldSurvive` | crates/oakterm-renderer/src/atlas.rs:115-118 | no entry in use is evicted |
| `Atlas.PopsKeepBacked` | crates/oakterm-renderer/src/atlas.rs:120-126 | freeing what was evicted leaves each remaining entry with a live allocation of its own |
| `Atlas.RegionsApart` | crates/oakterm-renderer/src/atlas.rs:15-25 | cached regions lie inside the texture and do not overlap |
| `Atlas.InsertLeaksIff` | crates/oakterm-renderer/src/atlas.rs:103-151 | from a plane in which nothing has leaked: some sound allocator makes an insertion leak if and only if the key is cached and, before it would itself be evicted, a second box of its size has room: beside what cannot be evicted by then, in the present texture, or in the largest when the key is in use; the same condition decides whether any feasible outcome leaks |
| `Atlas.UncachedNeverLeaks` | crates/oakterm-renderer/src/atlas.rs:103-151 | no feasible outcome of inserting a key that is not cached leaks |
| `Atlas.HeldAlwaysLeaks` | crates/oakterm-renderer/src/atlas.rs:103-151 | every feasible outcome that succeeds for a key cached and in use leaks |
| `Atlas.RunFeasible` | crates/oakterm-renderer/src/atlas.rs:88-227 | whatever sound allocator answers it, an insertion has a feasible outcome: one box granted or none, free of all that stayed, in a texture grown only once everything was popped, and refused only at the largest size |
| `Atlas.RunFrugal` | crates/oakterm-renderer/src/atlas.rs:88-151 | for a size that can be asked for, a run frees or grows only right after a refusal |
| `Atlas.RunDoubles` | crates/oakterm-renderer/src/atlas.rs:191-227 | the texture a run leaves had both sides doubled the same number of times, none past 4096 |
| `Atlas.PushedIsLast` | crates/oakterm-renderer/src/atlas.rs:83-110 | a promoted or inserted entry goes last, in place of the one for its key, the others keeping their order |
| `Atlas.OutcomeLeaksIff` | crates/oakterm-renderer/src/atlas.rs:103-151 | a given outcome leaks if and only if it succeeded and the key survived the pops |
| `Atlas.InsertTwice` | crates/oakterm-renderer/src/atlas.rs:88-151 | a new plane of the usual size on which inserting one glyph twice within a frame leaks |
| `Atlas.DrawGlyph` | crates/oakterm/src/render_grid.rs:554-630 | look-up, insert on a miss, mark in use: a cached glyph has its cached region, another one a new region of its size; none only without area or in a full-grown texture; no glyph in use moves, nothing leaks |
| `Atlas.DrawFrame` | crates/oakterm/src/render_grid.rs:545-722 | over a whole frame every region handed out stays cached, one key has one region, regions of different keys do not overlap, and a glyph goes without only if it has no area or the texture cannot grow |
| `Keybind.ParseChord` | crates/oakterm-config/src/keybind.rs:196-244 | the loop over the modifier parts computes the parsed chord or the first error |
| `Keybind.ModifiersIff` | crates/oakterm-config/src/keybind.rs:209-223 | modifier parts are accepted exactly when each is known, or the pseudo-modifier where available, and none repeats under any alias; only the pseudo-modifier may repeat |
| `Keybind.ModifiersSet` | crates/oakterm-config/src/keybind.rs:209-223 | the modifiers set are exactly those named, in whatever order, and the pseudo-modifier contributes its set exactly when it occurs |
| `Keybind.ApplyModifierIff` | crates/oakterm-config/src/keybind.rs:150-165 | one name is accepted exactly when it stands for a modifier not yet set, which is then added; otherwise the error says which of the two failed |
| `Keybind.ParseGivesTypable` | crates/oakterm-config/src/keybind.rs:196-244 | whatever parses is a named key, or a character other than plus, white space and capitals |
| `Chords.ParsesIff` | crates/oakterm-config/src/keybind.rs:196-244 | a text parses exactly when it is not blank, ends in a key, and its modifiers are known, available and not repeated; the chord has that key and the modifiers named, with those of the pseudo-modifier where it occurs |
| `Chords.ComplaintOrder` | crates/oakterm-config/src/keybind.rs:196-244 | which complaint comes first: blank text, a missing key, the first bad modifier from the left, then the key, and what each names |
| `Chords.KeyIs` | crates/oakterm-config/src/keybind.rs:224-236 | one character is that key in lower case; a longer text is a key only by name |
| `Chords.NamesAre` | crates/oakterm-config/src/keybind.rs:41-75 | no names but those listed are keys |
| `Chords.ArrowAliases` | crates/oakterm-config/src/keybind.rs:42-50 | the long names of the arrows are keys too |
| `Chords.ReturnAliases` | crates/oakterm-config/src/keybind.rs:42-61 | so are return and escape |
| `Chords.ShortAliases` | crates/oakterm-config/src/keybind.rs:42-61 | so are del and ins |
| `Chords.LabelSpelling` | crates/oakterm-config/src/keybind.rs:283-288 | how arrow keys are printed |
| `Chords.EditingLabels` | crates/oakterm-config/src/keybind.rs:283-297 | how the paging and typing keys are printed |
| `Chords.MoreLabels` | crates/oakterm-config/src/keybind.rs:283-312 | how the other named keys are printed |
| `Chords.SpaceIs` | crates/oakterm-config/src/keybind.rs:197 | which characters are white space |
| `Chords.HintSpelling` | crates/oakterm-config/src/keybind.rs:246-276 | a hint spells the modifiers in one fixed order, each with a plus sign, then the key |
| `Chords.TrimIs` | crates/oakterm-config/src/keybind.rs:197-208 | trimming takes white space off both ends and nothing else |
| `Chords.SplitIs` | crates/oakterm-config/src/keybind.rs:202-204 | the parts are what stands between the plus signs |
| `Keybind.LabelsReadBack` | crates/oakterm-config/src/keybind.rs:257-273 | the labels printed for any modifier set read back as that set, on either platform |
| `Keybind.NamedReadsBack` | crates/oakterm-config/src/keybind.rs:41-75 | every named key's label, lower-cased, reads back as that key |
| `Keybind.HintRoundTrip` | crates/oakterm-config/src/keybind.rs:246-276 | a printed hint parses back to its chord, in any context, if and only if the chord is one a user can type; a chord has no hint exactly when its key is physical |
| `Actions.LookupIsLastWins` | crates/oakterm-config/src/keybind.rs:408-428 | both lookups find the last registration for the chord |
| `Actions.EffectiveIsLastWins` | crates/oakterm-config/src/keybind.rs:596-607 | the effective bindings are exactly the last-wins map, one entry a chord |
| `Actions.EffectiveInOrder` | crates/oakterm-config/src/keybind.rs:596-607 | the effective bindings stand in the order of their registration |
| `Actions.KeybindRegistry.Register` | crates/oakterm-config/src/keybind.rs:546-549 | overrides earlier registrations of the chord and no other |
| `Actions.KeybindRegistry.RegisterLeader` | crates/oakterm-config/src/keybind.rs:551-555 | overrides earlier leader bindings of the chord and no other |
| `Actions.HintSource` | crates/oakterm-config/src/actions.rs:279-285 | the hint is that of the last effective binding of the action that has a label |
| `Actions.CatalogFocus` | crates/oakterm-config/src/actions.rs:286-322 | focus directions have a catalog entry each |
| `Actions.CatalogSplits` | crates/oakterm-config/src/actions.rs:286-322 | split directions share one entry for each axis |
| `Actions.CatalogPlainIds` | crates/oakterm-config/src/actions.rs:286-322 | which other actions have an entry, and that some have none |
| `Actions.TypingTheHintRunsTheAction` | crates/oakterm-config/src/actions.rs:275-321 | on any table the hint shown for an action is that of a chord the table resolves to the action, and typing it gives the chord, in any context, exactly when the chord is one a user can type; on a table filled by parsing it always runs the action |
| `Actions.NoHintIff` | crates/oakterm-config/src/actions.rs:275-285 | an action has no hint if and only if every chord that still runs it is a physical key |

## Left out

- LayoutOps.ReachableTiles: exact reals stand for 32-bit floats, so rounding, NaN and infinity are not modelled; of the invalid resize parameters only a negative floor remains.
- LayoutCode.LayoutTree.Resize: has no rejection of parameters that are not finite, since every real is.
- LayoutOps.ResizeAcceptedIff: a negative floor is the only invalid parameter left, since every real is finite.
- LayoutCode.Validate: has no non-finite weight to report.
- LayoutCode.LayoutTree.Split: the class holds its tree as a value and writes back a new one; updates through a mutable reference into the middle of the tree, and any aliasing they could cause, are not captured (likewise close, resize and swap).
- LayoutCode.SplitPreviewIn: asks for positive weights, because a zero weight divides by zero where floats give infinity.
- LayoutCode.LayoutTree.PreviewSplit: asks for positive weights, as the preview does.
- LayoutCode.LayoutTree.BorderExtentsOf: the fallback for a pane that vanished between two look-ups is not modelled.
- Closes.CloseNeverShrinks: asks, like the other laws about rectangles, for the canonical tree with unique panes that every run provides.
- Multiplexer.MultiplexerState.SplitPane: floating panes are not modelled, since no code fills the list; a tab's panes are those of its tree.
- Multiplexer.MultiplexerState.Seed: the default workspace name is not modelled.
- Multiplexer.MultiplexerState.NewWorkspace: names of tabs and workspaces, and renaming them, are not modelled.
- Multiplexer.MultiplexerState.AllocatePaneId: exhaustion of an identifier space is an aborted outcome; nothing is said about a process that goes on after the panic.
- PaneManager.PaneManager.Create: what a pane is made of besides its copy-mode state (terminal, process, command, directory, dimensions, titles) is not modelled.
- PaneManager.PaneManager.SplitCreate: the new pane's dimensions, command and directory are not modelled.
- PaneManager.PaneManager.NewTabCreate: the new pane's dimensions, command and directory are not modelled.
- PaneManager.PaneManager.NewWorkspaceCreate: the workspace's name and the new pane's dimensions, command and directory are not modelled.
- PaneManager.PaneManager.ResizeLayout: the conversion from cells to weights and the minimum-size check before a split belong to request handling, which is not part of this model.
- Pins.PaneState.ResizeAll: the history is a counter; the resize and its invalidation pass are one step because the caller holds the pane lock, which is itself not modelled.
- Frames.DispatchIncoming: collects the frames instead of handling them; handlers that end the connection early, shutdown, the handshake's size limit and the socket are left out.
- Frames.FragmentationIndependent: after bad data the connection takes no further bytes, as the server's loop closes it.
- Messages.StrIsExact: the text of error messages is left out; only the kind of error is kept.
- WireCode.RowDecode: nested items are decoded by their functions; the list loop that all messages share is written once.
- WireCode.UpdateEncode: grows a sequence instead of a preallocated vector.
- Atlas.AtlasPlane.WithSize: sizes above 4096 are excluded: growing would then shrink the texture.
- Atlas.AtlasPlane.Insert: the packing strategy of the allocator and the hash map inside the cache are left out; a policy with the allocator's contract and a sequence stand for them.
- Atlas.InsertTwice: shows its leak on one policy; the renderer never makes that pair of calls.
- Atlas.DrawGlyph: one plane; the routing of a glyph to one of two planes by its colour format is left out.
- Atlas.DrawFrame: one plane; rasterizing, uploads and the routing between the two planes are left out.
- Keybind.ParseChord: ASCII text; lower-casing and white space of other characters are not modelled.
- Keybind.ModifiersIff: ASCII text, as for ParseChord.
- Keybind.ModifiersSet: ASCII text, as for ParseChord.
- Keybind.ParseGivesTypable: ASCII text, as for ParseChord.
- Keybind.HintRoundTrip: ASCII text, as for ParseChord.
- Actions.TypingTheHintRunsTheAction: ASCII text; the default table itself is not written out.
- The remaining fixed-size messages, JSON layouts, session files, the ctl client, the search engine, accessibility identifiers, Lua configuration, fonts and the GUI are left out: plumbing, foreign calls, or more codecs of the same kind.
