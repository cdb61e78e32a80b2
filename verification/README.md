# A Dafny model of zemn.me's reactive tree and terminal canvas

This project models two parts of the `zemn.me` Go repository and proves
properties about them.

The first part is **the reconciler of `reactive/tree`**. A `Node` owns a
`Component`, an ordered array of child slots and a `Mapper`. `Update` works
in three steps:

1. It tells the Mapper the component was mapped.
2. It renders the component.
3. It checks that a node that has rendered before keeps the same number of
   children, then compares each slot's previous component with the newly
   rendered one.

Each slot then takes one of four cases:

- **nil to present**: the new component is mounted and updated.
- **present to present**: the new component is asked `ShouldUpdate(old)`, and
  its answer decides whether to update it.
- **nil to nil**: nothing happens.
- **present to nil**: the old component is closed and unmapped.

Errors are reported to the Mapper instead of being returned. A mounted
component receives a `StateController`, whose `Update` re-runs the
algorithm on its own slot.

The test doubles of `reactive/tree/treetest` are modelled on top of this:
the `Recorder` Mapper and the `StaticComponent`.

The second part is **the terminal side of `term`**:

- the test canvas of `term/termtest`: `NewCanvas`, `Buffer`, `Rect`,
  `SetCell`, and `Canvas(r)`, a sub-canvas view that shares the parent's
  cell array;
- the two components of `term/term.go`: `Fill` and `LoadingBar`.

Modelling choices:

- **Pure functions.** The reconciler is written as functions. Every run
  returns the new node together with the *trace* of calls it made: `Map`,
  `UnMap` and `Error` on the Mapper, and `Render`, `ShouldUpdate`, `Mount`
  and `Close` on components.
- **Components through an `Oracle`.** A component's behaviour is given by an
  `Oracle`: its `render` and `shouldUpdate` results, plus a rank that
  decreases from a component to the components it renders. That rank makes
  the recursion terminate exactly, without fuel.
- **StateController.** A controller is the absolute path of the slot it was
  created for. `Controllers.UpdateAt` is its `Update()`.
- **Test-double logs.** The Recorder's logs and a StaticComponent's logs are
  folds over the trace. A StaticComponent is the value
  `Static(id, children)`.
- **Shared arrays.** A canvas is a flat `base` array plus row slices, each an
  offset and a length into it. Sharing an array means having the same
  `base`. A write returns the new array.

Modules:

| file | module | models |
|---|---|---|
| `wrappers.dfy` | `Wrappers` | `Option` (nil-able values), `Result` (value or error) |
| `tree.dfy` | `Tree` | `Node`, the `update` switch and loop, `Update`, `NewNode`, `prepareChildren` |
| `tree_facts.dfy` | `TreeFacts` | what whole passes do: the first build, quiet re-renders, the error paths |
| `controllers.dfy` | `Controllers` | the `StateController`: slot paths, `Update()` in place, liveness of controllers |
| `treetest.dfy` | `TreeTest` | `Recorder`, `StaticComponent` and its call logs, `ForceUpdate` |
| `scenarios.dfy` | `TreeScenarios` | the two suites of `reactive/tree/tree_test.go` |
| `termbox.dfy`, `image.dfy` | `Termbox`, `Image` | `Cell` and `Attribute`; `Point`, `Rectangle` and `Rect` |
| `termtest.dfy` | `TermTest` | the test canvas |
| `term.dfy` | `Term` | `Fill.Render`, `LoadingBar.Render` |
| `term_scenarios.dfy` | `TermScenarios` | the suites of `term/term_test.go` and `term/termtest/termtest_test.go` |

### Where the code and its comments or tests disagree (the model follows the code)

- **The root is never mounted.** The package comment (reactive/tree/tree.go:42-44)
  says a component is mounted when it is passed to the Mapper, and the "Tree"
  suite (reactive/tree/tree_test.go:70-74) expects every one of its five
  components, the root included, to have been mounted. But `NewNode`
  (tree.go:107-114) calls `Update` and never `Mount`; only slot components
  are mounted (tree.go:248-250).
  - `TreeScenarios.BuildScenario` proves that the root has no mount calls.
  - `TreeFacts.BuildMountsPreorder` proves that every other component is
    mounted once per slot it occupies.
- **Map order is depth-first.** A mounted child is updated, including its
  whole subtree, before the next sibling is looked at (tree.go:170-256). The
  Map order is therefore a depth-first pre-order: root, child_a, child_a_a,
  child_a_b, child_b. The suite's list (tree_test.go:21-23) names them root,
  child_a, child_b, child_a_a, child_a_b, and it does not check Map order.
- **`ShouldUpdate` records the old component.** `ShouldUpdate` is called on
  the new component with the old one as its argument (tree.go:191). So
  `ShouldUpdateCall.NewComponent` (reactive/tree/treetest/treetest.go:36,71-74)
  records the *previous* component.
- **A slot emptied by present to nil keeps its old children.** The slot keeps
  its old `Children` and its rendered flag (tree.go:241-246). A later
  component in that slot inherits them: `Tree.SlotStep` states that the slot
  is emptied with everything else kept, and `TreeFacts.RefilledSlotArity`
  proves that a new component there which renders a different number of
  children fails its first update with an arity error.
- **A sub-canvas test writes out of range.** The second sub-canvas suite
  (term/termtest/termtest_test.go:87-111) writes every position of the
  300×400 parent through a 100×100 sub-canvas, with `x` in the outer loop and
  `y` in the inner one. The code would panic at the first such write, (0, 100),
  because the sub-canvas has no row 100, as `TermScenarios.SubCanvasEdge` shows.

## Model

| member | source | states |
|---|---|---|
| Tree.PrepareChildren | reactive/tree/tree.go:116-122 | every node gets the parent's Mapper and keeps its component, children and rendered flag |
| Tree.Classify | reactive/tree/tree.go:177-214 | the four cases of the switch are exactly the four nil/non-nil combinations, so the panicking default is unreachable |
| Tree.Decide | reactive/tree/tree.go:173-214 | only a slot whose component persists asks `ShouldUpdate(new, old)`, and only that can fail; mounted and unmounted are never both set; update iff mounted when either side is nil |
| Tree.SlotStep | reactive/tree/tree.go:170-256 | per case: nil→present mounts once with this slot as controller, before the child's Map and Render, and the slot becomes exactly the result of its own `Update` with the new component in place, whose calls are the nested ones; present→present asks ShouldUpdate, whose answer alone decides the recursion, and on a true answer the slot likewise becomes its own `Update` result with that `Update`'s calls nested and whose error stops the pass with the slot untouched, that question being the last call made and its error the one returned; nil→nil does nothing; present→nil calls Close then UnMap and empties the slot without recursing |
| Tree.DiffSlots | reactive/tree/tree.go:170-256 | after the loop, each slot holds the rendered component at its index; a ShouldUpdate error stops the loop at some slot k: the slots before k hold their new components, slot k and every later slot are as they were, the last call made is slot k's failing ShouldUpdate and its error is the one returned; slots beyond the rendered list are untouched (its calls on success are stated by `TreeFacts.RedoneSlots`) |
| Tree.Reconcile | reactive/tree/tree.go:129-260 | Map comes before Render; a failed Render or a changed child count leaves the node unchanged and returns the error; the slot array grows only on the first render; after success, slot i holds the i-th rendered component |
| Tree.Update | reactive/tree/tree.go:262-282 | adds exactly one Mapper Error naming the node's component when update fails, and none when it succeeds; every call goes to the node's Mapper |
| Tree.NewNode | reactive/tree/tree.go:104-114 | the new node holds the component and reports to the Mapper; the first calls are Map then Render of the root; all calls go to that Mapper |
| TreeFacts.FreshUpdate | reactive/tree/tree.go:104-114 | the first Update of a fresh node is exactly the reference build: the node built from each component's render, and its trace |
| TreeFacts.BuildMapsPreorder | reactive/tree/tree_test.go:32-44 | a first build passes every component of the tree to Map exactly once, in depth-first pre-order |
| TreeFacts.BuildMountsPreorder | reactive/tree/tree.go:248-250 | a first build mounts every component below the root once per slot, in pre-order, and never mounts the root |
| TreeFacts.BuiltSettled | reactive/tree/tree.go:158-168 | after a first build, every node whose render succeeds has rendered and its slots hold the rendered components |
| TreeFacts.QuietRerender | reactive/tree/tree.go:170-256 | when a node re-renders the components its slots already hold and each answers ShouldUpdate false, the tree is unchanged and the only calls are Map, Render and one ShouldUpdate per present slot |
| TreeFacts.RedoneSlots | reactive/tree/tree.go:170-256 | when no ShouldUpdate fails, the loop succeeds and its calls are, slot by slot, those of the slot's own case: nothing for nil→nil; Close then UnMap for present→nil, the slot emptied with its subtree kept; Mount with this slot as controller then the slot's own `Update` for nil→present; the question and, on a true answer only, the slot's own `Update` for present→present; each slot ends as that case leaves it |
| TreeFacts.Rerender | reactive/tree/tree.go:129-256 | when a node re-renders as many components as it has slots and no ShouldUpdate fails, the node keeps its component and Mapper, is marked rendered, each slot ends as its case leaves it, and the calls are Map, Render, then slot by slot the calls of that slot's case (Close and UnMap of a removed component, Mount and `Update` of an added one, the question and on a true answer the `Update` of a kept one) |
| TreeFacts.SelectiveRerender | reactive/tree/tree.go:186-254 | of two leaf children re-rendered by their parent, the one answering ShouldUpdate true is mapped and rendered once more and the one answering false is only asked |
| TreeFacts.EmptiedSlot | reactive/tree/tree.go:170-244 | a parent that rendered two leaves and now renders the first and nothing asks the first, then closes and unmaps the second in that order, and the second slot keeps the old node with its component removed |
| TreeFacts.RefilledSlot | reactive/tree/tree.go:170-256 | a leaf rendered into an emptied slot is mounted with that slot as its controller, then mapped and rendered |
| TreeFacts.ArityViolationReported | reactive/tree/tree.go:143-156 | a node that rendered before and now renders a different number of children is left unchanged, and exactly one error naming the old and new counts reaches the Mapper |
| TreeFacts.RefilledSlotArity | reactive/tree/tree.go:241-256 | a slot emptied by present→nil keeps its rendered children, so a component that later fills it and renders a different number of children is mounted and then fails its first update with an arity error against the old count |
| TreeFacts.ShouldUpdateFailureReported | reactive/tree/tree.go:186-194 | when update fails on a ShouldUpdate error, the pass stopped at a slot k of the node's own slots whose new component's ShouldUpdate about the old one failed; earlier slots hold their new components, slot k and later ones are unchanged, and the last two calls are that ShouldUpdate and the one Mapper Error carrying its error |
| TreeFacts.RenderFailureReported | reactive/tree/tree.go:137-141 | a failing Render leaves the node unchanged and reports exactly one Error after Map and Render |
| Controllers.ReplaceAtFrames | reactive/tree/tree.go:246-253 | updating one slot in place leaves every slot off its branch unchanged |
| Controllers.SettledAt | reactive/tree/tree.go:158-168 | every subtree of a settled tree is settled |
| Controllers.UpdateAt | reactive/tree/tree.go:262-286 | a controller's Update re-runs `Update` on the node in the slot it names: that slot becomes exactly the node `Update` returns, its calls are exactly `Update`'s calls, starting with Map of the slot's component; the slot keeps its component; the root keeps its own component and rendered flag; slots off its branch are unchanged; calls go to the root's Mapper |
| Controllers.UpdateControllersLive | reactive/tree/tree.go:248-250 | after an Update, every controller handed to Mount during it names a slot that exists and holds the mounted component |
| TreeTest.Recorder.Map | reactive/tree/treetest/treetest.go:25-29 | appends the component to Components and changes nothing else |
| TreeTest.Recorder.UnMap | reactive/tree/treetest/treetest.go:24 | appends the component to ClosedComponents and changes nothing else |
| TreeTest.Recorder.Error | reactive/tree/treetest/treetest.go:30-32 | appends {component, error} to Errors and changes nothing else |
| TreeTest.Cleared | reactive/tree/treetest/treetest.go:22 | the cleared Recorder has three empty logs |
| TreeTest.ReplayLogs | reactive/tree/treetest/treetest.go:16-32 | a Recorder used as Mapper holds exactly the components passed to Map, UnMap and Error, in call order, after what it held before |
| TreeTest.StaticOracle | reactive/tree/treetest/treetest.go:71-78 | Render returns the fixed Children and never fails; ShouldUpdate answers false without error; render ranks decrease, so updates terminate |
| TreeTest.Note | reactive/tree/treetest/treetest.go:63-78 | Mount, Close, ShouldUpdate and Render on a component each append one record to that component's own log; other calls leave it alone |
| TreeTest.LogFromMounts | reactive/tree/treetest/treetest.go:63-65 | a component's MountCalls become the old records followed by the controllers of the Mount calls on it, in call order (`ControllersOf`): one new entry per such call, each a controller some Mount of it was given |
| TreeTest.ForceUpdate | reactive/tree/treetest/treetest.go:47-59 | fails with NeverMounted exactly when there is no mount record; otherwise runs the most recent controller's Update, which keeps that slot's component |
| TreeTest.ForceUpdateRuns | reactive/tree/treetest/treetest.go:47-59 | a forced update that goes ahead is the controller Update of the most recent MountCall: that slot becomes what its `Update` makes of it, those are all the calls made, and every slot off its branch is unchanged |
| TreeTest.StaticBuild | reactive/tree/tree_test.go:14-83 | building any static tree: the Recorder gets every component in pre-order, with no unmap and no error; no ShouldUpdate and no Close happen; each component is mounted once per slot it occupies below the root |
| TreeTest.StaticForceUpdate | reactive/tree/tree_test.go:107-121 | forcing an update of any component below the root of a built static tree re-renders it, asks each present child once, and leaves the tree unchanged |
| TreeTest.ForceUpdateLogs | reactive/tree/tree_test.go:123-138 | a forced update adds one RenderCall to the component, and to each child one ShouldUpdateCall per slot it occupies |
| TreeScenarios.BuildScenario | reactive/tree/tree_test.go:14-83 | the five-component tree: the Recorder holds root, child_a, child_a_a, child_a_b, child_b and nothing else; nobody is asked ShouldUpdate; the four non-root components are mounted once; the root is never mounted |
| TreeScenarios.BuildRootChildren | reactive/tree/tree_test.go:46-52 | the built root node has two children |
| TreeScenarios.ForceUpdateScenario | reactive/tree/tree_test.go:85-140 | forcing child_a through its controller leaves the tree as it was, re-renders child_a once, and asks child_a_a and child_a_b one more ShouldUpdate each |
| TermTest.NewCanvas | term/termtest/termtest.go:10-25 | a zeroed width×height array cut into height rows of width cells, row y starting at y·width |
| TermTest.GridCells | term/termtest/termtest.go:16-22 | in that layout, distinct cells are distinct array slots and every slot is a cell |
| TermTest.Buffer | term/termtest/termtest.go:45 | row y, column x of the buffer is the cell at (x, y) |
| TermTest.Bounds | term/termtest/termtest.go:47-52 | the rectangle from the origin to (Width, Height), so Dx is Width and Dy is Height |
| TermTest.SetCell | term/termtest/termtest.go:54-56 | writes the one array slot that cell (x, y) shows and leaves every other slot unchanged |
| TermTest.SetCellOnGrid | term/termtest/termtest.go:54-56 | on a NewCanvas layout, SetCell changes the cell at pos and no other cell |
| TermTest.SubCanvas | term/termtest/termtest.go:58-72 | shares the parent's array; is Dx×Dy; holds exactly the points inside the region's size; its cell p is the parent's cell at Min+p |
| TermTest.WriteThroughSubCanvas | term/termtest/termtest.go:58-72 | a write through a sub-canvas changes exactly the parent cell at the offset position |
| Term.Paint | term/term.go:56-64 | every cell of the canvas holds the fill cell and every array slot outside its rows is unchanged |
| Term.FillRender | term/term.go:56-64 | the row-by-row loop paints exactly what Paint describes; every cell becomes the fill cell; no children and no error |
| Term.FillCoversGrid | term/term_test.go:43-50 | filling a NewCanvas layout sets every slot of its array |
| Term.Split | term/term.go:33-36 | the loaded column count k satisfies k·den ≤ width·num < (k+1)·den, so it is the truncated product and lies between 0 and width |
| Term.BarRender | term/term.go:32-54 | two children and no error: the left k columns to a Fill of the fill rune, the rest to a Fill of the empty rune, both on attributes 0, both over the parent's array |
| Term.Loaded | term/term.go:33-36 | the full-height view left of column k holds exactly the parent's cells with x < k, at the same slots |
| Term.Unloaded | term/term.go:43-46 | the full-height view from column k holds exactly the parent's cells with x ≥ k, shifted left by k |
| Term.BarPartition | term/term.go:32-54 | each cell of the parent is held by exactly one of the two children |
| Term.BarPaints | term/term.go:32-64 | rendering both children in order leaves the fill rune left of the cut and the empty rune everywhere else |
| TermScenarios.NewCanvasScenario | term/termtest/termtest_test.go:13-40 | a 10×20 canvas has 200 cells in 20 rows of 10, and its buffer has the same shape |
| TermScenarios.SubCanvasScenario | term/termtest/termtest_test.go:64-85 | a 100×100 region moved to (100, 100) of a 300×400 canvas has Dx and Dy 100 |
| TermScenarios.SubCanvasEdge | term/termtest/termtest_test.go:87-111 | that sub-canvas holds (99, 99) but not column 100 or row 100 |
| TermScenarios.HalfBarScenario | term/term_test.go:17-24 | a half-done bar on a 2×2 canvas renders two one-column children and no error |
| TermScenarios.FillScenario | term/term_test.go:43-50 | filling a 20×30 canvas with the test cell sets its whole array |

## Left out

- `debug.Log` and `debug.Assert` calls, and `Component.Name`: logging and
  naming have no effect on the tree.
- Error message texts. An error is modelled by its cause: `RenderFailed`,
  `ArityChanged(had, now)` or `ShouldUpdateFailed`. This also leaves out the
  text `ForceUpdate` formats with `%[0]s`, which yields Go's bad-index marker
  instead of the id.
- Concurrency. A StateController called from another goroutine is modelled
  as a sequential `Controllers.UpdateAt`. The source has no locking.
- Components whose state changes between calls. A component's answers come
  from a fixed `Oracle`; a component that changes is modelled by running the
  next pass with a different oracle.
- `Mount` re-entering `Update` synchronously: a mount only appends to the
  trace.
- `UnMap` receives the slot's `Node` in Go. It is modelled as receiving the
  component that node held.
- `StaticComponent.Clear`: it is not used by the reconciler or its suites.
- `reactive/reactive.go`, `term/reactive`, `term/demo`, `progress`, `debug`:
  outside the modelled core.
- Go's `image.Rect` is modelled from its documented behaviour, because the
  standard library's source is not part of this model.
- TermTest.NewCanvas: negative sizes are not modelled. Go's `make` panics
  only when `width*height` is negative, that is when one size is negative and
  the other is not zero. When the product is zero or positive the array is
  allocated, but the row loop runs zero times: the canvas has no rows and
  keeps its negative `Width` or `Height`.
- TermTest.SubCanvas: only regions inside the parent's rows are modelled. Go
  slices against a row's capacity, so some regions that reach past a row's
  end are accepted there and show cells of later rows.
- Term.Split: the product `float64(width) * Progress` is taken exactly, as a
  fraction `num / den`. Floating-point rounding of progress values that are
  not exact in binary is not modelled.
- Term.BarRender: progress outside [0, 1] is not modelled. There Go panics on
  a negative column or slices past the row's length.
- TreeTest.ForceUpdate: it requires that the last controller names a slot
  holding a component. On an empty slot Go panics at the first line of
  `update` (reactive/tree/tree.go:130): the arguments of the no-op
  `debug.Log` are still evaluated, and `n.Component.Name()` dereferences the
  nil component before `Map` is called. That panic is not modelled.
- TreeTest.StaticBuild: a StaticComponent is a value here, so two components
  with equal `Id` and `Children` are one component and share one log of
  mounts and `ForceUpdate` runs. In Go each `*StaticComponent` keeps its own
  log, and the identity checks compare pointers. The same holds for
  `TreeTest.ForceUpdateLogs`.
- Cyclic render graphs. `Tree.WellFounded` asks for a rank that falls from a
  component to every component it renders, so graphs with a cycle (a
  component that renders itself or one of its ancestors) are left out. On
  those Go's
  first build recurses without end through the child updates at
  reactive/tree/tree.go:252-254.
- The suite at term/termtest/termtest_test.go:47-62, which writes every cell
  of a 300×400 canvas one by one, is not replayed cell by cell.
  `TermTest.GridCells` and `TermTest.SetCellOnGrid` give the facts it relies
  on.
