/** The two suites of reactive/tree/tree_test.go, replayed on the model: a
    tree of five StaticComponents (root renders child_a and child_b, child_a
    renders child_a_a and child_a_b), built under one Recorder, and then
    child_a forcing an update through its StateController. */
module TreeScenarios {
  import opened Wrappers
  import opened Tree
  import opened TreeFacts
  import opened Controllers
  import opened TreeTest

  const ChildAA: Static := Static("child_a_a", [])
  const ChildAB: Static := Static("child_a_b", [])
  const ChildA: Static := Static("child_a", [Some(ChildAA), Some(ChildAB)])
  const ChildB: Static := Static("child_b", [])
  const RootComponent: Static := Static("root", [Some(ChildA), Some(ChildB)])

  /** The five components are pairwise distinct. */
  lemma Distinct()
    ensures RootComponent != ChildA && RootComponent != ChildB && RootComponent != ChildAA && RootComponent != ChildAB
    ensures ChildA != ChildB && ChildA != ChildAA && ChildA != ChildAB
    ensures ChildB != ChildAA && ChildB != ChildAB && ChildAA != ChildAB
  {
    assert |RootComponent.id| == 4 && |ChildA.id| == 7 && |ChildB.id| == 7 && |ChildAA.id| == 9 && |ChildAB.id| == 9;
    assert ChildA.id[6] != ChildB.id[6];
    assert ChildAA.id[8] != ChildAB.id[8];
  }

  lemma LeafPreorder<E>(s: Static)
    requires s.children == []
    ensures Preorder(StaticOracle<E>(), s) == [s]
  {
    var o := StaticOracle<E>();
    assert o.render(s) == Success([]);
    assert PreorderSlots(o, s, [], 0) == [];
  }

  lemma ChildAPreorder<E>()
    ensures Preorder(StaticOracle<E>(), ChildA) == [ChildA, ChildAA, ChildAB]
  {
    var o := StaticOracle<E>();
    var kids := ChildA.children;
    assert o.render(ChildA) == Success(kids);
    assert Below(o, kids, ChildA);
    LeafPreorder<E>(ChildAA);
    LeafPreorder<E>(ChildAB);
    assert PreorderSlots(o, ChildA, kids, 2) == [];
    assert PreorderSlots(o, ChildA, kids, 1) == [ChildAB];
  }

  lemma RootPreorder<E>()
    ensures Preorder(StaticOracle<E>(), RootComponent) == [RootComponent, ChildA, ChildAA, ChildAB, ChildB]
  {
    var o := StaticOracle<E>();
    var kids := RootComponent.children;
    assert o.render(RootComponent) == Success(kids);
    assert Below(o, kids, RootComponent);
    ChildAPreorder<E>();
    LeafPreorder<E>(ChildB);
    assert PreorderSlots(o, RootComponent, kids, 2) == [];
    assert PreorderSlots(o, RootComponent, kids, 1) == [ChildB];
  }

  /** The "Tree" suite: the Recorder is passed all five components (root
      first, then pre-order) and nothing else, and no component is asked
      whether to update.  The four components below the root are each told
      once that they were mounted; the root is never mounted, so the
      suite's expectation that the root too has a MountCall does not hold
      of the code. */
  lemma BelowCounts()
    ensures var below := multiset([ChildA, ChildAA, ChildAB, ChildB]);
      && below[RootComponent] == 0 && below[ChildA] == 1 && below[ChildB] == 1
      && below[ChildAA] == 1 && below[ChildAB] == 1
  {
    Distinct();
    var below := [ChildA, ChildAA, ChildAB, ChildB];
    assert multiset(below) == multiset{ChildA} + multiset{ChildAA} + multiset{ChildAB} + multiset{ChildB};
  }

  lemma BuildScenario<E>()
    ensures var b := NewNode(StaticOracle<E>(), RootComponent, 0);
      && Replay(Cleared(), b.trace) == Recorder([RootComponent, ChildA, ChildAA, ChildAB, ChildB], [], [])
      && (forall k :: 0 <= k < |b.trace| ==> !b.trace[k].ShouldUpdate?)
      && |LogOf(b.trace, RootComponent).mountCalls| == 0
      && |LogOf(b.trace, ChildA).mountCalls| == 1
      && |LogOf(b.trace, ChildB).mountCalls| == 1
      && |LogOf(b.trace, ChildAA).mountCalls| == 1
      && |LogOf(b.trace, ChildAB).mountCalls| == 1
  {
    RootPreorder<E>();
    StaticBuild<E>(RootComponent, 0);
    assert [RootComponent, ChildA, ChildAA, ChildAB, ChildB][1..] == [ChildA, ChildAA, ChildAB, ChildB];
    BelowCounts();
  }

  /** The root node of the built tree has children. */
  lemma BuildRootChildren<E>()
    ensures |NewNode(StaticOracle<E>(), RootComponent, 0).node.children| == 2
  {
    var o := StaticOracle<E>();
    FreshUpdate(o, RootComponent, 0, []);
    assert o.render(RootComponent) == Success(RootComponent.children);
  }

  lemma ChildACounts()
    ensures multiset(ChildA.children)[Some(ChildAA)] == 1
    ensures multiset(ChildA.children)[Some(ChildAB)] == 1
  {
    Distinct();
    assert multiset(ChildA.children) == multiset{Some(ChildAA)} + multiset{Some(ChildAB)};
  }

  /** child_a asks each of its two children about itself. */
  lemma ChildAAsks<E>()
    ensures SelfAsks<Static, E>(ChildA.children, 0) == [ShouldUpdate(ChildAA, ChildAA), ShouldUpdate(ChildAB, ChildAB)]
  {
    var kids := ChildA.children;
    assert SelfAsks<Static, E>(kids, 2) == [];
    assert SelfAsks<Static, E>(kids, 1) == [ShouldUpdate(ChildAB, ChildAB)];
  }

  /** What forcing child_a adds to the logs, whatever came before. */
  lemma ChildALogs<E>(history: seq<Event<Static, E>>)
    ensures var f: seq<Event<Static, E>> := [Map(0, ChildA), Render(ChildA), ShouldUpdate(ChildAA, ChildAA), ShouldUpdate(ChildAB, ChildAB)];
      && LogOf(history + f, ChildA).renderCalls == LogOf(history, ChildA).renderCalls + 1
      && LogOf(history + f, ChildAA).shouldUpdateCalls == LogOf(history, ChildAA).shouldUpdateCalls + [ChildAA]
      && LogOf(history + f, ChildAB).shouldUpdateCalls == LogOf(history, ChildAB).shouldUpdateCalls + [ChildAB]
  {
    var f: seq<Event<Static, E>> := [Map(0, ChildA), Render(ChildA), ShouldUpdate(ChildAA, ChildAA), ShouldUpdate(ChildAB, ChildAB)];
    ChildAAsks<E>();
    assert [Map(0, ChildA), Render(ChildA)] + SelfAsks<Static, E>(ChildA.children, 0) == f;
    ChildACounts();
    ForceUpdateLogs<E>(history, 0, ChildA, ChildAA);
    ForceUpdateLogs<E>(history, 0, ChildA, ChildAB);
    assert Copies(ChildAA, 1) == [ChildAA] && Copies(ChildAB, 1) == [ChildAB];
  }

  /** The "Tree Update" suite: forcing child_a to update re-renders it once
      and asks each of its two children, once each, whether to update; the
      tree is left as it was. */
  lemma ForceUpdateScenario<E>()
    ensures var o := StaticOracle<E>(); var b := NewNode(o, RootComponent, 0);
      var calls := LogOf(b.trace, ChildA).mountCalls;
      && calls != [] && ValidPath(b.node, calls[|calls| - 1]) && At(b.node, calls[|calls| - 1]).comp == Some(ChildA)
      && var f := ForceUpdate(o, b.node, b.trace, ChildA);
      && f.Success? && f.value.node == b.node
      && f.value.trace == [Map(0, ChildA), Render(ChildA), ShouldUpdate(ChildAA, ChildAA), ShouldUpdate(ChildAB, ChildAB)]
      && LogOf(b.trace + f.value.trace, ChildA).renderCalls == LogOf(b.trace, ChildA).renderCalls + 1
      && LogOf(b.trace + f.value.trace, ChildAA).shouldUpdateCalls == LogOf(b.trace, ChildAA).shouldUpdateCalls + [ChildAA]
      && LogOf(b.trace + f.value.trace, ChildAB).shouldUpdateCalls == LogOf(b.trace, ChildAB).shouldUpdateCalls + [ChildAB]
  {
    var b := NewNode(StaticOracle<E>(), RootComponent, 0);
    RootPreorder<E>();
    assert Preorder(StaticOracle<E>(), RootComponent)[1..] == [ChildA, ChildAA, ChildAB, ChildB];
    StaticForceUpdate<E>(RootComponent, 0, ChildA);
    ChildAAsks<E>();
    var f: seq<Event<Static, E>> := [Map(0, ChildA), Render(ChildA), ShouldUpdate(ChildAA, ChildAA), ShouldUpdate(ChildAB, ChildAB)];
    assert [Map(0, ChildA), Render(ChildA)] + SelfAsks<Static, E>(ChildA.children, 0) == f;
    ChildALogs<E>(b.trace);
  }
}
