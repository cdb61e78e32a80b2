/** Whole-pass properties of the reconciler of reactive/tree/tree.go: what the
    first `Update` of a fresh node does (compared against an independent
    pre-order reference), and what a re-render that changes nothing does. */
module TreeFacts {
  import opened Wrappers
  import opened Tree

  /** The calls a first build of `c` makes, written without nodes or diffing:
      Map and Render of `c`, then for every present child, left to right, its
      Mount (controller: its slot) followed by its own build. */
  function BuildTrace<C(!new), E>(o: Oracle<C, E>, c: C, m: MapperId, at: Path): (t: seq<Event<C, E>>)
    requires WellFounded(o)
    decreases o.rank(c), 1, 0
    ensures |t| >= 2 && t[0] == Map(m, c) && t[1] == Render(c)
    ensures forall k :: 0 <= k < |t| ==> BuildOnly(t[k], m)
    ensures forall k :: 0 <= k < |t| && t[k].Mount? ==> o.rank(t[k].c) < o.rank(c)
    ensures forall k :: 0 <= k < |t| && t[k].Error? ==> o.render(t[k].c).Failure?
  {
    [Map(m, c), Render(c)] +
    match o.render(c)
    case Failure(e) => [Error(m, c, RenderFailed(e))]
    case Success(kids) => BuildSlots(o, c, m, kids, 0, at)
  }

  function BuildSlots<C(!new), E>(o: Oracle<C, E>, c: C, m: MapperId, kids: seq<Option<C>>, i: nat, at: Path)
    : (t: seq<Event<C, E>>)
    requires WellFounded(o) && Below(o, kids, c) && i <= |kids|
    decreases o.rank(c), 0, |kids| - i
    ensures forall k :: 0 <= k < |t| ==> BuildOnly(t[k], m)
    ensures forall k :: 0 <= k < |t| && t[k].Mount? ==> o.rank(t[k].c) < o.rank(c)
    ensures forall k :: 0 <= k < |t| && t[k].Error? ==> o.render(t[k].c).Failure?
  {
    if i == |kids| then []
    else
      (if kids[i].Some? then [Mount(kids[i].value, at + [i])] + BuildTrace(o, kids[i].value, m, at + [i]) else [])
      + BuildSlots(o, c, m, kids, i + 1, at)
  }

  /** A first build only maps, renders, mounts and reports render errors, all
      to mapper `m`: it never asks ShouldUpdate, never closes, never unmaps. */
  predicate BuildOnly<C, E>(e: Event<C, E>, m: MapperId) {
    match e
    case Map(m', _) => m' == m
    case Render(_) => true
    case Mount(_, _) => true
    case Error(m', _, f) => m' == m && f.RenderFailed?
    case _ => false
  }

  /** The tree a first build leaves behind. */
  function Built<C(!new), E>(o: Oracle<C, E>, c: C, m: MapperId): Node<C>
    requires WellFounded(o)
    decreases o.rank(c), 1
  {
    match o.render(c)
    case Failure(_) => Fresh(c, m)
    case Success(kids) => Node(Some(c), BuiltSlots(o, c, m, kids, 0), Some(m), true)
  }

  function BuiltSlots<C(!new), E>(o: Oracle<C, E>, c: C, m: MapperId, kids: seq<Option<C>>, i: nat): (r: seq<Node<C>>)
    requires WellFounded(o) && Below(o, kids, c) && i <= |kids|
    decreases o.rank(c), 0, |kids| - i
    ensures |r| == |kids| - i
  {
    if i == |kids| then []
    else [if kids[i].Some? then Built(o, kids[i].value, m) else Vacant(m)] + BuiltSlots(o, c, m, kids, i + 1)
  }

  /** The first `Update` of a fresh node is exactly the reference build. */
  lemma {:induction false} FreshUpdate<C(!new), E>(o: Oracle<C, E>, c: C, m: MapperId, at: Path)
    requires WellFounded(o)
    ensures Wired(Fresh(c, m))
    ensures Update(o, Fresh(c, m), at) == Updated(Built(o, c, m), BuildTrace(o, c, m, at))
    decreases o.rank(c), 1, 0
  {
    var n := Fresh(c, m);
    assert Wired(n);
    match o.render(c)
    case Failure(_) =>
    case Success(kids) =>
      assert Below(o, kids, c);
      var slots := if |kids| > 0 then PrepareChildren(n, Allocate(|kids|)) else [];
      assert forall j :: 0 <= j < |slots| ==> slots[j] == Vacant(m);
      FreshSlots(o, c, m, kids, slots, 0, at);
  }

  lemma {:induction false} FreshSlots<C(!new), E>(o: Oracle<C, E>, c: C, m: MapperId, kids: seq<Option<C>>,
                                                 slots: seq<Node<C>>, i: nat, at: Path)
    requires WellFounded(o) && Below(o, kids, c) && i <= |kids| == |slots| && WiredSlots(slots, m)
    requires forall j :: i <= j < |slots| ==> slots[j] == Vacant(m)
    ensures var r := DiffSlots(o, c, m, kids, slots, i, at);
      r.slots[i..] == BuiltSlots(o, c, m, kids, i) && r.trace == BuildSlots(o, c, m, kids, i, at) && r.failure.None?
    decreases o.rank(c), 0, |kids| - i, 1
  {
    if i < |kids| {
      var x := if kids[i].Some? then Built(o, kids[i].value, m) else Vacant(m);
      FreshStep(o, c, m, kids, slots, i, at);
      var next := slots[i := x];
      FreshSlots(o, c, m, kids, next, i + 1, at);
      var rest := DiffSlots(o, c, m, kids, next, i + 1, at);
      SamePrefixAt(rest.slots, next, i);
      SliceCons(rest.slots, i);
    }
  }

  lemma SamePrefixAt<T>(a: seq<T>, b: seq<T>, i: nat)
    requires i < |a| && i < |b| && a[..i + 1] == b[..i + 1]
    ensures a[i] == b[i]
  {
    assert a[i] == a[..i + 1][i];
  }

  lemma SliceCons<T>(a: seq<T>, i: nat)
    requires i < |a|
    ensures a[i..] == [a[i]] + a[i + 1..]
  {
  }

  /** One vacant slot of the diff: it mounts and builds its component (or
      stays vacant), then the diff goes on over the slots left behind. */
  lemma {:induction false} FreshStep<C(!new), E>(o: Oracle<C, E>, c: C, m: MapperId, kids: seq<Option<C>>,
                                                slots: seq<Node<C>>, i: nat, at: Path)
    requires WellFounded(o) && Below(o, kids, c) && i < |kids| == |slots| && WiredSlots(slots, m)
    requires forall j :: i <= j < |slots| ==> slots[j] == Vacant(m)
    ensures var x := if kids[i].Some? then Built(o, kids[i].value, m) else Vacant(m);
      && x.mapper == Some(m) && Wired(x)
      && WiredSlots(slots[i := x], m)
      && var r := DiffSlots(o, c, m, kids, slots, i, at);
         var rest := DiffSlots(o, c, m, kids, slots[i := x], i + 1, at);
         && r.slots == rest.slots && r.failure == rest.failure
         && r.trace == (if kids[i].Some? then [Mount(kids[i].value, at + [i])] + BuildTrace(o, kids[i].value, m, at + [i]) else []) + rest.trace
    decreases o.rank(c), 0, 0, 1
  {
    assert slots[i] == Vacant(m);
    FreshSlot(o, c, m, kids, i, at);
  }

  /** A vacant slot receiving a component mounts it and builds it afresh; one
      receiving nil stays vacant. */
  lemma {:induction false} FreshSlot<C(!new), E>(o: Oracle<C, E>, c: C, m: MapperId, kids: seq<Option<C>>, i: nat, at: Path)
    requires WellFounded(o) && Below(o, kids, c) && i < |kids|
    ensures var s := SlotStep(o, c, m, Vacant(m), kids[i], at + [i]);
      && s.failure.None?
      && s.slot == (if kids[i].Some? then Built(o, kids[i].value, m) else Vacant(m))
      && s.local + s.nested ==
           (if kids[i].Some? then [Mount(kids[i].value, at + [i])] + BuildTrace(o, kids[i].value, m, at + [i]) else [])
    decreases o.rank(c), 0, 0, 0
  {
    if kids[i].Some? {
      FreshUpdate(o, kids[i].value, m, at + [i]);
      assert Vacant<C>(m).(comp := kids[i]) == Fresh(kids[i].value, m);
    }
  }

  /** Every node whose component renders successfully has rendered, and
      holds in its slots exactly the components that render returns. */
  ghost predicate Settled<C(!new), E>(o: Oracle<C, E>, n: Node<C>)
    decreases n
  {
    && (n.comp.Some? && o.render(n.comp.value).Success? ==>
          && n.rendered
          && |n.children| == |o.render(n.comp.value).value|
          && forall j :: 0 <= j < |n.children| ==> n.children[j].comp == o.render(n.comp.value).value[j])
    && forall j :: 0 <= j < |n.children| ==> Settled(o, n.children[j])
  }

  /** A first build leaves every node settled. */
  lemma {:induction false} BuiltSettled<C(!new), E>(o: Oracle<C, E>, c: C, m: MapperId)
    requires WellFounded(o)
    ensures Built(o, c, m).comp == Some(c) && Settled(o, Built(o, c, m))
    decreases o.rank(c), 1
  {
    match o.render(c)
    case Failure(_) =>
    case Success(kids) =>
      assert Below(o, kids, c);
      BuiltSlotsSettled(o, c, m, kids, 0);
  }

  lemma {:induction false} BuiltSlotsSettled<C(!new), E>(o: Oracle<C, E>, c: C, m: MapperId, kids: seq<Option<C>>, i: nat)
    requires WellFounded(o) && Below(o, kids, c) && i <= |kids|
    ensures forall j :: 0 <= j < |kids| - i ==>
      BuiltSlots(o, c, m, kids, i)[j].comp == kids[i + j] && Settled(o, BuiltSlots(o, c, m, kids, i)[j])
    decreases o.rank(c), 0, |kids| - i
  {
    if i < |kids| {
      BuiltSlotsSettled(o, c, m, kids, i + 1);
      if kids[i].Some? {
        BuiltSettled(o, kids[i].value, m);
      }
      var r := BuiltSlots(o, c, m, kids, i);
      assert forall j :: 1 <= j < |kids| - i ==> r[j] == BuiltSlots(o, c, m, kids, i + 1)[j - 1];
    }
  }

  /** The components a trace passes to `Mapper.Map`, in order. */
  function MapsOf<C, E>(t: seq<Event<C, E>>): (r: seq<C>)
    ensures |r| <= |t|
  {
    if t == [] then []
    else (if t[0].Map? then [t[0].c] else []) + MapsOf(t[1..])
  }

  lemma {:induction false} MapsOfAppend<C, E>(a: seq<Event<C, E>>, b: seq<Event<C, E>>)
    ensures MapsOf(a + b) == MapsOf(a) + MapsOf(b)
    decreases |a|
  {
    if a != [] {
      assert (a + b)[1..] == a[1..] + b;
      MapsOfAppend(a[1..], b);
    } else {
      assert a + b == b;
    }
  }

  lemma MapsOfAppend3<C, E>(a: seq<Event<C, E>>, b: seq<Event<C, E>>, c: seq<Event<C, E>>)
    ensures MapsOf(a + b + c) == MapsOf(a) + MapsOf(b) + MapsOf(c)
  {
    MapsOfAppend(a, b);
    MapsOfAppend(a + b, c);
  }

  /** The components a trace calls `Mount` on, in order. */
  function MountedOf<C, E>(t: seq<Event<C, E>>): (r: seq<C>)
    ensures |r| <= |t|
  {
    if t == [] then []
    else (if t[0].Mount? then [t[0].c] else []) + MountedOf(t[1..])
  }

  lemma {:induction false} MountedOfAppend<C, E>(a: seq<Event<C, E>>, b: seq<Event<C, E>>)
    ensures MountedOf(a + b) == MountedOf(a) + MountedOf(b)
    decreases |a|
  {
    if a != [] {
      assert (a + b)[1..] == a[1..] + b;
      MountedOfAppend(a[1..], b);
    } else {
      assert a + b == b;
    }
  }

  lemma MountedOfAppend3<C, E>(a: seq<Event<C, E>>, b: seq<Event<C, E>>, c: seq<Event<C, E>>)
    ensures MountedOf(a + b + c) == MountedOf(a) + MountedOf(b) + MountedOf(c)
  {
    MountedOfAppend(a, b);
    MountedOfAppend(a + b, c);
  }

  /** A lone Mount event mounts its component and maps nothing. */
  lemma MountAlone<C, E>(t: seq<Event<C, E>>)
    requires |t| == 1 && t[0].Mount?
    ensures MountedOf(t) == [t[0].c] && MapsOf(t) == []
  {
    assert t[1..] == [];
  }

  lemma HeadTail<T>(a: seq<T>)
    requires |a| > 0
    ensures [a[0]] + a[1..] == a
  {
  }

  /** Pre-order (parent first, children left to right) of the components
      reachable by rendering from `c`. */
  function Preorder<C(!new), E>(o: Oracle<C, E>, c: C): (r: seq<C>)
    requires WellFounded(o)
    decreases o.rank(c), 1
  {
    [c] +
    match o.render(c)
    case Failure(_) => []
    case Success(kids) => PreorderSlots(o, c, kids, 0)
  }

  function PreorderSlots<C(!new), E>(o: Oracle<C, E>, c: C, kids: seq<Option<C>>, i: nat): seq<C>
    requires WellFounded(o) && Below(o, kids, c) && i <= |kids|
    decreases o.rank(c), 0, |kids| - i
  {
    if i == |kids| then []
    else (if kids[i].Some? then Preorder(o, kids[i].value) else []) + PreorderSlots(o, c, kids, i + 1)
  }

  /** Building a tree maps every component once, in pre-order. */
  lemma {:induction false} BuildMapsPreorder<C(!new), E>(o: Oracle<C, E>, c: C, m: MapperId, at: Path)
    requires WellFounded(o)
    ensures MapsOf(BuildTrace(o, c, m, at)) == Preorder(o, c)
    decreases o.rank(c), 1, 0
  {
    var head: seq<Event<C, E>> := [Map(m, c), Render(c)];
    assert MapsOf(head) == [c] by {
      var rest: seq<Event<C, E>> := [Render(c)];
      assert head[1..] == rest && rest[1..] == [];
    }
    match o.render(c)
    case Failure(e) =>
      var tail: seq<Event<C, E>> := [Error(m, c, RenderFailed(e))];
      assert tail[1..] == [];
      MapsOfAppend(head, tail);
    case Success(kids) =>
      assert Below(o, kids, c);
      MapsOfAppend(head, BuildSlots(o, c, m, kids, 0, at));
      BuildSlotsMapsPreorder(o, c, m, kids, 0, at);
  }

  lemma {:induction false} BuildSlotsMapsPreorder<C(!new), E>(o: Oracle<C, E>, c: C, m: MapperId,
                                                             kids: seq<Option<C>>, i: nat, at: Path)
    requires WellFounded(o) && Below(o, kids, c) && i <= |kids|
    ensures MapsOf(BuildSlots(o, c, m, kids, i, at)) == PreorderSlots(o, c, kids, i)
    decreases o.rank(c), 0, |kids| - i
  {
    if i < |kids| {
      BuildSlotsMapsPreorder(o, c, m, kids, i + 1, at);
      if kids[i].Some? {
        var k := kids[i].value;
        var mount: seq<Event<C, E>> := [Mount(k, at + [i])];
        MountAlone(mount);
        BuildMapsPreorder(o, k, m, at + [i]);
        MapsOfAppend3(mount, BuildTrace(o, k, m, at + [i]), BuildSlots(o, c, m, kids, i + 1, at));
      } else {
        assert [] + BuildSlots(o, c, m, kids, i + 1, at) == BuildSlots(o, c, m, kids, i + 1, at);
      }
    }
  }

  /** Building a tree mounts every component below the root once, in
      pre-order; the root itself is never mounted. */
  lemma {:induction false} BuildMountsPreorder<C(!new), E>(o: Oracle<C, E>, c: C, m: MapperId, at: Path)
    requires WellFounded(o)
    ensures MountedOf(BuildTrace(o, c, m, at)) == Preorder(o, c)[1..]
    decreases o.rank(c), 1, 0
  {
    var head: seq<Event<C, E>> := [Map(m, c), Render(c)];
    assert MountedOf(head) == [] by {
      var rest: seq<Event<C, E>> := [Render(c)];
      assert head[1..] == rest && rest[1..] == [];
    }
    match o.render(c)
    case Failure(e) =>
      var tail: seq<Event<C, E>> := [Error(m, c, RenderFailed(e))];
      assert tail[1..] == [];
      MountedOfAppend(head, tail);
    case Success(kids) =>
      assert Below(o, kids, c);
      MountedOfAppend(head, BuildSlots(o, c, m, kids, 0, at));
      BuildSlotsMountsPreorder(o, c, m, kids, 0, at);
  }

  lemma {:induction false} BuildSlotsMountsPreorder<C(!new), E>(o: Oracle<C, E>, c: C, m: MapperId,
                                                               kids: seq<Option<C>>, i: nat, at: Path)
    requires WellFounded(o) && Below(o, kids, c) && i <= |kids|
    ensures MountedOf(BuildSlots(o, c, m, kids, i, at)) == PreorderSlots(o, c, kids, i)
    decreases o.rank(c), 0, |kids| - i
  {
    if i < |kids| {
      BuildSlotsMountsPreorder(o, c, m, kids, i + 1, at);
      if kids[i].Some? {
        var k := kids[i].value;
        var mount: seq<Event<C, E>> := [Mount(k, at + [i])];
        MountAlone(mount);
        BuildMountsPreorder(o, k, m, at + [i]);
        MountedOfAppend3(mount, BuildTrace(o, k, m, at + [i]), BuildSlots(o, c, m, kids, i + 1, at));
        HeadTail(Preorder(o, k));
      } else {
        assert [] + BuildSlots(o, c, m, kids, i + 1, at) == BuildSlots(o, c, m, kids, i + 1, at);
      }
    }
  }

  /** The ShouldUpdate questions a re-render asks when every slot keeps its
      component: each present component is asked about itself. */
  function SelfAsks<C, E>(kids: seq<Option<C>>, i: nat): seq<Event<C, E>>
    requires i <= |kids|
    decreases |kids| - i
  {
    if i == |kids| then []
    else (if kids[i].Some? then [ShouldUpdate(kids[i].value, kids[i].value)] else []) + SelfAsks(kids, i + 1)
  }

  /** A rendered node whose component renders the components its slots
      already hold, each of which declines to update, is left as it was; the
      pass maps and renders it and asks each present child once, and nothing
      below those children is mapped, mounted, closed or rendered. */
  lemma QuietRerender<C(!new), E>(o: Oracle<C, E>, n: Node<C>, at: Path)
    requires WellFounded(o) && n.comp.Some? && Wired(n) && n.rendered
    requires o.render(n.comp.value).Success?
    requires |o.render(n.comp.value).value| == |n.children|
    requires forall j :: 0 <= j < |n.children| ==> n.children[j].comp == o.render(n.comp.value).value[j]
    requires forall j :: 0 <= j < |n.children| && n.children[j].comp.Some? ==>
      o.shouldUpdate(n.children[j].comp.value, n.children[j].comp.value) == Success(false)
    ensures Update(o, n, at) ==
      Updated(n, [Map(n.mapper.value, n.comp.value), Render(n.comp.value)] + SelfAsks(o.render(n.comp.value).value, 0))
  {
    var c := n.comp.value;
    var kids := o.render(c).value;
    assert Below(o, kids, c);
    QuietSlots(o, c, n.mapper.value, kids, n.children, 0, at);
    assert n.(children := n.children, rendered := true) == n;
  }

  lemma {:induction false} QuietSlots<C(!new), E>(o: Oracle<C, E>, c: C, m: MapperId, kids: seq<Option<C>>,
                                                 slots: seq<Node<C>>, i: nat, at: Path)
    requires WellFounded(o) && Below(o, kids, c) && i <= |kids| == |slots| && WiredSlots(slots, m)
    requires forall j :: i <= j < |slots| ==> slots[j].comp == kids[j]
    requires forall j :: i <= j < |slots| && kids[j].Some? ==>
      o.shouldUpdate(kids[j].value, kids[j].value) == Success(false)
    ensures DiffSlots(o, c, m, kids, slots, i, at) == SlotsOutcome(slots, SelfAsks(kids, i), None)
    decreases |kids| - i
  {
    if i < |kids| {
      var s := SlotStep(o, c, m, slots[i], kids[i], at + [i]);
      assert s.slot == slots[i] && s.nested == [] && s.failure.None?;
      assert slots[i := s.slot] == slots;
      QuietSlots(o, c, m, kids, slots, i + 1, at);
    }
  }

  /** The new component `kid` for `slot` gets an answer to the one question
      that can fail: if both are present, `ShouldUpdate(kid, old)` succeeds. */
  ghost predicate Answers<C, E>(o: Oracle<C, E>, kid: Option<C>, slot: Node<C>) {
    kid.Some? && slot.comp.Some? ==> o.shouldUpdate(kid.value, slot.comp.value).Success?
  }

  /** Reference for one slot of a re-render, by the slot's old and new
      component: vacant to vacant nothing happens; present to vacant the old
      component is closed and unmapped and the slot emptied, keeping its
      subtree; vacant to present the new one is mounted with this slot as its
      controller and the slot runs its own `Update`; present to present
      `ShouldUpdate(kid, old)` is asked, `kid` takes the slot, and the slot's
      own `Update` runs exactly when the answer is true. */
  ghost function Redone<C(!new), E>(o: Oracle<C, E>, kid: Option<C>, slot: Node<C>, path: Path): Updated<C, E>
    requires WellFounded(o) && Wired(slot) && Answers(o, kid, slot)
  {
    match (slot.comp, kid)
    case (None, None) => Updated(slot, [])
    case (Some(prev), None) => Updated(slot.(comp := None), [Close(prev), UnMap(slot.mapper.value, prev)])
    case (None, Some(c)) =>
      var u := Update(o, slot.(comp := kid), path);
      Updated(u.node, [Mount(c, path)] + u.trace)
    case (Some(prev), Some(c)) =>
      var ask := [ShouldUpdate(c, prev)];
      if o.shouldUpdate(c, prev).value then
        var u := Update(o, slot.(comp := kid), path);
        Updated(u.node, ask + u.trace)
      else
        Updated(slot.(comp := kid), ask)
  }

  /** The calls of slots `i..` of a re-render, slot by slot. */
  ghost function RedoneTrace<C(!new), E>(o: Oracle<C, E>, kids: seq<Option<C>>, slots: seq<Node<C>>, i: nat, at: Path)
    : seq<Event<C, E>>
    requires WellFounded(o) && i <= |kids| <= |slots|
    requires forall j :: i <= j < |kids| ==> Wired(slots[j]) && Answers(o, kids[j], slots[j])
    decreases |kids| - i
  {
    if i == |kids| then []
    else Redone(o, kids[i], slots[i], at + [i]).trace + RedoneTrace(o, kids, slots, i + 1, at)
  }

  lemma {:induction false} RedoneTraceFrame<C(!new), E>(o: Oracle<C, E>, kids: seq<Option<C>>,
                                                       a: seq<Node<C>>, b: seq<Node<C>>, i: nat, at: Path)
    requires WellFounded(o) && i <= |kids| <= |a| && |kids| <= |b|
    requires forall j :: i <= j < |kids| ==> a[j] == b[j] && Wired(a[j]) && Answers(o, kids[j], a[j])
    ensures RedoneTrace(o, kids, a, i, at) == RedoneTrace(o, kids, b, i, at)
    decreases |kids| - i
  {
    if i < |kids| {
      RedoneTraceFrame(o, kids, a, b, i + 1, at);
      var x := Redone(o, kids[i], a[i], at + [i]).trace;
      assert a[i] == b[i];
      assert RedoneTrace(o, kids, a, i, at) == x + RedoneTrace(o, kids, a, i + 1, at);
      assert RedoneTrace(o, kids, b, i, at) == x + RedoneTrace(o, kids, b, i + 1, at);
    }
  }

  /** One slot of a re-render is what `Redone` says. */
  lemma RedoneStep<C(!new), E>(o: Oracle<C, E>, c: C, m: MapperId, slot: Node<C>, kid: Option<C>, path: Path)
    requires WellFounded(o) && slot.mapper == Some(m) && Wired(slot) && Answers(o, kid, slot)
    requires kid.Some? ==> o.rank(kid.value) < o.rank(c)
    ensures var s := SlotStep(o, c, m, slot, kid, path); var x := Redone(o, kid, slot, path);
      s.failure.None? && s.slot == x.node && s.local + s.nested == x.trace
  {
  }

  /** The diff of a re-render in which no ShouldUpdate fails does what
      `Redone` says, slot by slot, and never fails. */
  lemma {:induction false} RedoneSlots<C(!new), E>(o: Oracle<C, E>, c: C, m: MapperId, kids: seq<Option<C>>,
                                                  slots: seq<Node<C>>, i: nat, at: Path)
    requires WellFounded(o) && Below(o, kids, c) && i <= |kids| == |slots| && WiredSlots(slots, m)
    requires forall j :: i <= j < |slots| ==> Answers(o, kids[j], slots[j])
    ensures var d := DiffSlots(o, c, m, kids, slots, i, at);
      && d.failure.None?
      && d.trace == RedoneTrace(o, kids, slots, i, at)
      && forall j :: i <= j < |slots| ==> d.slots[j] == Redone(o, kids[j], slots[j], at + [j]).node
    decreases |kids| - i
  {
    if i < |kids| {
      var s := SlotStep(o, c, m, slots[i], kids[i], at + [i]);
      RedoneStep(o, c, m, slots[i], kids[i], at + [i]);
      var next := slots[i := s.slot];
      RedoneSlots(o, c, m, kids, next, i + 1, at);
      RedoneTraceFrame(o, kids, next, slots, i + 1, at);
      var rest := DiffSlots(o, c, m, kids, next, i + 1, at);
      SamePrefixAt(rest.slots, next, i);
      assert DiffSlots(o, c, m, kids, slots, i, at).slots == rest.slots;
      forall j | i < j < |slots| ensures rest.slots[j] == Redone(o, kids[j], slots[j], at + [j]).node {
        assert next[j] == slots[j];
      }
    }
  }

  /** A re-render with as many components as slots in which no ShouldUpdate
      fails: slot j becomes what `Redone` makes of it and the calls are Map,
      Render, then slot by slot the calls `Redone` lists (Close and UnMap of
      a removed component, Mount and `Update` of an added one, the question
      and, on a true answer, the `Update` of a kept one). */
  lemma Rerender<C(!new), E>(o: Oracle<C, E>, n: Node<C>, at: Path)
    requires WellFounded(o) && n.comp.Some? && n.mapper.Some? && WiredSlots(n.children, n.mapper.value)
    requires o.render(n.comp.value).Success? && |o.render(n.comp.value).value| == |n.children|
    requires forall j :: 0 <= j < |n.children| ==> Answers(o, o.render(n.comp.value).value[j], n.children[j])
    ensures var kids := o.render(n.comp.value).value; var u := Update(o, n, at);
      && u.node.comp == n.comp && u.node.mapper == n.mapper && u.node.rendered
      && |u.node.children| == |n.children|
      && (forall j :: 0 <= j < |n.children| ==> u.node.children[j] == Redone(o, kids[j], n.children[j], at + [j]).node)
      && u.trace == [Map(n.mapper.value, n.comp.value), Render(n.comp.value)] + RedoneTrace(o, kids, n.children, 0, at)
  {
    var c := n.comp.value;
    var kids := o.render(c).value;
    assert Below(o, kids, c) && Wired(n);
    RedoneSlots(o, c, n.mapper.value, kids, n.children, 0, at);
  }

  /** Two leaf children `a1` and `a2` re-rendered by their parent `a`: the one
      whose ShouldUpdate answers true is mapped and rendered once more, the
      one answering false is only asked. */
  lemma SelectiveRerender<C(!new), E>(o: Oracle<C, E>, a: C, a1: C, a2: C, m: MapperId, at: Path)
    requires WellFounded(o)
    requires o.render(a) == Success([Some(a1), Some(a2)]) && o.render(a1) == Success([])
    requires o.shouldUpdate(a1, a1) == Success(true) && o.shouldUpdate(a2, a2) == Success(false)
    ensures var leaf1 := Node(Some(a1), [], Some(m), true);
      var leaf2 := Node(Some(a2), [], Some(m), true);
      var n := Node(Some(a), [leaf1, leaf2], Some(m), true);
      && Wired(n)
      && Update(o, n, at).trace
        == [Map(m, a), Render(a), ShouldUpdate(a1, a1), Map(m, a1), Render(a1), ShouldUpdate(a2, a2)]
  {
    var leaf1 := Node(Some(a1), [], Some(m), true);
    var leaf2 := Node(Some(a2), [], Some(m), true);
    var n := Node(Some(a), [leaf1, leaf2], Some(m), true);
    assert WiredSlots(leaf1.children, m) && WiredSlots(leaf2.children, m);
    assert Wired(leaf1) && Wired(leaf2);
    assert WiredSlots(n.children, m);
    Rerender(o, n, at);
    Rerender(o, leaf1, at + [0]);
    assert RedoneTrace(o, [], leaf1.children, 0, at + [0]) == [];
    assert Redone(o, Some(a1), leaf1, at + [0]).trace == [ShouldUpdate(a1, a1), Map(m, a1), Render(a1)];
    assert Redone(o, Some(a2), leaf2, at + [1]).trace == [ShouldUpdate(a2, a2)];
    assert RedoneTrace(o, [Some(a1), Some(a2)], n.children, 2, at) == [];
  }

  /** A parent that has rendered leaves `a1` and `a2` and now renders `a1` and
      nothing: `a1` is asked and answers false, then `a2` is closed and
      unmapped, in that order, and its slot keeps the old node with the
      component removed. */
  lemma EmptiedSlot<C(!new), E>(o: Oracle<C, E>, a: C, a1: C, a2: C, m: MapperId, at: Path)
    requires WellFounded(o)
    requires o.render(a) == Success([Some(a1), None]) && o.shouldUpdate(a1, a1) == Success(false)
    ensures var leaf1 := Node(Some(a1), [], Some(m), true);
      var leaf2 := Node(Some(a2), [], Some(m), true);
      var n := Node(Some(a), [leaf1, leaf2], Some(m), true);
      && Wired(n)
      && Update(o, n, at) == Updated(n.(children := [leaf1, leaf2.(comp := None)]),
           [Map(m, a), Render(a), ShouldUpdate(a1, a1), Close(a2), UnMap(m, a2)])
  {
    var leaf1 := Node(Some(a1), [], Some(m), true);
    var leaf2 := Node(Some(a2), [], Some(m), true);
    var n := Node(Some(a), [leaf1, leaf2], Some(m), true);
    assert WiredSlots(leaf1.children, m) && WiredSlots(leaf2.children, m);
    assert Wired(leaf1) && Wired(leaf2);
    assert WiredSlots(n.children, m);
    Rerender(o, n, at);
    assert Redone(o, Some(a1), leaf1, at + [0]) == Updated(leaf1, [ShouldUpdate(a1, a1)]);
    assert Redone(o, None, leaf2, at + [1]) == Updated(leaf2.(comp := None), [Close(a2), UnMap(m, a2)]);
    assert RedoneTrace(o, [Some(a1), None], n.children, 2, at) == [];
    assert Update(o, n, at).node.children == [leaf1, leaf2.(comp := None)];
  }

  /** The same parent now renders `a1` and a leaf `a3` into a slot that was
      emptied before: `a3` is mounted with that slot as its controller and
      then mapped and rendered. */
  lemma RefilledSlot<C(!new), E>(o: Oracle<C, E>, a: C, a1: C, a3: C, m: MapperId, at: Path)
    requires WellFounded(o)
    requires o.render(a) == Success([Some(a1), Some(a3)]) && o.render(a3) == Success([])
    requires o.shouldUpdate(a1, a1) == Success(false)
    ensures var leaf1 := Node(Some(a1), [], Some(m), true);
      var emptied := Node(None, [], Some(m), true);
      var n := Node(Some(a), [leaf1, emptied], Some(m), true);
      && Wired(n)
      && Update(o, n, at) == Updated(n.(children := [leaf1, emptied.(comp := Some(a3))]),
           [Map(m, a), Render(a), ShouldUpdate(a1, a1), Mount(a3, at + [1]), Map(m, a3), Render(a3)])
  {
    var leaf1 := Node(Some(a1), [], Some(m), true);
    var emptied := Node(None, [], Some(m), true);
    var n := Node(Some(a), [leaf1, emptied], Some(m), true);
    var leaf3 := emptied.(comp := Some(a3));
    assert WiredSlots(leaf1.children, m) && WiredSlots(emptied.children, m);
    assert Wired(leaf1) && Wired(emptied) && Wired(leaf3);
    assert WiredSlots(n.children, m);
    Rerender(o, n, at);
    Rerender(o, leaf3, at + [1]);
    assert RedoneTrace(o, [], leaf3.children, 0, at + [1]) == [];
    assert Update(o, leaf3, at + [1]) == Updated(leaf3, [Map(m, a3), Render(a3)]);
    assert Redone(o, Some(a1), leaf1, at + [0]) == Updated(leaf1, [ShouldUpdate(a1, a1)]);
    assert Redone(o, Some(a3), emptied, at + [1]) == Updated(leaf3, [Mount(a3, at + [1]), Map(m, a3), Render(a3)]);
    assert RedoneTrace(o, [Some(a1), Some(a3)], n.children, 2, at) == [];
    assert Update(o, n, at).node.children == [leaf1, leaf3];
  }

  /** A node that has rendered before and now renders a different number of
      children: the node is left unchanged, no child is touched, and the
      Mapper gets exactly one Error naming the node's component. */
  lemma ArityViolationReported<C(!new), E>(o: Oracle<C, E>, n: Node<C>, at: Path)
    requires WellFounded(o) && n.comp.Some? && Wired(n) && n.rendered
    requires o.render(n.comp.value).Success? && |o.render(n.comp.value).value| != |n.children|
    ensures Update(o, n, at) == Updated(n, [
      Map(n.mapper.value, n.comp.value), Render(n.comp.value),
      Error(n.mapper.value, n.comp.value, ArityChanged(|n.children|, |o.render(n.comp.value).value|))])
  {
  }

  /** A failing Render: the node is left unchanged and exactly one Error is reported. */
  lemma RenderFailureReported<C(!new), E>(o: Oracle<C, E>, n: Node<C>, at: Path)
    requires WellFounded(o) && n.comp.Some? && Wired(n) && o.render(n.comp.value).Failure?
    ensures Update(o, n, at) == Updated(n, [
      Map(n.mapper.value, n.comp.value), Render(n.comp.value),
      Error(n.mapper.value, n.comp.value, RenderFailed(o.render(n.comp.value).error))])
  {
  }

  /** A slot emptied by a present-to-nil step keeps its rendered children,
      so a component that later fills it and renders a different number of
      children is mounted, then fails its first update with an arity error
      against the children its predecessor left behind. */
  lemma RefilledSlotArity<C(!new), E>(o: Oracle<C, E>, parent: C, m: MapperId, slot: Node<C>, c: C, path: Path)
    requires WellFounded(o) && slot.mapper == Some(m) && Wired(slot)
    requires slot.comp.Some? && slot.rendered
    requires o.rank(c) < o.rank(parent)
    requires o.render(c).Success? && |o.render(c).value| != |slot.children|
    ensures var emptied := SlotStep(o, parent, m, slot, None, path);
      var refilled := SlotStep(o, parent, m, emptied.slot, Some(c), path);
      && emptied.slot.children == slot.children
      && refilled.failure.None?
      && refilled.slot == slot.(comp := Some(c))
      && refilled.local == [Mount(c, path)]
      && refilled.nested == [Map(m, c), Render(c), Error(m, c, ArityChanged(|slot.children|, |o.render(c).value|))]
  {
    var emptied := SlotStep(o, parent, m, slot, None, path);
    ArityViolationReported(o, slot.(comp := Some(c)), path);
  }

  /** The update `u` of `n` stopped at slot `k`, where the new component
      `kids[k]` answered `ShouldUpdate` about the old one with error `e`:
      the slots before `k` took their new components, slot `k` and the later
      ones are as they were, and the last two calls are that ShouldUpdate and
      the one Error reporting `e`. */
  ghost predicate StoppedUpdate<C, E>(o: Oracle<C, E>, n: Node<C>, kids: seq<Option<C>>,
                                      u: Updated<C, E>, e: UpdateError<E>, k: nat) {
    && n.comp.Some? && n.mapper.Some? && e.ShouldUpdateFailed?
    && k < |kids| && k < |n.children| == |u.node.children|
    && kids[k].Some? && n.children[k].comp.Some?
    && o.shouldUpdate(kids[k].value, n.children[k].comp.value).Failure?
    && e.cause == o.shouldUpdate(kids[k].value, n.children[k].comp.value).error
    && u.node.children[k..] == n.children[k..]
    && (forall j :: 0 <= j < k ==> u.node.children[j].comp == kids[j])
    && |u.trace| >= 4
    && u.trace[|u.trace| - 2] == ShouldUpdate(kids[k].value, n.children[k].comp.value)
    && u.trace[|u.trace| - 1] == Error(n.mapper.value, n.comp.value, e)
  }

  /** Where a diff of `n`'s own slots stopped, read off the update it ends. */
  lemma StoppedReport<C, E>(o: Oracle<C, E>, n: Node<C>, kids: seq<Option<C>>, d: SlotsOutcome<C, E>,
                            k: nat, u: Updated<C, E>, head: seq<Event<C, E>>, e: UpdateError<E>)
    requires StoppedAt(o, kids, n.children, d, 0, k) && e == d.failure.value
    requires n.comp.Some? && n.mapper.Some? && u.node.children == d.slots && |head| == 2
    requires u.trace == head + d.trace + [Error(n.mapper.value, n.comp.value, e)]
    ensures StoppedUpdate(o, n, kids, u, e, k)
  {
    assert u.trace[|u.trace| - 2] == d.trace[|d.trace| - 1];
  }

  /** A failing ShouldUpdate: the pass stops at the first slot `k` whose
      question fails, as `StoppedUpdate` describes. */
  lemma ShouldUpdateFailureReported<C(!new), E>(o: Oracle<C, E>, n: Node<C>, at: Path)
    requires WellFounded(o) && n.comp.Some? && Wired(n)
    ensures var p := Reconcile(o, n, at); var kids := o.render(n.comp.value);
      p.failure.Some? && p.failure.value.ShouldUpdateFailed? ==>
        && kids.Success?
        && exists k :: StoppedUpdate(o, n, kids.value, Update(o, n, at), p.failure.value, k)
  {
    var p := Reconcile(o, n, at);
    var c := n.comp.value;
    var m := n.mapper.value;
    if p.failure.Some? && p.failure.value.ShouldUpdateFailed? {
      var kids := o.render(c).value;
      assert Below(o, kids, c);
      // fresh vacant slots cannot fail, so the slots diffed are the node's own
      var d := DiffSlots(o, c, m, kids, n.children, 0, at);
      assert p == Pass(n.(children := d.slots, rendered := true), [Map(m, c), Render(c)] + d.trace, d.failure);
      var k: nat :| StoppedAt(o, kids, n.children, d, 0, k);
      StoppedReport(o, n, kids, d, k, Update(o, n, at), [Map(m, c), Render(c)], p.failure.value);
    }
  }
}
