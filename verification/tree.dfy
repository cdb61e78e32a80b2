/** The slot-indexed reconciler of reactive/tree/tree.go.

    A `Node` owns one component (or nothing, for a vacant slot), an ordered
    list of child slots and a reference to the `Mapper` that observes it.
    Components are abstract identities `C`; what a component renders and how
    it answers `ShouldUpdate` are given by an `Oracle`.  Every call the
    reconciler makes, on the mapper or on a component, is recorded as an
    `Event`, so one pass of `update` is a function from a node to a new node
    and a trace. */
module Tree {
  import opened Wrappers

  /** Identity of a Mapper; Go's nil Mapper is `None` in `Node.mapper`. */
  type MapperId = nat

  /** A slot address: child indexes followed from the root.  The
      StateController handed to `Mount` is the slot node itself, i.e. its path. */
  type Path = seq<nat>

  datatype Node<C> = Node(
    comp: Option<C>,
    children: seq<Node<C>>,
    mapper: Option<MapperId>,
    /** `previouslyRendered`: gates the arity check */
    rendered: bool)

  /** Why one pass of `update` failed. */
  datatype UpdateError<E> =
    | RenderFailed(cause: E)
    | ArityChanged(had: nat, now: nat)
    | ShouldUpdateFailed(cause: E)

  /** One observable call made by the reconciler. */
  datatype Event<C, E> =
    | Map(mapper: MapperId, c: C)
    | UnMap(mapper: MapperId, c: C)
    | Error(mapper: MapperId, c: C, failure: UpdateError<E>)
    | Render(c: C)
    | ShouldUpdate(c: C, previous: C)
    | Mount(c: C, controller: Path)
    | Close(c: C)

  /** The behaviour of components: `render` and `shouldUpdate` may fail with
      a domain error.  `rank` is a termination measure: a rendered child
      always ranks below the component that rendered it (see `WellFounded`). */
  datatype Oracle<!C, E> = Oracle(
    render: C -> Result<seq<Option<C>>, E>,
    shouldUpdate: (C, C) -> Result<bool, E>,
    rank: C -> nat)

  ghost predicate WellFounded<C(!new), E>(o: Oracle<C, E>) {
    forall c, i ::
      o.render(c).Success? && 0 <= i < |o.render(c).value| && o.render(c).value[i].Some? ==>
        o.rank(o.render(c).value[i].value) < o.rank(c)
  }

  /** Every present component of `kids` ranks below `c`. */
  ghost predicate Below<C, E>(o: Oracle<C, E>, kids: seq<Option<C>>, c: C) {
    forall j :: 0 <= j < |kids| && kids[j].Some? ==> o.rank(kids[j].value) < o.rank(c)
  }

  /** Every node of the tree reports to the same, non-nil Mapper. */
  ghost predicate Wired<C>(n: Node<C>)
    decreases n, 1
  {
    n.mapper.Some? && WiredSlots(n.children, n.mapper.value)
  }

  ghost predicate WiredSlots<C>(slots: seq<Node<C>>, m: MapperId)
    decreases slots, 0
  {
    forall i :: 0 <= i < |slots| ==> slots[i].mapper == Some(m) && Wired(slots[i])
  }

  lemma WiredChild<C>(n: Node<C>, j: nat)
    ensures Wired(n) && j < |n.children| ==> n.children[j].mapper == n.mapper && Wired(n.children[j])
  {
    if Wired(n) && j < |n.children| {
      assert WiredSlots(n.children, n.mapper.value);
    }
  }

  /** A node that has never rendered has no child slots yet. */
  ghost predicate Shaped<C>(n: Node<C>)
    decreases n, 1
  {
    (!n.rendered ==> n.children == []) && ShapedSlots(n.children)
  }

  ghost predicate ShapedSlots<C>(slots: seq<Node<C>>)
    decreases slots, 0
  {
    forall i :: 0 <= i < |slots| ==> Shaped(slots[i])
  }

  /** A Mapper event goes to mapper `m`; component calls go to no mapper. */
  predicate SentTo<C, E>(e: Event<C, E>, m: MapperId) {
    match e
    case Map(m', _) => m' == m
    case UnMap(m', _) => m' == m
    case Error(m', _, _) => m' == m
    case _ => true
  }

  ghost predicate AllSentTo<C, E>(t: seq<Event<C, E>>, m: MapperId) {
    forall k :: 0 <= k < |t| ==> SentTo(t[k], m)
  }

  lemma AllSentToAppend<C, E>(a: seq<Event<C, E>>, b: seq<Event<C, E>>, c: seq<Event<C, E>>, m: MapperId)
    requires AllSentTo(a, m) && AllSentTo(b, m) && AllSentTo(c, m)
    ensures AllSentTo(a + b + c, m)
  {
    var t := a + b + c;
    assert forall k :: 0 <= k < |t| ==> t[k] in a || t[k] in b || t[k] in c;
  }

  /** Go's zero `Node`: no component, no children, nil Mapper. */
  function ZeroNode<C>(): Node<C> {
    Node(None, [], None, false)
  }

  /** A slot freshly allocated by `update` and given its parent's Mapper. */
  function Vacant<C>(m: MapperId): Node<C> {
    Node(None, [], Some(m), false)
  }

  /** The node `NewNode` builds before its first `Update`. */
  function Fresh<C>(c: C, m: MapperId): Node<C> {
    Node(Some(c), [], Some(m), false)
  }

  /** `make([]Node, k)`. */
  function Allocate<C>(k: nat): seq<Node<C>> {
    seq(k, _ => ZeroNode())
  }

  /** `prepareChildren`: every node gets the parent's Mapper, nothing else changes. */
  function PrepareChildren<C>(n: Node<C>, nodes: seq<Node<C>>): (r: seq<Node<C>>)
    ensures |r| == |nodes|
    ensures forall i :: 0 <= i < |r| ==>
      r[i].mapper == n.mapper && r[i].comp == nodes[i].comp &&
      r[i].children == nodes[i].children && r[i].rendered == nodes[i].rendered
  {
    seq(|nodes|, i requires 0 <= i < |nodes| => nodes[i].(mapper := n.mapper))
  }

  /** The four cases of the `switch` in `update`; `None` is its `default`
      branch, which panics. */
  datatype SlotCase = Mounting | Persisting | Untouched | Unmounting

  function Classify<C>(prev: Option<C>, next: Option<C>): (r: Option<SlotCase>)
    ensures r.Some?
    ensures r == Some(Mounting) <==> prev.None? && next.Some?
    ensures r == Some(Persisting) <==> prev.Some? && next.Some?
    ensures r == Some(Untouched) <==> prev.None? && next.None?
    ensures r == Some(Unmounting) <==> prev.Some? && next.None?
  {
    if prev.None? && next.Some? then Some(Mounting)
    else if next.Some? && prev.Some? then Some(Persisting)
    else if next.None? && prev.None? then Some(Untouched)
    else if prev.Some? && next.None? then Some(Unmounting)
    else None
  }

  /** The three flags the `switch` sets for one slot. */
  datatype Decision = Decision(shouldUpdate: bool, mounted: bool, unmounted: bool)

  /** The `switch` of `update`: only a slot that keeps a component asks the
      next component's `ShouldUpdate(prev)`, and only that question can fail. */
  function Decide<C, E>(o: Oracle<C, E>, prev: Option<C>, next: Option<C>): (r: Result<Decision, E>)
    ensures r.Failure? <==> prev.Some? && next.Some? && o.shouldUpdate(next.value, prev.value).Failure?
    ensures r.Failure? ==> r.error == o.shouldUpdate(next.value, prev.value).error
    ensures r.Success? ==> !(r.value.mounted && r.value.unmounted)
    ensures r.Success? ==> (r.value.mounted <==> prev.None? && next.Some?)
    ensures r.Success? ==> (r.value.unmounted <==> prev.Some? && next.None?)
    ensures r.Success? && prev.Some? && next.Some? ==>
      r.value.shouldUpdate == o.shouldUpdate(next.value, prev.value).value
    ensures r.Success? && (prev.None? || next.None?) ==> (r.value.shouldUpdate <==> r.value.mounted)
  {
    match Classify(prev, next).value
    case Mounting => Success(Decision(true, true, false))
    case Persisting =>
      (match o.shouldUpdate(next.value, prev.value)
       case Failure(e) => Failure(e)
       case Success(b) => Success(Decision(b, false, false)))
    case Untouched => Success(Decision(false, false, false))
    case Unmounting => Success(Decision(false, false, true))
  }

  /** What processing one slot produced: the slot node afterwards, the calls
      made at this level (`local`), the calls made by the slot's own recursive
      `Update` (`nested`), and whether the pass must stop here. */
  datatype SlotOutcome<C, E> = SlotOutcome(
    slot: Node<C>,
    local: seq<Event<C, E>>,
    nested: seq<Event<C, E>>,
    failure: Option<UpdateError<E>>)

  datatype SlotsOutcome<C, E> = SlotsOutcome(
    slots: seq<Node<C>>,
    trace: seq<Event<C, E>>,
    failure: Option<UpdateError<E>>)

  /** Result of `update`: the node afterwards, the calls made, and the error
      `update` returns (if any). */
  datatype Pass<C, E> = Pass(node: Node<C>, trace: seq<Event<C, E>>, failure: Option<UpdateError<E>>)

  /** Result of `Update`, which reports errors instead of returning them. */
  datatype Updated<C, E> = Updated(node: Node<C>, trace: seq<Event<C, E>>)

  /** Loop body of `update` for slot `path[|path|-1]` holding `slot`, whose
      next component is `next`: classify, Close+UnMap, assign, Mount, recurse. */
  function SlotStep<C(!new), E>(o: Oracle<C, E>, parent: C, m: MapperId, slot: Node<C>, next: Option<C>, path: Path)
    : (r: SlotOutcome<C, E>)
    requires WellFounded(o)
    requires slot.mapper == Some(m) && Wired(slot)
    requires next.Some? ==> o.rank(next.value) < o.rank(parent)
    decreases o.rank(parent), 0, 0
    ensures r.slot.mapper == Some(m) && Wired(r.slot)
    ensures Shaped(slot) ==> Shaped(r.slot)
    ensures AllSentTo(r.local, m) && AllSentTo(r.nested, m)
    ensures r.failure.Some? ==> r.failure.value.ShouldUpdateFailed? && r.slot == slot && r.nested == []
    // only a failed ShouldUpdate(next, prev) stops the pass, and it is the last call made
    ensures r.failure.Some? ==>
      && slot.comp.Some? && next.Some? && o.shouldUpdate(next.value, slot.comp.value).Failure?
      && r.failure == Some(ShouldUpdateFailed(o.shouldUpdate(next.value, slot.comp.value).error))
      && r.local == [ShouldUpdate(next.value, slot.comp.value)]
    ensures r.failure.None? ==> r.slot.comp == next
    // nil -> present: mounted once with this slot as controller, before the
    // slot's own Map and Render; no ShouldUpdate is asked
    ensures slot.comp.None? && next.Some? ==>
      && r.failure.None?
      && r.local == [Mount(next.value, path)]
      && |r.nested| >= 2 && r.nested[0] == Map(m, next.value) && r.nested[1] == Render(next.value)
    // present -> present: ShouldUpdate(next, prev) alone decides the recursion
    ensures slot.comp.Some? && next.Some? ==>
      && r.local == [ShouldUpdate(next.value, slot.comp.value)]
      && (r.failure.Some? <==> o.shouldUpdate(next.value, slot.comp.value).Failure?)
      && (r.failure.None? ==> (r.nested != [] <==> o.shouldUpdate(next.value, slot.comp.value).value))
    ensures slot.comp.Some? && next.Some? && o.shouldUpdate(next.value, slot.comp.value) == Success(false) ==>
      r.slot == slot.(comp := next)
    // a slot that recurses is given its own `Update`, with the new component
    // in place: the slot becomes its node and its calls are the nested ones
    ensures slot.comp.None? && next.Some? ==>
      r.slot == Update(o, slot.(comp := next), path).node && r.nested == Update(o, slot.(comp := next), path).trace
    ensures slot.comp.Some? && next.Some? && o.shouldUpdate(next.value, slot.comp.value) == Success(true) ==>
      && r.failure.None?
      && r.slot == Update(o, slot.(comp := next), path).node && r.nested == Update(o, slot.(comp := next), path).trace
    // nil -> nil: nothing happens
    ensures slot.comp.None? && next.None? ==> r == SlotOutcome(slot, [], [], None)
    // present -> nil: Close, then UnMap, then the slot is emptied; no recursion,
    // and the slot keeps its children and `rendered`
    ensures slot.comp.Some? && next.None? ==>
      r == SlotOutcome(slot.(comp := None), [Close(slot.comp.value), UnMap(m, slot.comp.value)], [], None)
  {
    match Decide(o, slot.comp, next)
    case Failure(e) =>
      SlotOutcome(slot, [ShouldUpdate(next.value, slot.comp.value)], [], Some(ShouldUpdateFailed(e)))
    case Success(d) =>
      var asked := if slot.comp.Some? && next.Some? then [ShouldUpdate(next.value, slot.comp.value)] else [];
      var closing := if d.unmounted then [Close(slot.comp.value), UnMap(m, slot.comp.value)] else [];
      var placed := slot.(comp := next);
      var mounting := if d.mounted then [Mount(next.value, path)] else [];
      AllSentToAppend(asked, closing, mounting, m);
      if d.shouldUpdate then
        var u := Update(o, placed, path);
        SlotOutcome(u.node, asked + closing + mounting, u.trace, None)
      else
        SlotOutcome(placed, asked + closing + mounting, [], None)
  }

  /** A diff from slot `i` stopped at slot `k`: the slots before `k` took
      their new components, slot `k` and the later ones are as they were, and
      the last call made was the `ShouldUpdate` on slot `k`, whose error is the
      one reported. */
  ghost predicate StoppedAt<C, E>(o: Oracle<C, E>, kids: seq<Option<C>>, slots: seq<Node<C>>,
                                  r: SlotsOutcome<C, E>, i: nat, k: nat) {
    && i <= k < |kids| <= |slots| == |r.slots|
    && r.slots[k..] == slots[k..]
    && (forall j :: i <= j < k ==> r.slots[j].comp == kids[j])
    && kids[k].Some? && slots[k].comp.Some?
    && o.shouldUpdate(kids[k].value, slots[k].comp.value).Failure?
    && r.failure == Some(ShouldUpdateFailed(o.shouldUpdate(kids[k].value, slots[k].comp.value).error))
    && r.trace != [] && r.trace[|r.trace| - 1] == ShouldUpdate(kids[k].value, slots[k].comp.value)
  }

  /** A successful step on slot `i` followed by the diff of the slots after
      it is a diff from slot `i`. */
  lemma SlotsCons<C, E>(o: Oracle<C, E>, kids: seq<Option<C>>, slots: seq<Node<C>>, i: nat, m: MapperId,
                        s: SlotOutcome<C, E>, next: seq<Node<C>>, lo: nat, rest: SlotsOutcome<C, E>)
    requires i < |kids| <= |slots| && WiredSlots(slots, m)
    requires s.failure.None? && s.slot.comp == kids[i] && s.slot.mapper == Some(m) && Wired(s.slot)
    requires Shaped(slots[i]) ==> Shaped(s.slot)
    requires AllSentTo(s.local, m) && AllSentTo(s.nested, m)
    requires next == slots[i := s.slot] && lo == i + 1
    requires
      && |rest.slots| == |next| && WiredSlots(rest.slots, m)
      && (ShapedSlots(next) ==> ShapedSlots(rest.slots))
      && AllSentTo(rest.trace, m)
      && rest.slots[..i + 1] == next[..i + 1] && rest.slots[|kids|..] == next[|kids|..]
      && (rest.failure.None? ==> forall j :: i + 1 <= j < |kids| ==> rest.slots[j].comp == kids[j])
      && (rest.failure.Some? ==> exists k :: StoppedAt(o, kids, next, rest, lo, k))
    ensures ShapedSlots(slots) ==> ShapedSlots(rest.slots)
    ensures var r := SlotsOutcome(rest.slots, s.local + s.nested + rest.trace, rest.failure);
      && AllSentTo(r.trace, m)
      && r.slots[..i] == slots[..i] && r.slots[|kids|..] == slots[|kids|..]
      && (r.failure.None? ==> forall j :: i <= j < |kids| ==> r.slots[j].comp == kids[j])
      && (r.failure.Some? ==> exists k :: StoppedAt(o, kids, slots, r, i, k))
  {
    assert rest.slots[..i] == slots[..i] by {
      assert rest.slots[..i] == rest.slots[..i + 1][..i];
    }
    assert rest.slots[i] == s.slot by {
      assert rest.slots[i] == rest.slots[..i + 1][i];
    }
    if ShapedSlots(slots) {
      assert ShapedSlots(next);
    }
    var t := s.local + s.nested + rest.trace;
    assert forall k :: 0 <= k < |t| ==> t[k] in s.local || t[k] in s.nested || t[k] in rest.trace;
    if rest.failure.Some? {
      var k: nat :| StoppedAt(o, kids, next, rest, lo, k);
      assert rest.slots[k..] == slots[k..];
      assert t[|t| - 1] == rest.trace[|rest.trace| - 1];
      assert StoppedAt(o, kids, slots, SlotsOutcome(rest.slots, t, rest.failure), i, k);
    }
  }

  /** The `for i := range newChildren` loop of `update`, from slot `i` on.
      A `ShouldUpdate` error stops it: earlier slots keep their changes,
      slot `k` and later ones are untouched. */
  function DiffSlots<C(!new), E>(o: Oracle<C, E>, c: C, m: MapperId, kids: seq<Option<C>>, slots: seq<Node<C>>, i: nat, at: Path)
    : (r: SlotsOutcome<C, E>)
    requires WellFounded(o) && Below(o, kids, c)
    requires i <= |kids| <= |slots| && WiredSlots(slots, m)
    decreases o.rank(c), 1, |kids| - i
    ensures |r.slots| == |slots| && WiredSlots(r.slots, m)
    ensures ShapedSlots(slots) ==> ShapedSlots(r.slots)
    ensures AllSentTo(r.trace, m)
    ensures r.slots[..i] == slots[..i] && r.slots[|kids|..] == slots[|kids|..]
    ensures r.failure.None? ==> forall j :: i <= j < |kids| ==> r.slots[j].comp == kids[j]
    // a failed ShouldUpdate stops the loop at some slot `k` (see `StoppedAt`)
    ensures r.failure.Some? ==> r.failure.value.ShouldUpdateFailed? && exists k :: StoppedAt(o, kids, slots, r, i, k)
  {
    if i == |kids| then SlotsOutcome(slots, [], None)
    else
      var s := SlotStep(o, c, m, slots[i], kids[i], at + [i]);
      if s.failure.Some? then
        assert StoppedAt(o, kids, slots, SlotsOutcome(slots, s.local, s.failure), i, i);
        SlotsOutcome(slots, s.local, s.failure)
      else
        var next := slots[i := s.slot];
        var rest := DiffSlots(o, c, m, kids, next, i + 1, at);
        SlotsCons(o, kids, slots, i, m, s, next, i + 1, rest);
        SlotsOutcome(rest.slots, s.local + s.nested + rest.trace, rest.failure)
  }

  /** The node and calls `update` leaves after diffing the slots it prepared. */
  lemma PassOfDiff<C, E>(n: Node<C>, kids: seq<Option<C>>, slots: seq<Node<C>>, d: SlotsOutcome<C, E>)
    requires n.comp.Some? && Wired(n) && !(n.rendered && |kids| != |n.children|)
    requires slots == if |kids| > |n.children| then PrepareChildren(n, Allocate(|kids|)) else n.children
    requires |d.slots| == |slots| && WiredSlots(d.slots, n.mapper.value) && AllSentTo(d.trace, n.mapper.value)
    requires ShapedSlots(slots) ==> ShapedSlots(d.slots)
    requires d.failure.None? ==> forall j :: 0 <= j < |kids| ==> d.slots[j].comp == kids[j]
    requires d.failure.Some? ==> d.failure.value.ShouldUpdateFailed?
    ensures var m := n.mapper.value; var c := n.comp.value;
      var r := Pass(n.(children := d.slots, rendered := true), [Map(m, c), Render(c)] + d.trace, d.failure);
      && Wired(r.node)
      && (Shaped(n) ==> Shaped(r.node))
      && AllSentTo(r.trace, m)
      && (|r.node.children| != |n.children| ==> !n.rendered && |r.node.children| > |n.children|)
      && (r.failure.None? && (!n.rendered ==> n.children == []) ==>
            |r.node.children| == |kids| && forall j :: 0 <= j < |r.node.children| ==> r.node.children[j].comp == kids[j])
  {
    var m := n.mapper.value;
    var t := [Map(m, n.comp.value), Render(n.comp.value)] + d.trace;
    assert forall k :: 2 <= k < |t| ==> t[k] == d.trace[k - 2];
    if Shaped(n) {
      assert ShapedSlots(slots);
    }
  }

  /** `(*Node).update`: Map, Render, arity check, slot allocation, diff. */
  function Reconcile<C(!new), E>(o: Oracle<C, E>, n: Node<C>, at: Path): (r: Pass<C, E>)
    requires WellFounded(o) && n.comp.Some? && Wired(n)
    decreases o.rank(n.comp.value), 2, 0
    ensures r.node.comp == n.comp && r.node.mapper == n.mapper && Wired(r.node)
    ensures Shaped(n) ==> Shaped(r.node)
    ensures AllSentTo(r.trace, n.mapper.value)
    // Map is reported before Render, whatever happens next
    ensures |r.trace| >= 2 && r.trace[0] == Map(n.mapper.value, n.comp.value) && r.trace[1] == Render(n.comp.value)
    // a failed Render or a changed arity leaves the node exactly as it was
    ensures o.render(n.comp.value).Failure? ==>
      r == Pass(n, r.trace[..2], Some(RenderFailed(o.render(n.comp.value).error)))
    ensures o.render(n.comp.value).Success? && n.rendered && |o.render(n.comp.value).value| != |n.children| ==>
      r == Pass(n, r.trace[..2], Some(ArityChanged(|n.children|, |o.render(n.comp.value).value|)))
    ensures r.failure.Some? ==> r.node == n || r.failure.value.ShouldUpdateFailed?
    // the slot array only changes length on the first render
    ensures |r.node.children| != |n.children| ==> !n.rendered && |r.node.children| > |n.children|
    // after a successful pass, slot i holds the i-th rendered component
    ensures r.failure.None? && (!n.rendered ==> n.children == []) ==>
      && o.render(n.comp.value).Success?
      && r.node.rendered
      && |r.node.children| == |o.render(n.comp.value).value|
      && forall j :: 0 <= j < |r.node.children| ==> r.node.children[j].comp == o.render(n.comp.value).value[j]
  {
    var c := n.comp.value;
    var m := n.mapper.value;
    var head: seq<Event<C, E>> := [Map(m, c), Render(c)];
    match o.render(c)
    case Failure(e) => Pass(n, head, Some(RenderFailed(e)))
    case Success(kids) =>
      if n.rendered && |kids| != |n.children| then
        Pass(n, head, Some(ArityChanged(|n.children|, |kids|)))
      else
        var slots := if |kids| > |n.children| then PrepareChildren(n, Allocate(|kids|)) else n.children;
        assert Below(o, kids, c);
        assert |kids| > |n.children| ==> forall j :: 0 <= j < |slots| ==> slots[j] == Vacant(m);
        var d := DiffSlots(o, c, m, kids, slots, 0, at);
        PassOfDiff(n, kids, slots, d);
        Pass(n.(children := d.slots, rendered := true), head + d.trace, d.failure)
  }

  /** `(*Node).Update`: run `update` and turn its error, if any, into exactly
      one `Mapper.Error` call naming the node's component. */
  function Update<C(!new), E>(o: Oracle<C, E>, n: Node<C>, at: Path): (r: Updated<C, E>)
    requires WellFounded(o) && n.comp.Some? && Wired(n)
    decreases o.rank(n.comp.value), 3, 0
    ensures r.node.comp == n.comp && r.node.mapper == n.mapper && Wired(r.node)
    ensures Shaped(n) ==> Shaped(r.node)
    ensures AllSentTo(r.trace, n.mapper.value)
    ensures |r.trace| >= 2 && r.trace[0] == Map(n.mapper.value, n.comp.value) && r.trace[1] == Render(n.comp.value)
    ensures var p := Reconcile(o, n, at);
      && r.node == p.node
      && (p.failure.None? ==> r.trace == p.trace)
      && (p.failure.Some? ==> r.trace == p.trace + [Error(n.mapper.value, n.comp.value, p.failure.value)])
  {
    var p := Reconcile(o, n, at);
    match p.failure
    case None => Updated(p.node, p.trace)
    case Some(f) => Updated(p.node, p.trace + [Error(n.mapper.value, n.comp.value, f)])
  }

  /** `NewNode(c, m)`: a fresh node reporting to `m`, updated once.  The root
      component is never mounted. */
  function NewNode<C(!new), E>(o: Oracle<C, E>, c: C, m: MapperId): (r: Updated<C, E>)
    requires WellFounded(o)
    ensures r.node.comp == Some(c) && r.node.mapper == Some(m) && Wired(r.node) && Shaped(r.node)
    ensures AllSentTo(r.trace, m)
    ensures |r.trace| >= 2 && r.trace[0] == Map(m, c) && r.trace[1] == Render(c)
  {
    assert Shaped(Fresh(c, m)) && Wired(Fresh(c, m));
    Update(o, Fresh(c, m), [])
  }
}
