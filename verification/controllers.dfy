/** The StateController of reactive/tree/tree.go.  `Mount` receives a pointer
    to the child slot's Node (`&n.Children[i]`); calling its `Update` later
    re-runs that node's update in place.  Here the controller is the slot's
    path from the root, and the asynchronous call becomes the sequential
    operation `UpdateAt`. */
module Controllers {
  import opened Wrappers
  import opened Tree
  import opened TreeFacts

  /** `p` leads from `n` to an existing slot. */
  predicate ValidPath<C>(n: Node<C>, p: Path)
    decreases |p|
  {
    p == [] || (p[0] < |n.children| && ValidPath(n.children[p[0]], p[1..]))
  }

  /** The slot node at `p`. */
  function At<C>(n: Node<C>, p: Path): (r: Node<C>)
    requires ValidPath(n, p)
    decreases |p|
    ensures Wired(n) ==> Wired(r) && r.mapper == n.mapper
  {
    if p == [] then n
    else
      WiredChild(n, p[0]);
      At(n.children[p[0]], p[1..])
  }

  /** `n` with the slot node at `p` replaced by `s`. */
  function ReplaceAt<C>(n: Node<C>, p: Path, s: Node<C>): (r: Node<C>)
    requires ValidPath(n, p)
    decreases |p|
    ensures ValidPath(r, p) && At(r, p) == s
    ensures p != [] ==> r.comp == n.comp && r.mapper == n.mapper && r.rendered == n.rendered
    ensures Wired(n) && Wired(s) && s.mapper == n.mapper ==> Wired(r)
  {
    if p == [] then s
    else
      var i := p[0];
      var child := ReplaceAt(n.children[i], p[1..], s);
      var r := n.(children := n.children[i := child]);
      assert Wired(n) && Wired(s) && s.mapper == n.mapper ==> WiredSlots(r.children, n.mapper.value) by {
        if Wired(n) && Wired(s) && s.mapper == n.mapper {
          assert WiredSlots(n.children, n.mapper.value);
          WiredChild(n, i);
        }
      }
      r
  }

  predicate IsPrefix(p: Path, q: Path) {
    |p| <= |q| && q[..|p|] == p
  }

  /** Replacing the slot at `p` leaves every slot off `p`'s branch as it was. */
  lemma {:induction false} ReplaceAtFrames<C>(n: Node<C>, p: Path, s: Node<C>, q: Path)
    requires ValidPath(n, p) && ValidPath(n, q)
    requires !IsPrefix(p, q) && !IsPrefix(q, p)
    ensures ValidPath(ReplaceAt(n, p, s), q) && At(ReplaceAt(n, p, s), q) == At(n, q)
    decreases |p|
  {
    assert p != [] && q != [];
    var r := ReplaceAt(n, p, s);
    if p[0] != q[0] {
      assert r.children[q[0]] == n.children[q[0]];
    } else {
      ReplaceAtFrames(n.children[p[0]], p[1..], s, q[1..]);
    }
  }

  /** Putting back the node already at `p` changes nothing. */
  lemma {:induction false} ReplaceAtSame<C>(n: Node<C>, p: Path)
    requires ValidPath(n, p)
    ensures ReplaceAt(n, p, At(n, p)) == n
    decreases |p|
  {
    if p != [] {
      ReplaceAtSame(n.children[p[0]], p[1..]);
      assert n.children[p[0] := n.children[p[0]]] == n.children;
    }
  }

  /** Every slot of a settled tree is settled. */
  lemma {:induction false} SettledAt<C(!new), E>(o: Oracle<C, E>, n: Node<C>, p: Path)
    requires Settled(o, n) && ValidPath(n, p)
    ensures Settled(o, At(n, p))
    decreases |p|
  {
    if p != [] {
      SettledAt(o, n.children[p[0]], p[1..]);
    }
  }

  /** A StateController's `Update()`: update the node in slot `p` in place.
      Calling it on a slot whose component was closed and not replaced would
      dereference a nil Component in Go, hence the precondition. */
  function UpdateAt<C(!new), E>(o: Oracle<C, E>, root: Node<C>, p: Path): (r: Updated<C, E>)
    requires WellFounded(o) && Wired(root) && ValidPath(root, p) && At(root, p).comp.Some?
    ensures Wired(r.node) && r.node.mapper == root.mapper
    ensures AllSentTo(r.trace, root.mapper.value)
    ensures ValidPath(r.node, p) && At(r.node, p).comp == At(root, p).comp
    // the slot becomes what `Update` makes of it, and its calls are all the calls
    ensures At(r.node, p) == Update(o, At(root, p), p).node
    ensures r.trace == Update(o, At(root, p), p).trace
    // the root node itself is only rebuilt around the new slot
    ensures p != [] ==> r.node.comp == root.comp && r.node.rendered == root.rendered
    ensures |r.trace| >= 2 && r.trace[0] == Map(root.mapper.value, At(root, p).comp.value)
    ensures forall q :: ValidPath(root, q) && !IsPrefix(p, q) && !IsPrefix(q, p) ==>
      ValidPath(r.node, q) && At(r.node, q) == At(root, q)
  {
    var u := Update(o, At(root, p), p);
    var r := ReplaceAt(root, p, u.node);
    assert forall q :: ValidPath(root, q) && !IsPrefix(p, q) && !IsPrefix(q, p) ==>
      ValidPath(r, q) && At(r, q) == At(root, q) by {
      forall q | ValidPath(root, q) && !IsPrefix(p, q) && !IsPrefix(q, p) {
        ReplaceAtFrames(root, p, u.node, q);
      }
    }
    Updated(r, u.trace)
  }

  /** The slot `ctrl` names lies at or below `at`, and in `n` (the node at
      `at`) it holds `c`. */
  ghost predicate Under<C>(n: Node<C>, at: Path, ctrl: Path, c: C) {
    && |at| <= |ctrl|
    && ctrl[..|at|] == at
    && ValidPath(n, ctrl[|at|..])
    && At(n, ctrl[|at|..]).comp == Some(c)
  }

  /** Every controller handed to `Mount` in `t` names a slot at or below `at`
      that, in `n`, holds the component that was mounted. */
  ghost predicate MountsUnder<C, E>(n: Node<C>, at: Path, t: seq<Event<C, E>>) {
    forall k :: 0 <= k < |t| && t[k].Mount? ==> Under(n, at, t[k].controller, t[k].c)
  }

  /** The same for the slots `lo..` of the node at `at`. */
  ghost predicate SlotMountsUnder<C, E>(slots: seq<Node<C>>, at: Path, lo: nat, t: seq<Event<C, E>>) {
    forall k :: 0 <= k < |t| && t[k].Mount? ==>
      && |at| < |t[k].controller|
      && lo <= t[k].controller[|at|] < |slots|
      && Under(slots[t[k].controller[|at|]], at + [t[k].controller[|at|]], t[k].controller, t[k].c)
  }

  /** Controllers handed out below `at` that name proper descendants of the
      node at `at`: the node's own component is never mounted by its update. */
  ghost predicate ControllersLive<C, E>(n: Node<C>, at: Path, t: seq<Event<C, E>>) {
    forall k :: 0 <= k < |t| && t[k].Mount? ==> |at| < |t[k].controller| && Under(n, at, t[k].controller, t[k].c)
  }

  lemma LiftUnder<C>(n: Node<C>, at: Path, j: nat, ctrl: Path, c: C)
    requires j < |n.children| && Under(n.children[j], at + [j], ctrl, c)
    ensures |at| < |ctrl| && ctrl[|at|] == j && Under(n, at, ctrl, c)
  {
    assert ctrl[..|at|] == ctrl[..|at| + 1][..|at|];
    assert ctrl[|at|] == ctrl[..|at| + 1][|at|];
    var q := ctrl[|at|..];
    assert q[0] == j && q[1..] == ctrl[|at| + 1..];
  }

  lemma SlotUnder<C>(slots: seq<Node<C>>, at: Path, i: nat, ctrl: Path, c: C)
    requires i < |slots| && Under(slots[i], at + [i], ctrl, c)
    ensures |at| < |ctrl| && ctrl[|at|] == i
  {
    assert ctrl[..|at| + 1][|at|] == i;
  }

  lemma {:induction false} MountsAppend<C, E>(slots: seq<Node<C>>, at: Path, lo: nat, a: seq<Event<C, E>>, b: seq<Event<C, E>>)
    requires SlotMountsUnder(slots, at, lo, a) && SlotMountsUnder(slots, at, lo, b)
    ensures SlotMountsUnder(slots, at, lo, a + b)
  {
    forall k | 0 <= k < |a + b| && (a + b)[k].Mount?
      ensures && |at| < |(a + b)[k].controller|
              && lo <= (a + b)[k].controller[|at|] < |slots|
              && Under(slots[(a + b)[k].controller[|at|]], at + [(a + b)[k].controller[|at|]], (a + b)[k].controller, (a + b)[k].c)
    {
      if k >= |a| { assert (a + b)[k] == b[k - |a|]; }
    }
  }

  /** Controllers handed out for the slots of `n` name proper descendants of `n`. */
  lemma LiftSlotMounts<C, E>(n: Node<C>, at: Path, t: seq<Event<C, E>>)
    requires SlotMountsUnder(n.children, at, 0, t)
    ensures ControllersLive(n, at, t)
  {
    forall k | 0 <= k < |t| && t[k].Mount?
      ensures |at| < |t[k].controller| && Under(n, at, t[k].controller, t[k].c)
    {
      LiftUnder(n, at, t[k].controller[|at|], t[k].controller, t[k].c);
    }
  }

  /** Calls around `body` that mount nothing keep its controllers live. */
  lemma LiveWithin<C, E>(n: Node<C>, at: Path, t: seq<Event<C, E>>, head: seq<Event<C, E>>, body: seq<Event<C, E>>, tail: seq<Event<C, E>>)
    requires t == head + body + tail && ControllersLive(n, at, body)
    requires forall k :: 0 <= k < |head| ==> !head[k].Mount?
    requires forall k :: 0 <= k < |tail| ==> !tail[k].Mount?
    ensures ControllersLive(n, at, t)
  {
    assert forall k :: 0 <= k < |t| && t[k].Mount? ==> |head| <= k < |head| + |body| && t[k] == body[k - |head|];
  }

  /** After an update, every component mounted during it sits in the slot its
      controller names: a later `UpdateAt` through that controller updates it. */
  lemma {:induction false} UpdateControllersLive<C(!new), E>(o: Oracle<C, E>, n: Node<C>, at: Path)
    requires WellFounded(o) && n.comp.Some? && Wired(n)
    ensures ControllersLive(Update(o, n, at).node, at, Update(o, n, at).trace)
    decreases o.rank(n.comp.value), 2, 0
  {
    var c := n.comp.value;
    var m := n.mapper.value;
    var u := Update(o, n, at);
    var p := Reconcile(o, n, at);
    match o.render(c)
    case Failure(_) =>
      assert forall k :: 0 <= k < |u.trace| ==> !u.trace[k].Mount?;
    case Success(kids) =>
      if n.rendered && |kids| != |n.children| {
        assert forall k :: 0 <= k < |u.trace| ==> !u.trace[k].Mount?;
      } else {
        UpdateControllersDiffed(o, n, at, kids);
      }
  }

  /** The case of `UpdateControllersLive` where `update` goes on to diff the slots. */
  lemma {:induction false} UpdateControllersDiffed<C(!new), E>(o: Oracle<C, E>, n: Node<C>, at: Path, kids: seq<Option<C>>)
    requires WellFounded(o) && n.comp.Some? && Wired(n)
    requires o.render(n.comp.value) == Success(kids) && !(n.rendered && |kids| != |n.children|)
    ensures ControllersLive(Update(o, n, at).node, at, Update(o, n, at).trace)
    decreases o.rank(n.comp.value), 2, 0, 0
  {
    var c := n.comp.value;
    var m := n.mapper.value;
    var u := Update(o, n, at);
    var slots := if |kids| > |n.children| then PrepareChildren(n, Allocate(|kids|)) else n.children;
    assert Below(o, kids, c);
    assert WiredSlots(slots, m);
    var d := DiffSlots(o, c, m, kids, slots, 0, at);
    DiffControllersLive(o, c, m, kids, slots, 0, at);
    assert u.node.children == d.slots;
    LiftSlotMounts(u.node, at, d.trace);
    var head: seq<Event<C, E>> := [Map(m, c), Render(c)];
    var tail: seq<Event<C, E>> := if d.failure.None? then [] else [Error(m, c, d.failure.value)];
    assert u.trace == head + d.trace + tail;
    LiveWithin(u.node, at, u.trace, head, d.trace, tail);
  }

  lemma {:induction false} DiffControllersLive<C(!new), E>(o: Oracle<C, E>, c: C, m: MapperId, kids: seq<Option<C>>,
                                                          slots: seq<Node<C>>, i: nat, at: Path)
    requires WellFounded(o) && Below(o, kids, c)
    requires i <= |kids| <= |slots| && WiredSlots(slots, m)
    ensures SlotMountsUnder(DiffSlots(o, c, m, kids, slots, i, at).slots, at, i, DiffSlots(o, c, m, kids, slots, i, at).trace)
    decreases o.rank(c), 1, |kids| - i
  {
    var r := DiffSlots(o, c, m, kids, slots, i, at);
    if i < |kids| {
      var path := at + [i];
      var s := SlotStep(o, c, m, slots[i], kids[i], path);
      if s.failure.Some? {
        assert forall k :: 0 <= k < |r.trace| ==> !r.trace[k].Mount?;
      } else {
        DiffControllersStep(o, c, m, kids, slots, i, at, s);
      }
    }
  }

  /** The step of `DiffControllersLive` at a slot whose ShouldUpdate did not fail. */
  lemma {:induction false} DiffControllersStep<C(!new), E>(o: Oracle<C, E>, c: C, m: MapperId, kids: seq<Option<C>>,
                                                          slots: seq<Node<C>>, i: nat, at: Path, s: SlotOutcome<C, E>)
    requires WellFounded(o) && Below(o, kids, c)
    requires i < |kids| <= |slots| && WiredSlots(slots, m)
    requires s == SlotStep(o, c, m, slots[i], kids[i], at + [i]) && s.failure.None?
    ensures SlotMountsUnder(DiffSlots(o, c, m, kids, slots, i, at).slots, at, i, DiffSlots(o, c, m, kids, slots, i, at).trace)
    decreases o.rank(c), 1, |kids| - i, 0
  {
    var r := DiffSlots(o, c, m, kids, slots, i, at);
    var next := slots[i := s.slot];
    var rest := DiffSlots(o, c, m, kids, next, i + 1, at);
    DiffControllersLive(o, c, m, kids, next, i + 1, at);
    SamePrefixAt(rest.slots, next, i);
    SlotStepControllersLive(o, c, m, slots[i], kids[i], at + [i]);
    assert r.slots == rest.slots && r.trace == (s.local + s.nested) + rest.trace;
    JoinMounts(r.slots, at, i, s.local + s.nested, rest.trace);
  }

  /** Controllers handed out inside slot `i` name slots of that slot. */
  lemma PlaceMounts<C, E>(slots: seq<Node<C>>, at: Path, i: nat, t: seq<Event<C, E>>)
    requires i < |slots| && MountsUnder(slots[i], at + [i], t)
    ensures SlotMountsUnder(slots, at, i, t)
  {
    forall k | 0 <= k < |t| && t[k].Mount?
      ensures && |at| < |t[k].controller|
              && i <= t[k].controller[|at|] < |slots|
              && Under(slots[t[k].controller[|at|]], at + [t[k].controller[|at|]], t[k].controller, t[k].c)
    {
      SlotUnder(slots, at, i, t[k].controller, t[k].c);
    }
  }

  lemma WidenMounts<C, E>(slots: seq<Node<C>>, at: Path, lo: nat, t: seq<Event<C, E>>)
    requires SlotMountsUnder(slots, at, lo + 1, t)
    ensures SlotMountsUnder(slots, at, lo, t)
  {
  }

  /** Slot `i`'s own calls followed by those of the later slots. */
  lemma JoinMounts<C, E>(slots: seq<Node<C>>, at: Path, i: nat, a: seq<Event<C, E>>, b: seq<Event<C, E>>)
    requires i < |slots| && MountsUnder(slots[i], at + [i], a) && SlotMountsUnder(slots, at, i + 1, b)
    ensures SlotMountsUnder(slots, at, i, a + b)
  {
    PlaceMounts(slots, at, i, a);
    WidenMounts(slots, at, i, b);
    MountsAppend(slots, at, i, a, b);
  }

  /** One slot step: a Mount it makes names this very slot, and controllers
      handed out by the slot's own recursive update name slots below it. */
  lemma {:induction false} SlotStepControllersLive<C(!new), E>(o: Oracle<C, E>, parent: C, m: MapperId, slot: Node<C>,
                                                              next: Option<C>, path: Path)
    requires WellFounded(o)
    requires slot.mapper == Some(m) && Wired(slot)
    requires next.Some? ==> o.rank(next.value) < o.rank(parent)
    ensures var s := SlotStep(o, parent, m, slot, next, path); MountsUnder(s.slot, path, s.local + s.nested)
    decreases o.rank(parent), 0, 0
  {
    var s := SlotStep(o, parent, m, slot, next, path);
    if s.nested != [] {
      UpdateControllersLive(o, slot.(comp := next), path);
    }
    if slot.comp.None? && next.Some? {
      SelfUnder(s.slot, path, next.value);
    }
    assert MountsUnder(s.slot, path, s.local);
    MountsUnderAppend(s.slot, path, s.local, s.nested);
  }

  /** A slot's own controller names the slot itself. */
  lemma SelfUnder<C>(n: Node<C>, path: Path, c: C)
    requires n.comp == Some(c)
    ensures Under(n, path, path, c)
  {
    assert path[..|path|] == path && path[|path|..] == [];
  }

  lemma MountsUnderAppend<C, E>(n: Node<C>, at: Path, a: seq<Event<C, E>>, b: seq<Event<C, E>>)
    requires MountsUnder(n, at, a) && MountsUnder(n, at, b)
    ensures MountsUnder(n, at, a + b)
  {
    assert forall k :: |a| <= k < |a + b| ==> (a + b)[k] == b[k - |a|];
  }
}
