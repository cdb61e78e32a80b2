/** The test doubles of reactive/tree/treetest/treetest.go.

    `Recorder` is a Mapper that logs what it is told; here it is fed the
    Mapper events of a trace.  `StaticComponent` renders a fixed child list
    and never asks to update; its value (id and children) is its identity,
    and its call logs (MountCalls, CloseCalls, ShouldUpdateCalls,
    RenderCalls) are read off the trace of the calls made on it. */
module TreeTest {
  import opened Wrappers
  import opened Tree
  import opened TreeFacts
  import opened Controllers

  datatype RecordedError<C, E> = RecordedError(c: C, err: UpdateError<E>)

  datatype Recorder<C, E> = Recorder(components: seq<C>, closedComponents: seq<C>, errors: seq<RecordedError<C, E>>)
  {
    /** `Map` appends to `Components` only. */
    function Map(c: C): (r: Recorder<C, E>)
      ensures r.components == components + [c]
      ensures r.closedComponents == closedComponents && r.errors == errors
    {
      this.(components := components + [c])
    }

    /** `UnMap` appends to `ClosedComponents` only. */
    function UnMap(c: C): (r: Recorder<C, E>)
      ensures r.closedComponents == closedComponents + [c]
      ensures r.components == components && r.errors == errors
    {
      this.(closedComponents := closedComponents + [c])
    }

    /** `Error` appends `{c, err}` to `Errors` only. */
    function Error(c: C, err: UpdateError<E>): (r: Recorder<C, E>)
      ensures r.errors == errors + [RecordedError(c, err)]
      ensures r.components == components && r.closedComponents == closedComponents
    {
      this.(errors := errors + [RecordedError(c, err)])
    }
  }

  /** `Clear`: the zero Recorder. */
  function Cleared<C, E>(): (r: Recorder<C, E>)
    ensures r.components == [] && r.closedComponents == [] && r.errors == []
  {
    Recorder([], [], [])
  }

  /** What the Recorder does with one event: Mapper calls are logged, calls
      on components are not its business. */
  function Observe<C, E>(rec: Recorder<C, E>, e: Event<C, E>): Recorder<C, E> {
    match e
    case Map(_, c) => rec.Map(c)
    case UnMap(_, c) => rec.UnMap(c)
    case Error(_, c, f) => rec.Error(c, f)
    case _ => rec
  }

  /** The Recorder after it has been told, in order, the Mapper calls of `t`. */
  function Replay<C, E>(rec: Recorder<C, E>, t: seq<Event<C, E>>): Recorder<C, E>
    decreases |t|
  {
    if t == [] then rec else Replay(Observe(rec, t[0]), t[1..])
  }

  function UnMapsOf<C, E>(t: seq<Event<C, E>>): seq<C> {
    if t == [] then [] else (if t[0].UnMap? then [t[0].c] else []) + UnMapsOf(t[1..])
  }

  function ErrorsOf<C, E>(t: seq<Event<C, E>>): seq<RecordedError<C, E>> {
    if t == [] then [] else (if t[0].Error? then [RecordedError(t[0].c, t[0].failure)] else []) + ErrorsOf(t[1..])
  }

  /** A Recorder used as the tree's Mapper ends up holding exactly the
      components passed to Map, UnMap and Error, in call order, after
      whatever it held before. */
  lemma {:induction false} ReplayLogs<C, E>(rec: Recorder<C, E>, t: seq<Event<C, E>>)
    ensures Replay(rec, t) == Recorder(rec.components + MapsOf(t), rec.closedComponents + UnMapsOf(t), rec.errors + ErrorsOf(t))
    decreases |t|
  {
    if t == [] {
      assert rec.components + [] == rec.components;
      assert rec.closedComponents + [] == rec.closedComponents;
      assert rec.errors + [] == rec.errors;
    } else {
      ReplayLogs(Observe(rec, t[0]), t[1..]);
      assert t == [t[0]] + t[1..];
      var x := Observe(rec, t[0]);
      assert x.components + MapsOf(t[1..]) == rec.components + MapsOf(t);
      assert x.closedComponents + UnMapsOf(t[1..]) == rec.closedComponents + UnMapsOf(t);
      assert x.errors + ErrorsOf(t[1..]) == rec.errors + ErrorsOf(t);
    }
  }

  /** A trace without UnMap or Error calls leaves those two logs empty. */
  lemma {:induction false} QuietLogs<C, E>(t: seq<Event<C, E>>)
    requires forall k :: 0 <= k < |t| ==> !t[k].UnMap? && !t[k].Error?
    ensures UnMapsOf(t) == [] && ErrorsOf(t) == []
    decreases |t|
  {
    if t != [] {
      QuietLogs(t[1..]);
    }
  }

  // ---------------------------------------------------------------------
  // StaticComponent

  datatype Static = Static(id: string, children: seq<Option<Static>>)

  /** A rank for static components: one more than the tallest child. */
  function Height(s: Static): (h: nat)
    decreases s, 1
    ensures forall i :: 0 <= i < |s.children| && s.children[i].Some? ==> Height(s.children[i].value) < h
  {
    1 + Tallest(s, 0)
  }

  /** The height of the tallest of `s.children[i..]`. */
  function Tallest(s: Static, i: nat): (h: nat)
    requires i <= |s.children|
    decreases s, 0, |s.children| - i
    ensures forall j :: i <= j < |s.children| && s.children[j].Some? ==> Height(s.children[j].value) <= h
  {
    if i == |s.children| then 0
    else
      var first := if s.children[i].Some? then Height(s.children[i].value) else 0;
      var rest := Tallest(s, i + 1);
      if first < rest then rest else first
  }

  /** StaticComponent's `Render` returns its `Children` and never fails; its
      `ShouldUpdate` answers `(false, nil)` whatever it is asked about. */
  function StaticOracle<E>(): (o: Oracle<Static, E>)
    ensures WellFounded(o)
    ensures forall s {:trigger o.render(s)} :: o.render(s) == Success(s.children)
    ensures forall s, prev :: o.shouldUpdate(s, prev) == Success(false)
  {
    Oracle((s: Static) => Success(s.children), (s: Static, prev: Static) => Success(false), (s: Static) => Height(s))
  }

  /** The call logs a StaticComponent keeps. */
  datatype StaticLog = StaticLog(
    mountCalls: seq<Path>,
    closeCalls: nat,
    shouldUpdateCalls: seq<Static>,
    renderCalls: nat)

  /** What one call does to the logs of `s`: Mount, Close, ShouldUpdate and
      Render on `s` each append exactly one record to their own log;
      anything else leaves the logs of `s` alone. */
  function Note<E>(log: StaticLog, e: Event<Static, E>, s: Static): (r: StaticLog)
    ensures e.Mount? && e.c == s ==> r == log.(mountCalls := log.mountCalls + [e.controller])
    ensures e == Close(s) ==> r == log.(closeCalls := log.closeCalls + 1)
    ensures e.ShouldUpdate? && e.c == s ==> r == log.(shouldUpdateCalls := log.shouldUpdateCalls + [e.previous])
    ensures e == Render(s) ==> r == log.(renderCalls := log.renderCalls + 1)
    ensures e.Map? || e.UnMap? || e.Error? || e.c != s ==> r == log
  {
    match e
    case Mount(c, p) => if c == s then log.(mountCalls := log.mountCalls + [p]) else log
    case Close(c) => if c == s then log.(closeCalls := log.closeCalls + 1) else log
    case ShouldUpdate(c, prev) => if c == s then log.(shouldUpdateCalls := log.shouldUpdateCalls + [prev]) else log
    case Render(c) => if c == s then log.(renderCalls := log.renderCalls + 1) else log
    case _ => log
  }

  /** The logs of `s` after the calls of `t`, starting from `log`. */
  function LogFrom<E>(log: StaticLog, t: seq<Event<Static, E>>, s: Static): StaticLog
    decreases |t|
  {
    if t == [] then log else LogFrom(Note(log, t[0], s), t[1..], s)
  }

  function LogOf<E>(t: seq<Event<Static, E>>, s: Static): StaticLog {
    LogFrom(StaticLog([], 0, [], 0), t, s)
  }

  lemma {:induction false} LogFromAppend<E>(log: StaticLog, a: seq<Event<Static, E>>, b: seq<Event<Static, E>>, s: Static)
    ensures LogFrom(log, a + b, s) == LogFrom(LogFrom(log, a, s), b, s)
    decreases |a|
  {
    if a == [] {
      assert a + b == b;
    } else {
      assert (a + b)[1..] == a[1..] + b;
      LogFromAppend(Note(log, a[0], s), a[1..], b, s);
    }
  }

  /** The controllers the Mounts of `t` hand to `s`, in trace order. */
  function ControllersOf<E>(t: seq<Event<Static, E>>, s: Static): seq<Path>
    decreases |t|
  {
    if t == [] then []
    else (if t[0].Mount? && t[0].c == s then [t[0].controller] else []) + ControllersOf(t[1..], s)
  }

  /** One controller per Mount of `s`... */
  lemma {:induction false} ControllersOfCount<E>(t: seq<Event<Static, E>>, s: Static)
    ensures |ControllersOf(t, s)| == multiset(MountedOf(t))[s]
    decreases |t|
  {
    if t != [] {
      ControllersOfCount(t[1..], s);
      assert MountedOf(t) == (if t[0].Mount? then [t[0].c] else []) + MountedOf(t[1..]);
    }
  }

  /** ... each handed over by one of them. */
  lemma {:induction false} ControllersOfMounts<E>(t: seq<Event<Static, E>>, s: Static)
    ensures forall p :: p in ControllersOf(t, s) ==> Mount(s, p) in t
    decreases |t|
  {
    if t != [] {
      ControllersOfMounts(t[1..], s);
      assert forall e :: e in t[1..] ==> e in t;
    }
  }

  lemma Regroup<T>(a: seq<T>, b: seq<T>, c: seq<T>)
    ensures (a + b) + c == a + (b + c)
  {
  }

  lemma AppendedTail<T>(a: seq<T>, b: seq<T>)
    ensures forall j :: |a| <= j < |a + b| ==> (a + b)[j] == b[j - |a|]
  {
  }

  /** `s` records one MountCall per Mount of `s` in the trace, in order, each
      holding the controller that Mount was given. */
  lemma {:induction false} LogFromControllers<E>(log: StaticLog, t: seq<Event<Static, E>>, s: Static)
    ensures LogFrom(log, t, s).mountCalls == log.mountCalls + ControllersOf(t, s)
    decreases |t|
  {
    if t != [] {
      var l1 := Note(log, t[0], s);
      LogFromControllers(l1, t[1..], s);
      var head: seq<Path> := if t[0].Mount? && t[0].c == s then [t[0].controller] else [];
      assert l1.mountCalls == log.mountCalls + head;
      assert ControllersOf(t, s) == head + ControllersOf(t[1..], s);
      Regroup(log.mountCalls, head, ControllersOf(t[1..], s));
    }
  }

  /** Hence one new MountCall per Mount of `s`, each naming a controller
      some Mount of `s` was given, after the records already there. */
  lemma LogFromMounts<E>(log: StaticLog, t: seq<Event<Static, E>>, s: Static)
    ensures var r := LogFrom(log, t, s);
      && r.mountCalls == log.mountCalls + ControllersOf(t, s)
      && |r.mountCalls| == |log.mountCalls| + multiset(MountedOf(t))[s]
      && forall j :: |log.mountCalls| <= j < |r.mountCalls| ==>
           exists k :: 0 <= k < |t| && t[k] == Mount(s, r.mountCalls[j])
  {
    LogFromControllers(log, t, s);
    ControllersOfCount(t, s);
    ControllersOfMounts(t, s);
    var c := ControllersOf(t, s);
    AppendedTail(log.mountCalls, c);
  }

  /** `n` copies of `x`. */
  function Copies<T>(x: T, n: nat): (r: seq<T>)
    ensures |r| == n && forall j :: 0 <= j < n ==> r[j] == x
  {
    if n == 0 then [] else [x] + Copies(x, n - 1)
  }

  lemma CopiesCons<T>(a: seq<T>, x: T, n: nat)
    ensures a + [x] + Copies(x, n) == a + Copies(x, n + 1)
  {
    assert Copies(x, n + 1) == [x] + Copies(x, n);
  }

  lemma CountFrom<T>(kids: seq<T>, i: nat, v: T)
    requires i < |kids|
    ensures multiset(kids[i..])[v] == (if kids[i] == v then 1 else 0) + multiset(kids[i + 1..])[v]
  {
    assert kids[i..] == [kids[i]] + kids[i + 1..];
  }

  /** The ShouldUpdate questions of a quiet re-render reach `x` once per slot
      that holds it, each recording `x` itself as the component compared
      against; the other logs of `x` are untouched. */
  lemma {:induction false} LogFromSelfAsks<E>(log: StaticLog, kids: seq<Option<Static>>, i: nat, x: Static)
    requires i <= |kids|
    ensures LogFrom(log, SelfAsks<Static, E>(kids, i), x) ==
      log.(shouldUpdateCalls := log.shouldUpdateCalls + Copies(x, multiset(kids[i..])[Some(x)]))
    decreases |kids| - i
  {
    if i == |kids| {
      assert kids[i..] == [];
      assert log.shouldUpdateCalls + [] == log.shouldUpdateCalls;
    } else {
      var rest := SelfAsks<Static, E>(kids, i + 1);
      var first: seq<Event<Static, E>> := if kids[i].Some? then [ShouldUpdate(kids[i].value, kids[i].value)] else [];
      assert SelfAsks<Static, E>(kids, i) == first + rest;
      LogFromAppend(log, first, rest, x);
      var l1 := LogFrom(log, first, x);
      if kids[i].Some? {
        assert first[1..] == [];
        assert l1 == Note(log, first[0], x);
      } else {
        assert l1 == log;
      }
      LogFromSelfAsks<E>(l1, kids, i + 1, x);
      CountFrom(kids, i, Some(x));
      var n := multiset(kids[i + 1..])[Some(x)];
      if kids[i] == Some(x) {
        assert l1.shouldUpdateCalls == log.shouldUpdateCalls + [x];
        CopiesCons(log.shouldUpdateCalls, x, n);
      }
    }
  }

  /** A quiet re-render of `s` adds one RenderCall to `s` and nothing else. */
  lemma {:induction false} QuietPassLog<E>(log: StaticLog, m: MapperId, s: Static)
    requires forall j :: 0 <= j < |s.children| ==> s.children[j] != Some(s)
    ensures LogFrom(log, [Map(m, s), Render(s)] + SelfAsks<Static, E>(s.children, 0), s) ==
      log.(renderCalls := log.renderCalls + 1)
  {
    var head: seq<Event<Static, E>> := [Map(m, s), Render(s)];
    assert head[1..] == [Render(s)] && head[1..][1..] == [];
    LogFromAppend(log, head, SelfAsks<Static, E>(s.children, 0), s);
    var l1 := log.(renderCalls := log.renderCalls + 1);
    LogFromSelfAsks<E>(l1, s.children, 0, s);
    assert s.children[0..] == s.children;
    assert Some(s) !in multiset(s.children);
    assert l1.shouldUpdateCalls + [] == l1.shouldUpdateCalls;
  }

  datatype ForceError = NeverMounted(id: string)

  /** `ForceUpdate`: fails when `s` has no record of being mounted, otherwise
      runs `Update` through the controller of its most recent Mount.  The
      slot that controller names must hold a component (Go would dereference
      a nil Component otherwise). */
  function ForceUpdate<E>(o: Oracle<Static, E>, root: Node<Static>, history: seq<Event<Static, E>>, s: Static)
    : (r: Result<Updated<Static, E>, ForceError>)
    requires WellFounded(o) && Wired(root)
    requires var calls := LogOf(history, s).mountCalls;
      calls != [] ==> ValidPath(root, calls[|calls| - 1]) && At(root, calls[|calls| - 1]).comp.Some?
    ensures r.Failure? <==> LogOf(history, s).mountCalls == []
    ensures r.Failure? ==> r.error == NeverMounted(s.id)
    ensures r.Success? ==>
      var calls := LogOf(history, s).mountCalls;
      var p := calls[|calls| - 1];
      && Wired(r.value.node) && AllSentTo(r.value.trace, root.mapper.value)
      && |r.value.trace| >= 2 && r.value.trace[0] == Map(root.mapper.value, At(root, p).comp.value)
      && ValidPath(r.value.node, p) && At(r.value.node, p).comp == At(root, p).comp
  {
    var calls := LogOf(history, s).mountCalls;
    if |calls| < 1 then Failure(NeverMounted(s.id))
    else Success(UpdateAt(o, root, calls[|calls| - 1]))
  }

  /** A forced update that goes ahead is the update run through the most
      recent controller: the slot it names becomes what that slot's `Update`
      makes of it, those are all the calls made, and every slot beside it is
      left as it was. */
  lemma ForceUpdateRuns<E>(o: Oracle<Static, E>, root: Node<Static>, history: seq<Event<Static, E>>, s: Static)
    requires WellFounded(o) && Wired(root)
    requires var calls := LogOf(history, s).mountCalls;
      calls != [] ==> ValidPath(root, calls[|calls| - 1]) && At(root, calls[|calls| - 1]).comp.Some?
    ensures var r := ForceUpdate(o, root, history, s);
      r.Success? ==>
        var calls := LogOf(history, s).mountCalls;
        var p := calls[|calls| - 1];
        && r.value == UpdateAt(o, root, p)
        && At(r.value.node, p) == Update(o, At(root, p), p).node
        && r.value.trace == Update(o, At(root, p), p).trace
        && forall q :: ValidPath(root, q) && !IsPrefix(p, q) && !IsPrefix(q, p) ==>
             ValidPath(r.value.node, q) && At(r.value.node, q) == At(root, q)
  {
  }

  /** Building any static tree: the Recorder is passed every component in
      pre-order and told of no unmapping and no error; each component is
      told once per slot it occupies that it was mounted (the root: never);
      nobody is asked whether to update. */
  lemma StaticBuild<E>(root: Static, m: MapperId)
    ensures var b := NewNode(StaticOracle<E>(), root, m);
      && Replay(Cleared(), b.trace) == Recorder(Preorder(StaticOracle<E>(), root), [], [])
      && (forall k :: 0 <= k < |b.trace| ==> !b.trace[k].ShouldUpdate? && !b.trace[k].Close?)
      && forall x :: |LogOf(b.trace, x).mountCalls| == multiset(Preorder(StaticOracle<E>(), root)[1..])[x]
  {
    var o := StaticOracle<E>();
    FreshUpdate(o, root, m, []);
    BuildLogs(o, root, m);
  }

  /** The logs a first build leaves when no Render fails. */
  lemma BuildLogs<E>(o: Oracle<Static, E>, root: Static, m: MapperId)
    requires WellFounded(o) && forall c :: o.render(c).Success?
    ensures var t := BuildTrace(o, root, m, []);
      && Replay(Cleared(), t) == Recorder(Preorder(o, root), [], [])
      && (forall k :: 0 <= k < |t| ==> !t[k].ShouldUpdate? && !t[k].Close?)
      && forall x :: |LogOf(t, x).mountCalls| == multiset(Preorder(o, root)[1..])[x]
  {
    var t := BuildTrace(o, root, m, []);
    BuildMapsPreorder(o, root, m, []);
    BuildMountsPreorder(o, root, m, []);
    QuietLogs(t);
    ReplayLogs(Cleared(), t);
    forall x
      ensures |LogOf(t, x).mountCalls| == multiset(Preorder(o, root)[1..])[x]
    {
      MountCount(t, x);
    }
  }

  lemma MountCount<E>(t: seq<Event<Static, E>>, s: Static)
    ensures |LogOf(t, s).mountCalls| == multiset(MountedOf(t))[s]
  {
    LogFromMounts(StaticLog([], 0, [], 0), t, s);
  }

  /** After a first build, the most recent controller handed to any
      component below the root names the slot holding it. */
  lemma LastMountLive<E>(o: Oracle<Static, E>, root: Static, m: MapperId, s: Static)
    requires WellFounded(o) && s in Preorder(o, root)[1..]
    ensures var b := NewNode(o, root, m);
      var calls := LogOf(b.trace, s).mountCalls;
      && calls != [] && ValidPath(b.node, calls[|calls| - 1]) && At(b.node, calls[|calls| - 1]).comp == Some(s)
  {
    var b := NewNode(o, root, m);
    FreshUpdate(o, root, m, []);
    BuildMountsPreorder(o, root, m, []);
    assert s in MountedOf(b.trace);
    assert multiset(MountedOf(b.trace))[s] > 0;
    LogFromMounts(StaticLog([], 0, [], 0), b.trace, s);
    var calls := LogOf(b.trace, s).mountCalls;
    assert |calls| > 0;
    var p := calls[|calls| - 1];
    assert exists k :: 0 <= k < |b.trace| && b.trace[k] == Mount(s, p);
    var k :| 0 <= k < |b.trace| && b.trace[k] == Mount(s, p);
    UpdateControllersLive(o, Fresh(root, m), []);
    assert b.trace[k].Mount?;
    assert Under(b.node, [], p, s);
    assert p[0..] == p;
  }

  /** Forcing an update of any component below the root of a freshly built
      static tree: the component's most recent controller names the slot
      holding it, and the update re-renders it, asks each of its present
      children whether to update (each about itself), and leaves the tree
      exactly as it was. */
  lemma StaticForceUpdate<E>(root: Static, m: MapperId, s: Static)
    requires s in Preorder(StaticOracle<E>(), root)[1..]
    ensures var o := StaticOracle<E>(); var b := NewNode(o, root, m);
      var calls := LogOf(b.trace, s).mountCalls;
      && calls != [] && ValidPath(b.node, calls[|calls| - 1]) && At(b.node, calls[|calls| - 1]).comp == Some(s)
      && ForceUpdate(o, b.node, b.trace, s) == Success(Updated(b.node, [Map(m, s), Render(s)] + SelfAsks(s.children, 0)))
  {
    var o := StaticOracle<E>();
    LastMountLive(o, root, m, s);
    var b := NewNode(o, root, m);
    FreshUpdate(o, root, m, []);
    BuiltSettled(o, root, m);
    QuietForce<E>(b.node, b.trace, m, s);
  }

  /** Forcing an update of a component of a settled static tree whose most
      recent controller names the slot holding it re-renders it, asks each of
      its present children about itself, and leaves the tree as it was. */
  lemma QuietForce<E>(root: Node<Static>, history: seq<Event<Static, E>>, m: MapperId, s: Static)
    requires Wired(root) && root.mapper == Some(m) && Settled(StaticOracle<E>(), root)
    requires var calls := LogOf(history, s).mountCalls;
      calls != [] && ValidPath(root, calls[|calls| - 1]) && At(root, calls[|calls| - 1]).comp == Some(s)
    ensures ForceUpdate(StaticOracle<E>(), root, history, s) == Success(Updated(root, [Map(m, s), Render(s)] + SelfAsks(s.children, 0)))
  {
    var o := StaticOracle<E>();
    var calls := LogOf(history, s).mountCalls;
    var p := calls[|calls| - 1];
    SettledAt(o, root, p);
    var n := At(root, p);
    assert n.mapper == Some(m);
    QuietRerender(o, n, p);
    ReplaceAtSame(root, p);
  }

  /** What a forced update of `s` adds to the logs: one RenderCall for `s`
      itself, and for every component `x` one ShouldUpdateCall (recording `x`)
      per slot of `s` that holds `x`. */
  lemma ForceUpdateLogs<E>(history: seq<Event<Static, E>>, m: MapperId, s: Static, x: Static)
    ensures var f := [Map(m, s), Render(s)] + SelfAsks<Static, E>(s.children, 0);
      && LogOf(history + f, s).renderCalls == LogOf(history, s).renderCalls + 1
      && LogOf(history + f, x).shouldUpdateCalls ==
           LogOf(history, x).shouldUpdateCalls + Copies(x, multiset(s.children)[Some(x)])
  {
    var head: seq<Event<Static, E>> := [Map(m, s), Render(s)];
    var asks := SelfAsks<Static, E>(s.children, 0);
    var empty := StaticLog([], 0, [], 0);
    LogFromAppend(empty, history, head + asks, s);
    LogFromAppend(empty, history, head + asks, x);
    assert forall j :: 0 <= j < |s.children| ==> s.children[j] != Some(s);
    QuietPassLog<E>(LogOf(history, s), m, s);
    LogFromAppend(LogOf(history, x), head, asks, x);
    assert head[1..] == [Render(s)] && head[1..][1..] == [];
    var l0 := LogOf(history, x);
    var l1 := LogFrom(l0, head, x);
    assert l1 == LogFrom<E>(Note<E>(Note<E>(l0, head[0], x), head[1], x), [], x);
    assert l1.shouldUpdateCalls == l0.shouldUpdateCalls;
    LogFromSelfAsks<E>(l1, s.children, 0, x);
    assert s.children[0..] == s.children;
  }
}
