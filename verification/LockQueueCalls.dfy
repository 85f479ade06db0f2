/** What callers of the wake-up queue (internal/lockqueue.go) may rely on: no value given to `Add` is
    ever dropped, an undisturbed call completes, and no node is leaked. */
module LockQueueCalls {
  import opened Bytes
  import opened LockQueue

  // ----- values given to Add

  /** How often `Add` has been called with `x`. */
  function Called<V(==)>(run: Run<V>, x: V): (n: nat) {
    match run
    case Empty => 0
    case Then(before, last) => Called(before, x) + if last.Call? && last.v == x then 1 else 0
  }

  /** Whether a call with `x` has not returned yet. */
  function Held<V(==)>(a: Adder<V>, x: V): (n: nat) {
    if !a.Idle? && a.v == x then 1 else 0
  }

  /** How many threads below `n` are in a call with `x`. */
  function InFlight<V(==)>(s: State<V>, x: V, n: nat): (k: nat) {
    if n == 0 then 0 else InFlight(s, x, n - 1) + Held(At(s, n - 1), x)
  }

  function Pushed<V(==)>(s: State<V>, x: V): (n: nat) {
    multiset(s.pushed)[x]
  }

  lemma {:induction false} InFlightOther<V>(s: State<V>, s': State<V>, x: V, n: nat)
    requires forall t: Thread :: t < n ==> At(s', t) == At(s, t)
    ensures InFlight(s', x, n) == InFlight(s, x, n)
  {
    if n > 0 { InFlightOther(s, s', x, n - 1); }
  }

  lemma {:induction false} InFlightChange<V>(s: State<V>, s': State<V>, x: V, t: Thread, n: nat)
    requires t < n && forall u: Thread :: u < n && u != t ==> At(s', u) == At(s, u)
    ensures InFlight(s', x, n) + Held(At(s, t), x) == InFlight(s, x, n) + Held(At(s', t), x)
  {
    hide At;
    if t == n - 1 {
      InFlightOther(s, s', x, n - 1);
    } else {
      InFlightChange(s, s', x, t, n - 1);
    }
  }

  predicate OfAdder<V>(a: Action<V>) {
    a.Call? || a.Load? || a.TakePooled? || a.TakeNew? || a.SetValue? || a.SetNext? || a.Cas? || a.GiveBack?
  }

  lemma OthersStay<V>(s: State<V>, a: Action<V>)
    requires Enabled(s, a) && OfAdder(a)
    ensures forall u :: u != a.t ==> At(Step(s, a), u) == At(s, u)
  {
  }

  /** A thread's own step keeps the value it holds, unless it starts a call, or returns from one
      with its value pushed. */
  lemma HeldStep<V>(s: State<V>, a: Action<V>)
    requires Enabled(s, a) && OfAdder(a)
    ensures var s', x, x' := Step(s, a), At(s, a.t), At(Step(s, a), a.t);
            && (x.Idle? <==> a.Call?) && (a.Call? ==> !x'.Idle? && x'.v == a.v)
            && (if !x.Idle? && x'.Idle? then s'.pushed == s.pushed + [x.v] else s'.pushed == s.pushed)
            && (!x.Idle? && !x'.Idle? ==> x'.v == x.v)
  {
  }

  lemma ConsumerHolds<V>(s: State<V>, a: Action<V>)
    requires Enabled(s, a) && !OfAdder(a)
    ensures Step(s, a).pushed == s.pushed && Step(s, a).adders == s.adders
  {
  }

  /** Only threads below `n` have called. */
  predicate Below<V>(run: Run<V>, n: nat) {
    match run
    case Empty => true
    case Then(before, last) => Below(before, n) && (OfAdder(last) ==> last.t < n)
  }

  lemma KeptStep<V>(s: State<V>, a: Action<V>, x: V, n: nat)
    requires Enabled(s, a) && (OfAdder(a) ==> a.t < n)
    ensures Pushed(Step(s, a), x) + InFlight(Step(s, a), x, n) ==
            Pushed(s, x) + InFlight(s, x, n) + if a.Call? && a.v == x then 1 else 0
  {
    hide Enabled;
    hide Step;
    hide At;
    hide InFlight;
    var s' := Step(s, a);
    if OfAdder(a) {
      HeldStep(s, a);
      OthersStay(s, a);
      InFlightChange(s, s', x, a.t, n);
    } else {
      ConsumerHolds(s, a);
      assert forall t :: At(s', t) == At(s, t) by { SameAdders(s, s'); }
      InFlightOther(s, s', x, n);
    }
  }

  lemma SameAdders<V>(s: State<V>, s': State<V>)
    requires s'.adders == s.adders
    ensures forall t :: At(s', t) == At(s, t)
  {
  }

  /** No value is lost on its way: in every interleaving, every value has been given to `Add` as
      often as it has been pushed and is held by calls that have not returned. A call whose
      CompareAndSwap failed keeps its value and tries again. */
  lemma {:induction false} CallsKept<V(!new)>(run: Run<V>, s: State<V>, x: V, n: nat)
    requires Reaches(run, s) && Below(run, n)
    ensures Called(run, x) == Pushed(s, x) + InFlight(s, x, n)
    decreases run
  {
    hide Enabled;
    hide Step;
    hide InFlight;
    match run {
      case Empty => NoneInFlight(x, n);
      case Then(before, last) =>
        var p :| Reaches(before, p) && Leads(p, last, s);
        CallsKept(before, p, x, n);
        KeptStep(p, last, x, n);
    }
  }

  lemma {:induction false} NoneInFlight<V>(x: V, n: nat)
    ensures InFlight(Initial<V>(), x, n) == 0
  {
    if n > 0 { NoneInFlight(x, n - 1); }
  }

  lemma {:induction false} IdleHoldNothing<V>(s: State<V>, x: V, n: nat)
    requires forall t: Thread :: t < n ==> At(s, t).Idle?
    ensures InFlight(s, x, n) == 0
  {
    if n > 0 { IdleHoldNothing(s, x, n - 1); }
  }

  /** From call to callback: with every call returned and no visitor failed, every value has been
      given to `Add` as often as it has been delivered or waits in the queue. */
  lemma AddedIsDelivered<V(!new)>(run: Run<V>, s: State<V>, x: V, n: nat) returns (cs: seq<Node>, ds: seq<Node>)
    requires Reaches(run, s) && Below(run, n) && forall t: Thread :: t < n ==> At(s, t).Idle?
    requires forall b :: b in s.finished ==> b.dropped == []
    ensures IsList(s.heap, s.root, cs) && Detached(s, ds)
    ensures Called(run, x) ==
            Delivered(s.finished)[x] + multiset(s.current)[x] + multiset(Owed(s, ds))[x] + multiset(Values(s.heap, cs))[x]
  {
    hide Reaches;
    CallsKept(run, s, x, n);
    IdleHoldNothing(s, x, n);
    cs, ds := ExactlyOnce(run, s);
  }

  // ----- undisturbed calls

  /** The state after some steps, or None if one of them was not possible. */
  ghost function Do<V>(s: State<V>, steps: seq<Action<V>>): (r: Option<State<V>>)
    decreases |steps|
  {
    if steps == [] then Some(s)
    else if Enabled(s, steps[0]) then Do(Step(s, steps[0]), steps[1..])
    else None
  }

  lemma DoFirst<V>(s: State<V>, a: Action<V>, rest: seq<Action<V>>)
    requires Enabled(s, a)
    ensures Do(s, [a] + rest) == Do(Step(s, a), rest)
  {
    assert ([a] + rest)[1..] == rest;
  }

  lemma DoNothing<V>(s: State<V>)
    ensures Do(s, []) == Some(s)
  {
  }

  /** The steps of `Add` for a thread that nobody disturbs, with a pooled node or a new one. */
  function AddSteps<V>(t: Thread, take: Action<V>): (steps: seq<Action<V>>) {
    [Load(t)] + ([take] + ([SetValue(t)] + ([SetNext(t)] + ([Cas(t)] + []))))
  }

  /** A node of the pool, or a new one. */
  predicate MayTake<V>(s: State<V>, t: Thread, take: Action<V>) {
    (take.TakePooled? && take.t == t && take.n in s.pool) || (take.TakeNew? && take.t == t && take.n !in s.heap)
  }

  /** `Add` undisturbed pushes its value at the first attempt and returns. */
  lemma SoloAdd<V(!new)>(run: Run<V>, s: State<V>, t: Thread, take: Action<V>)
    requires Reaches(run, s) && At(s, t).Starting?
    requires MayTake(s, t, take)
    ensures var r := Do(s, AddSteps(t, take));
            && r.Some? && At(r.value, t).Idle?
            && r.value.pushed == s.pushed + [At(s, t).v] && r.value.root == Some(take.n)
            && take.n in r.value.heap && r.value.heap[take.n] == Cell(At(s, t).v, s.root)
  {
    var cs, ds, own := ReachableInv(run, s);
    assert take.TakePooled? ==> take.n in s.heap;
    AddAlone(s, t, take);
  }

  lemma AddAlone<V>(s: State<V>, t: Thread, take: Action<V>)
    requires At(s, t).Starting?
    requires MayTake(s, t, take) && (take.TakePooled? ==> take.n in s.heap)
    ensures var r := Do(s, AddSteps(t, take));
            && r.Some? && At(r.value, t).Idle?
            && r.value.pushed == s.pushed + [At(s, t).v] && r.value.root == Some(take.n)
            && take.n in r.value.heap && r.value.heap[take.n] == Cell(At(s, t).v, s.root)
  {
    hide Do;
    var s1 := Step(s, Load(t));
    var s2 := Step(s1, take);
    var s3 := Step(s2, SetValue(t));
    var s4 := Step(s3, SetNext(t));
    DoFirst(s4, Cas(t), []);
    DoNothing(Step(s4, Cas(t)));
    DoFirst(s3, SetNext(t), [Cas(t)] + []);
    DoFirst(s2, SetValue(t), [SetNext(t)] + ([Cas(t)] + []));
    DoFirst(s1, take, [SetValue(t)] + ([SetNext(t)] + ([Cas(t)] + [])));
    DoFirst(s, Load(t), [take] + ([SetValue(t)] + ([SetNext(t)] + ([Cas(t)] + []))));
  }

  /** The visits of a walk, undisturbed: each node copied, recycled and shown. */
  function Visits<V>(n: nat): (steps: seq<Action<V>>) {
    if n == 0 then [Finish] else [Copy] + ([Recycle] + ([Visit(true, [])] + Visits(n - 1)))
  }

  lemma {:induction false} WalkAlone<V>(s: State<V>, ds: seq<Node>)
    requires s.consumer.Walking? && IsList(s.heap, s.consumer.ptr, ds)
    ensures var r := Do(s, Visits(|ds|));
            && r.Some? && r.value.consumer.Resting? && r.value.root == s.root && r.value.pushed == s.pushed
            && r.value.finished == s.finished + [Batch(s.current + Values(s.heap, ds), [])]
    decreases |ds|
  {
    if ds == [] {
      assert Visits<V>(0)[1..] == [];
      assert s.current + Values(s.heap, ds) == s.current;
    } else {
      var s3 := VisitOne(s, ds, Visits(|ds| - 1));
      hide Do;
      hide Step;
      WalkAlone(s3, ds[1..]);
      Assoc(s.current, [s.heap[ds[0]].value], Values(s.heap, ds[1..]));
      assert Values(s.heap, ds) == [s.heap[ds[0]].value] + Values(s.heap, ds[1..]);
    }
  }

  /** One turn of the walk. */
  lemma VisitOne<V>(s: State<V>, ds: seq<Node>, rest: seq<Action<V>>) returns (s3: State<V>)
    requires s.consumer.Walking? && IsList(s.heap, s.consumer.ptr, ds) && ds != []
    ensures Do(s, [Copy] + ([Recycle] + ([Visit(true, [])] + rest))) == Do(s3, rest)
    ensures s3.consumer == Walking(s.heap[ds[0]].next) && IsList(s.heap, s.heap[ds[0]].next, ds[1..])
    ensures s3 == s.(consumer := s3.consumer, pool := s3.pool, current := s.current + [s.heap[ds[0]].value])
  {
    hide Do;
    TailList(s.heap, s.consumer.ptr, ds);
    var s1 := Step(s, Copy);
    var s2 := Step(s1, Recycle);
    s3 := Step(s2, Visit(true, []));
    DoFirst(s2, Visit(true, []), rest);
    DoFirst(s1, Recycle, [Visit(true, [])] + rest);
    DoFirst(s, Copy, [Recycle] + ([Visit(true, [])] + rest));
  }

  lemma TailList<V>(h: map<Node, Cell<V>>, p: Option<Node>, ds: seq<Node>)
    requires IsList(h, p, ds) && ds != []
    ensures p == Some(ds[0]) && ds[0] in h && IsList(h, h[ds[0]].next, ds[1..])
  {
    var ds' := ds[1..];
    forall i | 0 <= i < |ds'| ensures ds'[i] in h && h[ds'[i]].next == Head(ds', i + 1) {
      assert ds'[i] == ds[i + 1] && Head(ds', i + 1) == Head(ds, i + 2);
    }
    assert h[ds[0]].next == Head(ds, 1) == Head(ds', 0);
  }

  /** `SwapOutForEach` undisturbed shows the visitor everything pushed and not yet delivered,
      newest first, and leaves the queue empty. */
  lemma SoloDrain<V(!new)>(run: Run<V>, s: State<V>) returns (vs: seq<V>)
    requires Reaches(run, s) && s.consumer.Resting?
    ensures s.pushed == Accounted(s.finished) + Reverse(vs)
    ensures exists k: nat ::
              var r := Do(s, [Swap] + Visits(k));
              && r.Some? && r.value.consumer.Resting? && r.value.root.None?
              && r.value.finished == s.finished + [Batch(vs, [])]
  {
    var cs := SwapTakesRootList(run, s);
    vs := Values(s.heap, cs);
    var s1 := Step(s, Swap);
    WalkAlone(s1, cs);
    DoFirst(s, Swap, Visits(|cs|));
    assert [] + vs == vs;
  }

  // ----- nodes

  /** No visitor has failed, and the pool has dropped nothing. */
  predicate Tidy<V>(run: Run<V>) {
    match run
    case Empty => true
    case Then(before, last) => Tidy(before) && !last.Collect? && !(last.Visit? && !last.ok)
  }

  ghost predicate HasOwner<V>(s: State<V>, n: Node, cs: seq<Node>, ds: seq<Node>) {
    n in cs || n in ds || n in s.pool || exists t :: t in s.adders && s.adders[t].Owns() && s.adders[t].n == n
  }

  /** Every node ever allocated has an owner. */
  ghost predicate AllOwned<V>(s: State<V>, cs: seq<Node>, ds: seq<Node>) {
    forall n :: n in s.heap ==> HasOwner(s, n, cs, ds)
  }

  /** Where a step takes a node from one owner, it gives it to another. */
  lemma KeptByAdder<V>(s: State<V>, a: Action<V>, cs: seq<Node>, ds: seq<Node>, n: Node)
    requires Enabled(s, a) && OfAdder(a) && AllOwned(s, cs, ds) && n in Step(s, a).heap
    ensures HasOwner(Step(s, a), n, RootAfter(s, a, cs), ds)
  {
    var s', t := Step(s, a), a.t;
    if n !in s.heap || (a.TakePooled? && a.n == n) {
      assert t in s'.adders && s'.adders[t].Owns() && s'.adders[t].n == n;
    } else if At(s, t).Owns() && At(s, t).n == n {
      if s'.adders[t].Owns() {
        assert t in s'.adders && s'.adders[t].n == n;
      } else if a.Cas? {
        assert RootAfter(s, a, cs)[0] == n;
      } else {
        assert n in s'.pool;
      }
    } else if n in cs {
      assert n in RootAfter(s, a, cs);
    } else if n !in ds && n !in s.pool {
      var u :| u in s.adders && s.adders[u].Owns() && s.adders[u].n == n;
      assert u in s'.adders && s'.adders[u] == s.adders[u];
    }
  }

  lemma KeptByConsumer<V>(s: State<V>, a: Action<V>, cs: seq<Node>, ds: seq<Node>, n: Node)
    requires Enabled(s, a) && !OfAdder(a) && Lists(s, cs, ds) && AllOwned(s, cs, ds) && n in Step(s, a).heap
    requires !a.Collect? && !(a.Visit? && !a.ok)
    ensures HasOwner(Step(s, a), n, RootAfter(s, a, cs), BatchAfter(s, a, cs, ds))
  {
    var s' := Step(s, a);
    if a.Recycle? {
      assert s.consumer.node == ds[0];
      assert n in ds ==> n == ds[0] || n in ds[1..];
    }
    if n !in cs && n !in ds && n !in s.pool {
      var u :| u in s.adders && s.adders[u].Owns() && s.adders[u].n == n;
      assert u in s'.adders && s'.adders[u] == s.adders[u];
    }
  }

  /** No node is leaked: as long as no visitor fails and the pool drops nothing, every node ever
      allocated is in the root list, in the running batch, in the pool, or private to an adder. */
  lemma {:induction false} NoNodeLeaked<V(!new)>(run: Run<V>, s: State<V>)
    returns (cs: seq<Node>, ds: seq<Node>, own: map<Node, Owner>)
    requires Reaches(run, s) && Tidy(run)
    ensures Inv(s, cs, ds, own) && AllOwned(s, cs, ds)
    decreases run
  {
    hide Inv;
    hide Enabled;
    hide Step;
    match run {
      case Empty => cs, ds, own := ReachableInv(run, s);
      case Then(before, last) =>
        var p :| Reaches(before, p) && Leads(p, last, s);
        var cs0, ds0, own0 := NoNodeLeaked(before, p);
        cs, ds, own := InvStep(p, last, cs0, ds0, own0);
        OwnedStep(p, last, cs0, ds0, own0);
    }
  }

  lemma OwnedStep<V>(s: State<V>, a: Action<V>, cs: seq<Node>, ds: seq<Node>, own: map<Node, Owner>)
    requires Inv(s, cs, ds, own) && Enabled(s, a) && AllOwned(s, cs, ds)
    requires !a.Collect? && !(a.Visit? && !a.ok)
    ensures AllOwned(Step(s, a), RootAfter(s, a, cs), BatchAfter(s, a, cs, ds))
  {
    hide HasOwner;
    forall n | n in Step(s, a).heap ensures HasOwner(Step(s, a), n, RootAfter(s, a, cs), BatchAfter(s, a, cs, ds)) {
      if OfAdder(a) { KeptByAdder(s, a, cs, ds, n); } else { KeptByConsumer(s, a, cs, ds, n); }
    }
  }
}
