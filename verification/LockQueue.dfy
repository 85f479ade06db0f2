/** The lock-free wake-up queue (internal/lockqueue.go) as a step system.

    Any number of adders and one consumer interleave at the granularity of single memory
    accesses. Nodes are recycled through the pool, so an adder's loaded root may be stale, and
    the node it takes may be the very node it loaded. */
module LockQueue {
  import opened Bytes

  type Node = nat     // a node's address
  type Thread = nat

  datatype Cell<V> = Cell(value: V, next: Option<Node>)

  /** Where one call of `Add` stands. `seen` is history: the number of root changes at its load. */
  datatype Adder<V> =
    | Idle
    | Starting(v: V)
    | Loaded(v: V, root: Option<Node>, seen: nat)
    | Holding(v: V, root: Option<Node>, seen: nat, n: Node)
    | ValueSet(v: V, root: Option<Node>, seen: nat, n: Node)
    | NextSet(v: V, root: Option<Node>, seen: nat, n: Node)
    | Lost(v: V, n: Node)
  {
    predicate Owns() { Holding? || ValueSet? || NextSet? || Lost? }
    predicate Knows() { Loaded? || Holding? || ValueSet? || NextSet? }
  }

  /** Where `SwapOutForEach` stands. */
  datatype Consumer<V> =
    | Resting
    | Walking(ptr: Option<Node>)
    | Copied(node: Node, tmp: Cell<V>)
    | Recycled(tmp: Cell<V>)

  /** One finished `SwapOutForEach`: what the visitor saw, and what it left unseen by failing. */
  datatype Batch<V> = Batch(delivered: seq<V>, dropped: seq<V>)

  datatype State<V> = State(
    root: Option<Node>,
    heap: map<Node, Cell<V>>,
    pool: multiset<Node>,
    adders: map<Thread, Adder<V>>,
    consumer: Consumer<V>,
    // history
    changes: nat,             // successful CompareAndSwap and Swap operations on root
    pushed: seq<V>,           // values in the order their CompareAndSwap succeeded
    current: seq<V>,          // what the running batch has delivered
    finished: seq<Batch<V>>)

  datatype Action<V> =
    | Call(t: Thread, v: V)
    | Load(t: Thread)
    | TakePooled(t: Thread, n: Node)
    | TakeNew(t: Thread, n: Node, zero: V)
    | SetValue(t: Thread)
    | SetNext(t: Thread)
    | Cas(t: Thread)
    | GiveBack(t: Thread)
    | Swap
    | Copy
    | Recycle
    | Visit(ok: bool, rest: seq<V>)
    | Finish
    | Collect(n: Node)        // sync.Pool may drop what it holds

  function Initial<V>(): (s: State<V>) {
    State(None, map[], multiset{}, map[], Resting, 0, [], [], [])
  }

  function At<V>(s: State<V>, t: Thread): (a: Adder<V>) {
    if t in s.adders then s.adders[t] else Idle
  }

  // ----- the heap as lists

  /** Following `next` from `p` visits exactly `ns`, then nil. */
  ghost predicate IsList<V>(h: map<Node, Cell<V>>, p: Option<Node>, ns: seq<Node>) {
    && p == Head(ns, 0)
    && forall i :: 0 <= i < |ns| ==> ns[i] in h && h[ns[i]].next == Head(ns, i + 1)
  }

  function Head(ns: seq<Node>, i: nat): Option<Node> {
    if i < |ns| then Some(ns[i]) else None
  }

  ghost function Values<V>(h: map<Node, Cell<V>>, ns: seq<Node>): (vs: seq<V>)
    requires forall i :: 0 <= i < |ns| ==> ns[i] in h
  {
    seq(|ns|, i requires 0 <= i < |ns| => h[ns[i]].value)
  }

  ghost predicate Distinct(ns: seq<Node>) {
    forall i, j :: 0 <= i < j < |ns| ==> ns[i] != ns[j]
  }

  function Reverse<V>(s: seq<V>): (r: seq<V>) {
    if s == [] then [] else Reverse(s[1..]) + [s[0]]
  }

  /** The values finished batches account for, in the order they were pushed. */
  function Accounted<V>(bs: seq<Batch<V>>): (r: seq<V>) {
    if bs == [] then []
    else Accounted(bs[..|bs| - 1]) + Reverse(bs[|bs| - 1].delivered + bs[|bs| - 1].dropped)
  }

  // ----- steps

  /** The guard of each step. `Visit(false, rest)` is the visitor's error: the loop returns at
      once, and `rest` names the values of the nodes it will never reach. */
  ghost predicate Enabled<V>(s: State<V>, a: Action<V>) {
    match a
    case Call(t, _) => At(s, t).Idle?
    case Load(t) => At(s, t).Starting?
    case TakePooled(t, n) => At(s, t).Loaded? && n in s.pool
    case TakeNew(t, n, _) => At(s, t).Loaded? && n !in s.heap
    case SetValue(t) => At(s, t).Holding? && At(s, t).n in s.heap
    case SetNext(t) => At(s, t).ValueSet? && At(s, t).n in s.heap
    case Cas(t) => At(s, t).NextSet?
    case GiveBack(t) => At(s, t).Lost?
    case Swap => s.consumer.Resting?
    case Copy => s.consumer.Walking? && s.consumer.ptr.Some? && s.consumer.ptr.value in s.heap
    case Recycle => s.consumer.Copied?
    case Visit(ok, rest) =>
      && s.consumer.Recycled?
      && if ok then rest == []
         else exists ns :: IsList(s.heap, s.consumer.tmp.next, ns) && rest == Values(s.heap, ns)
    case Finish => s.consumer == Walking(None)
    case Collect(n) => n in s.pool
  }

  ghost function Step<V>(s: State<V>, a: Action<V>): (s': State<V>)
    requires Enabled(s, a)
  {
    match a
    case Call(t, v) => s.(adders := s.adders[t := Starting(v)])
    case Load(t) =>
      s.(adders := s.adders[t := Loaded(At(s, t).v, s.root, s.changes)])
    case TakePooled(t, n) =>
      var Loaded(v, root, seen) := At(s, t);
      s.(adders := s.adders[t := Holding(v, root, seen, n)], pool := s.pool - multiset{n})
    case TakeNew(t, n, zero) =>
      var Loaded(v, root, seen) := At(s, t);
      s.(adders := s.adders[t := Holding(v, root, seen, n)], heap := s.heap[n := Cell(zero, None)])
    case SetValue(t) =>
      var Holding(v, root, seen, n) := At(s, t);
      s.(adders := s.adders[t := ValueSet(v, root, seen, n)], heap := s.heap[n := s.heap[n].(value := v)])
    case SetNext(t) =>
      var ValueSet(v, root, seen, n) := At(s, t);
      s.(adders := s.adders[t := NextSet(v, root, seen, n)], heap := s.heap[n := s.heap[n].(next := root)])
    case Cas(t) =>
      var NextSet(v, root, seen, n) := At(s, t);
      if s.root == root then
        s.(adders := s.adders[t := Idle], root := Some(n), changes := s.changes + 1, pushed := s.pushed + [v])
      else
        s.(adders := s.adders[t := Lost(v, n)])
    case GiveBack(t) =>
      var Lost(v, n) := At(s, t);
      s.(adders := s.adders[t := Starting(v)], pool := s.pool + multiset{n})
    case Swap =>
      s.(consumer := Walking(s.root), root := None, changes := s.changes + 1, current := [])
    case Copy =>
      var p := s.consumer.ptr.value;
      s.(consumer := Copied(p, s.heap[p]))
    case Recycle =>
      s.(consumer := Recycled(s.consumer.tmp), pool := s.pool + multiset{s.consumer.node})
    case Visit(ok, rest) =>
      var seen := s.current + [s.consumer.tmp.value];
      if ok then s.(consumer := Walking(s.consumer.tmp.next), current := seen)
      else s.(consumer := Resting, current := [], finished := s.finished + [Batch(seen, rest)])
    case Finish =>
      s.(consumer := Resting, current := [], finished := s.finished + [Batch(s.current, [])])
    case Collect(n) => s.(pool := s.pool - multiset{n})
  }

  /** A run of the system: the steps taken so far. */
  datatype Run<V> = Empty | Then(before: Run<V>, last: Action<V>)

  ghost predicate Leads<V>(p: State<V>, a: Action<V>, s: State<V>) {
    Enabled(p, a) && s == Step(p, a)
  }

  /** `s` is reached from the empty queue by the steps `run`. */
  ghost predicate Reaches<V(!new)>(run: Run<V>, s: State<V>) {
    match run
    case Empty => s == Initial()
    case Then(before, last) => exists p :: Reaches(before, p) && Leads(p, last, s)
  }

  // ----- the invariant

  /** Who may touch a node. Nodes an erring visitor left behind have no owner. */
  datatype Owner = AtRoot | InBatch | Pooled | Private(t: Thread)

  ghost predicate OwnsAll(own: map<Node, Owner>, o: Owner, ns: seq<Node>) {
    forall i :: 0 <= i < |ns| ==> ns[i] in own && own[ns[i]] == o
  }

  /** Every node in use has exactly one owner. */
  ghost predicate Owned<V>(s: State<V>, cs: seq<Node>, ds: seq<Node>, own: map<Node, Owner>) {
    && Distinct(cs) && Distinct(ds)
    && OwnsAll(own, AtRoot, cs)
    && OwnsAll(own, InBatch, ds)
    && (forall n :: n in s.pool ==> s.pool[n] == 1 && n in own && own[n] == Pooled)
    && (forall t :: t in s.adders && s.adders[t].Owns() ==> s.adders[t].n in own && own[s.adders[t].n] == Private(t))
    && (forall n :: n in own ==> n in s.heap)
  }

  ghost predicate Detached<V>(s: State<V>, ds: seq<Node>) {
    match s.consumer
    case Resting => ds == []
    case Walking(ptr) => IsList(s.heap, ptr, ds)
    case Copied(p, tmp) => IsList(s.heap, Some(p), ds) && p in s.heap && tmp == s.heap[p]
    case Recycled(tmp) => IsList(s.heap, tmp.next, ds)
  }

  ghost predicate Lists<V>(s: State<V>, cs: seq<Node>, ds: seq<Node>) {
    && IsList(s.heap, s.root, cs)
    && Detached(s, ds)
    && (s.consumer.Resting? ==> s.current == [])
  }

  /** A loaded root is stale only if root has changed since; a filled node holds its fields. */
  ghost predicate Prepared<V>(s: State<V>, a: Adder<V>) {
    && (a.Knows() ==> a.seen <= s.changes && (a.seen == s.changes ==> a.root == s.root))
    && (a.ValueSet? || a.NextSet? ==> a.n in s.heap && s.heap[a.n].value == a.v)
    && (a.NextSet? ==> s.heap[a.n].next == a.root)
  }

  ghost predicate AllPrepared<V>(s: State<V>) {
    forall t :: t in s.adders ==> Prepared(s, s.adders[t])
  }

  /** What the running batch still owes the visitor, next first. */
  ghost function Owed<V>(s: State<V>, ds: seq<Node>): (vs: seq<V>)
    requires Detached(s, ds)
  {
    (if s.consumer.Recycled? then [s.consumer.tmp.value] else []) + Values(s.heap, ds)
  }

  /** Everything pushed is accounted for exactly once, in order: by finished batches, by the
      running batch, or by the list at root. Batches and lists hold it newest first. */
  ghost predicate Balanced<V>(s: State<V>, cs: seq<Node>, ds: seq<Node>)
    requires Lists(s, cs, ds)
  {
    s.pushed == Accounted(s.finished) + Reverse(s.current + Owed(s, ds)) + Reverse(Values(s.heap, cs))
  }

  ghost predicate Inv<V>(s: State<V>, cs: seq<Node>, ds: seq<Node>, own: map<Node, Owner>) {
    Lists(s, cs, ds) && Owned(s, cs, ds, own) && AllPrepared(s) && Balanced(s, cs, ds)
  }

  // ----- preservation

  lemma {:induction false} ReverseConcat<V>(a: seq<V>, b: seq<V>)
    ensures Reverse(a + b) == Reverse(b) + Reverse(a)
  {
    if a == [] {
      assert a + b == b;
    } else {
      assert (a + b)[1..] == a[1..] + b;
      ReverseConcat(a[1..], b);
    }
  }

  /** Two lists of the same heap from the same start are the same list. */
  lemma {:induction false} ListUnique<V>(h: map<Node, Cell<V>>, p: Option<Node>, a: seq<Node>, b: seq<Node>, k: nat)
    requires IsList(h, p, a) && IsList(h, p, b)
    requires k <= |a| && k <= |b| && a[..k] == b[..k]
    ensures a == b
    decreases |a| - k
  {
    assert k > 0 ==> a[k - 1] == a[..k][k - 1] == b[..k][k - 1] == b[k - 1];
    assert Head(a, k) == Head(b, k) by {
      if k > 0 { assert h[a[k - 1]].next == Head(a, k) && h[b[k - 1]].next == Head(b, k); }
    }
    if k < |a| && k < |b| {
      assert a[..k + 1] == a[..k] + [a[k]] && b[..k + 1] == b[..k] + [b[k]];
      ListUnique(h, p, a, b, k + 1);
    } else {
      assert a == a[..k] && b == b[..k];
    }
  }

  ghost predicate Agree<V>(h: map<Node, Cell<V>>, h': map<Node, Cell<V>>, ns: seq<Node>) {
    forall i :: 0 <= i < |ns| ==> ns[i] in h && ns[i] in h' && h'[ns[i]] == h[ns[i]]
  }

  /** A step that leaves the cells of both lists alone keeps them, and the balance. */
  lemma KeepLists<V>(s: State<V>, s': State<V>, cs: seq<Node>, ds: seq<Node>)
    requires Lists(s, cs, ds) && Balanced(s, cs, ds)
    requires Agree(s.heap, s'.heap, cs) && Agree(s.heap, s'.heap, ds)
    requires s' == s.(heap := s'.heap, pool := s'.pool, adders := s'.adders)
    ensures Lists(s', cs, ds) && Balanced(s', cs, ds)
  {
    assert Values(s'.heap, cs) == Values(s.heap, cs);
    assert Values(s'.heap, ds) == Values(s.heap, ds);
  }

  /** The other adders' claims survive a step of thread `t` that leaves their nodes alone. */
  lemma KeepPrepared<V>(s: State<V>, s': State<V>, t: Thread, a': Adder<V>)
    requires AllPrepared(s)
    requires s'.adders == s.adders[t := a'] && Prepared(s', a')
    requires s'.changes > s.changes || (s'.changes == s.changes && s'.root == s.root)
    requires forall u :: u in s.adders && u != t && s.adders[u].Owns() && s.adders[u].n in s.heap ==>
               s.adders[u].n in s'.heap && s'.heap[s.adders[u].n] == s.heap[s.adders[u].n]
    ensures AllPrepared(s')
  {
    forall u | u in s'.adders ensures Prepared(s', s'.adders[u]) {
      if u != t { assert Prepared(s, s.adders[u]); }
    }
  }

  lemma KeepPreparedByConsumer<V>(s: State<V>, s': State<V>)
    requires AllPrepared(s)
    requires s'.adders == s.adders && s'.heap == s.heap
    requires s'.changes > s.changes || (s'.changes == s.changes && s'.root == s.root)
    ensures AllPrepared(s')
  {
    forall u | u in s'.adders ensures Prepared(s', s'.adders[u]) { assert Prepared(s, s.adders[u]); }
  }

  /** A step of thread `t` that takes no node and writes at most its own. */
  lemma KeepOwned<V>(s: State<V>, s': State<V>, t: Thread, a': Adder<V>, cs: seq<Node>, ds: seq<Node>, own: map<Node, Owner>)
    requires Owned(s, cs, ds, own)
    requires s'.adders == s.adders[t := a'] && s'.pool == s.pool && s.heap.Keys <= s'.heap.Keys
    requires a'.Owns() ==> At(s, t).Owns() && a'.n == At(s, t).n
    ensures Owned(s', cs, ds, own)
  {
  }

  /** Taking a node that is pooled or new makes `t` its only owner. */
  lemma TakeOwned<V>(s: State<V>, s': State<V>, t: Thread, a': Adder<V>, cs: seq<Node>, ds: seq<Node>, own: map<Node, Owner>)
    requires Owned(s, cs, ds, own) && a'.Owns()
    requires a'.n !in own || own[a'.n] == Pooled
    requires s'.adders == s.adders[t := a']
    requires forall n :: n in s'.pool ==> n in s.pool && n != a'.n && s'.pool[n] == s.pool[n]
    requires a'.n in s'.heap && s.heap.Keys <= s'.heap.Keys
    ensures Owned(s', cs, ds, own[a'.n := Private(t)])
  {
    var own' := own[a'.n := Private(t)];
    assert OwnsAll(own', AtRoot, cs) && OwnsAll(own', InBatch, ds);
  }

  lemma GiveOwned<V>(s: State<V>, s': State<V>, t: Thread, a': Adder<V>, n: Node, cs: seq<Node>, ds: seq<Node>, own: map<Node, Owner>)
    requires Owned(s, cs, ds, own) && !a'.Owns()
    requires n in own && own[n] == Private(t)
    requires s'.adders == s.adders[t := a'] && s'.pool == s.pool + multiset{n} && s'.heap == s.heap
    ensures Owned(s', cs, ds, own[n := Pooled])
  {
    var own' := own[n := Pooled];
    assert OwnsAll(own', AtRoot, cs) && OwnsAll(own', InBatch, ds);
    assert n !in s.pool;
  }

  lemma PushOwned<V>(s: State<V>, s': State<V>, t: Thread, n: Node, cs: seq<Node>, ds: seq<Node>, own: map<Node, Owner>)
    requires Owned(s, cs, ds, own)
    requires n in own && own[n] == Private(t)
    requires s'.adders == s.adders[t := Idle] && s'.pool == s.pool && s'.heap == s.heap
    ensures Owned(s', [n] + cs, ds, own[n := AtRoot])
  {
    var own' := own[n := AtRoot];
    assert OwnsAll(own', AtRoot, [n] + cs) && OwnsAll(own', InBatch, ds);
    assert n !in s.pool;
  }

  lemma SwapOwned<V>(s: State<V>, s': State<V>, cs: seq<Node>, own: map<Node, Owner>) returns (own': map<Node, Owner>)
    requires Owned(s, cs, [], own)
    requires s'.adders == s.adders && s'.pool == s.pool && s'.heap == s.heap
    ensures Owned(s', [], cs, own')
  {
    own' := map n | n in own :: if own[n] == AtRoot then InBatch else own[n];
  }

  lemma RecycleOwned<V>(s: State<V>, s': State<V>, cs: seq<Node>, ds: seq<Node>, own: map<Node, Owner>)
    requires Owned(s, cs, ds, own) && ds != []
    requires s'.adders == s.adders && s'.pool == s.pool + multiset{ds[0]} && s'.heap == s.heap
    ensures Owned(s', cs, ds[1..], own[ds[0] := Pooled])
  {
    var own' := own[ds[0] := Pooled];
    assert own[ds[0]] == InBatch;
    assert OwnsAll(own', AtRoot, cs) && OwnsAll(own', InBatch, ds[1..]);
    assert ds[0] !in s.pool;
  }

  lemma PushLists<V>(s: State<V>, s': State<V>, a: Adder<V>, cs: seq<Node>, ds: seq<Node>)
    requires Lists(s, cs, ds) && Balanced(s, cs, ds)
    requires a.NextSet? && a.n in s.heap && s.heap[a.n] == Cell(a.v, s.root)
    requires s' == s.(root := Some(a.n), changes := s'.changes, adders := s'.adders, pushed := s.pushed + [a.v])
    ensures Lists(s', [a.n] + cs, ds) && Balanced(s', [a.n] + cs, ds)
  {
    PushList(s.heap, s.root, a.n, cs);
    PushValues(s.heap, a.n, cs);
    assert Owed(s', ds) == Owed(s, ds);
  }

  lemma PushList<V>(h: map<Node, Cell<V>>, root: Option<Node>, n: Node, cs: seq<Node>)
    requires IsList(h, root, cs) && n in h && h[n].next == root
    ensures IsList(h, Some(n), [n] + cs)
  {
    var cs' := [n] + cs;
    forall i | 0 <= i < |cs'| ensures cs'[i] in h && h[cs'[i]].next == Head(cs', i + 1) {
      if i > 0 { assert cs'[i] == cs[i - 1] && Head(cs', i + 1) == Head(cs, i); }
    }
  }

  lemma PushValues<V>(h: map<Node, Cell<V>>, n: Node, cs: seq<Node>)
    requires n in h && forall i :: 0 <= i < |cs| ==> cs[i] in h
    ensures Reverse(Values(h, [n] + cs)) == Reverse(Values(h, cs)) + [h[n].value]
  {
    assert Values(h, [n] + cs) == [h[n].value] + Values(h, cs);
  }

  lemma SwapLists<V>(s: State<V>, s': State<V>, cs: seq<Node>)
    requires Lists(s, cs, []) && Balanced(s, cs, []) && s.consumer.Resting?
    requires s' == s.(consumer := Walking(s.root), root := None, changes := s'.changes, current := [])
    ensures Lists(s', [], cs) && Balanced(s', [], cs)
  {
    assert s.current + Owed(s, []) == [] && s'.current + Owed(s', cs) == Values(s.heap, cs);
    assert Values(s'.heap, []) == [] && Reverse<V>([]) == [];
  }

  lemma RecycleLists<V>(s: State<V>, s': State<V>, cs: seq<Node>, ds: seq<Node>)
    requires Lists(s, cs, ds) && Balanced(s, cs, ds) && s.consumer.Copied?
    requires s' == s.(consumer := Recycled(s.consumer.tmp), pool := s'.pool)
    ensures ds != [] && ds[0] == s.consumer.node
    ensures Lists(s', cs, ds[1..]) && Balanced(s', cs, ds[1..])
  {
    var ds' := ds[1..];
    assert IsList(s'.heap, s'.consumer.tmp.next, ds') by {
      forall i | 0 <= i < |ds'| ensures ds'[i] in s.heap && s.heap[ds'[i]].next == Head(ds', i + 1) {
        assert ds'[i] == ds[i + 1] && Head(ds', i + 1) == Head(ds, i + 2);
      }
      assert s.heap[ds[0]].next == Head(ds, 1) == Head(ds', 0);
    }
    assert Owed(s', ds') == Owed(s, ds);
  }

  lemma VisitLists<V>(s: State<V>, a: Action<V>, cs: seq<Node>, ds: seq<Node>)
    requires Lists(s, cs, ds) && Balanced(s, cs, ds) && Enabled(s, a)
    requires a.Visit? || a.Finish?
    ensures var ds' := if a.Visit? && a.ok then ds else [];
            Lists(Step(s, a), cs, ds') && Balanced(Step(s, a), cs, ds')
  {
    var s' := Step(s, a);
    if a.Finish? {
      FinishBatch(s, s', Batch(s.current, []), cs, ds);
    } else if a.ok {
      assert s'.current + Owed(s', ds) == s.current + Owed(s, ds);
    } else {
      RestOfBatch(s, a.rest, ds);
      FinishBatch(s, s', Batch(s.current + [s.consumer.tmp.value], a.rest), cs, ds);
    }
  }

  lemma RestOfBatch<V>(s: State<V>, rest: seq<V>, ds: seq<Node>)
    requires Detached(s, ds) && Enabled(s, Visit(false, rest))
    ensures rest == Values(s.heap, ds)
    ensures s.current + Owed(s, ds) == s.current + [s.consumer.tmp.value] + rest
  {
    var ns :| IsList(s.heap, s.consumer.tmp.next, ns) && rest == Values(s.heap, ns);
    ListUnique(s.heap, s.consumer.tmp.next, ns, ds, 0);
  }

  /** Closing a batch moves what it delivered and dropped into the account. */
  lemma FinishBatch<V>(s: State<V>, s': State<V>, b: Batch<V>, cs: seq<Node>, ds: seq<Node>)
    requires Lists(s, cs, ds) && Balanced(s, cs, ds)
    requires s' == s.(consumer := Resting, current := [], finished := s.finished + [b])
    requires b.delivered + b.dropped == s.current + Owed(s, ds)
    ensures Lists(s', cs, []) && Balanced(s', cs, [])
  {
    hide Accounted;
    hide Reverse;
    AccountedSnoc(s.finished, b);
    assert s'.current + Owed(s', []) == [];
    ReverseEmpty<V>();
    var past, batch := Accounted(s.finished), Reverse(s.current + Owed(s, ds));
    assert past + batch + [] == past + batch;
  }

  lemma AccountedSnoc<V>(bs: seq<Batch<V>>, b: Batch<V>)
    ensures Accounted(bs + [b]) == Accounted(bs) + Reverse(b.delivered + b.dropped)
  {
    assert (bs + [b])[..|bs|] == bs;
  }

  lemma ReverseEmpty<V>()
    ensures Reverse<V>([]) == []
  {
  }

  lemma TakePooledStep<V>(s: State<V>, t: Thread, n: Node, cs: seq<Node>, ds: seq<Node>, own: map<Node, Owner>)
    requires Inv(s, cs, ds, own) && Enabled(s, TakePooled(t, n))
    ensures Inv(Step(s, TakePooled(t, n)), cs, ds, own[n := Private(t)])
  {
    var s' := Step(s, TakePooled(t, n));
    assert own[n] == Pooled && s.pool[n] == 1;
    TakeOwned(s, s', t, s'.adders[t], cs, ds, own);
    KeepLists(s, s', cs, ds);
    KeepPrepared(s, s', t, s'.adders[t]) by { assert Prepared(s, s.adders[t]); }
  }

  lemma TakeNewStep<V>(s: State<V>, t: Thread, n: Node, zero: V, cs: seq<Node>, ds: seq<Node>, own: map<Node, Owner>)
    requires Inv(s, cs, ds, own) && Enabled(s, TakeNew(t, n, zero))
    ensures Inv(Step(s, TakeNew(t, n, zero)), cs, ds, own[n := Private(t)])
  {
    var s' := Step(s, TakeNew(t, n, zero));
    assert n !in own && n !in s.pool;
    TakeOwned(s, s', t, s'.adders[t], cs, ds, own);
    KeepLists(s, s', cs, ds);
    KeepPrepared(s, s', t, s'.adders[t]) by { assert Prepared(s, s.adders[t]); }
  }

  lemma GiveBackStep<V>(s: State<V>, t: Thread, cs: seq<Node>, ds: seq<Node>, own: map<Node, Owner>)
    requires Inv(s, cs, ds, own) && Enabled(s, GiveBack(t))
    ensures Inv(Step(s, GiveBack(t)), cs, ds, own[At(s, t).n := Pooled])
  {
    var s' := Step(s, GiveBack(t));
    GiveOwned(s, s', t, s'.adders[t], At(s, t).n, cs, ds, own);
    KeepLists(s, s', cs, ds);
    KeepPrepared(s, s', t, s'.adders[t]);
  }

  lemma CasWins<V>(s: State<V>, t: Thread, cs: seq<Node>, ds: seq<Node>, own: map<Node, Owner>)
    requires Inv(s, cs, ds, own) && Enabled(s, Cas(t)) && At(s, t).root == s.root
    ensures Inv(Step(s, Cas(t)), [At(s, t).n] + cs, ds, own[At(s, t).n := AtRoot])
  {
    var s' := Step(s, Cas(t));
    assert Prepared(s, s.adders[t]);
    PushOwned(s, s', t, At(s, t).n, cs, ds, own);
    PushLists(s, s', At(s, t), cs, ds);
    KeepPrepared(s, s', t, s'.adders[t]);
  }

  /** The steps of an adder that touch no node. */
  lemma LocalStep<V>(s: State<V>, a: Action<V>, cs: seq<Node>, ds: seq<Node>, own: map<Node, Owner>)
    requires Inv(s, cs, ds, own) && Enabled(s, a)
    requires a.Call? || a.Load? || (a.Cas? && At(s, a.t).root != s.root)
    ensures Inv(Step(s, a), cs, ds, own)
  {
    var s', t := Step(s, a), a.t;
    KeepOwned(s, s', t, s'.adders[t], cs, ds, own);
    KeepLists(s, s', cs, ds);
    KeepPrepared(s, s', t, s'.adders[t]);
  }

  /** Filling a private node changes no cell that anyone else relies on. */
  lemma FillStep<V>(s: State<V>, a: Action<V>, cs: seq<Node>, ds: seq<Node>, own: map<Node, Owner>)
    requires Inv(s, cs, ds, own) && Enabled(s, a) && (a.SetValue? || a.SetNext?)
    ensures Inv(Step(s, a), cs, ds, own)
  {
    var s', t := Step(s, a), a.t;
    assert own[At(s, t).n] == Private(t);
    KeepOwned(s, s', t, s'.adders[t], cs, ds, own);
    KeepLists(s, s', cs, ds);
    KeepPrepared(s, s', t, s'.adders[t]) by { assert Prepared(s, s.adders[t]); }
  }

  /** The root list after a step. */
  ghost function RootAfter<V>(s: State<V>, a: Action<V>, cs: seq<Node>): (cs': seq<Node>) {
    if a.Swap? then []
    else if a.Cas? && At(s, a.t).NextSet? && At(s, a.t).root == s.root then [At(s, a.t).n] + cs
    else cs
  }

  /** The consumer's list after a step. */
  ghost function BatchAfter<V>(s: State<V>, a: Action<V>, cs: seq<Node>, ds: seq<Node>): (ds': seq<Node>) {
    if a.Swap? then cs
    else if a.Recycle? then (if ds == [] then [] else ds[1..])
    else if a.Finish? || (a.Visit? && !a.ok) then []
    else ds
  }

  lemma SwapStep<V>(s: State<V>, cs: seq<Node>, ds: seq<Node>, own: map<Node, Owner>) returns (own': map<Node, Owner>)
    requires Inv(s, cs, ds, own) && Enabled(s, Swap)
    ensures Inv(Step(s, Swap), [], cs, own')
  {
    var s' := Step(s, Swap);
    assert ds == [];
    SwapLists(s, s', cs);
    own' := SwapOwned(s, s', cs, own);
    KeepPreparedByConsumer(s, s');
  }

  lemma RecycleStep<V>(s: State<V>, cs: seq<Node>, ds: seq<Node>, own: map<Node, Owner>)
    requires Inv(s, cs, ds, own) && Enabled(s, Recycle)
    ensures ds != [] && Inv(Step(s, Recycle), cs, ds[1..], own[ds[0] := Pooled])
  {
    var s' := Step(s, Recycle);
    RecycleLists(s, s', cs, ds);
    RecycleOwned(s, s', cs, ds, own);
    KeepPreparedByConsumer(s, s');
  }

  lemma VisitStep<V>(s: State<V>, a: Action<V>, cs: seq<Node>, ds: seq<Node>, own: map<Node, Owner>)
    requires Inv(s, cs, ds, own) && Enabled(s, a) && (a.Visit? || a.Finish?)
    ensures Inv(Step(s, a), cs, if a.Visit? && a.ok then ds else [], own)
  {
    VisitLists(s, a, cs, ds);
    hide Lists;
    hide Balanced;
    KeepPreparedByConsumer(s, Step(s, a));
    hide AllPrepared;
    SameOwners(s, Step(s, a), cs, ds, own);
  }

  lemma SameOwners<V>(s: State<V>, s': State<V>, cs: seq<Node>, ds: seq<Node>, own: map<Node, Owner>)
    requires Owned(s, cs, ds, own) && s'.adders == s.adders && s'.pool == s.pool && s'.heap == s.heap
    ensures Owned(s', cs, ds, own) && Owned(s', cs, [], own)
  {
  }

  lemma InvStepConsumer<V>(s: State<V>, a: Action<V>, cs: seq<Node>, ds: seq<Node>, own: map<Node, Owner>)
    returns (cs': seq<Node>, ds': seq<Node>, own': map<Node, Owner>)
    requires Inv(s, cs, ds, own) && Enabled(s, a)
    requires a.Swap? || a.Copy? || a.Recycle? || a.Visit? || a.Finish?
    ensures Inv(Step(s, a), cs', ds', own') && cs' == RootAfter(s, a, cs) && ds' == BatchAfter(s, a, cs, ds)
  {
    cs', ds', own' := cs, ds, own;
    if a.Swap? {
      own' := SwapStep(s, cs, ds, own);
      cs', ds' := [], cs;
    } else if a.Recycle? {
      RecycleStep(s, cs, ds, own);
      ds', own' := ds[1..], own[ds[0] := Pooled];
    } else if a.Visit? || a.Finish? {
      VisitStep(s, a, cs, ds, own);
      ds' := if a.Visit? && a.ok then ds else [];
    } else {
      KeepPreparedByConsumer(s, Step(s, a));
    }
  }

  lemma CollectStep<V>(s: State<V>, n: Node, cs: seq<Node>, ds: seq<Node>, own: map<Node, Owner>)
    requires Inv(s, cs, ds, own) && Enabled(s, Collect(n))
    ensures Inv(Step(s, Collect(n)), cs, ds, own)
  {
    KeepLists(s, Step(s, Collect(n)), cs, ds);
    KeepPreparedByConsumer(s, Step(s, Collect(n)));
  }

  lemma InvStep<V>(s: State<V>, a: Action<V>, cs: seq<Node>, ds: seq<Node>, own: map<Node, Owner>)
    returns (cs': seq<Node>, ds': seq<Node>, own': map<Node, Owner>)
    requires Inv(s, cs, ds, own) && Enabled(s, a)
    ensures Inv(Step(s, a), cs', ds', own') && cs' == RootAfter(s, a, cs) && ds' == BatchAfter(s, a, cs, ds)
  {
    hide Inv;
    hide Step;
    cs', ds', own' := cs, ds, own;
    if a.Collect? {
      CollectStep(s, a.n, cs, ds, own);
    } else if a.Swap? || a.Copy? || a.Recycle? || a.Visit? || a.Finish? {
      cs', ds', own' := InvStepConsumer(s, a, cs, ds, own);
    } else if a.TakePooled? {
      TakePooledStep(s, a.t, a.n, cs, ds, own);
      own' := own[a.n := Private(a.t)];
    } else if a.TakeNew? {
      TakeNewStep(s, a.t, a.n, a.zero, cs, ds, own);
      own' := own[a.n := Private(a.t)];
    } else if a.GiveBack? {
      GiveBackStep(s, a.t, cs, ds, own);
      own' := own[At(s, a.t).n := Pooled];
    } else if a.Cas? && At(s, a.t).root == s.root {
      CasWins(s, a.t, cs, ds, own);
      cs', own' := [At(s, a.t).n] + cs, own[At(s, a.t).n := AtRoot];
    } else if a.SetValue? || a.SetNext? {
      FillStep(s, a, cs, ds, own);
    } else {
      LocalStep(s, a, cs, ds, own);
    }
  }

  // ----- results

  /** Every reachable state, in every interleaving, has a well-formed root list and detached list
      that own their nodes exclusively and account for every pushed value exactly once. */
  lemma {:induction false} ReachableInv<V(!new)>(run: Run<V>, s: State<V>)
    returns (cs: seq<Node>, ds: seq<Node>, own: map<Node, Owner>)
    requires Reaches(run, s)
    ensures Inv(s, cs, ds, own)
    decreases run
  {
    match run {
      case Empty =>
        cs, ds, own := [], [], map[];
        assert Values(s.heap, cs) == [];
      case Then(before, last) =>
        var p :| Reaches(before, p) && Leads(p, last, s);
        cs, ds, own := ReachableInv(before, p);
        cs, ds, own := InvStep(p, last, cs, ds, own);
    }
  }

  function Delivered<V>(bs: seq<Batch<V>>): (vs: multiset<V>) {
    if bs == [] then multiset{}
    else Delivered(bs[..|bs| - 1]) + multiset(bs[|bs| - 1].delivered)
  }

  lemma {:induction false} ReverseBag<V>(s: seq<V>)
    ensures multiset(Reverse(s)) == multiset(s)
  {
    if s != [] {
      ReverseBag(s[1..]);
      assert s == [s[0]] + s[1..];
    }
  }

  lemma {:induction false} AccountedBag<V>(bs: seq<Batch<V>>)
    requires forall b :: b in bs ==> b.dropped == []
    ensures multiset(Accounted(bs)) == Delivered(bs)
  {
    if bs != [] {
      var b := bs[|bs| - 1];
      AccountedBag(bs[..|bs| - 1]);
      assert b.delivered + b.dropped == b.delivered by { assert b in bs; }
      ReverseBag(b.delivered);
    }
  }

  /** Exactly once: when no visitor has failed, each pushed value has been delivered once or is
      still waiting once, and nothing else has been delivered. Waiting values are those of the
      root list and the rest of the running batch. */
  lemma ExactlyOnce<V(!new)>(run: Run<V>, s: State<V>) returns (cs: seq<Node>, ds: seq<Node>)
    requires Reaches(run, s)
    requires forall b :: b in s.finished ==> b.dropped == []
    ensures IsList(s.heap, s.root, cs) && Detached(s, ds)
    ensures multiset(s.pushed) == Delivered(s.finished) + multiset(s.current) + multiset(Owed(s, ds)) + multiset(Values(s.heap, cs))
  {
    var own;
    cs, ds, own := ReachableInv(run, s);
    AccountedBag(s.finished);
    ReverseBag(s.current + Owed(s, ds));
    ReverseBag(Values(s.heap, cs));
  }

  lemma NothingOwed<V>(s: State<V>, ds: seq<Node>)
    requires s.consumer.Resting? && s.current == [] && ds == []
    ensures Reverse(s.current + Owed(s, ds)) == []
  {
    assert s.current + Owed(s, ds) == [];
  }

  /** Order: with the consumer at rest and the queue empty, reading the finished batches one after
      the other, each backwards, gives the values in the order they were pushed. */
  lemma BatchesReversePushOrder<V(!new)>(run: Run<V>, s: State<V>)
    requires Reaches(run, s) && s.consumer.Resting? && s.root.None?
    ensures s.pushed == Accounted(s.finished)
  {
    var cs, ds, own := ReachableInv(run, s);
    NothingOwed(s, ds);
    assert Values(s.heap, cs) == [];
  }

  /** One whole uninterrupted `SwapOutForEach` from any reachable state sees the root list newest
      first: what it will deliver is what was pushed since the last swap, reversed. */
  lemma SwapTakesRootList<V(!new)>(run: Run<V>, s: State<V>) returns (cs: seq<Node>)
    requires Reaches(run, s) && Enabled(s, Swap)
    ensures IsList(Step(s, Swap).heap, Step(s, Swap).consumer.ptr, cs)
    ensures s.pushed == Accounted(s.finished) + Reverse(Values(s.heap, cs))
  {
    hide Accounted;
    hide Reverse;
    hide Reaches;
    var ds, own;
    cs, ds, own := ReachableInv(run, s);
    NothingOwed(s, ds);
  }

  /** The list at root is acyclic and owned by nobody else, whatever stale or self-referring
      pointers adders hold in their private nodes. */
  lemma RootListOwned<V(!new)>(run: Run<V>, s: State<V>) returns (cs: seq<Node>, ds: seq<Node>)
    requires Reaches(run, s)
    ensures IsList(s.heap, s.root, cs) && Detached(s, ds)
    ensures Distinct(cs) && Distinct(ds) && (forall n :: n in cs ==> n !in ds)
    ensures forall n :: n in s.pool ==> s.pool[n] == 1 && n !in cs && n !in ds
    ensures forall t :: t in s.adders && s.adders[t].Owns() ==>
              s.adders[t].n !in cs && s.adders[t].n !in ds && s.adders[t].n !in s.pool
    ensures forall t, u :: t in s.adders && u in s.adders && t != u && s.adders[t].Owns() && s.adders[u].Owns() ==>
              s.adders[t].n != s.adders[u].n
  {
    var own;
    cs, ds, own := ReachableInv(run, s);
  }

  /** An adder whose CompareAndSwap is about to fail loaded root before a later successful Add or
      Swap; one that got back the very node it loaded always fails; and a failing adder gives its node
      to the pool and starts again with the same value. */
  lemma CasFailsOnlyAfterChange<V(!new)>(run: Run<V>, s: State<V>, t: Thread)
    requires Reaches(run, s) && Enabled(s, Cas(t))
    ensures At(s, t).root != s.root ==> At(s, t).seen < s.changes
    ensures At(s, t).root == Some(At(s, t).n) ==> At(s, t).root != s.root
    ensures At(s, t).root != s.root ==>
              var s' := Step(s, Cas(t));
              && s'.pushed == s.pushed && Enabled(s', GiveBack(t))
              && At(Step(s', GiveBack(t)), t) == Starting(At(s, t).v) && At(s, t).n in Step(s', GiveBack(t)).pool
  {
    var cs, ds, own := ReachableInv(run, s);
    assert Prepared(s, s.adders[t]);
    RetryAfter(s, t);
  }

  lemma RetryAfter<V>(s: State<V>, t: Thread)
    requires Enabled(s, Cas(t))
    ensures At(s, t).root != s.root ==>
              var s' := Step(s, Cas(t));
              && s'.pushed == s.pushed && Enabled(s', GiveBack(t))
              && At(Step(s', GiveBack(t)), t) == Starting(At(s, t).v) && At(s, t).n in Step(s', GiveBack(t)).pool
  {
  }

  /** The visitor may fail at any of its calls, and then abandons exactly the rest of the detached
      list: the step is always possible, and in one way only. */
  lemma ErrorDropsRest<V(!new)>(run: Run<V>, s: State<V>) returns (ds: seq<Node>)
    requires Reaches(run, s) && s.consumer.Recycled?
    ensures Detached(s, ds) && Distinct(ds)
    ensures Enabled(s, Visit(false, Values(s.heap, ds)))
    ensures forall rest :: Enabled(s, Visit(false, rest)) ==> rest == Values(s.heap, ds)
    ensures Step(s, Visit(false, Values(s.heap, ds))).finished ==
            s.finished + [Batch(s.current + [s.consumer.tmp.value], Values(s.heap, ds))]
  {
    var cs, own;
    cs, ds, own := ReachableInv(run, s);
    assert IsList(s.heap, s.consumer.tmp.next, ds);
    forall rest | Enabled(s, Visit(false, rest)) ensures rest == Values(s.heap, ds) {
      RestOfBatch(s, rest, ds);
    }
  }

  /** No thread ever stands before a node that does not exist: mid-call adders and a mid-walk
      consumer always have their next step available. */
  lemma NeverDangling<V(!new)>(run: Run<V>, s: State<V>, t: Thread)
    requires Reaches(run, s)
    ensures At(s, t).Holding? ==> Enabled(s, SetValue(t))
    ensures At(s, t).ValueSet? ==> Enabled(s, SetNext(t))
    ensures s.consumer.Walking? && s.consumer.ptr.Some? ==> Enabled(s, Copy)
  {
    var cs, ds, own := ReachableInv(run, s);
  }
}
