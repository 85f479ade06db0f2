/** The connection table and recency list: server.go's accept, event, close and timeout steps over
    the sentinel list of conn.go. */
module ConnTable {
  import opened Bytes

  // ----- the table as a value

  /** An open connection: its descriptor and the time it was last active. */
  datatype Entry = Entry(fd: int, ts: int)

  /** Open connections, most recently active first. */
  type Table = seq<Entry>

  predicate Has(t: Table, fd: int) {
    exists i :: 0 <= i < |t| && t[i].fd == fd
  }

  predicate DistinctFds(t: Table) {
    forall i, j :: 0 <= i < j < |t| ==> t[i].fd != t[j].fd
  }

  /** Newest to oldest. */
  predicate Ordered(t: Table) {
    forall i, j :: 0 <= i < j < |t| ==> t[i].ts >= t[j].ts
  }

  predicate NotAfter(t: Table, now: int) {
    forall i :: 0 <= i < |t| ==> t[i].ts <= now
  }

  function Remove(t: Table, fd: int): (t': Table) {
    if t == [] then [] else if t[0].fd == fd then t[1..] else [t[0]] + Remove(t[1..], fd)
  }

  function Attach(t: Table, fd: int, now: int): (t': Table) {
    [Entry(fd, now)] + t
  }

  /** The timeout sweep as written: from the oldest end, stop at the first connection in time. */
  function SweepBack(t: Table, cutoff: int): (t': Table) {
    if t != [] && t[|t| - 1].ts < cutoff then SweepBack(t[..|t| - 1], cutoff) else t
  }

  /** What a timeout sweep is for: connections inactive since before the cutoff go, others stay. */
  function InTime(t: Table, cutoff: int): (t': Table) {
    if t == [] then []
    else if t[0].ts < cutoff then InTime(t[1..], cutoff)
    else [t[0]] + InTime(t[1..], cutoff)
  }

  /** A timeout of zero or less means no sweep. */
  function Sweep(t: Table, now: int, timeout: int): (t': Table) {
    if timeout > 0 then SweepBack(t, now - timeout) else t
  }

  /** What the poller reports: a new connection, or activity on a descriptor that may end with the
      connection closed by any of its handlers. Each carries its clock readings. */
  datatype Event =
    | Accept(fd: int, now: int, later: int)
    | Active(fd: int, now: int, closes: bool, later: int)

  /** The event's own effect, before the sweep that ends its step. */
  function Handled(t: Table, e: Event): (t': Table) {
    match e
    case Accept(fd, now, _) => Attach(t, fd, now)
    case Active(fd, now, closes, _) =>
      var t1 := Attach(Remove(t, fd), fd, now);
      if closes then Remove(t1, fd) else t1
  }

  /** One callback of the poller. An event for an unknown descriptor does nothing, not even sweep. */
  function Step(t: Table, e: Event, timeout: int): (t': Table) {
    if e.Active? && !Has(t, e.fd) then t else Sweep(Handled(t, e), e.later, timeout)
  }

  function Run(t: Table, es: seq<Event>, timeout: int): (t': Table)
    decreases |es|
  {
    if es == [] then t else Run(Step(t, es[0], timeout), es[1..], timeout)
  }

  /** The kernel hands out only descriptors that are not open. */
  predicate Possible(t: Table, es: seq<Event>, timeout: int)
    decreases |es|
  {
    es == [] || ((es[0].Accept? ==> !Has(t, es[0].fd)) && Possible(Step(t, es[0], timeout), es[1..], timeout))
  }

  /** Clock readings never go back. */
  predicate Clocked(es: seq<Event>, start: int)
    decreases |es|
  {
    es == [] || (start <= es[0].now <= es[0].later && Clocked(es[1..], es[0].later))
  }

  // ----- facts about the table

  lemma {:induction false} RemoveAt(t: Table, i: nat)
    requires DistinctFds(t) && i < |t|
    ensures Remove(t, t[i].fd) == t[..i] + t[i + 1..]
  {
    if i > 0 {
      assert t[0].fd != t[i].fd;
      RemoveAt(t[1..], i - 1);
      assert t[1..][..i - 1] == t[1..i] && t[1..][i..] == t[i + 1..];
      assert [t[0]] + t[1..i] == t[..i];
      Assoc([t[0]], t[1..i], t[i + 1..]);
    }
  }

  lemma {:induction false} RemoveAbsent(t: Table, fd: int)
    requires !Has(t, fd)
    ensures Remove(t, fd) == t
  {
    if t != [] {
      assert t[0].fd != fd;
      assert forall i :: 0 <= i < |t[1..]| ==> t[1..][i] == t[i + 1];
      RemoveAbsent(t[1..], fd);
      assert t == [t[0]] + t[1..];
    }
  }

  lemma SkipKeeps(t: Table, i: nat, now: int)
    requires DistinctFds(t) && i < |t|
    ensures var r := t[..i] + t[i + 1..];
            && DistinctFds(r) && !Has(r, t[i].fd)
            && (Ordered(t) ==> Ordered(r)) && (NotAfter(t, now) ==> NotAfter(r, now))
  {
    var r := t[..i] + t[i + 1..];
    assert forall k :: 0 <= k < |r| ==> r[k] == t[if k < i then k else k + 1];
  }

  lemma RemoveKeeps(t: Table, fd: int, now: int)
    requires DistinctFds(t)
    ensures DistinctFds(Remove(t, fd)) && !Has(Remove(t, fd), fd)
    ensures Ordered(t) ==> Ordered(Remove(t, fd))
    ensures NotAfter(t, now) ==> NotAfter(Remove(t, fd), now)
  {
    hide DistinctFds;
    hide Ordered;
    hide NotAfter;
    if Has(t, fd) {
      var i :| 0 <= i < |t| && t[i].fd == fd;
      RemoveAt(t, i);
      SkipKeeps(t, i, now);
    } else {
      RemoveAbsent(t, fd);
    }
  }

  /** Sweeping keeps a front part of the table. */
  lemma {:induction false} SweepIsPrefix(t: Table, cutoff: int)
    ensures SweepBack(t, cutoff) <= t
  {
    if t != [] && t[|t| - 1].ts < cutoff { SweepIsPrefix(t[..|t| - 1], cutoff); }
  }

  lemma {:induction false} InTimeSnoc(t: Table, e: Entry, cutoff: int)
    ensures InTime(t + [e], cutoff) == InTime(t, cutoff) + if e.ts < cutoff then [] else [e]
  {
    if t == [] {
      assert t + [e] == [e] && [e][1..] == [];
    } else {
      assert (t + [e])[1..] == t[1..] + [e];
      InTimeSnoc(t[1..], e, cutoff);
    }
  }

  lemma {:induction false} AllInTime(t: Table, cutoff: int)
    requires forall i :: 0 <= i < |t| ==> t[i].ts >= cutoff
    ensures InTime(t, cutoff) == t
  {
    if t != [] {
      AllInTime(t[1..], cutoff);
      assert t == [t[0]] + t[1..];
    }
  }

  /** On an ordered list stopping early loses nothing: exactly the expired connections go. */
  lemma {:induction false} SweepExact(t: Table, cutoff: int)
    requires Ordered(t)
    ensures SweepBack(t, cutoff) == InTime(t, cutoff)
  {
    if t != [] {
      var last := t[|t| - 1];
      var init := t[..|t| - 1];
      assert t == init + [last];
      InTimeSnoc(init, last, cutoff);
      if last.ts < cutoff {
        SweepExact(init, cutoff);
      } else {
        AllInTime(t, cutoff);
      }
    }
  }

  lemma SweepKeeps(t: Table, now: int, timeout: int)
    requires DistinctFds(t)
    ensures var t' := Sweep(t, now, timeout);
            DistinctFds(t') && (Ordered(t) ==> Ordered(t')) && (NotAfter(t, now) ==> NotAfter(t', now))
  {
    SweepIsPrefix(t, now - timeout);
  }

  /** Distinct descriptors stay distinct; order and clock bound survive readings that do not go back. */
  lemma HandledKeeps(t: Table, e: Event)
    requires DistinctFds(t) && (e.Accept? ==> !Has(t, e.fd))
    ensures DistinctFds(Handled(t, e))
    ensures Ordered(t) && NotAfter(t, e.now) ==> Ordered(Handled(t, e)) && NotAfter(Handled(t, e), e.now)
  {
    if e.Accept? {
      AttachKeeps(t, e.fd, e.now);
    } else {
      RemoveKeeps(t, e.fd, e.now);
      var t0 := Remove(t, e.fd);
      AttachKeeps(t0, e.fd, e.now);
      assert Attach(t0, e.fd, e.now)[1..] == t0;
    }
  }

  lemma StepKeeps(t: Table, e: Event, timeout: int)
    requires DistinctFds(t) && (e.Accept? ==> !Has(t, e.fd))
    ensures DistinctFds(Step(t, e, timeout))
    ensures Ordered(t) && NotAfter(t, e.now) && e.now <= e.later ==>
              Ordered(Step(t, e, timeout)) && NotAfter(Step(t, e, timeout), e.later)
  {
    HandledKeeps(t, e);
    SweepKeeps(Handled(t, e), e.later, timeout);
  }

  lemma AttachKeeps(t: Table, fd: int, now: int)
    requires DistinctFds(t) && !Has(t, fd)
    ensures DistinctFds(Attach(t, fd, now))
    ensures Ordered(t) && NotAfter(t, now) ==> Ordered(Attach(t, fd, now)) && NotAfter(Attach(t, fd, now), now)
  {
    forall i | 0 <= i < |t| ensures t[i].fd != fd {}
  }

  function LastReading(es: seq<Event>, start: int): int {
    if es == [] then start else es[|es| - 1].later
  }

  /** After any run of events the descriptors are distinct and, under a clock that does not go
      back, the list is ordered from newest to oldest. */
  lemma {:induction false} RunKeepsOrder(t: Table, es: seq<Event>, timeout: int, start: int)
    requires DistinctFds(t) && Possible(t, es, timeout)
    requires Ordered(t) && NotAfter(t, start) && Clocked(es, start)
    ensures var t' := Run(t, es, timeout);
            DistinctFds(t') && Ordered(t') && NotAfter(t', LastReading(es, start))
    decreases |es|
  {
    hide DistinctFds;
    hide Ordered;
    hide Step;
    if es != [] {
      assert NotAfter(t, es[0].now);
      hide NotAfter;
      StepKeeps(t, es[0], timeout);
      RunKeepsOrder(Step(t, es[0], timeout), es[1..], timeout, es[0].later);
      assert LastReading(es, start) == LastReading(es[1..], es[0].later);
    }
  }

  /** The early-stopping sweep that ends a step closes exactly the connections whose last activity
      lies more than the timeout back, and no others. */
  lemma StepSweepsExactly(t: Table, e: Event, timeout: int)
    requires DistinctFds(t) && Ordered(t) && NotAfter(t, e.now) && timeout > 0
    requires if e.Accept? then !Has(t, e.fd) else Has(t, e.fd)
    ensures Step(t, e, timeout) == InTime(Handled(t, e), e.later - timeout)
  {
    hide DistinctFds;
    hide Ordered;
    hide NotAfter;
    HandledKeeps(t, e);
    SweepExact(Handled(t, e), e.later - timeout);
  }

  /** At any point of any run from an empty table, the next event's sweep is exact. */
  lemma RunSweepsExactly(es: seq<Event>, e: Event, timeout: int, start: int)
    requires Possible([], es, timeout) && Clocked(es, start) && LastReading(es, start) <= e.now && timeout > 0
    requires var t := Run([], es, timeout); if e.Accept? then !Has(t, e.fd) else Has(t, e.fd)
    ensures var t := Run([], es, timeout);
            Step(t, e, timeout) == InTime(Handled(t, e), e.later - timeout)
  {
    RunKeepsOrder([], es, timeout, start);
    StepSweepsExactly(Run([], es, timeout), e, timeout);
  }

  // ----- the objects

  class Conn {
    const fd: int
    var prev: Conn?
    var next: Conn?
    var ts: int
    var closed: bool

    constructor (fd: int)
      ensures this.fd == fd && !closed
    {
      this.fd := fd;
      prev, next, ts, closed := null, null, 0, false;
    }
  }

  ghost function Entries(cs: seq<Conn>): (t: Table)
    reads cs`ts
    ensures |t| == |cs|
    ensures forall i :: 0 <= i < |cs| ==> t[i] == Entry(cs[i].fd, cs[i].ts)
  {
    if cs == [] then [] else [Entry(cs[0].fd, cs[0].ts)] + Entries(cs[1..])
  }

  /** The map holds exactly the listed connections, each under its own descriptor. */
  ghost predicate Tabled(cs: seq<Conn>, m: map<int, Conn>) {
    && (forall i :: 0 <= i < |cs| ==> cs[i].fd in m && m[cs[i].fd] == cs[i])
    && (forall fd :: fd in m ==> m[fd].fd == fd && m[fd] in cs)
  }

  ghost predicate NoRepeats(cs: seq<Conn>) {
    forall i, j :: 0 <= i < j < |cs| ==> cs[i] != cs[j]
  }

  ghost function Without(cs: seq<Conn>, j: nat): (cs': seq<Conn>)
    requires j < |cs|
  {
    cs[..j] + cs[j + 1..]
  }

  /** The node list without one connection, position by position. */
  lemma SplicedOut(head: Conn, tail: Conn, cs: seq<Conn>, j: nat)
    requires j < |cs|
    ensures var nodes, nodes' := [head] + cs + [tail], [head] + Without(cs, j) + [tail];
            && (forall k :: 0 <= k <= j ==> nodes'[k] == nodes[k])
            && (forall k :: j < k < |nodes'| ==> nodes'[k] == nodes[k + 1])
  {
  }

  lemma TabledWithout(cs: seq<Conn>, m: map<int, Conn>, j: nat)
    requires Tabled(cs, m) && NoRepeats(cs) && j < |cs|
    ensures Tabled(Without(cs, j), m - {cs[j].fd}) && NoRepeats(Without(cs, j)) && cs[j] !in Without(cs, j)
  {
    var cs', m' := Without(cs, j), m - {cs[j].fd};
    forall i | 0 <= i < |cs'| ensures cs'[i].fd in m' && m'[cs'[i].fd] == cs'[i] && cs'[i] != cs[j] {
      assert cs'[i] == cs[if i < j then i else i + 1];
    }
    forall fd | fd in m' ensures m'[fd] in cs' {
      var k :| 0 <= k < |cs| && cs[k] == m[fd];
      assert k != j && cs'[if k < j then k else k - 1] == cs[k];
    }
  }

  lemma TabledWith(cs: seq<Conn>, m: map<int, Conn>, c: Conn)
    requires Tabled(cs, m) && NoRepeats(cs) && c.fd !in m
    ensures Tabled([c] + cs, m[c.fd := c]) && NoRepeats([c] + cs) && c !in cs
  {
    var cs' := [c] + cs;
    forall i | 0 <= i < |cs| ensures cs[i] != c && cs'[i + 1] == cs[i] {}
    forall fd | fd in m ensures m[fd] in cs' {
      var k :| 0 <= k < |cs| && cs[k] == m[fd];
      assert cs'[k + 1] == cs[k];
    }
  }

  lemma TabledFds(cs: seq<Conn>, m: map<int, Conn>)
    requires Tabled(cs, m) && NoRepeats(cs)
    ensures DistinctFds(Entries(cs))
    ensures forall fd :: Has(Entries(cs), fd) <==> fd in m
  {
    hide Entries;
    var t := Entries(cs);
    forall i, j | 0 <= i < j < |t| ensures t[i].fd != t[j].fd {
      assert m[cs[i].fd] == cs[i] && m[cs[j].fd] == cs[j];
    }
    forall fd | fd in m ensures Has(t, fd) {
      var k :| 0 <= k < |cs| && cs[k] == m[fd];
      assert t[k].fd == fd;
    }
    forall fd | Has(t, fd) ensures fd in m {
      var k :| 0 <= k < |t| && t[k].fd == fd;
      assert cs[k].fd == fd;
    }
  }

  lemma {:induction false} EntriesWithout(cs: seq<Conn>, j: nat)
    requires j < |cs| && DistinctFds(Entries(cs))
    ensures Entries(Without(cs, j)) == Remove(Entries(cs), cs[j].fd)
  {
    hide Entries;
    hide Without;
    hide DistinctFds;
    var t, rest := Entries(cs), cs[1..];
    EntriesFirst(cs);
    WithoutFirst(cs, j);
    if j > 0 {
      FirstDiffers(t, j);
      EntriesFirst([cs[0]] + Without(rest, j - 1));
      EntriesWithout(rest, j - 1);
    }
  }

  lemma WithoutFirst(cs: seq<Conn>, j: nat)
    requires j < |cs|
    ensures Without(cs, j) == if j == 0 then cs[1..] else [cs[0]] + Without(cs[1..], j - 1)
  {
  }

  lemma FirstDiffers(t: Table, j: nat)
    requires DistinctFds(t) && 0 < j < |t|
    ensures t[0].fd != t[j].fd && DistinctFds(t[1..])
  {
  }

  lemma EntriesFirst(cs: seq<Conn>)
    requires cs != []
    ensures Entries(cs) == [Entry(cs[0].fd, cs[0].ts)] + Entries(cs[1..])
  {
  }

  class Listener {
    const fdhead: Conn
    const fdtail: Conn
    const timeout: int
    var fdconns: map<int, Conn>
    var count: int
    ghost var conns: seq<Conn>    // the listed connections, newest first
    ghost var nodes: seq<Conn>    // the same between the sentinels
    ghost var repr: set<Conn>     // every node ever listed

    constructor (timeout: int)
      ensures Valid() && conns == [] && this.timeout == timeout && fresh(repr)
    {
      var head := new Conn(0);
      var tail := new Conn(0);
      head.next := tail;
      tail.prev := head;
      fdhead, fdtail := head, tail;
      this.timeout := timeout;
      fdconns, count := map[], 0;
      conns, nodes, repr := [], [head, tail], {head, tail};
    }

    /** The doubly linked list runs from sentinel to sentinel through `conns`, each once. */
    ghost predicate Linked()
      reads `nodes, `conns, `repr, repr`next, repr`prev
    {
      && nodes == [fdhead] + conns + [fdtail]
      && NoRepeats(nodes)
      && (forall i :: 0 <= i < |nodes| ==> nodes[i] in repr)
      && (forall i :: 0 <= i < |nodes| - 1 ==> nodes[i].next == nodes[i + 1])
      && (forall i :: 0 < i < |nodes| ==> nodes[i].prev == nodes[i - 1])
    }

    ghost predicate AllOpen()
      reads `conns, conns`closed
    {
      forall i :: 0 <= i < |conns| ==> !conns[i].closed
    }

    /** List, map, counter and closed flags agree. */
    ghost predicate Valid()
      reads this, repr, conns
    {
      Linked() && Tabled(conns, fdconns) && NoRepeats(conns) && AllOpen() && count == |conns|
    }

    ghost function View(): (t: Table)
      reads `conns, conns`ts
    {
      Entries(conns)
    }

    /** The node before position `j` of the list. */
    ghost function Before(cs: seq<Conn>, j: nat): (c: Conn)
      requires j <= |cs|
    {
      if j == 0 then fdhead else cs[j - 1]
    }

    /** `attachConn`: splice in after the head sentinel and stamp the time. */
    method AttachConn(c: Conn, now: int)
      requires Linked() && c !in nodes
      modifies this`nodes, this`conns, this`repr, repr`next, repr`prev, c`next, c`prev, c`ts
      ensures Linked() && conns == [c] + old(conns) && c.ts == now && repr == old(repr) + {c}
    {
      repr := repr + {c};
      ghost var before := nodes;
      assert before[0].next == before[1];
      fdhead.next.prev := c;
      c.next := fdhead.next;
      fdhead.next := c;
      c.prev := fdhead;
      c.ts := now;
      conns := [c] + conns;
      nodes := [fdhead] + conns + [fdtail];
      assert forall i :: 2 <= i < |nodes| ==> nodes[i] == before[i - 1];
      assert nodes[0] == before[0] && nodes[1] == c && nodes[2].prev == c;
    }

    /** `detach`: splice out. The connection's own links still point into the list. */
    method Detach(c: Conn, ghost j: nat)
      requires Linked() && j < |conns| && conns[j] == c
      modifies this`nodes, this`conns, repr`next, repr`prev
      ensures Linked() && conns == Without(old(conns), j) && c !in nodes
      ensures c.prev == Before(old(conns), j)
    {
      ghost var before := nodes;
      assert before[j + 1] == c && c.prev == before[j] && c.next == before[j + 2];
      SplicedOut(fdhead, fdtail, conns, j);
      c.prev.next := c.next;
      c.next.prev := c.prev;
      conns := Without(conns, j);
      nodes := [fdhead] + conns + [fdtail];
    }

    /** `closeConnWithError`: a connection that is already closed is left alone; an open one leaves
        the counter, the list and the map, once. */
    method CloseConn(c: Conn, ghost j: nat)
      requires Valid() && c in repr && (c.closed || (j < |conns| && conns[j] == c))
      modifies this`nodes, this`conns, this`fdconns, this`count, repr`next, repr`prev, c`closed
      ensures Valid() && c.closed
      ensures if old(c.closed) then conns == old(conns) && fdconns == old(fdconns) && count == old(count)
              else conns == Without(old(conns), j) && fdconns == old(fdconns) - {c.fd} && count == old(count) - 1
                   && c.prev == Before(old(conns), j)
    {
      hide Entries;
      if c.closed { return; }
      c.closed := true;
      TabledWithout(conns, fdconns, j);
      ghost var before := conns;
      count := count - 1;
      Detach(c, j);
      fdconns := fdconns - {c.fd};
      assert forall i :: 0 <= i < |conns| ==> conns[i] == before[if i < j then i else i + 1] && conns[i] != c;
    }

    /** The tail sentinel's `prev` is the oldest connection, or the head when there is none. */
    lemma Oldest()
      requires Valid()
      ensures fdtail.prev == Before(conns, |conns|)
      ensures forall i :: 0 <= i < |conns| ==> conns[i] != fdhead && conns[i] in repr
      ensures forall c :: c in nodes ==> c in repr
    {
      var n := |conns|;
      assert nodes[n + 1] == fdtail && nodes[n] == Before(conns, n);
      forall i | 0 <= i < n ensures conns[i] != fdhead && conns[i] in repr { assert nodes[i + 1] == conns[i] && nodes[0] == fdhead; }
    }

    method CloseOldest(c: Conn)
      requires Valid() && conns != [] && conns[|conns| - 1] == c
      modifies this`nodes, this`conns, this`fdconns, this`count, repr`next, repr`prev, c`closed
      ensures Valid() && conns == old(conns)[..|old(conns)| - 1] && View() == old(View())[..|old(conns)| - 1]
      ensures c.closed && c.prev == Before(conns, |conns|)
    {
      hide Entries;
      hide Linked;
      hide Tabled;
      hide NoRepeats;
      ghost var before, view := conns, View();
      Oldest();
      CloseConn(c, |conns| - 1);
      assert conns == before[..|before| - 1];
      assert View() == view[..|before| - 1];
    }

    lemma LastListed()
      requires Valid()
      ensures fdtail.prev == Before(conns, |conns|)
      ensures conns != [] ==> conns[|conns| - 1] != fdhead && conns[|conns| - 1] in repr
    {
      Oldest();
    }

    /** The timeout sweep: walk from the oldest connection through `prev`, closing as it goes, and
        stop at the first that is in time. */
    method SweepExpired(now: int)
      requires Valid()
      modifies this`nodes, this`conns, this`fdconns, this`count, repr`next, repr`prev, repr`closed
      ensures Valid() && View() == Sweep(old(View()), now, timeout)
      ensures conns <= old(conns)
      ensures forall k :: |conns| <= k < |old(conns)| ==> old(conns)[k].closed
    {
      hide Entries;
      hide Valid;
      hide SweepBack;
      if timeout <= 0 { return; }
      ghost var before, cutoff := conns, now - timeout;
      ghost var goal := SweepBack(View(), cutoff);
      LastListed();
      var conn := fdtail.prev;
      while conn != null && conn != fdhead
        invariant Valid() && conn == Before(conns, |conns|)
        invariant conns <= before
        invariant forall k :: |conns| <= k < |before| ==> before[k].closed
        invariant SweepBack(View(), cutoff) == goal
        decreases |conns|
      {
        assert View()[|conns| - 1].ts == conn.ts;
        if conn.ts >= now - timeout { break; }
        SweepLast(View(), cutoff);
        LastListed();
        CloseOldest(conn);
        conn := conn.prev;
      }
      LastListed();
      SweepDone(View(), cutoff);
    }

    /** A new connection on a descriptor that is not open. */
    method OnAccept(fd: int, now: int, later: int)
      requires Valid() && fd !in fdconns
      modifies this, repr`next, repr`prev, repr`closed
      ensures Valid() && View() == Step(old(View()), Accept(fd, now, later), timeout)
      ensures fresh(repr - old(repr)) && old(repr) <= repr
    {
      hide Valid;
      hide SweepBack;
      Admit(fd, now);
      SweepExpired(later);
    }

    method Admit(fd: int, now: int)
      requires Valid() && fd !in fdconns
      modifies this, repr`next, repr`prev
      ensures Valid() && View() == Attach(old(View()), fd, now)
      ensures fresh(repr - old(repr)) && old(repr) <= repr
    {
      hide Linked;
      hide Tabled;
      hide NoRepeats;
      hide Entries;
      assert forall c :: c in nodes ==> c in repr by { Oldest(); }
      ghost var before, view := conns, View();
      var c := new Conn(fd);
      assert Tabled([c] + conns, fdconns[fd := c]) && NoRepeats([c] + conns) && c !in conns by {
        TabledWith(conns, fdconns, c);
      }
      fdconns := fdconns[fd := c];
      AttachConn(c, now);
      count := count + 1;
      assert Entries(before) == view;
      assert View() == Attach(view, fd, now);
    }

    method MoveToFront(c: Conn, ghost j: nat, now: int)
      requires Valid() && j < |conns| && conns[j] == c
      modifies this`nodes, this`conns, this`repr, repr`next, repr`prev, c`ts
      ensures Valid() && conns == [c] + Without(old(conns), j) && repr == old(repr)
      ensures View() == Attach(Remove(old(View()), c.fd), c.fd, now)
    {
      hide Entries;
      hide Linked;
      hide Tabled;
      hide NoRepeats;
      hide Remove;
      ghost var before, rest := conns, Entries(Without(conns, j));
      assert rest == Remove(View(), c.fd) by {
        TabledFds(conns, fdconns);
        EntriesWithout(conns, j);
      }
      assert c !in Without(conns, j) by { TabledWithout(conns, fdconns, j); }
      assert c in repr by { Oldest(); }
      Detach(c, j);
      AttachConn(c, now);
      assert Tabled(conns, fdconns) && NoRepeats(conns) by { Rejoined(before, fdconns, j); }
      MovedOpen(before, j);
      hide AllOpen;
      assert View()[1..] == rest;
    }

    lemma MovedOpen(before: seq<Conn>, j: nat)
      requires j < |before| && conns == [before[j]] + Without(before, j)
      requires forall i :: 0 <= i < |before| ==> !before[i].closed
      ensures AllOpen() && |conns| == |before|
    {
      forall i | 0 <= i < |conns| ensures !conns[i].closed {
        assert conns[i] == before[if i == 0 then j else if i <= j then i - 1 else i];
      }
    }

    /** Activity on a descriptor: move its connection to the front, run its handlers, any of which
        may close it, and sweep. */
    method OnActive(fd: int, now: int, writeCloses: bool, readCloses: bool, eof: bool, later: int)
      requires Valid()
      modifies this, repr`next, repr`prev, repr`closed, repr`ts
      ensures Valid() && repr == old(repr)
      ensures View() == Step(old(View()), Active(fd, now, writeCloses || readCloses || eof, later), timeout)
    {
      hide Entries;
      hide SweepBack;
      hide Linked;
      hide AllOpen;
      hide NoRepeats;
      hide Remove;
      ghost var view := View();
      assert Has(view, fd) <==> fd in fdconns by { TabledFds(conns, fdconns); }
      if fd !in fdconns { return; }
      var c := fdconns[fd];
      ghost var j :| 0 <= j < |conns| && conns[j] == c;
      assert c.fd == fd;
      OnKnown(c, j, now, writeCloses, readCloses, eof, later);
    }

    method OnKnown(c: Conn, ghost j: nat, now: int, writeCloses: bool, readCloses: bool, eof: bool, later: int)
      requires Valid() && j < |conns| && conns[j] == c
      modifies this, repr`next, repr`prev, repr`closed, repr`ts
      ensures Valid() && repr == old(repr)
      ensures View() == Sweep(Handled(old(View()), Active(c.fd, now, writeCloses || readCloses || eof, later)), later, timeout)
    {
      hide Entries;
      hide SweepBack;
      hide Linked;
      hide AllOpen;
      hide NoRepeats;
      hide Remove;
      hide Tabled;
      Oldest();
      MoveToFront(c, j, now);
      CloseAny(c, writeCloses, readCloses, eof);
      SweepExpired(later);
    }

    /** The poller's callbacks, event after event. */
    method Serve(es: seq<Event>)
      requires Valid() && Possible(View(), es, timeout)
      modifies this, repr
      ensures Valid() && View() == Run(old(View()), es, timeout)
    {
      hide Entries;
      hide Linked;
      hide AllOpen;
      hide NoRepeats;
      hide Step;
      ghost var goal := Run(View(), es, timeout);
      assert es[0..] == es;
      for i := 0 to |es|
        invariant Valid() && Possible(View(), es[i..], timeout)
        invariant Run(View(), es[i..], timeout) == goal
        invariant old(repr) <= repr && fresh(repr - old(repr))
      {
        ghost var view := View();
        assert es[i..][1..] == es[i + 1..];
        assert forall fd :: Has(view, fd) <==> fd in fdconns by { TabledFds(conns, fdconns); }
        match es[i] {
          case Accept(fd, now, later) => OnAccept(fd, now, later);
          case Active(fd, now, closes, later) => OnActive(fd, now, false, closes, false, later);
        }
      }
    }

    /** The handlers of an event on the connection at the front: the first to close it does, the
        rest find it closed. */
    method CloseAny(c: Conn, writeCloses: bool, readCloses: bool, eof: bool)
      requires Valid() && conns != [] && conns[0] == c && c in repr
      modifies this`nodes, this`conns, this`fdconns, this`count, repr`next, repr`prev, c`closed
      ensures Valid()
      ensures View() == if writeCloses || readCloses || eof then Remove(old(View()), c.fd) else old(View())
    {
      hide Entries;
      hide Linked;
      hide Tabled;
      ghost var view := View();
      if writeCloses { CloseConn(c, 0); }
      if readCloses { CloseConn(c, 0); }
      if eof { CloseConn(c, 0); }
      assert view[0].fd == c.fd;
      assert View() == if writeCloses || readCloses || eof then view[1..] else view;
    }
  }

  lemma SweepDone(t: Table, cutoff: int)
    requires t == [] || t[|t| - 1].ts >= cutoff
    ensures SweepBack(t, cutoff) == t
  {
  }

  /** Moving a listed connection to the front keeps the map right. */
  lemma Rejoined(cs: seq<Conn>, m: map<int, Conn>, j: nat)
    requires Tabled(cs, m) && NoRepeats(cs) && j < |cs|
    ensures Tabled([cs[j]] + Without(cs, j), m) && NoRepeats([cs[j]] + Without(cs, j))
  {
    TabledWithout(cs, m, j);
    var c := cs[j];
    TabledWith(Without(cs, j), m - {c.fd}, c);
    assert (m - {c.fd})[c.fd := c] == m;
  }

  lemma SweepLast(t: Table, cutoff: int)
    requires t != [] && t[|t| - 1].ts < cutoff
    ensures SweepBack(t, cutoff) == SweepBack(t[..|t| - 1], cutoff)
  {
  }
}
