/** The connection table told from the events alone: which connections server.go keeps open, and since
    when each has been quiet. */
module ConnHistory {
  import opened Bytes
  import opened ConnTable

  /** Since when `fd` has been quiet after the events, or None if it is not open. A connection is
      open from its accept until an event closes it or a sweep finds it quiet for longer than the
      timeout; activity makes it quiet since then. */
  function QuietSince(es: seq<Event>, fd: int, timeout: int): (r: Option<int>)
    decreases |es|
  {
    if es == [] then None
    else
      var init, e := es[..|es| - 1], es[|es| - 1];
      var before := QuietSince(init, fd, timeout);
      if e.Active? && QuietSince(init, e.fd, timeout).None? then before
      else
        var r := if e.fd != fd then before else if e.Active? && e.closes then None else Some(e.now);
        if r.Some? && timeout > 0 && r.value < e.later - timeout then None else r
  }

  // ----- runs, event by event

  lemma {:induction false} RunSnoc(t: Table, es: seq<Event>, e: Event, timeout: int)
    ensures Run(t, es + [e], timeout) == Step(Run(t, es, timeout), e, timeout)
    decreases |es|
  {
    hide Step;
    if es == [] {
      assert es + [e] == [e] && [e][1..] == [];
    } else {
      assert (es + [e])[1..] == es[1..] + [e];
      RunSnoc(Step(t, es[0], timeout), es[1..], e, timeout);
    }
  }

  lemma {:induction false} PossibleSnoc(t: Table, es: seq<Event>, e: Event, timeout: int)
    requires Possible(t, es + [e], timeout)
    ensures Possible(t, es, timeout) && (e.Accept? ==> !Has(Run(t, es, timeout), e.fd))
    decreases |es|
  {
    hide Step;
    hide Has;
    if es == [] {
      assert es + [e] == [e];
    } else {
      assert (es + [e])[1..] == es[1..] + [e];
      PossibleSnoc(Step(t, es[0], timeout), es[1..], e, timeout);
    }
  }

  lemma {:induction false} ClockedSnoc(es: seq<Event>, e: Event, start: int)
    requires Clocked(es + [e], start)
    ensures Clocked(es, start) && LastReading(es, start) <= e.now <= e.later
    decreases |es|
  {
    if es == [] {
      assert es + [e] == [e];
    } else {
      assert (es + [e])[1..] == es[1..] + [e];
      ClockedSnoc(es[1..], e, es[0].later);
      assert LastReading(es, start) == LastReading(es[1..], es[0].later);
    }
  }

  // ----- membership

  lemma {:induction false} InTimeMember(t: Table, cutoff: int, x: Entry)
    ensures x in InTime(t, cutoff) <==> x in t && x.ts >= cutoff
  {
    if t != [] {
      InTimeMember(t[1..], cutoff, x);
      assert t == [t[0]] + t[1..];
    }
  }

  lemma RemoveMember(t: Table, fd: int, x: Entry)
    requires DistinctFds(t)
    ensures x in Remove(t, fd) <==> x in t && x.fd != fd
  {
    if Has(t, fd) {
      var i :| 0 <= i < |t| && t[i].fd == fd;
      RemoveAt(t, i);
      assert t == t[..i] + [t[i]] + t[i + 1..];
      assert forall k :: 0 <= k < |t| && k != i ==> t[k].fd != fd;
    } else {
      RemoveAbsent(t, fd);
    }
  }

  lemma HandledMember(t: Table, e: Event, x: Entry)
    requires DistinctFds(t)
    requires if e.Accept? then !Has(t, e.fd) else Has(t, e.fd)
    ensures x in Handled(t, e) <==>
            if x.fd == e.fd then x.ts == e.now && !(e.Active? && e.closes) else x in t
  {
    if e.Accept? {
      assert x in t && x.fd == e.fd ==> Has(t, e.fd);
    } else {
      var t0 := Remove(t, e.fd);
      RemoveMember(t, e.fd, x);
      RemoveKeeps(t, e.fd, e.now);
      AttachKeeps(t0, e.fd, e.now);
      RemoveMember(Attach(t0, e.fd, e.now), e.fd, x);
    }
  }

  /** What one event does to one connection: activity stamps it, a closing handler removes it,
      the sweep removes it exactly when it is quiet for too long, and nothing else touches it. */
  lemma StepMember(t: Table, e: Event, timeout: int, x: Entry)
    requires DistinctFds(t) && Ordered(t) && NotAfter(t, e.now) && (e.Accept? ==> !Has(t, e.fd))
    ensures x in Step(t, e, timeout) <==>
            if e.Active? && !Has(t, e.fd) then x in t
            else
              && (timeout > 0 ==> x.ts >= e.later - timeout)
              && if x.fd == e.fd then x.ts == e.now && !(e.Active? && e.closes) else x in t
  {
    hide DistinctFds;
    hide Ordered;
    hide NotAfter;
    hide Has;
    hide Handled;
    if !(e.Active? && !Has(t, e.fd)) {
      HandledMember(t, e, x);
      if timeout > 0 {
        StepSweepsExactly(t, e, timeout);
        InTimeMember(Handled(t, e), e.later - timeout, x);
      }
    }
  }

  lemma HasMember(t: Table, fd: int)
    ensures Has(t, fd) <==> exists ts :: Entry(fd, ts) in t
  {
    if Has(t, fd) {
      var i :| 0 <= i < |t| && t[i].fd == fd;
      assert t[i] == Entry(fd, t[i].ts);
    }
    if ts :| Entry(fd, ts) in t {
      var i :| 0 <= i < |t| && t[i] == Entry(fd, ts);
    }
  }

  // ----- the table is the history

  /** After any run from an empty table, under a clock that does not go back, a connection is in
      the table if and only if the events leave it open, stamped with its last activity. */
  lemma {:induction false} TableIsHistory(es: seq<Event>, timeout: int, start: int, x: Entry)
    requires Possible([], es, timeout) && Clocked(es, start)
    ensures x in Run([], es, timeout) <==> QuietSince(es, x.fd, timeout) == Some(x.ts)
    decreases |es|, 0
  {
    hide Run;
    hide Step;
    hide Possible;
    hide Clocked;
    hide DistinctFds;
    hide Ordered;
    hide NotAfter;
    if es == [] {
      RunNothing(timeout);
    } else {
      var init, e := es[..|es| - 1], es[|es| - 1];
      assert es == init + [e];
      RunSnoc([], init, e, timeout);
      PossibleSnoc([], init, e, timeout);
      ClockedSnoc(init, e, start);
      var t := Run([], init, timeout);
      OrderedSoFar(init, e, timeout, start);
      TableIsHistory(init, timeout, start, x);
      KnownIff(init, timeout, start, e.fd);
      StepMember(t, e, timeout, x);
    }
  }

  lemma RunNothing(timeout: int)
    ensures Run([], [], timeout) == []
  {
  }

  lemma OrderedSoFar(es: seq<Event>, e: Event, timeout: int, start: int)
    requires Possible([], es, timeout) && Clocked(es, start) && LastReading(es, start) <= e.now
    ensures var t := Run([], es, timeout); DistinctFds(t) && Ordered(t) && NotAfter(t, e.now)
  {
    hide Run;
    hide Possible;
    hide Clocked;
    RunKeepsOrder([], es, timeout, start);
  }

  lemma KnownIff(es: seq<Event>, timeout: int, start: int, fd: int)
    requires Possible([], es, timeout) && Clocked(es, start)
    ensures Has(Run([], es, timeout), fd) <==> QuietSince(es, fd, timeout).Some?
    decreases |es|, 1
  {
    hide Run;
    hide QuietSince;
    var t := Run([], es, timeout);
    HasMember(t, fd);
    forall ts ensures Entry(fd, ts) in t <==> QuietSince(es, fd, timeout) == Some(ts) {
      TableIsHistory(es, timeout, start, Entry(fd, ts));
    }
    if QuietSince(es, fd, timeout).Some? { assert Entry(fd, QuietSince(es, fd, timeout).value) in t; }
  }

  // ----- in terms of single events

  /** Whether the event `es[j]` was for an open connection, or a new one, and so ended in a sweep. */
  predicate Swept(es: seq<Event>, j: nat, timeout: int)
    requires j < |es|
  {
    es[j].Accept? || QuietSince(es[..j], es[j].fd, timeout).Some?
  }

  /** `es[i]` is the last event of an open connection: it accepted it or found it open and left it
      so, no later event was for it, and no sweep since then found it quiet for too long. */
  predicate LastOf(es: seq<Event>, i: nat, fd: int, timeout: int)
    requires i < |es|
  {
    && es[i].fd == fd && Swept(es, i, timeout) && !(es[i].Active? && es[i].closes)
    && (forall j :: i < j < |es| ==> es[j].fd != fd)
    && (timeout > 0 ==> forall j :: i <= j < |es| && Swept(es, j, timeout) ==> es[i].now >= es[j].later - timeout)
  }

  lemma LastOfBefore(es: seq<Event>, i: nat, fd: int, timeout: int)
    requires i < |es| - 1
    ensures var init, e := es[..|es| - 1], es[|es| - 1];
            LastOf(es, i, fd, timeout) <==>
            && LastOf(init, i, fd, timeout) && e.fd != fd
            && (timeout > 0 && Swept(es, |es| - 1, timeout) ==> es[i].now >= e.later - timeout)
  {
    var init := es[..|es| - 1];
    assert forall j :: 0 <= j < |init| ==> init[j] == es[j] && init[..j] == es[..j];
    assert forall j :: 0 <= j < |init| ==> (Swept(init, j, timeout) <==> Swept(es, j, timeout));
  }

  lemma LastOfNow(es: seq<Event>, fd: int, timeout: int)
    requires es != []
    ensures var n := |es| - 1;
            LastOf(es, n, fd, timeout) <==>
            && es[n].fd == fd && Swept(es, n, timeout) && !(es[n].Active? && es[n].closes)
            && (timeout > 0 ==> es[n].now >= es[n].later - timeout)
  {
  }

  /** A connection is open exactly when it has such a last event, and quiet since then. */
  lemma {:induction false} OpenSinceLast(es: seq<Event>, fd: int, timeout: int, ts: int)
    ensures QuietSince(es, fd, timeout) == Some(ts) <==>
            exists i: nat :: i < |es| && es[i].now == ts && LastOf(es, i, fd, timeout)
    decreases |es|
  {
    if es != [] {
      var n := |es| - 1;
      var init, e := es[..n], es[n];
      OpenSinceLast(init, fd, timeout, ts);
      LastOfNow(es, fd, timeout);
      assert Swept(es, n, timeout) <==> e.Accept? || QuietSince(init, e.fd, timeout).Some?;
      hide LastOf;
      if QuietSince(es, fd, timeout) == Some(ts) {
        if e.fd == fd {
          assert LastOf(es, n, fd, timeout);
        } else {
          var i: nat :| i < |init| && init[i].now == ts && LastOf(init, i, fd, timeout);
          LastOfBefore(es, i, fd, timeout);
          assert es[i].now == ts;
        }
      }
      if i: nat :| i < |es| && es[i].now == ts && LastOf(es, i, fd, timeout) {
        if i < n {
          LastOfBefore(es, i, fd, timeout);
          assert init[i].now == ts;
        }
      }
    }
  }

  /** So a connection is in the table, stamped `ts`, if and only if `ts` is the reading of its last
      event, that event left it open, and no sweep since has found it quiet for longer than the
      timeout. */
  lemma TimedOutExactly(es: seq<Event>, timeout: int, start: int, x: Entry)
    requires Possible([], es, timeout) && Clocked(es, start)
    ensures x in Run([], es, timeout) <==>
            exists i: nat :: i < |es| && es[i].now == x.ts && LastOf(es, i, x.fd, timeout)
  {
    hide Run;
    hide LastOf;
    TableIsHistory(es, timeout, start, x);
    OpenSinceLast(es, x.fd, timeout, x.ts);
  }
}
