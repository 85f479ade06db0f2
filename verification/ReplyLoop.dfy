/** The client's reply loop and AUTH states: `readConn` in redis/client.go. */
module ReplyLoop {
  import opened Bytes
  import opened Resp

  /** What the callback is given: the reader's remaining bytes and the reply's error, or the error
      that broke the connection. */
  datatype Call = Reply(buf: bytes, err: Option<bytes>) | Broke

  /** Malformed: `readElement` rejected an element (or panicked on its length). */
  datatype Status = Busy | Idle | Freed | Oversize | Malformed | Closed

  /** A client connection. `active` says a callback is set; `auth` is authState. */
  datatype Link = Link(input: bytes, auth: nat, active: bool, status: Status, calls: seq<Call>)

  /** How the loop leaves the input: what is left, the AUTH state, the calls made, and whether an
      element was malformed. */
  datatype Drained = Drained(input: bytes, auth: nat, calls: seq<Call>, bad: bool)

  /** `callback(r, r.err())` on the element `e`: reading an error consumes it. */
  function CallFor(e: bytes): (c: Call)
    requires Element(e).Size?
  {
    if ItemOf(e).Err? then Reply(e[Element(e).n..], Some(ItemOf(e).text)) else Reply(e, None)
  }

  function Drain(input: bytes, auth: nat): (d: Drained)
    ensures |d.input| <= |input|
    decreases |input|
  {
    if input == [] then Drained(input, auth, [], false)
    else
      match Element(input)
      case WaitMore => Drained(input, auth, [], false)
      case Size(n) =>
        if auth == 1 then Drain(input[n..], 2)
        else
          ElementCut(input);
          var d := Drain(input[n..], 0);
          d.(calls := [CallFor(input[..n])] + d.calls)
      case _ => Drained(input, auth, [], true)
  }

  /** One read event that brought `chunk`. `room` says whether the pool keeps the connection. */
  function Read(v: Link, chunk: bytes, limit: nat, room: bool): (v': Link) {
    if chunk == [] then v.(status := Closed, calls := v.calls + if v.active then [Broke] else [])
    else if !v.active then v
    else if |v.input + chunk| > limit then v.(input := v.input + chunk, status := Oversize, calls := v.calls + [Broke])
    else
      var d := Drain(v.input + chunk, v.auth);
      var v1 := v.(input := d.input, auth := d.auth, calls := v.calls + d.calls);
      if d.bad then v1.(status := Malformed, calls := v1.calls + [Broke])
      else if d.input == [] && d.auth == 0 then
        if room then v1.(status := Idle, active := false) else v1.(status := Freed)
      else v1
  }

  function ReadAll(v: Link, chunks: seq<bytes>, limit: nat, room: bool): (v': Link)
    decreases |chunks|
  {
    if chunks == [] || !v.status.Busy? then v
    else ReadAll(Read(v, chunks[0], limit, room), chunks[1..], limit, room)
  }

  // ----- the connection object

  class Conn {
    var input: bytes
    var authState: nat
    var active: bool
    var status: Status
    var calls: seq<Call>     // what the callback has been given, in order

    function Value(): Link
      reads this
    {
      Link(input, authState, active, status, calls)
    }

    /** A connection just opened for a command, with AUTH sent first when there is a password. */
    constructor (auth: bool)
      ensures Value() == Fresh(auth)
    {
      input, authState, active, status, calls := [], if auth then 1 else 0, true, Busy, [];
    }

    /** `fillIdleConn`: a new command on an idle connection. */
    method Fill()
      modifies this
      ensures Value() == Refilled(old(Value()))
    {
      active := true;
      status := Busy;
    }

    method ReadConn(chunk: bytes, limit: nat, room: bool)
      modifies this
      ensures Value() == Read(old(Value()), chunk, limit, room)
    {
      if chunk == [] {
        status := Closed;
        if active { calls := calls + [Broke]; }
        return;
      }
      if !active { return; }
      input := input + chunk;
      if |input| > limit {
        status := Oversize;
        calls := calls + [Broke];
        return;
      }
      var bad := Loop();
      if bad {
        status := Malformed;
        calls := calls + [Broke];
      } else if |input| == 0 && authState == 0 {
        if room {
          active := false;
          status := Idle;
        } else {
          status := Freed;
        }
      }
    }

    /** The loop over complete elements. It ends because each consumes bytes. */
    method Loop() returns (bad: bool)
      modifies this`input, this`authState, this`calls
      ensures var d := Drain(old(input), old(authState));
              input == d.input && authState == d.auth && calls == old(calls) + d.calls && bad == d.bad
    {
      ghost var goal := Drain(input, authState);
      ghost var made: seq<Call> := [];
      while |input| > 0
        invariant calls == old(calls) + made
        invariant goal == More(made, Drain(input, authState))
        decreases |input|
      {
        var bb := ReadElement(input);
        if bb.WaitMore? { break; }
        if !bb.Size? {
          assert made + [] == made;
          return true;
        }
        if authState == 1 {
          authState := 2;
        } else {
          ElementCut(input);
          var r := new Reader(input[..bb.n]);
          var e := r.Error();
          calls := calls + [Reply(r.buf, e)];
          Assoc(made, [Reply(r.buf, e)], Drain(input[bb.n..], 0).calls);
          made := made + [Reply(r.buf, e)];
          authState := 0;
        }
        input := input[bb.n..];
      }
      assert made + [] == made;
      bad := false;
    }
  }

  function More(made: seq<Call>, d: Drained): Drained {
    d.(calls := made + d.calls)
  }

  function Fresh(auth: bool): (v: Link) {
    Link([], if auth then 1 else 0, true, Busy, [])
  }

  function Refilled(v: Link): (v': Link) {
    v.(active := true, status := Busy)
  }

  // ----- one command

  /** A whole reply: one element and nothing else. */
  predicate Whole(e: bytes) {
    Element(e) == Size(|e|)
  }

  /** The bytes a peer sends for one command: AUTH's reply first where it is awaited. */
  predicate Answers(stream: bytes, auth: nat, first: bytes, reply: bytes) {
    && Whole(reply)
    && if auth == 1 then Whole(first) && stream == first + reply else stream == reply
  }

  lemma DrainWhole(e: bytes, rest: bytes, auth: nat)
    requires Whole(e)
    ensures Drain(e + rest, auth) ==
            if auth == 1 then Drain(rest, 2) else More([CallFor(e)], Drain(rest, 0))
  {
    ElementExtend(e, rest);
    assert (e + rest)[|e|..] == rest && (e + rest)[..|e|] == e;
  }

  lemma DrainPart(e: bytes, k: nat, auth: nat)
    requires Whole(e) && k < |e|
    ensures Drain(e[..k], auth) == Drained(e[..k], auth, [], false)
  {
    StrictPrefixWaits(e, k);
  }

  /** The first `k` bytes of a command's answer: nothing is called before the last byte, and the
      whole answer makes the one call. */
  lemma DrainAnswer(stream: bytes, auth: nat, first: bytes, reply: bytes, k: nat)
    requires Answers(stream, auth, first, reply) && 0 < k <= |stream|
    ensures var d := Drain(stream[..k], auth);
            && !d.bad
            && (k < |stream| ==> d.calls == [] && (d.input != [] || d.auth != 0))
            && (k == |stream| ==> d == Drained([], 0, [CallFor(reply)], false))
  {
    hide Element;
    hide Drain;
    hide CallFor;
    var p := stream[..k];
    if auth == 1 && k >= |first| {
      assert p == first + reply[..k - |first|];
      DrainWhole(first, reply[..k - |first|], 1);
      if k < |stream| { DrainPart(reply, k - |first|, 2); } else { DrainReply(reply, 2); }
    } else if auth == 1 {
      assert p == first[..k];
      DrainPart(first, k, 1);
    } else if k < |stream| {
      DrainPart(reply, k, auth);
    } else {
      assert p == reply;
      DrainReply(reply, auth);
    }
  }

  lemma DrainReply(reply: bytes, auth: nat)
    requires Whole(reply) && auth != 1
    ensures Drain(reply[..|reply|], auth) == Drained([], 0, [CallFor(reply)], false)
  {
    assert reply[..|reply|] == reply + [];
    DrainWhole(reply, [], auth);
  }

  /** Draining in two goes is draining at once. */
  lemma {:induction false} DrainTwice(a: bytes, b: bytes, auth: nat)
    requires !Drain(a, auth).bad
    ensures var d := Drain(a, auth); Drain(a + b, auth) == More(d.calls, Drain(d.input + b, d.auth))
    decreases |a|
  {
    hide Element;
    hide ItemOf;
    hide CallFor;
    if a == [] || Element(a).WaitMore? {
      assert [] + Drain(a + b, auth).calls == Drain(a + b, auth).calls;
      assert a == [] ==> a + b == b && [] + b == b;
    } else {
      var n := Element(a).n;
      ElementExtend(a, b);
      assert (a + b)[n..] == a[n..] + b && (a + b)[..n] == a[..n];
      DrainTwice(a[n..], b, if auth == 1 then 2 else 0);
      if auth != 1 {
        ElementCut(a);
        var d := Drain(a[n..], 0);
        Assoc([CallFor(a[..n])], d.calls, Drain(d.input + b, d.auth).calls);
      }
    }
  }

  /** Where the connection stands after the first `k` bytes of the answer. */
  ghost predicate Midway(v: Link, v0: Link, stream: bytes, k: nat) {
    && k < |stream|
    && v.active && v.status.Busy?
    && (k == 0 ==> v == v0)
    && (k > 0 ==>
          var d := Drain(stream[..k], v0.auth);
          v == v0.(input := d.input, auth := d.auth))
  }

  lemma ReadOne(v: Link, v0: Link, stream: bytes, k: nat, chunk: bytes, first: bytes, reply: bytes, limit: nat, room: bool)
    requires v0.input == [] && Answers(stream, v0.auth, first, reply)
    requires Midway(v, v0, stream, k)
    requires chunk != [] && k + |chunk| <= |stream| && chunk == stream[k..k + |chunk|]
    ensures var v' := Read(v, chunk, limit, room);
            || v'.status.Oversize?
            || (k + |chunk| < |stream| && Midway(v', v0, stream, k + |chunk|))
            || (k + |chunk| == |stream| && v' == Served(v0, reply, room))
  {
    hide Element;
    hide Drain;
    hide Answers;
    hide CallFor;
    var j := k + |chunk|;
    assert stream[..j] == stream[..k] + chunk;
    DrainAnswer(stream, v0.auth, first, reply, j);
    if k > 0 {
      DrainAnswer(stream, v0.auth, first, reply, k);
      DrainTwice(stream[..k], chunk, v0.auth);
      var d := Drain(v.input + chunk, v.auth);
      assert [] + d.calls == d.calls;
    } else {
      assert v.input + chunk == chunk;
      assert stream[..0] + chunk == chunk;
    }
    assert v0.calls + [] == v0.calls;
  }

  /** The connection once its command has been answered. */
  function Served(v0: Link, reply: bytes, room: bool): (v: Link)
    requires Whole(reply)
  {
    var v := v0.(input := [], auth := 0, calls := v0.calls + [CallFor(reply)]);
    if room then v.(status := Idle, active := false) else v.(status := Freed)
  }

  lemma {:induction false} ReadRest(v: Link, v0: Link, stream: bytes, k: nat, chunks: seq<bytes>, first: bytes, reply: bytes, limit: nat, room: bool)
    requires v0.input == [] && Answers(stream, v0.auth, first, reply) && Midway(v, v0, stream, k)
    requires NoneEmpty(chunks) && Flatten(chunks) == stream[k..]
    ensures var v' := ReadAll(v, chunks, limit, room);
            v'.status.Oversize? || v' == Served(v0, reply, room)
    decreases |chunks|
  {
    hide Element;
    hide Drain;
    hide Read;
    hide Answers;
    assert chunks != [];
    var chunk, rest := chunks[0], chunks[1..];
    var j := k + |chunk|;
    assert chunk + Flatten(rest) == stream[k..];
    assert chunk == stream[k..][..|chunk|] == stream[k..j];
    ReadOne(v, v0, stream, k, chunk, first, reply, limit, room);
    var v1 := Read(v, chunk, limit, room);
    if j < |stream| && v1.status.Busy? {
      assert Flatten(rest) == stream[k..][|chunk|..] == stream[j..];
      ReadRest(v1, v0, stream, j, rest, first, reply, limit, room);
    }
  }

  /** One command: for every well-formed answer cut into any nonempty chunks, the callback runs
      exactly once, with the command's own reply; AUTH's reply is skipped; and only then, with no
      input left, is the connection pooled or freed. The one other end is a read that exceeds the
      response limit. */
  lemma AnsweredOnce(v: Link, chunks: seq<bytes>, first: bytes, reply: bytes, limit: nat, room: bool)
    requires v.active && v.status.Busy? && v.input == []
    requires NoneEmpty(chunks) && Answers(Flatten(chunks), v.auth, first, reply)
    ensures var v' := ReadAll(v, chunks, limit, room);
            v'.status.Oversize? || v' == Served(v, reply, room)
    ensures |Flatten(chunks)| <= limit ==> !ReadAll(v, chunks, limit, room).status.Oversize?
  {
    var stream := Flatten(chunks);
    assert stream[0..] == stream;
    if |stream| <= limit { FitsNeverOversize(v, chunks, limit, room); }
    ReadRest(v, v, stream, 0, chunks, first, reply, limit, room);
  }

  /** Until the last chunk the callback has not run and the connection is not given back. */
  lemma {:induction false} NotBefore(v: Link, chunks: seq<bytes>, more: seq<bytes>, first: bytes, reply: bytes, limit: nat, room: bool)
    requires v.active && v.status.Busy? && v.input == []
    requires NoneEmpty(chunks + more) && more != [] && Answers(Flatten(chunks + more), v.auth, first, reply)
    ensures var v' := ReadAll(v, chunks, limit, room);
            v'.status.Oversize? || (v'.active && v'.status.Busy? && v'.calls == v.calls)
  {
    var stream := Flatten(chunks + more);
    FlattenConcat(chunks, more);
    assert more[0] == (chunks + more)[|chunks|];
    assert |Flatten(more)| >= |more[0]| > 0;
    assert stream[0..] == stream;
    assert forall i :: 0 <= i < |chunks| ==> chunks[i] == (chunks + more)[i];
    MidwayAfter(v, v, stream, 0, chunks, first, reply, limit, room);
  }

  lemma {:induction false} MidwayAfter(v: Link, v0: Link, stream: bytes, k: nat, chunks: seq<bytes>, first: bytes, reply: bytes, limit: nat, room: bool)
    requires v0.input == [] && Answers(stream, v0.auth, first, reply) && Midway(v, v0, stream, k)
    requires NoneEmpty(chunks) && Flatten(chunks) <= stream[k..] && |Flatten(chunks)| < |stream| - k
    ensures var v' := ReadAll(v, chunks, limit, room);
            v'.status.Oversize? || (v'.active && v'.status.Busy? && v'.calls == v0.calls)
    decreases |chunks|
  {
    hide Element;
    hide Drain;
    hide Read;
    hide Answers;
    if chunks != [] {
      var chunk, rest := chunks[0], chunks[1..];
      var j := k + |chunk|;
      assert chunk == Flatten(chunks)[..|chunk|] == stream[k..][..|chunk|] == stream[k..j];
      ReadOne(v, v0, stream, k, chunk, first, reply, limit, room);
      var v1 := Read(v, chunk, limit, room);
      if v1.status.Busy? {
        assert Flatten(rest) == Flatten(chunks)[|chunk|..] <= stream[k..][|chunk|..];
        assert stream[k..][|chunk|..] == stream[j..];
        MidwayAfter(v1, v0, stream, j, rest, first, reply, limit, room);
      }
    }
  }

  // ----- a session

  /** One command of a session: how its answer was cut, and the reply it answers with. */
  datatype Exchange = Exchange(chunks: seq<bytes>, first: bytes, reply: bytes)

  function Session(v: Link, es: seq<Exchange>, limit: nat): (v': Link)
    decreases |es|
  {
    if es == [] || v.status.Oversize? then v
    else
      var v1 := ReadAll(Refilled(v), es[0].chunks, limit, true);
      Session(v1, es[1..], limit)
  }

  predicate WellFormed(es: seq<Exchange>, auth: nat) {
    forall i :: 0 <= i < |es| ==>
      NoneEmpty(es[i].chunks) && Answers(Flatten(es[i].chunks), if i == 0 then auth else 0, es[i].first, es[i].reply)
  }

  function Replies(es: seq<Exchange>): (cs: seq<Call>)
    requires forall i :: 0 <= i < |es| ==> Whole(es[i].reply)
  {
    if es == [] then [] else assert Whole(es[0].reply); [CallFor(es[0].reply)] + Replies(es[1..])
  }

  /** A connection that serves command after command makes one call per command, in order, each
      with its own reply, and is idle with no input left after each. */
  lemma {:induction false} SessionCallsOnce(v: Link, es: seq<Exchange>, limit: nat)
    requires v.input == [] && !v.status.Oversize? && WellFormed(es, v.auth)
    ensures var v' := Session(v, es, limit);
            || v'.status.Oversize?
            || (v'.calls == v.calls + Replies(es) && v'.input == [] && (es != [] ==> v'.status.Idle? && v'.auth == 0 && !v'.active))
    ensures (forall i :: 0 <= i < |es| ==> |Flatten(es[i].chunks)| <= limit) ==> !Session(v, es, limit).status.Oversize?
    decreases |es|
  {
    if es == [] {
      assert v.calls + [] == v.calls;
    } else {
      AnsweredOnce(Refilled(v), es[0].chunks, es[0].first, es[0].reply, limit, true);
      var v1 := ReadAll(Refilled(v), es[0].chunks, limit, true);
      if !v1.status.Oversize? {
        forall i | 0 <= i < |es[1..]|
          ensures NoneEmpty(es[1..][i].chunks) && Answers(Flatten(es[1..][i].chunks), 0, es[1..][i].first, es[1..][i].reply)
        {
          assert es[1..][i] == es[i + 1];
        }
        SessionCallsOnce(v1, es[1..], limit);
        Assoc(v.calls, [CallFor(es[0].reply)], Replies(es[1..]));
      }
    }
  }

  /** A connection just opened makes one call per command, in order, and skips exactly the first
      reply it gets when there is a password. */
  lemma FreshSession(auth: bool, es: seq<Exchange>, limit: nat)
    requires WellFormed(es, if auth then 1 else 0)
    ensures var v' := Session(Fresh(auth), es, limit); v'.status.Oversize? || v'.calls == Replies(es)
    ensures (forall i :: 0 <= i < |es| ==> |Flatten(es[i].chunks)| <= limit) ==> !Session(Fresh(auth), es, limit).status.Oversize?
  {
    hide Session;
    hide WellFormed;
    SessionCallsOnce(Fresh(auth), es, limit);
    assert forall cs: seq<Call> :: [] + cs == cs;
  }

  /** Within the limit there is no other end: answers that fit are always served. */
  lemma {:induction false} FitsNeverOversize(v: Link, chunks: seq<bytes>, limit: nat, room: bool)
    requires v.status.Busy? && |v.input| + |Flatten(chunks)| <= limit
    ensures !ReadAll(v, chunks, limit, room).status.Oversize?
    decreases |chunks|
  {
    if chunks != [] {
      var v1 := Read(v, chunks[0], limit, room);
      if v1.status.Busy? {
        FitsNeverOversize(v1, chunks[1..], limit, room);
      }
    }
  }

  // ----- replies as the server writes them

  /** The callback has the value: an error as its error, anything else as a reply that reads as
      exactly that value. */
  predicate Shows(c: Call, x: Value) {
    match x
    case Failure(text) => c == Reply([], Some(text))
    case _ => c.Reply? && c.err.None? && Walkable(c.buf) && Walk(c.buf) == [View(x)]
  }

  lemma CallShows(x: Value)
    requires Encodable(x)
    ensures Whole(Encode(x)) && Shows(CallFor(Encode(x)), x)
  {
    hide Encode;
    hide Element;
    hide Walk;
    hide Walkable;
    hide ItemOf;
    assert Encode(x) + [] == Encode(x);
    EncodedMeasured(x, []);
    NothingToWalk();
    WalkEncoded(x, []);
    if x.Array? { ItemOfArray(x.items, []); } else { ItemOfScalar(x, []); }
  }

  lemma NothingToWalk()
    ensures Walkable([]) && Walk([]) == []
  {
  }

  /** Whatever value the server's writers put on the wire, nested or not, and however it is cut,
      the client's callback runs once and reads that value. */
  lemma WrittenReplyIsRead(v: Link, x: Value, chunks: seq<bytes>, first: bytes, limit: nat, room: bool)
    requires v.active && v.status.Busy? && v.input == [] && Encodable(x)
    requires NoneEmpty(chunks) && Answers(Flatten(chunks), v.auth, first, Encode(x))
    ensures var v' := ReadAll(v, chunks, limit, room);
            || v'.status.Oversize?
            || (exists c :: v'.calls == v.calls + [c] && Shows(c, x))
    ensures |Flatten(chunks)| <= limit ==> !ReadAll(v, chunks, limit, room).status.Oversize?
  {
    hide ReadAll;
    hide Answers;
    hide Shows;
    CallShows(x);
    AnsweredOnce(v, chunks, first, Encode(x), limit, room);
    assert Shows(CallFor(Encode(x)), x);
  }

  // ----- no command goes unanswered

  /** A connection that has been given back or closed has made a call. */
  lemma {:induction false} DrainCalls(input: bytes, auth: nat)
    requires input != []
    ensures var d := Drain(input, auth); !d.bad && d.input == [] && d.auth == 0 ==> d.calls != []
    decreases |input|
  {
    hide Element;
    hide CallFor;
    var m := Element(input);
    if m.Size? && auth == 1 && input[m.n..] != [] { DrainCalls(input[m.n..], 2); }
  }

  /** Whatever bytes come, well formed or not, however they are cut: when a connection is no longer
      busy its callback has run, and when it broke the last call says so. */
  lemma {:induction false} NeverSilent(v: Link, chunks: seq<bytes>, limit: nat, room: bool)
    requires v.active && v.status.Busy?
    ensures var v' := ReadAll(v, chunks, limit, room);
            && v.calls <= v'.calls
            && (!v'.status.Busy? ==> |v'.calls| > |v.calls|)
            && (v'.status.Closed? || v'.status.Oversize? || v'.status.Malformed? ==> v'.calls[|v'.calls| - 1] == Broke)
            && (v'.status.Idle? || v'.status.Freed? ==> v'.input == [] && v'.auth == 0)
    decreases |chunks|
  {
    hide Drain;
    if chunks != [] {
      var v1 := Read(v, chunks[0], limit, room);
      if chunks[0] != [] { DrainCalls(v.input + chunks[0], v.auth); }
      assert v.calls <= v1.calls;
      if v1.status.Busy? { NeverSilent(v1, chunks[1..], limit, room); }
    }
  }

  /** A malformed reply breaks the connection, and nothing after it is given to the callback. */
  lemma MalformedBreaks(v: Link, chunk: bytes, limit: nat, room: bool)
    requires v.active && v.status.Busy? && chunk != [] && |v.input + chunk| <= limit
    requires var m := Element(v.input + chunk); !m.Size? && !m.WaitMore?
    ensures var v' := Read(v, chunk, limit, room); v'.status.Malformed? && v'.calls == v.calls + [Broke]
  {
    assert v.calls + [] == v.calls;
    assert v.input + chunk != [];
  }

  /** Bytes that come for no command are dropped. */
  lemma InactiveIgnores(v: Link, chunk: bytes, limit: nat, room: bool)
    requires !v.active && chunk != []
    ensures Read(v, chunk, limit, room) == v
  {
  }
}
