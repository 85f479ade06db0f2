/** Requests on one connection: `readConn` of server.go outside WebSocket mode. Each read event
    appends to the input buffer, runs the parser once and hands at most one request to a handler. */
module Requests {
  import opened Bytes
  import opened HttpHeader
  import opened ReadState
  import Command
  import HttpRequest

  datatype Status = Open | Eof | Oversize | Rejected(error: Error) | Refused | Crashed

  /** `handled` is history: the requests given to `OnRedis` or `OnHTTP`, in order. */
  datatype Peer = Peer(st: State, input: bytes, status: Status, handled: seq<State>)

  const FRESH := Peer(START, [], Open, [])

  /** A read event: the bytes it brought, and what the handler answers if one is called. */
  datatype Event = Event(chunk: bytes, more: bool)

  /** The input a complete request takes. */
  function Consumed(st: State): (n: nat) {
    if st.http.Some? then st.http.value.bodyLen + st.http.value.hdrLen
    else if st.redis.Some? then st.redis.value.read else 0
  }

  /** A complete request: drop its bytes, run the handler, get ready for the next one. */
  function Handle(v: Peer, o: Outcome, more: bool): (v': Peer) {
    var n := Consumed(o.st);
    if n > |o.buf| then Peer(o.st, o.buf, Crashed, v.handled)
    else Peer(if more then START else o.st, o.buf[n..], if more then Open else Refused, v.handled + [o.st])
  }

  function Read(lib: Library, v: Peer, e: Event): (v': Peer)
    requires Ready(v.st, v.input)
    ensures v'.status.Open? ==> Ready(v'.st, v'.input)
  {
    var input := v.input + e.chunk;
    if e.chunk == [] then v.(status := Eof)
    else if |input| > lib.requestMaxBytes then v.(input := input, status := Oversize)
    else
      var o := Processed(lib, v.st, input);
      match o.verdict
      case WaitMore => Peer(o.st, o.buf, v.status, v.handled)
      case Fail(error) => Peer(o.st, o.buf, Rejected(error), v.handled)
      case Crash => Peer(o.st, o.buf, Crashed, v.handled)
      case Done => Handle(v, o, e.more)
  }

  function ReadAll(lib: Library, v: Peer, es: seq<Event>): (v': Peer)
    requires v.status.Open? ==> Ready(v.st, v.input)
    decreases |es|
  {
    if es == [] || !v.status.Open? then v else ReadAll(lib, Read(lib, v, es[0]), es[1..])
  }

  // ----- the connection object

  class Conn {
    var srs: ServerReadState
    var input: bytes
    var status: Status
    var handled: seq<State>

    function Value(): Peer
      reads this, srs
    {
      Peer(srs.Value(), input, status, handled)
    }

    constructor ()
      ensures Value() == FRESH && fresh(srs)
    {
      srs := new ServerReadState();
      input, status, handled := [], Open, [];
    }

    /** Run the parser over the input buffer, which it may rewrite. */
    method Parse(lib: Library) returns (verdict: Verdict)
      requires Ready(srs.Value(), input)
      modifies srs, this`input
      ensures Outcome(srs.Value(), input, verdict) == Processed(lib, old(srs.Value()), old(input))
    {
      hide Processed;
      var s := input;
      var a := new byte[|s|](i requires 0 <= i < |s| => s[i]);
      assert a[..] == s;
      verdict := srs.Process(lib, a);
      input := a[..];
    }

    /** `readConn`. */
    method ReadConn(lib: Library, e: Event)
      requires status.Open? && Ready(srs.Value(), input)
      modifies this, srs
      ensures Value() == Read(lib, old(Value()), e)
      ensures srs == old(srs) || fresh(srs)
    {
      hide Processed;
      if e.chunk == [] {
        status := Eof;
        return;
      }
      input := input + e.chunk;
      if |input| > lib.requestMaxBytes {
        status := Oversize;
        return;
      }
      var verdict := Parse(lib);
      match verdict {
        case WaitMore =>
        case Fail(error) => status := Rejected(error);
        case Crash => status := Crashed;
        case Done =>
          var n := Consumed(srs.Value());
          if n > |input| {
            status := Crashed;
            return;
          }
          input := input[n..];
          handled := handled + [srs.Value()];
          if !e.more {
            status := Refused;
            return;
          }
          srs := new ServerReadState();
      }
    }
  }

  // ----- messages on the wire

  /** Bytes that are exactly one request. */
  predicate Takes(lib: Library, m: bytes) {
    var o := Processed(lib, START, m);
    o.verdict.Done? && Consumed(o.st) == |m| && |m| < 0x1_0000_0000
  }

  lemma SameLength(lib: Library, st: State, s: bytes)
    requires Ready(st, s)
    ensures |Processed(lib, st, s).buf| == |s|
  {
    hide ReadHead;
    hide Bulks;
    hide FindBlankLine;
    hide U32;
    hide U16;
    hide HttpHeader.Head;
  }

  lemma DoneWithin(lib: Library, s: bytes)
    requires var o := Processed(lib, START, s); o.verdict.Done? && Consumed(o.st) < 0x1_0000_0000
    ensures Consumed(Processed(lib, START, s).st) <= |s|
  {
    hide Bulks;
    hide ReadHead;
    hide FindBlankLine;
    hide Lines;
    var idx := FindBlankLine(s, 0);
    if idx != -1 {
      var data := s[..idx + 4];
      LengthKept(lib, data, true, EMPTY.(hdrLen := U32(|data|)));
    }
  }

  /** No strict beginning of a request is taken for a request, or for an error. */
  lemma PrefixWaits(lib: Library, p: bytes, t: bytes)
    requires Takes(lib, p + t) && t != []
    ensures Processed(lib, START, p).verdict.WaitMore?
  {
    hide Processed;
    hide Consumed;
    Resume(lib, START, p, t);
    if !Processed(lib, START, p).verdict.WaitMore? { DoneWithin(lib, p); }
  }

  /** The parser has been given `p` of the current request: not yet, or it asked for more. */
  predicate Behind(lib: Library, v: Peer, p: bytes) {
    (v.st == START && v.input == p) || Processed(lib, START, p) == Outcome(v.st, v.input, WaitMore)
  }

  lemma CatchUp(lib: Library, v: Peer, p: bytes, c: bytes)
    requires Behind(lib, v, p)
    ensures Ready(v.st, v.input) && Ready(v.st, v.input + c)
    ensures Processed(lib, v.st, v.input + c) == Processed(lib, START, p + c)
  {
    hide Processed;
    Resume(lib, START, p, c);
  }

  // ----- requests in order

  function Chunks(es: seq<Event>): (cs: seq<bytes>) {
    if es == [] then [] else [es[0].chunk] + Chunks(es[1..])
  }

  predicate AllTake(lib: Library, ms: seq<bytes>) {
    forall i :: 0 <= i < |ms| ==> Takes(lib, ms[i])
  }

  /** The requests those bytes are, each read on its own. */
  function RequestsOf(lib: Library, ms: seq<bytes>): (rs: seq<State>) {
    if ms == [] then [] else [Processed(lib, START, ms[0]).st] + RequestsOf(lib, ms[1..])
  }

  /** How many requests are due after these events, by lengths alone: an event at which the buffer
      holds a whole request completes one, and only one. */
  function Due(ms: seq<bytes>, es: seq<Event>, have: nat): (n: nat)
    decreases |es|
  {
    if es == [] then 0
    else
      var got := have + |es[0].chunk|;
      if ms == [] || got < |ms[0]| then Due(ms, es[1..], got) else 1 + Due(ms[1..], es[1..], got - |ms[0]|)
  }

  /** The bytes then left in the buffer. */
  function Left(ms: seq<bytes>, es: seq<Event>, have: nat): (n: nat)
    decreases |es|
  {
    if es == [] then have
    else
      var got := have + |es[0].chunk|;
      if ms == [] || got < |ms[0]| then Left(ms, es[1..], got) else Left(ms[1..], es[1..], got - |ms[0]|)
  }

  /** At each of the events some of the requests is still to come. */
  predicate Pending(ms: seq<bytes>, es: seq<Event>, have: nat)
    decreases |es|
  {
    es == [] ||
    (var got := have + |es[0].chunk|;
     && ms != []
     && if got < |ms[0]| then Pending(ms, es[1..], got) else Pending(ms[1..], es[1..], got - |ms[0]|))
  }

  /** The events bring bytes, the buffer stays within the limit, and every handler called wants
      more. */
  predicate Continues(ms: seq<bytes>, es: seq<Event>, have: nat, limit: nat)
    decreases |es|
  {
    es == [] ||
    (var got := have + |es[0].chunk|;
     && es[0].chunk != [] && got <= limit
     && if ms == [] || got < |ms[0]| then Continues(ms, es[1..], got, limit)
        else es[0].more && Continues(ms[1..], es[1..], got - |ms[0]|, limit))
  }

  /** Two beginnings of one stream. */
  lemma Beginnings(a: bytes, x: bytes, b: bytes, y: bytes)
    requires a + x == b + y && |a| <= |b|
    ensures b == a + b[|a|..] && x == b[|a|..] + y
  {
    assert (a + x)[..|a|] == a && (a + x)[..|b|] == b;
    assert (a + x)[|a|..] == x && (b + y)[|a|..] == b[|a|..] + y;
  }

  /** An event that leaves the current request incomplete hands nothing over. */
  lemma EventWaits(lib: Library, v: Peer, p: bytes, e: Event, m: bytes, t: bytes)
    requires v.status.Open? && Behind(lib, v, p) && e.chunk != [] && Takes(lib, m) && m == p + e.chunk + t && t != []
    ensures Ready(v.st, v.input)
    ensures var v' := Read(lib, v, e);
            && v'.handled == v.handled
            && v'.status == (if |v.input + e.chunk| > lib.requestMaxBytes then Oversize else Open)
            && (v'.status.Open? ==> Behind(lib, v', p + e.chunk))
  {
    hide Processed;
    hide Takes;
    CatchUp(lib, v, p, e.chunk);
    PrefixWaits(lib, p + e.chunk, t);
  }

  /** An event that completes it hands over exactly that request and keeps the bytes after it. */
  lemma EventHandles(lib: Library, v: Peer, p: bytes, e: Event, m: bytes, q: bytes)
    requires v.status.Open? && Behind(lib, v, p) && e.chunk != [] && Takes(lib, m) && p + e.chunk == m + q
    ensures Ready(v.st, v.input)
    ensures var v' := Read(lib, v, e);
            if |v.input + e.chunk| > lib.requestMaxBytes then v'.handled == v.handled && v'.status.Oversize?
            else
              var st := Processed(lib, START, m).st;
              v' == Peer(if e.more then START else st, q, if e.more then Open else Refused, v.handled + [st])
  {
    hide Processed;
    CatchUp(lib, v, p, e.chunk);
    Resume(lib, START, m, q);
    SameLength(lib, START, m);
  }

  /** Why the connection is as it is after `n` events took effect. */
  predicate Explained(status: Status, es: seq<Event>, ms: seq<bytes>, n: nat, have: nat, limit: nat)
    requires n <= |es|
  {
    match status
    case Open => n == |es| && Continues(ms, es, have, limit)
    case Eof => n < |es| && Continues(ms, es[..n], have, limit) && es[n].chunk == []
    case Oversize =>
      n < |es| && Continues(ms, es[..n], have, limit) && Left(ms, es[..n], have) + |es[n].chunk| > limit
    case Refused =>
      && n > 0 && Continues(ms, es[..n - 1], have, limit) && !es[n - 1].more
      && Due(ms, es[..n], have) == Due(ms, es[..n - 1], have) + 1
    case _ => false
  }

  /** However a stream of requests is cut into read events, the handlers are given the first `k`
      of them, whole, in order and once each: exactly those due after the `n` events before the
      connection stopped, if it did. It stops only at the end of the stream, on a full buffer, or
      because a handler said so. While it is open the rest of the received bytes is in the buffer,
      where the next event picks it up. Any bytes at all may follow the requests, as long as the
      last of them is not handled before the last event. */
  lemma {:induction false} HandledInOrder(lib: Library, v: Peer, p: bytes, es: seq<Event>, ms: seq<bytes>, tail: bytes, after: bytes)
    returns (k: nat, n: nat, rest: bytes)
    requires v.status.Open? && Behind(lib, v, p) && Ready(v.st, v.input) && AllTake(lib, ms)
    requires p + Flatten(Chunks(es)) + after == Flatten(ms) + tail && (tail == [] || Pending(ms, es, |p|))
    ensures k <= |ms| && k <= n <= |es| && k == Due(ms, es[..n], |p|)
    ensures var v' := ReadAll(lib, v, es);
            && v'.handled == v.handled + RequestsOf(lib, ms[..k])
            && Explained(v'.status, es, ms, n, |p|, lib.requestMaxBytes)
            && (v'.status.Open? ==> Behind(lib, v', rest) && p + Flatten(Chunks(es)) == Flatten(ms[..k]) + rest)
    decreases |es|
  {
    hide Takes;
    hide Processed;
    hide Read;
    hide Behind;
    hide Explained;
    hide Due;
    hide Flatten;
    hide RequestsOf;
    k, n, rest := 0, 0, p;
    ExplainedNow(es, ms, |p|, lib.requestMaxBytes);
    NoneYet(lib, v, ms, p);
    if es == [] { return; }
    var e, later := es[0], Flatten(Chunks(es[1..]));
    ChunksFirst(es);
    BufferLength(lib, v, p);
    if e.chunk == [] {
      EventEnds(lib, v, e);
      return;
    }
    var got := p + e.chunk;
    Assoc(p, e.chunk, later);
    Assoc(got, later, after);
    StreamFirst(ms);
    assert ms != [] by { assert Flatten(ms) + tail != []; }
    var m, more := ms[0], Flatten(ms[1..]) + tail;
    Assoc(m, Flatten(ms[1..]), tail);
    var v1 := Read(lib, v, e);
    if |got| < |m| {
      Beginnings(got, later + after, m, more);
      EventWaits(lib, v, p, e, m, m[|got|..]);
      if v1.status.Open? {
        var n1;
        k, n1, rest := HandledInOrder(lib, v1, got, es[1..], ms, tail, after);
        n := n1 + 1;
        ExplainedLater(ReadAll(lib, v1, es[1..]).status, es, ms, ms, n1, |p|, |got|, lib.requestMaxBytes);
      }
    } else {
      Beginnings(m, more, got, later + after);
      var q, st := got[|m|..], Processed(lib, START, m).st;
      EventHandles(lib, v, p, e, m, q);
      if |v.input + e.chunk| <= lib.requestMaxBytes {
        var k1, n1 := 0, 0;
        if e.more {
          Assoc(q, later, after);
          BehindNew(lib, v1, q);
          k1, n1, rest := HandledInOrder(lib, v1, q, es[1..], ms[1..], tail, after);
          ExplainedLater(ReadAll(lib, v1, es[1..]).status, es, ms, ms[1..], n1, |p|, |q|, lib.requestMaxBytes);
        } else {
          RefusedAtOnce(es, ms, |p|, lib.requestMaxBytes);
        }
        k, n := k1 + 1, n1 + 1;
        FirstOf(lib, ms, k1);
        Assoc(v.handled, [st], RequestsOf(lib, ms[1..][..k1]));
        Assoc(m, q, later);
        Assoc(m, Flatten(ms[1..][..k1]), rest);
      }
    }
  }

  lemma BufferLength(lib: Library, v: Peer, p: bytes)
    requires Behind(lib, v, p)
    ensures |v.input| == |p|
  {
    hide Processed;
    SameLength(lib, START, p);
  }

  /** What explains the later events explains all of them. */
  lemma ExplainedLater(status: Status, es: seq<Event>, ms: seq<bytes>, ms': seq<bytes>, n: nat, have: nat, have': nat, limit: nat)
    requires es != [] && n <= |es| - 1 && Explained(status, es[1..], ms', n, have', limit)
    requires var got := have + |es[0].chunk|;
             && es[0].chunk != [] && got <= limit
             && if ms == [] || got < |ms[0]| then ms' == ms && have' == got
                else ms' == ms[1..] && have' == got - |ms[0]| && es[0].more
    ensures Explained(status, es, ms, n + 1, have, limit)
    ensures Due(ms, es[..n + 1], have) == Due(ms', es[1..][..n], have') + if ms' == ms && have' == have + |es[0].chunk| then 0 else 1
  {
    assert es[..n + 1][1..] == es[1..][..n];
    if n > 0 { assert es[..n][1..] == es[1..][..n - 1]; }
  }

  lemma ExplainedNow(es: seq<Event>, ms: seq<bytes>, have: nat, limit: nat)
    ensures Due(ms, es[..0], have) == 0
    ensures es == [] ==> Explained(Open, es, ms, 0, have, limit)
    ensures es != [] && es[0].chunk == [] ==> Explained(Eof, es, ms, 0, have, limit)
    ensures es != [] && have + |es[0].chunk| > limit ==> Explained(Oversize, es, ms, 0, have, limit)
  {
    assert es[..0] == [];
  }

  /** Nothing stops a run that continues. */
  lemma {:induction false} ContinuesAt(ms: seq<bytes>, es: seq<Event>, have: nat, limit: nat, n: nat)
    requires Continues(ms, es, have, limit) && n < |es|
    ensures es[n].chunk != [] && Left(ms, es[..n], have) + |es[n].chunk| <= limit
    ensures Due(ms, es[..n + 1], have) > Due(ms, es[..n], have) ==> es[n].more
    decreases |es|
  {
    var got := have + |es[0].chunk|;
    assert es[..0] == [] && es[1..][..0] == [];
    assert es[..n + 1][1..] == es[1..][..n];
    if n > 0 {
      assert es[..n][1..] == es[1..][..n - 1];
      if ms == [] || got < |ms[0]| {
        ContinuesAt(ms, es[1..], got, limit, n - 1);
      } else {
        ContinuesAt(ms[1..], es[1..], got - |ms[0]|, limit, n - 1);
      }
    } else {
      assert es[..1][0] == es[0] && es[..1][1..] == [];
      assert Due(ms, es[..1], have) == if ms == [] || got < |ms[0]| then 0 else 1;
    }
  }

  /** So a connection is open exactly when its events continue. */
  lemma OpenIff(status: Status, es: seq<Event>, ms: seq<bytes>, n: nat, have: nat, limit: nat)
    requires n <= |es| && Explained(status, es, ms, n, have, limit)
    ensures status.Open? <==> Continues(ms, es, have, limit)
  {
    hide Continues;
    hide Left;
    hide Due;
    if Continues(ms, es, have, limit) && !status.Open? {
      ContinuesAt(ms, es, have, limit, if status.Refused? then n - 1 else n);
    }
  }

  lemma RefusedAtOnce(es: seq<Event>, ms: seq<bytes>, have: nat, limit: nat)
    requires es != [] && ms != [] && have + |es[0].chunk| >= |ms[0]| && !es[0].more
    ensures Explained(Refused, es, ms, 1, have, limit) && Due(ms, es[..1], have) == 1
  {
    assert es[..1][1..] == [] && es[..0] == [];
  }

  lemma NoneYet(lib: Library, v: Peer, ms: seq<bytes>, p: bytes)
    ensures v.handled == v.handled + RequestsOf(lib, ms[..0])
    ensures p + Flatten(Chunks([])) == p == Flatten(ms[..0]) + p
  {
    assert ms[..0] == [];
  }

  lemma StreamFirst(ms: seq<bytes>)
    ensures Flatten(ms) == if ms == [] then [] else ms[0] + Flatten(ms[1..])
  {
  }

  lemma ChunksFirst(es: seq<Event>)
    requires es != []
    ensures Flatten(Chunks(es)) == es[0].chunk + Flatten(Chunks(es[1..]))
  {
    assert Chunks(es)[1..] == Chunks(es[1..]);
  }

  lemma FirstOf(lib: Library, ms: seq<bytes>, k: nat)
    requires k < |ms|
    ensures RequestsOf(lib, ms[..k + 1]) == [Processed(lib, START, ms[0]).st] + RequestsOf(lib, ms[1..][..k])
    ensures Flatten(ms[..k + 1]) == ms[0] + Flatten(ms[1..][..k])
  {
    hide Processed;
    assert ms[..k + 1][1..] == ms[1..][..k];
  }

  lemma EventEnds(lib: Library, v: Peer, e: Event)
    requires Ready(v.st, v.input) && e.chunk == []
    ensures Read(lib, v, e) == v.(status := Eof)
  {
    hide Processed;
  }

  lemma BehindNew(lib: Library, v: Peer, q: bytes)
    requires v.st == START && v.input == q
    ensures Behind(lib, v, q) && Ready(v.st, v.input)
  {
    hide Processed;
  }

  // ----- commands and HTTP requests together

  /** What a client can put on the one port: a RESP command or an HTTP request. */
  datatype Message = Cmd(args: seq<bytes>) | Req(r: HttpRequest.Request)

  function Wire(m: Message): (b: bytes) {
    match m
    case Cmd(args) => Command.Encode(args)
    case Req(r) => HttpRequest.Render(r)
  }

  predicate Fits(lib: Library, m: Message) {
    match m
    case Cmd(args) => |args| <= 65535 && |Command.Encode(args)| < 0x1_0000_0000
    case Req(r) =>
      HttpRequest.Sendable(r) && HttpRequest.Accepted(lib, r) && |r.body| == HttpRequest.Declared(lib, r.headers)
  }

  /** The handler's request is the client's message. */
  predicate Delivered(lib: Library, st: State, m: Message) {
    match m
    case Cmd(args) => Command.Holds(Outcome(st, [], Done), args)
    case Req(r) => HttpRequest.LineOk(lib, r) && HttpRequest.Arrived(lib, Outcome(st, [], Done), r)
  }

  lemma MessageTaken(lib: Library, m: Message)
    requires Fits(lib, m)
    ensures Takes(lib, Wire(m)) && Delivered(lib, Processed(lib, START, Wire(m)).st, m)
  {
    hide Processed;
    hide Command.Encode;
    hide HttpRequest.Render;
    assert Wire(m) + [] == Wire(m);
    match m
    case Cmd(args) => Command.ServerReadsCommand(lib, args, []);
    case Req(r) => HttpRequest.ServerReadsRequest(lib, r, []);
  }

  function Wires(ms: seq<Message>): (bs: seq<bytes>)
    ensures |bs| == |ms| && forall i :: 0 <= i < |ms| ==> bs[i] == Wire(ms[i])
  {
    if ms == [] then [] else [Wire(ms[0])] + Wires(ms[1..])
  }

  lemma {:induction false} RequestAt(lib: Library, bs: seq<bytes>, k: nat, i: nat)
    requires i < k <= |bs|
    ensures |RequestsOf(lib, bs[..k])| == k && RequestsOf(lib, bs[..k])[i] == Processed(lib, START, bs[i]).st
    decreases k
  {
    hide Processed;
    FirstOf(lib, bs, k - 1);
    if k > 1 { RequestAt(lib, bs[1..], k - 1, if i > 0 then i - 1 else 0); } else { assert bs[1..][..0] == []; }
  }

  /** Commands and HTTP requests may follow each other in any order on one connection: handlers
      are given the client's own messages, in order, once each, exactly those due after the `n`
      events before the connection stopped, if it did. */
  lemma MessagesInOrder(lib: Library, es: seq<Event>, ms: seq<Message>, after: bytes) returns (k: nat, n: nat)
    requires forall i :: 0 <= i < |ms| ==> Fits(lib, ms[i])
    requires Flatten(Chunks(es)) + after == Flatten(Wires(ms))
    ensures k <= |ms| && k <= n <= |es| && k == Due(Wires(ms), es[..n], 0)
    ensures var v' := ReadAll(lib, FRESH, es);
            && |v'.handled| == k && (forall i :: 0 <= i < k ==> Delivered(lib, v'.handled[i], ms[i]))
            && Explained(v'.status, es, Wires(ms), n, 0, lib.requestMaxBytes)
            && (v'.status.Open? <==> Continues(Wires(ms), es, 0, lib.requestMaxBytes))
  {
    hide Processed;
    hide Takes;
    hide Delivered;
    hide Fits;
    hide Wire;
    hide ReadAll;
    var bs := Wires(ms);
    forall i | 0 <= i < |ms| ensures Takes(lib, bs[i]) { MessageTaken(lib, ms[i]); }
    assert [] + Flatten(Chunks(es)) == Flatten(Chunks(es));
    BehindNew(lib, FRESH, []);
    assert Flatten(bs) + [] == Flatten(bs);
    var rest;
    k, n, rest := HandledInOrder(lib, FRESH, [], es, bs, [], after);
    OpenIff(ReadAll(lib, FRESH, es).status, es, bs, n, 0, lib.requestMaxBytes);
    var rs := RequestsOf(lib, bs[..k]);
    assert [] + rs == rs;
    assert bs[..0] == [];
    if k > 0 { RequestAt(lib, bs, k, 0); }
    forall i | 0 <= i < k ensures Delivered(lib, rs[i], ms[i]) {
      RequestAt(lib, bs, k, i);
      MessageTaken(lib, ms[i]);
    }
  }

  /** Two requests that arrive together: the handler is given the first, and the second stays in
      the buffer until more bytes come. */
  lemma SecondRequestWaits(lib: Library, a: bytes, b: bytes)
    requires Takes(lib, a) && Takes(lib, b) && a != [] && |a + b| <= lib.requestMaxBytes
    ensures Read(lib, FRESH, Event(a + b, true)) == Peer(START, b, Open, [Processed(lib, START, a).st])
  {
    hide Processed;
    BehindNew(lib, FRESH, []);
    assert [] + (a + b) == a + b;
    EventHandles(lib, FRESH, [], Event(a + b, true), a, b);
  }

  // ----- when all requests that have arrived are handled

  function Total(es: seq<Event>): (n: nat) {
    |Flatten(Chunks(es))|
  }

  /** How many of the requests are whole in the first `n` bytes of the stream. */
  function Whole(ms: seq<bytes>, n: nat): (k: nat)
    ensures k <= |ms|
  {
    if ms == [] || n < |ms[0]| then 0 else 1 + Whole(ms[1..], n - |ms[0]|)
  }

  /** The `d`-th request is whole exactly when that many are. */
  lemma {:induction false} WholeExceeds(ms: seq<bytes>, n: nat, d: nat)
    ensures d < Whole(ms, n) <==> d < |ms| && |Flatten(ms[..d + 1])| <= n
  {
    if ms != [] {
      if d < |ms| { assert ms[..d + 1][1..] == ms[1..][..d]; }
      if d == 0 {
        assert ms[..1] == [ms[0]] && Flatten(ms[1..][..0]) == [];
      } else if n >= |ms[0]| {
        WholeExceeds(ms[1..], n - |ms[0]|, d - 1);
      }
    }
  }

  lemma TotalFirst(es: seq<Event>)
    requires es != []
    ensures Total(es) == |es[0].chunk| + Total(es[1..])
  {
    ChunksFirst(es);
  }

  /** One more event: one more request is due, if one more is whole than were due before. */
  lemma {:induction false} DueNext(ms: seq<bytes>, es: seq<Event>, have: nat)
    requires es != []
    ensures var d := Due(ms, es[..|es| - 1], have);
            Due(ms, es, have) == if d < Whole(ms, have + Total(es)) then d + 1 else d
    decreases |es|
  {
    TotalFirst(es);
    var got := have + |es[0].chunk|;
    if |es| == 1 {
      assert es[1..] == [] && es[..0] == [];
    } else {
      assert es[..|es| - 1][1..] == es[1..][..|es| - 2];
      if ms == [] || got < |ms[0]| {
        DueNext(ms, es[1..], got);
      } else {
        DueNext(ms[1..], es[1..], got - |ms[0]|);
      }
    }
  }

  lemma {:induction false} WholeGrows(ms: seq<bytes>, n: nat, n': nat)
    requires n <= n'
    ensures Whole(ms, n) <= Whole(ms, n')
  {
    if ms != [] && n >= |ms[0]| { WholeGrows(ms[1..], n - |ms[0]|, n' - |ms[0]|); }
  }

  lemma TotalBefore(es: seq<Event>)
    requires es != []
    ensures Total(es[..|es| - 1]) <= Total(es)
  {
    ChunksSnoc(es[..|es| - 1], es[|es| - 1]);
    assert es == es[..|es| - 1] + [es[|es| - 1]];
  }

  lemma {:induction false} ChunksSnoc(es: seq<Event>, e: Event)
    ensures Total(es + [e]) == Total(es) + |e.chunk|
    decreases |es|
  {
    TotalFirst(es + [e]);
    if es == [] {
      assert (es + [e])[1..] == [] && es + [e] == [e];
    } else {
      assert (es + [e])[1..] == es[1..] + [e] && (es + [e])[0] == es[0];
      ChunksSnoc(es[1..], e);
      TotalFirst(es);
    }
  }

  /** From any earlier point, at most one request per event can have been handled since. */
  lemma {:induction false} DueAtMost(ms: seq<bytes>, es: seq<Event>, j: nat)
    requires j <= |es|
    ensures Due(ms, es, 0) <= Whole(ms, Total(es[..j])) + (|es| - j)
    decreases |es|
  {
    if es == [] {
      assert es[..j] == es;
    } else {
      DueNext(ms, es, 0);
      var init := es[..|es| - 1];
      if j < |es| {
        DueAtMost(ms, init, j);
        assert init[..j] == es[..j];
      } else {
        assert es[..j] == es && init[..|init|] == init;
        DueAtMost(ms, init, |init|);
        TotalBefore(es);
        WholeGrows(ms, Total(init), Total(es));
      }
    }
  }

  /** And from some point on, exactly that many have been. */
  lemma {:induction false} DueAttained(ms: seq<bytes>, es: seq<Event>) returns (j: nat)
    requires NoneEmpty(ms)
    ensures j <= |es| && Due(ms, es, 0) == Whole(ms, Total(es[..j])) + (|es| - j)
    decreases |es|
  {
    j := |es|;
    assert es[..|es|] == es;
    if es != [] {
      DueNext(ms, es, 0);
      DueAtMost(ms, es, |es|);
      var init := es[..|es| - 1];
      if Due(ms, init, 0) < Whole(ms, Total(es)) {
        j := DueAttained(ms, init);
        assert init[..j] == es[..j];
      } else {
        DueAtMost(ms, init, |init|);
        assert init[..|init|] == init;
        TotalBefore(es);
        WholeGrows(ms, Total(init), Total(es));
      }
    }
  }

  /** No suffix of the events completes more requests than it has events. */
  predicate KeepsUp(ms: seq<bytes>, es: seq<Event>) {
    forall j :: 0 <= j <= |es| ==> Whole(ms, Total(es)) - Whole(ms, Total(es[..j])) <= |es| - j
  }

  lemma DueAllIff(ms: seq<bytes>, es: seq<Event>)
    requires NoneEmpty(ms)
    ensures Due(ms, es, 0) == Whole(ms, Total(es)) <==> KeepsUp(ms, es)
  {
    hide Due;
    hide Whole;
    hide Total;
    assert es[..|es|] == es;
    DueAtMost(ms, es, |es|);
    var i := DueAttained(ms, es);
    if Due(ms, es, 0) == Whole(ms, Total(es)) {
      forall j | 0 <= j <= |es| ensures Whole(ms, Total(es)) - Whole(ms, Total(es[..j])) <= |es| - j {
        DueAtMost(ms, es, j);
      }
    }
  }

  lemma TakesSome(lib: Library, m: bytes)
    requires Takes(lib, m)
    ensures m != []
  {
  }

  /** On a connection whose reads fit and whose handlers want more, all requests that have arrived whole are handled if and only
      if no suffix of the events completes more requests than it has events. */
  lemma AllHandledIff(lib: Library, es: seq<Event>, ms: seq<bytes>, after: bytes)
    requires AllTake(lib, ms) && Flatten(Chunks(es)) + after == Flatten(ms)
    requires Continues(ms, es, 0, lib.requestMaxBytes)
    ensures ReadAll(lib, FRESH, es).status.Open?
    ensures |ReadAll(lib, FRESH, es).handled| == Whole(ms, Total(es)) <==> KeepsUp(ms, es)
  {
    hide Processed;
    hide Takes;
    hide ReadAll;
    hide KeepsUp;
    hide Whole;
    hide Total;
    forall i | 0 <= i < |ms| ensures ms[i] != [] { TakesSome(lib, ms[i]); }
    assert [] + Flatten(Chunks(es)) == Flatten(Chunks(es));
    BehindNew(lib, FRESH, []);
    assert Flatten(ms) + [] == Flatten(ms);
    var k, n, rest := HandledInOrder(lib, FRESH, [], es, ms, [], after);
    OpenIff(ReadAll(lib, FRESH, es).status, es, ms, n, 0, lib.requestMaxBytes);
    assert es[..|es|] == es;
    if k > 0 { RequestAt(lib, ms, k, 0); } else { assert ms[..0] == []; }
    DueAllIff(ms, es);
  }

  /** Within the limit, with handlers that want more, the connection stays open. */
  lemma {:induction false} FitsContinues(ms: seq<bytes>, es: seq<Event>, have: nat, limit: nat)
    requires have + Total(es) <= limit
    requires forall i :: 0 <= i < |es| ==> es[i].chunk != [] && es[i].more
    ensures Continues(ms, es, have, limit)
    decreases |es|
  {
    if es != [] {
      TotalFirst(es);
      var got := have + |es[0].chunk|;
      if ms == [] || got < |ms[0]| {
        FitsContinues(ms, es[1..], got, limit);
      } else {
        FitsContinues(ms[1..], es[1..], got - |ms[0]|, limit);
      }
    }
  }

  /** A stream within the limit, whose handlers want more, ends with the connection open. */
  lemma FitsStaysOpen(lib: Library, es: seq<Event>, ms: seq<bytes>, after: bytes)
    requires AllTake(lib, ms) && Flatten(Chunks(es)) + after == Flatten(ms)
    requires Total(es) <= lib.requestMaxBytes
    requires forall i :: 0 <= i < |es| ==> es[i].chunk != [] && es[i].more
    ensures ReadAll(lib, FRESH, es).status.Open?
  {
    hide Processed;
    hide Takes;
    hide ReadAll;
    hide Continues;
    FitsContinues(ms, es, 0, lib.requestMaxBytes);
    AllHandledIff(lib, es, ms, after);
  }

  // ----- a bad request after good ones

  /** Bytes that are rejected once they are whole, and not before. */
  predicate Refuses(lib: Library, b: bytes) {
    && b != []
    && Processed(lib, START, b).verdict.Fail?
    && Processed(lib, START, b[..|b| - 1]).verdict.WaitMore?
  }

  /** The head of an HTTP request that is not acceptable is such. */
  lemma BadHeadRefuses(lib: Library, r: HttpRequest.Request)
    requires HttpRequest.Sendable(r) && !HttpRequest.Accepted(lib, r)
    ensures Refuses(lib, HttpRequest.RequestHead(r))
  {
    hide Processed;
    HttpRequest.BadHeadRefused(lib, r);
  }

  lemma BadPrefixWaits(lib: Library, p: bytes, t: bytes)
    requires Refuses(lib, p + t) && t != []
    ensures Processed(lib, START, p).verdict.WaitMore?
  {
    hide Processed;
    var b := p + t;
    var init := b[..|b| - 1];
    assert init == p + init[|p|..];
    Resume(lib, START, p, init[|p|..]);
  }

  /** The events while some request is still to come. */
  function Busy(ms: seq<bytes>, es: seq<Event>, have: nat): (n: nat)
    ensures n <= |es|
    decreases |es|
  {
    if es == [] || ms == [] then 0
    else
      var got := have + |es[0].chunk|;
      1 + if got < |ms[0]| then Busy(ms, es[1..], got) else Busy(ms[1..], es[1..], got - |ms[0]|)
  }

  /** Up to there requests are pending; if events are left after it, all requests are due. */
  lemma {:induction false} BusySplits(ms: seq<bytes>, es: seq<Event>, have: nat)
    ensures var n := Busy(ms, es, have);
            && Pending(ms, es[..n], have)
            && (n < |es| ==> Due(ms, es[..n], have) == |ms|)
    decreases |es|
  {
    var n := Busy(ms, es, have);
    if es != [] && ms != [] {
      assert es[..n][1..] == es[1..][..n - 1];
      var got := have + |es[0].chunk|;
      if got < |ms[0]| {
        BusySplits(ms, es[1..], got);
      } else {
        BusySplits(ms[1..], es[1..], got - |ms[0]|);
      }
    } else {
      assert es[..n] == [];
    }
  }

  /** Reading in two goes is reading at once. */
  lemma {:induction false} ReadAllConcat(lib: Library, v: Peer, a: seq<Event>, b: seq<Event>)
    requires v.status.Open? ==> Ready(v.st, v.input)
    ensures var w := ReadAll(lib, v, a);
            (w.status.Open? ==> Ready(w.st, w.input)) && ReadAll(lib, v, a + b) == ReadAll(lib, w, b)
    decreases |a|
  {
    hide Read;
    if a == [] {
      assert a + b == b;
    } else if v.status.Open? {
      assert (a + b)[1..] == a[1..] + b;
      ReadAllConcat(lib, Read(lib, v, a[0]), a[1..], b);
    }
  }

  /** With only the bad request to come, nothing is handed over: the connection waits for it to be
      whole, rejects it then, or has stopped for its own reasons. */
  lemma {:induction false} BadAlone(lib: Library, v: Peer, p: bytes, es: seq<Event>, b: bytes, tail: bytes, after: bytes)
    requires v.status.Open? && Behind(lib, v, p) && Ready(v.st, v.input) && Refuses(lib, b)
    requires p + Flatten(Chunks(es)) + after == b + tail
    ensures var v' := ReadAll(lib, v, es);
            && v'.handled == v.handled
            && (v'.status.Open? || v'.status.Eof? || v'.status.Oversize? || v'.status == Rejected(Processed(lib, START, b).verdict.error))
            && (Continues([b], es, |p|, lib.requestMaxBytes) ==>
                  v'.status == if Due([b], es, |p|) == 1 then Rejected(Processed(lib, START, b).verdict.error) else Open)
    decreases |es|
  {
    hide Processed;
    hide Read;
    hide Behind;
    hide Refuses;
    hide Flatten;
    if es == [] { return; }
    var e, later := es[0], Flatten(Chunks(es[1..]));
    ChunksFirst(es);
    BufferLength(lib, v, p);
    if e.chunk == [] {
      EventEnds(lib, v, e);
      return;
    }
    var got, v1 := p + e.chunk, Read(lib, v, e);
    Assoc(p, e.chunk, later);
    Assoc(got, later, after);
    if |got| < |b| {
      Beginnings(got, later + after, b, tail);
      BadWaits(lib, v, p, e, b, b[|got|..]);
      if v1.status.Open? { BadAlone(lib, v1, got, es[1..], b, tail, after); }
    } else {
      Beginnings(b, tail, got, later + after);
      BadRejected(lib, v, p, e, b, got[|b|..]);
      DueNone(es[1..], |got| - |b|);
    }
  }

  lemma {:induction false} DueNone(es: seq<Event>, have: nat)
    ensures Due([], es, have) == 0
    decreases |es|
  {
    if es != [] { DueNone(es[1..], have + |es[0].chunk|); }
  }

  lemma {:induction false} LeftIs(ms: seq<bytes>, es: seq<Event>, have: nat)
    ensures Due(ms, es, have) <= |ms|
    ensures Left(ms, es, have) + |Flatten(ms[..Due(ms, es, have)])| == have + Total(es)
    decreases |es|
  {
    hide Flatten;
    var d := Due(ms, es, have);
    if es == [] {
      StreamFirst(ms[..0]);
      StreamFirst(Chunks(es));
    } else {
      TotalFirst(es);
      var got := have + |es[0].chunk|;
      if ms == [] || got < |ms[0]| {
        LeftIs(ms, es[1..], got);
      } else {
        LeftIs(ms[1..], es[1..], got - |ms[0]|);
        StreamFirst(ms[..d]);
        assert ms[..d][1..] == ms[1..][..d - 1];
      }
    }
  }

  lemma Peel(es: seq<Event>, n: nat)
    requires 0 < n <= |es|
    ensures es[..n][0] == es[0] && es[..n][1..] == es[1..][..n - 1] && es[n..] == es[1..][n - 1..]
  {
  }

  lemma DueStep(ms: seq<bytes>, es: seq<Event>, have: nat)
    requires es != [] && ms != []
    ensures var got := have + |es[0].chunk|;
            if got < |ms[0]| then Due(ms, es, have) == Due(ms, es[1..], got) && Left(ms, es, have) == Left(ms, es[1..], got)
            else Due(ms, es, have) == 1 + Due(ms[1..], es[1..], got - |ms[0]|) && Left(ms, es, have) == Left(ms[1..], es[1..], got - |ms[0]|)
  {
  }

  /** The requests and one more: first the requests' events, then the rest. */
  lemma {:induction false} DueSplits(ms: seq<bytes>, b: bytes, es: seq<Event>, have: nat)
    ensures var n := Busy(ms, es, have);
            Due(ms + [b], es, have) == Due(ms, es[..n], have) + Due([b], es[n..], Left(ms, es[..n], have))
    decreases |es|
  {
    hide Due;
    hide Left;
    var n := Busy(ms, es, have);
    if es == [] || ms == [] {
      assert es[..n] == [] && es[n..] == es;
      DueNever(ms, have);
      DueNever(ms + [b], have);
      DueNever([b], have);
      assert ms == [] ==> ms + [b] == [b];
    } else {
      Peel(es, n);
      DueStep(ms + [b], es, have);
      DueStep(ms, es[..n], have);
      var got := have + |es[0].chunk|;
      if got < |ms[0]| {
        DueSplits(ms, b, es[1..], got);
      } else {
        assert (ms + [b])[1..] == ms[1..] + [b];
        DueSplits(ms[1..], b, es[1..], got - |ms[0]|);
      }
    }
  }

  lemma ContinuesStep(ms: seq<bytes>, es: seq<Event>, have: nat, limit: nat)
    requires es != [] && ms != []
    ensures var got := have + |es[0].chunk|;
            Continues(ms, es, have, limit) <==>
              && es[0].chunk != [] && got <= limit
              && if got < |ms[0]| then Continues(ms, es[1..], got, limit)
                 else es[0].more && Continues(ms[1..], es[1..], got - |ms[0]|, limit)
  {
  }

  lemma {:induction false} ContinuesSplits(ms: seq<bytes>, b: bytes, es: seq<Event>, have: nat, limit: nat)
    requires Continues(ms + [b], es, have, limit)
    ensures var n := Busy(ms, es, have);
            Continues(ms, es[..n], have, limit) && Continues([b], es[n..], Left(ms, es[..n], have), limit)
    decreases |es|
  {
    hide Due;
    hide Left;
    var n := Busy(ms, es, have);
    if es == [] || ms == [] {
      assert es[..n] == [] && es[n..] == es;
      DueNever(ms, have);
      assert ms == [] ==> ms + [b] == [b];
    } else {
      hide Continues;
      Peel(es, n);
      DueStep(ms, es[..n], have);
      ContinuesStep(ms + [b], es, have, limit);
      ContinuesStep(ms, es[..n], have, limit);
      var got := have + |es[0].chunk|;
      if got < |ms[0]| {
        ContinuesSplits(ms, b, es[1..], got, limit);
      } else {
        assert (ms + [b])[1..] == ms[1..] + [b];
        ContinuesSplits(ms[1..], b, es[1..], got - |ms[0]|, limit);
      }
    }
  }

  lemma {:induction false} ChunksConcat(a: seq<Event>, b: seq<Event>)
    ensures Flatten(Chunks(a + b)) == Flatten(Chunks(a)) + Flatten(Chunks(b))
    decreases |a|
  {
    hide Flatten;
    StreamFirst(Chunks([]));
    if a == [] {
      assert a + b == b;
    } else {
      assert (a + b)[1..] == a[1..] + b;
      ChunksFirst(a + b);
      ChunksFirst(a);
      ChunksConcat(a[1..], b);
      Assoc(a[0].chunk, Flatten(Chunks(a[1..])), Flatten(Chunks(b)));
    }
  }

  /** The good requests' own events: a front part of them is handled, all of them if events are
      left and the connection is open. */
  lemma BeforeBad(lib: Library, es: seq<Event>, ms: seq<bytes>, b: bytes, tail: bytes, after: bytes)
    returns (k: nat, rest: bytes)
    requires AllTake(lib, ms) && Flatten(Chunks(es)) + after == Flatten(ms) + (b + tail)
    ensures k <= |ms|
    ensures var i := Busy(ms, es, 0);
            var v, pre, post := ReadAll(lib, FRESH, es[..i]), es[..i], es[i..];
            && v.handled == RequestsOf(lib, ms[..k]) && !v.status.Rejected? && !v.status.Crashed?
            && (v.status.Open? <==> Continues(ms, pre, 0, lib.requestMaxBytes))
            && Flatten(Chunks(pre)) + (Flatten(Chunks(post)) + after) == Flatten(ms) + (b + tail)
            && (v.status.Open? ==>
                  && k == Due(ms, pre, 0) && Behind(lib, v, rest) && Ready(v.st, v.input)
                  && Flatten(Chunks(pre)) == Flatten(ms[..k]) + rest && |rest| == Left(ms, pre, 0)
                  && (post != [] ==> k == |ms|))
  {
    hide Processed;
    hide Takes;
    hide ReadAll;
    hide Continues;
    hide Due;
    hide Left;
    hide Flatten;
    hide RequestsOf;
    hide Behind;
    hide Explained;
    var i := Busy(ms, es, 0);
    var pre, post := es[..i], es[i..];
    assert es == pre + post;
    BusySplits(ms, es, 0);
    ChunksConcat(pre, post);
    Assoc(Flatten(Chunks(pre)), Flatten(Chunks(post)), after);
    assert [] + Flatten(Chunks(pre)) == Flatten(Chunks(pre));
    BehindNew(lib, FRESH, []);
    var n;
    k, n, rest := HandledInOrder(lib, FRESH, [], pre, ms, b + tail, Flatten(Chunks(post)) + after);
    var rs, v := RequestsOf(lib, ms[..k]), ReadAll(lib, FRESH, pre);
    assert [] + rs == rs;
    ReadAllConcat(lib, FRESH, pre, []);
    OpenIff(v.status, pre, ms, n, 0, lib.requestMaxBytes);
    Ends(lib, v.status, pre, ms, n);
    assert pre[..|pre|] == pre;
    LeftIs(ms, pre, 0);
  }

  /** Good requests, then a bad one: of the good ones a front part is handled, in order; the bad
      one is never handed over, nor anything after it. With reads that fit and handlers that want
      more, it is rejected exactly when it is due, after all the good ones. */
  lemma GoodThenBad(lib: Library, es: seq<Event>, ms: seq<bytes>, b: bytes, tail: bytes, after: bytes) returns (k: nat)
    requires AllTake(lib, ms) && Refuses(lib, b)
    requires Flatten(Chunks(es)) + after == Flatten(ms) + (b + tail)
    ensures k <= |ms|
    ensures var v', error := ReadAll(lib, FRESH, es), Processed(lib, START, b).verdict.error;
            && v'.handled == RequestsOf(lib, ms[..k])
            && (v'.status.Rejected? ==> k == |ms| && v'.status.error == error)
            && !v'.status.Crashed?
            && (Continues(ms + [b], es, 0, lib.requestMaxBytes) ==>
                  if Due(ms + [b], es, 0) > |ms| then v'.status == Rejected(error)
                  else v'.status == Open && k == Due(ms + [b], es, 0))
  {
    hide Processed;
    hide AllTake;
    hide Refuses;
    hide ReadAll;
    hide Continues;
    hide Due;
    hide Left;
    hide Flatten;
    hide RequestsOf;
    hide Behind;
    var rest;
    k, rest := BeforeBad(lib, es, ms, b, tail, after);
    var i := Busy(ms, es, 0);
    var pre, post := es[..i], es[i..];
    assert es == pre + post;
    var v := ReadAll(lib, FRESH, pre);
    DueSplits(ms, b, es, 0);
    if Continues(ms + [b], es, 0, lib.requestMaxBytes) { ContinuesSplits(ms, b, es, 0, lib.requestMaxBytes); }
    ReadAllConcat(lib, FRESH, pre, post);
    if !v.status.Open? {
      Closed(lib, v, post);
    } else {
      assert k == |ms| ==> ms[..k] == ms;
      AfterAll(lib, v, Flatten(ms), Flatten(ms[..k]), rest, pre, post, b, tail, after, k == |ms|);
      LeftIs([b], post, |rest|);
      if post == [] { DueNever([b], |rest|); }
    }
  }

  lemma Ends(lib: Library, status: Status, es: seq<Event>, ms: seq<bytes>, n: nat)
    requires n <= |es| && Explained(status, es, ms, n, 0, lib.requestMaxBytes)
    ensures !status.Rejected? && !status.Crashed? && (status.Open? ==> n == |es|)
  {
    hide Continues;
    hide Due;
    hide Left;
  }

  lemma Closed(lib: Library, v: Peer, es: seq<Event>)
    requires !v.status.Open?
    ensures ReadAll(lib, v, es) == v
  {
    hide Read;
  }

  lemma DueNever(ms: seq<bytes>, have: nat)
    ensures Due(ms, [], have) == 0 && Left(ms, [], have) == have
  {
  }

  /** What follows once the good requests are handled, or no event is left. */
  lemma AfterAll(lib: Library, v: Peer, all: bytes, done: bytes, rest: bytes, pre: seq<Event>, post: seq<Event>, b: bytes, tail: bytes, after: bytes, served: bool)
    requires v.status.Open? && Behind(lib, v, rest) && Ready(v.st, v.input) && Refuses(lib, b)
    requires Flatten(Chunks(pre)) + (Flatten(Chunks(post)) + after) == all + (b + tail)
    requires Flatten(Chunks(pre)) == done + rest && (served ==> done == all) && (post != [] ==> served)
    ensures var v', error := ReadAll(lib, v, post), Processed(lib, START, b).verdict.error;
            && v'.handled == v.handled && !v'.status.Crashed?
            && (v'.status.Rejected? ==> post != [] && v'.status.error == error)
            && (Continues([b], post, |rest|, lib.requestMaxBytes) ==>
                  v'.status == if Due([b], post, |rest|) == 1 then Rejected(error) else Open)
  {
    hide Processed;
    hide Read;
    hide Flatten;
    hide Behind;
    hide Refuses;
    if post != [] {
      var later := Flatten(Chunks(post)) + after;
      Assoc(all, rest, later);
      assert (all + (rest + later))[|all|..] == rest + later && (all + (b + tail))[|all|..] == b + tail;
      Assoc(rest, Flatten(Chunks(post)), after);
      BadAlone(lib, v, rest, post, b, tail, after);
    }
  }

  lemma BadWaits(lib: Library, v: Peer, p: bytes, e: Event, b: bytes, t: bytes)
    requires v.status.Open? && Behind(lib, v, p) && e.chunk != [] && Refuses(lib, b) && b == p + e.chunk + t && t != []
    ensures Ready(v.st, v.input)
    ensures var v' := Read(lib, v, e);
            && v'.handled == v.handled
            && v'.status == (if |v.input + e.chunk| > lib.requestMaxBytes then Oversize else Open)
            && (v'.status.Open? ==> Behind(lib, v', p + e.chunk))
  {
    hide Processed;
    hide Refuses;
    CatchUp(lib, v, p, e.chunk);
    BadPrefixWaits(lib, p + e.chunk, t);
  }

  /** The event that completes the bad request rejects it, and hands over nothing. */
  lemma BadRejected(lib: Library, v: Peer, p: bytes, e: Event, b: bytes, q: bytes)
    requires v.status.Open? && Behind(lib, v, p) && e.chunk != [] && Refuses(lib, b) && p + e.chunk == b + q
    ensures Ready(v.st, v.input)
    ensures var v' := Read(lib, v, e);
            && v'.handled == v.handled
            && v'.status == (if |v.input + e.chunk| > lib.requestMaxBytes then Oversize
                             else Rejected(Processed(lib, START, b).verdict.error))
  {
    hide Processed;
    CatchUp(lib, v, p, e.chunk);
    Resume(lib, START, b, q);
  }

  // ----- the event that completes a given request

  lemma {:induction false} PendingIf(ms: seq<bytes>, es: seq<Event>, have: nat)
    requires Due(ms, es, have) < |ms|
    ensures Pending(ms, es, have)
    decreases |es|
  {
    if es != [] {
      var got := have + |es[0].chunk|;
      if got < |ms[0]| { PendingIf(ms, es[1..], got); } else { PendingIf(ms[1..], es[1..], got - |ms[0]|); }
    }
  }

  lemma {:induction false} ContinuesTake(ms: seq<bytes>, es: seq<Event>, have: nat, limit: nat, n: nat)
    requires Continues(ms, es, have, limit) && n <= |es|
    ensures Continues(ms, es[..n], have, limit)
    decreases |es|
  {
    if n > 0 {
      assert es[..n][1..] == es[1..][..n - 1];
      var got := have + |es[0].chunk|;
      if ms == [] || got < |ms[0]| {
        ContinuesTake(ms, es[1..], got, limit, n - 1);
      } else {
        ContinuesTake(ms[1..], es[1..], got - |ms[0]|, limit, n - 1);
      }
    }
  }

  /** The last of the events completes the request `u`, the requests before it being handled. */
  predicate Completes(ms: seq<bytes>, u: bytes, es: seq<Event>, limit: nat) {
    && es != [] && Continues(ms + [u], es, 0, limit)
    && Due(ms + [u], es[..|es| - 1], 0) == |ms| && Due(ms + [u], es, 0) == |ms| + 1
  }

  /** Before that event the requests before `u` are handled, and the buffer holds a part `p` of what
      follows them. */
  lemma JustBefore(lib: Library, es: seq<Event>, ms: seq<bytes>, u: bytes, tail: bytes, after: bytes) returns (p: bytes)
    requires AllTake(lib, ms + [u]) && Completes(ms, u, es, lib.requestMaxBytes)
    requires Flatten(Chunks(es)) + after == Flatten(ms + [u]) + tail
    ensures var v := ReadAll(lib, FRESH, es[..|es| - 1]);
            && v.status.Open? && Behind(lib, v, p) && v.handled == RequestsOf(lib, ms)
            && Flatten(Chunks(es[..|es| - 1])) == Flatten(ms) + p
            && |v.input| + |es[|es| - 1].chunk| <= lib.requestMaxBytes
  {
    hide Processed;
    hide Takes;
    hide ReadAll;
    hide Continues;
    hide Due;
    hide Left;
    hide Flatten;
    hide RequestsOf;
    hide Behind;
    hide Explained;
    var ns, i := ms + [u], |es| - 1;
    var init, e := es[..i], es[i];
    assert es == init + [e] && ns[..|ms|] == ms;
    PendingIf(ns, init, 0);
    ContinuesTake(ns, es, 0, lib.requestMaxBytes, i);
    ContinuesAt(ns, es, 0, lib.requestMaxBytes, i);
    ChunksConcat(init, [e]);
    Assoc(Flatten(Chunks(init)), Flatten(Chunks([e])), after);
    assert [] + Flatten(Chunks(init)) == Flatten(Chunks(init));
    BehindNew(lib, FRESH, []);
    var k, n;
    k, n, p := HandledInOrder(lib, FRESH, [], init, ns, tail, Flatten(Chunks([e])) + after);
    var v := ReadAll(lib, FRESH, init);
    OpenIff(v.status, init, ns, n, 0, lib.requestMaxBytes);
    Ends(lib, v.status, init, ns, n);
    assert init[..|init|] == init;
    assert [] + RequestsOf(lib, ms) == RequestsOf(lib, ms);
    LeftIs(ns, init, 0);
    BufferLength(lib, v, p);
  }

  /** That event leaves the connection open, with the request handled and exactly the bytes after it
      in the buffer. */
  lemma JustAfter(lib: Library, es: seq<Event>, ms: seq<bytes>, u: bytes, tail: bytes, after: bytes) returns (q: bytes)
    requires AllTake(lib, ms + [u]) && Completes(ms, u, es, lib.requestMaxBytes)
    requires Flatten(Chunks(es)) + after == Flatten(ms + [u]) + tail
    ensures var v, st := ReadAll(lib, FRESH, es[..|es| - 1]), Processed(lib, START, u).st;
            && v.status.Open? && Ready(v.st, v.input) && v.handled == RequestsOf(lib, ms)
            && Read(lib, v, es[|es| - 1]) == Peer(START, q, Open, RequestsOf(lib, ms) + [st])
    ensures q + after == tail
  {
    hide Processed;
    hide ReadAll;
    hide Read;
    hide Continues;
    hide Due;
    hide RequestsOf;
    hide Behind;
    hide Takes;
    var ns, i := ms + [u], |es| - 1;
    var init, e := es[..i], es[i];
    var p := JustBefore(lib, es, ms, u, tail, after);
    var v, got := ReadAll(lib, FRESH, init), p + e.chunk;
    assert es == init + [e] && es[..i + 1] == es && ns[|ms|] == u;
    LastEvent(es, ms, u, p, tail, after);
    ContinuesAt(ns, es, 0, lib.requestMaxBytes, i);
    Beginnings(u, tail, got, after);
    q := got[|u|..];
    EventHandles(lib, v, p, e, u, q);
  }

  /** The bytes of `u` and after, as they stand when the last event has come. */
  lemma LastEvent(es: seq<Event>, ms: seq<bytes>, u: bytes, p: bytes, tail: bytes, after: bytes)
    requires es != [] && Flatten(Chunks(es)) + after == Flatten(ms + [u]) + tail
    requires Flatten(Chunks(es[..|es| - 1])) == Flatten(ms) + p
    requires Due(ms + [u], es[..|es| - 1], 0) == |ms| && Due(ms + [u], es, 0) == |ms| + 1
    ensures p + es[|es| - 1].chunk + after == u + tail && |p + es[|es| - 1].chunk| >= |u|
  {
    hide Due;
    hide Flatten;
    LastLength(es, ms, u);
    LastBytes(es, ms, u);
    var e, all, got := es[|es| - 1], Flatten(ms), p + es[|es| - 1].chunk;
    Assoc(all, p, e.chunk);
    Assoc(all, got, after);
    Assoc(all, u, tail);
    assert (all + (got + after))[|all|..] == got + after && (all + (u + tail))[|all|..] == u + tail;
  }

  lemma LastBytes(es: seq<Event>, ms: seq<bytes>, u: bytes)
    requires es != []
    ensures Flatten(Chunks(es)) == Flatten(Chunks(es[..|es| - 1])) + es[|es| - 1].chunk
    ensures Flatten(ms + [u]) == Flatten(ms) + u
  {
    var init, e := es[..|es| - 1], es[|es| - 1];
    assert es == init + [e];
    ChunksConcat(init, [e]);
    ChunksFirst([e]);
    assert Chunks([e][1..]) == [] && e.chunk + [] == e.chunk;
    FlattenConcat(ms, [u]);
    assert Flatten([u]) == u + [] == u;
  }

  lemma LastLength(es: seq<Event>, ms: seq<bytes>, u: bytes)
    requires es != []
    requires Due(ms + [u], es[..|es| - 1], 0) == |ms| && Due(ms + [u], es, 0) == |ms| + 1
    ensures |Flatten(ms + [u])| <= Total(es)
  {
    hide Due;
    hide Whole;
    hide Flatten;
    var ns := ms + [u];
    DueNext(ns, es, 0);
    WholeExceeds(ns, Total(es), |ms|);
    assert ns[..|ms| + 1] == ns;
  }
}
