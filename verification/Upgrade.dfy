/** A connection that turns from HTTP to WebSocket: `UpgradeWebsocket` of http.go inside `readConn` of
    server.go. */
module Upgrade {
  import opened Bytes
  import opened HttpHeader
  import opened ReadState
  import opened Requests
  import WsFrame
  import WsListener

  /** One connection: reading requests, or frames. `out` of a socket is what frames are answered
      with. */
  datatype Link = Plain(peer: Peer) | Socket(peer: Peer, ws: WsListener.Ws)

  /** A read event. `upgrade`: the handler it reaches, if any, calls UpgradeWebsocket. */
  datatype Reading = Reading(event: Event, upgrade: bool)

  /** Only a request that asks for it can be upgraded. */
  predicate Upgradable(st: State) {
    st.http.Some? && st.http.value.wsUpgrade
  }

  predicate IsOpen(c: Link) {
    if c.Plain? then c.peer.status.Open? else c.ws.status.Open?
  }

  predicate Sound(c: Link) {
    c.Plain? && c.peer.status.Open? ==> Ready(c.peer.st, c.peer.input)
  }

  /** A new socket, with the bytes that came after the upgrade request. */
  function NewSocket(input: bytes): (w: WsListener.Ws) {
    WsListener.Ws(input, None, false, WsListener.Open, [], [])
  }

  function ReadOnce(lib: Library, c: Link, r: Reading): (c': Link)
    requires IsOpen(c) && Sound(c)
    ensures Sound(c')
  {
    match c
    case Plain(v) =>
      var v' := Requests.Read(lib, v, r.event);
      if r.upgrade && v'.status.Open? && |v'.handled| > |v.handled| && Upgradable(v'.handled[|v'.handled| - 1])
      then Socket(v', NewSocket(v'.input)) else Plain(v')
    case Socket(v, w) => Socket(v, WsListener.Read(w, r.event.chunk, lib.requestMaxBytes))
  }

  function ReadEach(lib: Library, c: Link, rs: seq<Reading>): (c': Link)
    requires Sound(c)
    decreases |rs|
  {
    if rs == [] || !IsOpen(c) then c else ReadEach(lib, ReadOnce(lib, c, rs[0]), rs[1..])
  }

  // ----- the connection object

  class Conn {
    var plain: Requests.Conn
    var socket: WsListener.Conn?

    function Value(): Link
      reads this, plain, plain.srs, if socket == null then {} else {socket}
    {
      if socket == null then Plain(plain.Value()) else Socket(plain.Value(), socket.Value())
    }

    constructor ()
      ensures Value() == Plain(FRESH)
    {
      plain := new Requests.Conn();
      socket := null;
    }

    /** `readConn` in whichever mode the connection is; a handler may change it. */
    method ReadConn(lib: Library, r: Reading)
      requires IsOpen(Value()) && Sound(Value())
      modifies this, plain, plain.srs, if socket == null then {} else {socket}
      ensures Value() == ReadOnce(lib, old(Value()), r)
    {
      if socket != null {
        socket.ReadConn(r.event.chunk, lib.requestMaxBytes);
        return;
      }
      var before := |plain.handled|;
      plain.ReadConn(lib, r.event);
      if r.upgrade && plain.status.Open? && |plain.handled| > before {
        var request := plain.handled[|plain.handled| - 1];
        if request.http.Some? && request.http.value.wsUpgrade {
          var ws := new WsListener.Conn();
          ws.input := plain.input;
          socket := ws;
        }
      }
    }
  }

  // ----- frames after the upgrade

  function Events(rs: seq<Reading>): (es: seq<Event>)
    ensures |es| == |rs| && forall i :: 0 <= i < |rs| ==> es[i] == rs[i].event
  {
    seq(|rs|, i requires 0 <= i < |rs| => rs[i].event)
  }

  /** Without an upgrade the connection only reads requests. */
  lemma {:induction false} PlainRun(lib: Library, v: Peer, rs: seq<Reading>)
    requires v.status.Open? ==> Ready(v.st, v.input)
    requires forall i :: 0 <= i < |rs| ==> !rs[i].upgrade
    ensures ReadEach(lib, Plain(v), rs) == Plain(Requests.ReadAll(lib, v, Events(rs)))
    decreases |rs|
  {
    hide Requests.Read;
    if rs != [] && v.status.Open? {
      assert Events(rs)[1..] == Events(rs[1..]);
      PlainRun(lib, Requests.Read(lib, v, rs[0].event), rs[1..]);
    }
  }

  /** As a socket it only reads frames. */
  lemma {:induction false} SocketRun(lib: Library, v: Peer, w: WsListener.Ws, rs: seq<Reading>)
    ensures ReadEach(lib, Socket(v, w), rs) == Socket(v, WsListener.ReadAll(w, Chunks(Events(rs)), lib.requestMaxBytes))
    decreases |rs|
  {
    hide WsListener.Read;
    if rs != [] && w.status.Open? {
      assert Events(rs)[1..] == Events(rs[1..]);
      assert Chunks(Events(rs))[1..] == Chunks(Events(rs[1..]));
      SocketRun(lib, v, WsListener.Read(w, rs[0].event.chunk, lib.requestMaxBytes), rs[1..]);
    }
  }

  lemma {:induction false} ReadEachConcat(lib: Library, c: Link, a: seq<Reading>, b: seq<Reading>)
    requires Sound(c)
    ensures Sound(ReadEach(lib, c, a)) && ReadEach(lib, c, a + b) == ReadEach(lib, ReadEach(lib, c, a), b)
    decreases |a|
  {
    hide ReadOnce;
    if a == [] {
      assert a + b == b;
    } else if IsOpen(c) {
      assert (a + b)[1..] == a[1..] + b;
      ReadEachConcat(lib, ReadOnce(lib, c, a[0]), a[1..], b);
    }
  }

  /** The upgrade: when the reading `rs[i]` completes the upgrade request `u`, the connection is a
      socket whose input is what came after that request. */
  lemma BecomesSocket(lib: Library, rs: seq<Reading>, ms: seq<bytes>, u: bytes, tail: bytes, after: bytes) returns (q: bytes)
    requires AllTake(lib, ms + [u]) && Completes(ms, u, Events(rs), lib.requestMaxBytes)
    requires Upgradable(Processed(lib, START, u).st)
    requires rs != [] && rs[|rs| - 1].upgrade && forall i :: 0 <= i < |rs| - 1 ==> !rs[i].upgrade
    requires Flatten(Chunks(Events(rs))) + after == Flatten(ms + [u]) + tail
    ensures var st := Processed(lib, START, u).st;
            ReadEach(lib, Plain(FRESH), rs) == Socket(Peer(START, q, Requests.Open, RequestsOf(lib, ms) + [st]), NewSocket(q))
    ensures q + after == tail
  {
    hide Processed;
    hide Requests.Read;
    hide Requests.ReadAll;
    hide AllTake;
    hide Completes;
    hide Flatten;
    hide ReadEach;
    hide RequestsOf;
    hide Chunks;
    var es, init, r := Events(rs), rs[..|rs| - 1], rs[|rs| - 1];
    EventsBefore(rs);
    assert rs == init + [r];
    hide Events;
    q := JustAfter(lib, es, ms, u, tail, after);
    var st := Processed(lib, START, u).st;
    UpgradedLast(lib, init, r, Peer(START, q, Requests.Open, RequestsOf(lib, ms) + [st]), st);
  }

  lemma UpgradedLast(lib: Library, init: seq<Reading>, r: Reading, v': Peer, st: State)
    requires r.upgrade && Upgradable(st) && forall i :: 0 <= i < |init| ==> !init[i].upgrade
    requires var v := Requests.ReadAll(lib, FRESH, Events(init));
             && v.status.Open? && Ready(v.st, v.input)
             && Requests.Read(lib, v, r.event) == v' && v'.status.Open? && v'.handled == v.handled + [st]
    ensures ReadEach(lib, Plain(FRESH), init + [r]) == Socket(v', NewSocket(v'.input))
  {
    hide Requests.Read;
    hide Requests.ReadAll;
    hide Events;
    hide ReadEach;
    PlainRun(lib, FRESH, init);
    ReadEachConcat(lib, Plain(FRESH), init, [r]);
    UpgradedNow(lib, Requests.ReadAll(lib, FRESH, Events(init)), r, v', st);
  }

  lemma EventsBefore(rs: seq<Reading>)
    requires rs != []
    ensures Events(rs[..|rs| - 1]) == Events(rs)[..|rs| - 1] && Events(rs)[|rs| - 1] == rs[|rs| - 1].event
  {
  }

  lemma UpgradedNow(lib: Library, v: Peer, r: Reading, v': Peer, st: State)
    requires v.status.Open? && Ready(v.st, v.input) && r.upgrade && Upgradable(st)
    requires Requests.Read(lib, v, r.event) == v' && v'.status.Open? && v'.handled == v.handled + [st]
    ensures ReadEach(lib, Plain(v), [r]) == Socket(v', NewSocket(v'.input))
  {
    hide Requests.Read;
    assert [r][1..] == [];
  }

  /** Frames after an upgrade, in whatever chunks and even when the first of them came together with
      the upgrade request: the messages of a conforming peer are delivered in order, once each, if
      and only if every read finds room, as soon as a further read comes. Without one, what came
      with the request waits. */
  lemma FramesAfterUpgrade(lib: Library, rs: seq<Reading>, later: seq<Reading>, ms: seq<bytes>, u: bytes,
                           ws: seq<WsFrame.ClientWire>, xs: seq<WsListener.Item>)
    returns (q: bytes)
    requires AllTake(lib, ms + [u]) && Completes(ms, u, Events(rs), lib.requestMaxBytes)
    requires Upgradable(Processed(lib, START, u).st)
    requires rs != [] && rs[|rs| - 1].upgrade && forall i :: 0 <= i < |rs| - 1 ==> !rs[i].upgrade
    requires Flatten(Chunks(Events(rs))) + Flatten(Chunks(Events(later))) == Flatten(ms + [u]) + WsListener.EncodeAll(ws)
    requires NoneEmpty(Chunks(Events(later)))
    requires WsListener.Matches(ws, WsListener.Sketches(xs)) && WsListener.Conforms(xs, lib.requestMaxBytes)
    ensures var c := ReadEach(lib, Plain(FRESH), rs + later);
            && c.Socket? && c.peer.handled == RequestsOf(lib, ms) + [Processed(lib, START, u).st]
            && q + Flatten(Chunks(Events(later))) == WsListener.EncodeAll(ws)
            && if later == [] then c.ws == NewSocket(WsListener.EncodeAll(ws))
               else if WsListener.Roomy(ws, Chunks(Events(later)), |q|, lib.requestMaxBytes)
               then c.ws == NewSocket([]).(messages := WsListener.Deliveries(xs), out := WsListener.Answers(xs))
               else c.ws.status.Oversize?
  {
    hide Processed;
    hide AllTake;
    hide Completes;
    hide Flatten;
    hide WsListener.EncodeAll;
    hide WsListener.ReadAll;
    hide WsListener.Matches;
    hide WsListener.Roomy;
    hide RequestsOf;
    var chunks, tail := Chunks(Events(later)), WsListener.EncodeAll(ws);
    q := BecomesSocket(lib, rs, ms, u, tail, Flatten(chunks));
    ReadEachConcat(lib, Plain(FRESH), rs, later);
    var peer := ReadEach(lib, Plain(FRESH), rs).peer;
    if later == [] {
      StreamFirst(chunks);
      assert q + [] == q;
    } else {
      SocketRun(lib, peer, NewSocket(q), later);
      WsListener.MessagesDelivered(NewSocket(q), chunks, ws, xs, lib.requestMaxBytes);
      assert [] + WsListener.Deliveries(xs) == WsListener.Deliveries(xs);
      assert [] + WsListener.Answers(xs) == WsListener.Answers(xs);
    }
  }

  /** A handler that asks for an upgrade the client has not asked for does not get one. */
  lemma NotUnasked(lib: Library, v: Peer, r: Reading)
    requires v.status.Open? && Ready(v.st, v.input)
    requires var v' := Requests.Read(lib, v, r.event);
             |v'.handled| > |v.handled| ==> !Upgradable(v'.handled[|v'.handled| - 1])
    ensures ReadOnce(lib, Plain(v), r) == Plain(Requests.Read(lib, v, r.event))
  {
    hide Requests.Read;
  }
}
