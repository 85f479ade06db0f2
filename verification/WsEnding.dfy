/** How a WebSocket connection ends, and what the peer reads of it: the closing branches of
    `onWebsocket` in ws.go, the server's own Close in server.go, and the pongs `write` sends. */
module WsEnding {
  import opened Bytes
  import opened WsFrame
  import opened WsListener

  // ----- frames that close the connection

  /** What makes the server close: the peer's close frame; a continuation of nothing; or a
      continuation that makes a message exceed the limit. */
  datatype Ending =
    | Close(data: bytes, fin: bool)
    | Stray(p: bytes, fin: bool)
    | Flood(opcode: byte, first: bytes, middle: seq<Piece>, last: bytes, fin: bool)

  function EndingSketches(e: Ending): (r: seq<Sketch>)
    ensures r != []
  {
    match e
    case Close(data, fin) => [Sketch(data, 8, fin)]
    case Stray(p, fin) => [Sketch(p, 0, fin)]
    case Flood(opcode, first, middle, last, fin) =>
      [Sketch(first, opcode, false)] + PieceSketches(middle) + [Sketch(last, 0, fin)]
  }

  predicate Ends(e: Ending, limit: nat) {
    e.Flood? ==> IsData(e.opcode) && PiecesFit(e.first, e.middle, limit) && |e.first + Parts(e.middle) + e.last| > limit
  }

  /** The close frame's payload is what OnWSClose is given. */
  function EndStatus(e: Ending): (st: Status) {
    match e
    case Close(data, _) => PeerClosed(data)
    case Stray(_, _) => BadContinuation
    case Flood(_, _, _, _, _) => TooLong
  }

  function EndAnswers(e: Ending): (b: bytes) {
    if e.Flood? then PieceAnswers(e.middle) else []
  }

  lemma SingleEnds(v: Ws, ws: seq<ClientWire>, e: Ending, limit: nat)
    requires v.status.Open? && v.cont.None? && !e.Flood? && Matches(ws, EndingSketches(e))
    ensures OnFrames(v, ws, limit) == v.(status := EndStatus(e))
  {
    hide Encode;
    hide FrameOf;
    OneFrame(v, ws, limit);
    assert SketchOf(ws[0]) == EndingSketches(e)[0];
    FrameFields(ws[0]);
    assert ws[1..] == [];
    NoFrames(OnFrame(v, FrameOf(ws[0]), limit), limit);
  }

  lemma LastFloods(v: Ws, ws: seq<ClientWire>, last: bytes, fin: bool, limit: nat)
    requires v.status.Open? && v.cont.Some? && |v.cont.value + last| > limit && Matches(ws, [Sketch(last, 0, fin)])
    ensures OnFrames(v, ws, limit) == v.(cont := Some(v.cont.value + last), status := TooLong)
  {
    hide Encode;
    hide FrameOf;
    OneFrame(v, ws, limit);
    assert SketchOf(ws[0]) == Sketch(last, 0, fin);
    FrameFields(ws[0]);
    assert ws[1..] == [];
    NoFrames(OnFrame(v, FrameOf(ws[0]), limit), limit);
  }

  lemma FloodEnds(v: Ws, ws: seq<ClientWire>, e: Ending, limit: nat)
    requires v.status.Open? && v.cont.None? && e.Flood? && Ends(e, limit) && Matches(ws, EndingSketches(e))
    ensures var v' := OnFrames(v, ws, limit);
            v'.status == TooLong && v'.messages == v.messages && v'.out == v.out + PieceAnswers(e.middle)
  {
    hide Encode;
    hide FrameOf;
    var n, ss := |e.middle|, EndingSketches(e);
    var mid, end := ws[1..n + 1], ws[n + 1..];
    assert SketchOf(ws[0]) == ss[0] && SketchOf(ws[n + 1]) == ss[n + 1];
    OneFrame(v, ws, limit);
    FrameFields(ws[0]);
    var v1 := v.(cont := Some(e.first));
    assert ws[1..] == mid + end;
    OnFramesConcat(v1, mid, end, limit);
    assert forall i :: 0 <= i < n ==> mid[i] == ws[i + 1] && ss[i + 1] == PieceSketches(e.middle)[i];
    PiecesHandled(v1, mid, e.middle, limit);
    LastFloods(v1.(cont := Some(e.first + Parts(e.middle)), out := v.out + PieceAnswers(e.middle)), end, e.last, e.fin, limit);
  }

  /** An ending closes the connection for its reason, and delivers nothing. */
  lemma EndingHandled(v: Ws, ws: seq<ClientWire>, e: Ending, limit: nat)
    requires v.status.Open? && v.cont.None? && Ends(e, limit) && Matches(ws, EndingSketches(e))
    ensures var v' := OnFrames(v, ws, limit);
            v'.status == EndStatus(e) && v'.messages == v.messages && v'.out == v.out + EndAnswers(e)
  {
    if e.Flood? {
      FloodEnds(v, ws, e, limit);
    } else {
      SingleEnds(v, ws, e, limit);
      assert v.out + [] == v.out;
    }
  }

  /** A conforming sequence, then an ending, then any frames at all: the sequence's messages are
      delivered in order and its pings answered; the connection closes for the ending's reason,
      with the peer's closing data when it has some; and nothing after it is handled. */
  lemma ClosesAtEnding(v: Ws, chunks: seq<bytes>, ws: seq<ClientWire>, end: seq<ClientWire>, after: seq<ClientWire>,
                       xs: seq<Item>, e: Ending, limit: nat)
    requires v.status.Open? && !v.closing && v.cont.None? && chunks != [] && NoneEmpty(chunks)
    requires v.input + Flatten(chunks) == EncodeAll(ws + end + after) && Roomy(ws + end + after, chunks, |v.input|, limit)
    requires Matches(ws, Sketches(xs)) && Conforms(xs, limit) && Matches(end, EndingSketches(e)) && Ends(e, limit)
    ensures var v' := ReadAll(v, chunks, limit);
            && v'.status == EndStatus(e)
            && v'.messages == v.messages + Deliveries(xs) && v'.out == v.out + Answers(xs) + EndAnswers(e)
  {
    hide OnFrames;
    hide EncodeAll;
    hide Roomy;
    hide ReadAll;
    FramesInOrder(v, chunks, ws + end + after, limit);
    OnFramesConcat(v, ws + end, after, limit);
    OnFramesConcat(v, ws, end, limit);
    ItemsHandled(v, ws, xs, limit);
    var v1 := OnFrames(v, ws, limit);
    EndingHandled(v1, end, e, limit);
    Stopped(OnFrames(v1, end, limit), after, limit);
  }

  // ----- the server's own close

  /** Once the server has sent its own close frame nothing the peer sends is handled any more. */
  lemma {:induction false} ClosingIgnores(v: Ws, chunks: seq<bytes>, limit: nat)
    requires v.closing && v.status.Open?
    ensures var v' := ReadAll(v, chunks, limit);
            && v'.messages == v.messages && v'.out == v.out && v'.cont == v.cont
            && (v'.status.Open? || v'.status.Eof? || v'.status.Oversize?)
    decreases |chunks|
  {
    if chunks != [] {
      var v1 := Read(v, chunks[0], limit);
      if v1.status.Open? { ClosingIgnores(v1, chunks[1..], limit); }
    }
  }

  // ----- what the peer reads

  /** The payloads of the pings, in order. */
  function PiecePings(xs: seq<Piece>): (ps: seq<bytes>) {
    if xs == [] then [] else (if xs[0].PingIn? then [xs[0].p] else []) + PiecePings(xs[1..])
  }

  function Pings(xs: seq<Item>): (ps: seq<bytes>) {
    if xs == [] then []
    else (match xs[0] case Ping(p) => [p] case Fragmented(_, _, middle, _) => PiecePings(middle) case _ => []) + Pings(xs[1..])
  }

  predicate AllFit(ps: seq<bytes>) {
    forall i :: 0 <= i < |ps| ==> |ps[i]| <= MAX_INT64 - 14
  }

  /** Pongs with those payloads, as messages to `write`. */
  function Pongs(ps: seq<bytes>): (ms: seq<(byte, bytes)>)
    ensures |ms| == |ps| && forall i :: 0 <= i < |ps| ==> ms[i] == (10, ps[i])
  {
    seq(|ps|, i requires 0 <= i < |ps| => (10, ps[i]))
  }

  lemma {:induction false} PongsConcat(a: seq<bytes>, b: seq<bytes>)
    requires AllFit(a) && AllFit(b)
    ensures AllFit(a + b) && WriteAll(Pongs(a + b)) == WriteAll(Pongs(a)) + WriteAll(Pongs(b))
  {
    hide Encode;
    if a == [] {
      assert a + b == b;
    } else {
      assert (a + b)[1..] == a[1..] + b;
      PongsFirst(a + b);
      PongsFirst(a);
      PongsConcat(a[1..], b);
      Assoc(Encode(ServerWire(10, a[0])), WriteAll(Pongs(a[1..])), WriteAll(Pongs(b)));
    }
  }

  lemma PongsFirst(ps: seq<bytes>)
    requires AllFit(ps) && ps != []
    ensures WriteAll(Pongs(ps)) == Encode(ServerWire(10, ps[0])) + WriteAll(Pongs(ps[1..]))
  {
    assert Pongs(ps)[1..] == Pongs(ps[1..]);
  }

  lemma {:induction false} PieceAnswersAre(xs: seq<Piece>)
    requires AllFit(PiecePings(xs))
    ensures PieceAnswers(xs) == WriteAll(Pongs(PiecePings(xs)))
  {
    hide Encode;
    if xs != [] {
      var first, rest := if xs[0].PingIn? then [xs[0].p] else [], PiecePings(xs[1..]);
      FitParts(first, rest);
      PieceAnswersAre(xs[1..]);
      PongsConcat(first, rest);
      OnePong(first);
    }
  }

  lemma OnePong(ps: seq<bytes>)
    requires |ps| <= 1 && AllFit(ps)
    ensures WriteAll(Pongs(ps)) == if ps == [] then [] else Answer(ps[0])
  {
    if ps != [] {
      PongsFirst(ps);
      assert Answer(ps[0]) + [] == Answer(ps[0]);
    }
  }

  lemma FitParts(a: seq<bytes>, b: seq<bytes>)
    requires AllFit(a + b)
    ensures AllFit(a) && AllFit(b)
  {
    assert forall i :: 0 <= i < |a| ==> (a + b)[i] == a[i];
    assert forall i :: 0 <= i < |b| ==> (a + b)[|a| + i] == b[i];
  }

  lemma {:induction false} AnswersAre(xs: seq<Item>)
    requires AllFit(Pings(xs))
    ensures Answers(xs) == WriteAll(Pongs(Pings(xs)))
  {
    hide Encode;
    hide Answer;
    if xs != [] {
      var x, rest := xs[0], Pings(xs[1..]);
      var first := match x case Ping(p) => [p] case Fragmented(_, _, middle, _) => PiecePings(middle) case _ => [];
      FitParts(first, rest);
      AnswersAre(xs[1..]);
      PongsConcat(first, rest);
      if x.Fragmented? { PieceAnswersAre(x.middle); } else { OnePong(first); }
    }
  }

  /** The peer reads the server's answers as pongs, one for each of its pings, in order and with
      its own payload: final, unmasked, opcode 10. */
  lemma PongsRead(xs: seq<Item>) returns (ws: seq<Wire>)
    requires AllFit(Pings(xs))
    ensures DecodeAll(Answers(xs)) == Some(ws) && |ws| == |Pings(xs)|
    ensures forall i :: 0 <= i < |ws| ==>
              ws[i].fin && ws[i].rsv == 0 && ws[i].opcode == 10 && ws[i].key.None? && ws[i].payload == Pings(xs)[i]
  {
    hide Answers;
    hide Pings;
    hide DecodeAll;
    hide WriteAll;
    var ms := Pongs(Pings(xs));
    AnswersAre(xs);
    ws := WritesDecodeUniquely(ms);
  }
}
