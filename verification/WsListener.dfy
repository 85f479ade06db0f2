/** Frames into messages: `onWebsocket` in ws.go and the PARSE_NEXT loop of `readConn` in server.go. */
module WsListener {
  import opened Bytes
  import opened WsFrame

  /** Why a connection was closed. Crashed is the panic of a frame length past the int range. */
  datatype Status = Open | Eof | Oversize | BadContinuation | TooLong | PeerClosed(data: bytes) | Crashed

  /** A connection in WebSocket mode. `cont` is contFrame, None for nil; `closing` is the server's
      own Close; `messages` are the calls of OnWSData, `out` the bytes written in answer. */
  datatype Ws = Ws(input: bytes, cont: Option<bytes>, closing: bool, status: Status, messages: seq<bytes>, out: bytes)

  /** `onWebsocket` on one frame. */
  function OnFrame(v: Ws, f: Frame, limit: nat): (v': Ws)
    requires |f.data| <= MAX_INT64 - 14
    ensures v'.input == v.input && v'.closing == v.closing
  {
    if f.opcode == 0 then
      if v.cont.None? then v.(status := BadContinuation)
      else
        var whole := v.cont.value + f.data;
        if |whole| > limit then v.(cont := Some(whole), status := TooLong)
        else if f.fin then v.(cont := None, messages := v.messages + [whole])
        else v.(cont := Some(whole))
    else if f.opcode == 8 then v.(status := PeerClosed(f.data))
    else if f.opcode == 9 then v.(out := v.out + Encode(ServerWire(10, f.data)))
    else if f.opcode == 10 then v
    else if f.fin then v.(messages := v.messages + [f.data])
    else v.(cont := Some(f.data))
  }

  /** Parse and handle frames while input remains. */
  function ParseNext(v: Ws, limit: nat): (v': Ws)
    decreases |v.input|
  {
    if v.closing then v
    else
      match Parse(v.input)
      case NeedMore => v
      case Crash => v.(status := Crashed)
      case Got(f, buf) =>
        ParsedFits(v.input);
        var v1 := OnFrame(v.(input := buf[f.len..]), f, limit);
        if v1.status.Open? && v1.input != [] then ParseNext(v1, limit) else v1
  }

  lemma ParsedFits(s: bytes)
    requires Parse(s).Got?
    ensures |Parse(s).frame.data| <= MAX_INT64 - 14
  {
    Eights(s);
  }

  lemma Eights(s: bytes)
    requires Measure(s).Extent?
    ensures Measure(s).size <= MAX_INT64 - 14
  {
    if s[1] % 128 == 126 {
      var t := s[2..4];
      assert t[..1][..0] == [] && BigEndian(t[..1]) == t[0];
      assert t[..|t| - 1] == t[..1] && BigEndian(t) == BigEndian(t[..1]) * 256 + t[1];
    }
  }

  /** One read event that brought `chunk`. */
  function Read(v: Ws, chunk: bytes, limit: nat): (v': Ws) {
    var v1 := v.(input := v.input + chunk);
    if chunk == [] then v.(status := Eof)
    else if |v1.input| > limit then v1.(status := Oversize)
    else ParseNext(v1, limit)
  }

  function ReadAll(v: Ws, chunks: seq<bytes>, limit: nat): (v': Ws)
    decreases |chunks|
  {
    if chunks == [] || !v.status.Open? then v else ReadAll(Read(v, chunks[0], limit), chunks[1..], limit)
  }

  // ----- the connection object

  class Conn {
    var input: bytes
    var cont: Option<bytes>
    var closing: bool
    var status: Status
    var messages: seq<bytes>
    var out: bytes

    function Value(): Ws
      reads this
    {
      Ws(input, cont, closing, status, messages, out)
    }

    constructor ()
      ensures Value() == Ws([], None, false, Open, [], [])
    {
      input, cont, closing, status, messages, out := [], None, false, Open, [], [];
    }

    /** `onWebsocket`; false when it has closed the connection. */
    method OnWebsocket(f: Frame, limit: nat) returns (ok: bool)
      requires |f.data| <= MAX_INT64 - 14 && status.Open?
      modifies this
      ensures Value() == OnFrame(old(Value()), f, limit) && ok == status.Open?
    {
      if f.opcode == 0 {
        if cont.None? {
          status := BadContinuation;
          return false;
        }
        cont := Some(cont.value + f.data);
        if |cont.value| > limit {
          status := TooLong;
          return false;
        }
        if f.fin {
          messages := messages + [cont.value];
          cont := None;
        }
      } else if f.opcode == 8 {
        status := PeerClosed(f.data);
        return false;
      } else if f.opcode == 9 {
        var tmp := Write(10, f.data);
        out := out + tmp;
      } else if f.opcode == 10 {
      } else if f.fin {
        messages := messages + [f.data];
      } else {
        cont := Some(f.data);
      }
      ok := true;
    }

    /** Parse the input in place and drop the frame found. */
    method NextFrame() returns (p: Parsed)
      modifies this`input
      ensures p == Parse(old(input))
      ensures input == if p.Got? then p.buf[p.frame.len..] else old(input)
    {
      hide Parse;
      var s := input;
      var a := new byte[|s|](i requires 0 <= i < |s| => s[i]);
      assert a[..] == s;
      p := ParseInplace(a);
      if p.Got? { input := a[..][p.frame.len..]; }
    }

    /** `readConn` in WebSocket mode, its `goto PARSE_NEXT` a loop. Each turn drops a whole frame
        from the input, so the loop ends. */
    method ReadConn(chunk: bytes, limit: nat)
      requires status.Open?
      modifies this
      ensures Value() == Read(old(Value()), chunk, limit)
    {
      hide Parse;
      hide OnFrame;
      if chunk == [] {
        status := Eof;
        return;
      }
      input := input + chunk;
      if |input| > limit {
        status := Oversize;
        return;
      }
      ghost var goal := ParseNext(Value(), limit);
      while true
        invariant status.Open? && ParseNext(Value(), limit) == goal
        decreases |input|
      {
        if closing { return; }
        ghost var s := input;
        var p := NextFrame();
        if p.NeedMore? { return; }
        if p.Crash? {
          status := Crashed;
          return;
        }
        ParsedFits(s);
        var ok := OnWebsocket(p.frame, limit);
        if !ok || |input| == 0 { return; }
      }
    }
  }

  // ----- frames in order, however they are cut

  /** Handle frames one after the other until one closes the connection. */
  function OnFrames(v: Ws, ws: seq<ClientWire>, limit: nat): (v': Ws)
    ensures v'.input == v.input && v'.closing == v.closing
    decreases |ws|
  {
    if ws == [] || !v.status.Open? then v
    else
      ClientFits(ws[0]);
      OnFrames(OnFrame(v, FrameOf(ws[0]), limit), ws[1..], limit)
  }

  lemma ClientFits(w: ClientWire)
    ensures |w.payload| <= MAX_INT64 - 14
  {
  }

  function EncodeAll(ws: seq<ClientWire>): (b: bytes)
  {
    if ws == [] then [] else Encode(ws[0]) + EncodeAll(ws[1..])
  }

  /** The same connection but for its input; a closed one's input is of no account. */
  ghost predicate Same(v: Ws, u: Ws) {
    v == u.(input := v.input)
  }

  /** Parsing bytes that begin a list of client frames handles the frames they complete, in
      order, and keeps what is left; or a frame has closed the connection. */
  lemma {:induction false} ParseNextFrames(v: Ws, ws: seq<ClientWire>, limit: nat) returns (done: nat)
    requires v.status.Open? && !v.closing
    requires v.input <= EncodeAll(ws)
    ensures done <= |ws|
    ensures Same(ParseNext(v, limit), OnFrames(v, ws[..done], limit))
    ensures ParseNext(v, limit).status.Open? ==>
              var left := ParseNext(v, limit).input;
              && EncodeAll(ws[done..]) == left + EncodeAll(ws)[|v.input|..]
              && (done < |ws| ==> |left| < |Encode(ws[done])|)
    decreases |ws|
  {
    hide Parse;
    hide OnFrame;
    hide OnFrames;
    hide Encode;
    done := 0;
    NoFrames(v, limit);
    assert ws[..0] == [] && ws[0..] == ws;
    assert v.input + EncodeAll(ws)[|v.input|..] == EncodeAll(ws);
    if ws == [] || |v.input| < |Encode(ws[0])| {
      PartWaits(v.input, ws);
      assert ParseNext(v, limit) == v;
    } else {
      var w, rest := ws[0], v.input[|Encode(ws[0])|..];
      WholeFrameFirst(v.input, ws);
      ClientFits(w);
      var v1 := OnFrame(v.(input := rest), FrameOf(w), limit);
      assert ParseNext(v, limit) == if v1.status.Open? && rest != [] then ParseNext(v1, limit) else v1;
      assert EncodeAll(ws)[|v.input|..] == EncodeAll(ws[1..])[|rest|..];
      var k := 0;
      NoFrames(v1, limit);
      if v1.status.Open? {
        if rest == [] { PartWaits([], ws[1..]); }
        k := ParseNextFrames(v1, ws[1..], limit);
      }
      done := k + 1;
      assert ws[..done] == [w] + ws[1..][..k];
      assert ws[done..] == ws[1..][k..];
      SameStep(v, rest, w, ws[1..][..k], limit);
    }
  }

  lemma NoFrames(v: Ws, limit: nat)
    ensures OnFrames(v, [], limit) == v
  {
  }

  /** Handling frames does not look at the input. */
  lemma {:induction false} SameStep(v: Ws, rest: bytes, w: ClientWire, ws: seq<ClientWire>, limit: nat)
    requires v.status.Open?
    ensures |w.payload| <= MAX_INT64 - 14
    ensures Same(OnFrames(OnFrame(v.(input := rest), FrameOf(w), limit), ws, limit), OnFrames(v, [w] + ws, limit))
  {
    ClientFits(w);
    assert ([w] + ws)[1..] == ws;
    InputIgnored(OnFrame(v.(input := rest), FrameOf(w), limit), OnFrame(v, FrameOf(w), limit), ws, limit);
  }

  lemma {:induction false} InputIgnored(v: Ws, u: Ws, ws: seq<ClientWire>, limit: nat)
    requires Same(v, u)
    ensures Same(OnFrames(v, ws, limit), OnFrames(u, ws, limit))
    decreases |ws|
  {
    if ws != [] && v.status.Open? {
      ClientFits(ws[0]);
      InputIgnored(OnFrame(v, FrameOf(ws[0]), limit), OnFrame(u, FrameOf(ws[0]), limit), ws[1..], limit);
    }
  }

  /** Less than a frame: the parser waits. */
  lemma PartWaits(s: bytes, ws: seq<ClientWire>)
    requires s <= EncodeAll(ws) && (ws == [] || |s| < |Encode(ws[0])|)
    ensures Parse(s).NeedMore?
  {
    if ws != [] {
      assert s == EncodeAll(ws)[..|s|] == Encode(ws[0])[..|s|];
      PartOfFrameWaits(ws[0], |s|);
    }
  }

  /** At least a frame: the parser reports it and leaves exactly what follows. */
  lemma WholeFrameFirst(s: bytes, ws: seq<ClientWire>)
    requires ws != []
    requires s <= EncodeAll(ws) && |s| >= |Encode(ws[0])|
    ensures Parse(s).Got? && Parse(s).frame == FrameOf(ws[0])
    ensures Parse(s).buf[|Encode(ws[0])|..] == s[|Encode(ws[0])|..]
    ensures s[|Encode(ws[0])|..] <= EncodeAll(ws[1..])
  {
    hide Parse;
    hide Encode;
    hide WireHead;
    var w := ws[0];
    var n := |Encode(w)|;
    assert s[..n] == EncodeAll(ws)[..n] == Encode(w);
    assert s == Encode(w) + s[n..];
    ParseClientFrame(w, s[n..]);
    BodyAt(w, s[n..]);
    assert (WireHead(w) + w.payload + s[n..])[n..] == s[n..];
    assert EncodeAll(ws[1..]) == EncodeAll(ws)[n..];
  }

  lemma {:induction false} OnFramesConcat(v: Ws, a: seq<ClientWire>, b: seq<ClientWire>, limit: nat)
    ensures OnFrames(v, a + b, limit) == OnFrames(OnFrames(v, a, limit), b, limit)
    decreases |a|
  {
    hide OnFrame;
    if a == [] || !v.status.Open? {
      assert a == [] ==> a + b == b;
    } else {
      ClientFits(a[0]);
      assert (a + b)[1..] == a[1..] + b;
      OnFramesConcat(OnFrame(v, FrameOf(a[0]), limit), a[1..], b, limit);
    }
  }

  /** The frames that are not whole in the first `n` bytes, and how many bytes of them are. */
  function Unread(ws: seq<ClientWire>, n: nat): (r: (seq<ClientWire>, nat)) {
    if ws == [] || n < |Encode(ws[0])| then (ws, n) else Unread(ws[1..], n - |Encode(ws[0])|)
  }

  /** At every read, what is left of an unfinished frame and the new bytes fit the buffer. */
  predicate Roomy(ws: seq<ClientWire>, chunks: seq<bytes>, have: nat, limit: nat)
    decreases |chunks|
  {
    chunks == [] ||
    (have + |chunks[0]| <= limit &&
     var (ws', left) := Unread(ws, have + |chunks[0]|);
     Roomy(ws', chunks[1..], left, limit))
  }

  lemma {:induction false} UnreadIs(ws: seq<ClientWire>, n: nat, done: nat, left: bytes, more: bytes)
    requires done <= |ws| && n + |more| == |EncodeAll(ws)| && EncodeAll(ws[done..]) == left + more
    requires done < |ws| ==> |left| < |Encode(ws[done])|
    ensures Unread(ws, n) == (ws[done..], |left|)
    decreases |ws|
  {
    hide Encode;
    if done == 0 {
      assert ws[0..] == ws;
    } else {
      assert ws[done..] == ws[1..][done - 1..];
      AtLeast(ws[1..], done - 1);
      UnreadIs(ws[1..], n - |Encode(ws[0])|, done - 1, left, more);
    }
  }

  lemma {:induction false} AtLeast(ws: seq<ClientWire>, k: nat)
    requires k <= |ws|
    ensures |EncodeAll(ws[k..])| <= |EncodeAll(ws)|
    decreases k
  {
    hide Encode;
    if k == 0 {
      assert ws[0..] == ws;
    } else {
      assert ws[k..] == ws[1..][k - 1..];
      AtLeast(ws[1..], k - 1);
    }
  }

  lemma {:induction false} UnreadShort(ws: seq<ClientWire>, n: nat)
    requires n <= |EncodeAll(ws)|
    ensures var (ws', left) := Unread(ws, n);
            && (ws' == [] ==> left == 0) && (ws' != [] ==> left < |Encode(ws'[0])|)
            && |ws'| <= |ws| && ws' == ws[|ws| - |ws'|..] && |EncodeAll(ws')| - left == |EncodeAll(ws)| - n
    decreases |ws|
  {
    hide Encode;
    if ws != [] && n >= |Encode(ws[0])| {
      UnreadShort(ws[1..], n - |Encode(ws[0])|);
    }
  }

  /** A chunk and a frame that fit the buffer together, less one byte, always leave room. */
  lemma {:induction false} BoundedIsRoomy(ws: seq<ClientWire>, chunks: seq<bytes>, have: nat, limit: nat)
    requires have + |Flatten(chunks)| <= |EncodeAll(ws)| && NoneEmpty(chunks)
    requires chunks != [] ==> have + |chunks[0]| <= limit
    requires forall i, j :: 0 <= i < |ws| && 0 <= j < |chunks| ==> |Encode(ws[i])| + |chunks[j]| <= limit + 1
    ensures Roomy(ws, chunks, have, limit)
    decreases |chunks|
  {
    hide Encode;
    hide EncodeAll;
    hide Unread;
    if chunks != [] {
      var rest := chunks[1..];
      UnreadShort(ws, have + |chunks[0]|);
      var (ws', left) := Unread(ws, have + |chunks[0]|);
      var d := |ws| - |ws'|;
      assert forall j :: 0 <= j < |rest| ==> rest[j] == chunks[j + 1];
      assert forall i :: 0 <= i < |ws'| ==> ws'[i] == ws[i + d];
      if rest != [] && ws' == [] { NoBytes(); }
      BoundedIsRoomy(ws', rest, left, limit);
    }
  }

  lemma NoBytes()
    ensures EncodeAll([]) == []
  {
  }

  /** Reading chunks of a frame stream handles the frames they complete, in order. It overruns the
      buffer only when some read leaves it no room. */
  lemma {:induction false} ReadAllFrames(v: Ws, chunks: seq<bytes>, ws: seq<ClientWire>, limit: nat) returns (done: nat)
    requires v.status.Open? && !v.closing && chunks != [] && NoneEmpty(chunks)
    requires v.input + Flatten(chunks) <= EncodeAll(ws)
    ensures done <= |ws|
    ensures var v' := ReadAll(v, chunks, limit);
            && (v'.status.Oversize? ==> !Roomy(ws, chunks, |v.input|, limit))
            && (v'.status.Open? ==> Roomy(ws, chunks, |v.input|, limit))
            && Same(if v'.status.Oversize? then v'.(status := Open) else v', OnFrames(v, ws[..done], limit))
            && (v'.status.Open? ==>
                  && EncodeAll(ws[done..]) == v'.input + EncodeAll(ws)[|v.input + Flatten(chunks)|..]
                  && (done < |ws| ==> |v'.input| < |Encode(ws[done])|))
    decreases |chunks|
  {
    hide ParseNext;
    hide OnFrames;
    hide Encode;
    hide EncodeAll;
    hide Unread;
    var chunk, rest := chunks[0], chunks[1..];
    var v1 := v.(input := v.input + chunk);
    Assoc(v.input, chunk, Flatten(rest));
    assert v1.input <= EncodeAll(ws);
    done := 0;
    NoFrames(v, limit);
    assert ws[..0] == [];
    if |v1.input| <= limit {
      var k := ParseNextFrames(v1, ws, limit);
      var v2 := ParseNext(v1, limit);
      InputIgnored(v1, v, ws[..k], limit);
      NeverOversize(v, ws[..k], limit);
      done := k;
      if v2.status.Open? {
        UnreadIs(ws, |v1.input|, k, v2.input, EncodeAll(ws)[|v1.input|..]);
      }
      if rest != [] && v2.status.Open? {
        Remaining(EncodeAll(ws), v1.input, Flatten(rest), v2.input, EncodeAll(ws[k..]));
        StillOpen(v1, ws[..k], limit);
        var j := ReadAllFrames(v2, rest, ws[k..], limit);
        done := k + j;
        assert ws[..done] == ws[..k] + ws[k..][..j] && ws[done..] == ws[k..][j..];
        OnFramesConcat(v, ws[..k], ws[k..][..j], limit);
        InputIgnored(v2, OnFrames(v, ws[..k], limit), ws[k..][..j], limit);
      } else if rest == [] {
        assert ReadAll(v2, rest, limit) == v2;
        assert v.input + Flatten(chunks) == v1.input by { assert Flatten(rest) == []; }
      }
    }
  }

  /** Handling a frame never reports an overrun of the buffer. */
  lemma {:induction false} NeverOversize(v: Ws, ws: seq<ClientWire>, limit: nat)
    requires v.status.Open?
    ensures !OnFrames(v, ws, limit).status.Oversize?
    decreases |ws|
  {
    hide Encode;
    if ws != [] {
      ClientFits(ws[0]);
      var v1 := OnFrame(v, FrameOf(ws[0]), limit);
      if v1.status.Open? { NeverOversize(v1, ws[1..], limit); }
    }
  }

  /** If `left` stands for the unread part of `read`, then reading on in `rest` is the same in both. */
  lemma Remaining(all: bytes, read: bytes, next: bytes, left: bytes, rest: bytes)
    requires read + next <= all && rest == left + all[|read|..]
    ensures left + next <= rest
    ensures rest[|left + next|..] == all[|read + next|..]
  {
    assert next == all[|read|..][..|next|];
  }

  lemma StillOpen(v: Ws, ws: seq<ClientWire>, limit: nat)
    ensures OnFrames(v, ws, limit).closing == v.closing
  {
  }

  lemma AtLeastFirst(ws: seq<ClientWire>)
    requires ws != []
    ensures |EncodeAll(ws)| >= |Encode(ws[0])|
  {
  }

  /** Every sequence of client frames, in every chunking, is handled frame by frame in order, as if
      the frames had been handed over directly; when no frame closes the connection nothing is
      left in the buffer. The one other end is a read past the buffer limit, and it comes only when
      a read leaves the buffer no room. */
  lemma FramesInOrder(v: Ws, chunks: seq<bytes>, ws: seq<ClientWire>, limit: nat)
    requires v.status.Open? && !v.closing && chunks != [] && NoneEmpty(chunks)
    requires v.input + Flatten(chunks) == EncodeAll(ws)
    ensures var v' := ReadAll(v, chunks, limit);
            if v'.status.Oversize? then !Roomy(ws, chunks, |v.input|, limit)
            else
              && Same(v', OnFrames(v, ws, limit))
              && (v'.status.Open? ==> v'.input == [] && Roomy(ws, chunks, |v.input|, limit))
  {
    hide OnFrames;
    hide Encode;
    var done := ReadAllFrames(v, chunks, ws, limit);
    var v' := ReadAll(v, chunks, limit);
    assert ws == ws[..done] + ws[done..];
    OnFramesConcat(v, ws[..done], ws[done..], limit);
    if v'.status.Open? {
      if done < |ws| { AtLeastFirst(ws[done..]); }
      NoFrames(OnFrames(v, ws[..done], limit), limit);
      assert done == |ws| ==> ws[done..] == [];
    } else if !v'.status.Oversize? {
      Stopped(OnFrames(v, ws[..done], limit), ws[done..], limit);
    }
  }

  lemma Stopped(v: Ws, ws: seq<ClientWire>, limit: nat)
    requires !v.status.Open?
    ensures OnFrames(v, ws, limit) == v
  {
  }

  // ----- messages

  /** A piece of a fragmented message, or a control frame in between. */
  datatype Piece = Part(p: bytes) | PingIn(p: bytes) | PongIn(p: bytes)

  /** What a peer that follows section 5.4 sends: whole or fragmented messages, and control frames
      before, after and inside them. */
  datatype Item =
    | Whole(opcode: byte, p: bytes)
    | Fragmented(opcode: byte, first: bytes, middle: seq<Piece>, last: bytes)
    | Ping(p: bytes)
    | Pong(p: bytes)

  predicate IsData(opcode: byte) {
    opcode != 0 && opcode != 8 && opcode != 9 && opcode != 10
  }

  /** What matters of a frame here: payload, opcode and final flag. Keys, length forms and reserved
      bits are free. */
  datatype Sketch = Sketch(p: bytes, opcode: byte, fin: bool)

  function SketchOf(w: ClientWire): Sketch {
    Sketch(w.payload, w.opcode, w.fin)
  }

  function PieceSketch(x: Piece): Sketch {
    match x
    case Part(p) => Sketch(p, 0, false)
    case PingIn(p) => Sketch(p, 9, true)
    case PongIn(p) => Sketch(p, 10, true)
  }

  function PieceSketches(xs: seq<Piece>): (r: seq<Sketch>)
    ensures |r| == |xs|
  {
    if xs == [] then [] else [PieceSketch(xs[0])] + PieceSketches(xs[1..])
  }

  function ItemSketches(x: Item): (r: seq<Sketch>)
    ensures r != []
  {
    match x
    case Whole(opcode, p) => [Sketch(p, opcode, true)]
    case Fragmented(opcode, first, middle, last) =>
      [Sketch(first, opcode, false)] + PieceSketches(middle) + [Sketch(last, 0, true)]
    case Ping(p) => [Sketch(p, 9, true)]
    case Pong(p) => [Sketch(p, 10, true)]
  }

  function Sketches(xs: seq<Item>): (r: seq<Sketch>) {
    if xs == [] then [] else ItemSketches(xs[0]) + Sketches(xs[1..])
  }

  function Parts(xs: seq<Piece>): (b: bytes) {
    if xs == [] then [] else (if xs[0].Part? then xs[0].p else []) + Parts(xs[1..])
  }

  /** The payload of the message an item delivers, if any. */
  function Delivered(x: Item): (ms: seq<bytes>) {
    match x
    case Whole(_, p) => [p]
    case Fragmented(_, first, middle, last) => [first + Parts(middle) + last]
    case _ => []
  }

  function Deliveries(xs: seq<Item>): (ms: seq<bytes>) {
    if xs == [] then [] else Delivered(xs[0]) + Deliveries(xs[1..])
  }

  /** The pong that answers a ping. */
  function Answer(p: bytes): (b: bytes) {
    if |p| <= MAX_INT64 - 14 then Encode(ServerWire(10, p)) else []
  }

  function PieceAnswers(xs: seq<Piece>): (b: bytes) {
    if xs == [] then [] else (if xs[0].PingIn? then Answer(xs[0].p) else []) + PieceAnswers(xs[1..])
  }

  function ItemAnswers(x: Item): (b: bytes) {
    match x
    case Ping(p) => Answer(p)
    case Fragmented(_, _, middle, _) => PieceAnswers(middle)
    case _ => []
  }

  function Answers(xs: seq<Item>): (b: bytes) {
    if xs == [] then [] else ItemAnswers(xs[0]) + Answers(xs[1..])
  }

  /** Data opcodes where data is meant, and fragmented messages within the limit. */
  predicate Conforms(xs: seq<Item>, limit: nat) {
    forall i :: 0 <= i < |xs| ==> ItemConforms(xs[i], limit)
  }

  predicate ItemConforms(x: Item, limit: nat) {
    match x
    case Whole(opcode, _) => IsData(opcode)
    case Fragmented(opcode, first, middle, last) => IsData(opcode) && |first + Parts(middle) + last| <= limit
    case _ => true
  }

  predicate Matches(ws: seq<ClientWire>, ss: seq<Sketch>) {
    |ws| == |ss| && forall i :: 0 <= i < |ws| ==> SketchOf(ws[i]) == ss[i]
  }

  /** One frame handled, by its sketch. */
  lemma OneFrame(v: Ws, ws: seq<ClientWire>, limit: nat)
    requires ws != [] && v.status.Open?
    ensures |ws[0].payload| <= MAX_INT64 - 14
    ensures OnFrames(v, ws, limit) == OnFrames(OnFrame(v, FrameOf(ws[0]), limit), ws[1..], limit)
  {
  }

  /** No continuation among the pieces makes the message, `have` so far, exceed the limit. */
  predicate PiecesFit(have: bytes, xs: seq<Piece>, limit: nat)
    decreases |xs|
  {
    xs == [] || (if xs[0].Part? then |have + xs[0].p| <= limit && PiecesFit(have + xs[0].p, xs[1..], limit)
                 else PiecesFit(have, xs[1..], limit))
  }

  lemma {:induction false} PiecesFitIf(have: bytes, xs: seq<Piece>, limit: nat)
    requires |have + Parts(xs)| <= limit
    ensures PiecesFit(have, xs, limit)
    decreases |xs|
  {
    if xs != [] {
      if xs[0].Part? { Assoc(have, xs[0].p, Parts(xs[1..])); }
      PiecesFitIf(if xs[0].Part? then have + xs[0].p else have, xs[1..], limit);
    }
  }

  lemma {:induction false} PiecesHandled(v: Ws, ws: seq<ClientWire>, xs: seq<Piece>, limit: nat)
    requires v.status.Open? && v.cont.Some? && Matches(ws, PieceSketches(xs))
    requires PiecesFit(v.cont.value, xs, limit)
    ensures OnFrames(v, ws, limit) == v.(cont := Some(v.cont.value + Parts(xs)), out := v.out + PieceAnswers(xs))
    decreases |xs|
  {
    hide Encode;
    hide FrameOf;
    if xs == [] {
      NoFrames(v, limit);
      assert v.cont.value + [] == v.cont.value && v.out + [] == v.out;
    } else {
      OneFrame(v, ws, limit);
      assert SketchOf(ws[0]) == PieceSketch(xs[0]);
      FrameFields(ws[0]);
      var v1 := OnFrame(v, FrameOf(ws[0]), limit);
      var part, answer := if xs[0].Part? then xs[0].p else [], if xs[0].PingIn? then Answer(xs[0].p) else [];
      Assoc(v.cont.value, part, Parts(xs[1..]));
      Assoc(v.out, answer, PieceAnswers(xs[1..]));
      assert v.cont.value + [] == v.cont.value && v.out + [] == v.out;
      assert v1 == v.(cont := Some(v.cont.value + part), out := v.out + answer);
      assert forall i :: 0 <= i < |ws[1..]| ==> ws[1..][i] == ws[i + 1] && PieceSketches(xs[1..])[i] == PieceSketches(xs)[i + 1];
      PiecesHandled(v1, ws[1..], xs[1..], limit);
    }
  }

  lemma FrameFields(w: ClientWire)
    ensures FrameOf(w).data == w.payload && FrameOf(w).opcode == w.opcode && FrameOf(w).fin == w.fin
  {
  }

  function After(v: Ws, x: Item): (v': Ws) {
    v.(messages := v.messages + Delivered(x), out := v.out + ItemAnswers(x), cont := None)
  }

  lemma SingleHandled(v: Ws, ws: seq<ClientWire>, x: Item, limit: nat)
    requires v.status.Open? && v.cont.None? && !x.Fragmented? && ItemConforms(x, limit) && Matches(ws, ItemSketches(x))
    ensures OnFrames(v, ws, limit) == After(v, x)
  {
    hide Encode;
    hide FrameOf;
    OneFrame(v, ws, limit);
    assert SketchOf(ws[0]) == ItemSketches(x)[0];
    FrameFields(ws[0]);
    assert ws[1..] == [];
    NoFrames(OnFrame(v, FrameOf(ws[0]), limit), limit);
    assert v.messages + [] == v.messages && v.out + [] == v.out;
  }

  lemma FragmentedHandled(v: Ws, ws: seq<ClientWire>, x: Item, limit: nat)
    requires v.status.Open? && v.cont.None? && x.Fragmented? && ItemConforms(x, limit) && Matches(ws, ItemSketches(x))
    ensures OnFrames(v, ws, limit) == After(v, x)
  {
    hide Encode;
    hide FrameOf;
    var n, ss := |x.middle|, ItemSketches(x);
    var mid, end := ws[1..n + 1], ws[n + 1..];
    assert SketchOf(ws[0]) == ss[0] && SketchOf(ws[n + 1]) == ss[n + 1];
    OneFrame(v, ws, limit);
    FrameFields(ws[0]);
    var v1 := v.(cont := Some(x.first));
    assert ws[1..] == mid + end;
    OnFramesConcat(v1, mid, end, limit);
    assert forall i :: 0 <= i < n ==> mid[i] == ws[i + 1] && ss[i + 1] == PieceSketches(x.middle)[i];
    PiecesFitIf(x.first, x.middle, limit);
    PiecesHandled(v1, mid, x.middle, limit);
    var v2 := v1.(cont := Some(x.first + Parts(x.middle)), out := v.out + PieceAnswers(x.middle));
    LastPiece(v2, end, x.last, limit);
  }

  /** The final fragment delivers the message. */
  lemma LastPiece(v: Ws, ws: seq<ClientWire>, last: bytes, limit: nat)
    requires v.status.Open? && v.cont.Some? && |v.cont.value + last| <= limit
    requires Matches(ws, [Sketch(last, 0, true)])
    ensures OnFrames(v, ws, limit) == v.(messages := v.messages + [v.cont.value + last], cont := None)
  {
    hide Encode;
    hide FrameOf;
    OneFrame(v, ws, limit);
    assert SketchOf(ws[0]) == Sketch(last, 0, true);
    FrameFields(ws[0]);
    assert ws[1..] == [];
    NoFrames(OnFrame(v, FrameOf(ws[0]), limit), limit);
  }

  lemma MatchesSplit(ws: seq<ClientWire>, a: seq<Sketch>, b: seq<Sketch>)
    requires Matches(ws, a + b)
    ensures Matches(ws[..|a|], a) && Matches(ws[|a|..], b) && ws == ws[..|a|] + ws[|a|..]
  {
    forall i | 0 <= i < |a| ensures SketchOf(ws[..|a|][i]) == a[i] { assert (a + b)[i] == a[i]; }
    forall i | 0 <= i < |b| ensures SketchOf(ws[|a|..][i]) == b[i] { assert (a + b)[|a| + i] == b[i]; }
  }

  lemma ItemHandled(v: Ws, ws: seq<ClientWire>, x: Item, limit: nat)
    requires v.status.Open? && v.cont.None? && ItemConforms(x, limit) && Matches(ws, ItemSketches(x))
    ensures OnFrames(v, ws, limit) == After(v, x)
  {
    if x.Fragmented? { FragmentedHandled(v, ws, x, limit); } else { SingleHandled(v, ws, x, limit); }
  }

  lemma {:induction false} ItemsHandled(v: Ws, ws: seq<ClientWire>, xs: seq<Item>, limit: nat)
    requires v.status.Open? && v.cont.None? && Conforms(xs, limit) && Matches(ws, Sketches(xs))
    ensures OnFrames(v, ws, limit) == v.(messages := v.messages + Deliveries(xs), out := v.out + Answers(xs))
    decreases |xs|
  {
    hide OnFrames;
    hide ItemSketches;
    hide Matches;
    hide ItemConforms;
    hide Delivered;
    hide ItemAnswers;
    if xs == [] {
      EmptyMatch(ws);
      NoFrames(v, limit);
      assert v.messages + [] == v.messages && v.out + [] == v.out;
    } else {
      var x, n := xs[0], |ItemSketches(xs[0])|;
      MatchesSplit(ws, ItemSketches(x), Sketches(xs[1..]));
      OnFramesConcat(v, ws[..n], ws[n..], limit);
      ItemHandled(v, ws[..n], x, limit);
      ItemsHandled(After(v, x), ws[n..], xs[1..], limit);
      Assoc(v.messages, Delivered(x), Deliveries(xs[1..]));
      Assoc(v.out, ItemAnswers(x), Answers(xs[1..]));
    }
  }

  lemma EmptyMatch(ws: seq<ClientWire>)
    requires Matches(ws, [])
    ensures ws == []
  {
  }

  /** Whatever a conforming peer sends, in whatever chunks: each message is delivered once, whole
      and in order, fragments joined and control frames between them left out, and each ping is
      answered with its own payload, if and only if every read finds room in the buffer. */
  lemma MessagesDelivered(v: Ws, chunks: seq<bytes>, ws: seq<ClientWire>, xs: seq<Item>, limit: nat)
    requires v.status.Open? && !v.closing && v.cont.None? && chunks != [] && NoneEmpty(chunks)
    requires v.input + Flatten(chunks) == EncodeAll(ws) && Matches(ws, Sketches(xs)) && Conforms(xs, limit)
    ensures var v' := ReadAll(v, chunks, limit);
            if Roomy(ws, chunks, |v.input|, limit)
            then v' == v.(input := [], messages := v.messages + Deliveries(xs), out := v.out + Answers(xs))
            else v'.status.Oversize?
  {
    FramesInOrder(v, chunks, ws, limit);
    ItemsHandled(v, ws, xs, limit);
  }
}
