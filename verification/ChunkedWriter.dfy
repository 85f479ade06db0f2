/** The chunked response writer of http.go against section 7.1 of RFC 9112. */
module ChunkedWriter {
  import opened Bytes

  const CHUNKED_HEADERS: bytes :=
    Ascii("\r\nConnection: Keep-Alive") + Ascii("\r\nTransfer-Encoding: chunked") + CRLF + CRLF
  const LAST_CHUNK: bytes := ['0' as int, CR, LF, CR, LF]
  const SEMICOLON: byte := ';' as int
  const TAB: byte := '\t' as int

  /** A response in progress: the mode, the coalescing buffer, the connection's output and closed
      flag, and how often the loop was asked to flush. */
  datatype Response = Response(chunked: bool, chkbuf: bytes, out: bytes, closed: bool, flushes: nat)

  /** `strconv.AppendInt(nil, n, 16)`. */
  function Hex(n: nat): (s: bytes)
    ensures |s| > 0 && forall i :: 0 <= i < |s| ==> HexDigit(s[i]).Some? && s[i] != CR
  {
    if n < 16 then [HexChar(n)] else Hex(n / 16) + [HexChar(n % 16)]
  }

  function HexChar(d: nat): (b: byte)
    requires d < 16
    ensures HexDigit(b) == Some(d) && b != CR
  {
    if d < 10 then 48 + d else 87 + d
  }

  /** One chunk on the wire. */
  function Chunk(p: bytes): (b: bytes) {
    Hex(|p|) + CRLF + p + CRLF
  }

  function Chunks(ps: seq<bytes>): (b: bytes) {
    if ps == [] then [] else Chunk(ps[0]) + Chunks(ps[1..])
  }

  // ----- the writer's steps

  /** `Conn.Flush`. */
  function Flushed(r: Response): Response {
    if r.closed then r else r.(flushes := r.flushes + 1)
  }

  /** `writeChunked`. On a closed connection the payload alone is dropped, as `Conn.Write` does. */
  function Sent(r: Response, p: bytes): (r': Response) {
    var r1 := r.(out := r.out + Hex(|p|) + CRLF + (if r.closed then [] else p) + CRLF);
    if |r1.out| >= 16 * 1024 then Flushed(r1) else r1
  }

  function Started(r: Response, head: bytes): (r': Response) {
    r.(out := r.out + head + CHUNKED_HEADERS, chunked := true)
  }

  function Written(r: Response, p: bytes): (r': Response) {
    if p == [] then r
    else if |p| <= 4 || |r.chkbuf| > 0 then
      var r1 := r.(chkbuf := r.chkbuf + p);
      if |r1.chkbuf| >= 64 then Sent(r1, r1.chkbuf).(chkbuf := []) else r1
    else Sent(r, p)
  }

  function Finished(r: Response): (r': Response) {
    var r1 := if |r.chkbuf| > 0 then Sent(r, r.chkbuf).(chkbuf := []) else r;
    Flushed(r1.(out := r1.out + LAST_CHUNK, chunked := false))
  }

  function WrittenAll(r: Response, ps: seq<bytes>): (r': Response)
    decreases |ps|
  {
    if ps == [] then r else WrittenAll(Written(r, ps[0]), ps[1..])
  }

  class HTTP {
    var chunked: bool
    var chkbuf: bytes
    var out: bytes
    var closed: bool
    var flushes: nat

    function Value(): Response
      reads this
    {
      Response(chunked, chkbuf, out, closed, flushes)
    }

    constructor ()
      ensures Value() == Response(false, [], [], false, 0)
    {
      chunked, chkbuf, out, closed, flushes := false, [], [], false, 0;
    }

    method Flush()
      modifies this`flushes
      ensures Value() == Flushed(old(Value()))
    {
      if closed { return; }
      flushes := flushes + 1;
    }

    /** `head` stands for the status line and headers `resp0` writes. */
    method StartChunked(head: bytes)
      modifies this
      ensures Value() == Started(old(Value()), head)
    {
      out := out + head;
      out := out + CHUNKED_HEADERS;
      chunked := true;
    }

    /** `Write`, and `WriteString` of the same bytes. Outside chunked mode it panics. */
    method Write(p: bytes) returns (n: nat)
      requires chunked
      modifies this
      ensures Value() == Written(old(Value()), p) && n == |p|
    {
      if |p| == 0 { return 0; }
      if |p| <= 4 || |chkbuf| > 0 {
        chkbuf := chkbuf + p;
        if |chkbuf| >= 64 {
          WriteChunked(chkbuf);
          chkbuf := [];
        }
      } else {
        WriteChunked(p);
      }
      n := |p|;
    }

    method WriteChunked(p: bytes)
      modifies this
      ensures Value() == Sent(old(Value()), p)
    {
      out := out + Hex(|p|);
      out := out + CRLF;
      if !closed { out := out + p; } else { assert out + [] == out; }
      out := out + CRLF;
      if |out| >= 16 * 1024 { Flush(); }
    }

    method FinishChunked()
      requires chunked
      modifies this
      ensures Value() == Finished(old(Value()))
    {
      if |chkbuf| > 0 {
        WriteChunked(chkbuf);
        chkbuf := [];
      }
      out := out + LAST_CHUNK;
      chunked := false;
      Flush();
    }
  }

  // ----- the standard's decoder

  /** The number of hexadecimal digits a line starts with, and their value. */
  function HexRun(s: bytes): (r: (nat, nat))
    ensures r.0 <= |s|
  {
    if s == [] then (0, 0)
    else
      var (n, v) := HexRun(s[..|s| - 1]);
      if n == |s| - 1 && HexDigit(s[|s| - 1]).Some? then (n + 1, v * 16 + HexDigit(s[|s| - 1]).value) else (n, v)
  }

  /** `chunk-size [ chunk-ext ]`: the size a chunk's first line announces. */
  function SizeLine(line: bytes): (r: Option<nat>) {
    var (n, v) := HexRun(line);
    if n == 0 then None
    else if n == |line| || line[n] == SEMICOLON || line[n] == SPACE || line[n] == TAB then Some(v)
    else None
  }

  /** What follows the trailer section: trailer lines are skipped up to the empty one. */
  function AfterTrailer(s: bytes): (r: Option<bytes>)
    decreases |s|
  {
    var e := FindCrLf(s, 0);
    if e == -1 then None else if e == 0 then Some(s[2..]) else AfterTrailer(s[e + 2..])
  }

  /** The chunks of a chunked body before the last one, and what follows the body. */
  type Decoded = Option<(seq<bytes>, bytes)>

  function Decode(s: bytes): (r: Decoded)
    decreases |s|
  {
    var e := FindCrLf(s, 0);
    if e == -1 then None
    else
      match SizeLine(s[..e])
      case None => None
      case Some(size) =>
        if size == 0 then
          match AfterTrailer(s[e + 2..])
          case None => None
          case Some(rest) => Some(([], rest))
        else if !CrLfAt(s, e + 2 + size) then None
        else Prepend(s[e + 2..e + 2 + size], Decode(s[e + 2 + size + 2..]))
  }

  function Prepend(p: bytes, r: Decoded): Decoded {
    match r
    case None => None
    case Some((ps, rest)) => Some(([p] + ps, rest))
  }

  lemma {:induction false} HexRead(n: nat)
    ensures HexRun(Hex(n)) == (|Hex(n)|, n)
  {
    var s := Hex(n);
    if n < 16 {
      assert s[..|s| - 1] == [];
    } else {
      HexRead(n / 16);
      assert s[..|s| - 1] == Hex(n / 16);
    }
  }

  lemma HexLine(n: nat, rest: bytes)
    ensures var s := Hex(n) + CRLF + rest;
            FindCrLf(s, 0) == |Hex(n)| && SizeLine(s[..|Hex(n)|]) == Some(n)
  {
    FindCrLfAfter(Hex(n), rest);
    HexRead(n);
    assert (Hex(n) + CRLF + rest)[..|Hex(n)|] == Hex(n);
  }

  lemma Middle<T>(a: seq<T>, b: seq<T>, c: seq<T>)
    ensures (a + b + c)[|a|..|a| + |b|] == b && (a + b + c)[|a| + |b|..] == c
  {
  }

  lemma ChunkShape(p: bytes, rest: bytes)
    ensures var s, h := Chunk(p) + rest, |Hex(|p|)|;
            && s == Hex(|p|) + CRLF + (p + CRLF + rest)
            && s[h + 2..h + 2 + |p|] == p && CrLfAt(s, h + 2 + |p|) && s[h + 2 + |p| + 2..] == rest
  {
    hide Hex;
    var line, s, k := Hex(|p|) + CRLF, Chunk(p) + rest, |Hex(|p|)| + 2 + |p|;
    Assoc(line + p, CRLF, rest);
    Middle(line, p, CRLF + rest);
    Assoc(line, p, CRLF + rest);
    Assoc(p, CRLF, rest);
    assert s[k..] == CRLF + rest;
    assert s[k] == s[k..][0] && s[k + 1] == s[k..][1];
    assert s[k + 2..] == s[k..][2..] == rest;
  }

  lemma DecodeOne(p: bytes, rest: bytes)
    requires p != []
    ensures Decode(Chunk(p) + rest) == Prepend(p, Decode(rest))
  {
    hide Hex;
    hide SizeLine;
    hide Chunk;
    hide FindCrLf;
    hide Decode;
    var s, h := Chunk(p) + rest, |Hex(|p|)|;
    ChunkShape(p, rest);
    HexLine(|p|, p + CRLF + rest);
    DecodeStep(s, h, |p|);
  }

  lemma DecodeStep(s: bytes, e: nat, size: nat)
    requires FindCrLf(s, 0) == e && SizeLine(s[..e]) == Some(size) && size > 0 && CrLfAt(s, e + 2 + size)
    ensures Decode(s) == Prepend(s[e + 2..e + 2 + size], Decode(s[e + 2 + size + 2..]))
  {
    hide SizeLine;
  }

  lemma DecodeLast(rest: bytes)
    ensures Decode(LAST_CHUNK + rest) == Some(([], rest))
  {
    var s := LAST_CHUNK + rest;
    assert Hex(0) == [48];
    assert s == Hex(0) + CRLF + (CRLF + rest);
    HexLine(0, CRLF + rest);
    assert s[3..] == CRLF + rest;
    assert CrLfAt(s[3..], 0) && s[3..][2..] == rest;
  }

  lemma {:induction false} DecodeChunks(ps: seq<bytes>, rest: bytes)
    requires NoneEmpty(ps)
    ensures Decode(Chunks(ps) + (LAST_CHUNK + rest)) == Some((ps, rest))
    decreases |ps|
  {
    hide Decode;
    if ps == [] {
      assert Chunks(ps) + (LAST_CHUNK + rest) == LAST_CHUNK + rest;
      DecodeLast(rest);
    } else {
      assert ps[0] != [];
      forall i | 0 <= i < |ps[1..]| ensures ps[1..][i] != [] { assert ps[1..][i] == ps[i + 1]; }
      DecodeChunks(ps[1..], rest);
      Assoc(Chunk(ps[0]), Chunks(ps[1..]), LAST_CHUNK + rest);
      DecodeOne(ps[0], Chunks(ps[1..]) + (LAST_CHUNK + rest));
      assert ps == [ps[0]] + ps[1..];
    }
  }

  // ----- what the writer emits

  /** Since output `before`, whole nonempty chunks `cs` have gone out; with the buffer they make up
      everything written, `all`. */
  ghost predicate Emitted(r: Response, before: bytes, cs: seq<bytes>, all: bytes) {
    && !r.closed && NoneEmpty(cs) && |r.chkbuf| < 64
    && r.out == before + Chunks(cs)
    && Flatten(cs) + r.chkbuf == all
  }

  lemma {:induction false} ChunksSnoc(ps: seq<bytes>, p: bytes)
    ensures Chunks(ps + [p]) == Chunks(ps) + Chunk(p)
    ensures Flatten(ps + [p]) == Flatten(ps) + p
    decreases |ps|
  {
    hide Chunk;
    if ps == [] {
      assert [p][1..] == [] && ps + [p] == [p];
      assert Chunks([p]) == Chunk(p) + Chunks([]) && Flatten([p]) == p + Flatten([]);
      NoChunks();
    } else {
      assert (ps + [p])[1..] == ps[1..] + [p];
      ChunksSnoc(ps[1..], p);
      Assoc(Chunk(ps[0]), Chunks(ps[1..]), Chunk(p));
      Assoc(ps[0], Flatten(ps[1..]), p);
    }
  }

  lemma SentEmits(r: Response, before: bytes, cs: seq<bytes>, p: bytes)
    requires !r.closed && NoneEmpty(cs) && r.out == before + Chunks(cs) && p != []
    ensures Sent(r, p).out == before + Chunks(cs + [p]) && NoneEmpty(cs + [p]) && Flatten(cs + [p]) == Flatten(cs) + p
    ensures Sent(r, p).closed == r.closed && Sent(r, p).chkbuf == r.chkbuf && Sent(r, p).chunked == r.chunked
  {
    hide Chunks;
    ChunksSnoc(cs, p);
    Assoc(before, Chunks(cs), Chunk(p));
    assert r.out + Hex(|p|) + CRLF + p + CRLF == r.out + Chunk(p);
  }

  lemma WrittenEmits(r: Response, before: bytes, cs: seq<bytes>, all: bytes, p: bytes) returns (cs': seq<bytes>)
    requires Emitted(r, before, cs, all)
    ensures Emitted(Written(r, p), before, cs', all + p) && Written(r, p).chunked == r.chunked
  {
    hide Chunks;
    hide Flatten;
    hide Sent;
    cs' := cs;
    Assoc(Flatten(cs), r.chkbuf, p);
    if p == [] {
      assert all + p == all;
    } else if |p| <= 4 || |r.chkbuf| > 0 {
      var buf := r.chkbuf + p;
      if |buf| >= 64 {
        SentEmits(r.(chkbuf := buf), before, cs, buf);
        cs' := cs + [buf];
        assert Flatten(cs') + [] == Flatten(cs');
      }
    } else {
      SentEmits(r, before, cs, p);
      cs' := cs + [p];
      assert r.chkbuf == [] && Flatten(cs) + [] == Flatten(cs) && Flatten(cs') + [] == Flatten(cs');
    }
  }

  /** Between calls: what has gone out decodes, with the buffer, to everything written so far, and
      the buffer is shorter than 64 bytes. */
  lemma {:induction false} WritesEmit(r: Response, before: bytes, cs: seq<bytes>, all: bytes, ps: seq<bytes>) returns (cs': seq<bytes>)
    requires Emitted(r, before, cs, all)
    ensures Emitted(WrittenAll(r, ps), before, cs', all + Flatten(ps)) && WrittenAll(r, ps).chunked == r.chunked
    decreases |ps|
  {
    hide Emitted;
    hide Written;
    cs' := cs;
    if ps == [] {
      assert all + [] == all;
    } else {
      cs' := WrittenEmits(r, before, cs, all, ps[0]);
      cs' := WritesEmit(Written(r, ps[0]), before, cs', all + ps[0], ps[1..]);
      Assoc(all, ps[0], Flatten(ps[1..]));
    }
  }

  lemma FinishEmits(r: Response, before: bytes, cs: seq<bytes>, all: bytes) returns (cs': seq<bytes>)
    requires Emitted(r, before, cs, all)
    ensures NoneEmpty(cs') && Flatten(cs') == all
    ensures Finished(r).out == before + Chunks(cs') + LAST_CHUNK && Finished(r).chkbuf == []
  {
    hide Chunks;
    hide Flatten;
    hide Sent;
    cs' := cs;
    if r.chkbuf != [] {
      SentEmits(r, before, cs, r.chkbuf);
      cs' := cs + [r.chkbuf];
    } else {
      assert Flatten(cs) + [] == Flatten(cs);
    }
  }

  /** For every sequence of writes between start and finish on an open connection, the standard's
      decoder reads the body as nonempty chunks whose concatenation is everything written, in
      order, with one last chunk, and finds what follows the response where it begins. */
  lemma BodyDecodes(r: Response, head: bytes, ps: seq<bytes>, after: bytes) returns (cs: seq<bytes>)
    requires !r.closed && r.chkbuf == []
    ensures var started := Started(r, head);
            var done := Finished(WrittenAll(started, ps));
            && started.out <= done.out && done.chkbuf == [] && !done.chunked
            && Decode(done.out[|started.out|..] + after) == Some((cs, after))
            && Flatten(cs) == Flatten(ps) && NoneEmpty(cs)
  {
    hide Decode;
    hide Chunks;
    hide Flatten;
    hide Written;
    hide WrittenAll;
    var started := Started(r, head);
    NoChunks();
    assert started.out + [] == started.out && Flatten([]) + [] == [];
    cs := WritesEmit(started, started.out, [], [], ps);
    assert [] + Flatten(ps) == Flatten(ps);
    var written := WrittenAll(started, ps);
    cs := FinishEmits(written, started.out, cs, Flatten(ps));
    var done := Finished(written);
    Assoc(started.out, Chunks(cs), LAST_CHUNK);
    assert done.out[|started.out|..] == Chunks(cs) + LAST_CHUNK;
    Assoc(Chunks(cs), LAST_CHUNK, after);
    DecodeChunks(cs, after);
  }

  lemma NoChunks()
    ensures Chunks([]) == [] && Flatten([]) == []
  {
  }

  // ----- when output goes out and is flushed

  /** A write goes out at once exactly when nothing is buffered and it is longer than 4 bytes, or
      when with it at least 64 bytes are there; else it is buffered. Either way in order. */
  predicate GoesOut(r: Response, p: bytes) {
    p != [] && ((r.chkbuf == [] && |p| > 4) || |r.chkbuf + p| >= 64)
  }

  lemma WriteGoesOutIff(r: Response, p: bytes)
    requires !r.closed
    ensures var r', all := Written(r, p), r.chkbuf + p;
            if GoesOut(r, p) then r'.out == r.out + Chunk(all) && r'.chkbuf == []
            else r'.out == r.out && r'.chkbuf == all && r'.flushes == r.flushes
  {
    hide Sent;
    var all := r.chkbuf + p;
    assert r.chkbuf == [] ==> all == p;
    assert p == [] ==> all == r.chkbuf;
    SentIs(r, p);
    SentIs(r.(chkbuf := all), all);
  }

  lemma SentIs(r: Response, p: bytes)
    requires !r.closed
    ensures Sent(r, p).out == r.out + Chunk(p) && Sent(r, p).chkbuf == r.chkbuf
  {
    hide Hex;
    assert r.out + Hex(|p|) + CRLF + p + CRLF == r.out + Chunk(p);
  }

  /** Finishing asks the loop to flush, so that the last chunk does not wait for more output; on a
      closed connection nothing is asked. */
  lemma FinishFlushes(r: Response)
    ensures if r.closed then Finished(r).flushes == r.flushes else Finished(r).flushes > r.flushes
  {
  }

  /** Whatever the writes, a chunk that brings the pending output to 16 KiB or more asks for a flush,
      and no other does. */
  lemma SentFlushesIff(r: Response, p: bytes)
    ensures Sent(r, p).flushes == r.flushes + if !r.closed && |Sent(r, p).out| >= 16 * 1024 then 1 else 0
  {
  }

  /** The body starts after a blank line, in chunked mode. */
  lemma StartedAfterBlankLine(r: Response, head: bytes)
    ensures var s := Started(r, head);
            s.chunked && r.out + head <= s.out && CrLfAt(s.out, |s.out| - 4) && CrLfAt(s.out, |s.out| - 2)
  {
  }
}
