/** The resumable request parser: state.go, with `readByteAndNumberCrLf` of util.go. */
module ReadState {
  import opened Bytes
  import opened HttpHeader

  const STAR: byte := '*' as int
  const DOLLAR: byte := '$' as int

  /** An argument's position in the request: the `[start, length]` pairs of Redis.ai. */
  datatype Arg = Arg(start: nat, len: nat)

  datatype Redis = Redis(read: nat, nargs: nat, ai: seq<Arg>, data: bytes)

  datatype State = State(stage: nat, redis: Option<Redis>, http: Option<Http>)

  const START := State(0, None, None)

  datatype Error = BadNumber | TooManyArguments | BadBulkHead | BadBulkLength | BadBulkTail | BadHttpHead | BadStage

  /** Crash is a Go run-time panic: an index below zero, after a negative bulk length. */
  datatype Verdict = Done | WaitMore | Fail(error: Error) | Crash

  datatype Outcome = Outcome(st: State, buf: bytes, verdict: Verdict)

  /** `readByteAndNumberCrLf`: too few bytes, another first byte, no number, or a number and the
      bytes it takes. */
  datatype Head = Short | Other | Bad | Number(v: int, w: nat)

  function ReadHead(head: byte, s: bytes): (r: Head)
    requires head != CR
    ensures r.Number? ==> 4 <= r.w <= |s|
    ensures r.Number? ==> -MAX_INT64 - 1 <= r.v <= MAX_INT64
  {
    if |s| < 4 then Short
    else if s[0] != head then Other
    else
      var idx := FindCrLf(s, 0);
      if idx == -1 then Short
      else
        var n := ParseInt(s[1..idx]);
        if n.Value? then Number(n.v, idx + 2) else Bad
  }

  function U16(x: int): (r: nat)
    ensures r < 0x1_0000 && (0 <= x < 0x1_0000 ==> r == x)
  {
    x % 0x1_0000
  }

  /** Stage 1: the remaining bulk strings, with every truncation of the 32-bit fields. */
  function Bulks(r: Redis, s: bytes): (res: (Redis, Verdict))
    requires r.read <= |s|
    ensures res.0.read <= |s| && res.0.nargs == r.nargs && |res.0.ai| >= |r.ai|
    decreases r.nargs - |r.ai|
  {
    if |r.ai| >= r.nargs then (r, Done)
    else
      match ReadHead(DOLLAR, s[r.read..])
      case Short => (r, WaitMore)
      case Bad => (r, Fail(BadNumber))
      case Other => (r, Fail(BadBulkHead))
      case Number(len, w) =>
        var x := r.read + w + len;
        if len > 0xffff_ffff then (r, Fail(BadBulkLength))
        else if |s| < x + 2 then (r, WaitMore)
        else if x < 0 then (r, Crash)
        else if !CrLfAt(s, x) then (r, Fail(BadBulkTail))
        else Bulks(AddArg(r, w, len), s)
  }

  function AddArg(r: Redis, w: nat, len: int): (r': Redis)
    requires r.read + w + len >= 0
    ensures r'.nargs == r.nargs && |r'.ai| == |r.ai| + 1 && r'.read <= r.read + w + len + 2
  {
    r.(ai := r.ai + [Arg(U32(r.read + w), U32(len))], read := U32(r.read + w + len + 2))
  }

  /** What every call of `process` may rely on. */
  predicate Ready(st: State, s: bytes) {
    && (st.stage == 1 ==> st.redis.Some? && st.redis.value.read <= |s|)
    && (st.stage == 6 || st.stage == 7 ==> st.http.Some?)
  }

  function Arguments(st: State, s: bytes): (o: Outcome)
    requires st.stage == 1 && Ready(st, s)
    ensures Ready(o.st, o.buf)
  {
    var (r, v) := Bulks(st.redis.value, s);
    if v.Done? then Outcome(st.(stage := 999, redis := Some(r.(data := s[..r.read]))), s, Done)
    else Outcome(st.(redis := Some(r)), s, v)
  }

  function Body(st: State, s: bytes): (o: Outcome)
    requires st.stage == 7 && Ready(st, s)
    ensures Ready(o.st, o.buf)
  {
    var sz := U32(st.http.value.hdrLen + st.http.value.bodyLen);
    if |s| < sz then Outcome(st, s, WaitMore)
    else Outcome(st.(stage := 999, http := Some(st.http.value.(data := s[..sz]))), s, Done)
  }

  function HttpLines(lib: Library, st: State, s: bytes): (o: Outcome)
    requires st.stage == 6 && Ready(st, s)
    ensures Ready(o.st, o.buf)
  {
    var idx := FindBlankLine(s, 0);
    if idx == -1 then Outcome(st, s, WaitMore)
    else
      var head := HttpHeader.Head(lib, s[..idx + 4]);
      var st' := st.(http := Some(head.http.(data := head.text)));
      var s' := head.text + s[idx + 4..];
      if !head.ok then Outcome(st', s', Fail(BadHttpHead))
      else if head.http.bodyLen == 0 then Outcome(st'.(stage := 8), s', Done)
      else Body(st'.(stage := 7), s')
  }

  /** One call of `process` on the whole input buffer. */
  function Processed(lib: Library, st: State, s: bytes): (o: Outcome)
    requires Ready(st, s)
    ensures Ready(o.st, o.buf)
  {
    match st.stage
    case 0 =>
      (match ReadHead(STAR, s)
       case Short => Outcome(st, s, WaitMore)
       case Bad => Outcome(st, s, Fail(BadNumber))
       case Other => HttpLines(lib, st.(stage := 6, http := Some(EMPTY)), s)
       case Number(n, w) =>
         if n > 65535 then Outcome(st, s, Fail(TooManyArguments))
         else Arguments(st.(stage := 1, redis := Some(Redis(U32(w), U16(n), [], []))), s))
    case 1 => Arguments(st, s)
    case 6 => HttpLines(lib, st, s)
    case 7 => Body(st, s)
    case 999 => Outcome(st, s, Done)
    case _ => Outcome(st, s, Fail(BadStage))
  }

  // ----- more bytes

  lemma HeadExtend(head: byte, s: bytes, t: bytes)
    requires head != CR && !ReadHead(head, s).Short?
    ensures ReadHead(head, s + t) == ReadHead(head, s)
  {
    if s[0] == head {
      FindCrLfExtend(s, t, 0);
      var idx := FindCrLf(s, 0);
      assert (s + t)[1..idx] == s[1..idx];
    }
  }

  /** A waiting argument loop picks up where it stopped; a settled one ignores further bytes. */
  lemma {:induction false} BulksResume(r: Redis, s: bytes, t: bytes)
    requires r.read <= |s|
    ensures var (r', v) := Bulks(r, s);
            Bulks(r, s + t) == if v.WaitMore? then Bulks(r', s + t) else (r', v)
    decreases r.nargs - |r.ai|
  {
    hide U32;
    hide ReadHead;
    if |r.ai| < r.nargs {
      var h := ReadHead(DOLLAR, s[r.read..]);
      assert (s + t)[r.read..] == s[r.read..] + t;
      if !h.Short? { HeadExtend(DOLLAR, s[r.read..], t); }
      if h.Number? && h.v <= 0xffff_ffff {
        var x := r.read + h.w + h.v;
        if |s| >= x + 2 && x >= 0 {
          CrLfAtExtend(s, t, x);
          if CrLfAt(s, x) { BulksResume(AddArg(r, h.w, h.v), s, t); }
        }
      }
    }
  }

  lemma ArgumentsResume(st: State, s: bytes, t: bytes)
    requires st.stage == 1 && Ready(st, s)
    ensures var o := Arguments(st, s);
            Arguments(st, s + t) == if o.verdict.WaitMore? then Arguments(o.st, o.buf + t) else o.(buf := o.buf + t)
  {
    BulksResume(st.redis.value, s, t);
    var r := Bulks(st.redis.value, s).0;
    assert (s + t)[..r.read] == s[..r.read];
  }

  lemma BodyResume(st: State, s: bytes, t: bytes)
    requires st.stage == 7 && Ready(st, s)
    ensures var o := Body(st, s);
            Body(st, s + t) == if o.verdict.WaitMore? then Body(o.st, o.buf + t) else o.(buf := o.buf + t)
  {
    var sz := U32(st.http.value.hdrLen + st.http.value.bodyLen);
    if |s| >= sz { assert (s + t)[..sz] == s[..sz]; }
  }

  lemma HttpLinesResume(lib: Library, st: State, s: bytes, t: bytes)
    requires st.stage == 6 && Ready(st, s)
    ensures var o := HttpLines(lib, st, s);
            HttpLines(lib, st, s + t) == if o.verdict.WaitMore? then Processed(lib, o.st, o.buf + t) else o.(buf := o.buf + t)
  {
    hide HttpHeader.Head;
    hide FindBlankLine;
    hide ReadHead;
    hide Bulks;
    var idx := FindBlankLine(s, 0);
    if idx != -1 {
      FindBlankLineExtend(s, t, 0);
      assert (s + t)[..idx + 4] == s[..idx + 4];
      var head := HttpHeader.Head(lib, s[..idx + 4]);
      assert (s + t)[idx + 4..] == s[idx + 4..] + t;
      Assoc(head.text, s[idx + 4..], t);
      BodyResume(st.(stage := 7, http := Some(head.http.(data := head.text))), head.text + s[idx + 4..], t);
    }
  }

  /** Further bytes: a call that asked for more is continued by the next one exactly as if all the
      bytes had come at once; a settled call is not changed by bytes that follow. */
  lemma Resume(lib: Library, st: State, s: bytes, t: bytes)
    requires Ready(st, s)
    ensures var o := Processed(lib, st, s);
            Processed(lib, st, s + t) == if o.verdict.WaitMore? then Processed(lib, o.st, o.buf + t) else o.(buf := o.buf + t)
  {
    match st.stage
    case 0 =>
      var h := ReadHead(STAR, s);
      if !h.Short? { HeadExtend(STAR, s, t); }
      if h.Other? {
        HttpLinesResume(lib, st.(stage := 6, http := Some(EMPTY)), s, t);
      } else if h.Number? && h.v <= 65535 {
        ArgumentsResume(st.(stage := 1, redis := Some(Redis(U32(h.w), U16(h.v), [], []))), s, t);
      }
    case 1 => ArgumentsResume(st, s, t);
    case 6 => HttpLinesResume(lib, st, s, t);
    case 7 => BodyResume(st, s, t);
    case _ =>
  }

  // ----- every chunking

  /** Append a chunk, process, and go on while the parser waits (server.go's read loop). */
  datatype Fed = Fed(outcome: Outcome, unread: seq<bytes>)

  function Feed(lib: Library, st: State, buf: bytes, chunks: seq<bytes>): (f: Fed)
    requires Ready(st, buf)
    decreases |chunks|
  {
    if chunks == [] then Fed(Outcome(st, buf, WaitMore), [])
    else
      var o := Processed(lib, st, buf + chunks[0]);
      if o.verdict.WaitMore? then Feed(lib, o.st, o.buf, chunks[1..]) else Fed(o, chunks[1..])
  }

  lemma {:induction false} FeedFrom(lib: Library, st: State, buf: bytes, chunks: seq<bytes>)
    requires Ready(st, buf) && Processed(lib, st, buf) == Outcome(st, buf, WaitMore)
    ensures var f := Feed(lib, st, buf, chunks);
            Processed(lib, st, buf + Flatten(chunks)) == f.outcome.(buf := f.outcome.buf + Flatten(f.unread))
    decreases |chunks|
  {
    hide Processed;
    if chunks == [] {
      assert buf + Flatten(chunks) == buf;
    } else {
      var s, t := buf + chunks[0], Flatten(chunks[1..]);
      var o := Processed(lib, st, s);
      Assoc(buf, chunks[0], t);
      Resume(lib, st, s, t);
      if o.verdict.WaitMore? {
        Resume(lib, st, s, []);
        assert s + [] == s && o.buf + [] == o.buf;
        FeedFrom(lib, o.st, o.buf, chunks[1..]);
      }
    }
  }

  /** However a byte stream is cut, feeding it chunk by chunk ends with the request (or error, or
      wait) that one call on the whole stream gives: same state, same argument ranges and data,
      same rewritten bytes. Chunks left unread cannot change it. */
  lemma ChunkingIsInvisible(lib: Library, chunks: seq<bytes>)
    ensures var f := Feed(lib, START, [], chunks);
            Processed(lib, START, Flatten(chunks)) == f.outcome.(buf := f.outcome.buf + Flatten(f.unread))
  {
    assert [] + Flatten(chunks) == Flatten(chunks);
    FeedFrom(lib, START, [], chunks);
  }

  /** A request, once complete, is the same whatever follows it on the wire. */
  lemma SettledForGood(lib: Library, s: bytes, more: bytes)
    requires !Processed(lib, START, s).verdict.WaitMore?
    ensures Processed(lib, START, s + more).st == Processed(lib, START, s).st
    ensures Processed(lib, START, s + more).verdict == Processed(lib, START, s).verdict
  {
    Resume(lib, START, s, more);
  }

  // ----- the parser object

  class ServerReadState {
    var stage: nat
    var redis: Option<Redis>
    var http: Option<Http>

    function Value(): State
      reads this
    {
      State(stage, redis, http)
    }

    constructor ()
      ensures Value() == START
    {
      stage, redis, http := 0, None, None;
    }

    /** `process` on the input buffer `a`, which the HTTP head parser rewrites in place. */
    method Process(lib: Library, a: array<byte>) returns (v: Verdict)
      requires Ready(Value(), a[..])
      modifies this, a
      ensures Outcome(Value(), a[..], v) == Processed(lib, old(Value()), old(a[..]))
    {
      if stage == 0 {
        var h := ReadHead(STAR, a[..]);
        match h {
          case Short => return WaitMore;
          case Bad => return Fail(BadNumber);
          case Other =>
            http := Some(EMPTY);
            stage := 6;
          case Number(n, w) =>
            if n > 65535 { return Fail(TooManyArguments); }
            redis := Some(Redis(U32(w), U16(n), [], []));
            stage := 1;
        }
      }
      if stage == 1 {
        v := ReadBulks(a);
      } else if stage == 6 {
        v := ReadHttp(lib, a);
      } else if stage == 7 {
        v := ReadBody(a);
      } else if stage == 999 {
        v := Done;
      } else {
        v := Fail(BadStage);
      }
    }

    method ReadBulks(a: array<byte>) returns (v: Verdict)
      requires stage == 1 && Ready(Value(), a[..])
      modifies this
      ensures Outcome(Value(), a[..], v) == Arguments(old(Value()), a[..])
    {
      hide U32;
      hide ReadHead;
      var r := redis.value;
      ghost var goal := Bulks(r, a[..]);
      while |r.ai| < r.nargs
        invariant r.read <= a.Length && Bulks(r, a[..]) == goal
        invariant Value() == old(Value()).(redis := Some(r))
        decreases r.nargs - |r.ai|
      {
        var h := ReadHead(DOLLAR, a[r.read..]);
        assert a[..][r.read..] == a[r.read..];
        match h {
          case Short => return WaitMore;
          case Bad => return Fail(BadNumber);
          case Other => return Fail(BadBulkHead);
          case Number(len, w) =>
            if len > 0xffff_ffff { return Fail(BadBulkLength); }
            var x := r.read + w + len;
            if a.Length < x + 2 { return WaitMore; }
            if x < 0 { return Crash; }
            if a[x] != CR || a[x + 1] != LF { return Fail(BadBulkTail); }
            r := r.(ai := r.ai + [Arg(U32(r.read + w), U32(len))], read := U32(r.read + w + len + 2));
            redis := Some(r);
        }
      }
      stage := 999;
      redis := Some(r.(data := a[..r.read]));
      v := Done;
    }

    method ReadHttp(lib: Library, a: array<byte>) returns (v: Verdict)
      requires stage == 6 && Ready(Value(), a[..])
      modifies this, a
      ensures Outcome(Value(), a[..], v) == HttpLines(lib, old(Value()), old(a[..]))
    {
      hide HttpHeader.Head;
      hide U32;
      var idx := FindBlankLine(a[..], 0);
      if idx == -1 { return WaitMore; }
      ghost var rest := a[idx + 4..];
      var h, ok := Parse(lib, a, idx + 4);
      assert a[idx + 4..] == rest;
      assert a[..] == a[..idx + 4] + rest;
      http := Some(h.(data := a[..idx + 4]));
      if !ok { return Fail(BadHttpHead); }
      if h.bodyLen == 0 {
        stage := 8;
        return Done;
      }
      stage := 7;
      v := ReadBody(a);
    }

    method ReadBody(a: array<byte>) returns (v: Verdict)
      requires stage == 7 && Ready(Value(), a[..])
      modifies this
      ensures Outcome(Value(), a[..], v) == Body(old(Value()), a[..])
    {
      var sz := U32(http.value.hdrLen + http.value.bodyLen);
      if a.Length < sz { return WaitMore; }
      http := Some(http.value.(data := a[..sz]));
      stage := 999;
      v := Done;
    }
  }
}
