/** The server's parser never waits in vain: `process` of state.go asks for more bytes only where more
    bytes can make it decide. */
module Waiting {
  import opened Bytes
  import opened HttpHeader
  import opened ReadState

  const JUNK: byte := 'X' as int

  /** `n` bytes that belong to nothing. */
  function Pad(n: nat): (b: bytes)
    ensures |b| == n && forall i :: 0 <= i < n ==> b[i] == JUNK
  {
    seq(n, i => JUNK)
  }

  lemma JunkIsNoNumber(d: bytes)
    ensures !ParseInt(d + [JUNK]).Value?
  {
    var t := d + [JUNK];
    assert t[..|t| - 1] == d;
    if d != [] {
      assert t[1..] == d[1..] + [JUNK];
      assert t[1..][..|d| - 1] == d[1..];
    }
  }

  /** A head line that is waited for is refused once it has ended in junk. */
  lemma HeadEnds(head: byte, s: bytes)
    requires head != CR && ReadHead(head, s).Short? && s != [] && s[0] == head
    ensures ReadHead(head, s + (Pad(4) + CRLF)) == Bad
  {
    hide ParseInt;
    hide FindCrLf;
    var s' := s + (Pad(4) + CRLF);
    if FindCrLf(s, 0) == -1 {
      var text := s + Pad(4);
      Assoc(s, Pad(4), CRLF);
      assert OneLine(text) by {
        forall j | 0 <= j && j + 1 < |text| ensures !CrLfAt(text, j) {
          if j + 1 < |s| { assert !CrLfAt(s, j) && text[j] == s[j] && text[j + 1] == s[j + 1]; }
        }
      }
      assert s' + [] == s';
      FindCrLfAfter(text, []);
      assert s'[1..|text|] == (s[1..] + Pad(3)) + [JUNK];
      JunkIsNoNumber(s[1..] + Pad(3));
    } else {
      FindCrLfExtend(s, Pad(4) + CRLF, 0);
      var idx := FindCrLf(s, 0);
      assert CrLfAt(s, idx);
      assert idx == 1;
      assert s'[1..1] == [];
      NothingIsNoNumber();
    }
  }

  lemma NothingIsNoNumber()
    ensures ParseInt([]) == Syntax
  {
  }

  // ----- commands

  lemma BulksEnd(r: Redis, s: bytes) returns (t: bytes)
    requires r.read <= |s| && Bulks(r, s) == (r, WaitMore)
    ensures Bulks(r, s + t).1.Fail?
  {
    hide ReadHead;
    hide U32;
    var rest := s[r.read..];
    var h := ReadHead(DOLLAR, rest);
    if h.Short? {
      t := ShortEnds(rest);
      assert (s + t)[r.read..] == rest + t;
    } else {
      var x := r.read + h.w + h.v;
      t := Pad(x + 2 - |s|);
      HeadExtend(DOLLAR, rest, t);
      assert (s + t)[r.read..] == rest + t;
      assert (s + t)[x + 1] == JUNK;
    }
  }

  lemma ShortEnds(rest: bytes) returns (t: bytes)
    requires ReadHead(DOLLAR, rest).Short?
    ensures ReadHead(DOLLAR, rest + t).Bad? || ReadHead(DOLLAR, rest + t).Other?
  {
    t := Pad(4) + CRLF;
    if rest != [] && rest[0] == DOLLAR { HeadEnds(DOLLAR, rest); }
  }

  lemma ArgumentsEnd(st: State, s: bytes) returns (t: bytes)
    requires st.stage == 1 && Ready(st, s) && Bulks(st.redis.value, s) == (st.redis.value, WaitMore)
    ensures !Arguments(st, s + t).verdict.WaitMore?
  {
    hide Bulks;
    t := BulksEnd(st.redis.value, s);
  }

  // ----- HTTP requests

  lemma BodyEnds(st: State, s: bytes) returns (t: bytes)
    requires st.stage == 7 && Ready(st, s)
    ensures Body(st, s + t).verdict.Done?
  {
    hide U32;
    t := Pad(U32(st.http.value.hdrLen + st.http.value.bodyLen));
  }

  lemma HttpEnds(lib: Library, st: State, s: bytes) returns (t: bytes)
    requires st.stage == 6 && Ready(st, s)
    ensures !HttpLines(lib, st, s + t).verdict.WaitMore?
  {
    hide Body;
    hide HttpHeader.Head;
    hide FindBlankLine;
    t := CRLF + CRLF;
    var s' := s + t;
    assert CrLfAt(s', |s|) && CrLfAt(s', |s| + 2);
    var o := HttpLines(lib, st, s');
    if o.verdict.WaitMore? {
      BodyOnly(lib, st, s');
      var t' := BodyEnds(o.st, o.buf);
      HttpLinesResume(lib, st, s', t');
      Assoc(s, t, t');
      t := t + t';
    }
  }

  /** With a blank line there, only the body can be waited for. */
  lemma BodyOnly(lib: Library, st: State, s: bytes)
    requires st.stage == 6 && Ready(st, s) && FindBlankLine(s, 0) != -1 && HttpLines(lib, st, s).verdict.WaitMore?
    ensures HttpLines(lib, st, s).st.stage == 7
  {
    hide HttpHeader.Head;
    hide U32;
  }

  // ----- the parser

  /** Nothing known yet: a first byte that is no star, and a blank line, make it an HTTP request; a
      star with junk after it is refused. */
  lemma StartEnds(lib: Library, s: bytes) returns (t: bytes)
    requires ReadHead(STAR, s).Short?
    ensures !Processed(lib, START, s + t).verdict.WaitMore?
  {
    hide ReadHead;
    hide HttpLines;
    t := Pad(4) + CRLF;
    if s != [] && s[0] == STAR {
      HeadEnds(STAR, s);
    } else {
      var s' := s + t;
      NoStar(s, t);
      var st := START.(stage := 6, http := Some(EMPTY));
      var t' := HttpEnds(lib, st, s');
      HeadExtend(STAR, s', t');
      Assoc(s, t, t');
      t := t + t';
    }
  }

  lemma NoStar(s: bytes, t: bytes)
    requires (s == [] || s[0] != STAR) && t != [] && t[0] != STAR && |s + t| >= 4
    ensures ReadHead(STAR, s + t).Other?
  {
  }

  /** The stages at which a call can ask for more, and what it then waits for. */
  lemma WaitingStage(lib: Library, s: bytes)
    requires Processed(lib, START, s).verdict.WaitMore?
    ensures var o := Processed(lib, START, s);
            || (o == Outcome(START, s, WaitMore) && ReadHead(STAR, s).Short?)
            || (o.st.stage == 1 && Ready(o.st, o.buf) && Bulks(o.st.redis.value, o.buf) == (o.st.redis.value, WaitMore))
            || (o.st.stage == 6 || o.st.stage == 7)
  {
    hide ReadHead;
    hide HttpHeader.Head;
    hide FindBlankLine;
    hide Bulks;
    hide U32;
    hide U16;
    var h := ReadHead(STAR, s);
    if h.Number? && h.v <= 65535 { BulksStop(Redis(U32(h.w), U16(h.v), [], []), s); }
  }

  /** A waiting argument loop, entered again with the same bytes, waits at the same place. */
  lemma BulksStop(r: Redis, s: bytes)
    requires r.read <= |s|
    ensures var (r', v) := Bulks(r, s); v.WaitMore? ==> Bulks(r', s) == (r', WaitMore)
  {
    hide Bulks;
    BulksResume(r, s, []);
    assert s + [] == s;
  }

  /** Whatever the parser has been given, if it asks for more, some further bytes make it decide. */
  lemma NeverInVain(lib: Library, s: bytes)
    requires Processed(lib, START, s).verdict.WaitMore?
    ensures exists t :: !Processed(lib, START, s + t).verdict.WaitMore?
  {
    hide Processed;
    hide Bulks;
    hide ReadHead;
    var o := Processed(lib, START, s);
    WaitingStage(lib, s);
    var t;
    if o.st.stage == 1 {
      t := ArgumentsEnd(o.st, o.buf);
      AtStage(lib, o.st, o.buf + t);
    } else if o.st.stage == 6 {
      t := HttpEnds(lib, o.st, o.buf);
      AtStage(lib, o.st, o.buf + t);
    } else if o.st.stage == 7 {
      t := BodyEnds(o.st, o.buf);
      AtStage(lib, o.st, o.buf + t);
    } else {
      t := StartEnds(lib, s);
    }
    Resume(lib, START, s, t);
  }

  lemma AtStage(lib: Library, st: State, s: bytes)
    requires Ready(st, s) && (st.stage == 1 || st.stage == 6 || st.stage == 7)
    ensures Processed(lib, st, s) ==
            if st.stage == 1 then Arguments(st, s) else if st.stage == 6 then HttpLines(lib, st, s) else Body(st, s)
  {
  }
}
