/** HTTP requests as a client writes them (section 3 of RFC 9112), read by the server: state.go and
    http.go end to end. */
module HttpRequest {
  import opened Bytes
  import opened Unescape
  import opened HttpHeader
  import ReadState

  type Header = (bytes, bytes)

  /** A request. Its target is raw: a path or a URL in any spelling, with or without a query. */
  datatype Request = Request(verb: bytes, target: bytes, version: bytes, headers: seq<Header>, body: bytes)

  predicate Lacks(s: bytes, b: byte) {
    forall i :: 0 <= i < |s| ==> s[i] != b
  }

  // ----- writing

  function RequestLine(r: Request): (l: bytes) {
    r.verb + [SPACE] + r.target + [SPACE] + r.version
  }

  function HeaderText(h: Header): (l: bytes) {
    h.0 + [COLON] + h.1
  }

  /** Lines, each with its line break. */
  function Joined(ls: seq<bytes>): (s: bytes) {
    if ls == [] then [] else ls[0] + CRLF + Joined(ls[1..])
  }

  function HeaderTexts(hs: seq<Header>): (ls: seq<bytes>)
    ensures |ls| == |hs| && forall i :: 0 <= i < |hs| ==> ls[i] == HeaderText(hs[i])
  {
    if hs == [] then [] else [HeaderText(hs[0])] + HeaderTexts(hs[1..])
  }

  function RequestHead(r: Request): (s: bytes) {
    Joined([RequestLine(r)] + HeaderTexts(r.headers)) + CRLF
  }

  function Render(r: Request): (s: bytes) {
    RequestHead(r) + r.body
  }

  // ----- lines

  predicate LinesOk(ls: seq<bytes>) {
    forall i :: 0 <= i < |ls| ==> ls[i] != [] && OneLine(ls[i])
  }

  /** A line break in `l + CRLF + rest` is the one after `l`, or one of `rest`. */
  lemma BreaksAfter(l: bytes, rest: bytes, j: int)
    requires OneLine(l)
    ensures CrLfAt(l + CRLF + rest, j) == (j == |l| || CrLfAt(rest, j - |l| - 2))
    ensures CrLfAt(l + CRLF + rest, j) ==> j == |l| || j >= |l| + 2
  {
    var s := l + CRLF + rest;
    if 0 <= j && j + 1 < |l| { assert s[j] == l[j] && s[j + 1] == l[j + 1] && !CrLfAt(l, j); }
    if j == |l| + 1 { assert s[j] == LF; }
    if j > |l| + 1 && j + 1 < |s| { assert s[j] == rest[j - |l| - 2] && s[j + 1] == rest[j - |l| - 1]; }
  }

  lemma FirstBreak(l: bytes, rest: bytes)
    requires OneLine(l)
    ensures FindCrLf(l + CRLF + rest, 0) == |l|
  {
    FindCrLfAfter(l, rest);
  }

  /** A blank line right after the first line, or else the first one of the rest. */
  lemma BlankAfter(l: bytes, rest: bytes)
    requires OneLine(l) && (CrLfAt(rest, 0) || FindBlankLine(rest, 0) != -1)
    ensures FindBlankLine(l + CRLF + rest, 0) == if CrLfAt(rest, 0) then |l| else |l| + 2 + FindBlankLine(rest, 0)
  {
    hide OneLine;
    hide CrLfAt;
    hide FindBlankLine;
    var s := l + CRLF + rest;
    var k := FindBlankLine(s, 0);
    var i := if CrLfAt(rest, 0) then |l| else |l| + 2 + FindBlankLine(rest, 0);
    BreaksAfter(l, rest, i);
    BreaksAfter(l, rest, i + 2);
    BreaksAfter(l, rest, k);
    BreaksAfter(l, rest, k + 2);
  }

  /** The first blank line is the one that ends the lines. */
  lemma {:induction false} BlankLineEnds(ls: seq<bytes>, rest: bytes)
    requires ls != [] && LinesOk(ls)
    ensures |Joined(ls)| >= 2 && FindBlankLine(Joined(ls) + CRLF + rest, 0) == |Joined(ls)| - 2
    decreases |ls|
  {
    hide FindBlankLine;
    hide OneLine;
    var l, after := ls[0], Joined(ls[1..]) + CRLF + rest;
    assert Joined(ls) + CRLF + rest == l + CRLF + after;
    if |ls| == 1 {
      assert CrLfAt(after, 0);
    } else {
      BlankLineEnds(ls[1..], rest);
      Assoc(Joined(ls[1..]), CRLF, rest);
      FirstByte(ls[1..], after, CRLF + rest);
    }
    BlankAfter(l, after);
  }

  lemma FirstByte(ls: seq<bytes>, s: bytes, rest: bytes)
    requires ls != [] && LinesOk(ls) && s == Joined(ls) + rest
    ensures !CrLfAt(s, 0)
  {
    var l, after := ls[0], Joined(ls[1..]) + rest;
    assert s == l + CRLF + after;
    BreaksAfter(l, after, 0);
  }

  /** The lines after one that was handled with result `r`. */
  function Continued(lib: Library, r: LineResult, rest: bytes): LineResult
    requires Terminated(rest)
  {
    if r.ok then Prepend(r.text + CRLF, Lines(lib, rest, false, r.http)) else r.(text := r.text + CRLF + rest)
  }

  lemma LinesFirst(lib: Library, l: bytes, rest: bytes, first: bool, h: Http)
    requires l != [] && OneLine(l) && Terminated(rest)
    ensures Terminated(l + CRLF + rest)
    ensures Lines(lib, l + CRLF + rest, first, h) == Continued(lib, Line(lib, l, first, h), rest)
  {
    hide Line;
    hide FindCrLf;
    var s := l + CRLF + rest;
    FirstBreak(l, rest);
    assert s[..|l|] == l && s[|l| + 2..] == rest && s[|l|..] == CRLF + rest;
    assert CrLfAt(s, |s| - 2);
    Assoc(Line(lib, l, first, h).text, CRLF, rest);
  }

  lemma NoLines(lib: Library, h: Http)
    ensures Terminated([] + CRLF) && Lines(lib, [] + CRLF, false, h) == LineResult([] + CRLF, h, true)
  {
    assert CrLfAt([] + CRLF, 0);
  }

  // ----- headers

  predicate HeadersOk(hs: seq<Header>) {
    forall i :: 0 <= i < |hs| ==> hs[i].0 != [] && Lacks(hs[i].0, COLON) && OneLine(hs[i].0) && OneLine(hs[i].1)
  }

  function LowerKeys(hs: seq<Header>): (ks: seq<Header>)
  {
    if hs == [] then [] else [(Lower(hs[0].0), hs[0].1)] + LowerKeys(hs[1..])
  }

  /** The name as written, or with any of its letters in upper case. */
  predicate Named(k: bytes, name: string) {
    |k| == |name| && forall i :: 0 <= i < |k| ==>
      k[i] == name[i] as int || ('a' <= name[i] <= 'z' && k[i] == name[i] as int - 32)
  }

  predicate LowerName(name: string) {
    forall i :: 0 <= i < |name| ==> 'a' <= name[i] <= 'z' || name[i] == '-'
  }

  /** Lower-casing finds exactly the spellings of a name. */
  lemma NamedIffLower(k: bytes, name: string)
    requires LowerName(name)
    ensures Named(k, name) <==> Lower(k) == Ascii(name)
  {
    var l, t := Lower(k), Ascii(name);
    if Named(k, name) { assert forall i :: 0 <= i < |k| ==> l[i] == t[i]; }
    if l == t {
      assert |k| == |name|;
      forall i | 0 <= i < |k|
        ensures k[i] == name[i] as int || ('a' <= name[i] <= 'z' && k[i] == name[i] as int - 32)
      {
        assert l[i] == t[i];
      }
    }
  }

  /** The three names the parser knows, and that they are different names. */
  lemma KnownNames(k: bytes)
    ensures Named(k, "upgrade") <==> Lower(k) == UPGRADE
    ensures Named(k, "host") <==> Lower(k) == HOST
    ensures Named(k, "content-length") <==> Lower(k) == CONTENT_LENGTH
    ensures UPGRADE != HOST && HOST != CONTENT_LENGTH && UPGRADE != CONTENT_LENGTH
  {
    hide Lower;
    hide Named;
    NamedIffLower(k, "upgrade");
    NamedIffLower(k, "host");
    NamedIffLower(k, "content-length");
  }

  /** What the last header of that name says, whatever the case it is written in. */
  function LastValue(lib: Library, hs: seq<Header>, name: string): (v: Option<bytes>) {
    if hs == [] then None
    else
      match LastValue(lib, hs[1..], name)
      case Some(v) => Some(v)
      case None => if Named(hs[0].0, name) then Some(lib.trimSpace(hs[0].1)) else None
  }

  predicate LengthOk(lib: Library, value: bytes) {
    var n := ParseInt(value);
    n.Value? && 0 <= n.v <= lib.requestMaxBytes
  }

  /** Every Content-Length header is a number within the limit. */
  predicate LengthsOk(lib: Library, hs: seq<Header>) {
    forall i :: 0 <= i < |hs| && Named(hs[i].0, "content-length") ==> LengthOk(lib, lib.trimSpace(hs[i].1))
  }

  /** The request with what its headers say. */
  function Said(lib: Library, hs: seq<Header>, h: Http): (h': Http) {
    var host, length, upgrade := LastValue(lib, hs, "host"), LastValue(lib, hs, "content-length"), LastValue(lib, hs, "upgrade");
    h.(host := if host.Some? then host.value else h.host,
       bodyLen := if length.Some? then U32(ParseInt(length.value).OrElse()) else h.bodyLen,
       wsUpgrade := if upgrade.Some? then lib.isWebsocket(upgrade.value) else h.wsUpgrade)
  }

  lemma HeaderRead(lib: Library, x: Header, h: Http)
    requires x.0 != [] && Lacks(x.0, COLON)
    ensures HeaderLine(lib, HeaderText(x), h) ==
            match SetHeader(lib, Lower(x.0), lib.trimSpace(x.1), h)
            case None => LineResult(HeaderText((Lower(x.0), x.1)), h, false)
            case Some(h') => LineResult(HeaderText((Lower(x.0), x.1)), h', true)
  {
    hide SetHeader;
    var line := HeaderText(x);
    assert IndexByte(line, COLON) == |x.0| by { assert line[|x.0|] == COLON; }
    assert line[..|x.0|] == x.0 && line[|x.0| + 1..] == x.1;
    assert line[|x.0|..] == [COLON] + x.1;
    Assoc(Lower(x.0), [COLON], x.1);
  }

  lemma SaidFirst(lib: Library, hs: seq<Header>, h: Http)
    requires hs != []
    ensures match SetHeader(lib, Lower(hs[0].0), lib.trimSpace(hs[0].1), h)
            case None => !LengthsOk(lib, hs)
            case Some(h') => (LengthsOk(lib, hs) <==> LengthsOk(lib, hs[1..])) && Said(lib, hs, h) == Said(lib, hs[1..], h')
  {
    hide U32;
    hide ParseInt;
    hide Lower;
    hide Named;
    KnownNames(hs[0].0);
    var key, value, rest := Lower(hs[0].0), lib.trimSpace(hs[0].1), hs[1..];
    assert forall i :: 0 <= i < |rest| ==> rest[i] == hs[i + 1];
    assert forall i :: 1 <= i < |hs| ==> hs[i] == rest[i - 1];
  }

  /** A block of headers is rejected exactly when some Content-Length is not a number within the
      limit; otherwise the last header of each name counts, and keys end up in lower case. */
  lemma {:induction false} HeadersRead(lib: Library, hs: seq<Header>, h: Http)
    requires HeadersOk(hs)
    ensures Terminated(Joined(HeaderTexts(hs)) + CRLF)
    ensures var r := Lines(lib, Joined(HeaderTexts(hs)) + CRLF, false, h);
            && (r.ok <==> LengthsOk(lib, hs))
            && (r.ok ==> r == LineResult(Joined(HeaderTexts(LowerKeys(hs))) + CRLF, Said(lib, hs, h), true))
    decreases |hs|
  {
    hide SetHeader;
    hide HeaderLine;
    hide LengthsOk;
    hide Said;
    hide Lower;
    hide Lines;
    if hs == [] {
      SaidNothing(lib, h);
      NoLines(lib, h);
    } else {
      var rest := Joined(HeaderTexts(hs[1..])) + CRLF;
      var lower, lowers := HeaderText((Lower(hs[0].0), hs[0].1)) + CRLF, Joined(HeaderTexts(LowerKeys(hs[1..])));
      TextsFirst(hs);
      TextsFirst(LowerKeys(hs));
      Assoc(HeaderText(hs[0]) + CRLF, Joined(HeaderTexts(hs[1..])), CRLF);
      Assoc(lower, lowers, CRLF);
      HeaderRead(lib, hs[0], h);
      SaidFirst(lib, hs, h);
      var r := SetHeader(lib, Lower(hs[0].0), lib.trimSpace(hs[0].1), h);
      HeadersRead(lib, hs[1..], if r.Some? then r.value else h);
      OneLineAt(hs[0].0, COLON, hs[0].1);
      LinesFirst(lib, HeaderText(hs[0]), rest, false, h);
    }
  }

  lemma TextsFirst(hs: seq<Header>)
    requires hs != []
    ensures Joined(HeaderTexts(hs)) == HeaderText(hs[0]) + CRLF + Joined(HeaderTexts(hs[1..]))
  {
    assert HeaderTexts(hs)[1..] == HeaderTexts(hs[1..]);
  }

  lemma SaidNothing(lib: Library, h: Http)
    ensures LengthsOk(lib, []) && Said(lib, [], h) == h
  {
  }

  // ----- the request line

  /** A request on the wire: its method without a space and not starting like a RESP array, no CR
      LF inside a line, and header names without a colon. */
  predicate Sendable(r: Request) {
    && (r.verb != [] ==> r.verb[0] != ReadState.STAR) && Lacks(r.verb, SPACE) && OneLine(r.verb)
    && OneLine(r.target)
    && Lacks(r.version, SPACE) && OneLine(r.version)
    && HeadersOk(r.headers)
    && |Render(r)| < 0x1_0000_0000
  }

  /** The part of a target before its first question mark. */
  function PathText(t: bytes): (p: bytes)
    ensures p <= t && Lacks(p, QUESTION)
  {
    var q := IndexByte(t, QUESTION);
    if q == -1 then t else t[..q]
  }

  predicate HasQuery(t: bytes) { IndexByte(t, QUESTION) != -1 }

  /** The part after it. */
  function QueryText(t: bytes): (q: bytes) {
    if HasQuery(t) then t[IndexByte(t, QUESTION) + 1..] else []
  }

  /** The path of a target, decoded. */
  function PathOf(t: bytes): (p: bytes) {
    Unescaped(PathText(t), false)
  }

  /** The path and host a decoded target names: itself when it starts with a slash. */
  function Located(lib: Library, path: bytes): (l: Option<(bytes, bytes)>) {
    if path != [] && path[0] == SLASH then Some((path, [])) else lib.parseUrl(path)
  }

  /** The request line within the limit of `parse`, and its target a path or a URL. */
  predicate LineOk(lib: Library, r: Request) {
    |r.verb| + 1 + |r.target| <= 0xffff && Located(lib, PathOf(r.target)).Some?
  }

  /** The request line once its path has been decoded in place. */
  function DecodedLine(r: Request): (l: bytes)
    ensures |l| == |RequestLine(r)|
  {
    var p := PathText(r.target);
    r.verb + [SPACE] + (UnescapedSlice(p, false) + r.target[|p|..]) + [SPACE] + r.version
  }

  function PathEnd(r: Request): nat { |r.verb| + 1 + |PathText(r.target)| }

  function TargetEnd(r: Request): nat { |r.verb| + 1 + |r.target| }

  /** What the request line records. */
  function Recorded(lib: Library, r: Request, h: Http): (h': Http)
    requires LineOk(lib, r)
  {
    var path := PathOf(r.target);
    var h1 := if HasQuery(r.target) then h.(qStart := PathEnd(r) + 1, qEnd := TargetEnd(r)) else h;
    if path != [] && path[0] == SLASH then h1.(path := path)
    else h1.(path := Located(lib, path).value.0, host := Located(lib, path).value.1)
  }

  lemma FirstAt(a: bytes, b: byte, c: bytes)
    requires Lacks(a, b)
    ensures IndexByte(a + [b] + c, b) == |a|
  {
    hide IndexByte;
    assert (a + [b] + c)[|a|] == b;
    assert forall i :: 0 <= i < |a| ==> (a + [b] + c)[i] == a[i];
  }

  lemma LastAt(a: bytes, b: byte, c: bytes)
    requires Lacks(c, b)
    ensures LastIndexByte(a + [b] + c, b) == |a|
  {
    hide LastIndexByte;
    var s := a + [b] + c;
    var k := LastIndexByte(s, b);
    assert s[|a|] == b;
  }

  lemma TargetFound(r: Request)
    requires Lacks(r.verb, SPACE) && Lacks(r.version, SPACE)
    ensures FindTarget(RequestLine(r)) ==
            if TargetEnd(r) > 0xffff then None else Some(HttpHeader.Target(|r.verb| + 1, PathEnd(r), TargetEnd(r)))
    ensures HasQuery(r.target) <==> PathEnd(r) < TargetEnd(r)
  {
    hide IndexByte;
    hide LastIndexByte;
    var line, t, m := RequestLine(r), r.target, r.verb;
    Assoc(m + [SPACE], t, [SPACE] + r.version);
    Assoc(m + [SPACE] + t, [SPACE], r.version);
    FirstAt(m, SPACE, t + ([SPACE] + r.version));
    LastAt(m + [SPACE] + t, SPACE, r.version);
    assert line[|m| + 1..TargetEnd(r)] == t;
  }

  /** A request line, whatever its target, is rejected exactly when it is too long or its decoded
      target is neither a path nor a URL. */
  lemma RequestLineRead(lib: Library, r: Request, h: Http)
    requires Sendable(r)
    ensures var l := FirstLine(lib, RequestLine(r), h);
            (l.ok <==> LineOk(lib, r)) && (l.ok ==> l == LineResult(DecodedLine(r), Recorded(lib, r, h), true))
  {
    hide FindTarget;
    hide PathText;
    hide HasQuery;
    hide Unescaped;
    hide UnescapedSlice;
    TargetFound(r);
    LineParts(r);
  }

  lemma LineParts(r: Request)
    ensures var line, p, m := RequestLine(r), PathText(r.target), |r.verb|;
            && line[m + 1..m + 1 + |p|] == p
            && line[..m + 1] + UnescapedSlice(p, false) + line[m + 1 + |p|..] == DecodedLine(r)
    ensures PathEnd(r) <= TargetEnd(r) <= |DecodedLine(r)|
    ensures DecodedLine(r)[PathEnd(r)..TargetEnd(r)] == r.target[|PathText(r.target)|..]
    ensures r.verb + [SPACE] <= DecodedLine(r)
  {
    hide PathText;
    hide UnescapedSlice;
    var line, p, m := RequestLine(r), PathText(r.target), |r.verb|;
    assert line[..m + 1] == r.verb + [SPACE];
    assert line[m + 1 + |p|..] == r.target[|p|..] + [SPACE] + r.version;
  }

  // ----- the request

  /** The body length the headers declare. */
  function Declared(lib: Library, hs: seq<Header>): (n: int) {
    var v := LastValue(lib, hs, "content-length");
    if v.Some? then ParseInt(v.value).OrElse() else 0
  }

  /** `HTTP.Body`. */
  function BodyOf(h: Http): (b: bytes)
    requires h.bodyLen <= |h.data|
  {
    h.data[|h.data| - h.bodyLen..]
  }

  /** What `parse` records of the request. */
  function Parsed(lib: Library, r: Request): (h: Http)
    requires LineOk(lib, r)
  {
    Said(lib, r.headers, Recorded(lib, r, EMPTY.(hdrLen := |RequestHead(r)|)))
  }

  function DecodedHead(r: Request): (s: bytes) {
    DecodedLine(r) + CRLF + (Joined(HeaderTexts(LowerKeys(r.headers))) + CRLF)
  }

  lemma HeadSplit(r: Request)
    ensures RequestHead(r) == RequestLine(r) + CRLF + (Joined(HeaderTexts(r.headers)) + CRLF)
  {
    hide RequestLine;
    var ls := [RequestLine(r)] + HeaderTexts(r.headers);
    assert ls[1..] == HeaderTexts(r.headers);
    Assoc(RequestLine(r) + CRLF, Joined(HeaderTexts(r.headers)), CRLF);
  }

  predicate Accepted(lib: Library, r: Request) {
    LineOk(lib, r) && LengthsOk(lib, r.headers)
  }

  /** The head is rejected exactly when its request line is, or some Content-Length is not a number
      within the limit. */
  lemma HeadRead(lib: Library, r: Request)
    requires Sendable(r)
    ensures Terminated(RequestHead(r))
    ensures var l := Head(lib, RequestHead(r));
            (l.ok <==> Accepted(lib, r)) && (l.ok ==> l == LineResult(DecodedHead(r), Parsed(lib, r), true))
  {
    hide RequestLine;
    hide DecodedLine;
    hide Recorded;
    hide LineOk;
    hide FirstLine;
    hide Lines;
    hide LengthsOk;
    hide Said;
    hide LastValue;
    var h := EMPTY.(hdrLen := |RequestHead(r)|);
    HeadSplit(r);
    RequestLineRead(lib, r, h);
    HeadersRead(lib, r.headers, if LineOk(lib, r) then Recorded(lib, r, h) else h);
    LineFits(r);
    LinesFirst(lib, RequestLine(r), Joined(HeaderTexts(r.headers)) + CRLF, true, h);
  }

  lemma LineFits(r: Request)
    requires Sendable(r)
    ensures RequestLine(r) != [] && OneLine(RequestLine(r))
  {
    OneLineAt(r.verb, SPACE, r.target);
    OneLineAt(r.verb + [SPACE] + r.target, SPACE, r.version);
  }

  lemma OneLineAt(a: bytes, b: byte, c: bytes)
    requires OneLine(a) && OneLine(c) && b != CR && b != LF
    ensures OneLine(a + [b] + c)
  {
    var s := a + [b] + c;
    forall j | 0 <= j && j + 1 < |s| ensures !CrLfAt(s, j) {
      if j + 1 < |a| { assert s[j] == a[j] && s[j + 1] == a[j + 1] && !CrLfAt(a, j); }
      if j > |a| { assert s[j] == c[j - |a| - 1] && s[j + 1] == c[j - |a|] && !CrLfAt(c, j - |a| - 1); }
    }
  }

  /** What `ForeachQuery` hands to its callback. */
  function QueryOf(h: Http): (ps: seq<Pair>)
    requires h.qStart == 0 || h.qStart <= h.qEnd <= |h.data|
  {
    if h.qStart == 0 then [] else Pairs(h.data[h.qStart..h.qEnd])
  }

  /** The server ends with what was sent, and takes exactly the request's bytes. */
  predicate Arrived(lib: Library, o: ReadState.Outcome, r: Request)
    requires LineOk(lib, r)
  {
    && o.verdict.Done? && o.st.http.Some? && o.st.redis.None?
    && var h := o.st.http.value;
       && r.verb + [SPACE] <= h.data && IndexByte(h.data, SPACE) == |r.verb|
       && h.path == Located(lib, PathOf(r.target)).value.0
       && (h.qStart > 0 <==> HasQuery(r.target))
       && (h.qStart > 0 ==> h.qStart <= h.qEnd <= |h.data| && h.data[h.qStart..h.qEnd] == QueryText(r.target))
       && h.host == (match LastValue(lib, r.headers, "host") case Some(v) => v case None => Located(lib, PathOf(r.target)).value.1)
       && h.wsUpgrade == (match LastValue(lib, r.headers, "upgrade") case Some(v) => lib.isWebsocket(v) case None => false)
       && h.data == DecodedHead(r) + r.body && h.bodyLen <= |h.data| && BodyOf(h) == r.body
       && h.hdrLen + h.bodyLen == |Render(r)|
  }

  /** The finished request: head rewritten, then the body. */
  function Complete(lib: Library, r: Request): (h: Http)
    requires LineOk(lib, r)
  {
    Parsed(lib, r).(data := DecodedHead(r) + r.body)
  }

  /** One call of the parser on a whole request, with anything after it: rejected exactly when its
      request line or a Content-Length is bad. */
  lemma ServerReadsRequest(lib: Library, r: Request, more: bytes)
    requires Sendable(r) && (Accepted(lib, r) ==> |r.body| == Declared(lib, r.headers))
    ensures var o := ReadState.Processed(lib, ReadState.START, Render(r) + more);
            if Accepted(lib, r) then Arrived(lib, o, r) else o.verdict == ReadState.Fail(ReadState.BadHttpHead)
  {
    hide RequestHead;
    hide DecodedHead;
    hide Parsed;
    hide Head;
    hide FindBlankLine;
    hide LengthsOk;
    hide LineOk;
    hide Declared;
    hide U32;
    hide ReadState.ReadHead;
    hide Arrived;
    hide Sendable;
    HeadFound(r, more);
    HeadRead(lib, r);
    if Accepted(lib, r) {
      var n, d := |RequestHead(r)|, DecodedHead(r);
      var s := d + (Render(r) + more)[n..];
      assert (Render(r) + more)[n..] == r.body + more;
      assert s[..n] == d && s[..n + |r.body|] == d + r.body;
      assert d + [] == d;
      Lengths(lib, r);
      var o := ReadState.Processed(lib, ReadState.START, Render(r) + more);
      assert o.verdict.Done? && o.st.http == Some(Complete(lib, r)) && o.st.redis.None?;
      ArrivedBy(lib, o, r);
    }
  }

  lemma ArrivedBy(lib: Library, o: ReadState.Outcome, r: Request)
    requires LineOk(lib, r) && o.verdict.Done? && o.st.http == Some(Complete(lib, r)) && o.st.redis.None?
    requires Sendable(r) && |r.body| == Declared(lib, r.headers) && |DecodedHead(r)| == |RequestHead(r)|
    ensures Arrived(lib, o, r)
  {
    hide RequestHead;
    hide DecodedHead;
    hide LastValue;
    hide ParseInt;
    hide IndexByte;
    hide PathText;
    Lengths(lib, r);
    DataHolds(r, r.body);
    assert (DecodedHead(r) + r.body)[|DecodedHead(r)|..] == r.body;
  }

  lemma Lengths(lib: Library, r: Request)
    requires LineOk(lib, r) && Sendable(r) && |r.body| == Declared(lib, r.headers)
    ensures Parsed(lib, r).hdrLen == |RequestHead(r)| && Parsed(lib, r).bodyLen == |r.body|
    ensures |Render(r)| == |RequestHead(r)| + |r.body| < 0x1_0000_0000
  {
    hide RequestHead;
    hide LastValue;
    hide ParseInt;
  }

  lemma HeadFound(r: Request, more: bytes)
    requires Sendable(r)
    ensures var s, n := Render(r) + more, |RequestHead(r)|;
            && 4 <= n <= |s| && FindBlankLine(s, 0) == n - 4 && s[..n] == RequestHead(r)
            && ReadState.ReadHead(ReadState.STAR, s) == ReadState.Other
  {
    hide FindBlankLine;
    hide HeaderTexts;
    var ls := [RequestLine(r)] + HeaderTexts(r.headers);
    LineFits(r);
    TextsFit(r.headers);
    assert LinesOk(ls);
    BlankLineEnds(ls, r.body + more);
    Assoc(RequestHead(r), r.body, more);
    HeadSplit(r);
    assert RequestHead(r)[0] == if r.verb == [] then SPACE else r.verb[0];
  }

  lemma TextsFit(hs: seq<Header>)
    requires HeadersOk(hs)
    ensures LinesOk(HeaderTexts(hs))
  {
    hide HeaderTexts;
    hide OneLine;
    forall i | 0 <= i < |hs| ensures OneLine(HeaderText(hs[i])) { OneLineAt(hs[i].0, COLON, hs[i].1); }
  }

  lemma DataHolds(r: Request, rest: bytes)
    requires Lacks(r.verb, SPACE)
    ensures PathEnd(r) <= TargetEnd(r) <= |DecodedHead(r)|
    ensures HasQuery(r.target) ==>
              PathEnd(r) < TargetEnd(r) && (DecodedHead(r) + rest)[PathEnd(r) + 1..TargetEnd(r)] == QueryText(r.target)
    ensures r.verb + [SPACE] <= DecodedHead(r) + rest && IndexByte(DecodedHead(r) + rest, SPACE) == |r.verb|
  {
    hide DecodedLine;
    hide IndexByte;
    hide Joined;
    hide PathText;
    hide QueryText;
    hide HasQuery;
    LineParts(r);
    QueryHeld(r);
    var l, x := DecodedLine(r), CRLF + (Joined(HeaderTexts(LowerKeys(r.headers))) + CRLF);
    Assoc(l, CRLF, Joined(HeaderTexts(LowerKeys(r.headers))) + CRLF);
    Assoc(l, x, rest);
    if HasQuery(r.target) { Front(l, x + rest, PathEnd(r) + 1, TargetEnd(r)); }
    var d, m := l + (x + rest), r.verb + [SPACE];
    Front(l, x + rest, 0, |m|);
    assert d == m + d[|m|..];
    FirstAt(r.verb, SPACE, d[|m|..]);
  }

  lemma QueryHeld(r: Request)
    ensures HasQuery(r.target) ==>
              PathEnd(r) < TargetEnd(r) <= |DecodedLine(r)| && DecodedLine(r)[PathEnd(r) + 1..TargetEnd(r)] == QueryText(r.target)
  {
    hide DecodedLine;
    hide IndexByte;
    LineParts(r);
    var l, p := DecodedLine(r), PathText(r.target);
    if HasQuery(r.target) {
      assert l[PathEnd(r) + 1..TargetEnd(r)] == l[PathEnd(r)..TargetEnd(r)][1..];
      assert r.target[|p|..][1..] == r.target[|p| + 1..];
    }
  }

  /** However the connection cuts a request's bytes, and whatever follows them, the server's
      request is the client's: method, path, query, host, upgrade and body. */
  lemma RequestRoundTrip(lib: Library, r: Request, more: bytes, chunks: seq<bytes>)
    requires Sendable(r) && Accepted(lib, r) && |r.body| == Declared(lib, r.headers)
    requires Flatten(chunks) == Render(r) + more
    ensures Arrived(lib, ReadState.Feed(lib, ReadState.START, [], chunks).outcome, r)
  {
    ServerReadsRequest(lib, r, more);
    ReadState.ChunkingIsInvisible(lib, chunks);
  }

  /** A rejected head is rejected as soon as it is whole, and not before. */
  lemma BadHeadRefused(lib: Library, r: Request)
    requires Sendable(r) && !Accepted(lib, r)
    ensures |RequestHead(r)| > 0
    ensures ReadState.Processed(lib, ReadState.START, RequestHead(r)).verdict == ReadState.Fail(ReadState.BadHttpHead)
    ensures ReadState.Processed(lib, ReadState.START, RequestHead(r)[..|RequestHead(r)| - 1]).verdict.WaitMore?
  {
    var bare, s := r.(body := []), RequestHead(r);
    assert RequestHead(bare) == s && Render(bare) + [] == s;
    ServerReadsRequest(lib, bare, []);
    HeadFound(bare, []);
    NotYet(lib, s);
  }

  lemma NotYet(lib: Library, s: bytes)
    requires |s| >= 4 && FindBlankLine(s, 0) == |s| - 4 && ReadState.ReadHead(ReadState.STAR, s) == ReadState.Other
    ensures ReadState.Processed(lib, ReadState.START, s[..|s| - 1]).verdict.WaitMore?
  {
    hide FindBlankLine;
    hide FindCrLf;
    hide Head;
    var p, last := s[..|s| - 1], s[|s| - 1..];
    assert s == p + last;
    if FindBlankLine(p, 0) != -1 { FindBlankLineExtend(p, last, 0); }
  }

  // ----- what well-formed targets mean

  /** The target spells this path and these pairs: its path percent-decodes to the one, and its
      query, read as a form, is the other. */
  predicate Spells(t: bytes, path: bytes, pairs: seq<Pair>) {
    PercentDecode(PathText(t), false) == Some(path) && FormDecode(QueryText(t)) == Some(pairs)
  }

  /** In any spelling, a request's path and query pairs are the ones the handler gets. */
  lemma SpelledRequest(lib: Library, o: ReadState.Outcome, r: Request, path: bytes, pairs: seq<Pair>)
    requires LineOk(lib, r) && Arrived(lib, o, r) && Spells(r.target, path, pairs)
    ensures var h := o.st.http.value;
            && Located(lib, path).Some? && h.path == Located(lib, path).value.0
            && (h.qStart == 0 || h.qStart <= h.qEnd <= |h.data|) && QueryOf(h) == pairs
  {
    hide PercentDecode;
    hide Unescaped;
    hide FormDecode;
    hide Pairs;
    hide IndexByte;
    UnescapedIsDecoded(PathText(r.target), false);
    PairsDecoded(QueryText(r.target));
    if !HasQuery(r.target) { NoPairs(); }
  }

  lemma NoPairs()
    ensures Pairs([]) == []
  {
  }

  function EscapePathByte(b: byte): (r: bytes) {
    if b == SLASH || Unreserved(b) then [b] else [PERCENT, UpperHex(b / 16), UpperHex(b % 16)]
  }

  /** Percent-encoding of a path: everything but slashes and unreserved characters. */
  function PathEscape(s: bytes): (r: bytes)
    ensures Lacks(r, CR) && Lacks(r, SPACE) && Lacks(r, QUESTION)
  {
    if s == [] then [] else EscapePathByte(s[0]) + PathEscape(s[1..])
  }

  lemma {:induction false} DecodePathEscape(s: bytes)
    ensures PercentDecode(PathEscape(s), false) == Some(s)
  {
    if s != [] {
      DecodePathEscape(s[1..]);
      var e, r := EscapePathByte(s[0]), PathEscape(s);
      assert r[|e|..] == PathEscape(s[1..]);
      assert s == [s[0]] + s[1..];
    }
  }

  /** Every path and pair list has spellings: the path escaped, and the pairs as `URL()` writes
      them, joined by `&`, or, when there are none, left out with the question mark. */
  lemma EverythingSpelled(path: bytes, pairs: seq<Pair>)
    ensures Spells(PathEscape(path) + [QUESTION] + EncodePairs(pairs), path, pairs)
    ensures Spells(PathEscape(path) + [QUESTION] + JoinPairs(pairs), path, pairs)
    ensures pairs == [] ==> Spells(PathEscape(path), path, pairs)
  {
    hide PercentDecode;
    hide FormDecode;
    DecodePathEscape(path);
    EncodedDecodes(pairs);
    JoinedDecodes(pairs);
    SpelledAs(path, EncodePairs(pairs));
    SpelledAs(path, JoinPairs(pairs));
    if pairs == [] { EncodedDecodes([]); }
  }

  lemma SpelledAs(path: bytes, query: bytes)
    ensures var t := PathEscape(path) + [QUESTION] + query;
            PathText(t) == PathEscape(path) && QueryText(t) == query
    ensures PathText(PathEscape(path)) == PathEscape(path) && QueryText(PathEscape(path)) == []
  {
    hide PathEscape;
    hide IndexByte;
    FirstAt(PathEscape(path), QUESTION, query);
    var t := PathEscape(path) + [QUESTION] + query;
    assert t[..|PathEscape(path)|] == PathEscape(path) && t[|PathEscape(path)| + 1..] == query;
  }

  // ----- malformed heads

  /** A header line without a name: no colon, or a colon first. */
  predicate Nameless(l: bytes) {
    Lacks(l, COLON) || (l != [] && l[0] == COLON)
  }

  /** A first line with fewer than two spaces. */
  predicate Targetless(l: bytes) {
    forall i, j :: 0 <= i < j < |l| ==> !(l[i] == SPACE && l[j] == SPACE)
  }

  lemma NamelessRejected(lib: Library, l: bytes, h: Http)
    requires Nameless(l)
    ensures !HeaderLine(lib, l, h).ok
  {
  }

  lemma TargetlessRejected(lib: Library, l: bytes, h: Http)
    requires Targetless(l)
    ensures !FirstLine(lib, l, h).ok
  {
    hide IndexByte;
    hide LastIndexByte;
    var i, j := IndexByte(l, SPACE), LastIndexByte(l, SPACE);
    assert i != -1 && j != -1 ==> i == j;
  }

  lemma {:induction false} NamelessLines(lib: Library, ls: seq<bytes>, k: nat, h: Http)
    requires LinesOk(ls) && k < |ls| && Nameless(ls[k])
    ensures Terminated(Joined(ls) + CRLF) && !Lines(lib, Joined(ls) + CRLF, false, h).ok
    decreases k
  {
    hide HeaderLine;
    hide Lines;
    hide Nameless;
    hide OneLine;
    var rest := Joined(ls[1..]) + CRLF;
    assert CrLfAt(rest, |rest| - 2);
    Assoc(ls[0] + CRLF, Joined(ls[1..]), CRLF);
    LinesFirst(lib, ls[0], rest, false, h);
    if k == 0 {
      NamelessRejected(lib, ls[0], h);
    } else {
      NamelessLines(lib, ls[1..], k - 1, HeaderLine(lib, ls[0], h).http);
    }
  }

  lemma MalformedHead(lib: Library, l: bytes, ls: seq<bytes>, h: Http)
    requires LinesOk([l] + ls) && (Targetless(l) || exists k :: 0 <= k < |ls| && Nameless(ls[k]))
    ensures var s := Joined([l] + ls) + CRLF; Terminated(s) && !Lines(lib, s, true, h).ok
  {
    hide FirstLine;
    hide Lines;
    hide Nameless;
    hide Targetless;
    hide OneLine;
    var all, rest := [l] + ls, Joined(ls) + CRLF;
    assert all[0] == l && all[1..] == ls;
    assert LinesOk(ls) by { assert forall i :: 0 <= i < |ls| ==> ls[i] == all[i + 1]; }
    assert CrLfAt(rest, |rest| - 2);
    Assoc(l + CRLF, Joined(ls), CRLF);
    LinesFirst(lib, l, rest, true, h);
    if Targetless(l) {
      TargetlessRejected(lib, l, h);
    } else {
      var k :| 0 <= k < |ls| && Nameless(ls[k]);
      NamelessLines(lib, ls, k, FirstLine(lib, l, h).http);
    }
  }

  /** A head with a nameless header line, or a first line without two spaces, is refused, whatever
      else it says and whatever follows it. */
  lemma MalformedRefused(lib: Library, l: bytes, ls: seq<bytes>, more: bytes)
    requires l != [] && l[0] != ReadState.STAR && LinesOk([l] + ls)
    requires Targetless(l) || exists k :: 0 <= k < |ls| && Nameless(ls[k])
    ensures ReadState.Processed(lib, ReadState.START, Joined([l] + ls) + CRLF + more).verdict ==
            ReadState.Fail(ReadState.BadHttpHead)
  {
    hide FindBlankLine;
    hide Lines;
    hide Nameless;
    hide Targetless;
    var all := [l] + ls;
    var head := Joined(all) + CRLF;
    BlankLineEnds(all, more);
    MalformedHead(lib, l, ls, EMPTY.(hdrLen := U32(|head|)));
    var s := head + more;
    assert s[..|head|] == head;
    assert all[0] == l && s[0] == l[0];
  }
}
