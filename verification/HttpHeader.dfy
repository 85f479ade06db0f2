/** The HTTP request head: `HTTP.parse` in http.go, which rewrites the received bytes in place. */
module HttpHeader {
  import opened Bytes
  import opened Unescape

  const QUESTION: byte := '?' as int
  const COLON: byte := ':' as int
  const SLASH: byte := '/' as int
  const UPGRADE: bytes := Ascii("upgrade")
  const HOST: bytes := Ascii("host")
  const CONTENT_LENGTH: bytes := Ascii("content-length")

  /** Library calls the parser makes, and the configured request limit. `parseUrl` gives the path
      and host of `url.Parse`, or None for its error. */
  datatype Library = Library(
    parseUrl: bytes -> Option<(bytes, bytes)>,
    trimSpace: bytes -> bytes,
    isWebsocket: bytes -> bool,
    requestMaxBytes: nat)

  datatype Http = Http(
    data: bytes, path: bytes, host: bytes, qStart: nat, qEnd: nat, hdrLen: nat, bodyLen: nat, wsUpgrade: bool)

  const EMPTY := Http([], [], [], 0, 0, 0, 0, false)

  function U32(x: int): (r: nat)
    ensures r < 0x1_0000_0000 && (0 <= x < 0x1_0000_0000 ==> r == x)
  {
    x % 0x1_0000_0000
  }

  function LowerByte(b: byte): byte {
    if 65 <= b <= 90 then b + 32 else b
  }

  function Lower(s: bytes): (r: bytes)
    ensures |r| == |s| && forall i :: 0 <= i < |s| ==> r[i] == LowerByte(s[i])
  {
    seq(|s|, i requires 0 <= i < |s| => LowerByte(s[i]))
  }

  /** Bytes as rewritten, the request with what they say, and whether they were accepted. */
  datatype LineResult = LineResult(text: bytes, http: Http, ok: bool)

  /** Where the request target stands in a first line: after the first space, before the last,
      with the path ending at the first question mark. */
  datatype Target = Target(path: nat, pathEnd: nat, end: nat)

  function FindTarget(line: bytes): (t: Option<Target>)
    ensures t.Some? ==> 0 < t.value.path <= t.value.pathEnd <= t.value.end <= |line| && t.value.end <= 0xffff
    ensures t.Some? ==> t.value.pathEnd < t.value.end ==> line[t.value.pathEnd] == QUESTION
  {
    var idx0, idx1 := IndexByte(line, SPACE), LastIndexByte(line, SPACE);
    if idx0 == -1 || idx1 == -1 || idx0 == idx1 || idx1 > 0xffff then None
    else
      var q := IndexByte(line[idx0 + 1..idx1], QUESTION);
      Some(Target(idx0 + 1, if q >= 0 then idx0 + 1 + q else idx1, idx1))
  }

  function FirstLine(lib: Library, line: bytes, h: Http): (r: LineResult)
    ensures |r.text| == |line|
  {
    match FindTarget(line)
    case None => LineResult(line, h, false)
    case Some(t) =>
      var h1 := if t.pathEnd < t.end then h.(qStart := t.pathEnd + 1, qEnd := t.end) else h;
      var raw := line[t.path..t.pathEnd];
      var path := Unescaped(raw, false);
      var line' := line[..t.path] + UnescapedSlice(raw, false) + line[t.pathEnd..];
      if path != [] && path[0] == SLASH then LineResult(line', h1.(path := path), true)
      else
        match lib.parseUrl(path)
        case None => LineResult(line', h1.(path := path), false)
        case Some((p, host)) => LineResult(line', h1.(path := p, host := host), true)
  }

  function SetHeader(lib: Library, key: bytes, value: bytes, h: Http): (r: Option<Http>) {
    if key == UPGRADE then Some(h.(wsUpgrade := lib.isWebsocket(value)))
    else if key == HOST then Some(h.(host := value))
    else if key == CONTENT_LENGTH then
      var cl := ParseInt(value);
      if cl.Value? && 0 <= cl.v <= lib.requestMaxBytes then Some(h.(bodyLen := U32(cl.v))) else None
    else Some(h)
  }

  function HeaderLine(lib: Library, line: bytes, h: Http): (r: LineResult)
    ensures |r.text| == |line|
  {
    var c := IndexByte(line, COLON);
    if c < 1 then LineResult(line, h, false)
    else
      var key := Lower(line[..c]);
      match SetHeader(lib, key, lib.trimSpace(line[c + 1..]), h)
      case None => LineResult(key + line[c..], h, false)
      case Some(h') => LineResult(key + line[c..], h', true)
  }

  function Line(lib: Library, line: bytes, first: bool, h: Http): (r: LineResult)
    ensures |r.text| == |line|
  {
    if first then FirstLine(lib, line, h) else HeaderLine(lib, line, h)
  }

  /** The bytes end with a line break, so every line of theirs is terminated. */
  predicate Terminated(s: bytes) {
    s == [] || CrLfAt(s, |s| - 2)
  }

  lemma TerminatedTail(s: bytes)
    requires s != [] && Terminated(s)
    ensures FindCrLf(s, 0) != -1 && Terminated(s[FindCrLf(s, 0) + 2..])
  {
    var q := FindCrLf(s, 0);
    assert CrLfAt(s, |s| - 2);
    assert q + 1 != |s| - 2;
  }

  /** The lines of `s` in turn, up to an empty line, a rejected line or the end. */
  function Lines(lib: Library, s: bytes, first: bool, h: Http): (r: LineResult)
    requires Terminated(s)
    ensures |r.text| == |s|
    decreases |s|
  {
    if s == [] then LineResult(s, h, true)
    else
      TerminatedTail(s);
      var q := FindCrLf(s, 0);
      if q == 0 then LineResult(s, h, true)
      else
        var r := Line(lib, s[..q], first, h);
        if !r.ok then LineResult(r.text + s[q..], r.http, false)
        else Prepend(r.text + CRLF, Lines(lib, s[q + 2..], false, r.http))
  }

  function Prepend(pre: bytes, r: LineResult): (r': LineResult) {
    r.(text := pre + r.text)
  }

  /** The whole head, terminator included, as `parse` leaves it and what it recorded. */
  function Head(lib: Library, data: bytes): (r: LineResult)
    requires Terminated(data)
    ensures |r.text| == |data|
  {
    Lines(lib, data, true, EMPTY.(hdrLen := U32(|data|)))
  }

  lemma LineKeepsLength(lib: Library, line: bytes, first: bool, h: Http)
    ensures Line(lib, line, first, h).http.hdrLen == h.hdrLen
  {
    hide FindTarget;
    hide ParseInt;
    hide U32;
  }

  /** No line changes the recorded head length. */
  lemma {:induction false} LengthKept(lib: Library, s: bytes, first: bool, h: Http)
    requires Terminated(s)
    ensures Lines(lib, s, first, h).http.hdrLen == h.hdrLen
    decreases |s|
  {
    hide Line;
    hide FindCrLf;
    if s != [] {
      TerminatedTail(s);
      var q := FindCrLf(s, 0);
      if q > 0 {
        LineKeepsLength(lib, s[..q], first, h);
        LengthKept(lib, s[q + 2..], false, Line(lib, s[..q], first, h).http);
      }
    }
  }

  // ----- the in-place parser

  method LowerInplace(a: array<byte>, lo: nat, hi: nat)
    requires lo <= hi <= a.Length
    modifies a
    ensures a[lo..hi] == Lower(old(a[lo..hi]))
    ensures forall k :: 0 <= k < lo || hi <= k < a.Length ==> a[k] == old(a[k])
  {
    for i := lo to hi
      invariant forall k :: lo <= k < i ==> a[k] == LowerByte(old(a[k]))
      invariant forall k :: 0 <= k < lo || i <= k < a.Length ==> a[k] == old(a[k])
    {
      if 65 <= a[i] <= 90 { a[i] := a[i] - 65 + 97; }
    }
  }

  /** Decode `a[lo..mid]` in place, as part of the line `a[..hi]`. */
  method UnescapePath(a: array<byte>, lo: nat, mid: nat, hi: nat) returns (path: bytes)
    requires lo <= mid <= hi <= a.Length
    modifies a
    ensures path == Unescaped(old(a[..hi])[lo..mid], false)
    ensures a[..hi] == old(a[..hi])[..lo] + UnescapedSlice(old(a[..hi])[lo..mid], false) + old(a[..hi])[mid..]
    ensures forall k :: hi <= k < a.Length ==> a[k] == old(a[k])
  {
    ghost var line := a[..hi];
    assert forall k :: 0 <= k < hi ==> a[k] == line[k];
    assert a[lo..mid] == line[lo..mid];
    var n := UnescapeInplace(a, lo, mid, false);
    path := a[lo..lo + n];
    assert a[..hi] == a[..lo] + a[lo..lo + n] + a[lo + n..mid] + a[mid..hi];
    assert a[..lo] == line[..lo] && a[lo + n..mid] == line[lo..mid][n..] && a[mid..hi] == line[mid..];
    Assoc(a[..lo], path, line[lo..mid][n..]);
  }

  method ParseFirstLine(lib: Library, a: array<byte>, hi: nat, h: Http) returns (h': Http, ok: bool)
    requires hi <= a.Length
    modifies a
    ensures LineResult(a[..hi], h', ok) == FirstLine(lib, old(a[..hi]), h)
    ensures forall k :: hi <= k < a.Length ==> a[k] == old(a[k])
  {
    hide Unescaped;
    hide UnescapedSlice;
    hide FindTarget;
    h' := h;
    var target := FindTarget(a[..hi]);
    if target.None? { return h', false; }
    var t := target.value;
    if t.pathEnd < t.end { h' := h'.(qStart := t.pathEnd + 1, qEnd := t.end); }
    var path := UnescapePath(a, t.path, t.pathEnd, hi);
    h' := h'.(path := path);
    if path != [] && path[0] == SLASH { return h', true; }
    var u := lib.parseUrl(path);
    if u.None? { return h', false; }
    h', ok := h'.(path := u.value.0, host := u.value.1), true;
  }

  method ParseHeaderLine(lib: Library, a: array<byte>, lo: nat, hi: nat, h: Http) returns (h': Http, ok: bool)
    requires lo <= hi <= a.Length
    modifies a
    ensures LineResult(a[lo..hi], h', ok) == HeaderLine(lib, old(a[lo..hi]), h)
    ensures forall k :: 0 <= k < lo || hi <= k < a.Length ==> a[k] == old(a[k])
  {
    hide SetHeader;
    ghost var line := a[lo..hi];
    h' := h;
    var c := IndexByte(a[lo..hi], COLON);
    if c < 1 { return h', false; }
    assert a[lo..lo + c] == line[..c] && a[lo + c + 1..hi] == line[c + 1..];
    LowerInplace(a, lo, lo + c);
    assert a[lo..hi] == Lower(line[..c]) + line[c..];
    assert a[lo + c + 1..hi] == line[c + 1..];
    var said := SetHeader(lib, a[lo..lo + c], lib.trimSpace(a[lo + c + 1..hi]), h);
    ok := said.Some?;
    if ok { h' := said.value; }
  }

  /** With the lines before `start` rewritten and recorded in `h`, the bytes `b` are on the way
      to `goal`. */
  ghost predicate OnCourse(lib: Library, goal: LineResult, b: bytes, start: nat, h: Http) {
    && start <= |b| && Terminated(b[start..])
    && goal == Prepend(b[..start], Lines(lib, b[start..], start == 0, h))
  }

  /** Handling one more line keeps the parse on its way, or ends it. */
  lemma NextLine(lib: Library, goal: LineResult, b: bytes, start: nat, idx: nat, h: Http)
    requires OnCourse(lib, goal, b, start, h) && start < |b|
    requires idx > 0 && idx == FindCrLf(b[start..], 0)
    ensures start + idx + 2 <= |b|
    ensures var r := Line(lib, b[start..start + idx], start == 0, h);
            var b' := b[..start] + r.text + b[start + idx..];
            if r.ok then OnCourse(lib, goal, b', start + idx + 2, r.http) else goal == LineResult(b', r.http, false)
  {
    hide Line;
    hide FindCrLf;
    var s := b[start..];
    TerminatedTail(s);
    assert b[start..start + idx] == s[..idx];
    var r := Line(lib, s[..idx], start == 0, h);
    if r.ok {
      AfterLine(b, start, idx, r.text);
      Assoc(b[..start], r.text + CRLF, Lines(lib, s[idx + 2..], false, r.http).text);
    } else {
      assert s[idx..] == b[start + idx..];
      Assoc(b[..start], r.text, s[idx..]);
    }
  }

  lemma AfterLine(b: bytes, start: nat, idx: nat, line: bytes)
    requires start <= |b| && CrLfAt(b[start..], idx) && |line| == idx
    ensures var b' := b[..start] + line + b[start + idx..];
            b'[start + idx + 2..] == b[start..][idx + 2..] && b'[..start + idx + 2] == b[..start] + (line + CRLF)
  {
    assert b[start + idx..start + idx + 2] == CRLF;
  }

  /** The line `a[start..start+idx]`, rewritten in place. */
  method ParseLine(lib: Library, a: array<byte>, start: nat, idx: nat, h: Http) returns (h': Http, ok: bool)
    requires start + idx <= a.Length
    modifies a
    ensures LineResult(a[start..start + idx], h', ok) == Line(lib, old(a[start..start + idx]), start == 0, h)
    ensures forall k :: 0 <= k < start || start + idx <= k < a.Length ==> a[k] == old(a[k])
  {
    hide FirstLine;
    hide HeaderLine;
    if start == 0 {
      assert a[..idx] == a[0..idx];
      h', ok := ParseFirstLine(lib, a, idx, h);
      assert a[..idx] == a[0..idx];
    } else {
      h', ok := ParseHeaderLine(lib, a, start, start + idx, h);
    }
  }

  /** The line `a[start..start+idx]` rewritten as part of the head `a[..n]`. */
  method RewriteLine(lib: Library, a: array<byte>, start: nat, n: nat, idx: nat, h: Http) returns (h': Http, ok: bool)
    requires start + idx <= n <= a.Length
    modifies a
    ensures var b := old(a[..n]);
            var r := Line(lib, b[start..start + idx], start == 0, h);
            h' == r.http && ok == r.ok && a[..n] == b[..start] + r.text + b[start + idx..]
    ensures forall k :: n <= k < a.Length ==> a[k] == old(a[k])
  {
    hide Line;
    ghost var b := a[..n];
    assert a[start..start + idx] == b[start..start + idx];
    h', ok := ParseLine(lib, a, start, idx, h);
    ghost var post := b[start + idx..];
    assert forall k :: 0 <= k < |post| ==> a[start + idx + k] == post[k];
    assert a[..n] == a[..start] + a[start..start + idx] + a[start + idx..n];
    assert a[..start] == b[..start] && a[start + idx..n] == post;
  }

  /** `parse` on the head `a[..n]`: the bytes it leaves, what it records and whether it accepts. */
  method Parse(lib: Library, a: array<byte>, n: nat) returns (h: Http, ok: bool)
    requires n <= a.Length && Terminated(a[..n])
    modifies a
    ensures LineResult(a[..n], h, ok) == Head(lib, old(a[..n]))
    ensures forall k :: n <= k < a.Length ==> a[k] == old(a[k])
  {
    hide Line;
    hide Lines;
    hide FindCrLf;
    var start := 0;
    h, ok := EMPTY.(hdrLen := U32(n)), true;
    ghost var goal := Head(lib, a[..n]);
    Begin(lib, a[..n]);
    while start < n
      invariant start <= n && OnCourse(lib, goal, a[..n], start, h) && ok
      invariant forall k :: n <= k < a.Length ==> a[k] == old(a[k])
    {
      TerminatedTail(a[..n][start..]);
      var idx := FindCrLf(a[..n][start..], 0);
      if idx == 0 { break; }
      NextLine(lib, goal, a[..n], start, idx, h);
      h, ok := RewriteLine(lib, a, start, n, idx, h);
      if !ok { return; }
      start := start + idx + 2;
    }
    Finished(lib, goal, a[..n], start, h);
  }

  lemma Begin(lib: Library, b: bytes)
    requires Terminated(b)
    ensures OnCourse(lib, Head(lib, b), b, 0, EMPTY.(hdrLen := U32(|b|)))
  {
    assert b[0..] == b;
    assert [] + Head(lib, b).text == Head(lib, b).text;
  }

  lemma Finished(lib: Library, goal: LineResult, b: bytes, start: nat, h: Http)
    requires OnCourse(lib, goal, b, start, h)
    requires start == |b| || FindCrLf(b[start..], 0) == 0
    ensures goal == LineResult(b, h, true)
  {
    assert b == b[..start] + b[start..];
  }
}
