/** Looking headers up in a parsed request: `ForeachHeader` and `GetHeader` of http.go, which scan the
    head that the parser has rewritten. */
module HttpLookup {
  import opened Bytes
  import opened Unescape
  import opened HttpHeader
  import opened HttpRequest
  import ReadState

  /** The value of a header line, if it is of that name. */
  function InLine(lib: Library, line: bytes, key: bytes): (v: Option<bytes>) {
    var c := IndexByte(line, COLON);
    if c > 0 && line[..c] == key then Some(lib.trimSpace(line[c + 1..])) else None
  }

  /** `GetHeader` from a line start on; None is Go's panic, for a line that does not end. */
  function Lookup(lib: Library, s: bytes, first: bool, key: bytes): (r: Option<bytes>)
    decreases |s|
  {
    if s == [] then Some([])
    else
      var q := FindCrLf(s, 0);
      if q == 0 then Some([])
      else if q == -1 then (if first then Lookup(lib, s[1..], false, key) else None)
      else if first then Lookup(lib, s[q + 2..], false, key)
      else
        match InLine(lib, s[..q], key)
        case Some(v) => Some(v)
        case None => Lookup(lib, s[q + 2..], false, key)
  }

  /** One line of the scan, in the middle of the data. */
  lemma LineScanned(lib: Library, data: bytes, start: nat, key: bytes)
    requires start < |data|
    ensures var idx := FindCrLf(data[start..], 0);
            Lookup(lib, data[start..], start == 0, key) ==
            if idx == 0 then Some([])
            else if idx == -1 && start > 0 then None
            else if start > 0 && InLine(lib, data[start..start + idx], key).Some? then InLine(lib, data[start..start + idx], key)
            else Lookup(lib, data[start + idx + 2..], false, key)
  {
    hide FindCrLf;
    hide InLine;
    var s, idx := data[start..], FindCrLf(data[start..], 0);
    assert s[idx + 2..] == data[start + idx + 2..];
    if idx > 0 { assert data[start..start + idx] == s[..idx]; }
  }

  lemma NothingLooked(lib: Library, first: bool, key: bytes)
    ensures Lookup(lib, [], first, key) == Some([])
  {
  }

  /** `GetHeader`: the loop of `ForeachHeader` with its callback. */
  method GetHeader(lib: Library, data: bytes, key: bytes) returns (value: Option<bytes>)
    ensures value == Lookup(lib, data, true, key)
  {
    hide Lookup;
    hide FindCrLf;
    hide InLine;
    var start := 0;
    assert data[0..] == data;
    while start < |data|
      invariant start <= |data| && Lookup(lib, data[start..], start == 0, key) == Lookup(lib, data, true, key)
    {
      LineScanned(lib, data, start, key);
      var idx := FindCrLf(data[start..], 0);
      if idx == 0 { return Some([]); }
      if start > 0 {
        if idx == -1 { return None; }
        value := InLine(lib, data[start..start + idx], key);
        if value.Some? { return; }
      }
      start := start + idx + 2;
    }
    assert data[start..] == [];
    NothingLooked(lib, start == 0, key);
    value := Some([]);
  }

  /** What the first header of that name says; empty when there is none. */
  function FirstValue(lib: Library, hs: seq<Header>, name: string): (v: bytes) {
    if hs == [] then []
    else if Named(hs[0].0, name) then lib.trimSpace(hs[0].1)
    else FirstValue(lib, hs[1..], name)
  }

  lemma LineLooked(lib: Library, x: Header, rest: bytes, key: bytes)
    requires x.0 != [] && Lacks(x.0, COLON) && OneLine(HeaderText(x))
    ensures Lookup(lib, HeaderText(x) + CRLF + rest, false, key) ==
            if x.0 == key then Some(lib.trimSpace(x.1)) else Lookup(lib, rest, false, key)
  {
    hide FindCrLf;
    hide IndexByte;
    var l := HeaderText(x);
    var s := l + CRLF + rest;
    FirstBreak(l, rest);
    FirstAt(x.0, COLON, x.1);
    assert s[..|l|] == l && s[|l| + 2..] == rest;
    assert l[..|x.0|] == x.0 && l[|x.0| + 1..] == x.1;
  }

  lemma LowerLine(x: Header)
    requires x.0 != [] && Lacks(x.0, COLON) && OneLine(x.0) && OneLine(x.1)
    ensures Lower(x.0) != [] && Lacks(Lower(x.0), COLON) && OneLine(HeaderText((Lower(x.0), x.1)))
  {
    var k := Lower(x.0);
    assert OneLine(k) by {
      forall j | 0 <= j && j + 1 < |k| ensures !CrLfAt(k, j) { assert !CrLfAt(x.0, j); }
    }
    OneLineAt(k, COLON, x.1);
  }

  lemma {:induction false} HeadersLooked(lib: Library, hs: seq<Header>, body: bytes, name: string)
    requires HeadersOk(hs) && LowerName(name)
    ensures Lookup(lib, Joined(HeaderTexts(LowerKeys(hs))) + CRLF + body, false, Ascii(name)) == Some(FirstValue(lib, hs, name))
    decreases |hs|
  {
    hide Lookup;
    hide Lower;
    hide Named;
    hide OneLine;
    if hs == [] {
      BlankLooked(lib, body, Ascii(name));
      assert Joined(HeaderTexts(LowerKeys(hs))) + CRLF + body == CRLF + body;
    } else {
      var x, rest := (Lower(hs[0].0), hs[0].1), Joined(HeaderTexts(LowerKeys(hs[1..])));
      TextsFirst(LowerKeys(hs));
      LowerLine(hs[0]);
      NamedIffLower(hs[0].0, name);
      Assoc(HeaderText(x) + CRLF, rest, CRLF);
      Assoc(HeaderText(x) + CRLF, rest + CRLF, body);
      LineLooked(lib, x, rest + CRLF + body, Ascii(name));
      HeadersLooked(lib, hs[1..], body, name);
    }
  }

  lemma BlankLooked(lib: Library, body: bytes, key: bytes)
    ensures Lookup(lib, CRLF + body, false, key) == Some([])
  {
    assert CrLfAt(CRLF + body, 0);
  }

  /** A text split at its line breaks. */
  function Split(l: bytes): (ls: seq<bytes>)
    ensures |ls| > 0
    decreases |l|
  {
    var q := FindCrLf(l, 0);
    if q == -1 then [l] else [l[..q]] + Split(l[q + 2..])
  }

  /** What the search finds in these lines; an empty one ends it. */
  function InLines(lib: Library, ls: seq<bytes>, key: bytes): (v: Option<bytes>) {
    if ls == [] then None
    else if ls[0] == [] then Some([])
    else if InLine(lib, ls[0], key).Some? then InLine(lib, ls[0], key)
    else InLines(lib, ls[1..], key)
  }

  lemma LastLine(lib: Library, l: bytes, key: bytes)
    requires FindCrLf(l, 0) == -1
    ensures InLines(lib, Split(l), key) == if l == [] then Some([]) else InLine(lib, l, key)
  {
    hide InLine;
    hide FindCrLf;
    assert Split(l) == [l] && InLines(lib, [l][1..], key) == None;
  }

  lemma FirstLineOf(lib: Library, l: bytes, key: bytes)
    requires FindCrLf(l, 0) != -1
    ensures var q := FindCrLf(l, 0);
            InLines(lib, Split(l), key) ==
            if q == 0 then Some([])
            else if InLine(lib, l[..q], key).Some? then InLine(lib, l[..q], key)
            else InLines(lib, Split(l[q + 2..]), key)
  {
    hide InLine;
    hide FindCrLf;
    var q := FindCrLf(l, 0);
    assert Split(l)[1..] == Split(l[q + 2..]);
  }

  /** The search goes through the lines of a text, then on to what follows it. */
  lemma {:induction false} LinesLooked(lib: Library, l: bytes, rest: bytes, key: bytes)
    ensures var v := InLines(lib, Split(l), key);
            Lookup(lib, l + CRLF + rest, false, key) == if v.Some? then v else Lookup(lib, rest, false, key)
    decreases |l|
  {
    hide InLine;
    hide InLines;
    hide Split;
    hide FindCrLf;
    var s, q := l + CRLF + rest, FindCrLf(l, 0);
    if q == -1 {
      FirstBreak(l, rest);
      LastLine(lib, l, key);
      assert s[..|l|] == l && s[|l| + 2..] == rest;
    } else {
      Assoc(l, CRLF, rest);
      FindCrLfExtend(l, CRLF + rest, 0);
      FirstLineOf(lib, l, key);
      LinesLooked(lib, l[q + 2..], rest, key);
      assert s[..q] == l[..q] && s[q + 2..] == l[q + 2..] + CRLF + rest;
    }
  }

  /** The decoded first line does not start with a line break. */
  lemma StartsWithMethod(r: Request)
    requires Sendable(r)
    ensures DecodedLine(r) != [] && FindCrLf(DecodedLine(r), 0) != 0
  {
    hide PathText;
    hide UnescapedSlice;
    var l, m := DecodedLine(r), |r.verb|;
    assert l[..m + 1] == r.verb + [SPACE];
    assert !CrLfAt(r.verb, 0) && (m > 0 ==> l[0] == r.verb[0]) && (m > 1 ==> l[1] == r.verb[1]) && l[m] == SPACE;
  }

  /** In any request that has arrived a name in lower case finds the first header spelled so, in
      any case of letters. What the parser has decoded comes first: the lines it broke the first
      line into are looked through before the headers, and an empty one ends the search. Without
      such line breaks the headers alone decide; the body never does. */
  lemma HeaderFound(lib: Library, o: ReadState.Outcome, r: Request, name: string)
    requires Sendable(r) && LineOk(lib, r) && Arrived(lib, o, r) && LowerName(name)
    ensures var extra := InLines(lib, Split(DecodedLine(r))[1..], Ascii(name));
            Lookup(lib, o.st.http.value.data, true, Ascii(name)) ==
            Some(if extra.Some? then extra.value else FirstValue(lib, r.headers, name))
    ensures OneLine(DecodedLine(r)) ==> Lookup(lib, o.st.http.value.data, true, Ascii(name)) == Some(FirstValue(lib, r.headers, name))
  {
    hide FindCrLf;
    hide DecodedLine;
    hide Lines;
    hide InLine;
    hide Arrived;
    var l, hs := DecodedLine(r), Joined(HeaderTexts(LowerKeys(r.headers))) + CRLF;
    Assoc(l + CRLF, hs, r.body);
    DataOf(lib, o, r);
    StartsWithMethod(r);
    HeadersLooked(lib, r.headers, r.body, name);
    PastFirstLine(lib, l, hs + r.body, Ascii(name));
    if OneLine(l) { assert FindCrLf(l, 0) == -1; assert Split(l)[1..] == []; }
  }

  lemma DataOf(lib: Library, o: ReadState.Outcome, r: Request)
    requires Sendable(r) && LineOk(lib, r) && Arrived(lib, o, r)
    ensures o.st.http.Some? && o.st.http.value.data == DecodedHead(r) + r.body
  {
  }

  lemma PastFirstLine(lib: Library, l: bytes, rest: bytes, key: bytes)
    requires l != [] && FindCrLf(l, 0) != 0
    ensures var v := InLines(lib, Split(l)[1..], key);
            Lookup(lib, l + CRLF + rest, true, key) == if v.Some? then v else Lookup(lib, rest, false, key)
  {
    hide InLine;
    hide FindCrLf;
    var s, q := l + CRLF + rest, FindCrLf(l, 0);
    if q == -1 {
      FirstBreak(l, rest);
      assert s[|l| + 2..] == rest && Split(l)[1..] == [];
    } else {
      Assoc(l, CRLF, rest);
      FindCrLfExtend(l, CRLF + rest, 0);
      LinesLooked(lib, l[q + 2..], rest, key);
      assert s[q + 2..] == l[q + 2..] + CRLF + rest && Split(l)[1..] == Split(l[q + 2..]);
    }
  }
}
