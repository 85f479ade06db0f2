/** The client's command encoder (redis/client.go) against the server's parser (state.go, redis.go). */
module Command {
  import opened Bytes
  import opened HttpHeader
  import opened ReadState

  const AUTH: bytes := Ascii("AUTH")

  function Bulk(arg: bytes): (b: bytes)
    ensures |b| >= 6 + |arg|
  {
    NumberLine(DOLLAR, |arg|) + arg + CRLF
  }

  function BulkStrings(args: seq<bytes>): (b: bytes) {
    if args == [] then [] else Bulk(args[0]) + BulkStrings(args[1..])
  }

  /** A command on the wire. */
  function Encode(args: seq<bytes>): (b: bytes) {
    NumberLine(STAR, |args|) + BulkStrings(args)
  }

  lemma {:induction false} BulkStringsSnoc(args: seq<bytes>, last: bytes)
    ensures BulkStrings(args + [last]) == BulkStrings(args) + Bulk(last)
  {
    if args == [] {
      assert args + [last] == [last] && [last][1..] == [];
      assert BulkStrings([last]) == Bulk(last) + [];
    } else {
      assert (args + [last])[1..] == args[1..] + [last];
      BulkStringsSnoc(args[1..], last);
      Assoc(Bulk(args[0]), BulkStrings(args[1..]), Bulk(last));
    }
  }

  /** An argument as `Exec` is given it: bytes or a string, an integer, or any other value, for
      which `printed` is what the formatter makes of it. */
  datatype Given = Text(s: bytes) | Integer(i: int) | Other(printed: bytes)

  function Spelling(g: Given): (s: bytes) {
    match g
    case Text(s) => s
    case Integer(i) => DecimalInt(i)
    case Other(printed) => printed
  }

  function Spellings(gs: seq<Given>): (args: seq<bytes>)
    ensures |args| == |gs| && forall i :: 0 <= i < |gs| ==> args[i] == Spelling(gs[i])
  {
    seq(|gs|, i requires 0 <= i < |gs| => Spelling(gs[i]))
  }

  method AppendBulk(out: bytes, s: bytes) returns (out': bytes)
    ensures out' == out + Bulk(s)
  {
    out' := out + [DOLLAR];
    out' := out' + Decimal(|s|);
    out' := out' + CRLF;
    assert out' == out + NumberLine(DOLLAR, |s|);
    out' := out' + s;
    out' := out' + CRLF;
  }

  /** The encoding closure of `Exec`: append the command to the output buffer. */
  method AppendCommand(out: bytes, cmdArgs: seq<Given>) returns (out': bytes)
    ensures out' == out + Encode(Spellings(cmdArgs))
  {
    hide Bulk;
    ghost var args := Spellings(cmdArgs);
    out' := out + [STAR];
    out' := out' + Decimal(|cmdArgs|);
    out' := out' + CRLF;
    assert out' == out + NumberLine(STAR, |args|);
    ghost var head := out';
    for i := 0 to |cmdArgs|
      invariant out' == head + BulkStrings(args[..i])
    {
      var s := match cmdArgs[i] case Text(s) => s case Integer(i) => DecimalInt(i) case Other(printed) => printed;
      out' := AppendBulk(out', s);
      assert args[..i + 1] == args[..i] + [s];
      BulkStringsSnoc(args[..i], s);
      Assoc(head, BulkStrings(args[..i]), Bulk(s));
    }
    assert args[..|args|] == args;
    Assoc(out, NumberLine(STAR, |args|), BulkStrings(args));
  }

  /** The preface a fresh connection sends when a password is configured. */
  function AuthPreface(password: bytes): (b: bytes) {
    Ascii("*2\r\n$4\r\nAUTH\r\n$") + Decimal(|password|) + CRLF + password + CRLF
  }

  /** The hand-written preface is the command AUTH with the password, so what is proved of
      commands holds of it. */
  lemma PrefaceIsCommand(password: bytes)
    ensures AuthPreface(password) == Encode([AUTH, password])
  {
    hide Decimal;
    hide Ascii;
    var args, d := [AUTH, password], Decimal(|password|);
    assert args[1..] == [password] && [password][1..] == [];
    assert BulkStrings([password]) == Bulk(password) + [];
    assert Bulk(password) == [DOLLAR] + (d + CRLF + password + CRLF);
    PrefaceHead();
    var head := NumberLine(STAR, 2) + Bulk(AUTH);
    assert Encode(args) == head + Bulk(password);
    Assoc(head, [DOLLAR], d + CRLF + password + CRLF);
    assert AuthPreface(password) == (head + [DOLLAR]) + (d + CRLF + password + CRLF);
  }

  lemma PrefaceHead()
    ensures Ascii("*2\r\n$4\r\nAUTH\r\n$") == NumberLine(STAR, 2) + Bulk(AUTH) + [DOLLAR]
  {
    assert Decimal(2) == ['2' as int] && Decimal(4) == ['4' as int];
    assert NumberLine(STAR, 2) == [STAR, '2' as int, CR, LF];
    assert Bulk(AUTH) == [DOLLAR, '4' as int, CR, LF] + AUTH + CRLF;
  }

  // ----- reading a request's arguments (redis.go)

  /** `Get`: nil past the end, a slice of the request, or Go's panic for a slice out of range. */
  datatype Fetched = Nil | Slice(b: bytes) | OutOfRange

  function Get(r: Redis, i: nat): (f: Fetched) {
    if i >= |r.ai| then Nil
    else
      var lo, hi := r.ai[i].start, U32(r.ai[i].start + r.ai[i].len);
      if lo <= hi <= |r.data| then Slice(r.data[lo..hi]) else OutOfRange
  }

  function Len(r: Redis): nat { |r.ai| }

  /** A request has exactly `Len` arguments: past them `Get` gives nil, before them never. */
  lemma GetWithinLen(r: Redis, i: nat)
    ensures Get(r, i) == Nil <==> i >= Len(r)
  {
  }

  // ----- the round trip

  /** Where the arguments of an encoded list stand when its first byte is at `at`. */
  function Spans(at: nat, args: seq<bytes>): (ai: seq<Arg>)
    ensures |ai| == |args|
    decreases |args|
  {
    if args == [] then []
    else
      [Arg(at + |NumberLine(DOLLAR, |args[0]|)|, |args[0]|)] + Spans(at + |Bulk(args[0])|, args[1..])
  }

  /** The head and the end of an encoded argument, as the parser looks for them. */
  lemma BulkRead(rest: bytes, arg: bytes)
    requires Bulk(arg) <= rest && |arg| <= MAX_INT64
    ensures var w := |NumberLine(DOLLAR, |arg|)|;
            ReadHead(DOLLAR, rest) == Number(|arg|, w) && CrLfAt(rest, w + |arg|) && |Bulk(arg)| == w + |arg| + 2
  {
    var line := NumberLine(DOLLAR, |arg|);
    var tail := rest[|line|..];
    assert rest[..|line|] == Bulk(arg)[..|line|] == line;
    assert rest == line + tail;
    NumberLineRead(DOLLAR, |arg|, tail);
    assert rest[|line| + |arg|] == Bulk(arg)[|line| + |arg|] == CR;
    assert rest[|line| + |arg| + 1] == Bulk(arg)[|line| + |arg| + 1] == LF;
  }

  function WithArg(r: Redis, arg: bytes): (r': Redis) {
    r.(ai := r.ai + [Arg(r.read + |NumberLine(DOLLAR, |arg|)|, |arg|)], read := r.read + |Bulk(arg)|)
  }

  lemma OneBulk(r: Redis, s: bytes, arg: bytes)
    requires r.read <= |s| && |r.ai| < r.nargs && Bulk(arg) <= s[r.read..] && r.read + |Bulk(arg)| < 0x1_0000_0000
    ensures Bulks(r, s) == Bulks(WithArg(r, arg), s)
  {
    hide U32;
    hide ReadHead;
    hide NumberLine;
    hide Bulk;
    hide Bulks;
    BulkRead(s[r.read..], arg);
    var x := r.read + |NumberLine(DOLLAR, |arg|)| + |arg|;
    assert CrLfAt(s, x);
    assert AddArg(r, |NumberLine(DOLLAR, |arg|)|, |arg|) == WithArg(r, arg);
    NextBulk(r, s, |NumberLine(DOLLAR, |arg|)|, |arg|);
  }

  /** One turn of the parser's argument loop. */
  lemma NextBulk(r: Redis, s: bytes, w: nat, len: nat)
    requires r.read <= |s| && |r.ai| < r.nargs && ReadHead(DOLLAR, s[r.read..]) == Number(len, w)
    requires len <= 0xffff_ffff && CrLfAt(s, r.read + w + len)
    ensures AddArg(r, w, len).read <= |s| && Bulks(r, s) == Bulks(AddArg(r, w, len), s)
  {
    hide ReadHead;
    hide U32;
  }

  lemma NoBulk(r: Redis, s: bytes)
    requires r.read <= |s| && |r.ai| == r.nargs
    ensures Bulks(r, s) == (r, Done)
  {
  }

  lemma {:induction false} AllBulks(r: Redis, s: bytes, args: seq<bytes>)
    requires r.read <= |s| && r.nargs == |r.ai| + |args|
    requires BulkStrings(args) <= s[r.read..] && r.read + |BulkStrings(args)| < 0x1_0000_0000
    ensures Bulks(r, s) == (r.(ai := r.ai + Spans(r.read, args), read := r.read + |BulkStrings(args)|), Done)
    decreases |args|
  {
    hide Bulks;
    hide Bulk;
    hide NumberLine;
    if args == [] {
      assert r.ai + [] == r.ai;
      NoBulk(r, s);
    } else {
      var first, r' := Bulk(args[0]), WithArg(r, args[0]);
      assert first <= s[r.read..] by { assert BulkStrings(args)[..|first|] == first; }
      OneBulk(r, s, args[0]);
      assert s[r'.read..] == s[r.read..][|first|..];
      assert BulkStrings(args[1..]) == BulkStrings(args)[|first|..];
      AllBulks(r', s, args[1..]);
      Assoc(r.ai, [Arg(r.read + |NumberLine(DOLLAR, |args[0]|)|, |args[0]|)], Spans(r'.read, args[1..]));
    }
  }

  lemma BulkShape(arg: bytes)
    ensures var w := |NumberLine(DOLLAR, |arg|)|;
            |Bulk(arg)| == w + |arg| + 2 && Bulk(arg)[w..w + |arg|] == arg
  {
    hide NumberLine;
  }

  lemma {:induction false} SpansHold(s: bytes, at: nat, args: seq<bytes>, i: nat)
    requires at <= |s| && BulkStrings(args) <= s[at..] && i < |args|
    ensures var a := Spans(at, args)[i];
            a.len == |args[i]| && a.start + a.len <= at + |BulkStrings(args)| && s[a.start..a.start + a.len] == args[i]
    decreases |args|
  {
    hide Bulk;
    hide NumberLine;
    var first := Bulk(args[0]);
    BulkShape(args[0]);
    if i == 0 {
      var w := |NumberLine(DOLLAR, |args[0]|)|;
      assert s[at + w..at + w + |args[0]|] == s[at..][w..w + |args[0]|];
      assert s[at..][w..w + |args[0]|] == BulkStrings(args)[w..w + |args[0]|] == first[w..w + |args[0]|] == args[0];
    } else {
      assert s[at + |first|..] == s[at..][|first|..];
      assert BulkStrings(args[1..]) == BulkStrings(args)[|first|..];
      SpansHold(s, at + |first|, args[1..], i - 1);
    }
  }

  /** What the server must end with: the arguments themselves, and nothing read beyond them. */
  predicate Holds(o: Outcome, args: seq<bytes>) {
    && o.verdict.Done? && o.st.redis.Some? && o.st.http.None?
    && var r := o.st.redis.value;
       && Len(r) == |args|
       && (forall i :: 0 <= i < |args| ==> Get(r, i) == Slice(args[i]))
       && r.data == Encode(args) && r.read == |Encode(args)|
  }

  /** The parsed command. */
  function Parsed(args: seq<bytes>): (r: Redis) {
    Redis(|Encode(args)|, |args|, Spans(|NumberLine(STAR, |args|)|, args), Encode(args))
  }

  /** One call of the parser on a whole command, with anything after it. */
  lemma ServerReadsCommand(lib: Library, args: seq<bytes>, more: bytes)
    requires |args| <= 65535 && |Encode(args)| < 0x1_0000_0000
    ensures Holds(Processed(lib, START, Encode(args) + more), args)
  {
    hide Processed;
    hide Encode;
    hide Get;
    hide Parsed;
    CommandParsed(lib, args, more);
    forall i | 0 <= i < |args| ensures Get(Parsed(args), i) == Slice(args[i]) { ArgumentHeld(args, i); }
    ParsedFields(args);
  }

  lemma CommandParsed(lib: Library, args: seq<bytes>, more: bytes)
    requires |args| <= 65535 && |Encode(args)| < 0x1_0000_0000
    ensures var o := Processed(lib, START, Encode(args) + more);
            o.verdict.Done? && o.st.redis == Some(Parsed(args)) && o.st.http.None?
  {
    hide U32;
    hide U16;
    hide Bulks;
    hide BulkStrings;
    hide Spans;
    hide NumberLine;
    hide ReadHead;
    hide Processed;
    var line, s := NumberLine(STAR, |args|), Encode(args) + more;
    CommandHead(args, more);
    BeginCommand(lib, s, |args|, |line|);
    AllBulks(Redis(|line|, |args|, [], []), s, args);
    assert [] + Spans(|line|, args) == Spans(|line|, args);
    assert s[..|Encode(args)|] == Encode(args);
  }

  lemma ParsedFields(args: seq<bytes>)
    ensures var r := Parsed(args); Len(r) == |args| && r.data == Encode(args) && r.read == |Encode(args)|
  {
    hide Encode;
  }

  lemma ArgumentHeld(args: seq<bytes>, i: nat)
    requires i < |args| && |Encode(args)| < 0x1_0000_0000
    ensures Get(Parsed(args), i) == Slice(args[i])
  {
    hide BulkStrings;
    hide NumberLine;
    hide Spans;
    var line, s := NumberLine(STAR, |args|), Encode(args);
    assert s[|line|..] == BulkStrings(args);
    SpansHold(s, |line|, args, i);
  }

  lemma BeginCommand(lib: Library, s: bytes, n: nat, w: nat)
    requires ReadHead(STAR, s) == Number(n, w) && n <= 65535 && w <= |s|
    ensures Processed(lib, START, s) == Arguments(State(1, Some(Redis(U32(w), U16(n), [], [])), None), s)
  {
    hide ReadHead;
    hide HttpLines;
    hide Arguments;
  }

  lemma CommandHead(args: seq<bytes>, more: bytes)
    requires |args| <= MAX_INT64
    ensures var line, s := NumberLine(STAR, |args|), Encode(args) + more;
            ReadHead(STAR, s) == Number(|args|, |line|) && BulkStrings(args) <= s[|line|..]
  {
    hide BulkStrings;
    var line := NumberLine(STAR, |args|);
    Assoc(line, BulkStrings(args), more);
    NumberLineRead(STAR, |args|, BulkStrings(args) + more);
    assert (Encode(args) + more)[|line|..] == BulkStrings(args) + more;
  }

  /** Any list of byte strings, CR LF inside or not, arrives argument for argument, however the
      connection cuts the bytes and whatever is sent after them. */
  lemma CommandRoundTrip(lib: Library, args: seq<bytes>, more: bytes, chunks: seq<bytes>)
    requires |args| <= 65535 && |Encode(args)| < 0x1_0000_0000
    requires Flatten(chunks) == Encode(args) + more
    ensures Holds(Feed(lib, START, [], chunks).outcome, args)
  {
    ServerReadsCommand(lib, args, more);
    ChunkingIsInvisible(lib, chunks);
  }
}
