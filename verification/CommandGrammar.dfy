/** Which commands the server accepts: the RESP part of `process` in state.go against a grammar of
    command texts. */
module CommandGrammar {
  import opened Bytes
  import opened HttpHeader
  import opened ReadState
  import opened Command

  /** A command text: a count field, and for each argument a length field and its data. The fields
      are any spelling of their number. */
  datatype Written = Written(count: bytes, args: seq<(bytes, bytes)>)

  function SpellArg(a: (bytes, bytes)): (b: bytes) {
    [DOLLAR] + a.0 + CRLF + (a.1 + CRLF)
  }

  function SpellArgs(args: seq<(bytes, bytes)>): (b: bytes) {
    if args == [] then [] else SpellArg(args[0]) + SpellArgs(args[1..])
  }

  function Spell(w: Written): (b: bytes) {
    [STAR] + w.count + CRLF + SpellArgs(w.args)
  }

  predicate AllProper(args: seq<(bytes, bytes)>) {
    forall i :: 0 <= i < |args| ==> ParseInt(args[i].0) == Value(|args[i].1|)
  }

  predicate Proper(w: Written) {
    ParseInt(w.count) == Value(|w.args|) && |w.args| <= 65535 && AllProper(w.args)
  }

  /** Where the arguments stand when the first of their texts begins at `at`. */
  function Places(at: nat, args: seq<(bytes, bytes)>): (ai: seq<Arg>)
    ensures |ai| == |args|
    decreases |args|
  {
    if args == [] then []
    else [Arg(at + |args[0].0| + 3, |args[0].1|)] + Places(at + |SpellArg(args[0])|, args[1..])
  }

  // ----- texts are accepted

  lemma FieldRead(head: byte, d: bytes, rest: bytes)
    requires head != CR && ParseInt(d).Value?
    ensures var s := [head] + d + CRLF + rest;
            ReadHead(head, s) == Number(ParseInt(d).v, |d| + 3) && s[|d| + 3..] == rest
  {
    hide FindCrLf;
    NumberText(d);
    HeadIsOneLine(head, d);
    FindCrLfAfter([head] + d, rest);
    var s := [head] + d + CRLF + rest;
    assert s[1..1 + |d|] == d && s[|d| + 3..] == rest;
  }

  lemma ArgAccepted(r: Redis, s: bytes, a: (bytes, bytes))
    requires r.read <= |s| < 0x1_0000_0000 && |r.ai| < r.nargs && ParseInt(a.0) == Value(|a.1|)
    requires SpellArg(a) <= s[r.read..]
    ensures var r' := r.(ai := r.ai + [Arg(r.read + |a.0| + 3, |a.1|)], read := r.read + |SpellArg(a)|);
            r'.read <= |s| && Bulks(r, s) == Bulks(r', s)
  {
    hide Bulks;
    hide ReadHead;
    hide U32;
    hide ParseInt;
    var w, len, t := |a.0| + 3, |a.1|, s[r.read..];
    var rest := t[|SpellArg(a)|..];
    assert t == SpellArg(a) + rest;
    Assoc([DOLLAR] + a.0 + CRLF, a.1 + CRLF, rest);
    FieldRead(DOLLAR, a.0, a.1 + CRLF + rest);
    assert t[w + len] == CR && t[w + len + 1] == LF;
    assert CrLfAt(s, r.read + w + len);
    NextBulk(r, s, w, len);
  }

  /** The request once some of its arguments have been read. */
  function Passed(r: Redis, args: seq<(bytes, bytes)>): (r': Redis) {
    r.(ai := r.ai + Places(r.read, args), read := r.read + |SpellArgs(args)|)
  }

  lemma {:induction false} ArgsPassed(r: Redis, s: bytes, args: seq<(bytes, bytes)>)
    requires r.read <= |s| < 0x1_0000_0000 && r.nargs >= |r.ai| + |args| && AllProper(args)
    requires SpellArgs(args) <= s[r.read..]
    ensures Passed(r, args).read <= |s| && Bulks(r, s) == Bulks(Passed(r, args), s)
    decreases |args|
  {
    hide Bulks;
    hide SpellArg;
    hide ParseInt;
    if args == [] {
      assert r.ai + [] == r.ai;
    } else {
      var first, others := SpellArg(args[0]), SpellArgs(args[1..]);
      var r' := r.(ai := r.ai + [Arg(r.read + |args[0].0| + 3, |args[0].1|)], read := r.read + |first|);
      assert s[r.read..][..|first + others|] == first + others;
      assert first == s[r.read..][..|first|];
      ArgAccepted(r, s, args[0]);
      assert s[r'.read..] == s[r.read..][|first|..];
      assert others == s[r'.read..][..|others|];
      ArgsPassed(r', s, args[1..]);
      Assoc(r.ai, [Arg(r.read + |args[0].0| + 3, |args[0].1|)], Places(r'.read, args[1..]));
    }
  }

  lemma ArgsAccepted(r: Redis, s: bytes, args: seq<(bytes, bytes)>)
    requires r.read <= |s| < 0x1_0000_0000 && r.nargs == |r.ai| + |args| && AllProper(args)
    requires SpellArgs(args) <= s[r.read..]
    ensures Bulks(r, s) == (Passed(r, args), Done)
  {
    hide Bulks;
    ArgsPassed(r, s, args);
    NoBulk(Passed(r, args), s);
  }

  lemma {:induction false} PlacesHold(s: bytes, at: nat, args: seq<(bytes, bytes)>, i: nat)
    requires at <= |s| && SpellArgs(args) <= s[at..] && i < |args|
    ensures var a := Places(at, args)[i];
            a.len == |args[i].1| && a.start + a.len + 2 <= at + |SpellArgs(args)| && s[a.start..a.start + a.len] == args[i].1
    decreases |args|
  {
    var first, others := SpellArg(args[0]), SpellArgs(args[1..]);
    assert s[at..][..|first + others|] == first + others;
    if i == 0 {
      var w, n := |args[0].0| + 3, |args[0].1|;
      assert s[at + w..at + w + n] == s[at..][w..w + n] == first[w..w + n] == args[0].1;
    } else {
      assert s[at + |first|..] == s[at..][|first|..];
      assert others == s[at + |first|..][..|others|];
      PlacesHold(s, at + |first|, args[1..], i - 1);
    }
  }

  /** The parsed request of a command text. */
  function Read(w: Written): (r: Redis) {
    Redis(|Spell(w)|, |w.args|, Places(|w.count| + 3, w.args), Spell(w))
  }

  /** Every proper command text is accepted, whatever follows it, and its data are the arguments. */
  lemma SpelledAccepted(lib: Library, w: Written, more: bytes)
    requires Proper(w) && |Spell(w) + more| < 0x1_0000_0000
    ensures var o := Processed(lib, START, Spell(w) + more);
            o.verdict.Done? && o.st.http.None? && o.st.redis == Some(Read(w))
    ensures forall i :: 0 <= i < |w.args| ==> Get(Read(w), i) == Slice(w.args[i].1)
  {
    hide Processed;
    hide Bulks;
    hide ReadHead;
    hide ParseInt;
    hide SpellArgs;
    hide Places;
    hide U32;
    hide U16;
    var s, n := Spell(w) + more, |w.count| + 3;
    Assoc([STAR] + w.count + CRLF, SpellArgs(w.args), more);
    FieldRead(STAR, w.count, SpellArgs(w.args) + more);
    assert SpellArgs(w.args) <= s[n..];
    BeginCommand(lib, s, |w.args|, n);
    ArgsAccepted(Redis(n, |w.args|, [], []), s, w.args);
    assert [] + Places(n, w.args) == Places(n, w.args);
    assert s[..|Spell(w)|] == Spell(w);
    forall i | 0 <= i < |w.args| ensures Get(Read(w), i) == Slice(w.args[i].1) {
      assert Spell(w)[n..] == SpellArgs(w.args);
      PlacesHold(Spell(w), n, w.args, i);
    }
  }

  // ----- and nothing else, but for negative fields

  /** An argument that can be fetched: its range lies in the request. */
  predicate Fetchable(a: Arg, s: bytes) {
    a.start + a.len <= |s|
  }

  lemma TurnTaken(r: Redis, s: bytes) returns (w: nat, len: int)
    requires r.read <= |s| && |r.ai| < r.nargs && Bulks(r, s).1.Done?
    ensures ReadHead(DOLLAR, s[r.read..]) == Number(len, w) && len <= 0xffff_ffff
    ensures r.read + w + len >= 0 && CrLfAt(s, r.read + w + len)
    ensures AddArg(r, w, len).read <= |s| && Bulks(r, s) == Bulks(AddArg(r, w, len), s)
  {
    hide ReadHead;
    hide U32;
    var h := ReadHead(DOLLAR, s[r.read..]);
    w, len := h.w, h.v;
  }

  lemma {:induction false} BulksKeep(r: Redis, s: bytes)
    requires r.read <= |s| && |r.ai| <= r.nargs && Bulks(r, s).1.Done?
    ensures r.ai <= Bulks(r, s).0.ai
    decreases r.nargs - |r.ai|
  {
    if |r.ai| == r.nargs {
      NoBulk(r, s);
    } else {
      var w, len := TurnTaken(r, s);
      hide Bulks;
      BulksKeep(AddArg(r, w, len), s);
    }
  }

  lemma U32Below(x: int)
    requires -0x1_0000_0000 <= x < 0
    ensures U32(x) == x + 0x1_0000_0000
  {
  }

  /** A length read as negative leaves an argument that cannot be fetched. */
  lemma NegativeUnfetchable(r: Redis, s: bytes, w: nat, len: int)
    requires r.read + w <= |s| < 0x1_0000_0000 && len < 0 && r.read + w + len >= 0
    ensures !Fetchable(AddArg(r, w, len).ai[|r.ai|], s)
  {
    U32Below(len);
  }

  lemma ArgCut(s: bytes, at: nat, w: nat, len: nat) returns (a: (bytes, bytes))
    requires at <= |s| && ReadHead(DOLLAR, s[at..]) == Number(len, w) && CrLfAt(s, at + w + len)
    ensures ParseInt(a.0) == Value(len) && |a.0| + 3 == w && |a.1| == len
    ensures at + |SpellArg(a)| == at + w + len + 2 <= |s| && s[at..at + |SpellArg(a)|] == SpellArg(a)
  {
    hide ParseInt;
    hide FindCrLf;
    var t := s[at..];
    var idx := FindCrLf(t, 0);
    a := (t[1..idx], s[at + w..at + w + len]);
    assert t[..w] == [DOLLAR] + a.0 + CRLF by { assert t[idx..idx + 2] == CRLF; }
    assert s[at + w + len..at + w + len + 2] == CRLF;
    assert s[at..at + w + len + 2] == s[at..at + w] + s[at + w..at + w + len] + s[at + w + len..at + w + len + 2];
    assert s[at..at + w] == t[..w];
    Assoc(t[..w], a.1, CRLF);
  }

  lemma {:induction false} BulksCut(r: Redis, s: bytes) returns (args: seq<(bytes, bytes)>)
    requires r.read <= |s| < 0x1_0000_0000 && |r.ai| <= r.nargs && Bulks(r, s).1.Done?
    requires forall i :: |r.ai| <= i < |Bulks(r, s).0.ai| ==> Fetchable(Bulks(r, s).0.ai[i], s)
    ensures AllProper(args) && |args| == r.nargs - |r.ai|
    ensures var r' := Bulks(r, s).0;
            && r.read + |SpellArgs(args)| == r'.read <= |s| && s[r.read..r'.read] == SpellArgs(args)
            && r'.ai == r.ai + Places(r.read, args)
    decreases r.nargs - |r.ai|
  {
    hide ReadHead;
    hide SpellArg;
    hide ParseInt;
    hide U32;
    args := [];
    if |r.ai| == r.nargs {
      NoBulk(r, s);
      assert r.ai + [] == r.ai;
    } else {
      var w, len := TurnTaken(r, s);
      hide Bulks;
      var r1, r' := AddArg(r, w, len), Bulks(r, s).0;
      HeadWithin(s, r.read, w, len);
      BulksKeep(r1, s);
      assert r'.ai[|r.ai|] == r1.ai[|r.ai|];
      if len < 0 { NegativeUnfetchable(r, s, w, len); }
      var a := ArgCut(s, r.read, w, len);
      var rest := BulksCut(r1, s);
      args := [a] + rest;
      ArgPrepended(s, r, a, rest, w, len);
    }
  }

  lemma ArgPrepended(s: bytes, r: Redis, a: (bytes, bytes), rest: seq<(bytes, bytes)>, w: nat, len: nat)
    requires |s| < 0x1_0000_0000 && |a.0| + 3 == w && |a.1| == len
    requires r.read + |SpellArg(a)| == r.read + w + len + 2 <= |s| && s[r.read..r.read + |SpellArg(a)|] == SpellArg(a)
    requires var at := r.read + |SpellArg(a)|; at + |SpellArgs(rest)| <= |s| && s[at..at + |SpellArgs(rest)|] == SpellArgs(rest)
    ensures var r1 := AddArg(r, w, len);
            r1.read == r.read + |SpellArg(a)| && r1.ai + Places(r1.read, rest) == r.ai + Places(r.read, [a] + rest)
    ensures s[r.read..r.read + |SpellArgs([a] + rest)|] == SpellArgs([a] + rest)
    ensures |SpellArgs([a] + rest)| == |SpellArg(a)| + |SpellArgs(rest)|
  {
    hide U32;
    hide SpellArg;
    var n, m := |SpellArg(a)|, |SpellArgs(rest)|;
    assert ([a] + rest)[1..] == rest;
    assert s[r.read..r.read + n + m] == s[r.read..r.read + n] + s[r.read + n..r.read + n + m];
    Assoc(r.ai, [Arg(r.read + w, len)], Places(r.read + n, rest));
  }

  lemma HeadWithin(s: bytes, at: nat, w: nat, len: int)
    requires at <= |s| && ReadHead(DOLLAR, s[at..]) == Number(len, w)
    ensures at + w <= |s|
  {
  }

  /** The count field of an accepted command, and what is left to it. */
  lemma CountTaken(lib: Library, s: bytes) returns (n: int, w: nat)
    requires var o := Processed(lib, START, s); o.verdict.Done? && o.st.redis.Some?
    ensures ReadHead(STAR, s) == Number(n, w) && n <= 65535 && U32(w) <= |s|
    ensures Processed(lib, START, s) == Arguments(State(1, Some(Redis(U32(w), U16(n), [], [])), None), s)
  {
    hide ReadHead;
    hide Bulks;
    hide FindBlankLine;
    hide HttpHeader.Head;
    var h := ReadHead(STAR, s);
    n, w := h.v, h.w;
  }

  /** The text of an accepted command whose count is not negative and whose arguments can all be
      fetched. */
  lemma AcceptedSpelled(lib: Library, s: bytes) returns (w: Written)
    requires |s| < 0x1_0000_0000
    requires var o := Processed(lib, START, s); o.verdict.Done? && o.st.redis.Some?
    requires ReadHead(STAR, s).v >= 0
    requires var r := Processed(lib, START, s).st.redis.value; forall i :: 0 <= i < |r.ai| ==> Fetchable(r.ai[i], s)
    ensures Proper(w) && Spell(w) <= s && Processed(lib, START, s).st.redis == Some(Read(w))
  {
    hide Bulks;
    hide ReadHead;
    hide Processed;
    hide U32;
    hide U16;
    var n, k := CountTaken(lib, s);
    var count := CountCut(s, n, k);
    var r := Redis(k, n, [], []);
    var args := BulksCut(r, s);
    w := Written(count, args);
    var end := Bulks(r, s).0.read;
    assert s[..end] == s[..k] + s[k..end];
    assert [] + Places(k, args) == Places(k, args);
  }

  lemma CountCut(s: bytes, n: int, w: nat) returns (count: bytes)
    requires ReadHead(STAR, s) == Number(n, w)
    ensures w <= |s| && |count| + 3 == w && ParseInt(count) == Value(n) && s[..w] == [STAR] + count + CRLF
  {
    hide ParseInt;
    hide FindCrLf;
    var idx := FindCrLf(s, 0);
    count := s[1..idx];
    assert s[idx..idx + 2] == CRLF;
  }

  /** So what the server takes for a command is a proper command text, with these arguments, if and
      only if its count is not negative and none of its arguments lies outside it. */
  lemma AcceptedIff(lib: Library, s: bytes)
    requires |s| < 0x1_0000_0000
    requires var o := Processed(lib, START, s); o.verdict.Done? && o.st.redis.Some?
    ensures ReadHead(STAR, s).Number?
    ensures var r := Processed(lib, START, s).st.redis.value;
            (exists w :: Proper(w) && Spell(w) <= s && r == Read(w)) <==>
            ReadHead(STAR, s).v >= 0 && forall i :: 0 <= i < |r.ai| ==> Fetchable(r.ai[i], s)
  {
    hide Processed;
    hide ReadHead;
    hide Spell;
    hide Proper;
    var n, k := CountTaken(lib, s);
    var r := Processed(lib, START, s).st.redis.value;
    if ReadHead(STAR, s).v >= 0 && forall i :: 0 <= i < |r.ai| ==> Fetchable(r.ai[i], s) {
      var w := AcceptedSpelled(lib, s);
    }
    if w :| Proper(w) && Spell(w) <= s && r == Read(w) {
      ProperFields(w, s);
    }
  }

  lemma ProperFields(w: Written, s: bytes)
    requires Proper(w) && Spell(w) <= s
    ensures ReadHead(STAR, s) == Number(|w.args|, |w.count| + 3)
    ensures forall i :: 0 <= i < |Read(w).ai| ==> Fetchable(Read(w).ai[i], s)
  {
    hide ReadHead;
    hide ParseInt;
    hide SpellArgs;
    hide Places;
    var rest, n := s[|Spell(w)|..], |w.count| + 3;
    assert s == Spell(w) + rest;
    Assoc([STAR] + w.count + CRLF, SpellArgs(w.args), rest);
    FieldRead(STAR, w.count, SpellArgs(w.args) + rest);
    assert SpellArgs(w.args) <= s[n..];
    forall i | 0 <= i < |w.args| ensures Fetchable(Read(w).ai[i], s) { PlacesHold(s, n, w.args, i); }
  }

  /** A negative length can be accepted: here the line break of the head line is taken for the end
      of the argument. */
  lemma NegativeAccepted(lib: Library)
    ensures var s := NumberLine(STAR, 1) + NumberLine(DOLLAR, -2);
            var o := Processed(lib, START, s);
            o.verdict.Done? && o.st.redis.Some? && o.st.redis.value.ai == [Arg(9, 0xffff_fffe)]
  {
    hide Processed;
    hide ReadHead;
    hide ParseInt;
    var one, two := DecimalInt(1), DecimalInt(-2);
    assert one == ['1' as int] && two == ['-' as int, '2' as int];
    var s := NumberLine(STAR, 1) + NumberLine(DOLLAR, -2);
    ParseDecimal(1);
    ParseDecimal(-2);
    FieldRead(STAR, one, NumberLine(DOLLAR, -2));
    BeginCommand(lib, s, 1, 4);
    FieldRead(DOLLAR, two, []);
    assert NumberLine(DOLLAR, -2) + [] == NumberLine(DOLLAR, -2);
    assert s[4..] == NumberLine(DOLLAR, -2) && CrLfAt(s, 7);
    var r := Redis(4, 1, [], []);
    OneTurn(r, s, 5, -2);
    U32Below(-2);
  }

  lemma OneTurn(r: Redis, s: bytes, w: nat, len: int)
    requires r.read <= |s| && |r.ai| + 1 == r.nargs && ReadHead(DOLLAR, s[r.read..]) == Number(len, w)
    requires len <= 0xffff_ffff && r.read + w + len >= 0 && CrLfAt(s, r.read + w + len)
    ensures Bulks(r, s) == (AddArg(r, w, len), Done)
  {
    hide ReadHead;
    hide U32;
  }

  /** A length so negative that it points before the buffer is a panic. */
  lemma FarNegativePanics(r: Redis, s: bytes, field: bytes, rest: bytes)
    requires r.read <= |s| && |r.ai| < r.nargs && s[r.read..] == [DOLLAR] + field + CRLF + rest
    requires ParseInt(field).Value? && r.read + |field| + 3 + ParseInt(field).v < 0
    ensures Bulks(r, s) == (r, Crash)
  {
    hide ReadHead;
    hide ParseInt;
    FieldRead(DOLLAR, field, rest);
  }

  // ----- why a command is refused

  /** A fault in the count field, or in the argument after some proper ones. */
  datatype Fault =
    | NoCount(field: bytes, rest: bytes)
    | TooMany(field: bytes, rest: bytes)
    | WrongHead(text: bytes)
    | NoLength(field: bytes, rest: bytes)
    | TooLong(field: bytes, rest: bytes)
    | Unended(field: bytes, data: bytes, end: bytes, rest: bytes)

  predicate OfCount(f: Fault) { f.NoCount? || f.TooMany? }

  function FaultText(f: Fault): (b: bytes) {
    match f
    case NoCount(field, rest) => [STAR] + field + CRLF + rest
    case TooMany(field, rest) => [STAR] + field + CRLF + rest
    case WrongHead(text) => text
    case NoLength(field, rest) => [DOLLAR] + field + CRLF + rest
    case TooLong(field, rest) => [DOLLAR] + field + CRLF + rest
    case Unended(field, data, end, rest) => [DOLLAR] + field + CRLF + (data + end + rest)
  }

  predicate IsFault(f: Fault) {
    && |FaultText(f)| >= 4
    && match f
       case NoCount(field, _) => OneLine(field) && !ParseInt(field).Value?
       case TooMany(field, _) => ParseInt(field).Value? && ParseInt(field).v > 65535
       case WrongHead(text) => text[0] != DOLLAR
       case NoLength(field, _) => OneLine(field) && !ParseInt(field).Value?
       case TooLong(field, _) => ParseInt(field).Value? && ParseInt(field).v > 0xffff_ffff
       case Unended(field, data, end, _) => ParseInt(field) == Value(|data|) && |end| == 2 && end != CRLF
  }

  function FaultError(f: Fault): (e: Error) {
    match f
    case NoCount(_, _) => BadNumber
    case TooMany(_, _) => TooManyArguments
    case WrongHead(_) => BadBulkHead
    case NoLength(_, _) => BadNumber
    case TooLong(_, _) => BadBulkLength
    case Unended(_, _, _, _) => BadBulkTail
  }

  lemma NoField(head: byte, d: bytes, rest: bytes)
    requires head != CR && OneLine(d) && !ParseInt(d).Value? && |[head] + d + CRLF + rest| >= 4
    ensures ReadHead(head, [head] + d + CRLF + rest) == Bad
  {
    hide FindCrLf;
    hide ParseInt;
    HeadIsOneLine(head, d);
    FindCrLfAfter([head] + d, rest);
    var s := [head] + d + CRLF + rest;
    assert s[1..1 + |d|] == d;
  }

  lemma FaultyArgument(r: Redis, s: bytes, f: Fault)
    requires r.read <= |s| < 0x1_0000_0000 && |r.ai| < r.nargs && IsFault(f) && !OfCount(f) && s[r.read..] == FaultText(f)
    ensures Bulks(r, s) == (r, Fail(FaultError(f)))
  {
    hide ReadHead;
    hide ParseInt;
    hide U32;
    match f
    case WrongHead(text) => WrongFirst(text);
    case NoLength(field, rest) => NoField(DOLLAR, field, rest);
    case TooLong(field, rest) => FieldRead(DOLLAR, field, rest);
    case Unended(field, data, end, rest) =>
      FieldRead(DOLLAR, field, data + end + rest);
      var t, k := s[r.read..], |field| + 3 + |data|;
      assert t[k] == end[0] && t[k + 1] == end[1] && end == [end[0], end[1]];
      assert s[r.read + k] == t[k] && s[r.read + k + 1] == t[k + 1];
  }

  lemma WrongFirst(text: bytes)
    requires |text| >= 4 && text[0] != DOLLAR
    ensures ReadHead(DOLLAR, text).Other?
  {
  }

  lemma FaultyCount(lib: Library, f: Fault)
    requires IsFault(f) && OfCount(f)
    ensures Processed(lib, START, FaultText(f)).verdict == Fail(FaultError(f))
  {
    hide ReadHead;
    hide ParseInt;
    hide HttpLines;
    hide Arguments;
    if f.NoCount? { NoField(STAR, f.field, f.rest); } else { FieldRead(STAR, f.field, f.rest); }
  }

  /** After a count and any proper arguments short of it, the first fault decides the error. */
  lemma FirstFaultDecides(lib: Library, count: bytes, args: seq<(bytes, bytes)>, f: Fault)
    requires ParseInt(count).Value? && |args| < ParseInt(count).v <= 65535 && AllProper(args)
    requires IsFault(f) && !OfCount(f)
    requires |[STAR] + count + CRLF + (SpellArgs(args) + FaultText(f))| < 0x1_0000_0000
    ensures Processed(lib, START, [STAR] + count + CRLF + (SpellArgs(args) + FaultText(f))).verdict == Fail(FaultError(f))
  {
    hide Processed;
    hide Bulks;
    hide ReadHead;
    hide ParseInt;
    hide SpellArgs;
    hide Places;
    hide FaultText;
    hide IsFault;
    hide U32;
    hide U16;
    var s, n, k := [STAR] + count + CRLF + (SpellArgs(args) + FaultText(f)), ParseInt(count).v, |count| + 3;
    FieldRead(STAR, count, SpellArgs(args) + FaultText(f));
    BeginCommand(lib, s, n, k);
    var r := Redis(k, n, [], []);
    assert SpellArgs(args) <= s[k..];
    ArgsPassed(r, s, args);
    var r' := Passed(r, args);
    assert s[r'.read..] == s[k..][|SpellArgs(args)|..] == FaultText(f);
    FaultyArgument(r', s, f);
  }
}
