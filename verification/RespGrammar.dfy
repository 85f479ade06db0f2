/** Which replies the client accepts: `readElement` and the `Reader` of redis/parser.go against a
    grammar of RESP texts. */
module RespGrammar {
  import opened Bytes
  import opened Resp

  /** A RESP text: a line, a bulk string or null with its length field, or an array with its count
      field. The fields are any spelling of their number. */
  datatype Syntax =
    | Line(head: byte, text: bytes)
    | Bulk(len: bytes, data: bytes)
    | NullBulk(len: bytes)
    | Group(count: bytes, items: seq<Syntax>)

  function Spell(x: Syntax): (b: bytes)
    decreases x, 0
  {
    match x
    case Line(head, text) => [head] + text + CRLF
    case Bulk(len, data) => [DOLLAR] + len + CRLF + data + CRLF
    case NullBulk(len) => [DOLLAR] + len + CRLF
    case Group(count, items) => [STAR] + count + CRLF + SpellAll(items)
  }

  function SpellAll(xs: seq<Syntax>): (b: bytes)
    decreases xs, 1
  {
    if xs == [] then [] else Spell(xs[0]) + SpellAll(xs[1..])
  }

  /** Fields that say what follows: a length is the data's length, minus one is null, a count is
      the number of items or negative for none; and a bulk string's end fits an int. */
  predicate Proper(x: Syntax)
    decreases x
  {
    match x
    case Line(head, text) => IsLineHead(head) && OneLine(text)
    case Bulk(len, data) => ParseInt(len) == Value(|data|) && |Spell(x)| <= MAX_INT64
    case NullBulk(len) => ParseInt(len) == Value(-1)
    case Group(count, items) =>
      && ParseInt(count).Value? && |items| == (if ParseInt(count).v < 0 then 0 else ParseInt(count).v)
      && forall i :: 0 <= i < |items| ==> Proper(items[i])
  }

  predicate AllProper(xs: seq<Syntax>) {
    forall i :: 0 <= i < |xs| ==> Proper(xs[i])
  }

  /** What a reader of the text sees. An integer line that is no number reads as zero, one that
      does not fit as the nearest number that does. */
  function Meaning(x: Syntax): (seen: Seen)
    decreases x, 0
  {
    match x
    case Line(head, text) =>
      if head == PLUS then Text(text) else if head == MINUS then Problem(text) else Number(ParseInt(text).OrElse())
    case Bulk(_, data) => Text(data)
    case NullBulk(_) => Text([])
    case Group(_, items) => Many(Meanings(items))
  }

  function Meanings(xs: seq<Syntax>): (seen: seq<Seen>)
    decreases xs, 1
  {
    if xs == [] then [] else [Meaning(xs[0])] + Meanings(xs[1..])
  }

  // ----- texts are accepted

  /** The first line of a text, and its field, are found. */
  lemma FieldFound(head: byte, d: bytes, rest: bytes)
    requires head != CR && OneLine(d)
    ensures var s := [head] + d + CRLF + rest;
            && FindCrLf(s, 0) == 1 + |d| && s[0] == head && s[1..1 + |d|] == d && s[|d| + 3..] == rest
  {
    LineMeasured(head, d, rest);
    var s := [head] + d + CRLF + rest;
    assert s[1..1 + |d|] == d && s[|d| + 3..] == rest;
  }

  lemma BulkAccepted(x: Syntax, rest: bytes)
    requires x.Bulk? && Proper(x)
    ensures var s := Spell(x) + rest; Element(s) == Size(|Spell(x)|) && ItemOf(s) == Str(x.data)
  {
    hide ParseInt;
    hide FindCrLf;
    var d, data, s := x.len, x.data, Spell(x) + rest;
    NumberText(d);
    Assoc([DOLLAR] + d + CRLF, data, CRLF);
    Assoc([DOLLAR] + d + CRLF, data + CRLF, rest);
    FieldFound(DOLLAR, d, data + CRLF + rest);
    var end := |d| + 3 + |data| + 2;
    assert s[end - 2] == CR && s[end - 1] == LF;
    assert s[|d| + 3..end - 2] == data;
  }

  /** Every proper text is accepted, at its own length, whatever follows. */
  lemma {:induction false} SpelledMeasured(x: Syntax, rest: bytes)
    requires Proper(x)
    ensures Element(Spell(x) + rest) == Size(|Spell(x)|)
    decreases x, 0
  {
    match x
    case Line(head, text) => FieldFound(head, text, rest);
    case Bulk(_, _) => BulkAccepted(x, rest);
    case NullBulk(len) =>
      NumberText(len);
      FieldFound(DOLLAR, len, rest);
    case Group(count, items) =>
      AllSpelledMeasured(items, rest);
      GroupMeasured(count, items, rest);
  }

  lemma GroupMeasured(count: bytes, items: seq<Syntax>, rest: bytes)
    requires ParseInt(count).Value? && |items| == (if ParseInt(count).v < 0 then 0 else ParseInt(count).v)
    requires Elements(SpellAll(items) + rest, |items|) == Size(|SpellAll(items)|)
    ensures var s := Spell(Group(count, items)) + rest;
            Element(s) == Size(|Spell(Group(count, items))|) && ItemOf(s) == Sub(SpellAll(items))
  {
    hide ParseInt;
    hide FindCrLf;
    hide SpellAll;
    var s, n := Spell(Group(count, items)) + rest, |count| + 3;
    NumberText(count);
    Assoc([STAR] + count + CRLF, SpellAll(items), rest);
    FieldFound(STAR, count, SpellAll(items) + rest);
    assert s[n..n + |SpellAll(items)|] == SpellAll(items);
  }

  lemma {:induction false} AllSpelledMeasured(xs: seq<Syntax>, rest: bytes)
    requires AllProper(xs)
    ensures Elements(SpellAll(xs) + rest, |xs|) == Size(|SpellAll(xs)|)
    decreases xs, 1
  {
    hide Spell;
    hide Element;
    if xs != [] {
      var first, others := Spell(xs[0]), SpellAll(xs[1..]);
      SpelledMeasured(xs[0], others + rest);
      AllSpelledMeasured(xs[1..], rest);
      Assoc(first, others, rest);
      assert (first + (others + rest))[|first|..] == others + rest;
    }
  }

  // ----- and read

  lemma ScalarItem(x: Syntax, rest: bytes)
    requires Proper(x) && !x.Group?
    ensures var s := Spell(x) + rest;
            && Element(s) == Size(|Spell(x)|)
            && ItemOf(s) == (match Meaning(x) case Text(t) => Str(t) case Problem(t) => Err(t) case Number(i) => Int(i))
  {
    SpelledMeasured(x, rest);
    match x
    case Line(head, text) => FieldFound(head, text, rest);
    case Bulk(_, _) => BulkAccepted(x, rest);
    case NullBulk(len) =>
      NumberText(len);
      FieldFound(DOLLAR, len, rest);
  }

  /** Reading a proper text shows its meaning and leaves what follows. */
  lemma {:induction false} SpelledRead(x: Syntax, rest: bytes)
    requires Proper(x) && Walkable(rest)
    ensures Walkable(Spell(x) + rest) && Walk(Spell(x) + rest) == [Meaning(x)] + Walk(rest)
    decreases x, 0
  {
    hide Element;
    hide ItemOf;
    hide Spell;
    var s := Spell(x) + rest;
    assert s[|Spell(x)|..] == rest;
    if x.Group? {
      AllSpelledMeasured(x.items, rest);
      GroupMeasured(x.count, x.items, rest);
      Nothing();
      AllSpelledRead(x.items, []);
      assert SpellAll(x.items) + [] == SpellAll(x.items);
      assert Meanings(x.items) + [] == Meanings(x.items);
    } else {
      ScalarItem(x, rest);
    }
  }

  lemma Nothing()
    ensures Walkable([]) && Walk([]) == []
  {
  }

  lemma {:induction false} AllSpelledRead(xs: seq<Syntax>, rest: bytes)
    requires AllProper(xs) && Walkable(rest)
    ensures Walkable(SpellAll(xs) + rest) && Walk(SpellAll(xs) + rest) == Meanings(xs) + Walk(rest)
    decreases xs, 1
  {
    hide Walk;
    hide Walkable;
    hide Spell;
    if xs == [] {
      assert SpellAll(xs) + rest == rest;
    } else {
      AllSpelledRead(xs[1..], rest);
      SpelledRead(xs[0], SpellAll(xs[1..]) + rest);
      Assoc(Spell(xs[0]), SpellAll(xs[1..]), rest);
      Assoc([Meaning(xs[0])], Meanings(xs[1..]), Walk(rest));
    }
  }

  // ----- nothing else is accepted

  /** A line cut out of a buffer. */
  lemma LineCut(s: bytes)
    requires s != [] && FindCrLf(s, 0) > 0
    ensures var idx := FindCrLf(s, 0);
            && OneLine(s[1..idx]) && s[..idx + 2] == [s[0]] + s[1..idx] + CRLF
  {
    var idx := FindCrLf(s, 0);
    forall j | 0 <= j && j + 1 < |s[1..idx]| ensures !CrLfAt(s[1..idx], j) {
      assert !CrLfAt(s, j + 1);
      assert s[1..idx][j] == s[j + 1] && s[1..idx][j + 1] == s[j + 2];
    }
    assert s[idx..idx + 2] == CRLF;
  }

  /** Whatever is accepted is a proper text. */
  lemma {:induction false} AcceptedSpelled(s: bytes) returns (x: Syntax)
    requires Element(s).Size?
    ensures Proper(x) && Spell(x) == s[..Element(s).n]
    decreases |s|, 0
  {
    hide Spell;
    hide Proper;
    hide ParseInt;
    hide FindCrLf;
    var idx := FindCrLf(s, 0);
    assert idx > 0;
    if IsLineHead(s[0]) {
      x := LineTextCut(s);
    } else if s[0] == STAR {
      var xs := AllAcceptedSpelled(s[idx + 2..], ParseInt(s[1..idx]).v);
      x := GroupCut(s, xs);
    } else if ParseInt(s[1..idx]).v == -1 {
      x := NullCut(s);
    } else {
      x := BulkCut(s);
    }
  }

  lemma LineTextCut(s: bytes) returns (x: Syntax)
    requires Element(s).Size? && IsLineHead(s[0])
    ensures Proper(x) && Spell(x) == s[..Element(s).n]
  {
    hide FindCrLf;
    LineCut(s);
    x := Line(s[0], s[1..FindCrLf(s, 0)]);
  }

  lemma NullCut(s: bytes) returns (x: Syntax)
    requires Element(s).Size? && s[0] == DOLLAR && ParseInt(s[1..FindCrLf(s, 0)]).v == -1
    ensures Proper(x) && Spell(x) == s[..Element(s).n]
  {
    hide ParseInt;
    hide FindCrLf;
    LineCut(s);
    x := NullBulk(s[1..FindCrLf(s, 0)]);
  }

  lemma GroupCut(s: bytes, xs: seq<Syntax>) returns (x: Syntax)
    requires Element(s).Size? && s[0] == STAR && AllProper(xs)
    requires var idx := FindCrLf(s, 0);
             var count := ParseInt(s[1..idx]).v;
             && |xs| == (if count < 0 then 0 else count)
             && Elements(s[idx + 2..], count).Size? && SpellAll(xs) == s[idx + 2..][..Elements(s[idx + 2..], count).n]
    ensures Proper(x) && Spell(x) == s[..Element(s).n]
  {
    hide ParseInt;
    hide FindCrLf;
    hide Elements;
    var idx, n := FindCrLf(s, 0), Element(s).n;
    LineCut(s);
    x := Group(s[1..idx], xs);
    assert s[..n] == s[..idx + 2] + s[idx + 2..][..n - idx - 2];
  }

  lemma BulkCut(s: bytes) returns (x: Syntax)
    requires Element(s).Size? && s[0] == DOLLAR && ParseInt(s[1..FindCrLf(s, 0)]).v != -1
    ensures Proper(x) && Spell(x) == s[..Element(s).n]
  {
    hide ParseInt;
    hide FindCrLf;
    var idx, n := FindCrLf(s, 0), Element(s).n;
    LineCut(s);
    x := Bulk(s[1..idx], s[idx + 2..n - 2]);
    assert s[n - 2..n] == CRLF;
    assert s[..n] == s[..idx + 2] + s[idx + 2..n - 2] + s[n - 2..n];
  }

  lemma {:induction false} AllAcceptedSpelled(s: bytes, count: int) returns (xs: seq<Syntax>)
    requires Elements(s, count).Size?
    ensures AllProper(xs) && |xs| == (if count < 0 then 0 else count) && SpellAll(xs) == s[..Elements(s, count).n]
    decreases |s|, 1
  {
    hide Element;
    hide Spell;
    xs := [];
    if count > 0 {
      var n := Element(s).n;
      var x := AcceptedSpelled(s);
      var rest := AllAcceptedSpelled(s[n..], count - 1);
      xs := [x] + rest;
      assert s[..Elements(s, count).n] == s[..n] + s[n..][..Elements(s[n..], count - 1).n];
    }
  }

  /** So `readElement` accepts exactly the proper texts: it says `n` if and only if the first `n`
      bytes are one. */
  lemma AcceptedIff(s: bytes, n: nat)
    ensures Element(s) == Size(n) <==> n <= |s| && exists x :: Proper(x) && Spell(x) == s[..n]
  {
    hide Element;
    hide Spell;
    hide Proper;
    if Element(s) == Size(n) {
      var x := AcceptedSpelled(s);
    }
    if n <= |s| && exists x :: Proper(x) && Spell(x) == s[..n] {
      var x :| Proper(x) && Spell(x) == s[..n];
      SpelledMeasured(x, s[n..]);
      assert s == s[..n] + s[n..];
    }
  }

  /** And what a reader sees of an accepted element is the meaning of its text. */
  lemma AcceptedMeans(s: bytes) returns (x: Syntax)
    requires Element(s).Size?
    ensures Proper(x) && Spell(x) == s[..Element(s).n]
    ensures Walkable(Spell(x)) && Walk(Spell(x)) == [Meaning(x)]
  {
    hide Walk;
    hide Walkable;
    x := AcceptedSpelled(s);
    Nothing();
    SpelledRead(x, []);
    assert Spell(x) + [] == Spell(x) && [Meaning(x)] + [] == [Meaning(x)];
  }

  // ----- why a reply is refused

  predicate Hard(m: Measure) { !m.Size? && !m.WaitMore? }

  /** A fault and the error it is refused with. */
  datatype Fault =
    | WrongHead(b: byte, rest: bytes)
    | NoNumber(head: byte, field: bytes, rest: bytes)
    | Negative(field: bytes, rest: bytes)
    | Unended(field: bytes, data: bytes, end: bytes, rest: bytes)

  function FaultText(f: Fault): (b: bytes) {
    match f
    case WrongHead(b, rest) => [b] + rest
    case NoNumber(head, field, rest) => [head] + field + CRLF + rest
    case Negative(field, rest) => [DOLLAR] + field + CRLF + rest
    case Unended(field, data, end, rest) => [DOLLAR] + field + CRLF + (data + end + rest)
  }

  predicate IsFault(f: Fault) {
    match f
    case WrongHead(b, _) => b != DOLLAR && b != STAR && !IsLineHead(b)
    case NoNumber(head, field, _) => (head == DOLLAR || head == STAR) && OneLine(field) && !ParseInt(field).Value?
    case Negative(field, _) => ParseInt(field).Value? && ParseInt(field).v < -1
    case Unended(field, data, end, _) =>
      ParseInt(field) == Value(|data|) && |end| == 2 && end != CRLF && |field| + |data| + 5 <= MAX_INT64
  }

  function FaultError(f: Fault): (m: Measure) {
    match f
    case WrongHead(_, _) => BadFirstByte
    case NoNumber(_, _, _) => BadNumber
    case Negative(_, _) => BadLength
    case Unended(_, _, _, _) => BadEnd
  }

  lemma FaultRefused(f: Fault)
    requires IsFault(f)
    ensures Element(FaultText(f)) == FaultError(f)
  {
    hide ParseInt;
    hide FindCrLf;
    match f
    case WrongHead(_, _) =>
    case NoNumber(head, field, rest) => FieldFound(head, field, rest);
    case Negative(field, rest) =>
      NumberText(field);
      FieldFound(DOLLAR, field, rest);
    case Unended(field, data, end, rest) => UnendedRefused(field, data, end, rest);
  }

  lemma UnendedRefused(field: bytes, data: bytes, end: bytes, rest: bytes)
    requires IsFault(Unended(field, data, end, rest))
    ensures Element([DOLLAR] + field + CRLF + (data + end + rest)) == BadEnd
  {
    hide ParseInt;
    hide FindCrLf;
    NumberText(field);
    FieldFound(DOLLAR, field, data + end + rest);
    var s, k := [DOLLAR] + field + CRLF + (data + end + rest), |field| + 3 + |data|;
    assert s[k..k + 2] == end;
    assert s[k] == end[0] && s[k + 1] == end[1] && end == [end[0], end[1]];
  }

  /** In an array, after any proper items, the first fault decides. */
  lemma {:induction false} FirstFaultDecides(xs: seq<Syntax>, f: Fault, count: int)
    requires AllProper(xs) && IsFault(f) && count > |xs|
    ensures Elements(SpellAll(xs) + FaultText(f), count) == FaultError(f)
    decreases |xs|
  {
    hide Element;
    hide Spell;
    FaultRefused(f);
    if xs == [] {
      assert SpellAll(xs) + FaultText(f) == FaultText(f);
    } else {
      var first, others := Spell(xs[0]), SpellAll(xs[1..]);
      SpelledMeasured(xs[0], others + FaultText(f));
      FirstFaultDecides(xs[1..], f, count - 1);
      Assoc(first, others, FaultText(f));
      assert (first + (others + FaultText(f)))[|first|..] == others + FaultText(f);
    }
  }

  // ----- waiting is never in vain

  const JUNK: byte := 'X' as int

  lemma {:induction false} JunkIsNoNumber(s: bytes)
    ensures !ScanDigits(s + [JUNK]).Acc?
  {
    assert (s + [JUNK])[..|s|] == s;
  }

  lemma JunkField(d: bytes)
    ensures !ParseInt(d + [JUNK]).Value?
  {
    hide ScanDigits;
    var t := d + [JUNK];
    JunkIsNoNumber(d);
    if d != [] {
      assert t[1..] == d[1..] + [JUNK];
      JunkIsNoNumber(d[1..]);
    }
  }

  lemma JunkEndsLine(s: bytes)
    requires OneLine(s)
    ensures OneLine(s + [JUNK])
  {
    var text := s + [JUNK];
    forall j | 0 <= j && j + 1 < |text| ensures !CrLfAt(text, j) {
      if j + 1 < |s| { assert !CrLfAt(s, j) && text[j] == s[j] && text[j + 1] == s[j + 1]; }
    }
  }

  /** A buffer without CR LF, ended by one after a junk byte. */
  lemma LineEnds(s: bytes)
    requires s != [] && s[0] != CR && FindCrLf(s, 0) == -1
    ensures var s' := s + [JUNK] + CRLF; FindCrLf(s', 0) == |s| + 1 && s'[1..|s| + 1] == s[1..] + [JUNK]
  {
    hide FindCrLf;
    var text, s' := s + [JUNK], s + [JUNK] + CRLF;
    JunkEndsLine(s);
    assert s' + [] == s';
    FindCrLfAfter(text, []);
    assert s'[1..|s| + 1] == s[1..] + [JUNK];
  }

  /** More bytes can always decide a buffer that is waited on. */
  lemma {:induction false} WaitEnds(s: bytes) returns (t: bytes)
    requires Element(s).WaitMore?
    ensures Hard(Element(s + t)) || Element(s + t) == Size(|s + t|)
    decreases |s|, 0
  {
    hide ParseInt;
    hide FindCrLf;
    if s == [] {
      t := [JUNK];
      assert s + t == [JUNK];
      return;
    }
    var idx := FindCrLf(s, 0);
    if idx == -1 {
      t := [JUNK] + CRLF;
      Assoc(s, [JUNK], CRLF);
      LineEnds(s);
      JunkField(s[1..]);
    } else if s[0] == DOLLAR {
      t := BulkWaitEnds(s);
    } else {
      t := AllWaitEnd(s[idx + 2..], ParseInt(s[1..idx]).v);
      GroupExtends(s, t);
    }
  }

  lemma GroupExtends(s: bytes, t: bytes)
    requires Element(s).WaitMore? && s != [] && s[0] == STAR && FindCrLf(s, 0) != -1
    ensures var idx := FindCrLf(s, 0);
            && ParseInt(s[1..idx]).Value?
            && Element(s + t) == Offset(idx + 2, Elements(s[idx + 2..] + t, ParseInt(s[1..idx]).v))
  {
    hide ParseInt;
    hide FindCrLf;
    hide Elements;
    var idx := FindCrLf(s, 0);
    FindCrLfExtend(s, t, 0);
    assert (s + t)[1..idx] == s[1..idx] && (s + t)[idx + 2..] == s[idx + 2..] + t;
  }

  lemma BulkWaitEnds(s: bytes) returns (t: bytes)
    requires Element(s).WaitMore? && s != [] && s[0] == DOLLAR && FindCrLf(s, 0) != -1
    ensures Hard(Element(s + t))
  {
    hide ParseInt;
    hide FindCrLf;
    var idx := FindCrLf(s, 0);
    var end := idx + 2 + ParseInt(s[1..idx]).v + 2;
    t := seq(end - |s|, i => JUNK);
    FindCrLfExtend(s, t, 0);
    assert (s + t)[1..idx] == s[1..idx];
    assert (s + t)[end - 1] == JUNK;
  }

  lemma {:induction false} AllWaitEnd(s: bytes, count: int) returns (t: bytes)
    requires Elements(s, count).WaitMore?
    ensures Hard(Elements(s + t, count)) || Elements(s + t, count) == Size(|s + t|)
    decreases |s|, 1
  {
    hide Element;
    var m := Element(s);
    if m.Size? {
      t := AllWaitEnd(s[m.n..], count - 1);
      ElementExtend(s, t);
      assert (s + t)[m.n..] == s[m.n..] + t;
    } else {
      t := WaitEnds(s);
      var m' := Element(s + t);
      if m'.Size? {
        assert (s + t)[m'.n..] == [];
        if count > 1 {
          ElementExtend(s + t, [JUNK]);
          assert (s + t + [JUNK])[m'.n..] == [JUNK];
          JunkRefused();
          Assoc(s, t, [JUNK]);
          t := t + [JUNK];
        }
      }
    }
  }

  lemma JunkRefused()
    ensures Element([JUNK]) == BadFirstByte
  {
  }

  /** The client never waits in vain: whatever it is waiting on, some further bytes make it decide. */
  lemma NeverInVain(s: bytes)
    requires Element(s).WaitMore?
    ensures exists t :: !Element(s + t).WaitMore?
  {
    var t := WaitEnds(s);
  }
}
