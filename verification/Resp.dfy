/** RESP replies: the measurer `readElement`, the cursor `Reader` (redis/parser.go), and the
    server's reply writers (redis.go). */
module Resp {
  import opened Bytes

  const STAR: byte := '*' as int
  const PLUS: byte := '+' as int
  const MINUS: byte := '-' as int
  const COLON: byte := ':' as int
  const DOLLAR: byte := '$' as int

  /** `readElement`'s answer. Crash is a Go run-time panic: the end of a bulk string whose length
      does not fit the machine's int. */
  datatype Measure = Size(n: nat) | WaitMore | BadNumber | BadLength | BadEnd | BadFirstByte | Crash

  predicate IsLineHead(b: byte) { b == PLUS || b == MINUS || b == COLON }

  function MeasureBulk(s: bytes, idx: nat, sz: int): (m: Measure)
    requires idx >= 1 && idx + 2 <= |s|
    ensures m.Size? ==> 3 <= m.n <= |s|
  {
    if sz == -1 then Size(idx + 2)
    else if sz < 0 then BadLength
    else
      var end := idx + 2 + sz + 2;
      if end > MAX_INT64 then Crash
      else if |s| < end then WaitMore
      else if s[end - 2] == CR && s[end - 1] == LF then Size(end) else BadEnd
  }

  /** The length of the element `s` starts with. */
  function Element(s: bytes): (m: Measure)
    ensures m.Size? ==> 3 <= m.n <= |s|
    decreases |s|, 0
  {
    if s == [] then WaitMore
    else if s[0] != DOLLAR && s[0] != STAR && !IsLineHead(s[0]) then BadFirstByte
    else
      var idx := FindCrLf(s, 0);
      if idx == -1 then WaitMore
      else if IsLineHead(s[0]) then Size(idx + 2)
      else
        var n := ParseInt(s[1..idx]);
        if !n.Value? then BadNumber
        else if s[0] == DOLLAR then MeasureBulk(s, idx, n.v)
        else Offset(idx + 2, Elements(s[idx + 2..], n.v))
  }

  /** The length of `count` elements in a row; nothing when `count` is negative. */
  function Elements(s: bytes, count: int): (m: Measure)
    ensures m.Size? ==> m.n <= |s|
    decreases |s|, 1
  {
    if count <= 0 then Size(0)
    else
      match Element(s)
      case Size(n) => Offset(n, Elements(s[n..], count - 1))
      case e => e
  }

  function Offset(k: nat, m: Measure): Measure {
    if m.Size? then Size(k + m.n) else m
  }

  /** `readElement`, with its loop over an array's elements. */
  method ReadElement(s: bytes) returns (m: Measure)
    ensures m == Element(s)
    decreases |s|, 0
  {
    hide ParseInt;
    if s == [] { return WaitMore; }
    if s[0] == DOLLAR {
      var idx := FindCrLf(s, 0);
      if idx > 0 {
        var sz := ParseInt(s[1..idx]);
        if !sz.Value? { return BadNumber; }
        return MeasureBulk(s, idx, sz.v);
      }
    } else if IsLineHead(s[0]) {
      var idx := FindCrLf(s, 0);
      if idx > 0 { return Size(idx + 2); }
    } else if s[0] == STAR {
      var idx := FindCrLf(s, 0);
      if idx > 0 {
        var count := ParseInt(s[1..idx]);
        if !count.Value? { return BadNumber; }
        var x := ReadElements(s[idx + 2..], count.v);
        return Offset(idx + 2, x);
      }
    } else {
      return BadFirstByte;
    }
    return WaitMore;
  }

  /** The loop of `readElement` and `readNext` over an array's elements. */
  method ReadElements(s: bytes, count: int) returns (m: Measure)
    ensures m == Elements(s, count)
    decreases |s|, 1
  {
    hide Element;
    var c, i := 0, 0;
    assert s[0..] == s;
    while i < count
      invariant 0 <= c <= |s| && 0 <= i
      invariant Elements(s, count) == Offset(c, Elements(s[c..], count - i))
      decreases count - i
    {
      var x := ReadElement(s[c..]);
      if !x.Size? { return x; }
      assert s[c + x.n..] == s[c..][x.n..];
      c := c + x.n;
      i := i + 1;
    }
    m := Size(c);
  }

  // ----- stability

  /** An answer other than "wait" is not changed by more bytes. */
  lemma {:induction false} ElementExtend(s: bytes, t: bytes)
    requires !Element(s).WaitMore?
    ensures Element(s + t) == Element(s)
    decreases |s|, 0
  {
    if IsLineHead(s[0]) || s[0] == DOLLAR || s[0] == STAR {
      var idx := FindCrLf(s, 0);
      FindCrLfExtend(s, t, 0);
      assert (s + t)[1..idx] == s[1..idx];
      if s[0] == STAR && ParseInt(s[1..idx]).Value? {
        assert (s + t)[idx + 2..] == s[idx + 2..] + t;
        ElementsExtend(s[idx + 2..], t, ParseInt(s[1..idx]).v);
      }
    }
  }

  lemma {:induction false} ElementsExtend(s: bytes, t: bytes, count: int)
    requires !Elements(s, count).WaitMore?
    ensures Elements(s + t, count) == Elements(s, count)
    decreases |s|, 1
  {
    if count > 0 {
      ElementExtend(s, t);
      var m := Element(s);
      if m.Size? {
        assert (s + t)[m.n..] == s[m.n..] + t;
        ElementsExtend(s[m.n..], t, count - 1);
      }
    }
  }

  /** Cut a well-formed element anywhere inside, at any nesting, and the measurer asks for more. */
  lemma StrictPrefixWaits(s: bytes, k: nat)
    requires Element(s).Size? && k < Element(s).n
    ensures Element(s[..k]).WaitMore?
  {
    if !Element(s[..k]).WaitMore? {
      assert s[..k] + s[k..] == s;
      ElementExtend(s[..k], s[k..]);
    }
  }

  // ----- values and their encoding

  datatype Value =
    | Simple(text: bytes)
    | Failure(text: bytes)
    | Integer(i: int)
    | BulkString(text: bytes)
    | Null
    | Array(items: seq<Value>)

  /** What the writers may be given: line texts hold no CR LF, integers fit 64 bits, and a bulk
      string's end fits an int. */
  predicate Encodable(v: Value)
    decreases v
  {
    match v
    case Simple(t) => OneLine(t)
    case Failure(t) => OneLine(t)
    case Integer(i) => -MAX_INT64 - 1 <= i <= MAX_INT64
    case BulkString(t) => |Encode(v)| <= MAX_INT64
    case Null => true
    case Array(items) => |items| <= MAX_INT64 && forall x :: x in items ==> Encodable(x)
  }

  /** The wire form: `WriteSimpleString`, `WriteError`, `WriteBulkString` and `WriteArrayBegin`
      where the server has them, and RESP's own form for integers and null. */
  function Encode(v: Value): (b: bytes)
    decreases v, 0
  {
    match v
    case Simple(t) => [PLUS] + t + CRLF
    case Failure(t) => [MINUS] + t + CRLF
    case Integer(i) => NumberLine(COLON, i)
    case BulkString(t) => NumberLine(DOLLAR, |t|) + t + CRLF
    case Null => NumberLine(DOLLAR, -1)
    case Array(items) => NumberLine(STAR, |items|) + EncodeAll(items)
  }

  function EncodeAll(vs: seq<Value>): (b: bytes)
    decreases vs, 1
  {
    if vs == [] then [] else Encode(vs[0]) + EncodeAll(vs[1..])
  }

  lemma LineMeasured(head: byte, t: bytes, rest: bytes)
    requires head != CR && OneLine(t)
    ensures FindCrLf([head] + t + CRLF + rest, 0) == 1 + |t|
  {
    var text := [head] + t;
    HeadIsOneLine(head, t);
    FindCrLfAfter(text, rest);
  }

  lemma BulkMeasured(t: bytes, rest: bytes)
    requires |Encode(BulkString(t))| <= MAX_INT64
    ensures Element(Encode(BulkString(t)) + rest) == Size(|Encode(BulkString(t))|)
  {
    var line, s := NumberLine(DOLLAR, |t|), Encode(BulkString(t)) + rest;
    assert s == line + (t + CRLF + rest);
    NumberLineRead(DOLLAR, |t|, t + CRLF + rest);
    var end := |line| + |t| + 2;
    assert s[end - 2] == CR && s[end - 1] == LF;
  }

  /** Every value is measured at exactly its own length, whatever follows. */
  lemma {:induction false} EncodedMeasured(v: Value, rest: bytes)
    requires Encodable(v)
    ensures Element(Encode(v) + rest) == Size(|Encode(v)|)
    decreases v, 0
  {
    match v
    case Simple(t) => LineMeasured(PLUS, t, rest);
    case Failure(t) => LineMeasured(MINUS, t, rest);
    case Integer(i) => NumberLineRead(COLON, i, rest);
    case BulkString(t) => BulkMeasured(t, rest);
    case Null => NumberLineRead(DOLLAR, -1, rest);
    case Array(items) =>
      AllMeasured(items, rest);
      ArrayMeasured(items, rest);
  }

  lemma ArrayMeasured(items: seq<Value>, rest: bytes)
    requires |items| <= MAX_INT64 && Elements(EncodeAll(items) + rest, |items|) == Size(|EncodeAll(items)|)
    ensures Element(Encode(Array(items)) + rest) == Size(|Encode(Array(items))|)
  {
    hide Elements;
    hide EncodeAll;
    var line := NumberLine(STAR, |items|);
    Assoc(line, EncodeAll(items), rest);
    NumberLineRead(STAR, |items|, EncodeAll(items) + rest);
    assert (line + (EncodeAll(items) + rest))[|line|..] == EncodeAll(items) + rest;
  }

  lemma {:induction false} AllMeasured(vs: seq<Value>, rest: bytes)
    requires forall x :: x in vs ==> Encodable(x)
    ensures Elements(EncodeAll(vs) + rest, |vs|) == Size(|EncodeAll(vs)|)
    decreases vs, 1
  {
    if vs != [] {
      var tail := EncodeAll(vs[1..]) + rest;
      Assoc(Encode(vs[0]), EncodeAll(vs[1..]), rest);
      EncodedMeasured(vs[0], tail);
      AllMeasured(vs[1..], rest);
      assert (Encode(vs[0]) + tail)[|Encode(vs[0])|..] == tail;
    }
  }

  // ----- the cursor

  /** What `readNext` returns: end, string, integer, error, or a sub-reader's bytes. */
  datatype Item = End | Str(text: bytes) | Int(i: int) | Err(text: bytes) | Sub(buf: bytes)

  /** The item a buffer's first element reads as. */
  function ItemOf(s: bytes): (item: Item)
    requires s == [] || Element(s).Size?
    ensures item.End? <==> s == []
  {
    if s == [] then End
    else
      var idx, n := FindCrLf(s, 0), Element(s).n;
      if s[0] == DOLLAR then
        if ParseInt(s[1..idx]).v == -1 then Str([]) else Str(s[idx + 2..n - 2])
      else if s[0] == PLUS then Str(s[1..idx])
      else if s[0] == MINUS then Err(s[1..idx])
      else if s[0] == COLON then Int(ParseInt(s[1..idx]).OrElse())
      else Sub(s[idx + 2..n])
  }

  class Reader {
    var buf: bytes

    constructor (buf: bytes)
      ensures this.buf == buf
    {
      this.buf := buf;
    }

    /** `readNext`: on a buffer that starts with an accepted element it returns that element's
        item and drops exactly the bytes `readElement` counts; no index leaves the buffer and the
        BUG panic is not reached. A sub-reader is given by its bytes. */
    method ReadNext() returns (item: Item)
      requires buf == [] || Element(buf).Size?
      modifies this
      ensures item == ItemOf(old(buf))
      ensures buf == if old(buf) == [] then [] else old(buf)[Element(old(buf)).n..]
    {
      if |buf| == 0 { return End; }
      var head := buf[0];
      if head == DOLLAR {
        item := ReadBulk();
      } else if IsLineHead(head) {
        item := ReadLine();
      } else {
        item := ReadArray();
      }
    }

    method ReadBulk() returns (item: Item)
      requires Element(buf).Size? && buf[0] == DOLLAR
      modifies this
      ensures item == ItemOf(old(buf)) && buf == old(buf)[Element(old(buf)).n..]
    {
      var idx := FindCrLf(buf, 0);
      var sz := ParseInt(buf[1..idx]).OrElse();
      if sz == -1 {
        buf := buf[idx + 2..];
        return Str([]);
      }
      var data := buf[idx + 2..idx + 2 + sz];
      buf := buf[idx + 2 + sz + 2..];
      item := Str(data);
    }

    method ReadLine() returns (item: Item)
      requires Element(buf).Size? && IsLineHead(buf[0])
      modifies this
      ensures item == ItemOf(old(buf)) && buf == old(buf)[Element(old(buf)).n..]
    {
      var head, idx := buf[0], FindCrLf(buf, 0);
      var data := buf[1..idx];
      buf := buf[idx + 2..];
      if head == PLUS { return Str(data); }
      if head == MINUS { return Err(data); }
      item := Int(ParseInt(data).OrElse());
    }

    method ReadArray() returns (item: Item)
      requires Element(buf).Size? && buf[0] == STAR
      modifies this
      ensures item == ItemOf(old(buf)) && buf == old(buf)[Element(old(buf)).n..]
    {
      hide ParseInt;
      var idx := FindCrLf(buf, 0);
      var count := ParseInt(buf[1..idx]).OrElse();
      var x := ReadElements(buf[idx + 2..], count);
      var c := idx + 2 + x.n;
      var d := buf[idx + 2..c];
      buf := buf[c..];
      item := Sub(d);
    }

    /** `Array`: a reader of its own for an array's elements, nil for anything else. */
    method Array() returns (sub: Reader?)
      requires buf == [] || Element(buf).Size?
      modifies this
      ensures buf == if old(buf) == [] then [] else old(buf)[Element(old(buf)).n..]
      ensures sub != null <==> ItemOf(old(buf)).Sub?
      ensures sub != null ==> fresh(sub) && sub.buf == ItemOf(old(buf)).buf
    {
      var item := ReadNext();
      if item.Sub? { sub := new Reader(item.buf); } else { sub := null; }
    }

    /** `err`: the error a reply starts with, consuming it; any other reply is left in place. */
    method Error() returns (e: Option<bytes>)
      requires buf == [] || Element(buf).Size?
      modifies this
      ensures e == if ItemOf(old(buf)).Err? then Some(ItemOf(old(buf)).text) else None
      ensures buf == if e.Some? then old(buf)[Element(old(buf)).n..] else old(buf)
    {
      var o := buf;
      var item := ReadNext();
      if item.Err? { return Some(item.text); }
      buf := o;
      e := None;
    }
  }

  // ----- sub-readers and whole walks

  /** `s` is exactly `count` accepted elements, one after the other (none if negative). */
  predicate Exactly(s: bytes, count: int)
    decreases |s|
  {
    if count <= 0 then s == []
    else Element(s).Size? && Exactly(s[Element(s).n..], count - 1)
  }

  /** Measured elements, cut off where they end, are those elements and nothing more. */
  lemma {:induction false} ElementsCut(s: bytes, count: int)
    requires Elements(s, count).Size?
    ensures Exactly(s[..Elements(s, count).n], count)
    decreases |s|
  {
    hide Element;
    if count > 0 {
      var n, m := Element(s).n, Elements(s, count).n;
      ElementsCut(s[n..], count - 1);
      var cut := s[..m];
      assert cut == s[..n] + s[n..m];
      ElementCut(s);
      ElementExtend(s[..n], s[n..m]);
      assert cut[n..] == s[n..m] == s[n..][..m - n];
    }
  }

  /** An accepted element is accepted, at the same length, when cut off where it ends. */
  lemma {:induction false} ElementCut(s: bytes)
    requires Element(s).Size?
    ensures Element(s[..Element(s).n]) == Element(s)
    decreases |s|, 0
  {
    hide ParseInt;
    hide Elements;
    var n, idx := Element(s).n, FindCrLf(s, 0);
    var cut := s[..n];
    assert cut + s[n..] == s;
    assert CrLfAt(cut, idx);
    assert FindCrLf(cut, 0) != -1;
    FindCrLfExtend(cut, s[n..], 0);
    assert cut[1..idx] == s[1..idx];
    if s[0] == STAR {
      var rest, count := s[idx + 2..], ParseInt(s[1..idx]).v;
      assert cut[idx + 2..] == rest[..n - idx - 2];
      ElementsCutMeasured(rest, count);
    }
  }

  lemma {:induction false} ElementsCutMeasured(s: bytes, count: int)
    requires Elements(s, count).Size?
    ensures Elements(s[..Elements(s, count).n], count) == Elements(s, count)
    decreases |s|, 1
  {
    hide Element;
    if count > 0 {
      var n, m := Element(s).n, Elements(s, count).n;
      var cut := s[..m];
      ElementCut(s);
      assert cut == s[..n] + s[n..m];
      ElementExtend(s[..n], s[n..m]);
      assert cut[n..] == s[n..][..m - n];
      ElementsCutMeasured(s[n..], count - 1);
    }
  }

  /** An array's sub-reader holds exactly its count of elements, each accepted in turn. */
  lemma SubReaderExact(s: bytes)
    requires Element(s).Size? && s[0] == STAR
    ensures ItemOf(s).Sub? && Exactly(ItemOf(s).buf, ParseInt(s[1..FindCrLf(s, 0)]).v)
  {
    hide ParseInt;
    hide Exactly;
    hide Elements;
    var idx := FindCrLf(s, 0);
    var count := ParseInt(s[1..idx]).v;
    ElementsCut(s[idx + 2..], count);
    assert s[idx + 2..][..Element(s).n - idx - 2] == s[idx + 2..Element(s).n];
  }

  /** What a caller sees by reading a buffer to its end, sub-readers included. */
  datatype Seen = Text(text: bytes) | Number(i: int) | Problem(text: bytes) | Many(items: seq<Seen>)

  /** Buffers a walk can be made of: accepted elements throughout, arrays inside included. */
  predicate Walkable(s: bytes)
    decreases |s|
  {
    s == [] || (Element(s).Size? && Walkable(s[Element(s).n..]) && (ItemOf(s).Sub? ==> Walkable(ItemOf(s).buf)))
  }

  function Walk(s: bytes): (seen: seq<Seen>)
    requires Walkable(s)
    decreases |s|
  {
    if s == [] then []
    else
      var one :=
        match ItemOf(s)
        case Str(t) => Text(t)
        case Int(i) => Number(i)
        case Err(t) => Problem(t)
        case Sub(b) => Many(Walk(b));
      [one] + Walk(s[Element(s).n..])
  }

  function View(v: Value): (seen: Seen)
    decreases v, 0
  {
    match v
    case Simple(t) => Text(t)
    case Failure(t) => Problem(t)
    case Integer(i) => Number(i)
    case BulkString(t) => Text(t)
    case Null => Text([])
    case Array(items) => Many(ViewAll(items))
  }

  function ViewAll(vs: seq<Value>): (seen: seq<Seen>)
    decreases vs, 1
  {
    if vs == [] then [] else [View(vs[0])] + ViewAll(vs[1..])
  }

  /** Exactly counted elements can be walked to the end, at every nesting: no step of the walk
      meets bytes the reader is not prepared for. */
  lemma {:induction false} ExactWalkable(s: bytes, count: int)
    requires Exactly(s, count)
    ensures Walkable(s)
    decreases |s|
  {
    if count > 0 {
      ExactWalkable(s[Element(s).n..], count - 1);
      if s[0] == STAR {
        SubReaderExact(s);
        ExactWalkable(ItemOf(s).buf, ParseInt(s[1..FindCrLf(s, 0)]).v);
      }
    }
  }

  /** Whatever `readElement` accepts can be read to the end. */
  lemma AcceptedWalkable(s: bytes)
    requires Element(s).Size?
    ensures Walkable(s[..Element(s).n])
  {
    ElementCut(s);
    ExactWalkable(s[..Element(s).n], 1);
  }

  // ----- the round trip

  lemma ItemOfLine(head: byte, t: bytes, rest: bytes)
    requires IsLineHead(head) && OneLine(t)
    ensures var s := [head] + t + CRLF + rest;
            Element(s) == Size(|t| + 3) && s[0] == head && s[1..FindCrLf(s, 0)] == t
  {
    LineMeasured(head, t, rest);
    assert ([head] + t + CRLF + rest)[1..1 + |t|] == t;
  }

  lemma ItemOfBulk(t: bytes, rest: bytes)
    requires |Encode(BulkString(t))| <= MAX_INT64
    ensures var s := Encode(BulkString(t)) + rest;
            Element(s) == Size(|Encode(BulkString(t))|) && ItemOf(s) == Str(t)
  {
    var line, s := NumberLine(DOLLAR, |t|), Encode(BulkString(t)) + rest;
    BulkMeasured(t, rest);
    assert s == line + (t + CRLF + rest);
    NumberLineRead(DOLLAR, |t|, t + CRLF + rest);
    assert s[|line|..|line| + |t|] == t;
  }

  lemma ItemOfArray(items: seq<Value>, rest: bytes)
    requires Encodable(Array(items))
    ensures var s := Encode(Array(items)) + rest;
            Element(s) == Size(|Encode(Array(items))|) && ItemOf(s) == Sub(EncodeAll(items))
  {
    var line, s := NumberLine(STAR, |items|), Encode(Array(items)) + rest;
    EncodedMeasured(Array(items), rest);
    Assoc(line, EncodeAll(items), rest);
    NumberLineRead(STAR, |items|, EncodeAll(items) + rest);
    assert s[|line|..|line| + |EncodeAll(items)|] == EncodeAll(items);
  }

  lemma ItemOfScalar(v: Value, rest: bytes)
    requires Encodable(v) && !v.Array?
    ensures var s := Encode(v) + rest;
            Element(s) == Size(|Encode(v)|) && ItemOf(s) == (match View(v) case Text(t) => Str(t) case Problem(t) => Err(t) case Number(i) => Int(i))
  {
    match v
    case Simple(t) => ItemOfLine(PLUS, t, rest);
    case Failure(t) => ItemOfLine(MINUS, t, rest);
    case Integer(i) => NumberLineRead(COLON, i, rest);
    case BulkString(t) => ItemOfBulk(t, rest);
    case Null => NumberLineRead(DOLLAR, -1, rest);
  }

  /** Reading an encoded value shows its contents, null as an empty text, and leaves what follows. */
  lemma {:induction false} WalkEncoded(v: Value, rest: bytes)
    requires Encodable(v) && Walkable(rest)
    ensures Walkable(Encode(v) + rest) && Walk(Encode(v) + rest) == [View(v)] + Walk(rest)
    decreases v, 0
  {
    var s := Encode(v) + rest;
    assert s[|Encode(v)|..] == rest;
    if v.Array? {
      ItemOfArray(v.items, rest);
      WalkAllEncoded(v.items, []);
      assert EncodeAll(v.items) + [] == EncodeAll(v.items);
      assert ViewAll(v.items) + [] == ViewAll(v.items);
    } else {
      ItemOfScalar(v, rest);
    }
  }

  lemma {:induction false} WalkAllEncoded(vs: seq<Value>, rest: bytes)
    requires (forall x :: x in vs ==> Encodable(x)) && Walkable(rest)
    ensures Walkable(EncodeAll(vs) + rest) && Walk(EncodeAll(vs) + rest) == ViewAll(vs) + Walk(rest)
    decreases vs, 1
  {
    if vs == [] {
      assert EncodeAll(vs) + rest == rest;
    } else {
      WalkAllEncoded(vs[1..], rest);
      WalkEncoded(vs[0], EncodeAll(vs[1..]) + rest);
      Assoc(Encode(vs[0]), EncodeAll(vs[1..]), rest);
      Assoc([View(vs[0])], ViewAll(vs[1..]), Walk(rest));
    }
  }

  // ----- the server's writers

  /** The output buffer as the reply writers of redis.go extend it. */
  class Writer {
    var out: bytes

    constructor ()
      ensures out == []
    {
      out := [];
    }

    method WriteError(err: bytes)
      modifies this
      ensures out == old(out) + Encode(Failure(err))
    {
      out := out + [MINUS];
      out := out + err;
      out := out + CRLF;
    }

    method WriteSimpleString(p: bytes)
      modifies this
      ensures out == old(out) + Encode(Simple(p))
    {
      out := out + [PLUS];
      out := out + p;
      out := out + CRLF;
    }

    method WriteBulkString(p: bytes)
      modifies this
      ensures out == old(out) + Encode(BulkString(p))
    {
      out := out + [DOLLAR];
      out := out + Decimal(|p|);
      out := out + CRLF;
      out := out + p;
      out := out + CRLF;
    }

    /** An array is begun here and completed by writing its `n` items. */
    method WriteArrayBegin(n: int)
      modifies this
      ensures out == old(out) + NumberLine(STAR, n)
      ensures forall items: seq<Value> :: |items| == n ==> out + EncodeAll(items) == old(out) + Encode(Value.Array(items))
    {
      out := out + [STAR];
      out := out + DecimalInt(n);
      out := out + CRLF;
      ghost var line := NumberLine(STAR, n);
      assert out == old(out) + line;
      forall items: seq<Value> | |items| == n ensures out + EncodeAll(items) == old(out) + Encode(Value.Array(items)) {
        Assoc(old(out), line, EncodeAll(items));
      }
    }
  }
}
