/** Bytes, searches and number texts: what the parsers take from Go's `bytes` and `strconv`. */
module Bytes {
  type byte = x: int | 0 <= x < 256
  type bytes = seq<byte>

  datatype Option<+T> = None | Some(value: T)

  const CR: byte := '\r' as int
  const LF: byte := '\n' as int
  const CRLF: bytes := [CR, LF]
  const SPACE: byte := ' ' as int

  const MAX_INT64: int := 0x7fff_ffff_ffff_ffff
  const MAX_UINT64: int := 0xffff_ffff_ffff_ffff

  /** The bytes of an ASCII text. */
  function Ascii(s: string): (b: bytes)
    requires forall i :: 0 <= i < |s| ==> s[i] < 128 as char
    ensures |b| == |s| && forall i :: 0 <= i < |s| ==> b[i] == s[i] as int
  {
    seq(|s|, i requires 0 <= i < |s| => s[i] as int)
  }

  lemma Assoc<T>(a: seq<T>, b: seq<T>, c: seq<T>)
    ensures a + b + c == a + (b + c)
  {
  }

  /** A prefix cut in three. */
  lemma Slices<T>(s: seq<T>, i: nat, j: nat, n: nat)
    requires i <= j <= n <= |s|
    ensures s[..n][..i] == s[..i] && s[..n][i..j] == s[i..j] && s[..n][j..] == s[j..n]
    ensures s[..n] == s[..i] + s[i..j] + s[j..n]
  {
  }

  lemma Front<T>(l: seq<T>, x: seq<T>, i: nat, j: nat)
    requires i <= j <= |l|
    ensures (l + x)[i..j] == l[i..j]
  {
  }

  function Flatten(parts: seq<bytes>): (b: bytes) {
    if parts == [] then [] else parts[0] + Flatten(parts[1..])
  }

  predicate NoneEmpty(parts: seq<bytes>) {
    forall i :: 0 <= i < |parts| ==> parts[i] != []
  }

  lemma {:induction false} FlattenConcat(a: seq<bytes>, b: seq<bytes>)
    ensures Flatten(a + b) == Flatten(a) + Flatten(b)
  {
    if a == [] {
      assert a + b == b;
    } else {
      assert (a + b)[1..] == a[1..] + b;
      FlattenConcat(a[1..], b);
      assert a[0] + (Flatten(a[1..]) + Flatten(b)) == a[0] + Flatten(a[1..]) + Flatten(b);
    }
  }

  // ----- searching

  predicate CrLfAt(s: bytes, i: int) {
    0 <= i && i + 1 < |s| && s[i] == CR && s[i + 1] == LF
  }

  /** The first CR LF at or after `from`, or -1. */
  function FindCrLf(s: bytes, from: nat): (i: int)
    requires from <= |s|
    ensures i == -1 || (from <= i && CrLfAt(s, i))
    ensures forall j :: from <= j && (i == -1 || j < i) ==> !CrLfAt(s, j)
    decreases |s| - from
  {
    if from == |s| then -1 else if CrLfAt(s, from) then from else FindCrLf(s, from + 1)
  }

  /** The first blank line, CR LF CR LF, or -1. */
  function FindBlankLine(s: bytes, from: nat): (i: int)
    requires from <= |s|
    ensures i == -1 || (from <= i && CrLfAt(s, i) && CrLfAt(s, i + 2))
    ensures forall j {:trigger CrLfAt(s, j)} :: from <= j && (i == -1 || j < i) ==> !(CrLfAt(s, j) && CrLfAt(s, j + 2))
    decreases |s| - from
  {
    if from == |s| then -1
    else if CrLfAt(s, from) && CrLfAt(s, from + 2) then from
    else FindBlankLine(s, from + 1)
  }

  lemma CrLfAtExtend(s: bytes, t: bytes, i: int)
    requires i + 1 < |s|
    ensures CrLfAt(s + t, i) == CrLfAt(s, i)
  {
  }

  /** More bytes never move a CR LF that has been found. */
  lemma FindCrLfExtend(s: bytes, t: bytes, from: nat)
    requires from <= |s| && FindCrLf(s, from) != -1
    ensures FindCrLf(s + t, from) == FindCrLf(s, from)
  {
    var i := FindCrLf(s, from);
    var k := FindCrLf(s + t, from);
    CrLfAtExtend(s, t, i);
    if k < i { CrLfAtExtend(s, t, k); }
  }

  lemma FindBlankLineExtend(s: bytes, t: bytes, from: nat)
    requires from <= |s| && FindBlankLine(s, from) != -1
    ensures FindBlankLine(s + t, from) == FindBlankLine(s, from)
  {
    var i := FindBlankLine(s, from);
    var k := FindBlankLine(s + t, from);
    CrLfAtExtend(s, t, i);
    CrLfAtExtend(s, t, i + 2);
    if k < i { CrLfAtExtend(s, t, k); CrLfAtExtend(s, t, k + 2); }
  }

  /** A text without CR LF, though it may hold a CR or an LF alone. */
  predicate OneLine(text: bytes) {
    forall j :: 0 <= j < |text| ==> !CrLfAt(text, j)
  }

  /** Such a text ends at the CR LF put after it. */
  lemma FindCrLfAfter(text: bytes, rest: bytes)
    requires OneLine(text)
    ensures FindCrLf(text + CRLF + rest, 0) == |text|
  {
    var s := text + CRLF + rest;
    assert CrLfAt(s, |text|);
    forall j | 0 <= j < |text| ensures !CrLfAt(s, j) {
      if j + 1 < |text| {
        assert s[j] == text[j] && s[j + 1] == text[j + 1] && !CrLfAt(text, j);
      } else {
        assert s[j + 1] == CR;
      }
    }
  }

  /** `bytes.IndexByte`. */
  function IndexByte(s: bytes, b: byte): (i: int)
    ensures i == -1 || (0 <= i < |s| && s[i] == b)
    ensures forall j :: 0 <= j < |s| && (i == -1 || j < i) ==> s[j] != b
  {
    if s == [] then -1
    else if s[0] == b then 0
    else var k := IndexByte(s[1..], b); if k == -1 then -1 else k + 1
  }

  /** `bytes.LastIndexByte`. */
  function LastIndexByte(s: bytes, b: byte): (i: int)
    ensures i == -1 || (0 <= i < |s| && s[i] == b)
    ensures forall j :: 0 <= j < |s| && i < j ==> s[j] != b
  {
    if s == [] then -1
    else if s[|s| - 1] == b then |s| - 1
    else LastIndexByte(s[..|s| - 1], b)
  }

  // ----- numbers

  predicate IsDigit(b: byte) { '0' as int <= b <= '9' as int }

  /** The value of a hexadecimal digit, in either case. */
  function HexDigit(b: byte): (r: Option<byte>)
    ensures r.Some? ==> r.value < 16
  {
    if 48 <= b <= 57 then Some(b - 48)
    else if 97 <= b <= 102 then Some(b - 87)
    else if 65 <= b <= 70 then Some(b - 55)
    else None
  }

  /** What `strconv.ParseUint(s, 10, 64)` has read: a value, or its first error. */
  datatype Scan = Acc(n: nat) | NotDigit | TooBig

  function ScanDigits(s: bytes): (r: Scan)
    ensures r.Acc? ==> r.n <= MAX_UINT64
  {
    if s == [] then Acc(0)
    else
      match ScanDigits(s[..|s| - 1])
      case Acc(n) =>
        var b := s[|s| - 1];
        if !IsDigit(b) then NotDigit
        else if n * 10 + (b - 48) > MAX_UINT64 then TooBig
        else Acc(n * 10 + (b - 48))
      case e => e
  }

  /** `strconv.ParseInt(s, 10, 64)`, and `strconv.Atoi` on a 64-bit machine: a value, a syntax
      error (with value 0), or a range error with the nearest representable value. */
  datatype Num = Value(v: int) | Syntax | Range(v: int)
  {
    function OrElse(): (v: int) { if Syntax? then 0 else v }
  }

  function ParseInt(s: bytes): (r: Num)
    ensures r.Value? ==> -MAX_INT64 - 1 <= r.v <= MAX_INT64
  {
    if s == [] then Syntax
    else
      var neg := s[0] == 45;
      var digits := if neg || s[0] == 43 then s[1..] else s;
      if digits == [] then Syntax
      else
        match ScanDigits(digits)
        case NotDigit => Syntax
        case TooBig => if neg then Range(-MAX_INT64 - 1) else Range(MAX_INT64)
        case Acc(n) =>
          if neg then (if n > MAX_INT64 + 1 then Range(-MAX_INT64 - 1) else Value(-(n as int)))
          else if n > MAX_INT64 then Range(MAX_INT64) else Value(n)
  }

  /** `strconv.AppendInt(nil, n, 10)` for nonnegative `n`. */
  function Decimal(n: nat): (s: bytes)
    ensures |s| > 0 && forall i :: 0 <= i < |s| ==> IsDigit(s[i])
  {
    if n < 10 then [48 + n] else Decimal(n / 10) + [48 + n % 10]
  }

  /** `strconv.AppendInt(nil, n, 10)`. */
  function DecimalInt(n: int): (s: bytes) {
    if n < 0 then [45] + Decimal(-n) else Decimal(n)
  }

  lemma {:induction false} ScanDecimal(n: nat)
    requires n <= MAX_UINT64
    ensures ScanDigits(Decimal(n)) == Acc(n)
  {
    var s := Decimal(n);
    if n < 10 {
      assert s[..|s| - 1] == [];
    } else {
      ScanDecimal(n / 10);
      assert s[..|s| - 1] == Decimal(n / 10);
    }
  }

  /** Reading back what was printed. */
  lemma ParseDecimal(n: int)
    requires -MAX_INT64 - 1 <= n <= MAX_INT64
    ensures ParseInt(DecimalInt(n)) == Value(n)
  {
    if n < 0 {
      ScanDecimal(-n);
      assert DecimalInt(n)[1..] == Decimal(-n);
    } else {
      ScanDecimal(n);
    }
  }

  /** A RESP head line: a type byte, a number, CR LF. */
  function NumberLine(head: byte, n: int): (s: bytes)
    ensures |s| >= 4
  {
    [head] + DecimalInt(n) + CRLF
  }

  lemma NumberIsOneLine(head: byte, n: int)
    requires head != CR
    ensures OneLine([head] + DecimalInt(n))
  {
    hide Decimal;
  }

  /** Such a line is found and read back, whatever follows it. */
  lemma NumberLineRead(head: byte, n: int, rest: bytes)
    requires head != CR && -MAX_INT64 - 1 <= n <= MAX_INT64
    ensures var s := NumberLine(head, n) + rest;
            var idx := |NumberLine(head, n)| - 2;
            FindCrLf(s, 0) == idx && ParseInt(s[1..idx]) == Value(n)
  {
    var text := [head] + DecimalInt(n);
    NumberIsOneLine(head, n);
    FindCrLfAfter(text, rest);
    ParseDecimal(n);
    assert (NumberLine(head, n) + rest)[1..|text|] == DecimalInt(n);
  }

  /** A number text is one line. */
  lemma NumberText(d: bytes)
    requires ParseInt(d).Value?
    ensures OneLine(d)
  {
    hide ScanDigits;
    var digits := if d[0] == 45 || d[0] == 43 then d[1..] else d;
    DigitsOnly(digits);
    forall j | 0 <= j && j + 1 < |d| ensures !CrLfAt(d, j) {
      if |digits| == |d| { assert d[j] == digits[j]; } else if j > 0 { assert d[j] == digits[j - 1]; }
    }
  }

  lemma {:induction false} DigitsOnly(s: bytes)
    requires ScanDigits(s).Acc?
    ensures forall i :: 0 <= i < |s| ==> s[i] != CR && s[i] != LF
  {
    if s != [] {
      var init := s[..|s| - 1];
      DigitsOnly(init);
      assert forall i :: 0 <= i < |init| ==> init[i] == s[i];
    }
  }

  /** A head byte before one line is one line. */
  lemma HeadIsOneLine(head: byte, t: bytes)
    requires head != CR && OneLine(t)
    ensures OneLine([head] + t)
  {
    var text := [head] + t;
    forall j | 0 <= j < |text| ensures !CrLfAt(text, j) {
      if 0 < j && j + 1 < |text| {
        assert !CrLfAt(t, j - 1);
        assert text[j] == t[j - 1] && text[j + 1] == t[j];
      }
    }
  }
}
