/** What number texts denote, digit by digit: the part of Go's `strconv` that the parsers rely on. */
module Numbers {
  import opened Bytes

  predicate AllDigits(s: bytes) {
    forall i :: 0 <= i < |s| ==> '0' as int <= s[i] <= '9' as int
  }

  function Power10(k: nat): (r: nat)
    ensures r > 0
  {
    if k == 0 then 1 else 10 * Power10(k - 1)
  }

  /** The number that decimal digits denote: each weighs ten times the next. */
  function DigitValue(s: bytes): (v: nat)
    requires AllDigits(s)
  {
    if s == [] then 0 else (s[0] - '0' as int) * Power10(|s| - 1) + DigitValue(s[1..])
  }

  lemma {:induction false} DigitValueSnoc(s: bytes, b: byte)
    requires AllDigits(s + [b])
    ensures AllDigits(s) && '0' as int <= b <= '9' as int
    ensures DigitValue(s + [b]) == 10 * DigitValue(s) + (b - '0' as int)
  {
    assert (s + [b])[|s|] == b;
    assert forall i :: 0 <= i < |s| ==> (s + [b])[i] == s[i];
    if s == [] {
      assert s + [b] == [b] && [b][1..] == [];
      assert Power10(0) == 1;
    } else {
      assert (s + [b])[1..] == s[1..] + [b];
      DigitValueSnoc(s[1..], b);
      assert Power10(|s|) == 10 * Power10(|s| - 1);
      Times(s[0] - '0' as int, Power10(|s| - 1));
    }
  }

  lemma Times(a: int, p: int)
    ensures a * (10 * p) == 10 * (a * p)
  {
  }

  /** Scanning digits gives their number, or says that it is too big. */
  lemma {:induction false} ScanIsValue(s: bytes)
    requires AllDigits(s)
    ensures ScanDigits(s) == if DigitValue(s) <= MAX_UINT64 then Acc(DigitValue(s)) else TooBig
  {
    if s != [] {
      var init, b := s[..|s| - 1], s[|s| - 1];
      assert s == init + [b];
      DigitValueSnoc(init, b);
      ScanIsValue(init);
    }
  }

  /** Anything else is not scanned to a number. */
  lemma {:induction false} ScanOnlyDigits(s: bytes)
    requires ScanDigits(s).Acc?
    ensures AllDigits(s)
  {
    if s != [] {
      var init := s[..|s| - 1];
      ScanOnlyDigits(init);
      assert forall i :: 0 <= i < |init| ==> init[i] == s[i];
    }
  }

  /** A number text without its sign. */
  function Unsigned(s: bytes): (d: bytes) {
    if s != [] && (s[0] == '-' as int || s[0] == '+' as int) then s[1..] else s
  }

  predicate Denotes(s: bytes, v: int) {
    var d := Unsigned(s);
    d != [] && AllDigits(d) && v == if s[0] == '-' as int then -(DigitValue(d) as int) else DigitValue(d)
  }

  /** `ParseInt` gives a number exactly for an optional sign and digits that denote it, when it fits
      64 bits. */
  lemma ParseIntIff(s: bytes, v: int)
    ensures ParseInt(s) == Value(v) <==> Denotes(s, v) && -MAX_INT64 - 1 <= v <= MAX_INT64
  {
    hide DigitValue;
    hide ScanDigits;
    var d := Unsigned(s);
    if AllDigits(d) {
      ScanIsValue(d);
    } else if ScanDigits(d).Acc? {
      ScanOnlyDigits(d);
    }
  }

  /** Too big a number is the nearest one that fits, with an error. */
  lemma ParseIntRange(s: bytes, v: int)
    requires Denotes(s, v) && (v < -MAX_INT64 - 1 || v > MAX_INT64)
    ensures ParseInt(s) == Range(if v < 0 then -MAX_INT64 - 1 else MAX_INT64)
  {
    hide DigitValue;
    hide ScanDigits;
    ScanIsValue(Unsigned(s));
  }

  /** A number is printed by the digits that denote it, with no leading zero. */
  lemma {:induction false} DecimalDenotes(n: nat)
    ensures AllDigits(Decimal(n)) && DigitValue(Decimal(n)) == n
    ensures if n == 0 then Decimal(n) == Ascii("0") else Decimal(n)[0] != '0' as int
  {
    if n < 10 {
      assert Decimal(n)[1..] == [] && Power10(0) == 1;
    } else {
      DecimalDenotes(n / 10);
      DigitValueSnoc(Decimal(n / 10), 48 + n % 10);
    }
  }

  /** A minus sign is printed exactly before negative numbers. */
  lemma DecimalIntDenotes(n: int)
    ensures Denotes(DecimalInt(n), n) && (DecimalInt(n)[0] == '-' as int <==> n < 0)
  {
    hide DigitValue;
    if n < 0 {
      DecimalDenotes(-n);
      assert DecimalInt(n)[1..] == Decimal(-n);
    } else {
      DecimalDenotes(n);
    }
  }

  /** A hexadecimal digit is one of sixteen characters, in either case, with the value of its place. */
  lemma HexDigitIff(b: byte, d: byte)
    requires d < 16
    ensures HexDigit(b) == Some(d) <==> b == "0123456789abcdef"[d] as int || b == "0123456789ABCDEF"[d] as int
  {
  }
}
