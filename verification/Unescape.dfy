/** In-place percent-decoding (util.go) and the query walk built on it (http.go). */
module Unescape {
  import opened Bytes

  const PERCENT: byte := '%' as int
  const PLUS: byte := '+' as int
  const AMP: byte := '&' as int
  const EQ: byte := '=' as int

  function HexPair(p: byte, q: byte): (r: Option<byte>) {
    if HexDigit(p).Some? && HexDigit(q).Some? then Some(HexDigit(p).value * 16 + HexDigit(q).value) else None
  }

  /** One turn of `UnescapeInplace` at read index `i` and write index `x`: the byte left at `x`
      and the next read index. A broken escape writes nothing, so the byte already at `x` stays:
      since the write index never passes the read index, that byte is still the original one. */
  function Turn(s: bytes, i: nat, x: nat, plusSpace: bool): (r: (byte, nat))
    requires x <= i < |s|
    ensures i < r.1 <= |s|
  {
    if s[i] == PERCENT then
      if i < |s| - 2 then
        var h := HexPair(s[i + 1], s[i + 2]);
        (if h.Some? then h.value else s[x], i + 3)
      else (s[x], i + 1)
    else (if s[i] == PLUS && plusSpace then SPACE else s[i], i + 1)
  }

  /** What `UnescapeInplace` leaves at write index `x` and beyond when its read index is `i`. */
  function Written(s: bytes, i: nat, x: nat, plusSpace: bool): (r: bytes)
    requires x <= i <= |s|
    ensures |r| <= |s| - i
    decreases |s| - i
  {
    if i == |s| then []
    else var (b, next) := Turn(s, i, x, plusSpace); [b] + Written(s, next, x + 1, plusSpace)
  }

  function Unescaped(s: bytes, plusSpace: bool): (r: bytes)
    ensures |r| <= |s|
  {
    Written(s, 0, 0, plusSpace)
  }

  /** The whole slice after decoding in place: the result, then what it did not overwrite. */
  function UnescapedSlice(s: bytes, plusSpace: bool): (r: bytes)
    ensures |r| == |s|
  {
    Unescaped(s, plusSpace) + s[|Unescaped(s, plusSpace)|..]
  }

  lemma NextWritten(s: bytes, i: nat, x: nat, plusSpace: bool, u: bytes)
    requires x <= i < |s| && x <= |u| && u[x..] == Written(s, i, x, plusSpace)
    ensures x < |u| && u[x] == Turn(s, i, x, plusSpace).0
    ensures u[x + 1..] == Written(s, Turn(s, i, x, plusSpace).1, x + 1, plusSpace)
  {
    assert u[x + 1..] == u[x..][1..];
  }

  /** At read index `i` and write index `x`, the result `u` still to be written from `x` on is
      what the loop will write. */
  ghost predicate OnCourse(s: bytes, u: bytes, i: nat, x: nat, plusSpace: bool) {
    x <= i <= |s| && x <= |u| && u[x..] == Written(s, i, x, plusSpace)
  }

  /** The loop body of `UnescapeInplace` on the slice of `a` at `lo`, whose part from `x` on still
      holds the original bytes `s`. */
  method UnescapeTurn(a: array<byte>, lo: nat, len: nat, i: nat, x: nat, plusSpace: bool, ghost s: bytes, ghost u: bytes)
    returns (next: nat)
    requires x <= i < len == |s| && lo + len <= a.Length
    requires forall k :: x <= k < len ==> a[lo + k] == s[k]
    requires OnCourse(s, u, i, x, plusSpace)
    modifies a
    ensures i < next <= len && x < |u| && a[lo + x] == u[x]
    ensures OnCourse(s, u, next, x + 1, plusSpace)
    ensures forall k :: 0 <= k < a.Length && k != lo + x ==> a[k] == old(a[k])
  {
    NextWritten(s, i, x, plusSpace, u);
    assert a[lo + i] == s[i] && a[lo + x] == s[x];
    next := i;
    if a[lo + i] == PERCENT {
      if i < len - 2 {
        assert a[lo + i + 1] == s[i + 1] && a[lo + i + 2] == s[i + 2];
        var h := HexPair(a[lo + i + 1], a[lo + i + 2]);
        if h.Some? { a[lo + x] := h.value; }
        next := i + 2;
      }
    } else if a[lo + i] == PLUS {
      a[lo + x] := if plusSpace then SPACE else PLUS;
    } else {
      a[lo + x] := a[lo + i];
    }
    next := next + 1;
  }

  /** `UnescapeInplace` on the slice `a[lo..hi]`; the result is `a[lo..lo+n]`. */
  method UnescapeInplace(a: array<byte>, lo: nat, hi: nat, plusSpace: bool) returns (n: nat)
    requires lo <= hi <= a.Length
    modifies a
    ensures n == |Unescaped(old(a[lo..hi]), plusSpace)|
    ensures a[lo..lo + n] == Unescaped(old(a[lo..hi]), plusSpace)
    ensures forall k :: 0 <= k < lo || lo + n <= k < a.Length ==> a[k] == old(a[k])
  {
    ghost var s := a[lo..hi];
    ghost var u := Unescaped(s, plusSpace);
    assert forall k :: 0 <= k < |s| ==> a[lo + k] == s[k];
    var x, i := 0, 0;
    while i < hi - lo
      invariant x <= i <= |s|
      invariant OnCourse(s, u, i, x, plusSpace)
      invariant forall k :: 0 <= k < x ==> a[lo + k] == u[k]
      invariant forall k :: x <= k < |s| ==> a[lo + k] == s[k]
      invariant forall k :: 0 <= k < lo || lo + x <= k < a.Length ==> a[k] == old(a[k])
    {
      i := UnescapeTurn(a, lo, hi - lo, i, x, plusSpace, s, u);
      x := x + 1;
    }
    n := x;
  }

  // ----- the standard's decoder

  /** Percent-decoding as section 2.1 of RFC 3986 defines it, with `+` for space in queries;
      None when an escape is malformed. */
  function PercentDecode(s: bytes, plusSpace: bool): (r: Option<bytes>)
    ensures r.Some? ==> |r.value| <= |s|
  {
    if s == [] then Some([])
    else if s[0] == PERCENT then
      if |s| < 3 || HexPair(s[1], s[2]).None? then None
      else
        match PercentDecode(s[3..], plusSpace)
        case Some(d) => Some([HexPair(s[1], s[2]).value] + d)
        case None => None
    else
      match PercentDecode(s[1..], plusSpace)
      case Some(d) => Some([if s[0] == PLUS && plusSpace then SPACE else s[0]] + d)
      case None => None
  }

  lemma {:induction false} WrittenIsDecoded(s: bytes, i: nat, x: nat, plusSpace: bool)
    requires x <= i <= |s| && PercentDecode(s[i..], plusSpace).Some?
    ensures Written(s, i, x, plusSpace) == PercentDecode(s[i..], plusSpace).value
    decreases |s| - i
  {
    if i < |s| {
      if s[i] == PERCENT {
        assert s[i..][3..] == s[i + 3..];
        WrittenIsDecoded(s, i + 3, x + 1, plusSpace);
      } else {
        assert s[i..][1..] == s[i + 1..];
        WrittenIsDecoded(s, i + 1, x + 1, plusSpace);
      }
    }
  }

  /** On well-formed input the in-place loop computes the standard's decoding. */
  lemma UnescapedIsDecoded(s: bytes, plusSpace: bool)
    requires PercentDecode(s, plusSpace).Some?
    ensures Unescaped(s, plusSpace) == PercentDecode(s, plusSpace).value
  {
    assert s[0..] == s;
    WrittenIsDecoded(s, 0, 0, plusSpace);
  }

  /** A broken escape takes three bytes and leaves the byte that happens to stand at the write
      index, which need not be its own: here the `4` of the escape before it. */
  lemma BrokenEscape()
    ensures Unescaped(['%' as int, '4' as int, '1' as int, '%' as int, 'z' as int, 'z' as int], false) == ['A' as int, '4' as int]
  {
    var s: bytes := ['%' as int, '4' as int, '1' as int, '%' as int, 'z' as int, 'z' as int];
    assert Turn(s, 0, 0, false) == ('A' as int, 3) && Turn(s, 3, 1, false) == ('4' as int, 6);
    assert Written(s, 6, 2, false) == [];
    assert Written(s, 3, 1, false) == ['4' as int] + [];
    assert Written(s, 0, 0, false) == ['A' as int] + Written(s, 3, 1, false);
  }

  /** One cut off by the end takes a byte only. */
  lemma CutEscape()
    ensures Unescaped(['%' as int, '4' as int], false) == ['%' as int, '4' as int]
  {
    var s: bytes := ['%' as int, '4' as int];
    assert Written(s, 2, 2, false) == [];
    assert Written(s, 1, 1, false) == ['4' as int] + [];
    assert Written(s, 0, 0, false) == ['%' as int] + Written(s, 1, 1, false);
  }

  // ----- query escaping and its walk

  function UpperHex(d: byte): (b: byte)
    requires d < 16
    ensures HexDigit(b) == Some(d)
  {
    if d < 10 then 48 + d else 55 + d
  }

  /** Letters, digits and `-_.~`. */
  predicate Unreserved(b: byte) {
    48 <= b <= 57 || 65 <= b <= 90 || 97 <= b <= 122 || b == 45 || b == 95 || b == 46 || b == 126
  }

  function EscapeByte(b: byte): (r: bytes) {
    if b == SPACE then [PLUS] else if Unreserved(b) then [b] else [PERCENT, UpperHex(b / 16), UpperHex(b % 16)]
  }

  /** `url.QueryEscape`. */
  function QueryEscape(s: bytes): (r: bytes)
    ensures forall i :: 0 <= i < |r| ==> r[i] != AMP && r[i] != EQ && r[i] != SPACE && r[i] != CR && r[i] != LF
  {
    if s == [] then [] else EscapeByte(s[0]) + QueryEscape(s[1..])
  }

  lemma {:induction false} DecodeQueryEscape(s: bytes)
    ensures PercentDecode(QueryEscape(s), true) == Some(s)
  {
    if s != [] {
      DecodeQueryEscape(s[1..]);
      var e, r := EscapeByte(s[0]), QueryEscape(s);
      assert r[|e|..] == QueryEscape(s[1..]);
      assert s == [s[0]] + s[1..];
    }
  }

  type Pair = (bytes, bytes)

  function PairText(p: Pair): (t: bytes)
    ensures t != [] && forall i :: 0 <= i < |t| ==> t[i] != AMP && t[i] != SPACE && t[i] != CR && t[i] != LF
  {
    QueryEscape(p.0) + [EQ] + QueryEscape(p.1)
  }

  /** The query text `URL()` builds: each pair as `k=v&`. */
  function EncodePairs(ps: seq<Pair>): (q: bytes)
    ensures forall i :: 0 <= i < |q| ==> q[i] != SPACE && q[i] != CR && q[i] != LF
  {
    if ps == [] then [] else PairText(ps[0]) + [AMP] + EncodePairs(ps[1..])
  }

  /** The query text most clients build: pairs with `&` only between them. */
  function JoinPairs(ps: seq<Pair>): (q: bytes)
    ensures forall i :: 0 <= i < |q| ==> q[i] != SPACE && q[i] != CR && q[i] != LF
  {
    if ps == [] then [] else if |ps| == 1 then PairText(ps[0]) else PairText(ps[0]) + [AMP] + JoinPairs(ps[1..])
  }

  /** `bytes.Cut` at one byte. */
  function Cut(s: bytes, b: byte): (r: (bytes, bytes))
    ensures |r.0| + |r.1| <= |s| && (s != [] ==> |r.1| < |s|)
  {
    var i := IndexByte(s, b);
    if i == -1 then (s, []) else (s[..i], s[i + 1..])
  }

  /** The pairs a query text denotes. */
  function Pairs(query: bytes): (ps: seq<Pair>)
    decreases |query|
  {
    if query == [] then []
    else
      var (part, rest) := Cut(query, AMP);
      var (key, value) := Cut(part, EQ);
      [(Unescaped(key, true), Unescaped(value, true))] + Pairs(rest)
  }

  lemma CutAt(a: bytes, b: byte, c: bytes)
    requires forall i :: 0 <= i < |a| ==> a[i] != b
    ensures Cut(a + [b] + c, b) == (a, c)
  {
    var s := a + [b] + c;
    assert s[|a|] == b && forall i :: 0 <= i < |a| ==> s[i] == a[i];
    assert IndexByte(s, b) == |a|;
    assert s[..|a|] == a && s[|a| + 1..] == c;
  }

  lemma CutNone(a: bytes, b: byte)
    requires forall i :: 0 <= i < |a| ==> a[i] != b
    ensures Cut(a, b) == (a, [])
  {
  }

  /** A query text decoded as a form: split at `&`, each part cut at its first `=`, both sides
      percent-decoded; None when an escape is malformed. */
  function FormDecode(query: bytes): (r: Option<seq<Pair>>)
    decreases |query|
  {
    if query == [] then Some([])
    else
      var (part, rest) := Cut(query, AMP);
      var (key, value) := Cut(part, EQ);
      var (k, v, ps) := (PercentDecode(key, true), PercentDecode(value, true), FormDecode(rest));
      if k.None? || v.None? || ps.None? then None else Some([(k.value, v.value)] + ps.value)
  }

  /** On every well-formed query, however it is spelled, the walk finds the pairs of the form. */
  lemma {:induction false} PairsDecoded(query: bytes)
    requires FormDecode(query).Some?
    ensures Pairs(query) == FormDecode(query).value
    decreases |query|
  {
    hide Cut;
    hide Unescaped;
    hide PercentDecode;
    if query != [] {
      var (part, rest) := Cut(query, AMP);
      var (key, value) := Cut(part, EQ);
      UnescapedIsDecoded(key, true);
      UnescapedIsDecoded(value, true);
      PairsDecoded(rest);
    }
  }

  lemma PairDecoded(p: Pair)
    ensures var (key, value) := Cut(PairText(p), EQ);
            PercentDecode(key, true) == Some(p.0) && PercentDecode(value, true) == Some(p.1)
  {
    hide Cut;
    hide QueryEscape;
    hide PercentDecode;
    CutAt(QueryEscape(p.0), EQ, QueryEscape(p.1));
    DecodeQueryEscape(p.0);
    DecodeQueryEscape(p.1);
  }

  lemma {:induction false} EncodedDecodes(ps: seq<Pair>)
    ensures FormDecode(EncodePairs(ps)) == Some(ps)
  {
    hide Cut;
    hide PairText;
    hide PercentDecode;
    if ps != [] {
      CutAt(PairText(ps[0]), AMP, EncodePairs(ps[1..]));
      PairDecoded(ps[0]);
      EncodedDecodes(ps[1..]);
      assert ps == [ps[0]] + ps[1..];
    }
  }

  lemma {:induction false} JoinedDecodes(ps: seq<Pair>)
    ensures FormDecode(JoinPairs(ps)) == Some(ps)
  {
    hide PairText;
    hide PercentDecode;
    hide Cut;
    if |ps| == 1 {
      CutNone(PairText(ps[0]), AMP);
      PairDecoded(ps[0]);
      EncodedDecodes([]);
      assert ps == [ps[0]] + [];
    } else if ps != [] {
      CutAt(PairText(ps[0]), AMP, JoinPairs(ps[1..]));
      PairDecoded(ps[0]);
      JoinedDecodes(ps[1..]);
      assert ps == [ps[0]] + ps[1..];
    }
  }

  /** Every pair list survives escaping and the walk, empty keys and values included, with the
      final `&` of `URL()` or without. */
  lemma PairsRoundTrip(ps: seq<Pair>)
    ensures Pairs(EncodePairs(ps)) == ps && Pairs(JoinPairs(ps)) == ps
  {
    EncodedDecodes(ps);
    PairsDecoded(EncodePairs(ps));
    JoinedDecodes(ps);
    PairsDecoded(JoinPairs(ps));
  }

  /** One step of the walk: split `a[lo..hi]` at `=` and decode both sides in place. */
  method UnescapePair(a: array<byte>, lo: nat, hi: nat) returns (pair: Pair)
    requires lo <= hi <= a.Length
    modifies a
    ensures var (key, value) := Cut(old(a[lo..hi]), EQ);
            pair == (Unescaped(key, true), Unescaped(value, true))
    ensures forall k :: 0 <= k < lo || hi <= k < a.Length ==> a[k] == old(a[k])
  {
    ghost var part := a[lo..hi];
    var eq := IndexByte(a[lo..hi], EQ);
    var keyEnd := if eq == -1 then hi else lo + eq;
    var value := if eq == -1 then hi else lo + eq + 1;
    assert a[lo..keyEnd] == Cut(part, EQ).0 && a[value..hi] == Cut(part, EQ).1;
    var n := UnescapeInplace(a, lo, keyEnd, true);
    var k := a[lo..lo + n];
    assert a[value..hi] == Cut(part, EQ).1;
    var m := UnescapeInplace(a, value, hi, true);
    pair := (k, a[value..value + m]);
  }

  /** The first pair of the query `a[pos..qEnd]`, and where the rest of the query begins. */
  method NextPair(a: array<byte>, pos: nat, qEnd: nat) returns (pair: Pair, next: nat)
    requires pos < qEnd <= a.Length
    modifies a
    ensures pos < next <= qEnd
    ensures Pairs(old(a[pos..qEnd])) == [pair] + Pairs(a[next..qEnd])
    ensures forall k :: 0 <= k < pos || qEnd <= k < a.Length ==> a[k] == old(a[k])
  {
    ghost var query := a[pos..qEnd];
    var amp := IndexByte(a[pos..qEnd], AMP);
    var partEnd := if amp == -1 then qEnd else pos + amp;
    next := if amp == -1 then qEnd else pos + amp + 1;
    ghost var rest := a[next..qEnd];
    assert a[pos..partEnd] == Cut(query, AMP).0 && rest == Cut(query, AMP).1;
    pair := UnescapePair(a, pos, partEnd);
    assert a[next..qEnd] == rest;
  }

  /** `ForeachQuery` on the request bytes `a` with the query at `a[qStart..qEnd]`: the callback's
      calls in order. Bytes outside the query are left alone. */
  method ForeachQuery(a: array<byte>, qStart: nat, qEnd: nat) returns (calls: seq<Pair>)
    requires qStart == 0 || qStart <= qEnd <= a.Length
    modifies a
    ensures calls == if qStart == 0 then [] else Pairs(old(a[qStart..qEnd]))
    ensures forall k :: 0 <= k < a.Length && (qStart == 0 || k < qStart || qEnd <= k) ==> a[k] == old(a[k])
  {
    calls := [];
    if qStart == 0 { return; }
    var pos := qStart;
    while pos < qEnd
      invariant qStart <= pos <= qEnd
      invariant calls + Pairs(a[pos..qEnd]) == Pairs(old(a[qStart..qEnd]))
      invariant forall k :: 0 <= k < qStart || qEnd <= k < a.Length ==> a[k] == old(a[k])
    {
      var pair, next := NextPair(a, pos, qEnd);
      Assoc(calls, [pair], Pairs(a[next..qEnd]));
      calls := calls + [pair];
      pos := next;
    }
  }
}
