/** WebSocket frames: `parse` and `write` of ws.go against sections 5.2 and 5.3 of RFC 6455. */
module WsFrame {
  import opened Bytes

  // ----- bits and big-endian numbers

  function XorBits(a: nat, b: nat, bits: nat): (r: nat) {
    if bits == 0 then 0 else (if a % 2 == b % 2 then 0 else 1) + 2 * XorBits(a / 2, b / 2, bits - 1)
  }

  function Power2(bits: nat): (r: nat)
    ensures r > 0
  {
    if bits == 0 then 1 else 2 * Power2(bits - 1)
  }

  lemma LowAndRest(low: nat, r: nat)
    requires low < 2
    ensures (low + 2 * r) % 2 == low && (low + 2 * r) / 2 == r
  {
  }

  lemma {:induction false} XorTwice(a: nat, b: nat, bits: nat)
    requires a < Power2(bits)
    ensures XorBits(XorBits(a, b, bits), b, bits) == a
  {
    if bits > 0 {
      var low, r := if a % 2 == b % 2 then 0 else 1, XorBits(a / 2, b / 2, bits - 1);
      XorTwice(a / 2, b / 2, bits - 1);
      LowAndRest(low, r);
      XorStep(low + 2 * r, b, bits);
      assert a == a % 2 + 2 * (a / 2);
    }
  }

  lemma XorStep(a: nat, b: nat, bits: nat)
    requires bits > 0
    ensures XorBits(a, b, bits) == (if a % 2 == b % 2 then 0 else 1) + 2 * XorBits(a / 2, b / 2, bits - 1)
  {
  }

  lemma {:induction false} XorBound(a: nat, b: nat, bits: nat)
    ensures XorBits(a, b, bits) < Power2(bits)
  {
    if bits > 0 { XorBound(a / 2, b / 2, bits - 1); }
  }

  /** Exclusive or of two bytes. */
  function Xor(a: byte, b: byte): (r: byte) {
    XorBound(a, b, 8);
    Eight();
    XorBits(a, b, 8)
  }

  lemma Eight()
    ensures Power2(8) == 256
  {
    assert Power2(4) == 16;
    assert Power2(8) == 16 * Power2(4);
  }

  lemma XorInvolutive(a: byte, b: byte)
    ensures Xor(Xor(a, b), b) == a
  {
    Eight();
    XorTwice(a, b, 8);
  }

  /** The `k`-th binary digit of a number. */
  function Bit(x: nat, k: nat): (b: nat)
    ensures b < 2
  {
    if k == 0 then x % 2 else Bit(x / 2, k - 1)
  }

  lemma {:induction false} XorBitsAt(a: nat, b: nat, bits: nat, k: nat)
    requires k < bits
    ensures Bit(XorBits(a, b, bits), k) == 1 <==> Bit(a, k) != Bit(b, k)
  {
    LowAndRest(if a % 2 == b % 2 then 0 else 1, XorBits(a / 2, b / 2, bits - 1));
    if k > 0 { XorBitsAt(a / 2, b / 2, bits - 1, k - 1); }
  }

  /** Exclusive or, bit by bit: a bit is set exactly when the two differ there. */
  lemma XorIsExclusive(a: byte, b: byte)
    ensures forall k: nat :: k < 8 ==> (Bit(Xor(a, b), k) == 1 <==> Bit(a, k) != Bit(b, k))
  {
    forall k: nat | k < 8 ensures Bit(Xor(a, b), k) == 1 <==> Bit(a, k) != Bit(b, k) { XorBitsAt(a, b, 8, k); }
  }

  /** `binary.BigEndian`: the number big-endian bytes denote. */
  function BigEndian(s: bytes): (n: nat) {
    if s == [] then 0 else BigEndian(s[..|s| - 1]) * 256 + s[|s| - 1]
  }

  function BigEndianBytes(n: nat, k: nat): (s: bytes)
    ensures |s| == k
  {
    if k == 0 then [] else BigEndianBytes(n / 256, k - 1) + [n % 256]
  }

  function Power256(k: nat): (r: nat)
    ensures r > 0
  {
    if k == 0 then 1 else 256 * Power256(k - 1)
  }

  lemma {:induction false} BigEndianRead(n: nat, k: nat)
    requires n < Power256(k)
    ensures BigEndian(BigEndianBytes(n, k)) == n
  {
    if k > 0 {
      BigEndianRead(n / 256, k - 1);
      var s := BigEndianBytes(n, k);
      assert s[..|s| - 1] == BigEndianBytes(n / 256, k - 1);
    }
  }

  /** The first byte weighs most. */
  lemma {:induction false} BigEndianFirst(b: byte, s: bytes)
    ensures BigEndian([b] + s) == b * Power256(|s|) + BigEndian(s)
  {
    var t := [b] + s;
    if s == [] {
      assert t[..0] == [];
    } else {
      var init := s[..|s| - 1];
      assert t[..|t| - 1] == [b] + init;
      BigEndianFirst(b, init);
      assert (b * Power256(|init|) + BigEndian(init)) * 256 == b * (256 * Power256(|init|)) + BigEndian(init) * 256;
    }
  }

  lemma Powers()
    ensures Power256(2) == 0x1_0000 && Power256(8) == 0x1_0000_0000_0000_0000
  {
    assert Power256(4) == 0x1_0000_0000;
    assert Power256(8) == 256 * (256 * (256 * (256 * Power256(4))));
  }

  // ----- the server's parser

  /** A frame as `parse` reports it; `len` counts its head. */
  datatype Frame = Frame(data: bytes, opcode: byte, fin: bool, len: nat)

  /** Crash is a Go run-time panic: a 64-bit length whose end does not fit an int. */
  datatype Parsed = NeedMore | Crash | Got(frame: Frame, buf: bytes)

  /** Where a frame's payload starts and how long it is, once all of it is there. */
  datatype Extent = Partial | Overflow | Extent(off: nat, size: nat)

  function Measure(s: bytes): (e: Extent)
    ensures e.Extent? ==> 6 <= e.off && e.off + e.size <= |s|
  {
    if |s| < 2 then Partial
    else
      var b := s[1] % 128;
      if b == 126 then
        if |s| < 8 then Partial
        else var size := BigEndian(s[2..4]); if |s| < 8 + size then Partial else Extent(8, size)
      else if b == 127 then
        if |s| < 14 then Partial
        else
          var size := BigEndian(s[2..10]);
          if size > MAX_INT64 - 14 then Overflow
          else if |s| < 14 + size then Partial else Extent(14, size)
      else if |s| < 6 + b then Partial
      else Extent(6, b)
  }

  /** Payload and key combined byte by byte; masking and unmasking alike. */
  function Masked(data: bytes, key: bytes): (r: bytes)
    requires |key| == 4
    ensures |r| == |data|
  {
    seq(|data|, i requires 0 <= i < |data| => Xor(data[i], key[i % 4]))
  }

  lemma MaskedTwice(data: bytes, key: bytes)
    requires |key| == 4
    ensures Masked(Masked(data, key), key) == data
  {
    forall i | 0 <= i < |data| ensures Masked(Masked(data, key), key)[i] == data[i] {
      XorInvolutive(data[i], key[i % 4]);
    }
  }

  /** Section 5.3: every bit of byte `i` of the payload is combined with the same bit of byte
      `i` modulo 4 of the key. */
  lemma MaskedBitwise(data: bytes, key: bytes, i: nat, k: nat)
    requires |key| == 4 && i < |data| && k < 8
    ensures Bit(Masked(data, key)[i], k) == 1 <==> Bit(data[i], k) != Bit(key[i % 4], k)
  {
    hide Bit;
    XorIsExclusive(data[i], key[i % 4]);
  }

  function Parse(s: bytes): (p: Parsed)
    ensures p.Got? ==> |p.buf| == |s| && 6 <= p.frame.len <= |s|
  {
    match Measure(s)
    case Partial => NeedMore
    case Overflow => Crash
    case Extent(off, size) =>
      var data := Masked(s[off..off + size], s[off - 4..off]);
      Got(Frame(data, s[0] % 16, s[0] / 128 > 0, off + size), s[..off] + data + s[off + size..])
  }

  /** The length switch of `parse`. */
  method FindExtent(a: array<byte>) returns (e: Extent)
    ensures e == Measure(a[..])
  {
    if a.Length < 2 { return Partial; }
    var size, off := a[1] % 128, 6;
    if size == 126 {
      if a.Length < 2 + 2 + 4 { return Partial; }
      assert a[..][2..4] == a[2..4];
      size := BigEndian(a[2..4]);
      if a.Length < 2 + 2 + 4 + size { return Partial; }
      off := 8;
    } else if size == 127 {
      if a.Length < 2 + 2 + 6 + 4 { return Partial; }
      assert a[..][2..10] == a[2..10];
      size := BigEndian(a[2..10]);
      if size > MAX_INT64 - 14 { return Overflow; }
      if a.Length < 2 + 2 + 6 + 4 + size { return Partial; }
      off := 14;
    } else {
      if a.Length < 2 + 4 + size { return Partial; }
    }
    e := Extent(off, size);
  }

  /** `parse` on the input buffer, unmasking the payload in place. When it asks for more (or
      panics) no byte has changed. */
  method ParseInplace(a: array<byte>) returns (p: Parsed)
    modifies a
    ensures p == Parse(old(a[..]))
    ensures a[..] == if p.Got? then p.buf else old(a[..])
  {
    hide Measure;
    hide Masked;
    var e := FindExtent(a);
    if e.Partial? { return NeedMore; }
    if e.Overflow? { return Crash; }
    var opcode, fin, off, end := a[0] % 16, a[0] / 128 > 0, e.off, e.off + e.size;
    UnmaskPart(a, off, e.size);
    p := Got(Frame(a[off..end], opcode, fin, end), a[..]);
  }

  /** Unmask with the key just before the payload. */
  method UnmaskPart(a: array<byte>, off: nat, size: nat)
    requires 4 <= off && off + size <= a.Length
    modifies a
    ensures var s := old(a[..]);
            var data := Masked(s[off..off + size], s[off - 4..off]);
            a[..] == s[..off] + data + s[off + size..] && a[off..off + size] == data
  {
    hide Masked;
    ghost var pre, post := a[..off], a[off + size..];
    var mask := a[off - 4..off];
    Unmask(a, off, size, mask);
    assert a[..off] == pre;
    assert a[off + size..] == post;
    Slices(a[..], off, off + size, a.Length);
  }

  method Unmask(a: array<byte>, off: nat, size: nat, mask: bytes)
    requires off + size <= a.Length && |mask| == 4
    modifies a
    ensures a[off..off + size] == Masked(old(a[off..off + size]), mask)
    ensures forall k :: 0 <= k < off || off + size <= k < a.Length ==> a[k] == old(a[k])
  {
    ghost var data := a[off..off + size];
    for i := 0 to size
      invariant forall k :: 0 <= k < size ==> a[off + k] == if k < i then Xor(data[k], mask[k % 4]) else data[k]
      invariant forall k :: 0 <= k < off || off + size <= k < a.Length ==> a[k] == old(a[k])
    {
      assert a[off + i] == data[i];
      a[off + i] := Xor(a[off + i], mask[i % 4]);
    }
  }

  // ----- the wire format

  /** The three length forms of section 5.2. */
  datatype Form = Seven | Sixteen | SixtyFour

  predicate Fits(form: Form, n: nat) {
    match form
    case Seven => n < 126
    case Sixteen => n < 0x1_0000
    case SixtyFour => n <= MAX_INT64 - 14
  }

  /** A frame on the wire, with a masking key when a client sent it. */
  datatype Wire = Wire(fin: bool, rsv: byte, opcode: byte, key: Option<bytes>, payload: bytes, form: Form)

  predicate Valid(w: Wire) {
    w.rsv < 8 && w.opcode < 16 && Fits(w.form, |w.payload|) && (w.key.Some? ==> |w.key.value| == 4)
  }

  function LengthField(form: Form, n: nat): (r: (byte, bytes))
    requires Fits(form, n)
    ensures r.0 < 128
  {
    match form
    case Seven => (n, [])
    case Sixteen => (126, BigEndianBytes(n, 2))
    case SixtyFour => (127, BigEndianBytes(n, 8))
  }

  /** The head of a frame: flags and opcode, mask bit and length, key. */
  function WireHead(w: Wire): (b: bytes)
    requires Valid(w)
  {
    var (len7, more) := LengthField(w.form, |w.payload|);
    [(if w.fin then 128 else 0) + w.rsv * 16 + w.opcode, (if w.key.Some? then 128 else 0) + len7]
    + more + (if w.key.Some? then w.key.value else [])
  }

  function Encode(w: Wire): (b: bytes)
    requires Valid(w)
    ensures |b| >= 2
  {
    WireHead(w) + if w.key.Some? then Masked(w.payload, w.key.value) else w.payload
  }

  /** Section 5.2's decoder: the frame a stream starts with, and its length. It refuses lengths
      that do not fit an int. */
  function Decode(s: bytes): (r: Option<(Wire, nat)>)
    ensures r.Some? ==> 2 <= r.value.1 <= |s|
  {
    if |s| < 2 then None
    else
      var masked, len7 := s[1] / 128 > 0, s[1] % 128;
      var form := if len7 == 126 then Sixteen else if len7 == 127 then SixtyFour else Seven;
      var ext := if form.Sixteen? then 2 else if form.SixtyFour? then 8 else 0;
      var head := 2 + ext + if masked then 4 else 0;
      if |s| < head then None
      else
        var size := if form.Seven? then len7 else BigEndian(s[2..2 + ext]);
        if size > MAX_INT64 - 14 || |s| < head + size then None
        else
          var raw := s[head..head + size];
          var key := if masked then Some(s[head - 4..head]) else None;
          Some((Wire(s[0] / 128 > 0, s[0] / 16 % 8, s[0] % 16, key, if masked then Masked(raw, key.value) else raw, form), head + size))
  }

  /** The head's fields read back. */
  lemma HeadRead(w: Wire, body: bytes)
    requires Valid(w)
    ensures var s := WireHead(w) + body;
            var ext := if w.form.Sixteen? then 2 else if w.form.SixtyFour? then 8 else 0;
            && |WireHead(w)| == 2 + ext + (if w.key.Some? then 4 else 0)
            && s[0] == (if w.fin then 128 else 0) + w.rsv * 16 + w.opcode
            && s[1] == (if w.key.Some? then 128 else 0) + LengthField(w.form, |w.payload|).0
            && s[2..2 + ext] == LengthField(w.form, |w.payload|).1
            && (w.key.Some? ==> s[2 + ext..6 + ext] == w.key.value)
  {
  }

  lemma LengthRead(form: Form, n: nat)
    requires Fits(form, n)
    ensures form.Seven? || BigEndian(LengthField(form, n).1) == n
  {
    Powers();
    match form
    case Seven =>
    case Sixteen => BigEndianRead(n, 2);
    case SixtyFour => BigEndianRead(n, 8);
  }

  lemma BodyAt(w: Wire, rest: bytes)
    requires Valid(w)
    ensures var s := Encode(w) + rest;
            var body := if w.key.Some? then Masked(w.payload, w.key.value) else w.payload;
            && s == WireHead(w) + (body + rest)
            && s[|WireHead(w)|..|WireHead(w)| + |w.payload|] == body
            && s[|Encode(w)|..] == rest && |Encode(w)| == |WireHead(w)| + |w.payload|
  {
    var body := if w.key.Some? then Masked(w.payload, w.key.value) else w.payload;
    Assoc(WireHead(w), body, rest);
  }

  lemma FirstByte(w: Wire, b: byte)
    requires Valid(w) && b == (if w.fin then 128 else 0) + w.rsv * 16 + w.opcode
    ensures (b / 128 > 0) == w.fin && b / 16 % 8 == w.rsv && b % 16 == w.opcode
  {
  }

  /** The standard's decoder undoes the encoding, in every length form, whatever follows. */
  lemma DecodeEncode(w: Wire, rest: bytes)
    requires Valid(w)
    ensures Decode(Encode(w) + rest) == Some((w, |Encode(w)|))
  {
    hide Decode;
    hide WireHead;
    hide Encode;
    hide Masked;
    hide BigEndian;
    var body := if w.key.Some? then Masked(w.payload, w.key.value) else w.payload;
    var s, head := Encode(w) + rest, |WireHead(w)|;
    BodyAt(w, rest);
    HeadRead(w, body + rest);
    LengthRead(w.form, |w.payload|);
    FirstByte(w, s[0]);
    if w.key.Some? {
      MaskedTwice(w.payload, w.key.value);
      assert s[head - 4..head] == w.key.value;
    }
    DecodedBy(w, s, body);
  }

  lemma DecodedBy(w: Wire, s: bytes, body: bytes)
    requires Valid(w) && |s| >= 2
    requires (s[0] / 128 > 0) == w.fin && s[0] / 16 % 8 == w.rsv && s[0] % 16 == w.opcode
    requires s[1] == (if w.key.Some? then 128 else 0) + LengthField(w.form, |w.payload|).0
    requires var ext := if w.form.Sixteen? then 2 else if w.form.SixtyFour? then 8 else 0;
             var head := 2 + ext + (if w.key.Some? then 4 else 0);
             && head + |w.payload| <= |s| && (w.form.Seven? || BigEndian(s[2..2 + ext]) == |w.payload|)
             && s[head..head + |w.payload|] == body && (w.key.Some? ==> s[head - 4..head] == w.key.value)
    requires if w.key.Some? then Masked(body, w.key.value) == w.payload else body == w.payload
    ensures var ext := if w.form.Sixteen? then 2 else if w.form.SixtyFour? then 8 else 0;
            Decode(s) == Some((w, 2 + ext + (if w.key.Some? then 4 else 0) + |w.payload|))
  {
    hide Masked;
    hide BigEndian;
    hide BigEndianBytes;
  }

  /** A client frame: masked, as section 5.3 requires. */
  predicate FromClient(w: Wire) {
    Valid(w) && w.key.Some?
  }

  type ClientWire = w: Wire | FromClient(w) witness Wire(true, 0, 1, Some([0, 0, 0, 0]), [], Seven)

  function FrameOf(w: Wire): (f: Frame)
    requires Valid(w)
  {
    Frame(w.payload, w.opcode, w.fin, |Encode(w)|)
  }

  /** `parse` recovers every client frame: opcode, final flag, payload and length; and it rewrites
      the payload only. */
  lemma ParseClientFrame(w: Wire, rest: bytes)
    requires FromClient(w)
    ensures Parse(Encode(w) + rest) == Got(FrameOf(w), WireHead(w) + w.payload + rest)
  {
    hide WireHead;
    hide Encode;
    hide Masked;
    hide BigEndian;
    var s, head := Encode(w) + rest, |WireHead(w)|;
    var body := Masked(w.payload, w.key.value);
    BodyAt(w, rest);
    HeadRead(w, body + rest);
    LengthRead(w.form, |w.payload|);
    FirstByte(w, s[0]);
    MaskedTwice(w.payload, w.key.value);
    assert Measure(s) == Extent(head, |w.payload|);
    assert s[head - 4..head] == w.key.value;
    assert s[..head] == WireHead(w);
  }

  /** A length that does not fit is a panic, however many bytes there are. */
  lemma HugeLengthPanics(s: bytes)
    requires |s| >= 14 && s[1] % 128 == 127 && BigEndian(s[2..10]) > MAX_INT64 - 14
    ensures Parse(s) == Crash
  {
    hide BigEndian;
    hide Masked;
  }

  // ----- more bytes

  lemma MeasureExtend(s: bytes, t: bytes)
    requires !Measure(s).Partial?
    ensures Measure(s + t) == Measure(s)
  {
    if |s| >= 4 { assert (s + t)[2..4] == s[2..4]; }
    if |s| >= 10 { assert (s + t)[2..10] == s[2..10]; }
  }

  /** A frame once parsed is the same whatever follows it. */
  lemma ParseExtend(s: bytes, t: bytes)
    requires !Parse(s).NeedMore?
    ensures Parse(s + t) == match Parse(s) case Got(f, buf) => Got(f, buf + t) case p => p
  {
    hide Masked;
    MeasureExtend(s, t);
    var e := Measure(s);
    if e.Extent? {
      var off, end := e.off, e.off + e.size;
      Front(s, t, off, end);
      Front(s, t, off - 4, off);
      assert (s + t)[..off] == s[..off] && (s + t)[end..] == s[end..] + t;
      var data := Masked(s[off..end], s[off - 4..off]);
      Assoc(s[..off] + data, s[end..], t);
    }
  }

  /** Part of a client frame is never mistaken for a whole one. */
  lemma PartOfFrameWaits(w: Wire, k: nat)
    requires FromClient(w) && k < |Encode(w)|
    ensures Parse(Encode(w)[..k]).NeedMore?
  {
    hide Parse;
    var s := Encode(w);
    assert s + [] == s;
    ParseClientFrame(w, []);
    if !Parse(s[..k]).NeedMore? {
      assert s[..k] + s[k..] == s;
      ParseExtend(s[..k], s[k..]);
    }
  }

  // ----- the server's writer

  function Shortest(n: nat): (form: Form) {
    if n < 126 then Seven else if n < 0x1_0000 then Sixteen else SixtyFour
  }

  /** The wire frame `write` means: final, unmasked, in the shortest form. */
  function ServerWire(typ: byte, p: bytes): (w: Wire)
    requires |p| <= MAX_INT64 - 14
    ensures Valid(w)
  {
    Wire(true, typ / 16 % 8, typ % 16, None, p, Shortest(|p|))
  }

  /** `write`: the bytes it appends to the connection's output. */
  method Write(typ: byte, p: bytes) returns (tmp: bytes)
    requires |p| <= MAX_INT64 - 14
    ensures tmp == Encode(ServerWire(typ, p))
  {
    tmp := [if typ < 128 then 128 + typ else typ];
    if |p| < 126 {
      tmp := tmp + [|p|];
    } else if |p| < 65536 {
      var v := |p|;
      TwoBytes(v);
      tmp := tmp + [126, v / 256, v % 256];
    } else {
      tmp := tmp + [127] + BigEndianBytes(|p|, 8);
    }
    assert tmp == WireHead(ServerWire(typ, p));
    tmp := tmp + p;
  }

  lemma TwoBytes(v: nat)
    requires v < 0x1_0000
    ensures BigEndianBytes(v, 2) == [v / 256, v % 256]
  {
    assert BigEndianBytes(v / 256, 1) == BigEndianBytes(v / 256 / 256, 0) + [v / 256 % 256];
  }

  /** What a peer reads of one write, whatever follows: a final, unmasked frame of that payload,
      and of that type, which has no reserved bits when it is an opcode. */
  lemma WriteDecodes(typ: byte, p: bytes, rest: bytes)
    requires |p| <= MAX_INT64 - 14
    ensures var tmp := Encode(ServerWire(typ, p));
            Decode(tmp + rest) == Some((Wire(true, typ / 16 % 8, typ % 16, None, p, Shortest(|p|)), |tmp|))
    ensures typ < 16 ==> typ / 16 % 8 == 0 && typ % 16 == typ
  {
    hide Decode;
    hide Encode;
    DecodeEncode(ServerWire(typ, p), rest);
  }

  /** The bytes themselves: the first has the final bit and the type, the second no mask bit, and
      the payload comes last. */
  lemma WriteLayout(typ: byte, p: bytes)
    requires |p| <= MAX_INT64 - 14 && typ < 16
    ensures var tmp := Encode(ServerWire(typ, p));
            && tmp[0] == 0x80 + typ && tmp[1] < 0x80
            && (|p| < 126 ==> tmp == [0x80 + typ, |p|] + p)
            && (126 <= |p| < 0x1_0000 ==> tmp == [0x80 + typ, 126, |p| / 256, |p| % 256] + p)
            && (|p| >= 0x1_0000 ==> |tmp| == 10 + |p| && tmp[1] == 127 && BigEndian(tmp[2..10]) == |p| && tmp[10..] == p)
  {
    if 126 <= |p| < 0x1_0000 { TwoBytes(|p|); }
    if |p| >= 0x1_0000 {
      Powers();
      BigEndianRead(|p|, 8);
      var tmp := Encode(ServerWire(typ, p));
      assert tmp == [0x80 + typ, 127] + BigEndianBytes(|p|, 8) + p;
      assert tmp[2..10] == BigEndianBytes(|p|, 8);
    }
  }

  /** No encoding of the same frame is shorter than the one `write` chooses. */
  lemma WriteIsShortest(typ: byte, p: bytes, form: Form)
    requires |p| <= MAX_INT64 - 14 && Fits(form, |p|)
    ensures |Encode(ServerWire(typ, p))| <= |Encode(ServerWire(typ, p).(form := form))|
  {
  }

  function WriteAll(ms: seq<(byte, bytes)>): (out: bytes)
    requires forall i :: 0 <= i < |ms| ==> |ms[i].1| <= MAX_INT64 - 14
  {
    if ms == [] then [] else Encode(ServerWire(ms[0].0, ms[0].1)) + WriteAll(ms[1..])
  }

  /** A peer's reading of a whole stream: every frame, or None if it does not end with one. */
  function DecodeAll(s: bytes): (r: Option<seq<Wire>>)
    decreases |s|
  {
    if s == [] then Some([])
    else
      match Decode(s)
      case None => None
      case Some((w, n)) =>
        match DecodeAll(s[n..])
        case None => None
        case Some(ws) => Some([w] + ws)
  }

  /** Any sequence of writes is read back, message for message: each a final, unmasked frame of its
      own type and payload. */
  lemma {:induction false} WritesDecodeUniquely(ms: seq<(byte, bytes)>) returns (ws: seq<Wire>)
    requires forall i :: 0 <= i < |ms| ==> |ms[i].1| <= MAX_INT64 - 14
    ensures DecodeAll(WriteAll(ms)) == Some(ws) && |ws| == |ms|
    ensures forall i :: 0 <= i < |ms| ==> ws[i] == Wire(true, ms[i].0 / 16 % 8, ms[i].0 % 16, None, ms[i].1, Shortest(|ms[i].1|))
  {
    hide Decode;
    hide Encode;
    hide Shortest;
    ws := [];
    if ms != [] {
      var w := ServerWire(ms[0].0, ms[0].1);
      WriteDecodes(ms[0].0, ms[0].1, WriteAll(ms[1..]));
      var rest := WritesDecodeUniquely(ms[1..]);
      assert WriteAll(ms)[|Encode(w)|..] == WriteAll(ms[1..]);
      ws := [w] + rest;
      forall i | 0 <= i < |ms| ensures ws[i] == Wire(true, ms[i].0 / 16 % 8, ms[i].0 % 16, None, ms[i].1, Shortest(|ms[i].1|)) {
        if i > 0 { assert ms[i] == ms[1..][i - 1] && ws[i] == rest[i - 1]; }
      }
    }
  }
}
