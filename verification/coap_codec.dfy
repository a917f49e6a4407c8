/** The hand-written CoAP message codec of `protocols/coap.py`: the request
    builder, the option encoder (delta/length nibbles with 8- and 16-bit
    extensions, section 3.1 of RFC 7252), the response parser and the empty
    ACK (section 4.2 of RFC 7252). */
module CoapCodec {
  import opened Common

  type byte = b: int | 0 <= b < 256

  const COAP_VERSION: nat := 1
  const TYPE_CON: nat := 0
  const TYPE_NON: nat := 1
  const TYPE_ACK: nat := 2
  const TYPE_RST: nat := 3
  const OPTION_URI_PATH: nat := 11
  const OPTION_CONTENT_FORMAT: nat := 12
  const PAYLOAD_MARKER: byte := 0xFF

  /** Largest delta or length the two-byte extension can carry (269 + 0xFFFF). */
  const MAX_EXTENDED: nat := 65804

  /** What `struct.pack` produced, or the `struct.error` it raised. */
  datatype Encoded = Encoded(bytes: seq<byte>) | StructError

  /** One parsed option: its (cumulative) number and its value. */
  type CoapOption = (nat, seq<byte>)

  datatype CoapMessage = CoapMessage(
    version: nat,
    msgType: nat,
    codeClass: nat,
    codeDetail: nat,
    messageId: nat,
    token: seq<byte>,
    options: seq<CoapOption>,
    payload: seq<byte>)

  /** `_parse_coap_response`: `NotCoap` is its `None`; `Raises` is the
      `IndexError` / `struct.error` a truncated extended field provokes. */
  datatype Parsed = NotCoap | Raises | Parsed(msg: CoapMessage)

  // ---------------------------------------------------------------------
  // Python's integer `|` and `<<` on non-negative numbers
  // ---------------------------------------------------------------------

  function Pow2(k: nat): (r: nat)
    ensures r >= 1
  {
    if k == 0 then 1 else 2 * Pow2(k - 1)
  }

  /** Bitwise or of two non-negative integers. */
  function BitOr(a: nat, b: nat): nat
    decreases a + b
  {
    if a == 0 then b
    else if b == 0 then a
    else 2 * BitOr(a / 2, b / 2) + (if a % 2 == 1 || b % 2 == 1 then 1 else 0)
  }

  /** When the low `k` bits of the left operand are clear and the right
      operand fits in them, `|` is addition. */
  lemma {:induction false} BitOrDisjoint(q: nat, b: nat, k: nat)
    requires b < Pow2(k)
    ensures BitOr(Pow2(k) * q, b) == Pow2(k) * q + b
    decreases k
  {
    var a := Pow2(k) * q;
    if a == 0 || b == 0 {
    } else {
      assert k > 0;
      var p := Pow2(k - 1);
      var half := p * q;
      assert a == 2 * half;
      assert a / 2 == half && a % 2 == 0;
      assert b / 2 < p;
      BitOrDisjoint(q, b / 2, k - 1);
      assert BitOr(half, b / 2) == half + b / 2;
    }
  }

  lemma Pow2Values()
    ensures Pow2(4) == 16 && Pow2(5) == 32 && Pow2(6) == 64
  {
    assert Pow2(1) == 2 && Pow2(2) == 4 && Pow2(3) == 8;
  }

  /** `(q << 4) | b` for `b` below 16. */
  lemma OrBelow16(q: nat, b: nat)
    requires b < 16
    ensures BitOr(q * 16, b) == q * 16 + b
  {
    Pow2Values();
    BitOrDisjoint(q, b, 4);
  }

  /** `(q << 5) | b` for `b` below 32. */
  lemma OrBelow32(q: nat, b: nat)
    requires b < 32
    ensures BitOr(q * 32, b) == q * 32 + b
  {
    Pow2Values();
    BitOrDisjoint(q, b, 5);
  }

  /** `(q << 6) | b` for `b` below 64. */
  lemma OrBelow64(q: nat, b: nat)
    requires b < 64
    ensures BitOr(q * 64, b) == q * 64 + b
  {
    Pow2Values();
    BitOrDisjoint(q, b, 6);
  }

  /** `(a << 6) | (b << 4) | c` for `b` below 4 and `c` below 16. */
  lemma OrThreeFields(a: nat, b: nat, c: nat)
    requires b < 4 && c < 16
    ensures BitOr(BitOr(a * 64, b * 16), c) == a * 64 + b * 16 + c
  {
    var high := BitOr(a * 64, b * 16);
    OrBelow64(a, b * 16);
    var q := a * 4 + b;
    assert q * 16 == high;
    OrBelow16(q, c);
  }

  // ---------------------------------------------------------------------
  // struct.pack
  // ---------------------------------------------------------------------

  /** `struct.pack("!B", x)`. */
  function PackU8(x: int): (r: Encoded)
    ensures r.Encoded? <==> 0 <= x < 256
    ensures r.Encoded? ==> r.bytes == [x]
  {
    if 0 <= x < 256 then Encoded([x]) else StructError
  }

  /** `struct.pack("!H", x)`: two bytes, most significant first. */
  function PackU16(x: int): (r: Encoded)
    ensures r.Encoded? <==> 0 <= x < 65536
    ensures r.Encoded? ==> |r.bytes| == 2 && r.bytes[0] as int * 256 + r.bytes[1] as int == x
  {
    if 0 <= x < 65536 then Encoded([x / 256, x % 256]) else StructError
  }

  function Concat(a: Encoded, b: Encoded): (r: Encoded)
    ensures r.Encoded? <==> a.Encoded? && b.Encoded?
    ensures r.Encoded? ==> r.bytes == a.bytes + b.bytes
  {
    if a.Encoded? && b.Encoded? then Encoded(a.bytes + b.bytes) else StructError
  }

  // ---------------------------------------------------------------------
  // Option encoding (section 3.1 of RFC 7252)
  // ---------------------------------------------------------------------

  /** The 4-bit field and the extension bytes for one delta or length. */
  function Nibble(v: int): int {
    if v < 13 then v else if v < 269 then 13 else 14
  }

  function Extension(v: int): (r: Encoded)
    ensures 0 <= v <= MAX_EXTENDED ==> r.Encoded? && |r.bytes| == ExtensionSize(v)
  {
    if v < 13 then Encoded([]) else if v < 269 then PackU8(v - 13) else PackU16(v - 269)
  }

  /** Number of extension bytes section 3.1 of RFC 7252 prescribes. */
  function ExtensionSize(v: nat): nat {
    if v < 13 then 0 else if v < 269 then 1 else 2
  }

  /** `_encode_option(delta, value)`. */
  function EncodeOption(delta: int, value: seq<byte>): (r: Encoded)
    ensures r.Encoded? <==> 0 <= delta <= MAX_EXTENDED && |value| <= MAX_EXTENDED
    ensures r.Encoded? ==>
      |r.bytes| == 1 + ExtensionSize(delta) + ExtensionSize(|value|) + |value|
    ensures r.Encoded? ==> r.bytes[|r.bytes| - |value|..] == value
    ensures r.Encoded? ==> r.bytes[0] != PAYLOAD_MARKER
  {
    var d := Nibble(delta);
    var l := Nibble(|value|);
    if d < 0 then StructError
    else
      OrBelow16(d, l);
      Concat(Concat(Concat(PackU8(BitOr(d * 16, l)), Extension(delta)), Extension(|value|)),
             Encoded(value))
  }

  // ---------------------------------------------------------------------
  // Request building
  // ---------------------------------------------------------------------

  /** `str.encode("utf-8")` for one code point. */
  function Utf8Char(c: char): (r: seq<byte>)
    ensures 1 <= |r| <= 4
  {
    var n := c as int;
    if n < 0x80 then [n]
    else if n < 0x800 then [0xC0 + n / 64, 0x80 + n % 64]
    else if n < 0x10000 then [0xE0 + n / 4096, 0x80 + (n / 64) % 64, 0x80 + n % 64]
    else [0xF0 + n / 262144, 0x80 + (n / 4096) % 64, 0x80 + (n / 64) % 64, 0x80 + n % 64]
  }

  /** `str.encode("utf-8")`. */
  function Utf8(s: string): (r: seq<byte>)
    ensures |s| > 0 ==> |r| > 0
  {
    if |s| == 0 then [] else Utf8Char(s[0]) + Utf8(s[1..])
  }

  /** The non-empty parts, in their order. */
  function NonEmpty(parts: seq<string>): (r: seq<string>)
    ensures forall i :: 0 <= i < |r| ==> r[i] != ""
    ensures Subsequence(r, parts)
    ensures forall x :: x in parts && x != "" ==> x in r
    ensures forall x :: x != "" ==> multiset(r)[x] == multiset(parts)[x]
    ensures |r| == |parts| - multiset(parts)[""]
    decreases |parts|
  {
    if |parts| == 0 then []
    else
      var rest := NonEmpty(parts[1..]);
      if parts[0] == "" then
        EmptyDropped(parts, rest);
        rest
      else
        NonEmptyKept(parts, rest);
        [parts[0]] + rest
  }

  /** What `NonEmpty` promises of its result `r` on `parts`. */
  ghost predicate KeepsNonEmpty(parts: seq<string>, r: seq<string>) {
    && (forall i :: 0 <= i < |r| ==> r[i] != "")
    && Subsequence(r, parts)
    && (forall x :: x in parts && x != "" ==> x in r)
    && (forall x :: x != "" ==> multiset(r)[x] == multiset(parts)[x])
    && |r| == |parts| - multiset(parts)[""]
  }

  /** A leading empty part is dropped. */
  lemma EmptyDropped(parts: seq<string>, rest: seq<string>)
    requires |parts| > 0 && parts[0] == ""
    requires KeepsNonEmpty(parts[1..], rest)
    ensures KeepsNonEmpty(parts, rest)
  {
    assert parts == [parts[0]] + parts[1..];
    assert multiset(parts) == multiset([parts[0]]) + multiset(parts[1..]);
    assert forall x :: x in parts && x != parts[0] ==> x in parts[1..];
    SubsequenceSkip(rest, parts[1..], parts[0]);
  }

  /** A leading non-empty part is kept in front. */
  lemma NonEmptyKept(parts: seq<string>, rest: seq<string>)
    requires |parts| > 0 && parts[0] != ""
    requires KeepsNonEmpty(parts[1..], rest)
    ensures KeepsNonEmpty(parts, [parts[0]] + rest)
  {
    assert parts == [parts[0]] + parts[1..];
    assert multiset(parts) == multiset([parts[0]]) + multiset(parts[1..]);
    assert multiset([parts[0]] + rest) == multiset([parts[0]]) + multiset(rest);
    assert forall x :: x in parts && x != parts[0] ==> x in parts[1..];
    assert ([parts[0]] + rest)[1..] == rest;
  }

  /** `[s for s in uri_path.strip("/").split("/") if s]`. */
  function PathSegments(uriPath: string): seq<string> {
    NonEmpty(SplitOn(StripChar(uriPath, '/'), "/"))
  }

  /** The UTF-8 encoding of each segment. */
  function Utf8All(segments: seq<string>): (r: seq<seq<byte>>)
    ensures |r| == |segments|
    ensures forall i :: 0 <= i < |r| ==> r[i] == Utf8(segments[i])
  {
    if |segments| == 0 then [] else [Utf8(segments[0])] + Utf8All(segments[1..])
  }

  /** The Uri-Path options carrying `values`, each delta relative to the
      previously emitted option number `prev`. */
  function EncodeSegments(values: seq<seq<byte>>, prev: nat): Encoded
  {
    if |values| == 0 then Encoded([])
    else
      Concat(EncodeOption(OPTION_URI_PATH - prev, values[0]),
             EncodeSegments(values[1..], OPTION_URI_PATH))
  }

  /** `struct.pack("!BBH", first, code, message_id)`. */
  function PackHeader(first: nat, code: nat, messageId: nat): (r: Encoded)
    ensures r.Encoded? <==> first < 256 && code < 256 && messageId < 65536
  {
    Concat(Concat(PackU8(first), PackU8(code)), PackU16(messageId))
  }

  function FirstByte(msgType: nat, tokenLength: nat): nat {
    BitOr(BitOr(COAP_VERSION * 64, msgType * 16), tokenLength % 16)
  }

  /** `_build_coap_request(msg_type, (code_class, code_detail), message_id, token, uri_path)`. */
  function BuildRequest(msgType: nat, codeClass: nat, codeDetail: nat, messageId: nat,
                        token: seq<byte>, uriPath: string): Encoded
  {
    var header := PackHeader(FirstByte(msgType, |token|), BitOr(codeClass * 32, codeDetail), messageId);
    Concat(Concat(header, Encoded(token)), EncodeSegments(Utf8All(PathSegments(uriPath)), 0))
  }

  /** `_build_ack(message_id, token)`: an empty (code 0.00) acknowledgement. */
  function BuildAck(messageId: nat, token: seq<byte>): Encoded
  {
    Concat(PackHeader(FirstByte(TYPE_ACK, |token|), 0, messageId), Encoded(token))
  }

  // ---------------------------------------------------------------------
  // Response parsing
  // ---------------------------------------------------------------------

  /** Outcome of the option loop: the options, where parsing stopped, and
      whether it stopped on the payload marker. */
  datatype OptionWalk = WalkRaises | Walked(options: seq<CoapOption>, end: nat, marker: bool)

  /** `data[i]` as an `IndexError`-raising read. */
  function ExtendedField(data: seq<byte>, nibble: nat, at: nat): (r: Option<(nat, nat)>)
    ensures r.Some? ==> r.value.1 >= at
  {
    if nibble == 13 then
      (if at < |data| then Some((data[at] as nat + 13, at + 1)) else None)
    else if nibble == 14 then
      (if at + 2 <= |data| then Some((data[at] as nat * 256 + data[at + 1] as nat + 269, at + 2)) else None)
    else Some((nibble, at))
  }

  /** One more option in front of the rest of the walk; an exception raised
      later in the loop still propagates. */
  function ConsOption(option: CoapOption, rest: OptionWalk): (r: OptionWalk)
    ensures r.WalkRaises? <==> rest.WalkRaises?
    ensures r.Walked? ==> r.options == [option] + rest.options && r.end == rest.end && r.marker == rest.marker
  {
    match rest
    case WalkRaises => WalkRaises
    case Walked(options, end, marker) => Walked([option] + options, end, marker)
  }

  function Min(a: nat, b: nat): nat { if a < b then a else b }

  /** One option read at `offset`: its delta, its value and the offset
      just past it, or `None` where reading an extended field raises. A
      value running past the end of the data is cut short, as slicing does. */
  function ReadOption(data: seq<byte>, offset: nat): (r: Option<(nat, seq<byte>, nat)>)
    requires offset < |data|
    ensures r.Some? ==> r.value.2 > offset
  {
    var b := data[offset];
    match ExtendedField(data, b / 16, offset + 1)
    case None => None
    case Some((delta, afterDelta)) =>
      match ExtendedField(data, b % 16, afterDelta)
      case None => None
      case Some((length, afterLength)) =>
        Some((delta, data[Min(afterLength, |data|)..Min(afterLength + length, |data|)], afterLength + length))
  }

  /** Every option number is at least `prev`. */
  predicate AtLeast(options: seq<CoapOption>, prev: nat) {
    forall i :: 0 <= i < |options| ==> prev <= options[i].0
  }

  /** Option numbers in non-decreasing order. */
  predicate Ordered(options: seq<CoapOption>) {
    forall i, j :: 0 <= i < j < |options| ==> options[i].0 <= options[j].0
  }

  /** The `while offset < len(data)` loop of `_parse_coap_response`. */
  function ParseOptions(data: seq<byte>, offset: nat, prev: nat): (r: OptionWalk)
    ensures r.Walked? ==> r.end >= offset
    ensures r.Walked? && r.marker ==> offset < r.end <= |data| && data[r.end - 1] == PAYLOAD_MARKER
    ensures r.Walked? && !r.marker ==> r.end >= |data|
    decreases if offset <= |data| then |data| - offset else 0
  {
    if offset >= |data| then Walked([], offset, false)
    else if data[offset] == PAYLOAD_MARKER then Walked([], offset + 1, true)
    else
      var read := ReadOption(data, offset);
      if read.None? then WalkRaises
      else
        var (delta, value, next) := read.value;
        ConsOption((prev + delta, value), ParseOptions(data, next, prev + delta))
  }

  /** One turn of the option loop, given what was read. */
  lemma WalkStep(data: seq<byte>, offset: nat, prev: nat, delta: nat, value: seq<byte>, next: nat, number: nat)
    requires offset < |data| && data[offset] != PAYLOAD_MARKER
    requires ReadOption(data, offset) == Some((delta, value, next))
    requires number == prev + delta
    ensures ParseOptions(data, offset, prev) == ConsOption((number, value), ParseOptions(data, next, number))
  {
  }

  /** Option numbers only grow: each is at least the previous one, since
      deltas are never negative. */
  lemma {:induction false} ParseOptionsOrdered(data: seq<byte>, offset: nat, prev: nat)
    ensures var r := ParseOptions(data, offset, prev);
      r.Walked? ==> AtLeast(r.options, prev) && Ordered(r.options)
    decreases if offset <= |data| then |data| - offset else 0
  {
    if offset < |data| && data[offset] != PAYLOAD_MARKER {
      var h := ReadOption(data, offset);
      if h.Some? {
        var delta, value, next := h.value.0, h.value.1, h.value.2;
        WalkStep(data, offset, prev, delta, value, next, prev + delta);
        ParseOptionsOrdered(data, next, prev + delta);
        var rest := ParseOptions(data, next, prev + delta);
        if rest.Walked? {
          ConsOrdered((prev + delta, value), rest.options, prev);
        }
      }
    }
  }

  /** Putting an option in front of an ordered list whose numbers are all at
      least its own keeps the list ordered. */
  lemma ConsOrdered(option: CoapOption, rest: seq<CoapOption>, prev: nat)
    requires prev <= option.0 && AtLeast(rest, option.0) && Ordered(rest)
    ensures AtLeast([option] + rest, prev) && Ordered([option] + rest)
  {
  }

  /** `_parse_coap_response(data)`. */
  function ParseResponse(data: seq<byte>): (r: Parsed)
    ensures |data| < 4 ==> r == NotCoap
    ensures |data| >= 4 && data[0] / 64 != COAP_VERSION ==> r == NotCoap
    ensures r.Parsed? ==> r.msg.version == COAP_VERSION && |r.msg.token| <= 15
  {
    if |data| < 4 then NotCoap
    else
      var first := data[0];
      var code := data[1];
      var version := (first / 64) % 4;
      var tkl := first % 16;
      if version != COAP_VERSION then NotCoap
      else
        var token := data[4..Min(4 + tkl, |data|)];
        match ParseOptions(data, 4 + tkl, 0)
        case WalkRaises => Raises
        case Walked(options, end, marker) =>
          var payload := if end < |data| then data[end..] else [];
          Parsed(CoapMessage(version, (first / 16) % 4, (code / 32) % 8, code % 32,
                             data[2] as nat * 256 + data[3] as nat, token, options, payload))
  }

  /** A parsed message lists its options in non-decreasing number order, and
      a non-empty payload is exactly what follows a 0xFF marker byte. */
  lemma ParseResponseShape(data: seq<byte>)
    ensures var r := ParseResponse(data);
      r.Parsed? ==> Ordered(r.msg.options)
    ensures var r := ParseResponse(data);
      r.Parsed? && |r.msg.payload| > 0 ==>
        exists k :: 4 <= k < |data| && data[k] == PAYLOAD_MARKER && r.msg.payload == data[k + 1..]
  {
    if |data| >= 4 && (data[0] / 64) % 4 == COAP_VERSION {
      var tkl := data[0] % 16;
      ParseOptionsOrdered(data, 4 + tkl, 0);
      ResponseFromWalk(data);
      var w := ParseOptions(data, 4 + tkl, 0);
      if w.Walked? {
        assert Ordered(ParseResponse(data).msg.options) by {
          assert ParseResponse(data).msg.options == w.options;
        }
      }
      if w.Walked? && w.end < |data| {
        var k := w.end - 1;
        assert data[k] == PAYLOAD_MARKER && data[w.end..] == data[k + 1..];
      }
    }
  }

  /** The options and payload of a parsed message are those of the option
      walk that starts right after the token. */
  lemma ResponseFromWalk(data: seq<byte>)
    requires |data| >= 4 && (data[0] / 64) % 4 == COAP_VERSION
    ensures var w := ParseOptions(data, 4 + data[0] % 16, 0);
      var r := ParseResponse(data);
      (r.Parsed? <==> w.Walked?) &&
      (w.Walked? ==> r.msg.options == w.options && r.msg.payload == if w.end < |data| then data[w.end..] else [])
  {
  }

  // ---------------------------------------------------------------------
  // Round trips
  // ---------------------------------------------------------------------

  /** The options the parser reports for a request built from `segments`. */
  function UriPathOptions(values: seq<seq<byte>>): seq<CoapOption> {
    if |values| == 0 then [] else [(OPTION_URI_PATH, values[0])] + UriPathOptions(values[1..])
  }

  /** The header byte carries version, type and token length in fixed bit
      positions when each fits its field, and the parser's shifts and masks
      read them back. */
  lemma FirstByteFields(msgType: nat, tokenLength: nat)
    requires msgType < 4 && tokenLength <= 15
    ensures FirstByte(msgType, tokenLength) == 64 + 16 * msgType + tokenLength
    ensures var x := 64 + 16 * msgType + tokenLength;
      x / 64 == COAP_VERSION && (x / 16) % 4 == msgType && x % 16 == tokenLength
  {
    FirstByteValue(msgType, tokenLength);
    FirstByteSplit(msgType, tokenLength);
  }

  lemma FirstByteValue(msgType: nat, tokenLength: nat)
    requires msgType < 4 && tokenLength <= 15
    ensures FirstByte(msgType, tokenLength) == 64 + 16 * msgType + tokenLength
  {
    assert tokenLength % 16 == tokenLength;
    OrThreeFields(COAP_VERSION, msgType, tokenLength % 16);
  }

  lemma FirstByteSplit(msgType: nat, tokenLength: nat)
    requires msgType < 4 && tokenLength <= 15
    ensures var x := 64 + 16 * msgType + tokenLength;
      x / 64 == COAP_VERSION && (x / 16) % 4 == msgType && x % 16 == tokenLength
  {
    var x := 64 + 16 * msgType + tokenLength;
    assert x / 16 == 4 + msgType && x % 16 == tokenLength;
  }

  /** The code byte is `class << 5 | detail`, and the parser's shifts and
      masks read both back. */
  lemma CodeByteFields(codeClass: nat, codeDetail: nat)
    requires codeClass < 8 && codeDetail < 32
    ensures BitOr(codeClass * 32, codeDetail) == 32 * codeClass + codeDetail < 256
    ensures var x := 32 * codeClass + codeDetail; (x / 32) % 8 == codeClass && x % 32 == codeDetail
  {
    OrBelow32(codeClass, codeDetail);
    CodeByteSplit(codeClass, codeDetail);
  }

  lemma CodeByteSplit(codeClass: nat, codeDetail: nat)
    requires codeClass < 8 && codeDetail < 32
    ensures var x := 32 * codeClass + codeDetail; (x / 32) % 8 == codeClass && x % 32 == codeDetail
  {
  }

  lemma SliceOfSlice<T>(data: seq<T>, offset: nat, n: nat, i: nat, j: nat)
    requires offset + n <= |data| && i <= j <= n
    ensures data[offset + i..offset + j] == data[offset..offset + n][i..j]
  {
    var a := data[offset + i..offset + j];
    var b := data[offset..offset + n][i..j];
    assert |a| == |b|;
    forall k | 0 <= k < |a| ensures a[k] == b[k] {
      assert a[k] == data[offset + i + k];
    }
  }

  /** Reading an extension field written by `Extension` gives back the value. */
  lemma ExtensionReadBack(data: seq<byte>, at: nat, v: nat)
    requires v <= MAX_EXTENDED
    requires at + |Extension(v).bytes| <= |data|
    requires Extension(v).Encoded? && data[at..at + |Extension(v).bytes|] == Extension(v).bytes
    ensures |Extension(v).bytes| == ExtensionSize(v)
    ensures ExtendedField(data, Nibble(v), at) == Some((v, at + ExtensionSize(v)))
  {
    if 13 <= v < 269 {
      assert data[at] == data[at..at + 1][0];
    } else if v >= 269 {
      assert data[at] == data[at..at + 2][0] && data[at + 1] == data[at..at + 2][1];
    }
  }

  /** The option header byte: delta nibble above length nibble. */
  function OptionHeader(delta: nat, length: nat): (r: byte)
    requires delta <= MAX_EXTENDED && length <= MAX_EXTENDED
    ensures r / 16 == Nibble(delta) && r % 16 == Nibble(length)
    ensures r != PAYLOAD_MARKER
  {
    16 * Nibble(delta) + Nibble(length)
  }

  /** One option as section 3.1 of RFC 7252 lays it out: header byte,
      delta extension, length extension, value. */
  function OptionBytes(delta: nat, value: seq<byte>): (r: seq<byte>)
    requires delta <= MAX_EXTENDED && |value| <= MAX_EXTENDED
    ensures |r| == 1 + ExtensionSize(delta) + ExtensionSize(|value|) + |value|
  {
    [OptionHeader(delta, |value|)] + Extension(delta).bytes + Extension(|value|).bytes + value
  }

  /** `_encode_option` writes exactly that layout. */
  lemma EncodeOptionLayout(delta: nat, value: seq<byte>)
    requires delta <= MAX_EXTENDED && |value| <= MAX_EXTENDED
    ensures EncodeOption(delta, value) == Encoded(OptionBytes(delta, value))
  {
    OrBelow16(Nibble(delta), Nibble(|value|));
  }

  /** Where the four parts of a laid-out option sit inside `data`. */
  lemma LocateParts<T>(data: seq<T>, offset: nat, h: T, b: seq<T>, c: seq<T>, d: seq<T>)
    requires offset + 1 + |b| + |c| + |d| <= |data|
    requires data[offset..offset + 1 + |b| + |c| + |d|] == [h] + b + c + d
    ensures data[offset] == h
    ensures data[offset + 1..offset + 1 + |b|] == b
    ensures data[offset + 1 + |b|..offset + 1 + |b| + |c|] == c
    ensures data[offset + 1 + |b| + |c|..offset + 1 + |b| + |c| + |d|] == d
  {
    var n := 1 + |b| + |c| + |d|;
    var all := [h] + b + c + d;
    assert data[offset] == data[offset..offset + n][0];
    SliceOfSlice(data, offset, n, 1, 1 + |b|);
    SliceOfSlice(data, offset, n, 1 + |b|, 1 + |b| + |c|);
    SliceOfSlice(data, offset, n, 1 + |b| + |c|, n);
    assert all[1..1 + |b|] == b;
    assert all[1 + |b|..1 + |b| + |c|] == c;
    assert all[1 + |b| + |c|..n] == d;
  }

  /** One option written by `_encode_option` is read back by one turn of
      the parser's loop: its number is the previous one plus the delta and
      its value is the value written. */
  lemma ParseEncodedOption(data: seq<byte>, offset: nat, prev: nat, delta: nat, value: seq<byte>)
    requires delta <= MAX_EXTENDED && |value| <= MAX_EXTENDED
    requires offset + |EncodeOption(delta, value).bytes| <= |data|
    requires data[offset..offset + |EncodeOption(delta, value).bytes|] == EncodeOption(delta, value).bytes
    ensures ParseOptions(data, offset, prev) ==
      ConsOption((prev + delta, value), ParseOptions(data, offset + |EncodeOption(delta, value).bytes|, prev + delta))
  {
    ReadEncodedOption(data, offset, delta, value);
    WalkStep(data, offset, prev, delta, value, offset + |EncodeOption(delta, value).bytes|, prev + delta);
  }

  /** Reading the option `_encode_option` wrote gives back its delta and
      value and stops right after it. */
  lemma ReadEncodedOption(data: seq<byte>, offset: nat, delta: nat, value: seq<byte>)
    requires delta <= MAX_EXTENDED && |value| <= MAX_EXTENDED
    requires offset + |EncodeOption(delta, value).bytes| <= |data|
    requires data[offset..offset + |EncodeOption(delta, value).bytes|] == EncodeOption(delta, value).bytes
    ensures offset < |data| && data[offset] != PAYLOAD_MARKER
    ensures ReadOption(data, offset) == Some((delta, value, offset + |EncodeOption(delta, value).bytes|))
  {
    EncodeOptionLayout(delta, value);
    ReadOptionBytes(data, offset, delta, value);
  }

  /** Reading an option laid out at `offset` gives back its delta and value
      and stops right after it. */
  lemma ReadOptionBytes(data: seq<byte>, offset: nat, delta: nat, value: seq<byte>)
    requires delta <= MAX_EXTENDED && |value| <= MAX_EXTENDED
    requires offset + |OptionBytes(delta, value)| <= |data|
    requires data[offset..offset + |OptionBytes(delta, value)|] == OptionBytes(delta, value)
    ensures offset < |data| && data[offset] != PAYLOAD_MARKER
    ensures ReadOption(data, offset) == Some((delta, value, offset + |OptionBytes(delta, value)|))
  {
    var b, c := Extension(delta).bytes, Extension(|value|).bytes;
    assert |OptionBytes(delta, value)| == 1 + |b| + |c| + |value|;
    LocateParts(data, offset, OptionHeader(delta, |value|), b, c, value);
    ReadLaidOutOption(data, offset, delta, value);
  }

  /** Reading an option whose header byte, extensions and value sit at
      `offset`. */
  lemma ReadLaidOutOption(data: seq<byte>, offset: nat, delta: nat, value: seq<byte>)
    requires delta <= MAX_EXTENDED && |value| <= MAX_EXTENDED
    requires Extension(delta).Encoded? && Extension(|value|).Encoded?
    requires offset + 1 + |Extension(delta).bytes| + |Extension(|value|).bytes| + |value| <= |data|
    requires data[offset] == OptionHeader(delta, |value|)
    requires data[offset + 1..offset + 1 + |Extension(delta).bytes|] == Extension(delta).bytes
    requires var at := offset + 1 + |Extension(delta).bytes|;
      data[at..at + |Extension(|value|).bytes|] == Extension(|value|).bytes
    requires var at := offset + 1 + |Extension(delta).bytes| + |Extension(|value|).bytes|;
      data[at..at + |value|] == value
    ensures ReadOption(data, offset) ==
      Some((delta, value, offset + 1 + |Extension(delta).bytes| + |Extension(|value|).bytes| + |value|))
  {
    var afterDelta := offset + 1 + |Extension(delta).bytes|;
    var afterLength := afterDelta + |Extension(|value|).bytes|;
    ExtensionReadBack(data, offset + 1, delta);
    ExtensionReadBack(data, afterDelta, |value|);
    assert data[Min(afterLength, |data|)..Min(afterLength + |value|, |data|)] == value;
  }

  /** Every value fits the 16-bit extended length, so `struct.pack` never
      raises while encoding the Uri-Path options. */
  lemma {:induction false} EncodeSegmentsSucceeds(values: seq<seq<byte>>, prev: nat)
    requires prev <= OPTION_URI_PATH
    requires forall i :: 0 <= i < |values| ==> |values[i]| <= MAX_EXTENDED
    ensures EncodeSegments(values, prev).Encoded?
    decreases |values|
  {
    if |values| > 0 {
      BoundedTail(values);
      EncodeSegmentsSucceeds(values[1..], OPTION_URI_PATH);
    }
  }

  /** Dropping the first value keeps every value within the extended-length range. */
  lemma BoundedTail(values: seq<seq<byte>>)
    requires |values| > 0
    requires forall i :: 0 <= i < |values| ==> |values[i]| <= MAX_EXTENDED
    ensures forall i :: 0 <= i < |values[1..]| ==> |values[1..][i]| <= MAX_EXTENDED
  {
    forall i | 0 <= i < |values[1..]|
      ensures |values[1..][i]| <= MAX_EXTENDED
    {
      assert values[1..][i] == values[i + 1];
    }
  }

  /** `data` holds, from `offset` to its end, one encoded Uri-Path option
      per value, each delta taken from the option before. */
  predicate LaidOut(data: seq<byte>, offset: nat, values: seq<seq<byte>>, prev: nat)
    decreases |values|
  {
    if |values| == 0 then offset == |data|
    else
      prev <= OPTION_URI_PATH && |values[0]| <= MAX_EXTENDED &&
      var head := OptionBytes(OPTION_URI_PATH - prev, values[0]);
      offset + |head| <= |data| && data[offset..offset + |head|] == head &&
      LaidOut(data, offset + |head|, values[1..], OPTION_URI_PATH)
  }

  /** What `EncodeSegments` produced is laid out option by option. */
  lemma {:induction false} EncodedIsLaidOut(data: seq<byte>, offset: nat, values: seq<seq<byte>>, prev: nat)
    requires prev <= OPTION_URI_PATH
    requires EncodeSegments(values, prev).Encoded?
    requires offset <= |data| && data[offset..] == EncodeSegments(values, prev).bytes
    ensures LaidOut(data, offset, values, prev)
    decreases |values|
  {
    if |values| == 0 {
      assert |data[offset..]| == 0;
    } else {
      EncodeSegmentsHead(values, prev);
      var head := OptionBytes(OPTION_URI_PATH - prev, values[0]);
      var tail := EncodeSegments(values[1..], OPTION_URI_PATH).bytes;
      SplitSuffix(data, offset, head, tail);
      EncodedIsLaidOut(data, offset + |head|, values[1..], OPTION_URI_PATH);
      LaidOutCons(data, offset, values, prev);
    }
  }

  /** Encoding a non-empty list succeeds only when its first value fits,
      and then writes that value's option in front of the rest. */
  lemma EncodeSegmentsHead(values: seq<seq<byte>>, prev: nat)
    requires prev <= OPTION_URI_PATH && |values| > 0
    requires EncodeSegments(values, prev).Encoded?
    ensures |values[0]| <= MAX_EXTENDED && EncodeSegments(values[1..], OPTION_URI_PATH).Encoded?
    ensures EncodeSegments(values, prev).bytes ==
      OptionBytes(OPTION_URI_PATH - prev, values[0]) + EncodeSegments(values[1..], OPTION_URI_PATH).bytes
  {
    assert EncodeOption(OPTION_URI_PATH - prev, values[0]).Encoded?;
    EncodeOptionLayout(OPTION_URI_PATH - prev, values[0]);
  }

  /** One more option in front of a laid-out tail. */
  lemma LaidOutCons(data: seq<byte>, offset: nat, values: seq<seq<byte>>, prev: nat)
    requires |values| > 0 && prev <= OPTION_URI_PATH && |values[0]| <= MAX_EXTENDED
    requires var head := OptionBytes(OPTION_URI_PATH - prev, values[0]);
      offset + |head| <= |data| && data[offset..offset + |head|] == head &&
      LaidOut(data, offset + |head|, values[1..], OPTION_URI_PATH)
    ensures LaidOut(data, offset, values, prev)
  {
  }

  /** Uri-Path options laid out to the end of `data` parse back as one
      option per value, all numbered 11, with nothing after them. */
  lemma {:induction false} ParseEncodedSegments(data: seq<byte>, offset: nat, values: seq<seq<byte>>, prev: nat)
    requires prev == 0 || prev == OPTION_URI_PATH
    requires LaidOut(data, offset, values, prev)
    ensures ParseOptions(data, offset, prev) == Walked(UriPathOptions(values), |data|, false)
    decreases |values|
  {
    if |values| > 0 {
      var head := OptionBytes(OPTION_URI_PATH - prev, values[0]);
      LaidOutHead(data, offset, values, prev);
      ParseEncodedSegments(data, offset + |head|, values[1..], OPTION_URI_PATH);
      PrependUriPath(data, offset, values, prev, head);
    }
  }

  /** The first option of a non-empty layout, and the layout after it. */
  lemma LaidOutHead(data: seq<byte>, offset: nat, values: seq<seq<byte>>, prev: nat)
    requires |values| > 0 && LaidOut(data, offset, values, prev)
    ensures prev <= OPTION_URI_PATH && |values[0]| <= MAX_EXTENDED
    ensures var head := OptionBytes(OPTION_URI_PATH - prev, values[0]);
      offset + |head| <= |data| && data[offset..offset + |head|] == head &&
      LaidOut(data, offset + |head|, values[1..], OPTION_URI_PATH)
  {
  }

  /** The inductive step of `ParseEncodedSegments`. */
  lemma PrependUriPath(data: seq<byte>, offset: nat, values: seq<seq<byte>>, prev: nat, head: seq<byte>)
    requires prev == 0 || prev == OPTION_URI_PATH
    requires |values| > 0 && |values[0]| <= MAX_EXTENDED
    requires head == OptionBytes(OPTION_URI_PATH - prev, values[0])
    requires offset + |head| <= |data| && data[offset..offset + |head|] == head
    requires ParseOptions(data, offset + |head|, OPTION_URI_PATH) == Walked(UriPathOptions(values[1..]), |data|, false)
    ensures ParseOptions(data, offset, prev) == Walked(UriPathOptions(values), |data|, false)
  {
    UriPathHeadReads(data, offset, values[0], prev, head);
    WalkStep(data, offset, prev, OPTION_URI_PATH - prev, values[0], offset + |head|, OPTION_URI_PATH);
    ConsUriPath(values, |data|);
  }

  /** The first Uri-Path option of a run reads back from its bytes. */
  lemma UriPathHeadReads(data: seq<byte>, offset: nat, value: seq<byte>, prev: nat, head: seq<byte>)
    requires prev == 0 || prev == OPTION_URI_PATH
    requires |value| <= MAX_EXTENDED
    requires head == OptionBytes(OPTION_URI_PATH - prev, value)
    requires offset + |head| <= |data| && data[offset..offset + |head|] == head
    ensures offset < |data| && data[offset] != PAYLOAD_MARKER
    ensures ReadOption(data, offset) == Some((OPTION_URI_PATH - prev, value, offset + |head|))
  {
    ReadOptionBytes(data, offset, OPTION_URI_PATH - prev, value);
  }

  /** Putting the first segment's option in front of the walk over the
      others gives the walk over all of them. */
  lemma ConsUriPath(values: seq<seq<byte>>, end: nat)
    requires |values| > 0
    ensures ConsOption((OPTION_URI_PATH, values[0]), Walked(UriPathOptions(values[1..]), end, false)) ==
      Walked(UriPathOptions(values), end, false)
  {
  }

  /** A suffix made of two parts, located inside `data`. */
  lemma SplitSuffix<T>(data: seq<T>, offset: nat, head: seq<T>, tail: seq<T>)
    requires offset <= |data| && data[offset..] == head + tail
    ensures offset + |head| <= |data|
    ensures data[offset..offset + |head|] == head
    ensures data[offset + |head|..] == tail
  {
    assert data[offset..offset + |head|] == (head + tail)[..|head|];
    assert data[offset + |head|..] == (head + tail)[|head|..];
  }

  /** The header bytes the builder writes decode to the fields it was given. */
  lemma HeaderFields(data: seq<byte>, msgType: nat, codeClass: nat, codeDetail: nat,
                     messageId: nat, tokenLength: nat)
    requires msgType < 4 && codeClass < 8 && codeDetail < 32 && messageId < 65536 && tokenLength <= 15
    requires 4 <= |data|
    requires data[0] == 64 + 16 * msgType + tokenLength && data[1] == 32 * codeClass + codeDetail
    requires data[2] == messageId / 256 && data[3] == messageId % 256
    ensures (data[0] / 64) % 4 == COAP_VERSION && (data[0] / 16) % 4 == msgType
    ensures data[0] % 16 == tokenLength
    ensures (data[1] / 32) % 8 == codeClass && data[1] % 32 == codeDetail
    ensures data[2] as nat * 256 + data[3] as nat == messageId
  {
    FirstByteSplit(msgType, tokenLength);
    CodeByteSplit(codeClass, codeDetail);
  }

  /** What the parser reports for a datagram whose header fields, token
      and option walk are known. */
  lemma ParseKnownResponse(data: seq<byte>, msgType: nat, codeClass: nat, codeDetail: nat,
                           messageId: nat, token: seq<byte>, options: seq<CoapOption>)
    requires 4 + |token| <= |data| && |token| <= 15
    requires (data[0] / 64) % 4 == COAP_VERSION && (data[0] / 16) % 4 == msgType
    requires data[0] % 16 == |token|
    requires (data[1] / 32) % 8 == codeClass && data[1] % 32 == codeDetail
    requires data[2] as nat * 256 + data[3] as nat == messageId
    requires data[4..4 + |token|] == token
    requires ParseOptions(data, 4 + |token|, 0) == Walked(options, |data|, false)
    ensures ParseResponse(data) ==
      Parsed(CoapMessage(COAP_VERSION, msgType, codeClass, codeDetail, messageId, token, options, []))
  {
    assert Min(4 + |token|, |data|) == 4 + |token|;
  }

  /** The bytes of a built request: header, token, then the Uri-Path options. */
  lemma BuildRequestLayout(msgType: nat, codeClass: nat, codeDetail: nat, messageId: nat,
                           token: seq<byte>, uriPath: string)
    requires msgType < 4 && codeClass < 8 && codeDetail < 32 && messageId < 65536
    requires |token| <= 15
    requires forall i :: 0 <= i < |PathSegments(uriPath)| ==> |Utf8(PathSegments(uriPath)[i])| <= MAX_EXTENDED
    ensures EncodeSegments(Utf8All(PathSegments(uriPath)), 0).Encoded?
    ensures BuildRequest(msgType, codeClass, codeDetail, messageId, token, uriPath).Encoded?
    ensures BuildRequest(msgType, codeClass, codeDetail, messageId, token, uriPath).bytes ==
      [64 + 16 * msgType + |token|, 32 * codeClass + codeDetail, messageId / 256, messageId % 256] + token +
      EncodeSegments(Utf8All(PathSegments(uriPath)), 0).bytes
  {
    var values := Utf8All(PathSegments(uriPath));
    EncodeSegmentsSucceeds(values, 0);
    MessageLayout(msgType, codeClass, codeDetail, messageId, token, EncodeSegments(values, 0));
  }

  /** Header, token and options concatenated, for any encoded options. */
  lemma MessageLayout(msgType: nat, codeClass: nat, codeDetail: nat, messageId: nat,
                      token: seq<byte>, options: Encoded)
    requires msgType < 4 && codeClass < 8 && codeDetail < 32 && messageId < 65536
    requires |token| <= 15 && options.Encoded?
    ensures Concat(Concat(PackHeader(FirstByte(msgType, |token|), BitOr(codeClass * 32, codeDetail), messageId),
                          Encoded(token)), options) ==
      Encoded([64 + 16 * msgType + |token|, 32 * codeClass + codeDetail, messageId / 256, messageId % 256] + token +
              options.bytes)
  {
    HeaderLayout(msgType, codeClass, codeDetail, messageId, |token|);
  }

  /** The four header bytes `struct.pack("!BBH", ...)` writes. */
  lemma HeaderLayout(msgType: nat, codeClass: nat, codeDetail: nat, messageId: nat, tokenLength: nat)
    requires msgType < 4 && codeClass < 8 && codeDetail < 32 && messageId < 65536 && tokenLength <= 15
    ensures PackHeader(FirstByte(msgType, tokenLength), BitOr(codeClass * 32, codeDetail), messageId) ==
      Encoded([64 + 16 * msgType + tokenLength, 32 * codeClass + codeDetail, messageId / 256, messageId % 256])
  {
    FirstByteValue(msgType, tokenLength);
    OrBelow32(codeClass, codeDetail);
  }

  /** Parsing what `_build_coap_request` produced gives back version 1, the
      same type, code, message id and token, one Uri-Path option per
      non-empty path segment, and no payload. */
  lemma BuildRequestRoundTrip(msgType: nat, codeClass: nat, codeDetail: nat, messageId: nat,
                              token: seq<byte>, uriPath: string)
    requires msgType < 4 && codeClass < 8 && codeDetail < 32 && messageId < 65536
    requires |token| <= 15
    requires forall i :: 0 <= i < |PathSegments(uriPath)| ==> |Utf8(PathSegments(uriPath)[i])| <= MAX_EXTENDED
    ensures BuildRequest(msgType, codeClass, codeDetail, messageId, token, uriPath).Encoded?
    ensures ParseResponse(BuildRequest(msgType, codeClass, codeDetail, messageId, token, uriPath).bytes) ==
      Parsed(CoapMessage(COAP_VERSION, msgType, codeClass, codeDetail, messageId, token,
                         UriPathOptions(Utf8All(PathSegments(uriPath))), []))
  {
    BuildRequestLayout(msgType, codeClass, codeDetail, messageId, token, uriPath);
    var values := Utf8All(PathSegments(uriPath));
    ParseLaidOutRequest(msgType, codeClass, codeDetail, messageId, token, values);
  }

  /** A request laid out from header, token and Uri-Path options parses
      back to its fields. */
  lemma ParseLaidOutRequest(msgType: nat, codeClass: nat, codeDetail: nat, messageId: nat,
                            token: seq<byte>, values: seq<seq<byte>>)
    requires msgType < 4 && codeClass < 8 && codeDetail < 32 && messageId < 65536
    requires |token| <= 15
    requires EncodeSegments(values, 0).Encoded?
    ensures var data := [64 + 16 * msgType + |token|, 32 * codeClass + codeDetail, messageId / 256, messageId % 256] +
                        token + EncodeSegments(values, 0).bytes;
      ParseResponse(data) ==
      Parsed(CoapMessage(COAP_VERSION, msgType, codeClass, codeDetail, messageId, token, UriPathOptions(values), []))
  {
    var prefix := [64 + 16 * msgType + |token|, 32 * codeClass + codeDetail, messageId / 256, messageId % 256] + token;
    var opts := EncodeSegments(values, 0).bytes;
    assert (prefix + opts)[|prefix|..] == opts;
    EncodedIsLaidOut(prefix + opts, |prefix|, values, 0);
    ParseLaidOutOptions(msgType, codeClass, codeDetail, messageId, token, values, opts);
  }

  /** The same, for any option bytes that lay out the values. */
  lemma ParseLaidOutOptions(msgType: nat, codeClass: nat, codeDetail: nat, messageId: nat,
                            token: seq<byte>, values: seq<seq<byte>>, opts: seq<byte>)
    requires msgType < 4 && codeClass < 8 && codeDetail < 32 && messageId < 65536
    requires |token| <= 15
    requires var prefix := [64 + 16 * msgType + |token|, 32 * codeClass + codeDetail, messageId / 256, messageId % 256] + token;
      LaidOut(prefix + opts, |prefix|, values, 0)
    ensures var data := [64 + 16 * msgType + |token|, 32 * codeClass + codeDetail, messageId / 256, messageId % 256] +
                        token + opts;
      ParseResponse(data) ==
      Parsed(CoapMessage(COAP_VERSION, msgType, codeClass, codeDetail, messageId, token, UriPathOptions(values), []))
  {
    var prefix := [64 + 16 * msgType + |token|, 32 * codeClass + codeDetail, messageId / 256, messageId % 256] + token;
    var data := prefix + opts;
    assert |prefix| == 4 + |token|;
    assert data[4..4 + |token|] == token;
    ParseEncodedSegments(data, |prefix|, values, 0);
    HeaderFields(data, msgType, codeClass, codeDetail, messageId, |token|);
    ParseKnownResponse(data, msgType, codeClass, codeDetail, messageId, token, UriPathOptions(values));
  }

  /** `_build_ack` gives exactly 4 + |token| bytes, and they parse as an
      empty ACK (type 2, code 0.00) with the given message id and token. */
  lemma BuildAckRoundTrip(messageId: nat, token: seq<byte>)
    requires messageId < 65536 && |token| <= 15
    ensures BuildAck(messageId, token).Encoded?
    ensures |BuildAck(messageId, token).bytes| == 4 + |token|
    ensures ParseResponse(BuildAck(messageId, token).bytes) ==
      Parsed(CoapMessage(COAP_VERSION, TYPE_ACK, 0, 0, messageId, token, [], []))
  {
    FirstByteFields(TYPE_ACK, |token|);
    var data := [64 + 16 * TYPE_ACK + |token|, 0, messageId / 256, messageId % 256] + token;
    assert BuildAck(messageId, token).bytes == data;
    assert data[4..4 + |token|] == token;
  }

  /** An option header that announces an extended delta or length the data
      does not contain makes the Python raise rather than return `None`. */
  lemma TruncatedExtensionRaises(data: seq<byte>, prev: nat)
    requires |data| > 0 && data[|data| - 1] != PAYLOAD_MARKER
    requires data[|data| - 1] / 16 in {13, 14} || data[|data| - 1] % 16 in {13, 14}
    ensures ParseOptions(data, |data| - 1, prev) == WalkRaises
  {
  }

  /** A concrete instance: a 2.05 response whose only option byte 0xD0
      promises a one-byte delta extension that never comes. */
  lemma TruncatedResponseRaises()
    ensures ParseResponse([0x40, 0x45, 0x00, 0x01, 0xD0]) == Raises
  {
    TruncatedExtensionRaises([0x40, 0x45, 0x00, 0x01, 0xD0], 0);
  }
}
