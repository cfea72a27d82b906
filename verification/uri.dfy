/** `encodeURIComponent` as the lookup uses it to put a whole URL into one
    path segment, and a percent-decoder (`decodeURIComponent`) that serves as
    its reference inverse: every string survives the round trip, so the
    lookup URL identifies the queried address exactly. Characters are
    Unicode scalar values, encoded as UTF-8 before percent-escaping. */
module Uri {
  import opened Wrappers
  import Text

  type Byte = b: int | 0 <= b < 256

  /** The characters `encodeURIComponent` copies unchanged. */
  predicate Unreserved(c: char) {
    ('A' <= c <= 'Z') || ('a' <= c <= 'z') || ('0' <= c <= '9')
    || c == '-' || c == '_' || c == '.' || c == '!' || c == '~' || c == '*' || c == '\'' || c == '(' || c == ')'
  }

  const HexDigits: string := "0123456789ABCDEF"

  /** The value of one hexadecimal digit; the decoder accepts either case. */
  function HexValue(c: char): (r: Option<nat>)
    ensures r.Some? ==> r.value < 16
  {
    if '0' <= c <= '9' then Some(c as int - '0' as int)
    else if 'A' <= c <= 'F' then Some(c as int - 'A' as int + 10)
    else if 'a' <= c <= 'f' then Some(c as int - 'a' as int + 10)
    else None
  }

  /** Characters that can appear in the encoder's output. */
  predicate SafeChar(c: char) {
    Unreserved(c) || c == '%'
  }

  /** UTF-8 encoding of one Unicode scalar value (RFC 3629, section 3). */
  function Utf8(c: char): (bytes: seq<Byte>)
    ensures 1 <= |bytes| <= 4
  {
    var v := c as int;
    if v < 0x80 then [v]
    else if v < 0x800 then [0xC0 + v / 64, 0x80 + v % 64]
    else if v < 0x10000 then [0xE0 + v / 4096, 0x80 + (v / 64) % 64, 0x80 + v % 64]
    else [0xF0 + v / 262144, 0x80 + (v / 4096) % 64, 0x80 + (v / 64) % 64, 0x80 + v % 64]
  }

  /** `%XY` with upper-case hexadecimal digits. */
  function PercentByte(b: Byte): (r: string)
    ensures |r| == 3 && r[0] == '%'
    ensures forall i :: 0 <= i < |r| ==> SafeChar(r[i])
  {
    ['%', HexDigits[b / 16], HexDigits[b % 16]]
  }

  function PercentBytes(bytes: seq<Byte>): (r: string)
    ensures |r| == 3 * |bytes|
    ensures forall i :: 0 <= i < |r| ==> SafeChar(r[i])
  {
    if |bytes| == 0 then [] else PercentByte(bytes[0]) + PercentBytes(bytes[1..])
  }

  function EncodeChar(c: char): (r: string)
    ensures |r| >= 1
    ensures forall i :: 0 <= i < |r| ==> SafeChar(r[i])
  {
    if Unreserved(c) then [c] else PercentBytes(Utf8(c))
  }

  /** `encodeURIComponent(s)`. The result never holds a `/`, `?`, `#`, `:`
      or `&`, so it always forms a single path segment. */
  function Encode(s: string): (r: string)
    ensures |r| >= |s|
    ensures forall i :: 0 <= i < |r| ==> SafeChar(r[i])
  {
    if |s| == 0 then [] else EncodeChar(s[0]) + Encode(s[1..])
  }

  /** The byte spelled by a leading `%XY`, if there is one. */
  function PercentByteAt(s: string): (r: Option<Byte>)
  {
    if |s| >= 3 && s[0] == '%' then
      match (HexValue(s[1]), HexValue(s[2]))
      case (Some(hi), Some(lo)) => Some(hi * 16 + lo)
      case _ => None
    else None
  }

  /** `n` percent-escaped UTF-8 continuation bytes (`10xxxxxx`) at the front of `s`. */
  function Continuations(s: string, n: nat): (r: Option<(seq<Byte>, string)>)
    ensures r.Some? ==> |r.value.0| == n && |r.value.1| == |s| - 3 * n
    ensures r.Some? ==> forall i :: 0 <= i < n ==> 0x80 <= r.value.0[i] < 0xC0
  {
    if n == 0 then Some(([], s))
    else match PercentByteAt(s)
      case Some(b) =>
        if 0x80 <= b < 0xC0 then
          match Continuations(s[3..], n - 1)
          case Some((bs, rest)) => Some(([b] + bs, rest))
          case None => None
        else None
      case None => None
  }

  /** How many bytes a UTF-8 sequence with this lead byte has; 0 if it cannot lead one. */
  function SequenceLength(lead: Byte): nat {
    if lead < 0x80 then 1
    else if 0xC0 <= lead < 0xE0 then 2
    else if 0xE0 <= lead < 0xF0 then 3
    else if 0xF0 <= lead < 0xF8 then 4
    else 0
  }

  /** The smallest code point that needs `n` bytes; shorter forms are overlong and rejected. */
  function MinCodePoint(n: nat): int {
    if n <= 1 then 0 else if n == 2 then 0x80 else if n == 3 then 0x800 else 0x10000
  }

  function CodePoint(lead: Byte, conts: seq<Byte>): int
    requires |conts| == SequenceLength(lead) - 1
    requires forall i :: 0 <= i < |conts| ==> 0x80 <= conts[i]
  {
    var n := SequenceLength(lead);
    var l: int := lead;
    if n == 1 then l
    else if n == 2 then (l - 0xC0) * 64 + Low6(conts[0])
    else if n == 3 then (l - 0xE0) * 4096 + Low6(conts[0]) * 64 + Low6(conts[1])
    else (l - 0xF0) * 262144 + Low6(conts[0]) * 4096 + Low6(conts[1]) * 64 + Low6(conts[2])
  }

  /** The payload of a continuation byte. */
  function Low6(b: Byte): int {
    b - 0x80
  }

  predicate IsScalarValue(v: int) {
    (0 <= v < 0xD800) || (0xE000 <= v < 0x11_0000)
  }

  /** Reads one character from the front of `s`: a literal character, or
      a percent-escaped UTF-8 sequence; None where `decodeURIComponent` throws. */
  function DecodeOne(s: string): (r: Option<(char, string)>)
    requires |s| > 0
    ensures r.Some? ==> |r.value.1| < |s|
  {
    if s[0] != '%' then Some((s[0], s[1..]))
    else match PercentByteAt(s)
      case None => None
      case Some(lead) =>
        var n := SequenceLength(lead);
        if n == 0 then None
        else match Continuations(s[3..], n - 1)
          case None => None
          case Some((conts, rest)) =>
            var v := CodePoint(lead, conts);
            if IsScalarValue(v) && MinCodePoint(n) <= v then Some((v as char, rest)) else None
  }

  /** `decodeURIComponent(s)`, None where it throws a URIError. */
  function Decode(s: string): (r: Option<string>)
    decreases |s|
  {
    if |s| == 0 then Some([])
    else match DecodeOne(s)
      case None => None
      case Some((c, rest)) =>
        match Decode(rest)
        case None => None
        case Some(t) => Some([c] + t)
  }

  lemma HexValueOfDigit(d: nat)
    requires d < 16
    ensures HexValue(HexDigits[d]) == Some(d)
  {
  }

  lemma PercentByteRoundTrip(b: Byte, rest: string)
    ensures PercentByteAt(PercentByte(b) + rest) == Some(b)
  {
    HexValueOfDigit(b / 16);
    HexValueOfDigit(b % 16);
  }

  lemma {:induction false} ContinuationsRoundTrip(bs: seq<Byte>, rest: string)
    requires forall i :: 0 <= i < |bs| ==> 0x80 <= bs[i] < 0xC0
    ensures Continuations(PercentBytes(bs) + rest, |bs|) == Some((bs, rest))
  {
    if |bs| > 0 {
      PercentBytesSplit(bs, rest);
      PercentByteRoundTrip(bs[0], PercentBytes(bs[1..]) + rest);
      ContinuationsRoundTrip(bs[1..], rest);
      assert [bs[0]] + bs[1..] == bs;
    } else {
      assert PercentBytes(bs) + rest == rest;
    }
  }

  /** The arithmetic behind reassembling a code point from its 6-bit groups. */
  lemma SixBitGroups(v: nat)
    ensures v == (v / 64) * 64 + v % 64
    ensures v == (v / 4096) * 4096 + ((v / 64) % 64) * 64 + v % 64
    ensures v == (v / 262144) * 262144 + ((v / 4096) % 64) * 4096 + ((v / 64) % 64) * 64 + v % 64
  {
    var q := v / 64;
    assert q == (q / 64) * 64 + q % 64;
    assert q / 64 == v / 4096;
    var q2 := v / 4096;
    assert q2 == (q2 / 64) * 64 + q2 % 64;
    assert q2 / 64 == v / 262144;
    assert q2 % 64 == (v / 4096) % 64;
  }

  /** The UTF-8 bytes of `c` form a well-formed, shortest-form sequence that
      reassembles to `c`. */
  lemma Utf8WellFormed(c: char)
    ensures SequenceLength(Utf8(c)[0]) == |Utf8(c)|
    ensures forall i :: 1 <= i < |Utf8(c)| ==> 0x80 <= Utf8(c)[i] < 0xC0
    ensures CodePoint(Utf8(c)[0], Utf8(c)[1..]) == c as int
    ensures MinCodePoint(|Utf8(c)|) <= c as int
  {
    var v := c as int;
    var bytes := Utf8(c);
    SixBitGroups(v);
    if v < 0x80 {
    } else if v < 0x800 {
      assert bytes[1..] == [0x80 + v % 64];
    } else if v < 0x10000 {
      assert bytes[1..] == [0x80 + (v / 64) % 64, 0x80 + v % 64];
    } else {
      assert bytes[1..] == [0x80 + (v / 4096) % 64, 0x80 + (v / 64) % 64, 0x80 + v % 64];
    }
  }

  /** The escapes of a byte sequence read back as its first byte followed
      by its continuation bytes. */
  lemma PercentBytesParts(bytes: seq<Byte>, rest: string)
    requires |bytes| > 0
    requires forall i :: 1 <= i < |bytes| ==> 0x80 <= bytes[i] < 0xC0
    ensures (PercentBytes(bytes) + rest)[0] == '%'
    ensures PercentByteAt(PercentBytes(bytes) + rest) == Some(bytes[0])
    ensures Continuations((PercentBytes(bytes) + rest)[3..], |bytes| - 1) == Some((bytes[1..], rest))
  {
    var tail := PercentBytes(bytes[1..]) + rest;
    PercentBytesSplit(bytes, rest);
    PercentByteRoundTrip(bytes[0], tail);
    ContinuationsRoundTrip(bytes[1..], rest);
  }

  /** Dropping a prefix's length drops the prefix. */
  lemma DropPrefix<T>(a: seq<T>, b: seq<T>)
    ensures (a + b)[|a|..] == b
  {
  }

  /** The escapes of the first byte, then those of the others. */
  lemma PercentBytesSplit(bytes: seq<Byte>, rest: string)
    requires |bytes| > 0
    ensures PercentBytes(bytes) + rest == PercentByte(bytes[0]) + (PercentBytes(bytes[1..]) + rest)
    ensures (PercentBytes(bytes) + rest)[3..] == PercentBytes(bytes[1..]) + rest
  {
    var head := PercentByte(bytes[0]);
    var tail := PercentBytes(bytes[1..]);
    assert PercentBytes(bytes) == head + tail;
    Text.ConcatAssoc(head, tail, rest);
    DropPrefix(head, tail + rest);
  }

  /** A well-formed percent-escaped UTF-8 sequence is read back as the
      code point it spells, when that is a character in shortest form. */
  lemma DecodePercentBytes(bytes: seq<Byte>, rest: string)
    requires |bytes| > 0 && SequenceLength(bytes[0]) == |bytes|
    requires forall i :: 1 <= i < |bytes| ==> 0x80 <= bytes[i] < 0xC0
    ensures var v := CodePoint(bytes[0], bytes[1..]);
            DecodeOne(PercentBytes(bytes) + rest)
            == if IsScalarValue(v) && MinCodePoint(|bytes|) <= v then Some((v as char, rest)) else None
  {
    PercentBytesParts(bytes, rest);
  }

  lemma DecodeOneEncodeChar(c: char, rest: string)
    ensures DecodeOne(EncodeChar(c) + rest) == Some((c, rest))
  {
    if !Unreserved(c) {
      Utf8WellFormed(c);
      DecodePercentBytes(Utf8(c), rest);
    }
  }

  /** decodeURIComponent(encodeURIComponent(s)) == s */
  lemma {:induction false} DecodeEncode(s: string)
    ensures Decode(Encode(s)) == Some(s)
  {
    if |s| > 0 {
      DecodeOneEncodeChar(s[0], Encode(s[1..]));
      DecodeEncode(s[1..]);
      assert [s[0]] + s[1..] == s;
    }
  }
}
