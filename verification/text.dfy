/** String helpers with the semantics of the JavaScript built-ins the monitor
    relies on: `startsWith`, `includes`, template-literal formatting of
    non-negative integers, and `parseInt(s, 10)`. */
module Text {
  import opened Wrappers

  /** `s.startsWith(p)` */
  predicate IsPrefix(p: string, s: string) {
    |p| <= |s| && s[..|p|] == p
  }

  /** `s.endsWith(p)` */
  predicate IsSuffix(p: string, s: string) {
    |p| <= |s| && s[|s| - |p|..] == p
  }

  /** `p` occurs in `s` starting at index `i`. */
  predicate OccursAt(p: string, s: string, i: int) {
    0 <= i <= |s| - |p| && s[i..i + |p|] == p
  }

  /** `s.includes(p)`: `p` occurs somewhere in `s` (the empty string occurs everywhere). */
  predicate IsInfix(p: string, s: string) {
    exists i :: 0 <= i <= |s| - |p| && OccursAt(p, s, i)
  }

  /** An occurrence inside `b` is still an occurrence once text is added on either side. */
  lemma InfixOfConcat(p: string, a: string, b: string, c: string)
    requires IsInfix(p, b)
    ensures IsInfix(p, a + b + c)
  {
    var i :| 0 <= i <= |b| - |p| && OccursAt(p, b, i);
    var s := a + b + c;
    assert s[|a| + i..|a| + i + |p|] == b[i..i + |p|];
    assert OccursAt(p, s, |a| + i);
  }

  lemma InfixOfSelf(p: string)
    ensures IsInfix(p, p)
  {
    assert OccursAt(p, p, 0);
  }

  /** An occurrence in `s` is still one after text is put in front of `s`. */
  lemma InfixAfter(p: string, a: string, s: string)
    requires IsInfix(p, s)
    ensures IsInfix(p, a + s)
  {
    InfixOfConcat(p, a, s, "");
    assert a + s + "" == a + s;
  }

  /** An occurrence in `s` is still one after text is appended to `s`. */
  lemma InfixBefore(p: string, s: string, c: string)
    requires IsInfix(p, s)
    ensures IsInfix(p, s + c)
  {
    InfixOfConcat(p, "", s, c);
    assert "" + s + c == s + c;
  }

  /** A prefix of `s` is still one after text is appended to `s`. */
  lemma PrefixBefore(p: string, s: string, c: string)
    requires IsPrefix(p, s)
    ensures IsPrefix(p, s + c)
  {
    assert (s + c)[..|p|] == s[..|p|];
  }

  /** Putting the same text in front of both keeps a prefix a prefix. */
  lemma PrefixAfterSame(a: string, p: string, s: string)
    requires IsPrefix(p, s)
    ensures IsPrefix(a + p, a + s)
  {
    assert (a + s)[..|a + p|] == a + s[..|p|];
  }

  /** `a + b + c` ends with `b + c`. */
  lemma SuffixOfConcat(a: string, b: string, c: string)
    ensures IsSuffix(b + c, a + b + c)
  {
    var s := a + b + c;
    assert s[|s| - |b + c|..] == b + c;
  }

  predicate IsDigit(c: char) {
    '0' <= c <= '9'
  }

  predicate AllDigits(s: string) {
    forall i :: 0 <= i < |s| ==> IsDigit(s[i])
  }

  function DigitChar(d: nat): (c: char)
    requires d < 10
    ensures IsDigit(c) && c as int - '0' as int == d
  {
    (d + '0' as int) as char
  }

  /** The decimal text JavaScript produces for a non-negative integer
      (`${n}` in a template literal): no sign, no leading zeros. */
  function NatToString(n: nat): (r: string)
    ensures |r| >= 1 && AllDigits(r)
    ensures r[0] == '0' ==> n == 0
  {
    if n < 10 then [DigitChar(n)] else NatToString(n / 10) + [DigitChar(n % 10)]
  }

  /** The value of a run of decimal digits, most significant first. */
  function DigitsValue(s: string): nat
    requires AllDigits(s)
  {
    if |s| == 0 then 0
    else DigitsValue(s[..|s| - 1]) * 10 + (s[|s| - 1] as int - '0' as int)
  }

  /** The characters `parseInt` skips before the number: the ECMAScript
      WhiteSpace and LineTerminator characters. */
  predicate IsJsWhiteSpace(c: char) {
    c == '\t' || c == '\n' || c == '\U{B}' || c == '\U{C}' || c == '\r' || c == ' '
    || c == '\U{A0}' || c == '\U{1680}' || ('\U{2000}' <= c <= '\U{200A}')
    || c == '\U{2028}' || c == '\U{2029}' || c == '\U{202F}' || c == '\U{205F}'
    || c == '\U{3000}' || c == '\U{FEFF}'
  }

  /** `s` without its leading white space. */
  function TrimStart(s: string): (r: string)
    ensures IsSuffix(r, s)
    ensures forall i :: 0 <= i < |s| - |r| ==> IsJsWhiteSpace(s[i])
    ensures |r| > 0 ==> !IsJsWhiteSpace(r[0])
  {
    if |s| > 0 && IsJsWhiteSpace(s[0]) then TrimStart(s[1..]) else s
  }

  /** The longest prefix of `s` made of decimal digits. */
  function LeadingDigits(s: string): (r: string)
    ensures IsPrefix(r, s) && AllDigits(r)
    ensures |r| < |s| ==> !IsDigit(s[|r|])
  {
    if |s| > 0 && IsDigit(s[0]) then [s[0]] + LeadingDigits(s[1..]) else []
  }

  /** The number after the sign: the value of the leading digit run, or
      None when there is no digit. */
  function ParseUnsigned(u: string, negative: bool): (r: Option<int>)
    ensures r.Some? <==> |u| > 0 && IsDigit(u[0])
    ensures r.Some? && r.value < 0 ==> negative
  {
    var digits := LeadingDigits(u);
    if |digits| == 0 then None
    else
      var v: int := DigitsValue(digits);
      Some(if negative then -v else v)
  }

  /** The optional sign, then the unsigned number. */
  function ParseSigned(t: string): (r: Option<int>)
    ensures r.Some? ==> exists k :: 0 <= k < |t| && IsDigit(t[k])
    ensures r.Some? && r.value < 0 ==> IsPrefix("-", t)
  {
    if |t| > 0 && (t[0] == '-' || t[0] == '+') then
      var r := ParseUnsigned(t[1..], t[0] == '-');
      assert r.Some? ==> IsDigit(t[1]);
      r
    else
      ParseUnsigned(t, false)
  }

  /** `parseInt(s, 10)`: skip leading white space, read an optional sign and
      the longest run of digits after it; None stands for NaN (no digit). */
  function ParseInt(s: string): (r: Option<int>)
    ensures r.Some? ==> exists k :: 0 <= k < |s| && IsDigit(s[k])
    ensures r.Some? && r.value < 0 ==> IsPrefix("-", TrimStart(s))
  {
    var t := TrimStart(s);
    var r := ParseSigned(t);
    assert r.Some? ==> exists k :: 0 <= k < |s| && IsDigit(s[k]) by {
      if r.Some? {
        var k :| 0 <= k < |t| && IsDigit(t[k]);
        assert s[|s| - |t| + k] == t[k];
      }
    }
    r
  }

  lemma {:induction false} DigitsValueOfNatToString(n: nat)
    ensures DigitsValue(NatToString(n)) == n
  {
    if n >= 10 {
      var r := NatToString(n);
      DigitsValueOfNatToString(n / 10);
      assert r[..|r| - 1] == NatToString(n / 10);
    }
  }

  /** White space in front of text that does not start with white space is
      exactly what `TrimStart` removes. */
  lemma {:induction false} TrimStartAfterWhiteSpace(w: string, x: string)
    requires forall i :: 0 <= i < |w| ==> IsJsWhiteSpace(w[i])
    requires |x| == 0 || !IsJsWhiteSpace(x[0])
    ensures TrimStart(w + x) == x
    decreases |w|
  {
    if |w| == 0 {
      assert w + x == x;
    } else {
      assert (w + x)[1..] == w[1..] + x;
      TrimStartAfterWhiteSpace(w[1..], x);
    }
  }

  /** The digit run read from digits followed by a non-digit is those digits. */
  lemma {:induction false} LeadingDigitsBeforeTail(d: string, tail: string)
    requires AllDigits(d)
    requires |tail| == 0 || !IsDigit(tail[0])
    ensures LeadingDigits(d + tail) == d
    decreases |d|
  {
    if |d| == 0 {
      assert d + tail == tail;
    } else {
      assert (d + tail)[1..] == d[1..] + tail;
      LeadingDigitsBeforeTail(d[1..], tail);
    }
  }

  /** An explicit sign is read and the rest parsed unsigned. */
  lemma ParseSignedOf(sign: string, unsigned: string)
    requires sign == "" || sign == "+" || sign == "-"
    requires sign == "" && |unsigned| > 0 ==> unsigned[0] != '+' && unsigned[0] != '-'
    ensures ParseSigned(sign + unsigned) == ParseUnsigned(unsigned, sign == "-")
  {
    var t := sign + unsigned;
    if sign == "" {
      assert t == unsigned;
    } else {
      assert t[0] == sign[0] && t[1..] == unsigned;
    }
  }

  /** Concatenation regroups. */
  lemma ConcatAssoc<T>(a: seq<T>, b: seq<T>, c: seq<T>)
    ensures (a + b) + c == a + (b + c)
  {
  }

  /** Concatenation regrouped to the right. */
  lemma Regroup(a: string, b: string, c: string, d: string)
    ensures a + b + c + d == a + (b + (c + d))
  {
  }

  /** The white space in front of a signed digit run is what `TrimStart`
      removes. */
  lemma TrimBeforeDigits(w: string, sign: string, digits: string, tail: string)
    requires forall i :: 0 <= i < |w| ==> IsJsWhiteSpace(w[i])
    requires sign == "" || sign == "+" || sign == "-"
    requires |digits| > 0 && AllDigits(digits)
    ensures TrimStart(w + sign + digits + tail) == sign + (digits + tail)
  {
    var x := sign + (digits + tail);
    Regroup(w, sign, digits, tail);
    assert IsDigit(digits[0]);
    assert x[0] == if sign == "" then digits[0] else sign[0];
    TrimStartAfterWhiteSpace(w, x);
  }

  /** A sign and a digit run of value `v`, followed by a non-digit, read as
      `v` with that sign. */
  lemma ParseSignedDigits(sign: string, digits: string, tail: string, v: nat)
    requires sign == "" || sign == "+" || sign == "-"
    requires |digits| > 0 && AllDigits(digits) && DigitsValue(digits) == v
    requires |tail| == 0 || !IsDigit(tail[0])
    ensures ParseSigned(sign + (digits + tail)) == Some(if sign == "-" then -(v as int) else v as int)
  {
    assert IsDigit(digits[0]) && (digits + tail)[0] == digits[0];
    ParseSignedOf(sign, digits + tail);
    ParseUnsignedDigits(digits, tail, sign == "-", v);
  }

  /** A digit run of value `v` followed by a non-digit reads as `v`. */
  lemma ParseUnsignedDigits(digits: string, tail: string, negative: bool, v: nat)
    requires |digits| > 0 && AllDigits(digits) && DigitsValue(digits) == v
    requires |tail| == 0 || !IsDigit(tail[0])
    ensures ParseUnsigned(digits + tail, negative) == Some(if negative then -(v as int) else v as int)
  {
    LeadingDigitsBeforeTail(digits, tail);
  }

  /** `k` zero digits. */
  function Zeros(k: nat): (z: string)
    ensures |z| == k && AllDigits(z)
  {
    seq(k, _ => '0')
  }

  /** Leading zeros do not change the value of a digit run. */
  lemma {:induction false} DigitsValueAfterZeros(k: nat, d: string)
    requires AllDigits(d)
    ensures DigitsValue(Zeros(k) + d) == DigitsValue(d)
    decreases |d|, k
  {
    var s := Zeros(k) + d;
    if |d| == 0 {
      assert s == Zeros(k);
      if k > 0 {
        assert s[..|s| - 1] == Zeros(k - 1) + d;
        DigitsValueAfterZeros(k - 1, d);
      }
    } else {
      assert s[..|s| - 1] == Zeros(k) + d[..|d| - 1];
      DigitsValueAfterZeros(k, d[..|d| - 1]);
    }
  }

  /** What `parseInt` reads: after any white space and an optional sign, the
      number written there, with or without leading zeros, whatever text
      follows it (as in `" 12 reports"`, `"007"` or `"-5"`). */
  lemma ParseIntOfNumberText(w: string, sign: string, zeros: nat, n: nat, tail: string)
    requires forall i :: 0 <= i < |w| ==> IsJsWhiteSpace(w[i])
    requires sign == "" || sign == "+" || sign == "-"
    requires |tail| == 0 || !IsDigit(tail[0])
    ensures ParseInt(w + sign + Zeros(zeros) + NatToString(n) + tail)
            == Some(if sign == "-" then -(n as int) else n as int)
  {
    var digits := Zeros(zeros) + NatToString(n);
    assert w + sign + Zeros(zeros) + NatToString(n) == w + sign + digits;
    DigitsValueAfterZeros(zeros, NatToString(n));
    DigitsValueOfNatToString(n);
    TrimBeforeDigits(w, sign, digits, tail);
    ParseSignedDigits(sign, digits, tail, n);
  }

  /** `parseInt` gives NaN when the first character after the white space
      and the optional sign is not a digit, or there is none. */
  lemma ParseIntOfNoDigit(w: string, sign: string, rest: string)
    requires forall i :: 0 <= i < |w| ==> IsJsWhiteSpace(w[i])
    requires sign == "" || sign == "+" || sign == "-"
    requires |rest| == 0 || !IsDigit(rest[0])
    requires sign == "" && |rest| > 0 ==> !IsJsWhiteSpace(rest[0]) && rest[0] != '+' && rest[0] != '-'
    ensures ParseInt(w + sign + rest) == None
  {
    var x := sign + rest;
    assert w + sign + rest == w + x;
    assert TrimStart(w + x) == x by {
      if |x| > 0 {
        assert x[0] == if sign == "" then rest[0] else sign[0];
      }
      TrimStartAfterWhiteSpace(w, x);
    }
    ParseSignedOf(sign, rest);
  }

  /** `parseInt` reads back exactly the number JavaScript printed. */
  lemma ParseIntOfNatToString(n: nat)
    ensures ParseInt(NatToString(n)) == Some(n)
  {
    var d := NatToString(n);
    DigitsValueOfNatToString(n);
    TrimBeforeDigits("", "", d, "");
    ParseSignedDigits("", d, "", n);
    assert "" + "" + d + "" == d && "" + (d + "") == d;
  }
}
