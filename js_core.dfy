/**
 * The slice of JavaScript value semantics that the exam application relies on:
 * truthiness, `String(x)`, `trim`, `toLowerCase`, `includes`, `padStart(2, '0')`
 * and the one-argument `parseInt`. Numbers are integers here; the application
 * only ever stores marks, durations, indices and counts in them.
 */
module JsCore {

  datatype Option<+T> = None | Some(value: T)

  datatype Result<+T, +E> = Ok(value: T) | Err(error: E)

  /** A JSON value as it crosses the wire or sits in a document field. */
  datatype JsValue = JsUndefined | JsNull | JsBool(b: bool) | JsNum(n: int) | JsStr(s: string)

  /** `!!v` */
  predicate Truthy(v: JsValue)
  {
    match v
    case JsUndefined => false
    case JsNull => false
    case JsBool(b) => b
    case JsNum(n) => n != 0
    case JsStr(s) => s != ""
  }

  /** A string-valued field that may be absent; `!!field` */
  predicate Present(o: Option<string>)
  {
    o.Some? && o.value != ""
  }

  // ---------------------------------------------------------------------------
  // Whitespace and trim

  /** ECMAScript WhiteSpace and LineTerminator code points (what `trim` and `parseInt` skip). */
  predicate IsWhite(c: char)
  {
    c == '\t' || c == '\n' || c == '\U{B}' || c == '\U{C}' || c == '\r' || c == ' '
    || c == '\U{A0}' || c == '\U{1680}' || ('\U{2000}' <= c <= '\U{200A}')
    || c == '\U{2028}' || c == '\U{2029}' || c == '\U{202F}' || c == '\U{205F}'
    || c == '\U{3000}' || c == '\U{FEFF}'
  }

  /** Number of leading white code points. */
  function LeadingWhite(s: string): (k: nat)
    ensures k <= |s|
    ensures forall i | 0 <= i < k :: IsWhite(s[i])
    ensures k < |s| ==> !IsWhite(s[k])
  {
    if |s| == 0 || !IsWhite(s[0]) then 0 else 1 + LeadingWhite(s[1..])
  }

  /** Start of the run of trailing white code points. */
  function TrailingStart(s: string): (k: nat)
    ensures k <= |s|
    ensures forall i | k <= i < |s| :: IsWhite(s[i])
    ensures k > 0 ==> !IsWhite(s[k - 1])
  {
    if |s| == 0 || !IsWhite(s[|s| - 1]) then |s| else TrailingStart(s[..|s| - 1])
  }

  /** `s.trim()` */
  function Trim(s: string): (r: string)
    ensures |r| <= |s|
    ensures r == "" <==> forall i | 0 <= i < |s| :: IsWhite(s[i])
    ensures r != "" ==> !IsWhite(r[0]) && !IsWhite(r[|r| - 1])
    ensures r == s[LeadingWhite(s)..][..TrailingStart(s[LeadingWhite(s)..])]
  {
    var t := s[LeadingWhite(s)..];
    var r := t[..TrailingStart(t)];
    r
  }

  // ---------------------------------------------------------------------------
  // Case and substring

  function LowerChar(c: char): char
  {
    if 'A' <= c <= 'Z' then (c as int + 32) as char else c
  }

  /** `s.toLowerCase()` on the ASCII letters. */
  function ToLower(s: string): (r: string)
    ensures |r| == |s|
    ensures forall i | 0 <= i < |s| :: r[i] == LowerChar(s[i])
  {
    seq(|s|, i requires 0 <= i < |s| => LowerChar(s[i]))
  }

  predicate OccursAt(s: string, t: string, i: int)
  {
    0 <= i && i + |t| <= |s| && s[i..i + |t|] == t
  }

  /** `s.includes(t)` */
  predicate Includes(s: string, t: string)
  {
    exists i | 0 <= i <= |s| - |t| :: OccursAt(s, t, i)
  }

  // ---------------------------------------------------------------------------
  // Number to string

  predicate IsDecimalDigit(c: char)
  {
    '0' <= c <= '9'
  }

  function DigitChar(d: nat): (c: char)
    requires d < 10
    ensures IsDecimalDigit(c) && DigitValue(c) == d
  {
    ('0' as int + d) as char
  }

  /** Decimal rendering of a non-negative integer, no leading zeros. */
  function NatToString(n: nat): (r: string)
    ensures |r| >= 1
    ensures forall i | 0 <= i < |r| :: IsDecimalDigit(r[i])
    ensures r[0] == '0' ==> n == 0 && |r| == 1
    ensures n < 10 <==> |r| == 1
  {
    if n < 10 then [DigitChar(n)] else NatToString(n / 10) + [DigitChar(n % 10)]
  }

  /** `String(i)` for an integer-valued number. */
  function IntToString(i: int): string
  {
    if i < 0 then "-" + NatToString(-i) else NatToString(i)
  }

  /** `String(v)` */
  function ToJsString(v: JsValue): string
  {
    match v
    case JsUndefined => "undefined"
    case JsNull => "null"
    case JsBool(b) => if b then "true" else "false"
    case JsNum(n) => IntToString(n)
    case JsStr(s) => s
  }

  /** `String(n).padStart(2, '0')` */
  function Pad2(n: int): string
  {
    var s := IntToString(n);
    if |s| < 2 then "0" + s else s
  }

  // ---------------------------------------------------------------------------
  // parseInt

  /** Value of `c` as a digit in radix 36; 36 when `c` is no digit at all. */
  function DigitValue(c: char): (d: nat)
    ensures d <= 36
    ensures d < 10 <==> IsDecimalDigit(c)
  {
    if '0' <= c <= '9' then c as nat - '0' as nat
    else if 'a' <= c <= 'z' then c as nat - 'a' as nat + 10
    else if 'A' <= c <= 'Z' then c as nat - 'A' as nat + 10
    else 36
  }

  /** Length of the longest prefix of `s` made of radix-`radix` digits. */
  function DigitRun(s: string, radix: nat): (k: nat)
    ensures k <= |s|
    ensures forall i | 0 <= i < k :: DigitValue(s[i]) < radix
    ensures k < |s| ==> DigitValue(s[k]) >= radix
  {
    if |s| == 0 || DigitValue(s[0]) >= radix then 0 else 1 + DigitRun(s[1..], radix)
  }

  /** Positional value of a digit string, most significant digit first. */
  function DigitsValue(d: string, radix: nat): nat
  {
    if |d| == 0 then 0 else DigitsValue(d[..|d| - 1], radix) * radix + DigitValue(d[|d| - 1])
  }

  /** The digits of `v` read in `radix` up to the first non-digit; None when there is none. */
  function DigitPrefix(v: string, radix: nat): (r: Option<nat>)
    ensures radix <= 10 && (|v| == 0 || !IsDecimalDigit(v[0])) ==> r == None
  {
    var k := DigitRun(v, radix);
    if k == 0 then None else Some(DigitsValue(v[..k], radix))
  }

  predicate HasHexPrefix(u: string)
  {
    |u| >= 2 && u[0] == '0' && (u[1] == 'x' || u[1] == 'X')
  }

  /** The unsigned part of `parseInt`: radix 16 after `0x`/`0X`, else radix 10. */
  function ParseUnsigned(u: string): (r: Option<nat>)
    ensures (|u| == 0 || !IsDecimalDigit(u[0])) ==> r == None
  {
    if HasHexPrefix(u) then DigitPrefix(u[2..], 16) else DigitPrefix(u, 10)
  }

  /** One optional sign, then the unsigned part. */
  function ParseSigned(t: string): (r: Option<int>)
    ensures (forall i | 0 <= i < |t| :: !IsDecimalDigit(t[i])) ==> r == None
  {
    if |t| > 0 && t[0] == '-' then
      match ParseUnsigned(t[1..])
      case None => None
      case Some(m) => Some(-(m as int))
    else if |t| > 0 && t[0] == '+' then
      match ParseUnsigned(t[1..])
      case None => None
      case Some(m) => Some(m)
    else
      match ParseUnsigned(t)
      case None => None
      case Some(m) => Some(m)
  }

  /**
   * `parseInt(s)` with no radix: skip leading white space, take one optional
   * sign, switch to radix 16 after a `0x`/`0X` prefix, then read the longest
   * digit prefix. No digit gives NaN (None). `-0` is 0, which `===` cannot
   * tell from `+0`.
   */
  function ParseInt(s: string): (r: Option<int>)
    ensures (forall i | 0 <= i < |s| :: !IsDecimalDigit(s[i])) ==> r == None
  {
    ParseSigned(s[LeadingWhite(s)..])
  }

  /** `parseInt(v)`, which first converts its argument with `String`. */
  function ParseIntValue(v: JsValue): Option<int>
  {
    ParseInt(ToJsString(v))
  }

  predicate IsAsciiAlnum(c: char)
  {
    DigitValue(c) < 36
  }

  lemma {:induction false} DigitsValueOfNatToString(n: nat)
    ensures DigitsValue(NatToString(n), 10) == n
  {
    if n >= 10 {
      var s := NatToString(n);
      assert s[..|s| - 1] == NatToString(n / 10);
      DigitsValueOfNatToString(n / 10);
    }
  }

  lemma {:induction false} DigitRunOfDigits(d: string, rest: string)
    requires forall i | 0 <= i < |d| :: IsDecimalDigit(d[i])
    requires rest == [] || !IsAsciiAlnum(rest[0])
    ensures DigitRun(d + rest, 10) == |d|
  {
    if |d| > 0 {
      assert (d + rest)[1..] == d[1..] + rest;
      DigitRunOfDigits(d[1..], rest);
    }
  }

  lemma ParseUnsignedOfDigits(d: string, rest: string)
    requires |d| >= 1 && (d[0] == '0' ==> |d| == 1)
    requires forall i | 0 <= i < |d| :: IsDecimalDigit(d[i])
    requires rest == [] || !IsAsciiAlnum(rest[0])
    ensures ParseUnsigned(d + rest) == Some(DigitsValue(d, 10))
  {
    var s := d + rest;
    assert s[0] == d[0];
    if |d| >= 2 { assert s[1] == d[1]; }
    assert !HasHexPrefix(s);
    DigitRunOfDigits(d, rest);
    assert s[..|d|] == d;
  }

  /**
   * `parseInt` reads back what `String` wrote for a non-negative integer, also
   * when the digits are followed by anything that is not a letter or digit
   * (`"7:05"`, `"1.5"`).
   */
  lemma ParseIntOfNatToString(n: nat, rest: string)
    requires rest == [] || !IsAsciiAlnum(rest[0])
    ensures ParseInt(NatToString(n) + rest) == Some(n)
  {
    var d := NatToString(n);
    var s := d + rest;
    assert s[0] == d[0];
    assert LeadingWhite(s) == 0;
    assert s[0..] == s;
    ParseUnsignedOfDigits(d, rest);
    DigitsValueOfNatToString(n);
  }

  /**
   * Round trip: `parseInt(String(i))` gives back `i` for every integer of the
   * model. Numbers here are exact and unbounded, so this says nothing about
   * doubles beyond 2^53 or the exponent form `String` uses from 1e21 up.
   */
  lemma ParseIntOfIntToString(i: int)
    ensures ParseInt(IntToString(i)) == Some(i)
  {
    if i >= 0 {
      assert IntToString(i) == NatToString(i);
      ParseIntOfNonNegative(i);
    } else {
      assert IntToString(i) == "-" + NatToString(-i);
      ParseIntOfNegative(-i);
    }
  }

  /** The non-negative half of the round trip: `parseInt(String(n)) === n`. */
  lemma ParseIntOfNonNegative(n: nat)
    ensures ParseInt(NatToString(n)) == Some(n)
  {
    ParseIntOfNatToString(n, []);
    assert NatToString(n) + [] == NatToString(n);
  }

  /** The negative half of the round trip: `parseInt("-" + String(m)) === -m`. */
  lemma ParseIntOfNegative(m: nat)
    ensures ParseInt("-" + NatToString(m)) == Some(-(m as int))
  {
    ParseUnsignedOfNatToString(m);
    ParseIntOfMinus(NatToString(m));
  }

  lemma ParseUnsignedOfNatToString(m: nat)
    ensures ParseUnsigned(NatToString(m)) == Some(m)
  {
    var d := NatToString(m);
    ParseUnsignedOfDigits(d, []);
    assert d + [] == d;
    DigitsValueOfNatToString(m);
  }

  /** A leading minus sign negates what follows it. */
  lemma ParseIntOfMinus(d: string)
    ensures ParseInt("-" + d) == match ParseUnsigned(d) case None => None case Some(m) => Some(-(m as int))
  {
    var s := "-" + d;
    assert LeadingWhite(s) == 0 by {
      assert !IsWhite(s[0]);
    }
    assert s[0..] == s;
    assert s[1..] == d;
  }

  /** `String(i)`: a minus sign exactly for a negative value, then decimal digits; one character exactly for 0 to 9. */
  lemma IntToStringShape(i: int)
    ensures var s := IntToString(i);
      && |s| >= 1
      && (s[0] == '-' <==> i < 0)
      && (forall k | (if i < 0 then 1 else 0) <= k < |s| :: IsDecimalDigit(s[k]))
      && (|s| == 1 <==> 0 <= i < 10)
  {
    if i < 0 {
      var d := NatToString(-i);
      assert IntToString(i) == "-" + d;
      assert forall k | 1 <= k < |d| + 1 :: ("-" + d)[k] == d[k - 1];
    }
  }

  /** `padStart(2, '0')`: a single digit gets a leading zero, anything else is `String(n)` unchanged. */
  lemma Pad2Shape(n: int)
    ensures |Pad2(n)| >= 2
    ensures 0 <= n < 10 ==> Pad2(n) == ['0', DigitChar(n)]
    ensures n < 0 || n >= 10 ==> Pad2(n) == IntToString(n)
  {
    IntToStringShape(n);
  }

  /** A padded non-negative number has at least two characters, and exactly two below 100. */
  lemma Pad2Length(n: nat)
    ensures |Pad2(n)| >= 2
    ensures n < 100 ==> |Pad2(n)| == 2
  {
    if 10 <= n < 100 {
      assert NatToString(n) == NatToString(n / 10) + [DigitChar(n % 10)];
    }
  }

  /** `parseInt(String(n).padStart(2, '0'))` gives back `n` for non-negative `n`. */
  lemma ParseIntOfPad2(n: nat, rest: string)
    requires rest == [] || !IsAsciiAlnum(rest[0])
    ensures ParseInt(Pad2(n) + rest) == Some(n)
  {
    if n < 10 {
      var p := Pad2(n);
      var s := p + rest;
      assert p == [DigitChar(0), DigitChar(n)];
      assert LeadingWhite(s) == 0;
      assert s[0..] == s;
      assert s[0] == '0' && s[1] == DigitChar(n);
      assert !HasHexPrefix(s);
      DigitRunOfDigits(p, rest);
      assert s[..2] == p;
      assert p[..1] == [DigitChar(0)];
      assert [DigitChar(0)][..0] == [];
      assert DigitsValue(p, 10) == n;
      assert ParseUnsigned(s) == Some(n);
    } else {
      ParseIntOfNatToString(n, rest);
    }
  }

  /** `null`, `undefined` and booleans all parse to NaN. */
  lemma ParseIntOfNonNumbers(v: JsValue)
    requires v.JsNull? || v.JsUndefined? || v.JsBool?
    ensures ParseIntValue(v) == None
  {
    var s := ToJsString(v);
    assert forall i | 0 <= i < |s| :: !IsDecimalDigit(s[i]);
  }

  /** Every string includes the empty string. */
  lemma IncludesEmpty(s: string)
    ensures Includes(s, "")
  {
    assert OccursAt(s, "", 0);
  }

  /** Lower-casing twice is lower-casing once. */
  lemma ToLowerIdempotent(s: string)
    ensures ToLower(ToLower(s)) == ToLower(s)
  {
  }

  /** An occurrence survives lower-casing both strings. */
  lemma {:induction false} IncludesToLower(s: string, t: string)
    requires Includes(s, t)
    ensures Includes(ToLower(s), ToLower(t))
  {
    var i :| 0 <= i <= |s| - |t| && OccursAt(s, t, i);
    assert ToLower(s)[i..i + |t|] == ToLower(t) by {
      forall k | 0 <= k < |t|
        ensures ToLower(s)[i..i + |t|][k] == ToLower(t)[k]
      {
        assert s[i..i + |t|][k] == t[k];
      }
    }
    assert OccursAt(ToLower(s), ToLower(t), i);
  }
}
