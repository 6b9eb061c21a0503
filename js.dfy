/** JavaScript values as the handlers receive them (from a parsed JSON body
    or from a database row), and the few built-in conversions the core
    relies on: truthiness, `||`, `trim`, `parseInt`, `parseFloat` and the
    formatting of an integer in a template literal. */
module Js {

  datatype Option<+T> = None | Some(value: T)

  /** A JavaScript value. Numbers are unbounded reals; NaN is kept apart
      because it is the one number that is falsy besides 0 and that equals
      nothing, itself included. */
  datatype Value = Undefined | Null | NaN | Bool(b: bool) | Num(n: real) | Str(s: string)

  /** ToBoolean: undefined, null, NaN, false, 0 and "" are falsy. */
  predicate Truthy(v: Value)
  {
    match v
    case Undefined => false
    case Null => false
    case NaN => false
    case Bool(b) => b
    case Num(n) => n != 0.0
    case Str(s) => s != ""
  }

  /** `v || d` */
  function Or(v: Value, d: Value): Value
  {
    if Truthy(v) then v else d
  }

  /** `a === b`: structural equality, except that NaN equals nothing. */
  predicate StrictEq(a: Value, b: Value)
  {
    a != NaN && a == b
  }

  /** The mysql2 driver formats an undefined query parameter as SQL NULL. */
  function SqlParam(v: Value): (r: Value)
    ensures r != Undefined
  {
    if v == Undefined then Null else v
  }

  /** What a number field becomes after `JSON.stringify` and `JSON.parse`:
      NaN is written as `null`. */
  function ToWire(v: Value): (r: Value)
    ensures r != NaN
  {
    if v == NaN then Null else v
  }

  /** The characters `String.prototype.trim` removes: white space and line
      terminators of ECMAScript (the Unicode space separators included). */
  predicate IsSpace(c: char)
  {
    var k := c as int;
    k == 0x09 || k == 0x0A || k == 0x0B || k == 0x0C || k == 0x0D || k == 0x20
    || k == 0xA0 || k == 0x1680 || (0x2000 <= k <= 0x200A) || k == 0x2028
    || k == 0x2029 || k == 0x202F || k == 0x205F || k == 0x3000 || k == 0xFEFF
  }

  /** `s.trimStart()`: the suffix of `s` left once the leading white space
      is gone. */
  function TrimStart(s: string): (r: string)
    ensures |r| <= |s| && r == s[|s| - |r|..]
    ensures r == [] || !IsSpace(r[0])
    ensures forall k :: 0 <= k < |s| - |r| ==> IsSpace(s[k])
  {
    if s != [] && IsSpace(s[0]) then TrimStart(s[1..]) else s
  }

  /** `s.trimEnd()`: the prefix of `s` left once the trailing white space
      is gone. */
  function TrimEnd(s: string): (r: string)
    ensures |r| <= |s| && r == s[..|r|]
    ensures r == [] || !IsSpace(r[|r| - 1])
    ensures forall k :: |r| <= k < |s| ==> IsSpace(s[k])
  {
    if s != [] && IsSpace(s[|s| - 1]) then TrimEnd(s[..|s| - 1]) else s
  }

  /** `s.trim()` */
  function Trim(s: string): string
  {
    TrimEnd(TrimStart(s))
  }

  /** A string trims to "" exactly when every character of it is white
      space, and otherwise the trimmed string starts and ends with a
      character that is not. */
  lemma TrimEmpty(s: string)
    ensures Trim(s) == [] <==> forall k :: 0 <= k < |s| ==> IsSpace(s[k])
    ensures Trim(s) != [] ==> !IsSpace(Trim(s)[0]) && !IsSpace(Trim(s)[|Trim(s)| - 1])
  {
    var t := TrimStart(s);
    assert t != [] ==> !IsSpace(t[0]);
  }

  predicate IsDigit(c: char)
  {
    '0' <= c <= '9'
  }

  predicate AllDigits(s: string)
  {
    forall i :: 0 <= i < |s| ==> IsDigit(s[i])
  }

  /** The longest prefix of `s` made of decimal digits. */
  function DigitRun(s: string): (r: string)
    ensures r <= s && AllDigits(r)
    ensures |r| < |s| ==> !IsDigit(s[|r|])
  {
    if s != [] && IsDigit(s[0]) then [s[0]] + DigitRun(s[1..]) else []
  }

  function DigitValue(c: char): nat
    requires IsDigit(c)
  {
    (c as int) - ('0' as int)
  }

  function DigitChar(d: nat): (c: char)
    requires d < 10
    ensures IsDigit(c) && DigitValue(c) == d
  {
    ('0' as int + d) as char
  }

  /** The number a string of decimal digits denotes. */
  function DigitsValue(s: string): nat
    requires AllDigits(s)
  {
    if s == [] then 0 else DigitsValue(s[..|s| - 1]) * 10 + DigitValue(s[|s| - 1])
  }

  /** A natural number in decimal, as a template literal writes it. */
  function NatToString(n: nat): (r: string)
    ensures r != [] && AllDigits(r)
    ensures |r| > 1 ==> r[0] != '0'
  {
    if n < 10 then [DigitChar(n)] else NatToString(n / 10) + [DigitChar(n % 10)]
  }

  /** An integer in decimal, as `${i}` writes it. */
  function IntToString(i: int): string
  {
    if i < 0 then "-" + NatToString(-i) else NatToString(i)
  }

  /** Reading back the digits of a natural number gives that number. */
  lemma {:induction false} NatToStringValue(n: nat)
    ensures DigitsValue(NatToString(n)) == n
  {
    if n >= 10 {
      var s := NatToString(n);
      assert s[..|s| - 1] == NatToString(n / 10);
      NatToStringValue(n / 10);
    }
  }

  /** The optional sign that `parseInt` and `parseFloat` accept after the
      leading white space: whether it is '-', and what follows it. */
  function SignAndRest(t: string): (bool, string)
  {
    if t != [] && (t[0] == '-' || t[0] == '+') then (t[0] == '-', t[1..]) else (false, t)
  }

  /** `parseInt(s)` with the default radix: leading white space, an
      optional sign, then the longest run of decimal digits; NaN when
      there is no digit. */
  function ParseInt(s: string): (r: Value)
    ensures r.Num? || r.NaN?
  {
    var (neg, body) := SignAndRest(TrimStart(s));
    var ds := DigitRun(body);
    if ds == [] then NaN
    else Num(if neg then -(DigitsValue(ds) as real) else DigitsValue(ds) as real)
  }

  /** A string that starts with no white space is its own `trimStart`. */
  lemma TrimStartNoSpace(s: string)
    requires s != [] && !IsSpace(s[0])
    ensures TrimStart(s) == s
  {
  }

  /** What follows the sign of an integer written in decimal: its
      magnitude's digits, with the sign telling whether it is negative. */
  lemma IntStringSign(i: int)
    ensures SignAndRest(TrimStart(IntToString(i))) == (i < 0, NatToString(if i < 0 then -i else i))
  {
    var digits := NatToString(if i < 0 then -i else i);
    var s := IntToString(i);
    if i < 0 {
      assert s == "-" + digits;
      assert s[0] == '-' && s[1..] == digits;
    } else {
      assert s == digits && IsDigit(s[0]);
    }
    TrimStartNoSpace(s);
  }

  /** `parseInt` reads back every integer a template literal writes. */
  lemma ParseIntRoundTrip(i: int)
    ensures ParseInt(IntToString(i)) == Num(i as real)
  {
    var m: nat := if i < 0 then -i else i;
    ReadDigits(m);
    IntStringSign(i);
  }

  /** `parseInt` stops at the first character that is not a digit: a
      natural number followed by any such text reads as that number. */
  lemma ParseIntLeadingDigits(n: nat, rest: string)
    requires rest == [] || !IsDigit(rest[0])
    ensures ParseInt(NatToString(n) + rest) == Num(n as real)
  {
    var digits := NatToString(n);
    var s := digits + rest;
    assert s[0] == digits[0] && IsDigit(s[0]);
    TrimStartNoSpace(s);
    DigitRunPrefix(digits, rest);
    NatToStringValue(n);
  }

  lemma {:induction false} DigitRunPrefix(ds: string, rest: string)
    requires AllDigits(ds) && (rest == [] || !IsDigit(rest[0]))
    ensures DigitRun(ds + rest) == ds
    decreases |ds|
  {
    if ds == [] {
      assert ds + rest == rest;
    } else {
      assert (ds + rest)[0] == ds[0] && (ds + rest)[1..] == ds[1..] + rest;
      DigitRunPrefix(ds[1..], rest);
    }
  }

  /** The digits of a natural number are all read, and read back as it. */
  lemma ReadDigits(m: nat)
    ensures DigitRun(NatToString(m)) == NatToString(m)
    ensures DigitsValue(NatToString(m)) == m
  {
    NatToStringValue(m);
    DigitRunAll(NatToString(m));
  }

  /** A string of digits is its own longest digit prefix. */
  lemma {:induction false} DigitRunAll(s: string)
    requires AllDigits(s)
    ensures DigitRun(s) == s
  {
    if s != [] {
      DigitRunAll(s[1..]);
    }
  }

  /** The unsigned decimal number at the start of `body`: digits,
      optionally a '.' and more digits; None when no digit is found on
      either side of the point. */
  function UnsignedDecimal(body: string): Option<real>
  {
    var whole := DigitRun(body);
    var rest := body[|whole|..];
    var frac := if rest != [] && rest[0] == '.' then DigitRun(rest[1..]) else [];
    if whole == [] && frac == [] then None
    else Some(DigitsValue(whole) as real + FractionValue(frac))
  }

  /** The value of the digits after a decimal point: "25" is 0.25. */
  function FractionValue(s: string): (r: real)
    requires AllDigits(s)
    ensures 0.0 <= r <= 1.0
    decreases |s|
  {
    if s == [] then 0.0 else (DigitValue(s[0]) as real + FractionValue(s[1..])) / 10.0
  }

  /** A run of digits with nothing after it is read whole. */
  lemma UnsignedDecimalOfDigits(d: string)
    requires d != [] && AllDigits(d)
    ensures UnsignedDecimal(d) == Some(DigitsValue(d) as real)
  {
    DigitRunAll(d);
    assert d[|d|..] == [];
  }

  /** `parseFloat(s)` for the decimal forms: leading white space, an
      optional sign and an unsigned decimal; NaN when there is none. */
  function ParseFloat(s: string): (r: Value)
    ensures r.Num? || r.NaN?
  {
    var (neg, body) := SignAndRest(TrimStart(s));
    match UnsignedDecimal(body)
    case None => NaN
    case Some(x) => Num(if neg then -x else x)
  }

  /** `parseFloat` of a string with no fractional part agrees with
      `parseInt`. */
  lemma ParseFloatOfInt(i: int)
    ensures ParseFloat(IntToString(i)) == Num(i as real)
  {
    var m: nat := if i < 0 then -i else i;
    ReadDigits(m);
    UnsignedDecimalOfDigits(NatToString(m));
    IntStringSign(i);
  }

  /** `parseFloat(v)`: numbers are returned as they are, strings are
      parsed, and every other value (null, undefined, a boolean) gives
      NaN. */
  function ParseFloatValue(v: Value): (r: Value)
    ensures r.Num? || r.NaN?
    ensures v.Num? ==> r == v
  {
    match v
    case Num(_) => v
    case Str(s) => ParseFloat(s)
    case _ => NaN
  }

  /** `s.includes(t)`: `t` occurs in `s` at some position. */
  predicate HasSubstring(s: string, t: string)
  {
    t <= s || (s != [] && HasSubstring(s[1..], t))
  }

  predicate OccursAt(s: string, t: string, i: int)
  {
    0 <= i <= |s| - |t| && s[i..i + |t|] == t
  }

  /** An occurrence past the first position of `s` is one in its tail. */
  lemma OccursInTail(s: string, t: string, i: int)
    requires s != [] && 1 <= i
    ensures OccursAt(s, t, i) <==> OccursAt(s[1..], t, i - 1)
  {
    if 0 <= i <= |s| - |t| {
      assert s[1..][i - 1..i - 1 + |t|] == s[i..i + |t|];
    }
  }

  /** `HasSubstring` finds exactly the occurrences of `t` in `s`. */
  lemma {:induction false} HasSubstringAt(s: string, t: string)
    ensures HasSubstring(s, t) <==> exists i :: OccursAt(s, t, i)
  {
    if t <= s {
      assert OccursAt(s, t, 0);
    } else if s != [] {
      HasSubstringAt(s[1..], t);
      if exists i :: OccursAt(s, t, i) {
        var i :| OccursAt(s, t, i);
        assert i != 0;
        OccursInTail(s, t, i);
      }
      if HasSubstring(s[1..], t) {
        var i :| OccursAt(s[1..], t, i);
        OccursInTail(s, t, i + 1);
      }
    } else {
      assert forall i :: !OccursAt(s, t, i);
    }
  }
}
