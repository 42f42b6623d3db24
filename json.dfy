/**
 The values a request body can carry once Express's JSON parser has decoded it,
 JavaScript's conversion of such a value to a string, and JavaScript's global
 `parseInt` with no radix argument, which the inventory API applies to item ids.
 */
module Json {

  datatype Option<T> = None | Some(value: T)

  /** A decoded JSON value. JSON numbers with an integral value are `Int`; every
      other number is `Frac`, carried with the text JavaScript prints for it. */
  datatype JsonValue =
    | Null
    | Bool(b: bool)
    | Int(i: int)
    | Frac(text: string)
    | Str(s: string)
    | Arr(elems: seq<JsonValue>)
    | Obj(fields: map<string, JsonValue>)

  // ---------------------------------------------------------------------------
  // Digits and decimal numerals

  /** The value of `c` as a digit in radices up to 36, or 36 when `c` is no digit at all. */
  function DigitValue(c: char): (d: nat)
    ensures d <= 36
    ensures d < 10 <==> '0' <= c <= '9'
  {
    if '0' <= c <= '9' then c as int - '0' as int
    else if 'a' <= c <= 'z' then c as int - 'a' as int + 10
    else if 'A' <= c <= 'Z' then c as int - 'A' as int + 10
    else 36
  }

  predicate AllDigits(s: string, radix: nat) {
    forall i :: 0 <= i < |s| ==> DigitValue(s[i]) < radix
  }

  function DigitChar(d: nat): (c: char)
    requires d < 10
    ensures DigitValue(c) == d
  {
    (('0' as int) + d) as char
  }

  /** The digits `ToString` prints for a non-negative integer. */
  function DecimalString(n: nat): (r: string)
    ensures |r| > 0 && AllDigits(r, 10)
    ensures r[0] == '0' ==> n == 0 && r == "0"
    decreases n
  {
    if n < 10 then [DigitChar(n)] else DecimalString(n / 10) + [DigitChar(n % 10)]
  }

  /** The value of a numeral written most significant digit first. */
  function DigitsValue(d: string, radix: nat): nat
    requires AllDigits(d, radix)
  {
    if d == [] then 0 else DigitsValue(d[..|d| - 1], radix) * radix + DigitValue(d[|d| - 1])
  }

  lemma {:induction false} DecimalStringValue(n: nat)
    ensures DigitsValue(DecimalString(n), 10) == n
    decreases n
  {
    if n >= 10 {
      var r := DecimalString(n);
      assert r[..|r| - 1] == DecimalString(n / 10);
      DecimalStringValue(n / 10);
    }
  }

  // ---------------------------------------------------------------------------
  // JavaScript's ToString

  function Join(parts: seq<string>, sep: string): string {
    if |parts| == 0 then ""
    else if |parts| == 1 then parts[0]
    else parts[0] + sep + Join(parts[1..], sep)
  }

  /** `String(v)`: arrays join their elements with commas (null elements print
      as nothing), every plain object prints as "[object Object]". Integers of
      magnitude 10^21 and more, which JavaScript prints in exponent form, are
      not distinguished. */
  function ToJsString(v: JsonValue): string
    decreases v
  {
    match v
    case Null => "null"
    case Bool(b) => if b then "true" else "false"
    case Int(i) => if i < 0 then "-" + DecimalString(-i) else DecimalString(i)
    case Frac(text) => text
    case Str(s) => s
    case Arr(elems) =>
      Join(seq(|elems|, j requires 0 <= j < |elems| => if elems[j].Null? then "" else ToJsString(elems[j])), ",")
    case Obj(_) => "[object Object]"
  }

  // ---------------------------------------------------------------------------
  // parseInt

  /** JavaScript's WhiteSpace and LineTerminator characters, which parseInt skips. */
  predicate IsJsSpace(c: char) {
    c == '\t' || c == '\n' || c == '\U{B}' || c == '\U{C}' || c == '\r' || c == ' '
    || c == '\U{A0}' || c == '\U{1680}' || ('\U{2000}' <= c <= '\U{200A}')
    || c == '\U{2028}' || c == '\U{2029}' || c == '\U{202F}' || c == '\U{205F}'
    || c == '\U{3000}' || c == '\U{FEFF}'
  }

  /** `s` without its leading white space. */
  function TrimStart(s: string): (r: string)
    ensures |r| <= |s| && (r == [] || !IsJsSpace(r[0]))
    ensures s != [] && !IsJsSpace(s[0]) ==> r == s
  {
    if s != [] && IsJsSpace(s[0]) then TrimStart(s[1..]) else s
  }

  /** The longest prefix of `s` made of digits of the given radix. */
  function DigitPrefix(s: string, radix: nat): (r: string)
    ensures |r| <= |s| && AllDigits(r, radix)
    ensures |r| < |s| ==> DigitValue(s[|r|]) >= radix
  {
    if s == [] || DigitValue(s[0]) >= radix then [] else [s[0]] + DigitPrefix(s[1..], radix)
  }

  /** The part of `parseInt` after white space and sign: an optional "0x" or
      "0X" switches to radix 16. */
  function ParseMagnitude(u: string): (m: Option<int>)
    ensures m.Some? ==> m.value >= 0
  {
    if |u| >= 2 && u[0] == '0' && (u[1] == 'x' || u[1] == 'X') then ReadDigits(u[2..], 16)
    else ReadDigits(u, 10)
  }

  /** The longest run of digits at the start of `w`; NaN (here `None`) when
      that run is empty. */
  function ReadDigits(w: string, radix: nat): (m: Option<int>)
    ensures m.Some? ==> m.value >= 0
  {
    var digits := DigitPrefix(w, radix);
    if digits == [] then None else Some(DigitsValue(digits, radix))
  }

  /** `parseInt(s)` with no radix: skip white space, take an optional sign, then
      read the magnitude. */
  function ParseInt(s: string): Option<int> {
    var t := TrimStart(s);
    if |t| > 0 && t[0] == '-' then Negate(ParseMagnitude(t[1..]))
    else if |t| > 0 && t[0] == '+' then ParseMagnitude(t[1..])
    else ParseMagnitude(t)
  }

  function Negate(m: Option<int>): Option<int> {
    match m
    case None => None
    case Some(v) => Some(-v)
  }

  lemma {:induction false} DigitPrefixOfNumeral(d: string, tail: string, radix: nat)
    requires AllDigits(d, radix)
    requires tail == [] || DigitValue(tail[0]) >= radix
    ensures DigitPrefix(d + tail, radix) == d
    decreases |d|
  {
    if d != [] {
      assert (d + tail)[1..] == d[1..] + tail;
      DigitPrefixOfNumeral(d[1..], tail, radix);
    }
  }

  /** Text that starts with neither white space nor a sign is read as a magnitude. */
  lemma ParseIntUnsigned(u: string)
    requires u != [] && !IsJsSpace(u[0]) && u[0] != '-' && u[0] != '+'
    ensures ParseInt(u) == ParseMagnitude(u)
  {
    assert TrimStart(u) == u;
  }

  /** A leading minus sign negates the magnitude that follows it. */
  lemma ParseIntNegated(u: string)
    ensures ParseInt("-" + u) == Negate(ParseMagnitude(u))
  {
    var t := "-" + u;
    assert TrimStart(t) == t;
    assert t[1..] == u;
  }

  /** A decimal numeral followed by text that does not continue it; a lone "0"
      must not be followed by "x" or "X", which would start a hex prefix. */
  predicate NumeralThenStop(d: string, tail: string) {
    && d != [] && AllDigits(d, 10)
    && (tail == [] || DigitValue(tail[0]) >= 10)
    && (d == "0" && tail != [] ==> tail[0] != 'x' && tail[0] != 'X')
  }

  lemma MagnitudeOfNumeral(d: string, tail: string)
    requires NumeralThenStop(d, tail)
    ensures ParseMagnitude(d + tail) == Some(DigitsValue(d, 10))
  {
    var u := d + tail;
    assert u[0] == d[0];
    if |u| >= 2 && u[0] == '0' {
      if |d| >= 2 {
        assert u[1] == d[1] && DigitValue(d[1]) < 10;
      } else {
        assert d == "0" && u[1] == tail[0];
      }
    }
    DigitPrefixOfNumeral(d, tail, 10);
  }

  /** parseInt reads such a numeral back and stops where the numeral ends. */
  lemma ParseIntOfNumeral(d: string, tail: string)
    requires NumeralThenStop(d, tail)
    ensures ParseInt(d + tail) == Some(DigitsValue(d, 10))
  {
    var u := d + tail;
    MagnitudeOfNumeral(d, tail);
    assert '0' <= u[0] <= '9';
    ParseIntUnsigned(u);
  }

  /** With a minus sign in front, parseInt reads the same numeral negated. */
  lemma ParseIntOfNegatedNumeral(d: string, tail: string)
    requires NumeralThenStop(d, tail)
    ensures ParseInt("-" + (d + tail)) == Some(-(DigitsValue(d, 10) as int))
  {
    MagnitudeOfNumeral(d, tail);
    ParseIntNegated(d + tail);
  }

  /** "0x" and hex digits: parseInt reads them in base 16. */
  lemma ParseIntOfHex(h: string)
    requires h != [] && AllDigits(h, 16)
    ensures ParseInt("0x" + h) == Some(DigitsValue(h, 16))
  {
    var u := "0x" + h;
    assert u[2..] == h;
    DigitPrefixOfNumeral(h, "", 16);
    assert h + "" == h;
    ParseIntUnsigned(u);
  }

  /** parseInt reads digits alone as the number they write. */
  lemma ParseIntOfDigits(s: string)
    requires s != [] && AllDigits(s, 10)
    ensures ParseInt(s) == Some(DigitsValue(s, 10))
  {
    ParseIntOfNumeral(s, "");
    assert s + "" == s;
  }

  /** parseInt reads back the numeral ToString writes for an integer. */
  lemma ParseIntOfDecimalString(n: nat)
    ensures ParseInt(DecimalString(n)) == Some(n)
    ensures ParseInt("-" + DecimalString(n)) == Some(-(n as int))
  {
    var d := DecimalString(n);
    DecimalStringValue(n);
    ParseIntOfNumeral(d, "");
    ParseIntOfNegatedNumeral(d, "");
    assert d + "" == d;
  }

  /** Text whose first character is neither white space, a sign nor a decimal
      digit reads as NaN. */
  lemma ParseIntOfNonNumeral(s: string)
    requires s != [] && !IsJsSpace(s[0]) && s[0] != '-' && s[0] != '+' && DigitValue(s[0]) >= 10
    ensures ParseInt(s) == None
  {
    ParseIntUnsigned(s);
  }

  /** An id passes the API's check when `parseInt(id)` is neither NaN nor <= 0. */
  predicate IdAccepted(v: JsonValue) {
    match ParseInt(ToJsString(v))
    case None => false
    case Some(n) => n > 0
  }

  /** A numeric id is accepted exactly when it is positive. */
  lemma IntIdAccepted(i: int)
    ensures IdAccepted(Int(i)) <==> i > 0
  {
    if i < 0 {
      ParseIntOfDecimalString(-i);
    } else {
      ParseIntOfDecimalString(i);
    }
  }
}
