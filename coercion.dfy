/**
 * `settype($value, $type)` as applied to the raw value of a placeholder, which
 * is either a string or PHP's `false` (what `strstr` returns when the
 * delimiter is missing).
 *
 * Modelled type names: "string", "integer"/"int", "boolean"/"bool", "null",
 * matched regardless of ASCII case as PHP does ("Integer" and "INT" are
 * "integer"). Every other name ("float", "double", "array", ...) yields
 * `VOther`, which records the request without interpreting it.
 */
module Coercion {

  datatype Raw = RawString(text: string) | RawFalse

  datatype Value =
    | VString(s: string)
    | VInt(n: int)
    | VBool(b: bool)
    | VNull
    | VOther(typeTag: string, raw: Raw)

  predicate IsDigit(c: char)
  {
    '0' <= c <= '9'
  }

  predicate AllDigits(s: string)
  {
    forall i :: 0 <= i < |s| ==> IsDigit(s[i])
  }

  /** The characters PHP skips in front of a numeric string. */
  predicate IsSpace(c: char)
  {
    c == ' ' || c == '\t' || c == '\n' || c == '\r' || c == '\U{B}' || c == '\U{C}'
  }

  function SkipSpace(s: string): (t: string)
    ensures |t| <= |s| && t == s[|s| - |t|..]
    ensures t == [] || !IsSpace(t[0])
    decreases |s|
  {
    if s != [] && IsSpace(s[0]) then SkipSpace(s[1..]) else s
  }

  /** The longest prefix of `s` made of decimal digits. */
  function LeadingDigits(s: string): (r: string)
    ensures r <= s && AllDigits(r)
    ensures |r| < |s| ==> !IsDigit(s[|r|])
    decreases |s|
  {
    if s != [] && IsDigit(s[0]) then [s[0]] + LeadingDigits(s[1..]) else []
  }

  function DigitValue(c: char): nat
    requires IsDigit(c)
  {
    (c - '0') as nat
  }

  /** The number a string of decimal digits denotes ("" denotes 0). */
  function DigitsValue(ds: string): nat
    requires AllDigits(ds)
    decreases |ds|
  {
    if ds == [] then 0 else DigitsValue(ds[..|ds| - 1]) * 10 + DigitValue(ds[|ds| - 1])
  }

  /**
   * `(int)$s`: optional leading white space, an optional sign, then the longest
   * run of decimal digits; 0 when there are none.
   */
  function IntValue(s: string): int
  {
    var t := SkipSpace(s);
    if t != [] && t[0] == '-' then -(DigitsValue(LeadingDigits(t[1..])) as int)
    else if t != [] && t[0] == '+' then DigitsValue(LeadingDigits(t[1..]))
    else DigitsValue(LeadingDigits(t))
  }

  /** An ASCII upper-case letter becomes lower-case; every other character is kept. */
  function LowerChar(c: char): char
  {
    if 'A' <= c <= 'Z' then (c as int + 32) as char else c
  }

  /** The ASCII lower-case form of `s`, under which PHP compares type names. */
  function Lower(s: string): string
  {
    seq(|s|, i requires 0 <= i < |s| => LowerChar(s[i]))
  }

  /** `settype($value, $typeTag)` for a string or `false` value. */
  function Settype(raw: Raw, typeTag: string): Value
  {
    var name := Lower(typeTag);
    if name == "string" then
      VString(if raw.RawString? then raw.text else [])
    else if name == "integer" || name == "int" then
      VInt(if raw.RawString? then IntValue(raw.text) else 0)
    else if name == "boolean" || name == "bool" then
      VBool(raw.RawString? && raw.text != [] && raw.text != "0")
    else if name == "null" then
      VNull
    else
      VOther(typeTag, raw)
  }

  // ---------------------------------------------------------------------------
  // Rendering values as text: the inverse of Settype on the modelled types
  // ---------------------------------------------------------------------------

  function DigitChar(n: nat): (c: char)
    requires n < 10
    ensures IsDigit(c) && DigitValue(c) == n
  {
    ('0' as int + n) as char
  }

  /** The decimal digits of `n`, most significant first, without leading zeros. */
  function Digits(n: nat): (ds: string)
    ensures ds != [] && AllDigits(ds)
    decreases n
  {
    if n < 10 then [DigitChar(n)] else Digits(n / 10) + [DigitChar(n % 10)]
  }

  /** `(string)$n` for an integer `n`. */
  function DecimalString(n: int): string
  {
    if n < 0 then "-" + Digits(-n) else Digits(n)
  }

  /** The values Settype can produce from text, i.e. those with a modelled type. */
  predicate Representable(v: Value)
  {
    !v.VOther?
  }

  /** The type name a value is declared with in a pattern. */
  function TypeTag(v: Value): string
  {
    match v
    case VString(_) => "string"
    case VInt(_) => "integer"
    case VBool(_) => "boolean"
    case VNull => "null"
    case VOther(t, _) => t
  }

  /** `(string)$v`: the text a value is written as in a path. */
  function Render(v: Value): string
    requires Representable(v)
  {
    match v
    case VString(s) => s
    case VInt(n) => DecimalString(n)
    case VBool(b) => if b then "1" else ""
    case VNull => ""
  }

  // ---------------------------------------------------------------------------
  // Lemmas
  // ---------------------------------------------------------------------------

  /** The digits of `n` denote `n`. */
  lemma {:induction false} DigitsValueOfDigits(n: nat)
    ensures DigitsValue(Digits(n)) == n
    decreases n
  {
    if n >= 10 {
      DigitsValueOfDigits(n / 10);
      var ds := Digits(n);
      assert ds[..|ds| - 1] == Digits(n / 10);
    }
  }

  /** A string of digits is its own longest digit prefix. */
  lemma {:induction false} LeadingDigitsOfDigits(ds: string)
    requires AllDigits(ds)
    ensures LeadingDigits(ds) == ds
    decreases |ds|
  {
    if ds != [] {
      LeadingDigitsOfDigits(ds[1..]);
      assert ds == [ds[0]] + ds[1..];
    }
  }

  /** Reading back the decimal text of any integer gives that integer. */
  lemma IntValueDecimalString(n: int)
    ensures IntValue(DecimalString(n)) == n
  {
    var s := DecimalString(n);
    var m: nat := if n < 0 then -n else n;
    assert !IsSpace(s[0]);
    assert SkipSpace(s) == s;
    LeadingDigitsOfDigits(Digits(m));
    DigitsValueOfDigits(m);
    if n < 0 {
      assert s[1..] == Digits(m);
    }
  }

  /** Type names that differ only in ASCII case request the same coercion. */
  lemma SettypeIgnoresCase(raw: Raw, a: string, b: string)
    requires Lower(a) == Lower(b)
    ensures Settype(raw, a).VOther? <==> Settype(raw, b).VOther?
    ensures !Settype(raw, a).VOther? ==> Settype(raw, a) == Settype(raw, b)
  {
  }

  /** On every modelled type `false` coerces exactly as the empty string does. */
  lemma SettypeFalseAsEmpty(typeTag: string)
    ensures Settype(RawFalse, typeTag).VOther? <==> Settype(RawString([]), typeTag).VOther?
    ensures !Settype(RawFalse, typeTag).VOther? ==> Settype(RawFalse, typeTag) == Settype(RawString([]), typeTag)
  {
  }

  /** The canonical type name of a value is already in lower case. */
  lemma TypeTagLower(v: Value)
    requires Representable(v)
    ensures Lower(TypeTag(v)) == TypeTag(v)
  {
    var tag := TypeTag(v);
    forall i | 0 <= i < |tag| ensures LowerChar(tag[i]) == tag[i] {
    }
  }

  /**
   * Coercing the text of a value back to its declared type gives the value,
   * whatever the case the type name is written in.
   */
  lemma SettypeRender(v: Value, typeTag: string)
    requires Representable(v) && Lower(typeTag) == TypeTag(v)
    ensures Settype(RawString(Render(v)), typeTag) == v
  {
    if v.VInt? {
      IntValueDecimalString(v.n);
    }
  }

  /** `settype` reads "Integer" as "integer": "7" becomes the integer 7. */
  lemma SettypeMixedCase()
    ensures Settype(RawString("7"), "Integer") == VInt(7)
  {
    LowerInteger();
    assert Render(VInt(7)) == "7";
    SettypeRender(VInt(7), "Integer");
  }

  /** "Integer" in lower case. */
  lemma LowerInteger()
    ensures Lower("Integer") == "integer"
  {
    var t := Lower("Integer");
    assert t[0] == 'i';
    assert t[1..] == "nteger";
  }

  /** PHP's lenient integer reading: text after the leading digits is ignored ("100px" reads as 100). */
  lemma IntValueLenient(ds: string, junk: string)
    requires ds != [] && AllDigits(ds)
    requires junk == [] || !IsDigit(junk[0])
    ensures IntValue(ds + junk) == DigitsValue(ds)
  {
    var t := ds + junk;
    assert t[0] == ds[0];
    IntValueUnsigned(t);
    LeadingDigitsPrefix(ds, junk);
  }

  /** Text starting with a digit reads as the number its leading digits denote. */
  lemma IntValueUnsigned(t: string)
    requires t != [] && IsDigit(t[0])
    ensures IntValue(t) == DigitsValue(LeadingDigits(t))
  {
    assert !IsSpace(t[0]);
    assert SkipSpace(t) == t;
  }

  lemma {:induction false} LeadingDigitsPrefix(ds: string, junk: string)
    requires AllDigits(ds)
    requires junk == [] || !IsDigit(junk[0])
    ensures LeadingDigits(ds + junk) == ds
    decreases |ds|
  {
    if ds == [] {
      assert ds + junk == junk;
    } else {
      assert (ds + junk)[1..] == ds[1..] + junk;
      LeadingDigitsPrefix(ds[1..], junk);
      assert ds == [ds[0]] + ds[1..];
    }
  }
}
