/**
 * `rawurldecode`: percent-decoding of a path, byte by byte. Strings are PHP
 * byte strings; a decoded `%XY` is the character whose code is the byte 0xXY.
 * A `%` not followed by two hexadecimal digits is kept as it is, and `+` is
 * not special (unlike `urldecode`).
 */
module UrlCodec {

  predicate IsHex(c: char)
  {
    ('0' <= c <= '9') || ('a' <= c <= 'f') || ('A' <= c <= 'F')
  }

  function HexValue(c: char): (v: nat)
    requires IsHex(c)
    ensures v < 16
  {
    if '0' <= c <= '9' then (c - '0') as nat
    else if 'a' <= c <= 'f' then (c - 'a') as nat + 10
    else (c - 'A') as nat + 10
  }

  /** An escape `%XY` starts at the head of `s`. */
  predicate EscapeAt(s: string)
  {
    |s| >= 3 && s[0] == '%' && IsHex(s[1]) && IsHex(s[2])
  }

  function RawUrlDecode(s: string): (r: string)
    ensures |r| <= |s|
    decreases |s|
  {
    if s == [] then []
    else if EscapeAt(s) then [(HexValue(s[1]) * 16 + HexValue(s[2])) as char] + RawUrlDecode(s[3..])
    else [s[0]] + RawUrlDecode(s[1..])
  }

  // ---------------------------------------------------------------------------
  // The encoder that rawurldecode inverts (RFC 3986 unreserved characters kept)
  // ---------------------------------------------------------------------------

  predicate Unreserved(c: char)
  {
    ('a' <= c <= 'z') || ('A' <= c <= 'Z') || ('0' <= c <= '9') || c == '-' || c == '_' || c == '.' || c == '~'
  }

  /** Byte strings: every character is a byte. */
  predicate IsBytes(s: string)
  {
    forall i :: 0 <= i < |s| ==> s[i] as int < 256
  }

  function HexDigit(n: nat): (c: char)
    requires n < 16
    ensures IsHex(c) && HexValue(c) == n
  {
    if n < 10 then ('0' as int + n) as char else ('A' as int + n - 10) as char
  }

  /** `rawurlencode`: every byte outside the unreserved set becomes `%XY` (upper-case hex). */
  function RawUrlEncode(s: string): (r: string)
    requires IsBytes(s)
    ensures |r| >= |s|
    decreases |s|
  {
    if s == [] then []
    else
      var c := s[0];
      (if Unreserved(c) then [c] else ['%', HexDigit(c as int / 16), HexDigit(c as int % 16)])
        + RawUrlEncode(s[1..])
  }

  // ---------------------------------------------------------------------------
  // Lemmas
  // ---------------------------------------------------------------------------

  /** Decoding the encoding of a byte string gives it back. */
  lemma {:induction false} DecodeEncode(s: string)
    requires IsBytes(s)
    ensures RawUrlDecode(RawUrlEncode(s)) == s
    decreases |s|
  {
    if s != [] {
      var c := s[0];
      var rest := RawUrlEncode(s[1..]);
      DecodeEncode(s[1..]);
      var e := RawUrlEncode(s);
      if Unreserved(c) {
        assert e == [c] + rest;
        assert !EscapeAt(e);
        assert e[1..] == rest;
      } else {
        var hi, lo := HexDigit(c as int / 16), HexDigit(c as int % 16);
        assert e == ['%', hi, lo] + rest;
        assert EscapeAt(e);
        assert e[3..] == rest;
        assert (HexValue(hi) * 16 + HexValue(lo)) as char == c;
      }
      assert s == [c] + s[1..];
    }
  }

  /**
   * Decoding splits at any point followed by something that cannot continue
   * an escape: an escape never straddles the boundary.
   */
  lemma {:induction false} DecodeAppend(a: string, t: string)
    requires t == [] || !IsHex(t[0])
    ensures RawUrlDecode(a + t) == RawUrlDecode(a) + RawUrlDecode(t)
    decreases |a|
  {
    if a == [] {
      assert a + t == t;
    } else if EscapeAt(a) {
      EscapeAppend(a, t);
      DecodeAppend(a[3..], t);
      DecodeEscape(a + t);
      DecodeEscape(a);
      var c := [(HexValue(a[1]) * 16 + HexValue(a[2])) as char];
      ConcatAssoc(c, RawUrlDecode(a[3..]), RawUrlDecode(t));
    } else {
      NoEscapeAppend(a, t);
      DecodeAppend(a[1..], t);
      DecodeOther(a + t);
      DecodeOther(a);
      ConcatAssoc([a[0]], RawUrlDecode(a[1..]), RawUrlDecode(t));
    }
  }

  lemma DecodeEscape(s: string)
    requires EscapeAt(s)
    ensures RawUrlDecode(s) == [(HexValue(s[1]) * 16 + HexValue(s[2])) as char] + RawUrlDecode(s[3..])
  {
  }

  lemma DecodeOther(s: string)
    requires s != [] && !EscapeAt(s)
    ensures RawUrlDecode(s) == [s[0]] + RawUrlDecode(s[1..])
  {
  }

  lemma ConcatAssoc(a: string, b: string, c: string)
    ensures a + (b + c) == a + b + c
  {
  }

  lemma EscapeAppend(a: string, t: string)
    requires EscapeAt(a)
    ensures EscapeAt(a + t) && (a + t)[1] == a[1] && (a + t)[2] == a[2]
    ensures (a + t)[3..] == a[3..] + t
  {
  }

  lemma NoEscapeAppend(a: string, t: string)
    requires a != [] && !EscapeAt(a)
    requires t == [] || !IsHex(t[0])
    ensures !EscapeAt(a + t) && (a + t)[0] == a[0]
    ensures (a + t)[1..] == a[1..] + t
  {
    if |a| == 1 {
      assert t == [] || (a + t)[1] == t[0];
    } else if |a| == 2 {
      assert t == [] || (a + t)[2] == t[0];
    } else {
      assert (a + t)[..3] == a[..3];
    }
  }

  /** Text without `%` decodes to itself. */
  lemma {:induction false} DecodePlain(s: string)
    requires '%' !in s
    ensures RawUrlDecode(s) == s
    decreases |s|
  {
    if s != [] {
      assert s[0] != '%';
      assert '%' !in s[1..] by {
        forall k | 0 <= k < |s| - 1 ensures s[1..][k] != '%' {
          assert s[1..][k] == s[k + 1];
        }
      }
      DecodePlain(s[1..]);
      assert s == [s[0]] + s[1..];
    }
  }

  /** An encoded slash `%2F` becomes a path separator once decoded. */
  lemma EncodedSlash(a: string, b: string)
    ensures RawUrlDecode(a + "%2F" + b) == RawUrlDecode(a) + "/" + RawUrlDecode(b)
  {
    DecodeAppend(a, "%2F" + b);
    assert a + "%2F" + b == a + ("%2F" + b);
    var t := "%2F" + b;
    assert EscapeAt(t);
    assert t[3..] == b;
    assert HexValue('2') * 16 + HexValue('F') == 47;
  }
}
