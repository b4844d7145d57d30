/** The two pieces of JavaScript string behaviour the engine relies on:
    `String.prototype.trim` and the decimal rendering of an integer in a
    template literal. */
module JsText {

  /** The characters `trim` removes: ECMAScript WhiteSpace (tab, vertical tab,
      form feed, space, no-break space, zero width no-break space and every
      Unicode space separator) and LineTerminator (LF, CR, LS, PS). */
  predicate IsWhitespace(c: char) {
    || c == '\t' || c == '\n' || c == '\U{000B}' || c == '\U{000C}' || c == '\r'
    || c == ' ' || c == '\U{00A0}' || c == '\U{1680}'
    || ('\U{2000}' <= c <= '\U{200A}')
    || c == '\U{2028}' || c == '\U{2029}' || c == '\U{202F}' || c == '\U{205F}'
    || c == '\U{3000}' || c == '\U{FEFF}'
  }

  predicate AllWhitespace(s: string) {
    forall k :: 0 <= k < |s| ==> IsWhitespace(s[k])
  }

  /** Drops the leading whitespace: the result is the suffix of `s` that starts
      at its first non-whitespace character. */
  function TrimStart(s: string): (r: string)
    ensures |r| <= |s| && r == s[|s| - |r|..]
    ensures AllWhitespace(s[..|s| - |r|])
    ensures r == [] || !IsWhitespace(r[0])
  {
    if s != [] && IsWhitespace(s[0]) then
      var t := s[1..];
      var r := TrimStart(t);
      var w := s[..|s| - |r|];
      forall k | 0 <= k < |w| ensures IsWhitespace(w[k]) {
        if k > 0 {
          assert w[k] == t[..|t| - |r|][k - 1];
        }
      }
      assert r == t[|t| - |r|..] == s[|s| - |r|..];
      r
    else s
  }

  /** Drops the trailing whitespace: the result is the prefix of `s` that ends
      at its last non-whitespace character. */
  function TrimEnd(s: string): (r: string)
    ensures |r| <= |s| && r == s[..|r|]
    ensures AllWhitespace(s[|r|..])
    ensures r == [] || !IsWhitespace(r[|r| - 1])
  {
    if s != [] && IsWhitespace(s[|s| - 1]) then
      var t := s[..|s| - 1];
      var r := TrimEnd(t);
      var w := s[|r|..];
      forall k | 0 <= k < |w| ensures IsWhitespace(w[k]) {
        if k < |w| - 1 {
          assert w[k] == t[|r|..][k];
        }
      }
      assert r == t[..|r|] == s[..|r|];
      r
    else s
  }

  /** `s.trim()`: the contiguous piece of `s` left once whitespace is dropped
      at both ends. */
  function Trim(s: string): (r: string)
    ensures var a := |s| - |TrimStart(s)|; a + |r| <= |s| && r == s[a..a + |r|]
  {
    var u := TrimStart(s);
    var r := TrimEnd(u);
    assert r == s[|s| - |u|..][..|r|];
    r
  }

  /** What follows the result of `trim` in the input is all whitespace, so
      together with `Trim`'s own contract the result is exactly the input
      without its leading and trailing whitespace. */
  lemma TrimTail(s: string)
    ensures var a := |s| - |TrimStart(s)|; var r := Trim(s);
      a + |r| <= |s| && AllWhitespace(s[a + |r|..])
  {
    var u := TrimStart(s);
    var a := |s| - |u|;
    var r := TrimEnd(u);
    var w := s[a + |r|..];
    forall k | 0 <= k < |w| ensures IsWhitespace(w[k]) {
      assert w[k] == u[|r|..][k];
    }
  }

  /** What `trim` leaves neither starts nor ends with whitespace. */
  lemma TrimEnds(s: string)
    ensures var r := Trim(s); r == [] || (!IsWhitespace(r[0]) && !IsWhitespace(r[|r| - 1]))
  {
    var u := TrimStart(s);
    var r := TrimEnd(u);
    if r != [] {
      assert r[0] == u[0];
    }
  }

  /** A title is rejected exactly when it is nothing but whitespace. */
  lemma TrimEmptyIff(s: string)
    ensures Trim(s) == [] <==> AllWhitespace(s)
  {
    var u := TrimStart(s);
    var a := |s| - |u|;
    assert u == s[a..];
    if Trim(s) == [] {
      assert AllWhitespace(u);
      forall k | 0 <= k < |s| ensures IsWhitespace(s[k]) {
        if k < a { assert s[k] == s[..a][k]; } else { assert s[k] == u[k - a]; }
      }
    } else {
      assert u != [] && u[0] == s[a];
      assert !IsWhitespace(s[a]);
    }
  }

  lemma TrimIdempotent(s: string)
    ensures Trim(Trim(s)) == Trim(s)
  {
    var r := Trim(s);
    TrimEnds(s);
    if r != [] {
      assert TrimStart(r) == r;
      assert TrimEnd(r) == r;
    }
  }

  /** The character of a decimal digit. */
  function DigitChar(d: int): (c: char)
    requires 0 <= d < 10
    ensures '0' <= c <= '9' && c as int - '0' as int == d
  {
    (48 + d) as char
  }

  predicate IsDigits(s: string) {
    forall k :: 0 <= k < |s| ==> '0' <= s[k] <= '9'
  }

  /** How a template literal writes a non-negative integer: its shortest
      decimal form, with no leading zero. */
  function NatToDecimal(n: nat): (r: string)
    ensures |r| >= 1 && IsDigits(r)
    ensures |r| == 1 || r[0] != '0'
    decreases n
  {
    if n < 10 then [DigitChar(n)] else NatToDecimal(n / 10) + [DigitChar(n % 10)]
  }

  /** The value of a string of decimal digits; the reference used to show that
      `NatToDecimal` loses nothing. */
  function DecimalValue(s: string): (n: nat)
    requires IsDigits(s)
  {
    if s == [] then 0 else DecimalValue(s[..|s| - 1]) * 10 + (s[|s| - 1] as int - '0' as int)
  }

  lemma {:induction false} DecimalRoundTrip(n: nat)
    ensures DecimalValue(NatToDecimal(n)) == n
    decreases n
  {
    if n >= 10 {
      var r := NatToDecimal(n);
      assert r[..|r| - 1] == NatToDecimal(n / 10);
      DecimalRoundTrip(n / 10);
    }
  }

  /** `${i}` for an integer `i`: a minus sign before the digits of `-i` when `i` is negative. */
  function IntToString(i: int): (r: string)
    ensures |r| >= 1
    ensures (r[0] == '-') <==> i < 0
    ensures i < 0 ==> IsDigits(r[1..]) && |r| >= 2
    ensures i >= 0 ==> IsDigits(r)
  {
    if i < 0 then "-" + NatToDecimal(-i) else NatToDecimal(i)
  }

  /** Reads back what `IntToString` writes. */
  function ParseInt(s: string): (i: int)
    requires |s| >= 1
    requires if s[0] == '-' then IsDigits(s[1..]) else IsDigits(s)
  {
    if s[0] == '-' then -(DecimalValue(s[1..]) as int) else DecimalValue(s)
  }

  /** The digits of an integer's text have no leading zero. */
  lemma IntToStringNoLeadingZero(i: int)
    ensures var r := IntToString(i);
      if i < 0 then r[1] != '0' else |r| == 1 || r[0] != '0'
  {
    if i < 0 {
      var d := NatToDecimal(-i);
      assert IntToString(i)[1..] == d;
      if -i < 10 {
        assert d == [DigitChar(-i)];
      }
    }
  }

  lemma IntToStringRoundTrip(i: int)
    ensures ParseInt(IntToString(i)) == i
  {
    if i < 0 {
      NegativeRoundTrip(i);
    } else {
      DecimalRoundTrip(i);
    }
  }

  /** A negative integer's text is a minus and the digits of its magnitude. */
  lemma NegativeRoundTrip(i: int)
    requires i < 0
    ensures ParseInt(IntToString(i)) == i
  {
    var d := NatToDecimal(-i);
    assert IntToString(i) == "-" + d;
    ParseMinus(d);
    DecimalRoundTrip(-i);
  }

  /** A minus sign before digits reads back as the negated value of the digits. */
  lemma ParseMinus(d: string)
    requires IsDigits(d)
    ensures ParseInt("-" + d) == -(DecimalValue(d) as int)
  {
    assert ("-" + d)[1..] == d;
  }
}
