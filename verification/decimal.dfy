/**
 * Decimal text for small unsigned integers: Rust's `u8::from_str` (what `str::parse::<u8>`
 * runs) and the `{}` formatting of an integer.
 *
 * `u8::from_str` accepts one or more ASCII digits, optionally after a single leading `+`,
 * whose value is at most 255. Leading zeros are accepted; the empty string, a lone `+`,
 * a `-` sign, any other character and any value above 255 are rejected.
 */
module Decimal {
  import opened Wrappers

  /** Rust's `u8`. */
  type u8 = x: int | 0 <= x < 0x100

  predicate IsDigit(c: char) {
    '0' <= c <= '9'
  }

  predicate AllDigits(s: string) {
    forall i :: 0 <= i < |s| ==> IsDigit(s[i])
  }

  function DigitValue(c: char): nat
    requires IsDigit(c)
  {
    c as int - '0' as int
  }

  function DigitChar(n: nat): (c: char)
    requires n < 10
    ensures IsDigit(c) && DigitValue(c) == n
  {
    ('0' as int + n) as char
  }

  /** The number a string of decimal digits denotes, most significant digit first. */
  function Value(ds: string): nat
    requires AllDigits(ds)
    decreases |ds|
  {
    if ds == [] then 0 else Value(ds[..|ds| - 1]) * 10 + DigitValue(ds[|ds| - 1])
  }

  /** The digits-only part of `u8::from_str`: no digits, a non-digit or a value above 255 fail. */
  function ParseDigits(ds: string): Option<u8> {
    if ds != [] && AllDigits(ds) && Value(ds) < 0x100 then Some(Value(ds)) else None
  }

  /** `s.parse::<u8>().ok()`: one optional `+`, then the digits. */
  function ParseU8(s: string): (r: Option<u8>)
    ensures r.Some? ==> s != [] && forall i :: 0 <= i < |s| ==> IsDigit(s[i]) || (i == 0 && s[i] == '+')
  {
    if s != [] && s[0] == '+' then ParseDigits(s[1..]) else ParseDigits(s)
  }

  /** The shortest digit string of a number: no leading zero except for zero itself. */
  predicate Canonical(s: string) {
    s != [] && AllDigits(s) && (s[0] == '0' ==> |s| == 1)
  }

  /** `format!("{}", n)`: decimal, no padding, no sign. */
  function Render(n: nat): (s: string)
    ensures Canonical(s) && Value(s) == n
    decreases n
  {
    if n < 10 then [DigitChar(n)]
    else
      var prefix := Render(n / 10);
      var s := prefix + [DigitChar(n % 10)];
      assert s[..|s| - 1] == prefix;
      s
  }

  /** Parsing the rendering of a byte gives the byte back. */
  lemma ParseRender(n: u8)
    ensures ParseU8(Render(n)) == Some(n)
  {
    var s := Render(n);
    assert s[0] != '+' by { assert IsDigit(s[0]); }
  }

  /** A canonical digit string with a leading non-zero digit denotes a positive number. */
  lemma {:induction false} LeadingDigitPositive(ds: string)
    requires ds != [] && AllDigits(ds) && ds[0] != '0'
    ensures Value(ds) > 0
    decreases |ds|
  {
    if |ds| > 1 {
      LeadingDigitPositive(ds[..|ds| - 1]);
    }
  }

  /** Rendering is the only canonical form: a canonical digit string is the rendering of its value. */
  lemma {:induction false} RenderValue(ds: string)
    requires Canonical(ds)
    ensures Render(Value(ds)) == ds
    decreases |ds|
  {
    if |ds| > 1 {
      var prefix, last := ds[..|ds| - 1], ds[|ds| - 1];
      assert Canonical(prefix);
      LeadingDigitPositive(prefix);
      RenderValue(prefix);
      var n := Value(ds);
      assert n == Value(prefix) * 10 + DigitValue(last);
      assert n / 10 == Value(prefix) && n % 10 == DigitValue(last) && n >= 10;
      assert DigitChar(n % 10) == last;
      assert Render(n) == Render(n / 10) + [DigitChar(n % 10)];
      assert ds == prefix + [last];
    }
  }

  /** Parsing a canonical string succeeds exactly when it is the rendering of a byte. */
  lemma ParseCanonical(s: string, n: u8)
    requires Canonical(s)
    ensures ParseU8(s) == Some(n) <==> s == Render(n)
  {
    if ParseU8(s) == Some(n) {
      assert s[0] != '+' by { assert IsDigit(s[0]); }
      RenderValue(s);
    }
    if s == Render(n) {
      ParseRender(n);
    }
  }

  /** A leading zero does not change the number a digit string denotes. */
  lemma {:induction false} ValueLeadingZero(ds: string)
    requires AllDigits(ds)
    ensures AllDigits("0" + ds) && Value("0" + ds) == Value(ds)
    decreases |ds|
  {
    if ds != [] {
      var init := ds[..|ds| - 1];
      ValueLeadingZero(init);
      assert ("0" + ds)[..|ds|] == "0" + init;
      assert ("0" + ds)[|ds|] == ds[|ds| - 1];
    }
  }

  /** Leading zeros are accepted: one more in front never changes the outcome. */
  lemma ParseU8LeadingZero(ds: string)
    requires ds != [] && ds[0] != '+'
    ensures ParseU8("0" + ds) == ParseU8(ds)
  {
    assert ("0" + ds)[0] == '0';
    if AllDigits(ds) {
      ValueLeadingZero(ds);
    } else {
      var i :| 0 <= i < |ds| && !IsDigit(ds[i]);
      assert ("0" + ds)[i + 1] == ds[i];
    }
  }

  /** One leading `+` is accepted and has no effect on the value. */
  lemma ParseU8Plus(ds: string)
    requires ds == [] || ds[0] != '+'
    ensures ParseU8("+" + ds) == ParseU8(ds)
  {
    assert ("+" + ds)[1..] == ds;
  }

  /** `"x"` is not a byte. */
  lemma ParseU8Word()
    ensures ParseU8("x") == None
  {
    assert !IsDigit("x"[0]);
  }

  /** `"256"` is not a byte. */
  lemma ParseU8TooLarge()
    ensures ParseU8("256") == None
  {
    assert Value("256") == 256 by {
      assert "256"[..2] == "25" && "25"[..1] == "2" && "2"[..0] == "";
    }
  }

  /** The edge cases of `u8::from_str`. */
  lemma ParseU8Examples()
    ensures ParseU8("007") == Some(7)
    ensures ParseU8("+5") == Some(5)
    ensures ParseU8("255") == Some(255)
    ensures ParseU8("") == None
    ensures ParseU8("+") == None
    ensures ParseU8("-5") == None
    ensures ParseU8("++5") == None
  {
    assert Value("007") == 7 by {
      assert "007"[..2] == "00" && "00"[..1] == "0" && "0"[..0] == "";
    }
    assert Value("255") == 255 by {
      assert "255"[..2] == "25" && "25"[..1] == "2" && "2"[..0] == "";
    }
    assert "+5"[1..] == "5" && "5"[..0] == "";
    assert !IsDigit("-5"[0]);
    assert "++5"[1..] == "+5" && !IsDigit("+5"[0]);
  }
}
