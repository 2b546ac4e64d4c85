/** What Python's `int()` and `float()` accept from the text left once the unit
    has been removed, for the ASCII subset this model covers: surrounding white
    space, an optional sign, decimal digits and (for `float()`) at most one
    decimal point. The value of a float literal is kept exact, as a `real`. */
module Numbers {
  import opened Wrappers

  /** The range of numpy's int64, which `astype(int)` converts to where the C `long` is 64 bits wide. */
  const Int64Min: int := -0x8000_0000_0000_0000
  const Int64Max: int := 0x7FFF_FFFF_FFFF_FFFF

  predicate IsDigit(c: char) {
    '0' <= c <= '9'
  }

  predicate AllDigits(s: string) {
    forall i :: 0 <= i < |s| ==> IsDigit(s[i])
  }

  predicate IsLetter(c: char) {
    'a' <= c <= 'z' || 'A' <= c <= 'Z'
  }

  /** The white space `int()` and `float()` skip at both ends of ASCII text: the space and
      `\t \n \v \f \r`. The separators U+001C to U+001F are not skipped, although
      `str.isspace` holds for them: text that starts or ends with one is refused. */
  predicate IsSpace(c: char) {
    c == ' ' || 9 <= c as int <= 13
  }

  function LeadingSpaces(s: string): (n: nat)
    ensures n <= |s|
    ensures forall j :: 0 <= j < n ==> IsSpace(s[j])
    ensures n < |s| ==> !IsSpace(s[n])
    decreases |s|
  {
    if s != [] && IsSpace(s[0]) then 1 + LeadingSpaces(s[1..]) else 0
  }

  function TrailingSpaces(s: string): (n: nat)
    ensures n <= |s|
    ensures forall j :: |s| - n <= j < |s| ==> IsSpace(s[j])
    ensures n < |s| ==> !IsSpace(s[|s| - 1 - n])
    decreases |s|
  {
    if s != [] && IsSpace(s[|s| - 1]) then 1 + TrailingSpaces(s[..|s| - 1]) else 0
  }

  /** The stripping `int()` and `float()` apply to their argument, for ASCII white space. */
  function Strip(s: string): (r: string)
    ensures |r| <= |s|
    ensures r == [] || (!IsSpace(r[0]) && !IsSpace(r[|r| - 1]))
  {
    var t := s[LeadingSpaces(s)..];
    t[..|t| - TrailingSpaces(t)]
  }

  /** Stripping removes white space only: every other character survives it. */
  lemma StripKeepsNonSpace(s: string, i: int)
    requires 0 <= i < |s| && !IsSpace(s[i])
    ensures exists j :: 0 <= j < |Strip(s)| && Strip(s)[j] == s[i]
  {
    var a := LeadingSpaces(s);
    var t := s[a..];
    var b := TrailingSpaces(t);
    assert a <= i;
    assert i - a < |t| - b;
    assert Strip(s)[i - a] == s[i];
  }

  /** White space in front of text that does not start with it is exactly what `LeadingSpaces` counts. */
  lemma {:induction false} LeadingSpacesOf(w: string, t: string)
    requires forall j :: 0 <= j < |w| ==> IsSpace(w[j])
    requires t == [] || !IsSpace(t[0])
    ensures LeadingSpaces(w + t) == |w|
    decreases |w|
  {
    if w == [] {
      assert w + t == t;
    } else {
      assert (w + t)[1..] == w[1..] + t;
      LeadingSpacesOf(w[1..], t);
    }
  }

  /** White space after text that does not end with it is exactly what `TrailingSpaces` counts. */
  lemma {:induction false} TrailingSpacesOf(t: string, w: string)
    requires forall j :: 0 <= j < |w| ==> IsSpace(w[j])
    requires t == [] || !IsSpace(t[|t| - 1])
    ensures TrailingSpaces(t + w) == |w|
    decreases |w|
  {
    if w == [] {
      assert t + w == t;
    } else {
      var u := t + w;
      assert u[|u| - 1] == w[|w| - 1];
      assert u[..|u| - 1] == t + w[..|w| - 1];
      TrailingSpacesOf(t, w[..|w| - 1]);
    }
  }

  /** Stripping removes the surrounding white space and nothing else: padded text gives back
      the text, in order and whole, and blank text gives the empty text. */
  lemma StripPadded(w1: string, t: string, w2: string)
    requires forall j :: 0 <= j < |w1| ==> IsSpace(w1[j])
    requires forall j :: 0 <= j < |w2| ==> IsSpace(w2[j])
    requires t == [] || (!IsSpace(t[0]) && !IsSpace(t[|t| - 1]))
    ensures Strip(w1 + t + w2) == t
  {
    var s := w1 + t + w2;
    if t == [] {
      assert s == (w1 + w2) + [];
      LeadingSpacesOf(w1 + w2, []);
      assert s[|s|..] == [];
    } else {
      assert s == w1 + (t + w2);
      assert (t + w2)[0] == t[0];
      LeadingSpacesOf(w1, t + w2);
      assert s[|w1|..] == t + w2;
      TrailingSpacesOf(t, w2);
      assert (t + w2)[..|t|] == t;
    }
  }

  /** Text that neither starts nor ends with white space is left as it is. */
  lemma StripUnpadded(s: string)
    requires s == [] || (!IsSpace(s[0]) && !IsSpace(s[|s| - 1]))
    ensures Strip(s) == s
  {
    assert s[0..] == s;
  }

  function DigitValue(c: char): nat
    requires IsDigit(c)
  {
    c as int - '0' as int
  }

  /** The number a string of decimal digits denotes (leading zeros allowed, as `int()` allows them). */
  function DigitsValue(s: string): nat
    requires AllDigits(s)
    decreases |s|
  {
    if s == [] then 0 else DigitsValue(s[..|s| - 1]) * 10 + DigitValue(s[|s| - 1])
  }

  function Pow10(k: nat): (p: nat)
    ensures p >= 1
  {
    if k == 0 then 1 else 10 * Pow10(k - 1)
  }

  function DigitChar(d: nat): (c: char)
    requires d < 10
    ensures IsDigit(c) && DigitValue(c) == d
  {
    ('0' as int + d) as char
  }

  /** The shortest decimal text of `n`, as `str(n)` writes it; its digits denote `n` again. */
  function NatText(n: nat): (s: string)
    ensures |s| >= 1 && AllDigits(s)
    ensures DigitsValue(s) == n
    decreases n
  {
    if n < 10 then [DigitChar(n)]
    else
      var t := NatText(n / 10);
      var s := t + [DigitChar(n % 10)];
      assert s[..|s| - 1] == t;
      s
  }

  function SignLength(t: string): nat {
    if t != [] && (t[0] == '+' || t[0] == '-') then 1 else 0
  }

  function SignOf(t: string): int {
    if t != [] && t[0] == '-' then -1 else 1
  }

  /** `int(s)`: optional white space, an optional sign, one or more digits, optional white space. */
  function ParseInt(s: string): (r: Option<int>)
    ensures r.Some? ==> Strip(s) != [] && (r.value < 0 ==> Strip(s)[0] == '-')
  {
    var t := Strip(s);
    var k := SignLength(t);
    if k < |t| && AllDigits(t[k..]) then Some(SignOf(t) * DigitsValue(t[k..])) else None
  }

  /** The first position of `c` in `s`, if any. */
  function IndexOf(s: string, c: char): (r: Option<nat>)
    ensures r.Some? ==> r.value < |s| && s[r.value] == c && forall j :: 0 <= j < r.value ==> s[j] != c
    ensures r.None? ==> forall j :: 0 <= j < |s| ==> s[j] != c
    decreases |s|
  {
    if s == [] then None
    else if s[0] == c then Some(0)
    else match IndexOf(s[1..], c)
      case None => None
      case Some(i) => Some(i + 1)
  }

  /** The value of an unsigned decimal literal: digits with at most one point and at least one digit. */
  function DecimalValue(body: string): (r: Option<real>)
    ensures r.Some? ==> body != [] && r.value >= 0.0
  {
    match IndexOf(body, '.')
    case None =>
      if body != [] && AllDigits(body) then Some(DigitsValue(body) as real) else None
    case Some(i) =>
      var whole := body[..i];
      var fraction := body[i + 1..];
      if |whole| + |fraction| > 0 && AllDigits(whole) && AllDigits(fraction)
      then Some(DecimalOf(whole, fraction))
      else None
  }

  /** The number `whole.fraction` denotes. */
  function DecimalOf(whole: string, fraction: string): (x: real)
    requires AllDigits(whole) && AllDigits(fraction)
    ensures x >= 0.0
  {
    DigitsValue(whole) as real + DigitsValue(fraction) as real / Pow10(|fraction|) as real
  }

  /** `float(s)` for plain decimal notation: white space, an optional sign, a decimal literal. */
  function ParseFloat(s: string): (r: Option<real>)
    ensures r.Some? ==> Strip(s) != [] && (r.value < 0.0 ==> Strip(s)[0] == '-')
  {
    var t := Strip(s);
    var k := SignLength(t);
    match DecimalValue(t[k..])
    case None => None
    case Some(m) => Some(SignOf(t) as real * m)
  }

  /** `int(str(n)) == n`. */
  lemma ParseIntNatText(n: nat)
    ensures ParseInt(NatText(n)) == Some(n)
  {
    var s := NatText(n);
    StripUnpadded(s);
    assert s[0..] == s;
  }

  /** `int()` skips white space around the digits: `int(w1 + str(n) + w2) == n`. */
  lemma ParseIntPadded(w1: string, n: nat, w2: string)
    requires forall j :: 0 <= j < |w1| ==> IsSpace(w1[j])
    requires forall j :: 0 <= j < |w2| ==> IsSpace(w2[j])
    ensures ParseInt(w1 + NatText(n) + w2) == Some(n)
  {
    var d := NatText(n);
    assert !IsSpace(d[0]) && !IsSpace(d[|d| - 1]);
    StripPadded(w1, d, w2);
    StripUnpadded(d);
    ParseIntNatText(n);
  }

  /** `int('-' + str(n)) == -n`. */
  lemma ParseIntNegative(n: nat)
    ensures ParseInt("-" + NatText(n)) == Some(-(n as int))
  {
    var d := NatText(n);
    var s := "-" + d;
    assert Strip(s) == s by {
      assert s[|s| - 1] == d[|d| - 1];
      StripUnpadded(s);
    }
    assert ParseInt(s) == Some(-1 * DigitsValue(d)) by {
      assert s[1..] == d;
    }
    assert -1 * DigitsValue(d) == -(n as int);
  }

  /** `float()` accepts every text `int()` accepts, with the same value. */
  lemma ParseFloatExtendsParseInt(s: string)
    requires ParseInt(s).Some?
    ensures ParseFloat(s) == Some(ParseInt(s).value as real)
  {
    var t := Strip(s);
    var body := t[SignLength(t)..];
    assert forall j :: 0 <= j < |body| ==> body[j] != '.';
    assert IndexOf(body, '.').None?;
  }

  lemma IndexOfAfterDigits(a: string, b: string)
    requires AllDigits(a)
    ensures IndexOf(a + "." + b, '.') == Some(|a|)
  {
    var s := a + "." + b;
    assert s[|a|] == '.';
    assert forall j :: 0 <= j < |a| ==> s[j] == a[j] && s[j] != '.';
  }

  /** The value of an unsigned literal `a.b`. */
  lemma DecimalValueOf(a: string, b: string)
    requires AllDigits(a) && AllDigits(b) && |a| + |b| > 0
    ensures DecimalValue(a + "." + b)
         == Some(DecimalOf(a, b))
  {
    var s := a + "." + b;
    IndexOfAfterDigits(a, b);
    var whole, fraction := s[..|a|], s[|a| + 1..];
    assert whole == a;
    assert fraction == b;
    assert |whole| + |fraction| > 0 && AllDigits(whole) && AllDigits(fraction);
    var v := DecimalOf(whole, fraction);
    assert DecimalValue(s) == Some(v);
  }

  /** Unsigned text without surrounding white space is read as its decimal value. */
  lemma ParseFloatPlain(s: string)
    requires s != [] && !IsSpace(s[0]) && !IsSpace(s[|s| - 1]) && s[0] != '+' && s[0] != '-'
    ensures ParseFloat(s) == DecimalValue(s)
  {
    StripUnpadded(s);
    assert SignLength(s) == 0 && SignOf(s) == 1;
    assert s[0..] == s;
  }

  /** The value of `float(a + '.' + b)` for digit strings `a` and `b`, not both empty. */
  lemma ParseFloatDecimal(a: string, b: string)
    requires AllDigits(a) && AllDigits(b) && |a| + |b| > 0
    ensures ParseFloat(a + "." + b)
         == Some(DecimalOf(a, b))
  {
    var s := a + "." + b;
    assert s[0] == if a == [] then '.' else a[0];
    assert s[|s| - 1] == if b == [] then '.' else b[|b| - 1];
    ParseFloatPlain(s);
    DecimalValueOf(a, b);
  }

  lemma ScaleQuotient(x: real, p: real)
    requires p > 0.0
    ensures (10.0 * x) / (10.0 * p) == x / p
  {
    var q := x / p;
    assert x == q * p;
    assert 10.0 * x == q * (10.0 * p);
  }

  /** A trailing zero after the point does not change a decimal's value. */
  lemma DecimalOfTrailingZero(a: string, b: string)
    requires AllDigits(a) && AllDigits(b)
    ensures AllDigits(b + "0") && DecimalOf(a, b + "0") == DecimalOf(a, b)
  {
    var b0 := b + "0";
    assert b0[..|b0| - 1] == b;
    var x, p := DigitsValue(b), Pow10(|b|);
    assert DigitsValue(b0) == 10 * x;
    assert Pow10(|b0|) == 10 * p;
    ScaleQuotient(x as real, p as real);
  }

  /** U+001C is not white space to `int()` or `float()`: `'\x1c8'` is refused by both. */
  lemma ParseRefusesSeparator()
    ensures ParseInt("\U{1c}8") == None && ParseFloat("\U{1c}8") == None
  {
    var t := "\U{1c}8";
    StripUnpadded(t);
    assert SignLength(t) == 0 && t[0..] == t;
    assert !IsDigit(t[0]) && !AllDigits(t);
    assert IndexOf(t, '.') == None;
  }

  /** In the modelled decimal grammar, an unsigned literal with a letter in it has no value. */
  lemma DecimalValueRejectsLetter(body: string, j: int)
    requires 0 <= j < |body| && IsLetter(body[j])
    ensures DecimalValue(body) == None
  {
    match IndexOf(body, '.')
    case None =>
    case Some(p) =>
      if j < p {
        assert body[..p][j] == body[j];
      } else {
        assert body[p + 1..][j - p - 1] == body[j];
      }
  }

  /** Text with a letter in it is not an `int()` literal, nor a float literal of the modelled
      decimal grammar: it fails, it is never read as 0. (`float()` itself also reads exponents,
      `inf` and `nan`, which this grammar leaves out.) */
  lemma ParseRejectsLetter(s: string, i: int)
    requires 0 <= i < |s| && IsLetter(s[i])
    ensures ParseInt(s) == None
    ensures ParseFloat(s) == None
  {
    StripKeepsNonSpace(s, i);
    var t := Strip(s);
    var j :| 0 <= j < |t| && t[j] == s[i];
    var k := SignLength(t);
    assert k <= j;
    var body := t[k..];
    assert body[j - k] == s[i];
    DecimalValueRejectsLetter(body, j - k);
  }
}
