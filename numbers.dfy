/** Number coercion of CSV cells: a model of JavaScript's `parseFloat` over
    decimal text, and the dashboard's `parsePercentage` and
    `parseNumericValue` (Website.js:120-134). */
module Numbers {
  import opened Text

  /** A JavaScript number as the pipeline sees it: NaN or an exact real
      (rounding to binary floating point is not modelled). */
  datatype JsNumber = NaN | Num(value: real)

  predicate IsDigit(c: char) {
    '0' <= c <= '9'
  }

  predicate AllDigits(s: string) {
    forall k :: 0 <= k < |s| ==> IsDigit(s[k])
  }

  function DigitValue(c: char): nat
    requires IsDigit(c)
  {
    c as int - '0' as int
  }

  /** The longest prefix of `s` made of decimal digits. */
  function LeadingDigits(s: string): (ds: string)
    ensures |ds| <= |s| && ds == s[..|ds|] && AllDigits(ds)
    ensures |ds| == |s| || !IsDigit(s[|ds|])
  {
    if s != [] && IsDigit(s[0]) then
      var ds := [s[0]] + LeadingDigits(s[1..]);
      assert s[..|ds|] == [s[0]] + s[1..][..|ds| - 1];
      ds
    else []
  }

  /** The value of a string of decimal digits (0 for the empty string). */
  function DigitsValue(ds: string): nat
    requires AllDigits(ds)
  {
    if ds == [] then 0 else 10 * DigitsValue(ds[..|ds| - 1]) + DigitValue(ds[|ds| - 1])
  }

  /** The value of digits written after a decimal point. */
  function Fraction(fp: string): real
    requires AllDigits(fp)
  {
    if fp == [] then 0.0 else (DigitValue(fp[0]) as real + Fraction(fp[1..])) / 10.0
  }

  /** `x` times ten to the power `e`. */
  function Scale(x: real, e: int): real
    decreases if e >= 0 then e else -e
  {
    if e == 0 then x else if e > 0 then 10.0 * Scale(x, e - 1) else Scale(x, e + 1) / 10.0
  }

  /** The exponent of an ExponentPart (`e` or `E`, an optional sign, at
      least one digit) at the front of `s`; 0 when `s` does not start with
      one, since `parseFloat` then stops before the `e`. */
  function ExponentOf(s: string): int {
    if s != [] && (s[0] == 'e' || s[0] == 'E') then
      var v := s[1..];
      var w := if v != [] && (v[0] == '-' || v[0] == '+') then v[1..] else v;
      var ds := LeadingDigits(w);
      var e: int := DigitsValue(ds);
      if ds == [] then 0
      else if v[0] == '-' then -e
      else e
    else 0
  }

  /** The longest unsigned decimal literal at the front of `u`: digits, an
      optional `.` and digits (one of the two digit runs non-empty), and an
      optional exponent. `NaN` when there is no such prefix. */
  function ParseUnsigned(u: string): JsNumber {
    var ip := LeadingDigits(u);
    var rest := u[|ip|..];
    var dot := rest != [] && rest[0] == '.';
    var fp := if dot then LeadingDigits(rest[1..]) else "";
    if ip == [] && fp == [] then NaN
    else
      var tail := if dot then rest[1 + |fp|..] else rest;
      Num(Scale(DigitsValue(ip) as real + Fraction(fp), ExponentOf(tail)))
  }

  /** JavaScript's `parseFloat` on decimal text: leading white space is
      skipped, an optional sign is read, then the longest decimal literal;
      whatever follows is ignored.  */
  function ParseFloat(s: string): JsNumber {
    var t := TrimStart(s);
    if t != [] && (t[0] == '-' || t[0] == '+') then
      match ParseUnsigned(t[1..])
      case NaN => NaN
      case Num(x) => Num(if t[0] == '-' then -x else x)
    else ParseUnsigned(t)
  }

  /** `parseNumericValue`: blank text is 0; otherwise every `"` and `,` is
      removed and the rest parsed, an unparseable (or zero) result becoming
      0 through `|| 0`. */
  function ParseNumericValue(value: string): real {
    if value == "" || Trim(value) == "" then 0.0
    else
      match ParseFloat(Remove(value, {'"', ','}))
      case Num(x) => x
      case NaN => 0.0
  }

  /** A number divided by 100; NaN stays NaN. */
  function Percent(n: JsNumber): JsNumber {
    match n
    case Num(x) => Num(x / 100.0)
    case NaN => NaN
  }

  /** `parsePercentage`: blank text is 0; otherwise the text with its first
      `%` removed is parsed and divided by 100. A non-numeric body gives NaN. */
  function ParsePercentage(value: string): JsNumber {
    if value == "" || Trim(value) == "" then Num(0.0)
    else
      Percent(ParseFloat(RemoveFirst(value, '%')))
  }

  // ----- Decimal rendering, the inverse used for round trips -----

  function DigitChar(d: nat): (c: char)
    requires d < 10
    ensures IsDigit(c) && DigitValue(c) == d
  {
    ('0' as int + d) as char
  }

  /** The decimal digits of `n`, most significant first, without leading zeros. */
  function ShowNat(n: nat): (s: string)
    ensures |s| >= 1 && AllDigits(s)
  {
    if n < 10 then [DigitChar(n)] else ShowNat(n / 10) + [DigitChar(n % 10)]
  }

  /** Reading back the digits of `n` gives `n`. */
  lemma {:induction false} DigitsValueShowNat(n: nat)
    ensures DigitsValue(ShowNat(n)) == n
  {
    if n >= 10 {
      var s := ShowNat(n);
      assert s[..|s| - 1] == ShowNat(n / 10);
      DigitsValueShowNat(n / 10);
    } else {
      assert ShowNat(n)[..0] == [];
    }
  }

  /** A non-empty run of digits alone is read as its value. */
  lemma ParseUnsignedDigits(ds: string)
    requires ds != [] && AllDigits(ds)
    ensures ParseUnsigned(ds) == Num(DigitsValue(ds) as real)
  {
    var ip := LeadingDigits(ds);
    assert ip == ds;
    assert ds[|ip|..] == [];
    assert ExponentOf([]) == 0;
  }

  /** `parseFloat` reads a non-empty run of digits as its value. */
  lemma ParseFloatDigits(ds: string)
    requires ds != [] && AllDigits(ds)
    ensures ParseFloat(ds) == Num(DigitsValue(ds) as real)
  {
    TrimStartDigit(ds);
    ParseUnsignedDigits(ds);
  }

  /** `parseFloat` reads a rendered natural number back exactly. */
  lemma ParseFloatShowNat(n: nat)
    ensures ParseFloat(ShowNat(n)) == Num(n as real)
  {
    var s := ShowNat(n);
    ParseFloatDigits(s);
    DigitsValueShowNat(n);
  }

  /** `parseFloat` of blank text is NaN. */
  lemma ParseFloatBlank(s: string)
    requires IsBlank(s)
    ensures ParseFloat(s) == NaN
  {
    assert TrimStart(s) == [];
  }

  /** A decimal literal needs a digit: without one, nothing is read. */
  lemma ParseUnsignedNeedsDigit(u: string)
    requires forall k :: 0 <= k < |u| ==> !IsDigit(u[k])
    ensures ParseUnsigned(u) == NaN
  {
    assert LeadingDigits(u) == [];
    assert u[0..] == u;
    if u != [] && u[0] == '.' {
      assert forall k :: 0 <= k < |u[1..]| ==> !IsDigit(u[1..][k]);
      assert LeadingDigits(u[1..]) == [];
    }
  }

  /** A number needs a digit: text without a decimal digit parses to NaN. */
  lemma ParseFloatNeedsDigit(s: string)
    requires forall k :: 0 <= k < |s| ==> !IsDigit(s[k])
    ensures ParseFloat(s) == NaN
  {
    var t := TrimStart(s);
    assert forall k :: 0 <= k < |t| ==> t[k] == s[|s| - |t| + k];
    if t != [] && (t[0] == '-' || t[0] == '+') {
      assert forall k :: 0 <= k < |t[1..]| ==> !IsDigit(t[1..][k]);
      ParseUnsignedNeedsDigit(t[1..]);
    } else {
      ParseUnsignedNeedsDigit(t);
    }
  }

  lemma {:induction false} RemoveIdempotent(s: string, cs: set<char>)
    ensures Remove(Remove(s, cs), cs) == Remove(s, cs)
  {
    if s != [] {
      RemoveIdempotent(s[1..], cs);
      if s[0] in cs {
        assert Remove(s, cs) == Remove(s[1..], cs);
      } else {
        assert Remove(s, cs) == [s[0]] + Remove(s[1..], cs);
        assert Remove(s, cs)[1..] == Remove(s[1..], cs);
      }
    }
  }

  lemma {:induction false} RemoveKeepsBlank(s: string, cs: set<char>)
    requires IsBlank(s)
    ensures IsBlank(Remove(s, cs))
  {
    if s != [] {
      RemoveKeepsBlank(s[1..], cs);
    }
  }

  /** `parseNumericValue` ignores quotes and thousands separators: removing
      them first changes nothing, so "1,234" and "1234" read alike. */
  lemma NumericIgnoresQuotesAndCommas(s: string)
    ensures ParseNumericValue(s) == ParseNumericValue(Remove(s, {'"', ','}))
  {
    var cs := {'"', ','};
    var r := Remove(s, cs);
    RemoveIdempotent(s, cs);
    TrimBlank(s);
    TrimBlank(r);
    if IsBlank(s) {
      RemoveKeepsBlank(s, cs);
    } else if IsBlank(r) {
      ParseFloatBlank(r);
    }
  }

  /** Round trip: a rendered natural number is read back exactly. */
  lemma NumericRoundTrip(n: nat)
    ensures ParseNumericValue(ShowNat(n)) == n as real
  {
    var s := ShowNat(n);
    assert !IsWhite(s[0]);
    TrimBlank(s);
    assert Remove(s, {'"', ','}) == s by {
      RemoveNoOp(s, {'"', ','});
    }
    ParseFloatShowNat(n);
  }

  lemma {:induction false} RemoveNoOp(s: string, cs: set<char>)
    requires forall k :: 0 <= k < |s| ==> s[k] !in cs
    ensures Remove(s, cs) == s
  {
    if s != [] {
      RemoveNoOp(s[1..], cs);
    }
  }

  /** On non-blank text `parsePercentage` is `parseFloat` without the first
      `%`, divided by 100. */
  lemma PercentageNonBlank(value: string)
    requires !IsBlank(value)
    ensures ParsePercentage(value) == Percent(ParseFloat(RemoveFirst(value, '%')))
  {
    TrimBlank(value);
  }

  /** A non-blank percentage without a digit has no numeric body: the
      result is NaN, not 0. */
  lemma PercentageNeedsDigit(s: string)
    requires !IsBlank(s) && forall k :: 0 <= k < |s| ==> !IsDigit(s[k])
    ensures ParsePercentage(s) == NaN
  {
    PercentageNonBlank(s);
    var t := RemoveFirst(s, '%');
    RemoveFirstKeeps(s, '%');
    forall k | 0 <= k < |t| ensures !IsDigit(t[k]) {
      assert t[k] in t;
    }
    ParseFloatNeedsDigit(t);
  }

  /** Round trip: a rendered whole percentage reads back as its decimal
      fraction, "45%" as 0.45. */
  lemma PercentageRoundTrip(n: nat)
    ensures ParsePercentage(ShowNat(n) + "%") == Num(n as real / 100.0)
  {
    var s := ShowNat(n);
    PercentageDigits(s);
    DigitsValueShowNat(n);
    assert ParsePercentage(s + "%") == Num(DigitsValue(s) as real / 100.0);
  }

  /** A run of digits followed by `%` reads as its value divided by 100. */
  lemma PercentageDigits(ds: string)
    requires ds != [] && AllDigits(ds)
    ensures ParsePercentage(ds + "%") == Num(DigitsValue(ds) as real / 100.0)
  {
    assert '%' !in ds by {
      assert forall k :: 0 <= k < |ds| ==> IsDigit(ds[k]);
    }
    PercentageAppended(ds);
    ParseFloatDigits(ds);
  }

  /** Digits followed by a non-digit: the digit run is exactly the digits. */
  lemma {:induction false} LeadingDigitsOf(ds: string, rest: string)
    requires AllDigits(ds) && (rest == [] || !IsDigit(rest[0]))
    ensures LeadingDigits(ds + rest) == ds
  {
    if ds != [] {
      assert (ds + rest)[1..] == ds[1..] + rest;
      LeadingDigitsOf(ds[1..], rest);
    }
  }

  /** Text led by a digit has no white space to skip. */
  lemma TrimStartDigit(s: string)
    requires s != [] && IsDigit(s[0])
    ensures TrimStart(s) == s
  {
  }

  /** A literal whose integer digits are followed by `.` and digits that end
      the text is the integer part plus the fraction. */
  lemma ParseUnsignedPoint(u: string, ip: string, fp: string)
    requires ip != [] && LeadingDigits(u) == ip
    requires |ip| < |u| && u[|ip|] == '.' && LeadingDigits(u[|ip| + 1..]) == fp
    requires |u| == |ip| + 1 + |fp|
    ensures ParseUnsigned(u) == Num(DigitsValue(ip) as real + Fraction(fp))
  {
    var rest := u[|ip|..];
    assert rest[1..] == u[|ip| + 1..];
    assert rest[1 + |fp|..] == [];
    assert ExponentOf([]) == 0;
  }

  /** "digits.digits" is read as the integer part plus the fraction. */
  lemma ParseUnsignedDecimal(ip: string, fp: string)
    requires ip != [] && AllDigits(ip) && AllDigits(fp)
    ensures ParseUnsigned(ip + "." + fp) == Num(DigitsValue(ip) as real + Fraction(fp))
  {
    var u := ip + "." + fp;
    LeadingDigitsOf(ip, "." + fp);
    assert u == ip + ("." + fp);
    LeadingDigitsOf(fp, []);
    assert u[|ip| + 1..] == fp + [];
    ParseUnsignedPoint(u, ip, fp);
  }

  /** `parseFloat` reads "digits.digits" as the integer part plus the fraction. */
  lemma ParseFloatDecimal(ip: string, fp: string)
    requires ip != [] && AllDigits(ip) && AllDigits(fp)
    ensures ParseFloat(ip + "." + fp) == Num(DigitsValue(ip) as real + Fraction(fp))
  {
    var s := ip + "." + fp;
    assert s[0] == ip[0];
    TrimStartDigit(s);
    ParseUnsignedDecimal(ip, fp);
  }

  /** Text not starting with white space is not blank, so `parseNumericValue`
      does not read it as 0 outright. */
  lemma NotBlankAtStart(s: string)
    requires s != [] && !IsWhite(s[0])
    ensures Trim(s) != ""
  {
    TrimBlank(s);
  }

  /** Text of digits, points and minus signs holds no quote and no comma,
      so `parseNumericValue` passes it to `parseFloat` unchanged. */
  lemma PlainNumberText(s: string)
    requires forall k :: 0 <= k < |s| ==> IsDigit(s[k]) || s[k] == '.' || s[k] == '-'
    ensures Remove(s, {'"', ','}) == s
  {
    forall k | 0 <= k < |s|
      ensures s[k] !in {'"', ','}
    {
      assert IsDigit(s[k]) || s[k] == '.' || s[k] == '-';
    }
    RemoveNoOp(s, {'"', ','});
  }

  /** The characters of "digits.digits" are digits and the point. */
  lemma DecimalChars(ip: string, fp: string)
    requires AllDigits(ip) && AllDigits(fp)
    ensures var s := ip + "." + fp;
            forall k :: 0 <= k < |s| ==> IsDigit(s[k]) || s[k] == '.'
  {
    var s := ip + "." + fp;
    forall k | 0 <= k < |s|
      ensures IsDigit(s[k]) || s[k] == '.'
    {
      if k < |ip| {
        assert s[k] == ip[k];
      } else if k > |ip| {
        assert s[k] == fp[k - |ip| - 1];
      }
    }
  }

  /** `parseNumericValue` reads "digits.digits" back as its decimal value. */
  lemma NumericDecimalRoundTrip(ip: string, fp: string)
    requires ip != [] && AllDigits(ip) && AllDigits(fp)
    ensures ParseNumericValue(ip + "." + fp) == DigitsValue(ip) as real + Fraction(fp)
  {
    var s := ip + "." + fp;
    DecimalChars(ip, fp);
    assert s[0] == ip[0];
    NotBlankAtStart(s);
    PlainNumberText(s);
    ParseFloatDecimal(ip, fp);
  }

  /** A minus sign in front of an unsigned literal negates what `parseFloat` reads. */
  lemma ParseFloatMinus(u: string, x: real)
    requires ParseUnsigned(u) == Num(x)
    ensures ParseFloat("-" + u) == Num(-x)
  {
    var s := "-" + u;
    assert !IsWhite(s[0]);
    assert TrimStart(s) == s;
    assert s[1..] == u;
  }

  /** `parseNumericValue` reads a minus sign followed by a plain unsigned
      literal as the negated literal. */
  lemma NumericMinus(u: string, x: real)
    requires ParseUnsigned(u) == Num(x)
    requires forall k :: 0 <= k < |u| ==> IsDigit(u[k]) || u[k] == '.'
    ensures ParseNumericValue("-" + u) == -x
  {
    var s := "-" + u;
    assert forall k :: 1 <= k < |s| ==> s[k] == u[k - 1];
    NotBlankAtStart(s);
    PlainNumberText(s);
    ParseFloatMinus(u, x);
  }

  /** `parseNumericValue` reads "-digits.digits" back as its negative value. */
  lemma NumericNegativeDecimalRoundTrip(ip: string, fp: string)
    requires ip != [] && AllDigits(ip) && AllDigits(fp)
    ensures ParseNumericValue("-" + (ip + "." + fp)) == -(DigitsValue(ip) as real + Fraction(fp))
  {
    DecimalChars(ip, fp);
    ParseUnsignedDecimal(ip, fp);
    NumericMinus(ip + "." + fp, DigitsValue(ip) as real + Fraction(fp));
  }

  /** `parseNumericValue` reads the rendering of `n` with a minus sign back as `-n`. */
  lemma NumericNegativeRoundTrip(n: nat)
    ensures ParseNumericValue("-" + ShowNat(n)) == -(n as real)
  {
    var d := ShowNat(n);
    ParseUnsignedDigits(d);
    DigitsValueShowNat(n);
    NumericMinus(d, n as real);
  }

  /** Removing the first `c` from text that ends with its only `c` drops that end. */
  lemma {:induction false} RemoveFirstAppended(d: string, c: char)
    requires c !in d
    ensures RemoveFirst(d + [c], c) == d
  {
    if d != [] {
      assert (d + [c])[1..] == d[1..] + [c];
      RemoveFirstAppended(d[1..], c);
    }
  }

  /** Digit-led text without a `%`, with a `%` appended, reads as its own
      value divided by 100. */
  lemma PercentageAppended(d: string)
    requires d != [] && IsDigit(d[0]) && '%' !in d
    ensures ParsePercentage(d + "%") == Percent(ParseFloat(d))
  {
    var p := d + "%";
    assert p[0] == d[0];
    PercentageNonBlank(p);
    RemoveFirstAppended(d, '%');
  }

  /** A decimal literal holds no `%`. */
  lemma DecimalNoPercent(ip: string, fp: string)
    requires AllDigits(ip) && AllDigits(fp)
    ensures '%' !in ip + "." + fp
  {
    var d := ip + "." + fp;
    forall k | 0 <= k < |d|
      ensures d[k] != '%'
    {
      if k < |ip| {
        assert d[k] == ip[k];
      } else if k > |ip| {
        assert d[k] == fp[k - |ip| - 1];
      }
    }
  }

  /** A percentage whose body parses to `v` is `v / 100`. */
  lemma PercentageOfParsed(d: string, v: real)
    requires d != [] && IsDigit(d[0]) && '%' !in d && ParseFloat(d) == Num(v)
    ensures ParsePercentage(d + "%") == Num(v / 100.0)
  {
    PercentageAppended(d);
  }

  /** `parsePercentage` reads "digits.digits%" as that decimal divided by 100. */
  lemma PercentageDecimal(ip: string, fp: string, v: real)
    requires ip != [] && AllDigits(ip) && AllDigits(fp)
    requires v == DigitsValue(ip) as real + Fraction(fp)
    ensures ParsePercentage(ip + "." + fp + "%") == Num(v / 100.0)
  {
    DecimalShape(ip, fp);
    PercentageOfParsed(ip + "." + fp, v);
  }

  /** The body `ip.fp` of a decimal percentage starts with a digit, holds
      no `%`, and parses to its value. */
  lemma DecimalShape(ip: string, fp: string)
    requires ip != [] && AllDigits(ip) && AllDigits(fp)
    ensures var d := ip + "." + fp;
      d != [] && IsDigit(d[0]) && '%' !in d && ParseFloat(d) == Num(DigitsValue(ip) as real + Fraction(fp))
  {
    var d := ip + "." + fp;
    assert d[0] == ip[0];
    DecimalNoPercent(ip, fp);
    ParseFloatDecimal(ip, fp);
  }
}


/** The worked examples of the coercion rules. */
module NumberExamples {
  import opened Text
  import opened Numbers

  lemma DigitsOf45(ip: string)
    requires ip == "45"
    ensures AllDigits(ip) && DigitsValue(ip) == 45
  {
    var four := ip[..1];
    assert four == ['4'] && four[..0] == [];
    assert DigitsValue(four) == 10 * DigitsValue([]) + DigitValue('4') == 4;
    assert DigitsValue(ip) == 10 * DigitsValue(four) + DigitValue('5');
  }

  lemma FractionOf2(fp: string)
    requires fp == "2"
    ensures AllDigits(fp) && Fraction(fp) == 0.2
  {
    assert fp[1..] == [];
  }

  /** "45.2%" is read as 0.452. */
  lemma PercentageExample(s: string)
    requires s == "45.2%"
    ensures ParsePercentage(s) == Num(0.452)
  {
    var ip, fp := "45", "2";
    DecimalText(s, ip, fp);
    DigitsOf45(ip);
    FractionOf2(fp);
    PercentageDecimal(ip, fp, 45.2);
  }

  lemma DecimalText(s: string, ip: string, fp: string)
    requires s == "45.2%" && ip == "45" && fp == "2"
    ensures s == ip + "." + fp + "%"
  {
  }

  lemma RemoveSeparatorExample(s: string, t: string)
    requires s == "1,234" && t == "1234"
    ensures Remove(s, {'"', ','}) == t
  {
    var cs := {'"', ','};
    assert s[1..] == [','] + t[1..] && s[2..] == t[1..];
    RemoveNoOp(t[1..], cs);
    assert Remove(s[1..], cs) == t[1..];
  }

  lemma ShowNatExample(t: string)
    requires t == "1234"
    ensures ShowNat(1234) == t
  {
    assert ShowNat(1) == "1";
    assert ShowNat(12) == ShowNat(1) + "2";
    assert ShowNat(123) == ShowNat(12) + "3";
  }

  /** "1,234" is read as 1234. */
  lemma ThousandsExample(s: string)
    requires s == "1,234"
    ensures ParseNumericValue(s) == 1234.0
  {
    var t := "1234";
    RemoveSeparatorExample(s, t);
    NumericIgnoresQuotesAndCommas(s);
    ShowNatExample(t);
    NumericRoundTrip(1234);
  }

  /** Text without a digit is read as 0, and so is empty text, by both helpers. */
  lemma NonNumericExample(s: string, e: string)
    requires s == "abc" && e == ""
    ensures ParseNumericValue(s) == 0.0
    ensures ParseNumericValue(e) == 0.0 && ParsePercentage(e) == Num(0.0)
  {
    assert !IsWhite(s[0]);
    TrimBlank(s);
    assert Remove("abc", {'"', ','}) == "abc";
    ParseFloatNeedsDigit(Remove(s, {'"', ','}));
  }

  /** "abc%" has no numeric body: NaN. */
  lemma NonNumericPercentageExample(s: string)
    requires s == "abc%"
    ensures ParsePercentage(s) == NaN
  {
    assert !IsWhite(s[0]);
    PercentageNeedsDigit(s);
  }
}
