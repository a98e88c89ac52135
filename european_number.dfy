/** The two number conversions of `MainBackend` (main.py:18-41): reading a
    number written the European way ("1.234,56") and writing a number that
    way with a fixed count of fractional digits.

    A number is a `Decimal`: a sign, a coefficient and a count of
    fractional digits; the value it denotes is a `real`. */
module EuropeanNumber {
  import opened Strings
  import opened Decimals

  // ---------------------------------------------------------------------
  // parse_european_number
  // ---------------------------------------------------------------------

  /** The rewrite before conversion: strip the ends, drop every '.'
      (thousands separator), turn every ',' into '.' (decimal point). */
  function Normalize(s: string): (r: string)
    ensures Count(r, ',') == 0
  {
    ReplaceCharCount(RemoveChar(Strip(s), '.'), ',', '.');
    ReplaceChar(RemoveChar(Strip(s), '.'), ',', '.')
  }

  /** After the rewrite no ',' is left, the only '.' are the former ',',
      and the digits are those of the input, in their order. */
  lemma NormalizeKeepsDigits(s: string)
    ensures Count(Normalize(s), ',') == 0
    ensures Count(Normalize(s), '.') == Count(s, ',')
    ensures DigitsOf(Normalize(s)) == DigitsOf(s)
  {
    var t := RemoveChar(Strip(s), '.');
    StripKeeps(s, '.');
    StripKeeps(s, ',');
    StripKeepsDigits(s);
    ReplaceCharCount(t, ',', '.');
    RemoveCharKeeps(Strip(s), '.', ',');
    RemoveCharKeepsDigits(Strip(s), '.');
    ReplaceCharKeepsDigits(t, ',', '.');
  }

  /** The rewritten string has no whitespace at either end unless a
      removed '.' stood at an end of the stripped input. */
  lemma NormalizeEnds(s: string)
    requires Strip(s) != [] && Strip(s)[0] != '.' && Strip(s)[|Strip(s)| - 1] != '.'
    ensures Normalize(s) != []
    ensures !IsSpace(Normalize(s)[0]) && !IsSpace(Normalize(s)[|Normalize(s)| - 1])
  {
    RemoveCharEnds(Strip(s), '.');
    ReplaceCharEnds(RemoveChar(Strip(s), '.'), ',', '.');
  }

  /** An unsigned decimal literal: digits with at most one '.', and at
      least one digit on one side of it. The coefficient is all the
      digits, `places` the count of digits after the '.'. */
  function ParseUnsigned(body: string): (r: Option<Decimal>)
    ensures r.Some? ==> Count(body, '.') <= 1
  {
    var parts := SplitOn(body, '.');
    if |parts| > 2 then None
    else
      var whole := parts[0];
      var fraction := if |parts| == 2 then parts[1] else [];
      if !AllDigits(whole) || !AllDigits(fraction) || |whole| + |fraction| == 0 then None
      else
        AllDigitsConcat(whole, fraction);
        Some(Decimal(false, DigitsValue(whole + fraction), |fraction|))
  }

  /** The characters of a literal `Decimal` accepts here: digits and
      '.', with one sign allowed in front. */
  predicate LiteralChars(u: string) {
    forall k :: 0 <= k < |u| ==> IsDigit(u[k]) || u[k] == '.' || (k == 0 && (u[k] == '+' || u[k] == '-'))
  }

  /** `Decimal(t)` for the literals this model covers: surrounding
      whitespace, an optional sign, then an unsigned literal. Any other
      character makes it fail. */
  function ParseDecimal(t: string): (r: Option<Decimal>)
    ensures r.Some? ==> LiteralChars(Strip(t))
  {
    var u := Strip(t);
    var signed := u != [] && (u[0] == '-' || u[0] == '+');
    var r := ParseUnsigned(if signed then u[1..] else u);
    if r.Some? then
      UnsignedChars(if signed then u[1..] else u);
      if signed && u[0] == '-' then Negate(r) else r
    else r
  }

  /** An accepted unsigned literal holds only digits and '.'. */
  lemma UnsignedChars(body: string)
    requires ParseUnsigned(body).Some?
    ensures forall k :: 0 <= k < |body| ==> IsDigit(body[k]) || body[k] == '.'
  {
    var parts := SplitOn(body, '.');
    JoinSplit(body, '.');
    if |parts| == 2 {
      var w, f := parts[0], parts[1];
      assert body == w + ['.'] + f;
      forall k | 0 <= k < |body|
        ensures IsDigit(body[k]) || body[k] == '.'
      {
        if k < |w| {
          assert body[k] == w[k];
        } else if k > |w| {
          assert body[k] == f[k - |w| - 1];
        }
      }
    }
  }

  /** An accepted unsigned literal has at most one '.' and some digit. */
  lemma UnsignedNeedsDigits(body: string)
    requires ParseUnsigned(body).Some?
    ensures Count(body, '.') <= 1 && DigitsOf(body) != []
  {
    var parts := SplitOn(body, '.');
    JoinSplit(body, '.');
    if |parts| == 2 {
      assert JoinWith(parts, '.') == parts[0] + ['.'] + parts[1];
      DigitsOfConcat(parts[0] + ['.'], parts[1]);
      DigitsOfConcat(parts[0], ['.']);
      DigitsOfDigits(parts[0]);
      DigitsOfDigits(parts[1]);
    } else {
      DigitsOfDigits(parts[0]);
    }
  }

  /** An accepted literal has at most one decimal point and some digit. */
  lemma ParseDecimalNeedsDigits(t: string)
    requires ParseDecimal(t).Some?
    ensures Count(t, '.') <= 1 && DigitsOf(t) != []
  {
    var u := Strip(t);
    StripKeeps(t, '.');
    StripKeepsDigits(t);
    var signed := u != [] && (u[0] == '-' || u[0] == '+');
    assert ParseUnsigned(if signed then u[1..] else u).Some?;
    if signed {
      UnsignedNeedsDigits(u[1..]);
      SignedBody(u);
    } else {
      UnsignedNeedsDigits(u);
    }
  }

  /** A sign in front adds no '.' and no digit. */
  lemma SignedBody(u: string)
    requires u != [] && (u[0] == '-' || u[0] == '+')
    ensures Count(u, '.') == Count(u[1..], '.') && DigitsOf(u) == DigitsOf(u[1..])
  {
    assert u == [u[0]] + u[1..];
    CountConcat([u[0]], u[1..], '.');
    DigitsOfConcat([u[0]], u[1..]);
  }

  /** Digits, a '.', and digits: the coefficient is all the digits,
      `places` the count of digits after the '.'. */
  lemma ParseUnsignedPoint(w: string, f: string)
    requires AllDigits(w) && AllDigits(f) && |w| + |f| > 0
    ensures AllDigits(w + f)
    ensures ParseUnsigned(w + "." + f) == Some(Decimal(false, DigitsValue(w + f), |f|))
  {
    CountNonDigit(w, '.');
    CountNonDigit(f, '.');
    AllDigitsConcat(w, f);
    var body := w + "." + f;
    assert JoinWith([w, f], '.') == body;
    SplitJoin([w, f], '.');
    var parts := SplitOn(body, '.');
    assert |parts| == 2 && parts[0] == w && parts[1] == f;
  }

  /** `parse_european_number`: `None` is the `decimal.InvalidOperation`
      that `Decimal` raises on a malformed literal. A string with two
      decimal commas, or with no digit at all, is never a number. */
  function ParseEuropean(s: string): (r: Option<Decimal>)
    ensures r.Some? ==> Count(s, ',') <= 1 && DigitsOf(s) != []
  {
    var r := ParseDecimal(Normalize(s));
    NormalizeKeepsDigits(s);
    if r.Some? then ParseDecimalNeedsDigits(Normalize(s)); r else r
  }

  /** The parser strips its input first: surrounding whitespace changes
      nothing. */
  lemma ParseEuropeanStrip(s: string)
    ensures ParseEuropean(s) == ParseEuropean(Strip(s))
  {
    var t := Strip(s);
    if t != [] {
      StripUnchanged(t);
    }
    assert Strip(t) == t;
    assert Normalize(t) == Normalize(s);
  }

  /** A character the rewrite neither deletes nor replaces, and which is
      not whitespace, is counted as often in the literal handed to
      `Decimal` (after its own strip) as in the input. */
  lemma NormalizeKeeps(s: string, c: char)
    requires c != '.' && c != ',' && !IsSpace(c)
    ensures Count(Strip(Normalize(s)), c) == Count(s, c)
  {
    var t := RemoveChar(Strip(s), '.');
    StripKeeps(Normalize(s), c);
    ReplaceCharKeeps(t, ',', '.', c);
    RemoveCharKeeps(Strip(s), '.', c);
    StripKeeps(s, c);
  }

  /** A character of a text read as a number: whitespace, a digit, one
      of the two separators, or a sign. */
  predicate EuropeanChar(c: char) {
    IsSpace(c) || IsDigit(c) || c == '.' || c == ',' || c == '+' || c == '-'
  }

  /** A text that is read as a number holds only whitespace, digits, the
      two separators and at most one sign: `parse_european_number` fails
      on every other character (a letter, say). */
  lemma ParseEuropeanChars(s: string)
    requires ParseEuropean(s).Some?
    ensures forall k :: 0 <= k < |s| ==> EuropeanChar(s[k])
    ensures Count(s, '+') + Count(s, '-') <= 1
  {
    forall k | 0 <= k < |s|
      ensures EuropeanChar(s[k])
    {
      CountZero(s, s[k]);
      OnlyEuropeanChars(s, s[k]);
    }
    ParseEuropeanSigns(s);
  }

  /** A text read as a number holds at most one sign. */
  lemma ParseEuropeanSigns(s: string)
    requires ParseEuropean(s).Some?
    ensures Count(s, '+') + Count(s, '-') <= 1
  {
    ParseEuropeanLiteral(s);
    NormalizeSigns(s);
  }

  /** A text whose rewrite is a literal holds at most one sign. */
  lemma NormalizeSigns(s: string)
    requires LiteralChars(Strip(Normalize(s)))
    ensures Count(s, '+') + Count(s, '-') <= 1
  {
    LiteralSigns(Strip(Normalize(s)));
    NormalizeKeepsSign(s, '+');
    NormalizeKeepsSign(s, '-');
  }

  /** The rewrite keeps every sign. */
  lemma NormalizeKeepsSign(s: string, c: char)
    requires c == '+' || c == '-'
    ensures Count(Strip(Normalize(s)), c) == Count(s, c)
  {
    NormalizeKeeps(s, c);
  }

  /** What a text read as a number hands to `Decimal` is a literal. */
  lemma ParseEuropeanLiteral(s: string)
    requires ParseEuropean(s).Some?
    ensures LiteralChars(Strip(Normalize(s)))
  {
    assert ParseDecimal(Normalize(s)).Some?;
  }

  /** A character that occurs in a text read as a number is one of those
      `EuropeanChar` admits. */
  lemma OnlyEuropeanChars(s: string, c: char)
    requires ParseEuropean(s).Some? && Count(s, c) > 0
    ensures EuropeanChar(c)
  {
    if !EuropeanChar(c) {
      var u := Strip(Normalize(s));
      ParseEuropeanLiteral(s);
      NormalizeKeeps(s, c);
      CountZero(u, c);
      assert false;
    }
  }

  /** A literal holds at most one sign. */
  lemma LiteralSigns(u: string)
    requires LiteralChars(u)
    ensures Count(u, '+') + Count(u, '-') <= 1
  {
    if u != [] {
      assert Avoids(u[1..], '+') && Avoids(u[1..], '-');
      CountZero(u[1..], '+');
      CountZero(u[1..], '-');
    }
  }

  // ---------------------------------------------------------------------
  // parse_european_number: every text of the grammar is read
  // ---------------------------------------------------------------------

  /** A run of digits is an unsigned literal without fractional digits. */
  lemma ParseUnsignedWhole(w: string)
    requires AllDigits(w) && w != []
    ensures ParseUnsigned(w) == Some(Decimal(false, DigitsValue(w), 0))
  {
    CountNonDigit(w, '.');
    SplitOnAbsent(w, '.');
    assert w + [] == w;
  }

  /** The signs `Decimal` takes in front of a literal: none, '+' or '-'. */
  predicate IsSignText(sign: string) {
    sign == "" || sign == "+" || sign == "-"
  }

  /** With a sign in front of a body that has no whitespace at its ends
      and no sign of its own, `Decimal` reads the body, negated after a
      '-'. */
  lemma ParseDecimalSign(sign: string, body: string)
    requires IsSignText(sign)
    requires body != [] && !IsSpace(body[0]) && !IsSpace(body[|body| - 1])
    requires body[0] != '+' && body[0] != '-'
    ensures ParseDecimal(sign + body) == if sign == "-" then Negate(ParseUnsigned(body)) else ParseUnsigned(body)
  {
    var t := sign + body;
    assert t[|t| - 1] == body[|body| - 1];
    if sign == "" {
      assert t == body;
    } else {
      assert t[0] == sign[0] && t[1..] == body;
    }
    StripUnchanged(t);
  }

  /** Every literal with a point is read: an optional sign, digits, '.'
      and digits, with a digit on at least one side (".5" is 0.5, "5." is
      5). The coefficient is all the digits, `places` the count after
      the '.', and the sign is set exactly after a '-'. */
  lemma ParseDecimalPoint(sign: string, w: string, f: string)
    requires IsSignText(sign) && AllDigits(w) && AllDigits(f) && |w| + |f| > 0
    ensures ParseDecimal(sign + (w + "." + f)) == Some(Decimal(sign == "-", DigitsValue(w + f), |f|))
  {
    var body := w + "." + f;
    assert body[0] == if w != [] then w[0] else '.';
    assert body[|body| - 1] == if f != [] then f[|f| - 1] else '.';
    ParseDecimalSign(sign, body);
    ParseUnsignedPoint(w, f);
  }

  /** Every literal without a point is read: an optional sign and
      digits give that integer, with the sign set exactly after a '-'. */
  lemma ParseDecimalWhole(sign: string, w: string)
    requires IsSignText(sign) && AllDigits(w) && w != []
    ensures ParseDecimal(sign + w) == Some(Decimal(sign == "-", DigitsValue(w), 0))
  {
    ParseDecimalSign(sign, w);
    ParseUnsignedWhole(w);
  }

  /** Digits with thousands separators. */
  predicate DigitsAndDots(w: string) {
    forall k :: 0 <= k < |w| ==> IsDigit(w[k]) || w[k] == '.'
  }

  /** Deleting the separators leaves the digits. */
  lemma {:induction false} DotsRemoved(w: string)
    requires DigitsAndDots(w)
    ensures RemoveChar(w, '.') == DigitsOf(w)
  {
    if w != [] {
      DotsRemoved(w[1..]);
    }
  }

  /** A sign holds no '.' and no ','. */
  lemma SignNoMarks(sign: string)
    requires IsSignText(sign)
    ensures Count(sign, '.') == 0 && Count(sign, ',') == 0
  {
  }

  /** The rewrite of a sign, grouped digits, ',' and digits: the
      separators go and the ',' becomes the point. */
  lemma NormalizeComma(sign: string, w: string, f: string)
    requires IsSignText(sign) && DigitsAndDots(w) && AllDigits(f)
    ensures Normalize(sign + w + "," + f) == sign + (DigitsOf(w) + "." + f)
  {
    var s := sign + w + "," + f;
    CommaEnds(sign, w, f);
    StripUnchanged(s);
    CommaDotsRemoved(sign, w, f);
    CommaReplaced(sign, DigitsOf(w), f);
  }

  /** Deleting the separators from a sign, grouped digits, ',' and
      digits leaves the sign, the digits, ',' and the digits. */
  lemma CommaDotsRemoved(sign: string, w: string, f: string)
    requires IsSignText(sign) && DigitsAndDots(w) && AllDigits(f)
    ensures RemoveChar(sign + w + "," + f, '.') == sign + DigitsOf(w) + "," + f
  {
    SignNoMarks(sign);
    CountNonDigit(f, '.');
    DotsRemoved(w);
    RemoveCharConcat(sign + w + ",", f, '.');
    RemoveCharConcat(sign + w, ",", '.');
    RemoveCharConcat(sign, w, '.');
    RemoveCharAbsent(sign, '.');
    RemoveCharAbsent(f, '.');
    assert RemoveChar(",", '.') == ",";
  }

  /** Turning the ',' of a sign, digits, ',' and digits into '.'. */
  lemma CommaReplaced(sign: string, v: string, f: string)
    requires IsSignText(sign) && AllDigits(v) && AllDigits(f)
    ensures ReplaceChar(sign + v + "," + f, ',', '.') == sign + (v + "." + f)
  {
    SignNoMarks(sign);
    CountNonDigit(v, ',');
    CountNonDigit(f, ',');
    ReplaceCharConcat(sign + v + ",", f, ',', '.');
    ReplaceCharConcat(sign + v, ",", ',', '.');
    ReplaceCharConcat(sign, v, ',', '.');
    ReplaceCharAbsent(sign, ',', '.');
    ReplaceCharAbsent(v, ',', '.');
    ReplaceCharAbsent(f, ',', '.');
    assert ReplaceChar(",", ',', '.') == ".";
    Regroup(sign, v, ".", f);
  }

  /** A sign, grouped digits, ',' and digits start and end with no
      whitespace. */
  lemma CommaEnds(sign: string, w: string, f: string)
    requires IsSignText(sign) && DigitsAndDots(w) && AllDigits(f)
    ensures var s := sign + w + "," + f;
      s != [] && !IsSpace(s[0]) && !IsSpace(s[|s| - 1])
  {
    var s := sign + w + "," + f;
    assert s[|s| - 1] == if f != [] then f[|f| - 1] else ',';
    assert s[0] == if sign != [] then sign[0] else if w != [] then w[0] else ',';
  }

  /** Every European number with a decimal comma is read: an optional
      sign, digits with any '.' separators, ',' and digits, with a digit
      on at least one side of the ','. The value is all the digits with
      as many fractional places as follow the ','. */
  lemma ParseEuropeanComma(sign: string, w: string, f: string)
    requires IsSignText(sign) && DigitsAndDots(w) && AllDigits(f)
    requires |DigitsOf(w)| + |f| > 0
    ensures AllDigits(DigitsOf(w) + f)
    ensures ParseEuropean(sign + w + "," + f)
            == Some(Decimal(sign == "-", DigitsValue(DigitsOf(w) + f), |f|))
  {
    AllDigitsConcat(DigitsOf(w), f);
    NormalizeComma(sign, w, f);
    ParseDecimalPoint(sign, DigitsOf(w), f);
  }

  /** The rewrite of a sign and grouped digits: the separators go. */
  lemma NormalizeWhole(sign: string, w: string)
    requires IsSignText(sign) && DigitsAndDots(w) && w != []
    ensures Normalize(sign + w) == sign + DigitsOf(w)
  {
    var s := sign + w;
    var v := DigitsOf(w);
    assert s[|s| - 1] == w[|w| - 1];
    assert s[0] == if sign != [] then sign[0] else w[0];
    StripUnchanged(s);
    SignNoMarks(sign);
    DotsRemoved(w);
    CountNonDigit(v, ',');
    RemoveCharConcat(sign, w, '.');
    RemoveCharAbsent(sign, '.');
    ReplaceCharConcat(sign, v, ',', '.');
    ReplaceCharAbsent(sign, ',', '.');
    ReplaceCharAbsent(v, ',', '.');
  }

  /** Every European integer is read: an optional sign and digits with
      any '.' separators, holding some digit, give the integer the digits
      spell. */
  lemma ParseEuropeanWhole(sign: string, w: string)
    requires IsSignText(sign) && DigitsAndDots(w) && DigitsOf(w) != []
    ensures ParseEuropean(sign + w) == Some(Decimal(sign == "-", DigitsValue(DigitsOf(w)), 0))
  {
    NormalizeWhole(sign, w);
    ParseDecimalWhole(sign, DigitsOf(w));
  }

  /** A plain run of digits is read as the integer it spells. */
  lemma ParseEuropeanDigits(s: string)
    requires s != [] && AllDigits(s)
    ensures ParseEuropean(s) == Some(Decimal(false, DigitsValue(s), 0))
  {
    StripUnchanged(s);
    CountNonDigit(s, '.');
    CountNonDigit(s, ',');
    RemoveCharAbsent(s, '.');
    ReplaceCharAbsent(s, ',', '.');
    SplitOnAbsent(s, '.');
    assert Normalize(s) == s;
    assert SplitOn(s, '.') == [s];
    assert !(s[0] == '-' || s[0] == '+');
    assert s + [] == s;
  }

  // ---------------------------------------------------------------------
  // format_european_number: rounding
  // ---------------------------------------------------------------------

  /** `value` rounded half-even to `places` fractional digits, as an
      integer count of units of `10^-places`. */
  function Scaled(value: real, places: nat): int {
    RoundHalfEven(value * Pow10(places) as real)
  }

  /** The count of units without its sign. */
  function Magnitude(value: real, places: nat): nat {
    var n := Scaled(value, places);
    if n < 0 then -n else n
  }

  /** Rounding keeps the sign: the count of units is the magnitude with
      the sign of `value`. */
  lemma ScaledSign(value: real, places: nat)
    ensures Scaled(value, places) == if value < 0.0 then -(Magnitude(value, places) as int) else Magnitude(value, places)
  {
    RoundHalfEvenFacts(value * Pow10(places) as real);
  }

  /** The rounded value as a `Decimal` with `places` fractional digits
      and the sign of `value`. */
  function Rounded(value: real, places: nat): (r: Decimal)
    ensures r.places == places && r.negative == (value < 0.0)
  {
    Decimal(value < 0.0, Magnitude(value, places), places)
  }

  /** A `Decimal` other than a negative zero, rounded to its own count of
      fractional digits, keeps its sign and its digits. */
  lemma RoundedExact(d: Decimal)
    requires !(d.negative && d.digits == 0)
    ensures Rounded(Value(d), d.places) == d
  {
    ScaledExact(d);
    ValueSign(d);
  }

  /** A `Decimal` scaled to its own count of fractional digits needs no
      rounding. */
  lemma ScaledExact(d: Decimal)
    ensures Scaled(Value(d), d.places) == if d.negative then -(d.digits as int) else d.digits
  {
    var n: int := if d.negative then -(d.digits as int) else d.digits;
    var x := Value(d) * Pow10(d.places) as real;
    ScaledValue(d);
    assert x == n as real && x.Floor == n;
    RoundHalfEvenFacts(x);
  }

  /** A `Decimal` scaled by its own power of ten is its signed coefficient. */
  lemma ScaledValue(d: Decimal)
    ensures Value(d) * Pow10(d.places) as real
            == (if d.negative then -(d.digits as int) else d.digits) as real
  {
    var p := Pow10(d.places) as real;
    assert d.digits as real / p * p == d.digits as real;
  }

  // ---------------------------------------------------------------------
  // format_european_number: the fixed-point text of a sign and a magnitude
  // ---------------------------------------------------------------------

  /** The digits of the magnitude `m` (in units of `10^-places`), with
      zeros on the left up to at least `places + 1` digits, so that at
      least one digit stands before the point. */
  function PaddedDigits(m: nat, places: nat): (d: string)
    ensures |d| > places && AllDigits(d)
    ensures DigitsValue(d) == m
  {
    var s := NatToDecimal(m);
    var pad := if |s| > places then 0 else places + 1 - |s|;
    LeadingZeros(pad, s);
    Zeros(pad) + s
  }

  /** The digits before the point. */
  function WholeDigits(m: nat, places: nat): string {
    var d := PaddedDigits(m, places);
    d[..|d| - places]
  }

  /** The `places` digits after the point. */
  function FractionDigits(m: nat, places: nat): string {
    var d := PaddedDigits(m, places);
    d[|d| - places..]
  }

  /** The two digit runs: at least one digit before the point, exactly
      `places` after it, and together they are the padded digits. */
  lemma DigitRuns(m: nat, places: nat)
    ensures var w, f := WholeDigits(m, places), FractionDigits(m, places);
      && |w| >= 1 && AllDigits(w) && |f| == places && AllDigits(f)
      && PaddedDigits(m, places) == w + f
  {
    var d := PaddedDigits(m, places);
    assert d == d[..|d| - places] + d[|d| - places..];
  }

  /** The whole digits start with '0' only when they are just "0". */
  lemma WholeDigitsCanonical(m: nat, places: nat)
    ensures var w := WholeDigits(m, places);
      |w| >= 1 && (w[0] == '0' ==> |w| == 1)
  {
    var d := PaddedDigits(m, places);
    var s := NatToDecimal(m);
    if |s| <= places {
      var z := Zeros(places + 1 - |s|);
      assert d == z + s;
      assert |WholeDigits(m, places)| == 1;
    } else {
      assert Zeros(0) == [];
      assert d == s;
      assert WholeDigits(m, places)[0] == s[0];
    }
  }

  function Sign(negative: bool): string {
    if negative then "-" else ""
  }

  /** The text before the '.': the sign, then the whole digits. */
  function IntegerPart(negative: bool, m: nat, places: nat): string {
    Sign(negative) + WholeDigits(m, places)
  }

  /** The integer part starts with the sign or a digit and holds no other
      character than the sign and digits. */
  lemma IntegerPartChars(negative: bool, m: nat, places: nat)
    ensures var ip := IntegerPart(negative, m, places);
      && ip != [] && (ip[0] == '-' || IsDigit(ip[0]))
      && forall c :: c != '-' && !IsDigit(c) ==> Count(ip, c) == 0
  {
    var w := WholeDigits(m, places);
    DigitRuns(m, places);
    forall c | c != '-' && !IsDigit(c)
      ensures Count(Sign(negative) + w, c) == 0
    {
      CountConcat(Sign(negative), w, c);
      CountNonDigit(w, c);
    }
  }

  /** `format(value, '.Nf')` for a value of sign `negative` and magnitude
      `m`: a '.' and the fraction only when `places > 0`. */
  function FixedText(negative: bool, m: nat, places: nat): string {
    var ip := IntegerPart(negative, m, places);
    if places == 0 then ip else ip + "." + FractionDigits(m, places)
  }

  /** `format(value, '.Nf')` for a `Decimal` under the default context:
      rounded half-even to `places` digits. */
  function FixedPoint(value: real, places: nat): string {
    FixedText(value < 0.0, Magnitude(value, places), places)
  }

  /** The fixed-point text has one '.' exactly when `places > 0`, and it
      splits there into the integer part and the fraction. */
  lemma FixedTextSplit(negative: bool, m: nat, places: nat)
    ensures places == 0 ==> SplitOn(FixedText(negative, m, places), '.') == [IntegerPart(negative, m, places)]
    ensures places > 0 ==> SplitOn(FixedText(negative, m, places), '.')
                           == [IntegerPart(negative, m, places), FractionDigits(m, places)]
  {
    var ip, fp := IntegerPart(negative, m, places), FractionDigits(m, places);
    IntegerPartChars(negative, m, places);
    DigitRuns(m, places);
    CountNonDigit(fp, '.');
    if places == 0 {
      assert FixedText(negative, m, places) == ip;
      SplitOnAbsent(ip, '.');
    } else {
      assert JoinWith([ip, fp], '.') == FixedText(negative, m, places);
      SplitJoin([ip, fp], '.');
    }
  }

  function Negate(r: Option<Decimal>): Option<Decimal> {
    if r.Some? then Some(r.value.(negative := true)) else r
  }

  /** A stripped literal made of a sign and an unsigned literal that starts
      with a digit reads as that literal, negated after a '-'. */
  lemma ParseSigned(negative: bool, body: string)
    requires body != [] && IsDigit(body[0])
    requires Strip(Sign(negative) + body) == Sign(negative) + body
    ensures ParseDecimal(Sign(negative) + body)
            == if negative then Negate(ParseUnsigned(body)) else ParseUnsigned(body)
  {
    var t := Sign(negative) + body;
    if negative {
      assert t[0] == '-' && t[1..] == body;
    } else {
      assert t == body;
    }
  }

  /** A sign, digits, a '.' and digits read back as the signed digits
      with as many fractional digits as follow the '.'. */
  lemma ParseSignedPoint(negative: bool, w: string, f: string)
    requires AllDigits(w) && AllDigits(f) && w != [] && f != []
    ensures AllDigits(w + f)
    ensures ParseDecimal(Sign(negative) + (w + "." + f)) == Some(Decimal(negative, DigitsValue(w + f), |f|))
  {
    var body := w + "." + f;
    SignedPointStripped(negative, w, f);
    ParseUnsignedPoint(w, f);
    ParseSigned(negative, body);
  }

  /** A sign, digits, a '.' and digits have no surrounding whitespace. */
  lemma SignedPointStripped(negative: bool, w: string, f: string)
    requires AllDigits(w) && AllDigits(f) && w != [] && f != []
    ensures IsDigit((w + "." + f)[0])
    ensures Strip(Sign(negative) + (w + "." + f)) == Sign(negative) + (w + "." + f)
  {
    var body := w + "." + f;
    var t := Sign(negative) + body;
    assert body[0] == w[0];
    assert t[|t| - 1] == f[|f| - 1];
    assert t[0] == if negative then '-' else w[0];
    StripUnchanged(t);
  }

  /** The fixed-point text reads back as the signed magnitude with
      `places` fractional digits. */
  lemma ParseFixedText(negative: bool, m: nat, places: nat)
    requires places > 0
    ensures ParseDecimal(FixedText(negative, m, places)) == Some(Decimal(negative, m, places))
  {
    var w, fp := WholeDigits(m, places), FractionDigits(m, places);
    DigitRuns(m, places);
    assert FixedText(negative, m, places) == Sign(negative) + w + "." + fp;
    Regroup(Sign(negative), w, ".", fp);
    ParseSignedPoint(negative, w, fp);
  }

  // ---------------------------------------------------------------------
  // format_european_number: thousands grouping
  // ---------------------------------------------------------------------

  /** The thousands grouping of the loop at main.py:36-39: a '.' before
      every third character counted from the right, none in front. */
  function Group(s: string): string
    decreases |s|
  {
    if |s| <= 3 then s else Group(s[..|s| - 3]) + "." + s[|s| - 3..]
  }

  /** The groups themselves: the leftmost has one to three characters,
      every other exactly three, and together they are `s`. */
  function Groups(s: string): (g: seq<string>)
    ensures |g| >= 1
    ensures s != [] ==> 1 <= |g[0]| <= 3
    ensures forall k :: 1 <= k < |g| ==> |g[k]| == 3
    ensures Concat(g) == s
    decreases |s|
  {
    if |s| <= 3 then [s]
    else
      var front := Groups(s[..|s| - 3]);
      var g := front + [s[|s| - 3..]];
      assert g[..|g| - 1] == front;
      assert s[..|s| - 3] + s[|s| - 3..] == s;
      g
  }

  /** The grouped text is the groups joined by '.'. */
  lemma {:induction false} GroupJoinsGroups(s: string)
    ensures Group(s) == JoinWith(Groups(s), '.')
    decreases |s|
  {
    if |s| > 3 {
      GroupJoinsGroups(s[..|s| - 3]);
      JoinAppend(Groups(s[..|s| - 3]), s[|s| - 3..], '.');
    }
  }

  /** Deleting the separators gives back the characters that were grouped. */
  lemma {:induction false} GroupRemoveDots(s: string)
    requires Count(s, '.') == 0
    ensures RemoveChar(Group(s), '.') == s
    decreases |s|
  {
    if |s| <= 3 {
      RemoveCharAbsent(s, '.');
    } else {
      var front, last := s[..|s| - 3], s[|s| - 3..];
      assert front + last == s;
      CountConcat(front, last, '.');
      GroupRemoveDots(front);
      var g := Group(front);
      assert Group(s) == g + "." + last;
      RemoveCharConcat(g, ".", '.');
      assert RemoveChar(".", '.') == [];
      assert RemoveChar(g + ".", '.') == front;
      RemoveCharConcat(g + ".", last, '.');
      RemoveCharAbsent(last, '.');
    }
  }

  /** Grouping keeps the first and the last character in place. */
  lemma {:induction false} GroupEnds(s: string)
    requires s != []
    ensures Group(s) != [] && Group(s)[0] == s[0] && Group(s)[|Group(s)| - 1] == s[|s| - 1]
    decreases |s|
  {
    if |s| > 3 {
      GroupEnds(s[..|s| - 3]);
    }
  }

  /** Grouping adds no character other than '.'. */
  lemma {:induction false} GroupCount(s: string, c: char)
    requires c != '.'
    ensures Count(Group(s), c) == Count(s, c)
    decreases |s|
  {
    if |s| > 3 {
      var front, last := s[..|s| - 3], s[|s| - 3..];
      assert front + last == s;
      GroupCount(front, c);
      CountConcat(Group(front) + ".", last, c);
      CountConcat(Group(front), ".", c);
      CountConcat(front, last, c);
    }
  }

  /** One more character on the left: a '.' comes between it and the rest
      exactly when the rest is a non-empty multiple of three long. */
  lemma {:induction false} GroupCons(c: char, t: string)
    ensures Group([c] + t) == if |t| % 3 == 0 && |t| > 0 then [c] + "." + Group(t) else [c] + Group(t)
    decreases |t|
  {
    var s := [c] + t;
    if |t| >= 3 {
      var front, last := t[..|t| - 3], t[|t| - 3..];
      assert s[..|s| - 3] == [c] + front;
      assert s[|s| - 3..] == last;
      assert Group(s) == Group([c] + front) + "." + last;
      if |t| == 3 {
        assert [c] + front == [c];
      } else {
        assert Group(t) == Group(front) + "." + last;
        GroupCons(c, front);
        if |front| % 3 == 0 {
          Regroup([c] + ".", Group(front), ".", last);
        } else {
          Regroup([c], Group(front), ".", last);
        }
      }
    }
  }

  // ---------------------------------------------------------------------
  // format_european_number: the European text
  // ---------------------------------------------------------------------

  /** Lines 33-41 of main.py on the fixed-point text: split at '.', which
      fails (`None`, the `ValueError` of the tuple unpacking) unless there
      are exactly two pieces, then group the integer part and join the two
      with ','. */
  function European(formatted: string): (r: Option<string>)
    ensures r.Some? <==> Count(formatted, '.') == 1
  {
    var parts := SplitOn(formatted, '.');
    if |parts| != 2 then None else Some(Group(parts[0]) + "," + parts[1])
  }

  /** `format_european_number` as a value: it fails exactly when `places`
      is 0, since the fixed-point text then has no '.'. */
  function FormatEuropean(value: real, places: nat): (r: Option<string>)
    ensures r.Some? <==> places > 0
  {
    FixedTextSplit(value < 0.0, Magnitude(value, places), places);
    European(FixedPoint(value, places))
  }

  /** `format_european_number`, step by step as main.py:26-41 does it. */
  method FormatEuropeanNumber(value: real, places: nat) returns (r: Option<string>)
    ensures r == FormatEuropean(value, places)
  {
    var formatted := FixedPoint(value, places);
    var parts := SplitOn(formatted, '.');
    if |parts| != 2 {
      return None;
    }
    var integerPart, decimalPart := parts[0], parts[1];
    var n := |integerPart|;
    var grouped := "";
    var i := 0;
    while i < n
      invariant 0 <= i <= n
      invariant grouped == Group(integerPart[n - i..])
    {
      var digit := integerPart[n - 1 - i];
      GroupStep(integerPart, i);
      if i % 3 == 0 && i != 0 {
        grouped := "." + grouped;
      }
      grouped := [digit] + grouped;
      i := i + 1;
    }
    assert integerPart[n - n..] == integerPart;
    r := Some(grouped + "," + decimalPart);
  }

  /** One turn of the grouping loop: the next character to the left goes
      in front, after a '.' when three, six, ... characters are done. */
  lemma GroupStep(s: string, i: nat)
    requires i < |s|
    ensures var d, done := s[|s| - 1 - i], s[|s| - i..];
      Group(s[|s| - 1 - i..]) == if i % 3 == 0 && i != 0 then [d] + ("." + Group(done)) else [d] + Group(done)
  {
    var d, done := s[|s| - 1 - i], s[|s| - i..];
    assert s[|s| - 1 - i..] == [d] + done;
    GroupCons(d, done);
    assert [d] + "." + Group(done) == [d] + ("." + Group(done));
  }

  /** The European text is the grouped integer part, one ',', and the
      fractional digits. */
  lemma EuropeanShape(negative: bool, m: nat, places: nat)
    requires places > 0
    ensures European(FixedText(negative, m, places))
            == Some(Group(IntegerPart(negative, m, places)) + "," + FractionDigits(m, places))
  {
    FixedTextSplit(negative, m, places);
  }

  /** Exactly one ',' in `s`, followed by exactly `places` digits; the
      only other characters are digits, '.' and the sign. */
  predicate EuropeanText(s: string, places: nat) {
    && Count(s, ',') == 1
    && |s| > places && s[|s| - places - 1] == ','
    && AllDigits(s[|s| - places..])
    && forall c :: c != '-' && c != '.' && c != ',' && !IsDigit(c) ==> Count(s, c) == 0
  }

  /** The text of every number has the shape of `EuropeanText`. */
  lemma EuropeanChars(negative: bool, m: nat, places: nat)
    requires places > 0
    ensures var r := European(FixedText(negative, m, places));
      r.Some? && EuropeanText(r.value, places)
  {
    var ip := IntegerPart(negative, m, places);
    EuropeanShape(negative, m, places);
    DigitRuns(m, places);
    IntegerPartChars(negative, m, places);
    GroupChars(ip);
    JoinedText(Group(ip), FractionDigits(m, places));
  }

  /** Grouping adds no character other than '.'. */
  lemma GroupChars(ip: string)
    requires forall c :: c != '-' && !IsDigit(c) ==> Count(ip, c) == 0
    ensures forall c :: c != '-' && c != '.' && !IsDigit(c) ==> Count(Group(ip), c) == 0
  {
    forall c | c != '-' && c != '.' && !IsDigit(c)
      ensures Count(Group(ip), c) == 0
    {
      GroupCount(ip, c);
    }
  }

  /** A grouped integer part, a ',' and the fraction digits. */
  lemma JoinedText(g: string, fp: string)
    requires fp != [] && AllDigits(fp)
    requires forall c :: c != '-' && c != '.' && !IsDigit(c) ==> Count(g, c) == 0
    ensures EuropeanText(g + "," + fp, |fp|)
  {
    var s := g + "," + fp;
    assert s[|s| - |fp|..] == fp;
    forall c | c != '-' && c != '.' && !IsDigit(c)
      ensures Count(s, c) == (if c == ',' then 1 else 0)
    {
      CountConcat(g + ",", fp, c);
      CountConcat(g, ",", c);
      CountNonDigit(fp, c);
    }
  }

  /** The integer part of the text is made of groups of which the leftmost
      has one to three characters and every other three, joined by '.';
      with the separators deleted it is the sign and the whole digits. */
  lemma EuropeanGroups(negative: bool, m: nat, places: nat)
    requires places > 0
    ensures var g := Groups(IntegerPart(negative, m, places));
      && European(FixedText(negative, m, places))
         == Some(JoinWith(g, '.') + "," + FractionDigits(m, places))
      && RemoveChar(JoinWith(g, '.'), '.') == IntegerPart(negative, m, places)
  {
    var ip := IntegerPart(negative, m, places);
    EuropeanShape(negative, m, places);
    IntegerPartChars(negative, m, places);
    GroupJoinsGroups(ip);
    GroupRemoveDots(ip);
  }

  /** The rewrite of `parse_european_number` on a grouped integer part,
      a ',' and digits: it drops the separators of the integer part and
      turns the ',' into a '.'. */
  lemma NormalizeGrouped(g: string, fp: string)
    requires g != [] && !IsSpace(g[0]) && Count(g, ',') == 0
    requires fp != [] && AllDigits(fp)
    ensures Normalize(g + "," + fp) == RemoveChar(g, '.') + "." + fp
  {
    assert RemoveChar(",", '.') == ",";
    assert ReplaceChar(",", ',', '.') == ".";
    var s := g + "," + fp;
    assert s[|s| - 1] == fp[|fp| - 1];
    assert s[0] == g[0];
    StripUnchanged(s);
    CountNonDigit(fp, '.');
    CountNonDigit(fp, ',');
    var ip := RemoveChar(g, '.');
    RemoveCharKeeps(g, '.', ',');
    RemoveCharConcat(g + ",", fp, '.');
    RemoveCharConcat(g, ",", '.');
    RemoveCharAbsent(fp, '.');
    ReplaceCharConcat(ip + ",", fp, ',', '.');
    ReplaceCharConcat(ip, ",", ',', '.');
    ReplaceCharAbsent(ip, ',', '.');
    ReplaceCharAbsent(fp, ',', '.');
  }

  /** The grouped integer part of the text: it starts with the same
      character as the integer part, holds no ',', and loses its
      separators to give the integer part back. */
  lemma GroupedIntegerPart(negative: bool, m: nat, places: nat)
    ensures var ip := IntegerPart(negative, m, places);
      && Group(ip) != [] && Group(ip)[0] == ip[0] && !IsSpace(ip[0])
      && Count(Group(ip), ',') == 0 && RemoveChar(Group(ip), '.') == ip
  {
    var ip := IntegerPart(negative, m, places);
    IntegerPartChars(negative, m, places);
    GroupEnds(ip);
    GroupCount(ip, ',');
    GroupRemoveDots(ip);
  }

  /** Reading the European text back undoes the separators: the rewrite of
      `parse_european_number` turns it into the fixed-point text again. */
  lemma NormalizeEuropean(negative: bool, m: nat, places: nat)
    requires places > 0
    ensures var r := European(FixedText(negative, m, places));
      r.Some? && Normalize(r.value) == FixedText(negative, m, places)
  {
    var ip, fp := IntegerPart(negative, m, places), FractionDigits(m, places);
    EuropeanShape(negative, m, places);
    assert FixedText(negative, m, places) == ip + "." + fp;
    GroupedIntegerPart(negative, m, places);
    DigitRuns(m, places);
    assert fp != [] && AllDigits(fp);
    NormalizeGrouped(Group(ip), fp);
  }

  /** Parsing the formatted text gives back the value rounded to `places`
      digits: the European rendering loses nothing but that rounding. */
  lemma ParseFormatRounds(value: real, places: nat)
    requires places > 0
    ensures ParseEuropean(FormatEuropean(value, places).value) == Some(Rounded(value, places))
  {
    var m := Magnitude(value, places);
    NormalizeEuropean(value < 0.0, m, places);
    ParseFixedText(value < 0.0, m, places);
  }

  /** Round trip: a `Decimal` with at least one fractional digit, other
      than a negative zero, is read back exactly (sign, digits and
      places) from its European rendering with that many places. */
  lemma RoundTrip(d: Decimal)
    requires d.places > 0 && !(d.negative && d.digits == 0)
    ensures ParseEuropean(FormatEuropean(Value(d), d.places).value) == Some(d)
  {
    RoundedExact(d);
    ParseFormatRounds(Value(d), d.places);
  }

  /** Round trip on values: a value with at most `places` fractional
      digits, `k / 10^places`, is read back, as a number, from its
      European rendering with `places` digits ("5,10" for 5.1). */
  lemma RoundTripValue(k: int, places: nat)
    requires places > 0
    ensures var value := k as real / Pow10(places) as real;
      var r := ParseEuropean(FormatEuropean(value, places).value);
      r.Some? && Value(r.value) == value
  {
    var value := k as real / Pow10(places) as real;
    ParseFormatRounds(value, places);
    UnitsExact(k, places);
    RoundedValue(value, places);
  }

  /** A whole count of units needs no rounding. */
  lemma UnitsExact(k: int, places: nat)
    ensures Scaled(k as real / Pow10(places) as real, places) == k
  {
    var p := Pow10(places) as real;
    Rescale(k as real, p);
    RoundHalfEvenFacts(k as real);
  }

  lemma Rescale(x: real, p: real)
    requires p > 0.0
    ensures x / p * p == x
  {
  }

  /** The rounded value is the rounded count of units of `10^-places`. */
  lemma RoundedValue(value: real, places: nat)
    ensures Value(Rounded(value, places)) == Scaled(value, places) as real / Pow10(places) as real
  {
    RoundedUnits(value, places);
    SignedUnits(Rounded(value, places), Scaled(value, places), places);
  }

  /** The rounded count of units is the signed coefficient of the rounded
      value. */
  lemma RoundedUnits(value: real, places: nat)
    ensures var r := Rounded(value, places);
      Scaled(value, places) == if r.negative then -(r.digits as int) else r.digits
  {
    ScaledSign(value, places);
  }

  /** The value of a `Decimal` is its signed coefficient over its power
      of ten. */
  lemma SignedUnits(d: Decimal, k: int, places: nat)
    requires d.places == places && k == if d.negative then -(d.digits as int) else d.digits
    ensures Value(d) == k as real / Pow10(places) as real
  {
  }

  // ---------------------------------------------------------------------
  // The sign inside the grouping
  // ---------------------------------------------------------------------

  /** The loop groups the sign of a negative value as if it were a digit:
      when the whole digits are a multiple of three long, a '.' follows
      the '-'. */
  lemma NegativeSignGrouped(m: nat, places: nat)
    requires places > 0
    requires |WholeDigits(m, places)| % 3 == 0
    ensures var r := European(FixedText(true, m, places));
      r.Some? && |r.value| >= 2 && r.value[..2] == "-."
  {
    var w := WholeDigits(m, places);
    DigitRuns(m, places);
    EuropeanShape(true, m, places);
    assert IntegerPart(true, m, places) == ['-'] + w;
    SignDot(w);
    var g := Group(['-'] + w);
    assert (g + ("," + FractionDigits(m, places)))[..2] == g[..2];
  }

  /** A '-' in front of a multiple of three characters is followed by a
      '.' once grouped. */
  lemma SignDot(w: string)
    requires |w| % 3 == 0 && |w| > 0
    ensures |Group(['-'] + w)| >= 2 && Group(['-'] + w)[..2] == "-."
  {
    GroupCons('-', w);
    assert (['-'] + "." + Group(w))[..2] == "-.";
  }

  /** The magnitude of -123.45 in hundredths. */
  lemma MagnitudeExample()
    ensures Magnitude(-123.45, 2) == 12345
  {
    RoundHalfEvenFacts(-12345.0);
    assert -123.45 * Pow10(2) as real == -12345.0;
  }

  /** The digit runs of 12345 hundredths. */
  lemma DigitRunsExample()
    ensures WholeDigits(12345, 2) == "123" && FractionDigits(12345, 2) == "45"
  {
    PaddedExample();
    var d := "12345";
    assert d[..3] == "123" && d[3..] == "45";
  }

  /** 12345 needs no padding for two places. */
  lemma PaddedExample()
    ensures PaddedDigits(12345, 2) == "12345"
  {
    NatToDecimalExample();
    assert Zeros(0) == [];
  }

  /** The digits of 12345, one digit at a time. */
  lemma NatToDecimalExample()
    ensures NatToDecimal(12345) == "12345"
  {
    assert NatToDecimal(1) == "1";
    assert NatToDecimal(12) == "1" + "2" == "12";
    assert NatToDecimal(123) == "12" + "3" == "123";
    assert NatToDecimal(1234) == "123" + "4" == "1234";
    assert NatToDecimal(12345) == "1234" + "5" == "12345";
  }

  /** The rendering of a negative value, as the grouping of the sign and
      the whole digits, a ',' and the fraction. */
  lemma FormatNegative(value: real, places: nat, w: string, f: string)
    requires places > 0 && value < 0.0
    requires WholeDigits(Magnitude(value, places), places) == w
    requires FractionDigits(Magnitude(value, places), places) == f
    ensures FormatEuropean(value, places) == Some(Group("-" + w) + "," + f)
  {
    EuropeanShape(true, Magnitude(value, places), places);
  }

  /** -123.45 is written "-.123,45". */
  lemma NegativeSignGroupedExample()
    ensures FormatEuropean(-123.45, 2) == Some("-.123,45")
  {
    MagnitudeExample();
    DigitRunsExample();
    FormatNegative(-123.45, 2, "123", "45");
    GroupSignExample();
    ExampleTexts();
  }

  /** The texts of the two examples, put together. These joins of
      literals are proved on their own: inside the examples, next to the
      rounding facts, they cost the solver far more. */
  lemma ExampleTexts()
    ensures "-.123" + "," + "45" == "-.123,45"
    ensures Group("123") == "123" && "-" + ("123" + "," + "45") == "-123,45"
  {
  }

  /** The '-' of "-123" is grouped as a fourth digit. */
  lemma GroupSignExample()
    ensures Group("-" + "123") == "-.123"
  {
    assert "-" + "123" == [('-')] + "123";
    GroupCons('-', "123");
    assert Group("123") == "123";
  }

  /** The European text of a magnitude: the grouped whole digits, a ','
      and the fraction, starting with a digit. */
  lemma UnsignedEuropean(m: nat, places: nat)
    requires places > 0
    ensures var r := European(FixedText(false, m, places));
      && r == Some(Group(WholeDigits(m, places)) + "," + FractionDigits(m, places))
      && r.value != [] && IsDigit(r.value[0])
  {
    var w := WholeDigits(m, places);
    DigitRuns(m, places);
    GroupEnds(w);
    EuropeanShape(false, m, places);
    assert IntegerPart(false, m, places) == w;
  }

  /** The rendering with the sign kept outside the grouping: the sign of
      `value` followed by the European text of its magnitude, so that the
      character after the sign is always a digit; for a value that is not
      negative it is the rendering of `FormatEuropean`. */
  function FormatEuropeanSigned(value: real, places: nat): (r: string)
    requires places > 0
    ensures var n := if value < 0.0 then 1 else 0;
      n < |r| && IsDigit(r[n]) && (n == 1 ==> r[0] == '-')
    ensures value >= 0.0 ==> FormatEuropean(value, places) == Some(r)
  {
    var m := Magnitude(value, places);
    UnsignedEuropean(m, places);
    var e := European(FixedText(false, m, places)).value;
    assert (Sign(value < 0.0) + e)[if value < 0.0 then 1 else 0] == e[0];
    assert value >= 0.0 ==> Sign(value < 0.0) + e == e;
    Sign(value < 0.0) + e
  }

  /** A sign in front of a grouped text keeps it free of leading
      whitespace and of ',', and is kept when the separators go. */
  lemma SignPrefix(negative: bool, g: string, ip: string)
    requires g != [] && !IsSpace(g[0]) && Count(g, ',') == 0 && RemoveChar(g, '.') == ip
    ensures var sg := Sign(negative) + g;
      && sg != [] && !IsSpace(sg[0]) && Count(sg, ',') == 0
      && RemoveChar(sg, '.') == Sign(negative) + ip
  {
    var sg := Sign(negative) + g;
    assert sg[0] == if negative then '-' else g[0];
    CountConcat(Sign(negative), g, ',');
    RemoveCharConcat(Sign(negative), g, '.');
    assert RemoveChar(Sign(negative), '.') == Sign(negative);
  }

  /** The sign in front of the grouped whole digits: it starts with no
      whitespace, holds no ',', and loses its separators to give the
      integer part back. */
  lemma SignedGroupedPart(negative: bool, m: nat, places: nat)
    ensures var g := Sign(negative) + Group(WholeDigits(m, places));
      && g != [] && !IsSpace(g[0]) && Count(g, ',') == 0
      && RemoveChar(g, '.') == IntegerPart(negative, m, places)
  {
    var w := WholeDigits(m, places);
    GroupedIntegerPart(false, m, places);
    assert IntegerPart(false, m, places) == w;
    SignPrefix(negative, Group(w), w);
  }

  /** The rewrite of `parse_european_number` turns the corrected rendering
      into the fixed-point text. */
  lemma NormalizeSigned(negative: bool, m: nat, places: nat)
    requires places > 0
    ensures var w, fp := WholeDigits(m, places), FractionDigits(m, places);
      Normalize(Sign(negative) + Group(w) + "," + fp) == FixedText(negative, m, places)
  {
    var w, fp := WholeDigits(m, places), FractionDigits(m, places);
    SignedGroupedPart(negative, m, places);
    DigitRuns(m, places);
    NormalizeGrouped(Sign(negative) + Group(w), fp);
  }

  /** The corrected rendering reads back, sign included, as the value
      rounded to `places` digits. */
  lemma ParseFormatSigned(value: real, places: nat)
    requires places > 0
    ensures ParseEuropean(FormatEuropeanSigned(value, places)) == Some(Rounded(value, places))
  {
    var negative, m := value < 0.0, Magnitude(value, places);
    var w, fp := WholeDigits(m, places), FractionDigits(m, places);
    FormatSignedParts(value, places, w, fp);
    Regroup(Sign(negative), Group(w), ",", fp);
    NormalizeSigned(negative, m, places);
    ParseFixedText(negative, m, places);
  }

  /** The corrected rendering: the sign, then the grouped whole digits,
      a ',' and the fraction. */
  lemma FormatSignedParts(value: real, places: nat, w: string, f: string)
    requires places > 0
    requires WholeDigits(Magnitude(value, places), places) == w
    requires FractionDigits(Magnitude(value, places), places) == f
    ensures FormatEuropeanSigned(value, places) == Sign(value < 0.0) + (Group(w) + "," + f)
  {
    UnsignedEuropean(Magnitude(value, places), places);
  }

  /** -123.45 is written "-123,45" by the corrected rendering. */
  lemma FormatEuropeanSignedExample()
    ensures FormatEuropeanSigned(-123.45, 2) == "-123,45"
  {
    MagnitudeExample();
    DigitRunsExample();
    FormatSignedParts(-123.45, 2, "123", "45");
    ExampleTexts();
  }
}
