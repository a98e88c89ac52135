/** The comparison of `MainBackend.calculateResults` (main.py:44-121): read
    the five inputs, check the four numbers in a fixed order, compare the
    price of fine gold in the two markets and write the report.

    `Decimal` arithmetic runs under a 20-digit context (main.py:8); here it
    is exact `real` arithmetic, so the rounding of each division to 20
    significant digits is abstracted away. */
module GoldComparison {
  import opened Strings
  import opened Decimals
  import opened EuropeanNumber

  /** Grams in one troy ounce. */
  const TroyOunceGrams: real := 31.1034768
  /** Grams in one baht of gold. */
  const BahtWeightGrams: real := 15.244
  /** Fineness assumed for gold bought at home. */
  const LocalPurity: real := 0.9999
  /** Fineness of Thai gold. */
  const ThailandPurity: real := 0.965

  /** One baht of gold, in troy ounces. */
  const GoldBahtWeight: real := BahtWeightGrams / TroyOunceGrams

  /** A baht weighs `GoldBahtWeight` troy ounces, a little under half an
      ounce. */
  lemma BahtWeightPositive()
    ensures GoldBahtWeight * TroyOunceGrams == BahtWeightGrams
    ensures 0.0 < GoldBahtWeight < 0.5
  {
  }

  // ---------------------------------------------------------------------
  // Validation
  // ---------------------------------------------------------------------

  const ExchangeRateMessage := "Exchange rate must be a positive number."
  const LocalPriceMessage := "Gold price in your local country must be a positive number."
  const ThailandPriceMessage := "Gold price in Thailand must be a positive number."
  const InvestmentMessage := "Investment amount must be greater than 0."

  /** The four checks, in their order: `None` when every number is
      positive, otherwise the message of the first one that is not, however
      many of the later ones fail too. */
  function Validate(exchangeRate: real, localPrice: real, thailandPrice: real, investment: real): (r: Option<string>)
    ensures r == None <==> exchangeRate > 0.0 && localPrice > 0.0 && thailandPrice > 0.0 && investment > 0.0
    ensures r == Some(ExchangeRateMessage) <==> exchangeRate <= 0.0
    ensures r == Some(LocalPriceMessage) <==> exchangeRate > 0.0 && localPrice <= 0.0
    ensures r == Some(ThailandPriceMessage) <==> exchangeRate > 0.0 && localPrice > 0.0 && thailandPrice <= 0.0
    ensures r == Some(InvestmentMessage)
            <==> exchangeRate > 0.0 && localPrice > 0.0 && thailandPrice > 0.0 && investment <= 0.0
  {
    if exchangeRate <= 0.0 then Some(ExchangeRateMessage)
    else if localPrice <= 0.0 then Some(LocalPriceMessage)
    else if thailandPrice <= 0.0 then Some(ThailandPriceMessage)
    else if investment <= 0.0 then Some(InvestmentMessage)
    else None
  }

  // ---------------------------------------------------------------------
  // The computation
  // ---------------------------------------------------------------------

  /** The local price per troy ounce of fine gold: the quoted price
      buys `LocalPurity` of an ounce of fine gold. */
  function AdjustedLocalPrice(localPrice: real): (r: real)
    ensures r * LocalPurity == localPrice
  {
    localPrice / LocalPurity
  }

  /** The Thai price per baht, as local currency per troy ounce of fine
      gold. */
  function AdjustedThailandPrice(thailandPrice: real, exchangeRate: real): (r: real)
    requires exchangeRate != 0.0
    ensures r * ThailandPurity * GoldBahtWeight * exchangeRate == thailandPrice
  {
    BahtWeightPositive();
    thailandPrice / exchangeRate / GoldBahtWeight / ThailandPurity
  }

  datatype Verdict = ThailandBetter | LocalBetter | SamePrice

  function VerdictText(v: Verdict): string {
    match v
    case ThailandBetter => "Thailand offers a better gold price."
    case LocalBetter => "Your local country offers a better gold price."
    case SamePrice => "Both countries offer the same gold price."
  }

  function Abs(x: real): real {
    if x < 0.0 then -x else x
  }

  /** The verdict and the price difference. */
  datatype Decision = Decision(verdict: Verdict, difference: real)

  /** The cheaper market is the better one; the difference is how much
      cheaper it is, and zero exactly when the prices are equal. */
  function Decide(adjustedLocal: real, adjustedThailand: real): (r: Decision)
    ensures r.verdict == ThailandBetter <==> adjustedLocal > adjustedThailand
    ensures r.verdict == LocalBetter <==> adjustedThailand > adjustedLocal
    ensures r.verdict == SamePrice <==> adjustedLocal == adjustedThailand
    ensures r.difference == Abs(adjustedLocal - adjustedThailand)
    ensures r.difference >= 0.0 && (r.difference == 0.0 <==> r.verdict == SamePrice)
  {
    if adjustedLocal > adjustedThailand then
      Decision(ThailandBetter, adjustedLocal - adjustedThailand)
    else if adjustedThailand > adjustedLocal then
      Decision(LocalBetter, adjustedThailand - adjustedLocal)
    else
      Decision(SamePrice, 0.0)
  }

  /** Everything the report shows. */
  datatype Comparison = Comparison(
    adjustedLocal: real,
    adjustedThailand: real,
    decision: Decision,
    investment: real,
    goldLocal: real,
    goldThailand: real)

  /** The computation, reached only with four positive numbers: both
      adjusted prices are positive and the local one exceeds the quoted
      price (its purity is below one); each gold amount is what the
      investment buys at that market's price. */
  function Compare(exchangeRate: real, localPrice: real, thailandPrice: real, investment: real): (c: Comparison)
    requires Validate(exchangeRate, localPrice, thailandPrice, investment) == None
    ensures c.adjustedLocal * LocalPurity == localPrice
    ensures c.adjustedThailand * ThailandPurity * GoldBahtWeight * exchangeRate == thailandPrice
    ensures c.adjustedLocal > localPrice && c.adjustedThailand > 0.0
    ensures c.goldLocal > 0.0 && c.goldThailand > 0.0
    ensures c.goldLocal * c.adjustedLocal == investment && c.goldThailand * c.adjustedThailand == investment
    ensures c.investment == investment
    ensures c.decision.verdict == ThailandBetter <==> c.adjustedThailand < c.adjustedLocal
    ensures c.decision.verdict == LocalBetter <==> c.adjustedLocal < c.adjustedThailand
    ensures c.decision.difference == Abs(c.adjustedLocal - c.adjustedThailand)
  {
    var adjustedLocal := AdjustedLocalPrice(localPrice);
    var adjustedThailand := AdjustedThailandPrice(thailandPrice, exchangeRate);
    PositiveQuotient(thailandPrice, exchangeRate);
    PositiveQuotient(thailandPrice / exchangeRate, GoldBahtWeight);
    PositiveQuotient(thailandPrice / exchangeRate / GoldBahtWeight, ThailandPurity);
    PurityRaisesPrice(localPrice);
    var goldLocal := investment / adjustedLocal;
    var goldThailand := investment / adjustedThailand;
    PositiveQuotient(investment, adjustedLocal);
    PositiveQuotient(investment, adjustedThailand);
    Comparison(adjustedLocal, adjustedThailand, Decide(adjustedLocal, adjustedThailand),
               investment, goldLocal, goldThailand)
  }

  lemma PositiveQuotient(x: real, y: real)
    requires x > 0.0 && y > 0.0
    ensures x / y > 0.0 && x / y * y == x
  {
  }

  /** Dividing by the local purity raises the price. */
  lemma PurityRaisesPrice(localPrice: real)
    requires localPrice > 0.0
    ensures AdjustedLocalPrice(localPrice) > localPrice
  {
    var a := AdjustedLocalPrice(localPrice);
    assert a * LocalPurity == localPrice;
  }

  /** The market the verdict names buys strictly more gold for the same
      investment; with equal prices both buy the same amount. */
  lemma CheaperBuysMore(exchangeRate: real, localPrice: real, thailandPrice: real, investment: real)
    requires Validate(exchangeRate, localPrice, thailandPrice, investment) == None
    ensures var c := Compare(exchangeRate, localPrice, thailandPrice, investment);
      && (c.decision.verdict == ThailandBetter ==> c.goldThailand > c.goldLocal)
      && (c.decision.verdict == LocalBetter ==> c.goldLocal > c.goldThailand)
      && (c.decision.verdict == SamePrice ==> c.goldLocal == c.goldThailand)
  {
    var c := Compare(exchangeRate, localPrice, thailandPrice, investment);
    if c.decision.verdict == ThailandBetter {
      MoreForLess(investment, c.adjustedThailand, c.adjustedLocal, c.goldThailand, c.goldLocal);
    } else if c.decision.verdict == LocalBetter {
      MoreForLess(investment, c.adjustedLocal, c.adjustedThailand, c.goldLocal, c.goldThailand);
    }
  }

  /** At the lower of two prices the same money buys more. */
  lemma MoreForLess(money: real, low: real, high: real, atLow: real, atHigh: real)
    requires money > 0.0 && 0.0 < low < high
    requires atLow * low == money && atHigh * high == money
    ensures atLow > atHigh
  {
    assert atHigh > 0.0;
    assert atLow * low == atHigh * high > atHigh * low;
  }

  // ---------------------------------------------------------------------
  // The report
  // ---------------------------------------------------------------------

  /** A number as the report writes it: European style with `places`
      fractional digits, on one line, and read back by
      `parse_european_number` as the number rounded to those digits. */
  function Formatted(value: real, places: nat): (s: string)
    requires places > 0
    ensures Avoids(s, '\n')
    ensures ParseEuropean(s) == Some(Rounded(value, places))
  {
    FormattedSingle(value, places);
    ParseFormatRounds(value, places);
    FormatEuropean(value, places).value
  }

  /** The European text of a number holds no line break. */
  lemma FormattedSingle(value: real, places: nat)
    requires places > 0
    ensures Avoids(FormatEuropean(value, places).value, '\n')
  {
    var m := Magnitude(value, places);
    assert FormatEuropean(value, places) == European(FixedText(value < 0.0, m, places));
    EuropeanChars(value < 0.0, m, places);
    CountZero(FormatEuropean(value, places).value, '\n');
  }

  /** The lines of the report template, from the blank line before the
      title to the empty text after the last line break, with the texts
      of the numbers and of the verdict filled in. */
  function Template(symbol: string, local: string, thailand: string, verdict: string, difference: string,
                    investment: string, goldLocal: string, goldThailand: string): seq<string>
  {
    [ "",
      "Gold Price Comparison:",
      "",
      "Your Local Country: " + local + (" " + symbol + "/ounce"),
      "Thailand: " + thailand + (" " + symbol + "/ounce"),
      "",
      verdict,
      "",
      "Price Difference: " + difference + (" " + symbol + "/ounce"),
      "",
      "Investment: " + investment + (" " + symbol),
      "Your Local Country: " + goldLocal + " ounces",
      "Thailand: " + goldThailand + " ounces",
      "" ]
  }

  /** The template's lines for a comparison: prices, difference and
      investment with two fractional digits, gold amounts with four.
      Which value goes on which line, and at how many places, is fixed by
      the template literal itself, which is the specification here. */
  function ReportLines(symbol: string, c: Comparison): seq<string> {
    Template(symbol, Formatted(c.adjustedLocal, 2), Formatted(c.adjustedThailand, 2),
             VerdictText(c.decision.verdict), Formatted(c.decision.difference, 2),
             Formatted(c.investment, 2), Formatted(c.goldLocal, 4), Formatted(c.goldThailand, 4))
  }

  /** The report text: the template's lines joined by line breaks. */
  function Report(symbol: string, c: Comparison): string {
    JoinWith(ReportLines(symbol, c), '\n')
  }

  /** Texts without a line break filled into the template: the joined
      template splits back into its fourteen lines, the seventh being the
      verdict. */
  lemma TemplateSplits(symbol: string, local: string, thailand: string, verdict: string, difference: string,
                       investment: string, goldLocal: string, goldThailand: string)
    requires Avoids(symbol, '\n') && Avoids(verdict, '\n')
    requires Avoids(local, '\n') && Avoids(thailand, '\n') && Avoids(difference, '\n')
    requires Avoids(investment, '\n') && Avoids(goldLocal, '\n') && Avoids(goldThailand, '\n')
    ensures var lines := Template(symbol, local, thailand, verdict, difference, investment, goldLocal, goldThailand);
      SplitOn(JoinWith(lines, '\n'), '\n') == lines && |lines| == 14 && lines[6] == verdict
  {
    var lines := Template(symbol, local, thailand, verdict, difference, investment, goldLocal, goldThailand);
    assert |lines| == 14 && lines[6] == verdict;
    TemplateLinesSingle(symbol, local, thailand, verdict, difference, investment, goldLocal, goldThailand);
    SplitJoinAvoiding(lines, '\n');
  }

  /** No line of the filled template holds a line break. */
  lemma TemplateLinesSingle(symbol: string, local: string, thailand: string, verdict: string, difference: string,
                            investment: string, goldLocal: string, goldThailand: string)
    requires Avoids(symbol, '\n') && Avoids(verdict, '\n')
    requires Avoids(local, '\n') && Avoids(thailand, '\n') && Avoids(difference, '\n')
    requires Avoids(investment, '\n') && Avoids(goldLocal, '\n') && Avoids(goldThailand, '\n')
    ensures var lines := Template(symbol, local, thailand, verdict, difference, investment, goldLocal, goldThailand);
      forall k :: 0 <= k < |lines| ==> Avoids(lines[k], '\n')
  {
    var ounce, plain := " " + symbol + "/ounce", " " + symbol;
    assert Avoids(" ", '\n') && Avoids("/ounce", '\n') && Avoids(" ounces", '\n');
    AvoidsConcat(" ", symbol, '\n');
    AvoidsConcat(" " + symbol, "/ounce", '\n');
    LineSingle("Your Local Country: ", local, ounce);
    LineSingle("Thailand: ", thailand, ounce);
    LineSingle("Price Difference: ", difference, ounce);
    LineSingle("Investment: ", investment, plain);
    LineSingle("Your Local Country: ", goldLocal, " ounces");
    LineSingle("Thailand: ", goldThailand, " ounces");
    assert Avoids("", '\n') && Avoids("Gold Price Comparison:", '\n');
  }

  /** Each verdict is one line. */
  lemma VerdictSingle(v: Verdict)
    ensures Avoids(VerdictText(v), '\n')
  {
    match v
    case ThailandBetter => ThailandVerdictSingle();
    case LocalBetter => LocalVerdictSingle();
    case SamePrice => SameVerdictSingle();
  }

  // Each verdict text is shown free of line breaks in three steps: its
  // two halves, the join of the halves, and the text. The solver handles
  // the halves quickly but not the whole literal at once.

  lemma ThailandVerdictSingle()
    ensures Avoids("Thailand offers a better gold price.", '\n')
  {
    ThailandVerdictPieces();
    AvoidsConcat("Thailand offers ", "a better gold price.", '\n');
    ThailandVerdictJoin();
  }

  lemma ThailandVerdictPieces()
    ensures Avoids("Thailand offers ", '\n') && Avoids("a better gold price.", '\n')
  {
  }

  lemma ThailandVerdictJoin()
    ensures "Thailand offers " + "a better gold price." == "Thailand offers a better gold price."
  {
  }

  lemma LocalVerdictSingle()
    ensures Avoids("Your local country offers a better gold price.", '\n')
  {
    LocalVerdictPieces();
    AvoidsConcat("Your local country offers ", "a better gold price.", '\n');
    LocalVerdictJoin();
  }

  lemma LocalVerdictPieces()
    ensures Avoids("Your local country offers ", '\n') && Avoids("a better gold price.", '\n')
  {
  }

  lemma LocalVerdictJoin()
    ensures "Your local country offers " + "a better gold price." == "Your local country offers a better gold price."
  {
  }

  lemma SameVerdictSingle()
    ensures Avoids("Both countries offer the same gold price.", '\n')
  {
    SameVerdictPieces();
    AvoidsConcat("Both countries offer ", "the same gold price.", '\n');
    SameVerdictJoin();
  }

  lemma SameVerdictPieces()
    ensures Avoids("Both countries offer ", '\n') && Avoids("the same gold price.", '\n')
  {
  }

  lemma SameVerdictJoin()
    ensures "Both countries offer " + "the same gold price." == "Both countries offer the same gold price."
  {
  }

  /** A caption, a number and a unit on one line make one line. */
  lemma LineSingle(caption: string, number: string, suffix: string)
    requires Avoids(caption, '\n') && Avoids(number, '\n') && Avoids(suffix, '\n')
    ensures Avoids(caption + number + suffix, '\n')
  {
    AvoidsConcat(caption, number, '\n');
    AvoidsConcat(caption + number, suffix, '\n');
  }

  /** The report splits at its line breaks into the fourteen lines of the
      template; the seventh is the verdict. */
  lemma ReportSplits(symbol: string, c: Comparison)
    requires Avoids(symbol, '\n')
    ensures SplitOn(Report(symbol, c), '\n') == ReportLines(symbol, c)
    ensures |ReportLines(symbol, c)| == 14 && ReportLines(symbol, c)[6] == VerdictText(c.decision.verdict)
  {
    var verdict := VerdictText(c.decision.verdict);
    VerdictSingle(c.decision.verdict);
    TemplateSplits(symbol, Formatted(c.adjustedLocal, 2), Formatted(c.adjustedThailand, 2),
                   verdict, Formatted(c.decision.difference, 2),
                   Formatted(c.investment, 2), Formatted(c.goldLocal, 4), Formatted(c.goldThailand, 4));
  }

  // ---------------------------------------------------------------------
  // calculateResults
  // ---------------------------------------------------------------------

  /** What a call leaves on the screen: the report or an "Error: " line,
      or an exception that escapes the call (the `InvalidOperation` of a
      malformed number, which is not a `ValueError`). */
  datatype Outcome = Shown(text: string) | Raised

  /** `calculateResults` without the UI: the stripped symbol, the four
      numbers read in order, the checks, the computation and the report. */
  function CalculateResults(symbol: string, exchangeRateText: string, localPriceText: string,
                            thailandPriceText: string, investmentText: string): (r: Outcome)
    ensures r == Raised <==> ParseEuropean(exchangeRateText) == None || ParseEuropean(localPriceText) == None
                             || ParseEuropean(thailandPriceText) == None || ParseEuropean(investmentText) == None
  {
    var rate := ParseEuropean(exchangeRateText);
    var local := ParseEuropean(localPriceText);
    var thailand := ParseEuropean(thailandPriceText);
    var investment := ParseEuropean(investmentText);
    if rate == None || local == None || thailand == None || investment == None then Raised
    else
      var e, l, t, i := Value(rate.value), Value(local.value), Value(thailand.value), Value(investment.value);
      match Validate(e, l, t, i)
      case Some(message) => Shown("Error: " + message)
      case None => Shown(Report(Strip(symbol), Compare(e, l, t, i)))
  }

  /** The values of four read numbers. */
  predicate ReadAs(exchangeRateText: string, localPriceText: string, thailandPriceText: string,
                   investmentText: string, e: real, l: real, t: real, i: real)
  {
    && ParseEuropean(exchangeRateText).Some? && Value(ParseEuropean(exchangeRateText).value) == e
    && ParseEuropean(localPriceText).Some? && Value(ParseEuropean(localPriceText).value) == l
    && ParseEuropean(thailandPriceText).Some? && Value(ParseEuropean(thailandPriceText).value) == t
    && ParseEuropean(investmentText).Some? && Value(ParseEuropean(investmentText).value) == i
  }

  /** A number that is not positive is reported as an "Error: " line
      with the message of the first such field, and nothing is computed. */
  lemma RejectsFirstInvalid(symbol: string, exchangeRateText: string, localPriceText: string,
                            thailandPriceText: string, investmentText: string, e: real, l: real, t: real, i: real)
    requires ReadAs(exchangeRateText, localPriceText, thailandPriceText, investmentText, e, l, t, i)
    requires Validate(e, l, t, i).Some?
    ensures CalculateResults(symbol, exchangeRateText, localPriceText, thailandPriceText, investmentText)
            == Shown("Error: " + Validate(e, l, t, i).value)
  {
  }

  /** With four positive numbers the report is shown: it splits into the
      fourteen lines of the template, the seventh being the verdict. */
  lemma ShowsReport(symbol: string, exchangeRateText: string, localPriceText: string,
                    thailandPriceText: string, investmentText: string, e: real, l: real, t: real, i: real)
    requires ReadAs(exchangeRateText, localPriceText, thailandPriceText, investmentText, e, l, t, i)
    requires Validate(e, l, t, i) == None
    requires Avoids(Strip(symbol), '\n')
    ensures var r := CalculateResults(symbol, exchangeRateText, localPriceText, thailandPriceText, investmentText);
      var c := Compare(e, l, t, i);
      && r == Shown(Report(Strip(symbol), c))
      && SplitOn(r.text, '\n') == ReportLines(Strip(symbol), c)
      && |ReportLines(Strip(symbol), c)| == 14
      && ReportLines(Strip(symbol), c)[6] == VerdictText(c.decision.verdict)
  {
    CalculateShown(symbol, exchangeRateText, localPriceText, thailandPriceText, investmentText, e, l, t, i);
    ReportSplits(Strip(symbol), Compare(e, l, t, i));
  }

  /** Four positive numbers give the report. */
  lemma CalculateShown(symbol: string, exchangeRateText: string, localPriceText: string,
                       thailandPriceText: string, investmentText: string, e: real, l: real, t: real, i: real)
    requires ReadAs(exchangeRateText, localPriceText, thailandPriceText, investmentText, e, l, t, i)
    requires Validate(e, l, t, i) == None
    ensures CalculateResults(symbol, exchangeRateText, localPriceText, thailandPriceText, investmentText)
            == Shown(Report(Strip(symbol), Compare(e, l, t, i)))
  {
  }
}
