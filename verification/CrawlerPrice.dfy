// The pay-per-crawl price headers: an exact printer of integer micro-USDC, and the parser of what a
// crawler sends.
module CrawlerPrice {
  import opened Wrappers
  import opened Text

  const MICRO_PER_USD := 1_000_000
  const FRACTION_DIGITS := 6

  datatype PriceError = Negative | NotDigits

  function Zeros(n: nat): string { seq(n, _ => '0') }

  function PadStart(s: string, n: nat): string {
    if |s| >= n then s else Zeros(n - |s|) + s
  }

  function PadEnd(s: string, n: nat): string {
    if |s| >= n then s else s + Zeros(n - |s|)
  }

  function DropTrailingZeros(s: string): string {
    if s != [] && s[|s| - 1] == '0' then DropTrailingZeros(s[..|s| - 1]) else s
  }

  function FractionText(frac: nat): string {
    PadEnd(DropTrailingZeros(PadStart(Print(frac, 10), FRACTION_DIGITS)), 2)
  }

  function FormatCrawlerPrice(micro: int): Result<string, PriceError> {
    if micro < 0 then Err(Negative)
    else Ok("USD " + AmountText(micro))
  }

  function AmountText(micro: nat): string {
    Print(micro / MICRO_PER_USD, 10) + "." + FractionText(micro % MICRO_PER_USD)
  }

  // ---------- the parser ----------

  predicate IsLetter(c: char) { IsUpper(c) || IsLower(c) }

  function DigitRun(s: string): (n: nat)
    ensures n <= |s| && AllDigits(s[..n])
    ensures n < |s| ==> !IsDigit(s[n])
  {
    if s != [] && IsDigit(s[0]) then 1 + DigitRun(s[1..]) else 0
  }

  // The amount after the currency: digits, optionally a stop and digits, then only spaces.
  function ParseAmount(s: string): Option<(string, string)> {
    var w := DigitRun(s);
    var d := s[w..];
    var f := if d != [] && d[0] == '.' then DigitRun(d[1..]) else 0;
    var rest := if f == 0 then d else d[1 + f..];
    if w == 0 || TrimLeft(rest) != [] then None
    else Some((s[..w], if f == 0 then "" else d[1..1 + f]))
  }

  // Three letters, then at least one space: the currency and what follows it.
  function ParseCurrency(value: string): Option<(string, string)> {
    var a := TrimLeft(value);
    if |a| < 4 || !(IsLetter(a[0]) && IsLetter(a[1]) && IsLetter(a[2])) || !IsSpace(a[3]) then None
    else Some((a[..3], TrimLeft(a[3..])))
  }

  // More precision than USDC can hold is refused, never truncated.
  function AmountMicro(whole: string, frac: string): Option<nat> {
    if |frac| > FRACTION_DIGITS || !AllDigits(whole) || !AllDigits(frac) then None
    else
      DigitsPad(frac);
      DecimalDigits(whole);
      Some(Value(whole, 10) * MICRO_PER_USD + Value(PadEnd(frac, FRACTION_DIGITS), 10))
  }

  function ParseCrawlerPrice(value: string): Option<nat> {
    match ParseCurrency(value)
    case None => None
    case Some((currency, rest)) =>
      match ParseAmount(rest)
      case None => None
      case Some((whole, frac)) =>
        if Upper(currency) != "USD" then None else AmountMicro(whole, frac)
  }

  lemma DigitsPad(frac: string)
    requires AllDigits(frac)
    ensures AllDigits(PadEnd(frac, FRACTION_DIGITS)) && IsNumeral(PadEnd(frac, FRACTION_DIGITS), 10)
  {
    DecimalDigits(PadEnd(frac, FRACTION_DIGITS));
  }

  // An atomic amount on the wire: integer digits only, spaces around them allowed.
  function ToMicro(v: string): Result<nat, PriceError> {
    var t := Trim(v);
    if t == [] || !AllDigits(t) then Err(NotDigits)
    else
      DecimalDigits(t);
      Ok(Value(t, 10))
  }

  lemma ToMicroReadsPrint(n: nat)
    ensures ToMicro(Print(n, 10)) == Ok(n)
  {
    PrintRoundTrip(n, 10);
    DecimalDigits(Print(n, 10));
    TrimOfTrimmed(Print(n, 10));
  }

  // An amount is read, and as n, exactly when it is the digits of n with spaces around them.
  lemma ToMicroExactly(v: string, n: nat)
    ensures ToMicro(v) == Ok(n)
       <==> exists lead: string, digits: string, tail: string ::
              Padded(v, lead, digits, tail) && SpellsNumber(digits, n)
  {
    hide TrimLeft, TrimRight, Value, Number;
    TrimPads(v);
    DigitsAre(Trim(v));
    if lead: string, digits: string, tail: string :| Padded(v, lead, digits, tail) && SpellsNumber(digits, n) {
      PaddedTrims(v, lead, digits, tail);
    }
  }

  predicate SpellsNumber(digits: string, n: nat) { digits != "" && Digits(digits) && Number(digits) == n }

  lemma DigitsAre(s: string)
    ensures AllDigits(s) <==> Digits(s)
    ensures Digits(s) ==> IsNumeral(s, 10) && Value(s, 10) == Number(s)
  {
    if Digits(s) { NumberIsValue(s); }
  }

  // ---------- the round trip ----------

  lemma {:induction false} LeadingZero(k: nat, s: string)
    requires IsNumeral(s, 10)
    ensures IsNumeral(Zeros(k) + s, 10) && Value(Zeros(k) + s, 10) == Value(s, 10)
    decreases |s| + k
  {
    var z := Zeros(k) + s;
    if s != [] {
      LeadingZero(k, s[..|s| - 1]);
      assert z[..|z| - 1] == Zeros(k) + s[..|s| - 1];
    } else if k > 0 {
      LeadingZero(k - 1, s);
      assert z[..|z| - 1] == Zeros(k - 1) + s;
    }
  }

  lemma {:induction false} DropThenPad(s: string, n: nat)
    requires |s| <= n
    ensures |DropTrailingZeros(s)| <= |s|
    ensures PadEnd(DropTrailingZeros(s), n) == PadEnd(s, n)
    ensures AllDigits(s) ==> AllDigits(DropTrailingZeros(s))
  {
    if s != [] && s[|s| - 1] == '0' {
      DropThenPad(s[..|s| - 1], n);
      assert PadEnd(s[..|s| - 1], n) == PadEnd(s, n);
    }
  }

  lemma SixDigits(frac: nat)
    requires frac < MICRO_PER_USD
    ensures var p := PadStart(Print(frac, 10), FRACTION_DIGITS);
            |p| == FRACTION_DIGITS && AllDigits(p) && IsNumeral(p, 10) && Value(p, 10) == frac
  {
    var p := Print(frac, 10);
    PrintRoundTrip(frac, 10);
    MillionIsPower();
    PrintLength(frac, 10, FRACTION_DIGITS);
    LeadingZero(FRACTION_DIGITS - |p|, p);
    DecimalDigits(PadStart(p, FRACTION_DIGITS));
  }

  lemma FractionRoundTrip(frac: nat)
    requires frac < MICRO_PER_USD
    ensures var t := FractionText(frac);
            && 2 <= |t| <= FRACTION_DIGITS && AllDigits(t)
            && IsNumeral(PadEnd(t, FRACTION_DIGITS), 10) && Value(PadEnd(t, FRACTION_DIGITS), 10) == frac
  {
    SixDigits(frac);
    var padded := PadStart(Print(frac, 10), FRACTION_DIGITS);
    DropThenPad(padded, FRACTION_DIGITS);
    PadTwice(DropTrailingZeros(padded));
    assert PadEnd(FractionText(frac), FRACTION_DIGITS) == padded;
  }

  lemma PadTwice(d: string)
    requires |d| <= FRACTION_DIGITS
    ensures PadEnd(PadEnd(d, 2), FRACTION_DIGITS) == PadEnd(d, FRACTION_DIGITS)
    ensures 2 <= |PadEnd(d, 2)| <= FRACTION_DIGITS
    ensures AllDigits(d) ==> AllDigits(PadEnd(d, 2))
  {
  }

  lemma MillionIsPower()
    ensures Power(10, FRACTION_DIGITS) == MICRO_PER_USD
  {
    assert Power(10, 3) == 1000;
    assert Power(10, 6) == 10 * (10 * (10 * Power(10, 3)));
  }

  lemma {:induction false} DigitRunIs(digits: string, rest: string)
    requires AllDigits(digits) && (rest == [] || !IsDigit(rest[0]))
    ensures DigitRun(digits + rest) == |digits|
  {
    if digits == [] {
      assert digits + rest == rest;
    } else {
      DigitRunIs(digits[1..], rest);
      assert (digits + rest)[1..] == digits[1..] + rest;
    }
  }

  lemma ParseAmountOf(whole: string, frac: string)
    requires AllDigits(whole) && AllDigits(frac) && whole != [] && frac != []
    ensures ParseAmount(whole + "." + frac) == Some((whole, frac))
  {
    var s := whole + "." + frac;
    assert s == whole + (['.'] + frac);
    DigitRunIs(whole, ['.'] + frac);
    var d := s[|whole|..];
    assert d == ['.'] + frac && d[1..] == frac;
    DigitRunIs(frac, []);
    assert frac + [] == frac;
    assert d[1..1 + |frac|] == frac && d[1 + |frac|..] == [];
  }

  lemma ParseCurrencyOf(amount: string)
    requires amount != [] && IsDigit(amount[0])
    ensures ParseCurrency("USD " + amount) == Some(("USD", amount))
  {
    var s := "USD " + amount;
    assert TrimLeft(s) == s;
    assert s[..3] == "USD";
    assert s[3..][0] == ' ' && s[3..][1..] == amount;
    assert TrimLeft(amount) == amount;
  }

  lemma AmountRoundTrip(m: nat)
    ensures var whole, frac := Print(m / MICRO_PER_USD, 10), FractionText(m % MICRO_PER_USD);
            && whole != [] && AllDigits(whole) && frac != [] && AllDigits(frac)
            && AmountMicro(whole, frac) == Some(m)
  {
    hide Print, FractionText, PadEnd, Value;
    PrintRoundTrip(m / MICRO_PER_USD, 10);
    DecimalDigits(Print(m / MICRO_PER_USD, 10));
    FractionRoundTrip(m % MICRO_PER_USD);
  }

  // Every printed price parses back to the amount it was printed from.
  lemma PriceRoundTrip(m: nat)
    ensures ParseCrawlerPrice(FormatCrawlerPrice(m).value) == Some(m)
  {
    AmountRoundTrip(m);
    ParseAmountOf(Print(m / MICRO_PER_USD, 10), FractionText(m % MICRO_PER_USD));
    ParseCurrencyOf(AmountText(m));
    assert Upper("USD") == "USD";
  }

  lemma {:induction false} NoZeroIsLast(s: string)
    ensures var d := DropTrailingZeros(s); |d| <= |s| && (d != [] ==> d[|d| - 1] != '0')
  {
    if s != [] && s[|s| - 1] == '0' { NoZeroIsLast(s[..|s| - 1]); }
  }

  // Dollars without leading zeros, two to six digits after the stop, and no more of them than it takes.
  predicate Canonical(whole: string, frac: string) {
    && whole != [] && AllDigits(whole) && (whole[0] == '0' ==> whole == "0")
    && 2 <= |frac| <= 6 && AllDigits(frac) && (|frac| > 2 ==> frac[|frac| - 1] != '0')
  }

  lemma PrintIsCanonical(m: int)
    ensures if m < 0 then FormatCrawlerPrice(m) == Err(Negative)
            else exists whole: string, frac: string ::
                   Canonical(whole, frac) && FormatCrawlerPrice(m) == Ok("USD " + (whole + ("." + frac)))
  {
    if m >= 0 {
      hide Print, Value, DropTrailingZeros;
      var whole, frac := Print(m / MICRO_PER_USD, 10), FractionText(m % MICRO_PER_USD);
      PrintRoundTrip(m / MICRO_PER_USD, 10);
      DecimalDigits(whole);
      ZeroPrint();
      FractionRoundTrip(m % MICRO_PER_USD);
      NoZeroIsLast(PadStart(Print(m % MICRO_PER_USD, 10), FRACTION_DIGITS));
      assert AmountText(m) == whole + ("." + frac);
      assert Canonical(whole, frac);
    }
  }

  lemma ZeroPrint()
    ensures Print(0, 10) == "0"
  {
  }

  // So no two amounts print alike, and only a free read prints as free.
  lemma FormatIsInjective(m: nat, n: nat)
    requires FormatCrawlerPrice(m) == FormatCrawlerPrice(n)
    ensures m == n
  {
    PriceRoundTrip(m);
    PriceRoundTrip(n);
  }

  lemma OnlyZeroPrintsAsFree(m: nat)
    ensures FormatCrawlerPrice(m) == Ok("USD 0.00") <==> m == 0
  {
    assert Print(0, 10) == "0";
    assert DropTrailingZeros("000000") == "" by {
      assert "000000"[..5] == "00000" && "00000"[..4] == "0000" && "0000"[..3] == "000";
      assert "000"[..2] == "00" && "00"[..1] == "0" && "0"[..0] == "";
    }
    assert PadStart("0", 6) == "000000";
    assert PadEnd("", 2) == "00";
    assert FormatCrawlerPrice(0).value == "USD 0.00";
    if FormatCrawlerPrice(m) == Ok("USD 0.00") { FormatIsInjective(m, 0); }
  }

  // Whatever spelling a crawler used, printing what was understood is understood the same way.
  lemma ReprintIsStable(value: string)
    requires ParseCrawlerPrice(value).Some?
    ensures ParseCrawlerPrice(FormatCrawlerPrice(ParseCrawlerPrice(value).value).value) == ParseCrawlerPrice(value)
  {
    PriceRoundTrip(ParseCrawlerPrice(value).value);
  }

  // ---------- exactly what is understood ----------

  // `f` counted in units of `p` behind `w` dollars.
  function Units(w: nat, f: nat, p: nat): nat { w * 1_000_000 + f * p }

  // Currency, amount and the spaces around them, as a price header spells them.
  datatype Spelling = Spelling(lead: string, currency: string, gap: string, whole: string, frac: string, tail: string)
  {
    predicate Fits() {
      && OnlySpace(lead) && OnlySpace(gap) && gap != [] && OnlySpace(tail)
      && |currency| == 3 && (forall k :: 0 <= k < 3 ==> IsLetter(currency[k]))
      && whole != [] && AllDigits(whole) && AllDigits(frac)
    }

    function Text(): string {
      lead + (currency + (gap + (whole + ((if frac == [] then "" else "." + frac) + tail))))
    }

    // Dollars, with at most six digits after the stop.
    predicate Dollars() { Upper(currency) == "USD" && |frac| <= 6 }

    // Units of a millionth: the digits after the stop count tenths, hundredths and so on.
    function Micro(): nat
      requires Fits() && Dollars()
    {
      DecimalDigits(whole);
      DecimalDigits(frac);
      Units(Value(whole, 10), Value(frac, 10), Power(10, 6 - |frac|))
    }
  }

  lemma {:induction false} PadValue(frac: string, n: nat)
    requires IsNumeral(frac, 10)
    ensures IsNumeral(frac + Zeros(n), 10) && Value(frac + Zeros(n), 10) == Value(frac, 10) * Power(10, n)
  {
    if n == 0 {
      assert frac + Zeros(0) == frac;
    } else {
      PadValue(frac, n - 1);
      var z := frac + Zeros(n);
      assert z[..|z| - 1] == frac + Zeros(n - 1) && z[|z| - 1] == '0';
      assert Power(10, n) == 10 * Power(10, n - 1);
      TenTimes(Value(frac, 10), Power(10, n - 1));
    }
  }

  lemma TenTimes(v: nat, p: nat)
    ensures MulAdd(v * p, 10, 0) == v * (10 * p)
  {
  }

  lemma AmountIs(whole: string, frac: string)
    requires AllDigits(whole) && AllDigits(frac) && |frac| <= 6
    ensures IsNumeral(whole, 10) && IsNumeral(frac, 10)
    ensures AmountMicro(whole, frac) == Some(Units(Value(whole, 10), Value(frac, 10), Power(10, 6 - |frac|)))
  {
    hide Value, Power, PadEnd;
    DecimalDigits(whole);
    DecimalDigits(frac);
    DigitsPad(frac);
    PadValue(frac, 6 - |frac|);
    PadIs(frac);
  }

  lemma PadIs(frac: string)
    requires |frac| <= 6
    ensures PadEnd(frac, 6) == frac + Zeros(6 - |frac|)
  {
  }

  lemma CurrencyOf(sp: Spelling, rest: string)
    requires sp.Fits() && rest != [] && IsDigit(rest[0])
    ensures ParseCurrency(sp.lead + (sp.currency + (sp.gap + rest))) == Some((sp.currency, rest))
  {
    hide TrimLeft;
    var a := sp.currency + (sp.gap + rest);
    assert a[0] == sp.currency[0] && a[1] == sp.currency[1] && a[2] == sp.currency[2] && a[3] == sp.gap[0];
    assert !IsSpace(a[0]) by { assert IsLetter(sp.currency[0]); }
    LeftSpaces(sp.lead, a);
    assert a[..3] == sp.currency && a[3..] == sp.gap + rest;
    LeftSpaces(sp.gap, rest);
  }

  lemma SlicesOf(a: string, b: string)
    ensures (a + b)[..|a|] == a && (a + b)[|a|..] == b
  {
  }

  lemma WholeAmount(whole: string, tail: string)
    requires whole != [] && AllDigits(whole) && OnlySpace(tail)
    ensures ParseAmount(whole + tail) == Some((whole, ""))
  {
    hide DigitRun, TrimLeft;
    LeftSpaces(tail, []);
    assert tail + [] == tail;
    assert tail != [] ==> IsSpace(tail[0]);
    DigitRunIs(whole, tail);
    SlicesOf(whole, tail);
  }

  lemma FractionAmount(whole: string, frac: string, tail: string)
    requires whole != [] && AllDigits(whole) && frac != [] && AllDigits(frac) && OnlySpace(tail)
    ensures ParseAmount(whole + (['.'] + (frac + tail))) == Some((whole, frac))
  {
    hide DigitRun, TrimLeft;
    var d := ['.'] + (frac + tail);
    LeftSpaces(tail, []);
    assert tail + [] == tail;
    assert tail != [] ==> IsSpace(tail[0]);
    DigitRunIs(whole, d);
    SlicesOf(whole, d);
    SlicesOf(['.'], frac + tail);
    DigitRunIs(frac, tail);
    SlicesOf(frac, tail);
    assert d[1..1 + |frac|] == (frac + tail)[..|frac|] && d[1 + |frac|..] == (frac + tail)[|frac|..];
  }

  lemma AmountOf(whole: string, frac: string, tail: string)
    requires whole != [] && AllDigits(whole) && AllDigits(frac) && OnlySpace(tail)
    ensures ParseAmount(whole + ((if frac == [] then "" else "." + frac) + tail)) == Some((whole, frac))
  {
    hide ParseAmount, AllDigits, OnlySpace;
    if frac == [] {
      assert "" + tail == tail;
      WholeAmount(whole, tail);
    } else {
      assert "." + frac + tail == ['.'] + (frac + tail);
      FractionAmount(whole, frac, tail);
    }
  }

  lemma SpelledIsParsed(sp: Spelling)
    requires sp.Fits()
    ensures ParseCrawlerPrice(sp.Text()) == if sp.Dollars() then Some(sp.Micro()) else None
  {
    hide ParseCurrency, ParseAmount, AmountMicro, Value, Power;
    var rest := sp.whole + ((if sp.frac == [] then "" else "." + sp.frac) + sp.tail);
    assert rest[0] == sp.whole[0];
    CurrencyOf(sp, rest);
    AmountOf(sp.whole, sp.frac, sp.tail);
    if |sp.frac| <= 6 { AmountIs(sp.whole, sp.frac); } else { TooFine(sp.whole, sp.frac); }
  }

  lemma TooFine(whole: string, frac: string)
    requires |frac| > 6
    ensures AmountMicro(whole, frac).None?
  {
  }

  lemma CurrencySplits(value: string)
    requires ParseCurrency(value).Some?
    ensures var (currency, rest) := ParseCurrency(value).value;
      && |currency| == 3 && (forall k :: 0 <= k < 3 ==> IsLetter(currency[k]))
      && exists lead: string, gap: string ::
           OnlySpace(lead) && OnlySpace(gap) && gap != [] && value == lead + (currency + (gap + rest))
  {
    hide TrimLeft, OnlySpace;
    var a := TrimLeft(value);
    TrimLeftSplits(value);
    TrimLeftSplits(a[3..]);
    var rest := TrimLeft(a[3..]);
    var lead, gap := value[..|value| - |a|], a[3..][..|a[3..]| - |rest|];
    assert value == lead + a && a == a[..3] + a[3..] && a[3..] == gap + rest;
    assert gap != [] by { assert IsSpace(a[3..][0]); }
    assert OnlySpace(lead) && OnlySpace(gap) && value == lead + (a[..3] + (gap + rest));
  }

  lemma ParsedIsSpelled(value: string)
    requires ParseCrawlerPrice(value).Some?
    ensures exists sp: Spelling :: sp.Fits() && sp.Text() == value
  {
    hide ParseCurrency, ParseAmount, OnlySpace, AllDigits, IsLetter;
    CurrencySplits(value);
    var (currency, rest) := ParseCurrency(value).value;
    var lead: string, gap: string :|
      OnlySpace(lead) && OnlySpace(gap) && gap != [] && value == lead + (currency + (gap + rest));
    AmountSplits(rest);
    var (whole, frac) := ParseAmount(rest).value;
    var tail: string :| OnlySpace(tail) && rest == whole + ((if frac == [] then "" else "." + frac) + tail);
    var sp := Spelling(lead, currency, gap, whole, frac, tail);
    assert sp.Fits() && sp.Text() == value;
  }

  lemma SpaceIsTail(tail: string)
    requires TrimLeft(tail) == []
    ensures OnlySpace(tail)
  {
    TrimLeftSplits(tail);
    assert tail[..|tail|] == tail;
  }

  lemma AmountSplits(s: string)
    requires ParseAmount(s).Some?
    ensures var (whole, frac) := ParseAmount(s).value;
      && whole != [] && AllDigits(whole) && AllDigits(frac)
      && exists tail: string :: OnlySpace(tail) && s == whole + ((if frac == [] then "" else "." + frac) + tail)
  {
    hide DigitRun, TrimLeft, OnlySpace, AllDigits;
    var w := DigitRun(s);
    var d := s[w..];
    NoDigits();
    SlicesJoin(s, w);
    if d != [] && d[0] == '.' && DigitRun(d[1..]) > 0 {
      var f := DigitRun(d[1..]);
      var tail := d[1 + f..];
      SpaceIsTail(tail);
      FractionSplits(d, f);
      assert OnlySpace(tail) && s == s[..w] + (("." + d[1..1 + f]) + tail);
    } else {
      SpaceIsTail(d);
      assert "" + d == d;
    }
  }

  lemma SlicesJoin(s: string, w: nat)
    requires w <= |s|
    ensures s == s[..w] + s[w..]
  {
  }

  lemma NoDigits()
    ensures AllDigits("") && forall tail: string :: "" + tail == tail
  {
  }

  lemma FractionSplits(d: string, f: nat)
    requires d != [] && d[0] == '.' && f <= |d[1..]|
    ensures d == "." + d[1..1 + f] + d[1 + f..] && d[1..1 + f] == d[1..][..f]
  {
  }

  // A header is understood if and only if it spells dollars with at most six digits after the stop, and
  // then as exactly that many micro-dollars.
  lemma UnderstoodExactly(value: string, micro: nat)
    ensures ParseCrawlerPrice(value) == Some(micro)
       <==> exists sp: Spelling :: sp.Fits() && sp.Text() == value && sp.Dollars() && sp.Micro() == micro
  {
    hide ParseCrawlerPrice;
    if ParseCrawlerPrice(value) == Some(micro) {
      ParsedIsSpelled(value);
      var sp: Spelling :| sp.Fits() && sp.Text() == value;
      SpelledIsParsed(sp);
    }
    if sp: Spelling :| sp.Fits() && sp.Text() == value && sp.Dollars() && sp.Micro() == micro {
      SpelledIsParsed(sp);
    }
  }
}
