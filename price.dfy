/** The price convention of the product form: a decimal text in the form,
    integer cents in the price_cents column, two decimals on the page. */
module Price {
  import opened Outcomes
  import opened Values

  /** The white space str.strip() removes, as far as this model goes. */
  predicate IsSpace(c: char) {
    var n := c as int;
    n == 32 || 9 <= n <= 13 || 28 <= n <= 31 || n == 0x85 || n == 0xA0
  }

  function TrimStart(s: string): (r: string)
    ensures r == [] || !IsSpace(r[0])
  {
    if s != [] && IsSpace(s[0]) then TrimStart(s[1..]) else s
  }

  function TrimEnd(s: string): (r: string)
    ensures r == [] || !IsSpace(r[|r| - 1])
    ensures |r| <= |s| && (r != [] ==> r[0] == s[0])
  {
    if s != [] && IsSpace(s[|s| - 1]) then TrimEnd(s[..|s| - 1]) else s
  }

  /** str.strip(): the text without its leading and trailing white space. */
  function Strip(s: string): (r: string)
    ensures r == [] || (!IsSpace(r[0]) && !IsSpace(r[|r| - 1]))
  {
    TrimEnd(TrimStart(s))
  }

  /** TrimStart drops exactly the leading white space: it returns a suffix
      of the text, and everything before that suffix is white space. */
  lemma {:induction false} TrimStartMeaning(s: string)
    ensures var r := TrimStart(s);
      |r| <= |s| && r == s[|s| - |r|..] && forall i :: 0 <= i < |s| - |r| ==> IsSpace(s[i])
  {
    if s != [] && IsSpace(s[0]) {
      TrimStartMeaning(s[1..]);
      var r := TrimStart(s[1..]);
      assert s[1..][|s| - 1 - |r|..] == s[|s| - |r|..];
      forall i | 0 <= i < |s| - |r| ensures IsSpace(s[i]) {
        if i > 0 {
          assert s[i] == s[1..][i - 1];
        }
      }
    }
  }

  /** TrimEnd drops exactly the trailing white space: it returns a prefix
      of the text, and everything after that prefix is white space. */
  lemma {:induction false} TrimEndMeaning(s: string)
    ensures var r := TrimEnd(s);
      |r| <= |s| && r == s[..|r|] && forall i :: |r| <= i < |s| ==> IsSpace(s[i])
  {
    if s != [] && IsSpace(s[|s| - 1]) {
      var init := s[..|s| - 1];
      TrimEndMeaning(init);
      var r := TrimEnd(init);
      assert init[..|r|] == s[..|r|];
      forall i | |r| <= i < |s| ensures IsSpace(s[i]) {
        if i < |s| - 1 {
          assert s[i] == init[i];
        }
      }
    }
  }

  /** str.strip(): the result is the text between a run of leading and a run
      of trailing white space, and, as Strip states, it starts and ends with
      a character that is not white space. */
  lemma StripMeaning(s: string)
    ensures var r := Strip(s);
      exists a, b :: 0 <= a <= b <= |s| && r == s[a..b] &&
        (forall i :: 0 <= i < a ==> IsSpace(s[i])) && (forall i :: b <= i < |s| ==> IsSpace(s[i]))
  {
    var t := TrimStart(s);
    TrimStartMeaning(s);
    TrimEndMeaning(t);
    var r := TrimEnd(t);
    var a := |s| - |t|;
    var b := a + |r|;
    assert r == s[a..b];
    forall i | b <= i < |s| ensures IsSpace(s[i]) {
      assert s[i] == t[i - a];
    }
  }

  /** A text that neither starts nor ends with white space is its own strip. */
  lemma StripUnpadded(s: string)
    requires s == [] || (!IsSpace(s[0]) && !IsSpace(s[|s| - 1]))
    ensures Strip(s) == s
  {
  }

  /** A decimal literal [sign] digits [. digits] split into its parts. */
  datatype Decimal = Decimal(negative: bool, whole: string, fraction: string)

  predicate WellFormed(d: Decimal) {
    AllDigits(d.whole) && AllDigits(d.fraction) && |d.whole| + |d.fraction| > 0
  }

  /** The position of the first '.', or |s| when there is none. */
  function IndexOfDot(s: string): (k: nat)
    ensures k <= |s|
    ensures k < |s| ==> s[k] == '.'
    ensures forall j :: 0 <= j < k ==> s[j] != '.'
  {
    if s == [] || s[0] == '.' then 0 else 1 + IndexOfDot(s[1..])
  }

  function ParseUnsigned(negative: bool, s: string): (r: Option<Decimal>)
    ensures r.Some? ==> WellFormed(r.value) && r.value.negative == negative
  {
    var k := IndexOfDot(s);
    var d := if k == |s| then Decimal(negative, s, "") else Decimal(negative, s[..k], s[k + 1..]);
    if WellFormed(d) then Some(d) else None
  }

  /** The part of Python's Decimal() grammar this model accepts: an optional
      sign, then digits, digits '.', '.' digits or digits '.' digits. */
  function ParseDecimal(s: string): (r: Option<Decimal>)
    ensures r.Some? ==> WellFormed(r.value)
  {
    if |s| > 0 && (s[0] == '+' || s[0] == '-') then ParseUnsigned(s[0] == '-', s[1..])
    else ParseUnsigned(false, s)
  }

  /** The optional sign of a literal. */
  predicate IsSign(sign: string) {
    sign == "" || sign == "+" || sign == "-"
  }

  /** A literal written out from its parts: the sign, the whole digits, then
      a point and the fraction digits, or nothing. */
  function Spell(sign: string, whole: string, fraction: string, dot: bool): string {
    sign + whole + (if dot then "." + fraction else "")
  }

  /** The parts of a literal of the grammar: digits on either side of the
      point, at least one digit in all, and no fraction without a point. */
  predicate Literal(sign: string, whole: string, fraction: string, dot: bool) {
    IsSign(sign) && AllDigits(whole) && AllDigits(fraction) &&
    |whole| + |fraction| > 0 && (!dot ==> fraction == "")
  }

  /** The text is some literal of the grammar written out. */
  ghost predicate IsDecimalLiteral(t: string) {
    exists sign, whole, fraction, dot :: Literal(sign, whole, fraction, dot) && t == Spell(sign, whole, fraction, dot)
  }

  /** Digits, then a point and digits or nothing, parse into those digits. */
  lemma UnsignedSpelled(negative: bool, whole: string, fraction: string, dot: bool)
    requires AllDigits(whole) && AllDigits(fraction) && |whole| + |fraction| > 0 && (!dot ==> fraction == "")
    ensures ParseUnsigned(negative, whole + (if dot then "." + fraction else "")) == Some(Decimal(negative, whole, fraction))
  {
    if dot {
      var u := whole + ("." + fraction);
      assert u == whole + "." + fraction;
      DotAfterDigits(whole, fraction);
      assert u[..|whole|] == whole;
      assert u[|whole| + 1..] == fraction;
    } else {
      assert forall j :: 0 <= j < |whole| ==> whole[j] != '.';
      assert whole + "" == whole;
    }
  }

  /** A sign in front of a text that does not itself begin with one is the
      sign ParseDecimal reads. */
  lemma ParseWithSign(sign: string, u: string)
    requires IsSign(sign) && |u| > 0 && u[0] != '+' && u[0] != '-'
    ensures ParseDecimal(sign + u) == ParseUnsigned(sign == "-", u)
  {
    var t := sign + u;
    if sign == "" {
      assert t == u;
    } else {
      assert sign == [sign[0]] && t[0] == sign[0] && t[1..] == u;
    }
  }

  /** A spelled literal is its sign in front of the unsigned part. */
  lemma SpellJoin(sign: string, whole: string, fraction: string, dot: bool)
    ensures Spell(sign, whole, fraction, dot) == sign + (whole + (if dot then "." + fraction else ""))
  {
  }

  /** Every literal of the grammar parses, into its own digits and sign. */
  lemma ParseSpelled(sign: string, whole: string, fraction: string, dot: bool)
    requires Literal(sign, whole, fraction, dot)
    ensures ParseDecimal(Spell(sign, whole, fraction, dot)) == Some(Decimal(sign == "-", whole, fraction))
  {
    var tail := if dot then "." + fraction else "";
    var u := whole + tail;
    UnsignedSpelled(sign == "-", whole, fraction, dot);
    SpellJoin(sign, whole, fraction, dot);
    if whole != [] {
      assert u[0] == whole[0] && IsDigit(whole[0]);
    } else {
      assert u == tail && dot && tail[0] == '.';
    }
    ParseWithSign(sign, u);
  }

  /** A text ParseUnsigned accepts is its whole digits, then a point and its
      fraction digits if it has a point, and nothing more. */
  lemma UnsignedSpelling(negative: bool, u: string)
    requires ParseUnsigned(negative, u).Some?
    ensures var d := ParseUnsigned(negative, u).value;
      var dot := IndexOfDot(u) < |u|;
      u == d.whole + (if dot then "." + d.fraction else "") && (!dot ==> d.fraction == "")
  {
    var k := IndexOfDot(u);
    if k < |u| {
      assert ParseUnsigned(negative, u) == Some(Decimal(negative, u[..k], u[k + 1..]));
      SplitAtDot(u, k);
    } else {
      assert ParseUnsigned(negative, u) == Some(Decimal(negative, u, ""));
      assert u + "" == u;
    }
  }

  lemma SplitAtDot(u: string, k: nat)
    requires k < |u| && u[k] == '.'
    ensures u == u[..k] + ("." + u[k + 1..])
  {
    assert u == u[..k] + u[k..];
    assert u[k..] == [u[k]] + u[k + 1..];
  }

  /** A text ParseDecimal reads is its sign, if any, then the text that
      ParseUnsigned reads. */
  lemma SplitSign(t: string) returns (sign: string, u: string)
    ensures IsSign(sign) && t == sign + u && ParseDecimal(t) == ParseUnsigned(sign == "-", u)
  {
    if |t| > 0 && (t[0] == '+' || t[0] == '-') {
      sign, u := t[..1], t[1..];
      assert t == [t[0]] + t[1..];
    } else {
      sign, u := "", t;
    }
  }

  /** Conversely, a text that parses is the literal of its parts written
      out, with a sign that is "-" exactly for a negative one. */
  lemma ParsedSpelling(t: string)
    requires ParseDecimal(t).Some?
    ensures var d := ParseDecimal(t).value;
      exists sign, dot :: Literal(sign, d.whole, d.fraction, dot) && t == Spell(sign, d.whole, d.fraction, dot) &&
                          (sign == "-" <==> d.negative)
  {
    var d := ParseDecimal(t).value;
    var sign, u := SplitSign(t);
    UnsignedSpelling(sign == "-", u);
    var dot := IndexOfDot(u) < |u|;
    var tail := if dot then "." + d.fraction else "";
    SpellJoin(sign, d.whole, d.fraction, dot);
    assert Literal(sign, d.whole, d.fraction, dot);
  }

  function Pow10(k: nat): (p: nat)
    ensures p >= 1
  {
    if k == 0 then 1 else 10 * Pow10(k - 1)
  }

  /** The literal's absolute value times 10^|fraction|. */
  function Magnitude(d: Decimal): nat
    requires WellFormed(d)
  {
    DigitsValue(d.whole) * Pow10(|d.fraction|) + DigitsValue(d.fraction)
  }

  /** num / den rounded to the nearest integer, ties to the even one: the
      default context's ROUND_HALF_EVEN. */
  function RoundHalfEven(num: nat, den: nat): nat
    requires den > 0
  {
    var q, r := num / den, num % den;
    if 2 * r < den then q
    else if 2 * r > den then q + 1
    else if q % 2 == 0 then q
    else q + 1
  }

  /** RoundHalfEven is within half a unit of num / den, and on a tie it is even. */
  lemma RoundHalfEvenNearest(num: nat, den: nat)
    requires den > 0
    ensures var q := RoundHalfEven(num, den);
      -(den as int) <= 2 * (q * den - num) <= den &&
      (2 * (q * den - num) == den || 2 * (q * den - num) == -(den as int) ==> q % 2 == 0)
  {
    var q, r := num / den, num % den;
    assert num == q * den + r;
    assert (q + 1) * den == q * den + den;
  }

  /** A multiple of den divides exactly. */
  lemma RoundHalfEvenExact(n: nat, den: nat)
    requires den > 0
    ensures RoundHalfEven(n * den, den) == n
  {
  }

  /** int((Decimal(text) * 100).quantize(Decimal('1'))) for a parsed literal. */
  function Cents(d: Decimal): int
    requires WellFormed(d)
  {
    var m: int := RoundHalfEven(Magnitude(d) * 100, Pow10(|d.fraction|));
    if d.negative then -m else m
  }

  /** The price text (already stripped) to integer cents; the exception that
      becomes 'Invalid price format' when Decimal() refuses the text. */
  function ParsePrice(text: string): Result<int>
  {
    match ParseDecimal(text)
    case None => Err(InvalidPrice)
    case Some(d) => Ok(Cents(d))
  }

  /** Rounding the magnitude and then restoring the sign stays within half a
      unit of the signed exact value, and a tie lands on an even number. */
  lemma SignedRoundNearest(mag: nat, p: nat, negative: bool)
    requires p > 0
    ensures var m: int := RoundHalfEven(mag * 100, p);
      var c := if negative then -m else m;
      var v: int := if negative then -(mag as int) else mag;
      -(p as int) <= 2 * (c * p - 100 * v) <= p &&
      (2 * (c * p - 100 * v) == p || 2 * (c * p - 100 * v) == -(p as int) ==> c % 2 == 0)
  {
    var m: int := RoundHalfEven(mag * 100, p);
    RoundHalfEvenNearest(mag * 100, p);
    if negative {
      assert (-m) * p == -(m * p);
      assert (-m) * p - 100 * (-(mag as int)) == -(m * p - 100 * mag);
    }
  }

  /** What quantize(Decimal('1')) promises: the cents are the integer nearest
      to 100 times the literal, and a tie goes to the even neighbour. */
  lemma CentsNearest(d: Decimal)
    requires WellFormed(d)
    ensures var v: int := if d.negative then -(Magnitude(d) as int) else Magnitude(d);
      var p: int := Pow10(|d.fraction|);
      var c := Cents(d);
      -p <= 2 * (c * p - 100 * v) <= p &&
      (2 * (c * p - 100 * v) == p || 2 * (c * p - 100 * v) == -p ==> c % 2 == 0)
  {
    SignedRoundNearest(Magnitude(d), Pow10(|d.fraction|), d.negative);
  }

  /** A price is refused, as an invalid price, exactly when the text is not a
      literal of the grammar, and a literal is accepted as the rounded cents
      of its own sign and digits. */
  lemma ParsePriceCases(text: string)
    ensures ParsePrice(text).Err? <==> !IsDecimalLiteral(text)
    ensures ParsePrice(text).Err? ==> ParsePrice(text).error == InvalidPrice
    ensures forall sign, whole, fraction, dot :: Literal(sign, whole, fraction, dot) && text == Spell(sign, whole, fraction, dot) ==>
      ParsePrice(text) == Ok(Cents(Decimal(sign == "-", whole, fraction)))
  {
    if ParseDecimal(text).Some? {
      ParsedSpelling(text);
    }
    forall sign, whole, fraction, dot | Literal(sign, whole, fraction, dot) && text == Spell(sign, whole, fraction, dot)
      ensures ParsePrice(text) == Ok(Cents(Decimal(sign == "-", whole, fraction)))
    {
      ParseSpelled(sign, whole, fraction, dot);
    }
  }

  /** Product.price_display: f"{cents / 100:.2f}", with the float division
      written as integer division and remainder. */
  function PriceDisplay(cents: int): string
  {
    var m: int := if cents < 0 then -cents else cents;
    (if cents < 0 then "-" else "") + NatToString(m / 100) + "." + [DigitChar(m % 100 / 10), DigitChar(m % 10)]
  }

  lemma DotAfterDigits(w: string, f: string)
    requires AllDigits(w)
    ensures IndexOfDot(w + "." + f) == |w|
  {
    var s := w + "." + f;
    var k := IndexOfDot(s);
    assert s[|w|] == '.';
  }

  lemma DigitsValueOfTwo(a: nat, b: nat)
    requires a < 10 && b < 10
    ensures DigitsValue([DigitChar(a), DigitChar(b)]) == 10 * a + b
  {
    var s := [DigitChar(a), DigitChar(b)];
    var t := [DigitChar(a)];
    assert t[..0] == [];
    assert DigitsValue(t) == a;
    assert s[..1] == t;
  }

  /** The text price_display writes is a decimal literal with the whole
      cents before the point and two digits after it. */
  lemma DisplayParses(cents: int)
    ensures var m := if cents < 0 then -cents else cents;
      ParseDecimal(PriceDisplay(cents)) ==
        Some(Decimal(cents < 0, NatToString(m / 100), [DigitChar(m % 100 / 10), DigitChar(m % 10)]))
  {
    var m := if cents < 0 then -cents else cents;
    var w := NatToString(m / 100);
    var f := [DigitChar(m % 100 / 10), DigitChar(m % 10)];
    var u := w + "." + f;
    var s := PriceDisplay(cents);
    assert s == (if cents < 0 then "-" else "") + u;
    DotAfterDigits(w, f);
    assert u[..|w|] == w && u[|w| + 1..] == f;
    assert ParseUnsigned(cents < 0, u) == Some(Decimal(cents < 0, w, f));
    if cents < 0 {
      assert s[0] == '-' && s[1..] == u;
    } else {
      assert s == u && s[0] == w[0] && IsDigit(s[0]);
    }
  }

  /** The literal price_display writes for m cents, read back: m cents again. */
  lemma DisplayCents(m: nat, negative: bool)
    ensures var d := Decimal(negative, NatToString(m / 100), [DigitChar(m % 100 / 10), DigitChar(m % 10)]);
      WellFormed(d) && Cents(d) == if negative then -(m as int) else m
  {
    var w := NatToString(m / 100);
    var f := [DigitChar(m % 100 / 10), DigitChar(m % 10)];
    var d := Decimal(negative, w, f);
    DigitsValueOfTwo(m % 100 / 10, m % 10);
    DigitsValueOfNatToString(m / 100);
    assert Pow10(2) == 100;
    assert DigitsValue(w) * 100 + DigitsValue(f) == m;
    assert Magnitude(d) == m;
    RoundHalfEvenExact(m, 100);
  }

  /** price_display writes no white space around the number. */
  lemma DisplayUnpadded(cents: int)
    ensures Strip(PriceDisplay(cents)) == PriceDisplay(cents)
  {
    var m := if cents < 0 then -cents else cents;
    var w := NatToString(m / 100);
    var f := [DigitChar(m % 100 / 10), DigitChar(m % 10)];
    var s := PriceDisplay(cents);
    assert s == (if cents < 0 then "-" else "") + w + "." + f;
    assert s[|s| - 1] == f[1];
    assert s[0] == '-' || s[0] == w[0];
    StripUnpadded(s);
  }

  /** Reading back what price_display shows gives the same cents: the form
      and the page agree on every price. */
  lemma PriceRoundTrip(cents: int)
    ensures ParsePrice(PriceDisplay(cents)) == Ok(cents)
  {
    var m := if cents < 0 then -cents else cents;
    var d := Decimal(cents < 0, NatToString(m / 100), [DigitChar(m % 100 / 10), DigitChar(m % 10)]);
    var s := PriceDisplay(cents);
    assert ParseDecimal(s) == Some(d) by {
      DisplayParses(cents);
    }
    assert Cents(d) == cents by {
      DisplayCents(m, cents < 0);
    }
  }

  /** 1250 cents show as 12.50, and 12.50 reads back as 1250 cents. */
  lemma PriceExampleExact()
    ensures PriceDisplay(1250) == "12.50"
    ensures ParsePrice("12.50") == Ok(1250)
  {
    assert NatToString(12) == "12" by {
      assert NatToString(1) == "1";
    }
    PriceRoundTrip(1250);
  }

  lemma DigitsExamples()
    ensures AllDigits("12") && DigitsValue("12") == 12
    ensures AllDigits("504") && DigitsValue("504") == 504
  {
    assert "12"[..1] == "1";
    assert "504"[..2] == "50" && "50"[..1] == "5";
  }

  /** 12.504 is 1250.4 cents, which rounds to 1250. */
  lemma PriceExampleRounded()
    ensures ParsePrice("12.504") == Ok(1250)
  {
    var s := "12.504";
    var d := Decimal(false, "12", "504");
    DigitsExamples();
    assert ParseDecimal(s) == Some(d) by {
      DotAfterDigits("12", "504");
      assert s == "12" + "." + "504";
      assert s[..2] == "12" && s[3..] == "504";
    }
    assert Magnitude(d) == 12504 by {
      assert Pow10(3) == 1000;
    }
    assert RoundHalfEven(1250400, 1000) == 1250;
  }
}
