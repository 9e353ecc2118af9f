/** The string utilities of utils.go: amounts in cents shown as dollars and
    read back from what a user typed, YYYY-MM-DD date strings, and the
    semicolon-separated name lists of the CSV export. */
module Utils {
  import opened Text
  import opened Calendar

  // --------------------------------------------------------------- currency

  /** The amount `a` in cents as US dollars: "$1.00" for 100, "$-0.01" for
      -1, "$0.00" for 0. As in Go, the negation of MinInt64 wraps, so that
      amount is written with two minus signs. */
  function FormatAsCurrency(a: int): (r: string)
    requires MinInt64 <= a <= MaxInt64
    ensures HasPrefix(r, "$")
    ensures a < 0 <==> HasPrefix(r, "$-")
    ensures a == 0 ==> r == "$0.00"
  {
    if a == 0 then
      assert "$0.00"[..2] == ['$', '0'];
      "$0.00"
    else if a < 0 then
      var r := DollarText("$-", Itoa(Wrap64(-a)), a > -100);
      assert r[..2] == "$-";
      r
    else
      var s := Itoa(a);
      var r := DollarText("$", s, a < 100);
      assert r[0] == '$' && r[1] == (if a < 100 then '0' else s[0]);
      assert r[..1] == "$";
      r
  }

  /** The sign, then either "0." and the digits zero-padded to two (for
      less than a dollar) or the digits with a period before the last two. */
  function DollarText(sign: string, s: string, small: bool): string
    requires small || |s| >= 2
  {
    if small then sign + "0." + PadZeros(s, 2) else sign + s[..|s| - 2] + "." + s[|s| - 2..]
  }

  /** The whole-dollar digits FormatAsCurrency writes for a magnitude n > 0. */
  function WholeDigits(n: nat): string
  {
    var s := NatToString(n);
    if n < 100 then "0" else s[..|s| - 2]
  }

  /** The two cent digits FormatAsCurrency writes for a magnitude n > 0. */
  function CentDigits(n: nat): string
  {
    var s := NatToString(n);
    if n < 100 then PadZeros(s, 2) else s[|s| - 2..]
  }

  /** The sign FormatAsCurrency writes before the digits of a non-zero amount. */
  function SignText(a: int): string
  {
    if a > 0 then "$" else if a > MinInt64 then "$-" else "$--"
  }

  /** FormatAsCurrency is a sign, the whole dollars, a period and the
      cents of the magnitude. */
  lemma FormatAsCurrencyPieces(a: int)
    requires MinInt64 <= a <= MaxInt64 && a != 0
    ensures FormatAsCurrency(a) == SignText(a) + WholeDigits(Abs(a)) + "." + CentDigits(Abs(a))
  {
    if a > 0 {
      PositivePieces(a);
    } else if a > MinInt64 {
      NegativePieces(a);
    } else {
      MinInt64Pieces(a);
    }
  }

  lemma PositivePieces(a: int)
    requires 0 < a <= MaxInt64
    ensures FormatAsCurrency(a) == "$" + WholeDigits(a) + "." + CentDigits(a)
  {
    DollarTextPieces("$", a);
  }

  lemma NegativePieces(a: int)
    requires MinInt64 < a < 0
    ensures FormatAsCurrency(a) == "$-" + WholeDigits(-a) + "." + CentDigits(-a)
  {
    assert Wrap64(-a) == -a;
    DollarTextPieces("$-", -a);
  }

  /** MinInt64 is its own int64 negation, so its digits follow a second minus sign. */
  lemma MinInt64Pieces(a: int)
    requires a == MinInt64
    ensures FormatAsCurrency(a) == "$--" + WholeDigits(-a) + "." + CentDigits(-a)
  {
    NegateMinInt64();
    assert FormatAsCurrency(a) == DollarText("$-", Itoa(a), false);
    NegativeItoaPieces(a);
  }

  /** The digits of a negative value, split before the last two, keep the
      minus sign in front. */
  lemma NegativeItoaPieces(x: int)
    requires x <= -100
    ensures DollarText("$-", Itoa(x), false) == "$--" + WholeDigits(-x) + "." + CentDigits(-x)
  {
    var t := NatToString(-x);
    var s := Itoa(x);
    assert s == "-" + t;
    var u, v := t[..|t| - 2], t[|t| - 2..];
    assert s[..|s| - 2] == "-" + u;
    assert s[|s| - 2..] == v;
    assert "$-" + ("-" + u) == "$--" + u;
    DollarTextPieces("$--", -x);
  }

  /** The text of a magnitude n > 0 after its sign is the whole dollars,
      a period and the cents. */
  lemma DollarTextPieces(sign: string, n: nat)
    requires n > 0
    ensures DollarText(sign, NatToString(n), n < 100) == sign + WholeDigits(n) + "." + CentDigits(n)
  {
    var s := NatToString(n);
    DollarTextOfPieces(sign, s, n < 100, WholeDigits(n), CentDigits(n));
  }

  /** DollarText is the sign, the whole part, a period and the cents. */
  lemma DollarTextOfPieces(sign: string, s: string, small: bool, w: string, c: string)
    requires small ==> w == "0" && c == PadZeros(s, 2)
    requires !small ==> |s| >= 2 && w == s[..|s| - 2] && c == s[|s| - 2..]
    ensures DollarText(sign, s, small) == sign + w + "." + c
  {
    if small {
      assert sign + "0." == sign + "0" + ".";
    }
  }

  function Abs(a: int): (n: nat)
    ensures n == a || n == -a
  {
    if a < 0 then -a else a
  }

  /** The pieces are digit strings that parse back to the dollars and the cents. */
  lemma PiecesParse(n: nat)
    requires 0 < n <= -MinInt64
    ensures AllDigits(WholeDigits(n)) && AllDigits(CentDigits(n))
    ensures ParseInt(WholeDigits(n)) == n / 100
    ensures CentsOf(CentDigits(n)) == n % 100
  {
    if n < 100 {
      SmallPiecesParse(n);
    } else {
      LargePiecesParse(n);
    }
  }

  lemma SmallPiecesParse(n: nat)
    requires 0 < n < 100
    ensures AllDigits(WholeDigits(n)) && AllDigits(CentDigits(n))
    ensures ParseInt(WholeDigits(n)) == 0
    ensures CentsOf(CentDigits(n)) == n
  {
    var s := NatToString(n);
    var c := CentDigits(n);
    ParseIntOfPadded(n, 2);
    ParseIntOfNatToString(0);
    var k: nat :| c == Zeros(k) + s;
    DigitsValueLeadingZeros(k, s);
    if n < 10 {
      assert k == 1 && c[0] == '0';
    }
  }

  lemma LargePiecesParse(n: nat)
    requires 100 <= n <= -MinInt64
    ensures AllDigits(WholeDigits(n)) && AllDigits(CentDigits(n))
    ensures ParseInt(WholeDigits(n)) == n / 100
    ensures CentsOf(CentDigits(n)) == n % 100
  {
    NatToStringLastTwo(n);
    LargeWholeParse(n);
    LargeCentsParse(n);
  }

  lemma LargeWholeParse(n: nat)
    requires 100 <= n <= -MinInt64
    requires NatToString(n)[..|NatToString(n)| - 2] == NatToString(n / 100)
    ensures AllDigits(WholeDigits(n)) && ParseInt(WholeDigits(n)) == n / 100
  {
    ParseIntOfNatToString(n / 100);
  }

  lemma LargeCentsParse(n: nat)
    requires 100 <= n
    requires NatToString(n)[|NatToString(n)| - 2..] == [DigitChar(n / 10 % 10), DigitChar(n % 10)]
    ensures AllDigits(CentDigits(n)) && CentsOf(CentDigits(n)) == n % 100
  {
    var hi, lo := n / 10 % 10, n % 10;
    TensAndUnits(n);
    assert CentDigits(n) == [DigitChar(hi), DigitChar(lo)];
    CentsOfTwoDigits(hi, lo);
  }

  /** The last two decimal digits of n are its tens and units. */
  lemma TensAndUnits(n: nat)
    ensures n % 100 == (n / 10 % 10) * 10 + n % 10
  {
  }

  /** Two cent digits read back as their value. */
  lemma CentsOfTwoDigits(hi: int, lo: int)
    requires 0 <= hi < 10 && 0 <= lo < 10
    ensures CentsOf([DigitChar(hi), DigitChar(lo)]) == hi * 10 + lo
  {
    var c := [DigitChar(hi), DigitChar(lo)];
    assert c[..1] == [DigitChar(hi)] && c[..1][..0] == [];
    assert DigitsValue(c[..1]) == hi;
    assert DigitsValue(c) == hi * 10 + lo;
    ParseIntOfDigits(c);
    assert HasPrefix(c, "0") <==> hi == 0;
  }

  // ---------------------------------------------------------- reading amounts

  /** What digitre.ReplaceAllString(input, "") leaves: the ASCII digits and
      the periods, in order. */
  function KeepDigitsAndDots(s: string): (r: string)
    ensures |r| <= |s|
    ensures forall i :: 0 <= i < |r| ==> IsDigit(r[i]) || r[i] == '.'
    ensures (forall i :: 0 <= i < |s| ==> IsDigit(s[i]) || s[i] == '.') ==> r == s
    decreases |s|
  {
    if s == [] then []
    else (if IsDigit(s[0]) || s[0] == '.' then [s[0]] else []) + KeepDigitsAndDots(s[1..])
  }

  lemma {:induction false} KeepDigitsAndDotsAppend(a: string, b: string)
    ensures KeepDigitsAndDots(a + b) == KeepDigitsAndDots(a) + KeepDigitsAndDots(b)
    decreases |a|
  {
    if a != [] {
      KeepDigitsAndDotsAppend(a[1..], b);
      assert (a + b)[1..] == a[1..] + b;
    } else {
      assert a + b == b;
    }
  }

  lemma {:induction false} KeepDigitsAndDotsOfDigits(s: string)
    requires AllDigits(s)
    ensures KeepDigitsAndDots(s) == s
    decreases |s|
  {
    if s != [] {
      KeepDigitsAndDotsOfDigits(s[1..]);
      assert [s[0]] + s[1..] == s;
    }
  }

  /** The sign ParseDollarAmount applies: a leading "+" or "$+" makes the
      amount positive, so does assumePositive, and with assumePositive a
      leading "-" or "$-" makes it negative again. */
  function Multiplier(input: string, assumePositive: bool): (m: int)
    ensures m == 1 <==>
      if assumePositive then !(HasPrefix(input, "$-") || HasPrefix(input, "-"))
      else HasPrefix(input, "+") || HasPrefix(input, "$+")
    ensures m == 1 || m == -1
  {
    var m := if HasPrefix(input, "+") || HasPrefix(input, "$+") || assumePositive then 1 else -1;
    if assumePositive && (HasPrefix(input, "$-") || HasPrefix(input, "-")) then -1 else m
  }

  /** The cents of the digits after the period: a single digit other than
      a leading zero is tenths ("10.2" is ten dollars twenty), and three or
      more significant digits are discarded. */
  function CentsOf(frac: string): (c: int)
    ensures c < 100
    ensures frac == [] || frac[0] != '-' ==> c >= 0
  {
    var c0 := ParseInt(frac);
    var c1 := if !HasPrefix(frac, "0") && c0 < 10 then c0 * 10 else c0;
    if c1 >= 100 then 0 else c1
  }

  /** The unsigned amount in cents of the digits and periods that are kept:
      the first piece before a period is the dollars, and the second is the
      cents only if there is exactly one period (int64 arithmetic). */
  function Magnitude(kept: string): (r: int)
    ensures MinInt64 <= r <= MaxInt64
  {
    var ss := Split(kept, '.');
    var cents := if |ss| == 2 then CentsOf(ss[1]) else 0;
    var whole := ParseInt(ss[0]);
    Wrap64(Wrap64(whole * 100) + cents)
  }

  /** ParseDollarAmount: the amount in cents of a user-typed dollar figure;
      everything but digits and periods is ignored, and the sign comes from
      Multiplier. The final product is int64 and wraps. */
  function ParseDollarAmount(input: string, assumePositive: bool): (r: int)
    ensures MinInt64 <= r <= MaxInt64
  {
    Wrap64(Multiplier(input, assumePositive) * Magnitude(KeepDigitsAndDots(input)))
  }

  /** Without a period everything kept is dollars, and there are no cents. */
  lemma MagnitudeWithoutPeriod(w: string)
    requires '.' !in w
    ensures Magnitude(w) == Wrap64(ParseInt(w) * 100)
  {
    SplitWithoutSeparator(w, '.');
  }

  /** With two periods or more the cents are dropped: only the digits
      before the first period count. */
  lemma MagnitudeOfManyPeriods(w: string, b: string, rest: string)
    requires '.' !in w && '.' !in b
    ensures Magnitude(w + "." + b + "." + rest) == Wrap64(ParseInt(w) * 100)
  {
    SplitAfterPiece(w, '.', b + "." + rest);
    SplitAfterPiece(b, '.', rest);
    assert w + "." + b + "." + rest == w + ['.'] + (b + ['.'] + rest);
  }

  /** An input without a period is read as whole dollars. */
  lemma ParseDollarAmountWithoutPeriod(input: string, assumePositive: bool)
    requires '.' !in KeepDigitsAndDots(input)
    ensures ParseDollarAmount(input, assumePositive)
            == Wrap64(Multiplier(input, assumePositive) * Wrap64(ParseInt(KeepDigitsAndDots(input)) * 100))
  {
    MagnitudeWithoutPeriod(KeepDigitsAndDots(input));
  }

  /** An input whose kept text has two periods or more is read as the whole
      dollars before the first period. */
  lemma ParseDollarAmountOfManyPeriods(input: string, assumePositive: bool, w: string, b: string, rest: string)
    requires KeepDigitsAndDots(input) == w + "." + b + "." + rest && '.' !in w && '.' !in b
    ensures ParseDollarAmount(input, assumePositive) == Wrap64(Multiplier(input, assumePositive) * Wrap64(ParseInt(w) * 100))
  {
    MagnitudeOfManyPeriods(w, b, rest);
  }

  /** "-100" without assumePositive: no period, so -100 dollars. */
  lemma ParseDollarAmountMinusHundred()
    ensures ParseDollarAmount("-100", false) == -10000
  {
    KeptAfterSign('-', "100");
    HundredParses();
    assert "-100"[..1] == "-" && "-100"[..2] == "-1";
    NegativeByDefault("-100");
    MagnitudeWithoutPeriod("100");
  }

  /** Three or more cent digits without a leading zero after the one period
      are dropped: only the whole dollars are read. */
  lemma ParseDollarAmountOfTooManyCents(input: string, assumePositive: bool, w: string, c: string)
    requires KeepDigitsAndDots(input) == w + "." + c
    requires AllDigits(w) && AllDigits(c) && |c| >= 3 && c[0] != '0'
    ensures ParseDollarAmount(input, assumePositive) == Wrap64(Multiplier(input, assumePositive) * Wrap64(ParseInt(w) * 100))
  {
    MagnitudeOfPieces(w, c);
    CentsOfTooManyDigits(c);
  }

  /** Without assumePositive an amount is negative unless it starts with
      "+" or "$+". */
  lemma NegativeByDefault(input: string)
    requires !HasPrefix(input, "+") && !HasPrefix(input, "$+")
    ensures Multiplier(input, false) == -1
  {
  }

  /** A leading character that is neither a digit nor a period is dropped. */
  lemma KeptAfterSign(c: char, s: string)
    requires !IsDigit(c) && c != '.'
    requires forall i :: 0 <= i < |s| ==> IsDigit(s[i]) || s[i] == '.'
    ensures KeepDigitsAndDots([c] + s) == s
  {
    assert ([c] + s)[1..] == s;
  }

  /** The digits "100" read as one hundred. */
  lemma HundredParses()
    ensures ParseInt("100") == 100
  {
    assert "100"[..2] == "10" && "10"[..1] == "1" && "1"[..0] == [];
    assert DigitsValue("100") == 100;
    ParseIntOfDigits("100");
  }

  /** A single digit after the period is tenths of a dollar, unless it is 0. */
  lemma CentsOfOneDigit(d: char)
    requires IsDigit(d)
    ensures CentsOf([d]) == if d == '0' then 0 else 10 * DigitValue(d)
  {
    assert [d][..|[d]| - 1] == [];
    ParseIntOfDigits([d]);
  }

  /** Three or more cent digits without a leading zero are discarded. */
  lemma CentsOfTooManyDigits(frac: string)
    requires AllDigits(frac) && |frac| >= 3 && frac[0] != '0'
    ensures CentsOf(frac) == 0
  {
    DigitsValueAtLeast(frac);
    Pow10AtLeast(|frac| - 1);
    ParseIntOfDigitString(frac);
  }

  lemma {:induction false} Pow10AtLeast(k: nat)
    requires k >= 2
    ensures Pow10(k) >= 100
  {
    if k > 2 {
      Pow10AtLeast(k - 1);
    }
  }

  /** In int64 arithmetic MinInt64 is its own negation. */
  lemma NegateMinInt64()
    ensures Wrap64(-MinInt64) == MinInt64 && Wrap64(-1 * MinInt64) == MinInt64
  {
  }

  /** int64 negation undone. */
  lemma NegateTwice(w: int)
    requires MinInt64 <= w <= MaxInt64
    ensures Wrap64(-Wrap64(-1 * w)) == w && Wrap64(1 * w) == w
  {
    if w == MinInt64 {
      NegateMinInt64();
    } else {
      assert Wrap64(-1 * w) == -w;
    }
  }

  /** Without a sign prefix, assumePositive = true reads the int64 negation
      of what assumePositive = false reads. */
  lemma AssumePositiveNegates(input: string)
    requires !HasPrefix(input, "+") && !HasPrefix(input, "$+")
    requires !HasPrefix(input, "-") && !HasPrefix(input, "$-")
    ensures ParseDollarAmount(input, true) == Wrap64(-ParseDollarAmount(input, false))
  {
    var m := Magnitude(KeepDigitsAndDots(input));
    assert Multiplier(input, true) == 1 && Multiplier(input, false) == -1;
    assert ParseDollarAmount(input, true) == m;
    assert ParseDollarAmount(input, false) == Wrap64(-1 * m);
    NegateTwice(m);
  }

  /** A leading "+" makes a figure positive without assumePositive. */
  lemma PlusPrefixNegates(input: string)
    requires !HasPrefix(input, "+") && !HasPrefix(input, "$+")
    ensures ParseDollarAmount("+" + input, false) == Wrap64(-ParseDollarAmount(input, false))
  {
    PlusPrefixKept(input);
    PlusPrefixSign(input);
    OppositeMultipliers("+" + input, input);
  }

  /** Two figures with the same digits and opposite signs read as int64
      negations of each other. */
  lemma OppositeMultipliers(x: string, y: string)
    requires KeepDigitsAndDots(x) == KeepDigitsAndDots(y)
    requires Multiplier(x, false) == 1 && Multiplier(y, false) == -1
    ensures ParseDollarAmount(x, false) == Wrap64(-ParseDollarAmount(y, false))
  {
    var m := Magnitude(KeepDigitsAndDots(y));
    OppositeSigns(ParseDollarAmount(x, false), ParseDollarAmount(y, false), m);
  }

  lemma OppositeSigns(p: int, q: int, m: int)
    requires MinInt64 <= m <= MaxInt64 && p == Wrap64(1 * m) && q == Wrap64(-1 * m)
    ensures p == Wrap64(-q)
  {
    NegateTwice(m);
  }

  lemma PlusPrefixKept(input: string)
    ensures KeepDigitsAndDots("+" + input) == KeepDigitsAndDots(input)
  {
    KeepDigitsAndDotsAppend("+", input);
    assert KeepDigitsAndDots("+") == [];
  }

  lemma PlusPrefixSign(input: string)
    requires !HasPrefix(input, "+") && !HasPrefix(input, "$+")
    ensures Multiplier("+" + input, false) == 1 && Multiplier(input, false) == -1
  {
    assert ("+" + input)[..1] == "+";
  }

  /** The digits "<whole>.<cents>" read back as whole * 100 + cents. */
  lemma MagnitudeOfPieces(w: string, c: string)
    requires AllDigits(w) && AllDigits(c)
    ensures Magnitude(w + "." + c) == Wrap64(Wrap64(ParseInt(w) * 100) + CentsOf(c))
  {
    assert '.' !in w by { assert forall i :: 0 <= i < |w| ==> w[i] != '.'; }
    assert '.' !in c by { assert forall i :: 0 <= i < |c| ==> c[i] != '.'; }
    SplitWithoutSeparator(c, '.');
    SplitAfterPiece(w, '.', c);
  }

  /** Only the digits and the period of a formatted amount are kept. */
  lemma KeptOfFormatted(prefix: string, w: string, c: string)
    requires AllDigits(w) && AllDigits(c) && KeepDigitsAndDots(prefix) == []
    ensures KeepDigitsAndDots(prefix + w + "." + c) == w + "." + c
  {
    var pw := prefix + w;
    KeepDigitsAndDotsAppend(prefix, w);
    KeepDigitsAndDotsOfDigits(w);
    assert KeepDigitsAndDots(pw) == w;
    KeepDigitsAndDotsAppend(pw, ".");
    assert KeepDigitsAndDots(".") == ".";
    KeepDigitsAndDotsAppend(pw + ".", c);
    KeepDigitsAndDotsOfDigits(c);
  }

  /** No sign text FormatAsCurrency writes survives the filter. */
  lemma KeptOfSignText(a: int)
    ensures KeepDigitsAndDots(SignText(a)) == []
  {
    var p := SignText(a);
    assert KeepDigitsAndDots(p) == KeepDigitsAndDots(p[1..]);
    if |p| > 1 {
      assert KeepDigitsAndDots(p[1..]) == KeepDigitsAndDots(p[2..]);
    }
  }

  /** Reading a dollar figure back: the amount FormatAsCurrency prints parses
      back to itself with assumePositive, and to minus its magnitude
      without it, for every int64 amount. */
  lemma ParseFormatAsCurrency(a: int)
    requires MinInt64 <= a <= MaxInt64
    ensures ParseDollarAmount(FormatAsCurrency(a), true) == a
    ensures ParseDollarAmount(FormatAsCurrency(a), false) == if a > 0 then -a else a
  {
    if a == 0 {
      ParseFormatZero();
    } else {
      var r := FormatAsCurrency(a);
      FormattedParts(a);
      SignedMagnitude(a);
      var g := Magnitude(KeepDigitsAndDots(r));
      assert ParseDollarAmount(r, true) == Wrap64(Multiplier(r, true) * g);
      assert ParseDollarAmount(r, false) == Wrap64(-1 * g);
      if a > 0 {
        assert Multiplier(r, true) * g == 1 * Wrap64(Abs(a));
      } else {
        assert Multiplier(r, true) * g == -1 * Wrap64(Abs(a));
      }
    }
  }

  /** What ParseDollarAmount sees of a formatted non-zero amount: the
      wrapped magnitude and the amount's sign. */
  lemma FormattedParts(a: int)
    requires MinInt64 <= a <= MaxInt64 && a != 0
    ensures Magnitude(KeepDigitsAndDots(FormatAsCurrency(a))) == Wrap64(Abs(a))
    ensures Multiplier(FormatAsCurrency(a), true) == if a > 0 then 1 else -1
    ensures Multiplier(FormatAsCurrency(a), false) == -1
  {
    var n := Abs(a);
    var rest := WholeDigits(n) + "." + CentDigits(n);
    FormattedRest(a);
    DigitsMagnitude(n);
    MultiplierOfFormatted(a, rest);
  }

  /** A formatted amount is its sign text and then only digits and one period. */
  lemma FormattedRest(a: int)
    requires MinInt64 <= a <= MaxInt64 && a != 0
    ensures var rest := WholeDigits(Abs(a)) + "." + CentDigits(Abs(a));
            FormatAsCurrency(a) == SignText(a) + rest &&
            KeepDigitsAndDots(FormatAsCurrency(a)) == rest &&
            rest != [] && IsDigit(rest[0])
  {
    var n := Abs(a);
    var w, c := WholeDigits(n), CentDigits(n);
    FormatAsCurrencyPieces(a);
    Reassociate(SignText(a), w, c);
    PiecesParse(n);
    KeptOfSignText(a);
    KeptOfFormatted(SignText(a), w, c);
    assert (w + "." + c)[0] == w[0];
  }

  lemma Reassociate(p: string, w: string, c: string)
    ensures p + w + "." + c == p + (w + "." + c)
  {
  }

  /** The magnitude of the digits of n written as whole dollars and cents. */
  lemma DigitsMagnitude(n: nat)
    requires 0 < n <= -MinInt64
    ensures Magnitude(WholeDigits(n) + "." + CentDigits(n)) == Wrap64(n)
  {
    PiecesParse(n);
    MagnitudeOfPieces(WholeDigits(n), CentDigits(n));
    MagnitudeOfDigits(n);
  }

  /** Whole dollars and cents recombine to the magnitude, wrapped for 2^63. */
  lemma MagnitudeOfDigits(n: nat)
    requires 0 < n <= -MinInt64
    ensures Wrap64(Wrap64((n / 100) * 100) + n % 100) == Wrap64(n)
  {
    assert (n / 100) * 100 <= MaxInt64;
    assert (n / 100) * 100 + n % 100 == n;
  }

  /** The sign times the wrapped magnitude is the amount again. */
  lemma SignedMagnitude(a: int)
    requires MinInt64 <= a <= MaxInt64 && a != 0
    ensures Wrap64((if a > 0 then 1 else -1) * Wrap64(Abs(a))) == a
    ensures Wrap64(-1 * Wrap64(Abs(a))) == if a > 0 then -a else a
  {
    if a == MinInt64 {
      NegateMinInt64();
      assert Wrap64(Abs(a)) == MinInt64;
    } else {
      assert Wrap64(Abs(a)) == Abs(a);
    }
  }

  lemma ParseFormatZero()
    ensures ParseDollarAmount(FormatAsCurrency(0), true) == 0
    ensures ParseDollarAmount(FormatAsCurrency(0), false) == 0
  {
    var r := FormatAsCurrency(0);
    assert r == "$" + "0" + "." + "00";
    assert KeepDigitsAndDots("$") == [];
    KeptOfFormatted("$", "0", "00");
    ZeroMagnitude();
    assert Magnitude(KeepDigitsAndDots(r)) == 0;
  }

  lemma ZeroMagnitude()
    ensures Magnitude("0" + "." + "00") == 0
  {
    MagnitudeOfPieces("0", "00");
    ParseIntOfNatToString(0);
    assert NatToString(0) == "0";
    assert Zeros(1) + "0" == "00";
    DigitsValueLeadingZeros(1, "0");
    DigitsValueOfNatToString(0);
    ParseIntOfDigits("00");
    assert CentsOf("00") == 0;
  }

  /** The sign a formatted amount carries is the one Multiplier reads. */
  lemma MultiplierOfFormatted(a: int, rest: string)
    requires MinInt64 <= a <= MaxInt64 && a != 0 && rest != [] && IsDigit(rest[0])
    ensures Multiplier(SignText(a) + rest, true) == if a > 0 then 1 else -1
    ensures Multiplier(SignText(a) + rest, false) == -1
  {
    var r := SignText(a) + rest;
    assert r[0] == '$';
    if a > 0 {
      assert r[1] == rest[0];
    } else {
      assert r[..2] == "$-";
    }
  }

  // ------------------------------------------------------------ date strings

  /** fmt.Sprintf("%04v-%02v-%02v", y, m, d): for a year of four digits
      and a month and day of two, ten characters laid out as YYYY-MM-DD. */
  function GetDateString(y: int, m: int, d: int): (r: string)
    ensures IsDateLayout(y, m, d) ==>
              |r| == 10 && r[4] == '-' && r[7] == '-' && AllDigits(r[..4]) && AllDigits(r[5..7]) && AllDigits(r[8..])
  {
    var a, b, c := FormatPadded(y, 4), FormatPadded(m, 2), FormatPadded(d, 2);
    if IsDateLayout(y, m, d) then
      PaddedWidth(y, 4);
      PaddedWidth(m, 2);
      PaddedWidth(d, 2);
      DateLayout(a, b, c);
      a + "-" + b + "-" + c
    else
      a + "-" + b + "-" + c
  }

  /** Four digits, two and two, joined by '-', are laid out as YYYY-MM-DD. */
  lemma DateLayout(a: string, b: string, c: string)
    requires |a| == 4 && |b| == 2 && |c| == 2 && AllDigits(a) && AllDigits(b) && AllDigits(c)
    ensures var r := a + "-" + b + "-" + c;
            |r| == 10 && r[4] == '-' && r[7] == '-' && AllDigits(r[..4]) && AllDigits(r[5..7]) && AllDigits(r[8..])
  {
    var r := a + "-" + b + "-" + c;
    assert r[..4] == a && r[5..7] == b && r[8..] == c;
  }

  /** A year of at most four digits, a month and a day of at most two. */
  predicate IsDateLayout(y: int, m: int, d: int)
  {
    0 <= y < 10000 && 0 <= m < 100 && 0 <= d < 100
  }

  /** A non-negative number below 10^width is padded to exactly width digits. */
  lemma PaddedWidth(x: int, width: nat)
    ensures 1 <= width && 0 <= x < Pow10(width) ==>
              |FormatPadded(x, width)| == width && AllDigits(FormatPadded(x, width))
  {
    if 1 <= width && 0 <= x < Pow10(width) {
      var s := NatToString(x);
      NatToStringWithin(x, width);
      var k: nat :| PadZeros(s, width) == Zeros(k) + s;
      DigitsValueLeadingZeros(k, s);
    }
  }

  /** A number below 10^k has at most k digits. */
  lemma {:induction false} NatToStringWithin(n: nat, k: nat)
    requires 1 <= k && n < Pow10(k)
    ensures |NatToString(n)| <= k
    decreases k
  {
    if n >= 10 {
      NatToStringWithin(n / 10, k - 1);
    }
  }

  /** The civil date (in UTC) of a time in Unix seconds. */
  function DateOfUnix(t: int): Civil
  {
    CivilFromDays(DayOfUnix(t))
  }

  /** GetNowDateString: the YYYY-MM-DD date of t, ten characters for any
      year from 0 to 9999. */
  function GetNowDateString(t: int): (r: string)
    ensures 0 <= DateOfUnix(t).year < 10000 ==> |r| == 10 && r[4] == '-' && r[7] == '-'
  {
    var c := DateOfUnix(t);
    GetDateString(c.year, c.month, c.day)
  }

  /** GetDefaultEndDateString: the date of t with one added to the year. */
  function GetDefaultEndDateString(t: int): (r: string)
    ensures 0 <= DateOfUnix(t).year < 9999 ==> |r| == 10 && r[4] == '-' && r[7] == '-'
  {
    var c := DateOfUnix(t);
    GetDateString(c.year + 1, c.month, c.day)
  }

  /** ParseYearMonthDateString: the three '-'-separated numbers of a date
      string, each read with strconv.ParseInt; (0, 0, 0) unless there are
      exactly three pieces. A piece that is not a number gives 0, and no
      piece can carry a minus sign, so no field is negative. */
  function ParseYearMonthDateString(input: string): (r: (int, int, int))
    ensures |Split(input, '-')| != 3 ==> r == (0, 0, 0)
    ensures MinInt64 <= r.0 <= MaxInt64 && MinInt64 <= r.1 <= MaxInt64 && MinInt64 <= r.2 <= MaxInt64
    ensures r.0 >= 0 && r.1 >= 0 && r.2 >= 0
    ensures var vals := Split(input, '-');
            |vals| == 3 ==>
              (NoNumber(vals[0]) ==> r.0 == 0) && (NoNumber(vals[1]) ==> r.1 == 0) && (NoNumber(vals[2]) ==> r.2 == 0)
  {
    var vals := Split(input, '-');
    if |vals| != 3 then (0, 0, 0)
    else
      assert vals[0] == [] || vals[0][0] in vals[0];
      assert vals[1] == [] || vals[1][0] in vals[1];
      assert vals[2] == [] || vals[2][0] in vals[2];
      ParseIntOfNoNumber(vals[0]);
      ParseIntOfNoNumber(vals[1]);
      ParseIntOfNoNumber(vals[2]);
      (ParseInt(vals[0]), ParseInt(vals[1]), ParseInt(vals[2]))
  }

  /** A zero-padded non-negative number is a digit string that parses back. */
  lemma PaddedParses(x: nat, width: int)
    requires x <= MaxInt64
    ensures '-' !in FormatPadded(x, width)
    ensures ParseInt(FormatPadded(x, width)) == x
  {
    ParseIntOfPadded(x, width);
    var s := NatToString(x);
    var k: nat :| PadZeros(s, width) == Zeros(k) + s;
    DigitsValueLeadingZeros(k, s);
    var p := FormatPadded(x, width);
    assert AllDigits(p);
    assert forall i :: 0 <= i < |p| ==> p[i] != '-';
  }

  /** Date strings round-trip: ParseYearMonthDateString reads back the
      numbers GetDateString wrote, whenever none of them is negative. */
  lemma ParseGetDateString(y: int, m: int, d: int)
    requires 0 <= y <= MaxInt64 && 0 <= m <= MaxInt64 && 0 <= d <= MaxInt64
    ensures ParseYearMonthDateString(GetDateString(y, m, d)) == (y, m, d)
  {
    var a, b, c := FormatPadded(y, 4), FormatPadded(m, 2), FormatPadded(d, 2);
    PaddedParses(y, 4);
    PaddedParses(m, 2);
    PaddedParses(d, 2);
    SplitThree(a, b, c, '-');
  }

  /** The string of today's date reads back as the day of t. */
  lemma ParseGetNowDateString(t: int)
    requires 0 <= DateOfUnix(t).year <= MaxInt64
    ensures var (y, m, d) := ParseYearMonthDateString(GetNowDateString(t));
            DaysFromCivil(y, m, d) == DayOfUnix(t)
  {
    var c := DateOfUnix(t);
    ParseGetDateString(c.year, c.month, c.day);
    DaysFromCivilOfCivilFromDays(DayOfUnix(t));
  }

  /** The default end date reads back as a day 365 or 366 days after t's day. */
  lemma ParseGetDefaultEndDateString(t: int)
    requires 0 <= DateOfUnix(t).year < MaxInt64
    ensures var (y, m, d) := ParseYearMonthDateString(GetDefaultEndDateString(t));
            365 <= DaysFromCivil(y, m, d) - DayOfUnix(t) <= 366
  {
    var c := DateOfUnix(t);
    ParseGetDateString(c.year + 1, c.month, c.day);
    DaysFromCivilOfCivilFromDays(DayOfUnix(t));
    NextYearSameDate(c.year, c.month, c.day);
  }

  // ------------------------------------------------------------ name lists

  /** Every name followed by "; ", as GetCSVString appends them. */
  function Terminated(names: seq<string>): string
  {
    if names == [] then "" else Terminated(names[..|names| - 1]) + names[|names| - 1] + "; "
  }

  /** GetCSVString: "(n) " and then every name followed by "; ", or the
      empty string for no names. */
  method GetCSVString(input: seq<string>) returns (r: string)
    ensures input == [] ==> r == ""
    ensures input != [] ==> r == "(" + NatToString(|input|) + ") " + Terminated(input)
  {
    r := "";
    if |input| > 0 {
      r := "(" + NatToString(|input|) + ") ";
    }
    var head := r;
    var i := 0;
    while i < |input|
      invariant 0 <= i <= |input|
      invariant r == head + Terminated(input[..i])
    {
      assert input[..i + 1][..i] == input[..i];
      r := r + input[i] + "; ";
      i := i + 1;
    }
    assert input[..|input|] == input;
  }

  /** The names of a GetCSVString line are strings.Join(names, "; ") plus a
      trailing separator. */
  lemma {:induction false} TerminatedIsJoin(names: seq<string>)
    requires names != []
    ensures Terminated(names) == Join(names, "; ") + "; "
    decreases |names|
  {
    if |names| > 1 {
      TerminatedIsJoin(names[..|names| - 1]);
    } else {
      assert names[..0] == [];
    }
  }
}
