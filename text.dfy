/** Text building blocks the Go code takes from strconv, strings and fmt:
    decimal digits (strconv.Itoa, strconv.ParseInt), zero padding
    (fmt's %0Nv), prefixes and suffixes, strings.Split and joining. */
module Text {

  const MaxInt64: int := 0x7FFF_FFFF_FFFF_FFFF
  const MinInt64: int := -0x8000_0000_0000_0000
  const MaxUint64: int := 0xFFFF_FFFF_FFFF_FFFF

  /** Two's-complement wrap-around of a Go int64 result. */
  function Wrap64(x: int): (r: int)
    ensures MinInt64 <= r <= MaxInt64
    ensures MinInt64 <= x <= MaxInt64 ==> r == x
    ensures (r - x) % 0x1_0000_0000_0000_0000 == 0
  {
    var a := x - MinInt64;
    var q := a / 0x1_0000_0000_0000_0000;
    assert a == q * 0x1_0000_0000_0000_0000 + a % 0x1_0000_0000_0000_0000;
    a % 0x1_0000_0000_0000_0000 + MinInt64
  }

  // ---------------------------------------------------------------- digits

  predicate IsDigit(c: char) { '0' <= c <= '9' }

  predicate AllDigits(s: string) { forall i :: 0 <= i < |s| ==> IsDigit(s[i]) }

  function DigitChar(d: int): (c: char)
    requires 0 <= d < 10
    ensures IsDigit(c) && (c as int) - 48 == d
  {
    (48 + d) as char
  }

  function DigitValue(c: char): (d: nat)
    requires IsDigit(c)
    ensures d < 10 && DigitChar(d) == c
  {
    (c as int) - 48
  }

  /** strconv.Itoa of a non-negative value: its decimal digits, without
      leading zeros. */
  function NatToString(n: nat): (s: string)
    ensures AllDigits(s) && |s| >= 1
    ensures n < 10 <==> |s| == 1
    ensures n >= 100 ==> |s| >= 3
    ensures n > 0 ==> s[0] != '0'
    decreases n
  {
    if n < 10 then [DigitChar(n)] else NatToString(n / 10) + [DigitChar(n % 10)]
  }

  /** strconv.Itoa: a minus sign before the digits of a negative value. */
  function Itoa(x: int): (s: string)
    ensures x >= 0 ==> AllDigits(s)
    ensures (x >= 10 || x < 0) ==> |s| >= 2
  {
    if x < 0 then "-" + NatToString(-x) else NatToString(x)
  }

  /** The value of a string of decimal digits, most significant first. */
  function DigitsValue(s: string): nat
    requires AllDigits(s)
  {
    if s == [] then 0 else DigitsValue(s[..|s| - 1]) * 10 + DigitValue(s[|s| - 1])
  }

  lemma {:induction false} DigitsValueOfNatToString(n: nat)
    ensures DigitsValue(NatToString(n)) == n
    decreases n
  {
    var s := NatToString(n);
    if n >= 10 {
      DigitsValueOfNatToString(n / 10);
      assert s[..|s| - 1] == NatToString(n / 10);
    }
  }

  /** The digits of n >= 100 are the digits of n / 100 followed by the two
      digits of n % 100. */
  lemma NatToStringLastTwo(n: nat)
    requires n >= 100
    ensures var s := NatToString(n);
            s[..|s| - 2] == NatToString(n / 100) &&
            s[|s| - 2..] == [DigitChar(n / 10 % 10), DigitChar(n % 10)]
  {
    var s := NatToString(n);
    assert s == NatToString(n / 10) + [DigitChar(n % 10)];
    assert NatToString(n / 10) == NatToString(n / 10 / 10) + [DigitChar(n / 10 % 10)];
    assert n / 10 / 10 == n / 100;
  }

  function Zeros(k: nat): (z: string)
    ensures |z| == k && AllDigits(z)
    ensures forall i :: 0 <= i < k ==> z[i] == '0'
  {
    seq(k, _ => '0')
  }

  lemma {:induction false} DigitsValueOfZeros(k: nat)
    ensures DigitsValue(Zeros(k)) == 0
  {
    if k > 0 {
      assert Zeros(k)[..k - 1] == Zeros(k - 1);
      DigitsValueOfZeros(k - 1);
    }
  }

  /** Leading zeros do not change the value of a digit string. */
  lemma {:induction false} DigitsValueLeadingZeros(k: nat, s: string)
    requires AllDigits(s)
    ensures AllDigits(Zeros(k) + s) && DigitsValue(Zeros(k) + s) == DigitsValue(s)
    decreases |s|
  {
    var t := Zeros(k) + s;
    assert AllDigits(t) by {
      forall i | 0 <= i < |t| ensures IsDigit(t[i]) {
        if i < k { assert t[i] == Zeros(k)[i]; } else { assert t[i] == s[i - k]; }
      }
    }
    if s == [] {
      assert t == Zeros(k);
      DigitsValueOfZeros(k);
    } else {
      DigitsValueLeadingZeros(k, s[..|s| - 1]);
      assert t[..|t| - 1] == Zeros(k) + s[..|s| - 1];
    }
  }

  /** fmt's zero padding of a digit string to `width` characters. */
  function PadZeros(s: string, width: int): (r: string)
    ensures |s| >= width ==> r == s
    ensures |s| < width ==> |r| == width
    ensures exists k: nat :: r == Zeros(k) + s
  {
    if |s| >= width then
      assert s == Zeros(0) + s;
      s
    else
      Zeros(width - |s|) + s
  }

  /** fmt.Sprintf("%0<width>v", x) of an integer: zero padding goes after
      the sign, and the sign counts towards the width. */
  function FormatPadded(x: int, width: int): string
  {
    if x < 0 then "-" + PadZeros(NatToString(-x), width - 1) else PadZeros(NatToString(x), width)
  }

  // ---------------------------------------------------------- strconv.ParseInt

  /** The outcome of strconv.ParseUint(s, 10, 64). */
  datatype UintScan = Scanned(value: nat) | SyntaxError | RangeError

  /** The digit loop of strconv.ParseUint in base 10 with 64 bits: a
      non-digit is a syntax error, unless the value has already overflowed,
      which stops the scan first with a range error. */
  function ScanDigits(s: string, acc: nat): UintScan
    decreases |s|
  {
    if s == [] then Scanned(acc)
    else if !IsDigit(s[0]) then SyntaxError
    else if acc * 10 + DigitValue(s[0]) > MaxUint64 then RangeError
    else ScanDigits(s[1..], acc * 10 + DigitValue(s[0]))
  }

  /** strconv.ParseInt(s, 10, 64) with its error discarded, as the callers
      do: an optional '+' or '-', then at least one digit; a syntax error
      gives 0 and a value out of range saturates at the int64 bound. */
  function ParseInt(s: string): (r: int)
    ensures MinInt64 <= r <= MaxInt64
    ensures s == [] || s[0] != '-' ==> r >= 0
  {
    if s == [] then 0
    else
      var neg := s[0] == '-';
      var digits := if s[0] == '+' || s[0] == '-' then s[1..] else s;
      var un := if digits == [] then SyntaxError else ScanDigits(digits, 0);
      match un
      case SyntaxError => 0
      case RangeError => if neg then MinInt64 else MaxInt64
      case Scanned(u) =>
        if !neg && u > MaxInt64 then MaxInt64
        else if neg && u > -MinInt64 then MinInt64
        else if neg then -(u as int)
        else u
  }

  /** The value the digit loop accumulates, without the overflow check. */
  function Accumulate(s: string, acc: nat): (r: nat)
    requires AllDigits(s)
    ensures r >= acc
    decreases |s|
  {
    if s == [] then acc else Accumulate(s[1..], acc * 10 + DigitValue(s[0]))
  }

  lemma {:induction false} ScanDigitsAccumulates(s: string, acc: nat)
    requires AllDigits(s) && acc <= MaxUint64
    ensures ScanDigits(s, acc) == if Accumulate(s, acc) <= MaxUint64 then Scanned(Accumulate(s, acc)) else RangeError
    decreases |s|
  {
    if s != [] {
      var next := acc * 10 + DigitValue(s[0]);
      assert Accumulate(s, acc) == Accumulate(s[1..], next);
      if next <= MaxUint64 {
        ScanDigitsAccumulates(s[1..], next);
      }
    }
  }

  lemma {:induction false} AccumulateAppend(s: string, c: char, acc: nat)
    requires AllDigits(s) && IsDigit(c)
    ensures AllDigits(s + [c]) && Accumulate(s + [c], acc) == Accumulate(s, acc) * 10 + DigitValue(c)
    decreases |s|
  {
    assert AllDigits(s + [c]) by {
      forall i | 0 <= i < |s| + 1 ensures IsDigit((s + [c])[i]) {
        if i < |s| { assert (s + [c])[i] == s[i]; }
      }
    }
    if s != [] {
      AccumulateAppend(s[1..], c, acc * 10 + DigitValue(s[0]));
      assert (s + [c])[1..] == s[1..] + [c];
    }
  }

  lemma {:induction false} AccumulateIsDigitsValue(s: string)
    requires AllDigits(s)
    ensures Accumulate(s, 0) == DigitsValue(s)
    decreases |s|
  {
    if s != [] {
      var p := s[..|s| - 1];
      AccumulateIsDigitsValue(p);
      AccumulateAppend(p, s[|s| - 1], 0);
      assert p + [s[|s| - 1]] == s;
    }
  }

  function Pow10(k: nat): (p: nat)
    ensures p >= 1
  {
    if k == 0 then 1 else 10 * Pow10(k - 1)
  }

  /** A digit string without a leading zero is at least 10^(length - 1). */
  lemma {:induction false} DigitsValueAtLeast(s: string)
    requires AllDigits(s) && |s| >= 1 && s[0] != '0'
    ensures DigitsValue(s) >= Pow10(|s| - 1)
    decreases |s|
  {
    if |s| > 1 {
      DigitsValueAtLeast(s[..|s| - 1]);
    }
  }

  /** A string of digits parses to its value, saturated at MaxInt64; the
      empty string parses to 0. */
  lemma ParseIntOfDigitString(s: string)
    requires AllDigits(s)
    ensures s == [] ==> ParseInt(s) == 0
    ensures s != [] ==> ParseInt(s) == if DigitsValue(s) <= MaxInt64 then DigitsValue(s) else MaxInt64
  {
    if s != [] {
      ScanDigitsAccumulates(s, 0);
      AccumulateIsDigitsValue(s);
    }
  }

  /** A non-empty digit string whose value fits in an int64 parses to that value. */
  lemma ParseIntOfDigits(s: string)
    requires s != [] && AllDigits(s) && DigitsValue(s) <= MaxInt64
    ensures ParseInt(s) == DigitsValue(s)
  {
    ScanDigitsAccumulates(s, 0);
    AccumulateIsDigitsValue(s);
  }

  /** strconv.ParseInt(strconv.Itoa(n)) == n for every natural n up to MaxInt64. */
  lemma ParseIntOfNatToString(n: nat)
    requires n <= MaxInt64
    ensures ParseInt(NatToString(n)) == n
  {
    DigitsValueOfNatToString(n);
    ParseIntOfDigits(NatToString(n));
  }

  /** Parsing x zero-padded to any width gives x back, for 0 <= x <= MaxInt64. */
  lemma ParseIntOfPadded(x: nat, width: int)
    requires x <= MaxInt64
    ensures ParseInt(PadZeros(NatToString(x), width)) == x
  {
    var s := NatToString(x);
    var k: nat :| PadZeros(s, width) == Zeros(k) + s;
    DigitsValueOfNatToString(x);
    DigitsValueLeadingZeros(k, s);
    ParseIntOfDigits(Zeros(k) + s);
  }

  /** A '-' before a non-empty digit string negates its value, saturating
      at MinInt64; a '+' is dropped, saturating at MaxInt64. */
  lemma ParseIntOfSignedDigits(d: string)
    requires d != [] && AllDigits(d)
    ensures ParseInt("-" + d) == if DigitsValue(d) <= -MinInt64 then -(DigitsValue(d) as int) else MinInt64
    ensures ParseInt("+" + d) == if DigitsValue(d) <= MaxInt64 then DigitsValue(d) else MaxInt64
  {
    ScanDigitsAccumulates(d, 0);
    AccumulateIsDigitsValue(d);
    assert ("-" + d)[1..] == d;
    assert ("+" + d)[1..] == d;
  }

  /** strconv.ParseInt(strconv.Itoa(x)) == x for every int64 x, negative
      ones included. */
  lemma ParseIntOfItoa(x: int)
    requires MinInt64 <= x <= MaxInt64
    ensures ParseInt(Itoa(x)) == x
  {
    if x < 0 {
      DigitsValueOfNatToString(-x);
      ParseIntOfSignedDigits(NatToString(-x));
    } else {
      ParseIntOfNatToString(x);
    }
  }

  /** What ParseInt scans: the text after an optional leading sign. */
  function Unsigned(s: string): (u: string)
    ensures |u| <= |s|
  {
    if s != [] && (s[0] == '+' || s[0] == '-') then s[1..] else s
  }

  /** The inputs strconv.ParseInt rejects with a syntax error: nothing
      after the optional sign, or a character that is not a digit
      reached while the digits before it still fit in a uint64. */
  predicate NoNumber(s: string)
  {
    var u := Unsigned(s);
    u == [] || exists k :: 0 <= k < |u| && !IsDigit(u[k]) && AllDigits(u[..k]) && DigitsValue(u[..k]) <= MaxUint64
  }

  /** The digit loop stops with a syntax error at the first non-digit
      when the digits before it have not overflowed. */
  lemma {:induction false} ScanDigitsSyntaxError(s: string, acc: nat, k: nat)
    requires k < |s| && !IsDigit(s[k]) && AllDigits(s[..k]) && Accumulate(s[..k], acc) <= MaxUint64
    ensures ScanDigits(s, acc) == SyntaxError
    decreases k
  {
    if k > 0 {
      var next := acc * 10 + DigitValue(s[0]);
      assert s[..k][1..] == s[1..][..k - 1];
      assert Accumulate(s[..k], acc) == Accumulate(s[1..][..k - 1], next);
      ScanDigitsSyntaxError(s[1..], next, k - 1);
    }
  }

  /** Text that is not a number reads as 0, since the callers discard
      strconv's error and keep its zero result. */
  lemma ParseIntOfNoNumber(s: string)
    ensures NoNumber(s) ==> ParseInt(s) == 0
  {
    var u := Unsigned(s);
    if NoNumber(s) && u != [] {
      var k :| 0 <= k < |u| && !IsDigit(u[k]) && AllDigits(u[..k]) && DigitsValue(u[..k]) <= MaxUint64;
      AccumulateIsDigitsValue(u[..k]);
      ScanDigitsSyntaxError(u, 0, k);
    }
  }

  /** Once the digits read so far exceed the uint64 range, the digit loop
      stops with a range error, whatever follows them. */
  lemma {:induction false} ScanDigitsRangeError(s: string, acc: nat, k: nat)
    requires acc <= MaxUint64 && 0 < k <= |s| && AllDigits(s[..k]) && Accumulate(s[..k], acc) > MaxUint64
    ensures ScanDigits(s, acc) == RangeError
    decreases k
  {
    var next := acc * 10 + DigitValue(s[0]);
    if next <= MaxUint64 {
      assert s[..k][1..] == s[1..][..k - 1];
      assert Accumulate(s[..k], acc) == Accumulate(s[1..][..k - 1], next);
      ScanDigitsRangeError(s[1..], next, k - 1);
    }
  }

  /** Digits that overflow a uint64 saturate at the int64 bound of the
      sign, even when a non-digit comes after them: strconv reports the
      range error at the overflowing digit, before it reaches the rest. */
  lemma ParseIntOfOverflow(s: string, k: nat)
    requires k <= |Unsigned(s)| && AllDigits(Unsigned(s)[..k]) && DigitsValue(Unsigned(s)[..k]) > MaxUint64
    ensures s != [] && ParseInt(s) == if s[0] == '-' then MinInt64 else MaxInt64
  {
    var u := Unsigned(s);
    AccumulateIsDigitsValue(u[..k]);
    ScanDigitsRangeError(u, 0, k);
  }

  // ------------------------------------------------------- prefixes, suffixes

  predicate HasPrefix(s: string, p: string) { |p| <= |s| && s[..|p|] == p }

  predicate HasSuffix(s: string, x: string) { |x| <= |s| && s[|s| - |x|..] == x }

  /** strings.TrimSuffix. */
  function TrimSuffix(s: string, x: string): (r: string)
    ensures HasSuffix(s, x) ==> r + x == s
    ensures !HasSuffix(s, x) ==> r == s
  {
    if HasSuffix(s, x) then s[..|s| - |x|] else s
  }

  // ------------------------------------------------------------ split, join

  /** strings.Split with a one-character separator: the pieces between the
      separators, one more piece than there are separators. */
  function Split(s: string, sep: char): (r: seq<string>)
    ensures |r| >= 1
    ensures forall i :: 0 <= i < |r| ==> sep !in r[i]
    decreases |s|
  {
    if s == [] then [""]
    else
      var rest := Split(s[1..], sep);
      if s[0] == sep then [""] + rest else [[s[0]] + rest[0]] + rest[1..]
  }

  /** strings.Join. */
  function Join(xs: seq<string>, sep: string): string
  {
    if |xs| == 0 then ""
    else if |xs| == 1 then xs[0]
    else Join(xs[..|xs| - 1], sep) + sep + xs[|xs| - 1]
  }

  /** Split undoes joining with the separator. */
  lemma {:induction false} JoinOfSplit(s: string, sep: char)
    ensures JoinFront(Split(s, sep), [sep]) == s
    decreases |s|
  {
    if s != [] {
      JoinOfSplit(s[1..], sep);
    }
  }

  /** Joining, built from the front (the shape Split produces). */
  function JoinFront(xs: seq<string>, sep: string): string
  {
    if |xs| == 0 then ""
    else if |xs| == 1 then xs[0]
    else xs[0] + sep + JoinFront(xs[1..], sep)
  }

  /** A string without the separator is a single piece. */
  lemma {:induction false} SplitWithoutSeparator(s: string, sep: char)
    requires sep !in s
    ensures Split(s, sep) == [s]
    decreases |s|
  {
    if s != [] {
      assert s[0] != sep && sep !in s[1..];
      SplitWithoutSeparator(s[1..], sep);
      assert [s[0]] + s[1..] == s;
    }
  }

  /** Three separator-free pieces joined by the separator split back into
      the three. */
  lemma SplitThree(a: string, b: string, c: string, sep: char)
    requires sep !in a && sep !in b && sep !in c
    ensures Split(a + [sep] + b + [sep] + c, sep) == [a, b, c]
  {
    SplitWithoutSeparator(c, sep);
    SplitAfterPiece(b, sep, c);
    SplitAfterPiece(a, sep, b + [sep] + c);
    assert a + [sep] + b + [sep] + c == a + [sep] + (b + [sep] + c);
  }

  /** A separator that follows a separator-free piece ends that piece. */
  lemma {:induction false} SplitAfterPiece(a: string, sep: char, b: string)
    requires sep !in a
    ensures Split(a + [sep] + b, sep) == [a] + Split(b, sep)
    decreases |a|
  {
    if a != [] {
      assert a[0] != sep && sep !in a[1..];
      SplitAfterPiece(a[1..], sep, b);
      assert (a + [sep] + b)[0] == a[0];
      assert (a + [sep] + b)[1..] == a[1..] + [sep] + b;
      assert [a[0]] + a[1..] == a;
    } else {
      assert (a + [sep] + b)[1..] == b;
    }
  }
}
