/**
  Printing numerator * scale / denominator with twelve decimals by long division, rounding half up.
  */
module PrintRatio {
  import opened Bits
  import FormatUint
  import opened Words

  type Long = x: nat | x < 0x1_0000_0000_0000_0000

  const E12: nat := 1_000_000_000_000

  predicate IsDigits(s: seq<char>) {
    forall i :: 0 <= i < |s| ==> '0' <= s[i] <= '9'
  }

  function Digit(c: char): int {
    c as int - '0' as int
  }

  /** The number written as a whole part followed by decimal digits, without the point. */
  function Number(whole: nat, s: seq<char>): int {
    if s == [] then whole else 10 * Number(whole, s[..|s| - 1]) + Digit(s[|s| - 1])
  }

  function Ten(k: nat): nat {
    if k == 0 then 1 else 10 * Ten(k - 1)
  }

  /** x * 10^k */
  function TenTimes(x: nat, k: nat): nat
    decreases k
  {
    if k == 0 then x else 10 * TenTimes(x, k - 1)
  }

  // ----- digits -----

  lemma NumberSnoc(whole: nat, s: seq<char>, c: char)
    ensures Number(whole, s + [c]) == 10 * Number(whole, s) + Digit(c)
  {
    assert (s + [c])[..|s|] == s;
  }

  lemma {:induction false} NumberBounds(whole: nat, s: seq<char>)
    requires IsDigits(s)
    ensures TenTimes(whole, |s|) <= Number(whole, s) < TenTimes(whole, |s|) + Ten(|s|)
    decreases |s|
  {
    if s != [] {
      NumberBounds(whole, s[..|s| - 1]);
    }
  }

  lemma {:induction false} NineToZero(whole: nat, s: seq<char>, i: nat)
    requires i < |s| && s[i] == '9'
    ensures Number(whole, s[i := '0']) + 9 * Ten(|s| - 1 - i) == Number(whole, s)
    decreases |s|
  {
    var n := |s| - 1;
    if i == n {
      assert s[i := '0'][..n] == s[..n];
    } else {
      assert s[i := '0'][..n] == s[..n][i := '0'];
      NineToZero(whole, s[..n], i);
    }
  }

  lemma {:induction false} NextDigit(whole: nat, s: seq<char>, i: nat, c: char)
    requires i < |s| && Digit(c) == Digit(s[i]) + 1
    ensures Number(whole, s[i := c]) == Number(whole, s) + Ten(|s| - 1 - i)
    decreases |s|
  {
    var n := |s| - 1;
    if i == n {
      assert s[i := c][..n] == s[..n];
    } else {
      assert s[i := c][..n] == s[..n][i := c];
      NextDigit(whole, s[..n], i, c);
    }
  }

  lemma {:induction false} NextWhole(whole: nat, s: seq<char>)
    ensures Number(whole + 1, s) == Number(whole, s) + Ten(|s|)
    decreases |s|
  {
    if s != [] {
      NextWhole(whole, s[..|s| - 1]);
    }
  }

  // ----- rounding -----

  /** s / d rounded to the nearest integer, halves upwards. */
  function RoundHalfUp(s: nat, d: nat): nat
    requires d > 0
  {
    (2 * s + d) / (2 * d)
  }

  lemma QuotientBetween(n: nat, d: nat, q: nat)
    requires d > 0 && q * d <= n < q * d + d
    ensures n / d == q
  {
    QuotientIs(d, q, n - q * d);
  }

  /** Long division has found the quotient q and the remainder r of x by d. */
  predicate Division(q: int, d: nat, r: nat, x: nat) {
    q >= 0 && r < d && q * d + r == x
  }

  /** Its next step brings down a digit. */
  lemma BringDown(q: int, d: nat, r: nat, x: nat)
    requires Division(q, d, r, x)
    ensures 10 * r / d < 10 && Division(10 * q + 10 * r / d, d, 10 * r % d, 10 * x)
  {
    var x10, e, f := 10 * r, 10 * r / d, 10 * r % d;
    QuotientAndRemainder(x10, d);
    if e >= 10 {
      ProductGrows(10, e, d);
    }
    Distribute(q, e, d);
  }

  lemma QuotientAndRemainder(n: nat, d: nat)
    requires d > 0
    ensures n == n / d * d + n % d && n % d < d
  {
  }

  lemma Distribute(q: int, e: int, d: int)
    ensures (10 * q + e) * d == 10 * (q * d) + e * d
  {
  }

  lemma ProductGrows(a: nat, m: nat, b: nat)
    requires a <= m
    ensures a * b <= m * b
  {
  }

  lemma HalfQuotient(s: nat, d: nat, q: nat, m: nat)
    requires d > 0 && m == q * d && 2 * m <= 2 * s + d < 2 * m + 2 * d
    ensures RoundHalfUp(s, d) == q
  {
    assert q * (2 * d) == 2 * m;
    QuotientBetween(2 * s + d, 2 * d, q);
  }

  /** The thirteenth digit decides the rounding of the first twelve decimals. */
  lemma RoundByNextDigit(q: int, e: int, d: nat, r: nat, s: nat)
    requires q >= 0 && 0 <= e < 10 && Division(10 * q + e, d, r, 10 * s)
    ensures RoundHalfUp(s, d) == if e >= 5 then q + 1 else q
  {
    var m, g := q * d, e * d;
    assert 10 * m + g + r == 10 * s by {
      assert (10 * q + e) * d == 10 * m + g;
    }
    if e >= 5 {
      ProductGrows(5, e, d);
      ProductGrows(e, 9, d);
      HalfQuotient(s, d, q + 1, m + d);
    } else {
      ProductGrows(e, 4, d);
      HalfQuotient(s, d, q, m);
    }
  }

  // ----- the printer -----

  /** Decimal number i, from the remainder that the division has left. */
  method NextDecimal(remainder0: Long, denominator: Word, ghost q: int, ghost x: nat)
    returns (c: char, remainder: Long)
    requires Division(q, denominator, remainder0, x)
    ensures '0' <= c <= '9' && Division(10 * q + Digit(c), denominator, remainder, 10 * x)
  {
    BringDown(q, denominator, remainder0, x);
    remainder := remainder0 * 10;
    c := '0' + (remainder / denominator) as char;
    remainder := remainder % denominator;
  }

  /** Thirteen decimals of remainder / denominator by long division. */
  method Decimals(remainder0: Long, denominator: Word, fraction: array<char>, ghost whole: nat, ghost scaled: nat)
    returns (remainder: Long)
    requires fraction.Length == 13 && Division(whole, denominator, remainder0, scaled)
    modifies fraction
    ensures IsDigits(fraction[..])
    ensures Division(Number(whole, fraction[..]), denominator, remainder, TenTimes(scaled, 13))
  {
    remainder := remainder0;
    assert fraction[..0] == [];
    for i := 0 to 13
      invariant IsDigits(fraction[..i])
      invariant Division(Number(whole, fraction[..i]), denominator, remainder, TenTimes(scaled, i))
    {
      ghost var before := fraction[..i];
      var c;
      c, remainder := NextDecimal(remainder, denominator, Number(whole, before), TenTimes(scaled, i));
      fraction[i] := c;
      assert fraction[..i + 1] == before + [c];
      NumberSnoc(whole, before, c);
    }
    assert fraction[..13] == fraction[..];
  }

  /** Turns the nines at the end of twelve decimals into zeros; i is the digit before them, or -1. */
  method CarryNines(fraction: array<char>, ghost whole: nat) returns (i: int)
    requires fraction.Length == 13 && IsDigits(fraction[..12])
    modifies fraction
    ensures -1 <= i <= 11 && IsDigits(fraction[..12]) && (i >= 0 ==> fraction[i] != '9')
    ensures Number(whole, old(fraction[..12])) + 1 == Number(whole, fraction[..12]) + Ten(11 - i)
  {
    i := 11;
    while i >= 0 && fraction[i] == '9'
      invariant -1 <= i <= 11 && IsDigits(fraction[..12])
      invariant Number(whole, old(fraction[..12])) + 1 == Number(whole, fraction[..12]) + Ten(11 - i)
    {
      ghost var before := fraction[..12];
      fraction[i] := '0';
      assert fraction[..12] == before[i := '0'];
      NineToZero(whole, before, i);
      i := i - 1;
    }
  }

  /** Adds one unit in the last of twelve decimals, carrying through nines into the whole part. */
  method RoundUp(fraction: array<char>, whole0: Long) returns (whole: Long)
    requires fraction.Length == 13 && IsDigits(fraction[..12]) && whole0 + 1 < 0x1_0000_0000_0000_0000
    modifies fraction
    ensures IsDigits(fraction[..12])
    ensures Number(whole, fraction[..12]) == Number(whole0, old(fraction[..12])) + 1
  {
    whole := whole0;
    var i := CarryNines(fraction, whole);
    ghost var before := fraction[..12];
    if i >= 0 {
      fraction[i] := fraction[i] + 1 as char;
      assert fraction[..12] == before[i := fraction[i]];
      NextDigit(whole, before, i, fraction[i]);
    } else {
      NextWhole(whole, before);
      whole := whole + 1;
    }
  }

  lemma RoundedDigits(whole: nat, digits: seq<char>, last: char, d: nat, r: nat, x: nat)
    requires IsDigits(digits) && '0' <= last <= '9' && Division(Number(whole, digits + [last]), d, r, 10 * x)
    ensures RoundHalfUp(x, d) == Number(whole, digits) + if last >= '5' then 1 else 0
  {
    NumberSnoc(whole, digits, last);
    NumberBounds(whole, digits);
    RoundByNextDigit(Number(whole, digits), Digit(last), d, r, x);
  }

  /** Thirteen digits of long division and the rounding by the last of them. */
  method Divide(scaled: Long, denominator: Word) returns (whole: Long, decimals: string)
    requires denominator > 0 && scaled + 1 < 0x1_0000_0000_0000_0000
    ensures |decimals| == 12 && IsDigits(decimals)
    ensures Number(whole, decimals) == RoundHalfUp(TenTimes(scaled, 12), denominator)
  {
    whole := scaled / denominator;
    WholeFits(scaled, denominator);
    var fraction := new char[13](_ => '0');
    var remainder := Decimals(scaled % denominator, denominator, fraction, whole, scaled);
    assert fraction[..] == fraction[..12] + [fraction[12]];
    RoundedDigits(whole, fraction[..12], fraction[12], denominator, remainder, TenTimes(scaled, 12));
    if fraction[12] >= '5' {
      whole := RoundUp(fraction, whole);
    }
    decimals := fraction[..12];
  }

  lemma WholeFits(scaled: nat, d: nat)
    requires d > 0
    ensures scaled / d <= scaled && Division(scaled / d, d, scaled % d, scaled)
  {
    var q := scaled / d;
    assert scaled == q * d + scaled % d;
    Scale(q, d);
    assert d * q == q * d;
  }

  lemma TwelvePlaces(x: nat)
    ensures TenTimes(x, 12) == x * E12 && Ten(12) == E12
  {
  }

  lemma ScaledFits(a: Word, b: Word)
    ensures a * b + 1 < 0x1_0000_0000_0000_0000
  {
    ProductGrows(a, 0xffff_ffff, b);
  }

  lemma PrintedBound(printed: Word, s: seq<char>)
    requires |s| == 12 && IsDigits(s)
    ensures 0 <= Number(printed, s) < W * E12
  {
    NumberBounds(printed, s);
    TwelvePlaces(printed);
  }

  lemma ShiftWhole(printed: nat, k: nat, s: seq<char>)
    requires |s| == 12
    ensures Number(printed + W * k, s) == Number(printed, s) + k * (W * E12)
  {
    NumberShift(printed, W * k, s);
    TwelvePlaces(W * k);
  }

  /** Dropping multiples of 2^32 from the whole part. */
  lemma PrintedWhole(whole: nat, s: seq<char>)
    requires |s| == 12 && IsDigits(s)
    ensures Number(whole % W, s) == Number(whole, s) % (W * E12)
  {
    var printed, k := whole % W, whole / W;
    assert whole == printed + W * k;
    PrintedBound(printed, s);
    ShiftWhole(printed, k, s);
    DropMultiple(Number(printed, s), k);
  }

  lemma DropMultiple(a: nat, k: nat)
    requires a < W * E12
    ensures (a + k * (W * E12)) % (W * E12) == a
  {
    var m := W * E12;
    QuotientIs(m, k, a);
    Remainder(a, k, m);
  }

  lemma Remainder(a: nat, k: nat, m: nat)
    requires m > 0 && (k * m + a) / m == k
    ensures (a + k * m) % m == a
  {
  }

  lemma {:induction false} NumberShift(whole: nat, more: nat, s: seq<char>)
    ensures Number(whole + more, s) == Number(whole, s) + TenTimes(more, |s|)
    decreases |s|
  {
    if s != [] {
      NumberShift(whole, more, s[..|s| - 1]);
    }
  }

  /** The printed whole part and decimals. The whole part is printed as a 32-bit number, so the result is
      the rounded quotient whenever its whole part fits 32 bits. */
  method Ratio(numerator: Word, denominator: Word, scale: Word) returns (printed: Word, decimals: string)
    ensures |decimals| == 12 && IsDigits(decimals)
    ensures denominator == 0 ==> printed == 0 && decimals == "000000000000"
    ensures denominator > 0 ==>
      Number(printed, decimals) == RoundHalfUp(numerator * scale * E12, denominator) % (W * E12)
  {
    if denominator == 0 {
      return 0, "000000000000";
    }
    ScaledFits(numerator, scale);
    var whole;
    whole, decimals := Divide(numerator * scale, denominator);
    TwelvePlaces(numerator * scale);
    PrintedWhole(whole, decimals);
    printed := whole % W;
  }

  // ----- the printed text -----

  lemma {:induction false} NumberJoin(whole: nat, a: string, b: string, x: nat)
    requires Number(whole, a) == x
    ensures Number(whole, a + b) == Number(x, b)
    decreases |b|
  {
    if b == [] {
      assert a + b == a;
    } else {
      var n := |b| - 1;
      NumberJoin(whole, a, b[..n], x);
      assert a + b == (a + b[..n]) + [b[n]];
      NumberSnoc(whole, a + b[..n], b[n]);
    }
  }

  lemma {:induction false} ReadsNumber(s: string)
    requires forall i :: 0 <= i < |s| ==> FormatUint.IsDigit(s[i], 10)
    ensures IsDigits(s) && FormatUint.Reads(s, 10) == Number(0, s)
    decreases |s|
  {
    if s != [] {
      ReadsNumber(s[..|s| - 1]);
    }
  }

  /** The numeral of the whole part. */
  method WholeText(printed: Word) returns (text: string)
    ensures IsDigits(text) && text != [] && (|text| > 1 ==> text[0] != '0') && Number(0, text) == printed
  {
    text := FormatUint.Format(printed, 10, 0, false, false);
    ghost var numeral :|
      FormatUint.IsNumeral(numeral, 10, printed) && text == FormatUint.Padded(numeral, 0, false, false);
    assert text == numeral;
    ReadsNumber(text);
  }

  function LineEnd(newline: bool): string {
    if newline then "\n" else ""
  }

  /** A whole part without leading zeros and twelve decimals that make up n without the point. */
  ghost predicate IsDecimal(whole: string, decimals: string, n: int) {
    && IsDigits(whole) && whole != [] && (|whole| > 1 ==> whole[0] != '0')
    && IsDigits(decimals) && |decimals| == 12
    && Number(0, whole + decimals) == n
  }

  /** The text shows n units of 10^-12. */
  ghost predicate IsLine(text: string, prefix: string, n: int, newline: bool) {
    exists whole, decimals ::
      IsDecimal(whole, decimals, n) && text == prefix + whole + "." + decimals + LineEnd(newline)
  }

  lemma {:induction false} SameNumber(a: string, b: string, x: nat, y: nat)
    requires IsDigits(a) && IsDigits(b) && |a| == |b| && Number(x, a) == Number(y, b)
    ensures a == b && x == y
    decreases |a|
  {
    if a != [] {
      var n := |a| - 1;
      SameLast(Number(x, a[..n]), a[n], Number(y, b[..n]), b[n]);
      SameNumber(a[..n], b[..n], x, y);
      assert a == a[..n] + [a[n]] && b == b[..n] + [b[n]];
    }
  }

  lemma SameLast(m: int, c: char, n: int, d: char)
    requires '0' <= c <= '9' && '0' <= d <= '9' && 10 * m + Digit(c) == 10 * n + Digit(d)
    ensures m == n && c == d
  {
  }

  /** What a digit text reads as, and that it reads as a numeral of the formatter. */
  lemma {:induction false} NumberReads(s: string)
    requires IsDigits(s)
    ensures FormatUint.Reads(s, 10) == Number(0, s) >= 0
    ensures forall i :: 0 <= i < |s| ==> FormatUint.IsDigit(s[i], 10)
    decreases |s|
  {
    if s != [] {
      NumberReads(s[..|s| - 1]);
    }
  }

  /** A number has one decimal form, so the printed line is determined. */
  lemma LineUnique(s: string, t: string, prefix: string, n: int, newline: bool)
    requires IsLine(s, prefix, n, newline) && IsLine(t, prefix, n, newline)
    ensures s == t
  {
    var w, d :| IsDecimal(w, d, n) && s == prefix + w + "." + d + LineEnd(newline);
    var v, e :| IsDecimal(v, e, n) && t == prefix + v + "." + e + LineEnd(newline);
    NumberReads(w);
    NumberReads(v);
    NumberJoin(0, w, d, Number(0, w));
    NumberJoin(0, v, e, Number(0, v));
    SameNumber(d, e, Number(0, w), Number(0, v));
    FormatUint.NumeralUnique(w, v, 10, Number(0, w));
  }

  /** The line that is printed: it shows the rounded quotient in units of 10^-12, up to multiples of 2^32 in
      the whole part. */
  method Print(prefix: string, numerator: Word, denominator: Word, scale: Word, newline: bool)
    returns (text: string)
    ensures denominator == 0 ==> text == prefix + "0.000000000000" + LineEnd(newline)
    ensures denominator > 0 ==>
      IsLine(text, prefix, RoundHalfUp(numerator * scale * E12, denominator) % (W * E12), newline)
  {
    if denominator == 0 {
      text := prefix + "0.000000000000" + LineEnd(newline);
      return;
    }
    var printed, fraction := Ratio(numerator, denominator, scale);
    var digits := WholeText(printed);
    NumberJoin(0, digits, fraction, printed);
    text := prefix + digits + "." + fraction + LineEnd(newline);
    ghost var n := Number(printed, fraction);
    assert IsDecimal(digits, fraction, n);
  }
}
