/**
  The number formatter of CoreMark's printf: the digits of an unsigned word in a base, padded to a
  field width.
  */
module FormatUint {
  import opened Words

  const DIGITS: string := "0123456789abcdef"

  /** The bases of the %u, %d and %x conversions. */
  type Base = b: nat | b == 10 || b == 16 witness 10

  function DigitValue(c: char): int {
    if '0' <= c <= '9' then c as int - '0' as int else c as int - 'a' as int + 10
  }

  predicate IsDigit(c: char, base: Base) {
    ('0' <= c <= '9' || 'a' <= c <= 'f') && DigitValue(c) < base
  }

  /** The number that a text of digits stands for when it follows the digits of `rest`. */
  function ReadsFrom(rest: int, s: string, base: Base): int {
    if s == [] then rest else base * ReadsFrom(rest, s[..|s| - 1], base) + DigitValue(s[|s| - 1])
  }

  function Reads(s: string, base: Base): int {
    ReadsFrom(0, s, base)
  }

  /** The text is the number in that base, without leading zeros. */
  ghost predicate IsNumeral(s: string, base: Base, value: nat) {
    && s != [] && (forall i :: 0 <= i < |s| ==> IsDigit(s[i], base))
    && (|s| > 1 ==> s[0] != '0')
    && Reads(s, base) == value
  }

  lemma {:induction false} ReadsBound(s: string, base: Base)
    requires forall i :: 0 <= i < |s| ==> IsDigit(s[i], base)
    ensures Reads(s, base) >= 0
    ensures s != [] && s[0] != '0' ==> Reads(s, base) > 0
    decreases |s|
  {
    if s != [] {
      ReadsBound(s[..|s| - 1], base);
    }
  }

  /** A number and a digit are determined by the number they make up. */
  lemma LastDigit(a: int, b: int, d: int, e: int, base: Base)
    requires base * a + d == base * b + e && 0 <= d < base && 0 <= e < base
    ensures a == b && d == e
  {
  }

  lemma SameDigit(c: char, d: char, base: Base)
    requires IsDigit(c, base) && IsDigit(d, base) && DigitValue(c) == DigitValue(d)
    ensures c == d
  {
  }

  lemma NumeralPrefix(s: string, base: Base, value: nat)
    requires IsNumeral(s, base, value) && |s| > 1
    ensures Reads(s[..|s| - 1], base) > 0 && IsNumeral(s[..|s| - 1], base, Reads(s[..|s| - 1], base))
  {
    ReadsBound(s[..|s| - 1], base);
  }

  /** Every number has one numeral. */
  lemma {:induction false} NumeralUnique(s: string, t: string, base: Base, value: nat)
    requires IsNumeral(s, base, value) && IsNumeral(t, base, value)
    ensures s == t
    decreases |s|
  {
    var m, n := |s| - 1, |t| - 1;
    LastDigit(Reads(s[..m], base), Reads(t[..n], base), DigitValue(s[m]), DigitValue(t[n]), base);
    SameDigit(s[m], t[n], base);
    if m > 0 {
      NumeralPrefix(s, base, value);
    }
    if n > 0 {
      NumeralPrefix(t, base, value);
    }
    if m > 0 && n > 0 {
      NumeralUnique(s[..m], t[..n], base, Reads(s[..m], base));
    }
    assert s == s[..m] + [s[m]] && t == t[..n] + [t[n]];
  }

  // ----- the digit loop -----

  /** `s` holds the lower digits of `value`; `rest` is what they leave. */
  ghost predicate Collected(rest: nat, s: string, base: Base, value: nat) {
    && (forall i :: 0 <= i < |s| ==> IsDigit(s[i], base))
    && (rest == 0 && |s| > 1 ==> s[0] != '0')
    && ReadsFrom(rest, s, base) == value
  }

  lemma DigitOf(d: nat, base: Base)
    requires d < base
    ensures IsDigit(DIGITS[d], base) && DigitValue(DIGITS[d]) == d && (d > 0 ==> DIGITS[d] != '0')
  {
  }

  lemma Shorten(value: nat, base: Base)
    ensures value == base * (value / base) + value % base && value % base < base
    ensures value / base <= value && (value > 0 ==> value / base < value)
    ensures value > 0 && value / base == 0 ==> value % base > 0
  {
  }

  lemma {:induction false} ReadsCons(rest: nat, c: char, s: string, base: Base)
    ensures ReadsFrom(rest, [c] + s, base) == ReadsFrom(base * rest + DigitValue(c), s, base)
    decreases |s|
  {
    if s == [] {
      assert [c] + s == [c];
    } else {
      assert ([c] + s)[..|s|] == [c] + s[..|s| - 1];
      ReadsCons(rest, c, s[..|s| - 1], base);
    }
  }

  /** One turn of the digit loop. */
  lemma CollectStep(rest: nat, s: string, base: Base, value: nat)
    requires Collected(rest, s, base, value) && (s != [] ==> rest > 0)
    ensures Collected(rest / base, [DIGITS[rest % base]] + s, base, value)
    ensures rest / base <= rest && (rest > 0 ==> rest / base < rest)
  {
    Shorten(rest, base);
    DigitOf(rest % base, base);
    ReadsCons(rest / base, DIGITS[rest % base], s, base);
  }

  function Reversed(s: string): string {
    if s == [] then [] else [s[|s| - 1]] + Reversed(s[..|s| - 1])
  }

  lemma ReversedSnoc(s: string, c: char)
    ensures Reversed(s + [c]) == [c] + Reversed(s)
  {
    assert (s + [c])[..|s|] == s;
  }

  function Four(k: nat): nat {
    if k == 0 then 1 else 4 * Four(k - 1)
  }

  lemma QuotientFits(value: nat, base: Base, k: nat)
    requires k > 0 && value < Four(k)
    ensures value / base < Four(k - 1)
  {
  }

  lemma FourMore(k: nat)
    ensures Four(k + 4) == 256 * Four(k)
  {
    assert Four(k + 2) == 16 * Four(k);
  }

  lemma SixteenDigits() returns (room: nat)
    ensures room == 16 && Four(room) == W
  {
    room := 16;
    FourMore(0);
    FourMore(4);
    FourMore(8);
    FourMore(12);
  }

  method NextDigit(value: nat, base: Base, ghost s: string, ghost value0: nat, ghost room: nat)
    returns (c: char, rest: nat)
    requires Collected(value, s, base, value0) && (s != [] ==> value > 0) && room > 0 && value < Four(room)
    ensures Collected(rest, [c] + s, base, value0) && rest < Four(room - 1)
    ensures rest <= value && (value > 0 ==> rest < value)
  {
    CollectStep(value, s, base, value0);
    QuotientFits(value, base, room);
    c, rest := DIGITS[value % base], value / base;
  }

  /** The digits of a word, lowest first. */
  method CollectDigits(value0: Word, base: Base, tmp: array<char>) returns (len: nat)
    requires tmp.Length == 16
    modifies tmp
    ensures len <= 16 && IsNumeral(Reversed(tmp[..len]), base, value0)
  {
    var value: nat, more := value0, true;
    len := 0;
    ghost var room := SixteenDigits();
    ghost var digits := "";
    while more
      invariant len + room == 16 && |digits| == len && Reversed(tmp[..len]) == digits
      invariant Collected(value, digits, base, value0) && value < Four(room) && (more <==> len == 0 || value != 0)
      decreases more, value
    {
      var c;
      c, value := NextDigit(value, base, digits, value0, room);
      Push(tmp, len, c);
      digits := [c] + digits;
      len, more, room := len + 1, value != 0, room - 1;
    }
  }

  method Push(tmp: array<char>, len: nat, c: char)
    requires len < tmp.Length
    modifies tmp
    ensures Reversed(tmp[..len + 1]) == [c] + old(Reversed(tmp[..len]))
  {
    ghost var before := tmp[..len];
    tmp[len] := c;
    ReversedSnoc(before, c);
    assert tmp[..len + 1] == before + [c];
  }

  function Pad(c: char, n: int): string {
    if n <= 0 then [] else [c] + Pad(c, n - 1)
  }

  method Fill(text0: string, c: char, len: nat, width0: int) returns (text: string)
    ensures text == text0 + Pad(c, width0 - len)
  {
    var width := width0;
    text := text0;
    while len < width
      invariant text + Pad(c, width - len) == text0 + Pad(c, width0 - len)
    {
      width := width - 1;
      text := text + [c];
    }
  }

  /** Appends the first `len0` characters of the buffer, last one first. */
  method CopyBack(text0: string, tmp: array<char>, len0: nat) returns (text: string)
    requires len0 <= tmp.Length
    ensures text == text0 + Reversed(tmp[..len0])
  {
    var len: nat := len0;
    text := text0;
    while len > 0
      invariant len <= tmp.Length && text + Reversed(tmp[..len]) == text0 + Reversed(tmp[..len0])
    {
      len := len - 1;
      assert tmp[..len + 1] == tmp[..len] + [tmp[len]];
      ReversedSnoc(tmp[..len], tmp[len]);
      text := text + [tmp[len]];
    }
  }

  /** A text in a field of at least `width` characters. */
  function Padded(s: string, width: int, left: bool, zeroPad: bool): string {
    if left then s + Pad(' ', width - |s|) else Pad(if zeroPad then '0' else ' ', width - |s|) + s
  }

  ghost predicate IsField(text: string, value: nat, base: Base, width: int, left: bool, zeroPad: bool) {
    exists numeral :: IsNumeral(numeral, base, value) && text == Padded(numeral, width, left, zeroPad)
  }

  /** The flags, the width and the number determine the text. */
  lemma FieldUnique(s: string, t: string, value: nat, base: Base, width: int, left: bool, zeroPad: bool)
    requires IsField(s, value, base, width, left, zeroPad) && IsField(t, value, base, width, left, zeroPad)
    ensures s == t
  {
    var m :| IsNumeral(m, base, value) && s == Padded(m, width, left, zeroPad);
    var n :| IsNumeral(n, base, value) && t == Padded(n, width, left, zeroPad);
    NumeralUnique(m, n, base, value);
  }

  /** format_uint: the numeral, in a field of at least `width` characters. */
  method Format(value: Word, base: Base, width: int, left: bool, zeroPad: bool) returns (text: string)
    ensures IsField(text, value, base, width, left, zeroPad)
  {
    var tmp := new char[16];
    var len := CollectDigits(value, base, tmp);
    text := Lay(tmp, len, width, left, zeroPad);
  }

  /** Writes the buffered digits into the field. */
  method Lay(tmp: array<char>, len: nat, width: int, left: bool, zeroPad: bool) returns (text: string)
    requires len <= tmp.Length
    ensures text == Padded(Reversed(tmp[..len]), width, left, zeroPad)
  {
    ReversedLength(tmp[..len]);
    if left {
      text := CopyBack([], tmp, len);
      text := Fill(text, ' ', len, width);
    } else {
      text := Fill([], if zeroPad then '0' else ' ', len, width);
      text := CopyBack(text, tmp, len);
    }
  }

  lemma {:induction false} ReversedLength(s: string)
    ensures |Reversed(s)| == |s|
  {
    if s != [] {
      ReversedLength(s[..|s| - 1]);
    }
  }
}
