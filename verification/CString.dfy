/**
 Numbers as text and C strings in buffers (pine/c_string.hpp, pine/c_string.cpp and the
 loops of pine/math.hpp), for 32-bit integers.
 */
module CString {
  import opened TwoMath
  import opened Buffers

  const INT_MIN: int := -0x8000_0000

  /** limits<Int>::characters10. */
  function Characters10(signed: bool): nat {
    if signed then 11 else 10
  }

  /** limits<UInt>::digits16. */
  const DIGITS16: nat := 8

  predicate InRange(num: int, signed: bool) {
    if signed then INT_MIN <= num < -INT_MIN else 0 <= num < WORD
  }

  /** One past the greatest number of the type. */
  function Limit(signed: bool): nat {
    if signed then -INT_MIN else WORD
  }

  // ------------------------------------------------------------ powers and logarithms

  function Pow(num: nat, power: nat): (p: nat)
    ensures num > 0 ==> p > 0
  {
    if power == 0 then 1 else num * Pow(num, power - 1)
  }

  function Log10(num: int): nat
    decreases num
  {
    if num < 10 then 0 else 1 + Log10(num / 10)
  }

  /** The logarithm counts the digits. */
  lemma {:induction false} Log10Bounds(num: nat)
    ensures num < Pow(10, Log10(num) + 1)
    ensures num > 0 ==> Pow(10, Log10(num)) <= num
  {
    if num >= 10 {
      Log10Bounds(num / 10);
    }
  }

  lemma {:induction false} PowMonotone(j: nat, k: nat)
    requires j <= k
    ensures Pow(10, j) <= Pow(10, k)
  {
    if j < k {
      PowMonotone(j, k - 1);
    }
  }

  lemma PowValues()
    ensures Pow(10, 10) == 10_000_000_000
    ensures Pow(16, 8) == WORD
  {
    assert Pow(10, 2) == 100 && Pow(10, 4) == 10_000;
    assert Pow(10, 6) == 1_000_000 && Pow(10, 8) == 100_000_000;
    assert Pow(16, 2) == 256 && Pow(16, 4) == 65536 && Pow(16, 6) == 0x100_0000;
  }

  /** At most ten digits fit in a word. */
  lemma Log10OfWord(num: nat)
    requires num < WORD
    ensures Log10(num) <= 9
  {
    Log10Bounds(num);
    PowValues();
    if Log10(num) >= 10 {
      PowMonotone(10, Log10(num));
    }
  }

  method ComputeLog10(num: int) returns (result: nat)
    ensures result == Log10(num)
  {
    result := 0;
    var left := num;
    while left >= 10
      invariant Log10(num) == result + Log10(left)
    {
      left := left / 10;
      result := result + 1;
    }
  }

  /** In a type that holds the power, no product on the way overflows. */
  method ComputePow(num: nat, power: nat, ghost limit: nat) returns (result: nat)
    requires Pow(num, power) < limit
    ensures result == Pow(num, power)
  {
    if power == 0 {
      return 1;
    }
    result := num;
    var left := power;
    PowAtLeast(num, power - 1, num);
    while left > 1
      invariant 1 <= left <= power
      invariant Pow(num, power) == result * Pow(num, left - 1)
      invariant result < limit
    {
      PowStep(num, left - 1, result);
      PowAtLeast(num, left - 2, result * num);
      result := result * num;
      left := left - 1;
    }
  }

  lemma PowAtLeast(num: nat, power: nat, factor: nat)
    requires num > 0 || factor == 0
    ensures factor <= factor * Pow(num, power)
  {
    if num > 0 {
      var p := Pow(num, power);
      assert factor * p == factor + factor * (p - 1);
    }
  }

  lemma PowStep(num: nat, power: nat, result: nat)
    requires power > 0
    ensures result * Pow(num, power) == (result * num) * Pow(num, power - 1)
  {
    var p := Pow(num, power - 1);
    assert result * (num * p) == (result * num) * p;
  }

  // ------------------------------------------------------------ digits

  function DigitChar(d: nat, upper: bool): char
    requires d < 16
  {
    if d < 10 then '0' + d as char else (if upper then 'A' else 'a') + (d - 10) as char
  }

  /** The last k digits of a number. */
  function Digits(base: nat, num: nat, k: nat, upper: bool): (s: string)
    requires base in {10, 16}
    ensures |s| == k
    decreases k
  {
    if k == 0 then "" else Digits(base, num / base, k - 1, upper) + [DigitChar(num % base, upper)]
  }

  function DigitValue(ch: char): nat {
    if '0' <= ch <= '9' then (ch - '0') as nat
    else if 'a' <= ch <= 'f' then (ch - 'a') as nat + 10
    else if 'A' <= ch <= 'F' then (ch - 'A') as nat + 10
    else 0
  }

  /** The number that a string of digits stands for. */
  function ValueOf(base: nat, s: string): nat {
    if s == "" then 0 else base * ValueOf(base, s[..|s| - 1]) + DigitValue(s[|s| - 1])
  }

  lemma DigitRoundTrip(d: nat, upper: bool)
    requires d < 16
    ensures DigitValue(DigitChar(d, upper)) == d
  {
  }

  /** Reading enough digits gives the number back. */
  lemma {:induction false} DigitsRoundTrip(base: nat, num: nat, k: nat, upper: bool)
    requires base in {10, 16} && num < Pow(base, k)
    ensures ValueOf(base, Digits(base, num, k, upper)) == num
    decreases k
  {
    if k > 0 {
      QuotientBound(num, base, Pow(base, k - 1));
      DigitsRoundTrip(base, num / base, k - 1, upper);
      LastDigit(base, num % base, Digits(base, num / base, k - 1, upper), upper);
      QuotientAndDigit(num);
    }
  }

  lemma QuotientAndDigit(num: nat)
    ensures num == 10 * (num / 10) + num % 10 && num == 16 * (num / 16) + num % 16
  {
  }

  /** Reading one more digit. */
  lemma LastDigit(base: nat, d: nat, front: string, upper: bool)
    requires d < 16
    ensures ValueOf(base, front + [DigitChar(d, upper)]) == base * ValueOf(base, front) + d
  {
    hide DigitChar, DigitValue;
    DigitRoundTrip(d, upper);
    var s := front + [DigitChar(d, upper)];
    assert s[..|s| - 1] == front;
  }

  lemma MulMonotone(x: nat, y: nat, z: nat)
    ensures x <= y ==> z * x <= z * y
  {
  }

  lemma QuotientBound(num: nat, base: nat, p: nat)
    requires base > 0 && num < base * p
    ensures num / base < p
  {
    assert num == base * (num / base) + num % base;
    MulMonotone(p, num / base, base);
  }

  /** How an unsigned number is printed. */
  function Decimal(num: nat): string {
    Digits(10, num, Log10(num) + 1, false)
  }

  /** How a number is printed; the least one has no absolute value in its type. */
  function Rendered(num: int): string {
    if num >= 0 then Decimal(num) else if num == INT_MIN then "-0" else "-" + Decimal(-num)
  }

  /** What a reader makes of a printed number. */
  function ReadBack(s: string): int {
    if s != "" && s[0] == '-' then 0 - ValueOf(10, s[1..]) else ValueOf(10, s)
  }

  /** The digits in order of value. */
  const LOWER_DIGITS: string := "0123456789abcdef"

  const UPPER_DIGITS: string := "0123456789ABCDEF"

  lemma DigitOfValue(d: nat, upper: bool)
    requires d < 16
    ensures DigitChar(d, upper) == (if upper then UPPER_DIGITS else LOWER_DIGITS)[d]
  {
  }

  lemma DivByBase(num: nat, base: nat, p: nat)
    requires p > 0 && base in {10, 16}
    ensures num / base / p == num / (base * p)
  {
    var q, r := num / base / p, num / base % p;
    QuotientAndDigit(num);
    QuotientAndRemainder(num / base, p);
    TwoSteps(base, p, q, r, num % base);
    DivModUnique(num, base * p, q, base * r + num % base);
  }

  lemma TwoSteps(base: nat, p: nat, q: nat, r: nat, d: nat)
    requires r < p && d < base
    ensures base * (p * q + r) + d == q * (base * p) + (base * r + d) && base * r + d < base * p
  {
    assert base * (p * q + r) == base * (p * q) + base * r && base * (p * q) == q * (base * p);
    MulMonotone(r + 1, p, base);
    assert base * (r + 1) == base * r + base;
  }

  /** Each character of a number is its digit of that weight. */
  lemma {:induction false} DigitsAt(base: nat, num: nat, k: nat, upper: bool, i: nat)
    requires base in {10, 16} && i < k
    ensures Digits(base, num, k, upper)[i]
            == (if upper then UPPER_DIGITS else LOWER_DIGITS)[num / Pow(base, k - 1 - i) % base]
    decreases k
  {
    if i == k - 1 {
      DigitOfValue(num % base, upper);
      assert Pow(base, 0) == 1;
    } else {
      DigitsAt(base, num / base, k - 1, upper, i);
      DivByBase(num, base, Pow(base, k - 2 - i));
    }
  }

  /** The text is the number in decimal: its digits by weight, and no zero in front. */
  ghost predicate IsDecimal(text: string, num: nat) {
    && text != "" && num < Pow(10, |text|) && (|text| > 1 ==> num >= Pow(10, |text| - 1))
    && forall i | 0 <= i < |text| :: text[i] == LOWER_DIGITS[num / Pow(10, |text| - 1 - i) % 10]
  }

  /** The text is the word in eight hexadecimal digits, lower case. */
  ghost predicate IsHexadecimal(text: string, num: nat) {
    |text| == 8 && forall i | 0 <= i < 8 :: text[i] == LOWER_DIGITS[num / Pow(16, 7 - i) % 16]
  }

  /** How a number is printed, character by character; the least number of the type comes out as -0. */
  lemma RenderedExactly(num: int)
    requires num >= INT_MIN
    ensures num >= 0 ==> IsDecimal(Rendered(num), num)
    ensures INT_MIN < num < 0 ==> Rendered(num) != "" && Rendered(num)[0] == '-' && IsDecimal(Rendered(num)[1..], -num)
    ensures num == INT_MIN ==> Rendered(num) == "-0"
  {
    if num > INT_MIN {
      DecimalExactly(if num >= 0 then num else -num);
    }
  }

  lemma DecimalExactly(num: nat)
    ensures IsDecimal(Decimal(num), num)
  {
    Log10Bounds(num);
    var n := Log10(num) + 1;
    forall i | 0 <= i < n ensures Decimal(num)[i] == LOWER_DIGITS[num / Pow(10, n - 1 - i) % 10] {
      DigitsAt(10, num, n, false, i);
    }
  }

  lemma HexadecimalExactly(num: nat)
    requires num < WORD
    ensures IsHexadecimal(Digits(16, num, DIGITS16, false), num)
  {
    forall i | 0 <= i < 8 ensures Digits(16, num, DIGITS16, false)[i] == LOWER_DIGITS[num / Pow(16, 7 - i) % 16] {
      DigitsAt(16, num, DIGITS16, false, i);
    }
  }

  lemma QuotientPositive(num: nat, p: nat)
    requires 0 < p <= num
    ensures num / p >= 1
  {
  }

  /** A printed number has no leading zero, unless it is zero. */
  lemma NoLeadingZero(num: nat)
    requires num > 0
    ensures Decimal(num)[0] != '0'
  {
    var p := Pow(10, Log10(num));
    Log10Bounds(num);
    DigitsAt(10, num, Log10(num) + 1, false, 0);
    QuotientBound(num, p, 10);
    QuotientPositive(num, p);
  }

  lemma DecimalRoundTrip(num: nat)
    ensures ValueOf(10, Decimal(num)) == num && Decimal(num)[0] != '-'
  {
    Log10Bounds(num);
    DigitsRoundTrip(10, num, Log10(num) + 1, false);
    DigitsAt(10, num, Log10(num) + 1, false, 0);
  }

  /** No number is longer than its type's limit says. */
  lemma RenderedFits(num: int, signed: bool)
    requires InRange(num, signed)
    ensures |Rendered(num)| <= Characters10(signed)
  {
    if num != INT_MIN {
      Log10OfWord(if num >= 0 then num else -num);
    }
  }

  /** Printing and reading back is exact for every number but the least. */
  lemma RenderedRoundTrip(num: int)
    requires num >= INT_MIN
    ensures ReadBack(Rendered(num)) == num <==> num != INT_MIN
  {
    if num >= 0 {
      DecimalRoundTrip(num);
    } else if num == INT_MIN {
      assert "-0"[1..] == "0" && ValueOf(10, "0") == 0 by {
        assert "0"[..0] == "";
      }
    } else {
      DecimalRoundTrip(-num);
      assert ("-" + Decimal(-num))[1..] == Decimal(-num);
    }
  }

  /** Eight hexadecimal digits hold any word. */
  lemma HexRoundTrip(num: nat, upper: bool)
    requires num < WORD
    ensures ValueOf(16, Digits(16, num, DIGITS16, upper)) == num
  {
    PowValues();
    DigitsRoundTrip(16, num, DIGITS16, upper);
  }

  // ------------------------------------------------------------ in place

  /** abs on 32 bits: negating the least number wraps around to itself. */
  function Abs(num: int): int {
    if num >= 0 || num == INT_MIN then num else -num
  }

  /** Division as the machine does it, towards zero. */
  function Quotient(x: int, y: nat): int
    requires y > 0
  {
    if x >= 0 then x / y else -(-x / y)
  }

  /** The character with the low eight bits of a number. */
  function CharOf(x: int): char {
    (x % 256) as char
  }

  /** One round of the digit loop: the leading digit of what is left. */
  lemma LeadingDigit(num: nat, p: nat, left: nat)
    requires p > 0 && left == num % (10 * p)
    ensures left / p < 10 && left / p == num / p % 10 && num / p / 10 == num / (10 * p)
    ensures left - left / p * p == num % p
  {
    var q, d, r := num / (10 * p), left / p, left % p;
    QuotientAndRemainder(num, 10 * p);
    QuotientAndRemainder(left, p);
    QuotientBound(left, p, 10);
    Regrouped(num, p, q, d, r);
  }

  lemma QuotientAndRemainder(x: nat, y: nat)
    requires y > 0
    ensures x == y * (x / y) + x % y == x / y * y + x % y && 0 <= x / y
  {
  }

  lemma Regrouped(num: nat, p: nat, q: nat, d: nat, r: nat)
    requires d < 10 && r < p && num == (10 * p) * q + (p * d + r)
    ensures num / p == 10 * q + d && num % p == r
  {
    assert p * (10 * q + d) == (10 * p) * q + p * d;
    DivModUnique(num, p, 10 * q + d, r);
  }

  /** What the digit loop has written after `pos` of `len` rounds, and what is left to write. */
  ghost predicate DigitsSoFar(num: int, len: nat, pos: nat, left: int, text: string)
    requires pos <= len
  {
    if num >= 0 then
      left == num % Pow(10, len - pos) && text == Digits(10, num / Pow(10, len - pos), pos, false)
    else
      len == 1 && num == INT_MIN && if pos == 0 then left == num && text == "" else text == "0"
  }

  lemma NextDigit(num: int, len: nat, pos: nat, left: int, text: string)
    requires pos < len && DigitsSoFar(num, len, pos, left, text)
    ensures var p := Pow(10, len - pos - 1);
            var d := Quotient(left, p);
            DigitsSoFar(num, len, pos + 1, left - d * p, text + [CharOf(48 + d)])
  {
    if num >= 0 {
      LeadingDigit(num, Pow(10, len - pos - 1), left);
    }
  }

  /** The digits of a number that is not negative, or that has no absolute value. */
  function Magnitude(num: int): (s: string)
    requires num >= 0 || num == INT_MIN
    ensures |s| == Log10(num) + 1
  {
    if num >= 0 then Decimal(num) else "0"
  }

  /** After as many rounds as the number has digits, it is written. */
  lemma AllDigits(num: int, left: int, text: string)
    requires num >= 0 || num == INT_MIN
    requires DigitsSoFar(num, Log10(num) + 1, Log10(num) + 1, left, text)
    ensures text == Magnitude(num)
  {
    assert Pow(10, 0) == 1;
  }

  lemma NoDigits(num: int)
    requires num >= 0 || num == INT_MIN
    ensures DigitsSoFar(num, Log10(num) + 1, 0, num, "")
  {
    if num >= 0 {
      Log10Bounds(num);
      DivModUnique(num, Pow(10, Log10(num) + 1), 0, num);
    }
  }

  function Sign(num: int): string {
    if num < 0 then "-" else ""
  }

  method WriteSign(buf: array<char>, num: int, signed: bool) returns (start: nat, absnum: int)
    requires InRange(num, signed) && buf.Length > 0
    modifies buf
    ensures start == |Sign(num)| <= 1 && absnum == Abs(num) && InRange(absnum, signed)
    ensures buf[..] == Overwrite(old(buf[..]), 0, Sign(num))
  {
    start, absnum := 0, num;
    if signed && num < 0 {
      absnum := Abs(num);
      buf[0] := '-';
      start := 1;
    }
  }

  /** A printed number is a sign and the digits that the loop writes. */
  lemma RenderedIs(num: int)
    requires num >= INT_MIN
    ensures var a := Abs(num);
            && (a >= 0 || a == INT_MIN)
            && Rendered(num) == Sign(num) + Magnitude(a)
            && |Rendered(num)| == |Sign(num)| + Log10(a) + 1
  {
  }

  /** No number of a round of the digit loop leaves the type of the number printed. */
  lemma DigitLoopFits(num: int, signed: bool, pos: nat, left: int, text: string)
    requires InRange(num, signed) && pos < Log10(num) + 1
    requires DigitsSoFar(num, Log10(num) + 1, pos, left, text)
    ensures var p := Pow(10, Log10(num) - pos);
            var d := Quotient(left, p);
            && p < Limit(signed) && InRange(left, signed)
            && InRange(d, signed) && InRange(d * p, signed) && InRange(left - d * p, signed)
  {
    if num >= 0 {
      var p := Pow(10, Log10(num) - pos);
      Log10Bounds(num);
      PowMonotone(Log10(num) - pos, Log10(num));
      RemainderAtMost(num, Pow(10, Log10(num) + 1 - pos));
      QuotientAndRemainder(left, p);
      PartAtMost(left / p, p, left);
    } else {
      assert Pow(10, 0) == 1;
    }
  }

  lemma PartAtMost(d: nat, p: nat, left: nat)
    requires p > 0 && d * p <= left
    ensures d <= d * p
  {
    assert d * p == d + d * (p - 1);
  }

  /** The digit loop of to_strbuf, in the type of the number printed. */
  method WriteDigits(buf: array<char>, start: nat, num: int, ghost signed: bool) returns (len: nat)
    requires InRange(num, signed) && (num >= 0 || num == INT_MIN)
    requires start + Log10(num) + 1 < buf.Length
    modifies buf
    ensures len == |Magnitude(num)|
    ensures buf[..] == Overwrite(old(buf[..]), start, Magnitude(num))
  {
    hide DigitsSoFar, Decimal, Digits;
    ghost var before, text := buf[..], "";
    var absnum := num;
    var log := ComputeLog10(absnum);
    len := log + 1;
    NoDigits(num);
    OverwriteNone(before, start);
    hide Overwrite, Log10;
    var pos := 0;
    while pos < len && pos < buf.Length - start
      invariant pos <= len && |text| == pos
      invariant InRange(absnum, signed) && DigitsSoFar(num, len, pos, absnum, text)
      invariant buf[..] == Overwrite(before, start, text)
    {
      NextDigit(num, len, pos, absnum, text);
      DigitLoopFits(num, signed, pos, absnum, text);
      var divisor := ComputePow(10, len - pos - 1, Limit(signed));
      var digit := Quotient(absnum, divisor);
      assert InRange(digit, signed) && InRange(digit * divisor, signed);
      var ch := CharOf(48 + digit);
      OverwriteNext(before, start, text, ch);
      buf[start + pos] := ch;
      text := text + [ch];
      absnum := absnum - digit * divisor;
      pos := pos + 1;
    }
    AllDigits(num, absnum, text);
  }

  /** Writes a number and a terminator, if the buffer is large enough for any number. */
  method ToStrBuf(buf: array<char>, num: int, signed: bool)
    requires InRange(num, signed)
    modifies buf
    ensures buf.Length <= Characters10(signed) ==> buf[..] == old(buf[..])
    ensures buf.Length > Characters10(signed) ==>
              && |Rendered(num)| < buf.Length
              && buf[..] == Overwrite(old(buf[..]), 0, Rendered(num) + [CharOf(0)])
  {
    if buf.Length < Characters10(signed) + 1 {
      return;
    }
    RenderedFits(num, signed);
    RenderedIs(num);
    hide Rendered, Magnitude, Log10, Overwrite, CharOf, Abs, InRange;
    ghost var before := buf[..];
    var start, absnum := WriteSign(buf, num, signed);
    var len := WriteDigits(buf, start, absnum, signed);
    OverwriteTwice(before, Sign(num), Magnitude(absnum));
    OverwriteNext(before, 0, Rendered(num), CharOf(0));
    buf[start + len] := CharOf(0);
  }

  function Zeros(k: nat): (s: string)
    ensures |s| == k
  {
    seq(k, i => '0')
  }

  /** What the hexadecimal loop has written when it has come down to position `pos`. */
  function HexText(num: nat, pos: nat, upper: bool): (s: string)
    requires pos <= DIGITS16
    ensures |s| == DIGITS16
  {
    Zeros(pos) + Digits(16, num, DIGITS16, upper)[pos..]
  }

  /** The digits before position `pos` are those of what is left. */
  ghost predicate HexLeft(num: nat, pos: nat, left: nat, upper: bool)
    requires pos <= DIGITS16
  {
    Digits(16, num, DIGITS16, upper)[..pos] == Digits(16, left, pos, upper)
  }

  lemma HexNext(num: nat, pos: nat, left: nat, upper: bool)
    requires pos < DIGITS16 && HexLeft(num, pos + 1, left, upper)
    ensures HexLeft(num, pos, left / 16, upper)
    ensures HexText(num, pos, upper) == HexText(num, pos + 1, upper)[pos := DigitChar(left % 16, upper)]
  {
    var s := Digits(16, num, DIGITS16, upper);
    var front, d := Digits(16, left / 16, pos, upper), DigitChar(left % 16, upper);
    assert Digits(16, left, pos + 1, upper) == front + [d];
    hide Digits;
    assert s[..pos] == s[..pos + 1][..pos] == front && s[pos] == s[..pos + 1][pos] == d;
    assert Zeros(pos) + s[pos..] == (Zeros(pos + 1) + s[pos + 1..])[pos := d];
  }

  lemma {:induction false} ZeroDigits(k: nat, upper: bool)
    ensures Digits(16, 0, k, upper) == Zeros(k)
    decreases k
  {
    if k > 0 {
      ZeroDigits(k - 1, upper);
      assert Zeros(k - 1) + ['0'] == Zeros(k);
    }
  }

  /** Digits that the loop does not reach are zero. */
  lemma HexDone(num: nat, pos: nat, left: nat, upper: bool)
    requires pos <= DIGITS16 && HexLeft(num, pos, left, upper) && (pos == 0 || left == 0)
    ensures HexText(num, pos, upper) == Digits(16, num, DIGITS16, upper)
  {
    ZeroDigits(pos, upper);
    var s := Digits(16, num, DIGITS16, upper);
    assert s == s[..pos] + s[pos..];
  }

  /** Eight zeros and a terminator. */
  method ZeroFill(buf: array<char>, start: nat)
    requires start + DIGITS16 < buf.Length
    modifies buf
    ensures buf[..] == Overwrite(old(buf[..]), start, Zeros(DIGITS16) + [CharOf(0)])
  {
    ghost var before := buf[..];
    OverwriteNone(before, start);
    hide Overwrite;
    var pos := 0;
    while pos < DIGITS16
      invariant pos <= DIGITS16
      invariant buf[..] == Overwrite(before, start, Zeros(pos))
    {
      OverwriteNext(before, start, Zeros(pos), '0');
      assert Zeros(pos) + ['0'] == Zeros(pos + 1);
      buf[start + pos] := '0';
      pos := pos + 1;
    }
    OverwriteNext(before, start, Zeros(pos), CharOf(0));
    buf[start + DIGITS16] := CharOf(0);
  }

  /** Eight hexadecimal digits and a terminator, from position `start` on. */
  method ToStrBufHex(buf: array<char>, start: nat, num: nat, upper: bool)
    requires num < WORD && start <= buf.Length
    modifies buf
    ensures buf.Length - start <= DIGITS16 ==> buf[..] == old(buf[..])
    ensures buf.Length - start > DIGITS16 ==>
              buf[..] == Overwrite(old(buf[..]), start, Digits(16, num, DIGITS16, upper) + [CharOf(0)])
  {
    if buf.Length - start < DIGITS16 + 1 {
      return;
    }
    ghost var before := buf[..];
    assert HexText(num, DIGITS16, upper) == Zeros(DIGITS16) && HexLeft(num, DIGITS16, num, upper);
    hide Digits, DigitChar, Overwrite, HexText, HexLeft;
    ZeroFill(buf, start);
    var left := num;
    var pos := DIGITS16;
    while pos != 0 && left > 0
      invariant 0 <= pos <= DIGITS16 && HexLeft(num, pos, left, upper)
      invariant buf[..] == Overwrite(before, start, HexText(num, pos, upper) + [CharOf(0)])
      decreases pos
    {
      pos := pos - 1;
      var hexNum := left % 16;
      HexNext(num, pos, left, upper);
      HexChar(hexNum, upper);
      ReplaceInText(before, start, HexText(num, pos + 1, upper), CharOf(0), pos, DigitChar(hexNum, upper));
      if hexNum < 10 {
        buf[start + pos] := CharOf(hexNum + 48);
      } else {
        buf[start + pos] := CharOf(hexNum - 10 + if upper then 65 else 97);
      }
      left := left / 16;
    }
    HexDone(num, pos, left, upper);
  }

  lemma HexChar(d: nat, upper: bool)
    requires d < 16
    ensures DigitChar(d, upper) == if d < 10 then CharOf(d + 48) else CharOf(d - 10 + if upper then 65 else 97)
  {
  }

  lemma ReplaceInText(buf: string, start: nat, text: string, end: char, i: nat, ch: char)
    requires i < |text| && start + |text| < |buf|
    ensures Overwrite(buf, start, text + [end])[start + i := ch] == Overwrite(buf, start, text[i := ch] + [end])
  {
  }

  /** strlen: where the terminator is. */
  method StrLen(chars: array<char>) returns (offset: nat)
    requires CharOf(0) in chars[..]
    ensures offset < chars.Length && chars[offset] == CharOf(0) && CharOf(0) !in chars[..offset]
  {
    offset := 0;
    while chars[offset] != CharOf(0)
      invariant offset < chars.Length && CharOf(0) !in chars[..offset]
      decreases chars.Length - offset
    {
      offset := offset + 1;
    }
  }

  /** How much of a text a buffer with `room` characters takes, beside its terminator. */
  function Fits(text: string, room: nat): (n: nat)
    ensures n <= |text|
  {
    if room == 0 then 0 else if |text| < room then |text| else room - 1
  }

  /** strbufcopy into the buffer from position `start` on. */
  method StrBufCopy(buf: array<char>, start: nat, from: string) returns (copied: nat)
    requires start <= buf.Length
    modifies buf
    ensures copied == Fits(from, buf.Length - start)
    ensures buf.Length == start ==> buf[..] == old(buf[..])
    ensures buf.Length > start ==> buf[..] == Overwrite(old(buf[..]), start, from[..copied] + [CharOf(0)])
  {
    if buf.Length == start {
      return 0;
    }
    ghost var before := buf[..];
    copied := 0;
    assert before == Overwrite(before, start, from[..0]);
    while copied < |from| && copied + 1 < buf.Length - start
      invariant copied <= Fits(from, buf.Length - start)
      invariant buf[..] == Overwrite(before, start, from[..copied])
    {
      OverwriteNext(before, start, from[..copied], from[copied]);
      assert from[..copied] + [from[copied]] == from[..copied + 1];
      buf[start + copied] := from[copied];
      copied := copied + 1;
    }
    OverwriteNext(before, start, from[..copied], CharOf(0));
    buf[start + copied] := CharOf(0);
  }
}
