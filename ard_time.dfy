/**
 * Times and durations on a 32-bit millisecond clock (utilities/time.cpp and
 * utilities/time.h). An `ArdTime` is an `unsigned long` count of milliseconds
 * since boot or the last roll-over, an `ArdDuration` a signed `long` count of
 * milliseconds. Both are small value types copied by value, so they are
 * datatypes here; every operator returns a new value. `ArdTimeParts` splits a
 * count into days, hours, minutes, seconds and milliseconds, and prints it.
 */
module ArdTimes {
  import opened Common

  datatype ArdTime = ArdTime(ms: u32)

  datatype ArdDuration = ArdDuration(ms: i32)

  /** `ArdTimeParts`: the field widths of the struct, and the sign of a split duration. */
  datatype TimeParts = TimeParts(milliseconds: u16, seconds: u8, minutes: u8, hours: u8, days: u8, negative: bool)

  const MsPerSecond := 1000
  const MsPerMinute := 60_000
  const MsPerHour := 3_600_000
  const MsPerDay := 86_400_000

  // ---------------------------------------------------------------- words

  /**
   * Conversion to `long`: the value modulo 2^32, read as two's complement. The
   * target's compiler does this for unsigned-to-signed conversion, and signed
   * overflow of `long` arithmetic is taken to wrap the same way.
   */
  function ToSigned(x: int): (r: i32)
    ensures IsLong(x) ==> r == x
    ensures ToUnsigned(r) == ToUnsigned(x)
  {
    var m := x % TwoTo32;
    SignedFacts(x);
    if m >= TwoTo31 then m - TwoTo32 else m
  }

  /** The two facts `ToSigned` rests on. */
  lemma SignedFacts(x: int)
    ensures -TwoTo31 <= x < 0 ==> x % TwoTo32 == x + TwoTo32
    ensures (x % TwoTo32 - TwoTo32) % TwoTo32 == x % TwoTo32
  {
    if -TwoTo31 <= x < 0 {
      ModUnique(x, TwoTo32, -1, x + TwoTo32);
    }
    ModUnique(x % TwoTo32 - TwoTo32, TwoTo32, -1, x % TwoTo32);
  }

  /** Two integers that agree modulo 2^32 convert to the same `long`. */
  lemma SignedOfCongruent(x: int, y: int)
    requires ToUnsigned(x) == ToUnsigned(y)
    ensures ToSigned(x) == ToSigned(y)
  {
  }

  /** Same as `WrapAdd`, for a sum whose first operand has been converted to `long`. */
  lemma WrapAddSigned(x: int, y: int)
    ensures ToUnsigned(ToSigned(x) + y) == ToUnsigned(x + y)
  {
    WrapAdd(ToSigned(x), y);
    WrapAdd(x, y);
  }

  // ------------------------------------------------------ time arithmetic

  /** `ArdTime + ArdDuration` and `ArdTime::operator+=`: the sum modulo 2^32. */
  function TimePlus(t: ArdTime, d: ArdDuration): ArdTime
  {
    ArdTime(ToUnsigned(t.ms + d.ms))
  }

  /** `ArdTime - ArdDuration`: the difference modulo 2^32. */
  function TimeMinus(t: ArdTime, d: ArdDuration): ArdTime
  {
    ArdTime(ToUnsigned(t.ms - d.ms))
  }

  /**
   * `ArdTime - ArdTime`. Both branches of the source compute the same thing:
   * the unsigned difference, modulo 2^32, converted to `long`.
   */
  function TimeDifference(a: ArdTime, b: ArdTime): (d: ArdDuration)
    ensures d.ms == ToSigned(a.ms - b.ms)
  {
    if a.ms >= b.ms then
      ArdDuration(ToSigned(a.ms - b.ms))
    else
      // `-(b_ms - a_ms)` negates an `unsigned long`.
      WrapAdd(-(b.ms - a.ms), 0);
      ShiftByWord(a.ms - b.ms, 1);
      ArdDuration(ToSigned(ToUnsigned(-(b.ms - a.ms))))
  }

  /** `operator>=(ArdTime, ArdTime)`. */
  function TimeAtLeast(a: ArdTime, b: ArdTime): bool
  {
    a.ms >= b.ms
  }

  /** Subtracting a duration undoes adding it, across roll-over too. */
  lemma TimePlusThenMinus(t: ArdTime, d: ArdDuration)
    ensures TimeMinus(TimePlus(t, d), d) == t
  {
    WrapAdd(t.ms + d.ms, -(d.ms as int));
  }

  /** Adding the difference `a - b` to `b` gives back `a`, for every pair of times. */
  lemma DifferenceThenPlus(a: ArdTime, b: ArdTime)
    ensures TimePlus(b, TimeDifference(a, b)) == a
  {
    WrapAddSigned(a.ms - b.ms, b.ms);
  }

  /** The difference between `t + d` and `t` is `d`, for every time and duration. */
  lemma PlusThenDifference(t: ArdTime, d: ArdDuration)
    ensures TimeDifference(TimePlus(t, d), t) == d
  {
    WrapAdd(t.ms + d.ms, -(t.ms as int));
    SignedOfCongruent(TimePlus(t, d).ms - t.ms, d.ms);
  }

  /**
   * When the two times are less than 2^31 ms apart, the difference is exact:
   * it is `a - b`, non-negative exactly when `a >= b`.
   */
  lemma DifferenceOfCloseTimes(a: ArdTime, b: ArdTime)
    requires -TwoTo31 < a.ms - b.ms < TwoTo31
    ensures TimeDifference(a, b).ms == a.ms - b.ms
    ensures TimeDifference(a, b).ms >= 0 <==> TimeAtLeast(a, b)
  {
  }

  /** Two times exactly 2^31 ms apart: `a >= b`, yet `a - b` is negative. */
  lemma DifferenceSignFailsAtHalfRange()
    ensures TimeAtLeast(ArdTime(TwoTo31), ArdTime(0))
    ensures TimeDifference(ArdTime(TwoTo31), ArdTime(0)).ms == -TwoTo31
  {
  }

  // -------------------------------------------------- duration arithmetic

  /** `ArdDuration + ArdDuration`. */
  function DurationPlus(a: ArdDuration, b: ArdDuration): ArdDuration
  {
    ArdDuration(ToSigned(a.ms + b.ms))
  }

  /** `ArdDuration - ArdDuration`. */
  function DurationMinus(a: ArdDuration, b: ArdDuration): ArdDuration
  {
    ArdDuration(ToSigned(a.ms - b.ms))
  }

  /** `ArdDuration * long`. */
  function DurationTimes(d: ArdDuration, mul: i32): (r: ArdDuration)
    ensures IsLong(d.ms * mul) ==> r.ms == d.ms * mul
  {
    ArdDuration(ToSigned(d.ms * mul))
  }

  function Abs(x: int): nat
  {
    if x < 0 then -x else x
  }

  /** C++ `/` on integers: the quotient of the magnitudes, negated when the signs differ. */
  function TruncDiv(a: int, b: int): int
    requires b != 0
  {
    var q := Abs(a) / Abs(b);
    if (a < 0) == (b < 0) then q else -q
  }

  /**
   * The quotient truncates toward zero: the remainder `a - q * b` is smaller
   * than the divisor, is zero or has the sign of `a`, and the quotient is no
   * larger than `a` in magnitude.
   */
  lemma TruncDivRemainder(a: int, b: int)
    requires b != 0
    ensures Abs(a - TruncDiv(a, b) * b) < Abs(b)
    ensures a - TruncDiv(a, b) * b == 0 || (a - TruncDiv(a, b) * b < 0 <==> a < 0)
    ensures Abs(TruncDiv(a, b)) <= Abs(a)
  {
    var q := Abs(a) / Abs(b);
    var r := Abs(a) % Abs(b);
    var product := q * Abs(b);
    assert Abs(a) == product + r;
    MulNonNegativeSign(q, Abs(b));
    var t := TruncDiv(a, b);
    assert t * b == (if a < 0 then -product else product) by {
      MulSigns(q, Abs(b));
    }
  }

  lemma MulSigns(x: int, y: int)
    ensures (-x) * (-y) == x * y && (-x) * y == -(x * y) && x * (-y) == -(x * y)
  {
  }

  lemma MulNonNegativeSign(a: int, b: int)
    requires a >= 0 && b > 0
    ensures a * b >= a
  {
    if a > 0 {
      MulAtLeast(b, a);
    }
  }

  /**
   * `ArdDuration / long`. The caller must not divide by zero. The quotient is
   * exact except for -2^31 / -1, whose overflow wraps back to -2^31.
   */
  function DurationDivide(d: ArdDuration, div: i32): (r: ArdDuration)
    requires div != 0
    ensures !(d.ms == -TwoTo31 && div == -1) ==> r.ms == TruncDiv(d.ms, div)
  {
    var q := TruncDiv(d.ms, div);
    TruncDivRemainder(d.ms, div);
    ArdDuration(ToSigned(q))
  }

  /** `operator>=`, `>`, `<=` and `<` on durations compare the millisecond counts. */
  function DurationAtLeast(a: ArdDuration, b: ArdDuration): bool { a.ms >= b.ms }
  function DurationGreater(a: ArdDuration, b: ArdDuration): bool { a.ms > b.ms }
  function DurationAtMost(a: ArdDuration, b: ArdDuration): bool { a.ms <= b.ms }
  function DurationLess(a: ArdDuration, b: ArdDuration): bool { a.ms < b.ms }

  /** The four comparisons form one total order: each pair are complements, and `<` and `>` are converses. */
  lemma DurationOrderIsTotal(a: ArdDuration, b: ArdDuration)
    ensures DurationAtLeast(a, b) == !DurationLess(a, b)
    ensures DurationAtMost(a, b) == !DurationGreater(a, b)
    ensures DurationLess(a, b) == DurationGreater(b, a)
    ensures DurationAtLeast(a, b) && DurationAtMost(a, b) <==> a == b
  {
  }

  /** Subtracting a duration undoes adding it, even when the sum wraps. */
  lemma DurationPlusThenMinus(a: ArdDuration, b: ArdDuration)
    ensures DurationMinus(DurationPlus(a, b), b) == a
  {
    SignedSumThenDifference(a.ms, b.ms);
  }

  lemma SignedSumThenDifference(x: int, y: int)
    requires IsLong(x)
    ensures ToSigned(ToSigned(x + y) - y) == x
  {
    WrapAddSigned(x + y, -y);
    SignedOfCongruent(ToSigned(x + y) - y, x);
  }

  /** Sums and differences that fit in a `long` are exact. */
  lemma DurationArithmeticExact(a: ArdDuration, b: ArdDuration)
    ensures IsLong(a.ms + b.ms) ==> DurationPlus(a, b).ms == a.ms + b.ms
    ensures IsLong(a.ms - b.ms) ==> DurationMinus(a, b).ms == a.ms - b.ms
  {
  }

  // ------------------------------------------------------- unit helpers

  /** `Milliseconds(long)` and `Milliseconds(int)`: the count, widened to `long`. */
  function Milliseconds(ms: i32): (d: ArdDuration)
  {
    ArdDuration(ms)
  }

  /** `Seconds(long)`: `seconds * 1000` in `long` arithmetic. */
  function SecondsLong(seconds: i32): (d: ArdDuration)
    ensures d.ms == ToSigned(seconds * MsPerSecond)
  {
    Milliseconds(ToSigned(seconds * 1000))
  }

  /** `Seconds(int)`: the 16-bit count times `1000L`, which always fits. */
  function SecondsInt(seconds: i16): (d: ArdDuration)
    ensures d.ms == seconds * MsPerSecond
  {
    Milliseconds(ToSigned(seconds * 1000))
  }

  /** `Minutes(long)`: `Seconds(minutes * 60)`, each product wrapping in `long`. */
  function MinutesLong(minutes: i32): (d: ArdDuration)
    ensures d.ms == ToSigned(minutes * MsPerMinute)
  {
    var s := ToSigned(minutes * 60);
    WrapProduct(minutes * 60, 1000);
    SecondsLong(s)
  }

  /** `Minutes(int)`: `Seconds(minutes * 60L)`; for 16-bit counts the result always fits. */
  function MinutesInt(minutes: i16): (d: ArdDuration)
    ensures d.ms == minutes * MsPerMinute
  {
    SecondsLong(ToSigned(minutes * 60))
  }

  /** `Hours(int)`: `Minutes(hours * 60L)`, wrapping in `long`. */
  function HoursInt(hours: i16): (d: ArdDuration)
    ensures d.ms == ToSigned(hours * MsPerHour)
  {
    WrapProduct(hours * 60, 60_000);
    MinutesLong(ToSigned(hours * 60))
  }

  /** Converting a factor to `long` first does not change a product modulo 2^32. */
  lemma WrapProduct(x: int, k: int)
    ensures ToSigned(ToSigned(x) * k) == ToSigned(x * k)
  {
    var s := ToSigned(x);
    var j := (s - x) / TwoTo32;
    assert s - x == j * TwoTo32 by {
      var qx := x / TwoTo32;
      var qs := s / TwoTo32;
      assert x == qx * TwoTo32 + ToUnsigned(x);
      assert s == qs * TwoTo32 + ToUnsigned(s);
      assert s - x == (qs - qx) * TwoTo32;
      DivUnique(s - x, TwoTo32, qs - qx, 0);
    }
    assert s * k == x * k + (j * k) * TwoTo32;
    ShiftByWord(x * k, j * k);
    SignedOfCongruent(s * k, x * k);
  }

  /**
   * `Hours(int)` is exact precisely for 16-bit counts of at most 596 hours;
   * 597 hours is more milliseconds than a `long` holds.
   */
  lemma HoursExactWithinRange(hours: i16)
    ensures HoursInt(hours).ms == hours * MsPerHour <==> -596 <= hours <= 596
  {
  }

  /** `Seconds(long)` and `Minutes(long)` are exact whenever the product fits in a `long`. */
  lemma LongConversionsExact(n: i32)
    ensures IsLong(n * MsPerSecond) ==> SecondsLong(n).ms == n * MsPerSecond
    ensures IsLong(n * MsPerMinute) ==> MinutesLong(n).ms == n * MsPerMinute
  {
  }

  // ------------------------------------------------------------ splitting

  /** The parts of a millisecond count, as closed-form quotients and remainders. */
  function SplitMs(ms: u32): (p: TimeParts)
  {
    TimeParts(ms % 1000, (ms / MsPerSecond) % 60, (ms / MsPerMinute) % 60,
              (ms / MsPerHour) % 24, ms / MsPerDay, false)
  }

  /** The number of milliseconds the parts stand for, ignoring the sign. */
  function PartsValue(p: TimeParts): int
  {
    (((p.days * 24 + p.hours) * 60 + p.minutes) * 60 + p.seconds) * 1000 + p.milliseconds
  }

  /** Every field below its unit's modulus. */
  predicate InRange(p: TimeParts)
  {
    p.milliseconds < 1000 && p.seconds < 60 && p.minutes < 60 && p.hours < 24
  }

  /** Dividing by `b`, then by `c`, is dividing by `b * c`. */
  lemma DivDiv(a: nat, b: int, c: int)
    requires b > 0 && c > 0
    ensures a / b / c == a / (b * c)
  {
    var q := a / b;
    var r := a % b;
    var q2 := q / c;
    var r2 := q % c;
    assert a == q * b + r;
    assert q == q2 * c + r2;
    assert a == q2 * (b * c) + (r2 * b + r) by {
      assert q * b == (q2 * c + r2) * b;
      assert (q2 * c + r2) * b == q2 * (b * c) + r2 * b;
    }
    assert r2 * b <= (c - 1) * b by {
      if r2 < c - 1 {
        assert (c - 1) * b - r2 * b == (c - 1 - r2) * b;
        MulAtLeast(c - 1 - r2, b);
      }
    }
    assert (c - 1) * b == b * c - b;
    DivUnique(a, b * c, q2, r2 * b + r);
  }

  /**
   * The split is a mixed-radix representation: each field is in range, the
   * fields recombine to the count, and the day count is at most 49, so it fits
   * its `uint8_t` without truncation.
   */
  lemma SplitRecombines(ms: u32)
    ensures InRange(SplitMs(ms)) && !SplitMs(ms).negative
    ensures PartsValue(SplitMs(ms)) == ms
    ensures SplitMs(ms).days <= 49
  {
    var s := ms / 1000;
    var m := s / 60;
    var h := m / 60;
    var d := h / 24;
    DivDiv(ms, 1000, 60);
    DivDiv(s, 60, 60);
    DivDiv(ms, 60_000, 60);
    DivDiv(m, 60, 24);
    DivDiv(ms, 3_600_000, 24);
    assert h == h / 24 * 24 + h % 24;
    assert m == h * 60 + m % 60;
    assert s == m * 60 + s % 60;
    assert ms == s * 1000 + ms % 1000;
  }

  /**
   * The `ArdTimeParts` constructor, which also serves `ArdTime::Split`: take
   * each remainder off `ms` and divide it down, then store what is left as the
   * day count in a `uint8_t`.
   */
  method MakeTimeParts(ms: u32) returns (p: TimeParts)
    ensures p == SplitMs(ms)
  {
    var rest: int := ms;
    var negative := false;
    var milliseconds := rest % 1000;
    rest := rest / 1000;
    var seconds := rest % 60;
    rest := rest / 60;
    var minutes := rest % 60;
    rest := rest / 60;
    var hours := rest % 24;
    rest := rest / 24;
    DivDiv(ms, 1000, 60);
    DivDiv(ms, 60_000, 60);
    DivDiv(ms, 3_600_000, 24);
    // `days = ms` narrows to `uint8_t`; the day count never exceeds 49, so nothing is lost.
    var days := rest % 256;
    p := TimeParts(milliseconds, seconds, minutes, hours, days, negative);
  }

  /** The parts `ArdDuration::Split` gives: the split of the magnitude, marked negative when the count is. */
  function DurationParts(d: ArdDuration): TimeParts
  {
    if d.ms >= 0 then SplitMs(d.ms) else SplitMs(-(d.ms as int)).(negative := true)
  }

  /** A split duration is negative exactly when the count is, and stands for its magnitude. */
  lemma DurationPartsMeaning(d: ArdDuration)
    ensures DurationParts(d).negative <==> d.ms < 0
    ensures InRange(DurationParts(d)) && PartsValue(DurationParts(d)) == Abs(d.ms)
  {
    SplitRecombines(Abs(d.ms));
  }

  /**
   * `ArdDuration::Split`. For a negative count it splits `-ms_`, negated as a
   * `long` and converted to `unsigned long`; for -2^31 the negation wraps back
   * to -2^31, which converts to 2^31, still the magnitude.
   */
  method DurationSplit(d: ArdDuration) returns (p: TimeParts)
    ensures p == DurationParts(d)
  {
    if d.ms >= 0 {
      p := MakeTimeParts(d.ms);
      return;
    }
    var magnitude := ToUnsigned(ToSigned(-(d.ms as int)));
    p := MakeTimeParts(magnitude);
    p := p.(negative := true);
  }

  // ------------------------------------------------------------- printing

  function DigitChar(d: int): (c: char)
    requires 0 <= d < 10
    ensures '0' <= c <= '9'
  {
    ('0' as int + d) as char
  }

  /** `Print::print(value, DEC)`: the decimal digits of `v`, without leading zeros. */
  function Digits(v: nat): (s: string)
    ensures |s| >= 1
    ensures forall i :: 0 <= i < |s| ==> '0' <= s[i] <= '9'
    ensures s[0] == '0' ==> v == 0
  {
    if v < 10 then [DigitChar(v)] else Digits(v / 10) + [DigitChar(v % 10)]
  }

  /** The number a string of decimal digits spells. */
  function DecimalValue(s: string): int
  {
    if s == [] then 0 else DecimalValue(s[..|s| - 1]) * 10 + (s[|s| - 1] as int - '0' as int)
  }

  /** Reading the digits back gives the number. */
  lemma {:induction false} DigitsRoundTrip(v: nat)
    ensures DecimalValue(Digits(v)) == v
  {
    if v >= 10 {
      DigitsRoundTrip(v / 10);
      var s := Digits(v);
      assert s[..|s| - 1] == Digits(v / 10);
    }
  }

  /** Numbers below 10, 100 and 1000 take one, at most two and at most three digits. */
  lemma DigitsLength(v: nat)
    ensures |Digits(v)| == 1 <==> v < 10
    ensures v < 100 ==> |Digits(v)| <= 2
    ensures v < 1000 ==> |Digits(v)| <= 3
  {
    if v >= 10 {
      DigitsLength(v / 10);
    }
  }

  function Zeros(n: nat): (s: string)
    ensures |s| == n && forall i :: 0 <= i < n ==> s[i] == '0'
  {
    seq(n, _ => '0')
  }

  /** `s` left-padded with '0' to at least `width` characters. */
  function Padded(s: string, width: int): (r: string)
    ensures |r| == if width > |s| then width else |s|
  {
    Zeros(if width > |s| then width - |s| else 0) + s
  }

  /** Leading zeros do not change the value a digit string spells. */
  lemma {:induction false} LeadingZerosKeepValue(n: nat, s: string)
    ensures DecimalValue(Zeros(n) + s) == DecimalValue(s)
    decreases |s|
  {
    if s == [] {
      assert Zeros(n) + s == Zeros(n);
      ZerosSpellZero(n);
    } else {
      LeadingZerosKeepValue(n, s[..|s| - 1]);
      var t := Zeros(n) + s;
      assert t[..|t| - 1] == Zeros(n) + s[..|s| - 1];
    }
  }

  lemma {:induction false} ZerosSpellZero(n: nat)
    ensures DecimalValue(Zeros(n)) == 0
  {
    if n > 0 {
      ZerosSpellZero(n - 1);
      assert Zeros(n)[..n - 1] == Zeros(n - 1);
    }
  }

  /** A padded number reads back as the number, and has at least the requested width. */
  lemma PaddedRoundTrip(v: nat, width: int)
    ensures DecimalValue(Padded(Digits(v), width)) == v
    ensures |Padded(Digits(v), width)| >= width
  {
    LeadingZerosKeepValue(if width > |Digits(v)| then width - |Digits(v)| else 0, Digits(v));
    DigitsRoundTrip(v);
  }

  /**
   * `printWithLeadingZeros`: print the leading digits by recursion on `value / 10`
   * with one less width, then the '0' padding the remaining width asks for, then
   * the last digit. Returns the text and the number of characters printed.
   */
  method PrintWithLeadingZeros(value: u32, minWidth: int) returns (text: string, count: nat)
    ensures text == Padded(Digits(value), minWidth)
    ensures count == |text|
    decreases value
  {
    var result := 0;
    var v := value;
    var width := minWidth;
    text := [];
    if v >= 10 {
      var head, n := PrintWithLeadingZeros(v / 10, width - 1);
      text := text + head;
      result := result + n;
      v := v % 10;
      width := 0;
    }
    ghost var before := text;
    ghost var startWidth := width;
    while width > 1
      invariant startWidth > 1 ==> 1 <= width <= startWidth
      invariant startWidth <= 1 ==> width == startWidth
      invariant text == before + Zeros(startWidth - width) && result == |text|
      decreases width
    {
      assert Zeros(startWidth - width) + "0" == Zeros(startWidth - width + 1);
      text := text + "0";
      result := result + 1;
      width := width - 1;
    }
    assert text == before + Zeros(startWidth - width);
    if value >= 10 {
      assert Zeros(startWidth - width) == [];
    }
    text := text + [DigitChar(v)];
    count := result + 1;
    PaddedLastDigit(value, minWidth);
  }

  /** Printing a number is printing all but its last digit, padded to one less, then the last digit. */
  lemma PaddedLastDigit(v: nat, width: int)
    ensures Padded(Digits(v), width)
         == (if v >= 10 then Padded(Digits(v / 10), width - 1) else Zeros(if width > 1 then width - 1 else 0))
            + [DigitChar(v % 10)]
  {
    if v >= 10 {
      var k := if width - 1 > |Digits(v / 10)| then width - 1 - |Digits(v / 10)| else 0;
      assert Padded(Digits(v), width) == Zeros(k) + (Digits(v / 10) + [DigitChar(v % 10)]);
    }
  }

  /** The optional sign. */
  function SignField(p: TimeParts): string
  {
    if p.negative then "-" else ""
  }

  /** `<days>d `, printed only when there are whole days. */
  function DaysField(p: TimeParts): string
  {
    if p.days > 0 then Digits(p.days) + "d " else ""
  }

  /** `HH:`, printed only when there are days or hours. */
  function HoursField(p: TimeParts): string
  {
    if p.days > 0 || p.hours > 0 then Padded(Digits(p.hours), 2) + ":" else ""
  }

  /** `MM:SS.mmm`, always printed. */
  function ClockField(p: TimeParts): string
  {
    Padded(Digits(p.minutes), 2) + ":" + Padded(Digits(p.seconds), 2) + "." + Padded(Digits(p.milliseconds), 3)
  }

  /** What `ArdTimeParts::printTo` prints: `[-][<days>d ][HH:]MM:SS.mmm`. */
  function FormatParts(p: TimeParts): string
  {
    SignField(p) + DaysField(p) + HoursField(p) + ClockField(p)
  }

  /** `ArdTimeParts::printTo`: returns the text and the number of characters printed. */
  method PrintTo(p: TimeParts) returns (text: string, count: nat)
    ensures text == FormatParts(p) && count == |text|
  {
    var result := 0;
    text := [];
    if p.negative {
      text := text + "-";
      result := result + 1;
    }
    var first := true;
    if p.days > 0 {
      first := false;
      var days := Digits(p.days);
      text := text + (days + "d ");
      result := result + |days| + 2;
    }
    assert text == SignField(p) + DaysField(p);
    if !first || p.hours > 0 {
      first := false;
      var hours, n := PrintWithLeadingZeros(p.hours, 2);
      text := text + (hours + ":");
      result := result + n + 1;
    }
    assert text == SignField(p) + DaysField(p) + HoursField(p);
    var minutes, nm := PrintWithLeadingZeros(p.minutes, 2);
    var seconds, ns := PrintWithLeadingZeros(p.seconds, 2);
    var millis, nms := PrintWithLeadingZeros(p.milliseconds, 3);
    text := text + (minutes + ":" + seconds + "." + millis);
    count := result + nm + 1 + ns + 1 + nms;
  }

  /** `ArdTime::printTo`: split the time, then print the parts. */
  method PrintTime(t: ArdTime) returns (text: string, count: nat)
    ensures text == FormatParts(SplitMs(t.ms)) && count == |text|
  {
    var parts := MakeTimeParts(t.ms);
    text, count := PrintTo(parts);
  }

  /** `ArdDuration::printTo`: split the duration, then print the parts. */
  method PrintDuration(d: ArdDuration) returns (text: string, count: nat)
    ensures text == FormatParts(DurationParts(d)) && count == |text|
  {
    var parts := DurationSplit(d);
    text, count := PrintTo(parts);
  }

  /** The text starts with '-' exactly when the parts are negative. */
  lemma FormatSign(p: TimeParts)
    ensures |FormatParts(p)| > 0
    ensures FormatParts(p)[0] == '-' <==> p.negative
  {
    if !p.negative {
      var rest := FormatParts(p);
      if p.days > 0 {
        assert rest[0] == Digits(p.days)[0];
      } else if p.hours > 0 {
        assert rest[0] == Padded(Digits(p.hours), 2)[0];
      } else {
        assert rest[0] == Padded(Digits(p.minutes), 2)[0];
      }
    }
  }

  /** A number with at most `width` digits pads to exactly `width` characters and reads back. */
  lemma PaddedField(v: nat, width: nat)
    requires |Digits(v)| <= width
    ensures |Padded(Digits(v), width)| == width
    ensures DecimalValue(Padded(Digits(v), width)) == v
  {
    PaddedRoundTrip(v, width);
  }

  /**
   * For parts in range the clock is exactly nine characters `MM:SS.mmm`, whose
   * fields read back as the minutes, seconds and milliseconds.
   */
  lemma ClockReadsBack(p: TimeParts)
    requires InRange(p)
    ensures var c := ClockField(p);
      |c| == 9 && c[2] == ':' && c[5] == '.'
      && DecimalValue(c[..2]) == p.minutes
      && DecimalValue(c[3..5]) == p.seconds
      && DecimalValue(c[6..]) == p.milliseconds
  {
    DigitsLength(p.minutes);
    DigitsLength(p.seconds);
    DigitsLength(p.milliseconds);
    var mm := Padded(Digits(p.minutes), 2);
    var ss := Padded(Digits(p.seconds), 2);
    var ms := Padded(Digits(p.milliseconds), 3);
    PaddedField(p.minutes, 2);
    PaddedField(p.seconds, 2);
    PaddedField(p.milliseconds, 3);
    ClockSlices(mm, ss, ms);
  }

  /** Where the three fields sit in `MM:SS.mmm`. */
  lemma ClockSlices(mm: string, ss: string, ms: string)
    requires |mm| == 2 && |ss| == 2 && |ms| == 3
    ensures var c := mm + ":" + ss + "." + ms;
      |c| == 9 && c[2] == ':' && c[5] == '.' && c[..2] == mm && c[3..5] == ss && c[6..] == ms
  {
    var c := mm + ":" + ss + "." + ms;
    assert c[..2] == mm;
    assert c[3..5] == ss;
    assert c[6..] == ms;
  }

  /** The printed text always ends with the clock. */
  lemma FormatEndsWithClock(p: TimeParts)
    ensures var t := FormatParts(p);
      |t| >= |ClockField(p)| && t[|t| - |ClockField(p)|..] == ClockField(p)
  {
    var head := SignField(p) + DaysField(p) + HoursField(p);
    assert FormatParts(p) == head + ClockField(p);
  }

  /** The length of the text: the sign, the day field, the `HH:` field exactly when days or hours are non-zero, and the nine-character clock. */
  lemma FormatLength(p: TimeParts)
    requires InRange(p)
    ensures |FormatParts(p)| == (if p.negative then 1 else 0)
      + (if p.days > 0 then |Digits(p.days)| + 2 else 0)
      + (if p.days > 0 || p.hours > 0 then 3 else 0) + 9
  {
    DigitsLength(p.hours);
    DigitsLength(p.minutes);
    DigitsLength(p.seconds);
    DigitsLength(p.milliseconds);
  }
}
