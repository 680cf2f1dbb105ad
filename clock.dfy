/** Game-clock arithmetic. A clock value encodes `hour * 100 + minute`
    (630 is 6:30, 2500 is 1:00 the next morning); the game only ever shows
    minutes that are multiples of ten. */
module Clock {
  import opened DotNet

  /** Minutes since midnight of a clock value, computed as
      `SleepPatches.GameMinutesBetween` does: `(t / 100) * 60 + t % 100`
      with C#'s truncating operators. */
  function TotalMinutes(t: int): (total: int)
    ensures 0 <= t ==> 0 <= total
  {
    Quot(t, 100) * 60 + Rem(t, 100)
  }

  /** The minute field of a clock value. */
  function MinuteField(t: int): int {
    Rem(t, 100)
  }

  /** A well-formed, quantised clock value: non-negative, minute field below
      60 and a multiple of ten. */
  predicate Quantised(t: int) {
    0 <= t && t % 100 < 60 && t % 100 % 10 == 0
  }

  /** `RoundUpToTen`: the smallest multiple of ten not below `v`. */
  function RoundUpToTen(v: int): (r: int)
    ensures r % 10 == 0 && v <= r < v + 10
  {
    var c := Ceiling(v as real / 10.0);
    assert (c * 10) as real == c as real * 10.0;
    c * 10
  }

  /** Re-encodes an absolute minute count as `hour * 100 + minute`, with the
      minute field truncated down to a multiple of ten (the second half of
      `AddGameMinutes`). */
  function FromTotalMinutes(totalMinutes: int): int {
    var newHour := Quot(totalMinutes, 60);
    var newMin := Quot(Rem(totalMinutes, 60), 10) * 10;
    newHour * 100 + newMin
  }

  /** `AddGameMinutes`: add `minutes` to a clock value and truncate the
      resulting minute field down to a multiple of ten. */
  function AddGameMinutes(startTime: int, minutes: int): int {
    FromTotalMinutes(TotalMinutes(startTime) + minutes)
  }

  /** `GameMinutesBetween`: minutes from `startTime` to `endTime`, never
      negative. */
  function GameMinutesBetween(startTime: int, endTime: int): (r: int)
    ensures r >= 0
    ensures TotalMinutes(startTime) <= TotalMinutes(endTime) ==>
              TotalMinutes(startTime) + r == TotalMinutes(endTime)
    ensures TotalMinutes(endTime) < TotalMinutes(startTime) ==> r == 0
  {
    var startTotal := Quot(startTime, 100) * 60 + Rem(startTime, 100);
    var endTotal := Quot(endTime, 100) * 60 + Rem(endTime, 100);
    MaxInt(0, endTotal - startTotal)
  }

  /** What `FormatGameTime` renders as "H:MM AM/PM": the displayed hour, the
      minute field and whether the suffix is PM. */
  datatype TimeLabel = TimeLabel(hour: int, minute: int, pm: bool)

  /** The hour of a clock value after the past-midnight wrap (25 becomes 1). */
  function WrappedHour(t: int): int {
    var hour := Quot(t, 100);
    if hour >= 24 then hour - 24 else hour
  }

  /** `FormatGameTime`, as the triple it renders. */
  function FormatGameTime(time: int): TimeLabel {
    var hour := Quot(time, 100);
    var min := Rem(time, 100);
    var hour' := if hour >= 24 then hour - 24 else hour;
    var pm := hour' >= 12;
    var displayHour := Rem(hour', 12);
    var displayHour' := if displayHour == 0 then 12 else displayHour;
    TimeLabel(displayHour', min, pm)
  }

  // ---------------------------------------------------------------------
  // Encoding lemmas

  /** Splitting `h * 100 + m` with `m` below 100 gives back `h` and `m`. */
  lemma SplitEncoding(h: int, m: int)
    requires 0 <= h && 0 <= m < 100
    ensures Quot(h * 100 + m, 100) == h && Rem(h * 100 + m, 100) == m
  {
    var t := h * 100 + m;
    assert t / 100 == h && t % 100 == m by {
      assert t == 100 * h + m;
    }
  }

  /** The minutes-since-midnight of a non-negative quantised value,
      re-encoded, give the value back. */
  lemma TotalMinutesOfQuantised(t: int)
    requires Quantised(t)
    ensures TotalMinutes(t) == (t / 100) * 60 + t % 100
    ensures TotalMinutes(t) / 60 == t / 100 && TotalMinutes(t) % 60 == t % 100
  {
    var n := TotalMinutes(t);
    assert n == 60 * (t / 100) + t % 100;
  }

  /** Re-encoding an absolute minute count the way `AddGameMinutes` does
      yields a quantised value whose minutes-since-midnight lie at most nine
      minutes below the count. */
  lemma EncodeTotal(total: int)
    requires 0 <= total
    ensures var r := FromTotalMinutes(total);
            Quantised(r) && TotalMinutes(r) <= total < TotalMinutes(r) + 10
  {
    var h := total / 60;
    var mm := (total % 60) / 10 * 10;
    assert 0 <= mm <= 50 && mm % 10 == 0;
    SplitEncoding(h, mm);
    var r := h * 100 + mm;
    assert r % 100 == mm by { assert r == 100 * h + mm; }
    assert TotalMinutes(r) == h * 60 + mm;
  }

  /** The minutes-since-midnight of a quantised value are a multiple of ten. */
  lemma TenthsOfTotal(t: int)
    requires Quantised(t)
    ensures TotalMinutes(t) == 10 * (TotalMinutes(t) / 10)
  {
    NonNegativeParts(t);
    var h, mm := t / 100, t % 100;
    var k := 6 * h + mm / 10;
    assert mm == 10 * (mm / 10);
    assert TotalMinutes(t) == 10 * k;
    assert (10 * k) / 10 == k;
  }

  /** Two multiples of ten less than ten apart are equal. */
  lemma SameTen(x: int, y: int, a: int, b: int)
    requires x == 10 * a && y == 10 * b
    requires x <= y < x + 10
    ensures x == y
  {
  }

  /** Re-encoding is monotone in the absolute minute count. */
  lemma EncodeMonotone(a: int, b: int)
    requires 0 <= a <= b
    ensures FromTotalMinutes(a) <= FromTotalMinutes(b)
  {
    if a / 60 < b / 60 {
      assert (a % 60) / 10 * 10 <= 50;
    } else {
      assert a / 60 == b / 60;
      assert a % 60 <= b % 60 by {
        assert a == 60 * (a / 60) + a % 60;
        assert b == 60 * (b / 60) + b % 60;
      }
    }
  }

  // ---------------------------------------------------------------------
  // Properties of the helpers

  /** Every value `AddGameMinutes` produces is quantised: its minute field
      is a multiple of ten in 0..50. */
  lemma AddGameMinutesQuantises(t: int, m: int)
    requires 0 <= t && 0 <= m
    ensures Quantised(AddGameMinutes(t, m))
    ensures var f := MinuteField(AddGameMinutes(t, m)); f % 10 == 0 && 0 <= f <= 50
  {
    var total := TotalMinutes(t) + m;
    assert 0 <= total by { NonNegativeParts(t); }
    EncodeTotal(total);
    assert AddGameMinutes(t, m) == FromTotalMinutes(total);
    QuantisedMinuteField(FromTotalMinutes(total));
  }

  /** `AddGameMinutes` is the exact sum, truncated by fewer than ten
      minutes. */
  lemma AddGameMinutesTruncates(t: int, m: int)
    requires 0 <= t && 0 <= m
    ensures TotalMinutes(AddGameMinutes(t, m)) <= TotalMinutes(t) + m < TotalMinutes(AddGameMinutes(t, m)) + 10
  {
    var total := TotalMinutes(t) + m;
    assert 0 <= total by { NonNegativeParts(t); }
    var r := FromTotalMinutes(total);
    assert AddGameMinutes(t, m) == r;
    assert TotalMinutes(r) <= total < TotalMinutes(r) + 10 by { EncodeTotal(total); }
  }

  /** The minute field of a quantised value is one of 0, 10, ..., 50. */
  lemma QuantisedMinuteField(t: int)
    requires Quantised(t)
    ensures MinuteField(t) == t % 100 && MinuteField(t) % 10 == 0 && 0 <= MinuteField(t) <= 50
  {
  }

  /** For a non-negative value C#'s truncating `/` and `%` agree with
      Dafny's, and the minutes since midnight are not negative. */
  lemma NonNegativeParts(t: int)
    requires 0 <= t
    ensures Quot(t, 100) == t / 100 && Rem(t, 100) == t % 100
    ensures TotalMinutes(t) == (t / 100) * 60 + t % 100 && 0 <= TotalMinutes(t)
  {
  }

  /** Adding a multiple of ten to a quantised value loses nothing. */
  lemma AddGameMinutesExact(t: int, m: int)
    requires Quantised(t) && 0 <= m && m % 10 == 0
    ensures TotalMinutes(AddGameMinutes(t, m)) == TotalMinutes(t) + m
  {
    AddGameMinutesQuantises(t, m);
    AddGameMinutesTruncates(t, m);
    var r := AddGameMinutes(t, m);
    TotalMinutesOfQuantised(t);
    TotalMinutesOfQuantised(r);
    TenthsOfTotal(t);
    TenthsOfTotal(r);
    var total := TotalMinutes(t) + m;
    assert m == 10 * (m / 10);
    SameTen(TotalMinutes(r), total, TotalMinutes(r) / 10, TotalMinutes(t) / 10 + m / 10);
  }

  /** `AddGameMinutes` is non-decreasing in the minutes added. */
  lemma AddGameMinutesMonotone(t: int, m1: int, m2: int)
    requires 0 <= t && 0 <= m1 <= m2
    ensures AddGameMinutes(t, m1) <= AddGameMinutes(t, m2)
  {
    EncodeMonotone(TotalMinutes(t) + m1, TotalMinutes(t) + m2);
  }

  /** Adding zero minutes to a quantised value leaves it unchanged. */
  lemma AddZeroMinutes(t: int)
    requires Quantised(t)
    ensures AddGameMinutes(t, 0) == t
  {
    TotalMinutesOfQuantised(t);
    var n := TotalMinutes(t);
    assert (n % 60) / 10 * 10 == t % 100;
    assert t == 100 * (t / 100) + t % 100;
  }

  /** On quantised values, the encoded order is the order in time. */
  lemma EncodingOrder(a: int, b: int)
    requires Quantised(a) && Quantised(b)
    ensures a <= b <==> TotalMinutes(a) <= TotalMinutes(b)
  {
    TotalMinutesOfQuantised(a);
    TotalMinutesOfQuantised(b);
    assert a == 100 * (a / 100) + a % 100;
    assert b == 100 * (b / 100) + b % 100;
    if a / 100 < b / 100 {
      assert TotalMinutes(a) < TotalMinutes(b);
    } else if b / 100 < a / 100 {
      assert TotalMinutes(b) < TotalMinutes(a);
    }
  }

  /** Between two quantised values, the gap is zero exactly when the end is
      not after the start, and otherwise a positive multiple of ten. */
  lemma MinutesBetweenQuantised(a: int, b: int)
    requires Quantised(a) && Quantised(b)
    ensures GameMinutesBetween(a, b) == 0 <==> b <= a
    ensures GameMinutesBetween(a, b) % 10 == 0
  {
    EncodingOrder(a, b);
    EncodingOrder(b, a);
    TenthsOfTotal(a);
    TenthsOfTotal(b);
    var gap := GameMinutesBetween(a, b);
    if TotalMinutes(a) <= TotalMinutes(b) {
      TenMultiple(TotalMinutes(b) / 10 - TotalMinutes(a) / 10);
    } else {
      TenMultiple(0);
    }
  }

  /** Ten times an integer leaves no remainder modulo ten. */
  lemma TenMultiple(k: int)
    ensures (10 * k) % 10 == 0
  {
  }

  /** Adding a positive multiple of ten to a quantised value moves it
      forward by exactly that many minutes, to a later quantised value. */
  lemma AddTensAdvances(t: int, n: int)
    requires Quantised(t) && 10 <= n && n % 10 == 0
    ensures var r := AddGameMinutes(t, n);
            Quantised(r) && TotalMinutes(r) == TotalMinutes(t) + n && t < r
  {
    var r := AddGameMinutes(t, n);
    AddGameMinutesQuantises(t, n);
    AddGameMinutesExact(t, n);
    EncodingOrder(r, t);
  }

  /** If adding `n` (a positive multiple of ten) to `t` overshoots `limit`,
      then fewer than `n` minutes, and so at most `n - 10`, lie between `t`
      and `limit`. */
  lemma OvershootLeavesLess(t: int, n: int, limit: int)
    requires Quantised(t) && Quantised(limit) && 10 <= n && n % 10 == 0
    requires AddGameMinutes(t, n) > limit
    ensures GameMinutesBetween(t, limit) <= n - 10
  {
    var r := AddGameMinutes(t, n);
    AddTensAdvances(t, n);
    EncodingOrder(r, limit);
    MinutesBetweenQuantised(t, limit);
    var gap := GameMinutesBetween(t, limit);
    assert gap < n;
    SameTenBelow(gap, n, gap / 10, n / 10);
  }

  /** Rounding up to a multiple of ten is monotone. */
  lemma RoundUpToTenMonotone(v1: int, v2: int)
    requires v1 <= v2
    ensures RoundUpToTen(v1) <= RoundUpToTen(v2)
  {
    var r1, r2 := RoundUpToTen(v1), RoundUpToTen(v2);
    if r2 < r1 {
      SameTenBelow(r2, r1, r2 / 10, r1 / 10);
      assert false;
    }
  }

  /** Of two multiples of ten, the smaller is at least ten below. */
  lemma SameTenBelow(x: int, y: int, a: int, b: int)
    requires x == 10 * a && y == 10 * b && x < y
    ensures x <= y - 10
  {
  }

  /** `RoundUpToTen` maps 1..10 to 10 and 11 to 20. */
  lemma RoundUpToTenExamples(v: int)
    requires 1 <= v <= 11
    ensures RoundUpToTen(v) == if v <= 10 then 10 else 20
  {
  }

  /** A start later than the end gives zero: 22:00 to 18:00 is 0 minutes. */
  lemma MinutesBetweenLateExample()
    ensures GameMinutesBetween(2200, 1800) == 0
    ensures GameMinutesBetween(600, 710) == 70
  {
  }

  /** The displayed hour is in 1..12 (midnight and noon both show 12), the
      suffix is PM exactly when the wrapped hour is 12 or later, and the
      displayed hour agrees with the wrapped hour modulo 12. */
  lemma FormatGameTimeHour(t: int)
    requires 0 <= t
    ensures var l := FormatGameTime(t);
            1 <= l.hour <= 12 &&
            (l.pm <==> WrappedHour(t) >= 12) &&
            l.hour % 12 == WrappedHour(t) % 12 &&
            l.minute == MinuteField(t)
    ensures WrappedHour(t) % 12 == 0 ==> FormatGameTime(t).hour == 12
  {
    var h := WrappedHour(t);
    assert 0 <= h;
  }

  /** Past-midnight values wrap: 25:00 shows as 1:00 AM; 24:30 as 12:30 AM;
      12:00 as 12:00 PM. */
  lemma FormatGameTimeExamples()
    ensures FormatGameTime(2500) == TimeLabel(1, 0, false)
    ensures FormatGameTime(2430) == TimeLabel(12, 30, false)
    ensures FormatGameTime(1200) == TimeLabel(12, 0, true)
    ensures FormatGameTime(710) == TimeLabel(7, 10, false)
  {
  }

  /** Formatting is a projection of the clock value: re-quantising with zero
      added minutes does not change what is shown. */
  lemma FormatAfterAddZero(t: int)
    requires Quantised(t)
    ensures FormatGameTime(AddGameMinutes(t, 0)) == FormatGameTime(t)
  {
    AddZeroMinutes(t);
  }
}
