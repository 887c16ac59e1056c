/** `timeAgo`: how long ago a timestamp was, in the largest unit that stays below its limit. */
module SnippetCard {
  import opened Text

  /**
   * `Math.round(a / b)` for a positive divisor, in integers: the nearest integer to a / b,
   * halves rounded up (toward positive infinity, as `Math.round` does).
   */
  function RoundDiv(a: int, b: int): (r: int)
    requires b > 0
    ensures 2 * b * r <= 2 * a + b < 2 * b * (r + 1)
  {
    (2 * a + b) / (2 * b)
  }

  datatype Unit = Seconds | Minutes | Hours | Days

  function Suffix(u: Unit): string {
    match u
    case Seconds => "s ago"
    case Minutes => "m ago"
    case Hours => "h ago"
    case Days => "d ago"
  }

  /** A rounded count in a unit. */
  datatype Age = Age(count: int, unit: Unit)

  /**
   * The chain of roundings `timeAgo` performs on `now - ts` milliseconds: seconds below 60,
   * else minutes below 60, else hours below 24, else days without an upper bound.
   */
  function AgeOf(now: int, ts: int): Age {
    var sec := RoundDiv(now - ts, 1000);
    if sec < 60 then Age(sec, Seconds)
    else
      var min := RoundDiv(sec, 60);
      if min < 60 then Age(min, Minutes)
      else
        var hr := RoundDiv(min, 60);
        if hr < 24 then Age(hr, Hours)
        else Age(RoundDiv(hr, 24), Days)
  }

  /** `timeAgo(ts)` at time `now`: the count and the unit's suffix. */
  function TimeAgo(now: int, ts: int): string {
    var a := AgeOf(now, ts);
    IntToString(a.count) + Suffix(a.unit)
  }

  predicate EndsWith(s: string, suffix: string) {
    |suffix| <= |s| && s[|s| - |suffix|..] == suffix
  }

  /** The text ends in its unit's suffix and in no other unit's. */
  lemma TimeAgoSuffix(now: int, ts: int, u: Unit)
    ensures EndsWith(TimeAgo(now, ts), Suffix(u)) <==> u == AgeOf(now, ts).unit
  {
    var a := AgeOf(now, ts);
    var s := TimeAgo(now, ts);
    assert s[|s| - 5..] == Suffix(a.unit);
    if u != a.unit {
      assert Suffix(u)[0] != Suffix(a.unit)[0];
      assert s[|s| - 5..][0] == Suffix(a.unit)[0];
    }
  }

  /** `Math.round(a / b) < n` exactly when a / b lies below n - 1/2. */
  lemma RoundBelow(a: int, b: int, n: int)
    requires b > 0
    ensures RoundDiv(a, b) < n <==> 2 * a + b < 2 * b * n
  {
    var r := RoundDiv(a, b);
    if r < n {
      ScaleMonotone(2 * b, r + 1, n);
    } else {
      ScaleMonotone(2 * b, n, r);
    }
  }

  lemma ScaleMonotone(c: int, x: int, y: int)
    requires c > 0 && x <= y
    ensures c * x <= c * y
  {
    assert c * y - c * x == c * (y - x);
  }

  /**
   * The unit as a function of the elapsed milliseconds: seconds below 59 500, minutes below
   * 3 569 500, hours below 84 569 500, days from there on.
   */
  lemma UnitThresholds(now: int, ts: int)
    ensures var d, u := now - ts, AgeOf(now, ts).unit;
      (u == Seconds <==> d < 59500)
      && (u == Minutes <==> 59500 <= d < 3569500)
      && (u == Hours <==> 3569500 <= d < 84569500)
      && (u == Days <==> 84569500 <= d)
  {
    var d := now - ts;
    var sec := RoundDiv(d, 1000);
    RoundBelow(d, 1000, 60);
    RoundBelow(d, 1000, 3570);
    RoundBelow(d, 1000, 84570);
    var min := RoundDiv(sec, 60);
    RoundBelow(sec, 60, 60);
    RoundBelow(sec, 60, 1410);
    var hr := RoundDiv(min, 60);
    RoundBelow(min, 60, 24);
  }

  /**
   * The counts stay inside their unit: a seconds count is below 60, minutes run from 1 to
   * 59, hours from 1 to 23, and days start at 1 with no upper bound.
   */
  lemma CountRanges(now: int, ts: int)
    ensures var a := AgeOf(now, ts);
      (a.unit == Seconds ==> a.count < 60)
      && (a.unit == Minutes ==> 1 <= a.count < 60)
      && (a.unit == Hours ==> 1 <= a.count < 24)
      && (a.unit == Days ==> 1 <= a.count)
  {
    var sec := RoundDiv(now - ts, 1000);
    if sec >= 60 {
      RoundBelow(sec, 60, 1);
      var min := RoundDiv(sec, 60);
      if min >= 60 {
        RoundBelow(min, 60, 1);
        var hr := RoundDiv(min, 60);
        if hr >= 24 {
          RoundBelow(hr, 24, 1);
        }
      }
    }
  }

  /** `Math.round` of an exact multiple is the multiplier. */
  lemma RoundExact(k: int, b: int)
    requires b > 0
    ensures RoundDiv(k * b, b) == k
  {
    RoundBelow(k * b, b, k + 1);
    assert 2 * b * (k + 1) == 2 * (k * b) + 2 * b;
    RoundBelow(k * b, b, k);
    assert 2 * b * k == 2 * (k * b);
  }

  /** Days have no cap: every day count from 1 up is what `timeAgo` shows for some age. */
  lemma DaysUnbounded(n: int)
    requires n >= 1
    ensures AgeOf(n * 86400000, 0) == Age(n, Days)
  {
    RoundExact(n * 86400, 1000);
    assert n * 86400 * 1000 == n * 86400000;
    RoundExact(n * 1440, 60);
    assert n * 1440 * 60 == n * 86400;
    RoundExact(n * 24, 60);
    assert n * 24 * 60 == n * 1440;
    RoundExact(n, 24);
  }

  /** A timestamp in the future reads as zero or a negative number of seconds. */
  lemma FutureIsSeconds(now: int, ts: int)
    requires ts > now
    ensures AgeOf(now, ts).unit == Seconds && AgeOf(now, ts).count <= 0
    ensures EndsWith(TimeAgo(now, ts), "s ago")
  {
    RoundBelow(now - ts, 1000, 1);
    TimeAgoSuffix(now, ts, Seconds);
  }

  /** The text determines the count and the unit: equal texts come from equal ages. */
  lemma TimeAgoDeterminesAge(now: int, ts: int, now': int, ts': int)
    requires TimeAgo(now, ts) == TimeAgo(now', ts')
    ensures AgeOf(now, ts) == AgeOf(now', ts')
  {
    var a, b := AgeOf(now, ts), AgeOf(now', ts');
    var s := TimeAgo(now, ts);
    TimeAgoSuffix(now, ts, b.unit);
    TimeAgoSuffix(now', ts', b.unit);
    assert a.unit == b.unit;
    assert IntToString(a.count) == s[..|s| - 5];
    assert IntToString(b.count) == s[..|s| - 5];
    IntToStringInjective(a.count, b.count);
  }
}
