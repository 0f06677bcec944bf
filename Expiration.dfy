/** The expiration resolver: for an order placed at server time `now` with a
    duration in minutes, the one expiration the venue accepts and the offer
    index that goes with it.

    Durations of 1 to 5 minutes are "turbo" offers and expire on a whole
    minute; longer durations are "binary" offers and expire on a local
    quarter-hour. */
module Expiration {
  import opened Clock

  /** The longest turbo duration, in minutes. */
  const TURBO_MAX_DURATION := 5
  /** The offer index of every binary expiration. */
  const BINARY_INDEX := 5

  /** An expiration timestamp with its offer index. */
  datatype Expiration = Expiration(timestamp: int, index: int)

  /** `abs(x)`: the magnitude of `x`. */
  function Abs(x: int): (r: int)
    ensures r >= 0
    ensures r == x || r == -x
  {
    if x < 0 then -x else x
  }

  /** `math.ceil(a / b)` for a non-negative `a` and a positive `b`. */
  function CeilDiv(a: nat, b: nat): (q: nat)
    requires b > 0
    ensures (q - 1) * b < a <= q * b
  {
    (a + b - 1) / b
  }

  /** The turbo expiration: the current minute plus `duration` minutes, or
      one minute more when 30 or more seconds of the minute have passed.
      Equivalently, `current + duration` minutes rounded to the nearest whole
      minute, half a minute rounding up. */
  function TurboExpiration(current: LocalMoment, duration: int): (r: LocalMoment)
    ensures r.Second() == 0
    ensures current.wall + 60 * duration - 30 < r.wall <= current.wall + 60 * duration + 30
  {
    var minutesToAdd := if current.Second() < 30 then duration else duration + 1;
    var r := current.PlusMinutes(minutesToAdd).TruncateToMinute();
    SecondAfterWholeMinutes(current, minutesToAdd);
    r
  }

  /** The quarter-hour at or below `desired`. */
  function PrevBoundary(desired: LocalMoment): (r: LocalMoment)
    ensures OnQuarterHour(r)
    ensures r.wall <= desired.wall < r.wall + 900
  {
    var prevMultiple := (desired.Minute() / 15) * 15;
    WallDecomposition(desired);
    desired.AtMinute(prevMultiple)
  }

  /** The quarter-hour strictly above `desired`: the next multiple of 15
      minutes, rolling over to the start of the next hour after minute 45. */
  function NextBoundary(desired: LocalMoment): (r: LocalMoment)
    ensures r.wall == PrevBoundary(desired).wall + 900
    ensures OnQuarterHour(r)
  {
    var nextMultiple := CeilDiv(desired.Minute() + 1, 15) * 15;
    var r := if nextMultiple >= 60 then desired.AtMinute(0).Plus(3600)
             else desired.AtMinute(nextMultiple);
    NextBoundaryFollowsPrev(desired, r);
    r
  }

  /** Either branch of the next boundary lies 900 seconds above the
      previous boundary, and so on a quarter-hour. */
  lemma {:induction false} NextBoundaryFollowsPrev(desired: LocalMoment, r: LocalMoment)
    requires var nextMultiple := CeilDiv(desired.Minute() + 1, 15) * 15;
      r == if nextMultiple >= 60 then desired.AtMinute(0).Plus(3600)
           else desired.AtMinute(nextMultiple)
    ensures r.wall == PrevBoundary(desired).wall + 900
    ensures OnQuarterHour(r)
  {
    var prevTime := PrevBoundary(desired);
    var prevMultiple := (desired.Minute() / 15) * 15;
    NextMultipleFollowsPrev(desired.Minute());
    assert prevTime.wall == desired.HourStart() + 60 * prevMultiple;
    assert r.wall == prevTime.wall + 900;
    QuarterHourIsMultipleOf900(prevTime);
    DivMod(r.wall, 900, prevTime.wall / 900 + 1, 0);
    QuarterHourIsMultipleOf900(r);
  }

  /** The next multiple of 15 after minute `m` is 15 above the previous one. */
  lemma {:induction false} NextMultipleFollowsPrev(m: int)
    requires 0 <= m < 60
    ensures CeilDiv(m + 1, 15) * 15 == (m / 15) * 15 + 15
  {
    DivMod(m + 15, 15, m / 15 + 1, m % 15);
  }

  /** The binary expiration: of the two quarter-hours around `current +
      duration` minutes, the nearer one (the lower one on a tie), except
      that the lower one is skipped when it lies before `current`. */
  function BinaryExpiration(current: LocalMoment, duration: nat): (r: LocalMoment)
    ensures OnQuarterHour(r)
    ensures r.wall >= current.wall
  {
    var desired := current.PlusMinutes(duration);
    var prevTime := PrevBoundary(desired);
    var nextTime := NextBoundary(desired);
    if prevTime.wall < current.wall then nextTime
    else if Abs(prevTime.wall - desired.wall) <= Abs(nextTime.wall - desired.wall) then prevTime
    else nextTime
  }

  /** `get_expiration_time`: the expiration timestamp and offer index for
      an order placed at `timestamp` for `duration` minutes. */
  function GetExpirationTime(timestamp: nat, duration: int, offset: int): (r: Expiration)
    requires duration >= 1
    ensures r.index == if duration <= TURBO_MAX_DURATION then duration - 1 else BINARY_INDEX
    ensures r.timestamp >= timestamp
    ensures FromTimestamp(r.timestamp, offset).Second() == 0
    ensures duration <= TURBO_MAX_DURATION ==>
      timestamp + 60 * duration - 30 < r.timestamp <= timestamp + 60 * duration + 30
    ensures duration > TURBO_MAX_DURATION ==> OnQuarterHour(FromTimestamp(r.timestamp, offset))
  {
    var currentTime := FromTimestamp(timestamp, offset);
    var (expirationDt, idx) :=
      if duration <= TURBO_MAX_DURATION then (TurboExpiration(currentTime, duration), duration - 1)
      else (BinaryExpiration(currentTime, duration), BINARY_INDEX);
    Expiration(DateToTimestamp(expirationDt, offset), idx)
  }

  /** `r` is at least as close to `desired` as `q`, and below it on a tie. */
  predicate NoFartherThan(r: LocalMoment, q: LocalMoment, desired: LocalMoment)
  {
    Abs(r.wall - desired.wall) < Abs(q.wall - desired.wall)
    || (Abs(r.wall - desired.wall) == Abs(q.wall - desired.wall) && r.wall <= q.wall)
  }

  /** `r` is the quarter-hour at or after `current` nearest to `desired`,
      the earlier one on a tie. */
  ghost predicate NearestFutureQuarter(current: LocalMoment, desired: LocalMoment, r: LocalMoment)
  {
    && OnQuarterHour(r)
    && r.wall >= current.wall
    && forall q :: OnQuarterHour(q) && q.wall >= current.wall ==> NoFartherThan(r, q, desired)
  }

  /** At most one date-time is the nearest future quarter-hour. */
  lemma {:induction false} NearestFutureQuarterIsUnique(current: LocalMoment, desired: LocalMoment, r1: LocalMoment, r2: LocalMoment)
    requires NearestFutureQuarter(current, desired, r1)
    requires NearestFutureQuarter(current, desired, r2)
    ensures r1 == r2
  {
    assert NoFartherThan(r1, r2, desired);
    assert NoFartherThan(r2, r1, desired);
  }

  /** No quarter-hour lies strictly between two consecutive ones. */
  lemma {:induction false} NoQuarterBetween(p: LocalMoment, q: LocalMoment)
    requires OnQuarterHour(p) && OnQuarterHour(q)
    requires p.wall <= q.wall < p.wall + 900
    ensures q == p
  {
    QuarterHourIsMultipleOf900(p);
    QuarterHourIsMultipleOf900(q);
    var a, b := p.wall / 900, q.wall / 900;
    assert p.wall == 900 * a && q.wall == 900 * b;
    assert a <= b < a + 1;
  }

  /** The binary expiration is the quarter-hour at or after `current` that
      is nearest to `current + duration` minutes, the earlier one on a tie. */
  lemma {:induction false} BinaryExpirationIsNearest(current: LocalMoment, duration: nat)
    ensures NearestFutureQuarter(current, current.PlusMinutes(duration), BinaryExpiration(current, duration))
  {
    var desired := current.PlusMinutes(duration);
    var prevTime := PrevBoundary(desired);
    var nextTime := NextBoundary(desired);
    var r := BinaryExpiration(current, duration);
    forall q | OnQuarterHour(q) && q.wall >= current.wall
      ensures NoFartherThan(r, q, desired)
    {
      if q.wall < prevTime.wall {
        assert prevTime.wall >= current.wall;
      } else if q.wall < nextTime.wall {
        NoQuarterBetween(prevTime, q);
      }
    }
  }

  /** The binary branch of `get_expiration_time` returns the nearest
      quarter-hour at or after `timestamp` to `timestamp + duration` minutes. */
  lemma BinaryExpirationTimeIsNearest(timestamp: nat, duration: int, offset: int)
    requires duration > TURBO_MAX_DURATION
    ensures NearestFutureQuarter(FromTimestamp(timestamp, offset),
                                 FromTimestamp(timestamp + 60 * duration, offset),
                                 FromTimestamp(GetExpirationTime(timestamp, duration, offset).timestamp, offset))
  {
    BinaryExpirationIsNearest(FromTimestamp(timestamp, offset), duration);
  }

  /** The turbo branch of `get_expiration_time` returns the unique whole
      minute within half a minute of `timestamp + duration` minutes (a half
      minute above it included): any other whole minute in that window is
      the same timestamp. */
  lemma {:induction false} TurboExpirationTimeIsNearestMinute(timestamp: nat, duration: int, offset: int, t: int)
    requires 1 <= duration <= TURBO_MAX_DURATION
    requires FromTimestamp(t, offset).Second() == 0
    requires timestamp + 60 * duration - 30 < t <= timestamp + 60 * duration + 30
    ensures GetExpirationTime(timestamp, duration, offset).timestamp == t
  {
    var r := GetExpirationTime(timestamp, duration, offset).timestamp;
    var a, b := (r + offset) / 60, (t + offset) / 60;
    assert r + offset == 60 * a && t + offset == 60 * b;
  }

  // Worked cases, at UTC (offset 0), where 36000 is 10:00:00.

  /** 10:00:10 for 3 minutes expires at 10:03:00 with index 2. */
  lemma TurboBeforeHalfMinute()
    ensures GetExpirationTime(36010, 3, 0) == Expiration(36180, 2)
  {
  }

  /** 10:00:45 for 5 minutes expires at 10:06:00 with index 4. */
  lemma TurboAfterHalfMinute()
    ensures GetExpirationTime(36045, 5, 0) == Expiration(36360, 4)
  {
  }

  /** 10:00:00 for 20 minutes: 10:15 is 5 minutes from 10:20, 10:30 is 10
      minutes away, so 10:15:00 is chosen. */
  lemma BinaryNearerLower()
    ensures GetExpirationTime(36000, 20, 0) == Expiration(36900, 5)
  {
    assert BinaryExpiration(LocalMoment(36000), 20) == LocalMoment(36900) by {
      assert LocalMoment(37200).Minute() == 20;
      assert LocalMoment(37200).HourStart() == 36000;
      assert PrevBoundary(LocalMoment(37200)) == LocalMoment(36900);
      assert NextBoundary(LocalMoment(37200)) == LocalMoment(37800);
    }
  }

  /** 09:59:30 for 8 minutes: 10:07:30 is 7.5 minutes from both 10:00 and
      10:15, and the tie goes to 10:00:00. */
  lemma BinaryTieGoesLower()
    ensures GetExpirationTime(35970, 8, 0) == Expiration(36000, 5)
  {
    assert BinaryExpiration(LocalMoment(35970), 8) == LocalMoment(36000) by {
      assert LocalMoment(36450).Minute() == 7;
      assert LocalMoment(36450).HourStart() == 36000;
      assert PrevBoundary(LocalMoment(36450)) == LocalMoment(36000);
      assert NextBoundary(LocalMoment(36450)) == LocalMoment(36900);
    }
  }

  /** 10:01:30 for 6 minutes: 10:07:30 is as near to 10:00 as to 10:15,
      but 10:00 has passed, so 10:15:00 is chosen. */
  lemma BinaryPassedLowerSkipped()
    ensures GetExpirationTime(36090, 6, 0) == Expiration(36900, 5)
  {
    assert BinaryExpiration(LocalMoment(36090), 6) == LocalMoment(36900) by {
      assert LocalMoment(36450).Minute() == 7;
      assert LocalMoment(36450).HourStart() == 36000;
      assert PrevBoundary(LocalMoment(36450)) == LocalMoment(36000);
      assert NextBoundary(LocalMoment(36450)) == LocalMoment(36900);
    }
  }

  /** 10:50:00 for 6 minutes: the upper boundary rolls over to 11:00:00. */
  lemma BinaryHourRollover()
    ensures GetExpirationTime(39000, 6, 0) == Expiration(39600, 5)
  {
    assert BinaryExpiration(LocalMoment(39000), 6) == LocalMoment(39600) by {
      assert LocalMoment(39360).Minute() == 56;
      assert LocalMoment(39360).HourStart() == 36000;
      assert PrevBoundary(LocalMoment(39360)) == LocalMoment(38700);
      assert NextBoundary(LocalMoment(39360)) == LocalMoment(39600);
    }
  }

  /** 10:00:00 for 6 minutes expires at 10:00:00 itself: a binary expiration
      is never before `now` but can be equal to it. */
  lemma BinaryMayExpireNow()
    ensures GetExpirationTime(36000, 6, 0).timestamp == 36000
  {
    assert BinaryExpiration(LocalMoment(36000), 6) == LocalMoment(36000) by {
      assert LocalMoment(36360).Minute() == 6;
      assert LocalMoment(36360).HourStart() == 36000;
      assert PrevBoundary(LocalMoment(36360)) == LocalMoment(36000);
      assert NextBoundary(LocalMoment(36360)) == LocalMoment(36900);
    }
  }
}
