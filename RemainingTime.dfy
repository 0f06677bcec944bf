/** The expiration enumerator: every expiration offered at server time
    `now`, each with the seconds that remain until it. Five turbo offers
    come first, one a minute, then eleven binary offers, one a quarter-hour. */
module RemainingTime {
  import opened Clock
  import opened Expiration

  /** Number of turbo offers listed. */
  const SHORT_TERM_COUNT := 5
  /** Number of binary offers listed. */
  const LONG_TERM_COUNT := 11
  /** A binary offer must lie more than this many seconds ahead. */
  const LONG_TERM_MIN_AHEAD := 300

  /** An offered expiration: its label in minutes and the seconds until it. */
  datatype Slot = Slot(minutes: int, remaining: int)

  /** The first binary offer: the earliest local quarter-hour that lies more
      than 300 seconds after `timestamp`. */
  function FirstLongExpiration(timestamp: int, offset: int): (t: int)
    ensures OnQuarterHour(FromTimestamp(t, offset))
    ensures LONG_TERM_MIN_AHEAD < t - timestamp <= LONG_TERM_MIN_AHEAD + 900
  {
    var wall := timestamp + offset;
    var q := LocalMoment(((wall + LONG_TERM_MIN_AHEAD) / 900 + 1) * 900);
    QuarterHourIsMultipleOf900(q);
    DateToTimestamp(q, offset)
  }

  /** No quarter-hour more than 300 seconds ahead comes before the first
      binary offer. */
  lemma {:induction false} FirstLongIsEarliest(timestamp: int, offset: int, t: int)
    requires OnQuarterHour(FromTimestamp(t, offset))
    requires t - timestamp > LONG_TERM_MIN_AHEAD
    ensures t >= FirstLongExpiration(timestamp, offset)
  {
    var wall := timestamp + offset;
    var a := (wall + LONG_TERM_MIN_AHEAD) / 900;
    QuarterHourIsMultipleOf900(FromTimestamp(t, offset));
    var b := (t + offset) / 900;
    assert t + offset == 900 * b;
    assert wall + LONG_TERM_MIN_AHEAD >= 900 * a;
    assert b >= a + 1;
  }

  /** A whole number of minutes after a whole minute is a whole minute. */
  lemma {:induction false} WholeMinutesApart(m: LocalMoment, n: int)
    requires m.Second() == 0
    ensures m.PlusMinutes(n).Second() == 0
  {
    var a := m.wall / 60;
    assert m.wall == 60 * a;
    DivMod(m.wall + 60 * n, 60, a + n, 0);
  }

  /** A whole number of quarter-hours after a quarter-hour is a quarter-hour. */
  lemma {:induction false} WholeQuarterHoursApart(m: LocalMoment, k: int)
    requires OnQuarterHour(m)
    ensures OnQuarterHour(m.Plus(900 * k))
  {
    QuarterHourIsMultipleOf900(m);
    var a := m.wall / 900;
    assert m.wall == 900 * a;
    DivMod(m.wall + 900 * k, 900, a + k, 0);
    QuarterHourIsMultipleOf900(m.Plus(900 * k));
  }

  /** Where the turbo ladder starts: one minute after the current minute
      when more than 30 seconds of it remain, two minutes after it otherwise. */
  function ShortTermStart(timestamp: int, offset: int): (base: LocalMoment)
    ensures base.Second() == 0
    ensures 31 <= DateToTimestamp(base, offset) - timestamp <= 90
  {
    var floor := FromTimestamp(timestamp, offset).TruncateToMinute();
    WholeMinutesApart(floor, 1);
    WholeMinutesApart(floor, 2);
    if DateToTimestamp(floor.PlusMinutes(1), offset) - timestamp > 30 then floor.PlusMinutes(1)
    else floor.PlusMinutes(2)
  }

  /** The `k`-th turbo offer: `k + 1` minutes, `k` minutes after the start. */
  function ShortTermSlot(timestamp: int, offset: int, k: int): Slot
  {
    Slot(k + 1, DateToTimestamp(ShortTermStart(timestamp, offset).PlusMinutes(k), offset) - timestamp)
  }

  /** The `k`-th binary offer: `15 * (k + 1)` minutes, `k` quarter-hours
      after the first one. */
  function LongTermSlot(timestamp: int, offset: int, k: int): Slot
  {
    Slot(15 * (k + 1), FirstLongExpiration(timestamp, offset) + 900 * k - timestamp)
  }

  /** The offers listed at `timestamp`: five turbo offers, then eleven
      binary offers. */
  function RemainingTimes(timestamp: int, offset: int): (slots: seq<Slot>)
    ensures |slots| == SHORT_TERM_COUNT + LONG_TERM_COUNT
    ensures forall k :: 0 <= k < SHORT_TERM_COUNT ==> slots[k].minutes == k + 1
    ensures forall k :: SHORT_TERM_COUNT <= k < |slots| ==> slots[k].minutes == 15 * (k - SHORT_TERM_COUNT + 1)
  {
    seq(SHORT_TERM_COUNT, k => ShortTermSlot(timestamp, offset, k))
      + seq(LONG_TERM_COUNT, k => LongTermSlot(timestamp, offset, k))
  }

  /** The `k`-th turbo offer is the expiration the resolver picks for a
      `k + 1` minute order. */
  lemma {:induction false} ShortTermMatchesResolver(timestamp: nat, offset: int, k: int)
    requires 0 <= k < SHORT_TERM_COUNT
    ensures GetExpirationTime(timestamp, k + 1, offset).timestamp
            == DateToTimestamp(ShortTermStart(timestamp, offset).PlusMinutes(k), offset)
  {
    var base := ShortTermStart(timestamp, offset);
    WholeMinutesApart(base, k);
    TurboExpirationTimeIsNearestMinute(timestamp, k + 1, offset, DateToTimestamp(base.PlusMinutes(k), offset));
  }

  /** The turbo offers are the resolver's expirations for 1 to 5 minutes:
      the first 31 to 90 seconds ahead, each next one a minute later. */
  lemma {:induction false} ShortTermOffers(timestamp: nat, offset: int)
    ensures forall k :: 0 <= k < SHORT_TERM_COUNT ==>
      RemainingTimes(timestamp, offset)[k].remaining == GetExpirationTime(timestamp, k + 1, offset).timestamp - timestamp
    ensures 31 <= RemainingTimes(timestamp, offset)[0].remaining <= 90
    ensures forall k :: 1 <= k < SHORT_TERM_COUNT ==>
      RemainingTimes(timestamp, offset)[k].remaining == RemainingTimes(timestamp, offset)[k - 1].remaining + 60
  {
    var slots := RemainingTimes(timestamp, offset);
    forall k | 0 <= k < SHORT_TERM_COUNT
      ensures slots[k].remaining == GetExpirationTime(timestamp, k + 1, offset).timestamp - timestamp
    {
      assert slots[k] == ShortTermSlot(timestamp, offset, k);
      ShortTermMatchesResolver(timestamp, offset, k);
    }
    forall k | 1 <= k < SHORT_TERM_COUNT
      ensures slots[k].remaining == slots[k - 1].remaining + 60
    {
      assert slots[k] == ShortTermSlot(timestamp, offset, k);
      assert slots[k - 1] == ShortTermSlot(timestamp, offset, k - 1);
    }
    assert slots[0] == ShortTermSlot(timestamp, offset, 0);
  }

  /** The binary offers are consecutive quarter-hours, each more than 300
      seconds ahead, starting from the first such quarter-hour. */
  lemma {:induction false} LongTermOffers(timestamp: int, offset: int)
    ensures RemainingTimes(timestamp, offset)[SHORT_TERM_COUNT].remaining == FirstLongExpiration(timestamp, offset) - timestamp
    ensures forall k :: SHORT_TERM_COUNT < k < SHORT_TERM_COUNT + LONG_TERM_COUNT ==>
      RemainingTimes(timestamp, offset)[k].remaining == RemainingTimes(timestamp, offset)[k - 1].remaining + 900
    ensures forall k :: SHORT_TERM_COUNT <= k < SHORT_TERM_COUNT + LONG_TERM_COUNT ==>
      RemainingTimes(timestamp, offset)[k].remaining > LONG_TERM_MIN_AHEAD
      && OnQuarterHour(FromTimestamp(timestamp + RemainingTimes(timestamp, offset)[k].remaining, offset))
  {
    var slots := RemainingTimes(timestamp, offset);
    var first := FirstLongExpiration(timestamp, offset);
    forall k | SHORT_TERM_COUNT <= k < |slots|
      ensures slots[k].remaining == first + 900 * (k - SHORT_TERM_COUNT) - timestamp
      ensures OnQuarterHour(FromTimestamp(timestamp + slots[k].remaining, offset))
    {
      assert slots[k] == LongTermSlot(timestamp, offset, k - SHORT_TERM_COUNT);
      WholeQuarterHoursApart(FromTimestamp(first, offset), k - SHORT_TERM_COUNT);
    }
  }

  /** No quarter-hour is skipped: every quarter-hour more than 300 seconds
      ahead, up to the last binary offer, is one of the binary offers. */
  lemma {:induction false} LongTermOffersSkipNone(timestamp: int, offset: int, t: int)
    requires OnQuarterHour(FromTimestamp(t, offset))
    requires LONG_TERM_MIN_AHEAD < t - timestamp <= RemainingTimes(timestamp, offset)[SHORT_TERM_COUNT + LONG_TERM_COUNT - 1].remaining
    ensures exists k :: SHORT_TERM_COUNT <= k < SHORT_TERM_COUNT + LONG_TERM_COUNT
                        && RemainingTimes(timestamp, offset)[k].remaining == t - timestamp
  {
    var slots := RemainingTimes(timestamp, offset);
    var first := FirstLongExpiration(timestamp, offset);
    FirstLongIsEarliest(timestamp, offset, t);
    QuarterHourIsMultipleOf900(FromTimestamp(t, offset));
    QuarterHourIsMultipleOf900(FromTimestamp(first, offset));
    var a, b := (first + offset) / 900, (t + offset) / 900;
    assert first + offset == 900 * a && t + offset == 900 * b;
    assert slots[SHORT_TERM_COUNT + LONG_TERM_COUNT - 1] == LongTermSlot(timestamp, offset, LONG_TERM_COUNT - 1);
    var j := b - a;
    assert 0 <= j < LONG_TERM_COUNT;
    assert slots[SHORT_TERM_COUNT + j] == LongTermSlot(timestamp, offset, j);
  }

  /** While walking the binary ladder, a visited minute is offered exactly
      when it is the next expected quarter-hour; a minute that is not
      offered lies at least a minute before it. */
  lemma {:induction false} LongTermStep(timestamp: int, offset: int, expDate: LocalMoment, index: int)
    requires expDate.Second() == 0
    requires 0 <= index < LONG_TERM_COUNT
    requires DateToTimestamp(expDate, offset) <= FirstLongExpiration(timestamp, offset) + 900 * index
    requires index > 0 ==> DateToTimestamp(expDate, offset) > FirstLongExpiration(timestamp, offset) + 900 * (index - 1)
    ensures (expDate.Minute() % 15 == 0 && DateToTimestamp(expDate, offset) - timestamp > LONG_TERM_MIN_AHEAD)
            <==> DateToTimestamp(expDate, offset) == FirstLongExpiration(timestamp, offset) + 900 * index
    ensures DateToTimestamp(expDate, offset) < FirstLongExpiration(timestamp, offset) + 900 * index ==>
            DateToTimestamp(expDate, offset) + 60 <= FirstLongExpiration(timestamp, offset) + 900 * index
  {
    var first := FirstLongExpiration(timestamp, offset);
    var target := FromTimestamp(first + 900 * index, offset);
    WholeQuarterHoursApart(FromTimestamp(first, offset), index);
    assert OnQuarterHour(target);
    if expDate.Minute() % 15 == 0 && DateToTimestamp(expDate, offset) - timestamp > LONG_TERM_MIN_AHEAD
       && DateToTimestamp(expDate, offset) < first + 900 * index
    {
      assert OnQuarterHour(expDate);
      if index == 0 {
        FirstLongIsEarliest(timestamp, offset, DateToTimestamp(expDate, offset));
      } else {
        var previous := FromTimestamp(first + 900 * (index - 1), offset);
        WholeQuarterHoursApart(FromTimestamp(first, offset), index - 1);
        NoQuarterBetween(previous, expDate);
      }
    }
    var a, b := expDate.wall / 60, target.wall / 60;
    assert expDate.wall == 60 * a && target.wall == 60 * b;
  }

  /** `get_remaning_time`: the five turbo offers, labelled 1 to 5, then the
      eleven binary offers, labelled 15, 30, ..., 165, each with the seconds
      that remain until it. The binary ladder is walked from the start of
      the current minute, not from where the turbo ladder started. */
  method GetRemainingTime(timestamp: nat, offset: int) returns (slots: seq<Slot>)
    ensures slots == RemainingTimes(timestamp, offset)
  {
    var currentTime := FromTimestamp(timestamp, offset);
    var expDate := currentTime.TruncateToMinute();

    // the turbo ladder starts at the next minute, or the one after when
    // 30 seconds or less remain
    var secondsToNextMinute := DateToTimestamp(expDate.PlusMinutes(1), offset) - timestamp;
    if secondsToNextMinute > 30 {
      expDate := expDate.PlusMinutes(1);
    } else {
      expDate := expDate.PlusMinutes(2);
    }
    ghost var base := expDate;
    assert base == ShortTermStart(timestamp, offset);

    var shortTermExps := [];
    for i := 0 to SHORT_TERM_COUNT
      invariant |shortTermExps| == i
      invariant expDate == base.PlusMinutes(i)
      invariant forall k :: 0 <= k < i ==> shortTermExps[k] == ShortTermSlot(timestamp, offset, k)
    {
      var expTime := DateToTimestamp(expDate, offset);
      shortTermExps := shortTermExps + [Slot(i + 1, expTime - timestamp)];
      expDate := expDate.PlusMinutes(1);
    }

    var longTermExps := [];
    expDate := currentTime.TruncateToMinute();
    var index := 0;
    ghost var first := FirstLongExpiration(timestamp, offset);
    while index < LONG_TERM_COUNT
      invariant 0 <= index <= LONG_TERM_COUNT
      invariant |longTermExps| == index
      invariant expDate.Second() == 0
      invariant DateToTimestamp(expDate, offset) <= first + 900 * index
      invariant index > 0 ==> DateToTimestamp(expDate, offset) > first + 900 * (index - 1)
      invariant forall k :: 0 <= k < index ==> longTermExps[k] == LongTermSlot(timestamp, offset, k)
      decreases first + 900 * LONG_TERM_COUNT - DateToTimestamp(expDate, offset)
    {
      var expTime := DateToTimestamp(expDate, offset);
      LongTermStep(timestamp, offset, expDate, index);
      if expDate.Minute() % 15 == 0 && expTime - timestamp > LONG_TERM_MIN_AHEAD {
        longTermExps := longTermExps + [Slot(15 * (index + 1), expTime - timestamp)];
        index := index + 1;
      }
      WholeMinutesApart(expDate, 1);
      expDate := expDate.PlusMinutes(1);
    }

    slots := shortTermExps + longTermExps;
  }
}
