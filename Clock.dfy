/** The clock adapter: converting a server timestamp to a naive local date-time
    and back.

    The host's local calendar is replaced by a fixed offset from UTC, given
    in seconds and threaded through every conversion. A naive local date-time
    is then the number of whole seconds shown on the local wall clock since
    the local epoch; its minute and second fields are read off that number.
    Microseconds are always zero, since timestamps are whole seconds. */
module Clock {

  /** A naive local date-time, as local wall-clock seconds. */
  datatype LocalMoment = LocalMoment(wall: int) {

    /** The `second` field of the date-time. */
    function Second(): (s: int)
      ensures 0 <= s < 60
      ensures (wall - s) % 60 == 0
    {
      wall % 60
    }

    /** The `minute` field of the date-time. */
    function Minute(): (m: int)
      ensures 0 <= m < 60
    {
      (wall / 60) % 60
    }

    /** The start of the hour this date-time lies in. */
    function HourStart(): (h: int)
      ensures h % 3600 == 0
      ensures h <= wall < h + 3600
    {
      wall - wall % 3600
    }

    /** `self + timedelta(seconds=n)`. */
    function Plus(n: int): (r: LocalMoment)
      ensures r.wall - wall == n
    {
      LocalMoment(wall + n)
    }

    /** `self + timedelta(minutes=n)`. */
    function PlusMinutes(n: int): (r: LocalMoment)
      ensures r.wall - wall == 60 * n
    {
      LocalMoment(wall + 60 * n)
    }

    /** `self.replace(second=0, microsecond=0)`: the start of the minute. */
    function TruncateToMinute(): (r: LocalMoment)
      ensures r.Second() == 0
      ensures r.Minute() == Minute()
      ensures r.wall <= wall < r.wall + 60
    {
      MinuteOfWall(wall);
      MinuteOfWall(wall - wall % 60);
      LocalMoment(wall - wall % 60)
    }

    /** `self.replace(minute=m, second=0, microsecond=0)`: minute `m` of the
        same hour. */
    function AtMinute(m: int): (r: LocalMoment)
      requires 0 <= m < 60
      ensures r.Second() == 0
      ensures r.Minute() == m
      ensures r.HourStart() == HourStart()
      ensures r.wall == HourStart() + 60 * m
    {
      var h := HourStart();
      HourStartMinute(h, m);
      LocalMoment(h + 60 * m)
    }
  }

  /** The local date-time a timestamp shows (`datetime.fromtimestamp`). */
  function FromTimestamp(t: int, offset: int): (m: LocalMoment)
    ensures m.wall - t == offset
  {
    LocalMoment(t + offset)
  }

  /** The timestamp a local date-time stands for (`date_to_timestamp`). */
  function DateToTimestamp(m: LocalMoment, offset: int): (t: int)
    ensures FromTimestamp(t, offset) == m
  {
    m.wall - offset
  }

  /** A timestamp converted to local time and back is unchanged. */
  lemma TimestampRoundTrip(t: int, offset: int)
    ensures DateToTimestamp(FromTimestamp(t, offset), offset) == t
  {
  }

  /** A date-time with minute in {0, 15, 30, 45} and second 0: exactly the
      multiples of 900 local seconds. */
  predicate OnQuarterHour(m: LocalMoment): (b: bool)
    ensures b <==> m.wall % 900 == 0
  {
    QuarterHourIsMultipleOf900(m);
    m.Minute() % 15 == 0 && m.Second() == 0
  }

  /** The quarter-hours are exactly the multiples of 900 local seconds. */
  lemma {:induction false} QuarterHourIsMultipleOf900(m: LocalMoment)
    ensures (m.Minute() % 15 == 0 && m.Second() == 0) <==> m.wall % 900 == 0
  {
    var q, r := m.wall / 900, m.wall % 900;
    var a, s := r / 60, r % 60;
    assert r == 60 * a + s && 0 <= a < 15;
    // the minute number since the epoch, and the second
    var n := 15 * q + a;
    assert m.wall == 60 * n + s;
    DivMod(m.wall, 60, n, s);
    assert m.Second() == s;
    MinuteMod15(n);
    DivMod(n, 15, q, a);
    assert m.Minute() % 15 == a;
  }

  /** Whole minutes later, the second field is the same. */
  lemma {:induction false} SecondAfterWholeMinutes(m: LocalMoment, n: int)
    ensures m.PlusMinutes(n).Second() == m.Second()
  {
    DivMod(m.wall + 60 * n, 60, m.wall / 60 + n, m.Second());
  }

  /** A date-time is its hour start plus its minute and second fields. */
  lemma {:induction false} WallDecomposition(m: LocalMoment)
    ensures m.wall == m.HourStart() + 60 * m.Minute() + m.Second()
  {
    var h, r := m.wall / 3600, m.wall % 3600;
    var a, s := r / 60, r % 60;
    assert r == 60 * a + s && 0 <= a < 60;
    assert m.wall == 60 * (60 * h + a) + s;
    DivMod(m.wall, 60, 60 * h + a, s);
    DivMod(60 * h + a, 60, h, a);
  }

  /** The minute field, counted from the minute number since the epoch. */
  lemma {:induction false} MinuteOfWall(w: int)
    ensures (w - w % 60) / 60 == w / 60
  {
    DivMod(w - w % 60, 60, w / 60, 0);
  }

  /** Minute `m` after an hour start shows minute `m`, second 0 and the same hour. */
  lemma {:induction false} HourStartMinute(h: int, m: int)
    requires h % 3600 == 0 && 0 <= m < 60
    ensures (h + 60 * m) % 60 == 0
    ensures ((h + 60 * m) / 60) % 60 == m
    ensures (h + 60 * m) - (h + 60 * m) % 3600 == h
  {
    var k := h / 3600;
    assert h == 3600 * k;
    DivMod(h + 60 * m, 60, 60 * k + m, 0);
    DivMod(60 * k + m, 60, k, m);
    DivMod(h + 60 * m, 3600, k, 60 * m);
  }

  /** Reducing an absolute minute number modulo 60 keeps its residue modulo 15. */
  lemma {:induction false} MinuteMod15(n: int)
    ensures (n % 60) % 15 == n % 15
  {
    var a, b := n / 60, n % 60;
    var c, d := b / 15, b % 15;
    assert n == 15 * (4 * a + c) + d;
    DivMod(n, 15, 4 * a + c, d);
  }

  /** Euclidean division is determined by its quotient and remainder. */
  lemma {:induction false} DivMod(x: int, d: int, q: int, r: int)
    requires 0 < d && x == d * q + r && 0 <= r < d
    ensures x / d == q && x % d == r
  {
    var q', r' := x / d, x % d;
    assert d * (q - q') == r' - r;
    if q' < q {
      MulAtLeast(d, q - q');
    } else if q' > q {
      MulAtLeast(d, q' - q);
    }
  }

  /** A positive multiple of `d` is at least `d`. */
  lemma {:induction false} MulAtLeast(d: nat, k: int)
    requires k >= 1
    ensures d * k >= d
    decreases k
  {
    if k > 1 {
      MulAtLeast(d, k - 1);
      assert d * k == d * (k - 1) + d;
    }
  }
}
