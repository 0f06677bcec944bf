# Expiration slots for the IQ Option API, in Dafny

This project models `iqoptionapi/expiration.py`, the part of the IQ Option
client that decides when an order expires. The venue accepts expirations on
whole minutes for "turbo" orders (1 to 5 minutes) and on local quarter-hours
for "binary" orders (longer durations). The file has three functions:

- `date_to_timestamp` turns a naive local date-time back into a Unix timestamp.
- `get_expiration_time(timestamp, duration)` picks the one expiration for an
  order and the offer index (0 to 4 for turbo, 5 for binary).
- `get_remaning_time(timestamp)` lists the offers open at `timestamp`. These
  are five turbo slots, one minute apart, and then eleven binary slots, one
  quarter-hour apart. Each slot comes with the seconds left until it.

Files:

- `Clock.dfy` (module `Clock`) holds the clock adapter. A naive local
  date-time (`LocalMoment`) is the number of seconds shown on the local wall
  clock. Its `minute` and `second` fields and the `replace(...)` and
  `+ timedelta(...)` operations the source uses are functions on that number.
  Python's host-local conversions `datetime.fromtimestamp` and `time.mktime`
  are replaced by a fixed UTC offset. The offset is an explicit parameter and
  may be any whole number of seconds.
- `Expiration.dfy` (module `Expiration`) holds `get_expiration_time` as pure
  functions, with lemmas about them.
  - Turbo: the result is the whole minute nearest to `now + duration`
    minutes, and an exact half minute rounds up.
  - Binary: the result is the local quarter-hour at or after `now` that is
    nearest to `now + duration` minutes, and a tie goes to the earlier one.
  - Both characterisations determine the result uniquely, and worked
    examples follow them.
- `RemainingTime.dfy` (module `RemainingTime`) holds `get_remaning_time`.
  It is a method with the source's `for` loop and `while index < 11` loop,
  proved equal to a specification function `RemainingTimes`. The lemmas about
  that function say three things:
  - The turbo slots are exactly the resolver's expirations for 1 to 5
    minutes.
  - The binary slots are consecutive quarter-hours, each more than 300 s
    ahead.
  - No quarter-hour in that range is skipped.

Timestamps are whole seconds, so microseconds are always zero and the
source's `int(...)` around each converted timestamp changes nothing.

Notes on what the code does:

- The comment at line 52 says the binary choice makes sure the expiration is
  in the future. Line 53 skips the lower boundary only when it is strictly
  before `now`, so a binary expiration is never earlier than `now` but can
  equal it. One example is 10:00:00 with a duration of 6 minutes
  (`BinaryMayExpireNow`). Turbo expirations always land more than 30 s ahead.
- The tie rule (`<=` at line 56) can only decide a result when the duration
  is 8 minutes or more. For 6 and 7 minutes, a tie puts the lower boundary
  before `now`, so the upper one is chosen first (`BinaryTieGoesLower`,
  `BinaryPassedLowerSkipped`).
- The binary ladder restarts from the unadjusted start of the current minute
  (line 96), not from where the turbo ladder began. The model keeps this
  order of operations. The first binary slot is the first quarter-hour more
  than 300 s ahead (`FirstLongExpiration`, `FirstLongIsEarliest`). That
  quarter-hour lies after both possible starting points, so the choice of
  start does not change the list.

## Model

| member | source | states |
|---|---|---|
| `Clock.FromTimestamp` | iqoptionapi/expiration.py:27 | the local date-time is the timestamp shifted by the fixed UTC offset, which stands in for the host zone |
| `Clock.DateToTimestamp` | iqoptionapi/expiration.py:11-13 | converting a local date-time to a timestamp and back gives the same date-time |
| `Clock.TimestampRoundTrip` | iqoptionapi/expiration.py:11-13 | converting a timestamp to local time and back gives the same timestamp |
| `Clock.LocalMoment.Second` | iqoptionapi/expiration.py:31 | the `second` field is in 0..59 and the date-time minus it is a whole minute |
| `Clock.LocalMoment.Minute` | iqoptionapi/expiration.py:39 | the `minute` field is in 0..59; `WallDecomposition` pins its value |
| `Clock.LocalMoment.HourStart` | iqoptionapi/expiration.py:43 | the hour that `replace(minute=...)` keeps starts on a multiple of 3600 s, at most an hour before the date-time |
| `Clock.WallDecomposition` | iqoptionapi/expiration.py:39-43 | a date-time is its hour start plus 60 times its `minute` field plus its `second` field |
| `Clock.LocalMoment.Plus` | iqoptionapi/expiration.py:48 | `+ timedelta(hours=1)` (as 3600 seconds) moves the date-time forward by exactly that many seconds |
| `Clock.LocalMoment.PlusMinutes` | iqoptionapi/expiration.py:32 | `+ timedelta(minutes=n)` moves the date-time forward by exactly `60 * n` seconds |
| `Clock.OnQuarterHour` | iqoptionapi/expiration.py:100 | minute in {0, 15, 30, 45} with second 0 holds exactly for the multiples of 900 local seconds |
| `Clock.LocalMoment.TruncateToMinute` | iqoptionapi/expiration.py:78 | `replace(second=0, microsecond=0)` keeps the minute field, sets second 0, and moves back by less than a minute |
| `Clock.LocalMoment.AtMinute` | iqoptionapi/expiration.py:43 | `replace(minute=m, second=0)` yields minute `m` and second 0 in the same hour |
| `Clock.QuarterHourIsMultipleOf900` | iqoptionapi/expiration.py:100 | read off its fields, a date-time has minute in {0,15,30,45} and second 0 exactly when its wall seconds are a multiple of 900 |
| `Expiration.CeilDiv` | iqoptionapi/expiration.py:46 | `math.ceil(a / b)` is the least `q` with `a <= q * b` |
| `Expiration.Abs` | iqoptionapi/expiration.py:56 | `abs(x)` is non-negative and is `x` or `-x` |
| `Expiration.TurboExpiration` | iqoptionapi/expiration.py:29-33 | the turbo expiration has second 0 and lies within (-30 s, +30 s] of `current + duration` minutes |
| `Expiration.PrevBoundary` | iqoptionapi/expiration.py:41-43 | `prev_time` is a quarter-hour with `prev_time <= desired < prev_time + 900 s` |
| `Expiration.NextBoundary` | iqoptionapi/expiration.py:45-50 | `next_time` is a quarter-hour exactly 900 s after `prev_time`, including the :45 to next-hour :00 rollover |
| `Expiration.NextMultipleFollowsPrev` | iqoptionapi/expiration.py:42-46 | `ceil((minute + 1) / 15) * 15` is `(minute // 15) * 15 + 15` for every minute 0..59 |
| `Expiration.BinaryExpiration` | iqoptionapi/expiration.py:52-59 | the binary expiration is a quarter-hour and is not earlier than `current` |
| `Expiration.GetExpirationTime` | iqoptionapi/expiration.py:16-63 | index is `duration - 1` for durations up to 5 and 5 above; the result is at or after `now` with second 0; a turbo result is within (-30 s, +30 s] of `now + duration` minutes (so more than 30 s ahead); a binary result is on a quarter-hour |
| `Expiration.NearestFutureQuarterIsUnique` | iqoptionapi/expiration.py:52-59 | at most one date-time is the nearest quarter-hour at or after `now` (earlier on a tie), so that property fixes the binary result |
| `Expiration.NoQuarterBetween` | iqoptionapi/expiration.py:45-50 | no quarter-hour lies strictly between `prev_time` and the one 900 s after it |
| `Expiration.BinaryExpirationIsNearest` | iqoptionapi/expiration.py:38-59 | the binary choice is the quarter-hour at or after `current` nearest to `desired`, the earlier one on a tie |
| `Expiration.BinaryExpirationTimeIsNearest` | iqoptionapi/expiration.py:35-62 | for durations above 5, `get_expiration_time` returns the nearest quarter-hour at or after `now` to `now + duration` minutes |
| `Expiration.TurboExpirationTimeIsNearestMinute` | iqoptionapi/expiration.py:29-33 | for durations 1 to 5, any whole minute within (-30 s, +30 s] of `now + duration` minutes is the returned expiration |
| `Expiration.TurboBeforeHalfMinute` | iqoptionapi/expiration.py:31-34 | 10:00:10 for 3 minutes gives 10:03:00, index 2 |
| `Expiration.TurboAfterHalfMinute` | iqoptionapi/expiration.py:31-34 | 10:00:45 for 5 minutes gives 10:06:00, index 4 |
| `Expiration.BinaryNearerLower` | iqoptionapi/expiration.py:56-57 | 10:00:00 for 20 minutes gives 10:15:00, index 5 |
| `Expiration.BinaryTieGoesLower` | iqoptionapi/expiration.py:56-57 | 09:59:30 for 8 minutes (desired 10:07:30, a tie) gives 10:00:00 |
| `Expiration.BinaryPassedLowerSkipped` | iqoptionapi/expiration.py:53-54 | 10:01:30 for 6 minutes (desired 10:07:30, a tie) gives 10:15:00, because 10:00 has passed |
| `Expiration.BinaryHourRollover` | iqoptionapi/expiration.py:47-48 | 10:50:00 for 6 minutes gives 11:00:00 |
| `Expiration.BinaryMayExpireNow` | iqoptionapi/expiration.py:53-57 | 10:00:00 for 6 minutes gives 10:00:00 itself: binary futurity is not strict |
| `RemainingTime.FirstLongExpiration` | iqoptionapi/expiration.py:96-101 | the first binary slot is on a quarter-hour, more than 300 s and at most 1200 s ahead |
| `RemainingTime.FirstLongIsEarliest` | iqoptionapi/expiration.py:96-101 | no quarter-hour more than 300 s ahead comes before the first binary slot |
| `RemainingTime.ShortTermStart` | iqoptionapi/expiration.py:78-85 | the turbo ladder starts on a whole minute 31 to 90 s ahead |
| `RemainingTime.RemainingTimes` | iqoptionapi/expiration.py:88-106 | 16 slots, labelled 1..5 and then 15, 30, ..., 165 |
| `RemainingTime.ShortTermMatchesResolver` | iqoptionapi/expiration.py:88-92 | the `k`-th turbo slot is the expiration `get_expiration_time` gives for `k + 1` minutes |
| `RemainingTime.ShortTermOffers` | iqoptionapi/expiration.py:78-92 | each turbo slot's seconds equal the resolver's expiration minus `now`; the first is 31..90 s; each next one is 60 s more |
| `RemainingTime.LongTermOffers` | iqoptionapi/expiration.py:94-103 | the first binary slot is `FirstLongExpiration`; each next one is 900 s more; all are on quarter-hours and more than 300 s ahead |
| `RemainingTime.LongTermOffersSkipNone` | iqoptionapi/expiration.py:98-103 | every quarter-hour more than 300 s ahead, up to the last binary slot, is one of the binary slots |
| `RemainingTime.LongTermStep` | iqoptionapi/expiration.py:99-103 | in the `while` loop, a visited minute is appended exactly when it is the next expected quarter-hour |
| `RemainingTime.GetRemainingTime` | iqoptionapi/expiration.py:66-106 | the method with the two loops returns exactly `RemainingTimes(now)`; the `while` loop terminates |

## Left out

- Expiration.CeilDiv: follows Python 3, where `/` at line 46 is true division. Under Python 2, which the comment at line 12 mentions, `(minute + 1) / 15` on two ints floors, so `next_multiple` equals `prev_multiple` unless `minute % 15 == 14`; that Python 2 behaviour is not modelled.
- The host's local time zone, DST gaps and overlaps: `datetime.fromtimestamp` and `time.mktime` follow the host zone. The model uses a fixed UTC offset instead, so no local time is skipped or repeated.
- The range limits of Python's calendar: `datetime` raises for years outside 1..9999 and for timestamps the platform cannot convert. Time is unbounded here.
- The float result of `time.mktime` and the `int(...)` truncation around it. Timestamps are whole seconds, so both are identities.
- Durations of 0 or less, and negative timestamps: the source does not check them. `GetExpirationTime` requires `duration >= 1`, and timestamps are `nat`. The 1 to 180 minute range in the docstring is not enforced by the code and is not a precondition here.
- `setup.py` (packaging metadata) and the rest of the client (websocket and HTTP transport, order placement). The rest of the client is not part of this model.
