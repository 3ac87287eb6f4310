/** The values the renaming run is configured with: the inclusive date range
    (two `%Y-%m-%d` arguments read as midnight of their day), and the time
    offset, read from an `HH:MM` argument whose first character is dropped,
    with its direction chosen by the `--negative` flag alone. */
module Arguments {
  import opened Wrappers
  import opened Text
  import opened Calendar
  import opened Dates

  function Sign(negative: bool): int {
    if negative then -1 else 1
  }

  /** Python's `s[1:]`: everything after the first character, empty for an
      empty string. */
  function DropFirst(s: string): string {
    if |s| == 0 then "" else s[1..]
  }

  /** `hours, minutes = map(int, offset[1:].split(':'))`; `None` is the
      `ValueError` raised for a wrong number of pieces or a piece that is not
      an integer. */
  function OffsetFields(offset: string): Option<(int, int)> {
    var parts := Split(DropFirst(offset), ':');
    if |parts| != 2 then None
    else
      match (ParseInt(parts[0]), ParseInt(parts[1]))
      case (Some(h), Some(m)) => Some((h, m))
      case _ => None
  }

  /** The largest number of days a `timedelta` may hold, in either direction. */
  const MaxTimedeltaDays := 999999999

  /** A `timedelta` normalises its length to whole days (rounded down) plus
      the remaining seconds, and raises `OverflowError` when the days exceed
      `MaxTimedeltaDays` in magnitude. */
  predicate TimedeltaInRange(d: int) {
    -MaxTimedeltaDays <= d / SecondsPerDay <= MaxTimedeltaDays
  }

  /** The range of `timedelta` as bounds on seconds: it reaches one day
      further forward than back. */
  lemma TimedeltaBounds(d: int)
    ensures TimedeltaInRange(d) <==>
      -MaxTimedeltaDays * SecondsPerDay <= d < (MaxTimedeltaDays + 1) * SecondsPerDay
  {
    var q, r := d / SecondsPerDay, d % SecondsPerDay;
    assert d == q * SecondsPerDay + r && 0 <= r < SecondsPerDay;
    if q < -MaxTimedeltaDays {
      assert q * SecondsPerDay <= (-MaxTimedeltaDays - 1) * SecondsPerDay;
    } else if q > MaxTimedeltaDays {
      assert q * SecondsPerDay >= (MaxTimedeltaDays + 1) * SecondsPerDay;
    } else {
      assert q * SecondsPerDay >= -MaxTimedeltaDays * SecondsPerDay;
      assert q * SecondsPerDay <= MaxTimedeltaDays * SecondsPerDay;
    }
  }

  /** `timedelta(hours=sign * hours, minutes=sign * minutes)` in seconds;
      `None` is the `ValueError` of reading the fields or the `OverflowError`
      of a delta beyond `timedelta`'s range. */
  function Delta(offset: string, negative: bool): Option<int> {
    match OffsetFields(offset)
    case Some((h, m)) =>
      var d := Sign(negative) * h * 3600 + Sign(negative) * m * 60;
      if TimedeltaInRange(d) then Some(d) else None
    case None => None
  }

  /** The first character of the offset argument is never read: "+08:00",
      "-08:00" and "x08:00" all give the same delta. */
  lemma OffsetFirstCharIgnored(c: char, c': char, rest: string, negative: bool)
    ensures Delta([c] + rest, negative) == Delta([c'] + rest, negative)
  {
    assert DropFirst([c] + rest) == rest == DropFirst([c'] + rest);
  }

  /** `--negative` flips the sign of the whole delta. Because `timedelta`'s
      range is not symmetric, a delta that fits in one direction may
      overflow in the other: each direction is accepted exactly when the
      negation of the other direction's delta is in range. */
  lemma NegativeFlipsDelta(offset: string)
    ensures Delta(offset, true).Some? && Delta(offset, false).Some? ==>
      Delta(offset, true).value == -Delta(offset, false).value
    ensures Delta(offset, false).Some? ==>
      (Delta(offset, true).Some? <==> TimedeltaInRange(-Delta(offset, false).value))
    ensures Delta(offset, true).Some? ==>
      (Delta(offset, false).Some? <==> TimedeltaInRange(-Delta(offset, true).value))
  {
    match OffsetFields(offset)
    case Some((h, m)) =>
      assert -1 * h * 3600 + -1 * m * 60 == -(1 * h * 3600 + 1 * m * 60);
    case None =>
  }

  /** The asymmetry at the edge: 23999999977 hours fit forwards but not
      backwards. */
  lemma NegativeMayOverflow(offset: string)
    requires OffsetFields(offset) == Some((23999999977, 0))
    ensures Delta(offset, false) == Some(23999999977 * 3600)
    ensures Delta(offset, true).None?
  {
    TimedeltaBounds(23999999977 * 3600);
    TimedeltaBounds(-23999999977 * 3600);
  }

  /** The canonical argument `+HH:MM` has hours `HH` and minutes `MM`. */
  lemma CanonicalOffsetFields(h: nat, m: nat)
    requires h < 100 && m < 100
    ensures OffsetFields("+" + Pad(h, 2) + ":" + Pad(m, 2)) == Some((h, m))
  {
    var hs, ms := Pad(h, 2), Pad(m, 2);
    assert DropFirst("+" + hs + ":" + ms) == hs + [':'] + ms;
    DigitsHaveNo(hs, ':');
    DigitsHaveNo(ms, ':');
    SplitTwo(hs, ms, ':');
    ParseIntDigits(hs);
    ParseIntDigits(ms);
  }

  /** The delta is `sign * (hours * 3600 + minutes * 60)` seconds, when
      that lies within `timedelta`'s range of days; otherwise there is none. */
  lemma DeltaOfFields(offset: string, negative: bool, h: int, m: int)
    requires OffsetFields(offset) == Some((h, m))
    ensures var d := Sign(negative) * (h * 3600 + m * 60);
      Delta(offset, negative) == (if -MaxTimedeltaDays * SecondsPerDay <= d < (MaxTimedeltaDays + 1) * SecondsPerDay then Some(d) else None)
  {
    var d := Sign(negative) * (h * 3600 + m * 60);
    if negative {
      assert -1 * h * 3600 + -1 * m * 60 == d;
    } else {
      assert 1 * h * 3600 + 1 * m * 60 == d;
    }
    TimedeltaBounds(d);
  }

  /** The canonical argument `+HH:MM` gives `sign * (HH * 3600 + MM * 60)`. */
  lemma CanonicalOffset(h: nat, m: nat, negative: bool)
    requires h < 100 && m < 100
    ensures Delta("+" + Pad(h, 2) + ":" + Pad(m, 2), negative)
         == Some(Sign(negative) * (h * 3600 + m * 60))
  {
    CanonicalOffsetFields(h, m);
    DeltaOfFields("+" + Pad(h, 2) + ":" + Pad(m, 2), negative, h, m);
  }

  datatype ArgError = MalformedDate | StartAfterEnd | MalformedOffset | OffsetOverflow

  /** The settings the renaming loop runs with. */
  datatype Config = Config(site: string, startDate: int, endDate: int, delta: int)

  /** Reads the start date, then the end date, then checks their order, then
      reads the offset and builds the `timedelta`, stopping at the first
      failure as the script does. */
  function Configure(site: string, startArg: string, endArg: string, offset: string, negative: bool)
    : (r: Result<Config, ArgError>)
    ensures r.Success? ==>
      && r.value.site == site
      && Some(r.value.startDate) == ParseDate(startArg)
      && Some(r.value.endDate) == ParseDate(endArg)
      && r.value.startDate <= r.value.endDate
      && Some(r.value.delta) == Delta(offset, negative)
    ensures r.Success? <==>
      && ParseDate(startArg).Some? && ParseDate(endArg).Some?
      && ParseDate(startArg).value <= ParseDate(endArg).value
      && Delta(offset, negative).Some?
    ensures r == Failure(MalformedDate) <==> ParseDate(startArg).None? || ParseDate(endArg).None?
    ensures r == Failure(StartAfterEnd) <==>
      ParseDate(startArg).Some? && ParseDate(endArg).Some? && ParseDate(startArg).value > ParseDate(endArg).value
    ensures r == Failure(MalformedOffset) <==>
      && ParseDate(startArg).Some? && ParseDate(endArg).Some?
      && ParseDate(startArg).value <= ParseDate(endArg).value
      && OffsetFields(offset).None?
    ensures r == Failure(OffsetOverflow) <==>
      && ParseDate(startArg).Some? && ParseDate(endArg).Some?
      && ParseDate(startArg).value <= ParseDate(endArg).value
      && OffsetFields(offset).Some? && Delta(offset, negative).None?
  {
    match (ParseDate(startArg), ParseDate(endArg))
    case (Some(s), Some(e)) =>
      if s > e then Failure(StartAfterEnd)
      else if OffsetFields(offset).None? then Failure(MalformedOffset)
      else (match Delta(offset, negative)
            case Some(d) => Success(Config(site, s, e, d))
            case None => Failure(OffsetOverflow))
    case _ => Failure(MalformedDate)
  }
}
