/** Dates given as `%Y-%m-%d` text, as both scripts read them: midnight of
    the named day. */
module Dates {
  import opened Wrappers
  import opened Text
  import opened Calendar

  /** `datetime.strptime(s, '%Y-%m-%d')` on the canonical spelling: the
      instant of midnight that day. */
  function ParseDate(s: string): (r: Option<int>)
    ensures r.Some? ==> InRange(r.value) && r.value % SecondsPerDay == 0
  {
    if |s| == 10 && AllDigits(s[0..4]) && s[4] == '-' && AllDigits(s[5..7]) && s[7] == '-' && AllDigits(s[8..10]) then
      var dt := DateTime(DigitsValue(s[0..4]), DigitsValue(s[5..7]), DigitsValue(s[8..10]), 0, 0, 0);
      if Valid(dt) then MidnightSeconds(dt); Some(ToSeconds(dt)) else None
    else None
  }

  /** Where the three fields of `YYYY-MM-DD` sit in the joined text. */
  lemma DateTextPieces(ys: string, ms: string, ds: string)
    requires |ys| == 4 && |ms| == 2 && |ds| == 2
    ensures var s := ys + "-" + ms + "-" + ds;
      |s| == 10 && s[0..4] == ys && s[4] == '-' && s[5..7] == ms && s[7] == '-' && s[8..10] == ds
  {
    var s := ys + "-" + ms + "-" + ds;
    assert s == ys + ['-'] + ms + ['-'] + ds;
  }

  /** A date written `YYYY-MM-DD` is read as midnight of that date, and a
      date that does not exist is refused. */
  lemma ParseDateText(y: nat, m: nat, d: nat)
    requires y < 10000 && m < 100 && d < 100
    ensures var dt := DateTime(y, m, d, 0, 0, 0);
      ParseDate(Pad(y, 4) + "-" + Pad(m, 2) + "-" + Pad(d, 2))
        == (if Valid(dt) then Some(ToSeconds(dt)) else None)
  {
    DateTextPieces(Pad(y, 4), Pad(m, 2), Pad(d, 2));
  }
}
