/**
 * `formatRelativeTime`: the coarse age of a timestamp, with the current
 * time passed in. Timestamps are milliseconds since the epoch.
 */
module DateFormat {
  import opened JsString

  /** Milliseconds in a day: 1000 * 60 * 60 * 24. */
  const MsPerDay: int := 86400000

  /** Whole days from `date` to `now`, rounded down as `Math.floor` does, also for a future `date`. */
  function DiffInDays(date: int, now: int): (days: int)
    ensures days * MsPerDay <= now - date < days * MsPerDay + MsPerDay
  {
    (now - date) / MsPerDay
  }

  /** The bucket a day count falls in, with the number shown for it. */
  datatype Age = Today | Yesterday | Days(n: int) | Weeks(n: int) | Months(n: int) | Years(n: int)

  /**
   * The ladder: 0 is today, 1 yesterday, anything below 7 (negative counts
   * too) a number of days, then whole weeks below 30, whole 30-day months
   * below 365, and whole 365-day years.
   */
  function AgeOf(days: int): (a: Age)
    ensures a == Today <==> days == 0
    ensures a == Yesterday <==> days == 1
    ensures a.Days? <==> days < 7 && days != 0 && days != 1
    ensures a.Days? ==> a.n == days
    ensures a.Weeks? <==> 7 <= days < 30
    ensures a.Weeks? ==> 1 <= a.n <= 4 && 7 * a.n <= days < 7 * a.n + 7
    ensures a.Months? <==> 30 <= days < 365
    ensures a.Months? ==> 1 <= a.n <= 12 && 30 * a.n <= days < 30 * a.n + 30
    ensures a.Years? <==> 365 <= days
    ensures a.Years? ==> 1 <= a.n && 365 * a.n <= days < 365 * a.n + 365
  {
    if days == 0 then Today
    else if days == 1 then Yesterday
    else if days < 7 then Days(days)
    else if days < 30 then Weeks(days / 7)
    else if days < 365 then Months(days / 30)
    else Years(days / 365)
  }

  /** The text shown for an age; the unit is always plural, as in "1 weeks ago". */
  function Render(a: Age): string {
    match a
    case Today => "Today"
    case Yesterday => "Yesterday"
    case Days(n) => IntToString(n) + " days ago"
    case Weeks(n) => IntToString(n) + " weeks ago"
    case Months(n) => IntToString(n) + " months ago"
    case Years(n) => IntToString(n) + " years ago"
  }

  /** `formatRelativeTime(date)` evaluated at time `now`. */
  function FormatRelativeTime(date: int, now: int): string {
    Render(AgeOf(DiffInDays(date, now)))
  }

  /**
   * The unit word of a counted age, as the character nine places from the end.
   * It exists only for the proof of `RenderInjective`.
   */
  function UnitMark(a: Age): char {
    match a
    case Today => 'T'
    case Yesterday => 'Y'
    case Days(_) => ' '
    case Weeks(_) => 'w'
    case Months(_) => 'o'
    case Years(_) => 'y'
  }

  /** Length of the fixed text after the number; it exists only for the proof of `RenderInjective`. */
  function SuffixLength(a: Age): nat {
    match a
    case Today => 0
    case Yesterday => 0
    case Days(_) => 9
    case Weeks(_) => 10
    case Months(_) => 11
    case Years(_) => 10
  }

  /** A counted age is its number followed by a fixed text whose unit is readable nine places from the end. */
  lemma CountedShape(a: Age)
    requires !a.Today? && !a.Yesterday?
    ensures var s := Render(a);
            |s| >= 10 && |s| == |IntToString(a.n)| + SuffixLength(a)
            && s[..|IntToString(a.n)|] == IntToString(a.n)
            && s[|s| - 9] == UnitMark(a)
  {
    var digits := IntToString(a.n);
    var suffix := match a
      case Days(_) => " days ago"
      case Weeks(_) => " weeks ago"
      case Months(_) => " months ago"
      case Years(_) => " years ago";
    assert Render(a) == digits + suffix;
    assert (digits + suffix)[|digits + suffix| - 9] == suffix[|suffix| - 9];
    assert (digits + suffix)[..|digits|] == digits;
  }

  /** The text determines the age: different ages never read the same. */
  lemma RenderInjective(a: Age, b: Age)
    ensures Render(a) == Render(b) <==> a == b
  {
    if Render(a) == Render(b) {
      var s := Render(a);
      if a.Today? || a.Yesterday? || b.Today? || b.Yesterday? {
        if !a.Today? && !a.Yesterday? {
          CountedShape(a);
        } else if !b.Today? && !b.Yesterday? {
          CountedShape(b);
        } else {
          assert |Render(Today)| == 5 && |Render(Yesterday)| == 9;
        }
      } else {
        CountedShape(a);
        CountedShape(b);
        assert UnitMark(a) == UnitMark(b);
        assert SuffixLength(a) == SuffixLength(b);
        assert IntToString(a.n) == s[..|IntToString(a.n)|];
        assert IntToString(b.n) == s[..|IntToString(b.n)|];
        IntToStringInjective(a.n, b.n);
      }
    }
  }

  /** "Today" exactly when less than one day, and no time at all in the future, has passed. */
  lemma TodayIffWithinOneDay(date: int, now: int)
    ensures FormatRelativeTime(date, now) == "Today" <==> 0 <= now - date < MsPerDay
  {
    RenderInjective(AgeOf(DiffInDays(date, now)), Today);
  }

  /** "Yesterday" exactly when at least one and less than two whole days have passed. */
  lemma YesterdayIffOneDay(date: int, now: int)
    ensures FormatRelativeTime(date, now) == "Yesterday" <==> MsPerDay <= now - date < 2 * MsPerDay
  {
    RenderInjective(AgeOf(DiffInDays(date, now)), Yesterday);
  }

  /**
   * A date in the future falls through to the days bucket with a negative
   * count: the text starts with '-' and still ends in "days ago".
   */
  lemma FutureDateReadsNegativeDaysAgo(date: int, now: int)
    requires now < date
    ensures AgeOf(DiffInDays(date, now)).Days?
    ensures AgeOf(DiffInDays(date, now)).n < 0
    ensures var s := FormatRelativeTime(date, now);
            s[0] == '-' && |s| >= 9 && s[|s| - 9..] == " days ago"
  {
    var days := DiffInDays(date, now);
    var digits := IntToString(days);
    assert days < 0;
    assert FormatRelativeTime(date, now) == digits + " days ago";
    assert (digits + " days ago")[0] == digits[0];
    assert (digits + " days ago")[|digits|..] == " days ago";
  }

  /** Exactly seven days falls in the weeks bucket, and the unit stays plural. */
  lemma SevenDaysReadsOneWeeksAgo(now: int)
    ensures FormatRelativeTime(now - 7 * MsPerDay, now) == "1 weeks ago"
  {
    assert DiffInDays(now - 7 * MsPerDay, now) == 7;
    assert NatToString(1) == "1";
  }

  /** Bucket order: Today, Yesterday, days, weeks, months, years. */
  function Rank(a: Age): nat {
    match a
    case Today => 0
    case Yesterday => 1
    case Days(_) => 2
    case Weeks(_) => 3
    case Months(_) => 4
    case Years(_) => 5
  }

  /** `a` reads as no older than `b`: an earlier bucket, or the same bucket with a number no larger. */
  predicate NoOlderThan(a: Age, b: Age) {
    Rank(a) < Rank(b) || (Rank(a) == Rank(b) && (Rank(a) >= 2 ==> a.n <= b.n))
  }

  /** Of two past dates, the older one never reads as younger. */
  lemma OlderDateNeverReadsYounger(older: int, newer: int, now: int)
    requires older <= newer <= now
    ensures NoOlderThan(AgeOf(DiffInDays(newer, now)), AgeOf(DiffInDays(older, now)))
  {
    var d1, d2 := DiffInDays(newer, now), DiffInDays(older, now);
    assert 0 <= d1 <= d2;
    var a, b := AgeOf(d1), AgeOf(d2);
    if Rank(a) == Rank(b) && Rank(a) >= 3 {
      if a.Weeks? {
        assert 7 * a.n <= d1 <= d2 < 7 * b.n + 7;
      } else if a.Months? {
        assert 30 * a.n <= d1 <= d2 < 30 * b.n + 30;
      } else {
        assert 365 * a.n <= d1 <= d2 < 365 * b.n + 365;
      }
    }
  }
}
