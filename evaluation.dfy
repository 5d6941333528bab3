/**
 * `check_if_open`: the finished schedule is open at a day and a time when a
 * rule naming the day (after lowercasing) has an interval that holds the time,
 * both ends included.  The query time is read with the same `%H:%M` parser as
 * the schedule, so it always lies within the first day.
 */
module Evaluation {
  import opened Wrappers
  import opened Text
  import opened Week
  import opened Times
  import opened Parsing
  import opened Reference

  /** Some interval holds minute `t`, both ends included. */
  predicate CoveredBy(intervals: seq<Interval>, t: int) {
    exists i :: 0 <= i < |intervals| && intervals[i].opens <= t <= intervals[i].closes
  }

  /** Some rule naming `day` covers minute `t`. */
  predicate IsOpenAt(rules: seq<Rule>, day: string, t: int) {
    exists k :: 0 <= k < |rules| && day in rules[k].days && CoveredBy(rules[k].intervals, t)
  }

  /**
   * `check_if_open`, with `None` where `strptime` raises on the query time.
   * The scan stops at the first covering interval of the first rule that has one.
   */
  method CheckIfOpen(rules: seq<Rule>, currentDay: string, currentTime: string) returns (open: Option<bool>)
    ensures open.None? <==> ParseClock(currentTime).None?
    ensures open.Some? ==> open.value == IsOpenAt(rules, Lower(currentDay), ParseClock(currentTime).value)
  {
    var day := Lower(currentDay);
    var clock := ParseClock(currentTime);
    if clock.None? {
      return None;
    }
    var t := clock.value;
    for k := 0 to |rules|
      invariant forall j :: 0 <= j < k ==> !(day in rules[j].days && CoveredBy(rules[j].intervals, t))
    {
      if day in rules[k].days {
        var intervals := rules[k].intervals;
        for i := 0 to |intervals|
          invariant forall j :: 0 <= j < i ==> !(intervals[j].opens <= t <= intervals[j].closes)
        {
          if intervals[i].opens <= t <= intervals[i].closes {
            return Some(true);
          }
        }
      }
    }
    return Some(false);
  }

  /** The `24/7` schedule is open at every minute of the first day, on the seven weekday codes only. */
  lemma AllWeekOpen(day: string, t: int)
    ensures IsOpenAt([AllWeek], day, t) <==> day in Weekdays && 0 <= t <= 23 * 60 + 59
  {
    if day in Weekdays && 0 <= t <= 23 * 60 + 59 {
      assert [AllWeek][0] == AllWeek;
      assert AllWeek.intervals[0].opens <= t <= AllWeek.intervals[0].closes;
    }
  }

  /** The empty schedule is never open. */
  lemma EmptyScheduleClosed(day: string, t: int)
    ensures !IsOpenAt([], day, t)
  {
  }

  /** An interval cut off at the last minute of the first day. */
  function ClipToDay(iv: Interval): (r: Interval)
    ensures r.opens == iv.opens && r.closes <= MinutesPerDay - 1
    ensures iv.closes < MinutesPerDay ==> r == iv
  {
    Interval(iv.opens, if iv.closes < MinutesPerDay then iv.closes else MinutesPerDay - 1)
  }

  /** Every interval of every rule cut at the end of the first day; the ensures spell out the body for callers. */
  function ClipRules(rules: seq<Rule>): (r: seq<Rule>)
    ensures |r| == |rules|
    ensures forall k :: 0 <= k < |rules| ==>
      r[k].days == rules[k].days && |r[k].intervals| == |rules[k].intervals|
      && forall i :: 0 <= i < |rules[k].intervals| ==> r[k].intervals[i] == ClipToDay(rules[k].intervals[i])
  {
    seq(|rules|, k requires 0 <= k < |rules| =>
      Rule(rules[k].days, seq(|rules[k].intervals|, i requires 0 <= i < |rules[k].intervals| => ClipToDay(rules[k].intervals[i]))))
  }

  /**
   * A range that runs past midnight is only ever seen on the day it starts,
   * from its start to the end of that day: the part after midnight is never
   * reached, since a query time is always within the first day.
   */
  lemma OvernightEndsAtMidnight(rules: seq<Rule>, day: string, clock: string)
    requires ParseClock(clock).Some?
    ensures IsOpenAt(rules, day, ParseClock(clock).value) <==> IsOpenAt(ClipRules(rules), day, ParseClock(clock).value)
  {
    OpenClipped(rules, day, ParseClock(clock).value);
  }

  lemma OpenClipped(rules: seq<Rule>, day: string, t: int)
    requires t < MinutesPerDay
    ensures IsOpenAt(rules, day, t) <==> IsOpenAt(ClipRules(rules), day, t)
  {
    var clipped := ClipRules(rules);
    if IsOpenAt(rules, day, t) {
      var k :| 0 <= k < |rules| && day in rules[k].days && CoveredBy(rules[k].intervals, t);
      CoveredClipped(rules[k].intervals, clipped[k].intervals, t);
    }
    if IsOpenAt(clipped, day, t) {
      var k :| 0 <= k < |clipped| && day in clipped[k].days && CoveredBy(clipped[k].intervals, t);
      CoveredClipped(rules[k].intervals, clipped[k].intervals, t);
    }
  }

  lemma CoveredClipped(intervals: seq<Interval>, clipped: seq<Interval>, t: int)
    requires t < MinutesPerDay && |clipped| == |intervals|
    requires forall i :: 0 <= i < |intervals| ==> clipped[i] == ClipToDay(intervals[i])
    ensures CoveredBy(intervals, t) <==> CoveredBy(clipped, t)
  {
    if CoveredBy(intervals, t) {
      var i :| 0 <= i < |intervals| && intervals[i].opens <= t <= intervals[i].closes;
      assert clipped[i].opens <= t <= clipped[i].closes;
    }
    if CoveredBy(clipped, t) {
      var i :| 0 <= i < |clipped| && clipped[i].opens <= t <= clipped[i].closes;
      assert intervals[i].opens <= t <= intervals[i].closes;
    }
  }

  /**
   * A range written `HH:MM-HH:MM` that crosses midnight covers the late evening
   * of its own day but no minute of the early morning that a query can name.
   */
  lemma OvernightMissesEarlyMorning(opens: nat, closes: nat, t: nat)
    requires closes < opens < MinutesPerDay && t < MinutesPerDay
    ensures ParseRange(RangeText(opens, closes)).Some?
    ensures CoveredBy([ParseRange(RangeText(opens, closes)).value], t) <==> opens <= t
  {
    RangeRoundTrip(opens, closes);
    var iv := Interval(opens, closes + MinutesPerDay);
    if opens <= t {
      assert [iv][0] == iv;
    }
  }

  /** A day that no rule names is not among their days. */
  lemma {:induction false} AllDaysMissing(named: seq<Rule>, d: string)
    requires forall k :: 0 <= k < |named| ==> d !in named[k].days
    ensures d !in AllDays(named)
    decreases |named|
  {
    if named != [] {
      AllDaysMissing(named[..|named| - 1], d);
    }
  }

  /**
   * The last segment that names a day decides that day: if its days hold no
   * repeats, the place is open on that day exactly when that segment's
   * intervals cover the time and the last `off` segment does not name the day.
   */
  lemma LastMentionDecides(oh: string, j: nat, day: string, t: int)
    requires oh != "24/7" && Parse(oh).Parsed?
    requires j < |OnSegments(SplitOn(oh, ';'))|
    requires var on := OnSegments(SplitOn(oh, ';'));
      day in Named(on[j]).days
      && (forall k :: 0 <= k <= j ==> NoRepeats(Named(on[k]).days))
      && forall k :: j < k < |on| ==> day !in Named(on[k]).days
    ensures IsOpenAt(Parse(oh).rules, day, t)
      <==> day !in LastOff(SplitOn(oh, ';')) && CoveredBy(Named(OnSegments(SplitOn(oh, ';'))[j]).intervals, t)
  {
    var segments := SplitOn(oh, ';');
    var on := OnSegments(segments);
    var named := NamedAll(on);
    var off := LastOff(segments);
    assert IsOpenAt(Expected(named, off), day, t) <==> day !in off && CoveredBy(Named(on[j]).intervals, t) by {
      forall k | 0 <= k <= j
        ensures NoRepeats(named[k].days)
      {
        assert named[k] == Named(on[k]);
      }
      forall k | j < k < |named|
        ensures day !in named[k].days
      {
        assert named[k] == Named(on[k]);
      }
      ExpectedLastMention(named, off, j, day, t);
    }
    ParsedRules(oh);
  }

  /** The same on the closed form: only the last rule naming the day can keep it. */
  lemma ExpectedLastMention(named: seq<Rule>, off: seq<string>, j: nat, day: string, t: int)
    requires j < |named| && day in named[j].days
    requires forall k :: 0 <= k <= j ==> NoRepeats(named[k].days)
    requires forall k :: j < k < |named| ==> day !in named[k].days
    ensures IsOpenAt(Expected(named, off), day, t) <==> day !in off && CoveredBy(named[j].intervals, t)
  {
    var rules := Expected(named, off);
    AllDaysMissing(named[j + 1..], day);
    ExpectedRemoves(named, off, j, day);
    forall k | 0 <= k < |rules| && k != j
      ensures day !in rules[k].days
    {
      if k < j {
        ExpectedLaterOverrides(named, off, k, j, day);
      } else if day in rules[k].days {
        ExpectedDaysComeFromNamed(named, off, k, day);
      }
    }
    assert rules[j].intervals == named[j].intervals;
  }

  /** The days of the last `off` segment are closed, when no segment names a day twice. */
  lemma OffDayClosed(oh: string, day: string, t: int)
    requires oh != "24/7" && Parse(oh).Parsed?
    requires day in LastOff(SplitOn(oh, ';'))
    requires var on := OnSegments(SplitOn(oh, ';'));
      forall k :: 0 <= k < |on| ==> NoRepeats(Named(on[k]).days)
    ensures !IsOpenAt(Parse(oh).rules, day, t)
  {
    var segments := SplitOn(oh, ';');
    var named := NamedAll(OnSegments(segments));
    var rules := Parse(oh).rules;
    ParsedRules(oh);
    forall k | 0 <= k < |rules|
      ensures day !in rules[k].days
    {
      ExpectedRemoves(named, LastOff(segments), k, day);
    }
  }
}
