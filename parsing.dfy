/**
 * `remove_day` and `parse_oh_string`: the `;`-segments of a cleaned string are
 * read one after another into a list of rules.  A later segment takes its days
 * away from every earlier rule before it is appended, an `off` segment only
 * records its days, and the days of the last `off` segment are taken away from
 * every rule at the end.
 */
module Parsing {
  import opened Wrappers
  import opened Text
  import opened Week
  import opened Times
  import opened Days

  /** One entry of the schedule: the days it names and the intervals open on them. */
  datatype Rule = Rule(days: seq<string>, intervals: seq<Interval>)

  /** What `parse_oh_string` gives back, or the `ValueError` that escapes from it. */
  datatype ParseOutcome = Parsed(rules: seq<Rule>) | NotOk | Raised(code: string)

  /** The one rule of `24/7`: every weekday, from 00:00 to 23:59. */
  const AllWeek := Rule(Weekdays, [Interval(0, 23 * 60 + 59)])

  /**
   * `xs.remove(x)` behind the membership test of `remove_day`: the first
   * occurrence of `x` is taken out and nothing else moves; a list without `x`
   * is left alone.
   */
  function RemoveFirst(xs: seq<string>, x: string): (r: seq<string>)
    ensures |r| == if x in xs then |xs| - 1 else |xs|
  {
    if xs == [] then []
    else if xs[0] == x then xs[1..]
    else [xs[0]] + RemoveFirst(xs[1..], x)
  }

  /** The removal takes exactly one occurrence of `x`, if there is one, and no other day. */
  lemma {:induction false} RemoveFirstCount(xs: seq<string>, x: string)
    ensures multiset(RemoveFirst(xs, x)) == multiset(xs) - multiset{x}
    decreases |xs|
  {
    if xs != [] {
      assert xs == [xs[0]] + xs[1..];
      RemoveFirstCount(xs[1..], x);
    }
  }

  /** A list without `x` is left alone. */
  lemma {:induction false} RemoveFirstMissing(xs: seq<string>, x: string)
    requires x !in xs
    ensures RemoveFirst(xs, x) == xs
    decreases |xs|
  {
    if xs != [] {
      RemoveFirstMissing(xs[1..], x);
      assert xs == [xs[0]] + xs[1..];
    }
  }

  /** The removal takes out the first occurrence and keeps the order of the rest. */
  lemma {:induction false} RemoveFirstFound(xs: seq<string>, x: string, i: nat)
    requires i < |xs| && xs[i] == x && x !in xs[..i]
    ensures RemoveFirst(xs, x) == xs[..i] + xs[i + 1..]
    decreases i
  {
    if i > 0 {
      assert xs[0] in xs[..i];
      var tail := xs[1..];
      assert tail[..i - 1] == xs[1..i];
      RemoveFirstFound(tail, x, i - 1);
      assert xs[..i] == [xs[0]] + tail[..i - 1];
      assert xs[i + 1..] == tail[i..];
    }
  }

  /** The same two facts through `list.index`: the position the source's `remove` finds. */
  lemma RemoveFirstAt(xs: seq<string>, x: string)
    ensures match FirstIndex(xs, x)
      case None => RemoveFirst(xs, x) == xs
      case Some(i) => RemoveFirst(xs, x) == xs[..i] + xs[i + 1..]
  {
    match FirstIndex(xs, x)
    case None => RemoveFirstMissing(xs, x);
    case Some(i) => RemoveFirstFound(xs, x, i);
  }

  /** Every day of `ys`, in order, removed once from `xs`. */
  function RemoveEach(xs: seq<string>, ys: seq<string>): (r: seq<string>)
    ensures |xs| - |ys| <= |r| <= |xs|
  {
    if ys == [] then xs
    else RemoveFirst(RemoveEach(xs, ys[..|ys| - 1]), ys[|ys| - 1])
  }

  /** Removing a list of days takes one occurrence per day removed, and nothing else. */
  lemma {:induction false} RemoveEachCount(xs: seq<string>, ys: seq<string>)
    ensures multiset(RemoveEach(xs, ys)) == multiset(xs) - multiset(ys)
    decreases |ys|
  {
    if ys != [] {
      var init := ys[..|ys| - 1];
      assert ys == init + [ys[|ys| - 1]];
      RemoveEachCount(xs, init);
      RemoveFirstCount(RemoveEach(xs, init), ys[|ys| - 1]);
    }
  }

  /** Removing two lists of days one after the other is removing their concatenation. */
  lemma {:induction false} RemoveEachAppend(xs: seq<string>, a: seq<string>, b: seq<string>)
    ensures RemoveEach(xs, a + b) == RemoveEach(RemoveEach(xs, a), b)
    decreases |b|
  {
    if b == [] {
      assert a + b == a;
    } else {
      var b' := b[..|b| - 1];
      assert (a + b)[..|a + b| - 1] == a + b';
      assert (a + b)[|a + b| - 1] == b[|b| - 1];
      RemoveEachAppend(xs, a, b');
    }
  }

  /** Removing days never brings in a day that was not there. */
  lemma RemoveEachKeepsOnly(xs: seq<string>, ys: seq<string>, d: string)
    ensures d in RemoveEach(xs, ys) ==> d in xs
  {
    RemoveEachCount(xs, ys);
    if d in RemoveEach(xs, ys) {
      assert multiset(RemoveEach(xs, ys))[d] > 0;
    }
  }

  /** A list without repeats loses every day that is removed from it, and keeps every other day. */
  lemma RemoveEachRemoves(xs: seq<string>, ys: seq<string>, d: string)
    requires NoRepeats(xs)
    ensures d in RemoveEach(xs, ys) <==> d in xs && d !in ys
  {
    var r := RemoveEach(xs, ys);
    RemoveEachCount(xs, ys);
    assert d in r <==> multiset(r)[d] > 0;
    assert d in xs <==> multiset(xs)[d] > 0;
    assert d in ys <==> multiset(ys)[d] > 0;
    NoRepeatsCount(xs, d);
  }

  predicate NoRepeats(xs: seq<string>) {
    forall i, j :: 0 <= i < j < |xs| ==> xs[i] != xs[j]
  }

  lemma {:induction false} NoRepeatsCount(xs: seq<string>, d: string)
    requires NoRepeats(xs)
    ensures multiset(xs)[d] <= 1
    decreases |xs|
  {
    if xs != [] {
      assert xs == [xs[0]] + xs[1..];
      NoRepeatsCount(xs[1..], d);
      if xs[0] == d {
        assert d !in xs[1..];
      }
    }
  }

  /**
   * `remove_day` on values: each rule loses one occurrence of `day`; rules, order and intervals stay.
   * The ensures spell out the body for callers; `WithoutDayEffect` states what the removal does.
   */
  function WithoutDay(rules: seq<Rule>, day: string): (r: seq<Rule>)
    ensures |r| == |rules|
    ensures forall k :: 0 <= k < |r| ==> r[k] == Rule(RemoveFirst(rules[k].days, day), rules[k].intervals)
  {
    seq(|rules|, k requires 0 <= k < |rules| => Rule(RemoveFirst(rules[k].days, day), rules[k].intervals))
  }

  /** What `remove_day` does to each rule: one occurrence of the day goes, the intervals stay, and a rule without the day is untouched. */
  lemma WithoutDayEffect(rules: seq<Rule>, day: string)
    ensures |WithoutDay(rules, day)| == |rules|
    ensures forall k :: 0 <= k < |rules| ==>
      WithoutDay(rules, day)[k].intervals == rules[k].intervals
      && multiset(WithoutDay(rules, day)[k].days) == multiset(rules[k].days) - multiset{day}
      && (day !in rules[k].days ==> WithoutDay(rules, day)[k] == rules[k])
  {
    forall k | 0 <= k < |rules|
      ensures multiset(WithoutDay(rules, day)[k].days) == multiset(rules[k].days) - multiset{day}
      ensures day !in rules[k].days ==> WithoutDay(rules, day)[k] == rules[k]
    {
      RemoveFirstCount(rules[k].days, day);
      if day !in rules[k].days {
        RemoveFirstMissing(rules[k].days, day);
      }
    }
  }

  /** `remove_day` called for each of `days` in turn: the rules keep their number and their intervals. */
  function WithoutDays(rules: seq<Rule>, days: seq<string>): (r: seq<Rule>)
    ensures |r| == |rules|
    ensures forall k :: 0 <= k < |r| ==> r[k].intervals == rules[k].intervals
  {
    if days == [] then rules else WithoutDay(WithoutDays(rules, days[..|days| - 1]), days[|days| - 1])
  }

  /** Removing a list of days from the rules removes the whole list from each rule separately. */
  lemma {:induction false} WithoutDaysEach(rules: seq<Rule>, days: seq<string>)
    ensures forall k :: 0 <= k < |rules| ==>
      WithoutDays(rules, days)[k] == Rule(RemoveEach(rules[k].days, days), rules[k].intervals)
    decreases |days|
  {
    if days != [] {
      WithoutDaysEach(rules, days[..|days| - 1]);
    }
  }

  /**
   * The list that `parse_oh_string` builds and `remove_day` changes in place:
   * each rule's day list loses days while the list of rules keeps its length.
   */
  class Schedule {
    var rules: seq<Rule>

    constructor ()
      ensures rules == []
    {
      rules := [];
    }

    /** `remove_day(day, final_oh_list)` */
    method RemoveDay(day: string)
      modifies this
      ensures rules == WithoutDay(old(rules), day)
    {
      for x := 0 to |rules|
        invariant |rules| == |old(rules)|
        invariant forall k :: 0 <= k < x ==> rules[k] == Rule(RemoveFirst(old(rules)[k].days, day), old(rules)[k].intervals)
        invariant forall k :: x <= k < |rules| ==> rules[k] == old(rules)[k]
      {
        if day in rules[x].days {
          rules := rules[x := rules[x].(days := RemoveFirst(rules[x].days, day))];
        } else {
          RemoveFirstMissing(rules[x].days, day);
        }
      }
    }

    /** `remove_day` for each day of a list, in order. */
    method RemoveDays(days: seq<string>)
      modifies this
      ensures rules == WithoutDays(old(rules), days)
    {
      for d := 0 to |days|
        invariant rules == WithoutDays(old(rules), days[..d])
      {
        assert days[..d + 1][..d] == days[..d];
        RemoveDay(days[d]);
      }
      assert days[..|days|] == days;
    }

    method Append(rule: Rule)
      modifies this
      ensures rules == old(rules) + [rule]
    {
      rules := rules + [rule];
    }
  }

  /**
   * The days of an `off` segment: the text up to the character before the first
   * `off` (the whole segment but its last character when it starts with `off`,
   * as Python's slice `[:-1]` reads it), split at commas and stripped.
   */
  function OffDays(segment: string): (r: seq<string>)
    requires Contains(segment, "off")
    ensures |r| >= 1
  {
    IndexOfFindsFirst(segment, "off");
    var k := IndexOf(segment, "off").value;
    var daysOff := if k == 0 then segment[..|segment| - 1] else segment[..k - 1];
    StripAll(SplitOn(daysOff, ','))
  }

  /** No `off` starts at `i`. */
  lemma NoOffAt(s: string, i: nat)
    requires i + 3 <= |s| && (s[i] != 'o' || s[i + 1] != 'f' || s[i + 2] != 'f')
    ensures !OccursAt(s, "off", i)
  {
    assert s[i..i + 3][0] == s[i] && s[i..i + 3][1] == s[i + 1] && s[i..i + 3][2] == s[i + 2];
  }

  /** `su off`, the form of a first segment: the one code before `off`. */
  lemma OffDaysOne(d: string)
    requires IsDayCode(d)
    ensures Contains(d + " off", "off") && OffDays(d + " off") == [d]
  {
    var s := d + " off";
    OffAfterOne(d);
    OffDaysAt(s, 3);
    assert s[..2] == d;
    CodeHasNoComma(d);
    SplitOnNoSeparator(d, ',');
    CodeIsStripped(d);
  }

  lemma OffAfterOne(d: string)
    requires IsDayCode(d)
    ensures IndexOf(d + " off", "off") == Some(3)
  {
    var s := d + " off";
    assert s[2] == ' ' && s[3..6] == "off";
    forall i: nat | i < 3
      ensures !OccursAt(s, "off", i)
    {
      NoOffAt(s, i);
    }
    IndexOfAt(s, "off", 3);
  }

  /** ` sa, su off`, the form of a later segment: the two codes before `off`, stripped. */
  lemma OffDaysTwo(d0: string, d1: string)
    requires IsDayCode(d0) && IsDayCode(d1)
    ensures Contains(" " + d0 + ", " + d1 + " off", "off")
      && OffDays(" " + d0 + ", " + d1 + " off") == [d0, d1]
  {
    var s := " " + d0 + ", " + d1 + " off";
    OffAfterTwo(d0, d1);
    OffDaysAt(s, 8);
    assert s[..7] == " " + d0 + ", " + d1;
    PairSplits(d0, d1);
  }

  /** ` sa, su` splits at its comma into the two codes. */
  lemma PairSplits(d0: string, d1: string)
    requires IsDayCode(d0) && IsDayCode(d1)
    ensures StripAll(SplitOn(" " + d0 + ", " + d1, ',')) == [d0, d1]
  {
    var a, b := " " + d0, " " + d1;
    assert " " + d0 + ", " + d1 == a + [','] + b;
    CodeHasNoComma(d0);
    CodeHasNoComma(d1);
    calc {
      StripAll(SplitOn(a + [','] + b, ','));
      { SplitOnAtSeparator(a, ',', b); }
      StripAll(SplitOn(a, ',') + SplitOn(b, ','));
      { SplitOnNoSeparator(a, ','); SplitOnNoSeparator(b, ','); }
      StripAll([a, b]);
      { StripAllPair(a, b); }
      [Strip(a), Strip(b)];
      { StripLeadingSpace(d0); StripLeadingSpace(d1); }
      [Strip(d0), Strip(d1)];
      { CodeIsStripped(d0); CodeIsStripped(d1); }
      [d0, d1];
    }
  }

  lemma StripAllPair(a: string, b: string)
    ensures StripAll([a, b]) == [Strip(a), Strip(b)]
  {
    var r := StripAll([a, b]);
    assert |r| == 2 && r[0] == Strip(a) && r[1] == Strip(b);
  }

  lemma OffAfterTwo(d0: string, d1: string)
    requires IsDayCode(d0) && IsDayCode(d1)
    ensures IndexOf(" " + d0 + ", " + d1 + " off", "off") == Some(8)
  {
    var s := " " + d0 + ", " + d1 + " off";
    assert s[0] == ' ' && s[3] == ',' && s[4] == ' ' && s[7] == ' ' && s[8..11] == "off";
    forall i: nat | i < 8
      ensures !OccursAt(s, "off", i)
    {
      NoOffAt(s, i);
    }
    IndexOfAt(s, "off", 8);
  }

  /** Where `off` is first found at `k > 0`, the days are the text before the character ahead of it. */
  lemma OffDaysAt(s: string, k: nat)
    requires IndexOf(s, "off") == Some(k) && 0 < k <= |s|
    ensures Contains(s, "off") && OffDays(s) == StripAll(SplitOn(s[..k - 1], ','))
  {
  }

  /** A segment that starts with `off` loses its last character instead, so `off` alone names `of`. */
  lemma OffDaysBare()
    ensures Contains("off", "off") && OffDays("off") == ["of"]
  {
    assert "off"[..2] == "of";
    assert IsDayCode("of");
    CodeHasNoComma("of");
    SplitOnNoSeparator("of", ',');
    CodeIsStripped("of");
  }

  /** What one segment asks of the loop: to record days off, or to add what `get_days_open` found. */
  datatype Turn = Off(days: seq<string>) | On(found: DaysOpen)

  function TurnOf(segment: string): (r: Turn)
    ensures Contains(segment, "off") ==> r.Off? && |r.days| >= 1
    ensures !Contains(segment, "off") ==> r.On?
    ensures r.On? && r.found.Resolved? ==> forall k :: 0 <= k < |r.found.times| ==> WellFormed(r.found.times[k])
  {
    if Contains(segment, "off") then Off(OffDays(segment)) else On(GetDaysOpen(Strip(segment)))
  }

  function Turns(segments: seq<string>): (r: seq<Turn>)
    ensures |r| == |segments| && forall k :: 0 <= k < |r| ==> r[k] == TurnOf(segments[k])
  {
    seq(|segments|, k requires 0 <= k < |segments| => TurnOf(segments[k]))
  }

  /** Where the reading of the segments stands: still going, or stopped with its outcome. */
  datatype Progress = Going(rules: seq<Rule>, off: seq<string>) | Stopped(outcome: ParseOutcome)

  /** One turn of the loop over the segments. */
  function Step(p: Progress, t: Turn): (r: Progress)
    ensures p.Stopped? ==> r == p
    ensures r.Going? ==> p.Going? && |r.rules| == |p.rules| + (if t.On? then 1 else 0)
    ensures r.Going? ==> p.Going? && forall k :: 0 <= k < |p.rules| ==> r.rules[k].intervals == p.rules[k].intervals
    ensures r.Going? && t.On? ==> r.rules[|r.rules| - 1].intervals != []
    ensures r.Stopped? && p.Going? ==> !r.outcome.Parsed?
  {
    match p
    case Stopped(_) => p
    case Going(rules, off) =>
      match t
      case Off(days) => Going(rules, days)
      case On(NotAWeekday(code)) => Stopped(Raised(code))
      case On(Resolved(days, times)) =>
        if times == [] then Stopped(NotOk)
        else Going(WithoutDays(rules, days) + [Rule(days, times)], off)
  }

  /** The loop over the segments, turn by turn. */
  function Run(turns: seq<Turn>): (r: Progress)
    ensures r.Stopped? ==> !r.outcome.Parsed?
    ensures r.Going? ==> |r.rules| <= |turns| && forall k :: 0 <= k < |r.rules| ==> r.rules[k].intervals != []
  {
    if turns == [] then Going([], [])
    else Step(Run(turns[..|turns| - 1]), turns[|turns| - 1])
  }

  lemma RunPrefix(turns: seq<Turn>, n: nat)
    requires n < |turns|
    ensures Run(turns[..n + 1]) == Step(Run(turns[..n]), turns[n])
  {
    assert turns[..n + 1][..n] == turns[..n];
  }

  /** Once the loop has stopped, the later segments change nothing. */
  lemma {:induction false} RunStaysStopped(turns: seq<Turn>, n: nat)
    requires n <= |turns| && Run(turns[..n]).Stopped?
    ensures Run(turns) == Run(turns[..n])
    decreases |turns| - n
  {
    if n < |turns| {
      RunPrefix(turns, n);
      RunStaysStopped(turns, n + 1);
    } else {
      assert turns[..n] == turns;
    }
  }

  /** `parse_oh_string` */
  function Parse(oh: string): (r: ParseOutcome)
    ensures r.Parsed? ==> |r.rules| <= |SplitOn(oh, ';')|
    ensures r.Parsed? ==> forall k :: 0 <= k < |r.rules| ==> r.rules[k].intervals != []
  {
    if oh == "24/7" then Parsed([AllWeek])
    else match Run(Turns(SplitOn(oh, ';')))
      case Going(rules, off) => Parsed(WithoutDays(rules, off))
      case Stopped(outcome) => outcome
  }

  /**
   * The body of the loop of `parse_oh_string` for one segment: record its days
   * off, or drop its days from the earlier rules and add its rule; `stop` holds
   * the outcome when the source returns or raises here.
   */
  method ReadSegment(schedule: Schedule, segment: string, daysOff: seq<string>)
      returns (off: seq<string>, stop: Option<ParseOutcome>)
    modifies schedule
    ensures Step(Going(old(schedule.rules), daysOff), TurnOf(segment))
      == if stop.Some? then Stopped(stop.value) else Going(schedule.rules, off)
  {
    off := daysOff;
    stop := None;
    if Contains(segment, "off") {
      off := OffDays(segment);
      return;
    }
    var found := GetDaysOpen(Strip(segment));
    if found.NotAWeekday? {
      return off, Some(Raised(found.code));
    }
    schedule.RemoveDays(found.days);
    if found.times == [] {
      return off, Some(NotOk);
    }
    schedule.Append(Rule(found.days, found.times));
  }

  /**
   * `parse_oh_string` as the source runs it: one pass over the segments that
   * changes a `Schedule` in place and returns early on the first segment with
   * no interval.  The flag the source returns is `true` exactly for `Parsed`.
   */
  method ParseOhString(oh: string) returns (outcome: ParseOutcome)
    ensures outcome == Parse(oh)
  {
    if oh == "24/7" {
      return Parsed([AllWeek]);
    }
    var segments := SplitOn(oh, ';');
    ghost var turns := Turns(segments);
    var schedule := new Schedule();
    var daysOff: seq<string> := [];
    for n := 0 to |segments|
      invariant Run(turns[..n]) == Going(schedule.rules, daysOff)
    {
      RunPrefix(turns, n);
      var stop;
      daysOff, stop := ReadSegment(schedule, segments[n], daysOff);
      if stop.Some? {
        RunStaysStopped(turns, n + 1);
        return stop.value;
      }
    }
    assert turns[..|segments|] == turns;
    schedule.RemoveDays(daysOff);
    return Parsed(schedule.rules);
  }
}
