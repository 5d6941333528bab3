/**
 * A closed-form description of what `parse_oh_string` returns, independent of
 * the order in which the loop does its work, and the proof that the loop
 * computes it.  Rule `k` comes from the `k`-th segment that is not an `off`
 * segment; it keeps that segment's intervals, and its days lose, one occurrence
 * each, the days of every later such segment and then the days of the last
 * `off` segment.
 */
module Reference {
  import opened Wrappers
  import opened Text
  import opened Week
  import opened Times
  import opened Days
  import opened Parsing

  predicate IsOff(segment: string) {
    Contains(segment, "off")
  }

  /** What `get_days_open` makes of a segment. */
  function Resolve(segment: string): DaysOpen {
    GetDaysOpen(Strip(segment))
  }

  /** The rule a segment asks for, before later segments take days away from it. */
  function Named(segment: string): Rule {
    match Resolve(segment)
    case Resolved(days, times) => Rule(days, times)
    case NotAWeekday(_) => Rule([], [])
  }

  /** The segments that give rules, in order. */
  function OnSegments(segments: seq<string>): (r: seq<string>)
    ensures forall k :: 0 <= k < |r| ==> !IsOff(r[k])
  {
    if segments == [] then []
    else
      var on := OnSegments(segments[..|segments| - 1]);
      var last := segments[|segments| - 1];
      if IsOff(last) then on else on + [last]
  }

  /** The days of the last `off` segment, wherever it stands; none without one. */
  function LastOff(segments: seq<string>): seq<string> {
    if segments == [] then []
    else
      var last := segments[|segments| - 1];
      if IsOff(last) then OffDays(last) else LastOff(segments[..|segments| - 1])
  }

  /** How a segment that gives a rule makes the parse fail, if it does. */
  function Failure(segment: string): (r: Option<ParseOutcome>)
    ensures r.Some? ==> !r.value.Parsed?
    ensures r.None? ==> Resolve(segment).Resolved? && Named(segment).intervals != []
  {
    match Resolve(segment)
    case NotAWeekday(code) => Some(Raised(code))
    case Resolved(_, times) => if times == [] then Some(NotOk) else None
  }

  /** The failure of the first segment that fails. */
  function FirstFailure(on: seq<string>): (r: Option<ParseOutcome>)
    ensures r.Some? ==> !r.value.Parsed?
  {
    if on == [] then None
    else
      match FirstFailure(on[..|on| - 1])
      case Some(outcome) => Some(outcome)
      case None => Failure(on[|on| - 1])
  }

  /** The rules the segments ask for, in order. */
  function NamedAll(on: seq<string>): (r: seq<Rule>)
    ensures |r| == |on| && forall k :: 0 <= k < |on| ==> r[k] == Named(on[k])
  {
    if on == [] then [] else NamedAll(on[..|on| - 1]) + [Named(on[|on| - 1])]
  }

  /** The days of the rules, one after the other. */
  function AllDays(named: seq<Rule>): seq<string> {
    if named == [] then [] else AllDays(named[..|named| - 1]) + named[|named| - 1].days
  }

  /** Rule `k` keeps its intervals and loses the days of the later rules and then the days off. */
  function Expected(named: seq<Rule>, off: seq<string>): (r: seq<Rule>)
    ensures |r| == |named|
    ensures forall k :: 0 <= k < |r| ==> r[k].intervals == named[k].intervals
  {
    seq(|named|, k requires 0 <= k < |named| =>
      Rule(RemoveEach(named[k].days, AllDays(named[k + 1..]) + off), named[k].intervals))
  }

  /** What `parse_oh_string` returns, stated without its loop. */
  function ParseReference(oh: string): (r: ParseOutcome)
    ensures oh != "24/7" && r.Parsed? ==> |r.rules| == |OnSegments(SplitOn(oh, ';'))|
  {
    if oh == "24/7" then Parsed([AllWeek])
    else
      var segments := SplitOn(oh, ';');
      var on := OnSegments(segments);
      match FirstFailure(on)
      case Some(outcome) => outcome
      case None => Parsed(Expected(NamedAll(on), LastOff(segments)))
  }

  /** The loop over the segments reaches the closed form after every prefix of the segments. */
  lemma {:induction false} RunMatchesExpected(segments: seq<string>)
    ensures Run(Turns(segments)) == match FirstFailure(OnSegments(segments))
      case Some(outcome) => Stopped(outcome)
      case None => Going(Expected(NamedAll(OnSegments(segments)), []), LastOff(segments))
    decreases |segments|
  {
    if segments != [] {
      var init, last := segments[..|segments| - 1], segments[|segments| - 1];
      RunMatchesExpected(init);
      RunLast(segments);
      var on := OnSegments(init);
      if IsOff(last) {
        StepOff(Run(Turns(init)), last);
      } else {
        assert OnSegments(segments) == on + [last];
        assert (on + [last])[..|on|] == on;
        StepOn(Run(Turns(init)), last);
        if FirstFailure(on).None? && Failure(last).None? {
          ExpectedSnoc(NamedAll(on), Named(last));
        }
      }
    }
  }

  lemma RunLast(segments: seq<string>)
    requires segments != []
    ensures Run(Turns(segments))
      == Step(Run(Turns(segments[..|segments| - 1])), TurnOf(segments[|segments| - 1]))
  {
    assert Turns(segments)[..|segments| - 1] == Turns(segments[..|segments| - 1]);
  }

  /** An `off` segment only replaces the days off. */
  lemma StepOff(p: Progress, segment: string)
    requires IsOff(segment)
    ensures Step(p, TurnOf(segment)) == if p.Stopped? then p else Going(p.rules, OffDays(segment))
  {
  }

  /** Any other segment stops the loop with its failure, or merges the rule it names. */
  lemma StepOn(p: Progress, segment: string)
    requires !IsOff(segment)
    ensures Step(p, TurnOf(segment)) == if p.Stopped? then p else
      match Failure(segment)
      case Some(outcome) => Stopped(outcome)
      case None => Going(WithoutDays(p.rules, Named(segment).days) + [Named(segment)], p.off)
  {
  }

  /** Appending a rule to the closed form removes its days from the earlier rules and adds it. */
  lemma ExpectedSnoc(named: seq<Rule>, rule: Rule)
    ensures Expected(named + [rule], []) == WithoutDays(Expected(named, []), rule.days) + [rule]
  {
    var before := Expected(named, []);
    var after := Expected(named + [rule], []);
    var merged := WithoutDays(before, rule.days) + [rule];
    WithoutDaysEach(before, rule.days);
    forall k | 0 <= k < |named|
      ensures after[k] == merged[k]
    {
      ExpectedSnocAt(named, rule, k);
    }
    ExpectedLast(named, rule);
    assert after[|named|] == merged[|named|];
  }

  lemma AllDaysSnoc(named: seq<Rule>, rule: Rule)
    ensures AllDays(named + [rule]) == AllDays(named) + rule.days
  {
    assert (named + [rule])[..|named|] == named;
  }

  lemma ExpectedSnocAt(named: seq<Rule>, rule: Rule, k: nat)
    requires k < |named|
    ensures Expected(named + [rule], [])[k]
      == Rule(RemoveEach(Expected(named, [])[k].days, rule.days), named[k].intervals)
  {
    var later := named[k + 1..];
    var days := named[k].days;
    assert (named + [rule])[k] == named[k];
    assert (named + [rule])[k + 1..] == later + [rule];
    assert Expected(named + [rule], [])[k].days == RemoveEach(days, AllDays(later + [rule]) + []);
    assert Expected(named, [])[k].days == RemoveEach(days, AllDays(later) + []);
    AllDaysSnoc(later, rule);
    assert AllDays(later) + [] == AllDays(later);
    assert AllDays(later + [rule]) + [] == AllDays(later) + rule.days;
    RemoveEachAppend(days, AllDays(later), rule.days);
  }

  lemma ExpectedLast(named: seq<Rule>, rule: Rule)
    ensures Expected(named + [rule], [])[|named|] == rule
  {
    assert (named + [rule])[|named| + 1..] == [];
    assert AllDays([]) + [] == [];
  }

  /** Taking the days off from the closed form is the closed form with the days off. */
  lemma WithoutOffDays(named: seq<Rule>, off: seq<string>)
    ensures WithoutDays(Expected(named, []), off) == Expected(named, off)
  {
    var before := Expected(named, []);
    WithoutDaysEach(before, off);
    forall k | 0 <= k < |named|
      ensures WithoutDays(before, off)[k] == Expected(named, off)[k]
    {
      WithoutOffDaysAt(named, off, k);
    }
  }

  lemma WithoutOffDaysAt(named: seq<Rule>, off: seq<string>, k: nat)
    requires k < |named|
    ensures RemoveEach(Expected(named, [])[k].days, off) == Expected(named, off)[k].days
  {
    var later := AllDays(named[k + 1..]);
    var days := named[k].days;
    assert Expected(named, [])[k].days == RemoveEach(days, later + []);
    assert Expected(named, off)[k].days == RemoveEach(days, later + off);
    assert later + [] == later;
    RemoveEachAppend(days, later, off);
  }

  /** `parse_oh_string` returns what the closed form describes, for every string. */
  lemma ParseMatchesReference(oh: string)
    ensures Parse(oh) == ParseReference(oh)
  {
    if oh != "24/7" {
      var segments := SplitOn(oh, ';');
      RunMatchesExpected(segments);
      WithoutOffDays(NamedAll(OnSegments(segments)), LastOff(segments));
    }
  }

  /** On success, the rules are the closed form of the segments that give rules and the last days off. */
  lemma ParsedRules(oh: string)
    requires oh != "24/7" && Parse(oh).Parsed?
    ensures var segments := SplitOn(oh, ';');
      FirstFailure(OnSegments(segments)).None?
      && Parse(oh).rules == Expected(NamedAll(OnSegments(segments)), LastOff(segments))
  {
    ParseMatchesReference(oh);
  }

  /**
   * On success there is one rule per segment that is not an `off` segment, in
   * the order of the segments, each with all the intervals of its segment.
   */
  lemma RulesFollowSegments(oh: string)
    requires oh != "24/7" && Parse(oh).Parsed?
    ensures var on := OnSegments(SplitOn(oh, ';'));
      var rules := Parse(oh).rules;
      |rules| == |on|
      && forall k :: 0 <= k < |rules| ==> rules[k].intervals == Named(on[k]).intervals && rules[k].intervals != []
  {
    ParsedRules(oh);
    var segments := SplitOn(oh, ';');
    var on := OnSegments(segments);
    var named := NamedAll(on);
    var rules := Parse(oh).rules;
    assert rules == Expected(named, LastOff(segments));
    forall k | 0 <= k < |rules|
      ensures rules[k].intervals == Named(on[k]).intervals && rules[k].intervals != []
    {
      assert rules[k].intervals == named[k].intervals;
      assert named[k] == Named(on[k]);
      NoFailureAt(on, k);
    }
  }


  lemma {:induction false} NoFailureAt(on: seq<string>, k: nat)
    requires FirstFailure(on).None? && k < |on|
    ensures Failure(on[k]).None?
    decreases |on|
  {
    if k < |on| - 1 {
      NoFailureAt(on[..|on| - 1], k);
    }
  }

  /** Rule `k` of the closed form keeps only days that its own segment named. */
  lemma ExpectedDaysComeFromNamed(named: seq<Rule>, off: seq<string>, k: nat, d: string)
    requires k < |named| && d in Expected(named, off)[k].days
    ensures d in named[k].days
  {
    assert Expected(named, off)[k].days == RemoveEach(named[k].days, AllDays(named[k + 1..]) + off);
    RemoveEachKeepsOnly(named[k].days, AllDays(named[k + 1..]) + off, d);
  }

  /** A rule keeps only days its own segment named. */
  lemma RuleDaysComeFromSegment(oh: string, k: nat, d: string)
    requires oh != "24/7" && Parse(oh).Parsed?
    requires k < |OnSegments(SplitOn(oh, ';'))|
    ensures k < |Parse(oh).rules|
    ensures d in Parse(oh).rules[k].days ==> d in Named(OnSegments(SplitOn(oh, ';'))[k]).days
  {
    ParsedRules(oh);
    var segments := SplitOn(oh, ';');
    if d in Parse(oh).rules[k].days {
      ExpectedDaysComeFromNamed(NamedAll(OnSegments(segments)), LastOff(segments), k, d);
    }
  }

  /** In the closed form, a day named by a later rule or taken off is gone from a rule without repeats. */
  lemma ExpectedRemoves(named: seq<Rule>, off: seq<string>, k: nat, d: string)
    requires k < |named| && NoRepeats(named[k].days)
    ensures d in Expected(named, off)[k].days <==> d in named[k].days && d !in AllDays(named[k + 1..]) && d !in off
  {
    RemoveEachRemoves(named[k].days, AllDays(named[k + 1..]) + off, d);
  }

  /** A day that a later segment names is gone from an earlier rule whose segment names no day twice. */
  lemma LaterSegmentOverrides(oh: string, k: nat, j: nat, d: string)
    requires oh != "24/7" && Parse(oh).Parsed?
    requires k < j < |OnSegments(SplitOn(oh, ';'))|
    requires NoRepeats(Named(OnSegments(SplitOn(oh, ';'))[k]).days)
    requires d in Named(OnSegments(SplitOn(oh, ';'))[j]).days
    ensures k < |Parse(oh).rules| && d !in Parse(oh).rules[k].days
  {
    ParsedRules(oh);
    var segments := SplitOn(oh, ';');
    ExpectedLaterOverrides(NamedAll(OnSegments(segments)), LastOff(segments), k, j, d);
  }

  /** In the closed form, a day named by a later rule is gone from an earlier rule without repeats. */
  lemma ExpectedLaterOverrides(named: seq<Rule>, off: seq<string>, k: nat, j: nat, d: string)
    requires k < j < |named| && NoRepeats(named[k].days) && d in named[j].days
    ensures d !in Expected(named, off)[k].days
  {
    assert named[k + 1..][j - k - 1] == named[j];
    AllDaysHas(named[k + 1..], j - k - 1, d);
    ExpectedRemoves(named, off, k, d);
  }

  lemma {:induction false} AllDaysHas(named: seq<Rule>, j: nat, d: string)
    requires j < |named| && d in named[j].days
    ensures d in AllDays(named)
    decreases |named|
  {
    if j < |named| - 1 {
      AllDaysHas(named[..|named| - 1], j, d);
    }
  }

  /** The days of the last `off` segment are gone from every rule whose segment names no day twice. */
  lemma OffDaysRemoved(oh: string, k: nat, d: string)
    requires oh != "24/7" && Parse(oh).Parsed?
    requires k < |OnSegments(SplitOn(oh, ';'))|
    requires NoRepeats(Named(OnSegments(SplitOn(oh, ';'))[k]).days)
    requires d in LastOff(SplitOn(oh, ';'))
    ensures k < |Parse(oh).rules| && d !in Parse(oh).rules[k].days
  {
    ParsedRules(oh);
    var segments := SplitOn(oh, ';');
    ExpectedRemoves(NamedAll(OnSegments(segments)), LastOff(segments), k, d);
  }

  /** An empty segment, such as the one after a trailing `;`, fails the whole parse. */
  lemma EmptySegmentFails(oh: string)
    requires "" in SplitOn(oh, ';')
    ensures !Parse(oh).Parsed?
  {
    ParseMatchesReference(oh);
    if oh == "24/7" {
      assert ';' !in oh;
      SplitOnNoSeparator(oh, ';');
    } else {
      var segments := SplitOn(oh, ';');
      var i :| 0 <= i < |segments| && segments[i] == "";
      EmptySegmentHasNoInterval();
      OnSegmentFails(segments, i);
    }
  }

  lemma EmptySegmentHasNoInterval()
    ensures !IsOff("") && Failure("").Some?
  {
    assert Strip("") == "";
    NoForm("");
  }

  /** A failing segment that gives a rule makes the first failure exist. */
  lemma {:induction false} OnSegmentFails(segments: seq<string>, i: nat)
    requires i < |segments| && !IsOff(segments[i]) && Failure(segments[i]).Some?
    ensures FirstFailure(OnSegments(segments)).Some?
    decreases |segments|
  {
    var on := OnSegments(segments[..|segments| - 1]);
    if i < |segments| - 1 {
      OnSegmentFails(segments[..|segments| - 1], i);
      if !IsOff(segments[|segments| - 1]) {
        assert (on + [segments[|segments| - 1]])[..|on|] == on;
      }
    } else {
      assert (on + [segments[i]])[..|on|] == on;
    }
  }

  /** A trailing `;` always fails the parse. */
  lemma TrailingSemicolonFails(oh: string)
    ensures !Parse(oh + ";").Parsed?
  {
    assert oh + ";" == oh + [';'] + "";
    SplitOnAtSeparator(oh, ';', "");
    assert SplitOn("", ';') == [""];
    assert SplitOn(oh + ";", ';')[|SplitOn(oh, ';')|] == "";
    EmptySegmentFails(oh + ";");
  }
}
