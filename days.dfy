/**
 * `search_regex_pattern` and `get_days_open`: which weekdays one `;`-segment
 * names, and the intervals that follow them.  Each regular expression is a
 * scanner over the segment that returns the text the pattern's `group(0)` holds.
 */
module Days {
  import opened Wrappers
  import opened Text
  import opened Week
  import opened Times

  /** Two lower-case ASCII letters at `i` and `i + 1`. */
  predicate LetterPairAt(p: string, i: nat) {
    i + 2 <= |p| && IsLowerAscii(p[i]) && IsLowerAscii(p[i + 1])
  }

  /**
   * `re.search(r'^[a-z][a-z]-[a-z][a-z]', p)`: the matched text, such as `mo-fr`.
   * The ensures spell out the body for callers; `RangeMatchIsPrefix` states what the match means.
   */
  function DayRangeMatch(p: string): (r: Option<string>)
    ensures r.Some? <==> |p| >= 5 && LetterPairAt(p, 0) && p[2] == '-' && LetterPairAt(p, 3)
    ensures r.Some? ==> r.value == p[..5]
  {
    if |p| >= 5 && LetterPairAt(p, 0) && p[2] == '-' && LetterPairAt(p, 3) then Some(p[..5]) else None
  }

  /**
   * `re.search(r'^[a-z][a-z](?=\s\d)', p)`: two letters that whitespace and a digit follow.
   * The ensures spell out the body for callers; `SingleDayMatchIsPrefix` states what the match means.
   */
  function SingleDayMatch(p: string): (r: Option<string>)
    ensures r.Some? <==> |p| >= 4 && LetterPairAt(p, 0) && IsSpace(p[2]) && IsDigit(p[3])
    ensures r.Some? ==> r.value == p[..2]
  {
    if |p| >= 4 && LetterPairAt(p, 0) && IsSpace(p[2]) && IsDigit(p[3]) then Some(p[..2]) else None
  }

  /**
   * `q` is entirely a run of units `[a-z][a-z],?\s?`.  A unit cannot give up its
   * comma or its whitespace to the next unit, which must start with a letter,
   * so reading the units greedily from the front decides the match.
   */
  predicate DayUnits(q: string)
    decreases |q|
  {
    LetterPairAt(q, 0) &&
    var k := if |q| > 2 && q[2] == ',' then 3 else 2;
    var m := if |q| > k && IsSpace(q[k]) then k + 1 else k;
    m == |q| || DayUnits(q[m..])
  }

  predicate NoDigit(s: string) {
    forall i :: 0 <= i < |s| ==> !IsDigit(s[i])
  }

  /** The position of the first ASCII digit. */
  function FirstDigit(p: string): (r: Option<nat>)
    ensures r.Some? ==> r.value < |p| && IsDigit(p[r.value]) && NoDigit(p[..r.value])
    ensures r.None? ==> NoDigit(p)
  {
    if p == [] then None
    else if IsDigit(p[0]) then Some(0)
    else match FirstDigit(p[1..])
      case None => None
      case Some(k) =>
        assert p[..k + 1] == [p[0]] + p[1..][..k];
        Some(k + 1)
  }

  /**
   * `re.search(r'^([a-z][a-z],?\s?)+(?=\d)', p)`.  The units hold no digit, so a
   * match can only end at the first digit of `p`.
   */
  function DayListMatch(p: string): (r: Option<string>)
    ensures r.Some? ==> |r.value| < |p| && r.value == p[..|r.value|] && IsDigit(p[|r.value|])
    ensures r.Some? ==> DayUnits(r.value)
  {
    match FirstDigit(p)
    case None => None
    case Some(i) => if DayUnits(p[..i]) then Some(p[..i]) else None
  }

  predicate InRange(c: char, lo: char, hi: char) {
    lo <= c <= hi
  }

  /** `re.search(r'^[0-2]?[0-9]:[0-5][0-9]', p)` succeeds: with the optional digit, or without it. */
  predicate TimeOnlyMatch(p: string)
    ensures TimeOnlyMatch(p) ==> |p| >= 4 && IsDigit(p[0]) && (p[1] == ':' || p[2] == ':')
  {
    (|p| >= 5 && InRange(p[0], '0', '2') && IsDigit(p[1]) && p[2] == ':' && InRange(p[3], '0', '5') && IsDigit(p[4]))
    || (|p| >= 4 && IsDigit(p[0]) && p[1] == ':' && InRange(p[2], '0', '5') && IsDigit(p[3]))
  }

  /** The hour of the clock pattern, `[0-2]?[0-9]`: one digit, or two led by 0-2. */
  predicate HourText(h: string) {
    (|h| == 1 && IsDigit(h[0])) || (|h| == 2 && InRange(h[0], '0', '2') && IsDigit(h[1]))
  }

  /** The minutes of the clock pattern, `[0-5][0-9]`. */
  predicate MinuteText(m: string) {
    |m| == 2 && InRange(m[0], '0', '5') && IsDigit(m[1])
  }

  /** The clock search matches exactly when the segment starts with an hour, `:` and minutes, the hour of one digit or two. */
  lemma TimeOnlyMatchIsPrefix(p: string)
    ensures TimeOnlyMatch(p) <==> exists h, m :: HourText(h) && MinuteText(m) && h + ":" + m <= p
  {
    if TimeOnlyMatch(p) {
      var n := if |p| >= 5 && InRange(p[0], '0', '2') && IsDigit(p[1]) && p[2] == ':' && InRange(p[3], '0', '5') && IsDigit(p[4]) then 2 else 1;
      var h, m := p[..n], p[n + 1..n + 3];
      assert h + ":" + m == p[..n + 3];
      assert HourText(h) && MinuteText(m);
    }
    forall h, m | HourText(h) && MinuteText(m) && h + ":" + m <= p
      ensures TimeOnlyMatch(p)
    {
      var c := h + ":" + m;
      assert c[|h|] == ':' && c[|h| + 1] == m[0] && c[|h| + 2] == m[1] && c[0] == h[0];
      assert p[..|c|] == c;
      if |h| == 2 {
        assert c[1] == h[1];
      }
    }
  }

  /** The four independent searches of `search_regex_pattern`. */
  datatype Matches = Matches(dayRange: Option<string>, singleDay: Option<string>, dayList: Option<string>, timeOnly: bool)

  function SearchRegexPattern(p: string): (r: Matches)
    ensures r.dayRange.Some? ==> r.singleDay.None?
    ensures r.singleDay.Some? ==> |p| >= 4 && r.dayList == Some(p[..3])
    ensures r.timeOnly ==> r.dayRange.None? && r.singleDay.None? && r.dayList.None?
  {
    MatchersOverlap(p);
    Matches(DayRangeMatch(p), SingleDayMatch(p), DayListMatch(p), TimeOnlyMatch(p))
  }

  /** How the four searches overlap on one segment. */
  lemma MatchersOverlap(p: string)
    ensures DayRangeMatch(p).Some? ==> SingleDayMatch(p).None?
    ensures SingleDayMatch(p).Some? ==> DayListMatch(p) == Some(p[..3])
    ensures TimeOnlyMatch(p) ==> DayRangeMatch(p).None? && SingleDayMatch(p).None? && DayListMatch(p).None?
  {
    if SingleDayMatch(p).Some? {
      assert DayUnits(p[..3]) by {
        assert LetterPairAt(p[..3], 0) && IsSpace(p[..3][2]);
      }
      DayListMatchFinds(p[..3], p[3..]);
      assert p[..3] + p[3..] == p;
    }
    if TimeOnlyMatch(p) {
      assert FirstDigit(p) == Some(0);
    }
  }

  /** What `get_days_open` returns, or the `ValueError` that `weekdays.index` raises on a range. */
  datatype DaysOpen = Resolved(days: seq<string>, times: seq<Interval>) | NotAWeekday(code: string)

  /** `weekdays[i:j + 1]` */
  function WeekdaySlice(i: nat, j: nat): (r: seq<string>)
    requires i < |Weekdays| && j < |Weekdays|
    ensures |r| == if i <= j then j - i + 1 else 0
    ensures forall k :: 0 <= k < |r| ==> r[k] == Weekdays[i + k]
  {
    if i <= j then Weekdays[i..j + 1] else []
  }

  /** Strip every element, as `[x.strip() for x in xs]`. */
  function StripAll(xs: seq<string>): (r: seq<string>)
    ensures |r| == |xs| && forall k :: 0 <= k < |xs| ==> r[k] == Strip(xs[k])
  {
    if xs == [] then [] else [Strip(xs[0])] + StripAll(xs[1..])
  }

  /**
   * `get_days_open`: the forms are tried in the order day range, single day,
   * day list, time only; the text after the days is read by `get_time_open`,
   * and a segment of no form reads the empty text.
   */
  function GetDaysOpen(p: string): (r: DaysOpen)
    ensures r.Resolved? ==> forall k :: 0 <= k < |r.times| ==> WellFormed(r.times[k])
  {
    var m := SearchRegexPattern(p);
    if m.dayRange.Some? then RangeDays(m.dayRange.value, p[|m.dayRange.value|..])
    else if m.singleDay.Some? then Resolved([m.singleDay.value], TimeOpen(p[|m.singleDay.value|..]))
    else if m.dayList.Some? then ListDays(m.dayList.value, p[|m.dayList.value|..])
    else if m.timeOnly then Resolved(Weekdays, TimeOpen(p))
    else Resolved([], TimeOpen(""))
  }

  /** The day-range branch: `weekdays.index` of both codes, then the slice between them. */
  function RangeDays(range: string, after: string): (r: DaysOpen)
    requires |range| == 5
    ensures r.Resolved? ==> forall k :: 0 <= k < |r.times| ==> WellFormed(r.times[k])
  {
    var (first, last) := (range[..2], range[3..]);
    match (WeekdayIndex(first), WeekdayIndex(last))
    case (None, _) => NotAWeekday(first)
    case (Some(_), None) => NotAWeekday(last)
    case (Some(i), Some(j)) => Resolved(WeekdaySlice(i, j), TimeOpen(after))
  }

  /** The day-list branch: the matched text split at its commas, each piece stripped. */
  function ListDays(list: string, after: string): (r: DaysOpen)
    ensures r.Resolved? ==> forall k :: 0 <= k < |r.times| ==> WellFormed(r.times[k])
  {
    Resolved(StripAll(SplitOn(list, ',')), TimeOpen(after))
  }

  /** A range of two weekday codes gives the days from the first to the last, none when they are reversed. */
  lemma DayRangeForm(i: nat, j: nat, rest: string)
    requires i < |Weekdays| && j < |Weekdays|
    ensures GetDaysOpen(Weekdays[i] + "-" + Weekdays[j] + rest) == Resolved(WeekdaySlice(i, j), TimeOpen(rest))
  {
    var a, b := Weekdays[i], Weekdays[j];
    WeekdayIsCode(i);
    WeekdayIsCode(j);
    WeekdayIndexOf(i);
    WeekdayIndexOf(j);
    RangeOfCodes(a, b, rest);
    assert RangeDays(a + "-" + b, rest) == Resolved(WeekdaySlice(i, j), TimeOpen(rest));
  }

  lemma WeekdayIsCode(i: nat)
    requires i < |Weekdays|
    ensures IsDayCode(Weekdays[i])
  {
  }

  /** The range form reads its two codes and the text after them. */
  lemma RangeOfCodes(a: string, b: string, rest: string)
    requires IsDayCode(a) && IsDayCode(b)
    ensures var p := a + "-" + b + rest;
      DayRangeMatch(p) == Some(a + "-" + b) && p[..2] == a && p[3..5] == b && p[5..] == rest
    ensures (a + "-" + b)[..2] == a && (a + "-" + b)[3..] == b
  {
    var p := a + "-" + b + rest;
    assert p[..5] == a + "-" + b;
  }

  /** A range whose first code is not a weekday raises on that code. */
  lemma RangeRaisesOnFirst(a: string, b: string, rest: string)
    requires IsDayCode(a) && IsDayCode(b) && a !in Weekdays
    ensures GetDaysOpen(a + "-" + b + rest) == NotAWeekday(a)
  {
    RangeOfCodes(a, b, rest);
    assert WeekdayIndex(a) == None;
  }

  /** `ph-mo`, a range from the public holiday, raises. */
  lemma PublicHolidayRangeRaises(rest: string)
    ensures GetDaysOpen("ph-mo" + rest) == NotAWeekday("ph")
  {
    assert "ph-mo" + rest == "ph" + "-" + "mo" + rest;
    RangeRaisesOnFirst("ph", "mo", rest);
  }

  /** `weekdays.index` raises exactly when a range names a code that is not a weekday. */
  lemma RangeRaisesExactly(p: string)
    ensures GetDaysOpen(p).NotAWeekday? <==> DayRangeMatch(p).Some? && (p[..2] !in Weekdays || p[3..5] !in Weekdays)
  {
    if DayRangeMatch(p).Some? {
      var range := p[..5];
      assert range[..2] == p[..2] && range[3..] == p[3..5];
    }
  }

  /** Any two letters that whitespace and a digit follow are taken as one day, weekday or not. */
  lemma SingleDayForm(code: string, c: char, rest: string)
    requires |code| == 2 && LetterPairAt(code, 0) && IsSpace(c)
    requires rest != [] && IsDigit(rest[0])
    ensures GetDaysOpen(code + [c] + rest) == Resolved([code], TimeOpen([c] + rest))
  {
    var p := code + [c] + rest;
    assert p[2] == c && p[3] == rest[0];
    assert p[..2] == code;
    assert p[2..] == [c] + rest;
  }

  /** A segment that starts with a clock is open on all seven weekdays. */
  lemma TimeOnlyForm(p: string)
    requires TimeOnlyMatch(p)
    ensures GetDaysOpen(p) == Resolved(Weekdays, TimeOpen(p))
  {
    assert IsDigit(p[0]);
    if FirstDigit(p) == Some(0) {
      assert p[..0] == [];
    }
  }

  /** A bare range such as `09:00-17:00` is open on all seven weekdays for that interval. */
  lemma BareRange(a: nat, b: nat)
    requires a < MinutesPerDay && b < MinutesPerDay
    ensures GetDaysOpen(RangeText(a, b)) == Resolved(Weekdays, [Interval(a, Closing(a, b))])
  {
    var p := RangeText(a, b);
    calc {
      GetDaysOpen(p);
      { RangeTextTimeOnly(a, b); TimeOnlyForm(p); }
      Resolved(Weekdays, TimeOpen(p));
      { RangeTimeOpen(a, b); }
      Resolved(Weekdays, [Interval(a, Closing(a, b))]);
    }
  }

  lemma RangeTextTimeOnly(a: nat, b: nat)
    requires a < MinutesPerDay && b < MinutesPerDay
    ensures TimeOnlyMatch(RangeText(a, b))
  {
    var p, s := RangeText(a, b), FormatClock(a);
    assert p[0] == s[0] && p[1] == s[1] && p[2] == s[2] && p[3] == s[3] && p[4] == s[4];
  }

  /** A segment of no form has no days and no interval. */
  lemma NoForm(p: string)
    requires DayRangeMatch(p).None? && SingleDayMatch(p).None? && DayListMatch(p).None? && !TimeOnlyMatch(p)
    ensures GetDaysOpen(p) == Resolved([], [])
  {
    EmptyHasNoInterval();
  }

  /** The text `d0, d1, …, dn ` that names a list of days. */
  function ListText(ds: seq<string>): string
    requires |ds| >= 1
  {
    if |ds| == 1 then ds[0] + " " else ds[0] + ", " + ListText(ds[1..])
  }

  predicate IsDayCode(d: string) {
    |d| == 2 && LetterPairAt(d, 0)
  }

  /** Two or more day codes listed with commas are taken one by one, weekday or not. */
  lemma DayListForm(ds: seq<string>, t: string)
    requires |ds| >= 2 && forall k :: 0 <= k < |ds| ==> IsDayCode(ds[k])
    requires t != [] && IsDigit(t[0])
    ensures GetDaysOpen(ListText(ds) + t) == Resolved(ds, TimeOpen(t))
  {
    var q := ListText(ds);
    calc {
      GetDaysOpen(q + t);
      { ListTextBranch(ds, t); }
      ListDays(q, t);
      Resolved(StripAll(SplitOn(q, ',')), TimeOpen(t));
      { ListTextSplits(ds); }
      Resolved(ds, TimeOpen(t));
    }
  }

  /** A list of two or more codes is read by the day-list branch. */
  lemma ListTextBranch(ds: seq<string>, t: string)
    requires |ds| >= 2 && forall k :: 0 <= k < |ds| ==> IsDayCode(ds[k])
    requires t != [] && IsDigit(t[0])
    ensures GetDaysOpen(ListText(ds) + t) == ListDays(ListText(ds), t)
  {
    ListTextShape(ds);
    ListBranch(ListText(ds), t);
  }

  lemma ListTextShape(ds: seq<string>)
    requires |ds| >= 2 && forall k :: 0 <= k < |ds| ==> IsDayCode(ds[k])
    ensures var q := ListText(ds); |q| > 2 && q[2] == ',' && DayUnits(q) && NoDigit(q)
  {
    var q := ListText(ds);
    assert q == ds[0] + ", " + ListText(ds[1..]);
    ListTextScans(ds);
  }

  /** The list text is a run of units and holds no digit. */
  lemma {:induction false} ListTextScans(ds: seq<string>)
    requires |ds| >= 1 && forall k :: 0 <= k < |ds| ==> IsDayCode(ds[k])
    ensures DayUnits(ListText(ds)) && NoDigit(ListText(ds))
    decreases |ds|
  {
    var q := ListText(ds);
    if |ds| == 1 {
      assert q == ds[0] + " ";
      assert q[2] == ' ';
    } else {
      var rest := ListText(ds[1..]);
      ListTextScans(ds[1..]);
      assert q == ds[0] + ", " + rest;
      assert q[2] == ',' && q[3] == ' ';
      assert q[4..] == rest;
    }
  }

  lemma FirstDigitAfter(q: string, t: string)
    requires NoDigit(q) && t != [] && IsDigit(t[0])
    ensures FirstDigit(q + t) == Some(|q|)
  {
    assert (q + t)[|q|] == t[0];
  }

  /** Splitting the list text at its commas and stripping the pieces gives back the codes. */
  lemma {:induction false} ListTextSplits(ds: seq<string>)
    requires |ds| >= 1 && forall k :: 0 <= k < |ds| ==> IsDayCode(ds[k])
    ensures StripAll(SplitOn(ListText(ds), ',')) == ds
    decreases |ds|
  {
    if |ds| == 1 {
      CodeHasNoComma(ds[0]);
      assert ',' !in ds[0] + " ";
      SplitOnNoSeparator(ds[0] + " ", ',');
      StripTrailingSpace(ds[0]);
    } else {
      var rest := ListText(ds[1..]);
      calc {
        StripAll(SplitOn(ListText(ds), ','));
        { ListTextHead(ds); }
        StripAll([ds[0]] + SplitOn(" " + rest, ','));
        { StripAllCons(ds[0], SplitOn(" " + rest, ',')); }
        [Strip(ds[0])] + StripAll(SplitOn(" " + rest, ','));
        { StripAllLeadingSpace(rest); }
        [Strip(ds[0])] + StripAll(SplitOn(rest, ','));
        { ListTextSplits(ds[1..]); }
        [Strip(ds[0])] + ds[1..];
        { CodeIsStripped(ds[0]); }
        [ds[0]] + ds[1..];
        ds;
      }
    }
  }

  /** The first code of a longer list is a piece of its own. */
  lemma ListTextHead(ds: seq<string>)
    requires |ds| >= 2 && IsDayCode(ds[0])
    ensures SplitOn(ListText(ds), ',') == [ds[0]] + SplitOn(" " + ListText(ds[1..]), ',')
  {
    var rest := ListText(ds[1..]);
    calc {
      SplitOn(ListText(ds), ',');
      SplitOn(ds[0] + ", " + rest, ',');
      { assert ds[0] + ", " + rest == ds[0] + [','] + (" " + rest); }
      SplitOn(ds[0] + [','] + (" " + rest), ',');
      { SplitOnAtSeparator(ds[0], ',', " " + rest); }
      SplitOn(ds[0], ',') + SplitOn(" " + rest, ',');
      { CodeHasNoComma(ds[0]); SplitOnNoSeparator(ds[0], ','); }
      [ds[0]] + SplitOn(" " + rest, ',');
    }
  }

  lemma StripAllCons(x: string, xs: seq<string>)
    ensures StripAll([x] + xs) == [Strip(x)] + StripAll(xs)
  {
    assert ([x] + xs)[1..] == xs;
  }

  lemma StripAllLeadingSpace(s: string)
    ensures StripAll(SplitOn(" " + s, ',')) == StripAll(SplitOn(s, ','))
  {
    var pieces := SplitOn(s, ',');
    calc {
      StripAll(SplitOn(" " + s, ','));
      { SplitOnLeadingSpace(s, ','); }
      StripAll([" " + pieces[0]] + pieces[1..]);
      { StripAllCons(" " + pieces[0], pieces[1..]); }
      [Strip(" " + pieces[0])] + StripAll(pieces[1..]);
      { StripLeadingSpace(pieces[0]); }
      [Strip(pieces[0])] + StripAll(pieces[1..]);
      { StripAllCons(pieces[0], pieces[1..]); }
      StripAll([pieces[0]] + pieces[1..]);
      { assert [pieces[0]] + pieces[1..] == pieces; }
      StripAll(pieces);
    }
  }

  /** Without commas, codes separated by a space stay one element: `mo we` is a single day. */
  lemma ListWithoutCommas(a: string, b: string, t: string)
    requires IsDayCode(a) && IsDayCode(b) && t != [] && IsDigit(t[0])
    ensures GetDaysOpen(a + " " + b + " " + t) == Resolved([a + " " + b], TimeOpen(t))
  {
    var q := a + " " + b + " ";
    calc {
      GetDaysOpen(q + t);
      { SpacedPair(a, b); ListBranch(q, t); }
      ListDays(q, t);
      Resolved(StripAll(SplitOn(q, ',')), TimeOpen(t));
      { SpacedPieces(a, b); }
      Resolved([a + " " + b], TimeOpen(t));
    }
  }

  /** `a b ` is one comma piece, which strips to `a b`. */
  lemma SpacedPieces(a: string, b: string)
    requires IsDayCode(a) && IsDayCode(b)
    ensures StripAll(SplitOn(a + " " + b + " ", ',')) == [a + " " + b]
  {
    var q := a + " " + b + " ";
    SpacedPair(a, b);
    SplitOnNoSeparator(q, ',');
    var s := a + " " + b;
    assert s[0] == a[0] && s[|s| - 1] == b[1];
    StripTrailingSpace(s);
    assert StripAll([q])[0] == Strip(q);
  }

  /** Two codes, each followed by a space, read as day units with no digit and no comma. */
  lemma SpacedPair(a: string, b: string)
    requires IsDayCode(a) && IsDayCode(b)
    ensures var q := a + " " + b + " ";
      DayUnits(q) && NoDigit(q) && ',' !in q && |q| == 6 && !IsDigit(q[3])
  {
    var q := a + " " + b + " ";
    assert q[2] == ' ' && q[3] == b[0] && q[5] == ' ';
    assert q[3..] == b + " ";
    assert DayUnits(q[3..]);
    assert ',' !in q by {
      CodeHasNoComma(a);
      CodeHasNoComma(b);
      assert ',' !in " ";
    }
  }

  lemma CodeIsStripped(d: string)
    requires IsDayCode(d)
    ensures Strip(d) == d
  {
    assert !IsSpace(d[0]) && !IsSpace(d[1]);
  }

  lemma CodeHasNoComma(d: string)
    requires IsDayCode(d)
    ensures ',' !in d
  {
    assert d == [d[0], d[1]];
  }

  /** A segment whose only form is the day list reads the list text and the times after it. */
  lemma ListBranch(q: string, t: string)
    requires DayUnits(q) && NoDigit(q) && t != [] && IsDigit(t[0])
    requires |q| < 3 || (q[2] != '-' && !IsSpace(q[2])) || (|q| > 3 && !IsDigit(q[3]))
    ensures GetDaysOpen(q + t) == ListDays(q, t)
  {
    ListMatches(q, t);
    assert (q + t)[|q|..] == t;
  }

  /** Only the day-list search matches, and it matches the list text. */
  lemma ListMatches(q: string, t: string)
    requires DayUnits(q) && NoDigit(q) && t != [] && IsDigit(t[0])
    requires |q| < 3 || (q[2] != '-' && !IsSpace(q[2])) || (|q| > 3 && !IsDigit(q[3]))
    ensures DayRangeMatch(q + t).None? && SingleDayMatch(q + t).None? && DayListMatch(q + t) == Some(q)
  {
    var p := q + t;
    DayListMatchFinds(q, t);
    assert DayRangeMatch(p).None? && SingleDayMatch(p).None? by {
      if |q| < 3 {
        assert |q| == 2;
        assert IsDigit(p[2]);
      } else {
        assert p[2] == q[2];
        if |q| > 3 {
          assert p[3] == q[3];
        }
      }
    }
  }

  /**
   * The day-range search matches exactly a prefix made of a code, a dash and a
   * code; `RangeOfCodes` finds every such prefix.
   */
  lemma RangeMatchIsPrefix(p: string, m: string)
    ensures DayRangeMatch(p) == Some(m)
      <==> m <= p && |m| == 5 && IsDayCode(m[..2]) && m[2] == '-' && IsDayCode(m[3..])
  {
    if m <= p && |m| == 5 {
      assert m == p[..5];
      assert m[..2][0] == p[0] && m[..2][1] == p[1];
      assert m[3..][0] == p[3] && m[3..][1] == p[4];
    }
  }

  /** The single-day search matches exactly a code at the front that whitespace and a digit follow. */
  lemma SingleDayMatchIsPrefix(p: string, m: string)
    ensures SingleDayMatch(p) == Some(m)
      <==> m <= p && IsDayCode(m) && |p| >= 4 && IsSpace(p[2]) && IsDigit(p[3])
  {
    if m <= p && |m| == 2 {
      assert m == p[..2];
      assert m[0] == p[0] && m[1] == p[1];
    }
  }

  /** A run of day units without digits, followed by a digit, is what the day-list search matches. */
  lemma DayListMatchFinds(q: string, t: string)
    requires DayUnits(q) && NoDigit(q) && t != [] && IsDigit(t[0])
    ensures DayListMatch(q + t) == Some(q)
  {
    FirstDigitAfter(q, t);
    assert (q + t)[..|q|] == q;
  }

  /** The day-list search matches exactly a proper prefix of day units, without digits, that a digit follows. */
  lemma DayListMatchIsPrefix(p: string, m: string)
    ensures DayListMatch(p) == Some(m) <==> m < p && DayUnits(m) && NoDigit(m) && IsDigit(p[|m|])
  {
    if DayListMatch(p) == Some(m) {
      assert m == p[..FirstDigit(p).value];
    }
    if m < p && DayUnits(m) && NoDigit(m) && IsDigit(p[|m|]) {
      assert p == m + p[|m|..];
      DayListMatchFinds(m, p[|m|..]);
    }
  }
}
