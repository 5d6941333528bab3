/**
 * `get_time_open` and the clock arithmetic behind it.  A time of day is the
 * number of minutes since midnight; every `datetime` of the source sits on the
 * same day, so `timedelta(days=1)` is exactly 1440 minutes.
 */
module Times {
  import opened Wrappers
  import opened Text

  const MinutesPerDay := 1440

  /** One opening interval, both ends included; `closes` is past 1440 when it falls on the next day. */
  datatype Interval = Interval(opens: int, closes: int)

  /** What every parsed interval satisfies: it opens on the day and lasts between nothing and one day. */
  predicate WellFormed(iv: Interval) {
    0 <= iv.opens < MinutesPerDay && iv.opens <= iv.closes <= iv.opens + MinutesPerDay
  }

  /** A `%H` or `%M` field: one or two ASCII digits whose value is at most `max`. */
  predicate IsClockField(f: string, max: nat) {
    1 <= |f| <= 2 && AllDigits(f) && DigitsValue(f) <= max
  }

  /**
   * `datetime.strptime(s, '%H:%M')`, as minutes since midnight, or `None` where it
   * raises `ValueError`: the whole text must be the hour, a colon and the minute.
   */
  function ParseClock(s: string): (r: Option<nat>)
    ensures r.Some? ==> r.value < MinutesPerDay
  {
    var fields := SplitOn(s, ':');
    if |fields| == 2 && IsClockField(fields[0], 23) && IsClockField(fields[1], 59)
    then Some(DigitsValue(fields[0]) * 60 + DigitsValue(fields[1]))
    else None
  }

  /**
   * The language `%H:%M` accepts: the text is exactly an hour of one or two digits
   * up to 23, a colon and a minute of one or two digits up to 59, and the clock
   * reads as that many minutes since midnight.  Padding is optional, so `7:30`
   * and `9:5` are clock times.
   */
  lemma ClockLanguage(s: string, t: nat)
    ensures ParseClock(s) == Some(t) <==>
      exists h, m :: IsClockField(h, 23) && IsClockField(m, 59) && s == h + ":" + m && t == 60 * DigitsValue(h) + DigitsValue(m)
  {
    if ParseClock(s) == Some(t) {
      ClockTextJoins(s);
      var h, m := SplitOn(s, ':')[0], SplitOn(s, ':')[1];
      assert IsClockField(h, 23) && IsClockField(m, 59) && t == 60 * DigitsValue(h) + DigitsValue(m);
    }
    if exists h, m :: IsClockField(h, 23) && IsClockField(m, 59) && s == h + ":" + m && t == 60 * DigitsValue(h) + DigitsValue(m) {
      var h, m :| IsClockField(h, 23) && IsClockField(m, 59) && s == h + ":" + m && t == 60 * DigitsValue(h) + DigitsValue(m);
      ClockFieldsSplit(h, m);
    }
  }

  /** A text that splits at `:` into two pieces is those pieces joined by the colon. */
  lemma ClockTextJoins(s: string)
    requires ParseClock(s).Some?
    ensures |SplitOn(s, ':')| == 2
    ensures s == SplitOn(s, ':')[0] + ":" + SplitOn(s, ':')[1]
  {
    var fields := SplitOn(s, ':');
    SplitOnJoin(s, ':');
    assert fields[1..] == [fields[1]];
  }

  /** A clock text splits at its one colon into its two fields. */
  lemma ClockFieldsSplit(h: string, m: string)
    requires AllDigits(h) && AllDigits(m)
    ensures SplitOn(h + ":" + m, ':') == [h, m]
  {
    assert h + ":" + m == h + [':'] + m;
    SplitOnAtSeparator(h, ':', m);
    SplitOnNoSeparator(h, ':');
    SplitOnNoSeparator(m, ':');
  }

  /** A one-digit hour needs no padding: `7:30` is 450 minutes and `9:5` is 545. */
  lemma UnpaddedClocks()
    ensures ParseClock("7:30") == Some(450)
    ensures ParseClock("9:5") == Some(545)
  {
    assert "30"[..1] == "3" && "3"[..0] == "" && "5"[..0] == "";
    assert "7:30" == ['7'] + ":" + "30" && "9:5" == ['9'] + ":" + "5";
    UnpaddedClock('7', "30", 30);
    UnpaddedClock('9', "5", 5);
  }

  lemma UnpaddedClock(d: char, m: string, v: nat)
    requires IsDigit(d) && IsClockField(m, 59) && DigitsValue(m) == v
    ensures ParseClock([d] + ":" + m) == Some(60 * DigitValue(d) + v)
  {
    ClockFieldsSplit([d], m);
    assert [d][..0] == [];
  }

  /** The zero-padded `HH:MM` text of a time of day. */
  function FormatClock(t: nat): (r: string)
    requires t < MinutesPerDay
    ensures |r| == 5 && r[2] == ':'
    ensures forall i :: 0 <= i < 5 && i != 2 ==> IsDigit(r[i])
    ensures '0' <= r[0] <= '2' && '0' <= r[3] <= '5'
  {
    TwoDigits(t / 60) + ":" + TwoDigits(t % 60)
  }

  /** Every time of day reads back from its `HH:MM` text. */
  lemma ClockRoundTrip(t: nat)
    requires t < MinutesPerDay
    ensures ParseClock(FormatClock(t)) == Some(t)
  {
    var h, m := TwoDigits(t / 60), TwoDigits(t % 60);
    assert FormatClock(t) == h + [':'] + m;
    SplitOnAtSeparator(h, ':', m);
    SplitOnNoSeparator(h, ':');
    SplitOnNoSeparator(m, ':');
  }

  /** The hour field admits 0 to 23 only, so a clock never reads 24 hours. */
  lemma ClockRejectsHour24()
    ensures ParseClock("24:00") == None
  {
    assert "24:00" == "24" + [':'] + "00";
    SplitOnAtSeparator("24", ':', "00");
    SplitOnNoSeparator("24", ':');
    SplitOnNoSeparator("00", ':');
    assert "24"[..1] == "2";
    assert "2"[..0] == "";
  }

  /** Where an interval closes: on the same day, or on the next when the end comes before the start. */
  function Closing(start: nat, end: nat): nat {
    if end < start then end + MinutesPerDay else end
  }

  /**
   * One comma piece of the time ranges: stripped, cut at `-` into exactly a start
   * and an end, each read as a clock; the end `24:00` is midnight of the next day,
   * and an end before the start moves to the next day.  `None` is the
   * `ValueError` the source catches and skips.
   */
  function ParseRange(piece: string): (r: Option<Interval>)
    ensures r.Some? ==> WellFormed(r.value)
  {
    ParseEnds(SplitOn(Strip(piece), '-'))
  }

  /** The start and the end of a stripped piece, once it is cut at `-`. */
  function ParseEnds(ends: seq<string>): (r: Option<Interval>)
    ensures r.Some? ==> WellFormed(r.value)
  {
    if |ends| != 2 then None
    else
      var start := ParseClock(ends[0]);
      var end := if ends[1] == "24:00" then Some(MinutesPerDay) else ParseClock(ends[1]);
      if start.None? || end.None? then None
      else Some(Interval(start.value, Closing(start.value, end.value)))
  }

  /** The text `HH:MM-HH:MM` of a range. */
  function RangeText(a: nat, b: nat): (r: string)
    requires a < MinutesPerDay && b < MinutesPerDay
    ensures AllTimeChars(r) && ',' !in r
  {
    FormatClock(a) + "-" + FormatClock(b)
  }

  /** `HH:MM-HH:MM` reads back as the interval it names, moved past midnight when it ends before it starts. */
  lemma RangeRoundTrip(a: nat, b: nat)
    requires a < MinutesPerDay && b < MinutesPerDay
    ensures ParseRange(RangeText(a, b)) == Some(Interval(a, Closing(a, b)))
  {
    var s, e := FormatClock(a), FormatClock(b);
    calc {
      ParseRange(RangeText(a, b));
      { ClockPair(s, e); }
      ParseEnds([s, e]);
      { EndsRoundTrip(a, b); }
      Some(Interval(a, Closing(a, b)));
    }
  }

  lemma EndsRoundTrip(a: nat, b: nat)
    requires a < MinutesPerDay && b < MinutesPerDay
    ensures ParseEnds([FormatClock(a), FormatClock(b)]) == Some(Interval(a, Closing(a, b)))
  {
    ClockRoundTrip(a);
    ClockRoundTrip(b);
    if FormatClock(b) == "24:00" {
      ClockRejectsHour24();
    }
  }

  /** Two five-character clock texts joined by `-` are already stripped and cut back into the two texts. */
  lemma ClockPair(s: string, e: string)
    requires |s| == 5 && |e| == 5 && IsDigit(s[0]) && IsDigit(e[4]) && '-' !in s && '-' !in e
    ensures ParseRange(s + "-" + e) == ParseEnds([s, e])
  {
    var p := s + "-" + e;
    assert p[0] == s[0] && p[|p| - 1] == e[4];
    assert Strip(p) == p;
    SplitAroundDash(s, e);
  }

  /** `HH:MM-24:00` lasts until midnight at the end of the day. */
  lemma RangeToMidnight(a: nat)
    requires a < MinutesPerDay
    ensures ParseRange(FormatClock(a) + "-24:00") == Some(Interval(a, MinutesPerDay))
  {
    var s := FormatClock(a);
    calc {
      ParseRange(s + "-24:00");
      { assert s + "-24:00" == s + "-" + "24:00"; }
      ParseRange(s + "-" + "24:00");
      { ClockPair(s, "24:00"); }
      ParseEnds([s, "24:00"]);
      { ClockRoundTrip(a); }
      Some(Interval(a, MinutesPerDay));
    }
  }

  /** Two clock texts joined by `-` split back into the two texts. */
  lemma SplitAroundDash(s: string, e: string)
    requires '-' !in s && '-' !in e
    ensures SplitOn(s + "-" + e, '-') == [s, e]
  {
    assert s + "-" + e == s + ['-'] + e;
    SplitOnAtSeparator(s, '-', e);
    SplitOnNoSeparator(s, '-');
    SplitOnNoSeparator(e, '-');
  }

  /** A piece with no dash, or with more than one, is skipped. */
  lemma RangeNeedsOneDash(piece: string)
    requires |SplitOn(Strip(piece), '-')| != 2
    ensures ParseRange(piece) == None
  {
  }

  /** The characters `get_time_open` accepts before it looks at the ranges. */
  predicate TimeChar(c: char) {
    IsDigit(c) || c == ',' || c == ':' || c == '-' || c == ' '
  }

  predicate AllTimeChars(s: string) {
    forall i :: 0 <= i < |s| ==> TimeChar(s[i])
  }

  /**
   * What each comma piece reads as, `None` where the source catches the `ValueError` and skips it.
   * The ensures spell out the body for callers.
   */
  function ParseRanges(pieces: seq<string>): (r: seq<Option<Interval>>)
    ensures |r| == |pieces| && forall k :: 0 <= k < |r| ==> r[k] == ParseRange(pieces[k])
  {
    seq(|pieces|, k requires 0 <= k < |pieces| => ParseRange(pieces[k]))
  }

  /** The intervals of the results that are present, in their order. */
  function KeepSome(results: seq<Option<Interval>>): (r: seq<Interval>)
    ensures |r| <= |results|
  {
    if results == [] then []
    else
      var kept := KeepSome(results[..|results| - 1]);
      match results[|results| - 1]
      case None => kept
      case Some(iv) => kept + [iv]
  }

  /** The pieces that parse, in their order, each as its interval. */
  function KeepParsed(pieces: seq<string>): (r: seq<Interval>)
    ensures |r| <= |pieces|
    ensures forall k :: 0 <= k < |r| ==> WellFormed(r[k])
  {
    var results := ParseRanges(pieces);
    var r := KeepSome(results);
    assert forall k :: 0 <= k < |r| ==> WellFormed(r[k]) by {
      forall k | 0 <= k < |r|
        ensures WellFormed(r[k])
      {
        var i := KeepSomeFrom(results, k);
      }
    }
    r
  }

  /** Every kept interval is one of the results. */
  lemma {:induction false} KeepSomeFrom(results: seq<Option<Interval>>, k: nat) returns (i: nat)
    requires k < |KeepSome(results)|
    ensures i < |results| && results[i] == Some(KeepSome(results)[k])
    decreases |results|
  {
    var init := results[..|results| - 1];
    if k < |KeepSome(init)| {
      i := KeepSomeFrom(init, k);
    } else {
      i := |results| - 1;
    }
  }

  /** One more result keeps one more interval when it is present. */
  lemma KeepSomePrefix(results: seq<Option<Interval>>, j: nat)
    requires j < |results|
    ensures KeepSome(results[..j + 1])
      == KeepSome(results[..j]) + if results[j].Some? then [results[j].value] else []
  {
    assert results[..j + 1][..j] == results[..j];
  }

  /** Keeping the present results of a concatenation keeps those of each part, in order. */
  lemma {:induction false} KeepSomeAppend(a: seq<Option<Interval>>, b: seq<Option<Interval>>)
    ensures KeepSome(a + b) == KeepSome(a) + KeepSome(b)
    decreases |b|
  {
    if b == [] {
      assert a + b == a;
    } else {
      var b' := b[..|b| - 1];
      assert (a + b)[..|a + b| - 1] == a + b';
      assert (a + b)[|a + b| - 1] == b[|b| - 1];
      KeepSomeAppend(a, b');
    }
  }

  /** Keeping the parsed pieces of a concatenation keeps those of each part, in order. */
  lemma KeepParsedAppend(a: seq<string>, b: seq<string>)
    ensures KeepParsed(a + b) == KeepParsed(a) + KeepParsed(b)
  {
    assert ParseRanges(a + b) == ParseRanges(a) + ParseRanges(b);
    KeepSomeAppend(ParseRanges(a), ParseRanges(b));
  }

  /** Results that are all present are all kept, one interval each and in order. */
  lemma {:induction false} KeepSomeAll(results: seq<Option<Interval>>)
    requires forall k :: 0 <= k < |results| ==> results[k].Some?
    ensures |KeepSome(results)| == |results|
    ensures forall k :: 0 <= k < |results| ==> KeepSome(results)[k] == results[k].value
    decreases |results|
  {
    if results != [] {
      var init := results[..|results| - 1];
      KeepSomeAll(init);
      assert KeepSome(results) == KeepSome(init) + [results[|results| - 1].value];
    }
  }

  /** Pieces that all parse are all kept, one interval each and in order. */
  lemma KeepParsedAll(pieces: seq<string>)
    requires forall k :: 0 <= k < |pieces| ==> ParseRange(pieces[k]).Some?
    ensures |KeepParsed(pieces)| == |pieces|
    ensures forall k :: 0 <= k < |pieces| ==> KeepParsed(pieces)[k] == ParseRange(pieces[k]).value
  {
    KeepSomeAll(ParseRanges(pieces));
  }

  /**
   * `get_time_open`: no interval at all when a character falls outside the
   * accepted set; otherwise the comma pieces that parse, in order.
   */
  function TimeOpen(timeRanges: string): (r: seq<Interval>)
    ensures |r| <= |SplitOn(timeRanges, ',')|
    ensures forall k :: 0 <= k < |r| ==> WellFormed(r[k])
  {
    if AllTimeChars(timeRanges) then KeepParsed(SplitOn(timeRanges, ',')) else []
  }

  /** A stray character anywhere rejects every range, even well-formed ones. */
  lemma StrayCharacterRejects(a: string, c: char, b: string)
    requires !TimeChar(c)
    ensures TimeOpen(a + [c] + b) == []
  {
    assert (a + [c] + b)[|a|] == c;
  }

  /** An empty text has one empty piece, which does not parse. */
  lemma EmptyHasNoInterval()
    ensures TimeOpen("") == []
  {
    assert SplitOn("", ',') == [""];
    assert SplitOn(Strip(""), '-') == [""];
  }

  /** Two well-formed ranges separated by `, ` both read back, in order. */
  lemma TwoRangesRoundTrip(a: nat, b: nat, c: nat, d: nat)
    requires a < MinutesPerDay && b < MinutesPerDay && c < MinutesPerDay && d < MinutesPerDay
    ensures TimeOpen(RangeText(a, b) + ", " + RangeText(c, d))
         == [Interval(a, Closing(a, b)), Interval(c, Closing(c, d))]
  {
    var first, second := RangeText(a, b), RangeText(c, d);
    SplitAfterComma(first, second);
    assert TimeOpen(first + ", " + second) == KeepParsed([first, " " + second]);
    RangeRoundTrip(a, b);
    RangeRoundTrip(c, d);
    ParseRangeLeadingSpace(second);
    KeepParsedPair(first, " " + second);
  }

  lemma KeepParsedPair(p: string, q: string)
    requires ParseRange(p).Some? && ParseRange(q).Some?
    ensures KeepParsed([p, q]) == [ParseRange(p).value, ParseRange(q).value]
  {
    calc {
      KeepParsed([p, q]);
      KeepSome(ParseRanges([p, q]));
      { ParseRangesPair(p, q); }
      KeepSome([ParseRange(p), ParseRange(q)]);
      { KeepSomePair(ParseRange(p), ParseRange(q)); }
      [ParseRange(p).value, ParseRange(q).value];
    }
  }

  lemma ParseRangesPair(p: string, q: string)
    ensures ParseRanges([p, q]) == [ParseRange(p), ParseRange(q)]
  {
    var r := ParseRanges([p, q]);
    assert r[0] == ParseRange(p) && r[1] == ParseRange(q);
  }

  lemma KeepSomePair(x: Option<Interval>, y: Option<Interval>)
    requires x.Some? && y.Some?
    ensures KeepSome([x, y]) == [x.value, y.value]
  {
    assert [x, y][..1] == [x];
    assert [x][..0] == [];
  }

  /** A piece that parses, alone, is kept. */
  lemma KeepParsedOne(p: string)
    requires ParseRange(p).Some?
    ensures KeepParsed([p]) == [ParseRange(p).value]
  {
    var x := ParseRange(p);
    assert ParseRanges([p]) == [x] by {
      assert ParseRanges([p])[0] == x;
    }
    assert [x][..0] == [];
  }

  /** A single range with no comma reads back as its interval. */
  lemma RangeTimeOpen(a: nat, b: nat)
    requires a < MinutesPerDay && b < MinutesPerDay
    ensures TimeOpen(RangeText(a, b)) == [Interval(a, Closing(a, b))]
  {
    var p := RangeText(a, b);
    SplitOnNoSeparator(p, ',');
    RangeRoundTrip(a, b);
    KeepParsedOne(p);
  }

  lemma SplitAfterComma(x: string, y: string)
    requires AllTimeChars(x) && AllTimeChars(y) && ',' !in x && ',' !in y
    ensures AllTimeChars(x + ", " + y)
    ensures SplitOn(x + ", " + y, ',') == [x, " " + y]
  {
    assert x + ", " + y == x + [','] + (" " + y);
    SplitOnAtSeparator(x, ',', " " + y);
    SplitOnNoSeparator(x, ',');
    SplitOnNoSeparator(" " + y, ',');
  }

  lemma ParseRangeLeadingSpace(s: string)
    ensures ParseRange(" " + s) == ParseRange(s)
  {
    StripLeadingSpace(s);
  }


  /** `get_time_open`, as the source runs it: a scan of the characters, then a loop over the comma pieces. */
  method GetTimeOpen(timeRanges: string) returns (timeOpen: seq<Interval>)
    ensures timeOpen == TimeOpen(timeRanges)
  {
    for i := 0 to |timeRanges|
      invariant forall k :: 0 <= k < i ==> TimeChar(timeRanges[k])
    {
      if !TimeChar(timeRanges[i]) {
        return [];
      }
    }
    timeOpen := ReadRanges(SplitOn(timeRanges, ','));
  }

  /** The loop of `get_time_open` over the comma pieces: each piece that parses adds its interval. */
  method ReadRanges(pieces: seq<string>) returns (timeOpen: seq<Interval>)
    ensures timeOpen == KeepParsed(pieces)
  {
    ghost var results := ParseRanges(pieces);
    timeOpen := [];
    for j := 0 to |pieces|
      invariant timeOpen == KeepSome(results[..j])
    {
      var parsed := ParseRange(pieces[j]);
      assert results[j] == parsed;
      KeepSomePrefix(results, j);
      if parsed.Some? {
        timeOpen := timeOpen + [parsed.value];
      }
    }
    assert results[..|pieces|] == results;
  }
}
