/**
 * What the main loop writes for one opening-hours string: the cleaned string,
 * `invalid`, or `valid` with `open`, `closed` or a blank status and the parse
 * result.  A `ValueError` that escapes from the parse or from the query time
 * stops the program; that row is `Aborted` here.
 */
module Rows {
  import opened Wrappers
  import opened Text
  import opened Week
  import opened Times
  import opened Cleaning
  import opened Validation
  import opened Parsing
  import opened Reference
  import opened Evaluation

  datatype Status = Open | Closed | Blank

  datatype RowOutcome =
    | InvalidRow(clean: string)
    | ValidRow(clean: string, status: Status, listing: ParseOutcome)
    | Aborted

  /** The row for `oh` at the query day and time. */
  function Row(oh: string, day: string, time: string): (r: RowOutcome)
    ensures !r.Aborted? ==> r.clean == CleanOhString(oh)
  {
    RowOfClean(CleanOhString(oh), day, time)
  }

  /** The row once the string is cleaned: the cleaned string is what the row records. */
  function RowOfClean(clean: string, day: string, time: string): (r: RowOutcome)
    ensures !r.Aborted? ==> r.clean == clean
    ensures r.ValidRow? && r.status != Blank ==> ValidOh(clean) && r.listing == Parse(clean) && r.listing.Parsed? && r.listing.rules != []
  {
    if !ValidOh(clean) then InvalidRow(clean)
    else
      match Parse(clean)
      case Raised(_) => Aborted
      case NotOk => ValidRow(clean, Blank, NotOk)
      case Parsed(rules) =>
        if rules == [] then ValidRow(clean, Blank, Parsed(rules))
        else
          match ParseClock(time)
          case None => Aborted
          case Some(t) => ValidRow(clean, if IsOpenAt(rules, Lower(day), t) then Open else Closed, Parsed(rules))
  }

  /** The body of the main loop for one string, built from the operations it calls. */
  method EvaluateRow(oh: string, day: string, time: string) returns (row: RowOutcome)
    ensures row == Row(oh, day, time)
  {
    var clean := CleanOhString(oh);
    var valid := ValidateOhString(clean);
    if !valid {
      return InvalidRow(clean);
    }
    var outcome := ParseOhString(clean);
    match outcome
    case Raised(_) =>
      return Aborted;
    case NotOk =>
      return ValidRow(clean, Blank, NotOk);
    case Parsed(rules) =>
      if rules == [] {
        return ValidRow(clean, Blank, outcome);
      }
      var open := CheckIfOpen(rules, day, time);
      match open
      case None =>
        return Aborted;
      case Some(isOpen) =>
        return ValidRow(clean, if isOpen then Open else Closed, outcome);
  }

  /** A row written out holds the cleaned string, which is in normal form and keeps the text of the input. */
  lemma RowRecordsCleanString(oh: string, day: string, time: string)
    requires !Row(oh, day, time).Aborted?
    ensures Row(oh, day, time).clean == CleanOhString(oh)
    ensures Normal(Row(oh, day, time).clean)
    ensures NonSpace(Row(oh, day, time).clean) == Lower(NonSpace(oh))
  {
    assert Row(oh, day, time) == RowOfClean(CleanOhString(oh), day, time);
    CleanIsNormal(oh);
    CleanKeepsText(oh);
  }

  /** Feeding the cleaned string back in gives the same row. */
  lemma RowOfCleanString(oh: string, day: string, time: string)
    ensures Row(CleanOhString(oh), day, time) == Row(oh, day, time)
  {
    CleanIdempotent(oh);
  }

  /** `24/7`, and any string that cleans to it, is valid and open at every time of day on the seven weekday codes, whatever their case. */
  lemma RowAllWeek(oh: string, day: string, time: string)
    requires CleanOhString(oh) == "24/7" && ParseClock(time).Some?
    ensures Row(oh, day, time)
      == ValidRow("24/7", if Lower(day) in Weekdays then Open else Closed, Parsed([AllWeek]))
  {
    var clean := CleanOhString(oh);
    AllWeekRow(clean, day, time);
  }

  lemma AllWeekRow(clean: string, day: string, time: string)
    requires clean == "24/7" && ParseClock(time).Some?
    ensures RowOfClean(clean, day, time)
      == ValidRow("24/7", if Lower(day) in Weekdays then Open else Closed, Parsed([AllWeek]))
  {
    assert ValidOh(clean) by {
      assert forall i :: 0 <= i < |clean| ==> !IsWordSeparator(clean[i]);
      ValidSingleWord(clean);
    }
    assert Parse(clean) == Parsed([AllWeek]);
    RowOfParsed(clean, day, time, [AllWeek]);
    AllWeekOpen(Lower(day), ParseClock(time).value);
  }

  /** A valid string that parses to some rules gets the status of those rules at the query time. */
  lemma RowOfParsed(clean: string, day: string, time: string, rules: seq<Rule>)
    requires ValidOh(clean) && Parse(clean) == Parsed(rules) && rules != [] && ParseClock(time).Some?
    ensures RowOfClean(clean, day, time)
      == ValidRow(clean, if IsOpenAt(rules, Lower(day), ParseClock(time).value) then Open else Closed, Parsed(rules))
  {
  }

  /** `24/7` is already clean. */
  lemma AllWeekIsClean()
    ensures CleanOhString("24/7") == "24/7"
  {
    NormalIsClean("24/7");
  }

  /** A cleaned string that ends in `;` never yields a status: the row is blank or the program stops. */
  lemma RowTrailingSemicolon(oh: string, day: string, time: string)
    requires var clean := CleanOhString(oh); clean != [] && clean[|clean| - 1] == ';'
    ensures Row(oh, day, time).Aborted? || Row(oh, day, time).InvalidRow?
      || (Row(oh, day, time).status == Blank && !Row(oh, day, time).listing.Parsed?)
  {
    TrailingSemicolonUnparsed(CleanOhString(oh));
    RowOfUnparsed(CleanOhString(oh), day, time);
  }

  lemma TrailingSemicolonUnparsed(clean: string)
    requires clean != [] && clean[|clean| - 1] == ';'
    ensures !Parse(clean).Parsed?
  {
    assert clean == clean[..|clean| - 1] + ";";
    TrailingSemicolonFails(clean[..|clean| - 1]);
  }

  /** A string that does not parse gets no status. */
  lemma RowOfUnparsed(clean: string, day: string, time: string)
    requires !Parse(clean).Parsed?
    ensures var r := RowOfClean(clean, day, time);
      r.Aborted? || r.InvalidRow? || (r.status == Blank && !r.listing.Parsed?)
  {
  }

  /** On a valid query time, a row is open exactly when the parsed schedule is open at that day and time. */
  lemma RowOpen(oh: string, day: string, time: string)
    requires ParseClock(time).Some?
    ensures (Row(oh, day, time).ValidRow? && Row(oh, day, time).status == Open)
      <==> (ValidOh(CleanOhString(oh)) && Parse(CleanOhString(oh)).Parsed?
        && IsOpenAt(Parse(CleanOhString(oh)).rules, Lower(day), ParseClock(time).value))
  {
    OpenRowOfClean(CleanOhString(oh), day, time);
  }

  lemma OpenRowOfClean(clean: string, day: string, time: string)
    requires ParseClock(time).Some?
    ensures (RowOfClean(clean, day, time).ValidRow? && RowOfClean(clean, day, time).status == Open)
      <==> (ValidOh(clean) && Parse(clean).Parsed? && IsOpenAt(Parse(clean).rules, Lower(day), ParseClock(time).value))
  {
  }
}
