/**
 * `clean_oh_string`: the chain of substitutions that normalises an opening-hours
 * string before it is validated and parsed.  Each `re.sub` of the source is a
 * function here that deletes exactly the characters the substitution deletes.
 */
module Cleaning {
  import opened Text

  /** A pair of neighbouring characters that a cleaned string never holds. */
  datatype Pair = Adjacent(left: char, right: char) | SpaceBeside(sep: char)

  predicate Bad(k: Pair, a: char, b: char) {
    match k
    case Adjacent(x, y) => a == x && b == y
    case SpaceBeside(c) => (IsSpace(a) && b == c) || (a == c && IsSpace(b))
  }

  /** Position `i` of `s` starts a pair of kind `k`. */
  ghost predicate BadAt(s: string, k: Pair, i: int) {
    0 <= i < |s| - 1 && Bad(k, s[i], s[i + 1])
  }

  ghost predicate Avoids(s: string, k: Pair) {
    forall i :: !BadAt(s, k, i)
  }

  /** What the source promises of its output. */
  ghost predicate Normal(s: string) {
    (s == [] || (!IsSpace(s[0]) && !IsSpace(s[|s| - 1])))
    && Avoids(s, Adjacent(' ', ' '))
    && Avoids(s, Adjacent(' ', ','))
    && Avoids(s, Adjacent(' ', ';'))
    && Avoids(s, SpaceBeside('-'))
    && Avoids(s, SpaceBeside(':'))
    && forall i :: 0 <= i < |s| ==> !IsUpperAscii(s[i])
  }

  /** `re.sub(' +', ' ', s)`: each run of spaces becomes a single space. */
  function SquashSpaces(s: string): (r: string)
    ensures |r| <= |s|
    ensures s != [] ==> r != [] && r[0] == s[0] && r[|r| - 1] == s[|s| - 1]
  {
    if s == [] then []
    else if |s| > 1 && s[0] == ' ' && s[1] == ' ' then SquashSpaces(s[1..])
    else [s[0]] + SquashSpaces(s[1..])
  }

  /** `re.sub(' ,', ',', s)` and `re.sub(' ;', ';', s)`: a space just before `c` goes. */
  function DropSpaceBefore(s: string, c: char): (r: string)
    requires c != ' '
    ensures |r| <= |s|
    ensures s != [] ==> r != [] && r[|r| - 1] == s[|s| - 1]
    ensures s != [] && s[0] != ' ' ==> r[0] == s[0]
  {
    if s == [] then []
    else if |s| > 1 && s[0] == ' ' && s[1] == c then DropSpaceBefore(s[1..], c)
    else [s[0]] + DropSpaceBefore(s[1..], c)
  }

  /** The whitespace run that `s` starts with (possibly empty) ends at `sep`. */
  predicate RunMeets(s: string, sep: char) {
    var n := LeadingSpaces(s);
    n < |s| && s[n] == sep
  }

  /**
   * `re.sub('\s*-\s*', '-', s)` and `re.sub('\s*:\s*', ':', s)`: every run of
   * whitespace that touches `sep` is deleted.  `afterSep` says that the last
   * character kept was `sep`.
   */
  function SquashAround(s: string, sep: char, afterSep: bool): (r: string)
    requires !IsSpace(sep)
    ensures |r| <= |s|
    ensures s != [] && !IsSpace(s[|s| - 1]) ==> r != [] && r[|r| - 1] == s[|s| - 1]
    ensures s != [] && !IsSpace(s[0]) ==> r != [] && r[0] == s[0]
    decreases |s|
  {
    if s == [] then []
    else if IsSpace(s[0]) && (afterSep || RunMeets(s, sep)) then SquashAround(s[1..], sep, afterSep)
    else [s[0]] + SquashAround(s[1..], sep, s[0] == sep)
  }

  /** `clean_oh_string`: every step only deletes characters or lowercases them, so the text never grows. */
  function CleanOhString(oh: string): (r: string)
    ensures |r| <= |oh|
  {
    var stripped := Strip(oh);
    var squashed := SquashSpaces(stripped);
    var commas := DropSpaceBefore(squashed, ',');
    var semicolons := DropSpaceBefore(commas, ';');
    var dashes := SquashAround(semicolons, '-', false);
    var colons := SquashAround(dashes, ':', false);
    Lower(colons)
  }

  // ---------------------------------------------------------------------------
  // What the output looks like

  /** Cleaning only deletes whitespace and lowercases: the other characters survive, in order. */
  lemma CleanKeepsText(oh: string)
    ensures NonSpace(CleanOhString(oh)) == Lower(NonSpace(oh))
  {
    var stripped := Strip(oh);
    var squashed := SquashSpaces(stripped);
    var commas := DropSpaceBefore(squashed, ',');
    var semicolons := DropSpaceBefore(commas, ';');
    var dashes := SquashAround(semicolons, '-', false);
    var colons := SquashAround(dashes, ':', false);
    StripKeepsText(oh);
    SquashSpacesKeepsText(stripped);
    DropSpaceBeforeKeepsText(squashed, ',');
    DropSpaceBeforeKeepsText(commas, ';');
    SquashAroundKeepsText(semicolons, '-', false);
    SquashAroundKeepsText(dashes, ':', false);
    NonSpaceLower(colons);
  }

  /** Each substitution deletes whitespace only. */
  lemma {:induction false} SquashSpacesKeepsText(s: string)
    ensures NonSpace(SquashSpaces(s)) == NonSpace(s)
    decreases |s|
  {
    if s != [] {
      SquashSpacesKeepsText(s[1..]);
      if !(|s| > 1 && s[0] == ' ' && s[1] == ' ') {
        NonSpaceCons(s[0], SquashSpaces(s[1..]));
      }
    }
  }

  lemma {:induction false} DropSpaceBeforeKeepsText(s: string, c: char)
    requires c != ' '
    ensures NonSpace(DropSpaceBefore(s, c)) == NonSpace(s)
    decreases |s|
  {
    if s != [] {
      DropSpaceBeforeKeepsText(s[1..], c);
      if !(|s| > 1 && s[0] == ' ' && s[1] == c) {
        NonSpaceCons(s[0], DropSpaceBefore(s[1..], c));
      }
    }
  }

  lemma {:induction false} SquashAroundKeepsText(s: string, sep: char, afterSep: bool)
    requires !IsSpace(sep)
    ensures NonSpace(SquashAround(s, sep, afterSep)) == NonSpace(s)
    decreases |s|
  {
    if s != [] {
      if IsSpace(s[0]) && (afterSep || RunMeets(s, sep)) {
        SquashAroundKeepsText(s[1..], sep, afterSep);
      } else {
        SquashAroundKeepsText(s[1..], sep, s[0] == sep);
        NonSpaceCons(s[0], SquashAround(s[1..], sep, s[0] == sep));
      }
    }
  }

  lemma NonSpaceCons(c: char, s: string)
    ensures NonSpace([c] + s) == (if IsSpace(c) then [] else [c]) + NonSpace(s)
  {
    assert ([c] + s)[1..] == s;
  }

  /**
   * The cleaned string has no whitespace at its ends, no two spaces in a row,
   * no space before `,` or `;`, no whitespace on either side of `-` or `:`,
   * and no upper-case letter.
   */
  lemma CleanIsNormal(oh: string)
    ensures Normal(CleanOhString(oh))
  {
    var squashed := SquashSpaces(Strip(oh));
    SquashedStage(oh);
    var semicolons := DropSpaceBefore(DropSpaceBefore(squashed, ','), ';');
    PunctuationStage(squashed);
    var colons := SquashAround(SquashAround(semicolons, '-', false), ':', false);
    SeparatorStage(semicolons);
    LowerStage(colons);
  }

  /** Cleaning a cleaned string changes nothing. */
  lemma CleanIdempotent(oh: string)
    ensures CleanOhString(CleanOhString(oh)) == CleanOhString(oh)
  {
    CleanIsNormal(oh);
    NormalIsClean(CleanOhString(oh));
  }

  ghost predicate SolidEnds(s: string) {
    s == [] || (!IsSpace(s[0]) && !IsSpace(s[|s| - 1]))
  }

  lemma SquashedStage(oh: string)
    ensures SolidEnds(SquashSpaces(Strip(oh)))
    ensures Avoids(SquashSpaces(Strip(oh)), Adjacent(' ', ' '))
  {
    var squashed := SquashSpaces(Strip(oh));
    assert [] + squashed == squashed;
    SquashSpacesNoDouble([], Strip(oh));
  }

  lemma PunctuationStage(s: string)
    requires SolidEnds(s) && Avoids(s, Adjacent(' ', ' '))
    ensures var r := DropSpaceBefore(DropSpaceBefore(s, ','), ';');
      SolidEnds(r) && Avoids(r, Adjacent(' ', ' ')) && Avoids(r, Adjacent(' ', ','))
      && Avoids(r, Adjacent(' ', ';'))
  {
    DropStep(s, ',', ' ');
    DropStep(DropSpaceBefore(s, ','), ';', ',');
  }

  lemma DropStep(s: string, c: char, y: char)
    requires c != ' ' && y != c
    requires SolidEnds(s) && Avoids(s, Adjacent(' ', ' ')) && Avoids(s, Adjacent(' ', y))
    ensures var r := DropSpaceBefore(s, c);
      SolidEnds(r) && Avoids(r, Adjacent(' ', ' ')) && Avoids(r, Adjacent(' ', c))
      && Avoids(r, Adjacent(' ', y))
  {
    var r := DropSpaceBefore(s, c);
    assert [] + s == s;
    assert [] + r == r;
    DropSpaceBeforeEstablishes([], s, c);
    DropSpaceBeforePreserves([], s, c, ' ');
    DropSpaceBeforePreserves([], s, c, y);
  }

  lemma SeparatorStage(s: string)
    requires SolidEnds(s) && Avoids(s, Adjacent(' ', ' ')) && Avoids(s, Adjacent(' ', ','))
      && Avoids(s, Adjacent(' ', ';'))
    ensures var r := SquashAround(SquashAround(s, '-', false), ':', false);
      SolidEnds(r) && Avoids(r, Adjacent(' ', ' ')) && Avoids(r, Adjacent(' ', ','))
      && Avoids(r, Adjacent(' ', ';')) && Avoids(r, SpaceBeside('-')) && Avoids(r, SpaceBeside(':'))
  {
    AroundStep(s, '-', Adjacent(' ', ' '));
    AroundStep(SquashAround(s, '-', false), ':', SpaceBeside('-'));
  }

  lemma AroundStep(s: string, sep: char, k: Pair)
    requires !IsSpace(sep) && (k.Adjacent? ==> k.left == ' ')
    requires SolidEnds(s) && Avoids(s, Adjacent(' ', ' ')) && Avoids(s, Adjacent(' ', ','))
      && Avoids(s, Adjacent(' ', ';')) && Avoids(s, k)
    ensures var r := SquashAround(s, sep, false);
      SolidEnds(r) && Avoids(r, Adjacent(' ', ' ')) && Avoids(r, Adjacent(' ', ','))
      && Avoids(r, Adjacent(' ', ';')) && Avoids(r, SpaceBeside(sep)) && Avoids(r, k)
  {
    AroundEstablishes(s, sep);
    AroundPreserves(s, sep, Adjacent(' ', ' '));
    AroundPreserves(s, sep, Adjacent(' ', ','));
    AroundPreserves(s, sep, Adjacent(' ', ';'));
    AroundPreserves(s, sep, k);
  }

  lemma AroundEstablishes(s: string, sep: char)
    requires !IsSpace(sep)
    ensures Avoids(SquashAround(s, sep, false), SpaceBeside(sep))
  {
    var r := SquashAround(s, sep, false);
    assert [] + s == s;
    assert [] + r == r;
    SquashAroundEstablishes([], s, sep, false);
  }

  lemma AroundPreserves(s: string, sep: char, k: Pair)
    requires !IsSpace(sep) && (k.Adjacent? ==> k.left == ' ')
    requires Avoids(s, k)
    ensures Avoids(SquashAround(s, sep, false), k)
  {
    var r := SquashAround(s, sep, false);
    assert [] + s == s;
    assert [] + r == r;
    SquashAroundPreserves([], s, sep, false, k);
  }

  lemma LowerStage(s: string)
    requires SolidEnds(s) && Avoids(s, Adjacent(' ', ' ')) && Avoids(s, Adjacent(' ', ','))
      && Avoids(s, Adjacent(' ', ';')) && Avoids(s, SpaceBeside('-')) && Avoids(s, SpaceBeside(':'))
    ensures Normal(Lower(s))
  {
    LowerKeepsAvoiding(s, Adjacent(' ', ' '));
    LowerKeepsAvoiding(s, Adjacent(' ', ','));
    LowerKeepsAvoiding(s, Adjacent(' ', ';'));
    LowerKeepsAvoiding(s, SpaceBeside('-'));
    LowerKeepsAvoiding(s, SpaceBeside(':'));
  }

  /** A string in normal form is its own cleaning. */
  lemma NormalIsClean(c: string)
    requires Normal(c)
    ensures CleanOhString(c) == c
  {
    calc {
      CleanOhString(c);
      Lower(SquashAround(SquashAround(DropSpaceBefore(DropSpaceBefore(SquashSpaces(Strip(c)), ','), ';'), '-', false), ':', false));
      { assert Strip(c) == c; SquashSpacesIdentity(c); }
      Lower(SquashAround(SquashAround(DropSpaceBefore(DropSpaceBefore(c, ','), ';'), '-', false), ':', false));
      { DropSpaceBeforeIdentity(c, ','); DropSpaceBeforeIdentity(c, ';'); }
      Lower(SquashAround(SquashAround(c, '-', false), ':', false));
      { SquashAroundIdentity(c, '-', false); SquashAroundIdentity(c, ':', false); }
      Lower(c);
      { LowerIdentity(c); }
      c;
    }
  }

  lemma LowerIdentity(s: string)
    requires forall i :: 0 <= i < |s| ==> !IsUpperAscii(s[i])
    ensures Lower(s) == s
  {
  }

  // ---------------------------------------------------------------------------
  // Neighbours in a string, looked at from a previous character `prev`

  lemma AvoidsCons(prev: string, t: string, k: Pair)
    requires |prev| <= 1
    ensures Avoids(prev + t, k) <==> (prev == [] || t == [] || !Bad(k, prev[0], t[0])) && Avoids(t, k)
  {
    var s := prev + t;
    if prev == [] {
      assert s == t;
    } else {
      assert forall i :: 1 <= i < |s| ==> s[i] == t[i - 1];
      if Avoids(s, k) {
        if t != [] {
          assert s[0] == prev[0] && s[1] == t[0];
          assert !BadAt(s, k, 0);
        }
        forall i ensures !BadAt(t, k, i) {
          if 0 <= i < |t| - 1 {
            assert s[i + 1] == t[i] && s[i + 2] == t[i + 1];
            assert !BadAt(s, k, i + 1);
          }
        }
      }
      if (t == [] || !Bad(k, prev[0], t[0])) && Avoids(t, k) {
        forall i ensures !BadAt(s, k, i) {
          if 0 < i < |s| - 1 {
            assert s[i] == t[i - 1] && s[i + 1] == t[i];
            assert !BadAt(t, k, i - 1);
          }
        }
      }
    }
  }

  lemma AvoidsTail(s: string, k: Pair)
    requires s != [] && Avoids(s, k)
    ensures Avoids(s[1..], k)
  {
    assert s == [s[0]] + s[1..];
    AvoidsCons([s[0]], s[1..], k);
  }

  lemma {:induction false} SquashSpacesNoDouble(prev: string, s: string)
    requires |prev| <= 1
    requires prev == [' '] ==> s == [] || s[0] != ' '
    ensures Avoids(prev + SquashSpaces(s), Adjacent(' ', ' '))
    decreases |s|
  {
    if s == [] {
      assert prev + SquashSpaces(s) == prev;
    } else if |s| > 1 && s[0] == ' ' && s[1] == ' ' {
      SquashSpacesNoDouble(prev, s[1..]);
    } else {
      var rest := SquashSpaces(s[1..]);
      SquashSpacesNoDouble([s[0]], s[1..]);
      AvoidsCons(prev, [s[0]] + rest, Adjacent(' ', ' '));
    }
  }

  lemma {:induction false} DropSpaceBeforeEstablishes(prev: string, s: string, c: char)
    requires c != ' ' && |prev| <= 1
    requires Avoids(prev + s, Adjacent(' ', ' '))
    requires prev == [' '] ==> s == [] || s[0] != c
    ensures Avoids(prev + DropSpaceBefore(s, c), Adjacent(' ', c))
    decreases |s|
  {
    if s == [] {
      assert prev + DropSpaceBefore(s, c) == prev;
    } else {
      AvoidsCons(prev, s, Adjacent(' ', ' '));
      AvoidsTail(s, Adjacent(' ', ' '));
      if |s| > 1 && s[0] == ' ' && s[1] == c {
        AvoidsCons(prev, s[1..], Adjacent(' ', ' '));
        DropSpaceBeforeEstablishes(prev, s[1..], c);
      } else {
        var rest := DropSpaceBefore(s[1..], c);
        assert [s[0]] + s[1..] == s;
        DropSpaceBeforeEstablishes([s[0]], s[1..], c);
        AvoidsCons(prev, [s[0]] + rest, Adjacent(' ', c));
      }
    }
  }

  lemma {:induction false} DropSpaceBeforePreserves(prev: string, s: string, c: char, y: char)
    requires c != ' ' && y != c && |prev| <= 1
    requires Avoids(prev + s, Adjacent(' ', y))
    ensures Avoids(prev + DropSpaceBefore(s, c), Adjacent(' ', y))
    decreases |s|
  {
    if s == [] {
      assert prev + DropSpaceBefore(s, c) == prev;
    } else {
      AvoidsCons(prev, s, Adjacent(' ', y));
      AvoidsTail(s, Adjacent(' ', y));
      if |s| > 1 && s[0] == ' ' && s[1] == c {
        AvoidsCons(prev, s[1..], Adjacent(' ', y));
        DropSpaceBeforePreserves(prev, s[1..], c, y);
      } else {
        var rest := DropSpaceBefore(s[1..], c);
        assert [s[0]] + s[1..] == s;
        DropSpaceBeforePreserves([s[0]], s[1..], c, y);
        AvoidsCons(prev, [s[0]] + rest, Adjacent(' ', y));
      }
    }
  }

  /** What `SquashAround` knows about the last character it kept. */
  ghost predicate AroundState(prev: string, s: string, sep: char, afterSep: bool) {
    |prev| <= 1
    && (afterSep <==> prev == [sep])
    && (prev != [] && IsSpace(prev[0]) ==> !RunMeets(s, sep))
  }

  lemma RunMeetsTail(s: string, sep: char)
    requires s != [] && IsSpace(s[0])
    ensures RunMeets(s, sep) == RunMeets(s[1..], sep)
  {
  }

  lemma {:induction false} SquashAroundEstablishes(prev: string, s: string, sep: char, afterSep: bool)
    requires !IsSpace(sep) && AroundState(prev, s, sep, afterSep)
    ensures Avoids(prev + SquashAround(s, sep, afterSep), SpaceBeside(sep))
    decreases |s|
  {
    if s == [] {
      assert prev + SquashAround(s, sep, afterSep) == prev;
    } else if IsSpace(s[0]) && (afterSep || RunMeets(s, sep)) {
      SquashAroundEstablishes(prev, s[1..], sep, afterSep);
    } else {
      var rest := SquashAround(s[1..], sep, s[0] == sep);
      if IsSpace(s[0]) {
        RunMeetsTail(s, sep);
      }
      SquashAroundEstablishes([s[0]], s[1..], sep, s[0] == sep);
      AvoidsCons(prev, [s[0]] + rest, SpaceBeside(sep));
    }
  }

  lemma {:induction false} SquashAroundPreserves(prev: string, s: string, sep: char, afterSep: bool, k: Pair)
    requires !IsSpace(sep) && AroundState(prev, s, sep, afterSep)
    requires k.Adjacent? ==> k.left == ' '
    requires Avoids(prev + s, k)
    ensures Avoids(prev + SquashAround(s, sep, afterSep), k)
    decreases |s|
  {
    if s == [] {
      assert prev + SquashAround(s, sep, afterSep) == prev;
    } else {
      AvoidsCons(prev, s, k);
      AvoidsTail(s, k);
      if IsSpace(s[0]) && (afterSep || RunMeets(s, sep)) {
        AvoidsCons(prev, s[1..], k);
        SquashAroundPreserves(prev, s[1..], sep, afterSep, k);
      } else {
        var rest := SquashAround(s[1..], sep, s[0] == sep);
        if IsSpace(s[0]) {
          RunMeetsTail(s, sep);
        }
        assert [s[0]] + s[1..] == s;
        SquashAroundPreserves([s[0]], s[1..], sep, s[0] == sep, k);
        AvoidsCons(prev, [s[0]] + rest, k);
      }
    }
  }

  lemma LowerKeepsAvoiding(s: string, k: Pair)
    requires match k
      case Adjacent(x, y) => !IsUpperAscii(x) && !IsLowerAscii(x) && !IsUpperAscii(y) && !IsLowerAscii(y)
      case SpaceBeside(c) => !IsUpperAscii(c) && !IsLowerAscii(c)
    requires Avoids(s, k)
    ensures Avoids(Lower(s), k)
  {
    var l := Lower(s);
    forall i ensures !BadAt(l, k, i) {
      assert !BadAt(s, k, i);
    }
  }

  // ---------------------------------------------------------------------------
  // On a cleaned string every step changes nothing

  lemma {:induction false} SquashSpacesIdentity(s: string)
    requires Avoids(s, Adjacent(' ', ' '))
    ensures SquashSpaces(s) == s
    decreases |s|
  {
    if s != [] {
      assert !BadAt(s, Adjacent(' ', ' '), 0);
      AvoidsTail(s, Adjacent(' ', ' '));
      SquashSpacesIdentity(s[1..]);
      assert [s[0]] + s[1..] == s;
    }
  }

  lemma {:induction false} DropSpaceBeforeIdentity(s: string, c: char)
    requires c != ' ' && Avoids(s, Adjacent(' ', c))
    ensures DropSpaceBefore(s, c) == s
    decreases |s|
  {
    if s != [] {
      assert !BadAt(s, Adjacent(' ', c), 0);
      AvoidsTail(s, Adjacent(' ', c));
      DropSpaceBeforeIdentity(s[1..], c);
      assert [s[0]] + s[1..] == s;
    }
  }

  lemma {:induction false} SquashAroundIdentity(s: string, sep: char, afterSep: bool)
    requires !IsSpace(sep) && Avoids(s, SpaceBeside(sep))
    requires afterSep ==> s == [] || !IsSpace(s[0])
    ensures SquashAround(s, sep, afterSep) == s
    decreases |s|
  {
    if s != [] {
      if IsSpace(s[0]) && RunMeets(s, sep) {
        var n := LeadingSpaces(s);
        assert BadAt(s, SpaceBeside(sep), n - 1);
        assert false;
      }
      AvoidsTail(s, SpaceBeside(sep));
      assert !BadAt(s, SpaceBeside(sep), 0);
      SquashAroundIdentity(s[1..], sep, s[0] == sep);
    }
  }
}
