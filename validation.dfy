/**
 * `validate_oh_string`: a lexical whitelist.  The cleaned string is cut at
 * every character of the class `[\s,:;-]` and every piece must be a weekday
 * code, `ph`, `off`, `24/7`, empty, or a number of one or two digits.
 */
module Validation {
  import opened Text
  import opened Week

  /** The class `[\s,:;-]` that `re.split` cuts at. */
  predicate IsWordSeparator(c: char) {
    IsSpace(c) || c == ',' || c == ':' || c == ';' || c == '-'
  }

  /** `re.split(r'[\s,:;-]', oh)` */
  function Words(oh: string): seq<string> {
    Split(oh, IsWordSeparator)
  }

  /** The pattern `^[0-9]?[0-9]$`. */
  predicate IsSmallNumber(w: string) {
    1 <= |w| <= 2 && AllDigits(w)
  }

  /** One word passes the whitelist. */
  predicate ValidWord(w: string) {
    w in Weekdays || w == "ph" || w == "off" || w == "24/7" || w == " " || w == "" || IsSmallNumber(w)
  }

  predicate ValidOh(oh: string) {
    forall w | w in Words(oh) :: ValidWord(w)
  }

  /** `validate_oh_string`: the loop over the words stops at the first one outside the whitelist. */
  method ValidateOhString(oh: string) returns (valid: bool)
    ensures valid <==> forall k :: 0 <= k < |Words(oh)| ==> ValidWord(Words(oh)[k])
    ensures valid <==> ValidOh(oh)
  {
    var words := Split(oh, IsWordSeparator);
    for i := 0 to |words|
      invariant forall k :: 0 <= k < i ==> ValidWord(words[k])
    {
      if !ValidWord(words[i]) {
        assert words[i] in Words(oh);
        return false;
      }
    }
    return true;
  }

  /** Two pieces joined at a separator are valid exactly when both pieces are. */
  lemma ValidAtSeparator(a: string, c: char, b: string)
    requires IsWordSeparator(c)
    ensures ValidOh(a + [c] + b) <==> ValidOh(a) && ValidOh(b)
  {
    SplitAtSeparator(a, c, b, IsWordSeparator);
  }

  /** Text without a separator is valid exactly when it is a whitelisted word. */
  lemma ValidSingleWord(w: string)
    requires forall i :: 0 <= i < |w| ==> !IsWordSeparator(w[i])
    ensures ValidOh(w) <==> ValidWord(w)
  {
    SplitNoSeparator(w, IsWordSeparator);
  }

  /** One word outside the whitelist, anywhere between separators, rejects the whole string. */
  lemma InvalidWordRejects(before: string, c1: char, w: string, c2: char, after: string)
    requires IsWordSeparator(c1) && IsWordSeparator(c2)
    requires forall i :: 0 <= i < |w| ==> !IsWordSeparator(w[i])
    requires !ValidWord(w)
    ensures !ValidOh(before + [c1] + w + [c2] + after)
  {
    ValidSingleWord(w);
    ValidAtSeparator(before + [c1] + w, c2, after);
    ValidAtSeparator(before, c1, w);
  }

  /** A number of three or more digits is not a whitelisted word. */
  lemma LongNumberRejects(before: string, c1: char, digits: string, c2: char, after: string)
    requires IsWordSeparator(c1) && IsWordSeparator(c2)
    requires |digits| >= 3 && AllDigits(digits)
    ensures !ValidOh(before + [c1] + digits + [c2] + after)
  {
    assert forall i :: 0 <= i < |digits| ==> IsDigit(digits[i]) && !IsWordSeparator(digits[i]);
    assert IsDigit(digits[0]) && IsDigit(digits[2]);
    assert !IsDigit("off"[0]) && !IsDigit("24/7"[2]);
    InvalidWordRejects(before, c1, digits, c2, after);
  }

  /** A German unit in the hours is rejected. */
  lemma GermanHoursRejected()
    ensures !ValidOh("mo-fr 9uhr-17uhr")
  {
    assert "mo-fr 9uhr-17uhr" == "mo-fr" + [' '] + "9uhr" + ['-'] + "17uhr";
    InvalidWordRejects("mo-fr", ' ', "9uhr", '-', "17uhr");
  }

  /** The characters a whitelisted word can be made of. */
  predicate WordChar(c: char) {
    IsDigit(c) || c == '/' || c == ' ' || c in "motuwehfrsap"
  }

  /** A valid string uses only separators, digits, `/` and the letters of the whitelisted words. */
  lemma ValidAlphabet(oh: string)
    requires ValidOh(oh)
    ensures forall i :: 0 <= i < |oh| ==> IsWordSeparator(oh[i]) || WordChar(oh[i])
  {
    forall i | 0 <= i < |oh| && !IsWordSeparator(oh[i])
      ensures WordChar(oh[i])
    {
      var w, j := SplitCovers(oh, IsWordSeparator, i);
      assert ValidWord(w);
      assert w[j] in w;
    }
  }

  /** Every character that is not a separator lies in some piece of the split. */
  lemma {:induction false} SplitCovers(s: string, isSep: char -> bool, i: nat) returns (w: string, j: nat)
    requires i < |s| && !isSep(s[i])
    ensures w in Split(s, isSep) && j < |w| && w[j] == s[i]
    decreases |s|
  {
    var rest := Split(s[1..], isSep);
    if i == 0 {
      w, j := [s[0]] + rest[0], 0;
    } else {
      var w', j' := SplitCovers(s[1..], isSep, i - 1);
      if isSep(s[0]) || w' != rest[0] {
        w, j := w', j';
        assert w' in rest;
        if !isSep(s[0]) {
          var k :| 0 <= k < |rest| && rest[k] == w';
          assert k != 0;
          assert w' == rest[1..][k - 1];
        }
      } else {
        w, j := [s[0]] + rest[0], j' + 1;
      }
    }
  }
}
