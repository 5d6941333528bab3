/**
 * The pieces of Python's string library that the opening-hours code leans on:
 * `str.isspace` (what `strip()` removes and what `\s` matches), `str.lower`,
 * `str.strip`, `str.split` / `re.split`, `str.index` / `in`, and decimal digits.
 */
module Text {
  import opened Wrappers

  /** Python's `str.isspace()`: the characters `strip()` removes and `\s` matches. */
  predicate IsSpace(c: char) {
    var n := c as int;
    9 <= n <= 13 || 0x1C <= n <= 0x20 || n == 0x85 || n == 0xA0 || n == 0x1680
    || 0x2000 <= n <= 0x200A || n == 0x2028 || n == 0x2029 || n == 0x202F
    || n == 0x205F || n == 0x3000
  }

  /** The regex class `[0-9]`. */
  predicate IsDigit(c: char) {
    '0' <= c <= '9'
  }

  /** The regex class `[a-z]`. */
  predicate IsLowerAscii(c: char) {
    'a' <= c <= 'z'
  }

  predicate IsUpperAscii(c: char) {
    'A' <= c <= 'Z'
  }

  function LowerChar(c: char): (r: char)
    ensures !IsUpperAscii(r)
    ensures IsSpace(r) == IsSpace(c)
    ensures !IsLowerAscii(c) && !IsUpperAscii(c) ==> r == c
    ensures IsLowerAscii(r) == (IsLowerAscii(c) || IsUpperAscii(c))
  {
    if IsUpperAscii(c) then (c as int + 32) as char else c
  }

  /** `str.lower()`, restricted to the ASCII letters. */
  function Lower(s: string): string {
    seq(|s|, i requires 0 <= i < |s| => LowerChar(s[i]))
  }

  /** The non-whitespace characters of `s`, in order. */
  function NonSpace(s: string): (r: string)
    ensures |r| <= |s|
  {
    if s == [] then []
    else if IsSpace(s[0]) then NonSpace(s[1..])
    else [s[0]] + NonSpace(s[1..])
  }

  lemma {:induction false} NonSpaceAppend(a: string, b: string)
    ensures NonSpace(a + b) == NonSpace(a) + NonSpace(b)
    decreases |a|
  {
    if a == [] {
      assert a + b == b;
    } else {
      assert (a + b)[0] == a[0];
      assert (a + b)[1..] == a[1..] + b;
      NonSpaceAppend(a[1..], b);
    }
  }

  lemma {:induction false} NonSpaceLower(s: string)
    ensures NonSpace(Lower(s)) == Lower(NonSpace(s))
    decreases |s|
  {
    if s != [] {
      assert Lower(s)[0] == LowerChar(s[0]);
      assert Lower(s)[1..] == Lower(s[1..]);
      NonSpaceLower(s[1..]);
      if !IsSpace(s[0]) {
        assert Lower([s[0]] + NonSpace(s[1..])) == [LowerChar(s[0])] + Lower(NonSpace(s[1..]));
      }
    }
  }

  /** Length of the run of whitespace that `s` starts with. */
  function LeadingSpaces(s: string): (n: nat)
    ensures n <= |s|
    ensures forall i :: 0 <= i < n ==> IsSpace(s[i])
    ensures n < |s| ==> !IsSpace(s[n])
  {
    if s != [] && IsSpace(s[0]) then 1 + LeadingSpaces(s[1..]) else 0
  }

  /** `str.lstrip()` */
  function TrimLeft(s: string): (r: string)
    ensures |r| <= |s| && r == s[|s| - |r|..]
    ensures r == [] || !IsSpace(r[0])
  {
    if s != [] && IsSpace(s[0]) then TrimLeft(s[1..]) else s
  }

  /** `str.rstrip()` */
  function TrimRight(s: string): (r: string)
    ensures |r| <= |s| && r == s[..|r|]
    ensures r == [] || !IsSpace(r[|r| - 1])
  {
    if s != [] && IsSpace(s[|s| - 1]) then TrimRight(s[..|s| - 1]) else s
  }

  /** `str.strip()`: what is left has no whitespace at either end, and only whitespace was cut off. */
  function Strip(s: string): (r: string)
    ensures r == [] || (!IsSpace(r[0]) && !IsSpace(r[|r| - 1]))
    ensures (s == [] || (!IsSpace(s[0]) && !IsSpace(s[|s| - 1]))) ==> r == s
  {
    TrimRight(TrimLeft(s))
  }

  /** Stripping removes whitespace only. */
  lemma StripKeepsText(s: string)
    ensures NonSpace(Strip(s)) == NonSpace(s)
  {
    TrimLeftKeepsText(s);
    TrimRightKeepsText(TrimLeft(s));
  }

  lemma {:induction false} TrimLeftKeepsText(s: string)
    ensures NonSpace(TrimLeft(s)) == NonSpace(s)
    decreases |s|
  {
    if s != [] && IsSpace(s[0]) {
      TrimLeftKeepsText(s[1..]);
    }
  }

  lemma {:induction false} TrimRightKeepsText(s: string)
    ensures NonSpace(TrimRight(s)) == NonSpace(s)
    decreases |s|
  {
    if s != [] && IsSpace(s[|s| - 1]) {
      var init := s[..|s| - 1];
      TrimRightKeepsText(init);
      assert s == init + [s[|s| - 1]];
      NonSpaceAppend(init, [s[|s| - 1]]);
    }
  }

  /** A leading space makes no difference once stripped. */
  lemma StripLeadingSpace(s: string)
    ensures Strip(" " + s) == Strip(s)
  {
    assert (" " + s)[1..] == s;
  }

  /** A trailing space makes no difference once stripped. */
  lemma StripTrailingSpace(s: string)
    requires s != [] && !IsSpace(s[0]) && !IsSpace(s[|s| - 1])
    ensures Strip(s + " ") == s
  {
    assert (s + " ")[0] == s[0];
    assert TrimLeft(s + " ") == s + " ";
    assert (s + " ")[..|s|] == s;
    assert TrimRight(s) == s;
  }

  lemma {:induction false} AllSpaceHasNoText(s: string)
    requires forall i :: 0 <= i < |s| ==> IsSpace(s[i])
    ensures NonSpace(s) == []
    decreases |s|
  {
    if s != [] {
      AllSpaceHasNoText(s[1..]);
    }
  }

  /**
   * `re.split` with a one-character separator class, and `str.split(c)`:
   * `k` separators give `k + 1` pieces, empty pieces included.
   */
  function Split(s: string, isSep: char -> bool): (r: seq<string>)
    ensures |r| >= 1
    decreases |s|
  {
    if s == [] then [[]]
    else
      var rest := Split(s[1..], isSep);
      if isSep(s[0]) then [[]] + rest
      else [[s[0]] + rest[0]] + rest[1..]
  }

  /** The one-character separator class `{c}`. */
  function EqualTo(c: char): char -> bool {
    x => x == c
  }

  /** `str.split(c)` */
  function SplitOn(s: string, c: char): seq<string> {
    Split(s, EqualTo(c))
  }

  /** Text without a separator is a single piece. */
  lemma {:induction false} SplitNoSeparator(s: string, isSep: char -> bool)
    requires forall i :: 0 <= i < |s| ==> !isSep(s[i])
    ensures Split(s, isSep) == [s]
    decreases |s|
  {
    if s != [] {
      SplitNoSeparator(s[1..], isSep);
      assert [s[0]] + s[1..] == s;
    }
  }

  /** Splitting at a separator splits the pieces apart. */
  lemma {:induction false} SplitAtSeparator(a: string, c: char, b: string, isSep: char -> bool)
    requires isSep(c)
    ensures Split(a + [c] + b, isSep) == Split(a, isSep) + Split(b, isSep)
    decreases |a|
  {
    if a == [] {
      assert a + [c] + b == [c] + b;
      SplitCons(c, b, isSep);
    } else {
      var x, tail := a[0], a[1..];
      assert a + [c] + b == [x] + (tail + [c] + b);
      assert a == [x] + tail;
      SplitCons(x, tail + [c] + b, isSep);
      SplitCons(x, tail, isSep);
      SplitAtSeparator(tail, c, b, isSep);
      var front, back := Split(tail, isSep), Split(b, isSep);
      calc {
        Split(a + [c] + b, isSep);
        Split([x] + (tail + [c] + b), isSep);
        if isSep(x) then [[]] + (front + back) else [[x] + (front + back)[0]] + (front + back)[1..];
        { JoinFirst([x], front, back); assert [[]] + (front + back) == ([[]] + front) + back; }
        (if isSep(x) then [[]] + front else [[x] + front[0]] + front[1..]) + back;
        Split([x] + tail, isSep) + back;
        Split(a, isSep) + back;
      }
    }
  }

  /** The first character either separates or joins the first piece. */
  lemma SplitCons(x: char, s: string, isSep: char -> bool)
    ensures Split([x] + s, isSep)
      == if isSep(x) then [[]] + Split(s, isSep) else [[x] + Split(s, isSep)[0]] + Split(s, isSep)[1..]
  {
    assert ([x] + s)[1..] == s;
  }

  lemma JoinFirst(pre: string, front: seq<string>, back: seq<string>)
    requires |front| >= 1
    ensures [pre + (front + back)[0]] + (front + back)[1..] == ([pre + front[0]] + front[1..]) + back
  {
    assert (front + back)[0] == front[0];
    assert (front + back)[1..] == front[1..] + back;
  }

  lemma SplitOnNoSeparator(s: string, c: char)
    requires c !in s
    ensures SplitOn(s, c) == [s]
  {
    SplitNoSeparator(s, EqualTo(c));
  }

  lemma SplitOnAtSeparator(a: string, c: char, b: string)
    ensures SplitOn(a + [c] + b, c) == SplitOn(a, c) + SplitOn(b, c)
  {
    SplitAtSeparator(a, c, b, EqualTo(c));
  }

  /** `c.join(pieces)`: the pieces with `c` between each two. */
  function Join(pieces: seq<string>, c: char): string
    requires |pieces| >= 1
  {
    if |pieces| == 1 then pieces[0] else pieces[0] + [c] + Join(pieces[1..], c)
  }

  /** Joining the pieces of `s.split(c)` with `c` gives `s` back. */
  lemma {:induction false} SplitOnJoin(s: string, c: char)
    ensures Join(SplitOn(s, c), c) == s
    decreases |s|
  {
    if s != [] {
      var rest := SplitOn(s[1..], c);
      SplitOnJoin(s[1..], c);
      if s[0] == c {
        assert SplitOn(s, c) == [[]] + rest;
        assert ([[]] + rest)[1..] == rest;
      } else {
        assert SplitOn(s, c) == [[s[0]] + rest[0]] + rest[1..];
        JoinConsFirst(s[0], rest, c);
      }
    }
  }

  /** A character put in front of the first piece goes in front of the joined text. */
  lemma JoinConsFirst(x: char, pieces: seq<string>, c: char)
    requires |pieces| >= 1
    ensures Join([[x] + pieces[0]] + pieces[1..], c) == [x] + Join(pieces, c)
  {
    var q := [[x] + pieces[0]] + pieces[1..];
    if |pieces| > 1 {
      assert q[1..] == pieces[1..];
    }
  }

  /** A leading character that is not the separator joins the first piece. */
  lemma SplitOnLeadingSpace(s: string, c: char)
    requires c != ' '
    ensures SplitOn(" " + s, c) == [" " + SplitOn(s, c)[0]] + SplitOn(s, c)[1..]
  {
    assert (" " + s)[1..] == s;
  }

  /** Every piece that `Split` returns is free of separators. */
  lemma {:induction false} SplitPiecesHaveNoSeparator(s: string, isSep: char -> bool)
    ensures forall t, i :: t in Split(s, isSep) && 0 <= i < |t| ==> !isSep(t[i])
    decreases |s|
  {
    if s != [] {
      SplitPiecesHaveNoSeparator(s[1..], isSep);
    }
  }

  predicate OccursAt(s: string, pat: string, k: nat) {
    k + |pat| <= |s| && s[k..k + |pat|] == pat
  }

  /** `s.index(pat)`, or `None` where Python raises: the first place `pat` occurs. */
  function IndexOf(s: string, pat: string): Option<nat>
    decreases |s|
  {
    if |s| < |pat| then None
    else if s[..|pat|] == pat then Some(0)
    else
      match IndexOf(s[1..], pat)
      case None => None
      case Some(k) => Some(k + 1)
  }

  lemma {:induction false} IndexOfFindsFirst(s: string, pat: string)
    ensures IndexOf(s, pat).Some? ==> OccursAt(s, pat, IndexOf(s, pat).value)
    ensures IndexOf(s, pat).Some? ==> forall k: nat :: k < IndexOf(s, pat).value ==> !OccursAt(s, pat, k)
    ensures IndexOf(s, pat).None? ==> forall k: nat :: !OccursAt(s, pat, k)
    decreases |s|
  {
    if |s| >= |pat| && s[..|pat|] != pat {
      OccursShift(s, pat);
      IndexOfFindsFirst(s[1..], pat);
      assert !OccursAt(s, pat, 0);
      forall k: nat | k >= 1 ensures OccursAt(s, pat, k) == OccursAt(s[1..], pat, k - 1) {
      }
    }
  }

  /** `s.index(pat)` is `k` when `pat` occurs at `k` and nowhere before. */
  lemma IndexOfAt(s: string, pat: string, k: nat)
    requires OccursAt(s, pat, k) && forall i: nat :: i < k ==> !OccursAt(s, pat, i)
    ensures IndexOf(s, pat) == Some(k)
  {
    IndexOfFindsFirst(s, pat);
  }

  lemma OccursShift(s: string, pat: string)
    requires |s| >= 1
    ensures forall k: nat :: OccursAt(s[1..], pat, k) == OccursAt(s, pat, k + 1)
  {
    forall k: nat ensures OccursAt(s[1..], pat, k) == OccursAt(s, pat, k + 1) {
      if k + |pat| <= |s| - 1 {
        assert s[1..][k..k + |pat|] == s[k + 1..k + 1 + |pat|];
      }
    }
  }

  /** Python's `pat in s` for strings. */
  predicate Contains(s: string, pat: string) {
    IndexOf(s, pat).Some?
  }

  predicate AllDigits(s: string) {
    forall i :: 0 <= i < |s| ==> IsDigit(s[i])
  }

  function DigitValue(c: char): nat
    requires IsDigit(c)
  {
    c as int - '0' as int
  }

  /** The value of a string of decimal digits, as `int()` reads it. */
  function DigitsValue(s: string): nat
    requires AllDigits(s)
  {
    if s == [] then 0 else 10 * DigitsValue(s[..|s| - 1]) + DigitValue(s[|s| - 1])
  }

  /** The two-digit decimal rendering of `n`, as `'%02d' % n` writes it. */
  function TwoDigits(n: nat): (r: string)
    requires n < 100
    ensures |r| == 2 && AllDigits(r) && DigitsValue(r) == n
  {
    var r := [('0' as int + n / 10) as char, ('0' as int + n % 10) as char];
    assert r[..1] == [r[0]];
    assert r[..1][..0] == [];
    assert DigitsValue(r[..1]) == n / 10;
    r
  }
}
