/** The module-wide `weekdays` list, in the order that day ranges follow. */
module Week {
  import opened Wrappers

  const Weekdays: seq<string> := ["mo", "tu", "we", "th", "fr", "sa", "su"]

  /** `xs.index(x)` on a list, or `None` where Python raises `ValueError`. */
  function FirstIndex(xs: seq<string>, x: string): (r: Option<nat>)
    ensures r.Some? ==> r.value < |xs| && xs[r.value] == x && x !in xs[..r.value]
    ensures r.None? <==> x !in xs
  {
    if xs == [] then None
    else if xs[0] == x then Some(0)
    else match FirstIndex(xs[1..], x)
      case None => None
      case Some(k) =>
        assert xs[..k + 1] == [xs[0]] + xs[1..][..k];
        Some(k + 1)
  }

  /** `weekdays.index(code)` */
  function WeekdayIndex(code: string): Option<nat> {
    FirstIndex(Weekdays, code)
  }

  /** The seven codes differ in their first or second letter. */
  lemma WeekdaysDistinct()
    ensures forall a, b :: 0 <= a < b < |Weekdays| ==>
      Weekdays[a][0] != Weekdays[b][0] || Weekdays[a][1] != Weekdays[b][1]
  {
  }

  /** Every weekday code is found at its own position. */
  lemma WeekdayIndexOf(i: nat)
    requires i < |Weekdays|
    ensures WeekdayIndex(Weekdays[i]) == Some(i)
  {
    var r := FirstIndex(Weekdays, Weekdays[i]);
    assert r.Some?;
    WeekdaysDistinct();
    var j := r.value;
    assert Weekdays[j] == Weekdays[i];
    assert Weekdays[j][0] == Weekdays[i][0] && Weekdays[j][1] == Weekdays[i][1];
  }
}
