/** The "first present candidate wins" rule, defined once and independently of
    the columns that follow it. Each displayed column of the list command is a
    precedence chain of this kind; the lemmas in `BuildRunList` connect them. */
module Precedence {
  import opened Wrappers

  /** `i` is the position of the earliest present candidate. */
  ghost predicate IsFirstPresent<T>(candidates: seq<Option<T>>, i: int) {
    && 0 <= i < |candidates|
    && candidates[i].Some?
    && forall j :: 0 <= j < i ==> candidates[j].None?
  }

  /** The value of the earliest present candidate, or `fallback` when every
      candidate is absent. */
  function FirstPresent<T>(candidates: seq<Option<T>>, fallback: T): (r: T)
    ensures (forall i :: 0 <= i < |candidates| ==> candidates[i].None?) ==> r == fallback
    ensures forall i :: IsFirstPresent(candidates, i) ==> r == candidates[i].value
  {
    if |candidates| == 0 then fallback
    else if candidates[0].Some? then candidates[0].value
    else
      assert forall i :: IsFirstPresent(candidates, i) ==> IsFirstPresent(candidates[1..], i - 1);
      FirstPresent(candidates[1..], fallback)
  }
}
