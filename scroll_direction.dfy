/** `useScrollDirection` (src/hooks/useScrollDirection.ts): a scroll listener
    that remembers the last recorded offset and reports `up` or `down` once the
    page has moved at least the threshold away from it. The offset read from
    `window.pageYOffset` on each event is an input. */
module ScrollDirection {
  import opened Seqs

  datatype Direction = Up | Down

  /** Minimum distance from the recorded offset that counts as a move. */
  const Threshold: int := 10

  /** The listener's memory: the recorded offset and the reported direction (`None` is `null`). */
  datatype ScrollState = ScrollState(lastY: int, direction: Option<Direction>)

  function Abs(x: int): nat {
    if x < 0 then -x else x
  }

  /** A move is at least the threshold away from the recorded offset. */
  predicate Qualifies(s: ScrollState, y: int) {
    Abs(y - s.lastY) >= Threshold
  }

  /** `updateScrollDirection` at offset `y`. */
  function Step(s: ScrollState, y: int): (r: ScrollState)
    ensures !Qualifies(s, y) ==> r == s
    ensures Qualifies(s, y) ==> r.direction == Some(if y > s.lastY then Down else Up)
    ensures Qualifies(s, y) ==> r.lastY >= 0 && r.lastY == if y > 0 then y else 0
  {
    if Abs(y - s.lastY) < Threshold then s
    else ScrollState(if y > 0 then y else 0, Some(if y > s.lastY then Down else Up))
  }

  /** The state when the listener is attached at offset `y0`. */
  function Initial(y0: int): (r: ScrollState)
    ensures r.direction == None && r.lastY == y0
  {
    ScrollState(y0, None)
  }

  /** The state after the scroll events at offsets `ys`, in order. */
  function Run(s: ScrollState, ys: seq<int>): ScrollState
    decreases |ys|
  {
    if ys == [] then s else Step(Run(s, ys[..|ys| - 1]), ys[|ys| - 1])
  }

  /** Once a direction has been reported the recorded offset is non-negative. */
  ghost predicate Reported(s: ScrollState) {
    s.direction.Some? ==> s.lastY >= 0
  }

  /** Every run keeps `Reported`, and a reported direction is never withdrawn. */
  lemma {:induction false} RunKeepsReported(s: ScrollState, ys: seq<int>)
    requires Reported(s)
    ensures Reported(Run(s, ys))
    ensures s.direction.Some? ==> Run(s, ys).direction.Some?
  {
    if ys != [] {
      RunKeepsReported(s, ys[..|ys| - 1]);
    }
  }

  /** Moves each closer than the threshold to the recorded offset leave the state as it is,
      however far the page drifts between two of them; the first event at least the
      threshold away from the recorded offset then sets the direction. */
  lemma {:induction false} DriftAccumulates(s: ScrollState, ys: seq<int>, y: int)
    requires forall i :: 0 <= i < |ys| ==> Abs(ys[i] - s.lastY) < Threshold
    requires Abs(y - s.lastY) >= Threshold
    ensures Run(s, ys) == s
    ensures Run(s, ys + [y]) == ScrollState(if y > 0 then y else 0, Some(if y > s.lastY then Down else Up))
  {
    SmallMovesKeepState(s, ys);
    assert (ys + [y])[..|ys|] == ys;
  }

  lemma {:induction false} SmallMovesKeepState(s: ScrollState, ys: seq<int>)
    requires forall i :: 0 <= i < |ys| ==> Abs(ys[i] - s.lastY) < Threshold
    ensures Run(s, ys) == s
  {
    if ys != [] {
      SmallMovesKeepState(s, ys[..|ys| - 1]);
    }
  }

  /** Three events 4 apart: the third is 12 from the recorded 0 and reports `down`. */
  lemma SlowScrollReportsDown()
    ensures Run(Initial(0), [4, 8]) == Initial(0)
    ensures Run(Initial(0), [4, 8, 12]) == ScrollState(12, Some(Down))
  {
    assert [4, 8, 12][..2] == [4, 8];
    assert [4, 8][..1] == [4];
    assert [4][..0] == [];
  }

  /** The listener, with `lastScrollY` and `scrollDirection` as fields. */
  class ScrollTracker {
    var lastY: int
    var direction: Option<Direction>

    function State(): ScrollState
      reads this
    {
      ScrollState(lastY, direction)
    }

    constructor (y0: int)
      ensures State() == Initial(y0)
    {
      lastY := y0;
      direction := None;
    }

    /** One scroll event at offset `y`. */
    method OnScroll(y: int)
      modifies this
      ensures State() == Step(old(State()), y)
    {
      if Abs(y - lastY) < Threshold {
        return;
      }
      direction := Some(if y > lastY then Down else Up);
      lastY := if y > 0 then y else 0;
    }
  }
}
