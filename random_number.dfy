/**
 * The `/acakangka` command (bot.py:861-912): order the bounds, refuse spans
 * wider than a million, draw with `random.randint` and report how many
 * values were possible.
 */
module RandomNumber {

  /** The widest span `max_val - min_val` that is still served. */
  const MAX_SPAN: int := 1000000

  function Abs(x: int): nat
  {
    if x < 0 then -x else x
  }

  /** The embeds the handler can send. */
  datatype Reply =
    | RangeTooLarge
    | Drawn(low: int, high: int, result: int, possibilities: int)

  /** The handler. `random.randint(a, b)` promises only `a <= r <= b`, so the
      draw is an arbitrary choice in that range. */
  method AcakAngka(minVal: int, maxVal: int) returns (reply: Reply)
    ensures reply.RangeTooLarge? <==> Abs(maxVal - minVal) > MAX_SPAN
    ensures reply.Drawn? ==>
      && reply.low <= reply.high
      && (reply.low == minVal || reply.low == maxVal)
      && reply.low <= minVal && reply.low <= maxVal
      && reply.high - reply.low == Abs(maxVal - minVal)
      && reply.low <= reply.result <= reply.high
      && reply.possibilities == |IntRange(reply.low, reply.high)|
      && 1 <= reply.possibilities <= MAX_SPAN + 1
  {
    var lo, hi := minVal, maxVal;
    if lo > hi {
      lo, hi := hi, lo;
    }
    if Abs(hi - lo) > MAX_SPAN {
      return RangeTooLarge;
    }
    var result :| lo <= result <= hi;
    var totalPossibilities := hi - lo + 1;
    RangeSize(lo, hi);
    reply := Drawn(lo, hi, result, totalPossibilities);
  }

  /** The integers from `lo` to `hi`, both included. */
  function IntRange(lo: int, hi: int): set<int>
    decreases hi - lo
  {
    if lo > hi then {} else IntRange(lo, hi - 1) + {hi}
  }

  /** `IntRange(lo, hi)` holds exactly the values `randint(lo, hi)` can return. */
  lemma {:induction false} IntRangeMembers(lo: int, hi: int, x: int)
    ensures x in IntRange(lo, hi) <==> lo <= x <= hi
    decreases hi - lo
  {
    if lo <= hi {
      IntRangeMembers(lo, hi - 1, x);
    }
  }

  /** `max_val - min_val + 1` is the number of values the draw can produce. */
  lemma {:induction false} RangeSize(lo: int, hi: int)
    requires lo <= hi
    ensures |IntRange(lo, hi)| == hi - lo + 1
    decreases hi - lo
  {
    if lo < hi {
      RangeSize(lo, hi - 1);
      IntRangeMembers(lo, hi - 1, hi);
    }
  }

  // ---------------------------------------------------------------------
  // The size limit
  // ---------------------------------------------------------------------

  /** The refusal message announces at most 1,000,000 values, but a span of
      exactly `MAX_SPAN` passes the test `abs(max_val - min_val) > 1000000`
      and offers one value more. */
  lemma WidestServedRangeExceedsMessage(lo: int)
    ensures !(Abs((lo + MAX_SPAN) - lo) > MAX_SPAN)
    ensures |IntRange(lo, lo + MAX_SPAN)| == MAX_SPAN + 1
  {
    RangeSize(lo, lo + MAX_SPAN);
  }

  /** The evidently intended test on ordered bounds: refuse a range that
      holds more than 1,000,000 values. */
  function IntendedTooLarge(lo: int, hi: int): (refuse: bool)
    requires lo <= hi
    ensures refuse <==> |IntRange(lo, hi)| > MAX_SPAN
  {
    RangeSize(lo, hi);
    hi - lo + 1 > MAX_SPAN
  }

  /** The code's test and the intended one disagree only on a span of exactly `MAX_SPAN`. */
  lemma IntendedDiffersOnlyAtWidestSpan(lo: int, hi: int)
    requires lo <= hi
    ensures IntendedTooLarge(lo, hi) != (Abs(hi - lo) > MAX_SPAN) <==> hi - lo == MAX_SPAN
  {
  }
}
