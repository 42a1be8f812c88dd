/** The Home page's counter and its two buttons. */
module Home {

  /** The two buttons beside the count. */
  datatype Button = Minus | Plus

  /** How many times `b` occurs in `clicks`. */
  function Occurrences(clicks: seq<Button>, b: Button): nat {
    if clicks == [] then 0
    else (if clicks[0] == b then 1 else 0) + Occurrences(clicks[1..], b)
  }

  /** The count after a run of clicks from `start`, clicked one after the other. */
  function AfterClicks(start: int, clicks: seq<Button>): int
    decreases |clicks|
  {
    if clicks == [] then start
    else AfterClicks(if clicks[0] == Plus then start + 1 else start - 1, clicks[1..])
  }

  /** The count depends only on how many times each button was clicked, not on their order. */
  lemma {:induction false} AfterClicksCountsButtons(start: int, clicks: seq<Button>)
    ensures AfterClicks(start, clicks) == start + Occurrences(clicks, Plus) - Occurrences(clicks, Minus)
    decreases |clicks|
  {
    if clicks != [] {
      AfterClicksCountsButtons(if clicks[0] == Plus then start + 1 else start - 1, clicks[1..]);
    }
  }

  /** `+` then `-`, or `-` then `+`, leaves the count where it was. */
  lemma ClicksCancel(start: int)
    ensures AfterClicks(start, [Plus, Minus]) == start
    ensures AfterClicks(start, [Minus, Plus]) == start
  {
    AfterClicksCountsButtons(start, [Plus, Minus]);
    AfterClicksCountsButtons(start, [Minus, Plus]);
  }

  class Counter {
    var count: int

    /** The page mounts with a count of 0. */
    constructor ()
      ensures count == 0
    {
      count := 0;
    }

    /** The `-` button: one less, with no lower bound. */
    method Decrement()
      modifies this
      ensures count == old(count) - 1
      ensures count == AfterClicks(old(count), [Minus])
    {
      count := count - 1;
    }

    /** The `+` button: one more. */
    method Increment()
      modifies this
      ensures count == old(count) + 1
      ensures count == AfterClicks(old(count), [Plus])
    {
      count := count + 1;
    }
  }

  /** From a fresh page: `+`, `+`, `-`, `-`, `-`, showing the count before and after each click. */
  method PlusTwiceMinusThrice() returns (shown: seq<int>)
    ensures shown == [0, 1, 2, 1, 0, -1]
  {
    var c := new Counter();
    shown := [c.count];
    c.Increment();
    shown := shown + [c.count];
    c.Increment();
    shown := shown + [c.count];
    c.Decrement();
    shown := shown + [c.count];
    c.Decrement();
    shown := shown + [c.count];
    c.Decrement();
    shown := shown + [c.count];
  }
}
