/**
 * The rotating main panel of src/App.tsx: one work is shown at a time, a
 * timer moves on to the next one and wraps around, and a row of dot buttons,
 * one per work, jumps straight to a work. A timer firing is a call to `Tick`.
 */
module Carousel {
  import opened Wrappers
  import opened Works

  /** The index after `i` in a rotation over `n` items. */
  function Next(i: nat, n: nat): (j: nat)
    requires n > 0
    ensures j < n
    ensures i + 1 < n ==> j == i + 1
    ensures i + 1 == n ==> j == 0
  {
    (i + 1) % n
  }

  /** The index reached from `i` after `k` ticks. */
  function AfterTicks(i: nat, n: nat, k: nat): nat
    requires n > 0
  {
    if k == 0 then i else Next(AfterTicks(i, n, k - 1), n)
  }

  /** Ticks compose: `a` ticks and then `b` more are `a + b` ticks. */
  lemma {:induction false} AfterTicksCompose(i: nat, n: nat, a: nat, b: nat)
    requires n > 0
    ensures AfterTicks(i, n, a + b) == AfterTicks(AfterTicks(i, n, a), n, b)
  {
    if b > 0 {
      AfterTicksCompose(i, n, a, b - 1);
    }
  }

  /** Before the wrap-around the rotation simply counts up. */
  lemma {:induction false} AfterTicksCountsUp(i: nat, n: nat, k: nat)
    requires i + k < n
    ensures AfterTicks(i, n, k) == i + k
  {
    if k > 0 {
      AfterTicksCountsUp(i, n, k - 1);
    }
  }

  /** From index `i`, `n - i` ticks reach the first work again. */
  lemma WrapsToFirst(i: nat, n: nat)
    requires i < n
    ensures AfterTicks(i, n, n - i) == 0
  {
    AfterTicksCountsUp(i, n, n - i - 1);
  }

  /** `n` ticks bring the rotation back to where it started. */
  lemma FullCycleReturns(i: nat, n: nat)
    requires i < n
    ensures AfterTicks(i, n, n) == i
  {
    WrapsToFirst(i, n);
    AfterTicksCompose(i, n, n - i, i);
    AfterTicksCountsUp(0, n, i);
  }

  /** Every work is shown within `n` ticks, whatever the starting index. */
  lemma CycleShowsEveryWork(i: nat, n: nat, j: nat)
    requires i < n && j < n
    ensures exists k: nat :: k < n && AfterTicks(i, n, k) == j
  {
    if i <= j {
      AfterTicksCountsUp(i, n, j - i);
      assert AfterTicks(i, n, j - i) == j;
    } else {
      WrapsToFirst(i, n);
      AfterTicksCompose(i, n, n - i, j);
      AfterTicksCountsUp(0, n, j);
      assert AfterTicks(i, n, n - i + j) == j;
    }
  }

  class Rotation {
    var works: seq<Obra>
    var current: nat

    /** The index always names a work, or is 0 while the list is empty. */
    ghost predicate Valid()
      reads this
    {
      if works == [] then current == 0 else current < |works|
    }

    /** The panel before the works arrive: an empty list, index 0. */
    constructor ()
      ensures Valid() && works == [] && current == 0
    {
      works, current := [], 0;
    }

    /** The works arrive, once, when the panel is first shown. */
    method Load(loaded: seq<Obra>)
      requires Valid() && works == []
      modifies this
      ensures Valid() && works == loaded && current == 0
    {
      works := loaded;
    }

    /**
     * The 12-second timer. No timer runs while the list is empty; otherwise
     * the index moves to the next work and wraps to the first after the last.
     */
    method Tick()
      requires Valid()
      modifies this
      ensures Valid() && works == old(works)
      ensures current == if works == [] then old(current) else Next(old(current), |works|)
    {
      if |works| > 0 {
        current := (current + 1) % |works|;
      }
    }

    /** A click on the dot button of the `i`-th work; there is one button per work. */
    method Select(i: nat)
      requires Valid() && i < |works|
      modifies this
      ensures Valid() && works == old(works) && current == i
    {
      current := i;
    }

    /** The work on the main panel, none when the list is empty. */
    method Current() returns (shown: Option<Obra>)
      requires Valid()
      ensures shown.None? <==> works == []
      ensures shown.Some? ==> shown.value == works[current] && shown.value in works
    {
      if works == [] {
        shown := None;
      } else {
        shown := Some(works[current]);
      }
    }
  }
}
