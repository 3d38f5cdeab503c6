/** The button task's debounced falling-edge detector, driven by a sequence
    of sampled line levels (true = high = released; the boot button is
    active low) instead of real time.  Each read of the line consumes the
    next sample.  A three-state sampler is the reference definition; the
    source's nested loops are proved to count the same flag settings. */
module ButtonDebounce {

  /** Where the task is between two reads of the line. */
  datatype Sampler =
    | Idle(last: bool)   // at the top of the loop; last is last_button_state
    | Debouncing         // a falling edge was seen; the next read re-checks it
    | HeldLow            // the flag was set; waiting for the line to go high

  /** Before the first read the button is assumed released. */
  const Start: Sampler := Idle(true)

  function Next(st: Sampler, level: bool): Sampler
  {
    match st
    case Idle(last) => if last && !level then Debouncing else Idle(level)
    case Debouncing => if !level then HeldLow else Idle(level)
    case HeldLow => if !level then HeldLow else Idle(true)
  }

  /** Reading level in state st is the read that sets the pending flag. */
  predicate SetsFlag(st: Sampler, level: bool)
  {
    st == Debouncing && !level
  }

  /** The sampler after the first k reads. */
  function StateAt(levels: seq<bool>, k: nat): Sampler
    requires k <= |levels|
  {
    if k == 0 then Start else Next(StateAt(levels, k - 1), levels[k - 1])
  }

  /** Read number k (from 0) sets the pending flag. */
  predicate SetAt(levels: seq<bool>, k: nat)
    requires k < |levels|
  {
    SetsFlag(StateAt(levels, k), levels[k])
  }

  /** How many of the first k reads set the flag. */
  function PressesUpTo(levels: seq<bool>, k: nat): nat
    requires k <= |levels|
  {
    if k == 0 then 0 else PressesUpTo(levels, k - 1) + (if SetAt(levels, k - 1) then 1 else 0)
  }

  function Presses(levels: seq<bool>): nat
  {
    PressesUpTo(levels, |levels|)
  }

  /** The loop of the button task, run until the samples are used up; the
      result is press_count, the number of times the flag was set. */
  method ButtonPollTask(levels: seq<bool>) returns (presses: nat)
    ensures presses == Presses(levels)
  {
    var lastState := true;
    var i := 0;
    presses := 0;
    while i < |levels|
      invariant 0 <= i <= |levels|
      invariant StateAt(levels, i) == Idle(lastState)
      invariant presses == PressesUpTo(levels, i)
      decreases |levels| - i
    {
      var current := levels[i];
      i := i + 1;
      if lastState && !current {
        // debounce: read the line again
        if i == |levels| {
          break;
        }
        current := levels[i];
        i := i + 1;
        if !current {
          presses := presses + 1;
          // wait for release
          while i < |levels| && !levels[i]
            invariant 0 <= i <= |levels|
            invariant StateAt(levels, i) == HeldLow
            invariant presses == PressesUpTo(levels, i)
            decreases |levels| - i
          {
            i := i + 1;
          }
          if i == |levels| {
            break;
          }
          i := i + 1;
          lastState := true;
          continue;
        }
      }
      lastState := current;
    }
  }

  /** The falling-edge test always compares against a high level:
      last_button_state is true whenever the loop reaches its top. */
  lemma {:induction false} LastAlwaysHigh(levels: seq<bool>, k: nat)
    requires k <= |levels|
    ensures StateAt(levels, k) != Idle(false)
  {
    if k > 0 {
      LastAlwaysHigh(levels, k - 1);
    }
  }

  /** A high read always returns the task to the top of its loop with the
      button released. */
  lemma HighReleases(levels: seq<bool>, k: nat)
    requires k < |levels| && levels[k]
    ensures StateAt(levels, k + 1) == Idle(true)
  {
  }

  /** The flag is set by read k exactly when reads k-1 and k are low and the
      one before them was high (or read k-1 was the first): it is set on the
      debounce re-read of the second low sample of a low run. */
  lemma SetAtIff(levels: seq<bool>, k: nat)
    requires k < |levels|
    ensures SetAt(levels, k) <==>
              1 <= k && !levels[k - 1] && !levels[k] && (k == 1 || levels[k - 2])
  {
    if 1 <= k {
      LastAlwaysHigh(levels, k - 1);
      var before := StateAt(levels, k - 1);
      assert StateAt(levels, k) == Next(before, levels[k - 1]);
      if k >= 2 {
        assert before == Next(StateAt(levels, k - 2), levels[k - 2]);
        if levels[k - 2] {
          HighReleases(levels, k - 2);
        }
      }
    }
  }

  /** One press sets the flag at most once: between two flag settings the
      line was seen high. */
  lemma OneSetPerPress(levels: seq<bool>, k: nat, k': nat)
    requires k < k' < |levels|
    requires SetAt(levels, k) && SetAt(levels, k')
    ensures exists j :: k < j < k' && levels[j]
  {
    SetAtIff(levels, k);
    SetAtIff(levels, k');
    assert k < k' - 2 && levels[k' - 2];
  }

  /** A line that is never low for two reads in a row never sets the flag. */
  lemma {:induction false} NoDoubleLowNoPress(levels: seq<bool>, k: nat)
    requires k <= |levels|
    requires forall j :: 0 < j < |levels| ==> levels[j - 1] || levels[j]
    ensures PressesUpTo(levels, k) == 0
  {
    if k > 0 {
      NoDoubleLowNoPress(levels, k - 1);
      SetAtIff(levels, k - 1);
    }
  }
}
