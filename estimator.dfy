/** The tempo estimator `RegisteredHits` of src/lib.rs: a bounded FIFO of
    tap timestamps with a fixed sample size, updated in place by `new_hit`
    and `reset_hits`, and read by `next`. */
module Estimator {
  import opened Wrappers
  import opened Window

  /** The error `RegisteredHits::new` returns for a sample size below two. */
  const SAMPLE_SIZE_ERROR: string := "sample size must be at least two."

  class RegisteredHits {
    /** The retained timestamps, oldest first (the `VecDeque<Instant>`). */
    var hits: seq<nat>
    /** The window's capacity; nothing after construction changes it. */
    const sampleSize: nat
    /** Every timestamp recorded since construction or the last reset. */
    ghost var recorded: seq<nat>

    /** The buffer is the last `sampleSize` taps since the last reset, in
        the order they arrived, and the clock never went backwards. */
    ghost predicate Valid()
      reads this
    {
      2 <= sampleSize && Sorted(recorded) && hits == LastN(recorded, sampleSize)
    }

    /** The struct literal of a validated sample size, with an empty buffer. */
    constructor (sampleSize: nat)
      requires 2 <= sampleSize
      ensures Valid()
      ensures this.sampleSize == sampleSize && hits == [] && recorded == []
    {
      this.sampleSize := sampleSize;
      hits := [];
      recorded := [];
    }

    /** `RegisteredHits::new`: refuses a sample size of zero or one. */
    static method New(sampleSize: nat) returns (r: Result<RegisteredHits, string>)
      ensures r.Err? <==> sampleSize <= 1
      ensures r.Err? ==> r.error == SAMPLE_SIZE_ERROR
      ensures r.Ok? ==> fresh(r.value) && r.value.Valid()
      ensures r.Ok? ==> r.value.sampleSize == sampleSize && r.value.hits == []
    {
      if sampleSize <= 1 {
        r := Err(SAMPLE_SIZE_ERROR);
      } else {
        var window := new RegisteredHits(sampleSize);
        r := Ok(window);
      }
    }

    /** `new_hit`, with the instant read from the clock passed in as `now`;
        the clock is monotonic, so `now` is no earlier than the last hit. */
    method NewHit(now: nat)
      requires Valid()
      requires hits != [] ==> hits[|hits| - 1] <= now
      modifies this
      ensures Valid() && recorded == old(recorded) + [now]
      ensures hits == Record(old(hits), sampleSize, now)
      ensures |old(hits)| < sampleSize ==> hits == old(hits) + [now]
      ensures |old(hits)| == sampleSize ==> hits == old(hits)[1..] + [now]
      ensures |hits| <= sampleSize && Sorted(hits)
    {
      RecordOnHistory(recorded, sampleSize, now);
      hits := hits + [now];
      if |hits| > sampleSize {
        hits := hits[1..];
      }
      recorded := recorded + [now];
      LastNSorted(recorded, sampleSize);
    }

    /** `reset_hits`: empties the buffer; the sample size stays. */
    method ResetHits()
      requires Valid()
      modifies this
      ensures Valid() && hits == [] && recorded == []
    {
      hits := [];
      recorded := [];
    }

    /** `Iterator::next`: the mean interval over the window, or `None` from
        fewer than two hits. It has no `modifies` clause, so it changes
        neither the buffer nor the sample size. */
    method Next() returns (r: Option<nat>)
      requires Valid()
      ensures r == MeanInterval(hits)
      ensures r.None? <==> |hits| <= 1
      ensures |hits| >= 2 ==>
        r.Some? && r.value == (hits[|hits| - 1] - hits[0]) / (|hits| - 1)
    {
      if |hits| <= 1 {
        r := None;
      } else {
        var back, front := hits[|hits| - 1], hits[0];
        var elapsed := if back >= front then back - front else 0;
        r := Some(elapsed / (|hits| - 1));
      }
    }
  }
}
