/** The tap window of `RegisteredHits` (src/lib.rs) as values: what one hit
    does to the buffer of timestamps, what a run of hits leaves in it, and
    the mean interval that `next` reads from it.

    Instants and durations are whole nanoseconds. */
module Window {
  import opened Wrappers

  /** Timestamps never decrease from the front (oldest) to the back (newest). */
  predicate Sorted(s: seq<nat>) {
    forall i, j :: 0 <= i < j < |s| ==> s[i] <= s[j]
  }

  /** The last `n` elements of `s` in their original order, or all of `s`
      when it holds no more than `n`. */
  function LastN(s: seq<nat>, n: nat): (r: seq<nat>)
    ensures |r| == if |s| <= n then |s| else n
  {
    if |s| <= n then s else s[|s| - n..]
  }

  /** One `new_hit`: `now` goes to the back of the buffer, and the front is
      dropped when the buffer has then grown past `sampleSize`. */
  function Record(hits: seq<nat>, sampleSize: nat, now: nat): (r: seq<nat>)
    // exactly one timestamp, the oldest, leaves, and exactly when over capacity ...
    ensures |r| == (if |hits| + 1 > sampleSize then |hits| else |hits| + 1)
    // ... so the result is the old buffer followed by `now`, less at most its head
    ensures r == (hits + [now])[|hits| + 1 - |r|..]
    ensures |hits| <= sampleSize ==> |r| <= sampleSize
  {
    var pushed := hits + [now];
    if |pushed| > sampleSize then pushed[1..] else pushed
  }

  /** The buffer after a run of `new_hit` calls with timestamps `nows`. */
  function RecordAll(hits: seq<nat>, sampleSize: nat, nows: seq<nat>): seq<nat>
    decreases |nows|
  {
    if nows == [] then hits
    else RecordAll(Record(hits, sampleSize, nows[0]), sampleSize, nows[1..])
  }

  /** `back.duration_since(front)`: the time from the oldest to the newest
      retained hit. `Instant::duration_since` saturates at zero when the
      argument is the later instant. */
  function Elapsed(hits: seq<nat>): nat
    requires hits != []
  {
    if hits[|hits| - 1] >= hits[0] then hits[|hits| - 1] - hits[0] else 0
  }

  /** `next`: no estimate from fewer than two hits; otherwise the elapsed
      time divided, truncating like `Duration::checked_div`, by the number
      of intervals in the window. */
  function MeanInterval(hits: seq<nat>): (r: Option<nat>)
    ensures r.None? <==> |hits| <= 1
    ensures r.Some? ==>
      r.value * (|hits| - 1) <= Elapsed(hits) < (r.value + 1) * (|hits| - 1)
  {
    if |hits| <= 1 then None else Some(Elapsed(hits) / (|hits| - 1))
  }

  /** Reference definition of the window's total span: the sum of the
      intervals between consecutive hits. */
  function SumOfGaps(hits: seq<nat>): int {
    if |hits| <= 1 then 0 else (hits[1] - hits[0]) + SumOfGaps(hits[1..])
  }

  // ---------------------------------------------------------------------
  // The bounded FIFO

  lemma LastNSuffix(s: seq<nat>, n: nat)
    ensures LastN(s, n) == s[|s| - |LastN(s, n)|..]
  {
  }

  /** Taking the last `n` twice, with more appended in between, is the
      same as taking the last `n` once. */
  lemma LastNOfLastN(a: seq<nat>, b: seq<nat>, n: nat)
    ensures LastN(LastN(a, n) + b, n) == LastN(a + b, n)
  {
    var a' := LastN(a, n);
    LastNSuffix(a, n);
    var l, r := LastN(a' + b, n), LastN(a + b, n);
    assert |l| == |r|;
    forall k | 0 <= k < |l| ensures l[k] == r[k] {
      var i := |a' + b| - |l| + k;
      var j := |a + b| - |r| + k;
      assert l[k] == (a' + b)[i] by { LastNSuffix(a' + b, n); }
      assert r[k] == (a + b)[j] by { LastNSuffix(a + b, n); }
      if i < |a'| {
        assert (a' + b)[i] == a[|a| - |a'| + i];
      }
    }
  }

  /** Below or at capacity, one hit keeps the last `sampleSize` of the old
      buffer followed by the new timestamp. */
  lemma RecordIsLastN(hits: seq<nat>, sampleSize: nat, now: nat)
    requires |hits| <= sampleSize
    ensures Record(hits, sampleSize, now) == LastN(hits + [now], sampleSize)
  {
  }

  /** After any run of hits from a buffer within capacity, the buffer holds
      exactly the last `sampleSize` timestamps ever recorded, in insertion
      order: nothing is reordered, and only the oldest are evicted. */
  lemma {:induction false} RecordAllKeepsLast(hits: seq<nat>, sampleSize: nat, nows: seq<nat>)
    requires |hits| <= sampleSize
    ensures RecordAll(hits, sampleSize, nows) == LastN(hits + nows, sampleSize)
    decreases |nows|
  {
    if nows == [] {
      assert hits + nows == hits;
    } else {
      var next := Record(hits, sampleSize, nows[0]);
      RecordAllKeepsLast(next, sampleSize, nows[1..]);
      RecordIsLastN(hits, sampleSize, nows[0]);
      LastNOfLastN(hits + [nows[0]], nows[1..], sampleSize);
      assert hits + [nows[0]] + nows[1..] == hits + nows;
    }
  }

  /** A window within capacity stays within capacity, whatever the hits. */
  lemma {:induction false} RecordAllWithinCapacity(hits: seq<nat>, sampleSize: nat, nows: seq<nat>)
    requires |hits| <= sampleSize
    ensures |RecordAll(hits, sampleSize, nows)| <= sampleSize
    ensures |hits| + |nows| >= sampleSize ==> |RecordAll(hits, sampleSize, nows)| == sampleSize
  {
    RecordAllKeepsLast(hits, sampleSize, nows);
  }

  // ---------------------------------------------------------------------
  // Ordering

  lemma SortedSuffix(s: seq<nat>, k: nat)
    requires Sorted(s) && k <= |s|
    ensures Sorted(s[k..])
  {
  }

  lemma SortedAppend(s: seq<nat>, x: nat)
    requires Sorted(s) && (s != [] ==> s[|s| - 1] <= x)
    ensures Sorted(s + [x])
  {
  }

  /** With a monotonic clock a hit never breaks the order of the buffer. */
  lemma RecordKeepsSorted(hits: seq<nat>, sampleSize: nat, now: nat)
    requires Sorted(hits) && (hits != [] ==> hits[|hits| - 1] <= now)
    ensures Sorted(Record(hits, sampleSize, now))
  {
    SortedAppend(hits, now);
    SortedSuffix(hits + [now], |hits| + 1 - |Record(hits, sampleSize, now)|);
  }

  /** With timestamps observed in non-decreasing order, every run of hits
      leaves the buffer sorted. */
  lemma {:induction false} RecordAllKeepsSorted(hits: seq<nat>, sampleSize: nat, nows: seq<nat>)
    requires |hits| <= sampleSize && Sorted(hits + nows)
    ensures Sorted(RecordAll(hits, sampleSize, nows))
  {
    RecordAllKeepsLast(hits, sampleSize, nows);
    LastNSuffix(hits + nows, sampleSize);
    SortedSuffix(hits + nows, |hits + nows| - |LastN(hits + nows, sampleSize)|);
  }

  /** The last `n` of a sorted history are sorted. */
  lemma LastNSorted(s: seq<nat>, n: nat)
    requires Sorted(s)
    ensures Sorted(LastN(s, n))
  {
    SortedSuffix(s, |s| - |LastN(s, n)|);
  }

  /** One hit on the window of a sorted history, at an instant no earlier
      than the newest retained hit, is the window of the history extended
      by that hit, which stays sorted. */
  lemma RecordOnHistory(recorded: seq<nat>, sampleSize: nat, now: nat)
    requires 1 <= sampleSize && Sorted(recorded)
    requires LastN(recorded, sampleSize) != [] ==>
      LastN(recorded, sampleSize)[|LastN(recorded, sampleSize)| - 1] <= now
    ensures Sorted(recorded + [now])
    ensures Record(LastN(recorded, sampleSize), sampleSize, now) == LastN(recorded + [now], sampleSize)
  {
    LastNSuffix(recorded, sampleSize);
    SortedAppend(recorded, now);
    RecordIsLastN(LastN(recorded, sampleSize), sampleSize, now);
    LastNOfLastN(recorded, [now], sampleSize);
  }

  // ---------------------------------------------------------------------
  // The estimate

  /** The span of the window is the sum of its consecutive intervals. */
  lemma {:induction false} SumOfGapsTelescopes(hits: seq<nat>)
    requires hits != []
    ensures SumOfGaps(hits) == hits[|hits| - 1] as int - hits[0]
  {
    if |hits| > 1 {
      SumOfGapsTelescopes(hits[1..]);
    }
  }

  /** On a sorted window (a monotonic clock), `next` is the truncated mean
      of the intervals between consecutive hits, so never a two-point
      instantaneous interval. */
  lemma MeanIsAverageGap(hits: seq<nat>)
    requires Sorted(hits) && |hits| >= 2
    ensures MeanInterval(hits) == Some(SumOfGaps(hits) / (|hits| - 1))
  {
    SumOfGapsTelescopes(hits);
  }

  lemma {:induction false} EquallySpacedSpan(hits: seq<nat>, d: nat)
    requires hits != []
    requires forall i :: 0 <= i < |hits| - 1 ==> hits[i + 1] == hits[i] + d
    ensures hits[|hits| - 1] == hits[0] + (|hits| - 1) * d
  {
    if |hits| > 1 {
      EquallySpacedSpan(hits[1..], d);
    }
  }

  lemma {:induction false} MulAtLeast(k: nat, x: nat)
    requires x >= 1
    ensures k * x >= k
  {
    if x > 1 {
      MulAtLeast(k, x - 1);
      assert k * x == k * (x - 1) + k;
    }
  }

  lemma ExactQuotient(k: nat, d: nat)
    requires k > 0
    ensures (k * d) / k == d
  {
    var q, m := (k * d) / k, (k * d) % k;
    assert k * q + m == k * d && 0 <= m < k;
    assert k * (d - q) == k * d - k * q;
    if q < d {
      MulAtLeast(k, d - q);
    } else if q > d {
      MulAtLeast(k, q - d);
    }
  }

  /** Hits spaced exactly `d` apart give the estimate `d`. */
  lemma EquallySpacedMean(hits: seq<nat>, d: nat)
    requires |hits| >= 2
    requires forall i :: 0 <= i < |hits| - 1 ==> hits[i + 1] == hits[i] + d
    ensures MeanInterval(hits) == Some(d)
  {
    EquallySpacedSpan(hits, d);
    ExactQuotient(|hits| - 1, d);
  }

  // ---------------------------------------------------------------------
  // The divisor as written: `self.hits.len() as u32 - 1`

  const U32_MODULUS: nat := 0x1_0000_0000

  /** `next` as the source computes it: the length is cast to `u32` before
      one is subtracted (wrapping, as in a release build), and
      `checked_div` gives `None` for a zero divisor. */
  function MeanIntervalAsWritten(hits: seq<nat>): (r: Option<nat>)
    ensures |hits| <= 1 ==> r == None
  {
    if |hits| <= 1 then None
    else
      var divisor := (|hits| - 1) % U32_MODULUS;
      if divisor == 0 then None else Some(Elapsed(hits) / divisor)
  }

  /** Whenever the window holds at most 2^32 hits, which every window built
      from a 32-bit sample size does, the cast changes nothing. */
  lemma AsWrittenAgreesWithinU32(hits: seq<nat>)
    requires |hits| <= U32_MODULUS
    ensures MeanIntervalAsWritten(hits) == MeanInterval(hits)
  {
  }

  /** With 2^32 + 1 hits the truncated divisor is zero and the estimate is
      lost, although the window holds well over two hits. */
  lemma AsWrittenLosesEstimate(hits: seq<nat>)
    requires |hits| == U32_MODULUS + 1
    ensures MeanIntervalAsWritten(hits) == None
    ensures MeanInterval(hits).Some?
  {
  }
}
