/**
 * The sliding-window send-rate meter (transport/congestion.go): a slice of
 * samples with a head index, a running total on uint64, and compaction in place.
 *
 * `history` is a ghost list of every Add. The reference definitions recompute
 * from that list.
 */
module SendRateMeter {
  import opened Bytes
  import opened AccessUnits

  const DEFAULT_WINDOW_MICROS: int := 1_000_000
  const COMPACT_ABOVE: nat := 1024

  datatype Sample = Sample(tMicros: int, bytes: uint32)

  // One call of Add.
  datatype Added = Added(tMicros: int, n: int)

  function U32(n: int): uint32 { n % TWO_TO_32 }
  function U64(n: int): uint64 { n % TWO_TO_64 }

  // ---- Recomputation from the whole history ----

  // Bytes added at or after the cutoff, among the first i calls.
  function NaiveTotal(h: seq<Added>, cutoff: int, i: nat): int
    requires i <= |h|
  {
    if i == 0 then 0
    else NaiveTotal(h, cutoff, i - 1) + if h[i - 1].tMicros >= cutoff then h[i - 1].n else 0
  }

  // The time of the first call, from call i on, at or after the cutoff.
  function FirstSince(h: seq<Added>, cutoff: int, i: nat): Option<int>
    requires i <= |h|
    decreases |h| - i
  {
    if i == |h| then None
    else if h[i].tMicros >= cutoff then Some(h[i].tMicros)
    else FirstSince(h, cutoff, i + 1)
  }

  // The trailing-window average in bytes per second, on uint64, when the total is
  // off by `extra`.
  function RateOff(h: seq<Added>, window: int, now: int, extra: int): int {
    var cutoff := now - window;
    match FirstSince(h, cutoff, 0)
    case None => 0
    case Some(first) =>
      if now - first <= 0 then 0 else PerSecond(NaiveTotal(h, cutoff, |h|) + extra, now - first)
  }

  function NaiveRate(h: seq<Added>, window: int, now: int): int {
    RateOff(h, window, now, 0)
  }

  // total * 1_000_000 / span on uint64.
  function PerSecond(total: int, span: int): int
    requires span > 0
  {
    U64(total * 1_000_000) / span
  }

  // While it does not overflow it is the average, rounded down.
  lemma PerSecondMeans(total: int, span: int)
    requires span > 0 && 0 <= total * 1_000_000 < TWO_TO_64
    ensures PerSecond(total, span) * span <= total * 1_000_000 < (PerSecond(total, span) + 1) * span
  {
    DivisionBounds(total * 1_000_000, span);
  }

  lemma DivisionBounds(x: int, span: int)
    requires span > 0
    ensures (x / span) * span <= x < (x / span + 1) * span
  {}

  // ---- What the running total is ----

  // A sample keeps n on 32 bits while the total takes it on 64. What the total
  // keeps too much when the first i calls have left the window.
  function Drift(h: seq<Added>, i: nat): int
    requires i <= |h|
  {
    if i == 0 then 0 else Drift(h, i - 1) + h[i - 1].n - U32(h[i - 1].n)
  }

  ghost predicate NonDecreasing(h: seq<Added>) {
    forall i, j :: 0 <= i < j < |h| ==> h[i].tMicros <= h[j].tMicros
  }

  // Exactly the calls from g on are at or after the cutoff.
  ghost predicate SplitsAt(h: seq<Added>, cutoff: int, g: nat) {
    && g <= |h|
    && (forall i :: 0 <= i < g ==> h[i].tMicros < cutoff)
    && (forall i :: g <= i < |h| ==> h[i].tMicros >= cutoff)
  }

  lemma {:induction false} NaiveAppend(h: seq<Added>, a: Added, cutoff: int, i: nat)
    requires i <= |h|
    ensures NaiveTotal(h + [a], cutoff, i) == NaiveTotal(h, cutoff, i)
    ensures Drift(h + [a], i) == Drift(h, i)
  {
    if i > 0 {
      NaiveAppend(h, a, cutoff, i - 1);
    }
  }

  // Bytes of the calls g to i.
  function SumFrom(h: seq<Added>, g: nat, i: nat): int
    requires g <= i <= |h|
  {
    if i == g then 0 else SumFrom(h, g, i - 1) + h[i - 1].n
  }

  lemma {:induction false} SumAppend(h: seq<Added>, a: Added, g: nat, i: nat)
    requires g <= i <= |h|
    ensures SumFrom(h + [a], g, i) == SumFrom(h, g, i)
  {
    if i > g {
      SumAppend(h, a, g, i - 1);
    }
  }

  lemma {:induction false} SumSkips(h: seq<Added>, g: nat, i: nat)
    requires g < i <= |h|
    ensures SumFrom(h, g, i) == h[g].n + SumFrom(h, g + 1, i)
  {
    if i > g + 1 {
      SumSkips(h, g, i - 1);
    }
  }

  lemma {:induction false} NaiveIsSum(h: seq<Added>, cutoff: int, g: nat, i: nat)
    requires SplitsAt(h, cutoff, g) && g <= i <= |h|
    ensures NaiveTotal(h, cutoff, i) == SumFrom(h, g, i)
  {
    if i > g {
      NaiveIsSum(h, cutoff, g, i - 1);
    } else {
      NaiveIsNone(h, cutoff, i);
    }
  }

  lemma {:induction false} NaiveIsNone(h: seq<Added>, cutoff: int, i: nat)
    requires i <= |h| && forall k :: 0 <= k < i ==> h[k].tMicros < cutoff
    ensures NaiveTotal(h, cutoff, i) == 0
  {
    if i > 0 {
      NaiveIsNone(h, cutoff, i - 1);
    }
  }

  lemma {:induction false} FirstIsAt(h: seq<Added>, cutoff: int, g: nat, i: nat)
    requires SplitsAt(h, cutoff, g) && i <= g
    ensures FirstSince(h, cutoff, i) == if g == |h| then None else Some(h[g].tMicros)
    decreases g - i
  {
    if i < g {
      FirstIsAt(h, cutoff, g, i + 1);
    }
  }

  // The running total once the first g calls have left the window.
  function RunningTotal(h: seq<Added>, g: nat): uint64
    requires g <= |h|
  {
    U64(SumFrom(h, g, |h|) + Drift(h, g))
  }

  class Meter {
    const windowMicros: int
    var samples: seq<Sample>
    var head: nat
    var totalBytes: uint64

    ghost var history: seq<Added>
    ghost var base: nat   // calls compacted away: sample i is call base + i
    ghost var clock: int  // the time of the last call of Add or Rate

    constructor (window: int, now: int)
      ensures Valid() && history == [] && clock == now
      ensures windowMicros == if window <= 0 then DEFAULT_WINDOW_MICROS else window
    {
      windowMicros := if window <= 0 then DEFAULT_WINDOW_MICROS else window;
      samples, head, totalBytes := [], 0, 0;
      history, base, clock := [], 0, now;
    }

    // Calls that have left the window.
    ghost function Gone(): nat
      reads this
    {
      base + head
    }

    ghost predicate Shape()
      reads this
    {
      && windowMicros > 0
      && head <= |samples| && |history| == base + |samples|
      && (forall i :: 0 <= i < |samples| ==>
            samples[i].tMicros == history[base + i].tMicros && samples[i].bytes == U32(history[base + i].n))
    }

    // The total is the sum of the calls still in the window plus the drift of
    // those that have left it.
    ghost predicate Total()
      requires Shape()
      reads this
    {
      totalBytes == RunningTotal(history, Gone())
    }

    // Times never decrease, and what has left the window is too old for it.
    ghost predicate Times()
      requires Shape()
      reads this
    {
      && NonDecreasing(history)
      && (forall i :: 0 <= i < |history| ==> history[i].tMicros <= clock)
      && (forall i :: 0 <= i < Gone() ==> history[i].tMicros < clock - windowMicros)
    }

    ghost predicate Valid()
      reads this
    {
      Shape() && Total() && Times()
    }

    // Drop samples older than the window from the head.
    method Advance(now: int)
      requires Valid() && now == clock
      modifies this`head, this`totalBytes
      ensures Valid() && SplitsAt(history, now - windowMicros, Gone())
    {
      while head < |samples| && samples[head].tMicros < now - windowMicros
        invariant Valid()
        decreases |samples| - head
      {
        DropHead();
      }
      SplitHere(history, now - windowMicros, Gone());
    }

    method DropHead()
      requires Valid() && head < |samples| && samples[head].tMicros < clock - windowMicros
      modifies this`head, this`totalBytes
      ensures Valid() && head == old(head) + 1
    {
      DropOldest(history, Gone());
      assert samples[head].bytes == U32(history[Gone()].n);
      totalBytes := U64(totalBytes - samples[head].bytes);
      head := head + 1;
      assert Gone() == old(Gone()) + 1;
    }

    // The clock moves on; what was too old stays too old.
    ghost method Tick(now: int)
      requires Valid() && now >= clock
      modifies this`clock
      ensures Valid() && clock == now
    {
      clock := now;
    }

    method Add(n: int, now: int)
      requires Valid() && now >= clock
      modifies this
      ensures Valid() && clock == now && history == old(history) + [Added(now, n)]
      ensures SplitsAt(history, now - windowMicros, Gone()) && head <= COMPACT_ABOVE
    {
      Tick(now);
      Append(n, now);
      Advance(now);
      if head > COMPACT_ABOVE {
        Compact();
      }
    }

    // After every call the running total is the recomputed total of the window,
    // plus what oversized calls left behind.
    lemma TotalIsNaive()
      requires Valid() && SplitsAt(history, clock - windowMicros, Gone())
      ensures totalBytes == U64(NaiveTotal(history, clock - windowMicros, |history|) + Drift(history, Gone()))
    {
      RunningIsNaive(history, clock - windowMicros, Gone());
    }

    method Append(n: int, now: int)
      requires Valid() && now == clock
      modifies this`samples, this`totalBytes, this`history
      ensures Valid() && history == old(history) + [Added(now, n)]
    {
      AppendCall(history, Gone(), Added(now, n));
      samples := samples + [Sample(now, U32(n))];
      totalBytes := U64(totalBytes + U64(n));
      history := history + [Added(now, n)];
    }

    // Remove the dead prefix. No answer changes.
    method Compact()
      requires Valid()
      modifies this`samples, this`head, this`base
      ensures Valid() && head == 0 && Gone() == old(Gone())
    {
      samples := samples[head..];
      base := base + head;
      head := 0;
    }

    // The rate is the recomputed one, off by the drift of the calls that have
    // left the window: the recomputed one exactly as long as all of those had
    // sizes a sample can keep.
    method Rate(now: int) returns (r: int)
      requires Valid() && now >= clock
      modifies this`head, this`totalBytes, this`clock
      ensures Valid() && clock == now && SplitsAt(history, now - windowMicros, Gone())
      ensures r == RateOff(history, windowMicros, now, Drift(history, Gone()))
      ensures (forall k :: 0 <= k < Gone() ==> 0 <= history[k].n < TWO_TO_32) ==> r == NaiveRate(history, windowMicros, now)
    {
      Tick(now);
      Advance(now);
      r := Current(now);
      RateIsOffByDrift(history, windowMicros, now, Gone());
      if forall k :: 0 <= k < Gone() ==> 0 <= history[k].n < TWO_TO_32 {
        NoDrift(history, Gone());
      }
    }

    method Current(now: int) returns (r: int)
      requires Shape()
      ensures r == HeadRate(history, Gone(), totalBytes, now)
    {
      if head >= |samples| {
        return 0;
      }
      var span := now - samples[head].tMicros;
      if span <= 0 {
        return 0;
      }
      return PerSecond(totalBytes, span);
    }
  }

  lemma RunningIsNaive(h: seq<Added>, cutoff: int, g: nat)
    requires SplitsAt(h, cutoff, g)
    ensures RunningTotal(h, g) == U64(NaiveTotal(h, cutoff, |h|) + Drift(h, g))
  {
    NaiveIsSum(h, cutoff, g, |h|);
  }

  // The rate as the meter computes it from its head and its total.
  function HeadRate(h: seq<Added>, g: nat, total: int, now: int): int
    requires g <= |h|
  {
    if g == |h| || now - h[g].tMicros <= 0 then 0 else PerSecond(total, now - h[g].tMicros)
  }

  lemma RateIsOffByDrift(h: seq<Added>, window: int, now: int, g: nat)
    requires SplitsAt(h, now - window, g)
    ensures RateOff(h, window, now, Drift(h, g)) == HeadRate(h, g, RunningTotal(h, g), now)
  {
    var total := NaiveTotal(h, now - window, |h|) + Drift(h, g);
    assert RunningTotal(h, g) == U64(total) by {
      RunningIsNaive(h, now - window, g);
    }
    assert RateOff(h, window, now, Drift(h, g)) == HeadRate(h, g, total, now) by {
      FirstIsAt(h, now - window, g, 0);
    }
    if g < |h| && now - h[g].tMicros > 0 {
      PerSecondWraps(total, now - h[g].tMicros);
    }
  }

  // The recomputed rate, where it does not overflow: nothing without a call in the
  // window before now, else the bytes of the window over the time since its first
  // call, per second, rounded down.
  lemma NaiveRateMeans(h: seq<Added>, window: int, now: int, g: nat)
    requires SplitsAt(h, now - window, g)
    ensures g == |h| || now <= h[g].tMicros ==> NaiveRate(h, window, now) == 0
    ensures g < |h| && now > h[g].tMicros && 0 <= SumFrom(h, g, |h|) * 1_000_000 < TWO_TO_64 ==>
      var rate, span := NaiveRate(h, window, now), now - h[g].tMicros;
      rate * span <= SumFrom(h, g, |h|) * 1_000_000 < (rate + 1) * span
  {
    FirstIsAt(h, now - window, g, 0);
    NaiveIsSum(h, now - window, g, |h|);
    if g < |h| && now > h[g].tMicros && 0 <= SumFrom(h, g, |h|) * 1_000_000 < TWO_TO_64 {
      PerSecondMeans(SumFrom(h, g, |h|), now - h[g].tMicros);
    }
  }

  lemma PerSecondWraps(total: int, span: int)
    requires span > 0
    ensures PerSecond(U64(total), span) == PerSecond(total, span)
  {
    WrapMul(total, 1_000_000);
  }

  lemma SplitHere(h: seq<Added>, cutoff: int, g: nat)
    requires g <= |h| && NonDecreasing(h)
    requires forall i :: 0 <= i < g ==> h[i].tMicros < cutoff
    requires g < |h| ==> h[g].tMicros >= cutoff
    ensures SplitsAt(h, cutoff, g)
  {}

  lemma DropOldest(h: seq<Added>, g: nat)
    requires g < |h|
    ensures U64(RunningTotal(h, g) - U32(h[g].n)) == RunningTotal(h, g + 1)
  {
    SumSkips(h, g, |h|);
    WrapSub(SumFrom(h, g, |h|) + Drift(h, g), U32(h[g].n));
  }

  lemma AppendCall(h: seq<Added>, g: nat, a: Added)
    requires g <= |h|
    ensures U64(RunningTotal(h, g) + U64(a.n)) == RunningTotal(h + [a], g)
  {
    SumAppend(h, a, g, |h|);
    NaiveAppend(h, a, 0, g);
    WrapAdd(SumFrom(h, g, |h|) + Drift(h, g), a.n);
  }

  lemma WrapAdd(x: int, n: int)
    ensures U64(U64(x) + U64(n)) == U64(x + n)
  {}

  lemma WrapSub(x: int, n: int)
    ensures U64(U64(x) - n) == U64(x - n)
  {}

  lemma WrapMul(x: int, k: nat)
    ensures U64(U64(x) * k) == U64(x * k)
  {
    var q := x / TWO_TO_64;
    assert x == q * TWO_TO_64 + U64(x);
    assert x * k == U64(x) * k + (q * k) * TWO_TO_64;
    ShiftMod(U64(x) * k, q * k);
  }

  lemma ShiftMod(y: int, m: int)
    ensures U64(y + m * TWO_TO_64) == U64(y)
  {}

  // For the sizes a caller can see: with non-negative sizes, less than 2^64 bytes
  // of which have left the window, the running total is the recomputed one if and
  // only if no call of 2^32 bytes or more has left the window.
  lemma TotalIsExactIff(h: seq<Added>, cutoff: int, g: nat)
    requires SplitsAt(h, cutoff, g)
    requires (forall k :: 0 <= k < |h| ==> h[k].n >= 0) && SumFrom(h, 0, g) < TWO_TO_64
    ensures RunningTotal(h, g) == U64(NaiveTotal(h, cutoff, |h|)) <==> forall k :: 0 <= k < g ==> h[k].n < TWO_TO_32
  {
    RunningIsNaive(h, cutoff, g);
    SameModuloIff(NaiveTotal(h, cutoff, |h|), Drift(h, g));
    DriftIsBounded(h, g);
    DriftIffOversized(h, g);
    SmallMultiple(Drift(h, g));
  }

  lemma SameModuloIff(x: int, d: int)
    ensures U64(x + d) == U64(x) <==> d % TWO_TO_64 == 0
  {}

  lemma SmallMultiple(d: int)
    requires 0 <= d < TWO_TO_64
    ensures d % TWO_TO_64 == 0 <==> d == 0
  {}

  lemma {:induction false} DriftIsBounded(h: seq<Added>, i: nat)
    requires i <= |h| && forall k :: 0 <= k < |h| ==> h[k].n >= 0
    ensures 0 <= Drift(h, i) <= SumFrom(h, 0, i)
  {
    if i > 0 {
      DriftIsBounded(h, i - 1);
    }
  }

  // Calls whose sizes a sample can keep leave no drift.
  lemma {:induction false} NoDrift(h: seq<Added>, i: nat)
    requires i <= |h| && forall k :: 0 <= k < i ==> 0 <= h[k].n < TWO_TO_32
    ensures Drift(h, i) == 0
  {
    if i > 0 {
      NoDrift(h, i - 1);
    }
  }

  // With non-negative sizes there is drift exactly when a call of 2^32 bytes or
  // more has left the window.
  lemma {:induction false} DriftIffOversized(h: seq<Added>, i: nat)
    requires i <= |h| && forall k :: 0 <= k < |h| ==> h[k].n >= 0
    ensures Drift(h, i) >= 0
    ensures Drift(h, i) == 0 <==> forall k :: 0 <= k < i ==> h[k].n < TWO_TO_32
  {
    if i > 0 {
      DriftIffOversized(h, i - 1);
    }
  }

  // For example, a single call of 2^32 bytes leaves 2^32 bytes in the total for
  // good.
  lemma OversizedCallStays(t: int, later: int, window: int)
    requires window > 0 && t < later - window
    ensures var h := [Added(t, TWO_TO_32), Added(later, 0)];
      && SplitsAt(h, later - window, 1)
      && NaiveTotal(h, later - window, |h|) == 0
      && RunningTotal(h, 1) == TWO_TO_32
  {
    var h := [Added(t, TWO_TO_32), Added(later, 0)];
    assert SumFrom(h, 1, 1) == 0 && SumFrom(h, 1, 2) == 0;
    assert Drift(h, 0) == 0 && Drift(h, 1) == TWO_TO_32;
    assert NaiveTotal(h, later - window, 0) == 0 && NaiveTotal(h, later - window, 1) == 0;
  }
}
