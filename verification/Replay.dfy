/**
 * What the replay ring of pubsub/broadcaster.go is for, stated on the list of
 * everything published: the ring keeps the longest suffix that fits its limits.
 */
module Replay {
  import opened Bytes
  import opened AccessUnits

  const DEFAULT_REPLAY_CAP: nat := 256
  const DEFAULT_REPLAY_MAX_BYTES: nat := 0x400_0000

  // A list the ring may hold: at most `slots` entries and at most `budget`
  // bytes, except that a single access unit is never refused for its size.
  // A budget of 0 means no byte limit.
  predicate Fits(s: seq<AccessUnit>, slots: nat, budget: nat) {
    |s| <= slots && (budget == 0 || |s| <= 1 || TotalBytes(s) <= budget)
  }

  // What is left of h when its oldest entries are dropped until it fits.
  function Retain(h: seq<AccessUnit>, slots: nat, budget: nat): seq<AccessUnit>
    decreases |h|
  {
    if Fits(h, slots, budget) then h else Retain(h[1..], slots, budget)
  }

  // It is the longest suffix of h that fits, and it is empty only if nothing
  // was published or the ring is switched off.
  lemma {:induction false} RetainIsLongest(h: seq<AccessUnit>, slots: nat, budget: nat)
    ensures var r := Retain(h, slots, budget);
      && IsSuffix(r, h)
      && Fits(r, slots, budget)
      && (forall k :: 0 <= k < |h| - |r| ==> !Fits(h[k..], slots, budget))
      && (r == [] <==> h == [] || slots == 0)
    decreases |h|
  {
    assert h[0..] == h;
    if !Fits(h, slots, budget) {
      var tail, r := h[1..], Retain(h, slots, budget);
      RetainIsLongest(tail, slots, budget);
      forall k | 0 <= k < |h| - |r|
        ensures !Fits(h[k..], slots, budget)
      {
        if k > 0 {
          assert h[k..] == tail[k - 1..];
        }
      }
    }
  }

  predicate WithinBudget(s: seq<AccessUnit>, budget: nat) {
    TotalBytes(s) <= budget
  }

  // What is left of h when its oldest entries are dropped until it is within
  // a byte budget.
  function Trim(h: seq<AccessUnit>, budget: nat): seq<AccessUnit>
    decreases |h|
  {
    if WithinBudget(h, budget) then h else Trim(h[1..], budget)
  }

  // It is the longest suffix within the budget; unlike Retain it drops even a
  // lone access unit that is too large.
  lemma {:induction false} TrimIsLongest(h: seq<AccessUnit>, budget: nat)
    ensures var r := Trim(h, budget);
      && IsSuffix(r, h)
      && WithinBudget(r, budget)
      && (forall k :: 0 <= k < |h| - |r| ==> !WithinBudget(h[k..], budget))
    decreases |h|
  {
    assert h[0..] == h;
    if !WithinBudget(h, budget) {
      var tail, r := h[1..], Trim(h, budget);
      TrimIsLongest(tail, budget);
      forall k | 0 <= k < |h| - |r|
        ensures !WithinBudget(h[k..], budget)
      {
        if k > 0 {
          assert h[k..] == tail[k - 1..];
        }
      }
    }
  }

  lemma FitsWithoutLast(s: seq<AccessUnit>, au: AccessUnit, slots: nat, budget: nat)
    requires Fits(s + [au], slots, budget)
    ensures Fits(s, slots, budget)
  {
    TotalBytesAppend(s, au);
  }

  // Keeping only what the ring kept, and then appending, loses nothing that
  // the ring would have kept of the whole history.
  lemma {:induction false} RetainStep(h: seq<AccessUnit>, au: AccessUnit, slots: nat, budget: nat)
    ensures Retain(Retain(h, slots, budget) + [au], slots, budget) == Retain(h + [au], slots, budget)
    decreases |h|
  {
    if !Fits(h, slots, budget) {
      if Fits(h + [au], slots, budget) {
        FitsWithoutLast(h, au, slots, budget);
      }
      assert (h + [au])[1..] == h[1..] + [au];
      RetainStep(h[1..], au, slots, budget);
    }
  }

  lemma RetainPrefix(h: seq<AccessUnit>, i: nat, slots: nat, budget: nat)
    requires i < |h|
    ensures Retain(h[..i + 1], slots, budget) == Retain(Retain(h[..i], slots, budget) + [h[i]], slots, budget)
  {
    assert h[..i + 1] == h[..i] + [h[i]];
    RetainStep(h[..i], h[i], slots, budget);
  }

  // One eviction changes nothing in what will be retained.
  lemma RetainAfterEvict(c: seq<AccessUnit>, au: AccessUnit, slots: nat, budget: nat)
    requires c != [] && !Fits(c + [au], slots, budget)
    ensures Retain(c[1..] + [au], slots, budget) == Retain(c + [au], slots, budget)
  {
    assert (c + [au])[1..] == c[1..] + [au];
  }

  // Once the byte budget holds, at most one more entry has to go.
  lemma RetainSettled(c: seq<AccessUnit>, au: AccessUnit, slots: nat, budget: nat)
    requires 0 < slots && |c| <= slots
    requires budget == 0 || c == [] || TotalBytes(c + [au]) <= budget
    ensures Retain(c + [au], slots, budget) == if |c| < slots then c + [au] else c[1..] + [au]
  {
    if |c| == slots {
      assert (c + [au])[1..] == c[1..] + [au];
      RetainAfterEvict(c, au, slots, budget);
    }
  }

  // A ring that is a suffix of the history stays one when both grow.
  lemma SuffixKept(c: seq<AccessUnit>, h: seq<AccessUnit>, au: AccessUnit, slots: nat, budget: nat)
    requires IsSuffix(c, h)
    ensures IsSuffix(Retain(c + [au], slots, budget), h + [au])
  {
    SuffixAppend(c, h, au);
    RetainIsLongest(c + [au], slots, budget);
    SuffixTransitive(Retain(c + [au], slots, budget), c + [au], h + [au]);
  }

  // Retain of the last `slots` entries is Retain of everything.
  lemma {:induction false} RetainOfLastN(h: seq<AccessUnit>, slots: nat, budget: nat)
    ensures Retain(LastN(h, slots), slots, budget) == Retain(h, slots, budget)
    decreases |h|
  {
    if |h| > slots {
      assert LastN(h[1..], slots) == LastN(h, slots);
      RetainOfLastN(h[1..], slots, budget);
    }
  }

  // ---- Whole runs of the ring ----

  // What can happen to a ring: an accepted Publish, SetReplayCap(n) or
  // SetReplayMaxBytes(n); negative arguments mean 0.
  datatype RingOp = Append(au: AccessUnit) | SetCap(n: int) | SetMaxBytes(n: int)

  datatype Ring = Ring(contents: seq<AccessUnit>, slots: nat, budget: nat)

  function NonNegative(n: int): nat { if n < 0 then 0 else n }

  function RingStep(r: Ring, op: RingOp): Ring {
    match op
    case Append(au) => r.(contents := Retain(r.contents + [au], r.slots, r.budget))
    case SetCap(n) =>
      if NonNegative(n) == r.slots then r
      else r.(contents := Retain(r.contents, NonNegative(n), r.budget), slots := NonNegative(n))
    case SetMaxBytes(n) =>
      r.(contents := if n <= 0 then r.contents else Trim(r.contents, n), budget := NonNegative(n))
  }

  // s is a suffix of h with at most `slots` entries, and at most `budget` bytes
  // unless it is a single entry or there is no budget; every longer suffix of h has
  // too many entries or too many bytes.
  ghost predicate LongestWithin(s: seq<AccessUnit>, h: seq<AccessUnit>, slots: nat, budget: nat) {
    && IsSuffix(s, h)
    && |s| <= slots && (budget > 0 && |s| > 1 ==> TotalBytes(s) <= budget)
    && (forall k :: 0 <= k < |h| - |s| ==> |h[k..]| > slots || (budget > 0 && |h[k..]| > 1 && TotalBytes(h[k..]) > budget))
  }

  lemma RetainIs(h: seq<AccessUnit>, slots: nat, budget: nat)
    ensures LongestWithin(Retain(h, slots, budget), h, slots, budget)
  {
    RetainIsLongest(h, slots, budget);
    forall k | 0 <= k < |h| - |Retain(h, slots, budget)|
      ensures |h[k..]| > slots || (budget > 0 && |h[k..]| > 1 && TotalBytes(h[k..]) > budget)
    {
      assert !Fits(h[k..], slots, budget);
    }
  }

  // There is only one such suffix, and a list within the limits is kept whole.
  lemma LongestIsUnique(a: seq<AccessUnit>, b: seq<AccessUnit>, h: seq<AccessUnit>, slots: nat, budget: nat)
    requires LongestWithin(a, h, slots, budget) && LongestWithin(b, h, slots, budget)
    ensures a == b
    ensures |h| <= slots && (budget == 0 || TotalBytes(h) <= budget) ==> a == h
  {
    assert h[|h| - |a|..] == a && h[|h| - |b|..] == b && h[0..] == h;
  }

  // Appending keeps the longest suffix of the contents and the new entry that is
  // within the limits.
  lemma AppendMeans(r: Ring, au: AccessUnit)
    ensures var after := RingStep(r, Append(au));
      && after.slots == r.slots && after.budget == r.budget
      && LongestWithin(after.contents, r.contents + [au], r.slots, r.budget)
      && (r.slots > 0 ==> after.contents != [] && after.contents[|after.contents| - 1] == au)
  {
    RetainIsLongest(r.contents + [au], r.slots, r.budget);
    RetainIs(r.contents + [au], r.slots, r.budget);
  }

  // A resize keeps the longest suffix within the new size; what fits stays.
  lemma SetCapMeans(r: Ring, n: int)
    ensures var after := RingStep(r, SetCap(n));
      && after.slots == (if n < 0 then 0 else n) && after.budget == r.budget
      && (if after.slots == r.slots then after.contents == r.contents
          else LongestWithin(after.contents, r.contents, after.slots, r.budget))
  {
    RetainIs(r.contents, NonNegative(n), r.budget);
  }

  // A new byte budget keeps the longest suffix within it, be it empty; no budget
  // keeps everything.
  lemma SetMaxBytesMeans(r: Ring, n: int)
    ensures var after := RingStep(r, SetMaxBytes(n));
      && after.budget == (if n < 0 then 0 else n) && after.slots == r.slots
      && (n <= 0 ==> after.contents == r.contents)
      && (n > 0 ==>
            && IsSuffix(after.contents, r.contents) && TotalBytes(after.contents) <= n
            && forall k :: 0 <= k < |r.contents| - |after.contents| ==> TotalBytes(r.contents[k..]) > n)
  {
    TrimIsLongest(r.contents, NonNegative(n));
    if n > 0 {
      forall k | 0 <= k < |r.contents| - |Trim(r.contents, n)|
        ensures TotalBytes(r.contents[k..]) > n
      {
        assert !WithinBudget(r.contents[k..], n);
      }
    }
  }

  function RingRun(r: Ring, ops: seq<RingOp>): Ring {
    if ops == [] then r else RingStep(RingRun(r, ops[..|ops| - 1]), ops[|ops| - 1])
  }

  // Everything accepted in a run, in publish order.
  function Accepted(ops: seq<RingOp>): seq<AccessUnit> {
    if ops == [] then []
    else
      var before := Accepted(ops[..|ops| - 1]);
      match ops[|ops| - 1]
      case Append(au) => before + [au]
      case _ => before
  }

  lemma SuffixTransitive<T>(a: seq<T>, b: seq<T>, c: seq<T>)
    requires IsSuffix(a, b) && IsSuffix(b, c)
    ensures IsSuffix(a, c)
  {}

  lemma SuffixAppend<T>(a: seq<T>, h: seq<T>, x: T)
    requires IsSuffix(a, h)
    ensures IsSuffix(a + [x], h + [x])
  {}

  lemma RingStepSuffix(r: Ring, op: RingOp)
    ensures IsSuffix(RingStep(r, op).contents, if op.Append? then r.contents + [op.au] else r.contents)
  {
    match op
    case Append(au) => RetainIsLongest(r.contents + [au], r.slots, r.budget);
    case SetCap(n) => RetainIsLongest(r.contents, NonNegative(n), r.budget);
    case SetMaxBytes(n) => TrimIsLongest(r.contents, NonNegative(n));
  }

  // Whatever the limits were changed to on the way, the ring is a contiguous
  // suffix of the accepted history, in publish order.
  lemma {:induction false} RingIsSuffix(slots: nat, budget: nat, ops: seq<RingOp>)
    ensures IsSuffix(RingRun(Ring([], slots, budget), ops).contents, Accepted(ops))
  {
    if ops != [] {
      var front, op := ops[..|ops| - 1], ops[|ops| - 1];
      var before := RingRun(Ring([], slots, budget), front);
      var after := RingStep(before, op);
      RingIsSuffix(slots, budget, front);
      RingStepSuffix(before, op);
      if op.Append? {
        SuffixAppend(before.contents, Accepted(front), op.au);
        SuffixTransitive(after.contents, before.contents + [op.au], Accepted(ops));
      } else {
        SuffixTransitive(after.contents, before.contents, Accepted(ops));
      }
    }
  }

  // Whatever the limits were changed to on the way, the ring is within them.
  lemma {:induction false} RingWithinLimits(slots: nat, budget: nat, ops: seq<RingOp>)
    ensures var r := RingRun(Ring([], slots, budget), ops);
      |r.contents| <= r.slots && (r.budget > 0 && |r.contents| > 1 ==> TotalBytes(r.contents) <= r.budget)
  {
    if ops != [] {
      var front, op := ops[..|ops| - 1], ops[|ops| - 1];
      RingWithinLimits(slots, budget, front);
      var before := RingRun(Ring([], slots, budget), front);
      match op
      case Append(au) => AppendMeans(before, au);
      case SetCap(n) => SetCapMeans(before, n);
      case SetMaxBytes(n) => SetMaxBytesMeans(before, n);
    }
  }

  // With fixed limits the ring is exactly the longest fitting suffix of the
  // whole history.
  lemma {:induction false} RingRetainsHistory(slots: nat, budget: nat, ops: seq<RingOp>)
    requires forall op :: op in ops ==> op.Append?
    ensures RingRun(Ring([], slots, budget), ops) == Ring(Retain(Accepted(ops), slots, budget), slots, budget)
    ensures LongestWithin(RingRun(Ring([], slots, budget), ops).contents, Accepted(ops), slots, budget)
  {
    RetainIs(Accepted(ops), slots, budget);
    if ops != [] {
      var front, op := ops[..|ops| - 1], ops[|ops| - 1];
      assert op in ops;
      RingRetainsHistory(slots, budget, front);
      RetainStep(Accepted(front), op.au, slots, budget);
    }
  }
}
