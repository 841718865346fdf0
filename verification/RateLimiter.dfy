/**
 * The inbound rate limiter (session/ratelimit.go): two token buckets, one for
 * access units and one for bytes, refilled from one clock. Floating-point
 * numbers are modelled as reals; seconds come from the caller's clock.
 */
module RateLimiter {

  // session.RateLimit: zero or negative rates are unlimited, zero or negative
  // bursts mean one second's worth.
  datatype RateLimit = RateLimit(maxAUsPerSecond: int, maxBytesPerSecond: int, burstAUs: int, burstBytes: int)

  datatype Bucket = Bucket(tokens: real, cap: real, rate: real)

  function NewBucket(rate: int, burst: int): Bucket {
    var cap := if burst <= 0 then rate else burst;
    Bucket(cap as real, cap as real, rate as real)
  }

  // Tokens after `elapsed` seconds.
  function Refill(tokens: real, cap: real, rate: real, elapsed: real): real {
    var t := tokens + elapsed * rate;
    if t > cap then cap else t
  }

  function Refilled(b: Bucket, elapsed: real): Bucket {
    b.(tokens := Refill(b.tokens, b.cap, b.rate, elapsed))
  }

  predicate Limits(b: Bucket) {
    b.rate > 0.0
  }

  datatype Limiter = Limiter(au: Bucket, bytes: Bucket, last: real)

  datatype Call = Call(now: real, size: nat)

  // One call of allow: what it leaves and what it answers. The byte bucket is
  // refilled only if the access-unit bucket does not refuse, and tokens are
  // spent only if neither refuses.
  function Allow(l: Limiter, c: Call): (Limiter, bool) {
    var elapsed := c.now - l.last;
    var au := if Limits(l.au) then Refilled(l.au, elapsed) else l.au;
    if Limits(au) && au.tokens < 1.0 then (Limiter(au, l.bytes, c.now), false)
    else
      var bytes := if Limits(l.bytes) then Refilled(l.bytes, elapsed) else l.bytes;
      if Limits(bytes) && bytes.tokens < c.size as real then (Limiter(au, bytes, c.now), false)
      else (Limiter(Spent(au, 1.0), Spent(bytes, c.size as real), c.now), true)
  }

  function Spent(b: Bucket, cost: real): Bucket {
    if Limits(b) then b.(tokens := b.tokens - cost) else b
  }

  // ---- Runs ----

  // states[k] is the limiter before call k and oks[k] the answer to it.
  ghost predicate IsRun(states: seq<Limiter>, oks: seq<bool>, calls: seq<Call>) {
    && |states| == |calls| + 1 && |oks| == |calls|
    && Sound(states[0]) && ClockOk(states[0].last, calls)
    && (forall k :: 0 <= k < |calls| ==>
          states[k + 1] == Allow(states[k], calls[k]).0 && oks[k] == Allow(states[k], calls[k]).1)
  }

  ghost predicate ClockOk(start: real, calls: seq<Call>) {
    && (calls != [] ==> start <= calls[0].now)
    && (forall i, j :: 0 <= i < j < |calls| ==> calls[i].now <= calls[j].now)
  }

  // A limiting bucket holds between nothing and its cap.
  predicate InRange(b: Bucket) {
    Limits(b) ==> 0.0 <= b.tokens <= b.cap
  }

  predicate Sound(l: Limiter) {
    InRange(l.au) && InRange(l.bytes)
  }

  lemma RefillBound(b: Bucket, elapsed: real)
    requires InRange(b) && Limits(b) && elapsed >= 0.0
    ensures 0.0 <= Refilled(b, elapsed).tokens <= b.cap
    ensures Refilled(b, elapsed).tokens <= b.tokens + elapsed * b.rate
    ensures elapsed * b.rate >= 0.0
  {}

  // b became c at a cost: c gained no more than rate times elapsed, held no more
  // than the cap, and paid the cost.
  ghost predicate Pays(b: Bucket, elapsed: real, cost: real, c: Bucket) {
    && InRange(c) && c.rate == b.rate && c.cap == b.cap
    && (Limits(b) ==> c.tokens + cost <= b.cap && c.tokens + cost <= b.tokens + elapsed * b.rate)
  }

  ghost predicate CallPays(l: Limiter, c: Call, m: Limiter, ok: bool) {
    && m.last == c.now
    && Pays(l.au, c.now - l.last, if ok then 1.0 else 0.0, m.au)
    && Pays(l.bytes, c.now - l.last, if ok then c.size as real else 0.0, m.bytes)
  }

  lemma AllowPays(l: Limiter, c: Call)
    requires Sound(l) && c.now >= l.last
    ensures CallPays(l, c, Allow(l, c).0, Allow(l, c).1)
  {
    var elapsed := c.now - l.last;
    if Limits(l.au) {
      RefillBound(l.au, elapsed);
    }
    if Limits(l.bytes) {
      RefillBound(l.bytes, elapsed);
    }
  }

  lemma {:induction false} RunPays(states: seq<Limiter>, oks: seq<bool>, calls: seq<Call>, n: nat)
    requires IsRun(states, oks, calls) && n <= |calls|
    ensures Sound(states[n]) && SameLimits(states[0], states[n])
    ensures n > 0 ==> CallPays(states[n - 1], calls[n - 1], states[n], oks[n - 1])
    ensures states[n].last == if n == 0 then states[0].last else calls[n - 1].now
  {
    if n > 0 {
      RunPays(states, oks, calls, n - 1);
      AllowPays(states[n - 1], calls[n - 1]);
    }
  }

  predicate SameLimits(l: Limiter, m: Limiter) {
    m.au.rate == l.au.rate && m.au.cap == l.au.cap && m.bytes.rate == l.bytes.rate && m.bytes.cap == l.bytes.cap
  }

  // ---- The bound ----

  // Access units and bytes admitted by the calls i to j.
  function AdmittedUnits(oks: seq<bool>, i: nat, j: nat): real
    requires i <= j <= |oks|
  {
    if i == j then 0.0 else AdmittedUnits(oks, i, j - 1) + if oks[j - 1] then 1.0 else 0.0
  }

  function AdmittedBytes(oks: seq<bool>, calls: seq<Call>, i: nat, j: nat): real
    requires i <= j <= |oks| == |calls|
  {
    if i == j then 0.0
    else AdmittedBytes(oks, calls, i, j - 1) + if oks[j - 1] then calls[j - 1].size as real else 0.0
  }

  // What was admitted, plus what is left in the bucket, is paid for by the burst
  // and the refill.
  ghost predicate Paid(admitted: real, tokens: real, b: Bucket, elapsed: real) {
    admitted + tokens <= b.cap + b.rate * elapsed
  }

  lemma PaidStart(cost: real, b: Bucket, elapsed: real, c: Bucket, limits: Bucket)
    requires Pays(b, elapsed, cost, c) && Limits(b) && b.cap == limits.cap && b.rate == limits.rate
    ensures Paid(cost, c.tokens, limits, 0.0)
  {}

  lemma PaidStep(admitted: real, cost: real, b: Bucket, c: Bucket, limits: Bucket, t0: real, t1: real, t2: real)
    requires Pays(b, t2 - t1, cost, c) && Limits(b) && b.cap == limits.cap && b.rate == limits.rate
    requires Paid(admitted, b.tokens, limits, t1 - t0)
    ensures Paid(admitted + cost, c.tokens, limits, t2 - t0)
  {
    Distribute(b.rate, t0, t1, t2);
  }

  lemma Distribute(rate: real, a: real, b: real, c: real)
    ensures rate * (b - a) + (c - b) * rate == rate * (c - a)
  {}

  lemma {:induction false} UnitsPaid(states: seq<Limiter>, oks: seq<bool>, calls: seq<Call>, i: nat, j: nat)
    requires IsRun(states, oks, calls) && i < j <= |calls| && Limits(states[0].au)
    ensures Paid(AdmittedUnits(oks, i, j), states[j].au.tokens, states[0].au, calls[j - 1].now - calls[i].now)
  {
    RunPays(states, oks, calls, j - 1);
    RunPays(states, oks, calls, j);
    var cost := if oks[j - 1] then 1.0 else 0.0;
    if j == i + 1 {
      PaidStart(cost, states[i].au, calls[i].now - states[i].last, states[j].au, states[0].au);
      assert AdmittedUnits(oks, i, j) == AdmittedUnits(oks, i, i) + cost;
    } else {
      UnitsPaid(states, oks, calls, i, j - 1);
      PaidStep(
        AdmittedUnits(oks, i, j - 1), cost, states[j - 1].au, states[j].au, states[0].au,
        calls[i].now, calls[j - 2].now, calls[j - 1].now);
    }
  }

  lemma {:induction false} BytesPaid(states: seq<Limiter>, oks: seq<bool>, calls: seq<Call>, i: nat, j: nat)
    requires IsRun(states, oks, calls) && i < j <= |calls| && Limits(states[0].bytes)
    ensures Paid(AdmittedBytes(oks, calls, i, j), states[j].bytes.tokens, states[0].bytes, calls[j - 1].now - calls[i].now)
  {
    RunPays(states, oks, calls, j - 1);
    RunPays(states, oks, calls, j);
    var cost := if oks[j - 1] then calls[j - 1].size as real else 0.0;
    if j == i + 1 {
      PaidStart(cost, states[i].bytes, calls[i].now - states[i].last, states[j].bytes, states[0].bytes);
      assert AdmittedBytes(oks, calls, i, j) == AdmittedBytes(oks, calls, i, i) + cost;
    } else {
      BytesPaid(states, oks, calls, i, j - 1);
      PaidStep(
        AdmittedBytes(oks, calls, i, j - 1), cost, states[j - 1].bytes, states[j].bytes, states[0].bytes,
        calls[i].now, calls[j - 2].now, calls[j - 1].now);
    }
  }

  // Over every window of consecutive calls, whatever the other bucket does, the
  // access units admitted are at most burst + rate x elapsed, and likewise the
  // bytes.
  lemma AdmittedIsBounded(states: seq<Limiter>, oks: seq<bool>, calls: seq<Call>, i: nat, j: nat)
    requires IsRun(states, oks, calls) && i < j <= |calls|
    ensures var l, elapsed := states[0], calls[j - 1].now - calls[i].now;
      && (Limits(l.au) ==> AdmittedUnits(oks, i, j) <= l.au.cap + l.au.rate * elapsed)
      && (Limits(l.bytes) ==> AdmittedBytes(oks, calls, i, j) <= l.bytes.cap + l.bytes.rate * elapsed)
  {
    RunPays(states, oks, calls, j);
    if Limits(states[0].au) {
      UnitsPaid(states, oks, calls, i, j);
    }
    if Limits(states[0].bytes) {
      BytesPaid(states, oks, calls, i, j);
    }
  }

  // ---- What is always admitted, and what never is ----

  // A limiter without limits admits everything and keeps its buckets.
  lemma UnlimitedAdmits(l: Limiter, c: Call)
    requires l.au.rate <= 0.0 && l.bytes.rate <= 0.0
    ensures Allow(l, c).1 && Allow(l, c).0 == l.(last := c.now)
  {}

  // An access unit larger than the byte burst is never admitted.
  lemma OversizeIsRefused(l: Limiter, c: Call)
    requires Sound(l) && c.now >= l.last && l.bytes.rate > 0.0 && c.size as real > l.bytes.cap
    ensures !Allow(l, c).1
  {}

  // Enough time without calls and a large enough burst admit the next one.
  lemma IdleAdmits(l: Limiter, c: Call)
    requires Sound(l) && c.now >= l.last
    requires l.au.rate > 0.0 ==> l.au.cap >= 1.0 && (c.now - l.last) * l.au.rate >= 1.0
    requires l.bytes.rate > 0.0 ==>
               l.bytes.cap >= c.size as real && (c.now - l.last) * l.bytes.rate >= c.size as real
    ensures Allow(l, c).1
  {
    var elapsed := c.now - l.last;
    if Limits(l.au) {
      EarnedIsThere(l.au, elapsed, elapsed * l.au.rate, 1.0);
    }
    if Limits(l.bytes) {
      EarnedIsThere(l.bytes, elapsed, elapsed * l.bytes.rate, c.size as real);
    }
  }

  lemma EarnedIsThere(b: Bucket, elapsed: real, earned: real, need: real)
    requires InRange(b) && Limits(b) && earned == elapsed * b.rate >= need && b.cap >= need
    ensures Refilled(b, elapsed).tokens >= need
  {}

  // A call that both buckets can pay for is admitted, and costs no more.
  lemma PaidIsAdmitted(l: Limiter, c: Call)
    requires Sound(l) && c.now >= l.last
    requires l.au.rate > 0.0 ==> l.au.tokens >= 1.0
    requires l.bytes.rate > 0.0 ==> l.bytes.tokens >= c.size as real
    ensures Allow(l, c).1
    ensures l.au.rate > 0.0 ==> Allow(l, c).0.au.tokens >= l.au.tokens - 1.0
    ensures l.bytes.rate > 0.0 ==> Allow(l, c).0.bytes.tokens >= l.bytes.tokens - c.size as real
  {
    if Limits(l.au) {
      RefillBound(l.au, c.now - l.last);
    }
    if Limits(l.bytes) {
      RefillBound(l.bytes, c.now - l.last);
    }
  }

  // Bytes the first n calls ask for.
  function Asked(calls: seq<Call>, n: nat): nat
    requires n <= |calls|
  {
    if n == 0 then 0 else Asked(calls, n - 1) + calls[n - 1].size
  }

  // The burst is there to be used: as many calls, and as many bytes, as the
  // buckets hold are all admitted, however quickly they come.
  lemma {:induction false} BurstIsAdmitted(states: seq<Limiter>, oks: seq<bool>, calls: seq<Call>, n: nat)
    requires IsRun(states, oks, calls) && n <= |calls|
    requires states[0].au.rate > 0.0 ==> n as real <= states[0].au.tokens
    requires states[0].bytes.rate > 0.0 ==> Asked(calls, n) as real <= states[0].bytes.tokens
    ensures forall k :: 0 <= k < n ==> oks[k]
    ensures states[0].au.rate > 0.0 ==> states[n].au.tokens >= states[0].au.tokens - n as real
    ensures states[0].bytes.rate > 0.0 ==> states[n].bytes.tokens >= states[0].bytes.tokens - Asked(calls, n) as real
  {
    if n > 0 {
      BurstIsAdmitted(states, oks, calls, n - 1);
      RunPays(states, oks, calls, n - 1);
      PaidIsAdmitted(states[n - 1], calls[n - 1]);
    }
  }

  // ---- The limiter object ----

  class RateLimiter {
    var auTokens: real
    const auCap: real
    const auRate: real
    var bytesTokens: real
    const bytesCap: real
    const bytesRate: real
    var last: real

    // newRateLimiter
    constructor (cfg: RateLimit, now: real)
      ensures View() ==
        Limiter(NewBucket(cfg.maxAUsPerSecond, cfg.burstAUs), NewBucket(cfg.maxBytesPerSecond, cfg.burstBytes), now)
      ensures Sound(View()) && auTokens == auCap && bytesTokens == bytesCap && last == now
      ensures auRate == cfg.maxAUsPerSecond as real && bytesRate == cfg.maxBytesPerSecond as real
      ensures if cfg.burstAUs > 0 then auCap == cfg.burstAUs as real else auCap == auRate
      ensures if cfg.burstBytes > 0 then bytesCap == cfg.burstBytes as real else bytesCap == bytesRate
    {
      var burstAUs := if cfg.burstAUs <= 0 then cfg.maxAUsPerSecond else cfg.burstAUs;
      var burstBytes := if cfg.burstBytes <= 0 then cfg.maxBytesPerSecond else cfg.burstBytes;
      auTokens, auCap, auRate := burstAUs as real, burstAUs as real, cfg.maxAUsPerSecond as real;
      bytesTokens, bytesCap, bytesRate := burstBytes as real, burstBytes as real, cfg.maxBytesPerSecond as real;
      last := now;
    }

    ghost function View(): Limiter
      reads this
    {
      Limiter(Bucket(auTokens, auCap, auRate), Bucket(bytesTokens, bytesCap, bytesRate), last)
    }

    // allow, with the clock reading as a parameter.
    method AllowUnit(auBytes: nat, now: real) returns (ok: bool)
      requires Sound(View()) && now >= last
      modifies this
      ensures View() == Allow(old(View()), Call(now, auBytes)).0 && Sound(View())
      ensures ok == Allow(old(View()), Call(now, auBytes)).1
    {
      AllowPays(View(), Call(now, auBytes));
      var elapsed := now - last;
      last := now;
      if auRate > 0.0 {
        auTokens := Refill(auTokens, auCap, auRate, elapsed);
        if auTokens < 1.0 {
          return false;
        }
      }
      if bytesRate > 0.0 {
        bytesTokens := Refill(bytesTokens, bytesCap, bytesRate, elapsed);
        if bytesTokens < auBytes as real {
          return false;
        }
      }
      if auRate > 0.0 {
        auTokens := auTokens - 1.0;
      }
      if bytesRate > 0.0 {
        bytesTokens := bytesTokens - auBytes as real;
      }
      return true;
    }
  }
}
