/**
 Token buckets and memory caps of the rate limiter, with 64-bit arithmetic written out: what a
 bucket can ever grant, and when the memory cap means what it says.
 */
module RateLimit {
  import opened Machine

  const SECOND_NS: nat := 1_000_000_000

  datatype Bucket = Bucket(capacity: nat, tokens: nat, rate: nat, last: nat)

  predicate Fits(b: Bucket) { b.tokens <= b.capacity < TWO64 && b.rate < TWO64 && b.last < TWO64 }

  /** Whole tokens earned in `elapsed` nanoseconds. */
  function Earned(rate: nat, elapsed: nat): nat { elapsed * rate / SECOND_NS }

  /** The same as the kernel computes it: the product wraps. */
  function Earned64(rate: nat, elapsed: nat): nat { elapsed * rate % TWO64 / SECOND_NS }

  /** A bucket brought up to date at time `now`; a clock that stood still or ran back changes nothing. */
  function Refill(b: Bucket, now: nat): Bucket
  {
    if now <= b.last then b
    else
      var n := Earned64(b.rate, now - b.last);
      if n == 0 then b
      else b.(tokens := Min(Add64(b.tokens, n), b.capacity), last := now)
  }

  // ---------- Earning ----------

  /** The wrapped product never earns more, and earns the same exactly when it does not wrap. */
  lemma EarnedExact(rate: nat, elapsed: nat)
    ensures Earned64(rate, elapsed) <= Earned(rate, elapsed)
    ensures Earned64(rate, elapsed) == Earned(rate, elapsed) <==> elapsed * rate < TWO64
  {
  }

  /** Tokens earned in two stretches are at most those earned in one. */
  lemma EarnedSplit(rate: nat, a: nat, b: nat)
    ensures Earned(rate, a) + Earned(rate, b) <= Earned(rate, a + b)
  {
  }

  // ---------- What a wait earns ----------

  /**
   After a wait the bucket has what it had and what its rate earned meanwhile, up to its
   capacity, if and only if the sum does not wrap, and the product does not wrap or what is
   left of it fills the bucket anyhow.
   */
  lemma RefillExact(b: Bucket, now: nat)
    requires Fits(b) && b.last < now < TWO64
    ensures var wait := now - b.last;
      Refill(b, now).tokens == Min(b.capacity, b.tokens + Earned(b.rate, wait)) <==>
      && b.tokens + Earned64(b.rate, wait) < TWO64
      && (wait * b.rate < TWO64 || b.tokens + Earned64(b.rate, wait) >= b.capacity)
  {
    hide Earned, Earned64;
    EarnedExact(b.rate, now - b.last);
    EarnedSmall(b.rate, now - b.last);
  }

  lemma EarnedSmall(rate: nat, elapsed: nat)
    ensures Earned64(rate, elapsed) < TWO64
  {
  }

  /** One nanosecond empties the largest full bucket: the sum wraps to zero. */
  lemma RefillEmpties()
    ensures var b := Bucket(TWO64 - 1, TWO64 - 1, SECOND_NS, 0);
      Fits(b) && Refill(b, 1).tokens == 0 && Min(b.capacity, b.tokens + Earned(b.rate, 1)) == TWO64 - 1
  {
    assert Earned64(SECOND_NS, 1) == 1;
  }

  /**
   Where nothing wraps, a request is granted if and only if the tokens are there or the wait was
   long enough to earn the missing ones, at one token in every `SECOND_NS / rate` nanoseconds.
   */
  lemma WaitGrants(b: Bucket, now: nat, count: nat)
    requires Fits(b) && b.last < now < TWO64 && (now - b.last) * b.rate < TWO64
    requires b.tokens + Earned(b.rate, now - b.last) < TWO64
    ensures Consume(b, Take(now, count)).1 <==>
      count <= b.capacity && (count <= b.tokens || (count - b.tokens) * SECOND_NS <= (now - b.last) * b.rate)
  {
    hide Earned, Earned64, Refill;
    RefillExact(b, now);
    EarnedExact(b.rate, now - b.last);
    EarnsAtLeast(b.rate, now - b.last, count - b.tokens);
  }

  lemma EarnsAtLeast(rate: nat, elapsed: nat, k: int)
    ensures k <= Earned(rate, elapsed) <==> k * SECOND_NS <= elapsed * rate
  {
  }

  // ---------- Whole runs ----------

  /** What a bucket made at `created` may have granted by now, with what it still holds. */
  ghost predicate Bounded(b: Bucket, created: nat, granted: nat)
  {
    Fits(b) && created <= b.last && granted + b.tokens <= b.capacity + Earned(b.rate, b.last - created)
  }

  lemma RefillKeeps(b: Bucket, now: nat, created: nat, granted: nat)
    requires Bounded(b, created, granted) && now < TWO64
    ensures Bounded(Refill(b, now), created, granted) && Refill(b, now).last <= Max(b.last, now)
  {
    var r := Refill(b, now);
    if r != b {
      hide Earned, Earned64, Add64;
      var n := Earned64(b.rate, now - b.last);
      EarnedExact(b.rate, now - b.last);
      EarnedSplit(b.rate, b.last - created, now - b.last);
      AddAtMost(b.tokens, n);
    }
  }

  lemma AddAtMost(a: nat, b: nat)
    ensures Add64(a, b) <= a + b
  {
  }

  datatype Take = Take(now: nat, count: nat)

  /** One consumption: granted when the refilled bucket holds enough. */
  function Consume(b: Bucket, t: Take): (Bucket, bool)
  {
    var r := Refill(b, t.now);
    if r.tokens < t.count then (r, false) else (r.(tokens := r.tokens - t.count), true)
  }

  /** Tokens granted over a sequence of consumptions, and the bucket behind them. */
  function Run(b: Bucket, ts: seq<Take>): (Bucket, nat)
    decreases |ts|
  {
    if ts == [] then (b, 0)
    else
      var (b', ok) := Consume(b, ts[0]);
      var (b'', granted) := Run(b', ts[1..]);
      (b'', granted + if ok then ts[0].count else 0)
  }

  lemma ConsumeKeeps(b: Bucket, t: Take, created: nat, granted: nat)
    requires Bounded(b, created, granted) && t.now < TWO64
    ensures Bounded(Consume(b, t).0, created, granted + if Consume(b, t).1 then t.count else 0)
    ensures Consume(b, t).0.last <= Max(b.last, t.now)
    ensures Consume(b, t).0.capacity == b.capacity && Consume(b, t).0.rate == b.rate
  {
    hide Earned, Earned64;
    RefillKeeps(b, t.now, created, granted);
  }

  lemma {:induction false} RunKeeps(b: Bucket, ts: seq<Take>, created: nat, granted: nat, end: nat)
    requires Bounded(b, created, granted) && b.last <= end && forall i :: 0 <= i < |ts| ==> ts[i].now <= end < TWO64
    ensures Bounded(Run(b, ts).0, created, granted + Run(b, ts).1) && Run(b, ts).0.last <= end
    ensures Run(b, ts).0.capacity == b.capacity && Run(b, ts).0.rate == b.rate
    decreases |ts|
  {
    hide Bounded, Consume;
    if ts != [] {
      ConsumeKeeps(b, ts[0], created, granted);
      var (b', ok) := Consume(b, ts[0]);
      RunKeeps(b', ts[1..], created, granted + (if ok then ts[0].count else 0), end);
    }
  }

  /**
   Over any run of consumptions up to time `end`, a bucket grants at most its capacity and what
   its rate earns from creation to `end`, whatever the clock does and wherever products wrap.
   */
  lemma GrantBound(capacity: nat, rate: nat, created: nat, ts: seq<Take>, end: nat)
    requires capacity < TWO64 && rate < TWO64 && created <= end < TWO64 &&
      forall i :: 0 <= i < |ts| ==> ts[i].now <= end
    ensures Run(Bucket(capacity, capacity, rate, created), ts).1 <= capacity + Earned(rate, end - created)
    ensures Run(Bucket(capacity, capacity, rate, created), ts).0.tokens <= capacity
  {
    hide Run;
    var b := Bucket(capacity, capacity, rate, created);
    assert Bounded(b, created, 0);
    RunKeeps(b, ts, created, 0, end);
    var last := Run(b, ts).0.last;
    EarnedMore(rate, last - created, end - created);
  }

  lemma EarnedMore(rate: nat, a: nat, b: nat)
    requires a <= b
    ensures Earned(rate, a) <= Earned(rate, b)
  {
    EarnedSplit(rate, a, b - a);
  }

  // ---------- The bucket in the kernel ----------

  class TokenBucket {
    var capacity: nat
    var tokens: nat
    var rate: nat
    var last: nat
    ghost var created: nat
    ghost var granted: nat

    ghost function Value(): Bucket
      reads this
    {
      Bucket(capacity, tokens, rate, last)
    }

    ghost predicate Valid()
      reads this
    {
      Bounded(Value(), created, granted)
    }

    constructor (capacity: nat, rate: nat, now: nat)
      requires capacity < TWO64 && rate < TWO64 && now < TWO64
      ensures Valid() && Value() == Bucket(capacity, capacity, rate, now) && created == now && granted == 0
    {
      this.capacity, this.tokens, this.rate, this.last := capacity, capacity, rate, now;
      created, granted := now, 0;
    }

    method Update(now: nat)
      requires Valid() && now < TWO64
      modifies `tokens, `last
      ensures Valid() && Value() == Refill(old(Value()), now)
    {
      hide Bounded;
      RefillKeeps(Value(), now, created, granted);
      if now <= last {
        return;
      }
      var elapsed := now - last;
      var newTokens := elapsed * rate % TWO64 / SECOND_NS;
      if newTokens > 0 {
        tokens := Add64(tokens, newTokens);
        if tokens > capacity {
          tokens := capacity;
        }
        last := now;
      }
    }

    method TryConsume(count: nat, now: nat) returns (status: Status)
      requires Valid() && count < TWO64 && now < TWO64
      modifies this
      ensures Valid() && created == old(created) && tokens <= capacity
      ensures (Value(), status.Ok?) == Consume(old(Value()), Take(now, count))
      ensures granted == old(granted) + if status.Ok? then count else 0
      ensures !status.Ok? ==> status == ErrBusy
    {
      Update(now);
      if tokens < count {
        return ErrBusy;
      }
      tokens := tokens - count;
      granted := granted + count;
      return Ok;
    }
  }

  // ---------- Memory caps ----------

  /** The check of a commit: the sum wraps. */
  predicate Accepts(used: nat, bytes: nat, cap: nat) { Add64(used, bytes) <= cap }

  /** An accepted commit keeps the true total within the cap exactly when the sum does not wrap. */
  lemma AcceptedWithinCap(used: nat, bytes: nat, cap: nat)
    requires cap < TWO64 && Accepts(used, bytes, cap)
    ensures used + bytes <= cap <==> used + bytes < TWO64
  {
  }

  /** A commit that wraps is accepted although it exceeds the cap by far. */
  lemma WrappedCommit()
    ensures Accepts(1, TWO64 - 1, 10) && 1 + (TWO64 - 1) > 10 && Add64(1, TWO64 - 1) == 0
  {
  }

  class MemoryMeter {
    const cap: nat
    var used: nat
    ghost var actual: nat // bytes committed and not released, as the callers count them
    ghost var wrapped: bool

    /** The meter never shows more than the cap, and shows the truth unless a commit wrapped. */
    ghost predicate Valid()
      reads this
    {
      used <= cap < TWO64 && (!wrapped ==> actual == used)
    }

    constructor (cap: nat)
      requires cap < TWO64
      ensures Valid() && this.cap == cap && used == 0 && actual == 0 && !wrapped
    {
      this.cap, used, actual, wrapped := cap, 0, 0, false;
    }

    method Commit(bytes: nat) returns (status: Status)
      requires Valid() && bytes < TWO64
      modifies this
      ensures Valid()
      ensures status.Ok? <==> Accepts(old(used), bytes, cap)
      ensures status.Ok? ==> used == Add64(old(used), bytes) && actual == old(actual) + bytes
      ensures wrapped <==> old(wrapped) || (status.Ok? && old(used) + bytes >= TWO64)
      ensures !status.Ok? ==> status == ErrNoMemory && used == old(used) && actual == old(actual)
    {
      if Add64(used, bytes) > cap {
        return ErrNoMemory;
      }
      wrapped := wrapped || used + bytes >= TWO64;
      used := Add64(used, bytes);
      actual := actual + bytes;
      return Ok;
    }

    /** Releasing more than is shown empties the meter. */
    method Release(bytes: nat)
      requires Valid()
      modifies `used, `actual
      ensures Valid()
      ensures used == if bytes > old(used) then 0 else old(used) - bytes
      ensures actual == if bytes > old(actual) then 0 else old(actual) - bytes
    {
      actual := if bytes > actual then 0 else actual - bytes;
      if bytes > used {
        used := 0;
      } else {
        used := used - bytes;
      }
    }
  }
}
