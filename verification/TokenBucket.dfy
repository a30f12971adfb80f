/**
  The lock-free token bucket that limits log lines
  (rust/crates/mcgateway-clib/src/metrics.rs). `TokenBucket.TryAcquireAt` is the
  method as one caller sees it; the step machine below takes it apart into its
  atomic accesses, interleaved by any number of threads. All loads and
  read-modify-writes are Relaxed, so the initial load may return a stale value:
  the machine lets it return any value at all.
 */
module TokenBucket {

  const U64_MAX: nat := 0xFFFF_FFFF_FFFF_FFFF

  type u64 = n: int | 0 <= n <= U64_MAX
  type Period = n: int | 0 < n <= U64_MAX witness 1

  datatype Limits = Limits(capacity: u64, nanosPerToken: Period)

  function Min(a: nat, b: nat): nat { if a < b then a else b }

  function SaturatingAdd(a: u64, b: u64): u64 {
    if a + b > U64_MAX then U64_MAX else a + b
  }

  // ---------------------------------------------------------------- arithmetic

  lemma DivTimes(x: nat, n: nat)
    requires n > 0
    ensures x / n * n <= x < x / n * n + n
  {
  }

  lemma DivShift(r: nat, e: nat, n: nat)
    requires n > 0
    ensures (r + e * n) / n == r / n + e
  {
    var q, m := r / n, r % n;
    assert r == q * n + m;
    assert r + e * n == (q + e) * n + m by { assert (q + e) * n == q * n + e * n; }
    DivUnique(r + e * n, n, q + e, m);
  }

  lemma DivUnique(x: nat, n: nat, q: nat, m: nat)
    requires n > 0 && x == q * n + m && m < n
    ensures x / n == q
  {
    var d := x / n;
    DivTimes(x, n);
    if d < q {
      MulMono(d + 1, q, n);
    } else if d > q {
      MulMono(q + 1, d, n);
    }
  }

  lemma MulMono(a: nat, b: nat, n: nat)
    requires a <= b
    ensures a * n <= b * n
  {
    assert b * n - a * n == (b - a) * n;
  }

  lemma DivLess(x: nat, n: nat)
    requires n > 0
    ensures 0 <= x / n <= x
  {
    DivTimes(x, n);
    MulMono(1, n, x / n);
  }

  lemma DivMono(x: nat, y: nat, n: nat)
    requires x <= y && n > 0
    ensures x / n <= y / n
  {
    DivTimes(x, n);
    DivTimes(y, n);
    if x / n > y / n {
      MulMono(y / n + 1, x / n, n);
    }
  }

  /** Whole tokens earned between the mark and now. */
  function Earned(c: Limits, last: u64, now: u64): u64
    requires last < now
  {
    DivLess(now - last, c.nanosPerToken);
    (now - last) / c.nanosPerToken
  }

  /** The new mark: no overflow, because it never passes `now`. */
  function Advanced(c: Limits, last: u64, now: u64): (r: u64)
    requires last < now
    ensures last <= r <= now && now - r < c.nanosPerToken
    ensures r == last + Earned(c, last, now) * c.nanosPerToken
  {
    MarkBounds(c, last, now);
    last + Earned(c, last, now) * c.nanosPerToken
  }

  lemma MarkBounds(c: Limits, last: u64, now: u64)
    requires last < now
    ensures
      var r := last + Earned(c, last, now) * c.nanosPerToken;
      last <= r <= now && now - r < c.nanosPerToken
  {
    DivTimes(now - last, c.nanosPerToken);
  }

  // ---------------------------------------------------------------- many threads

  /** Between two atomic accesses of a call. */
  datatype Pc =
    | Outside
    | Loaded(now: u64, last: u64)
    | Crediting(earned: u64)
    | Spending

  datatype State = State(refilledTo: u64, tokens: u64, threads: seq<Pc>, grants: nat, clock: u64)

  /** A call starts: it has read its clock and loaded `refilled_to`, possibly stale. */
  ghost predicate Enter(s: State, s': State, t: nat, now: u64, last: u64) {
    && t < |s.threads| && s.threads[t].Outside?
    && s' == s.(threads := s.threads[t := Loaded(now, last)], clock := if now > s.clock then now else s.clock)
  }

  /** The compare-exchange elects one thread per window; anybody else goes on to spend. */
  ghost predicate CompareExchange(c: Limits, s: State, s': State, t: nat) {
    && t < |s.threads| && s.threads[t].Loaded?
    && var now, last := s.threads[t].now, s.threads[t].last;
       if now > last && Earned(c, last, now) > 0 && s.refilledTo == last then
         s' == s.(refilledTo := Advanced(c, last, now), threads := s.threads[t := Crediting(Earned(c, last, now))])
       else
         s' == s.(threads := s.threads[t := Spending])
  }

  ghost predicate AddTokens(c: Limits, s: State, s': State, t: nat) {
    && t < |s.threads| && s.threads[t].Crediting?
    && s' == s.(
         tokens := Min(SaturatingAdd(s.tokens, s.threads[t].earned), c.capacity),
         threads := s.threads[t := Spending])
  }

  ghost predicate TakeToken(s: State, s': State, t: nat) {
    && t < |s.threads| && s.threads[t].Spending?
    && s' == if s.tokens > 0 then s.(tokens := s.tokens - 1, grants := s.grants + 1, threads := s.threads[t := Outside])
             else s.(threads := s.threads[t := Outside])
  }

  ghost predicate ThreadStep(c: Limits, s: State, s': State, t: nat) {
    || (exists now: u64, last: u64 :: Enter(s, s', t, now, last))
    || CompareExchange(c, s, s', t) || AddTokens(c, s, s', t) || TakeToken(s, s', t)
  }

  ghost predicate Step(c: Limits, s: State, s': State) {
    exists t: nat :: ThreadStep(c, s, s', t)
  }

  ghost predicate Start(c: Limits, s: State) {
    && s.refilledTo == 0 && s.tokens == c.capacity && s.grants == 0 && s.clock == 0
    && forall t | 0 <= t < |s.threads| :: s.threads[t].Outside?
  }

  /** The states of a run up to some moment, oldest first. */
  ghost predicate Run(c: Limits, states: seq<State>) {
    && states != []
    && var last := |states| - 1;
       if last == 0 then Start(c, states[0])
       else Run(c, states[..last]) && Step(c, states[last - 1], states[last])
  }

  /** Tokens a thread has been elected to credit but has not added yet. */
  function InFlight(threads: seq<Pc>): nat {
    if threads == [] then 0
    else InFlight(threads[..|threads| - 1]) + Owed(threads[|threads| - 1])
  }

  function Owed(p: Pc): nat {
    if p.Crediting? then p.earned else 0
  }

  lemma {:induction false} InFlightUpdate(threads: seq<Pc>, t: nat, p: Pc)
    requires t < |threads|
    ensures InFlight(threads[t := p]) == InFlight(threads) - Owed(threads[t]) + Owed(p)
    ensures Owed(threads[t]) <= InFlight(threads)
  {
    var init := threads[..|threads| - 1];
    if t == |threads| - 1 {
      assert threads[t := p][..|threads| - 1] == init;
    } else {
      InFlightUpdate(init, t, p);
      assert threads[t := p][..|threads| - 1] == init[t := p];
    }
  }

  lemma {:induction false} NothingInFlight(threads: seq<Pc>)
    requires forall t | 0 <= t < |threads| :: threads[t].Outside?
    ensures InFlight(threads) == 0
  {
    if threads != [] {
      NothingInFlight(threads[..|threads| - 1]);
    }
  }

  /**
    Conservation: what has been granted, what is in the bucket and what is still
    to be added were all paid for by the initial fill and the mark's advance.
   */
  ghost predicate Inv(c: Limits, s: State) {
    && s.tokens <= c.capacity
    && s.refilledTo <= s.clock
    && (forall t | 0 <= t < |s.threads| :: s.threads[t].Loaded? ==> s.threads[t].now <= s.clock)
    && s.grants + s.tokens + InFlight(s.threads) <= c.capacity + s.refilledTo / c.nanosPerToken
  }

  lemma EnterKeeps(c: Limits, s: State, s': State, t: nat, now: u64, last: u64)
    requires Inv(c, s) && Enter(s, s', t, now, last)
    ensures Inv(c, s')
  {
    InFlightUpdate(s.threads, t, Loaded(now, last));
  }

  lemma CompareExchangeKeeps(c: Limits, s: State, s': State, t: nat)
    requires Inv(c, s) && CompareExchange(c, s, s', t)
    ensures Inv(c, s')
  {
    var now, last := s.threads[t].now, s.threads[t].last;
    if now > last && Earned(c, last, now) > 0 && s.refilledTo == last {
      var earned := Earned(c, last, now);
      InFlightUpdate(s.threads, t, Crediting(earned));
      DivShift(last, earned, c.nanosPerToken);
    } else {
      InFlightUpdate(s.threads, t, Spending);
    }
  }

  lemma AddTokensKeeps(c: Limits, s: State, s': State, t: nat)
    requires Inv(c, s) && AddTokens(c, s, s', t)
    ensures Inv(c, s')
  {
    InFlightUpdate(s.threads, t, Spending);
  }

  lemma TakeTokenKeeps(c: Limits, s: State, s': State, t: nat)
    requires Inv(c, s) && TakeToken(s, s', t)
    ensures Inv(c, s')
  {
    InFlightUpdate(s.threads, t, Outside);
  }

  lemma StepKeeps(c: Limits, s: State, s': State)
    requires Inv(c, s) && Step(c, s, s')
    ensures Inv(c, s')
  {
    var t: nat :| ThreadStep(c, s, s', t);
    if CompareExchange(c, s, s', t) {
      CompareExchangeKeeps(c, s, s', t);
    } else if AddTokens(c, s, s', t) {
      AddTokensKeeps(c, s, s', t);
    } else if TakeToken(s, s', t) {
      TakeTokenKeeps(c, s, s', t);
    } else {
      var now: u64, last: u64 :| Enter(s, s', t, now, last);
      EnterKeeps(c, s, s', t, now, last);
    }
  }

  lemma {:induction false} RunKeeps(c: Limits, states: seq<State>)
    requires Run(c, states)
    ensures Inv(c, states[|states| - 1])
  {
    var last := |states| - 1;
    if last == 0 {
      NothingInFlight(states[0].threads);
    } else {
      RunKeeps(c, states[..last]);
      StepKeeps(c, states[last - 1], states[last]);
    }
  }

  /**
    Under any interleaving of any number of threads the bucket never holds more
    than its capacity, and no more is ever granted than the capacity plus one
    token for each whole interval up to the latest clock reading.
   */
  lemma GrantsBounded(c: Limits, states: seq<State>)
    requires Run(c, states)
    ensures
      var s := states[|states| - 1];
      s.tokens <= c.capacity && s.grants <= c.capacity + s.clock / c.nanosPerToken
  {
    RunKeeps(c, states);
    var s := states[|states| - 1];
    DivMono(s.refilledTo, s.clock, c.nanosPerToken);
  }

  // ---------------------------------------------------------------- one caller

  /** What one caller sees of the bucket. */
  datatype Bucket = Bucket(refilledTo: u64, tokens: u64)

  function Refilled(c: Limits, b: Bucket, now: u64): Bucket {
    if now > b.refilledTo && Earned(c, b.refilledTo, now) > 0 then
      Bucket(Advanced(c, b.refilledTo, now),
             Min(SaturatingAdd(b.tokens, Earned(c, b.refilledTo, now)), c.capacity))
    else b
  }

  /** Whole intervals between the mark and now, none if the clock is behind the mark. */
  function Intervals(c: Limits, refilledTo: u64, now: u64): nat {
    if now > refilledTo then (now - refilledTo) / c.nanosPerToken else 0
  }

  /** What a caller finds in the bucket: a token more per interval, up to the capacity; untouched before the first. */
  function Available(c: Limits, b: Bucket, now: u64): nat {
    var k := Intervals(c, b.refilledTo, now);
    if k == 0 then b.tokens
    else if b.tokens + k <= c.capacity then b.tokens + k
    else c.capacity
  }

  /** A refill, in plain arithmetic. */
  lemma RefillIs(c: Limits, b: Bucket, now: u64)
    ensures Refilled(c, b, now).tokens == Available(c, b, now)
    ensures Refilled(c, b, now).refilledTo == b.refilledTo + Intervals(c, b.refilledTo, now) * c.nanosPerToken
  {
  }

  function Credited(c: Limits, b: Bucket, now: u64): nat {
    if now > b.refilledTo then Earned(c, b.refilledTo, now) else 0
  }

  class TokenBucket {
    const limits: Limits
    var refilledTo: u64
    var tokens: u64

    /** `new`: full, with an interval of at least a nanosecond and at most what 64 bits hold. */
    constructor (capacity: u64, refillNanos: nat)
      ensures limits.capacity == capacity
      ensures limits.nanosPerToken ==
        if refillNanos == 0 then 1 else if refillNanos > U64_MAX then U64_MAX else refillNanos
      ensures View() == Bucket(0, capacity)
    {
      limits := Limits(capacity, if refillNanos == 0 then 1 else Min(refillNanos, U64_MAX));
      refilledTo, tokens := 0, capacity;
    }

    ghost function View(): Bucket
      reads this
    {
      Bucket(refilledTo, tokens)
    }

    /** One token per whole interval since the mark, up to the capacity, then one is taken if there is one. */
    method TryAcquireAt(now: u64) returns (granted: bool)
      modifies this
      ensures granted <==> Available(limits, old(View()), now) > 0
      ensures tokens == if granted then Available(limits, old(View()), now) - 1 else 0
      ensures refilledTo == old(refilledTo) + Intervals(limits, old(refilledTo), now) * limits.nanosPerToken
      ensures
        var r := Refilled(limits, old(View()), now);
        granted == (r.tokens > 0) && View() == Bucket(r.refilledTo, if granted then r.tokens - 1 else 0)
    {
      RefillIs(limits, View(), now);
      var last := refilledTo;
      if now > last {
        var earned := Earned(limits, last, now);
        if earned > 0 {
          refilledTo := Advanced(limits, last, now);
          tokens := Min(SaturatingAdd(tokens, earned), limits.capacity);
        }
      }
      granted := tokens > 0;
      if granted {
        tokens := tokens - 1;
      }
    }
  }

  /** A call whose four accesses nothing comes between does what the method says. */
  lemma UndisturbedCall(c: Limits, s0: State, s1: State, s2: State, s3: State, s4: State, t: nat, now: u64)
    requires Enter(s0, s1, t, now, s0.refilledTo) && CompareExchange(c, s1, s2, t)
    requires if s2.threads[t].Crediting? then AddTokens(c, s2, s3, t) else s3 == s2
    requires TakeToken(s3, s4, t)
    ensures
      var available := Available(c, Bucket(s0.refilledTo, s0.tokens), now);
      var granted := available > 0;
      && s4.tokens == (if granted then available - 1 else 0)
      && s4.refilledTo == s0.refilledTo + Intervals(c, s0.refilledTo, now) * c.nanosPerToken
      && s4.grants == s0.grants + (if granted then 1 else 0)
      && s4.threads == s0.threads
  {
    RefillIs(c, Bucket(s0.refilledTo, s0.tokens), now);
    assert s4.threads == s0.threads[t := Outside];
  }

  /** The bucket after calls at the given times, how many were granted, and how many tokens were credited. */
  datatype Outcome = Outcome(bucket: Bucket, grants: nat, credits: nat)

  function Calls(c: Limits, b: Bucket, times: seq<u64>): Outcome {
    if times == [] then Outcome(b, 0, 0)
    else
      var before := Calls(c, b, times[..|times| - 1]);
      var now := times[|times| - 1];
      var r := Refilled(c, before.bucket, now);
      Outcome(
        Bucket(r.refilledTo, if r.tokens > 0 then r.tokens - 1 else 0),
        before.grants + (if r.tokens > 0 then 1 else 0),
        before.credits + Credited(c, before.bucket, now))
  }

  ghost predicate NonDecreasing(times: seq<u64>) {
    forall i, j | 0 <= i < j < |times| :: times[i] <= times[j]
  }

  lemma NonDecreasingParts(xs: seq<u64>, ys: seq<u64>)
    requires NonDecreasing(xs + ys)
    ensures NonDecreasing(xs) && NonDecreasing(ys)
    ensures xs != [] && ys != [] ==> xs[|xs| - 1] <= ys[0]
    ensures ys != [] ==> ys[0] <= ys[|ys| - 1]
  {
    var all := xs + ys;
    assert forall i | 0 <= i < |xs| :: xs[i] == all[i];
    assert forall i | 0 <= i < |ys| :: ys[i] == all[|xs| + i];
  }

  lemma {:induction false} CallsConcat(c: Limits, b: Bucket, xs: seq<u64>, ys: seq<u64>)
    ensures
      var first := Calls(c, b, xs);
      var second := Calls(c, first.bucket, ys);
      Calls(c, b, xs + ys) == Outcome(second.bucket, first.grants + second.grants, first.credits + second.credits)
  {
    if ys == [] {
      assert xs + ys == xs;
    } else {
      assert (xs + ys)[..|xs + ys| - 1] == xs + ys[..|ys| - 1];
      CallsConcat(c, b, xs, ys[..|ys| - 1]);
    }
  }

  /** Every grant is paid for by a token that was there or was credited; the mark moves one interval per credit. */
  lemma {:induction false} CallsConserve(c: Limits, b: Bucket, times: seq<u64>)
    requires NonDecreasing(times) && (times != [] ==> b.refilledTo <= times[0])
    ensures
      var o := Calls(c, b, times);
      && o.grants + o.bucket.tokens <= b.tokens + o.credits
      && o.bucket.refilledTo == b.refilledTo + o.credits * c.nanosPerToken
      && (times != [] ==> o.bucket.refilledTo <= times[|times| - 1] < o.bucket.refilledTo + c.nanosPerToken)
      && (b.tokens <= c.capacity ==> o.bucket.tokens <= c.capacity)
  {
    if times != [] {
      var init, now := times[..|times| - 1], times[|times| - 1];
      CallsConserve(c, b, init);
      var before := Calls(c, b, init);
      assert before.bucket.refilledTo <= now;
      RefillConserves(c, before.bucket, now);
      Distribute(before.credits, Credited(c, before.bucket, now), c.nanosPerToken);
    }
  }

  lemma Distribute(a: nat, b: nat, n: nat)
    ensures (a + b) * n == a * n + b * n
  {
  }

  /** What one refill does to a bucket whose mark is not ahead of the clock. */
  lemma RefillConserves(c: Limits, b: Bucket, now: u64)
    requires b.refilledTo <= now
    ensures
      var r, k := Refilled(c, b, now), Credited(c, b, now);
      && r.refilledTo == b.refilledTo + k * c.nanosPerToken && r.refilledTo <= now < r.refilledTo + c.nanosPerToken
      && r.tokens <= b.tokens + k && (b.tokens <= c.capacity ==> r.tokens <= c.capacity)
  {
    if b.refilledTo < now {
      DivTimes(now - b.refilledTo, c.nanosPerToken);
    }
  }

  function CeilDiv(x: nat, n: Period): nat {
    (x + n - 1) / n
  }

  /**
    The first call of a window leaves no more than the capacity less what it took,
    and a mark less than an interval behind.
   */
  lemma FirstCall(c: Limits, b: Bucket, now: u64)
    requires b.refilledTo <= now && b.tokens <= c.capacity
    ensures
      var o := Calls(c, b, [now]);
      && o.grants + o.bucket.tokens <= c.capacity
      && o.bucket.refilledTo <= now < o.bucket.refilledTo + c.nanosPerToken
  {
    assert [now][..0] == [];
    assert Calls(c, b, []) == Outcome(b, 0, 0);
  }

  /**
    Calls in a row: a full bucket pays for them, and so many credits whose
    intervals all lie behind the first call's mark.
   */
  lemma Paid(c: Limits, b: Bucket, times: seq<u64>) returns (credits: nat, start: nat)
    requires NonDecreasing(times) && times != [] && b.refilledTo <= times[0] && b.tokens <= c.capacity
    ensures Calls(c, b, times).grants <= c.capacity + credits
    ensures times[0] < start + c.nanosPerToken && start + credits * c.nanosPerToken <= times[|times| - 1]
  {
    var head, tail := [times[0]], times[1..];
    assert times == head + tail;
    NonDecreasingParts(head, tail);
    CallsConcat(c, b, head, tail);
    var first := Calls(c, b, head);
    FirstCall(c, b, times[0]);
    CallsConserve(c, first.bucket, tail);
    credits, start := Calls(c, first.bucket, tail).credits, first.bucket.refilledTo;
  }

  lemma CreditsBound(credits: nat, n: Period, start: nat, from: nat, to: nat)
    requires start + credits * n <= to && from < start + n && from <= to
    ensures credits <= CeilDiv(to - from, n)
  {
    DivShift(0, credits, n);
    DivMono(credits * n, to - from + n - 1, n);
  }

  /**
    One caller with a non-decreasing clock: whatever calls `xs` came before, the
    calls `ys` that fall in a window [from, to] are granted at most the capacity
    plus one per interval begun in it.
   */
  lemma GrantsInWindow(c: Limits, xs: seq<u64>, ys: seq<u64>, from: nat, to: nat)
    requires NonDecreasing(xs + ys) && ys != [] && from <= ys[0] <= ys[|ys| - 1] <= to
    ensures
      var start := Bucket(0, c.capacity);
      Calls(c, start, xs + ys).grants - Calls(c, start, xs).grants <= c.capacity + CeilDiv(to - from, c.nanosPerToken)
  {
    var start := Bucket(0, c.capacity);
    NonDecreasingParts(xs, ys);
    CallsConcat(c, start, xs, ys);
    CallsConserve(c, start, xs);
    var credits, mark := Paid(c, Calls(c, start, xs).bucket, ys);
    CreditsBound(credits, c.nanosPerToken, mark, from, to);
  }

  // ---------------------------------------------------------------- what is granted for sure

  /** Calls at least an interval apart, the first of them that long after the mark. */
  ghost predicate Spaced(c: Limits, refilledTo: u64, times: seq<u64>) {
    times == [] ||
    var init, now := times[..|times| - 1], times[|times| - 1];
    Spaced(c, refilledTo, init) && now >= (if init == [] then refilledTo else init[|init| - 1]) + c.nanosPerToken
  }

  lemma GrantedAfterInterval(c: Limits, b: Bucket, now: u64)
    requires c.capacity > 0 && now >= b.refilledTo + c.nanosPerToken
    ensures Available(c, b, now) > 0
  {
    DivMono(c.nanosPerToken, now - b.refilledTo, c.nanosPerToken);
    DivShift(0, 1, c.nanosPerToken);
  }

  /** A caller that waits an interval between calls is never refused. */
  lemma {:induction false} SpacedCallsGranted(c: Limits, b: Bucket, times: seq<u64>)
    requires c.capacity > 0 && Spaced(c, b.refilledTo, times)
    ensures Calls(c, b, times).grants == |times|
    ensures Calls(c, b, times).bucket.refilledTo <= if times == [] then b.refilledTo else times[|times| - 1]
  {
    if times != [] {
      var init, now := times[..|times| - 1], times[|times| - 1];
      SpacedCallsGranted(c, b, init);
      var before := Calls(c, b, init).bucket;
      GrantedAfterInterval(c, before, now);
      RefillIs(c, before, now);
      RefillConserves(c, before, now);
    }
  }

  /** So long as tokens last nobody is refused, whatever the clock does. */
  lemma {:induction false} TokensLast(c: Limits, b: Bucket, times: seq<u64>)
    requires |times| <= b.tokens <= c.capacity
    ensures
      var o := Calls(c, b, times);
      o.grants == |times| && b.tokens - |times| <= o.bucket.tokens <= c.capacity
  {
    if times != [] {
      var init, now := times[..|times| - 1], times[|times| - 1];
      TokensLast(c, b, init);
      RefillIs(c, Calls(c, b, init).bucket, now);
    }
  }

  /** After a pause long enough to fill the bucket a whole burst is granted. */
  lemma BurstAfterPause(c: Limits, b: Bucket, times: seq<u64>)
    requires b.tokens <= c.capacity && 0 < |times| <= c.capacity
    requires times[0] >= b.refilledTo + c.capacity * c.nanosPerToken
    ensures Calls(c, b, times).grants == |times|
  {
    var head, tail := [times[0]], times[1..];
    assert times == head + tail;
    FullAfterPause(c, b, times[0]);
    CallsConcat(c, b, head, tail);
    OneCall(c, b, times[0]);
    TokensLast(c, Calls(c, b, head).bucket, tail);
  }

  lemma FullAfterPause(c: Limits, b: Bucket, now: u64)
    requires b.tokens <= c.capacity && 0 < c.capacity && now >= b.refilledTo + c.capacity * c.nanosPerToken
    ensures Available(c, b, now) == c.capacity
  {
    DivShift(0, c.capacity, c.nanosPerToken);
    MulMono(1, c.capacity, c.nanosPerToken);
    DivMono(c.capacity * c.nanosPerToken, now - b.refilledTo, c.nanosPerToken);
  }

  lemma OneCall(c: Limits, b: Bucket, now: u64)
    ensures
      var o, available := Calls(c, b, [now]), Available(c, b, now);
      && o.grants == (if available > 0 then 1 else 0)
      && o.bucket.tokens == (if available > 0 then available - 1 else 0)
  {
    RefillIs(c, b, now);
    assert [now][..0] == [];
    assert Calls(c, b, []) == Outcome(b, 0, 0);
  }
}
