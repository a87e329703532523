/**
 The token bucket (backend/internal/ratelimit/limiter.go:17-62): its effect as a
 function of the clock reading, the object that carries it out, and bounds on
 whole runs. Floating point is modelled by exact reals.
 */
module TokenBucket {
  /** What `Allow` reads and changes. Times are in seconds. */
  datatype Bucket = Bucket(tokens: real, last: real)

  datatype Config = Config(capacity: real, refillPerSecond: real)

  function FullBucket(c: Config, now: real): Bucket {
    Bucket(c.capacity, now)
  }

  function Refilled(c: Config, b: Bucket, now: real): Bucket {
    if now > b.last then
      var tokens := b.tokens + (now - b.last) * c.refillPerSecond;
      Bucket(if tokens > c.capacity then c.capacity else tokens, now)
    else b
  }

  predicate Allowed(c: Config, b: Bucket, now: real) {
    Refilled(c, b, now).tokens >= 1.0
  }

  function After(c: Config, b: Bucket, now: real): Bucket {
    var r := Refilled(c, b, now);
    if r.tokens < 1.0 then r else r.(tokens := r.tokens - 1.0)
  }

  class TokenBucket {
    var tokens: real
    const capacity: real
    const refillPerSecond: real
    var last: real

    constructor (c: Config, now: real)
      ensures Settings() == c && State() == FullBucket(c, now)
    {
      tokens, capacity, refillPerSecond, last := c.capacity, c.capacity, c.refillPerSecond, now;
    }

    function Settings(): Config {
      Config(capacity, refillPerSecond)
    }

    function State(): Bucket
      reads this
    {
      Bucket(tokens, last)
    }

    method Allow(now: real) returns (ok: bool)
      modifies this
      ensures ok == Allowed(Settings(), old(State()), now)
      ensures State() == After(Settings(), old(State()), now)
    {
      var elapsed := now - last;
      if elapsed > 0.0 {
        tokens := tokens + elapsed * refillPerSecond;
        if tokens > capacity {
          tokens := capacity;
        }
        last := now;
      }
      if tokens < 1.0 {
        return false;
      }
      tokens := tokens - 1.0;
      ok := true;
    }
  }

  // ----- whole runs -----

  function AfterAll(c: Config, b: Bucket, times: seq<real>): Bucket
    decreases |times|
  {
    if times == [] then b else AfterAll(c, After(c, b, times[0]), times[1..])
  }

  function CountAllowed(c: Config, b: Bucket, times: seq<real>): nat
    decreases |times|
  {
    if times == [] then 0
    else (if Allowed(c, b, times[0]) then 1 else 0) + CountAllowed(c, After(c, b, times[0]), times[1..])
  }

  predicate Sensible(c: Config) {
    c.capacity >= 0.0 && c.refillPerSecond >= 0.0
  }

  predicate InRange(c: Config, b: Bucket) {
    0.0 <= b.tokens <= c.capacity
  }

  /** Tokens refilled between two readings. */
  function Earned(c: Config, from: real, to: real): real {
    c.refillPerSecond * (to - from)
  }

  function Later(x: real, y: real): real {
    if x > y then x else y
  }

  lemma EarnedAdds(c: Config, x: real, y: real, z: real)
    ensures Earned(c, x, z) == Earned(c, x, y) + Earned(c, y, z)
  {
  }

  lemma Product(x: real, y: real)
    requires x >= 0.0 && y >= 0.0
    ensures x * y >= 0.0
  {
  }

  lemma EarnedPositive(c: Config, from: real, to: real)
    requires c.refillPerSecond >= 0.0 && from <= to
    ensures Earned(c, from, to) == (to - from) * c.refillPerSecond >= 0.0
  {
    Product(c.refillPerSecond, to - from);
  }

  /** One call keeps the tokens within [0, capacity], and pays for what it allows. */
  lemma StepPays(c: Config, b: Bucket, now: real)
    requires Sensible(c) && InRange(c, b)
    ensures InRange(c, After(c, b, now)) && b.last <= After(c, b, now).last
    ensures After(c, b, now).tokens + (if Allowed(c, b, now) then 1.0 else 0.0) <=
            b.tokens + Earned(c, b.last, After(c, b, now).last)
  {
    if now > b.last {
      EarnedPositive(c, b.last, now);
      var earned := (now - b.last) * c.refillPerSecond;
      assert earned == Earned(c, b.last, now);
      assert Refilled(c, b, now).tokens == if b.tokens + earned > c.capacity then c.capacity else b.tokens + earned;
    }
  }

  /** The tokens a call finds: what was there and what was earned, up to the capacity. */
  function Found(c: Config, b: Bucket, now: real): real {
    var sum := b.tokens + Earned(c, b.last, Later(b.last, now));
    if sum > c.capacity then c.capacity else sum
  }

  lemma RefilledFinds(c: Config, b: Bucket, now: real)
    requires Sensible(c) && InRange(c, b)
    ensures Refilled(c, b, now) == Bucket(Found(c, b, now), Later(b.last, now))
  {
    var earned := Earned(c, b.last, Later(b.last, now));
    if now > b.last {
      var tokens := b.tokens + (now - b.last) * c.refillPerSecond;
      assert tokens == b.tokens + earned by { EarnedPositive(c, b.last, now); }
      assert Refilled(c, b, now) == Bucket(if tokens > c.capacity then c.capacity else tokens, now);
    } else {
      EarnedPositive(c, b.last, b.last);
      assert (b.last - b.last) * c.refillPerSecond == 0.0 * c.refillPerSecond == 0.0;
    }
  }

  /**
   The balance of one call. It is allowed exactly when it finds a whole token; it
   then takes one, and a refused call takes nothing. Only what is over the
   capacity is lost. A clock that steps back earns nothing.
   */
  lemma StepBalance(c: Config, b: Bucket, now: real)
    requires Sensible(c) && InRange(c, b)
    ensures Allowed(c, b, now) <==> Found(c, b, now) >= 1.0
    ensures After(c, b, now) ==
            Bucket(Found(c, b, now) - (if Found(c, b, now) >= 1.0 then 1.0 else 0.0), Later(b.last, now))
  {
    RefilledFinds(c, b, now);
  }

  /** The clock never runs backwards as far as the bucket is concerned, and the tokens stay in range. */
  lemma {:induction false} RunInRange(c: Config, b: Bucket, times: seq<real>)
    requires Sensible(c) && InRange(c, b)
    ensures InRange(c, AfterAll(c, b, times)) && b.last <= AfterAll(c, b, times).last
    decreases |times|
  {
    if times != [] {
      StepPays(c, b, times[0]);
      RunInRange(c, After(c, b, times[0]), times[1..]);
    }
  }

  lemma {:induction false} RunPays(c: Config, b: Bucket, times: seq<real>)
    requires Sensible(c) && InRange(c, b)
    ensures AfterAll(c, b, times).tokens + CountAllowed(c, b, times) as real <=
            b.tokens + Earned(c, b.last, AfterAll(c, b, times).last)
    decreases |times|
  {
    if times != [] {
      var next := After(c, b, times[0]);
      var end := AfterAll(c, next, times[1..]);
      StepPays(c, b, times[0]);
      RunPays(c, next, times[1..]);
      EarnedAdds(c, b.last, next.last, end.last);
    }
  }

  lemma {:induction false} RunAtMost(c: Config, b: Bucket, times: seq<real>)
    requires Sensible(c) && InRange(c, b)
    ensures CountAllowed(c, b, times) as real <=
            c.capacity + Earned(c, b.last, AfterAll(c, b, times).last)
  {
    RunPays(c, b, times);
    RunInRange(c, b, times);
  }

  /**
   From any state of a run on, the calls allowed are at most the capacity plus
   what is refilled after the first of them, even if the clock steps backwards
   in between. Time that passed before the first call earns nothing extra.
   */
  lemma RateBounded(c: Config, b: Bucket, times: seq<real>)
    requires Sensible(c) && InRange(c, b)
    ensures var from := if times == [] then b.last else Later(b.last, times[0]);
            CountAllowed(c, b, times) as real <= c.capacity + Earned(c, from, AfterAll(c, b, times).last)
  {
    if times == [] {
      assert Earned(c, b.last, b.last) == 0.0;
    } else {
      var now := times[0];
      var r := Refilled(c, b, now);
      if now > b.last {
        EarnedPositive(c, b.last, now);
      }
      assert Refilled(c, r, now) == r;
      RunAtMost(c, r, times);
    }
  }

  /** Consecutive readings are far enough apart for one token to be refilled. */
  predicate WellSpaced(c: Config, times: seq<real>)
    decreases |times|
  {
    |times| >= 2 ==> Earned(c, times[0], times[1]) >= 1.0 && WellSpaced(c, times[1..])
  }

  lemma {:induction false} AllowedAtMost(c: Config, b: Bucket, times: seq<real>)
    ensures CountAllowed(c, b, times) <= |times|
    decreases |times|
  {
    if times != [] {
      AllowedAtMost(c, After(c, b, times[0]), times[1..]);
    }
  }

  /** A token for a call at this time: in a new bucket, left over, or refilled since. */
  predicate HasToken(c: Config, b: Bucket, now: real) {
    b.tokens + Earned(c, b.last, now) >= 1.0
  }

  /**
   With room for one token, a caller that waits for one refill between its
   calls is never refused, exactly when its first call finds a token.
   */
  lemma {:induction false} PatientNeverRefused(c: Config, b: Bucket, times: seq<real>)
    requires Sensible(c) && c.capacity >= 1.0 && InRange(c, b) && WellSpaced(c, times)
    requires times != [] ==> b.last <= times[0]
    ensures CountAllowed(c, b, times) == |times| <==> (times != [] ==> HasToken(c, b, times[0]))
    decreases |times|
  {
    if times != [] {
      var next := After(c, b, times[0]);
      FirstCall(c, b, times[0]);
      AllowedAtMost(c, next, times[1..]);
      if |times| >= 2 {
        RefilledInTime(c, next, times[1]);
      }
      PatientNeverRefused(c, next, times[1..]);
    }
  }

  lemma RefilledInTime(c: Config, b: Bucket, now: real)
    requires Sensible(c) && InRange(c, b) && Earned(c, b.last, now) >= 1.0
    ensures b.last <= now && HasToken(c, b, now)
  {
    if now < b.last {
      Product(c.refillPerSecond, b.last - now);
    }
  }

  lemma FirstCall(c: Config, b: Bucket, now: real)
    requires Sensible(c) && c.capacity >= 1.0 && InRange(c, b) && b.last <= now
    ensures Allowed(c, b, now) <==> HasToken(c, b, now)
    ensures InRange(c, After(c, b, now)) && After(c, b, now).last == now
  {
    StepPays(c, b, now);
    EarnedPositive(c, b.last, now);
  }

  /** A key's first call is charged to a bucket made for it: a patient caller is never refused at all. */
  lemma PatientFromTheStart(c: Config, start: real, times: seq<real>)
    requires Sensible(c) && c.capacity >= 1.0 && WellSpaced(c, times)
    requires times != [] ==> start <= times[0]
    ensures CountAllowed(c, FullBucket(c, start), times) == |times|
  {
    if times != [] {
      EarnedPositive(c, start, times[0]);
    }
    PatientNeverRefused(c, FullBucket(c, start), times);
  }

  /** A bucket whose owner stayed away long enough answers like a new one. */
  lemma IdleIsFull(c: Config, b: Bucket, now: real, idle: real)
    requires InRange(c, b) && Sensible(c)
    requires now - b.last >= idle >= 0.0 && idle * c.refillPerSecond >= c.capacity
    ensures Allowed(c, b, now) == Allowed(c, FullBucket(c, now), now)
    ensures b.last < now ==> After(c, b, now) == After(c, FullBucket(c, now), now)
  {
    var elapsed := now - b.last;
    Product(elapsed - idle, c.refillPerSecond);
    assert elapsed * c.refillPerSecond == idle * c.refillPerSecond + (elapsed - idle) * c.refillPerSecond;
  }

  // ----- what a refusal costs -----

  /** The answers of a run. */
  function Answers(c: Config, b: Bucket, times: seq<real>): (answers: seq<bool>)
    ensures |answers| == |times|
    decreases |times|
  {
    if times == [] then [] else [Allowed(c, b, times[0])] + Answers(c, After(c, b, times[0]), times[1..])
  }

  /** No reading is before the one in front of it. */
  predicate Ordered(from: real, times: seq<real>)
    decreases |times|
  {
    times != [] ==> from <= times[0] && Ordered(times[0], times[1..])
  }

  /** Refilling in two steps is refilling in one. */
  lemma RefilledTwice(c: Config, b: Bucket, x: real, y: real)
    requires Sensible(c) && InRange(c, b) && b.last <= x <= y
    ensures Refilled(c, Refilled(c, b, x), y) == Refilled(c, b, y)
  {
    EarnedPositive(c, b.last, x);
    EarnedPositive(c, x, y);
    EarnedPositive(c, b.last, y);
    EarnedAdds(c, b.last, x, y);
  }

  /** A refused call changes no later answer: it might as well not have been made. */
  lemma RefusalIsFree(c: Config, b: Bucket, now: real, times: seq<real>)
    requires Sensible(c) && InRange(c, b) && b.last <= now && Ordered(now, times) && !Allowed(c, b, now)
    ensures Answers(c, After(c, b, now), times) == Answers(c, b, times)
  {
    if times != [] {
      RefilledTwice(c, b, now, times[0]);
    }
  }

  /** The entries of a sequence that are kept. */
  function Selected<T>(xs: seq<T>, keep: seq<bool>): seq<T>
    requires |xs| == |keep|
  {
    if xs == [] then []
    else if keep[0] then [xs[0]] + Selected(xs[1..], keep[1..])
    else Selected(xs[1..], keep[1..])
  }

  lemma {:induction false} SelectedOrdered(from: real, times: seq<real>, keep: seq<bool>)
    requires |times| == |keep| && Ordered(from, times)
    ensures Ordered(from, Selected(times, keep))
    decreases |times|
  {
    if times != [] {
      SelectedOrdered(times[0], times[1..], keep[1..]);
      if keep[0] {
        assert Selected(times, keep)[1..] == Selected(times[1..], keep[1..]);
      } else {
        OrderedFrom(from, times[0], Selected(times[1..], keep[1..]));
      }
    }
  }

  lemma OrderedFrom(from: real, mid: real, times: seq<real>)
    requires from <= mid && Ordered(mid, times)
    ensures Ordered(from, times)
  {
  }

  /** Leaving out any of the refused calls of a run leaves all other answers as they were. */
  lemma {:induction false} RefusalsAreFree(c: Config, b: Bucket, times: seq<real>, keep: seq<bool>)
    requires Sensible(c) && InRange(c, b) && Ordered(b.last, times) && |keep| == |times|
    requires forall i :: 0 <= i < |times| && !keep[i] ==> !Answers(c, b, times)[i]
    ensures Answers(c, b, Selected(times, keep)) == Selected(Answers(c, b, times), keep)
    decreases |times|
  {
    if times != [] {
      var next, rest := After(c, b, times[0]), Selected(times[1..], keep[1..]);
      var answers := Answers(c, next, times[1..]);
      assert Answers(c, b, times)[0] == Allowed(c, b, times[0]) && Answers(c, b, times)[1..] == answers;
      StepPays(c, b, times[0]);
      RefusalsAreFree(c, next, times[1..], keep[1..]);
      if keep[0] {
        assert Selected(times, keep)[1..] == rest;
      } else {
        SelectedOrdered(times[0], times[1..], keep[1..]);
        RefusalIsFree(c, b, times[0], rest);
      }
    }
  }

  /** What is earned along the run never goes over the capacity. */
  predicate NeverFull(c: Config, b: Bucket, times: seq<real>)
    decreases |times|
  {
    times != [] ==>
      && b.tokens + Earned(c, b.last, Later(b.last, times[0])) <= c.capacity
      && NeverFull(c, After(c, b, times[0]), times[1..])
  }

  /** Then every token is accounted for: what was there and what was earned is paid out or still there. */
  lemma {:induction false} RunBalance(c: Config, b: Bucket, times: seq<real>)
    requires Sensible(c) && InRange(c, b) && NeverFull(c, b, times)
    ensures AfterAll(c, b, times).tokens + CountAllowed(c, b, times) as real ==
            b.tokens + Earned(c, b.last, AfterAll(c, b, times).last)
    decreases |times|
  {
    if times != [] {
      var next := After(c, b, times[0]);
      StepPays(c, b, times[0]);
      StepBalance(c, b, times[0]);
      RunBalance(c, next, times[1..]);
      EarnedAdds(c, b.last, next.last, AfterAll(c, next, times[1..]).last);
    }
  }
}
