/**
 The keyed limiter and its garbage collection
 (backend/internal/ratelimit/limiter.go:64-147). Each call reads a monotone
 clock once. The claim: evicting idle buckets changes no answer.
 */
module Limiter {
  import opened TokenBucket

  datatype Entry = Entry(bucket: Bucket, lastSeen: real)

  type Buckets = map<string, Entry>

  /** The bucket a key's call is charged to: its own, or a new full one. */
  function BucketFor(c: Config, m: Buckets, key: string, now: real): Bucket {
    if key in m then m[key].bucket else FullBucket(c, now)
  }

  function AllowStep(c: Config, m: Buckets, key: string, now: real): Buckets {
    m[key := Entry(After(c, BucketFor(c, m, key, now), now), now)]
  }

  function GcStep(m: Buckets, idle: real, now: real): Buckets {
    map k | k in m && !(m[k].lastSeen < now - idle) :: m[k]
  }

  class LimiterEntry {
    const bucket: TokenBucket
    var lastSeen: real

    constructor (bucket: TokenBucket, now: real)
      ensures this.bucket == bucket && lastSeen == now
    {
      this.bucket, lastSeen := bucket, now;
    }
  }

  class Limiter {
    const config: Config
    const idle: real
    var buckets: map<string, LimiterEntry>
    ghost var repr: set<object>

    ghost predicate Valid()
      reads this, repr
    {
      && (forall k :: k in buckets ==> buckets[k] in repr && buckets[k].bucket in repr)
      && (forall k :: k in buckets ==> buckets[k].bucket.Settings() == config)
      && (forall k, l :: k in buckets && l in buckets && k != l ==>
            buckets[k] != buckets[l] && buckets[k].bucket != buckets[l].bucket)
      && this !in repr
    }

    ghost function State(): Buckets
      requires Valid()
      reads this, repr
    {
      map k | k in buckets :: Entry(buckets[k].bucket.State(), buckets[k].lastSeen)
    }

    constructor (config: Config, idle: real)
      ensures Valid() && State() == map[] && this.config == config && this.idle == idle && repr == {}
    {
      this.config, this.idle, buckets, repr := config, idle, map[], {};
    }

    /** Creates the key's entry if it has none. */
    method Ensure(key: string, now: real)
      requires Valid()
      modifies this
      ensures Valid() && fresh(repr - old(repr)) && old(repr) <= repr && key in buckets
      ensures State() == if key in old(State()) then old(State())
                         else old(State())[key := Entry(FullBucket(config, now), now)]
    {
      if key !in buckets {
        var bucket := new TokenBucket(config, now);
        var entry := new LimiterEntry(bucket, now);
        buckets := buckets[key := entry];
        repr := repr + {bucket, entry};
      }
    }

    method Allow(key: string, now: real) returns (ok: bool)
      requires Valid()
      modifies this, repr
      ensures Valid() && fresh(repr - old(repr))
      ensures ok == Allowed(config, BucketFor(config, old(State()), key, now), now)
      ensures State() == AllowStep(config, old(State()), key, now)
    {
      ghost var before := State();
      Ensure(key, now);
      ghost var m := State();
      assert m[key].bucket == BucketFor(config, before, key, now);
      ok := Touch(key, now);
      assert m[key := State()[key]] == before[key := State()[key]];
    }

    /** Charges a call to an existing entry. */
    method Touch(key: string, now: real) returns (ok: bool)
      requires Valid() && key in buckets
      modifies repr
      ensures Valid()
      ensures ok == Allowed(config, old(State())[key].bucket, now)
      ensures State() == old(State())[key := Entry(After(config, old(State())[key].bucket, now), now)]
    {
      var e := buckets[key];
      e.lastSeen := now;
      ok := e.bucket.Allow(now);
    }

    method Gc(now: real)
      requires Valid()
      modifies this
      ensures Valid() && repr == old(repr)
      ensures State() == GcStep(old(State()), idle, now)
      ensures forall key :: key in State() <==> key in old(State()) && old(State())[key].lastSeen >= now - idle
      ensures forall key :: key in State() ==> State()[key] == old(State())[key]
    {
      var cutoff := now - idle;
      buckets := map k | k in buckets && !(buckets[k].lastSeen < cutoff) :: buckets[k];
    }
  }

  /** A call records when it came, charges the key's bucket or a full one made for it, and leaves other keys alone. */
  lemma AllowTouches(c: Config, m: Buckets, key: string, now: real)
    ensures var after := AllowStep(c, m, key, now);
            && key in after && after[key].lastSeen == now
            && after[key].bucket == After(c, if key in m then m[key].bucket else Bucket(c.capacity, now), now)
            && after - {key} == m - {key}
  {
  }

  // ----- eviction is invisible -----

  datatype Call = AllowCall(key: string, now: real) | GcCall(now: real)

  function TimeOf(call: Call): real {
    call.now
  }

  function Step(c: Config, idle: real, m: Buckets, call: Call): Buckets {
    match call
    case AllowCall(key, now) => AllowStep(c, m, key, now)
    case GcCall(now) => GcStep(m, idle, now)
  }

  /** The answers to the Allow calls, in order. */
  function Answers(c: Config, idle: real, m: Buckets, calls: seq<Call>): seq<bool>
    decreases |calls|
  {
    if calls == [] then []
    else
      (match calls[0]
       case AllowCall(key, now) => [Allowed(c, BucketFor(c, m, key, now), now)]
       case GcCall(_) => []) + Answers(c, idle, Step(c, idle, m, calls[0]), calls[1..])
  }

  /** The same calls against buckets that are never evicted. */
  function AnswersForever(c: Config, m: Buckets, calls: seq<Call>): seq<bool>
    decreases |calls|
  {
    if calls == [] then []
    else
      match calls[0]
      case AllowCall(key, now) =>
        [Allowed(c, BucketFor(c, m, key, now), now)] + AnswersForever(c, AllowStep(c, m, key, now), calls[1..])
      case GcCall(_) => AnswersForever(c, m, calls[1..])
  }

  predicate Monotone(start: real, calls: seq<Call>)
    decreases |calls|
  {
    calls != [] ==> start <= TimeOf(calls[0]) && Monotone(TimeOf(calls[0]), calls[1..])
  }

  predicate Kept(c: Config, b: Bucket, lastSeen: real, now: real) {
    InRange(c, b) && b.last == lastSeen <= now
  }

  /** What relates the limiter to the one that never forgets: an evicted key has been idle long enough. */
  predicate Related(c: Config, idle: real, m: Buckets, forever: Buckets, now: real) {
    && m.Keys <= forever.Keys
    && (forall k :: k in forever ==> Kept(c, forever[k].bucket, forever[k].lastSeen, now))
    && (forall k :: k in m ==> m[k] == forever[k])
    && (forall k :: k in forever && k !in m ==> forever[k].lastSeen < now - idle)
  }

  lemma AllowRelated(c: Config, idle: real, m: Buckets, forever: Buckets, before: real, key: string, now: real)
    requires Sensible(c) && idle >= 0.0 && idle * c.refillPerSecond >= c.capacity
    requires before <= now && Related(c, idle, m, forever, before)
    ensures Allowed(c, BucketFor(c, m, key, now), now) == Allowed(c, BucketFor(c, forever, key, now), now)
    ensures Related(c, idle, AllowStep(c, m, key, now), AllowStep(c, forever, key, now), now)
  {
    StepPays(c, BucketFor(c, forever, key, now), now);
    if key in forever && key !in m {
      IdleIsFull(c, forever[key].bucket, now, idle);
    }
  }

  lemma GcRelated(c: Config, idle: real, m: Buckets, forever: Buckets, before: real, now: real)
    requires before <= now && Related(c, idle, m, forever, before)
    ensures Related(c, idle, GcStep(m, idle, now), forever, now)
  {
  }

  lemma {:induction false} RelatedAnswers(
    c: Config, idle: real, m: Buckets, forever: Buckets, before: real, calls: seq<Call>)
    requires Sensible(c) && idle >= 0.0 && idle * c.refillPerSecond >= c.capacity
    requires Related(c, idle, m, forever, before) && Monotone(before, calls)
    ensures Answers(c, idle, m, calls) == AnswersForever(c, forever, calls)
    decreases |calls|
  {
    if calls != [] {
      match calls[0]
      case AllowCall(key, now) =>
        AllowRelated(c, idle, m, forever, before, key, now);
        RelatedAnswers(c, idle, AllowStep(c, m, key, now), AllowStep(c, forever, key, now), now, calls[1..]);
      case GcCall(now) =>
        GcRelated(c, idle, m, forever, before, now);
        RelatedAnswers(c, idle, GcStep(m, idle, now), forever, now, calls[1..]);
    }
  }

  /**
   Any interleaving of calls over any keys with any number of collections gives
   the answers that never-evicted buckets would give, provided an idle period
   refills a whole bucket.
   */
  lemma GcInvisible(c: Config, idle: real, start: real, calls: seq<Call>)
    requires Sensible(c) && idle >= 0.0 && idle * c.refillPerSecond >= c.capacity
    requires Monotone(start, calls)
    ensures Answers(c, idle, map[], calls) == AnswersForever(c, map[], calls)
  {
    RelatedAnswers(c, idle, map[], map[], start, calls);
  }

  // ----- the proviso is exact -----

  /** Collections change no answer of any run over a clock that does not step back. */
  ghost predicate Invisible(c: Config, idle: real) {
    forall start: real, calls: seq<Call> :: Monotone(start, calls) ==>
      Answers(c, idle, map[], calls) == AnswersForever(c, map[], calls)
  }

  /** n calls on one key at one moment. */
  function Burst(key: string, now: real, n: nat): seq<Call> {
    if n == 0 then [] else [AllowCall(key, now)] + Burst(key, now, n - 1)
  }

  function AllTrue(n: nat): seq<bool> {
    seq(n, i => true)
  }

  lemma BurstStep(c: Config, idle: real, m: Buckets, key: string, now: real, n: nat, rest: seq<Call>)
    requires n > 0
    ensures var ok := Allowed(c, BucketFor(c, m, key, now), now);
            var next, calls := AllowStep(c, m, key, now), Burst(key, now, n - 1) + rest;
            && Answers(c, idle, m, Burst(key, now, n) + rest) == [ok] + Answers(c, idle, next, calls)
            && AnswersForever(c, m, Burst(key, now, n) + rest) == [ok] + AnswersForever(c, next, calls)
  {
    var calls := Burst(key, now, n) + rest;
    assert calls[0] == AllowCall(key, now) && calls[1..] == Burst(key, now, n - 1) + rest;
  }

  /** The buckets after n calls that each found a token. */
  function Spent(m: Buckets, key: string, now: real, tokens: nat, n: nat): Buckets
    requires n <= tokens
  {
    if n == 0 then m else m[key := Entry(Bucket((tokens - n) as real, now), now)]
  }

  lemma {:induction false} BurstAllowed(
    c: Config, idle: real, m: Buckets, key: string, now: real, tokens: nat, n: nat, rest: seq<Call>)
    requires n <= tokens && BucketFor(c, m, key, now) == Bucket(tokens as real, now)
    ensures var after := Spent(m, key, now, tokens, n);
            && Answers(c, idle, m, Burst(key, now, n) + rest) == AllTrue(n) + Answers(c, idle, after, rest)
            && AnswersForever(c, m, Burst(key, now, n) + rest) == AllTrue(n) + AnswersForever(c, after, rest)
    decreases n
  {
    if n == 0 {
      assert Burst(key, now, n) + rest == rest;
    } else {
      var next := AllowStep(c, m, key, now);
      var after := Spent(m, key, now, tokens, n);
      BurstStep(c, idle, m, key, now, n, rest);
      OneSpent(c, m, key, now, tokens, n);
      BurstAllowed(c, idle, next, key, now, tokens - 1, n - 1, rest);
      OneMore(n, Answers(c, idle, after, rest));
      OneMore(n, AnswersForever(c, after, rest));
    }
  }

  lemma OneSpent(c: Config, m: Buckets, key: string, now: real, tokens: nat, n: nat)
    requires 0 < n <= tokens && BucketFor(c, m, key, now) == Bucket(tokens as real, now)
    ensures Allowed(c, BucketFor(c, m, key, now), now)
    ensures var next := AllowStep(c, m, key, now);
            && BucketFor(c, next, key, now) == Bucket((tokens - 1) as real, now)
            && Spent(next, key, now, tokens - 1, n - 1) == Spent(m, key, now, tokens, n)
  {
  }

  lemma OneMore(n: nat, more: seq<bool>)
    requires n > 0
    ensures [true] + (AllTrue(n - 1) + more) == AllTrue(n) + more
  {
  }

  /** A bucket that cannot have n tokens does not allow n calls. */
  lemma {:induction false} BurstRefused(c: Config, m: Buckets, key: string, now: real, n: nat)
    requires Sensible(c) && key in m && InRange(c, m[key].bucket) && m[key].bucket.last <= now
    requires m[key].bucket.tokens + Earned(c, m[key].bucket.last, now) < n as real
    ensures AnswersForever(c, m, Burst(key, now, n)) != AllTrue(n)
    decreases n
  {
    var b := m[key].bucket;
    EarnedPositive(c, b.last, now);
    StepPays(c, b, now);
    BurstStep(c, 0.0, m, key, now, n, []);
    assert Burst(key, now, n) + [] == Burst(key, now, n) && Burst(key, now, n - 1) + [] == Burst(key, now, n - 1);
    if Allowed(c, b, now) {
      var next := AllowStep(c, m, key, now);
      assert next[key].bucket.last == now && Earned(c, now, now) == 0.0;
      BurstRefused(c, next, key, now, n - 1);
      assert AllTrue(n)[1..] == AllTrue(n - 1);
    }
    assert AllTrue(n)[0];
  }

  lemma {:induction false} BurstMonotone(key: string, now: real, n: nat, start: real, rest: seq<Call>)
    requires start <= now && Monotone(now, rest)
    ensures Monotone(start, Burst(key, now, n) + rest)
    decreases n
  {
    if n == 0 {
      assert Burst(key, now, n) + rest == rest;
    } else {
      BurstMonotone(key, now, n - 1, now, rest);
      assert (Burst(key, now, n) + rest)[1..] == Burst(key, now, n - 1) + rest;
    }
  }

  function EmptiedTwice(gcAt: real, n: nat): seq<Call> {
    Burst("k", 0.0, n) + ([GcCall(gcAt)] + Burst("k", gcAt, n))
  }

  /**
   A bucket that an idle period cannot refill is forgiven early: a key that
   empties it, waits for the collection and empties it again is never refused,
   where the bucket that is kept refuses it.
   */
  lemma GcShows(c: Config, idle: real, gcAt: real, n: nat)
    requires n >= 1 && c.capacity == n as real && c.refillPerSecond >= 0.0
    requires 0.0 <= idle < gcAt && Earned(c, 0.0, gcAt) < n as real
    ensures var calls := EmptiedTwice(gcAt, n);
            && Monotone(0.0, calls)
            && Answers(c, idle, map[], calls) == AllTrue(n) + AllTrue(n)
            && AnswersForever(c, map[], calls) != Answers(c, idle, map[], calls)
  {
    var again := Burst("k", gcAt, n);
    var rest := [GcCall(gcAt)] + again;
    assert rest[1..] == again && again + [] == again;
    BurstMonotone("k", gcAt, n, gcAt, []);
    BurstMonotone("k", 0.0, n, 0.0, rest);
    BurstAllowed(c, idle, map[], "k", 0.0, n, n, rest);
    var empty := Spent(map[], "k", 0.0, n, n);
    assert empty["k"] == Entry(Bucket(0.0, 0.0), 0.0);
    assert GcStep(empty, idle, gcAt) == map[];
    BurstAllowed(c, idle, map[], "k", gcAt, n, n, []);
    assert Answers(c, idle, empty, rest) == [] + Answers(c, idle, map[], again);
    BurstRefused(c, empty, "k", gcAt, n);
    assert (AllTrue(n) + AnswersForever(c, empty, again))[n..] == AnswersForever(c, empty, again);
    assert (AllTrue(n) + AllTrue(n))[n..] == AllTrue(n);
  }

  /** A moment after an idle period at which the bucket is not full again. */
  function BeforeFull(c: Config, idle: real): real
    requires c.refillPerSecond >= 0.0
  {
    if c.refillPerSecond == 0.0 then idle + 1.0 else (idle + c.capacity / c.refillPerSecond) / 2.0
  }

  lemma Scaled(x: real, y: real, r: real)
    requires x <= y && r >= 0.0
    ensures x * r <= y * r
  {
    Product(y - x, r);
  }

  lemma NotFullYet(c: Config, idle: real)
    requires c.capacity > 0.0 && c.refillPerSecond >= 0.0 && idle >= 0.0 && idle * c.refillPerSecond < c.capacity
    ensures idle < BeforeFull(c, idle) && Earned(c, 0.0, BeforeFull(c, idle)) < c.capacity
  {
    var r := c.refillPerSecond;
    if r > 0.0 {
      var full := c.capacity / r;
      assert full * r == c.capacity;
      if idle >= full {
        Scaled(full, idle, r);
      }
      assert Earned(c, 0.0, BeforeFull(c, idle)) == (idle * r + full * r) / 2.0;
    }
  }

  /**
   For every capacity a limiter can have: collections are invisible exactly
   when an idle period refills a whole bucket.
   */
  lemma GcInvisibleIff(c: Config, idle: real, n: nat)
    requires c.capacity == n as real && c.refillPerSecond >= 0.0 && idle >= 0.0
    ensures Invisible(c, idle) <==> idle * c.refillPerSecond >= c.capacity
  {
    if idle * c.refillPerSecond >= c.capacity {
      forall start: real, calls: seq<Call> | Monotone(start, calls)
        ensures Answers(c, idle, map[], calls) == AnswersForever(c, map[], calls)
      {
        GcInvisible(c, idle, start, calls);
      }
    } else {
      Product(idle, c.refillPerSecond);
      NotFullYet(c, idle);
      GcShows(c, idle, BeforeFull(c, idle), n);
      assert Monotone(0.0, EmptiedTwice(BeforeFull(c, idle), n));
    }
  }

  // ----- one key at a time -----

  /** Never-evicted buckets are independent: a call on one key does not touch another's bucket. */
  lemma KeysIndependent(c: Config, m: Buckets, key: string, other: string, now: real)
    requires key != other
    ensures (other in AllowStep(c, m, key, now) <==> other in m)
            && (other in m ==> AllowStep(c, m, key, now)[other] == m[other])
  {
  }

  /** When a key's calls were made. */
  function TimesOf(calls: seq<Call>, key: string): seq<real> {
    if calls == [] then []
    else (if calls[0].AllowCall? && calls[0].key == key then [calls[0].now] else []) + TimesOf(calls[1..], key)
  }

  /** The limiter's answers to one key's calls, whatever else goes on in between. */
  function KeyAnswers(c: Config, idle: real, m: Buckets, calls: seq<Call>, key: string): seq<bool>
    decreases |calls|
  {
    if calls == [] then []
    else
      (match calls[0]
       case AllowCall(k, now) => if k == key then [Allowed(c, BucketFor(c, m, k, now), now)] else []
       case GcCall(_) => []) + KeyAnswers(c, idle, Step(c, idle, m, calls[0]), calls[1..], key)
  }

  /** The answers of one bucket by itself. */
  function BucketAnswers(c: Config, b: Bucket, times: seq<real>): seq<bool>
    decreases |times|
  {
    if times == [] then [] else [Allowed(c, b, times[0])] + BucketAnswers(c, After(c, b, times[0]), times[1..])
  }

  function Alone(c: Config, m: Buckets, key: string, times: seq<real>): seq<bool> {
    if times == [] then [] else BucketAnswers(c, BucketFor(c, m, key, times[0]), times)
  }

  lemma AloneStep(c: Config, m: Buckets, key: string, now: real, times: seq<real>)
    ensures Alone(c, m, key, [now] + times) ==
            [Allowed(c, BucketFor(c, m, key, now), now)] + Alone(c, AllowStep(c, m, key, now), key, times)
  {
    var b, all := BucketFor(c, m, key, now), [now] + times;
    assert all[0] == now && all[1..] == times;
    assert BucketAnswers(c, b, all) == [Allowed(c, b, now)] + BucketAnswers(c, After(c, b, now), times);
    if times != [] {
      assert BucketFor(c, AllowStep(c, m, key, now), key, times[0]) == After(c, b, now);
    }
  }

  lemma {:induction false} RelatedAlone(
    c: Config, idle: real, m: Buckets, forever: Buckets, before: real, calls: seq<Call>, key: string)
    requires Sensible(c) && idle >= 0.0 && idle * c.refillPerSecond >= c.capacity
    requires Related(c, idle, m, forever, before) && Monotone(before, calls)
    ensures KeyAnswers(c, idle, m, calls, key) == Alone(c, forever, key, TimesOf(calls, key))
    decreases |calls|
  {
    if calls != [] {
      var rest := TimesOf(calls[1..], key);
      match calls[0]
      case AllowCall(k, now) =>
        var forever' := AllowStep(c, forever, k, now);
        AllowRelated(c, idle, m, forever, before, k, now);
        RelatedAlone(c, idle, AllowStep(c, m, k, now), forever', now, calls[1..], key);
        if k == key {
          AloneStep(c, forever, key, now, rest);
        } else {
          KeysIndependent(c, forever, k, key, now);
          assert TimesOf(calls, key) == rest;
          assert Alone(c, forever', key, rest) == Alone(c, forever, key, rest);
        }
      case GcCall(now) =>
        assert TimesOf(calls, key) == rest;
        GcRelated(c, idle, m, forever, before, now);
        RelatedAlone(c, idle, GcStep(m, idle, now), forever, now, calls[1..], key);
    }
  }

  /** A key is answered by a bucket of its own, made full at its first call and never evicted. */
  lemma KeyIsAlone(c: Config, idle: real, start: real, calls: seq<Call>, key: string)
    requires Sensible(c) && idle >= 0.0 && idle * c.refillPerSecond >= c.capacity
    requires Monotone(start, calls)
    ensures var times := TimesOf(calls, key);
            KeyAnswers(c, idle, map[], calls, key) ==
            if times == [] then [] else BucketAnswers(c, FullBucket(c, times[0]), times)
  {
    RelatedAlone(c, idle, map[], map[], start, calls, key);
  }

  function CountTrue(answers: seq<bool>): nat {
    if answers == [] then 0 else (if answers[0] then 1 else 0) + CountTrue(answers[1..])
  }

  lemma {:induction false} CountedAnswers(c: Config, b: Bucket, times: seq<real>)
    ensures CountTrue(BucketAnswers(c, b, times)) == CountAllowed(c, b, times)
    decreases |times|
  {
    if times != [] {
      CountedAnswers(c, After(c, b, times[0]), times[1..]);
    }
  }

  lemma {:induction false} LastReading(c: Config, b: Bucket, calls: seq<Call>, key: string, end: real)
    requires Monotone(b.last, calls) && b.last <= end && forall call :: call in calls ==> TimeOf(call) <= end
    ensures AfterAll(c, b, TimesOf(calls, key)).last <= end
    decreases |calls|
  {
    if calls != [] {
      var call := calls[0];
      if call.AllowCall? && call.key == key {
        assert ([call.now] + TimesOf(calls[1..], key))[1..] == TimesOf(calls[1..], key);
        LastReading(c, After(c, b, call.now), calls[1..], key, end);
      } else {
        assert TimesOf(calls, key) == TimesOf(calls[1..], key);
        MonotoneLater(b.last, calls);
        LastReading(c, b, calls[1..], key, end);
      }
    }
  }

  lemma MonotoneLater(start: real, calls: seq<Call>)
    requires Monotone(start, calls) && calls != []
    ensures Monotone(start, calls[1..])
  {
  }

  function RunAll(c: Config, idle: real, m: Buckets, calls: seq<Call>): Buckets
    decreases |calls|
  {
    if calls == [] then m else RunAll(c, idle, Step(c, idle, m, calls[0]), calls[1..])
  }

  /** The same calls without the collections. */
  function RunForever(c: Config, m: Buckets, calls: seq<Call>): Buckets
    decreases |calls|
  {
    if calls == [] then m
    else RunForever(c, if calls[0].AllowCall? then AllowStep(c, m, calls[0].key, calls[0].now) else m, calls[1..])
  }

  function LastTime(start: real, calls: seq<Call>): real
    decreases |calls|
  {
    if calls == [] then start else LastTime(TimeOf(calls[0]), calls[1..])
  }

  lemma {:induction false} RunRelated(
    c: Config, idle: real, m: Buckets, forever: Buckets, before: real, calls: seq<Call>)
    requires Sensible(c) && idle >= 0.0 && idle * c.refillPerSecond >= c.capacity
    requires Related(c, idle, m, forever, before) && Monotone(before, calls)
    ensures Related(c, idle, RunAll(c, idle, m, calls), RunForever(c, forever, calls), LastTime(before, calls))
    decreases |calls|
  {
    if calls != [] {
      match calls[0]
      case AllowCall(key, now) =>
        AllowRelated(c, idle, m, forever, before, key, now);
        RunRelated(c, idle, AllowStep(c, m, key, now), AllowStep(c, forever, key, now), now, calls[1..]);
      case GcCall(now) =>
        GcRelated(c, idle, m, forever, before, now);
        RunRelated(c, idle, GcStep(m, idle, now), forever, now, calls[1..]);
    }
  }

  /**
   What the limiter promises per key, collections and other keys
   notwithstanding: between any two moments of a run it allows at most a full
   bucket plus what is refilled in between. `pre` is what happened before.
   */
  lemma KeyRateBounded(c: Config, idle: real, start: real, pre: seq<Call>, mid: real, end: real,
                       calls: seq<Call>, key: string)
    requires Sensible(c) && idle >= 0.0 && idle * c.refillPerSecond >= c.capacity
    requires Monotone(start, pre) && LastTime(start, pre) <= mid <= end
    requires Monotone(mid, calls) && forall call :: call in calls ==> TimeOf(call) <= end
    ensures CountTrue(KeyAnswers(c, idle, RunAll(c, idle, map[], pre), calls, key)) as real <=
            c.capacity + Earned(c, mid, end)
  {
    var m, forever, before := RunAll(c, idle, map[], pre), RunForever(c, map[], pre), LastTime(start, pre);
    RunRelated(c, idle, map[], map[], start, pre);
    var times := TimesOf(calls, key);
    MonotoneFrom(before, mid, calls);
    RelatedAlone(c, idle, m, forever, before, calls, key);
    EarnedPositive(c, mid, end);
    if times != [] {
      FirstNotBefore(mid, calls, key);
      var b := BucketFor(c, forever, key, times[0]);
      CountedAnswers(c, b, times);
      AloneRateBounded(c, b, mid, end, calls, key);
    }
  }

  lemma MonotoneFrom(before: real, mid: real, calls: seq<Call>)
    requires before <= mid && Monotone(mid, calls)
    ensures Monotone(before, calls)
  {
  }

  /** One bucket over the calls of its key from a moment on. */
  lemma AloneRateBounded(c: Config, b: Bucket, mid: real, end: real, calls: seq<Call>, key: string)
    requires Sensible(c) && InRange(c, b) && Monotone(mid, calls) && mid <= end
    requires forall call :: call in calls ==> TimeOf(call) <= end
    requires TimesOf(calls, key) != [] && b.last <= TimesOf(calls, key)[0]
    ensures CountAllowed(c, b, TimesOf(calls, key)) as real <= c.capacity + Earned(c, mid, end)
  {
    var times := TimesOf(calls, key);
    FirstNotBefore(mid, calls, key);
    var r := Refilled(c, b, times[0]);
    RateBounded(c, b, times);
    LastReading(c, Bucket(r.tokens, mid), calls, key, end);
    assert After(c, Bucket(r.tokens, mid), times[0]).last == After(c, b, times[0]).last;
    LastSame(c, Bucket(r.tokens, mid), b, times);
    var last := AfterAll(c, b, times).last;
    EarnedAdds(c, mid, times[0], end);
    EarnedPositive(c, mid, times[0]);
    EarnedAdds(c, times[0], last, end);
    EarnedPositive(c, last, end);
  }

  /** When a bucket was last refilled depends on the readings alone. */
  lemma {:induction false} LastSame(c: Config, a: Bucket, b: Bucket, times: seq<real>)
    requires times != [] && a.last <= times[0] && b.last <= times[0]
    ensures AfterAll(c, a, times).last == AfterAll(c, b, times).last
    decreases |times|
  {
    if |times| > 1 {
      LastSameFrom(c, After(c, a, times[0]), After(c, b, times[0]), times[1..]);
    }
  }

  lemma {:induction false} LastSameFrom(c: Config, a: Bucket, b: Bucket, times: seq<real>)
    requires a.last == b.last
    ensures AfterAll(c, a, times).last == AfterAll(c, b, times).last
    decreases |times|
  {
    if times != [] {
      LastSameFrom(c, After(c, a, times[0]), After(c, b, times[0]), times[1..]);
    }
  }

  lemma {:induction false} FirstNotBefore(start: real, calls: seq<Call>, key: string)
    requires Monotone(start, calls) && TimesOf(calls, key) != []
    ensures start <= TimesOf(calls, key)[0]
    decreases |calls|
  {
    if !(calls[0].AllowCall? && calls[0].key == key) {
      FirstNotBefore(TimeOf(calls[0]), calls[1..], key);
    }
  }
}
