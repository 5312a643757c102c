/** rate_limit.c: the backoff after a bandwidth violation, the background cleaner, and the per-key connection
    counts. Seconds are unbounded; microseconds within a second are below one million. */
module RateLimit {
  import opened Common
  import opened Bits

  const WINDOW := 6
  const MIN_RUN_USEC := 50_000
  const SECOND_USEC := 1_000_000
  const STALE_SEC := 120

  type Ratio = r: real | r > 0.0 witness 1.0

  /** speed_hash_value_t; `elapsed` is the microsecond of its second at which the violation was seen. */
  datatype Policy = Policy(received: nat, ratio: Ratio, elapsed: nat, previous_ratio: real)

  /** Unsigned 32-bit subtraction of seconds. */
  function Age(p: Policy, now: nat): nat {
    if now >= p.received then now - p.received else if now + WORD >= p.received then now + WORD - p.received else 0
  }

  predicate ValidPolicy(p: Policy, now: nat) {
    Age(p, now) <= WINDOW
  }

  function BaseRunTime(p: Policy): nat {
    var allowed := (p.elapsed as real / p.ratio).Floor;
    if allowed < MIN_RUN_USEC then MIN_RUN_USEC else allowed
  }

  function AllowedAtAge(base: nat, age: nat): nat {
    if age == 0 then 0
    else if age <= WINDOW then (if base * Pow2(age - 1) < SECOND_USEC then base * Pow2(age - 1) else SECOND_USEC)
    else SECOND_USEC
  }

  /** compute_allowed_run_time, statement by statement. */
  method ComputeAllowedRunTime(p: Policy, now: nat) returns (allowed_run_time_usec: nat)
    ensures allowed_run_time_usec == AllowedAtAge(BaseRunTime(p), Age(p, now))
  {
    var policy_age := Age(p, now);
    var allowed := (p.elapsed as real / p.ratio).Floor;
    if allowed < MIN_RUN_USEC {
      allowed := MIN_RUN_USEC;
    }
    if policy_age == 0 {
      allowed_run_time_usec := 0;
    } else if policy_age <= WINDOW {
      allowed := allowed * Pow2(policy_age - 1);
      allowed_run_time_usec := if allowed < SECOND_USEC then allowed else SECOND_USEC;
    } else {
      allowed_run_time_usec := SECOND_USEC;
    }
  }

  /** The decision of rl_speed_throttle once a policy is found. */
  predicate Throttled(p: Policy, now: nat, usec: nat) {
    ValidPolicy(p, now) && usec >= AllowedAtAge(BaseRunTime(p), Age(p, now))
  }

  // ---------------------------------------------------------------- backoff closes smoothly

  lemma PowersUpTo6()
    ensures Pow2(0) == 1 && Pow2(1) == 2 && Pow2(2) == 4 && Pow2(3) == 8 && Pow2(4) == 16 && Pow2(5) == 32
  {
    assert Pow2(3) == 2 * Pow2(2);
    assert Pow2(5) == 2 * Pow2(4);
  }

  /** Allowed time never falls as the policy ages; it is nothing at age 0, at least 50ms after that, at most a
      second, and the whole second from age 6 on. */
  lemma BackoffShape(base: nat, a: nat, b: nat)
    requires base >= 50_000
    ensures a <= b ==> AllowedAtAge(base, a) <= AllowedAtAge(base, b)
    ensures AllowedAtAge(base, 0) == 0
    ensures a >= 1 ==> 50_000 <= AllowedAtAge(base, a) <= 1_000_000
    ensures a >= 6 ==> AllowedAtAge(base, a) == 1_000_000
  {
    PowersUpTo6();
    if 1 <= a <= WINDOW && 1 <= b <= WINDOW {
      Pow2Monotone(a - 1, b - 1);
      MulMono(base, Pow2(a - 1), Pow2(b - 1));
    }
    if 1 <= a <= WINDOW {
      MulMono(base, 1, Pow2(a - 1));
    }
  }

  lemma MulMono(x: nat, a: nat, b: nat)
    ensures a <= b ==> x * a <= x * b
  {
  }

  /** Each further second doubles the allowance, up to the whole second. */
  lemma BackoffDoubles(base: nat, age: nat)
    requires base >= 50_000 && age >= 1
    ensures AllowedAtAge(base, age + 1)
              == if 2 * AllowedAtAge(base, age) < 1_000_000 then 2 * AllowedAtAge(base, age) else 1_000_000
  {
    PowersUpTo6();
    if age < WINDOW {
      assert Pow2(age) == 2 * Pow2(age - 1);
      assert base * (2 * Pow2(age - 1)) == 2 * (base * Pow2(age - 1));
    } else {
      BackoffShape(base, age, age);
    }
  }

  /** One second after the violation a user that exceeded its limit by the ratio may run for that fraction of the time
      it took to be seen, to the microsecond, and never for less than 50ms. */
  lemma FirstBackoffIsProportional(p: Policy)
    requires p.elapsed < 1_000_000 && p.ratio >= 1.0
    ensures var a := AllowedAtAge(BaseRunTime(p), 1);
            if p.elapsed as real / p.ratio >= 50_000.0
            then a as real <= p.elapsed as real / p.ratio < a as real + 1.0
            else a == 50_000
  {
    PowersUpTo6();
    assert p.elapsed as real / p.ratio <= p.elapsed as real by { Shrinks(p.elapsed as real, p.ratio); }
    assert BaseRunTime(p) * 1 == BaseRunTime(p);
  }

  lemma Shrinks(x: real, r: real)
    requires x >= 0.0 && r >= 1.0
    ensures x / r <= x
  {
    var q := x / r;
    assert q * r == x && q >= 0.0;
    assert q * r >= q * 1.0;
  }

  /** The validity window cuts off no decision: past it the allowance is the whole second anyway. */
  lemma NoCliff(p: Policy, now: nat, usec: nat)
    requires usec < 1_000_000
    ensures Throttled(p, now, usec) <==> usec >= AllowedAtAge(BaseRunTime(p), Age(p, now))
  {
    BackoffShape(BaseRunTime(p), Age(p, now), WINDOW);
  }

  /** An instant of the second that is free at one age is free at every later age. */
  lemma FreeStaysFree(p: Policy, now: nat, later: nat, usec: nat)
    requires p.received <= now <= later && usec < 1_000_000 && !Throttled(p, now, usec)
    ensures !Throttled(p, later, usec)
  {
    NoCliff(p, now, usec);
    NoCliff(p, later, usec);
    BackoffShape(BaseRunTime(p), Age(p, now), Age(p, later));
  }

  // ---------------------------------------------------------------- the speed tables and the cleaner

  datatype Tables = Tables(up: map<string, Policy>, down: map<string, Policy>, ip_key: map<nat, string>) {
    function Of(d: Direction): map<string, Policy> {
      if d.Up? then up else down
    }
    function With(d: Direction, m: map<string, Policy>): Tables {
      if d.Up? then this.(up := m) else this.(down := m)
    }
  }

  datatype Event =
    | SetThrottle(key: string, epoch_us: nat, dir: Direction, ratio: Ratio, now: nat)
    | Query(ip: nat, dir: Direction, now: nat, usec: nat)
    | Clean(dir: Direction, now: nat)
    | SetIp(ip: nat, key: string, now: nat)
    | EndIp(ip: nat, now: nat)

  function SetSpec(m: map<string, Policy>, key: string, epoch_us: nat, ratio: Ratio, now: nat): map<string, Policy> {
    if key == "" then m
    else m[key := Policy(now, ratio, epoch_us % SECOND_USEC, if key in m then m[key].ratio else 0.0)]
  }

  predicate StalePolicy(p: Policy, now: nat) {
    now > p.received && now - p.received > STALE_SEC
  }

  function CleanSpec(m: map<string, Policy>, now: nat): map<string, Policy> {
    map k | k in m && !StalePolicy(m[k], now) :: m[k]
  }

  predicate QuerySpec(t: Tables, ip: nat, dir: Direction, now: nat, usec: nat) {
    && ip in t.ip_key && t.ip_key[ip] != ""
    && t.ip_key[ip] in t.Of(dir)
    && Throttled(t.Of(dir)[t.ip_key[ip]], now, usec)
  }

  function Step(t: Tables, e: Event): Tables {
    match e
    case SetThrottle(key, us, d, r, now) => t.With(d, SetSpec(t.Of(d), key, us, r, now))
    case Clean(d, now) => t.With(d, CleanSpec(t.Of(d), now))
    case SetIp(ip, key, _) => if key != "" && ip != 0 then t.(ip_key := t.ip_key[ip := key]) else t
    case EndIp(ip, _) => t.(ip_key := t.ip_key - {ip})
    case Query(_, _, _, _) => t
  }

  /** The answers of the queries of a run, in order. */
  function Decisions(t: Tables, es: seq<Event>): seq<bool>
    decreases |es|
  {
    if es == [] then [] else
      (if es[0].Query? then [QuerySpec(t, es[0].ip, es[0].dir, es[0].now, es[0].usec)] else [])
      + Decisions(Step(t, es[0]), es[1..])
  }

  // ---------------------------------------------------------------- what a query answers

  function After(t: Tables, es: seq<Event>): Tables
    decreases |es|
  {
    if es == [] then t else After(Step(t, es[0]), es[1..])
  }

  /** No event of the run comes after `now` or stores a policy for this key and direction. */
  ghost predicate Undisturbed(es: seq<Event>, key: string, d: Direction, now: nat) {
    forall e :: e in es ==> e.now <= now && !(e.SetThrottle? && e.key == key && e.dir == d)
  }

  /** The policy is still there, unless a cleanup took it away more than 120 seconds after it came. */
  lemma {:induction false} PolicyStays(t: Tables, es: seq<Event>, key: string, d: Direction, p: Policy, now: nat)
    requires Undisturbed(es, key, d, now)
    requires if key in t.Of(d) then t.Of(d)[key] == p else now > p.received + 120
    ensures var u := After(t, es); if key in u.Of(d) then u.Of(d)[key] == p else now > p.received + 120
    decreases |es|
  {
    if es != [] {
      var e := es[0];
      assert e in es;
      var u := Step(t, e);
      assert if key in u.Of(d) then u.Of(d)[key] == p else now > p.received + 120;
      hide Step;
      PolicyStays(u, es[1..], key, d, p, now);
    }
  }

  /** A policy for a key and direction received at t0, with no later one for them, decides every query of a connection
      mapped to that key in that direction, whatever else happens in between: throttled exactly for six seconds, in the
      part of each second after the allowance, which is nothing in the first second and then doubles from the elapsed
      time divided by the ratio, at least 50 ms and at most the whole second. */
  lemma QueryLaw(t: Tables, key: string, epoch_us: nat, d: Direction, ratio: Ratio, t0: nat, es: seq<Event>, ip: nat,
                 now: nat, usec: nat)
    requires key != "" && t0 <= now && Undisturbed(es, key, d, now)
    requires var u := After(Step(t, SetThrottle(key, epoch_us, d, ratio, t0)), es);
             ip in u.ip_key && u.ip_key[ip] == key
    ensures var u := After(Step(t, SetThrottle(key, epoch_us, d, ratio, t0)), es);
            var quotient := ((epoch_us % 1_000_000) as real / ratio).Floor;
            var base := if quotient < 50_000 then 50_000 else quotient;
            QuerySpec(u, ip, d, now, usec) <==>
              now - t0 <= 6 && (now == t0 || usec >= 1_000_000 || usec >= base * Pow2(now - t0 - 1))
  {
    var s := Step(t, SetThrottle(key, epoch_us, d, ratio, t0));
    var p := s.Of(d)[key];
    assert p.received == t0 && p.ratio == ratio && p.elapsed == epoch_us % 1_000_000;
    PolicyStays(s, es, key, d, p, now);
    hide Step, Pow2, After;
  }

  /** Policies of the other direction or of other keys, and cleanups of the other direction, change no answer. */
  lemma OthersChangeNothing(t: Tables, e: Event, ip: nat, d: Direction, now: nat, usec: nat)
    requires e.SetThrottle? || e.Clean?
    requires e.dir != d || (e.SetThrottle? && ip in t.ip_key && t.ip_key[ip] != e.key)
    ensures QuerySpec(Step(t, e), ip, d, now, usec) <==> QuerySpec(t, ip, d, now, usec)
  {
    hide Throttled;
  }

  /** For example: a connection whose key was just reported for its uploads is throttled in uploads only. */
  lemma UploadOnly(now: nat, epoch_us: nat)
    ensures var es := [SetIp(7, "k", now), SetThrottle("k", epoch_us, Up, 2.0, now),
                       Query(7, Up, now, 500_000), Query(7, Down, now, 500_000)];
            Decisions(Tables(map[], map[], map[]), es) == [true, false]
  {
    var e0, e1 := SetIp(7, "k", now), SetThrottle("k", epoch_us, Up, 2.0, now);
    var e2, e3 := Query(7, Up, now, 500_000), Query(7, Down, now, 500_000);
    var t0 := Tables(map[], map[], map[]);
    var t1 := Step(t0, e0);
    var t2 := Step(t1, e1);
    assert [e0, e1, e2, e3][1..] == [e1, e2, e3] && [e1, e2, e3][1..] == [e2, e3];
    assert [e2, e3][1..] == [e3] && [e3][1..] == [];
    assert QuerySpec(t2, 7, Up, now, 500_000) && !QuerySpec(t2, 7, Down, now, 500_000);
    hide Step, QuerySpec;
    assert Step(t2, e2) == t2 && Step(t2, e3) == t2 by { QueryKeeps(t2, e2); QueryKeeps(t2, e3); }
    assert Decisions(t2, []) == [];
    assert Decisions(t2, [e3]) == [false];
    assert Decisions(t2, [e2, e3]) == [true] + [false];
    assert Decisions(t1, [e1, e2, e3]) == [true, false];
  }

  lemma QueryKeeps(t: Tables, e: Event)
    requires e.Query?
    ensures Step(t, e) == t
  {
  }

  // ---------------------------------------------------------------- cleanups change no answer

  function WithoutCleans(es: seq<Event>): seq<Event> {
    if es == [] then [] else (if es[0].Clean? then [] else [es[0]]) + WithoutCleans(es[1..])
  }

  ghost predicate Monotone(now: nat, es: seq<Event>)
    decreases |es|
  {
    es == [] || (now <= es[0].now && Monotone(es[0].now, es[1..]))
  }

  predicate SameDecision(p: Policy, q: Policy) {
    p.received == q.received && p.ratio == q.ratio && p.elapsed == q.elapsed
  }

  /** The cleaned table a against the uncleaned table b: equal where both have the key, and what is missing from a
      is stale. */
  ghost predicate Shadows(a: map<string, Policy>, b: map<string, Policy>, now: nat) {
    && a.Keys <= b.Keys
    && (forall k :: k in b ==> b[k].received <= now)
    && (forall k :: k in a ==> SameDecision(a[k], b[k]))
    && (forall k :: k in b && k !in a ==> now - b[k].received > STALE_SEC)
  }

  ghost predicate Similar(a: Tables, b: Tables, now: nat) {
    a.ip_key == b.ip_key && Shadows(a.up, b.up, now) && Shadows(a.down, b.down, now)
  }

  lemma StepSimilar(a: Tables, b: Tables, now: nat, e: Event)
    requires Similar(a, b, now) && now <= e.now
    ensures Similar(Step(a, e), if e.Clean? then b else Step(b, e), e.now)
    ensures e.Query? ==> QuerySpec(a, e.ip, e.dir, e.now, e.usec) == QuerySpec(b, e.ip, e.dir, e.now, e.usec)
  {
    ShadowsLater(a.up, b.up, now, e.now);
    ShadowsLater(a.down, b.down, now, e.now);
    match e
    case SetThrottle(key, us, d, r, t) => ShadowsSet(a.Of(d), b.Of(d), key, us, r, t);
    case Clean(d, t) => ShadowsClean(a.Of(d), b.Of(d), t);
    case SetIp(_, _, _) =>
    case EndIp(_, _) =>
    case Query(ip, d, t, usec) =>
      if ip in a.ip_key {
        ShadowsQuery(a.Of(d), b.Of(d), a.ip_key[ip], t, usec);
      }
  }

  lemma ShadowsLater(a: map<string, Policy>, b: map<string, Policy>, now: nat, later: nat)
    requires Shadows(a, b, now) && now <= later
    ensures Shadows(a, b, later)
  {
  }

  lemma ShadowsSet(a: map<string, Policy>, b: map<string, Policy>, key: string, us: nat, r: Ratio, now: nat)
    requires Shadows(a, b, now)
    ensures Shadows(SetSpec(a, key, us, r, now), SetSpec(b, key, us, r, now), now)
  {
  }

  lemma ShadowsClean(a: map<string, Policy>, b: map<string, Policy>, now: nat)
    requires Shadows(a, b, now)
    ensures Shadows(CleanSpec(a, now), b, now)
  {
  }

  /** What the cleaner removed is far outside the validity window. */
  lemma ShadowsQuery(a: map<string, Policy>, b: map<string, Policy>, key: string, now: nat, usec: nat)
    requires Shadows(a, b, now)
    ensures (key in a && Throttled(a[key], now, usec)) <==> (key in b && Throttled(b[key], now, usec))
  {
    hide AllowedAtAge;
  }

  /** The background cleaner is invisible: every run answers every query as the same run without cleanups. */
  lemma {:induction false} CleanerInvisible(a: Tables, b: Tables, now: nat, es: seq<Event>)
    requires Similar(a, b, now) && Monotone(now, es)
    ensures Decisions(a, es) == Decisions(b, WithoutCleans(es))
    decreases |es|
  {
    if es != [] {
      var e := es[0];
      StepSimilar(a, b, now, e);
      hide Similar, QuerySpec, Step;
      var b' := if e.Clean? then b else Step(b, e);
      CleanerInvisible(Step(a, e), b', e.now, es[1..]);
      var rest := WithoutCleans(es[1..]);
      if e.Clean? {
        assert WithoutCleans(es) == rest;
      } else {
        assert WithoutCleans(es) == [e] + rest;
        assert ([e] + rest)[1..] == rest;
      }
    }
  }

  lemma CleanerInvisibleFromStart(es: seq<Event>)
    requires Monotone(0, es)
    ensures Decisions(Tables(map[], map[], map[]), es) == Decisions(Tables(map[], map[], map[]), WithoutCleans(es))
  {
    CleanerInvisible(Tables(map[], map[], map[]), Tables(map[], map[], map[]), 0, es);
  }

  /** The stored previous ratio is the one thing a cleanup changes. */
  lemma PreviousRatioMayDiffer(key: string, r: Ratio)
    requires key != ""
    ensures var m := SetSpec(map[], key, 0, r, 0);
            SetSpec(CleanSpec(m, 121), key, 0, r, 121)[key].previous_ratio == 0.0
            && SetSpec(m, key, 0, r, 121)[key].previous_ratio == r
  {
    var m := SetSpec(map[], key, 0, r, 0);
    assert key !in CleanSpec(m, 121);
  }

  class Limiter {
    var up: map<string, Policy>
    var down: map<string, Policy>
    var ip_key: map<nat, string>

    ghost function Now(): Tables
      reads this
    {
      Tables(up, down, ip_key)
    }

    constructor ()
      ensures Now() == Tables(map[], map[], map[])
    {
      up, down, ip_key := map[], map[], map[];
    }

    /** set_throttle_epoch_us */
    method SetThrottleEpoch(key: string, epoch_us: nat, dir: Direction, ratio: Ratio, now: nat)
      modifies this
      ensures Now() == Step(old(Now()), SetThrottle(key, epoch_us, dir, ratio, now))
    {
      if key == "" {
        return;
      }
      var value := Policy(now, ratio, epoch_us % SECOND_USEC, 0.0);
      var hash := if dir.Up? then up else down;
      if key in hash {
        value := value.(previous_ratio := hash[key].ratio);
      }
      hash := hash[key := value];
      if dir.Up? {
        up := hash;
      } else {
        down := hash;
      }
    }

    /** One pass of remove_old_epochs over one direction's table. */
    method RemoveOldEpochs(dir: Direction, now: nat)
      modifies this
      ensures Now() == Step(old(Now()), Clean(dir, now))
      // exactly the policies of this direction that are more than 120 seconds old are gone
      ensures var before, after := if dir.Up? then old(up) else old(down), if dir.Up? then up else down;
              && (forall k :: k in after <==> k in before && now <= before[k].received + 120)
              && (forall k :: k in after ==> after[k] == before[k])
              && (if dir.Up? then down == old(down) else up == old(up))
    {
      var hash := if dir.Up? then up else down;
      ghost var before := hash;
      var todo := hash.Keys;
      while todo != {}
        invariant todo <= before.Keys
        invariant hash == map k | k in before && (k in todo || !StalePolicy(before[k], now)) :: before[k]
        decreases todo
      {
        var k :| k in todo;
        var v := hash[k];
        if now > v.received && now - v.received > STALE_SEC {
          hash := hash - {k};
        }
        todo := todo - {k};
      }
      if dir.Up? {
        up := hash;
      } else {
        down := hash;
      }
    }

    /** rl_speed_throttle for a known address: true stands for RL_THROTTLE. */
    method SpeedThrottle(ip: nat, dir: Direction, now: nat, usec: nat) returns (throttle: bool)
      ensures throttle == QuerySpec(Now(), ip, dir, now, usec)
    {
      if ip !in ip_key || ip_key[ip] == "" {
        return false;
      }
      var hash := if dir.Up? then up else down;
      if ip_key[ip] !in hash {
        return false;
      }
      var found := hash[ip_key[ip]];
      if Age(found, now) > WINDOW {
        return false;
      }
      var allowed := ComputeAllowedRunTime(found, now);
      return usec >= allowed;
    }
  }

  // ---------------------------------------------------------------- connections per key

  /** `overwritten` records, per key, the mappings to it that were replaced without a decrement. */
  datatype Conns = Conns(ip_key: map<nat, string>, counts: map<string, nat>, overwritten: multiset<string>)

  datatype ConnEvent = Connect(ip: nat, key: string) | End(ip: nat)

  function Incr(counts: map<string, nat>, key: string): map<string, nat> {
    counts[key := if key in counts then counts[key] + 1 else 1]
  }

  function Decr(counts: map<string, nat>, key: string): map<string, nat> {
    if key !in counts || counts[key] == 0 then counts
    else if counts[key] == 1 then counts - {key}
    else counts[key := counts[key] - 1]
  }

  function ConnStep(c: Conns, e: ConnEvent): Conns {
    match e
    case Connect(ip, key) =>
      if key == "" || ip == 0 then c
      else Conns(c.ip_key[ip := key], Incr(c.counts, key),
                 if ip in c.ip_key then c.overwritten + multiset{c.ip_key[ip]} else c.overwritten)
    case End(ip) =>
      if ip !in c.ip_key then c
      else Conns(c.ip_key - {ip}, Decr(c.counts, c.ip_key[ip]), c.overwritten)
  }

  function ConnRun(c: Conns, es: seq<ConnEvent>): Conns
    decreases |es|
  {
    if es == [] then c else ConnRun(ConnStep(c, es[0]), es[1..])
  }

  ghost function Mapped(ip_key: map<nat, string>, key: string): set<nat> {
    set ip | ip in ip_key && ip_key[ip] == key
  }

  function Count(counts: map<string, nat>, key: string): nat {
    if key in counts then counts[key] else 0
  }

  /** Each count is the number of addresses mapped to the key plus the overwritten mappings, and no zero is stored. */
  ghost predicate Accounted(c: Conns) {
    && (forall key :: KeyAccounted(c, key))
    && (forall key :: key in c.counts ==> c.counts[key] >= 1)
  }

  ghost predicate KeyAccounted(c: Conns, key: string) {
    Count(c.counts, key) == |Mapped(c.ip_key, key)| + c.overwritten[key]
  }

  lemma ConnStepAccounted(c: Conns, e: ConnEvent)
    requires Accounted(c)
    ensures Accounted(ConnStep(c, e))
    // a decrement never meets a missing or zero count
    ensures e.End? && e.ip in c.ip_key ==> c.ip_key[e.ip] in c.counts && c.counts[c.ip_key[e.ip]] >= 1
  {
    if e.End? && e.ip in c.ip_key {
      var k := c.ip_key[e.ip];
      assert e.ip in Mapped(c.ip_key, k);
      assert KeyAccounted(c, k);
    }
    var d := ConnStep(c, e);
    forall key ensures KeyAccounted(d, key) {
      assert KeyAccounted(c, key);
      KeyStep(c, e, key);
    }
  }

  lemma KeyStep(c: Conns, e: ConnEvent, key: string)
    requires KeyAccounted(c, key) && (key in c.counts ==> c.counts[key] >= 1)
    requires e.End? && e.ip in c.ip_key ==> c.ip_key[e.ip] in c.counts && c.counts[c.ip_key[e.ip]] >= 1
    ensures KeyAccounted(ConnStep(c, e), key)
  {
    match e
    case Connect(ip, k) => MappedSet(c.ip_key, ip, k, key);
    case End(ip) => MappedRemove(c.ip_key, ip, key);
    hide Mapped;
  }

  lemma MappedSet(ip_key: map<nat, string>, ip: nat, k: string, key: string)
    ensures |Mapped(ip_key[ip := k], key)|
              == |Mapped(ip_key, key)| - (if ip in ip_key && ip_key[ip] == key then 1 else 0)
                + (if k == key then 1 else 0)
  {
    var before, after := Mapped(ip_key, key), Mapped(ip_key[ip := k], key);
    assert after == if k == key then before + {ip} else before - {ip};
  }

  lemma MappedRemove(ip_key: map<nat, string>, ip: nat, key: string)
    ensures |Mapped(ip_key - {ip}, key)| == |Mapped(ip_key, key)| - (if ip in ip_key && ip_key[ip] == key then 1 else 0)
  {
    var before, after := Mapped(ip_key, key), Mapped(ip_key - {ip}, key);
    assert after == before - {ip};
  }

  /** In every run of connects and request ends. */
  lemma {:induction false} ConnRunAccounted(c: Conns, es: seq<ConnEvent>)
    requires Accounted(c)
    ensures Accounted(ConnRun(c, es))
    decreases |es|
  {
    if es != [] {
      ConnStepAccounted(c, es[0]);
      ConnRunAccounted(ConnStep(c, es[0]), es[1..]);
    }
  }

  // ---------------------------------------------------------------- when counts are exact

  ghost predicate ExactCounts(c: Conns) {
    forall key :: Count(c.counts, key) == |Mapped(c.ip_key, key)|
  }

  /** A connect that finds its address still mapped. */
  predicate Overwrites(c: Conns, e: ConnEvent) {
    e.Connect? && e.key != "" && e.ip != 0 && e.ip in c.ip_key
  }

  predicate NeverOverwrites(c: Conns, es: seq<ConnEvent>)
    decreases |es|
  {
    es == [] || (!Overwrites(c, es[0]) && NeverOverwrites(ConnStep(c, es[0]), es[1..]))
  }

  lemma StepOverwritten(c: Conns, e: ConnEvent)
    ensures c.overwritten <= ConnStep(c, e).overwritten
    ensures ConnStep(c, e).overwritten == c.overwritten <==> !Overwrites(c, e)
  {
    if Overwrites(c, e) {
      var key := c.ip_key[e.ip];
      assert ConnStep(c, e).overwritten[key] == c.overwritten[key] + 1;
    }
  }

  lemma {:induction false} RunOverwritten(c: Conns, es: seq<ConnEvent>)
    ensures c.overwritten <= ConnRun(c, es).overwritten
    ensures ConnRun(c, es).overwritten == c.overwritten <==> NeverOverwrites(c, es)
    decreases |es|
  {
    if es != [] {
      StepOverwritten(c, es[0]);
      hide ConnStep, Overwrites;
      RunOverwritten(ConnStep(c, es[0]), es[1..]);
    }
  }

  /** Counts are the numbers of mapped addresses at the end of a run if and only if no connect of the run found its
      address still mapped. */
  lemma CountsExactIff(c: Conns, es: seq<ConnEvent>)
    requires Accounted(c) && c.overwritten == multiset{}
    ensures ExactCounts(ConnRun(c, es)) <==> NeverOverwrites(c, es)
  {
    ConnRunAccounted(c, es);
    RunOverwritten(c, es);
    var d := ConnRun(c, es);
    hide ConnRun;
    if ExactCounts(d) {
      forall key ensures d.overwritten[key] == 0 {
        assert KeyAccounted(d, key);
      }
      assert d.overwritten == multiset{};
    } else {
      var key :| Count(d.counts, key) != |Mapped(d.ip_key, key)|;
      assert KeyAccounted(d, key);
    }
  }

  /** A leaked count never goes away. */
  lemma LeakIsForGood(c: Conns, es: seq<ConnEvent>, key: string)
    requires Accounted(c)
    ensures Count(ConnRun(c, es).counts, key) >= |Mapped(ConnRun(c, es).ip_key, key)| + c.overwritten[key]
  {
    ConnRunAccounted(c, es);
    RunOverwritten(c, es);
    assert KeyAccounted(ConnRun(c, es), key);
  }

  /** From any state: an address that changes its key, as a kept-alive connection may, and ends leaves no mapping and
      one count of the first key. */
  lemma OverwriteLeaks(c: Conns, ip: nat, a: string, b: string)
    requires Accounted(c) && ip != 0 && ip !in c.ip_key && a != "" && b != ""
    ensures var d := ConnRun(c, [Connect(ip, a), Connect(ip, b), End(ip)]);
            d.ip_key == c.ip_key && Count(d.counts, a) == Count(c.counts, a) + 1
  {
    var e1, e2, e3 := Connect(ip, a), Connect(ip, b), End(ip);
    var c1 := ConnStep(c, e1);
    var c2 := ConnStep(c1, e2);
    assert [e1, e2, e3][1..] == [e2, e3] && [e2, e3][1..] == [e3] && [e3][1..] == [];
    assert ConnRun(c2, [e3]) == ConnStep(c2, e3);
    assert ConnRun(c1, [e2, e3]) == ConnStep(c2, e3);
    assert (c2.ip_key - {ip}) == c.ip_key;
  }

  class Connections {
    var ip_key: map<nat, string>
    var counts: map<string, nat>
    ghost var overwritten: multiset<string>

    ghost function Now(): Conns
      reads this
    {
      Conns(ip_key, counts, overwritten)
    }

    constructor ()
      ensures Now() == Conns(map[], map[], multiset{}) && Accounted(Now())
    {
      ip_key, counts, overwritten := map[], map[], multiset{};
    }

    /** set_ip_port_key */
    method SetIpPortKey(ip: nat, key: string)
      requires Accounted(Now())
      modifies this
      ensures Now() == ConnStep(old(Now()), Connect(ip, key)) && Accounted(Now())
    {
      ConnStepAccounted(Now(), Connect(ip, key));
      if key == "" {
        return;
      }
      if ip != 0 {
        if ip in ip_key {
          overwritten := overwritten + multiset{ip_key[ip]};
        }
        ip_key := ip_key[ip := key];
        if key !in counts {
          counts := counts[key := 1];
        } else {
          counts := counts[key := counts[key] + 1];
        }
      }
    }

    /** rl_request_end: the error branch of the decrement is never taken. */
    method RequestEnd(ip: nat)
      requires Accounted(Now())
      modifies this
      ensures Now() == ConnStep(old(Now()), End(ip)) && Accounted(Now())
    {
      ConnStepAccounted(Now(), End(ip));
      if ip in ip_key {
        var key := ip_key[ip];
        ip_key := ip_key - {ip};
        if counts[key] == 1 {
          counts := counts - {key};
        } else {
          counts := counts[key := counts[key] - 1];
        }
      }
    }
  }
}
