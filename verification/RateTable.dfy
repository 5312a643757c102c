/** HAProxy's table of users over their request rate (haproxy_lua.lua): indexed by verb and second, pruned on the
    way in, asked about the current second. */
module RateTable {
  import PolicyLine

  const KEPT_SECONDS := 3

  type Seconds = map<nat, set<string>>
  type VioMap = map<string, Seconds>

  /** A policy line ingested at `now` for second `time`, or a request checked at `now`. */
  datatype Event =
    | Policy(now: nat, verb: string, time: nat, users: seq<string>)
    | Request(now: nat, verb: string, user: string)

  // ---------------------------------------------------------------- update_violates and is_violater

  function Pruned(s: Seconds, time: nat): Seconds {
    map k | k in s && !(k + KEPT_SECONDS < time) :: s[k]
  }

  function At(s: Seconds, time: nat): set<string> {
    if time in s then s[time] else {}
  }

  function OfVerb(m: VioMap, verb: string): Seconds {
    if verb in m then m[verb] else map[]
  }

  /** A policy for a second already past is dropped; otherwise the verb's old seconds are pruned and the users added. */
  function Ingest(m: VioMap, e: Event): VioMap
    requires e.Policy?
  {
    if e.time < e.now then m
    else
      var kept := Pruned(OfVerb(m, e.verb), e.time);
      m[e.verb := kept[e.time := At(kept, e.time) + set u | u in e.users]]
  }

  predicate IsViolater(m: VioMap, now: nat, verb: string, user: string) {
    verb in m && now in m[verb] && user in m[verb][now]
  }

  /** The pruning loop, over the keys in any order. */
  method Prune(before: Seconds, time: nat) returns (seconds: Seconds)
    ensures seconds == Pruned(before, time)
    ensures forall k :: k in seconds <==> k in before && time <= k + 3
  {
    seconds := before;
    var todo: set<nat> := before.Keys;
    while todo != {}
      invariant todo <= before.Keys
      invariant seconds == map k | k in before && (k in todo || !(k + KEPT_SECONDS < time)) :: before[k]
      decreases todo
    {
      var k :| k in todo;
      if k + KEPT_SECONDS < time {
        seconds := seconds - {k};
      }
      todo := todo - {k};
    }
  }

  method AddUsers(before: set<string>, users: seq<string>) returns (here: set<string>)
    ensures here == before + set u | u in users
  {
    here := before;
    for i := 0 to |users|
      invariant here == before + set u | u in users[..i]
    {
      assert users[..i + 1] == users[..i] + [users[i]];
      here := here + {users[i]};
    }
    assert users[..|users|] == users;
  }

  class Table {
    var vio_map: VioMap

    // history: all policies accepted, the time of the last one, and whether clock and policies have kept to the rules
    ghost var accepted: set<(string, nat, string)>
    ghost var clock: nat
    ghost var timely: bool

    ghost predicate Valid()
      reads this
    {
      timely ==> UpToDate(vio_map, accepted, clock)
    }

    constructor ()
      ensures Valid() && vio_map == map[] && accepted == {} && clock == 0 && timely
    {
      vio_map := map[];
      accepted, clock, timely := {}, 0, true;
    }

    /** update_violates on one trimmed line: a rate policy goes into the table; whatever else the line asks for (users
        to block or unblock, throttles, nothing) is handed back and leaves the table as it is. */
    method UpdateViolates(line: string, now: nat) returns (p: PolicyLine.Policy)
      requires Valid()
      modifies this
      ensures Valid() && p == PolicyLine.ReadLine(line, now)
      ensures p.Rate? ==> p.time >= now && vio_map == Ingest(old(vio_map), Policy(now, p.verb, p.time, p.users))
      ensures p.Rate? ==> accepted == old(accepted) + Accepted([Policy(now, p.verb, p.time, p.users)])
      ensures p.Rate? ==> (timely <==> old(timely) && old(clock) <= now && p.time <= now + KEPT_SECONDS)
      ensures !p.Rate? ==> vio_map == old(vio_map) && accepted == old(accepted) && timely == old(timely)
    {
      p := PolicyLine.ReadLine(line, now);
      if p.Rate? {
        UpdateMap(now, p.verb, p.time, p.users);
      }
    }

    /** The rate branch of update_violates, with its stale test, and update_violates_map. */
    method UpdateMap(now: nat, verb: string, time: nat, users: seq<string>)
      requires Valid()
      modifies this
      ensures Valid() && vio_map == Ingest(old(vio_map), Policy(now, verb, time, users))
      ensures accepted == old(accepted) + Accepted([Policy(now, verb, time, users)]) && clock == now
      ensures timely <==> old(timely) && old(clock) <= now && time <= now + KEPT_SECONDS
    {
      ghost var e := Policy(now, verb, time, users);
      if timely && clock <= now && time <= now + KEPT_SECONDS {
        IngestUpToDate(vio_map, accepted, clock, e);
      }
      timely := timely && clock <= now && time <= now + KEPT_SECONDS;
      accepted, clock := accepted + Accepted([e]), now;
      hide UpToDate, Accepted;
      if time < now {
        return;
      }
      var seconds: Seconds := if verb in vio_map then vio_map[verb] else map[];
      var kept: Seconds := Prune(seconds, time);
      var here := AddUsers(if time in kept then kept[time] else {}, users);
      vio_map := vio_map[verb := kept[time := here]];
    }

    /** The rate answer of is_violater: yes exactly when a policy for this verb, second and user was ever accepted. */
    method Check(now: nat, http_method: string, user: string) returns (yes: bool)
      requires Valid()
      ensures yes == IsViolater(vio_map, now, "user_" + http_method, user)
      ensures timely && clock <= now ==> (yes <==> ("user_" + http_method, now, user) in accepted)
    {
      var verb := "user_" + http_method;
      yes := verb in vio_map && now in vio_map[verb] && user in vio_map[verb][now];
    }
  }

  // ---------------------------------------------------------------- the unpruned reference

  /** Every (verb, second, user) ever accepted. */
  ghost function Accepted(es: seq<Event>): set<(string, nat, string)> {
    if es == [] then {} else
      (if es[0].Policy? && es[0].time >= es[0].now then set u | u in es[0].users :: (es[0].verb, es[0].time, u) else {})
      + Accepted(es[1..])
  }

  /** What was accepted, in terms of the policies: one for this verb, second and user that was not late on arrival. */
  lemma {:induction false} AcceptedIff(es: seq<Event>, verb: string, time: nat, user: string)
    ensures (verb, time, user) in Accepted(es) <==>
              exists k :: 0 <= k < |es| && es[k].Policy? && es[k].verb == verb && es[k].time == time
                          && time >= es[k].now && user in es[k].users
  {
    if es != [] {
      var tail := es[1..];
      AcceptedIff(tail, verb, time, user);
      assert forall k :: 0 <= k < |tail| ==> tail[k] == es[k + 1];
      if (verb, time, user) in Accepted(tail) {
        var k :| 0 <= k < |tail| && tail[k].Policy? && tail[k].verb == verb && tail[k].time == time
                 && time >= tail[k].now && user in tail[k].users;
        assert es[k + 1] == tail[k];
      }
      assert forall k :: 1 <= k < |es| ==> es[k] == tail[k - 1];
    }
  }

  /** The answers of the requests of a run, from the pruned table. */
  ghost function Answers(m: VioMap, es: seq<Event>): seq<bool>
    decreases |es|
  {
    if es == [] then []
    else if es[0].Policy? then Answers(Ingest(m, es[0]), es[1..])
    else [IsViolater(m, es[0].now, es[0].verb, es[0].user)] + Answers(m, es[1..])
  }

  /** And from the set of everything accepted so far. */
  ghost function Expected(g: set<(string, nat, string)>, es: seq<Event>): seq<bool>
    decreases |es|
  {
    if es == [] then []
    else if es[0].Policy? then Expected(g + Accepted([es[0]]), es[1..])
    else [(es[0].verb, es[0].now, es[0].user) in g] + Expected(g, es[1..])
  }

  /** The clock does not go back, and no policy names a second more than `ahead` seconds away. */
  ghost predicate Timely(clock: nat, ahead: int, es: seq<Event>)
    decreases |es|
  {
    es == [] || (
      && clock <= es[0].now && (es[0].Policy? ==> es[0].time <= es[0].now + ahead)
      && Timely(es[0].now, ahead, es[1..]))
  }

  /** From the clock on, the table knows exactly what was accepted. */
  ghost predicate UpToDate(m: VioMap, g: set<(string, nat, string)>, clock: nat) {
    forall verb, t, u :: t >= clock ==> (IsViolater(m, t, verb, u) <==> (verb, t, u) in g)
  }

  lemma IngestUpToDate(m: VioMap, g: set<(string, nat, string)>, clock: nat, e: Event)
    requires UpToDate(m, g, clock) && e.Policy? && clock <= e.now && e.time <= e.now + KEPT_SECONDS
    ensures UpToDate(Ingest(m, e), g + Accepted([e]), e.now)
  {
    var new_ := if e.time >= e.now then set u | u in e.users :: (e.verb, e.time, u) else {};
    assert Accepted([e]) == new_ by { assert [e][1..] == []; }
    forall verb, t, u | t >= e.now
      ensures IsViolater(Ingest(m, e), t, verb, u) <==> (verb, t, u) in g + new_
    {
      assert IsViolater(m, t, verb, u) <==> (verb, t, u) in g;
    }
  }

  lemma {:induction false} AnswersAreExact(m: VioMap, g: set<(string, nat, string)>, clock: nat, es: seq<Event>)
    requires UpToDate(m, g, clock) && Timely(clock, KEPT_SECONDS, es)
    ensures Answers(m, es) == Expected(g, es)
    decreases |es|
  {
    if es != [] {
      var e := es[0];
      if e.Policy? {
        IngestUpToDate(m, g, clock, e);
        AnswersAreExact(Ingest(m, e), g + Accepted([e]), e.now, es[1..]);
      } else {
        AnswersAreExact(m, g, e.now, es[1..]);
      }
    }
  }

  ghost predicate Exact(ahead: int) {
    forall clock, es :: Timely(clock, ahead, es) ==> Answers(map[], es) == Expected({}, es)
  }

  /** Pruning is invisible in every run exactly when policies run at most three seconds ahead of the clock. */
  lemma ExactIff(ahead: int)
    ensures Exact(ahead) <==> ahead <= 3
  {
    if ahead <= KEPT_SECONDS {
      forall clock, es | Timely(clock, ahead, es) ensures Answers(map[], es) == Expected({}, es) {
        TimelyWeaken(clock, ahead, KEPT_SECONDS, es);
        AnswersAreExact(map[], {}, clock, es);
      }
    } else {
      var es := FarAhead();
      assert Timely(0, ahead, es) by { TimelyWeaken(0, 4, ahead, es); }
    }
  }

  lemma {:induction false} TimelyWeaken(clock: nat, a: int, b: int, es: seq<Event>)
    requires a <= b && Timely(clock, a, es)
    ensures Timely(clock, b, es)
    decreases |es|
  {
    if es != [] {
      TimelyWeaken(es[0].now, a, b, es[1..]);
    }
  }

  /** A policy four seconds ahead prunes the current second: its user is let through. */
  lemma FarAhead() returns (es: seq<Event>)
    ensures Timely(0, 4, es) && Answers(map[], es) != Expected({}, es)
  {
    var p, q, r := Policy(0, "v", 0, ["u"]), Policy(0, "v", 4, []), Request(0, "v", "u");
    es := [p, q, r];
    assert [p, q, r][1..] == [q, r] && [q, r][1..] == [r] && [r][1..] == [] && [p][1..] == [] && [q][1..] == [];
    assert Timely(0, 4, []) && Timely(0, 4, [r]) && Timely(0, 4, [q, r]) && Timely(0, 4, es);
    var m1 := Ingest(map[], p);
    var m2 := Ingest(m1, q);
    assert 0 !in m2["v"];
    assert Answers(m2, [r]) == [false] + [];
    assert Answers(m1, [q, r]) == Answers(m2, [r]);
    assert Answers(map[], es) == [false];
    assert "u" in p.users;
    assert ("v", 0, "u") in Accepted([p]);
    var g1 := {} + Accepted([p]);
    var g2 := g1 + Accepted([q]);
    assert Expected(g2, [r]) == [true] + [];
    assert Expected(g1, [q, r]) == [true];
    assert Expected({}, es) == [true];
    assert Answers(map[], es)[0] != Expected({}, es)[0];
  }
}
