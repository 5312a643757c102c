/** Blocking users with too many active requests: polygen's hysteresis (policy_generator.py), its per-second
    de-duplication (violations.py) and HAProxy's table that forgets after two seconds (haproxy_lua.lua). */
module BlockProtocol {
  import opened Common
  import opened Violations
  import PolicyLine

  /** int(epoch_time), and os.time(): whole seconds. */
  function Sec(t: real): int {
    t.Floor
  }

  datatype Config = Config(backoff: real, unblock_ratio: real)

  /** The part of PolicyGenerator and Policies that one endpoint's connection checks use. */
  datatype Polygen = Polygen(blocked: map<string, real>, epoch: int, block: Violation, unblock: Violation)

  // ---------------------------------------------------------------- one user in one check

  predicate Ready(cfg: Config, blocked: map<string, real>, u: string, t: real) {
    u !in blocked || blocked[u] + cfg.backoff < t
  }

  predicate ShouldBlock(cfg: Config, blocked: map<string, real>, u: string, ratio: real, t: real) {
    || (ratio >= 1.0 && u !in blocked)
    || (ratio >= 1.0 && Ready(cfg, blocked, u, t))
    || (ratio < 1.0 && u in blocked && Ready(cfg, blocked, u, t) && ratio > cfg.unblock_ratio)
  }

  predicate ShouldUnblock(cfg: Config, blocked: map<string, real>, u: string, ratio: real, t: real) {
    !ShouldBlock(cfg, blocked, u, ratio, t) && u in blocked && ratio <= cfg.unblock_ratio
  }

  /** Policies.add_violation: a new second starts with clean sets. */
  function NewEpoch(p: Polygen, t: real): Polygen {
    if Sec(t) > p.epoch then p.(epoch := Sec(t), block := Fresh, unblock := Fresh) else p
  }

  function CheckUser(cfg: Config, p: Polygen, u: string, ratio: real, t: real): Polygen {
    if ShouldBlock(cfg, p.blocked, u, ratio, t) then
      var q := NewEpoch(p, t);
      q.(block := AddViolation(q.block, RequestsBlock, u, Some(1.0)), blocked := p.blocked[u := t])
    else if ShouldUnblock(cfg, p.blocked, u, ratio, t) then
      var q := NewEpoch(p, t);
      q.(unblock := AddViolation(q.unblock, RequestsUnblock, u, Some(1.0)), blocked := p.blocked - {u})
    else p
  }

  function CheckUsers(cfg: Config, p: Polygen, loads: seq<(string, real)>, t: real): Polygen
    decreases |loads|
  {
    if loads == [] then p else CheckUsers(cfg, CheckUser(cfg, p, loads[0].0, loads[0].1, t), loads[1..], t)
  }

  function Flush(p: Polygen): Polygen {
    p.(block := Flushed(p.block), unblock := Flushed(p.unblock))
  }

  class PolicyGenerator {
    const cfg: Config
    var blocked: map<string, real>
    var epoch: int
    var block: Violation
    var unblock: Violation

    ghost function Now(): Polygen
      reads this
    {
      Polygen(blocked, epoch, block, unblock)
    }

    constructor (cfg: Config)
      ensures this.cfg == cfg && Now() == Polygen(map[], 0, Fresh, Fresh)
    {
      this.cfg := cfg;
      blocked, epoch, block, unblock := map[], 0, Fresh, Fresh;
    }

    method AddTimed(t: real, u: string, blocking: bool)
      modifies this`epoch, this`block, this`unblock
      ensures var q := NewEpoch(old(Now()), t);
              Now() == if blocking then q.(block := AddViolation(q.block, RequestsBlock, u, Some(1.0)))
                       else q.(unblock := AddViolation(q.unblock, RequestsUnblock, u, Some(1.0)))
      // the user is pending or was announced before in this very second
      ensures var v := if blocking then block else unblock; epoch >= Sec(t) && u in v.new_keys + v.sent_keys
    {
      if Sec(t) > epoch {
        epoch, block, unblock := Sec(t), Fresh, Fresh;
      }
      if blocking {
        block := AddViolation(block, RequestsBlock, u, Some(1.0));
      } else {
        unblock := AddViolation(unblock, RequestsUnblock, u, Some(1.0));
      }
    }

    /** _check_all_conn_key_violations on the merged metrics, and prepare_message after it. */
    method Check(loads: seq<(string, real)>, t: real) returns (to_block: set<string>, to_unblock: set<string>)
      modifies this
      ensures Now() == Flush(CheckUsers(cfg, old(Now()), loads, t))
      ensures to_block == CheckUsers(cfg, old(Now()), loads, t).block.new_keys
      ensures to_unblock == CheckUsers(cfg, old(Now()), loads, t).unblock.new_keys
    {
      var i := 0;
      while i < |loads|
        invariant 0 <= i <= |loads|
        invariant CheckUsers(cfg, Now(), loads[i..], t) == CheckUsers(cfg, old(Now()), loads, t)
      {
        hide AddViolation, NewEpoch;
        var u, ratio := loads[i].0, loads[i].1;
        ghost var before := Now();
        assert loads[i..][1..] == loads[i + 1..];
        var limit_reached := ratio >= 1.0;
        var is_blocked := u in blocked;
        var ready_for_heartbeat := !is_blocked || blocked[u] + cfg.backoff < t;
        if (limit_reached && !is_blocked) || (limit_reached && ready_for_heartbeat)
           || (!limit_reached && is_blocked && ready_for_heartbeat && ratio > cfg.unblock_ratio) {
          AddTimed(t, u, true);
          blocked := blocked[u := t];
        } else if is_blocked && ratio <= cfg.unblock_ratio {
          AddTimed(t, u, false);
          blocked := blocked - {u};
        }
        assert Now() == CheckUser(cfg, before, u, ratio, t);
        i := i + 1;
      }
      to_block, to_unblock := block.new_keys, unblock.new_keys;
      block, unblock := Flushed(block), Flushed(unblock);
    }
  }

  // ---------------------------------------------------------------- HAProxy

  /** update_violates_reqs for the two messages of one check, received in second `sec`. */
  function Receive(reqs: map<string, int>, to_block: set<string>, to_unblock: set<string>, sec: int): map<string, int> {
    (reqs + map k | k in to_block :: sec) - to_unblock
  }

  /** is_reqs_violator */
  predicate IsBlocked(reqs: map<string, int>, u: string, sec: int) {
    u in reqs && reqs[u] + 2 > sec
  }

  // ---------------------------------------------------------------- both ends together

  /** A connection check at time t, or any other violation recorded at time t by the rate checks. */
  datatype Event = Check(t: real, loads: seq<(string, real)>) | Other(t: real)

  datatype World = World(p: Polygen, reqs: map<string, int>, now: real)

  /** Messages are handled by HAProxy in the second they are sent. */
  function Step(cfg: Config, w: World, e: Event): World {
    match e
    case Other(t) => World(NewEpoch(w.p, t), w.reqs, t)
    case Check(t, loads) =>
      var p := CheckUsers(cfg, w.p, loads, t);
      World(Flush(p), Receive(w.reqs, p.block.new_keys, p.unblock.new_keys, Sec(t)), t)
  }

  function Run(cfg: Config, w: World, es: seq<Event>): World
    decreases |es|
  {
    if es == [] then w else Run(cfg, Step(cfg, w, es[0]), es[1..])
  }

  /** Each user appears once in a merged check. */
  ghost predicate Distinct(loads: seq<(string, real)>) {
    forall i, j :: 0 <= i < j < |loads| ==> loads[i].0 != loads[j].0
  }

  ghost predicate HasLoad(loads: seq<(string, real)>, u: string, ratio: real) {
    exists i :: 0 <= i < |loads| && loads[i] == (u, ratio)
  }

  // ---------------------------------------------------------------- what polygen and HAProxy agree on

  /** Between checks: HAProxy last heard of u in the second of polygen's last heartbeat, and the de-duplicator
      suppresses u only in a second in which HAProxy has heard of u. */
  ghost predicate Agree(p: Polygen, reqs: map<string, int>, u: string) {
    && u in p.blocked && u in reqs
    && reqs[u] == Sec(p.blocked[u])
    && u !in p.block.new_keys && u !in p.unblock.new_keys
    && (u in p.block.sent_keys ==> p.epoch == reqs[u])
  }

  /** During a check at time t, before the messages leave. */
  ghost predicate Pending(p: Polygen, heard: int, u: string, t: real) {
    && u in p.blocked && p.epoch <= Sec(t)
    && u !in p.unblock.new_keys
    && (if u in p.block.new_keys then p.epoch == Sec(t) == Sec(p.blocked[u])
        else heard == Sec(p.blocked[u]) && (u in p.block.sent_keys ==> p.epoch == heard))
  }

  lemma OtherUserPending(cfg: Config, p: Polygen, heard: int, u: string, v: string, ratio: real, t: real)
    requires Pending(p, heard, u, t) && v != u
    ensures Pending(CheckUser(cfg, p, v, ratio, t), heard, u, t)
    ensures CheckUser(cfg, p, v, ratio, t).blocked[u] == p.blocked[u]
  {
  }

  lemma OwnUserPending(cfg: Config, p: Polygen, heard: int, u: string, ratio: real, t: real)
    requires Pending(p, heard, u, t) && u !in p.block.new_keys && ratio > cfg.unblock_ratio
    ensures var q := CheckUser(cfg, p, u, ratio, t);
            && Pending(q, heard, u, t)
            && (q.blocked[u] == t || (q.blocked[u] == p.blocked[u] && t <= p.blocked[u] + cfg.backoff))
  {
  }

  lemma {:induction false} OthersPending(cfg: Config, p: Polygen, heard: int, u: string, loads: seq<(string, real)>,
                                         t: real)
    requires Pending(p, heard, u, t) && forall i :: 0 <= i < |loads| ==> loads[i].0 != u
    ensures Pending(CheckUsers(cfg, p, loads, t), heard, u, t)
    ensures CheckUsers(cfg, p, loads, t).blocked[u] == p.blocked[u]
    ensures u in CheckUsers(cfg, p, loads, t).block.new_keys <==> u in p.block.new_keys
    decreases |loads|
  {
    if loads != [] {
      OtherUserPending(cfg, p, heard, u, loads[0].0, loads[0].1, t);
      OthersPending(cfg, CheckUser(cfg, p, loads[0].0, loads[0].1, t), heard, u, loads[1..], t);
    }
  }

  /** One whole check of a user above the unblock ratio: it stays blocked, and its last heartbeat is either this
      check or recent enough. */
  lemma {:induction false} CheckPending(cfg: Config, p: Polygen, heard: int, u: string, loads: seq<(string, real)>,
                                        t: real, ratio: real)
    requires Pending(p, heard, u, t) && u !in p.block.new_keys
    requires Distinct(loads) && HasLoad(loads, u, ratio) && ratio > cfg.unblock_ratio
    ensures var q := CheckUsers(cfg, p, loads, t);
            && Pending(q, heard, u, t)
            && (q.blocked[u] == t || (q.blocked[u] == p.blocked[u] && t <= q.blocked[u] + cfg.backoff))
    decreases |loads|
  {
    var (v, r) := loads[0];
    if v == u {
      var i :| 0 <= i < |loads| && loads[i] == (u, ratio);
      assert i == 0;
      OwnUserPending(cfg, p, heard, u, ratio, t);
      OthersPending(cfg, CheckUser(cfg, p, u, ratio, t), heard, u, loads[1..], t);
    } else {
      OtherUserPending(cfg, p, heard, u, v, r, t);
      var i :| 0 <= i < |loads| && loads[i] == (u, ratio);
      assert loads[1..][i - 1] == (u, ratio);
      OthersKeepNew(cfg, p, u, v, r, t);
      CheckPending(cfg, CheckUser(cfg, p, v, r, t), heard, u, loads[1..], t, ratio);
    }
  }

  lemma OthersKeepNew(cfg: Config, p: Polygen, u: string, v: string, r: real, t: real)
    requires v != u && u !in p.block.new_keys
    ensures u !in CheckUser(cfg, p, v, r, t).block.new_keys
  {
  }

  /** A check keeps the two ends in agreement about a user above the unblock ratio. */
  lemma StepAgrees(cfg: Config, w: World, u: string, e: Event, ratio: real)
    requires Agree(w.p, w.reqs, u) && w.p.epoch <= Sec(e.t)
    requires e.Check? ==> Distinct(e.loads) && HasLoad(e.loads, u, ratio) && ratio > cfg.unblock_ratio
    ensures var w' := Step(cfg, w, e);
            && Agree(w'.p, w'.reqs, u) && w'.p.epoch <= Sec(e.t)
            && (e.Check? ==> w'.p.blocked[u] == e.t
                             || (w'.p.blocked[u] == w.p.blocked[u] && e.t <= w'.p.blocked[u] + cfg.backoff))
            && (e.Other? ==> w'.p.blocked[u] == w.p.blocked[u])
  {
    if e.Check? {
      CheckPending(cfg, w.p, w.reqs[u], u, e.loads, e.t, ratio);
    }
  }

  // ---------------------------------------------------------------- the run

  /** From a check at `last` on: u is above the unblock ratio at every check, and checks are at most `gap` apart. */
  ghost predicate Steady(cfg: Config, gap: real, last: real, now: real, es: seq<Event>, u: string)
    decreases |es|
  {
    es == [] || (
      && now <= es[0].t
      && es[0].t - last <= gap
      && (es[0].Check? ==> Distinct(es[0].loads) && exists r :: r > cfg.unblock_ratio && HasLoad(es[0].loads, u, r))
      && Steady(cfg, gap, if es[0].Check? then es[0].t else last, es[0].t, es[1..], u))
  }

  /** At every instant from now to the end of the run HAProxy answers that u is blocked: the messages of the next
      event are handled in that event's second, and until then the table is as it is now. */
  ghost predicate AlwaysBlocked(cfg: Config, w: World, es: seq<Event>, u: string)
    decreases |es|
  {
    && IsBlocked(w.reqs, u, Sec(w.now))
    && (es != [] ==>
          && (forall sec :: Sec(w.now) <= sec <= Sec(es[0].t) ==> IsBlocked(w.reqs, u, sec))
          && AlwaysBlocked(cfg, Step(cfg, w, es[0]), es[1..], u))
  }

  lemma FloorWithinOne(a: real, b: real)
    requires a <= b <= a + 1.0
    ensures Sec(a) <= Sec(b) <= Sec(a) + 1
  {
  }

  lemma {:induction false} StaysBlocked(cfg: Config, gap: real, w: World, last: real, es: seq<Event>, u: string)
    requires cfg.backoff >= 0.0 && gap + cfg.backoff <= 1.0
    requires Agree(w.p, w.reqs, u) && Steady(cfg, gap, last, w.now, es, u)
    requires w.p.epoch <= Sec(w.now) && w.p.blocked[u] <= last <= w.now
    requires last <= w.p.blocked[u] + cfg.backoff && w.now <= w.p.blocked[u] + 1.0
    ensures AlwaysBlocked(cfg, w, es, u)
    ensures u in Run(cfg, w, es).p.blocked
    decreases |es|
  {
    FloorWithinOne(w.p.blocked[u], w.now);
    if es != [] {
      var e := es[0];
      FloorWithinOne(w.p.blocked[u], e.t);
      FloorWithinOne(w.now, e.t);
      var r := RatioOf(cfg, gap, last, w.now, es, u);
      StepAgrees(cfg, w, u, e, r);
      StaysBlocked(cfg, gap, Step(cfg, w, e), if e.Check? then e.t else last, es[1..], u);
    }
  }

  lemma RatioOf(cfg: Config, gap: real, last: real, now: real, es: seq<Event>, u: string) returns (r: real)
    requires es != [] && Steady(cfg, gap, last, now, es, u)
    ensures es[0].Check? ==> r > cfg.unblock_ratio && HasLoad(es[0].loads, u, r)
  {
    if es[0].Check? {
      r :| r > cfg.unblock_ratio && HasLoad(es[0].loads, u, r);
    } else {
      r := 0.0;
    }
  }

  // ---------------------------------------------------------------- the first block

  /** A block message for u has already left in the second of t. */
  predicate SentThisSecond(p: Polygen, u: string, t: real) {
    u in p.block.sent_keys && p.epoch == Sec(t)
  }

  ghost predicate Unblocked(p: Polygen, u: string, t: real) {
    u !in p.blocked && u !in p.block.new_keys && u !in p.unblock.new_keys && p.epoch <= Sec(t)
  }

  lemma OtherUserUnblocked(cfg: Config, p: Polygen, u: string, v: string, ratio: real, t: real)
    requires Unblocked(p, u, t) && v != u
    ensures var q := CheckUser(cfg, p, v, ratio, t);
            Unblocked(q, u, t) && (SentThisSecond(q, u, t) <==> SentThisSecond(p, u, t))
  {
  }

  /** The user is over the limit for the first time: polygen blocks it, and the block message carries it exactly
      when no earlier message of the same second did. */
  lemma {:induction false} FirstCheck(cfg: Config, p: Polygen, u: string, loads: seq<(string, real)>, t: real,
                                      ratio: real)
    requires Unblocked(p, u, t) && Distinct(loads) && HasLoad(loads, u, ratio) && ratio >= 1.0
    ensures var q := CheckUsers(cfg, p, loads, t);
            && u in q.blocked && q.blocked[u] == t && q.epoch == Sec(t) && u !in q.unblock.new_keys
            && (u in q.block.new_keys <==> !SentThisSecond(p, u, t))
    decreases |loads|
  {
    var (v, r) := loads[0];
    var i :| 0 <= i < |loads| && loads[i] == (u, ratio);
    var q := CheckUser(cfg, p, v, r, t);
    if v == u {
      assert i == 0;
      OthersLeaveAlone(cfg, q, u, loads[1..], t);
    } else {
      OtherUserUnblocked(cfg, p, u, v, r, t);
      assert loads[1..][i - 1] == (u, ratio);
      FirstCheck(cfg, q, u, loads[1..], t, ratio);
    }
  }

  /** A check in whose second polygen already is, without u among the loads, changes nothing about u. */
  lemma {:induction false} OthersLeaveAlone(cfg: Config, p: Polygen, u: string, loads: seq<(string, real)>, t: real)
    requires p.epoch == Sec(t) && forall i :: 0 <= i < |loads| ==> loads[i].0 != u
    ensures var q := CheckUsers(cfg, p, loads, t);
            && q.epoch == Sec(t)
            && (u in q.blocked <==> u in p.blocked) && (u in q.blocked ==> q.blocked[u] == p.blocked[u])
            && (u in q.block.new_keys <==> u in p.block.new_keys)
            && (u in q.unblock.new_keys <==> u in p.unblock.new_keys)
    decreases |loads|
  {
    if loads != [] {
      OthersLeaveAlone(cfg, CheckUser(cfg, p, loads[0].0, loads[0].1, t), u, loads[1..], t);
    }
  }

  /** HAProxy hears of a first block exactly when no block message for the user left earlier in that second. */
  lemma FirstBlockHeard(cfg: Config, w: World, e: Event, u: string, ratio: real)
    requires e.Check? && Unblocked(w.p, u, e.t) && Distinct(e.loads) && HasLoad(e.loads, u, ratio) && ratio >= 1.0
    ensures u in Step(cfg, w, e).p.blocked
    ensures u in CheckUsers(cfg, w.p, e.loads, e.t).block.new_keys <==> !SentThisSecond(w.p, u, e.t)
    ensures !SentThisSecond(w.p, u, e.t) ==> Agree(Step(cfg, w, e).p, Step(cfg, w, e).reqs, u)
    ensures SentThisSecond(w.p, u, e.t) ==> (u in w.reqs <==> u in Step(cfg, w, e).reqs)
  {
    FirstCheck(cfg, w.p, u, e.loads, e.t, ratio);
  }

  /** A first block that HAProxy hears of. */
  ghost predicate Begins(w: World, first: Event, u: string) {
    && first.Check? && Unblocked(w.p, u, first.t) && !SentThisSecond(w.p, u, first.t) && Distinct(first.loads)
    && exists ratio :: ratio >= 1.0 && HasLoad(first.loads, u, ratio)
  }

  /** The user is blocked at every instant from its first block to the end of the run, although the de-duplicator
      lets at most one block message per second through. */
  lemma BlockedThroughout(cfg: Config, gap: real, w: World, first: Event, es: seq<Event>, u: string)
    requires cfg.backoff >= 0.0 && gap + cfg.backoff <= 1.0
    requires Begins(w, first, u) && Steady(cfg, gap, first.t, first.t, es, u)
    ensures AlwaysBlocked(cfg, Step(cfg, w, first), es, u)
  {
    var ratio :| ratio >= 1.0 && HasLoad(first.loads, u, ratio);
    FirstBlockHeard(cfg, w, first, u, ratio);
    FirstCheck(cfg, w.p, u, first.loads, first.t, ratio);
    StaysBlocked(cfg, gap, Step(cfg, w, first), first.t, es, u);
  }

  // ---------------------------------------------------------------- how far apart checks may be

  /** With checks at most `gap` apart, every steadily overloaded user is blocked at every instant of every run. */
  ghost predicate GapLaw(cfg: Config, gap: real, u: string) {
    forall w: World, first: Event, es: seq<Event> ::
      Begins(w, first, u) && Steady(cfg, gap, first.t, first.t, es, u) ==>
        AlwaysBlocked(cfg, Step(cfg, w, first), es, u)
  }

  /** A check before the next heartbeat is due does nothing. */
  lemma EarlyCheck(cfg: Config, w: World, t: real, u: string, r: real)
    requires u in w.p.blocked && t <= w.p.blocked[u] + cfg.backoff && r > cfg.unblock_ratio && r >= 1.0
    requires w.p.block.new_keys == {} && w.p.unblock.new_keys == {}
    ensures Step(cfg, w, Check(t, [(u, r)])) == w.(now := t)
  {
    OneUser(cfg, w.p, u, r, t);
  }

  /** A next check in or after the second in which HAProxy forgets the user. */
  lemma TooLate(cfg: Config, gap: real, w: World, u: string, r: real)
    requires gap > 0.0 && u in w.reqs && Sec(w.now + gap) >= w.reqs[u] + 2 && r > cfg.unblock_ratio
    ensures var es := [Check(w.now + gap, [(u, r)])];
            Steady(cfg, gap, w.now, w.now, es, u) && !AlwaysBlocked(cfg, w, es, u)
  {
    var e := Check(w.now + gap, [(u, r)]);
    assert e.loads[0] == (u, r) && HasLoad(e.loads, u, r) && [e][1..] == [];
    assert !IsBlocked(w.reqs, u, Sec(e.t));
  }

  lemma PutOff(cfg: Config, gap: real, w: World, t: real, u: string, r: real, rest: seq<Event>)
    requires u in w.p.blocked && w.now <= t <= w.p.blocked[u] + cfg.backoff && t - w.now <= gap
    requires r > cfg.unblock_ratio && r >= 1.0 && w.p.block.new_keys == {} && w.p.unblock.new_keys == {}
    requires Steady(cfg, gap, t, t, rest, u) && !AlwaysBlocked(cfg, w.(now := t), rest, u)
    ensures var es := [Check(t, [(u, r)])] + rest;
            Steady(cfg, gap, w.now, w.now, es, u) && !AlwaysBlocked(cfg, w, es, u)
  {
    var e := Check(t, [(u, r)]);
    EarlyCheck(cfg, w, t, u, r);
    assert e.loads[0] == (u, r) && HasLoad(e.loads, u, r) && ([e] + rest)[1..] == rest;
  }

  lemma OneFewer(x: real, g: real)
    requires g > 0.0
    ensures (x - g) / g == x / g - 1.0
  {
    var p, q := (x - g) / g, x / g;
    assert p * g == x - g && q * g == x;
    var z := p - q + 1.0;
    assert z * g == p * g - q * g + g == 0.0;
    assert z > 0.0 ==> z * g > 0.0;
    assert z < 0.0 ==> z * g < 0.0;
  }

  /** Checks that come just before each heartbeat is due put it off until HAProxy has forgotten the user. */
  lemma {:induction false} PuttingOff(cfg: Config, gap: real, w: World, u: string, r: real) returns (es: seq<Event>)
    requires gap > 0.0 && cfg.backoff >= 0.0 && r > cfg.unblock_ratio && r >= 1.0
    requires u in w.p.blocked && u in w.reqs && w.p.block.new_keys == {} && w.p.unblock.new_keys == {}
    requires w.now <= w.p.blocked[u] + cfg.backoff && w.p.blocked[u] + cfg.backoff + gap >= w.reqs[u] as real + 2.0
    ensures Steady(cfg, gap, w.now, w.now, es, u) && !AlwaysBlocked(cfg, w, es, u)
    decreases (w.reqs[u] as real + 2.0 - w.now) / gap
  {
    var due, free := w.p.blocked[u] + cfg.backoff, w.reqs[u] as real + 2.0;
    if w.now + gap >= free {
      TooLate(cfg, gap, w, u, r);
      es := [Check(w.now + gap, [(u, r)])];
    } else {
      var t := if w.now + gap <= due then w.now + gap else due;
      var rest;
      if t == due {
        TooLate(cfg, gap, w.(now := t), u, r);
        rest := [Check(t + gap, [(u, r)])];
      } else {
        OneFewer(free - w.now, gap);
        assert free - t == free - w.now - gap;
        rest := PuttingOff(cfg, gap, w.(now := t), u, r);
      }
      PutOff(cfg, gap, w, t, u, r, rest);
      es := [Check(t, [(u, r)])] + rest;
    }
  }

  /** The law holds if and only if gap plus backoff is at most one second. */
  lemma GapLawIff(cfg: Config, gap: real, u: string)
    requires gap > 0.0 && cfg.backoff >= 0.0
    ensures GapLaw(cfg, gap, u) <==> gap + cfg.backoff <= 1.0
  {
    if gap + cfg.backoff <= 1.0 {
      forall w: World, first: Event, es: seq<Event> | Begins(w, first, u) && Steady(cfg, gap, first.t, first.t, es, u)
        ensures AlwaysBlocked(cfg, Step(cfg, w, first), es, u)
      {
        BlockedThroughout(cfg, gap, w, first, es, u);
      }
    } else {
      var r := if cfg.unblock_ratio < 0.0 then 1.0 else cfg.unblock_ratio + 1.0;
      var t := if gap + cfg.backoff <= 2.0 then 3.0 - gap - cfg.backoff else 1.0;
      var w, first := World(Polygen(map[], 0, Fresh, Fresh), map[], 0.0), Check(t, [(u, r)]);
      assert first.loads[0] == (u, r) && HasLoad(first.loads, u, r) && Begins(w, first, u);
      OneUser(cfg, w.p, u, r, t);
      var w1 := Step(cfg, w, first);
      assert w1.p.blocked == map[u := t] && w1.reqs == map[u := 1] && w1.now == t;
      assert w1.p.block.new_keys == {} && w1.p.unblock.new_keys == {};
      var es := PuttingOff(cfg, gap, w1, u, r);
    }
  }

  /** Blocked, unblocked and blocked again within one second: the second block message is suppressed, and HAProxy
      serves a user that polygen holds blocked. */
  lemma ReblockInSameSecondIsLost(u: string)
    ensures var cfg := Config(0.2, 0.95);
            var es := [Check(10.0, [(u, 1.0)]), Check(10.1, [(u, 0.5)]), Check(10.2, [(u, 1.0)])];
            var w := Run(cfg, World(Polygen(map[], 0, Fresh, Fresh), map[], 0.0), es);
            u in w.p.blocked && forall sec :: !IsBlocked(w.reqs, u, sec)
  {
    var cfg := Config(0.2, 0.95);
    var e1, e2, e3 := Check(10.0, [(u, 1.0)]), Check(10.1, [(u, 0.5)]), Check(10.2, [(u, 1.0)]);
    var w0 := World(Polygen(map[], 0, Fresh, Fresh), map[], 0.0);
    var w1 := Step(cfg, w0, e1);
    var w2 := Step(cfg, w1, e2);
    var w3 := Step(cfg, w2, e3);
    OneUser(cfg, w0.p, u, 1.0, 10.0);
    OneUser(cfg, w1.p, u, 0.5, 10.1);
    OneUser(cfg, w2.p, u, 1.0, 10.2);
    assert u in w1.p.block.sent_keys && w1.p.epoch == 10 && u in w1.p.blocked;
    assert u !in w2.p.blocked && u !in w2.reqs && u in w2.p.block.sent_keys && w2.p.epoch == 10;
    assert u in w3.p.blocked && u !in w3.reqs;
    assert [e1, e2, e3][1..] == [e2, e3] && [e2, e3][1..] == [e3] && [e3][1..] == [];
    assert Run(cfg, w3, []) == w3;
    assert Run(cfg, w2, [e3]) == w3;
    assert Run(cfg, w1, [e2, e3]) == w3;
  }

  lemma OneUser(cfg: Config, p: Polygen, u: string, r: real, t: real)
    ensures CheckUsers(cfg, p, [(u, r)], t) == CheckUser(cfg, p, u, r, t)
  {
    assert [(u, r)][1..] == [];
  }

  // ---------------------------------------------------------------- the release

  /** An unblock message for u has already left in the second of t. */
  predicate ReleasedThisSecond(p: Polygen, u: string, t: real) {
    u in p.unblock.sent_keys && p.epoch == Sec(t)
  }

  ghost predicate Held(p: Polygen, u: string, t: real) {
    u in p.blocked && u !in p.block.new_keys && u !in p.unblock.new_keys && p.epoch <= Sec(t)
  }

  lemma OtherUserHeld(cfg: Config, p: Polygen, u: string, v: string, ratio: real, t: real)
    requires Held(p, u, t) && v != u
    ensures var q := CheckUser(cfg, p, v, ratio, t);
            Held(q, u, t) && (ReleasedThisSecond(q, u, t) <==> ReleasedThisSecond(p, u, t))
  {
  }

  lemma {:induction false} ReleaseCheck(cfg: Config, p: Polygen, u: string, loads: seq<(string, real)>, t: real,
                                        ratio: real)
    requires Held(p, u, t) && Distinct(loads) && HasLoad(loads, u, ratio) && ratio <= cfg.unblock_ratio && ratio < 1.0
    ensures var q := CheckUsers(cfg, p, loads, t);
            && u !in q.blocked && u !in q.block.new_keys
            && (u in q.unblock.new_keys <==> !ReleasedThisSecond(p, u, t))
    decreases |loads|
  {
    var (v, r) := loads[0];
    var i :| 0 <= i < |loads| && loads[i] == (u, ratio);
    var q := CheckUser(cfg, p, v, r, t);
    if v == u {
      assert i == 0;
      OthersLeaveAlone(cfg, q, u, loads[1..], t);
    } else {
      OtherUserHeld(cfg, p, u, v, r, t);
      assert loads[1..][i - 1] == (u, ratio);
      ReleaseCheck(cfg, q, u, loads[1..], t, ratio);
    }
  }

  /** When a held user falls to the unblock ratio polygen releases it, and HAProxy releases it if and only if it was not
      blocking it anyway or no unblock message for the user left earlier in that second. */
  lemma UnblockHeard(cfg: Config, w: World, e: Event, u: string, ratio: real)
    requires e.Check? && Held(w.p, u, e.t) && Distinct(e.loads) && HasLoad(e.loads, u, ratio)
    requires ratio <= cfg.unblock_ratio && ratio < 1.0
    ensures u !in Step(cfg, w, e).p.blocked
    ensures u in Step(cfg, w, e).reqs <==> u in w.reqs && ReleasedThisSecond(w.p, u, e.t)
    ensures u in Step(cfg, w, e).reqs ==> Step(cfg, w, e).reqs[u] == w.reqs[u]
  {
    ReleaseCheck(cfg, w.p, u, e.loads, e.t, ratio);
  }

  /** Unblocked, blocked and unblocked again within one second: the second unblock message is suppressed, and HAProxy
      blocks a user that polygen has released until two seconds later. */
  lemma SecondUnblockIsLost(u: string)
    ensures var cfg := Config(0.2, 0.95);
            var es := [Check(9.9, [(u, 1.0)]), Check(10.0, [(u, 0.5)]),
                       Check(10.1, [(u, 1.0)]), Check(10.2, [(u, 0.5)])];
            var w := Run(cfg, World(Polygen(map[], 0, Fresh, Fresh), map[], 0.0), es);
            u !in w.p.blocked && forall sec :: IsBlocked(w.reqs, u, sec) <==> sec < 12
  {
    var cfg := Config(0.2, 0.95);
    var e1, e2 := Check(9.9, [(u, 1.0)]), Check(10.0, [(u, 0.5)]);
    var e3, e4 := Check(10.1, [(u, 1.0)]), Check(10.2, [(u, 0.5)]);
    var w0 := World(Polygen(map[], 0, Fresh, Fresh), map[], 0.0);
    var w1 := Step(cfg, w0, e1);
    var w2 := Step(cfg, w1, e2);
    var w3 := Step(cfg, w2, e3);
    OneUser(cfg, w0.p, u, 1.0, 9.9);
    OneUser(cfg, w1.p, u, 0.5, 10.0);
    OneUser(cfg, w2.p, u, 1.0, 10.1);
    assert u in w1.p.blocked && w1.p.epoch == 9;
    assert u !in w2.p.blocked && u in w2.p.unblock.sent_keys && w2.p.epoch == 10 && u !in w2.p.block.sent_keys;
    assert u in w3.p.blocked && u in w3.p.unblock.sent_keys && u in w3.reqs && w3.reqs[u] == 10 && w3.p.epoch == 10;
    assert e4.loads[0] == (u, 0.5) && HasLoad(e4.loads, u, 0.5);
    UnblockHeard(cfg, w3, e4, u, 0.5);
    hide CheckUsers;
    assert [e1, e2, e3, e4][1..] == [e2, e3, e4] && [e2, e3, e4][1..] == [e3, e4];
    assert [e3, e4][1..] == [e4] && [e4][1..] == [];
    assert Run(cfg, w3, [e4]) == Step(cfg, w3, e4);
    assert Run(cfg, w2, [e3, e4]) == Step(cfg, w3, e4);
    assert Run(cfg, w1, [e2, e3, e4]) == Step(cfg, w3, e4);
  }

  // ---------------------------------------------------------------- when messages stop

  /** No check of the run announces a block of u. */
  ghost predicate Silent(cfg: Config, w: World, es: seq<Event>, u: string)
    decreases |es|
  {
    es == [] || (
      && (es[0].Check? ==> u !in CheckUsers(cfg, w.p, es[0].loads, es[0].t).block.new_keys)
      && Silent(cfg, Step(cfg, w, es[0]), es[1..], u))
  }

  /** Some check of the run announces an unblock of u. */
  ghost predicate Announced(cfg: Config, w: World, es: seq<Event>, u: string)
    decreases |es|
  {
    es != [] && (
      || (es[0].Check? && u in CheckUsers(cfg, w.p, es[0].loads, es[0].t).unblock.new_keys)
      || Announced(cfg, Step(cfg, w, es[0]), es[1..], u))
  }

  /** Once block messages stop, HAProxy blocks the user exactly until two clock seconds after the last one, or until an
      unblock message, whatever else happens in the run. */
  lemma {:induction false} ReleasedAfterTwoSeconds(cfg: Config, w: World, es: seq<Event>, u: string, sec: int)
    requires Silent(cfg, w, es, u)
    ensures IsBlocked(Run(cfg, w, es).reqs, u, sec) <==>
              u in w.reqs && sec < w.reqs[u] + 2 && !Announced(cfg, w, es, u)
    decreases |es|
  {
    if es != [] {
      ReleasedAfterTwoSeconds(cfg, Step(cfg, w, es[0]), es[1..], u, sec);
    }
  }

  /** The user's metric is in no check: its Redis keys have expired. */
  ghost predicate Vanished(es: seq<Event>, u: string) {
    forall e, i :: e in es && e.Check? && 0 <= i < |e.loads| ==> e.loads[i].0 != u
  }

  lemma {:induction false} CheckWithout(cfg: Config, p: Polygen, u: string, loads: seq<(string, real)>, t: real)
    requires u !in p.block.new_keys && u !in p.unblock.new_keys && forall i :: 0 <= i < |loads| ==> loads[i].0 != u
    ensures var q := CheckUsers(cfg, p, loads, t);
            && u !in q.block.new_keys && u !in q.unblock.new_keys
            && (u in q.blocked <==> u in p.blocked) && (u in q.blocked ==> q.blocked[u] == p.blocked[u])
    decreases |loads|
  {
    if loads != [] {
      CheckWithout(cfg, CheckUser(cfg, p, loads[0].0, loads[0].1, t), u, loads[1..], t);
    }
  }

  /** A user that polygen holds blocked and whose metric disappears is never released by polygen; HAProxy releases it
      two clock seconds after the last heartbeat all the same. */
  lemma {:induction false} VanishedUserReleased(cfg: Config, w: World, es: seq<Event>, u: string, sec: int)
    requires Vanished(es, u) && Agree(w.p, w.reqs, u)
    ensures u in Run(cfg, w, es).p.blocked && Run(cfg, w, es).p.blocked[u] == w.p.blocked[u]
    ensures IsBlocked(Run(cfg, w, es).reqs, u, sec) <==> sec < Sec(w.p.blocked[u]) + 2
  {
    VanishedStays(cfg, w, es, u);
    VanishedIsSilent(cfg, w, es, u);
    ReleasedAfterTwoSeconds(cfg, w, es, u, sec);
  }

  lemma VanishedStep(cfg: Config, w: World, e: Event, u: string)
    requires u !in w.p.block.new_keys && u !in w.p.unblock.new_keys && Vanished([e], u)
    ensures var q := Step(cfg, w, e).p;
            && u !in q.block.new_keys && u !in q.unblock.new_keys
            && (u in q.blocked <==> u in w.p.blocked) && (u in q.blocked ==> q.blocked[u] == w.p.blocked[u])
    ensures e.Check? ==> var p := CheckUsers(cfg, w.p, e.loads, e.t); u !in p.block.new_keys && u !in p.unblock.new_keys
  {
    assert e in [e];
    if e.Check? {
      CheckWithout(cfg, w.p, u, e.loads, e.t);
    }
  }

  lemma {:induction false} VanishedStays(cfg: Config, w: World, es: seq<Event>, u: string)
    requires u !in w.p.block.new_keys && u !in w.p.unblock.new_keys && Vanished(es, u) && u in w.p.blocked
    ensures u in Run(cfg, w, es).p.blocked && Run(cfg, w, es).p.blocked[u] == w.p.blocked[u]
    decreases |es|
  {
    if es != [] {
      assert es[0] in es;
      VanishedStep(cfg, w, es[0], u);
      hide Step;
      VanishedStays(cfg, Step(cfg, w, es[0]), es[1..], u);
    }
  }

  lemma {:induction false} VanishedIsSilent(cfg: Config, w: World, es: seq<Event>, u: string)
    requires u !in w.p.block.new_keys && u !in w.p.unblock.new_keys && Vanished(es, u)
    ensures Silent(cfg, w, es, u) && !Announced(cfg, w, es, u)
    decreases |es|
  {
    if es != [] {
      assert es[0] in es;
      VanishedStep(cfg, w, es[0], u);
      hide Step;
      VanishedIsSilent(cfg, Step(cfg, w, es[0]), es[1..], u);
    }
  }

  // ---------------------------------------------------------------- hysteresis is a function of the load history

  /** The loads of u seen by the checks of a run, oldest first. */
  function Observed(loads: seq<(string, real)>, u: string): seq<real> {
    if loads == [] then [] else (if loads[0].0 == u then [loads[0].1] else []) + Observed(loads[1..], u)
  }

  function History(es: seq<Event>, u: string): seq<real> {
    if es == [] then [] else (if es[0].Check? then Observed(es[0].loads, u) else []) + History(es[1..], u)
  }

  /** Was the latest observation that was at least 1 or at most the unblock ratio at least 1? */
  function Verdict(unblock_ratio: real, start: bool, history: seq<real>): bool
    decreases |history|
  {
    if history == [] then start else
    var r := history[|history| - 1];
    if r >= 1.0 then true else if r <= unblock_ratio then false
    else Verdict(unblock_ratio, start, history[..|history| - 1])
  }

  lemma {:induction false} VerdictAppend(ub: real, start: bool, a: seq<real>, b: seq<real>)
    ensures Verdict(ub, start, a + b) == Verdict(ub, Verdict(ub, start, a), b)
    decreases |b|
  {
    if b == [] {
      assert a + b == a;
    } else {
      assert (a + b)[..|a + b| - 1] == a + b[..|b| - 1];
      VerdictAppend(ub, start, a, b[..|b| - 1]);
    }
  }

  lemma UserVerdict(cfg: Config, p: Polygen, u: string, v: string, ratio: real, t: real)
    requires cfg.unblock_ratio < 1.0
    ensures v == u ==>
              (u in CheckUser(cfg, p, v, ratio, t).blocked <==> Verdict(cfg.unblock_ratio, u in p.blocked, [ratio]))
    ensures v != u ==> (u in CheckUser(cfg, p, v, ratio, t).blocked <==> u in p.blocked)
  {
    assert [ratio][..0] == [];
  }

  lemma {:induction false} CheckVerdict(cfg: Config, p: Polygen, u: string, loads: seq<(string, real)>, t: real)
    requires cfg.unblock_ratio < 1.0
    ensures u in CheckUsers(cfg, p, loads, t).blocked <==>
              Verdict(cfg.unblock_ratio, u in p.blocked, Observed(loads, u))
    decreases |loads|
  {
    if loads != [] {
      var (v, r) := loads[0];
      UserVerdict(cfg, p, u, v, r, t);
      CheckVerdict(cfg, CheckUser(cfg, p, v, r, t), u, loads[1..], t);
      if v == u {
        VerdictAppend(cfg.unblock_ratio, u in p.blocked, [r], Observed(loads[1..], u));
      } else {
        assert Observed(loads, u) == Observed(loads[1..], u);
      }
    }
  }

  /** A user is blocked exactly when its latest decisive observation was at least the limit: check times, heartbeat
      times, the other users and the other categories make no difference. */
  lemma {:induction false} BlockedIsHistory(cfg: Config, w: World, es: seq<Event>, u: string)
    requires cfg.unblock_ratio < 1.0
    ensures u in Run(cfg, w, es).p.blocked <==> Verdict(cfg.unblock_ratio, u in w.p.blocked, History(es, u))
    decreases |es|
  {
    if es != [] {
      var e := es[0];
      if e.Check? {
        CheckVerdict(cfg, w.p, u, e.loads, e.t);
        VerdictAppend(cfg.unblock_ratio, u in w.p.blocked, Observed(e.loads, u), History(es[1..], u));
      } else {
        assert History(es, u) == History(es[1..], u);
      }
      BlockedIsHistory(cfg, Step(cfg, w, e), es[1..], u);
    }
  }

  ghost predicate HistoryLaw(cfg: Config, u: string) {
    forall w: World, es: seq<Event> ::
      u in Run(cfg, w, es).p.blocked <==> Verdict(cfg.unblock_ratio, u in w.p.blocked, History(es, u))
  }

  /** The law holds for all runs exactly when the unblock ratio is below 1: at 1 or above, a user at its limit is
      released by the first check that comes before its next heartbeat. */
  lemma HistoryLawIff(cfg: Config, u: string)
    requires cfg.backoff >= 0.0
    ensures HistoryLaw(cfg, u) <==> cfg.unblock_ratio < 1.0
  {
    if cfg.unblock_ratio < 1.0 {
      forall w: World, es: seq<Event>
        ensures u in Run(cfg, w, es).p.blocked <==> Verdict(cfg.unblock_ratio, u in w.p.blocked, History(es, u))
      {
        BlockedIsHistory(cfg, w, es, u);
      }
    } else {
      var p := Polygen(map[u := 1.0], 1, Fresh, Fresh);
      var w := World(p, map[], 1.0);
      var es := [Check(1.0, [(u, 1.0)])];
      OneUser(cfg, p, u, 1.0, 1.0);
      assert es[1..] == [] && [(u, 1.0)][1..] == [];
      assert History(es, u) == [1.0] by { assert Observed([(u, 1.0)], u) == [1.0] + []; }
      assert Run(cfg, w, es) == Step(cfg, w, es[0]);
      assert u !in Run(cfg, w, es).p.blocked;
      assert Verdict(cfg.unblock_ratio, true, [1.0]);
    }
  }

  lemma {:induction false} OthersKeepBlocked(cfg: Config, p: Polygen, u: string, loads: seq<(string, real)>, t: real)
    requires forall i :: 0 <= i < |loads| ==> loads[i].0 != u
    ensures var q := CheckUsers(cfg, p, loads, t);
            && (u in q.blocked <==> u in p.blocked) && (u in p.blocked ==> q.blocked[u] == p.blocked[u])
    decreases |loads|
  {
    if loads != [] {
      OthersKeepBlocked(cfg, CheckUser(cfg, p, loads[0].0, loads[0].1, t), u, loads[1..], t);
    }
  }

  /** What one check does with a user, among any others: at the limit it is blocked, between the unblock ratio and the
      limit a blocked one stays so, at the unblock ratio it is released. The time stamp that paces the heartbeats
      moves to the check exactly when more than the backoff has passed. */
  lemma {:induction false} CheckDecides(cfg: Config, p: Polygen, u: string, ratio: real, loads: seq<(string, real)>,
                                        t: real)
    requires cfg.unblock_ratio < 1.0 && Distinct(loads) && HasLoad(loads, u, ratio)
    ensures var q := CheckUsers(cfg, p, loads, t);
            && (u in q.blocked <==> ratio >= 1.0 || (u in p.blocked && ratio > cfg.unblock_ratio))
            && (u in q.blocked && u !in p.blocked ==> q.blocked[u] == t)
            && (u in q.blocked && u in p.blocked ==>
                  q.blocked[u] == if t > p.blocked[u] + cfg.backoff then t else p.blocked[u])
    decreases |loads|
  {
    var i :| 0 <= i < |loads| && loads[i] == (u, ratio);
    var p1 := CheckUser(cfg, p, loads[0].0, loads[0].1, t);
    if i == 0 {
      OthersKeepBlocked(cfg, p1, u, loads[1..], t);
    } else {
      assert loads[0].0 != u;
      assert loads[1..][i - 1] == (u, ratio);
      CheckDecides(cfg, p1, u, ratio, loads[1..], t);
    }
  }

  // ---------------------------------------------------------------- the load itself

  /** One Redis connection key: an instance and direction of a user, with its count. */
  datatype Usage = Usage(user: string, endpoint: string, data: int)

  function TotalOf(ms: seq<Usage>, user: string, endpoint: string): int {
    if ms == [] then 0 else
      (if ms[0].user == user && ms[0].endpoint == endpoint then ms[0].data else 0) + TotalOf(ms[1..], user, endpoint)
  }

  lemma {:induction false} TotalAppend(a: seq<Usage>, m: Usage, user: string, endpoint: string)
    ensures TotalOf(a + [m], user, endpoint)
              == TotalOf(a, user, endpoint) + (if m.user == user && m.endpoint == endpoint then m.data else 0)
  {
    if a == [] {
      assert a + [m] == [m] && [m][1..] == [];
    } else {
      assert (a + [m])[1..] == a[1..] + [m];
      TotalAppend(a[1..], m, user, endpoint);
    }
  }

  /** merge_metrics_by_key: every user and endpoint once, with the sum of all its instance and direction counts. */
  method MergeMetrics(ms: seq<Usage>) returns (merged: map<(string, string), int>)
    ensures forall id :: id in merged <==> exists m :: m in ms && (m.user, m.endpoint) == id
    ensures forall id :: id in merged ==> merged[id] == TotalOf(ms, id.0, id.1)
  {
    merged := map[];
    var i := 0;
    while i < |ms|
      invariant 0 <= i <= |ms|
      invariant forall id :: id in merged <==> exists j :: 0 <= j < i && (ms[j].user, ms[j].endpoint) == id
      invariant forall id :: id in merged ==> merged[id] == TotalOf(ms[..i], id.0, id.1)
    {
      var m := ms[i];
      var id := (m.user, m.endpoint);
      assert ms[..i + 1] == ms[..i] + [m];
      forall k: (string, string)
        ensures TotalOf(ms[..i + 1], k.0, k.1) == TotalOf(ms[..i], k.0, k.1) + (if k == id then m.data else 0)
      {
        TotalAppend(ms[..i], m, k.0, k.1);
      }
      if id in merged {
        merged := merged[id := merged[id] + m.data];
      } else {
        AbsentTotal(ms[..i], id.0, id.1);
        merged := merged[id := m.data];
      }
      i := i + 1;
    }
    assert ms[..i] == ms;
  }

  lemma {:induction false} AbsentTotal(ms: seq<Usage>, user: string, endpoint: string)
    requires forall j :: 0 <= j < |ms| ==> (ms[j].user, ms[j].endpoint) != (user, endpoint)
    ensures TotalOf(ms, user, endpoint) == 0
  {
    if ms != [] {
      AbsentTotal(ms[1..], user, endpoint);
    }
  }

  // ---------------------------------------------------------------- checks on the raw counts

  /** The load is to 1 as the total is to the limit. */
  predicate IsLoad(load: real, total: int, limit: int) {
    load * limit as real == total as real
  }

  /** The total is at most the unblock ratio times the limit. */
  predicate LowLoad(unblock_ratio: real, total: int, limit: int) {
    total as real <= unblock_ratio * limit as real
  }

  lemma QuotientIsLoad(total: int, limit: int)
    requires limit > 0
    ensures IsLoad(total as real / limit as real, total, limit)
  {
  }

  lemma LoadIs(load: real, total: int, limit: int, unblock_ratio: real)
    requires limit > 0 && IsLoad(load, total, limit)
    ensures load >= 1.0 <==> total >= limit
    ensures load <= unblock_ratio <==> LowLoad(unblock_ratio, total, limit)
  {
    var l := limit as real;
    assert load >= 1.0 <==> load * l >= 1.0 * l;
    assert load <= unblock_ratio <==> load * l <= unblock_ratio * l;
  }

  ghost predicate Mentions(ms: seq<Usage>, endpoint: string, u: string) {
    exists m :: m in ms && m.user == u && m.endpoint == endpoint
  }

  /** The loads of one check: every user of the endpoint once, in any order. */
  ghost predicate LoadsOf(loads: seq<(string, real)>, ms: seq<Usage>, endpoint: string, limit: string -> int)
    requires forall u :: limit(u) > 0
  {
    && Distinct(loads)
    && (forall k :: 0 <= k < |loads| ==>
          && Mentions(ms, endpoint, loads[k].0)
          && IsLoad(loads[k].1, TotalOf(ms, loads[k].0, endpoint), limit(loads[k].0)))
    && (forall u :: Mentions(ms, endpoint, u) ==> exists k :: 0 <= k < |loads| && loads[k].0 == u)
  }

  /** The loop over the merged metrics, in any order. */
  method CollectLoads(ms: seq<Usage>, endpoint: string, limit: string -> int) returns (loads: seq<(string, real)>)
    requires forall u :: limit(u) > 0
    ensures LoadsOf(loads, ms, endpoint, limit)
  {
    var merged := MergeMetrics(ms);
    loads := [];
    var todo := set id | id in merged && id.1 == endpoint;
    ghost var all := todo;
    while todo != {}
      invariant todo <= all
      invariant forall k :: 0 <= k < |loads| ==> (loads[k].0, endpoint) in all && (loads[k].0, endpoint) !in todo
      invariant forall k :: 0 <= k < |loads| ==>
                  IsLoad(loads[k].1, TotalOf(ms, loads[k].0, endpoint), limit(loads[k].0))
      invariant forall id :: id in all && id !in todo ==> exists k :: 0 <= k < |loads| && loads[k].0 == id.0
      invariant Distinct(loads)
      decreases todo
    {
      var id :| id in todo;
      var load := (id.0, merged[id] as real / limit(id.0) as real);
      hide IsLoad, TotalOf;
      QuotientIsLoad(merged[id], limit(id.0));
      ghost var before := loads;
      loads := loads + [load];
      assert loads[|before|] == load;
      assert forall k :: 0 <= k < |before| ==> loads[k] == before[k];
      todo := todo - {id};
    }
    forall u | Mentions(ms, endpoint, u) ensures (u, endpoint) in all {
    }
    forall k | 0 <= k < |loads| ensures Mentions(ms, endpoint, loads[k].0) {
      assert (loads[k].0, endpoint) in merged;
    }
  }

  /** _check_all_conn_key_violations on the unmerged metrics of one endpoint. */
  method CheckCounts(gen: PolicyGenerator, ms: seq<Usage>, endpoint: string, limit: string -> int, t: real)
    returns (to_block: set<string>, to_unblock: set<string>, ghost loads: seq<(string, real)>)
    requires forall u :: limit(u) > 0
    modifies gen
    ensures LoadsOf(loads, ms, endpoint, limit)
    ensures gen.Now() == Flush(CheckUsers(gen.cfg, old(gen.Now()), loads, t))
    ensures to_block == CheckUsers(gen.cfg, old(gen.Now()), loads, t).block.new_keys
    ensures to_unblock == CheckUsers(gen.cfg, old(gen.Now()), loads, t).unblock.new_keys
  {
    var ls := CollectLoads(ms, endpoint, limit);
    loads := ls;
    to_block, to_unblock := gen.Check(ls, t);
  }

  /** A check on the counts read from Redis at time t, or another violation recorded at time t. */
  datatype Round = Counts(t: real, ms: seq<Usage>) | Nothing(t: real)

  /** The events are the checks on these counts. */
  ghost predicate Checks(es: seq<Event>, rounds: seq<Round>, endpoint: string, limit: string -> int)
    requires forall u :: limit(u) > 0
  {
    && |es| == |rounds|
    && forall k :: 0 <= k < |es| ==>
         match rounds[k]
         case Counts(t, ms) => es[k].Check? && es[k].t == t && LoadsOf(es[k].loads, ms, endpoint, limit)
         case Nothing(t) => es[k] == Other(t)
  }

  lemma {:induction false} ObservedOnce(loads: seq<(string, real)>, u: string)
    requires Distinct(loads)
    ensures (forall k :: 0 <= k < |loads| ==> loads[k].0 != u) ==> Observed(loads, u) == []
    ensures forall k :: 0 <= k < |loads| && loads[k].0 == u ==> Observed(loads, u) == [loads[k].1]
    decreases |loads|
  {
    if loads != [] {
      var tail := loads[1..];
      assert forall k :: 0 <= k < |tail| ==> tail[k] == loads[k + 1];
      ObservedOnce(tail, u);
      assert forall k :: 1 <= k < |loads| ==> loads[k] == tail[k - 1];
    }
  }

  /** What one round says about u: blocked, released, or what it was before. */
  ghost function Decided(unblock_ratio: real, before: bool, r: Round, endpoint: string, limit: string -> int, u: string)
    : bool
  {
    if !(r.Counts? && Mentions(r.ms, endpoint, u)) then before
    else if TotalOf(r.ms, u, endpoint) >= limit(u) then true
    else if LowLoad(unblock_ratio, TotalOf(r.ms, u, endpoint), limit(u)) then false
    else before
  }

  lemma VerdictNone(unblock_ratio: real, before: bool)
    ensures Verdict(unblock_ratio, before, []) == before
  {
  }

  lemma VerdictOne(unblock_ratio: real, before: bool, r: real)
    ensures Verdict(unblock_ratio, before, [r])
            == if r >= 1.0 then true else if r <= unblock_ratio then false else before
  {
    assert [r][..0] == [];
  }

  lemma ObservedLoad(loads: seq<(string, real)>, ms: seq<Usage>, endpoint: string, limit: string -> int, u: string)
    returns (load: real)
    requires (forall v :: limit(v) > 0) && LoadsOf(loads, ms, endpoint, limit)
    ensures Mentions(ms, endpoint, u) ==>
              Observed(loads, u) == [load] && IsLoad(load, TotalOf(ms, u, endpoint), limit(u))
    ensures !Mentions(ms, endpoint, u) ==> Observed(loads, u) == []
  {
    ObservedOnce(loads, u);
    hide Observed, Mentions, IsLoad, TotalOf;
    load := 0.0;
    if Mentions(ms, endpoint, u) {
      var k :| 0 <= k < |loads| && loads[k].0 == u;
      load := loads[k].1;
    }
  }

  lemma RoundDecides(unblock_ratio: real, before: bool, loads: seq<(string, real)>, r: Round, endpoint: string,
                     limit: string -> int, u: string)
    requires r.Counts? && (forall v :: limit(v) > 0) && LoadsOf(loads, r.ms, endpoint, limit)
    ensures Verdict(unblock_ratio, before, Observed(loads, u)) == Decided(unblock_ratio, before, r, endpoint, limit, u)
  {
    var load := ObservedLoad(loads, r.ms, endpoint, limit, u);
    hide LoadsOf, Observed, Mentions, IsLoad, Verdict, TotalOf, LowLoad;
    if Mentions(r.ms, endpoint, u) {
      LoadIs(load, TotalOf(r.ms, u, endpoint), limit(u), unblock_ratio);
      VerdictOne(unblock_ratio, before, load);
    } else {
      VerdictNone(unblock_ratio, before);
    }
  }

  ghost function DecidedAll(unblock_ratio: real, before: bool, rounds: seq<Round>, endpoint: string,
                            limit: string -> int, u: string): bool
    decreases |rounds|
  {
    if rounds == [] then before else
    var now := Decided(unblock_ratio, before, rounds[0], endpoint, limit, u);
    DecidedAll(unblock_ratio, now, rounds[1..], endpoint, limit, u)
  }

  lemma {:induction false} HistoryDecides(unblock_ratio: real, before: bool, es: seq<Event>, rounds: seq<Round>,
                                          endpoint: string, limit: string -> int, u: string)
    requires (forall v :: limit(v) > 0) && Checks(es, rounds, endpoint, limit)
    ensures Verdict(unblock_ratio, before, History(es, u))
            == DecidedAll(unblock_ratio, before, rounds, endpoint, limit, u)
    decreases |es|
  {
    if es != [] {
      assert forall k :: 0 <= k < |es[1..]| ==> es[1..][k] == es[k + 1] && rounds[1..][k] == rounds[k + 1];
      var first := if es[0].Check? then Observed(es[0].loads, u) else [];
      VerdictAppend(unblock_ratio, before, first, History(es[1..], u));
      if es[0].Check? {
        RoundDecides(unblock_ratio, before, es[0].loads, rounds[0], endpoint, limit, u);
      }
      HistoryDecides(unblock_ratio, Verdict(unblock_ratio, before, first), es[1..], rounds[1..], endpoint, limit, u);
    }
  }

  /** The sum of all counts of u reached its limit in round k. */
  ghost predicate Reaches(rounds: seq<Round>, k: nat, endpoint: string, limit: string -> int, u: string) {
    && k < |rounds| && rounds[k].Counts? && Mentions(rounds[k].ms, endpoint, u)
    && TotalOf(rounds[k].ms, u, endpoint) >= limit(u)
  }

  /** It was at most the unblock ratio times the limit. */
  ghost predicate Drops(unblock_ratio: real, rounds: seq<Round>, k: nat, endpoint: string, limit: string -> int,
                        u: string)
  {
    && k < |rounds| && rounds[k].Counts? && Mentions(rounds[k].ms, endpoint, u)
    && LowLoad(unblock_ratio, TotalOf(rounds[k].ms, u, endpoint), limit(u))
  }

  /** Some round reached the limit, or the user was blocked before, and no later round dropped. */
  ghost predicate ReachedLast(unblock_ratio: real, before: bool, rounds: seq<Round>, endpoint: string,
                              limit: string -> int, u: string)
  {
    || (before && forall j: nat :: !Drops(unblock_ratio, rounds, j, endpoint, limit, u))
    || exists k: nat :: Reaches(rounds, k, endpoint, limit, u)
                        && forall j: nat :: k < j ==> !Drops(unblock_ratio, rounds, j, endpoint, limit, u)
  }

  lemma NotBoth(unblock_ratio: real, total: int, limit: int)
    requires unblock_ratio < 1.0 && limit > 0 && total >= limit
    ensures !LowLoad(unblock_ratio, total, limit)
  {
    assert unblock_ratio * limit as real < 1.0 * limit as real;
  }

  lemma {:induction false} DecidedIsLast(unblock_ratio: real, before: bool, rounds: seq<Round>, endpoint: string,
                                         limit: string -> int, u: string)
    requires unblock_ratio < 1.0 && forall v :: limit(v) > 0
    ensures DecidedAll(unblock_ratio, before, rounds, endpoint, limit, u)
            <==> ReachedLast(unblock_ratio, before, rounds, endpoint, limit, u)
    decreases |rounds|
  {
    if rounds != [] {
      var tail := rounds[1..];
      var now := Decided(unblock_ratio, before, rounds[0], endpoint, limit, u);
      DecidedIsLast(unblock_ratio, now, tail, endpoint, limit, u);
      LastShifts(unblock_ratio, before, rounds, endpoint, limit, u);
    }
  }

  lemma LastShifts(unblock_ratio: real, before: bool, rounds: seq<Round>, endpoint: string, limit: string -> int,
                   u: string)
    requires unblock_ratio < 1.0 && rounds != [] && forall v :: limit(v) > 0
    ensures ReachedLast(unblock_ratio, before, rounds, endpoint, limit, u) <==>
              ReachedLast(unblock_ratio, Decided(unblock_ratio, before, rounds[0], endpoint, limit, u), rounds[1..],
                          endpoint, limit, u)
  {
    var tail := rounds[1..];
    forall k: nat
      ensures Reaches(tail, k, endpoint, limit, u) <==> Reaches(rounds, k + 1, endpoint, limit, u)
      ensures Drops(unblock_ratio, tail, k, endpoint, limit, u)
              <==> Drops(unblock_ratio, rounds, k + 1, endpoint, limit, u)
    {
    }
    if Reaches(rounds, 0, endpoint, limit, u) {
      NotBoth(unblock_ratio, TotalOf(rounds[0].ms, u, endpoint), limit(u));
    }
    var now := Decided(unblock_ratio, before, rounds[0], endpoint, limit, u);
    assert now <==> Reaches(rounds, 0, endpoint, limit, u)
                    || (before && !Drops(unblock_ratio, rounds, 0, endpoint, limit, u));
    hide Reaches, Drops, Decided;
    if ReachedLast(unblock_ratio, before, rounds, endpoint, limit, u) {
      if !(before && forall j: nat :: !Drops(unblock_ratio, rounds, j, endpoint, limit, u)) {
        var k: nat :| Reaches(rounds, k, endpoint, limit, u)
                      && forall j: nat :: k < j ==> !Drops(unblock_ratio, rounds, j, endpoint, limit, u);
        if k > 0 {
          assert Reaches(tail, k - 1, endpoint, limit, u);
        }
      }
    }
    if ReachedLast(unblock_ratio, now, tail, endpoint, limit, u) {
      if now && forall j: nat :: !Drops(unblock_ratio, tail, j, endpoint, limit, u) {
        forall j: nat | j > 0 ensures !Drops(unblock_ratio, rounds, j, endpoint, limit, u) {
          assert !Drops(unblock_ratio, tail, j - 1, endpoint, limit, u);
        }
      } else {
        var k: nat :| Reaches(tail, k, endpoint, limit, u)
                      && forall j: nat :: k < j ==> !Drops(unblock_ratio, tail, j, endpoint, limit, u);
        assert Reaches(rounds, k + 1, endpoint, limit, u);
        forall j: nat | k + 1 < j ensures !Drops(unblock_ratio, rounds, j, endpoint, limit, u) {
          assert !Drops(unblock_ratio, tail, j - 1, endpoint, limit, u);
        }
      }
    }
  }

  /** From the counts in Redis to the blocked set, below an unblock ratio of 1: a user is blocked exactly when in some
      round the sum of all its instance and direction counts reached its limit, or it was blocked at the start, and in
      no later round was that sum at most the unblock ratio times the limit. */
  lemma BlockedIsCountHistory(cfg: Config, w: World, es: seq<Event>, rounds: seq<Round>, endpoint: string,
                              limit: string -> int, u: string)
    requires cfg.unblock_ratio < 1.0 && (forall v :: limit(v) > 0) && Checks(es, rounds, endpoint, limit)
    ensures u in Run(cfg, w, es).p.blocked <==>
              ReachedLast(cfg.unblock_ratio, u in w.p.blocked, rounds, endpoint, limit, u)
  {
    HistoryDecides(cfg.unblock_ratio, u in w.p.blocked, es, rounds, endpoint, limit, u);
    BlockedIsHistory(cfg, w, es, u);
    DecidedIsLast(cfg.unblock_ratio, u in w.p.blocked, rounds, endpoint, limit, u);
  }

  // ---------------------------------------------------------------- the messages as lines

  /** update_violates_reqs on a line that was read. */
  function ApplyLine(reqs: map<string, int>, p: PolicyLine.Policy, now: int): map<string, int> {
    match p
    case Requests(blocking, users) =>
      if blocking then reqs + map u | u in users :: now else reqs - set u | u in users
    case _ => reqs
  }

  /** The keys of a message are the users of a set, in some order; an empty set sends no message. */
  ghost predicate Spells(keys: seq<PolicyLine.Key>, users: set<string>) {
    && (forall k :: 0 <= k < |keys| ==> keys[k].user in users)
    && (forall u :: u in users ==> exists k :: 0 <= k < |keys| && keys[k].user == u)
    && (forall k :: 0 <= k < |keys| ==>
          PolicyLine.KeyOk(keys[k]) && PolicyLine.SpaceFree(keys[k].user) && PolicyLine.SpaceFree(keys[k].ratio))
  }

  function AfterLine(reqs: map<string, int>, v: UsageValue, us: nat, keys: seq<PolicyLine.Key>, now: int)
    : map<string, int>
  {
    if keys == [] then reqs
    else ApplyLine(reqs, PolicyLine.ReadRaw(PolicyLine.PrintLine(v, us, keys) + "\n", now), now)
  }

  /** What HAProxy makes of the printed messages of a check is what the protocol assumes. */
  lemma LinesAreReceived(reqs: map<string, int>, to_block: set<string>, to_unblock: set<string>, us: nat,
                         block: seq<PolicyLine.Key>, unblock: seq<PolicyLine.Key>, now: int)
    requires Spells(block, to_block) && Spells(unblock, to_unblock)
    ensures AfterLine(AfterLine(reqs, RequestsBlock, us, block, now), RequestsUnblock, us, unblock, now)
            == Receive(reqs, to_block, to_unblock, now)
  {
    hide AfterLine, Spells;
    BlockLine(reqs, to_block, us, block, now);
    UnblockLine(reqs + map u | u in to_block :: now, to_unblock, us, unblock, now);
  }

  lemma BlockLine(reqs: map<string, int>, users: set<string>, us: nat, keys: seq<PolicyLine.Key>, now: int)
    requires Spells(keys, users)
    ensures AfterLine(reqs, RequestsBlock, us, keys, now) == reqs + map u | u in users :: now
  {
    UsersSpelled(keys, users);
    LineApplied(reqs, RequestsBlock, us, keys, now);
    if keys == [] {
      assert users == {};
      assert AfterLine(reqs, RequestsBlock, us, keys, now) == reqs;
    } else {
      hide AfterLine, Spells, PolicyLine.Users;
      var heard := PolicyLine.Users(keys);
      assert forall u :: u in heard <==> u in users;
      assert (map u | u in heard :: now) == map u | u in users :: now;
    }
  }

  lemma UnblockLine(reqs: map<string, int>, users: set<string>, us: nat, keys: seq<PolicyLine.Key>, now: int)
    requires Spells(keys, users)
    ensures AfterLine(reqs, RequestsUnblock, us, keys, now) == reqs - users
  {
    UsersSpelled(keys, users);
    LineApplied(reqs, RequestsUnblock, us, keys, now);
    if keys == [] {
      assert users == {};
      assert AfterLine(reqs, RequestsUnblock, us, keys, now) == reqs;
    } else {
      hide AfterLine, Spells, PolicyLine.Users;
    }
  }

  lemma UsersSpelled(keys: seq<PolicyLine.Key>, users: set<string>)
    requires Spells(keys, users)
    ensures (set u | u in PolicyLine.Users(keys)) == users
  {
    forall u | u in users ensures u in PolicyLine.Users(keys) {
      var k :| 0 <= k < |keys| && keys[k].user == u;
      assert PolicyLine.Users(keys)[k] == u;
    }
  }

  lemma LineApplied(reqs: map<string, int>, v: UsageValue, us: nat, keys: seq<PolicyLine.Key>, now: int)
    requires v.RequestsBlock? || v.RequestsUnblock?
    requires forall k :: 0 <= k < |keys| ==>
               PolicyLine.KeyOk(keys[k]) && PolicyLine.SpaceFree(keys[k].user) && PolicyLine.SpaceFree(keys[k].ratio)
    ensures keys != [] ==>
              AfterLine(reqs, v, us, keys, now)
              == ApplyLine(reqs, PolicyLine.Requests(v.RequestsBlock?, PolicyLine.Users(keys)), now)
  {
    if keys != [] {
      PolicyLine.RawLineReadBack(v, us, keys, now);
    }
  }
}
