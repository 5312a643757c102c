/** The last stretch of a limit-share round: the message that polygen prints is read by every instance, each update for
    the instance is stored by its filter, and the stored shares are compared with the user's limit. */
module ShareDelivery {
  import opened Common
  import opened WeirFilter
  import opened LimitShare
  import LimitMessage
  import LimitPipeline

  type Update = LimitMessage.Update
  type Entry = LimitMessage.Entry

  function DirectionName(d: Direction): string {
    if d.Up? then "up" else "dwn"
  }

  // ---------------------------------------------------------------- from updates to calls

  /** The call of weir_ingest_limit_share_update that an update leads to. */
  predicate IsCall(u: Update, e: Event) {
    e.Ingest? && e.timestamp == u.timestamp && e.key == u.user && e.direction == u.direction && e.share == u.limit
  }

  /** `calls` is what instance `me` does with the updates: those for other instances are ignored. */
  predicate Calls(us: seq<Update>, me: string, calls: seq<Event>)
    decreases |us|
  {
    if us == [] then calls == []
    else if us[0].instance != me then Calls(us[1..], me, calls)
    else calls != [] && IsCall(us[0], calls[0]) && Calls(us[1..], me, calls[1..])
  }

  predicate Concerns(u: Update, me: string, user: string, direction: string) {
    u.instance == me && u.user == user && u.direction == direction
  }

  /** The (timestamp, limit) pairs of the updates for one instance, user and direction. */
  function Addressed(us: seq<Update>, me: string, user: string, direction: string): seq<(int, int)> {
    if us == [] then [] else
      (if Concerns(us[0], me, user, direction) then [(us[0].timestamp, us[0].limit)] else [])
      + Addressed(us[1..], me, user, direction)
  }

  function Pairs(msgs: seq<Share>): seq<(int, int)> {
    if msgs == [] then [] else [(msgs[0].timestamp, msgs[0].bytes)] + Pairs(msgs[1..])
  }

  lemma {:induction false} PairsConcat(a: seq<Share>, b: seq<Share>)
    ensures Pairs(a + b) == Pairs(a) + Pairs(b)
  {
    if a == [] {
      assert a + b == b;
    } else {
      assert (a + b)[1..] == a[1..] + b;
      PairsConcat(a[1..], b);
    }
  }

  /** The filter is told exactly what is addressed to it. */
  lemma {:induction false} CallsInbox(us: seq<Update>, me: string, calls: seq<Event>, key: string, d: Direction)
    requires Calls(us, me, calls)
    ensures Pairs(Inbox(calls, key, d)) == Addressed(us, me, key, DirectionName(d))
    ensures forall e :: e in calls ==> e.Ingest?
    decreases |us|
  {
    if us != [] {
      if us[0].instance != me {
        CallsInbox(us[1..], me, calls, key, d);
      } else {
        CallsInbox(us[1..], me, calls[1..], key, d);
        InboxHead(calls, key, d);
        PairsConcat(Inbox([calls[0]], key, d), Inbox(calls[1..], key, d));
        assert [calls[0]][1..] == [];
        assert Pairs([]) == [];
        var m := Share(calls[0].timestamp, calls[0].share);
        assert Pairs([m]) == [(m.timestamp, m.bytes)] by { assert [m][1..] == []; }
      }
    }
  }

  // ---------------------------------------------------------------- what a message addresses to an instance

  lemma {:induction false} AddressedConcat(a: seq<Update>, b: seq<Update>, me: string, user: string, direction: string)
    ensures Addressed(a + b, me, user, direction)
            == Addressed(a, me, user, direction) + Addressed(b, me, user, direction)
  {
    if a == [] {
      assert a + b == b;
    } else {
      assert (a + b)[1..] == a[1..] + b;
      AddressedConcat(a[1..], b, me, user, direction);
    }
  }

  /** An entry addresses its own user and direction only, and an instance at most once. */
  lemma {:induction false} EntryAddresses(epoch_ms: nat, user: string, direction: string, shares: seq<(string, int)>,
                                          me: string, u: string, d: string)
    requires forall i, j :: 0 <= i < j < |shares| ==> shares[i].0 != shares[j].0
    ensures (u, d) != (user, direction) ==>
              Addressed(LimitMessage.Wanted(epoch_ms, user, direction, shares), me, u, d) == []
    ensures (forall i :: 0 <= i < |shares| ==> shares[i].0 != me) ==>
              Addressed(LimitMessage.Wanted(epoch_ms, user, direction, shares), me, u, d) == []
    ensures (u, d) == (user, direction) ==> forall i :: 0 <= i < |shares| && shares[i].0 == me && shares[i].1 > 0 ==>
              Addressed(LimitMessage.Wanted(epoch_ms, user, direction, shares), me, u, d) == [(epoch_ms, shares[i].1)]
    decreases |shares|
  {
    if shares != [] {
      var s, tail := shares[0], shares[1..];
      assert forall i :: 0 <= i < |tail| ==> tail[i] == shares[i + 1];
      EntryAddresses(epoch_ms, user, direction, tail, me, u, d);
      var rest := LimitMessage.Wanted(epoch_ms, user, direction, tail);
      if s.1 > 0 {
        var head := LimitMessage.Update(epoch_ms, user, s.0, direction, s.1);
        assert LimitMessage.Wanted(epoch_ms, user, direction, shares) == [head] + rest;
        assert ([head] + rest)[1..] == rest;
      } else {
        assert LimitMessage.Wanted(epoch_ms, user, direction, shares) == rest;
      }
      assert forall i :: 1 <= i < |shares| ==> shares[i] == tail[i - 1];
    }
  }

  ghost predicate DistinctEntries(es: seq<Entry>) {
    forall i, j :: 0 <= i < j < |es| ==> (es[i].user, es[i].direction) != (es[j].user, es[j].direction)
  }

  ghost predicate DistinctInstances(es: seq<Entry>) {
    forall k :: 0 <= k < |es| ==>
      forall i, j :: 0 <= i < j < |es[k].shares| ==> es[k].shares[i].0 != es[k].shares[j].0
  }

  /** The whole message addresses a user and direction only through its own entry. */
  lemma {:induction false} MessageAddresses(epoch_ms: nat, es: seq<Entry>, me: string, u: string, d: string)
    requires DistinctEntries(es) && DistinctInstances(es)
    ensures (forall k :: 0 <= k < |es| ==> (es[k].user, es[k].direction) != (u, d)) ==>
              Addressed(LimitMessage.WantedAll(epoch_ms, es), me, u, d) == []
    ensures forall k :: 0 <= k < |es| && (es[k].user, es[k].direction) == (u, d) ==>
              Addressed(LimitMessage.WantedAll(epoch_ms, es), me, u, d)
              == Addressed(LimitMessage.Wanted(epoch_ms, u, d, es[k].shares), me, u, d)
    decreases |es|
  {
    if es != [] {
      var e, rest := es[0], es[1..];
      assert forall k :: 0 <= k < |rest| ==> rest[k] == es[k + 1];
      MessageAddresses(epoch_ms, rest, me, u, d);
      EntryAddresses(epoch_ms, e.user, e.direction, e.shares, me, u, d);
      AddressedConcat(LimitMessage.Wanted(epoch_ms, e.user, e.direction, e.shares),
                      LimitMessage.WantedAll(epoch_ms, rest), me, u, d);
      hide LimitMessage.Wanted, Addressed;
      forall k | 1 <= k < |es| ensures es[k] == rest[k - 1] {
      }
    }
  }

  // ---------------------------------------------------------------- one instance

  /** Share updates alone never clean anything up. */
  lemma IngestKeeps(expired: (nat, nat) -> bool, s: State, e: Event, key: string)
    requires e.Ingest? && Possible(s, e) && Step(expired, s, e).Ok? && key in s.table
    ensures key in Step(expired, s, e).s.table
  {
  }

  lemma {:induction false} IngestsKeep(expired: (nat, nat) -> bool, s: State, es: seq<Event>, key: string)
    requires (forall e :: e in es ==> e.Ingest?) && PossibleRun(expired, s, es) && key in s.table
    ensures Kept(expired, s, es, key)
    decreases |es|
  {
    if es != [] && Step(expired, s, es[0]).Ok? {
      assert es[0] in es;
      IngestKeeps(expired, s, es[0], key);
      hide Step;
      IngestsKeep(expired, Step(expired, s, es[0]).s, es[1..], key);
    }
  }

  ghost predicate Holds(s: State, key: string, d: Direction, m: Share) {
    && key in s.table && s.table[key] in s.pool
    && SameShare(s.pool[s.table[key]].Of(d), DirectionLimit(true, m.timestamp, Clamp(m.bytes), 0))
  }

  /** Reading one message stores the one share in it that is addressed to this user and direction. */
  lemma {:induction false} ReadingStores(expired: (nat, nat) -> bool, s: State, es: seq<Event>, key: string,
                                         d: Direction, m: Share)
    requires Inv(s) && (forall e :: e in es ==> e.Ingest?) && PossibleRun(expired, s, es) && Run(expired, s, es).Ok?
    requires StoredOlder(s, key, d, m.timestamp) && Inbox(es, key, d) == [m]
    ensures Holds(Run(expired, s, es).s, key, d, m)
    decreases |es|
  {
    assert es != [];
    var e, t := es[0], Step(expired, s, es[0]).s;
    assert e in es;
    InboxHead(es, key, d);
    StepInv(expired, s, e);
    hide Inv, Step;
    if e.key == key && DirectionNamed(e.direction) == Some(d) {
      assert Inbox([e], key, d) == [Share(e.timestamp, e.share)] by { assert [e][1..] == []; }
      HeadAndRest(Share(e.timestamp, e.share), Inbox(es[1..], key, d), m);
      NewestIsStored(expired, s, e, key, d);
      IngestsKeep(expired, t, es[1..], key);
      RunDelivers(expired, t, es[1..], key, d);
    } else {
      assert Inbox([e], key, d) == [] by { assert [e][1..] == []; }
      assert [] + Inbox(es[1..], key, d) == Inbox(es[1..], key, d);
      StepStoredOlder(expired, s, e, key, d, m.timestamp);
      ReadingStores(expired, t, es[1..], key, d, m);
    }
  }

  lemma HeadAndRest(x: Share, rest: seq<Share>, m: Share)
    requires [x] + rest == [m]
    ensures x == m && rest == []
  {
    assert ([x] + rest)[0] == x;
    assert |[x] + rest| == 1 + |rest|;
  }

  /** One instance's filter: anything, then the calls made while the newest message is read, then anything. */
  datatype Reading = Reading(before: seq<Event>, calls: seq<Event>, after: seq<Event>)

  ghost predicate Happened(expired: (nat, nat) -> bool, h: Reading) {
    && PossibleRun(expired, Start, h.before) && Run(expired, Start, h.before).Ok?
    && var s := Run(expired, Start, h.before).s;
       && PossibleRun(expired, s, h.calls) && Run(expired, s, h.calls).Ok?
       && var t := Run(expired, s, h.calls).s;
          PossibleRun(expired, t, h.after) && Run(expired, t, h.after).Ok?
  }

  ghost function Finally(expired: (nat, nat) -> bool, h: Reading): State
    requires Happened(expired, h)
  {
    Run(expired, Run(expired, Run(expired, Start, h.before).s, h.calls).s, h.after).s
  }

  /** What the instance's filter holds for the user at the end. */
  ghost function StoredAfter(expired: (nat, nat) -> bool, h: Reading, key: string, d: Direction): nat {
    if Happened(expired, h) then StoredBytes(Finally(expired, h), key, d) else 0
  }

  /** The instance read the updates; all other messages for the user are older, and its entry is not cleaned up
      afterwards. */
  ghost predicate Read(expired: (nat, nat) -> bool, updates: seq<Update>, me: string, key: string, d: Direction,
                       timestamp: nat, h: Reading)
  {
    && Happened(expired, h) && Calls(updates, me, h.calls)
    && Older(Inbox(h.before, key, d), timestamp) && Older(Inbox(h.after, key, d), timestamp)
    && Kept(expired, Run(expired, Run(expired, Start, h.before).s, h.calls).s, h.after, key)
  }

  lemma ReadingHolds(expired: (nat, nat) -> bool, updates: seq<Update>, me: string, key: string, d: Direction, m: Share,
                     h: Reading)
    requires Read(expired, updates, me, key, d, m.timestamp, h)
    requires Addressed(updates, me, key, DirectionName(d)) == [(m.timestamp, m.bytes)]
    ensures StoredAfter(expired, h, key, d) == Clamp(m.bytes)
  {
    CallsInbox(updates, me, h.calls, key, d);
    OnePair(Inbox(h.calls, key, d), m);
    StartInv();
    RunIsSafe(expired, Start, h.before);
    var s := Run(expired, Start, h.before).s;
    RunStoredOlder(expired, Start, h.before, key, d, m.timestamp);
    RunIsSafe(expired, s, h.calls);
    ReadingStores(expired, s, h.calls, key, d, m);
    hide Inv, Run;
    var t := Run(expired, s, h.calls).s;
    RunDelivers(expired, t, h.after, key, d);
    OlderIgnored(t.pool[t.table[key]].Of(d), Inbox(h.after, key, d));
  }

  lemma OnePair(msgs: seq<Share>, m: Share)
    requires Pairs(msgs) == [(m.timestamp, m.bytes)]
    ensures msgs == [m]
  {
    assert msgs != [];
    assert Pairs(msgs)[0] == (msgs[0].timestamp, msgs[0].bytes);
    assert |Pairs(msgs)| == 1 + |Pairs(msgs[1..])|;
    assert msgs[1..] == [];
    assert msgs == [msgs[0]];
  }

  // ---------------------------------------------------------------- all instances

  /** The updates that any instance reads out of the printed message. */
  function UpdatesOf(epoch_ms: nat, es: seq<Entry>): seq<Update> {
    LimitMessage.Ingest(LimitMessage.Top, LimitMessage.Lines(LimitMessage.PrintMessage(epoch_ms, es)))
  }

  lemma {:induction false} PrefixIsPrinted(es: seq<Entry>, j: nat)
    requires j < |es| && forall k :: 0 <= k <= j ==> LimitMessage.HasShares(es[k])
    ensures var ps := LimitMessage.UntilEmpty(es);
            |ps| <= |es| && j < |ps| && forall k :: 0 <= k < |ps| ==> ps[k] == es[k]
    decreases |es|
  {
    hide LimitMessage.HasShares;
    PrintedPrefix(es);
    if j > 0 {
      assert forall k :: 0 <= k <= j - 1 ==> es[1..][k] == es[k + 1];
      PrefixIsPrinted(es[1..], j - 1);
    }
  }

  lemma {:induction false} PrintedPrefix(es: seq<Entry>)
    ensures var ps := LimitMessage.UntilEmpty(es); |ps| <= |es| && forall k :: 0 <= k < |ps| ==> ps[k] == es[k]
    decreases |es|
  {
    if es != [] {
      PrintedPrefix(es[1..]);
      var rest := LimitMessage.UntilEmpty(es[1..]);
      assert forall k :: 1 <= k <= |rest| ==> ([es[0]] + rest)[k] == rest[k - 1];
    }
  }

  /** What the message addresses to an instance about a user that is printed before any unfunded one. */
  lemma ShareIsAddressed(epoch_ms: nat, es: seq<Entry>, j: nat, i: nat)
    requires j < |es| && i < |es[j].shares| && es[j].shares[i].1 > 0
    requires forall k :: 0 <= k < |es| ==> LimitMessage.EntryOk(es[k])
    requires forall k :: 0 <= k <= j ==> LimitMessage.HasShares(es[k])
    requires DistinctEntries(es) && DistinctInstances(es)
    ensures Addressed(UpdatesOf(epoch_ms, es), es[j].shares[i].0, es[j].user, es[j].direction)
            == [(epoch_ms, es[j].shares[i].1)]
  {
    LimitMessage.MessageDelivers(epoch_ms, es);
    PrefixIsPrinted(es, j);
    var ps, e, me := LimitMessage.UntilEmpty(es), es[j], es[j].shares[i].0;
    hide LimitMessage.Ingest, LimitMessage.Lines, LimitMessage.PrintMessage, LimitMessage.UntilEmpty, Addressed;
    assert DistinctEntries(ps) && DistinctInstances(ps);
    MessageAddresses(epoch_ms, ps, me, e.user, e.direction);
    EntryAddresses(epoch_ms, e.user, e.direction, e.shares, me, e.user, e.direction);
  }

  /** The entry's user and everyone printed before it have a byte for some instance. */
  ghost predicate Reached(es: seq<Entry>, demands: seq<map<string, int>>, limits: seq<real>, j: nat) {
    && LimitPipeline.Computed(es, demands, limits) && DistinctEntries(es) && j < |es|
    && forall k :: 0 <= k <= j ==> LimitPipeline.Funded(demands[k], limits[k])
  }

  /** The shares computed for the user, none without demand. */
  ghost function Out(demand: map<string, int>, limit: real): map<string, int> {
    if Sum(demand) > 0 then Shares(demand, limit, Sum(demand)) else map[]
  }

  lemma OutConserves(es: seq<Entry>, demands: seq<map<string, int>>, limits: seq<real>, j: nat)
    requires Reached(es, demands, limits, j)
    ensures j < |es| == |demands| == |limits| && Sum(Out(demands[j], limits[j])) as real <= limits[j]
    ensures forall i :: i in Out(demands[j], limits[j]) ==> Out(demands[j], limits[j])[i] >= 0
  {
    hide LimitPipeline.Lists, LimitPipeline.Funded, LimitMessage.EntryOk;
    SharesConserve(demands[j], limits[j]);
  }

  lemma InstanceHolds(expired: (nat, nat) -> bool, epoch_ms: nat, es: seq<Entry>, demands: seq<map<string, int>>,
                      limits: seq<real>, j: nat, d: Direction, me: string, h: Reading)
    requires Reached(es, demands, limits, j) && |es| == |demands| == |limits| && es[j].direction == DirectionName(d)
    requires me in Out(demands[j], limits[j]) && Out(demands[j], limits[j])[me] > 0
    requires Read(expired, UpdatesOf(epoch_ms, es), me, es[j].user, d, epoch_ms, h)
    ensures StoredAfter(expired, h, es[j].user, d) == Clamp(Out(demands[j], limits[j])[me])
  {
    hide Shares, Sum, Read, StoredAfter, UpdatesOf, LimitMessage.HasShares, LimitMessage.EntryOk, LimitPipeline.Funded;
    forall k | 0 <= k <= j ensures LimitMessage.HasShares(es[k]) {
      LimitPipeline.HasSharesIff(es[k], demands[k], limits[k]);
    }
    assert DistinctInstances(es);
    var n :| 0 <= n < |es[j].shares| && es[j].shares[n].0 == me;
    ShareIsAddressed(epoch_ms, es, j, n);
    ReadingHolds(expired, UpdatesOf(epoch_ms, es), me, es[j].user, d, Share(epoch_ms, es[j].shares[n].1), h);
  }

  /** From demand to stored shares: polygen prints the shares of a round, every instance named for the user reads the
      message among whatever else its filter does, and the filters of those instances together hold at most the user's
      limit, each its own share, cut to 32 bits. The user must come before any user without a byte for any instance. */
  lemma MessageConservesLimit(expired: (nat, nat) -> bool, epoch_ms: nat, es: seq<Entry>,
                              demands: seq<map<string, int>>, limits: seq<real>, j: nat, d: Direction,
                              readings: map<string, Reading>)
    requires Reached(es, demands, limits, j) && |es| == |demands| == |limits| && es[j].direction == DirectionName(d)
    requires var out := Out(demands[j], limits[j]);
             forall i :: i in out && out[i] > 0 ==>
               i in readings && Read(expired, UpdatesOf(epoch_ms, es), i, es[j].user, d, epoch_ms, readings[i])
    ensures var out := Out(demands[j], limits[j]);
            && (forall i :: i in out && out[i] > 0 ==>
                  StoredAfter(expired, readings[i], es[j].user, d)
                  == if out[i] <= 0xFFFF_FFFF then out[i] else 0xFFFF_FFFF)
            && Sum(map i | i in out && out[i] > 0 :: StoredAfter(expired, readings[i], es[j].user, d)) as real
               <= limits[j]
  {
    hide Out, Sum, Read, StoredAfter, UpdatesOf, LimitPipeline.Computed, LimitPipeline.Funded;
    var out, user := Out(demands[j], limits[j]), es[j].user;
    OutConserves(es, demands, limits, j);
    forall i | i in out && out[i] > 0 ensures StoredAfter(expired, readings[i], user, d) == Clamp(out[i]) {
      InstanceHolds(expired, epoch_ms, es, demands, limits, j, d, i, readings[i]);
    }
    var stored: map<string, int> := map i | i in out && out[i] > 0 :: StoredAfter(expired, readings[i], user, d);
    SumAtMost(stored, out);
  }

  /** For example: one user, one instance, which reads the message right after its start and holds the whole limit. */
  lemma OneInstanceRound(expired: (nat, nat) -> bool, epoch_ms: nat, user: string, me: string, limit: nat)
    requires LimitMessage.EntryOk(LimitMessage.Entry(user, "up", [(me, limit)])) && limit > 0
    ensures var h := Reading([], [Ingest(epoch_ms, user, "up", limit, 0)], []);
            StoredAfter(expired, h, user, Up) == if limit <= 0xFFFF_FFFF then limit else 0xFFFF_FFFF
  {
    var e, demand, real_limit := LimitMessage.Entry(user, "up", [(me, limit)]), map[me := 1], limit as real;
    var h := Reading([], [Ingest(epoch_ms, user, "up", limit, 0)], []);
    LimitPipeline.OneInstance(me, 1);
    LimitPipeline.OneBusyInstance(user, "up", me, limit);
    ShareOfAll(me, limit);
    OneUpdate(epoch_ms, e, user, me, limit);
    OneCallRead(expired, epoch_ms, user, me, limit);
    hide Sum, Shares, Read, StoredAfter, UpdatesOf, LimitMessage.EntryOk, LimitPipeline.Lists, LimitPipeline.Funded;
    assert LimitPipeline.Computed([e], [demand], [real_limit]) && Reached([e], [demand], [real_limit], 0);
    InstanceHolds(expired, epoch_ms, [e], [demand], [real_limit], 0, Up, me, h);
  }

  lemma ShareOfAll(me: string, limit: nat)
    ensures Out(map[me := 1], limit as real) == map[me := limit]
  {
    LimitPipeline.OneInstance(me, 1);
    hide Sum;
    assert ShareOf(limit as real, 1, 1) == limit;
  }

  lemma OneUpdate(epoch_ms: nat, e: Entry, user: string, me: string, limit: nat)
    requires e == LimitMessage.Entry(user, "up", [(me, limit)]) && LimitMessage.EntryOk(e) && limit > 0
    ensures UpdatesOf(epoch_ms, [e]) == [LimitMessage.Update(epoch_ms, user, me, "up", limit)]
  {
    LimitMessage.MessageDelivers(epoch_ms, [e]);
    LimitMessage.PositiveShareIsPrinted("up", e.shares, 0);
    assert [e][1..] == [] && [(me, limit)][1..] == [];
    hide LimitMessage.Ingest, LimitMessage.Lines, LimitMessage.PrintMessage, LimitMessage.ShareTexts;
    assert LimitMessage.UntilEmpty([e]) == [e];
    assert LimitMessage.Wanted(epoch_ms, user, "up", [(me, limit)])
      == [LimitMessage.Update(epoch_ms, user, me, "up", limit)];
    assert LimitMessage.WantedAll(epoch_ms, []) == [];
  }

  lemma OneCallRead(expired: (nat, nat) -> bool, epoch_ms: nat, user: string, me: string, limit: nat)
    ensures var h := Reading([], [Ingest(epoch_ms, user, "up", limit, 0)], []);
            Read(expired, [LimitMessage.Update(epoch_ms, user, me, "up", limit)], me, user, Up, epoch_ms, h)
  {
    var u, e := LimitMessage.Update(epoch_ms, user, me, "up", limit), Ingest(epoch_ms, user, "up", limit, 0);
    assert [u][1..] == [] && [e][1..] == [];
    assert Calls([], me, []);
    assert PossibleRun(expired, Start, []) && Run(expired, Start, []) == Ok(Start);
    var t := Step(expired, Start, e).s;
    assert Step(expired, Start, e) == Ok(t) && user in t.table;
    OneStep(expired, Start, e);
    assert PossibleRun(expired, t, []) && Run(expired, t, []) == Ok(t);
  }
}
