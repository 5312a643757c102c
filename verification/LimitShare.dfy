/** Bandwidth limit shares: polygen splits a user's limit over the HAProxy instances in proportion to demand,
    each instance keeps the newest share it was sent. */
module LimitShare {
  import opened Common
  import opened WeirFilter

  datatype DemandKey = DemandKey(user: string, direction: Direction)

  /** Python's int(): truncation toward zero. */
  function Int(x: real): int {
    if x >= 0.0 then x.Floor else -((-x).Floor)
  }

  ghost function Sum(m: map<string, int>): int
    decreases |m|
  {
    if m == map[] then 0 else
      var k :| k in m;
      assert (m - {k}).Keys == m.Keys - {k};
      m[k] + Sum(m - {k})
  }

  lemma {:induction false} SumRemove(m: map<string, int>, k: string)
    requires k in m
    ensures Sum(m) == m[k] + Sum(m - {k})
    decreases |m|
  {
    assert (m - {k}).Keys == m.Keys - {k};
    var k0 :| k0 in m && Sum(m) == m[k0] + Sum(m - {k0});
    if k0 != k {
      assert (m - {k0}).Keys == m.Keys - {k0};
      SumRemove(m - {k0}, k);
      SumRemove(m - {k}, k0);
      assert m - {k0} - {k} == m - {k} - {k0};
    }
  }

  function ShareOf(limit: real, demand: int, total: int): int
    requires total != 0
  {
    Int(limit * (demand as real / total as real))
  }

  /** The shares of one user and direction. */
  function Shares(demand: map<string, int>, limit: real, total: int): map<string, int>
    requires total != 0
  {
    map i | i in demand :: ShareOf(limit, demand[i], total)
  }

  // ---------------------------------------------------------------- conservation

  ghost function Scaled(c: real, n: int): real {
    c * n as real
  }

  lemma ScaleShare(limit: real, d: int, total: int)
    requires total > 0
    ensures limit * (d as real / total as real) == Scaled(limit / total as real, d)
  {
  }

  lemma ScaledFacts(limit: real, d: int, total: int)
    requires total > 0 && limit >= 0.0
    ensures d >= 0 ==> Scaled(limit / total as real, d) >= 0.0
    ensures Scaled(limit / total as real, total) == limit
    ensures Scaled(limit / total as real, 0) == 0.0
  {
    var c, t := limit / total as real, total as real;
    assert c * t == limit;
    assert c >= 0.0;
  }

  lemma TruncationLoss(limit: real, d: int, total: int)
    requires total > 0 && limit >= 0.0 && d >= 0
    ensures Scaled(limit / total as real, d) - 1.0 < ShareOf(limit, d, total) as real
              <= Scaled(limit / total as real, d)
    ensures ShareOf(limit, d, total) >= 0
  {
    ScaleShare(limit, d, total);
    ScaledFacts(limit, d, total);
    hide Scaled;
  }

  lemma AddScaled(c: real, a: int, b: int)
    ensures Scaled(c, a + b) == Scaled(c, a) + Scaled(c, b)
  {
  }

  /** Over any part of the instances, truncation loses less than one byte per instance. */
  lemma {:induction false} PartialSums(part: map<string, int>, limit: real, total: int)
    requires total > 0 && limit >= 0.0
    requires forall i :: i in part ==> part[i] >= 0
    ensures Sum(Shares(part, limit, total)) as real <= Scaled(limit / total as real, Sum(part))
    ensures part != map[] ==>
              Sum(Shares(part, limit, total)) as real > Scaled(limit / total as real, Sum(part)) - |part| as real
    decreases |part|
  {
    hide Scaled, ShareOf;
    var out := Shares(part, limit, total);
    if part == map[] {
      assert out == map[];
      ScaledFacts(limit, 0, total);
    } else {
      var k :| k in part;
      var rest := part - {k};
      assert rest.Keys == part.Keys - {k};
      assert Shares(rest, limit, total) == out - {k};
      SumRemove(part, k);
      SumRemove(out, k);
      PartialSums(rest, limit, total);
      TruncationLoss(limit, part[k], total);
      AddScaled(limit / total as real, part[k], Sum(rest));
      if rest == map[] {
        ScaledFacts(limit, 0, total);
      }
    }
  }

  /** The shares of a round never exceed the limit, and fall short of it by less than the number of instances. */
  lemma SharesConserve(demand: map<string, int>, limit: real)
    requires limit >= 0.0 && (forall i :: i in demand ==> demand[i] >= 0) && Sum(demand) > 0
    ensures var out := Shares(demand, limit, Sum(demand));
            limit - |demand| as real < Sum(out) as real <= limit
    ensures forall i :: i in demand ==> Shares(demand, limit, Sum(demand))[i] >= 0
  {
    var total := Sum(demand);
    hide Scaled, ShareOf;
    assert demand != map[];
    PartialSums(demand, limit, total);
    ScaledFacts(limit, total, total);
    forall i | i in demand ensures ShareOf(limit, demand[i], total) >= 0 {
      TruncationLoss(limit, demand[i], total);
    }
  }

  lemma {:induction false} PositiveSumHasPositive(m: map<string, int>) returns (k: string)
    requires Sum(m) > 0
    ensures k in m && m[k] > 0
    decreases |m|
  {
    var k0 :| k0 in m && Sum(m) == m[k0] + Sum(m - {k0});
    assert (m - {k0}).Keys == m.Keys - {k0};
    if m[k0] > 0 {
      k := k0;
    } else {
      k := PositiveSumHasPositive(m - {k0});
    }
  }

  /** A limit of at least one byte per instance gives some instance a positive share. */
  lemma SomeShareIsPositive(demand: map<string, int>, limit: real) returns (k: string)
    requires (forall i :: i in demand ==> demand[i] >= 0) && Sum(demand) > 0 && limit >= |demand| as real
    ensures k in demand && Shares(demand, limit, Sum(demand))[k] >= 1
  {
    SharesConserve(demand, limit);
    k := PositiveSumHasPositive(Shares(demand, limit, Sum(demand)));
  }

  /** The instance's part of the limit is at least one byte. */
  predicate WorthAByte(limit: real, d: int, total: int) {
    limit * d as real >= total as real
  }

  lemma Scale(a: real, b: real, t: real)
    requires t > 0.0
    ensures a <= b ==> a * t <= b * t
    ensures a < b ==> a * t < b * t
  {
    assert b * t - a * t == (b - a) * t;
  }

  lemma PartTimesTotal(limit: real, d: real, t: real)
    requires t > 0.0
    ensures limit * (d / t) * t == limit * d
  {
    assert d / t * t == d;
  }

  lemma Between(n: real, m: real, x: real, t: real, y: real)
    requires t > 0.0 && n <= x < m && x * t == y
    ensures n * t <= y < m * t
  {
    Scale(n, x, t);
    Scale(x, m, t);
  }

  /** The exact part of an instance lies between its share and the next byte. */
  lemma ExactPart(limit: real, d: int, total: int) returns (x: real)
    requires total > 0 && limit >= 0.0 && d >= 0
    ensures ShareOf(limit, d, total) as real <= x < (ShareOf(limit, d, total) + 1) as real
    ensures x * total as real == limit * d as real
  {
    x := limit * (d as real / total as real);
    assert d as real / total as real >= 0.0;
    assert x >= 0.0;
    PartTimesTotal(limit, d as real, total as real);
  }

  /** A share is the instance's part of the limit, in proportion to its demand, rounded down to a byte. */
  lemma ShareIsProportional(limit: real, d: int, total: int)
    requires total > 0 && limit >= 0.0 && d >= 0
    ensures ShareOf(limit, d, total) as real * total as real <= limit * d as real
    ensures limit * d as real < (ShareOf(limit, d, total) + 1) as real * total as real
  {
    var x := ExactPart(limit, d, total);
    hide ShareOf;
    var n := ShareOf(limit, d, total);
    Between(n as real, (n + 1) as real, x, total as real, limit * d as real);
  }

  /** Exactly those instances get a positive share. */
  lemma ShareIsPositiveIff(limit: real, d: int, total: int)
    requires total > 0 && limit >= 0.0 && d >= 0
    ensures ShareOf(limit, d, total) >= 1 <==> WorthAByte(limit, d, total)
  {
    var x, t := limit * (d as real / total as real), total as real;
    assert x * t == limit * d as real;
    assert x >= 1.0 <==> x * t >= t;
    assert x >= 0.0;
  }

  // ---------------------------------------------------------------- compute_bandwidth_limit_share

  method TotalDemand(demand: map<string, int>) returns (total: int)
    ensures total == Sum(demand)
  {
    total := 0;
    var todo := demand;
    while todo.Keys != {}
      invariant total + Sum(todo) == Sum(demand)
      decreases |todo|
    {
      var i :| i in todo.Keys;
      SumRemove(todo, i);
      assert (todo - {i}).Keys == todo.Keys - {i};
      total := total + todo[i];
      todo := todo - {i};
    }
    assert todo == map[];
  }

  /** Every user and direction with demand gets the shares of its own limit; users without demand get no entry. */
  method ComputeShares(demand: map<DemandKey, map<string, int>>, limit: DemandKey -> real)
    returns (result: map<DemandKey, map<string, int>>)
    ensures result.Keys == set k | k in demand && Sum(demand[k]) != 0
    ensures forall k :: k in result ==> result[k] == Shares(demand[k], limit(k), Sum(demand[k]))
  {
    result := map[];
    var todo := demand.Keys;
    while todo != {}
      invariant todo <= demand.Keys
      invariant result.Keys == set k | k in demand && k !in todo && Sum(demand[k]) != 0
      invariant forall k :: k in result ==> result[k] == Shares(demand[k], limit(k), Sum(demand[k]))
      decreases todo
    {
      var key :| key in todo;
      todo := todo - {key};
      var total := TotalDemand(demand[key]);
      if total != 0 {
        result := result[key := Shares(demand[key], limit(key), total)];
      }
    }
  }

  // ---------------------------------------------------------------- delivery in any order

  /** A share message for one instance, user and direction. */
  datatype Share = Share(timestamp: nat, bytes: nat)

  function Deliver(l: DirectionLimit, msgs: seq<Share>): DirectionLimit
    decreases |msgs|
  {
    if msgs == [] then l else Deliver(Received(l, msgs[0].timestamp, msgs[0].bytes), msgs[1..])
  }

  ghost predicate NewestAt(msgs: seq<Share>, i: nat) {
    i < |msgs| && forall j :: 0 <= j < |msgs| && j != i ==> msgs[j].timestamp < msgs[i].timestamp
  }

  /** Whatever the order of arrival, the newest share is the one that is kept, cut to 32 bits. */
  lemma {:induction false} NewestWins(l: DirectionLimit, msgs: seq<Share>, i: nat)
    requires NewestAt(msgs, i) && l.limit_timestamp <= msgs[i].timestamp
    ensures Deliver(l, msgs).limit_received && Deliver(l, msgs).limit_timestamp == msgs[i].timestamp
    ensures Deliver(l, msgs).bytes_per_second
            == if msgs[i].bytes <= 0xFFFF_FFFF then msgs[i].bytes else 0xFFFF_FFFF
    ensures Deliver(l, msgs).active_requests == l.active_requests
    decreases |msgs|
  {
    var l1 := Received(l, msgs[0].timestamp, msgs[0].bytes);
    if i > 0 {
      NewestWins(l1, msgs[1..], i - 1);
    } else {
      OlderIgnored(l1, msgs[1..]);
    }
  }

  lemma {:induction false} OlderIgnored(l: DirectionLimit, msgs: seq<Share>)
    requires l.limit_received && forall j :: 0 <= j < |msgs| ==> msgs[j].timestamp < l.limit_timestamp
    ensures Deliver(l, msgs) == l
    decreases |msgs|
  {
    if msgs != [] {
      assert Received(l, msgs[0].timestamp, msgs[0].bytes) == l;
      OlderIgnored(l, msgs[1..]);
    }
  }

  lemma {:induction false} SumAtMost(a: map<string, int>, b: map<string, int>)
    requires a.Keys <= b.Keys && (forall i :: i in b ==> b[i] >= 0) && forall i :: i in a ==> a[i] <= b[i]
    ensures Sum(a) <= Sum(b)
    decreases |b|
  {
    if b != map[] {
      var k :| k in b;
      SumRemove(b, k);
      assert (b - {k}).Keys == b.Keys - {k};
      if k in a {
        SumRemove(a, k);
      } else {
        assert a == a - {k};
      }
      SumAtMost(a - {k}, b - {k});
    } else {
      assert a == map[];
    }
  }

  // ---------------------------------------------------------------- the same, inside a filter run

  /** The limit-share messages for one user and direction among the events of a run. */
  function Inbox(es: seq<Event>, key: string, d: Direction): seq<Share> {
    if es == [] then [] else
      (if es[0].Ingest? && es[0].key == key && DirectionNamed(es[0].direction) == Some(d)
       then [Share(es[0].timestamp, es[0].share)] else []) + Inbox(es[1..], key, d)
  }

  /** The user's entry survives every cleanup of the run. */
  ghost predicate Kept(expired: (nat, nat) -> bool, s: State, es: seq<Event>, key: string)
    decreases |es|
  {
    key in s.table && (es != [] && Possible(s, es[0]) && Step(expired, s, es[0]).Ok? ==>
                         Kept(expired, Step(expired, s, es[0]).s, es[1..], key))
  }

  predicate SameShare(a: DirectionLimit, b: DirectionLimit) {
    a.limit_received == b.limit_received && a.limit_timestamp == b.limit_timestamp
      && a.bytes_per_second == b.bytes_per_second
  }

  /** One section changes the stored share of (key, d) only by receiving a message for it. */
  lemma StepShare(expired: (nat, nat) -> bool, s: State, e: Event, key: string, d: Direction)
    requires Inv(s) && Possible(s, e) && Step(expired, s, e).Ok?
    requires key in s.table && key in Step(expired, s, e).s.table
    ensures var t := Step(expired, s, e).s;
            t.table[key] == s.table[key] && s.table[key] in s.pool && s.table[key] in t.pool
            && SameShare(t.pool[t.table[key]].Of(d), Deliver(s.pool[s.table[key]].Of(d), Inbox([e], key, d)))
  {
    StepInv(expired, s, e);
    var t := Step(expired, s, e).s;
    var p := s.table[key];
    var l := s.pool[p].Of(d);
    assert t.table[key] == p by { StepKeepsEntry(expired, s, e, key); }
    if e.Ingest? && e.key == key && DirectionNamed(e.direction) == Some(d) {
      var m := Share(e.timestamp, e.share);
      assert Inbox([e], key, d) == [m];
      assert Deliver(l, [m]) == Deliver(Received(l, e.timestamp, e.share), []);
    } else {
      assert Inbox([e], key, d) == [];
      OtherEventsKeepShare(expired, s, e, key, d);
    }
  }

  lemma StepKeepsEntry(expired: (nat, nat) -> bool, s: State, e: Event, key: string)
    requires Possible(s, e) && Step(expired, s, e).Ok? && key in s.table && key in Step(expired, s, e).s.table
    ensures Step(expired, s, e).s.table[key] == s.table[key]
  {
  }

  lemma OtherEventsKeepShare(expired: (nat, nat) -> bool, s: State, e: Event, key: string, d: Direction)
    requires TableOk(s) && Possible(s, e) && Step(expired, s, e).Ok? && TableOk(Step(expired, s, e).s)
    requires key in s.table && key in Step(expired, s, e).s.table
    requires Step(expired, s, e).s.table[key] == s.table[key]
    requires !(e.Ingest? && e.key == key && DirectionNamed(e.direction) == Some(d))
    ensures SameShare(Step(expired, s, e).s.pool[s.table[key]].Of(d), s.pool[s.table[key]].Of(d))
  {
    var p := s.table[key];
    match e
    case Attach(_, _, _) =>
    case Headers(_) =>
    case Payload(_, _) =>
    case Detach(_, _) =>
    case Enable(id, user, arg, cell, now) =>
      if user.Some? && !arg.Unrecognised? && !s.streams[id].enabled {
        var s1 := FindOrCreate(s, user.value, cell);
        assert s1.pool[p] == s.pool[p];
        var q := s1.table[user.value];
        assert Step(expired, s, e).s.pool[p] == s1.pool[q := s1.pool[q].Add(s.streams[id].dir, 1)][p];
      }
    case Ingest(_, k, _, _, cell) =>
      assert FindOrCreate(s, k, cell).pool[p] == s.pool[p];
      assert k != key ==> FindOrCreate(s, k, cell).table[k] != p;
  }

  lemma {:induction false} DeliverSame(a: DirectionLimit, b: DirectionLimit, msgs: seq<Share>)
    requires SameShare(a, b)
    ensures SameShare(Deliver(a, msgs), Deliver(b, msgs))
    decreases |msgs|
  {
    if msgs != [] {
      DeliverSame(Received(a, msgs[0].timestamp, msgs[0].bytes), Received(b, msgs[0].timestamp, msgs[0].bytes),
        msgs[1..]);
    }
  }

  lemma {:induction false} DeliverConcat(l: DirectionLimit, a: seq<Share>, b: seq<Share>)
    ensures Deliver(l, a + b) == Deliver(Deliver(l, a), b)
    decreases |a|
  {
    if a == [] {
      assert a + b == b;
    } else {
      assert (a + b)[1..] == a[1..] + b;
      DeliverConcat(Received(l, a[0].timestamp, a[0].bytes), a[1..], b);
    }
  }

  /** In every run that keeps the user's entry, requests starting and ending and other users' cleanups in between
      do not matter: the share stored at the end is the one the messages alone would have left. */
  lemma {:induction false} RunDelivers(expired: (nat, nat) -> bool, s: State, es: seq<Event>, key: string, d: Direction)
    requires Inv(s) && PossibleRun(expired, s, es) && Run(expired, s, es).Ok? && Kept(expired, s, es, key)
    ensures s.table[key] in s.pool
    ensures var t := Run(expired, s, es).s;
            key in t.table && t.table[key] in t.pool
            && SameShare(t.pool[t.table[key]].Of(d), Deliver(s.pool[s.table[key]].Of(d), Inbox(es, key, d)))
    decreases |es|
  {
    if es != [] {
      hide Inv, Step;
      StepInv(expired, s, es[0]);
      var t := Step(expired, s, es[0]).s;
      StepShare(expired, s, es[0], key, d);
      RunDelivers(expired, t, es[1..], key, d);
      var l := s.pool[s.table[key]].Of(d);
      DeliverSame(t.pool[t.table[key]].Of(d), Deliver(l, Inbox([es[0]], key, d)), Inbox(es[1..], key, d));
      InboxHead(es, key, d);
      DeliverConcat(l, Inbox([es[0]], key, d), Inbox(es[1..], key, d));
    } else {
      assert s.table[key] in s.pool;
    }
  }

  lemma InboxHead(es: seq<Event>, key: string, d: Direction)
    requires es != []
    ensures Inbox(es, key, d) == Inbox([es[0]], key, d) + Inbox(es[1..], key, d)
  {
    assert [es[0]][1..] == [];
  }

  // ---------------------------------------------------------------- what the filters of all instances end up holding

  function StoredBytes(s: State, key: string, d: Direction): nat {
    if key in s.table && s.table[key] in s.pool then s.pool[s.table[key]].Of(d).bytes_per_second else 0
  }

  /** A section that creates the user's entry leaves in it what its own message, if any, says. */
  lemma StepCreates(expired: (nat, nat) -> bool, s: State, e: Event, key: string, d: Direction)
    requires Possible(s, e) && Step(expired, s, e).Ok? && key !in s.table && key in Step(expired, s, e).s.table
    requires TableOk(Step(expired, s, e).s)
    ensures var t := Step(expired, s, e).s;
            SameShare(t.pool[t.table[key]].Of(d), Deliver(ZeroDirection, Inbox([e], key, d)))
  {
    assert [e][1..] == [];
    var t := Step(expired, s, e).s;
    OnlyTwoCreate(expired, s, e, key);
    if e.Enable? {
      assert t.pool[e.cell] == ZeroLimit.Add(s.streams[e.id].dir, 1);
    } else if DirectionNamed(e.direction) == Some(d) {
      var m := Share(e.timestamp, e.share);
      assert Deliver(ZeroDirection, [m]) == Deliver(Received(ZeroDirection, e.timestamp, e.share), []);
    }
  }

  lemma OnlyTwoCreate(expired: (nat, nat) -> bool, s: State, e: Event, key: string)
    requires Possible(s, e) && Step(expired, s, e).Ok? && key !in s.table && key in Step(expired, s, e).s.table
    ensures (e.Enable? && e.user == Some(key)) || (e.Ingest? && e.key == key)
    ensures Step(expired, s, e).s.table[key] == e.cell
  {
  }

  ghost predicate Older(msgs: seq<Share>, timestamp: nat) {
    forall j :: 0 <= j < |msgs| ==> msgs[j].timestamp < timestamp
  }

  /** Whatever is stored for the user is no newer than the timestamp. */
  ghost predicate StoredOlder(s: State, key: string, d: Direction, timestamp: nat) {
    key in s.table && s.table[key] in s.pool ==> s.pool[s.table[key]].Of(d).limit_timestamp <= timestamp
  }

  lemma {:induction false} DeliverOlder(l: DirectionLimit, msgs: seq<Share>, timestamp: nat)
    requires l.limit_timestamp <= timestamp && Older(msgs, timestamp)
    ensures Deliver(l, msgs).limit_timestamp <= timestamp
    decreases |msgs|
  {
    if msgs != [] {
      DeliverOlder(Received(l, msgs[0].timestamp, msgs[0].bytes), msgs[1..], timestamp);
    }
  }

  lemma StepStoredOlder(expired: (nat, nat) -> bool, s: State, e: Event, key: string, d: Direction, timestamp: nat)
    requires Inv(s) && Possible(s, e) && Step(expired, s, e).Ok?
    requires StoredOlder(s, key, d, timestamp) && Older(Inbox([e], key, d), timestamp)
    ensures StoredOlder(Step(expired, s, e).s, key, d, timestamp)
  {
    StepInv(expired, s, e);
    var t := Step(expired, s, e).s;
    assert TableOk(t);
    hide Inv, Step;
    if key in t.table {
      if key in s.table {
        StepShare(expired, s, e, key, d);
        DeliverOlder(s.pool[s.table[key]].Of(d), Inbox([e], key, d), timestamp);
      } else {
        StepCreates(expired, s, e, key, d);
        DeliverOlder(ZeroDirection, Inbox([e], key, d), timestamp);
      }
    }
  }

  lemma {:induction false} RunStoredOlder(expired: (nat, nat) -> bool, s: State, es: seq<Event>, key: string,
                                          d: Direction, timestamp: nat)
    requires Inv(s) && PossibleRun(expired, s, es) && Run(expired, s, es).Ok?
    requires StoredOlder(s, key, d, timestamp) && Older(Inbox(es, key, d), timestamp)
    ensures StoredOlder(Run(expired, s, es).s, key, d, timestamp)
    decreases |es|
  {
    if es != [] {
      hide Inv, Step, StoredOlder;
      InboxHead(es, key, d);
      OlderParts(Inbox([es[0]], key, d), Inbox(es[1..], key, d), timestamp);
      StepInv(expired, s, es[0]);
      StepStoredOlder(expired, s, es[0], key, d, timestamp);
      RunStoredOlder(expired, Step(expired, s, es[0]).s, es[1..], key, d, timestamp);
    }
  }

  lemma OlderParts(a: seq<Share>, b: seq<Share>, timestamp: nat)
    requires Older(a + b, timestamp)
    ensures Older(a, timestamp) && Older(b, timestamp)
  {
    forall j | 0 <= j < |a| ensures a[j].timestamp < timestamp {
      assert (a + b)[j] == a[j];
    }
    forall j | 0 <= j < |b| ensures b[j].timestamp < timestamp {
      assert (a + b)[|a| + j] == b[j];
    }
  }

  /** One instance's filter: anything, then the newest share message, then anything. */
  datatype History = History(before: seq<Event>, newest: Event, after: seq<Event>)

  ghost predicate Happens(expired: (nat, nat) -> bool, h: History) {
    && PossibleRun(expired, Start, h.before) && Run(expired, Start, h.before).Ok?
    && var s := Run(expired, Start, h.before).s;
       && Possible(s, h.newest) && Step(expired, s, h.newest).Ok?
       && PossibleRun(expired, Step(expired, s, h.newest).s, h.after)
       && Run(expired, Step(expired, s, h.newest).s, h.after).Ok?
  }

  ghost function After(expired: (nat, nat) -> bool, h: History): State
    requires Happens(expired, h)
  {
    Run(expired, Step(expired, Run(expired, Start, h.before).s, h.newest).s, h.after).s
  }

  /** The newest message carries this share, all other messages for the user are older, and the user's entry is not
      cleaned up after it; what cleanups did before it makes no difference. */
  ghost predicate Delivered(expired: (nat, nat) -> bool, key: string, d: Direction, m: Share, h: History) {
    && Happens(expired, h)
    && h.newest.Ingest? && h.newest.key == key && DirectionNamed(h.newest.direction) == Some(d)
    && m == Share(h.newest.timestamp, h.newest.share)
    && Older(Inbox(h.before, key, d), m.timestamp) && Older(Inbox(h.after, key, d), m.timestamp)
    && Kept(expired, Step(expired, Run(expired, Start, h.before).s, h.newest).s, h.after, key)
  }

  /** Right after its arrival the newest share is the stored one. */
  lemma NewestIsStored(expired: (nat, nat) -> bool, s: State, e: Event, key: string, d: Direction)
    requires Inv(s) && Possible(s, e) && Step(expired, s, e).Ok?
    requires e.Ingest? && e.key == key && DirectionNamed(e.direction) == Some(d) && StoredOlder(s, key, d, e.timestamp)
    ensures var t := Step(expired, s, e).s;
            && key in t.table && t.table[key] in t.pool
            && SameShare(t.pool[t.table[key]].Of(d), DirectionLimit(true, e.timestamp, Clamp(e.share), 0))
  {
  }

  /** Then the instance's filter holds the newest share at the end. */
  lemma HistoryStores(expired: (nat, nat) -> bool, key: string, d: Direction, m: Share, h: History)
    requires Delivered(expired, key, d, m, h)
    ensures StoredBytes(After(expired, h), key, d) == if m.bytes <= 0xFFFF_FFFF then m.bytes else 0xFFFF_FFFF
  {
    StartInv();
    RunIsSafe(expired, Start, h.before);
    var s := Run(expired, Start, h.before).s;
    RunStoredOlder(expired, Start, h.before, key, d, m.timestamp);
    NewestIsStored(expired, s, h.newest, key, d);
    StepInv(expired, s, h.newest);
    hide Inv, Step;
    var t := Step(expired, s, h.newest).s;
    var l := t.pool[t.table[key]].Of(d);
    RunDelivers(expired, t, h.after, key, d);
    OlderIgnored(l, Inbox(h.after, key, d));
  }

  /** Whatever the filters of all instances went through, from their start: the instances named in the newest round
      together hold at most the user's limit, and each holds its own share, cut to 32 bits. */
  lemma FiltersConserveLimit(expired: (nat, nat) -> bool, demand: map<string, int>, limit: real, timestamp: nat,
                             key: string, d: Direction, hist: map<string, History>)
    requires limit >= 0.0 && (forall i :: i in demand ==> demand[i] >= 0) && Sum(demand) > 0
    requires var out := Shares(demand, limit, Sum(demand));
             forall i :: i in out && out[i] > 0 ==>
               i in hist && Delivered(expired, key, d, Share(timestamp, out[i]), hist[i])
    ensures var out := Shares(demand, limit, Sum(demand));
            && (forall i :: i in out && out[i] > 0 ==>
                  StoredBytes(After(expired, hist[i]), key, d) == if out[i] <= 0xFFFF_FFFF then out[i] else 0xFFFF_FFFF)
            && Sum(map i | i in out && out[i] > 0 :: StoredBytes(After(expired, hist[i]), key, d)) as real <= limit
  {
    var out := Shares(demand, limit, Sum(demand));
    SharesConserve(demand, limit);
    hide Shares, Sum, Delivered, After;
    forall i | i in out && out[i] > 0 ensures StoredBytes(After(expired, hist[i]), key, d) == Clamp(out[i]) {
      HistoryStores(expired, key, d, Share(timestamp, out[i]), hist[i]);
    }
    var stored: map<string, int> := map i | i in out && out[i] > 0 :: StoredBytes(After(expired, hist[i]), key, d);
    SumAtMost(stored, out);
  }
}
