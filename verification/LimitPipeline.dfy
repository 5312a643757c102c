/** The limit-share loop end to end: connection counts from Redis become demand, demand becomes shares, shares become
    a message, and the message becomes the updates every instance receives. */
module LimitPipeline {
  import opened Common
  import Text
  import Wire
  import opened LimitShare
  import opened LimitMessage

  // ---------------------------------------------------------------- aggregate_demand_from_conn_v2

  /** A Redis connection key with its count; None when the key expired before it was read. */
  datatype Conn = Conn(key: string, count: Option<int>)

  datatype Outcome = Done | Stopped | Raised

  type DemandMap = map<(string, string), map<string, int>>

  function DemandOf(d: DemandMap, user: string, direction: string, instance: string): int {
    if (user, direction) in d && instance in d[(user, direction)] then d[(user, direction)][instance] else 0
  }

  function AddDemand(d: DemandMap, k: Wire.Demand, n: int): DemandMap {
    var id := (k.user, k.direction);
    var old_ := if id in d then d[id] else map[];
    d[id := old_[k.instance := (if k.instance in old_ then old_[k.instance] else 0) + n]]
  }

  predicate Readable(c: Conn) {
    c.count.Some? ==> Wire.ParseDemand(c.key).Parsed?
  }

  /** What the connections say about one user, direction and instance, whatever the endpoints. */
  function Reported(cs: seq<Conn>, user: string, direction: string, instance: string): int {
    if cs == [] then 0 else
    var c := cs[|cs| - 1];
    Reported(cs[..|cs| - 1], user, direction, instance)
    + (if c.count.Some? && Wire.ParseDemand(c.key) == Wire.Parsed(Wire.Demand(user, direction, instance))
       then c.count.value else 0)
  }

  /** The loop completes exactly when every key that still has a count is well formed; a short key ends it quietly and
      any other malformed key raises. Each demand is the sum of the counts reported for it by the `n` keys read, which
      the caller goes on to use also when a short key has cut the loop off. */
  method AggregateDemand(cs: seq<Conn>) returns (demand: DemandMap, outcome: Outcome, n: nat)
    ensures n <= |cs| && forall i :: 0 <= i < n ==> Readable(cs[i])
    ensures outcome.Done? <==> n == |cs|
    ensures outcome.Stopped? <==> n < |cs| && cs[n].count.Some? && Wire.ParseDemand(cs[n].key).TooShort?
    ensures outcome.Raised? <==> n < |cs| && cs[n].count.Some? && Wire.ParseDemand(cs[n].key).Raises?
    ensures forall u, d, i :: DemandOf(demand, u, d, i) == Reported(cs[..n], u, d, i)
  {
    demand := map[];
    n := 0;
    while n < |cs|
      invariant 0 <= n <= |cs|
      invariant forall i :: 0 <= i < n ==> Readable(cs[i])
      invariant forall u, d, i :: DemandOf(demand, u, d, i) == Reported(cs[..n], u, d, i)
    {
      hide Wire.ParseDemand;
      var c := cs[n];
      assert cs[..n + 1][..n] == cs[..n];
      if c.count.Some? {
        var parsed := Wire.ParseDemand(c.key);
        if parsed.TooShort? {
          return demand, Stopped, n;
        }
        if parsed.Raises? {
          return demand, Raised, n;
        }
        AddDemandIs(demand, parsed.d, c.count.value);
        demand := AddDemand(demand, parsed.d, c.count.value);
      }
      n := n + 1;
    }
    return demand, Done, n;
  }

  lemma AddDemandIs(d: DemandMap, k: Wire.Demand, n: int)
    ensures forall u, dir, i :: DemandOf(AddDemand(d, k, n), u, dir, i)
                                == DemandOf(d, u, dir, i) + (if Wire.Demand(u, dir, i) == k then n else 0)
  {
  }

  /** Every key that is read adds to the demand: no count replaces another. */
  lemma {:induction false} ReportedAdds(a: seq<Conn>, b: seq<Conn>, user: string, direction: string, instance: string)
    ensures Reported(a + b, user, direction, instance)
            == Reported(a, user, direction, instance) + Reported(b, user, direction, instance)
    decreases |b|
  {
    if b == [] {
      assert a + b == a;
    } else {
      var n := |b| - 1;
      assert (a + b)[..|a + b| - 1] == a + b[..n];
      ReportedAdds(a, b[..n], user, direction, instance);
    }
  }

  /** Keys built by the syslog server from clean fields are counted for exactly the user, direction and instance they
      were built from. */
  lemma BuiltKeyCounts(direction: string, instance: string, user: string, endpoint: string, n: int)
    requires Wire.UnderscoreFree(direction, instance, user, endpoint) && '$' !in user
    requires direction == "up" || direction == "dwn"
    ensures forall u, d, i :: Reported([Conn(Wire.ConnKey(direction, instance, user, endpoint), Some(n))], u, d, i)
                              == if (u, d, i) == (user, direction, instance) then n else 0
  {
    Wire.DemandRoundTrip(direction, instance, user, endpoint);
    var c := Conn(Wire.ConnKey(direction, instance, user, endpoint), Some(n));
    assert [c][..0] == [];
  }

  /** A key is too short exactly when it has fewer than five underscores, so no key that the syslog server builds is. */
  lemma ShortIff(key: string)
    ensures Wire.ParseDemand(key).TooShort? <==> Text.CountOf('_', key) < 5
  {
    Text.SplitCount(key, '_');
  }

  /** A key built by the syslog server from any fields never stops the loop quietly; it raises exactly when a field
      holds an underscore or the direction is unknown. */
  lemma BuiltKeyRaisesIff(direction: string, instance: string, user: string, endpoint: string)
    ensures var parsed := Wire.ParseDemand(Wire.ConnKey(direction, instance, user, endpoint));
            && !parsed.TooShort?
            && (parsed.Raises? <==> !Wire.UnderscoreFree(direction, instance, user, endpoint)
                                    || (direction != "up" && direction != "dwn"))
  {
    Wire.ConnItemsSurvive(direction, instance, user, endpoint);
    hide Text.Split, Wire.ConnKey;
  }

  /** A short key hides the demand of every key read after it, although the round goes on with what was collected. */
  lemma ShortKeyHidesDemand(short: string, n: int, direction: string, instance: string, user: string, endpoint: string,
                            count: int)
    requires Text.CountOf('_', short) < 5
    requires Wire.UnderscoreFree(direction, instance, user, endpoint) && '$' !in user
    requires direction == "up" || direction == "dwn"
    ensures var cs := [Conn(short, Some(n)), Conn(Wire.ConnKey(direction, instance, user, endpoint), Some(count))];
            && cs[0].count.Some? && Wire.ParseDemand(cs[0].key).TooShort?
            && Reported(cs[..0], user, direction, instance) == 0 && Reported(cs, user, direction, instance) == count
  {
    var c0, c1 := Conn(short, Some(n)), Conn(Wire.ConnKey(direction, instance, user, endpoint), Some(count));
    ShortIff(short);
    Wire.DemandRoundTrip(direction, instance, user, endpoint);
    hide Wire.ParseDemand, Wire.ConnKey;
    assert [c0, c1][..1] == [c0] && [c0][..0] == [] && [c0, c1][..0] == [];
    assert Reported([c0], user, direction, instance) == 0;
  }

  // ---------------------------------------------------------------- shares to message to updates

  /** The entry lists the computed shares, each instance once with its own. */
  ghost predicate Lists(e: Entry, shares: map<string, int>) {
    && (forall i :: 0 <= i < |e.shares| ==> e.shares[i].0 in shares && shares[e.shares[i].0] == e.shares[i].1)
    && (forall k :: k in shares ==> exists i :: 0 <= i < |e.shares| && e.shares[i].0 == k)
    && (forall i, j :: 0 <= i < j < |e.shares| ==> e.shares[i].0 != e.shares[j].0)
  }

  /** Some instance's part of the limit is at least one byte. */
  ghost predicate Funded(demand: map<string, int>, limit: real) {
    exists i :: i in demand && WorthAByte(limit, demand[i], Sum(demand))
  }

  ghost predicate DemandOk(demand: map<string, int>) {
    (forall i :: i in demand ==> demand[i] >= 0) && Sum(demand) > 0
  }

  /** An entry has something to print exactly when its user is funded. */
  lemma HasSharesIff(e: Entry, demand: map<string, int>, limit: real)
    requires DemandOk(demand) && limit >= 0.0 && Lists(e, Shares(demand, limit, Sum(demand)))
    ensures HasShares(e) <==> Funded(demand, limit)
  {
    hide Sum, ShareOf, HasShares, WorthAByte;
    var total := Sum(demand);
    forall i | i in demand ensures ShareOf(limit, demand[i], total) >= 1 <==> WorthAByte(limit, demand[i], total) {
      ShareIsPositiveIff(limit, demand[i], total);
    }
    if HasShares(e) {
      var i := PrintedShareIsPositive(e);
      assert e.shares[i].0 in demand;
    }
    if Funded(demand, limit) {
      var k :| k in demand && WorthAByte(limit, demand[k], total);
      assert k in Shares(demand, limit, total);
      var i :| 0 <= i < |e.shares| && e.shares[i].0 == k;
      PositiveShareIsPrinted(e.direction, e.shares, i);
      assert HasShares(e) by { EntryHasShares(e); }
    }
  }

  lemma EntryHasShares(e: Entry)
    ensures HasShares(e) <==> ShareTexts(e.direction, e.shares) != []
  {
  }

  /** One entry per user and direction, listing the shares of its demand and limit. */
  ghost predicate Computed(es: seq<Entry>, demands: seq<map<string, int>>, limits: seq<real>) {
    && |es| == |demands| == |limits|
    && forall j :: 0 <= j < |es| ==>
         EntryOk(es[j]) && DemandOk(demands[j]) && limits[j] >= 0.0
         && Lists(es[j], Shares(demands[j], limits[j], Sum(demands[j])))
  }

  /** The message delivers exactly the positive shares if and only if no user without a byte for any instance is printed
      before one that is funded; and each user's computed shares add up to at most its limit and miss it by less than
      its number of instances. */
  lemma SharesArriveIff(epoch_ms: nat, es: seq<Entry>, demands: seq<map<string, int>>, limits: seq<real>)
    requires Computed(es, demands, limits)
    ensures Ingest(Top, Lines(PrintMessage(epoch_ms, es))) == WantedAll(epoch_ms, es) <==>
              forall i, j :: 0 <= i < j < |es| && !Funded(demands[i], limits[i]) ==> !Funded(demands[j], limits[j])
    ensures forall j :: 0 <= j < |es| ==>
              limits[j] - |demands[j]| as real < Sum(Shares(demands[j], limits[j], Sum(demands[j]))) as real
                <= limits[j]
  {
    hide Shares, Sum, EntryOk, Lists, HasShares, Ingest, Lines, PrintMessage, WantedAll, Funded;
    forall j | 0 <= j < |es|
      ensures HasShares(es[j]) <==> Funded(demands[j], limits[j])
      ensures limits[j] - |demands[j]| as real < Sum(Shares(demands[j], limits[j], Sum(demands[j]))) as real
                <= limits[j]
    {
      HasSharesIff(es[j], demands[j], limits[j]);
      SharesConserve(demands[j], limits[j]);
    }
    MessageRoundTrip(epoch_ms, es);
  }

  /** In particular when every limit covers its number of instances. */
  lemma SharesArrive(epoch_ms: nat, es: seq<Entry>, demands: seq<map<string, int>>, limits: seq<real>)
    requires Computed(es, demands, limits)
    requires forall j :: 0 <= j < |es| ==> limits[j] >= |demands[j]| as real
    ensures Ingest(Top, Lines(PrintMessage(epoch_ms, es))) == WantedAll(epoch_ms, es)
  {
    hide Shares, Sum, EntryOk, Lists, Ingest, Lines, PrintMessage, WantedAll, Funded;
    forall j | 0 <= j < |es| ensures Funded(demands[j], limits[j]) {
      CoveredIsFunded(demands[j], limits[j]);
    }
    SharesArriveIff(epoch_ms, es, demands, limits);
  }

  lemma CoveredIsFunded(demand: map<string, int>, limit: real)
    requires DemandOk(demand) && limit >= |demand| as real
    ensures Funded(demand, limit)
  {
    hide Sum, ShareOf, WorthAByte;
    var k := SomeShareIsPositive(demand, limit);
    assert Shares(demand, limit, Sum(demand))[k] == ShareOf(limit, demand[k], Sum(demand));
    ShareIsPositiveIff(limit, demand[k], Sum(demand));
  }

  /** A user whose configured limit is 0 silences every user printed after it. */
  lemma ZeroLimitSilencesRest(epoch_ms: nat, es: seq<Entry>, demands: seq<map<string, int>>, limits: seq<real>)
    requires Computed(es, demands, limits) && |es| >= 2 && limits[0] == 0.0 && Funded(demands[1], limits[1])
    ensures Ingest(Top, Lines(PrintMessage(epoch_ms, es))) == [] && WantedAll(epoch_ms, es) != []
  {
    hide Shares, Sum, EntryOk, Lists, HasShares, Ingest, Lines, PrintMessage, WantedAll;
    HasSharesIff(es[0], demands[0], limits[0]);
    HasSharesIff(es[1], demands[1], limits[1]);
    MessageDelivers(epoch_ms, es);
    NoSharesNothingWanted(epoch_ms, es);
    NothingFromNothing(epoch_ms);
  }

  lemma OneInstance(k: string, n: int)
    ensures Sum(map[k := n]) == n
  {
    SumRemove(map[k := n], k);
    assert map[k := n] - {k} == map[];
  }

  /** One user with one busy instance: the whole limit, if it is a number of bytes, goes to that instance. */
  lemma OneBusyInstance(user: string, direction: string, instance: string, limit: nat)
    ensures var demand := map[instance := 1];
            && DemandOk(demand) && Lists(Entry(user, direction, [(instance, limit)]), Shares(demand, limit as real, 1))
            && (limit > 0 ==> Funded(demand, limit as real))
  {
    var demand := map[instance := 1];
    OneInstance(instance, 1);
    hide Sum;
    assert ShareOf(limit as real, 1, 1) == limit;
    assert Shares(demand, limit as real, 1) == map[instance := limit];
    assert [(instance, limit)][0].0 == instance;
    assert instance in demand && (limit > 0 ==> WorthAByte(limit as real, demand[instance], 1));
  }

  /** For example: two users on one instance, the first with a limit of 0. */
  lemma ZeroLimitExample(epoch_ms: nat)
    ensures var es := [Entry("a", "up", [("i", 0)]), Entry("b", "up", [("i", 5)])];
            Ingest(Top, Lines(PrintMessage(epoch_ms, es))) == []
            && WantedAll(epoch_ms, es) == [Update(epoch_ms, "b", "i", "up", 5)]
  {
    var e0, e1 := Entry("a", "up", [("i", 0)]), Entry("b", "up", [("i", 5)]);
    var demand := map["i" := 1];
    ExampleEntries(epoch_ms, e0, e1);
    OneInstance("i", 1);
    OneBusyInstance("a", "up", "i", 0);
    OneBusyInstance("b", "up", "i", 5);
    hide Sum, Shares, Lists, EntryOk, Ingest, Lines, PrintMessage, Funded, WantedAll;
    assert Computed([e0, e1], [demand, demand], [0.0, 5.0]);
    ZeroLimitSilencesRest(epoch_ms, [e0, e1], [demand, demand], [0.0, 5.0]);
  }

  lemma ExampleEntries(epoch_ms: nat, e0: Entry, e1: Entry)
    requires e0 == Entry("a", "up", [("i", 0)]) && e1 == Entry("b", "up", [("i", 5)])
    ensures EntryOk(e0) && EntryOk(e1) && WantedAll(epoch_ms, [e0, e1]) == [Update(epoch_ms, "b", "i", "up", 5)]
  {
    assert [("i", 0)][1..] == [] && [("i", 5)][1..] == [] && [e0, e1][1..] == [e1] && [e1][1..] == [];
    assert Wanted(epoch_ms, "a", "up", [("i", 0)]) == [];
    assert Wanted(epoch_ms, "b", "up", [("i", 5)]) == [Update(epoch_ms, "b", "i", "up", 5)];
    assert WantedAll(epoch_ms, [e1]) == [Update(epoch_ms, "b", "i", "up", 5)];
  }

  lemma NothingFromNothing(epoch_ms: nat)
    ensures WantedAll(epoch_ms, []) == []
  {
  }
}
