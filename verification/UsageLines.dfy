/** What the lines that the filter logs mean for Redis, and what polygen reads out of the hash keys. */
module UsageLines {
  import opened Common
  import opened Text
  import opened Decimal
  import opened Wire
  import StringSplit
  import opened Batching

  // ---------------------------------------------------------------- tokens of a printed line

  predicate TildeFreeAll(ts: seq<string>) {
    forall i :: 0 <= i < |ts| ==> '~' !in ts[i]
  }

  lemma TildeFreeSeparates(ts: seq<string>)
    requires TildeFreeAll(ts) && |ts| >= 1
    ensures Separable(ts, "~|~")
  {
    forall i | 0 <= i < |ts| ensures Clean(ts[i], "~|~") && Free(ts[i], "~|~") {
      NoFirstChar(ts[i], "~|~");
    }
    hide Clean, Free;
  }

  lemma Prefix(a: string, b: string)
    ensures a <= a + b
  {
  }

  /** A line printed from fields without `~` is cut back into them, and starts with its own prefix. */
  lemma LineTokens(name: string, rest: seq<string>)
    requires '~' !in name && TildeFreeAll(rest) && |rest| >= 1
    ensures ParseTokens(Join([name] + rest, "~|~"), 1 + |rest|) == Some([name] + rest)
    ensures name + "~|~" <= Join([name] + rest, "~|~")
  {
    hide ParseTokens, Separable, Join, TildeFreeAll;
    TildeFreeCons(name, rest);
    TildeFreeSeparates([name] + rest);
    TokensRoundTrip([name] + rest);
    JoinCons(name, rest, "~|~");
    Prefix(name + "~|~", Join(rest, "~|~"));
  }

  lemma TildeFreeCons(name: string, rest: seq<string>)
    requires '~' !in name && TildeFreeAll(rest)
    ensures TildeFreeAll([name] + rest)
  {
  }

  /** The dispatch looks at the prefix, and no prefix starts another. */
  lemma Dispatch(raw: string, endpoint: string, t1: nat, t2: nat)
    ensures "req~|~" <= raw ==> Decode(raw, endpoint, t1, t2) == DecodeReq(raw, endpoint, t1, t2)
    ensures "data_xfer~|~" <= raw ==> Decode(raw, endpoint, t1, t2) == DecodeDataXfer(raw, t1)
    ensures "active_reqs~|~" <= raw ==> Decode(raw, endpoint, t1, t2) == DecodeActive(raw, endpoint)
    ensures "req_end~|~" <= raw ==> Decode(raw, endpoint, t1, t2) == DecodeReqEnd(raw, endpoint)
  {
    hide DecodeReq, DecodeDataXfer, DecodeActive, DecodeReqEnd;
    assert "req_end~|~" <= raw ==> raw[3] == '_' && raw[0] == 'r';
    assert "req~|~" <= raw ==> raw[3] == '~' && raw[0] == 'r';
    assert "data_xfer~|~" <= raw ==> raw[0] == 'd';
    assert "active_reqs~|~" <= raw ==> raw[0] == 'a';
  }

  // ---------------------------------------------------------------- what each line means

  lemma ConnKeyText(direction: string, instance: string, user: string, endpoint: string)
    ensures ConnKey(direction, instance, user, endpoint)
            == "conn_v2_user_" + direction + "_" + instance + "_" + user + "$" + endpoint
  {
    var last := user + "$" + endpoint;
    JoinCons(instance, [last], "_");
    JoinCons(direction, [instance, last], "_");
    JoinCons("user", [direction, instance, last], "_");
    JoinCons("v2", ["user", direction, instance, last], "_");
    JoinCons("conn", ["v2", "user", direction, instance, last], "_");
    assert [instance] + [last] == [instance, last];
    assert [direction] + [instance, last] == [direction, instance, last];
    assert ["user"] + [direction, instance, last] == ["user", direction, instance, last];
    assert ["v2"] + ["user", direction, instance, last] == ["v2", "user", direction, instance, last];
    assert ["conn"] + ["v2", "user", direction, instance, last] == ConnItems(direction, instance, user, endpoint);
    assert Join([last], "_") == last;
    hide Join;
    ConnPieces(direction, instance, user, endpoint);
  }

  lemma ConnPieces(direction: string, instance: string, user: string, endpoint: string)
    ensures "conn" + "_"
            + ("v2" + "_" + ("user" + "_" + (direction + "_" + (instance + "_" + (user + "$" + endpoint)))))
            == "conn_v2_user_" + direction + "_" + instance + "_" + user + "$" + endpoint
  {
    var rest := instance + "_" + (user + "$" + endpoint);
    assert "conn" + "_" + ("v2" + "_" + ("user" + "_")) == "conn_v2_user_";
    Chain("conn" + "_", "v2" + "_", "user" + "_", direction + "_" + rest);
    Assoc("conn_v2_user_", direction, "_", rest);
    Assoc("conn_v2_user_" + direction + "_", instance, "_", user + "$" + endpoint);
    Assoc("conn_v2_user_" + direction + "_" + instance + "_", user, "$", endpoint);
  }

  lemma Chain(a: string, b: string, c: string, d: string)
    ensures a + (b + (c + d)) == a + (b + c) + d
  {
  }

  lemma Assoc(a: string, b: string, c: string, d: string)
    ensures a + (b + c + d) == a + b + c + d
  {
  }

  /** A `req` line counts one request of its class, if it has one, and one of its verb, and sets the active count. */
  lemma ReqLineMeans(endpoint: string, addr: string, user: string, verb: string, direction: string, instance: string,
                     n: int, request_class: string, t1: nat, t2: nat)
    requires TildeFreeAll([addr, user, verb, direction, instance, request_class]) && INT_MIN <= n <= INT_MAX
    requires forall c :: c in user ==> ' ' <= c <= '~'
    ensures var raw := Join(["req", addr, user, verb, direction, instance, PrintInt(n), request_class], "~|~");
            Decode(raw, endpoint, t1, t2)
            == Delta((if request_class == "" then []
                      else [Inc(CmdKey("user_" + user, t1 / 1_000_000_000, request_class), t1, 1)])
                     + [Inc(CmdKey("user_" + user, t2 / 1_000_000_000, verb), t2, 1)],
                     Some(("conn_v2_user_" + direction + "_" + instance + "_" + user + "$" + endpoint, n)), true)
  {
    var fields := [addr, user, verb, direction, instance, request_class];
    forall i | 0 <= i < |fields| ensures '~' !in fields[i] {
    }
    var rest := [addr, user, verb, direction, instance, PrintInt(n), request_class];
    PrintIntHasNo(n, '~');
    assert fields[0] == addr && fields[1] == user && fields[2] == verb && fields[3] == direction;
    assert fields[4] == instance && fields[5] == request_class;
    FromCharsPrinted(n);
    hide PrintInt, FromChars, ParseTokens, Join, ConnKey, Decode;
    LineTokens("req", rest);
    var ts := ["req", addr, user, verb, direction, instance, PrintInt(n), request_class];
    assert ["req"] + rest == ts && "req" + "~|~" == "req~|~";
    assert forall i :: 0 <= i < |user| ==> user[i] in user;
    Dispatch(Join(ts, "~|~"), endpoint, t1, t2);
    ConnKeyText(direction, instance, user, endpoint);
  }

  /** A `data_xfer` line charges its bytes to the user's bandwidth of its direction. */
  lemma DataXferLineMeans(endpoint: string, addr: string, user: string, direction: string, n: int, t1: nat, t2: nat)
    requires TildeFreeAll([addr, user, direction]) && user != "" && INT_MIN <= n <= INT_MAX
    requires forall c :: c in user ==> ' ' <= c <= '~'
    ensures var raw := Join(["data_xfer", addr, user, direction, PrintInt(n)], "~|~");
            Decode(raw, endpoint, t1, t2)
            == Delta([Inc(CmdKey("user_" + user, t1 / 1_000_000_000, "bnd_" + direction), t1, n)], None, true)
  {
    var fields := [addr, user, direction];
    assert fields[0] == addr && fields[1] == user && fields[2] == direction;
    var rest := [addr, user, direction, PrintInt(n)];
    PrintIntHasNo(n, '~');
    FromCharsPrinted(n);
    hide PrintInt, FromChars, ParseTokens, Join, Decode;
    LineTokens("data_xfer", rest);
    var ts := ["data_xfer", addr, user, direction, PrintInt(n)];
    assert ["data_xfer"] + rest == ts && "data_xfer" + "~|~" == "data_xfer~|~";
    assert forall i :: 0 <= i < |user| ==> user[i] in user;
    Dispatch(Join(ts, "~|~"), endpoint, t1, t2);
  }

  /** An `active_reqs` line sets the active count of its connection key. */
  lemma ActiveLineMeans(endpoint: string, instance: string, user: string, direction: string, n: int, t1: nat, t2: nat)
    requires TildeFreeAll([instance, user, direction]) && INT_MIN <= n <= INT_MAX
    ensures var raw := Join(["active_reqs", instance, user, direction, PrintInt(n)], "~|~");
            Decode(raw, endpoint, t1, t2)
            == Delta([], Some(("conn_v2_user_" + direction + "_" + instance + "_" + user + "$" + endpoint, n)), true)
  {
    var fields := [instance, user, direction];
    assert fields[0] == instance && fields[1] == user && fields[2] == direction;
    var rest := [instance, user, direction, PrintInt(n)];
    PrintIntHasNo(n, '~');
    FromCharsPrinted(n);
    hide PrintInt, FromChars, ParseTokens, Join, ConnKey, Decode;
    LineTokens("active_reqs", rest);
    var ts := ["active_reqs", instance, user, direction, PrintInt(n)];
    assert ["active_reqs"] + rest == ts && "active_reqs" + "~|~" == "active_reqs~|~";
    Dispatch(Join(ts, "~|~"), endpoint, t1, t2);
    ConnKeyText(direction, instance, user, endpoint);
  }

  /** A `req_end` line sets the active count of its connection key. */
  lemma ReqEndLineMeans(endpoint: string, addr: string, user: string, verb: string, direction: string, instance: string,
                        n: int, t1: nat, t2: nat)
    requires TildeFreeAll([addr, user, verb, direction, instance]) && INT_MIN <= n <= INT_MAX
    ensures var raw := Join(["req_end", addr, user, verb, direction, instance, PrintInt(n)], "~|~");
            Decode(raw, endpoint, t1, t2)
            == Delta([], Some(("conn_v2_user_" + direction + "_" + instance + "_" + user + "$" + endpoint, n)), true)
  {
    var fields := [addr, user, verb, direction, instance];
    assert fields[0] == addr && fields[1] == user && fields[2] == verb;
    assert fields[3] == direction && fields[4] == instance;
    var rest := [addr, user, verb, direction, instance, PrintInt(n)];
    PrintIntHasNo(n, '~');
    FromCharsPrinted(n);
    hide PrintInt, FromChars, ParseTokens, Join, ConnKey, Decode;
    LineTokens("req_end", rest);
    var ts := ["req_end", addr, user, verb, direction, instance, PrintInt(n)];
    assert ["req_end"] + rest == ts && "req_end" + "~|~" == "req_end~|~";
    Dispatch(Join(ts, "~|~"), endpoint, t1, t2);
    ConnKeyText(direction, instance, user, endpoint);
  }

  /** A line with another prefix, with another number of tokens, without a number where one is due, with an unprintable
      user or, for a transfer, without a user means nothing and is not counted. */
  lemma RefusedLines(raw: string, endpoint: string, t1: nat, t2: nat)
    ensures !("req~|~" <= raw) && !("data_xfer~|~" <= raw) && !("active_reqs~|~" <= raw) && !("req_end~|~" <= raw) ==>
              Decode(raw, endpoint, t1, t2) == Delta([], None, false)
    ensures "req~|~" <= raw && Refused(raw, 8, 6, 2) ==> Decode(raw, endpoint, t1, t2) == Delta([], None, false)
    ensures "data_xfer~|~" <= raw && (Refused(raw, 5, 4, 2) || StringSplit.Token(raw, "~|~", 2) == "") ==>
              Decode(raw, endpoint, t1, t2) == Delta([], None, false)
    ensures "active_reqs~|~" <= raw && RefusedNumber(raw, 5, 4)
            ==> Decode(raw, endpoint, t1, t2) == Delta([], None, false)
    ensures "req_end~|~" <= raw && RefusedNumber(raw, 7, 6) ==> Decode(raw, endpoint, t1, t2) == Delta([], None, false)
  {
    Dispatch(raw, endpoint, t1, t2);
    PrintableSpelled(StringSplit.Token(raw, "~|~", 2));
    hide FromChars, StringSplit.Token, StringSplit.Finished, Printable, ConnKey;
  }

  /** Not exactly n tokens, or no number in token i. */
  predicate RefusedNumber(raw: string, n: nat, i: nat) {
    !StringSplit.Finished(raw, "~|~", n) || FromChars(StringSplit.Token(raw, "~|~", i)).None?
  }

  /** Or an unprintable user in token u. */
  predicate Refused(raw: string, n: nat, i: nat, u: nat) {
    RefusedNumber(raw, n, i) || !(forall c :: c in StringSplit.Token(raw, "~|~", u) ==> ' ' <= c <= '~')
  }

  // ---------------------------------------------------------------- two runs

  /** A transfer whose line is followed by a due connected flush adds its bytes to the bandwidth field of its direction
      in the hash of its user and second, and nothing else is brought to Redis. */
  lemma TransferReachesRedis(cfg: Config, addr: string, user: string, direction: string, n: int, t: nat, k: CmdKey)
    requires TildeFreeAll([addr, user, direction]) && user != "" && INT_MIN <= n <= INT_MAX
    requires forall c :: c in user ==> ' ' <= c <= '~'
    ensures var raw := Join(["data_xfer", addr, user, direction, PrintInt(n)], "~|~");
            var es := [Message(raw, t, t), Tick(cfg.period + 1, cfg.period + 1, true)];
            && ClockOk(es, 0) && BatchOf(cfg, es) == map[]
            && Brought(cfg, es, k)
               == if k == CmdKey("user_" + user, t / 1_000_000_000, "bnd_" + direction) then n else 0
  {
    var raw := Join(["data_xfer", addr, user, direction, PrintInt(n)], "~|~");
    var e0, e1 := Message(raw, t, t), Tick(cfg.period + 1, cfg.period + 1, true);
    DataXferLineMeans(cfg.endpoint, addr, user, direction, n, t, t);
    var i := Inc(CmdKey("user_" + user, t / 1_000_000_000, "bnd_" + direction), t, n);
    hide Decode;
    assert [e0, e1][1..] == [e1] && [e1][1..] == [] && [e0, e1][..1] == [e0] && [e0][..0] == [];
    assert ClockOk([e1], 0);
    assert FlowOf(cfg, [e0]) == Next(cfg, FlowOf(cfg, []), e0);
    BatchUpTo2(map[], i, i);
    assert BatchOf(cfg, [e0]) == Batched(map[], i);
    assert Brought(cfg, [e0], k) == 0;
  }

  /** The failing run, for every active-request message: cleared by a due flush while the connection is down, its value
      is nowhere to be found after the next, connected, flush. */
  lemma DisconnectionForgets(cfg: Config, instance: string, user: string, direction: string, n: int, t: nat)
    requires TildeFreeAll([instance, user, direction]) && INT_MIN <= n <= INT_MAX
    ensures var raw := Join(["active_reqs", instance, user, direction, PrintInt(n)], "~|~");
            var es := [Message(raw, t, t), Tick(cfg.period + 1, cfg.period + 1, false),
                       Tick(2 * cfg.period + 2, 2 * cfg.period + 2, true)];
            var s := "conn_v2_user_" + direction + "_" + instance + "_" + user + "$" + cfg.endpoint;
            var f := FlowOf(cfg, es);
            ClockOk(es, 0) && s in f.latest && f.latest[s] == n && s in f.cleared && s !in Visible(f)
  {
    var raw := Join(["active_reqs", instance, user, direction, PrintInt(n)], "~|~");
    var e0, e1 := Message(raw, t, t), Tick(cfg.period + 1, cfg.period + 1, false);
    var e2 := Tick(2 * cfg.period + 2, 2 * cfg.period + 2, true);
    ActiveLineMeans(cfg.endpoint, instance, user, direction, n, t, t);
    hide Decode, Join;
    assert [e0, e1, e2][1..] == [e1, e2] && [e1, e2][1..] == [e2] && [e2][1..] == [];
    assert ClockOk([e2], e1.later) && ClockOk([e1, e2], 0);
    assert [e0, e1, e2][..2] == [e0, e1] && [e0, e1][..1] == [e0] && [e0][..0] == [];
    assert FlowOf(cfg, [e0]) == Next(cfg, FlowOf(cfg, []), e0);
    assert FlowOf(cfg, [e0, e1]) == Next(cfg, FlowOf(cfg, [e0]), e1);
    assert FlowOf(cfg, [e0, e1, e2]) == Next(cfg, FlowOf(cfg, [e0, e1]), e2);
  }

  // ---------------------------------------------------------------- the hash key, read by polygen

  datatype VerbMetric = VerbMetric(epoch: int, user: string, endpoint: string)

  /** MetricService.create_user_level_metric on a `verb` key; None stands for any exception. */
  function ParseVerb(isalnum: char -> bool, key: string): Option<VerbMetric> {
    var items := Split(key, "_");
    if items[0] != "verb" || |items| != 4 then None else
    match ToNumber(items[1])
    case None => None
    case Some(epoch) =>
      var parts := Split(items[3], "$");
      if |parts| != 2 || !AllAre(isalnum, parts[0]) then None else Some(VerbMetric(epoch, parts[0], parts[1]))
  }

  lemma VerbItems(user: string, sec: nat, endpoint: string)
    ensures var key := "verb_" + PrintNat(sec) + "_user_" + user + "$" + endpoint;
            var items := ["verb", PrintNat(sec), "user", user + "$" + endpoint];
            && key == Join(items, "_") && Split(key, "_")[0] == "verb"
            && (|Split(key, "_")| == 4 <==> '_' !in user && '_' !in endpoint)
            && (|Split(key, "_")| == 4 ==> Split(key, "_") == items)
  {
    var last, digits := user + "$" + endpoint, PrintNat(sec);
    var items := ["verb", digits, "user", last];
    DigitsHaveNo(sec, '_');
    hide Split, PrintNat;
    VerbJoin(digits, user, endpoint);
    SplitJoinChar(items, '_');
    assert (forall t :: t in items ==> '_' !in t) <==> '_' !in last by {
      assert items[3] in items;
    }
    assert '_' !in last <==> '_' !in user && '_' !in endpoint by {
      assert last[..|user|] == user && last[|user| + 1..] == endpoint;
      forall c | c in last ensures c in user || c == '$' || c in endpoint {
      }
    }
    NoFirstChar("verb", "_");
    CutOnce("verb", "_", Join(items[1..], "_"));
  }

  lemma VerbJoin(digits: string, user: string, endpoint: string)
    ensures Join(["verb", digits, "user", user + "$" + endpoint], "_")
            == "verb_" + digits + "_user_" + user + "$" + endpoint
  {
    var last := user + "$" + endpoint;
    JoinCons("user", [last], "_");
    JoinCons(digits, ["user", last], "_");
    JoinCons("verb", [digits, "user", last], "_");
    assert ["user"] + [last] == ["user", last] && [digits] + ["user", last] == [digits, "user", last];
    assert ["verb"] + [digits, "user", last] == ["verb", digits, "user", last];
    assert Join([last], "_") == last;
    hide Join;
    assert "verb" + "_" == "verb_" && "_" + ("user" + "_") == "_user_";
    Chain("verb_" + digits, "_", "user" + "_", last);
    Assoc("verb_" + digits + "_user_", user, "$", endpoint);
    Assoc2("verb" + "_", digits, "_", "user" + "_" + last);
  }

  lemma Assoc2(a: string, b: string, c: string, d: string)
    ensures a + (b + c + d) == a + b + (c + d)
  {
  }

  /** polygen reads a hash key back to its second, user and endpoint if and only if neither field holds an underscore,
      the user is alphanumeric and the endpoint has no `$`. */
  lemma VerbKeyRoundTrip(isalnum: char -> bool, user: string, sec: nat, endpoint: string)
    requires PythonAlnum(isalnum)
    ensures ParseVerb(isalnum, "verb_" + PrintNat(sec) + "_user_" + user + "$" + endpoint)
              == Some(VerbMetric(sec, user, endpoint))
            <==> '_' !in user && '_' !in endpoint && AllAre(isalnum, user) && '$' !in endpoint
  {
    VerbItems(user, sec, endpoint);
    UserAndEndpoint(user, endpoint);
    ToNumberPrinted(sec);
    hide Split, PrintNat, ToNumber, Join;
    assert !isalnum('$');
  }
}
