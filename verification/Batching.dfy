/** The syslog server's message processor (msg_processor.cpp): increments are batched per user, second and
    category, active-request counts per connection key, and flushed to Redis now and then. */
module Batching {
  import opened Common
  import opened Text
  import opened Decimal
  import opened Wire
  import StringSplit

  const NANOS := 1_000_000_000

  function Sec(t: nat): nat {
    t / NANOS
  }

  /** Two RedisCmdKeys are equal when they differ at most in the timestamp within one second. */
  datatype CmdKey = CmdKey(user: string, sec: nat, cat: string)

  /** A batched count, with the timestamp of the event that opened it. */
  datatype Entry = Entry(ts: nat, count: int)

  type Commands = map<CmdKey, Entry>

  /** One increment: what a message asks of Redis when nothing is batched. */
  datatype Inc = Inc(key: CmdKey, t: nat, n: int)

  datatype Cmd =
    | HIncrBy(key: string, field: string, amount: int)
    | Expire(key: string, ttl: int)
    | SetEx(key: string, value: int, ttl: int)

  // ---------------------------------------------------------------- what a message means

  datatype Delta = Delta(incs: seq<Inc>, active: Option<(string, int)>, counted: bool)

  const Nothing := Delta([], None, false)

  function IncAt(user: string, cat: string, t: nat, n: int): Inc {
    Inc(CmdKey("user_" + user, Sec(t), cat), t, n)
  }

  /** processReq; the class is counted at t1 and the verb at t2. */
  function DecodeReq(raw: string, endpoint: string, t1: nat, t2: nat): Delta {
    match ParseReq(raw)
    case None => Nothing
    case Some(f) =>
      var by_class := if |f.request_class| > 0 then [IncAt(f.user, f.request_class, t1, 1)] else [];
      Delta(by_class + [IncAt(f.user, f.verb, t2, 1)],
            Some((ConnKey(f.direction, f.instance, f.user, endpoint), f.active)), true)
  }

  function DecodeDataXfer(raw: string, t: nat): Delta {
    match ParseTokens(raw, 5)
    case None => Nothing
    case Some(ts) =>
      match FromChars(ts[4])
      case None => Nothing
      case Some(len) =>
        if !Wire.Printable(ts[2]) || ts[2] == "" then Nothing
        else Delta([IncAt(ts[2], "bnd_" + ts[3], t, len)], None, true)
  }

  function DecodeActive(raw: string, endpoint: string): Delta {
    match ParseTokens(raw, 5)
    case None => Nothing
    case Some(ts) =>
      match FromChars(ts[4])
      case None => Nothing
      case Some(n) => Delta([], Some((ConnKey(ts[3], ts[1], ts[2], endpoint), n)), true)
  }

  function DecodeReqEnd(raw: string, endpoint: string): Delta {
    match ParseTokens(raw, 7)
    case None => Nothing
    case Some(ts) =>
      match FromChars(ts[6])
      case None => Nothing
      case Some(n) => Delta([], Some((ConnKey(ts[4], ts[5], ts[2], endpoint), n)), true)
  }

  /** The dispatch of messageConsumerThread. */
  function Decode(raw: string, endpoint: string, t1: nat, t2: nat): Delta {
    if "req~|~" <= raw then DecodeReq(raw, endpoint, t1, t2)
    else if "data_xfer~|~" <= raw then DecodeDataXfer(raw, t1)
    else if "active_reqs~|~" <= raw then DecodeActive(raw, endpoint)
    else if "req_end~|~" <= raw then DecodeReqEnd(raw, endpoint)
    else Nothing
  }

  // ---------------------------------------------------------------- counting

  function SumFor(incs: seq<Inc>, k: CmdKey): int {
    if incs == [] then 0 else
    var i := incs[|incs| - 1];
    SumFor(incs[..|incs| - 1], k) + (if i.key == k then i.n else 0)
  }

  function Pending(commands: Commands, k: CmdKey): int {
    if k in commands then commands[k].count else 0
  }

  function VerbKey(k: CmdKey, endpoint: string): string {
    "verb_" + (PrintNat(k.sec) + "_" + (k.user + "$" + endpoint))
  }

  /** What the commands sent so far add to the hash field that stands for k. */
  function FlushedFor(sent: seq<Cmd>, endpoint: string, k: CmdKey): int {
    if sent == [] then 0 else FlushedFor(sent[..|sent| - 1], endpoint, k) + Adds(sent[|sent| - 1], endpoint, k)
  }

  /** What the commands sent so far add to one field of one Redis hash. */
  function FieldTotal(sent: seq<Cmd>, key: string, field: string): int {
    if sent == [] then 0 else
    var c := sent[|sent| - 1];
    FieldTotal(sent[..|sent| - 1], key, field)
    + (if c.HIncrBy? && c.key == key && c.field == field then c.amount else 0)
  }

  /** The hash of a user and second, as Redis sees it. */
  lemma {:induction false} FlushedIsField(sent: seq<Cmd>, endpoint: string, user: string, sec: nat, cat: string)
    ensures FlushedFor(sent, endpoint, CmdKey("user_" + user, sec, cat))
            == FieldTotal(sent, "verb_" + PrintNat(sec) + "_user_" + user + "$" + endpoint, cat)
  {
    var k := CmdKey("user_" + user, sec, cat);
    VerbKeyText(endpoint, user, sec, cat);
    if sent != [] {
      hide VerbKey;
      FlushedIsField(sent[..|sent| - 1], endpoint, user, sec, cat);
    }
  }

  lemma VerbKeyText(endpoint: string, user: string, sec: nat, cat: string)
    ensures VerbKey(CmdKey("user_" + user, sec, cat), endpoint)
            == "verb_" + PrintNat(sec) + "_user_" + user + "$" + endpoint
  {
    hide PrintNat;
    assert "_" + ("user_" + user) == "_user_" + user;
    Reassociate("verb_", PrintNat(sec), "_", "user_" + user, "$", endpoint);
  }

  lemma Reassociate(a: string, b: string, c: string, d: string, e: string, f: string)
    ensures a + (b + c + (d + e + f)) == a + b + (c + d) + e + f
  {
  }

  function Adds(c: Cmd, endpoint: string, k: CmdKey): int {
    if c.HIncrBy? && c.key == VerbKey(k, endpoint) && c.field == k.cat then c.amount else 0
  }

  /** Values of the connection keys in Redis after the commands sent so far. */
  function ActiveInRedis(sent: seq<Cmd>): map<string, int> {
    if sent == [] then map[] else
    var m, c := ActiveInRedis(sent[..|sent| - 1]), sent[|sent| - 1];
    if c.SetEx? then m[c.key := c.value] else m
  }

  lemma {:induction false} SumConcat(a: seq<Inc>, b: seq<Inc>, k: CmdKey)
    ensures SumFor(a + b, k) == SumFor(a, k) + SumFor(b, k)
    decreases |b|
  {
    if b == [] {
      assert a + b == a;
    } else {
      assert (a + b)[..|a + b| - 1] == a + b[..|b| - 1];
      SumConcat(a, b[..|b| - 1], k);
    }
  }

  lemma {:induction false} FlushedConcat(a: seq<Cmd>, b: seq<Cmd>, endpoint: string, k: CmdKey)
    ensures FlushedFor(a + b, endpoint, k) == FlushedFor(a, endpoint, k) + FlushedFor(b, endpoint, k)
    decreases |b|
  {
    if b == [] {
      assert a + b == a;
    } else {
      assert (a + b)[..|a + b| - 1] == a + b[..|b| - 1];
      FlushedConcat(a, b[..|b| - 1], endpoint, k);
    }
  }

  lemma {:induction false} ActiveConcat(a: seq<Cmd>, b: seq<Cmd>)
    ensures ActiveInRedis(a + b) == ActiveInRedis(a) + ActiveInRedis(b)
    decreases |b|
  {
    if b == [] {
      assert a + b == a;
      assert ActiveInRedis(a) + map[] == ActiveInRedis(a);
    } else {
      assert (a + b)[..|a + b| - 1] == a + b[..|b| - 1];
      ActiveConcat(a, b[..|b| - 1]);
    }
  }

  /** Different users or seconds never share a Redis hash. */
  lemma VerbKeyInjective(a: CmdKey, b: CmdKey, endpoint: string)
    requires VerbKey(a, endpoint) == VerbKey(b, endpoint)
    ensures a.user == b.user && a.sec == b.sec
  {
    var ra, rb := a.user + "$" + endpoint, b.user + "$" + endpoint;
    var ta, tb := PrintNat(a.sec) + "_" + ra, PrintNat(b.sec) + "_" + rb;
    assert ta == VerbKey(a, endpoint)[5..] && tb == VerbKey(b, endpoint)[5..];
    FirstField(PrintNat(a.sec), ra);
    FirstField(PrintNat(b.sec), rb);
    assert PrintNat(a.sec) == PrintNat(b.sec);
    PrintInjective(a.sec, b.sec);
    assert ra == ta[|PrintNat(a.sec)| + 1..] && rb == tb[|PrintNat(b.sec)| + 1..];
    assert a.user == ra[..|ra| - 1 - |endpoint|] && b.user == rb[..|rb| - 1 - |endpoint|];
  }

  lemma FirstField(digits: string, rest: string)
    requires AllDigits(digits)
    ensures Split(digits + "_" + rest, "_")[0] == digits
  {
    assert '_' !in digits;
    NoFirstChar(digits, "_");
    CutOnce(digits, "_", rest);
  }

  // ---------------------------------------------------------------- batching one increment

  function Batched(commands: Commands, i: Inc): Commands {
    if i.key in commands then commands[i.key := commands[i.key].(count := commands[i.key].count + i.n)]
    else commands[i.key := Entry(i.t, i.n)]
  }

  function BatchAll(commands: Commands, incs: seq<Inc>): Commands {
    if incs == [] then commands else Batched(BatchAll(commands, incs[..|incs| - 1]), incs[|incs| - 1])
  }

  lemma {:induction false} BatchAllCounts(commands: Commands, incs: seq<Inc>, k: CmdKey)
    ensures Pending(BatchAll(commands, incs), k) == Pending(commands, k) + SumFor(incs, k)
  {
    if incs != [] {
      BatchAllCounts(commands, incs[..|incs| - 1], k);
    }
  }

  lemma BatchAppend(commands: Commands, incs: seq<Inc>, i: Inc)
    ensures BatchAll(commands, incs + [i]) == Batched(BatchAll(commands, incs), i)
  {
    assert (incs + [i])[..|incs|] == incs;
  }

  ghost predicate Stamped(commands: Commands) {
    forall k :: k in commands ==> Sec(commands[k].ts) == k.sec
  }

  lemma {:induction false} BatchAllStamped(commands: Commands, incs: seq<Inc>)
    requires Stamped(commands) && forall i :: i in incs ==> i.key.sec == Sec(i.t)
    ensures Stamped(BatchAll(commands, incs))
  {
    if incs != [] {
      assert incs[|incs| - 1] in incs;
      BatchAllStamped(commands, incs[..|incs| - 1]);
    }
  }

  // ---------------------------------------------------------------- discarding while disconnected

  predicate TooOld(e: Entry, now: nat, ttl: nat) {
    e.ts + ttl * NANOS < now
  }

  function Survivors(commands: Commands, now: nat, ttl: nat): Commands {
    map k | k in commands && !TooOld(commands[k], now, ttl) :: commands[k]
  }

  /** Every event behind a discarded count is more than ttl - 1 seconds old, although only the first one's timestamp
      was kept. */
  lemma DiscardedAreOld(e: Entry, now: nat, ttl: nat, t: nat)
    requires TooOld(e, now, ttl) && Sec(t) == Sec(e.ts)
    ensures now + NANOS > t + ttl * NANOS
  {
  }

  /** At `now`, every event of second `sec` is more than ttl - 1 seconds old. */
  ghost predicate SecondIsOld(sec: nat, now: nat, ttl: nat) {
    forall t: nat :: Sec(t) == sec ==> now + NANOS > t + ttl * NANOS
  }

  lemma DiscardedSecondIsOld(e: Entry, now: nat, ttl: nat)
    requires TooOld(e, now, ttl)
    ensures SecondIsOld(Sec(e.ts), now, ttl)
  {
    forall t: nat | Sec(t) == Sec(e.ts) ensures now + NANOS > t + ttl * NANOS {
      DiscardedAreOld(e, now, ttl, t);
    }
  }

  // ---------------------------------------------------------------- sending

  ghost predicate Expires(cmds: seq<Cmd>, ttl: int) {
    forall c :: c in cmds && c.HIncrBy? ==> Expire(c.key, ttl) in cmds
  }

  ghost predicate SetsNothing(cmds: seq<Cmd>) {
    forall c :: c in cmds ==> !c.SetEx?
  }

  lemma {:induction false} SetsNothingActive(cmds: seq<Cmd>)
    requires SetsNothing(cmds)
    ensures ActiveInRedis(cmds) == map[]
  {
    if cmds != [] {
      assert cmds[|cmds| - 1] in cmds;
      SetsNothingActive(cmds[..|cmds| - 1]);
    }
  }

  lemma FlushedAppend(cmds: seq<Cmd>, c: Cmd, endpoint: string, k: CmdKey)
    ensures FlushedFor(cmds + [c], endpoint, k) == FlushedFor(cmds, endpoint, k) + Adds(c, endpoint, k)
  {
    assert (cmds + [c])[..|cmds|] == cmds;
  }

  /** The first loop of sendToRedisQos: one hincrby per batched count, one expire per hash. */
  method EmitCounts(commands: Commands, endpoint: string, ttl: int) returns (cmds: seq<Cmd>)
    ensures forall k :: FlushedFor(cmds, endpoint, k) == Pending(commands, k)
    ensures Expires(cmds, ttl) && SetsNothing(cmds)
  {
    cmds := [];
    var todo := commands;
    var keys_found: set<string> := {};
    while todo.Keys != {}
      invariant forall k :: FlushedFor(cmds, endpoint, k) + Pending(todo, k) == Pending(commands, k)
      invariant forall s :: s in keys_found ==> Expire(s, ttl) in cmds
      invariant Expires(cmds, ttl) && SetsNothing(cmds)
      decreases |todo|
    {
      var key :| key in todo.Keys;
      var ss_key := VerbKey(key, endpoint);
      assert (todo - {key}).Keys == todo.Keys - {key};
      hide VerbKey, Sec;
      ghost var before := cmds;
      var inc := HIncrBy(ss_key, key.cat, todo[key].count);
      cmds := cmds + [inc];
      if ss_key !in keys_found {
        cmds := cmds + [Expire(ss_key, ttl)];
        keys_found := keys_found + {ss_key};
      }
      forall k
        ensures FlushedFor(cmds, endpoint, k)
                == FlushedFor(before, endpoint, k) + (if k == key then todo[key].count else 0)
      {
        FlushedAppend(before, inc, endpoint, k);
        FlushedAppend(before + [inc], Expire(ss_key, ttl), endpoint, k);
        AddsIff(key, k, endpoint, todo[key].count);
      }
      todo := todo - {key};
    }
  }

  lemma AddsIff(key: CmdKey, k: CmdKey, endpoint: string, n: int)
    ensures Adds(HIncrBy(VerbKey(key, endpoint), key.cat, n), endpoint, k) == if k == key then n else 0
  {
    if VerbKey(key, endpoint) == VerbKey(k, endpoint) {
      VerbKeyInjective(key, k, endpoint);
    }
  }

  lemma ActiveAppend(cmds: seq<Cmd>, c: Cmd)
    ensures ActiveInRedis(cmds + [c]) == if c.SetEx? then ActiveInRedis(cmds)[c.key := c.value] else ActiveInRedis(cmds)
  {
    assert (cmds + [c])[..|cmds|] == cmds;
  }

  lemma {:induction false} SetsAddNothing(cmds: seq<Cmd>, endpoint: string, k: CmdKey)
    requires forall c :: c in cmds ==> c.SetEx?
    ensures FlushedFor(cmds, endpoint, k) == 0
  {
    if cmds != [] {
      assert cmds[|cmds| - 1] in cmds;
      SetsAddNothing(cmds[..|cmds| - 1], endpoint, k);
    }
  }

  ghost function Without(m: map<string, int>, ks: set<string>): map<string, int> {
    map s | s in m && s !in ks :: m[s]
  }

  lemma WithoutOne(m: map<string, int>, ks: set<string>, key: string)
    requires key in m && key in ks
    ensures Without(m, ks - {key}) == Without(m, ks)[key := m[key]]
  {
  }

  /** The second loop: one set per connection key. */
  method EmitActive(active: map<string, int>, endpoint: string, ttl: int) returns (cmds: seq<Cmd>)
    ensures ActiveInRedis(cmds) == active
    ensures forall k :: FlushedFor(cmds, endpoint, k) == 0
    ensures forall c :: c in cmds ==> c.SetEx? && c.ttl == ttl
  {
    cmds := [];
    var todo := active.Keys;
    while todo != {}
      invariant todo <= active.Keys
      invariant ActiveInRedis(cmds) == Without(active, todo)
      invariant forall c :: c in cmds ==> c.SetEx? && c.ttl == ttl
      decreases todo
    {
      hide ActiveInRedis, Without;
      var key :| key in todo;
      ActiveAppend(cmds, SetEx(key, active[key], ttl));
      WithoutOne(active, todo, key);
      cmds := cmds + [SetEx(key, active[key], ttl)];
      todo := todo - {key};
    }
    assert Without(active, {}) == active;
    forall k ensures FlushedFor(cmds, endpoint, k) == 0 {
      SetsAddNothing(cmds, endpoint, k);
    }
  }

  /** erase_if over the batch, in any order. */
  method Discard(commands: Commands, now: nat, ttl: nat) returns (rest: Commands)
    ensures rest == Survivors(commands, now, ttl)
    // a count goes exactly when the event that opened it is more than ttl seconds old
    ensures forall k :: k in rest <==> k in commands && now <= commands[k].ts + ttl * 1_000_000_000
    ensures forall k :: k in rest ==> rest[k] == commands[k]
  {
    rest := commands;
    var todo := commands.Keys;
    while todo != {}
      invariant todo <= commands.Keys
      invariant rest == map k | k in commands && (k in todo || !TooOld(commands[k], now, ttl)) :: commands[k]
      decreases todo
    {
      var key :| key in todo;
      todo := todo - {key};
      if TooOld(rest[key], now, ttl) {
        rest := rest - {key};
      }
    }
  }

  // ---------------------------------------------------------------- the processor

  function WithActive(values: map<string, int>, d: Delta): map<string, int> {
    if d.active.Some? then values[d.active.value.0 := d.active.value.1] else values
  }

  datatype Config = Config(endpoint: string, ttl: nat, conn_ttl: nat,
                           batch_count: nat, period: nat, check_interval: nat)

  class Processor {
    const cfg: Config
    var commands: Commands
    var active: map<string, int>
    var not_sent: nat
    var last_flush: nat
    var last_connect: nat
    var sent: seq<Cmd>

    /** Every batched count carries a timestamp of its own second. */
    ghost predicate Valid()
      reads this`commands
    {
      Stamped(commands)
    }

    constructor (cfg: Config)
      ensures Valid() && sent == [] && commands == map[] && active == map[]
      ensures this.cfg == cfg && not_sent == 0 && last_flush == 0 && last_connect == 0
    {
      this.cfg := cfg;
      commands, active, not_sent, last_flush, last_connect, sent := map[], map[], 0, 0, 0, [];
    }

    /** The increments and the active count of a message have been taken over, and the message counted, nothing else. */
    ghost predicate Took(d: Delta, commands0: Commands, active0: map<string, int>, not_sent0: nat)
      reads this
    {
      && commands == BatchAll(commands0, d.incs)
      && not_sent == not_sent0 + (if d.counted then 1 else 0)
      && active == WithActive(active0, d)
    }

    /** `m_qos_redis_commands[{user, now, cat}] += n` */
    method Increment(user: string, cat: string, t: nat, n: int)
      requires Valid()
      modifies this`commands
      ensures Valid() && commands == Batched(old(commands), IncAt(user, cat, t, n))
      ensures var key := CmdKey("user_" + user, t / 1_000_000_000, cat);
              && (forall k :: Pending(commands, k) == Pending(old(commands), k) + (if k == key then n else 0))
              && key in commands
              // the timestamp is that of the event that opened the count
              && commands[key].ts == if key in old(commands) then old(commands)[key].ts else t
    {
      var key := CmdKey("user_" + user, Sec(t), cat);
      if key in commands {
        commands := commands[key := Entry(commands[key].ts, commands[key].count + n)];
      } else {
        commands := commands[key := Entry(t, n)];
      }
    }

    method ProcessReq(raw: string, t1: nat, t2: nat)
      requires Valid()
      modifies this`commands, this`active, this`not_sent
      ensures Valid() && Took(DecodeReq(raw, cfg.endpoint, t1, t2), old(commands), old(active), old(not_sent))
    {
      hide Valid;
      var tokens, finished := StringSplit.TakeTokens(raw, DELIMITER, 8);
      TakenTokens(raw, 8, tokens, finished);
      if !finished {
        return;
      }
      var active_requests := FromChars(tokens[6]);
      if active_requests.None? || !Wire.Printable(tokens[2]) {
        return;
      }
      BatchUpTo2(commands, IncAt(tokens[2], tokens[7], t1, 1), IncAt(tokens[2], tokens[3], t2, 1));
      hide BatchAll, Batched;
      if |tokens[7]| > 0 {
        Increment(tokens[2], tokens[7], t1, 1);
      }
      Increment(tokens[2], tokens[3], t2, 1);
      active := active[ConnKey(tokens[4], tokens[5], tokens[2], cfg.endpoint) := active_requests.value];
      not_sent := not_sent + 1;
    }

    method ProcessDataXfer(raw: string, t: nat)
      requires Valid()
      modifies this`commands, this`active, this`not_sent
      ensures Valid() && Took(DecodeDataXfer(raw, t), old(commands), old(active), old(not_sent))
    {
      hide Valid;
      var tokens, finished := StringSplit.TakeTokens(raw, DELIMITER, 5);
      TakenTokens(raw, 5, tokens, finished);
      var len := FromChars(if |tokens| == 5 then tokens[4] else "");
      if !finished || len.None? || !Wire.Printable(tokens[2]) || tokens[2] == "" {
        return;
      }
      ghost var i := IncAt(tokens[2], "bnd_" + tokens[3], t, len.value);
      BatchUpTo2(commands, i, i);
      hide BatchAll, Batched;
      Increment(tokens[2], "bnd_" + tokens[3], t, len.value);
      not_sent := not_sent + 1;
    }

    method ProcessActiveRequests(raw: string)
      requires Valid()
      modifies this`commands, this`active, this`not_sent
      ensures Valid() && Took(DecodeActive(raw, cfg.endpoint), old(commands), old(active), old(not_sent))
    {
      hide Valid;
      var tokens, finished := StringSplit.TakeTokens(raw, DELIMITER, 5);
      TakenTokens(raw, 5, tokens, finished);
      var n := FromChars(tokens[4]);
      if !finished || n.None? {
        return;
      }
      active := active[ConnKey(tokens[3], tokens[1], tokens[2], cfg.endpoint) := n.value];
      not_sent := not_sent + 1;
    }

    method ProcessReqEnd(raw: string)
      requires Valid()
      modifies this`commands, this`active, this`not_sent
      ensures Valid() && Took(DecodeReqEnd(raw, cfg.endpoint), old(commands), old(active), old(not_sent))
    {
      hide Valid;
      var tokens, finished := StringSplit.TakeTokens(raw, DELIMITER, 7);
      TakenTokens(raw, 7, tokens, finished);
      var n := FromChars(tokens[6]);
      if !finished || n.None? {
        return;
      }
      active := active[ConnKey(tokens[4], tokens[5], tokens[2], cfg.endpoint) := n.value];
      not_sent := not_sent + 1;
    }

    /** One message taken off the queue. */
    method Handle(raw: string, t1: nat, t2: nat)
      requires Valid()
      modifies this`commands, this`active, this`not_sent
      ensures Valid() && Took(Decode(raw, cfg.endpoint, t1, t2), old(commands), old(active), old(not_sent))
    {
      hide Valid, DecodeReq, DecodeDataXfer, DecodeActive, DecodeReqEnd;
      if "req~|~" <= raw {
        ProcessReq(raw, t1, t2);
      } else if "data_xfer~|~" <= raw {
        ProcessDataXfer(raw, t1);
      } else if "active_reqs~|~" <= raw {
        ProcessActiveRequests(raw);
      } else if "req_end~|~" <= raw {
        ProcessReqEnd(raw);
      }
    }

    /** sendToRedisQos at `now`, with the connection up or down; `later` is the second clock reading. */
    method SendToRedis(now: nat, later: nat, connected: bool) returns (flushed: bool)
      requires Valid() && now <= later && last_flush <= now && last_connect <= later
      modifies this
      ensures Valid() && last_flush <= now && last_connect <= later
      ensures flushed <==> now - old(last_flush) > cfg.period || old(not_sent) >= cfg.batch_count
      ensures !flushed ==> last_flush == old(last_flush) && not_sent == old(not_sent) && active == old(active)
      ensures !flushed ==> sent == old(sent) && commands == old(commands)
      ensures flushed ==> last_flush == now && not_sent == 0 && active == map[]
      // connected: nothing stays behind, every count is added to its hash once, every hash touched gets an expire,
      // every waiting connection key is set
      ensures flushed && connected ==> commands == map[] && FlushedOnce(cfg.endpoint, old(sent), sent, old(commands))
      ensures flushed && connected ==> old(sent) <= sent && Expires(sent[|old(sent)|..], cfg.ttl)
      ensures flushed && connected ==> ActiveInRedis(sent) == ActiveInRedis(old(sent)) + old(active)
      // disconnected: nothing is sent, and only events more than ttl - 1 seconds old are dropped
      ensures flushed && !connected ==> sent == old(sent) && commands == Survivors(old(commands), later, cfg.ttl)
      ensures flushed && !connected ==>
                forall k :: k in old(commands) && k !in commands ==> SecondIsOld(k.sec, later, cfg.ttl)
    {
      flushed := now - last_flush > cfg.period || not_sent >= cfg.batch_count;
      if !flushed {
        return;
      }
      last_flush := now;
      not_sent := 0;
      if connected {
        Flush();
      } else {
        if later - last_connect > cfg.check_interval {
          last_connect := later;
        }
        Forget(later);
      }
    }

    method Flush()
      requires Valid()
      modifies this`commands, this`active, this`sent
      ensures Valid() && commands == map[] && active == map[]
      ensures old(sent) <= sent && Expires(sent[|old(sent)|..], cfg.ttl)
      ensures forall c :: c in sent[|old(sent)|..] && c.SetEx? ==> c.ttl == cfg.conn_ttl
      ensures FlushedOnce(cfg.endpoint, old(sent), sent, old(commands))
      ensures ActiveInRedis(sent) == ActiveInRedis(old(sent)) + old(active)
    {
      var counts := EmitCounts(commands, cfg.endpoint, cfg.ttl);
      var sets := EmitActive(active, cfg.endpoint, cfg.conn_ttl);
      FlushCounts(cfg.endpoint, sent, commands, counts, sets);
      FlushSets(active, sent, counts, sets);
      hide FlushedOnce, FlushedFor, ActiveInRedis, Pending;
      ghost var before := sent;
      sent := sent + counts + sets;
      assert sent[|before|..] == counts + sets;
      commands, active := map[], map[];
    }

    method Forget(now: nat)
      requires Valid()
      modifies this`commands, this`active
      ensures Valid() && commands == Survivors(old(commands), now, cfg.ttl) && active == map[]
      ensures forall k :: k in old(commands) && k !in commands ==> SecondIsOld(k.sec, now, cfg.ttl)
      ensures forall k :: k in commands <==>
                            k in old(commands) && now <= old(commands)[k].ts + cfg.ttl * 1_000_000_000
    {
      forall k | k in commands && TooOld(commands[k], now, cfg.ttl) ensures SecondIsOld(k.sec, now, cfg.ttl) {
        DiscardedSecondIsOld(commands[k], now, cfg.ttl);
      }
      hide SecondIsOld;
      commands := Discard(commands, now, cfg.ttl);
      active := map[];
    }
  }

  /** The commands between two points add every batched count to its hash field exactly once. */
  ghost predicate FlushedOnce(endpoint: string, before: seq<Cmd>, after: seq<Cmd>, commands: Commands) {
    forall k :: FlushedFor(after, endpoint, k) == FlushedFor(before, endpoint, k) + Pending(commands, k)
  }

  lemma BatchUpTo2(commands: Commands, i: Inc, j: Inc)
    ensures BatchAll(commands, []) == commands
    ensures BatchAll(commands, [j]) == Batched(commands, j)
    ensures BatchAll(commands, [i] + [j]) == Batched(Batched(commands, i), j)
    ensures BatchAll(commands, [] + [j]) == Batched(commands, j)
  {
    BatchAppend(commands, [], i);
    BatchAppend(commands, [], j);
    BatchAppend(commands, [i], j);
    assert [] + [i] == [i] && [] + [j] == [j];
  }

  // ---------------------------------------------------------------- whole runs

  datatype Event = Message(raw: string, t1: nat, t2: nat) | Tick(now: nat, later: nat, connected: bool)

  /** Everything the messages of a run ask for, one by one. */
  function Received(es: seq<Event>, endpoint: string): seq<Inc> {
    if es == [] then [] else
    var e := es[|es| - 1];
    Received(es[..|es| - 1], endpoint) + (if e.Message? then Decode(e.raw, endpoint, e.t1, e.t2).incs else [])
  }

  /** What the events alone say: when the last due flush was and how many messages came since, which values of
      connection keys wait for the next one, which values the connected ones brought to Redis, the keys whose latest
      value was cleared by a disconnected one, and the latest value of every key. */
  datatype Flow = Flow(last_flush: nat, not_sent: nat, waiting: map<string, int>, redis: map<string, int>,
                       cleared: set<string>, latest: map<string, int>)

  predicate Due(cfg: Config, f: Flow, e: Event) {
    e.Tick? && (e.now - f.last_flush > cfg.period || f.not_sent >= cfg.batch_count)
  }

  function Next(cfg: Config, f: Flow, e: Event): Flow {
    if e.Message? then
      var d := Decode(e.raw, cfg.endpoint, e.t1, e.t2);
      f.(not_sent := f.not_sent + (if d.counted then 1 else 0),
         waiting := WithActive(f.waiting, d), latest := WithActive(f.latest, d),
         cleared := if d.active.Some? then f.cleared - {d.active.value.0} else f.cleared)
    else if !Due(cfg, f, e) then f
    else if e.connected then Flow(e.now, 0, map[], f.redis + f.waiting, f.cleared, f.latest)
    else Flow(e.now, 0, map[], f.redis, f.cleared + f.waiting.Keys, f.latest)
  }

  function FlowOf(cfg: Config, es: seq<Event>): Flow {
    if es == [] then Flow(0, 0, map[], map[], {}, map[]) else Next(cfg, FlowOf(cfg, es[..|es| - 1]), es[|es| - 1])
  }

  ghost predicate ClockOk(es: seq<Event>, clock: nat)
    decreases |es|
  {
    es == [] || (es[0].Message? && ClockOk(es[1..], clock))
    || (es[0].Tick? && clock <= es[0].now <= es[0].later && ClockOk(es[1..], es[0].later))
  }

  predicate DueAt(cfg: Config, es: seq<Event>, j: nat) {
    j < |es| && Due(cfg, FlowOf(cfg, es[..j]), es[j])
  }

  /** A due flush found the connection down when second `sec` was already more than ttl - 1 seconds old. */
  ghost predicate DownTooLong(cfg: Config, es: seq<Event>, sec: nat) {
    exists j :: 0 <= j < |es| && DueAt(cfg, es, j) && !es[j].connected && SecondIsOld(sec, es[j].later, cfg.ttl)
  }

  /** The batch after a run, from the events alone. */
  function BatchOf(cfg: Config, es: seq<Event>): Commands {
    if es == [] then map[] else
    var pre, e := es[..|es| - 1], es[|es| - 1];
    var before := BatchOf(cfg, pre);
    if e.Message? then BatchAll(before, Decode(e.raw, cfg.endpoint, e.t1, e.t2).incs)
    else if !Due(cfg, FlowOf(cfg, pre), e) then before
    else if e.connected then map[]
    else Survivors(before, e.later, cfg.ttl)
  }

  /** What the due connected flushes of a run brought to Redis for k. */
  function Brought(cfg: Config, es: seq<Event>, k: CmdKey): int {
    if es == [] then 0 else
    var pre, e := es[..|es| - 1], es[|es| - 1];
    Brought(cfg, pre, k)
    + (if Due(cfg, FlowOf(cfg, pre), e) && e.connected then Pending(BatchOf(cfg, pre), k) else 0)
  }

  /** What the due disconnected flushes of a run discarded for k. */
  function Lost(cfg: Config, es: seq<Event>, k: CmdKey): int {
    if es == [] then 0 else
    var pre, e := es[..|es| - 1], es[|es| - 1];
    Lost(cfg, pre, k)
    + (if Due(cfg, FlowOf(cfg, pre), e) && !e.connected then Discarded(BatchOf(cfg, pre), e.later, cfg.ttl, k) else 0)
  }

  function Discarded(commands: Commands, now: nat, ttl: nat, k: CmdKey): int {
    if k in commands && TooOld(commands[k], now, ttl) then commands[k].count else 0
  }

  lemma SurvivorsPending(commands: Commands, now: nat, ttl: nat, k: CmdKey)
    ensures Pending(Survivors(commands, now, ttl), k) + Discarded(commands, now, ttl, k) == Pending(commands, k)
  {
  }

  /** Every increment received was brought to Redis, is pending or was discarded, for every user, second and category.
      */
  lemma {:induction false} NothingElseHappens(cfg: Config, es: seq<Event>, k: CmdKey)
    ensures SumFor(Received(es, cfg.endpoint), k)
            == Brought(cfg, es, k) + Pending(BatchOf(cfg, es), k) + Lost(cfg, es, k)
  {
    if es != [] {
      var pre, e := es[..|es| - 1], es[|es| - 1];
      NothingElseHappens(cfg, pre, k);
      hide Decode, Due, Survivors, Discarded;
      if e.Message? {
        var incs := Decode(e.raw, cfg.endpoint, e.t1, e.t2).incs;
        SumConcat(Received(pre, cfg.endpoint), incs, k);
        BatchAllCounts(BatchOf(cfg, pre), incs, k);
        NotDue(cfg, pre, e);
      } else {
        SurvivorsPending(BatchOf(cfg, pre), e.later, cfg.ttl, k);
        assert Received(es, cfg.endpoint) == Received(pre, cfg.endpoint);
      }
    }
  }

  lemma NotDue(cfg: Config, pre: seq<Event>, e: Event)
    requires e.Message?
    ensures !Due(cfg, FlowOf(cfg, pre), e)
  {
  }

  lemma DecodedStamped(raw: string, endpoint: string, t1: nat, t2: nat)
    ensures forall i :: i in Decode(raw, endpoint, t1, t2).incs ==> i.key.sec == Sec(i.t)
  {
    hide ParseReq, ParseTokens, FromChars, ConnKey;
  }

  lemma {:induction false} BatchIsStamped(cfg: Config, es: seq<Event>)
    ensures Stamped(BatchOf(cfg, es))
  {
    if es != [] {
      var pre, e := es[..|es| - 1], es[|es| - 1];
      BatchIsStamped(cfg, pre);
      hide Decode, Due;
      if e.Message? {
        DecodedStamped(e.raw, cfg.endpoint, e.t1, e.t2);
        BatchAllStamped(BatchOf(cfg, pre), Decode(e.raw, cfg.endpoint, e.t1, e.t2).incs);
      }
    }
  }

  /** Only counts of seconds that grew old during a disconnection are ever discarded. */
  lemma {:induction false} OnlyOldLost(cfg: Config, es: seq<Event>, k: CmdKey)
    ensures Lost(cfg, es, k) != 0 ==> DownTooLong(cfg, es, k.sec)
  {
    if es != [] && Lost(cfg, es, k) != 0 {
      var n := |es| - 1;
      var pre, e := es[..n], es[n];
      OnlyOldLost(cfg, pre, k);
      if Lost(cfg, pre, k) != 0 {
        var j :| 0 <= j < n && DueAt(cfg, pre, j) && !pre[j].connected && SecondIsOld(k.sec, pre[j].later, cfg.ttl);
        assert pre[..j] == es[..j];
        assert DueAt(cfg, es, j);
      } else {
        BatchIsStamped(cfg, pre);
        DiscardedSecondIsOld(BatchOf(cfg, pre)[k], e.later, cfg.ttl);
        assert DueAt(cfg, es, n);
      }
    }
  }

  /** Any run of messages, flushes and disconnections leaves in Redis and in the batch what the events alone say: per
      user, second and category every due connected flush brings the pending count once, and what was received is in
      Redis, pending, or was discarded by a due disconnected flush, which happens only to seconds grown old. */
  method Consume(es: seq<Event>, cfg: Config) returns (sent: seq<Cmd>, pending: Commands, waiting: map<string, int>)
    requires ClockOk(es, 0)
    ensures pending == BatchOf(cfg, es) && forall k :: FlushedFor(sent, cfg.endpoint, k) == Brought(cfg, es, k)
    ensures forall k :: SumFor(Received(es, cfg.endpoint), k)
                        == FlushedFor(sent, cfg.endpoint, k) + Pending(pending, k) + Lost(cfg, es, k)
    ensures forall k: CmdKey :: !DownTooLong(cfg, es, k.sec) ==>
              FlushedFor(sent, cfg.endpoint, k) + Pending(pending, k) == SumFor(Received(es, cfg.endpoint), k)
    ensures ActiveInRedis(sent) == FlowOf(cfg, es).redis && waiting == FlowOf(cfg, es).waiting
    // the hash fields of Redis by their own names
    ensures forall user, sec, cat ::
              FieldTotal(sent, "verb_" + PrintNat(sec) + "_user_" + user + "$" + cfg.endpoint, cat)
              == Brought(cfg, es, CmdKey("user_" + user, sec, cat))
  {
    var p := new Processor(cfg);
    var i := 0;
    ghost var clock := 0;
    while i < |es|
      invariant 0 <= i <= |es| && fresh(p) && p.Valid() && p.cfg == cfg
      invariant p.last_flush <= clock && p.last_connect <= clock && ClockOk(es[i..], clock)
      invariant p.commands == BatchOf(cfg, es[..i])
      invariant forall k :: FlushedFor(p.sent, cfg.endpoint, k) == Brought(cfg, es[..i], k)
      invariant Matches(FlowOf(cfg, es[..i]), p.last_flush, p.not_sent, p.active, p.sent)
    {
      hide Stamped, Decode, SecondIsOld, FlushedFor, Survivors, Expires, ActiveInRedis, FlowOf, BatchOf, Brought;
      var e := es[i];
      assert es[i..][1..] == es[i + 1..];
      FlowStep(cfg, es, i);
      BatchStep(cfg, es, i);
      if e.Message? {
        p.Handle(e.raw, e.t1, e.t2);
      } else {
        var flushed := p.SendToRedis(e.now, e.later, e.connected);
        assert flushed <==> Due(cfg, FlowOf(cfg, es[..i]), e);
        clock := e.later;
      }
      i := i + 1;
    }
    assert es[..i] == es;
    sent, pending, waiting := p.sent, p.commands, p.active;
    hide FlushedFor, Pending, SumFor, Brought, Lost, DownTooLong, BatchOf, Received;
    forall k: CmdKey
      ensures SumFor(Received(es, cfg.endpoint), k)
              == FlushedFor(sent, cfg.endpoint, k) + Pending(pending, k) + Lost(cfg, es, k)
      ensures Lost(cfg, es, k) != 0 ==> DownTooLong(cfg, es, k.sec)
    {
      NothingElseHappens(cfg, es, k);
      OnlyOldLost(cfg, es, k);
    }
    forall user, sec, cat
      ensures FieldTotal(sent, "verb_" + PrintNat(sec) + "_user_" + user + "$" + cfg.endpoint, cat)
              == Brought(cfg, es, CmdKey("user_" + user, sec, cat))
    {
      FlushedIsField(sent, cfg.endpoint, user, sec, cat);
    }
  }

  lemma BatchStep(cfg: Config, es: seq<Event>, i: nat)
    requires i < |es|
    ensures var e, before, due := es[i], BatchOf(cfg, es[..i]), Due(cfg, FlowOf(cfg, es[..i]), es[i]);
            BatchOf(cfg, es[..i + 1])
            == (if e.Message? then BatchAll(before, Decode(e.raw, cfg.endpoint, e.t1, e.t2).incs)
                else if !due then before
                else if e.connected then map[] else Survivors(before, e.later, cfg.ttl))
    ensures var before, due := BatchOf(cfg, es[..i]), Due(cfg, FlowOf(cfg, es[..i]), es[i]);
            forall k :: Brought(cfg, es[..i + 1], k)
                        == Brought(cfg, es[..i], k) + (if due && es[i].connected then Pending(before, k) else 0)
  {
    assert es[..i + 1][..i] == es[..i];
    hide Decode, FlowOf;
  }

  ghost predicate Matches(f: Flow, last_flush: nat, not_sent: nat, active: map<string, int>, sent: seq<Cmd>) {
    f.last_flush == last_flush && f.not_sent == not_sent && f.waiting == active && f.redis == ActiveInRedis(sent)
  }

  lemma FlowStep(cfg: Config, es: seq<Event>, i: nat)
    requires i < |es|
    ensures FlowOf(cfg, es[..i + 1]) == Next(cfg, FlowOf(cfg, es[..i]), es[i])
  {
    assert es[..i + 1][..i] == es[..i];
  }

  // ---------------------------------------------------------------- what becomes of an active-request value

  predicate Sets(cfg: Config, e: Event, s: string) {
    e.Message? && var d := Decode(e.raw, cfg.endpoint, e.t1, e.t2); d.active.Some? && d.active.value.0 == s
  }

  /** Where to look for a key: in the batch, or else in Redis. */
  function Visible(f: Flow): map<string, int> {
    f.redis + f.waiting
  }

  ghost predicate FlowOk(f: Flow) {
    && f.waiting.Keys <= f.latest.Keys && f.redis.Keys <= f.latest.Keys && f.cleared <= f.latest.Keys
    && f.waiting.Keys !! f.cleared
    && (forall s :: s in f.waiting ==> f.waiting[s] == f.latest[s])
    && (forall s :: s in f.latest && s !in f.waiting && s !in f.cleared ==> s in f.redis && f.redis[s] == f.latest[s])
  }

  lemma {:induction false} FlowIsOk(cfg: Config, es: seq<Event>)
    ensures FlowOk(FlowOf(cfg, es))
  {
    hide Decode;
    if es != [] {
      FlowIsOk(cfg, es[..|es| - 1]);
    }
  }

  /** Every key that was ever given a value shows its latest one, in the batch or in Redis, unless that value was
      cleared; a cleared key shows what the last connected flush of it brought to Redis, or nothing, so it is right
      only by coincidence. */
  lemma {:induction false} LatestIsVisibleIff(cfg: Config, es: seq<Event>, s: string)
    requires s in FlowOf(cfg, es).latest
    ensures var f := FlowOf(cfg, es);
            && (s !in f.cleared ==> s in Visible(f) && Visible(f)[s] == f.latest[s])
            && (s in f.cleared ==> s !in f.waiting)
            && (s in Visible(f) && Visible(f)[s] == f.latest[s]
                <==> s !in f.cleared || (s in f.redis && f.redis[s] == f.latest[s]))
  {
    FlowIsOk(cfg, es);
    hide FlowOf;
  }

  /** What one event means for key s: it brings a new value, or it is a due flush, with the connection up or down. */
  datatype Mark = Mark(sets: bool, due: bool, down: bool)

  function MarkOf(cfg: Config, f: Flow, e: Event, s: string): Mark {
    Mark(Sets(cfg, e, s), Due(cfg, f, e), e.Tick? && !e.connected)
  }

  function Marks(cfg: Config, es: seq<Event>, s: string): (ms: seq<Mark>)
    ensures |ms| == |es|
  {
    if es == [] then [] else
    var pre := es[..|es| - 1];
    Marks(cfg, pre, s) + [MarkOf(cfg, FlowOf(cfg, pre), es[|es| - 1], s)]
  }

  /** The value brought at j is the latest, and the first due flush after it, at k, found the connection down. */
  ghost predicate ClearedAt(ms: seq<Mark>, j: nat, k: nat) {
    && j < k < |ms| && ms[j].sets && ms[k].due && ms[k].down
    && (forall i :: j < i < |ms| ==> !ms[i].sets)
    && (forall i :: j < i < k ==> !ms[i].due)
  }

  /** The value brought at j is the latest, and no flush was due since. */
  ghost predicate WaitingSince(ms: seq<Mark>, j: nat) {
    j < |ms| && ms[j].sets && forall i :: j < i < |ms| ==> !ms[i].sets && !ms[i].due
  }

  ghost predicate IsWaiting(ms: seq<Mark>) {
    exists j: nat :: WaitingSince(ms, j)
  }

  ghost predicate IsCleared(ms: seq<Mark>) {
    exists j: nat, k: nat :: ClearedAt(ms, j, k)
  }

  lemma WaitingStep(ms: seq<Mark>, m: Mark)
    ensures IsWaiting(ms + [m]) <==> m.sets || (!m.due && IsWaiting(ms))
  {
    assert forall i :: 0 <= i < |ms| ==> ms[i] == (ms + [m])[i];
    if IsWaiting(ms + [m]) {
      var j: nat :| WaitingSince(ms + [m], j);
      assert (ms + [m])[|ms|] == m;
      assert j < |ms| ==> WaitingSince(ms, j);
    }
    if m.sets {
      assert WaitingSince(ms + [m], |ms|);
    } else if !m.due && IsWaiting(ms) {
      var j: nat :| WaitingSince(ms, j);
      assert WaitingSince(ms + [m], j);
    }
  }

  lemma ClearedStep(ms: seq<Mark>, m: Mark)
    requires !(m.sets && m.due)
    ensures IsCleared(ms + [m]) <==> !m.sets && (IsCleared(ms) || (m.due && m.down && IsWaiting(ms)))
  {
    assert forall i :: 0 <= i < |ms| ==> ms[i] == (ms + [m])[i];
    if IsCleared(ms + [m]) {
      var j: nat, k: nat :| ClearedAt(ms + [m], j, k);
      assert (ms + [m])[|ms|] == m;
      assert if k == |ms| then WaitingSince(ms, j) else ClearedAt(ms, j, k);
    }
    if !m.sets && IsCleared(ms) {
      var j: nat, k: nat :| ClearedAt(ms, j, k);
      assert ClearedAt(ms + [m], j, k);
    }
    if m.due && m.down && IsWaiting(ms) {
      var j: nat :| WaitingSince(ms, j);
      assert ClearedAt(ms + [m], j, |ms|);
    }
  }

  /** A key's latest value is cleared if and only if the first flush due after the message that brought it found the
      connection down, and it waits if and only if none was due. */
  lemma {:induction false} ClearedIff(cfg: Config, es: seq<Event>, s: string)
    ensures s in FlowOf(cfg, es).cleared <==> IsCleared(Marks(cfg, es, s))
    ensures s in FlowOf(cfg, es).waiting <==> IsWaiting(Marks(cfg, es, s))
  {
    if es != [] {
      var pre, e := es[..|es| - 1], es[|es| - 1];
      ClearedIff(cfg, pre, s);
      var m := MarkOf(cfg, FlowOf(cfg, pre), e, s);
      WaitingStep(Marks(cfg, pre, s), m);
      ClearedStep(Marks(cfg, pre, s), m);
      hide Decode, IsCleared, IsWaiting;
    }
  }

  lemma FlushCounts(endpoint: string, sent: seq<Cmd>, commands: Commands, counts: seq<Cmd>, sets: seq<Cmd>)
    requires forall k :: FlushedFor(counts, endpoint, k) == Pending(commands, k)
    requires forall k :: FlushedFor(sets, endpoint, k) == 0
    ensures FlushedOnce(endpoint, sent, sent + counts + sets, commands)
  {
    forall k
      ensures FlushedFor(sent + counts + sets, endpoint, k) == FlushedFor(sent, endpoint, k) + Pending(commands, k)
    {
      FlushedConcat(sent, counts, endpoint, k);
      FlushedConcat(sent + counts, sets, endpoint, k);
    }
  }

  lemma FlushSets(active: map<string, int>, sent: seq<Cmd>, counts: seq<Cmd>, sets: seq<Cmd>)
    requires SetsNothing(counts) && ActiveInRedis(sets) == active
    ensures ActiveInRedis(sent + counts + sets) == ActiveInRedis(sent) + active
  {
    ActiveConcat(sent, counts);
    ActiveConcat(sent + counts, sets);
    SetsNothingActive(counts);
  }

  lemma TakenTokens(raw: string, n: nat, tokens: seq<string>, finished: bool)
    requires |tokens| == n && forall i :: 0 <= i < n ==> tokens[i] == StringSplit.Token(raw, DELIMITER, i)
    requires finished <==> StringSplit.Finished(raw, DELIMITER, n)
    ensures ParseTokens(raw, n) == if finished then Some(tokens) else None
  {
    assert finished ==> seq(n, i requires 0 <= i => StringSplit.Token(raw, DELIMITER, i)) == tokens;
  }
}
