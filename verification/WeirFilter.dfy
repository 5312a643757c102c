/** The HAProxy filter's shared user table (flt_weir.c): who holds a pointer into it, what each
    lock-protected section does to the counters, and what the cleanup may free.
    Memory is explicit: a pointer is valid exactly while it is a key of `pool`. */
module WeirFilter {

  import opened Common

  type Ptr = nat
  type StreamId = nat

  const CLEANUP_INTERVAL_MS := 30000
  const CLEANUP_MIN_MS_SINCE_DISCONNECT := 5000
  const UINT_MAX := 0xFFFF_FFFF

  datatype DirectionLimit = DirectionLimit(limit_received: bool, limit_timestamp: nat, bytes_per_second: nat,
                                           active_requests: int)

  datatype UserLimit = UserLimit(upload: DirectionLimit, download: DirectionLimit, last_request_end_tick: nat) {
    function Of(d: Direction): DirectionLimit {
      if d.Up? then upload else download
    }
    function With(d: Direction, l: DirectionLimit): UserLimit {
      if d.Up? then this.(upload := l) else this.(download := l)
    }
    function Count(d: Direction): int {
      Of(d).active_requests
    }
    function Add(d: Direction, n: int): UserLimit {
      With(d, Of(d).(active_requests := Of(d).active_requests + n))
    }
  }

  const ZeroDirection := DirectionLimit(false, 0, 0, 0)
  const ZeroLimit := UserLimit(ZeroDirection, ZeroDirection, 0)

  /** The optional `operation-direction` argument of an activation. */
  datatype DirectionArg = Absent | Recognised | Unrecognised

  /** Per-stream filter context; `dir` is the direction of the stream's fixed HTTP method, `arg` what
      `bandwidth_limit_direction` was set from (nothing, so far, when it is Absent). */
  datatype Stream = Stream(has_addr: bool, dir: Direction, limit_key: string, limit: Option<Ptr>, arg: DirectionArg,
                           enabled: bool, headers_processed: bool)

  /** `lost` records, per entry and direction, the detached streams that skipped the decrement. */
  datatype State = State(table: map<string, Ptr>, pool: map<Ptr, UserLimit>, streams: map<StreamId, Stream>,
                         next_cleanup_tick: nat, lost: multiset<(Ptr, Direction)>)

  /** One lock-protected section, with whatever the outside world supplies to it. */
  datatype Event =
    | Attach(id: StreamId, has_addr: bool, dir: Direction)
    | Enable(id: StreamId, user: Option<string>, arg: DirectionArg, cell: Ptr, now: nat)
    | Headers(id: StreamId)
    | Payload(id: StreamId, allowed: bool)
    | Detach(id: StreamId, now: nat)
    | Ingest(timestamp: nat, key: string, direction: string, share: nat, cell: Ptr)

  datatype Outcome = Ok(s: State) | Abort | UseAfterFree

  // ---------------------------------------------------------------- specification of each section

  /** Allocation hands out some cell that is not in use; a freed one may come back. */
  function FindOrCreate(s: State, key: string, cell: Ptr): State {
    if key in s.table then s
    else s.(table := s.table[key := cell], pool := s.pool[cell := ZeroLimit])
  }

  predicate Stale(expired: (nat, nat) -> bool, u: UserLimit, now: nat) {
    && u.download.active_requests <= 0 && u.upload.active_requests <= 0
    && expired(u.last_request_end_tick + CLEANUP_MIN_MS_SINCE_DISCONNECT, now)
  }

  ghost predicate TableOk(s: State) {
    && (forall k :: k in s.table ==> s.table[k] in s.pool)
    && (forall k, k' :: k in s.table && k' in s.table && k != k' ==> s.table[k] != s.table[k'])
  }

  /** Entries of the table that a cleanup at `now` frees. */
  ghost function Doomed(expired: (nat, nat) -> bool, s: State, now: nat): set<string> {
    set k | k in s.table && s.table[k] in s.pool && Stale(expired, s.pool[s.table[k]], now)
  }

  ghost function FreeKeys(s: State, ks: set<string>): State {
    s.(table := s.table - ks, pool := s.pool - (set k | k in ks && k in s.table :: s.table[k]))
  }

  ghost function Cleanup(expired: (nat, nat) -> bool, s: State, now: nat): State {
    if expired(s.next_cleanup_tick, now)
    then FreeKeys(s, Doomed(expired, s, now)).(next_cleanup_tick := now + CLEANUP_INTERVAL_MS)
    else s
  }

  ghost function EnableSpec(expired: (nat, nat) -> bool, s: State, e: Event): Outcome
    requires e.Enable? && e.id in s.streams
  {
    var st := s.streams[e.id];
    if st.enabled then Ok(s) else
    var st1 := st.(enabled := true, limit_key := if e.user.Some? then e.user.value else st.limit_key, arg := e.arg);
    if e.arg.Unrecognised? then Ok(s.(streams := s.streams[e.id := st1])) else
    if e.user.None? then Abort else
    var s1 := FindOrCreate(s, e.user.value, e.cell);
    var p := s1.table[e.user.value];
    if p !in s1.pool then UseAfterFree else
    Ok(Cleanup(expired, Joined(s1, e.id, st1, p), e.now))
  }

  /** The stream holds entry p and is counted there. */
  function Joined(s: State, id: StreamId, st: Stream, p: Ptr): State
    requires p in s.pool
  {
    s.(streams := s.streams[id := st.(limit := Some(p))], pool := s.pool[p := s.pool[p].Add(st.dir, 1)])
  }

  function HeadersSpec(s: State, id: StreamId): Outcome
    requires id in s.streams
  {
    var st := s.streams[id];
    if !(st.enabled && st.has_addr) then Ok(s)
    else if st.limit.None? then Abort
    else if st.limit.value !in s.pool then UseAfterFree
    else if st.arg.Absent? then Abort
    else Ok(s.(streams := s.streams[id := st.(headers_processed := true)]))
  }

  /** Data of a registered stream; `allowed` says that its next send tick has come. Following the pointer changes
      nothing but a logging tick. */
  function PayloadSpec(s: State, id: StreamId, allowed: bool): Outcome
    requires id in s.streams
  {
    var st := s.streams[id];
    if !(st.has_addr && allowed) then Ok(s)
    else if st.limit.None? || st.arg.Absent? then Abort
    else if st.limit.value !in s.pool then UseAfterFree
    else Ok(s)
  }

  function DetachSpec(s: State, id: StreamId, now: nat): Outcome
    requires id in s.streams
  {
    var st := s.streams[id];
    var s1 := s.(streams := s.streams - {id});
    if !(st.enabled && st.headers_processed && st.has_addr) then
      Ok(if st.enabled && st.limit.Some? then s1.(lost := s.lost + multiset{(st.limit.value, st.dir)}) else s1)
    else if st.limit.None? || st.arg.Absent? then Abort
    else if st.limit.value !in s.pool then UseAfterFree
    else
      var p := st.limit.value;
      Ok(s1.(pool := s.pool[p := s.pool[p].Add(st.dir, -1).(last_request_end_tick := now)]))
  }

  function Clamp(share: nat): nat {
    if share > UINT_MAX then UINT_MAX else share
  }

  function Received(l: DirectionLimit, timestamp: nat, share: nat): DirectionLimit {
    if timestamp >= l.limit_timestamp
    then l.(limit_received := true, limit_timestamp := timestamp, bytes_per_second := Clamp(share))
    else l.(limit_received := true)
  }

  function DirectionNamed(name: string): Option<Direction> {
    if name == "up" then Some(Up) else if name == "dwn" then Some(Down) else None
  }

  function IngestSpec(s: State, e: Event): Outcome
    requires e.Ingest?
  {
    var s1 := FindOrCreate(s, e.key, e.cell);
    var p := s1.table[e.key];
    if p !in s1.pool then UseAfterFree else
    match DirectionNamed(e.direction)
    case None => Ok(s1)
    case Some(d) => Ok(s1.(pool := s1.pool[p := s1.pool[p].With(d, Received(s1.pool[p].Of(d), e.timestamp, e.share))]))
  }

  /** An event of the run makes sense: streams are attached once and act while attached, payload reaches the streams
      that an activation registered, and allocation is fresh. */
  predicate Possible(s: State, e: Event) {
    match e
    case Attach(id, _, _) => id !in s.streams
    case Enable(id, key, _, cell, _) => id in s.streams && (key.Some? && key.value !in s.table ==> cell !in s.pool)
    case Headers(id) => id in s.streams
    case Payload(id, _) => id in s.streams && s.streams[id].limit.Some?
    case Detach(id, _) => id in s.streams
    case Ingest(_, key, _, _, cell) => key !in s.table ==> cell !in s.pool
  }

  ghost function Step(expired: (nat, nat) -> bool, s: State, e: Event): Outcome
    requires Possible(s, e)
  {
    match e
    case Attach(id, a, d) => Ok(s.(streams := s.streams[id := Stream(a, d, "", None, Absent, false, false)]))
    case Enable(_, _, _, _, _) => EnableSpec(expired, s, e)
    case Headers(id) => HeadersSpec(s, id)
    case Payload(id, allowed) => PayloadSpec(s, id, allowed)
    case Detach(id, now) => DetachSpec(s, id, now)
    case Ingest(_, _, _, _, _) => IngestSpec(s, e)
  }

  // ---------------------------------------------------------------- the invariant

  ghost predicate Holds(st: Stream, p: Ptr, d: Direction) {
    st.enabled && st.limit == Some(p) && st.dir == d
  }

  /** Live activated streams whose `limit` points at p and whose method counts in direction d. */
  ghost function Holders(streams: map<StreamId, Stream>, p: Ptr, d: Direction): set<StreamId> {
    set id | id in streams && Holds(streams[id], p, d)
  }

  /** The counter of entry p is the number of live streams holding it plus the streams that left uncounted. */
  ghost predicate Counted(pool: map<Ptr, UserLimit>, streams: map<StreamId, Stream>,
                          lost: multiset<(Ptr, Direction)>, p: Ptr, d: Direction)
    requires p in pool
  {
    pool[p].Count(d) == |Holders(streams, p, d)| + lost[(p, d)]
  }

  /** An enabled stream has an entry unless its direction was unrecognised; past the headers it was recognised. */
  predicate StreamOk(st: Stream) {
    && (st.enabled ==> (st.limit.Some? <==> !st.arg.Unrecognised?))
    && (st.headers_processed ==> st.enabled && st.arg.Recognised?)
  }

  ghost predicate Inv(s: State) {
    && TableOk(s)
    // nothing is leaked: every allocated entry is in the table
    && (forall p :: p in s.pool ==> p in s.table.Values)
    // every pointer held by a live stream is valid and is the table's entry for the stream's key
    && (forall id :: id in s.streams && s.streams[id].limit.Some? ==>
          s.streams[id].enabled && s.streams[id].limit_key in s.table
          && s.table[s.streams[id].limit_key] == s.streams[id].limit.value)
    && (forall id :: id in s.streams ==> StreamOk(s.streams[id]))
    && (forall p, d :: p in s.pool ==> Counted(s.pool, s.streams, s.lost, p, d))
    && (forall p, d :: p !in s.pool ==> s.lost[(p, d)] == 0)
  }

  const Start := State(map[], map[], map[], CLEANUP_INTERVAL_MS, multiset{})

  lemma StartInv()
    ensures Inv(Start)
  {
  }

  lemma HoldersNonEmpty(s: State, id: StreamId, p: Ptr)
    requires id in s.streams && (s.streams[id].limit.Some? ==> s.streams[id].enabled)
    ensures s.streams[id].limit == Some(p) ==> |Holders(s.streams, p, s.streams[id].dir)| >= 1
  {
    var h := Holders(s.streams, p, s.streams[id].dir);
    assert id in h ==> h == {id} + (h - {id});
  }

  /** Cleanup frees only entries that no live stream holds and that no lost stream counts against. */
  lemma CleanupInv(expired: (nat, nat) -> bool, s: State, now: nat)
    requires Inv(s)
    ensures Inv(Cleanup(expired, s, now))
    ensures Cleanup(expired, s, now).streams == s.streams
  {
    if expired(s.next_cleanup_tick, now) {
      var ks := Doomed(expired, s, now);
      forall k | k in ks ensures Unheld(s, s.table[k]) {
        DoomedUnheld(expired, s, now, k);
      }
      FreeInv(s, ks);
    }
  }

  ghost predicate Unheld(s: State, p: Ptr) {
    && (forall id :: id in s.streams ==> s.streams[id].limit != Some(p))
    && (forall d :: s.lost[(p, d)] == 0)
  }

  lemma DoomedUnheld(expired: (nat, nat) -> bool, s: State, now: nat, k: string)
    requires Inv(s) && k in Doomed(expired, s, now)
    ensures Unheld(s, s.table[k])
  {
    var p := s.table[k];
    assert Counted(s.pool, s.streams, s.lost, p, Up) && Counted(s.pool, s.streams, s.lost, p, Down);
    forall id | id in s.streams ensures s.streams[id].limit != Some(p) {
      HoldersNonEmpty(s, id, p);
    }
    forall d ensures s.lost[(p, d)] == 0 {
      assert Counted(s.pool, s.streams, s.lost, p, d);
    }
  }

  lemma FreeInv(s: State, ks: set<string>)
    requires Inv(s) && ks <= s.table.Keys && forall k :: k in ks ==> Unheld(s, s.table[k])
    ensures Inv(FreeKeys(s, ks))
  {
    var t := FreeKeys(s, ks);
    forall p | p in t.pool ensures p in t.table.Values {
      var k :| k in s.table && s.table[k] == p;
      assert k in t.table;
    }
    forall p, d | p in t.pool ensures Counted(t.pool, t.streams, t.lost, p, d) {
      assert Counted(s.pool, s.streams, s.lost, p, d);
    }
    forall id | id in t.streams && t.streams[id].limit.Some? ensures t.streams[id].limit_key in t.table {
      var k := s.streams[id].limit_key;
      assert k in ks ==> Unheld(s, s.table[k]);
    }
  }

  lemma FindOrCreateInv(s: State, key: string, cell: Ptr)
    requires Inv(s) && (key !in s.table ==> cell !in s.pool)
    ensures Inv(FindOrCreate(s, key, cell)) && FindOrCreate(s, key, cell).streams == s.streams
    ensures key in FindOrCreate(s, key, cell).table
  {
    if key !in s.table {
      var t := FindOrCreate(s, key, cell);
      forall p, d | p in t.pool ensures Counted(t.pool, t.streams, t.lost, p, d) {
        if p == cell {
          assert Holders(t.streams, p, d) == {};
        } else {
          assert Counted(s.pool, s.streams, s.lost, p, d);
        }
      }
      forall p | p in t.pool ensures p in t.table.Values {
        if p == cell {
          assert t.table[key] == p;
        } else {
          var k :| k in s.table && s.table[k] == p;
          assert t.table[k] == p;
        }
      }
    }
  }

  /** The new state after the pool and one stream changed: all other counters are untouched. */
  lemma JoinInv(s: State, id: StreamId, st: Stream, key: string)
    requires Inv(s) && id in s.streams && s.streams[id].limit.None? && key in s.table
    requires st.enabled && st.limit_key == key && !st.headers_processed && !st.arg.Unrecognised?
    ensures s.table[key] in s.pool && Inv(Joined(s, id, st, s.table[key]))
  {
    var q := s.table[key];
    var t := Joined(s, id, st, q);
    hide Counted;
    forall p, d | p in t.pool ensures Counted(t.pool, t.streams, t.lost, p, d) {
      assert Counted(s.pool, s.streams, s.lost, p, d);
      JoinCounted(s.pool, s.streams, s.lost, id, st.(limit := Some(q)), q, p, d);
    }
  }

  lemma JoinCounted(pool: map<Ptr, UserLimit>, streams: map<StreamId, Stream>, lost: multiset<(Ptr, Direction)>,
                    id: StreamId, st: Stream, q: Ptr, p: Ptr, d: Direction)
    requires p in pool && q in pool && Counted(pool, streams, lost, p, d)
    requires id in streams && streams[id].limit.None? && st.enabled && st.limit == Some(q)
    ensures Counted(pool[q := pool[q].Add(st.dir, 1)], streams[id := st], lost, p, d)
  {
    var before, after := Holders(streams, p, d), Holders(streams[id := st], p, d);
    assert after == if p == q && d == st.dir then before + {id} else before;
  }

  lemma LeaveInv(s: State, id: StreamId, now: nat)
    requires Inv(s) && id in s.streams
    ensures DetachSpec(s, id, now).Ok? && Inv(DetachSpec(s, id, now).s)
  {
    var st := s.streams[id];
    var t := DetachSpec(s, id, now).s;
    hide Counted;
    forall p, d | p in t.pool ensures Counted(t.pool, t.streams, t.lost, p, d) {
      assert Counted(s.pool, s.streams, s.lost, p, d);
      LeaveCounted(s, id, now, p, d);
    }
  }

  lemma LeaveCounted(s: State, id: StreamId, now: nat, p: Ptr, d: Direction)
    requires p in s.pool && id in s.streams && Counted(s.pool, s.streams, s.lost, p, d) && DetachSpec(s, id, now).Ok?
    requires s.streams[id].limit.Some? ==> s.streams[id].enabled
    requires p in DetachSpec(s, id, now).s.pool
    ensures var t := DetachSpec(s, id, now).s; Counted(t.pool, t.streams, t.lost, p, d)
  {
    DetachCounts(s, id, now, p, d);
    HoldersWithout(s.streams, id, p, d);
    hide Holders, Holds, DetachSpec, UserLimit.Count;
  }

  lemma HoldersWithout(streams: map<StreamId, Stream>, id: StreamId, p: Ptr, d: Direction)
    requires id in streams
    ensures |Holders(streams - {id}, p, d)| == |Holders(streams, p, d)| - (if Holds(streams[id], p, d) then 1 else 0)
  {
    hide Holds;
    var before, after := Holders(streams, p, d), Holders(streams - {id}, p, d);
    assert after == before - {id};
    assert id in before <==> Holds(streams[id], p, d);
  }

  /** A detaching stream that holds an entry either takes its count back or adds to the lost ones. */
  lemma DetachCounts(s: State, id: StreamId, now: nat, p: Ptr, d: Direction)
    requires p in s.pool && id in s.streams && DetachSpec(s, id, now).Ok?
    requires s.streams[id].limit.Some? ==> s.streams[id].enabled
    ensures var t := DetachSpec(s, id, now).s;
            && t.streams == s.streams - {id} && p in t.pool
            && t.pool[p].Count(d) - t.lost[(p, d)]
               == s.pool[p].Count(d) - s.lost[(p, d)] - (if Holds(s.streams[id], p, d) then 1 else 0)
  {
  }

  /** A change that keeps every count, key and pointer keeps the invariant. */
  lemma SameCountsInv(s: State, t: State)
    requires Inv(s)
    requires t.table == s.table && t.pool.Keys == s.pool.Keys && t.lost == s.lost
    requires forall p, d :: p in s.pool ==> t.pool[p].Count(d) == s.pool[p].Count(d)
    requires forall p, d :: p in s.pool ==> Holders(t.streams, p, d) == Holders(s.streams, p, d)
    requires forall id :: id in t.streams && t.streams[id].limit.Some? ==>
               t.streams[id].enabled && t.streams[id].limit_key in t.table
               && t.table[t.streams[id].limit_key] == t.streams[id].limit.value
    requires forall id :: id in t.streams ==> StreamOk(t.streams[id])
    ensures Inv(t)
  {
    forall p, d | p in t.pool ensures Counted(t.pool, t.streams, t.lost, p, d) {
      assert Counted(s.pool, s.streams, s.lost, p, d);
    }
  }

  lemma AttachInv(s: State, id: StreamId, st: Stream)
    requires Inv(s) && id !in s.streams && st.limit.None? && !st.enabled && !st.headers_processed
    ensures Inv(s.(streams := s.streams[id := st]))
  {
    var t := s.(streams := s.streams[id := st]);
    forall p, d | p in s.pool ensures Holders(t.streams, p, d) == Holders(s.streams, p, d) {
    }
    SameCountsInv(s, t);
  }

  lemma HeadersInv(s: State, id: StreamId)
    requires Inv(s) && id in s.streams
    ensures HeadersSpec(s, id).Ok? ==> Inv(HeadersSpec(s, id).s)
    ensures HeadersSpec(s, id) != UseAfterFree
    ensures HeadersSpec(s, id) == Abort <==> Aborts(s, Headers(id))
  {
    if HeadersSpec(s, id).Ok? {
      var t := HeadersSpec(s, id).s;
      forall p, d | p in s.pool ensures Holders(t.streams, p, d) == Holders(s.streams, p, d) {
      }
      SameCountsInv(s, t);
    }
  }

  lemma IngestInv(s: State, e: Event)
    requires Inv(s) && Possible(s, e) && e.Ingest?
    ensures IngestSpec(s, e).Ok? && Inv(IngestSpec(s, e).s)
  {
    FindOrCreateInv(s, e.key, e.cell);
    SameCountsInv(FindOrCreate(s, e.key, e.cell), IngestSpec(s, e).s);
  }

  lemma PayloadInv(s: State, id: StreamId, allowed: bool)
    requires Inv(s) && id in s.streams && s.streams[id].limit.Some?
    ensures PayloadSpec(s, id, allowed) == Abort <==> Aborts(s, Payload(id, allowed))
    ensures PayloadSpec(s, id, allowed) == if Aborts(s, Payload(id, allowed)) then Abort else Ok(s)
  {
  }

  /** What kills the process: an activation without a user key, unless its direction is refused first; the header step
      of a stream whose direction was absent or unrecognised; payload of a stream whose direction was absent. */
  predicate Aborts(s: State, e: Event)
    requires Possible(s, e)
  {
    match e
    case Enable(id, key, arg, _, _) => !s.streams[id].enabled && key.None? && !arg.Unrecognised?
    case Headers(id) => s.streams[id].enabled && s.streams[id].has_addr && !s.streams[id].arg.Recognised?
    case Payload(id, allowed) => s.streams[id].has_addr && allowed && s.streams[id].arg.Absent?
    case _ => false
  }

  /** Every section keeps the invariant, aborts exactly as said above, and never follows a freed pointer. */
  lemma StepInv(expired: (nat, nat) -> bool, s: State, e: Event)
    requires Inv(s) && Possible(s, e)
    ensures Step(expired, s, e).Ok? ==> Inv(Step(expired, s, e).s)
    ensures Step(expired, s, e) != UseAfterFree
    ensures Step(expired, s, e) == Abort <==> Aborts(s, e)
  {
    hide Inv, HeadersSpec, PayloadSpec, DetachSpec, IngestSpec, EnableSpec;
    match e
    case Attach(id, a, d) => AttachInv(s, id, Stream(a, d, "", None, Absent, false, false));
    case Enable(_, _, _, _, _) => EnableInv(expired, s, e);
    case Headers(id) => HeadersInv(s, id);
    case Payload(id, allowed) => PayloadInv(s, id, allowed);
    case Detach(id, now) => LeaveInv(s, id, now);
    case Ingest(_, _, _, _, _) => IngestInv(s, e);
  }

  lemma EnableInv(expired: (nat, nat) -> bool, s: State, e: Event)
    requires Inv(s) && Possible(s, e) && e.Enable?
    ensures Step(expired, s, e) == Abort <==> Aborts(s, e)
    ensures !Aborts(s, e) ==> Step(expired, s, e).Ok? && Inv(Step(expired, s, e).s)
  {
    var st := s.streams[e.id];
    if st.enabled {
    } else if e.arg.Unrecognised? {
      var t := Step(expired, s, e).s;
      forall p, d | p in s.pool ensures Holders(t.streams, p, d) == Holders(s.streams, p, d) {
      }
      SameCountsInv(s, t);
    } else if e.user.Some? {
      var key := e.user.value;
      FindOrCreateInv(s, key, e.cell);
      var s1 := FindOrCreate(s, key, e.cell);
      var st1 := st.(enabled := true, limit_key := key, arg := e.arg);
      JoinInv(s1, e.id, st1, key);
      CleanupInv(expired, Joined(s1, e.id, st1, s1.table[key]), e.now);
      hide Inv;
    }
  }

  // ---------------------------------------------------------------- whole runs

  ghost predicate PossibleRun(expired: (nat, nat) -> bool, s: State, es: seq<Event>)
    decreases |es|
  {
    es == [] || (
      && Possible(s, es[0])
      && (Step(expired, s, es[0]).Ok? ==> PossibleRun(expired, Step(expired, s, es[0]).s, es[1..])))
  }

  ghost function Run(expired: (nat, nat) -> bool, s: State, es: seq<Event>): Outcome
    requires PossibleRun(expired, s, es)
    decreases |es|
  {
    if es == [] then Ok(s)
    else if Step(expired, s, es[0]).Ok? then Run(expired, Step(expired, s, es[0]).s, es[1..])
    else Step(expired, s, es[0])
  }

  /** What a reader of the filter may rely on in every reachable state. */
  ghost predicate Safe(s: State) {
    // no pointer held by an activated live stream has been freed
    && (forall id :: id in s.streams && s.streams[id].enabled && s.streams[id].limit.Some? ==>
          s.streams[id].limit.value in s.pool)
    // counters are never negative, and cover every live holder
    && (forall p, d :: p in s.pool ==> |Holders(s.streams, p, d)| <= s.pool[p].Count(d))
    // counters are exact once nothing has been lost
    && (s.lost == multiset{} ==> Exact(s))
  }

  ghost predicate Exact(s: State) {
    forall p, d :: p in s.pool ==> s.pool[p].Count(d) == |Holders(s.streams, p, d)|
  }

  lemma InvIsSafe(s: State)
    requires Inv(s)
    ensures Safe(s)
  {
    forall p, d | p in s.pool
      ensures |Holders(s.streams, p, d)| <= s.pool[p].Count(d)
      ensures s.lost == multiset{} ==> s.pool[p].Count(d) == |Holders(s.streams, p, d)|
    {
      assert Counted(s.pool, s.streams, s.lost, p, d);
    }
  }

  /** For every expiry rule and every interleaving of sections of any number of streams: nothing freed is
      ever followed, and the final state is safe. */
  lemma {:induction false} RunIsSafe(expired: (nat, nat) -> bool, s: State, es: seq<Event>)
    requires Inv(s) && PossibleRun(expired, s, es)
    ensures Run(expired, s, es) != UseAfterFree
    ensures Run(expired, s, es).Ok? ==> Inv(Run(expired, s, es).s) && Safe(Run(expired, s, es).s)
    decreases |es|
  {
    if es == [] {
      InvIsSafe(s);
    } else {
      StepInv(expired, s, es[0]);
      if Step(expired, s, es[0]).Ok? {
        RunIsSafe(expired, Step(expired, s, es[0]).s, es[1..]);
      }
    }
  }

  /** Every run from the empty filter. */
  lemma RunFromStartIsSafe(expired: (nat, nat) -> bool, es: seq<Event>)
    requires PossibleRun(expired, Start, es)
    ensures Run(expired, Start, es) != UseAfterFree
    ensures Run(expired, Start, es).Ok? ==> Inv(Run(expired, Start, es).s) && Safe(Run(expired, Start, es).s)
  {
    StartInv();
    RunIsSafe(expired, Start, es);
  }

  // ---------------------------------------------------------------- what aborts

  ghost predicate Activated(s: State) {
    forall id :: id in s.streams && s.streams[id].enabled ==> s.streams[id].arg.Recognised?
  }

  predicate WellFormed(e: Event) {
    e.Enable? ==> e.user.Some? && e.arg.Recognised?
  }

  lemma StepActivated(expired: (nat, nat) -> bool, s: State, e: Event)
    requires Inv(s) && Activated(s) && Possible(s, e) && WellFormed(e)
    ensures Step(expired, s, e).Ok? && Activated(Step(expired, s, e).s)
  {
    StepInv(expired, s, e);
    StepStreams(expired, s, e);
    assert e.Payload? ==> s.streams[e.id].enabled;
    hide Inv, Step;
  }

  /** A section changes at most its own stream, and only an activation sets the direction argument. */
  lemma StepStreams(expired: (nat, nat) -> bool, s: State, e: Event)
    requires Possible(s, e) && Step(expired, s, e).Ok?
    ensures var t := Step(expired, s, e).s;
            forall id :: id in t.streams && t.streams[id].enabled ==>
              id in s.streams && if s.streams[id].enabled then t.streams[id].arg == s.streams[id].arg
                                 else e.Enable? && e.id == id && t.streams[id].arg == e.arg
  {
  }

  /** With a user key and a recognised direction in every activation, no run aborts. */
  lemma {:induction false} WellFormedNeverAborts(expired: (nat, nat) -> bool, s: State, es: seq<Event>)
    requires Inv(s) && Activated(s) && PossibleRun(expired, s, es)
    requires forall e :: e in es ==> WellFormed(e)
    ensures Run(expired, s, es).Ok? && Activated(Run(expired, s, es).s)
    decreases |es|
  {
    if es != [] {
      hide Inv, Step;
      assert es[0] in es;
      StepInv(expired, s, es[0]);
      StepActivated(expired, s, es[0]);
      WellFormedNeverAborts(expired, Step(expired, s, es[0]).s, es[1..]);
    }
  }

  lemma WellFormedFromStart(expired: (nat, nat) -> bool, es: seq<Event>)
    requires PossibleRun(expired, Start, es) && forall e :: e in es ==> WellFormed(e)
    ensures Run(expired, Start, es).Ok?
  {
    StartInv();
    WellFormedNeverAborts(expired, Start, es);
  }

  /** In every state: activating a stream and running its header step aborts exactly when the activation lacks a user
      key (and its direction is not refused first) or, for a stream with an address, its direction is absent or
      unrecognised. */
  lemma ActivationAbortsIff(expired: (nat, nat) -> bool, s: State, id: StreamId, key: Option<string>, arg: DirectionArg,
                            cell: Ptr, now: nat)
    requires Inv(s) && Possible(s, Enable(id, key, arg, cell, now)) && !s.streams[id].enabled
    ensures var es := [Enable(id, key, arg, cell, now), Headers(id)];
            var aborts := (key.None? && !arg.Unrecognised?) || (s.streams[id].has_addr && !arg.Recognised?);
            PossibleRun(expired, s, es)
            && (Run(expired, s, es) == Abort <==> aborts) && (!aborts ==> Run(expired, s, es).Ok?)
  {
    hide Inv, Step;
    var e0, e1 := Enable(id, key, arg, cell, now), Headers(id);
    StepInv(expired, s, e0);
    assert [e0, e1][1..] == [e1];
    if Step(expired, s, e0).Ok? {
      var t := Step(expired, s, e0).s;
      OwnActivation(expired, s, e0);
      StepInv(expired, t, e1);
      OneStep(expired, t, e1);
    }
  }

  /** In every state: activating a stream and passing data of it aborts exactly when the user key is missing or data of
      a stream with an address is about to be sent and the optional direction was left out. */
  lemma PayloadAbortsIff(expired: (nat, nat) -> bool, s: State, id: StreamId, key: Option<string>, arg: DirectionArg,
                         cell: Ptr, now: nat, allowed: bool)
    requires Inv(s) && Possible(s, Enable(id, key, arg, cell, now)) && !s.streams[id].enabled && !arg.Unrecognised?
    ensures var es := [Enable(id, key, arg, cell, now), Payload(id, allowed)];
            var aborts := key.None? || (s.streams[id].has_addr && allowed && arg.Absent?);
            PossibleRun(expired, s, es)
            && (Run(expired, s, es) == Abort <==> aborts) && (!aborts ==> Run(expired, s, es).Ok?)
  {
    hide Inv, Step;
    var e0, e1 := Enable(id, key, arg, cell, now), Payload(id, allowed);
    StepInv(expired, s, e0);
    assert [e0, e1][1..] == [e1];
    if Step(expired, s, e0).Ok? {
      var t := Step(expired, s, e0).s;
      OwnActivation(expired, s, e0);
      StepInv(expired, t, e1);
      OneStep(expired, t, e1);
    }
  }

  lemma CleanupKeeps(expired: (nat, nat) -> bool, s: State, now: nat)
    ensures Cleanup(expired, s, now).streams == s.streams && Cleanup(expired, s, now).lost == s.lost
  {
  }

  /** What an activation leaves in its own stream. */
  lemma OwnActivation(expired: (nat, nat) -> bool, s: State, e: Event)
    requires e.Enable? && Possible(s, e) && Step(expired, s, e).Ok? && !s.streams[e.id].enabled
    ensures var t := Step(expired, s, e).s;
            && t.lost == s.lost && e.id in t.streams && t.streams[e.id].enabled && t.streams[e.id].arg == e.arg
            && t.streams[e.id].has_addr == s.streams[e.id].has_addr && t.streams[e.id].dir == s.streams[e.id].dir
            && t.streams[e.id].headers_processed == s.streams[e.id].headers_processed
            && (!e.arg.Unrecognised? ==> t.streams[e.id].limit.Some?)
  {
    if !e.arg.Unrecognised? {
      var key := e.user.value;
      var s1 := FindOrCreate(s, key, e.cell);
      var st := s.streams[e.id].(enabled := true, limit_key := key, arg := e.arg);
      assert s1.table[key] in s1.pool;
      CleanupKeeps(expired, Joined(s1, e.id, st, s1.table[key]), e.now);
    }
    hide Cleanup;
  }

  lemma OneStep(expired: (nat, nat) -> bool, s: State, e: Event)
    requires Possible(s, e)
    ensures PossibleRun(expired, s, [e]) && Run(expired, s, [e]) == Step(expired, s, e)
  {
    assert [e][1..] == [];
    hide Step;
    if Step(expired, s, e).Ok? {
      assert PossibleRun(expired, Step(expired, s, e).s, []);
    }
  }

  // ---------------------------------------------------------------- when counters are exact

  /** Every stream that holds an entry when it detaches has run its request-header step. */
  ghost predicate HeadersBeforeDetach(expired: (nat, nat) -> bool, s: State, es: seq<Event>)
    decreases |es|
  {
    es == [] || (
      && (Possible(s, es[0]) ==> !LeavesUncounted(s, es[0]))
      && (Possible(s, es[0]) && Step(expired, s, es[0]).Ok? ==>
            HeadersBeforeDetach(expired, Step(expired, s, es[0]).s, es[1..])))
  }

  predicate LeavesUncounted(s: State, e: Event)
    requires Possible(s, e)
  {
    e.Detach? && s.streams[e.id].limit.Some? && !(s.streams[e.id].headers_processed && s.streams[e.id].has_addr)
  }

  lemma StepLost(expired: (nat, nat) -> bool, s: State, e: Event)
    requires Inv(s) && Possible(s, e) && Step(expired, s, e).Ok?
    ensures s.lost <= Step(expired, s, e).s.lost
    ensures Step(expired, s, e).s.lost == s.lost <==> !LeavesUncounted(s, e)
  {
    if LeavesUncounted(s, e) {
      var key := (s.streams[e.id].limit.value, s.streams[e.id].dir);
      assert Step(expired, s, e).s.lost[key] == s.lost[key] + 1;
    }
  }

  lemma {:induction false} RunLost(expired: (nat, nat) -> bool, s: State, es: seq<Event>)
    requires Inv(s) && PossibleRun(expired, s, es) && Run(expired, s, es).Ok?
    ensures s.lost <= Run(expired, s, es).s.lost
    ensures Run(expired, s, es).s.lost == s.lost <==> HeadersBeforeDetach(expired, s, es)
    decreases |es|
  {
    if es != [] {
      StepInv(expired, s, es[0]);
      StepLost(expired, s, es[0]);
      hide Inv, Step;
      RunLost(expired, Step(expired, s, es[0]).s, es[1..]);
    }
  }

  lemma ExactIffNothingLost(s: State)
    requires Inv(s)
    ensures Exact(s) <==> s.lost == multiset{}
  {
    InvIsSafe(s);
    if Exact(s) {
      forall p, d ensures s.lost[(p, d)] == 0 {
        assert p in s.pool ==> Counted(s.pool, s.streams, s.lost, p, d);
      }
      forall x ensures s.lost[x] == 0 {
        assert x == (x.0, x.1);
      }
      assert s.lost == multiset{};
    }
  }

  /** Counters are exact at the end of a run if and only if every stream that held an entry when it detached had run its
      request-header step, with an address. */
  lemma CountsExactIff(expired: (nat, nat) -> bool, s: State, es: seq<Event>)
    requires Inv(s) && s.lost == multiset{} && PossibleRun(expired, s, es) && Run(expired, s, es).Ok?
    ensures Exact(Run(expired, s, es).s) <==> HeadersBeforeDetach(expired, s, es)
  {
    RunLost(expired, s, es);
    RunIsSafe(expired, s, es);
    ExactIffNothingLost(Run(expired, s, es).s);
  }

  lemma CountsExactFromStart(expired: (nat, nat) -> bool, es: seq<Event>)
    requires PossibleRun(expired, Start, es) && Run(expired, Start, es).Ok?
    ensures Exact(Run(expired, Start, es).s) <==> HeadersBeforeDetach(expired, Start, es)
  {
    StartInv();
    CountsExactIff(expired, Start, es);
  }

  /** An entry that a stream left uncounted is never freed again, whatever happens. */
  lemma LostEntryNeverFreed(expired: (nat, nat) -> bool, s: State, es: seq<Event>, p: Ptr, d: Direction)
    requires Inv(s) && PossibleRun(expired, s, es) && Run(expired, s, es).Ok? && s.lost[(p, d)] > 0
    ensures var t := Run(expired, s, es).s; p in t.pool && t.pool[p].Count(d) >= s.lost[(p, d)]
  {
    RunLost(expired, s, es);
    RunIsSafe(expired, s, es);
    var t := Run(expired, s, es).s;
    assert t.lost[(p, d)] >= s.lost[(p, d)];
    assert p in t.pool ==> Counted(t.pool, t.streams, t.lost, p, d);
  }

  /** From any state: a stream that is activated and detaches without its header step leaves one count behind for
      good. */
  lemma RejectedRequestLeaks(expired: (nat, nat) -> bool, s: State, id: StreamId, has_addr: bool, d: Direction,
                             key: string, cell: Ptr, now: nat)
    requires Inv(s) && id !in s.streams && (key !in s.table ==> cell !in s.pool)
    ensures var es := [Attach(id, has_addr, d), Enable(id, Some(key), Recognised, cell, now), Detach(id, now)];
            && PossibleRun(expired, s, es) && Run(expired, s, es).Ok?
            && |Run(expired, s, es).s.lost| == |s.lost| + 1 && !Exact(Run(expired, s, es).s)
  {
    var e0, e1, e2 := Attach(id, has_addr, d), Enable(id, Some(key), Recognised, cell, now), Detach(id, now);
    var s1 := s.(streams := s.streams[id := Stream(has_addr, d, "", None, Absent, false, false)]);
    assert Step(expired, s, e0) == Ok(s1) && Possible(s1, e1);
    hide Inv, Step;
    StepInv(expired, s, e0);
    StepInv(expired, s1, e1);
    OwnActivation(expired, s1, e1);
    var s2 := Step(expired, s1, e1).s;
    UncountedLeave(expired, s2, id, now);
    StepInv(expired, s2, e2);
    ExactIffNothingLost(Step(expired, s2, e2).s);
    ThreeSteps(expired, s, e0, e1, e2);
  }

  lemma UncountedLeave(expired: (nat, nat) -> bool, s: State, id: StreamId, now: nat)
    requires id in s.streams && s.streams[id].enabled && s.streams[id].limit.Some? && !s.streams[id].headers_processed
    ensures Step(expired, s, Detach(id, now)).Ok?
    ensures Step(expired, s, Detach(id, now)).s.lost
              == s.lost + multiset{(s.streams[id].limit.value, s.streams[id].dir)}
  {
  }

  lemma ThreeSteps(expired: (nat, nat) -> bool, s: State, e0: Event, e1: Event, e2: Event)
    requires Possible(s, e0) && Step(expired, s, e0).Ok?
    requires var s1 := Step(expired, s, e0).s; Possible(s1, e1) && Step(expired, s1, e1).Ok?
    requires Possible(Step(expired, Step(expired, s, e0).s, e1).s, e2)
    ensures PossibleRun(expired, s, [e0, e1, e2])
    ensures Run(expired, s, [e0, e1, e2]) == Step(expired, Step(expired, Step(expired, s, e0).s, e1).s, e2)
  {
    hide Possible, Step;
    var s1 := Step(expired, s, e0).s;
    OneStep(expired, Step(expired, s1, e1).s, e2);
    assert [e0, e1, e2][1..] == [e1, e2] && [e1, e2][1..] == [e2];
    assert PossibleRun(expired, s1, [e1, e2]);
  }

  // ---------------------------------------------------------------- the quiet period

  lemma OnlyActivationFrees(expired: (nat, nat) -> bool, s: State, e: Event, p: Ptr)
    requires Possible(s, e) && Step(expired, s, e).Ok? && p in s.pool && p !in Step(expired, s, e).s.pool
    ensures e.Enable? && !s.streams[e.id].enabled && !e.arg.Unrecognised? && e.user.Some?
  {
  }

  lemma CleanupFrees(expired: (nat, nat) -> bool, s: State, now: nat, p: Ptr)
    requires p in s.pool && p !in Cleanup(expired, s, now).pool
    ensures Stale(expired, s.pool[p], now)
  {
  }

  lemma NoNegativeCount(s: State, p: Ptr, d: Direction)
    requires Inv(s)
    ensures p in s.pool ==> s.pool[p].Count(d) >= 0
  {
    assert p in s.pool ==> Counted(s.pool, s.streams, s.lost, p, d);
  }

  /** An entry that is stale right after a stream joined some entry is another one, and was stale before. */
  lemma StaleBeforeJoining(expired: (nat, nat) -> bool, s: State, id: StreamId, st: Stream, q: Ptr, p: Ptr, now: nat)
    requires Inv(s) && q in s.pool && p in s.pool && Stale(expired, Joined(s, id, st, q).pool[p], now)
    ensures Stale(expired, s.pool[p], now) && s.pool[p].Count(Up) == 0 && s.pool[p].Count(Down) == 0
  {
    NoNegativeCount(s, q, st.dir);
    NoNegativeCount(s, p, Up);
    NoNegativeCount(s, p, Down);
    hide Inv;
  }

  /** An entry is freed only by an activation's cleanup, with no active request on it and its last request's end at
      least the quiet period ago. */
  lemma FreedOnlyWhenQuiet(expired: (nat, nat) -> bool, s: State, e: Event, p: Ptr)
    requires Inv(s) && Possible(s, e) && Step(expired, s, e).Ok? && p in s.pool && p !in Step(expired, s, e).s.pool
    ensures e.Enable? && expired(s.pool[p].last_request_end_tick + CLEANUP_MIN_MS_SINCE_DISCONNECT, e.now)
    ensures s.pool[p].Count(Up) == 0 && s.pool[p].Count(Down) == 0
  {
    OnlyActivationFrees(expired, s, e, p);
    FindOrCreateInv(s, e.user.value, e.cell);
    hide Inv, Cleanup, Stale;
    var s1 := FindOrCreate(s, e.user.value, e.cell);
    var q := s1.table[e.user.value];
    var st := s.streams[e.id].(enabled := true, limit_key := e.user.value, arg := e.arg);
    assert q in s1.pool;
    CleanupFrees(expired, Joined(s1, e.id, st, q), e.now, p);
    StaleBeforeJoining(expired, s1, e.id, st, q, p, e.now);
    StaleIsExpired(expired, s.pool[p], e.now);
  }

  /** An activation that goes through frees exactly, when the cleanup is due, the other users' entries that have no
      active request in either direction and ended their last one at least five seconds ago; the next cleanup is then
      due thirty seconds later. */
  lemma FreedIff(expired: (nat, nat) -> bool, s: State, e: Event, key: string)
    requires Inv(s) && Possible(s, e) && e.Enable? && e.user.Some? && !e.arg.Unrecognised? && !s.streams[e.id].enabled
    requires Step(expired, s, e).Ok? && key in s.table && s.table[key] in s.pool
    ensures var t, u := Step(expired, s, e).s, s.pool[s.table[key]];
            && (key !in t.table <==>
                  expired(s.next_cleanup_tick, e.now) && key != e.user.value
                  && u.upload.active_requests == 0 && u.download.active_requests == 0
                  && expired(u.last_request_end_tick + 5000, e.now))
            && t.next_cleanup_tick == if expired(s.next_cleanup_tick, e.now) then e.now + 30000 else s.next_cleanup_tick
  {
    FindOrCreateInv(s, e.user.value, e.cell);
    var s1 := FindOrCreate(s, e.user.value, e.cell);
    var q, p := s1.table[e.user.value], s.table[key];
    var st := s.streams[e.id].(enabled := true, limit_key := e.user.value, arg := e.arg);
    assert q in s1.pool && (p == q <==> key == e.user.value);
    NoNegativeCount(s1, q, st.dir);
    NoNegativeCount(s1, p, Up);
    NoNegativeCount(s1, p, Down);
    assert s1.pool[p] == s.pool[p] && s1.table[key] == p;
    hide Inv;
    var s2 := Joined(s1, e.id, st, q);
    assert Step(expired, s, e).s == Cleanup(expired, s2, e.now);
    assert s2.next_cleanup_tick == s.next_cleanup_tick && s2.table == s1.table;
    assert p != q ==> s2.pool[p] == s.pool[p];
  }

  lemma StaleIsExpired(expired: (nat, nat) -> bool, u: UserLimit, now: nat)
    requires Stale(expired, u, now)
    ensures expired(u.last_request_end_tick + CLEANUP_MIN_MS_SINCE_DISCONNECT, now)
  {
  }

  /** No activation of the run comes after the quiet period that starts at a tick of `ticks` or at a request's end
      during the run. */
  ghost predicate WithinQuiet(expired: (nat, nat) -> bool, ticks: set<nat>, es: seq<Event>) {
    forall e, x :: e in es && e.Enable? && x in ticks + EndTicks(es) ==>
      !expired(x + CLEANUP_MIN_MS_SINCE_DISCONNECT, e.now)
  }

  ghost function EndTicks(es: seq<Event>): set<nat> {
    set e | e in es && e.Detach? :: e.now
  }

  lemma QuietTail(expired: (nat, nat) -> bool, ticks: set<nat>, es: seq<Event>)
    requires es != [] && WithinQuiet(expired, ticks, es)
    ensures es[0].Enable? ==> forall x :: x in ticks ==> !expired(x + CLEANUP_MIN_MS_SINCE_DISCONNECT, es[0].now)
    ensures WithinQuiet(expired, ticks + (if es[0].Detach? then {es[0].now} else {}), es[1..])
  {
    assert es[0] in es;
    var more := ticks + if es[0].Detach? then {es[0].now} else {};
    assert more + EndTicks(es[1..]) <= ticks + EndTicks(es);
    forall x | x in ticks ensures x in ticks + EndTicks(es) {
    }
  }

  lemma StepTick(expired: (nat, nat) -> bool, s: State, e: Event, p: Ptr)
    requires Possible(s, e) && Step(expired, s, e).Ok? && p in s.pool && p in Step(expired, s, e).s.pool
    ensures var tick := Step(expired, s, e).s.pool[p].last_request_end_tick;
            tick == s.pool[p].last_request_end_tick || (e.Detach? && tick == e.now)
  {
  }

  lemma QuietStep(expired: (nat, nat) -> bool, s: State, e: Event, p: Ptr, ticks: set<nat>)
    requires Inv(s) && Possible(s, e) && Step(expired, s, e).Ok?
    requires p in s.pool && s.pool[p].last_request_end_tick in ticks
    requires e.Enable? ==> forall x :: x in ticks ==> !expired(x + CLEANUP_MIN_MS_SINCE_DISCONNECT, e.now)
    ensures p in Step(expired, s, e).s.pool
    ensures Step(expired, s, e).s.pool[p].last_request_end_tick in ticks + if e.Detach? then {e.now} else {}
  {
    hide Inv, Step;
    if p !in Step(expired, s, e).s.pool {
      FreedOnlyWhenQuiet(expired, s, e, p);
      assert false;
    }
    StepTick(expired, s, e, p);
  }

  /** An entry whose quiet period never runs out is never freed. */
  lemma {:induction false} QuietEntryStays(expired: (nat, nat) -> bool, s: State, es: seq<Event>, p: Ptr,
                                           ticks: set<nat>)
    requires Inv(s) && PossibleRun(expired, s, es) && Run(expired, s, es).Ok?
    requires p in s.pool && s.pool[p].last_request_end_tick in ticks && WithinQuiet(expired, ticks, es)
    ensures p in Run(expired, s, es).s.pool
    decreases |es|
  {
    if es != [] {
      var e := es[0];
      QuietTail(expired, ticks, es);
      hide Inv, Step, WithinQuiet;
      StepInv(expired, s, e);
      QuietStep(expired, s, e, p, ticks);
      QuietEntryStays(expired, Step(expired, s, e).s, es[1..], p, ticks + if e.Detach? then {e.now} else {});
    }
  }

  /** After the end of a counted request its entry stays, pointer and all, at least until the quiet period is over. */
  lemma EntryOutlivesRequest(expired: (nat, nat) -> bool, s: State, id: StreamId, now: nat, es: seq<Event>)
    requires Inv(s) && id in s.streams && s.streams[id].headers_processed && s.streams[id].has_addr
    requires DetachSpec(s, id, now).Ok? ==> PossibleRun(expired, DetachSpec(s, id, now).s, es)
    requires WithinQuiet(expired, {now}, es)
    ensures s.streams[id].limit.Some? && DetachSpec(s, id, now).Ok?
    ensures Run(expired, DetachSpec(s, id, now).s, es).Ok? ==>
              s.streams[id].limit.value in Run(expired, DetachSpec(s, id, now).s, es).s.pool
  {
    LeaveInv(s, id, now);
    if Run(expired, DetachSpec(s, id, now).s, es).Ok? {
      QuietEntryStays(expired, DetachSpec(s, id, now).s, es, s.streams[id].limit.value, {now});
    }
  }

  // ---------------------------------------------------------------- the filter object

  class Filter {
    const expired: (nat, nat) -> bool
    var table: map<string, Ptr>
    var pool: map<Ptr, UserLimit>
    var streams: map<StreamId, Stream>
    var next_cleanup_tick: nat
    ghost var lost: multiset<(Ptr, Direction)>

    ghost function Now(): State
      reads this
    {
      State(table, pool, streams, next_cleanup_tick, lost)
    }

    constructor (expired: (nat, nat) -> bool)
      ensures Now() == Start && this.expired == expired && Inv(Now())
    {
      this.expired := expired;
      table, pool, streams, next_cleanup_tick, lost := map[], map[], map[], CLEANUP_INTERVAL_MS, multiset{};
    }

    method LookUp(key: string, cell: Ptr) returns (p: Ptr)
      requires Inv(Now()) && (key !in table ==> cell !in pool)
      modifies this`table, this`pool
      ensures Now() == FindOrCreate(old(Now()), key, cell) && Inv(Now())
      ensures key in table && p == table[key] && p in pool
    {
      FindOrCreateInv(Now(), key, cell);
      if key !in table {
        pool := pool[cell := ZeroLimit];
        table := table[key := cell];
      }
      p := table[key];
    }

    /** weir_enable_filter */
    method EnableFilter(id: StreamId, key: Option<string>, arg: DirectionArg, cell: Ptr, now: nat)
      returns (aborted: bool)
      requires Inv(Now()) && id in streams && (key.Some? && key.value !in table ==> cell !in pool)
      modifies this`table, this`pool, this`streams, this`next_cleanup_tick
      ensures aborted <==> Aborts(old(Now()), Enable(id, key, arg, cell, now))
      ensures Step(expired, old(Now()), Enable(id, key, arg, cell, now)) == if aborted then Abort else Ok(Now())
      ensures !aborted ==> Inv(Now())
    {
      EnableInv(expired, Now(), Enable(id, key, arg, cell, now));
      var st := streams[id];
      if st.enabled {
        return false;
      }
      st := st.(enabled := true, arg := arg);
      if key.Some? {
        st := st.(limit_key := key.value);
      }
      if arg.Unrecognised? {
        streams := streams[id := st];
        return false;
      }
      if key.None? {
        return true;
      }
      var p := LookUp(key.value, cell);
      JoinInv(Now(), id, st, key.value);
      streams := streams[id := st.(limit := Some(p))];
      pool := pool[p := pool[p].Add(st.dir, 1)];
      if expired(next_cleanup_tick, now) {
        CleanTable(now);
        next_cleanup_tick := now + CLEANUP_INTERVAL_MS;
      }
      return false;
    }

    /** The cleanup loop: visits every entry once, in any order, freeing the stale ones. */
    method CleanTable(now: nat)
      requires Inv(Now())
      modifies this`table, this`pool
      ensures Now() == FreeKeys(old(Now()), Doomed(expired, old(Now()), now))
    {
      ghost var s0 := Now();
      assert TableOk(s0);
      hide Inv;
      ghost var gone: set<string> := {};
      var todo := table.Keys;
      while todo != {}
        invariant todo <= s0.table.Keys && gone !! todo && gone <= s0.table.Keys
        invariant Now() == FreeKeys(s0, gone)
        invariant forall k :: k in s0.table && k !in todo ==> (k in gone <==> k in Doomed(expired, s0, now))
        decreases todo
      {
        var key :| key in todo;
        todo := todo - {key};
        FreeOne(s0, gone, key);
        StaleIsDoomed(expired, s0, gone, key, now);
        hide TableOk, FreeKeys, Doomed, Stale;
        if Stale(expired, pool[table[key]], now) {
          pool := pool - {table[key]};
          table := table - {key};
          gone := gone + {key};
        }
      }
      assert gone == Doomed(expired, s0, now);
    }

    /** weir_http_headers, for the request */
    method HttpHeaders(id: StreamId) returns (active_requests: int, aborted: bool)
      requires Inv(Now()) && id in streams
      modifies this`streams
      ensures aborted <==> Aborts(old(Now()), Headers(id))
      ensures Step(expired, old(Now()), Headers(id)) == if aborted then Abort else Ok(Now())
      ensures !aborted ==> Inv(Now())
      // the number put on the `req` line: the live streams of this user and direction, this one among them, and
      // those that left uncounted
      ensures !aborted && streams[id].enabled && streams[id].has_addr ==>
                var p, d := streams[id].limit.value, streams[id].dir;
                active_requests == |Holders(streams, p, d)| + lost[(p, d)] && id in Holders(streams, p, d)
    {
      StepInv(expired, Now(), Headers(id));
      active_requests, aborted := 0, false;
      var st := streams[id];
      if st.enabled && st.has_addr {
        if st.limit.None? || st.arg.Absent? {
          return 0, true;
        }
        assert Counted(pool, streams, lost, st.limit.value, st.dir);
        active_requests := pool[st.limit.value].Count(st.dir);
        ghost var before := Holders(streams, st.limit.value, st.dir);
        streams := streams[id := st.(headers_processed := true)];
        assert Holders(streams, st.limit.value, st.dir) == before;
      }
    }

    /** weir_detach; gives the number put on the `req_end` line, if one is printed. */
    method DetachStream(id: StreamId, now: nat) returns (active_requests: Option<int>)
      requires Inv(Now()) && id in streams
      modifies this`streams, this`pool, this`lost
      ensures Ok(Now()) == Step(expired, old(Now()), Detach(id, now)) && Inv(Now())
      ensures active_requests.Some? <==> old(streams)[id].headers_processed && old(streams)[id].has_addr
      // the live streams of this user and direction that remain, and those that left uncounted
      ensures active_requests.Some? ==>
                old(streams)[id].limit.Some?
                && var p, d := old(streams)[id].limit.value, old(streams)[id].dir;
                   active_requests.value == |Holders(streams, p, d)| + lost[(p, d)]
    {
      LeaveInv(Now(), id, now);
      active_requests := None;
      var st := streams[id];
      if st.enabled && st.headers_processed && st.has_addr {
        var p := st.limit.value;
        pool := pool[p := pool[p].Add(st.dir, -1).(last_request_end_tick := now)];
        active_requests := Some(pool[p].Count(st.dir));
        assert Counted(pool, streams - {id}, lost, p, st.dir);
      } else if st.enabled && st.limit.Some? {
        lost := lost + multiset{(st.limit.value, st.dir)};
      }
      streams := streams - {id};
    }

    /** weir_ingest_limit_share_update, on the instance the update names */
    method IngestLimitShare(timestamp: nat, key: string, direction: string, share: nat, cell: Ptr)
      requires Inv(Now()) && (key !in table ==> cell !in pool)
      modifies this`table, this`pool
      ensures Ok(Now()) == Step(expired, old(Now()), Ingest(timestamp, key, direction, share, cell)) && Inv(Now())
      // the newest share is stored, at most 32 bits wide, in the named direction
      ensures key in table && table[key] in pool
      ensures (direction == "up" || direction == "dwn") ==>
                var l := if direction == "up" then pool[table[key]].upload else pool[table[key]].download;
                l.limit_received && l.limit_timestamp >= timestamp
                && (l.limit_timestamp == timestamp ==>
                      l.bytes_per_second == if share <= 0xFFFF_FFFF then share else 0xFFFF_FFFF)
    {
      StepInv(expired, Now(), Ingest(timestamp, key, direction, share, cell));
      var p := LookUp(key, cell);
      var d := DirectionNamed(direction);
      if d.Some? {
        var l := pool[p].Of(d.value).(limit_received := true);
        if timestamp >= l.limit_timestamp {
          l := l.(limit_timestamp := timestamp, bytes_per_second := if share > UINT_MAX then UINT_MAX else share);
        }
        pool := pool[p := pool[p].With(d.value, l)];
      }
    }
  }

  lemma StaleIsDoomed(expired: (nat, nat) -> bool, s: State, gone: set<string>, key: string, now: nat)
    requires TableOk(s) && gone <= s.table.Keys && key in s.table && key !in gone
    ensures var t := FreeKeys(s, gone);
            key in t.table && t.table[key] in t.pool
            && (Stale(expired, t.pool[t.table[key]], now) <==> key in Doomed(expired, s, now))
  {
    FreeOne(s, gone, key);
    hide Stale;
  }

  lemma FreeOne(s: State, gone: set<string>, key: string)
    requires TableOk(s) && gone <= s.table.Keys && key in s.table && key !in gone
    ensures var t := FreeKeys(s, gone);
            key in t.table && t.table[key] == s.table[key] && t.table[key] in t.pool
            && FreeKeys(s, gone + {key}) == t.(table := t.table - {key}, pool := t.pool - {t.table[key]})
  {
    var t, u := FreeKeys(s, gone), FreeKeys(s, gone + {key});
    assert u.table == t.table - {key};
    assert u.pool == t.pool - {t.table[key]};
  }
}
