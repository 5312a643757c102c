/** polygen's per-second violation bookkeeping (violations.py): which keys are pending, which were sent, and
    when a throughput key is sent again. */
module Violations {

  import opened Common

  datatype UsageValue =
    | Get | Put | Post | Delete | Head
    | ListObjectsV2 | ListMultipartUploads | ListObjectVersions | ListBuckets | ListObjects
    | GetObject | DeleteObjects | DeleteObject | CreateBucket
    | ThroughputRead | ThroughputWrite | RequestsBlock | RequestsUnblock

  /** Every category, in the order of the enumeration. */
  const AllValues: seq<UsageValue> :=
    [Get, Put, Post, Delete, Head, ListObjectsV2, ListMultipartUploads, ListObjectVersions, ListBuckets, ListObjects,
     GetObject, DeleteObjects, DeleteObject, CreateBucket, ThroughputRead, ThroughputWrite, RequestsBlock,
     RequestsUnblock]

  lemma AllValuesComplete(v: UsageValue)
    ensures v in AllValues
  {
    var i := Ordinal(v);
    assert AllValues[i] == v;
  }

  function Ordinal(v: UsageValue): nat {
    match v
    case Get => 0 case Put => 1 case Post => 2 case Delete => 3 case Head => 4 case ListObjectsV2 => 5
    case ListMultipartUploads => 6 case ListObjectVersions => 7 case ListBuckets => 8 case ListObjects => 9
    case GetObject => 10 case DeleteObjects => 11 case DeleteObject => 12 case CreateBucket => 13
    case ThroughputRead => 14 case ThroughputWrite => 15 case RequestsBlock => 16 case RequestsUnblock => 17
  }

  lemma OrdinalOf(i: nat)
    requires i < |AllValues|
    ensures Ordinal(AllValues[i]) == i
  {
  }

  const RESEND_FACTOR: real := 0.15

  predicate IsThroughput(v: UsageValue) {
    v.ThroughputRead? || v.ThroughputWrite?
  }

  /** UserLevelViolation */
  datatype Violation = Violation(new_keys: set<string>, sent_keys: set<string>, ratios: map<string, real>)

  const Fresh := Violation({}, {}, map[])

  /** One outgoing message: its keys, and the ratios a throughput message prints beside them. */
  datatype Message = Message(value: UsageValue, keys: set<string>, ratios: map<string, real>)

  /** add_new_key: a ratio of None or 0.0 is not recorded. */
  function AddNewKey(v: Violation, key: string, ratio: Option<real>, remove_sent: bool): Violation {
    Violation(v.new_keys + {key},
              if remove_sent then v.sent_keys - {key} else v.sent_keys,
              if ratio.Some? && ratio.value != 0.0 then v.ratios[key := ratio.value] else v.ratios)
  }

  function Ratio(v: Violation, key: string): real {
    if key in v.ratios then v.ratios[key] else 0.0
  }

  function AddViolation(v: Violation, value: UsageValue, key: string, ratio: Option<real>): Violation {
    if key !in v.sent_keys then AddNewKey(v, key, ratio, false)
    else if IsThroughput(value) && ratio.Some? && ratio.value - Ratio(v, key) > RESEND_FACTOR
    then AddNewKey(v, key, ratio, true)
    else v
  }

  /** Printing a throughput message looks every pending key up in the ratios. */
  predicate Printable(v: Violation, value: UsageValue) {
    IsThroughput(value) ==> v.new_keys <= v.ratios.Keys
  }

  function Flushed(v: Violation): Violation {
    Violation({}, v.sent_keys + v.new_keys, v.ratios)
  }

  function MessageOf(v: Violation, value: UsageValue): Message {
    var ratios := map k | k in v.new_keys && k in v.ratios :: v.ratios[k];
    Message(value, v.new_keys, if IsThroughput(value) then ratios else map[])
  }

  // ---------------------------------------------------------------- runs within one epoch, for one category

  /** Lose stands for a generate that flushes this category and then raises in a later one: its messages are lost. */
  datatype Event = Add(key: string, ratio: Option<real>) | Generate | Lose

  function Apply(v: Violation, value: UsageValue, e: Event): Violation {
    match e
    case Add(key, ratio) => AddViolation(v, value, key, ratio)
    case Generate => Flushed(v)
    case Lose => Flushed(v)
  }

  function RunEnd(v: Violation, value: UsageValue, es: seq<Event>): Violation
    decreases |es|
  {
    if es == [] then v else RunEnd(Apply(v, value, es[0]), value, es[1..])
  }

  /** The messages of a run, one for every generate that finds something pending. */
  function Sends(v: Violation, value: UsageValue, es: seq<Event>): seq<Message>
    decreases |es|
  {
    if es == [] then [] else
      (if es[0].Generate? && v.new_keys != {} then [MessageOf(v, value)] else [])
      + Sends(Apply(v, value, es[0]), value, es[1..])
  }

  ghost function Added(es: seq<Event>): set<string> {
    set e | e in es && e.Add? :: e.key
  }

  ghost function KeysSent(ms: seq<Message>): set<string> {
    if ms == [] then {} else ms[0].keys + KeysSent(ms[1..])
  }

  /** The keys whose message was lost. */
  ghost function KeysLost(v: Violation, value: UsageValue, es: seq<Event>): set<string>
    decreases |es|
  {
    if es == [] then {} else
      (if es[0].Lose? then v.new_keys else {}) + KeysLost(Apply(v, value, es[0]), value, es[1..])
  }

  ghost predicate Sound(v: Violation) {
    v.new_keys !! v.sent_keys
  }

  lemma ApplySound(v: Violation, value: UsageValue, e: Event)
    requires Sound(v)
    ensures var w := Apply(v, value, e);
            && Sound(w) && w.new_keys + w.sent_keys == v.new_keys + v.sent_keys + (if e.Add? then {e.key} else {})
            && if e.Add? then w.sent_keys <= v.sent_keys && v.new_keys <= w.new_keys
               else w.sent_keys == v.sent_keys + v.new_keys
  {
  }

  /** Pending and sent stay disjoint, and no added key is forgotten: at the end it is pending or marked sent, and every
      key newly marked sent was in a message, delivered or lost. */
  lemma {:induction false} NothingForgotten(v: Violation, value: UsageValue, es: seq<Event>)
    requires Sound(v)
    ensures var w, flushed := RunEnd(v, value, es), KeysSent(Sends(v, value, es)) + KeysLost(v, value, es);
            && Sound(w) && w.new_keys + w.sent_keys == v.new_keys + v.sent_keys + Added(es)
            && w.sent_keys <= v.sent_keys + flushed && v.new_keys <= w.new_keys + flushed
            && Added(es) - v.sent_keys <= w.new_keys + flushed
    decreases |es|
  {
    if es != [] {
      var w := Apply(v, value, es[0]);
      ApplySound(v, value, es[0]);
      hide Apply;
      NothingForgotten(w, value, es[1..]);
      assert Added(es) == Added([es[0]]) + Added(es[1..]) by { assert es == [es[0]] + es[1..]; }
      assert es[0].Add? ==> Added([es[0]]) == {es[0].key};
      SendsHead(v, value, es);
    }
  }

  lemma SendsHead(v: Violation, value: UsageValue, es: seq<Event>)
    requires es != []
    ensures KeysSent(Sends(v, value, es))
              == (if es[0].Generate? then v.new_keys else {}) + KeysSent(Sends(Apply(v, value, es[0]), value, es[1..]))
  {
    hide Apply;
    var rest := Sends(Apply(v, value, es[0]), value, es[1..]);
    if es[0].Generate? && v.new_keys != {} {
      assert ([MessageOf(v, value)] + rest)[1..] == rest;
    } else {
      assert [] + rest == rest;
    }
  }

  /** Every message of a run is of the category of the run. */
  lemma {:induction false} SentInOwnCategory(v: Violation, value: UsageValue, es: seq<Event>)
    ensures forall m :: m in Sends(v, value, es) ==> m.value == value
    decreases |es|
  {
    if es != [] {
      SentInOwnCategory(Apply(v, value, es[0]), value, es[1..]);
      hide Apply;
    }
  }

  /** No key appears in two messages, nor in one when it is in `seen`. */
  ghost predicate AtMostOnce(seen: set<string>, ms: seq<Message>)
    decreases |ms|
  {
    ms == [] || (ms[0].keys !! seen && AtMostOnce(seen + ms[0].keys, ms[1..]))
  }

  lemma {:induction false} AtMostOnceLess(seen: set<string>, more: set<string>, ms: seq<Message>)
    requires seen <= more && AtMostOnce(more, ms)
    ensures AtMostOnce(seen, ms)
    decreases |ms|
  {
    if ms != [] {
      AtMostOnceLess(seen + ms[0].keys, more + ms[0].keys, ms[1..]);
    }
  }

  /** Outside the throughput categories a key is sent at most once per epoch, whatever is added and when. */
  lemma {:induction false} SentAtMostOnce(v: Violation, value: UsageValue, es: seq<Event>)
    requires Sound(v) && !IsThroughput(value)
    ensures AtMostOnce(v.sent_keys, Sends(v, value, es))
    decreases |es|
  {
    if es != [] {
      var w := Apply(v, value, es[0]);
      ApplySound(v, value, es[0]);
      SentAtMostOnce(w, value, es[1..]);
      var rest := Sends(w, value, es[1..]);
      if es[0].Generate? && v.new_keys != {} {
        assert ([MessageOf(v, value)] + rest)[1..] == rest;
      } else {
        assert Sends(v, value, es) == rest;
        AtMostOnceLess(v.sent_keys, w.sent_keys, rest);
      }
    }
  }

  /** Every add carries a ratio other than 0.0 (polygen's are at least 1.0). */
  ghost predicate AllRatios(es: seq<Event>) {
    forall e :: e in es && e.Add? ==> e.ratio.Some? && e.ratio.value != 0.0
  }

  /** Then printing never fails: every pending or sent key has a ratio. */
  lemma {:induction false} RatiosNeverMissing(v: Violation, value: UsageValue, es: seq<Event>)
    requires AllRatios(es) && v.new_keys + v.sent_keys <= v.ratios.Keys
    ensures RunEnd(v, value, es).new_keys + RunEnd(v, value, es).sent_keys <= RunEnd(v, value, es).ratios.Keys
    ensures Printable(RunEnd(v, value, es), value)
    decreases |es|
  {
    if es != [] {
      assert es[0] in es;
      RatiosNeverMissing(Apply(v, value, es[0]), value, es[1..]);
    }
  }

  /** A throughput key added without a ratio cannot be printed. */
  lemma MissingRatioFails(key: string, value: UsageValue)
    requires IsThroughput(value)
    ensures !Printable(AddViolation(Fresh, value, key, None), value)
    ensures !Printable(AddViolation(Fresh, value, key, Some(0.0)), value)
  {
    assert key in AddViolation(Fresh, value, key, None).new_keys;
    assert key in AddViolation(Fresh, value, key, Some(0.0)).new_keys;
  }

  // ---------------------------------------------------------------- resending

  /** At most one add per key between two generates; `window` holds the keys added since the last one. */
  ghost predicate OneAddPerWindow(window: set<string>, es: seq<Event>)
    decreases |es|
  {
    es == [] ||
    match es[0]
    case Add(key, _) => key !in window && OneAddPerWindow(window + {key}, es[1..])
    case _ => OneAddPerWindow({}, es[1..])
  }

  /** Each time a key is sent again its ratio is more than the resend factor above the last one sent. */
  ghost predicate Rising(last: map<string, real>, ms: seq<Message>)
    decreases |ms|
  {
    ms == [] ||
    ( && (forall k :: k in ms[0].keys ==> k in ms[0].ratios)
      && (forall k :: k in ms[0].keys && k in last ==> ms[0].ratios[k] > last[k] + RESEND_FACTOR)
      && Rising(last + ms[0].ratios, ms[1..]))
  }

  /** The adds since the last flush, in order. */
  type Window = seq<(string, real)>

  function RatiosOf(w: Window, k: string): seq<real> {
    if w == [] then [] else RatiosOf(w[..|w| - 1], k) + (if w[|w| - 1].0 == k then [w[|w| - 1].1] else [])
  }

  ghost function KeysOf(w: Window): set<string> {
    set a | a in w :: a.0
  }

  /** The window makes k pending: it was not flushed before, or some add exceeds the last flushed ratio enough. */
  ghost predicate Crosses(base: map<string, real>, w: Window, k: string) {
    var rs := RatiosOf(w, k);
    rs != [] && (k in base ==> exists i :: 0 <= i < |rs| && rs[i] > base[k] + RESEND_FACTOR)
  }

  /** What a window leads to: the keys it makes pending, each with its last ratio, high or low. */
  ghost function Resent(base: map<string, real>, w: Window): map<string, real> {
    map k | k in KeysOf(w) && Crosses(base, w, k) :: RatiosOf(w, k)[|RatiosOf(w, k)| - 1]
  }

  /** The exact condition, on the events alone. `told` holds the ratios last sent, `base` those last flushed: whenever
      some add of a window exceeds the last flushed ratio by more than the factor, the last add of that window exceeds
      the last sent one by more than the factor. */
  ghost predicate Climbs(told: map<string, real>, base: map<string, real>, w: Window, es: seq<Event>)
    decreases |es|
  {
    es == [] ||
    var out := Resent(base, w);
    match es[0]
    case Add(key, ratio) => Climbs(told, base, if ratio.Some? then w + [(key, ratio.value)] else w, es[1..])
    case Generate => (forall k :: k in out && k in told ==> out[k] > told[k] + RESEND_FACTOR)
                     && Climbs(told + out, base + out, [], es[1..])
    case Lose => Climbs(told, base + out, [], es[1..])
  }

  /** The sets and ratios that polygen keeps, in terms of the events since the last flush. */
  ghost predicate Follows(v: Violation, base: map<string, real>, w: Window) {
    var out := Resent(base, w);
    && v.new_keys == out.Keys && v.sent_keys == base.Keys - out.Keys
    && (forall k :: k in out ==> k in v.ratios && v.ratios[k] == out[k])
    && (forall k :: k in base && k !in out ==> k in v.ratios && v.ratios[k] == base[k])
  }

  lemma {:induction false} RatiosInWindow(w: Window, k: string)
    ensures RatiosOf(w, k) != [] <==> k in KeysOf(w)
  {
    if w != [] {
      RatiosInWindow(w[..|w| - 1], k);
      assert w == w[..|w| - 1] + [w[|w| - 1]];
    }
  }

  lemma ResentAdd(base: map<string, real>, w: Window, key: string, r: real)
    ensures var out, out' := Resent(base, w), Resent(base, w + [(key, r)]);
            out' == if key in out || (key in base ==> r > base[key] + RESEND_FACTOR) then out[key := r] else out
  {
    hide Resent, Crosses, RatiosOf;
    var w' := w + [(key, r)];
    var out, out' := Resent(base, w), Resent(base, w');
    var expected := if key in out || (key in base ==> r > base[key] + RESEND_FACTOR) then out[key := r] else out;
    forall k ensures (k in out' <==> k in expected) && (k in out' ==> out'[k] == expected[k]) {
      ResentAt(base, w, k);
      ResentAt(base, w', k);
      CrossesAdd(base, w, key, r);
      if k != key {
        OtherKey(base, w, key, r, k);
      }
    }
  }

  lemma ResentAt(base: map<string, real>, w: Window, k: string)
    ensures k in Resent(base, w) <==> Crosses(base, w, k)
    ensures k in Resent(base, w) ==> RatiosOf(w, k) != [] && Resent(base, w)[k] == RatiosOf(w, k)[|RatiosOf(w, k)| - 1]
  {
    RatiosInWindow(w, k);
  }

  lemma OtherKey(base: map<string, real>, w: Window, key: string, r: real, k: string)
    requires k != key
    ensures RatiosOf(w + [(key, r)], k) == RatiosOf(w, k)
    ensures Crosses(base, w + [(key, r)], k) <==> Crosses(base, w, k)
  {
    var w' := w + [(key, r)];
    assert w'[..|w'| - 1] == w;
  }

  lemma CrossesAdd(base: map<string, real>, w: Window, key: string, r: real)
    ensures RatiosOf(w + [(key, r)], key) == RatiosOf(w, key) + [r]
    ensures Crosses(base, w + [(key, r)], key) <==>
              Crosses(base, w, key) || (key in base ==> r > base[key] + RESEND_FACTOR)
  {
    var w' := w + [(key, r)];
    assert w'[..|w'| - 1] == w;
    var rs, rs' := RatiosOf(w, key), RatiosOf(w', key);
    assert rs' == rs + [r];
    assert rs'[|rs|] == r;
    assert forall i :: 0 <= i < |rs| ==> rs'[i] == rs[i];
  }

  lemma FollowsAdd(v: Violation, value: UsageValue, base: map<string, real>, w: Window, key: string, r: real)
    requires IsThroughput(value) && r != 0.0 && Follows(v, base, w)
    ensures Follows(AddViolation(v, value, key, Some(r)), base, w + [(key, r)])
  {
    ResentAdd(base, w, key, r);
    hide Resent;
  }

  lemma FollowsFlush(v: Violation, base: map<string, real>, w: Window)
    requires Follows(v, base, w)
    ensures Follows(Flushed(v), base + Resent(base, w), [])
  {
    assert Resent(base + Resent(base, w), []) == map[];
    hide Resent;
  }

  lemma MessageIsResent(v: Violation, value: UsageValue, base: map<string, real>, w: Window)
    requires IsThroughput(value) && Follows(v, base, w)
    ensures MessageOf(v, value) == Message(value, Resent(base, w).Keys, Resent(base, w))
  {
    hide Resent;
    assert MessageOf(v, value).ratios == Resent(base, w);
  }

  /** Resent ratios rise by more than the factor in a run if and only if its events climb. */
  lemma {:induction false} RatiosRiseIff(v: Violation, value: UsageValue, es: seq<Event>, told: map<string, real>,
                                         base: map<string, real>, w: Window)
    requires IsThroughput(value) && AllRatios(es) && Follows(v, base, w)
    ensures Rising(told, Sends(v, value, es)) <==> Climbs(told, base, w, es)
    decreases |es|
  {
    if es != [] {
      assert es[0] in es;
      var v', out := Apply(v, value, es[0]), Resent(base, w);
      SendsStep(v, value, es);
      match es[0]
      case Add(key, ratio) =>
        FollowsAdd(v, value, base, w, key, ratio.value);
        hide Follows, AddViolation, Sends, Rising, Resent;
        RatiosRiseIff(v', value, es[1..], told, base, w + [(key, ratio.value)]);
      case Generate =>
        FollowsFlush(v, base, w);
        MessageIsResent(v, value, base, w);
        RisingStep(told, MessageOf(v, value), Sends(v', value, es[1..]));
        hide Follows, Flushed, Sends, Rising, Resent, MessageOf;
        RatiosRiseIff(v', value, es[1..], told + out, base + out, []);
      case Lose =>
        FollowsFlush(v, base, w);
        hide Follows, Flushed, Sends, Rising, Resent;
        RatiosRiseIff(v', value, es[1..], told, base + out, []);
    }
  }

  function MaybeSent(m: Message): seq<Message> {
    if m.keys != {} then [m] else []
  }

  lemma SendsStep(v: Violation, value: UsageValue, es: seq<Event>)
    requires es != []
    ensures Sends(v, value, es) == (if es[0].Generate? then MaybeSent(MessageOf(v, value)) else [])
                                   + Sends(Apply(v, value, es[0]), value, es[1..])
    ensures !es[0].Generate? ==> Sends(v, value, es) == Sends(Apply(v, value, es[0]), value, es[1..])
  {
    hide Apply;
  }

  lemma RisingStep(told: map<string, real>, m: Message, rest: seq<Message>)
    requires m.keys == m.ratios.Keys
    ensures Rising(told, MaybeSent(m) + rest) <==>
              && (forall k :: k in m.ratios && k in told ==> m.ratios[k] > told[k] + RESEND_FACTOR)
              && Rising(told + m.ratios, rest)
  {
    if m.keys == {} {
      assert MaybeSent(m) + rest == rest && told + m.ratios == told;
    } else {
      assert (MaybeSent(m) + rest)[1..] == rest;
    }
  }

  /** Over a whole epoch. */
  lemma EpochRatiosRiseIff(value: UsageValue, es: seq<Event>)
    requires IsThroughput(value) && AllRatios(es)
    ensures Rising(map[], Sends(Fresh, value, es)) <==> Climbs(map[], map[], [], es)
  {
    assert Resent(map[], []) == map[];
    RatiosRiseIff(Fresh, value, es, map[], map[], []);
  }

  lemma OneAddRises(told: map<string, real>, base: map<string, real>, w: Window)
    requires forall k :: |RatiosOf(w, k)| <= 1
    requires told.Keys <= base.Keys && forall k :: k in told ==> told[k] <= base[k]
    ensures forall k :: k in Resent(base, w) && k in base ==> Resent(base, w)[k] > base[k] + RESEND_FACTOR
  {
  }

  /** One add per key and window is enough. */
  lemma {:induction false} OneAddClimbs(told: map<string, real>, base: map<string, real>, w: Window, es: seq<Event>)
    requires AllRatios(es) && OneAddPerWindow(KeysOf(w), es) && forall k :: |RatiosOf(w, k)| <= 1
    requires told.Keys <= base.Keys && forall k :: k in told ==> told[k] <= base[k]
    ensures Climbs(told, base, w, es)
    decreases |es|
  {
    if es != [] {
      assert es[0] in es;
      var out := Resent(base, w);
      OneAddRises(told, base, w);
      assert KeysOf([]) == {} && forall k :: RatiosOf([], k) == [];
      hide Resent, Crosses;
      match es[0]
      case Add(key, ratio) =>
        var w' := w + [(key, ratio.value)];
        assert KeysOf(w') == KeysOf(w) + {key};
        RatiosInWindow(w, key);
        assert w'[..|w'| - 1] == w;
        OneAddClimbs(told, base, w', es[1..]);
      case Generate => OneAddClimbs(told + out, base + out, [], es[1..]);
      case Lose => OneAddClimbs(told, base + out, [], es[1..]);
    }
  }

  lemma EpochRatiosRise(value: UsageValue, es: seq<Event>)
    requires IsThroughput(value) && AllRatios(es) && OneAddPerWindow({}, es)
    ensures Rising(map[], Sends(Fresh, value, es))
  {
    EpochRatiosRiseIff(value, es);
    assert KeysOf([]) == {};
    OneAddClimbs(map[], map[], [], es);
  }

  /** Two adds in one window can send a lower ratio than before: the second overwrites the first unseen. */
  lemma TwoAddsCanFall(key: string, value: UsageValue, sent: real, high: real, low: real)
    requires IsThroughput(value) && sent > 0.0 && high > sent + RESEND_FACTOR && 0.0 < low <= sent + RESEND_FACTOR
    ensures var es := [Add(key, Some(sent)), Generate, Add(key, Some(high)), Add(key, Some(low)), Generate];
            var m1, m2 := Message(value, {key}, map[key := sent]), Message(value, {key}, map[key := low]);
            Sends(Fresh, value, es) == [m1, m2] && !Rising(map[], [m1, m2])
  {
    var e1, e3, e4 := Add(key, Some(sent)), Add(key, Some(high)), Add(key, Some(low));
    var m1, m2 := Message(value, {key}, map[key := sent]), Message(value, {key}, map[key := low]);
    assert key in m2.keys && [m1, m2][1..] == [m2] && map[] + m1.ratios == m1.ratios;
    FirstAdd(key, value, sent);
    Resending(key, value, sent, high);
    Overwriting(key, value, high, low);
    OneFlush(key, value, sent);
    OneFlush(key, value, low);
    hide Sends, Apply, MessageOf, AddViolation;
    SendsCons(Pending(key, low), value, Generate, []);
    SendsNone(Settled(key, low), value);
    SendsCons(Pending(key, high), value, e4, [Generate]);
    SendsCons(Settled(key, sent), value, e3, [e4, Generate]);
    SendsCons(Pending(key, sent), value, Generate, [e3, e4, Generate]);
    SendsCons(Fresh, value, e1, [Generate, e3, e4, Generate]);
    assert [e1] + [Generate, e3, e4, Generate] == [e1, Generate, e3, e4, Generate];
  }

  /** One key, pending or sent, with its ratio. */
  function Pending(key: string, r: real): Violation {
    Violation({key}, {}, map[key := r])
  }

  function Settled(key: string, r: real): Violation {
    Violation({}, {key}, map[key := r])
  }

  lemma FirstAdd(key: string, value: UsageValue, r: real)
    requires r > 0.0
    ensures Apply(Fresh, value, Add(key, Some(r))) == Pending(key, r)
  {
  }

  lemma Resending(key: string, value: UsageValue, sent: real, r: real)
    requires IsThroughput(value) && r > 0.0 && r > sent + RESEND_FACTOR
    ensures Apply(Settled(key, sent), value, Add(key, Some(r))) == Pending(key, r)
  {
  }

  lemma Overwriting(key: string, value: UsageValue, old_: real, r: real)
    requires r > 0.0
    ensures Apply(Pending(key, old_), value, Add(key, Some(r))) == Pending(key, r)
  {
  }

  lemma OneFlush(key: string, value: UsageValue, r: real)
    requires IsThroughput(value)
    ensures Apply(Pending(key, r), value, Generate) == Settled(key, r)
    ensures MessageOf(Pending(key, r), value) == Message(value, {key}, map[key := r])
  {
    assert MessageOf(Pending(key, r), value).ratios == map[key := r];
  }

  /** The resend factor: after a ratio of 1.0, one of 1.15 is not sent again in the same second and one of 1.16 is. */
  lemma ResendBoundary(key: string, value: UsageValue)
    requires IsThroughput(value)
    ensures AddViolation(Settled(key, 1.0), value, key, Some(1.15)).new_keys == {}
    ensures AddViolation(Settled(key, 1.0), value, key, Some(1.16)).new_keys == {key}
  {
  }

  lemma SendsNone(v: Violation, value: UsageValue)
    ensures Sends(v, value, []) == []
  {
  }

  lemma SendsCons(v: Violation, value: UsageValue, e: Event, es: seq<Event>)
    ensures Sends(v, value, [e] + es)
              == (if e.Generate? && v.new_keys != {} then [MessageOf(v, value)] else [])
                + Sends(Apply(v, value, e), value, es)
  {
    assert ([e] + es)[1..] == es;
  }

  // ---------------------------------------------------------------- all endpoints and categories

  /** EndpointViolations: one Violation for every category. */
  type Endpoint = map<UsageValue, Violation>

  ghost predicate Complete(ep: Endpoint) {
    forall v: UsageValue :: v in ep
  }

  function NewEndpoint(): (ep: Endpoint)
    ensures Complete(ep) && forall v :: v in ep ==> ep[v] == Fresh
  {
    var ep := map v | v in AllValues :: Fresh;
    assert forall v: UsageValue :: v in ep by {
      forall v: UsageValue ensures v in ep { AllValuesComplete(v); }
    }
    ep
  }

  /** The messages of one endpoint, in category order. */
  function MessagesOf(ep: Endpoint, values: seq<UsageValue>): seq<Message> {
    if values == [] then [] else
    var v := values[0];
    (if v in ep && ep[v].new_keys != {} then [MessageOf(ep[v], v)] else []) + MessagesOf(ep, values[1..])
  }

  /** The categories that have something pending. */
  function PendingValues(ep: Endpoint, values: seq<UsageValue>): seq<UsageValue> {
    if values == [] then [] else
    var v := values[0];
    (if v in ep && ep[v].new_keys != {} then [v] else []) + PendingValues(ep, values[1..])
  }

  /** Each message says its own category, that category's pending keys and, for a throughput, their ratios. */
  ghost predicate SaysWhatIsPending(ep: Endpoint, m: Message) {
    && m.value in ep && m.keys == ep[m.value].new_keys && m.keys != {}
    && (IsThroughput(m.value) && Printable(ep[m.value], m.value) ==>
          m.ratios.Keys == m.keys && forall k :: k in m.keys ==> m.ratios[k] == ep[m.value].ratios[k])
  }

  ghost predicate Announces(ep: Endpoint, values: seq<UsageValue>, ms: seq<Message>) {
    var pending := PendingValues(ep, values);
    |ms| == |pending| && forall i :: 0 <= i < |ms| ==> ms[i].value == pending[i] && SaysWhatIsPending(ep, ms[i])
  }

  lemma {:induction false} MessagesAnnounce(ep: Endpoint, values: seq<UsageValue>)
    ensures Announces(ep, values, MessagesOf(ep, values))
    decreases |values|
  {
    if values != [] {
      MessagesAnnounce(ep, values[1..]);
      var v, rest, more := values[0], MessagesOf(ep, values[1..]), PendingValues(ep, values[1..]);
      if v in ep && ep[v].new_keys != {} {
        var m := MessageOf(ep[v], v);
        assert SaysWhatIsPending(ep, m);
        assert MessagesOf(ep, values) == [m] + rest && PendingValues(ep, values) == [v] + more;
        assert forall i :: 1 <= i < |[m] + rest| ==> ([m] + rest)[i] == rest[i - 1] && ([v] + more)[i] == more[i - 1];
      } else {
        assert MessagesOf(ep, values) == rest && PendingValues(ep, values) == more;
      }
    }
  }

  class Tracker {
    var endpoints: map<string, Endpoint>

    ghost predicate Valid()
      reads this
    {
      forall e :: e in endpoints ==> Complete(endpoints[e])
    }

    constructor ()
      ensures endpoints == map[] && Valid()
    {
      endpoints := map[];
    }

    /** add_violation: changes the one cell it names. */
    method Add(endpoint: string, value: UsageValue, key: string, ratio: Option<real>)
      requires Valid()
      modifies this
      ensures Valid()
      ensures var before := if endpoint in old(endpoints) then old(endpoints)[endpoint] else NewEndpoint();
              var after := Apply(before[value], value, Event.Add(key, ratio));
              endpoints == old(endpoints)[endpoint := before[value := after]]
    {
      hide AddNewKey, Ratio, IsThroughput;
      var ep := if endpoint in endpoints then endpoints[endpoint] else NewEndpoint();
      var v := ep[value];
      if key !in v.sent_keys {
        v := AddNewKey(v, key, ratio, false);
      } else if IsThroughput(value) && ratio.Some? {
        var sent_diff_ratio := Ratio(v, key);
        if ratio.value - sent_diff_ratio > RESEND_FACTOR {
          v := AddNewKey(v, key, ratio, true);
        }
      }
      endpoints := endpoints[endpoint := ep[value := v]];
    }

    /** generate_violation_message: one message per category with something pending, in category order. `done`
        categories of this endpoint take a Generate step, the others and all other endpoints stay as they are. All are
        done when every category is printable; otherwise the first that is not raises, and the messages made so far
        are lost although their keys count as sent. */
    method GenerateMessages(endpoint: string) returns (messages: seq<Message>, done: nat)
      requires Valid()
      modifies this
      ensures Valid() && endpoint in endpoints && endpoints == old(endpoints)[endpoint := endpoints[endpoint]]
      ensures var before := if endpoint in old(endpoints) then old(endpoints)[endpoint] else NewEndpoint();
              && FlushedUpTo(before, endpoints[endpoint], AllValues, done)
              && messages == (if done == |AllValues| then MessagesOf(before, AllValues) else [])
              && (done == |AllValues| ==> Announces(before, AllValues, messages))
    {
      var ep := if endpoint in endpoints then endpoints[endpoint] else NewEndpoint();
      AllValuesDistinct();
      MessagesAnnounce(ep, AllValues);
      hide Announces;
      ep, messages, done := FlushAll(ep, AllValues);
      endpoints := endpoints[endpoint := ep];
    }
  }

  /** The first `done` categories were printable and are flushed, the next one (if any) is not printable, and nothing
      else changed. */
  ghost predicate FlushedUpTo(before: Endpoint, after: Endpoint, values: seq<UsageValue>, done: nat) {
    && Complete(before) && Complete(after) && done <= |values|
    && (forall i :: 0 <= i < done ==> Printable(before[values[i]], values[i]))
    && (done < |values| ==> !Printable(before[values[done]], values[done]))
    && (forall v: UsageValue :: after[v] == if v in values[..done] then Apply(before[v], v, Generate) else before[v])
  }

  /** The loop over the categories of one endpoint. */
  method FlushAll(ep0: Endpoint, values: seq<UsageValue>) returns (ep: Endpoint, messages: seq<Message>, done: nat)
    requires Complete(ep0)
    requires forall i, j :: 0 <= i < j < |values| ==> values[i] != values[j]
    ensures FlushedUpTo(ep0, ep, values, done)
    ensures messages == if done == |values| then MessagesOf(ep0, values) else []
  {
    hide MessageOf, Printable, Flushed, MessagesOf;
    messages := [];
    ep := ep0;
    done := 0;
    assert values[0..] == values;
    while done < |values|
      invariant done <= |values| && Complete(ep)
      invariant messages + MessagesOf(ep0, values[done..]) == MessagesOf(ep0, values)
      invariant forall i :: 0 <= i < done ==> Printable(ep0[values[i]], values[i])
      invariant forall v :: ep[v] == if v in values[..done] then Flushed(ep0[v]) else ep0[v]
    {
      var value := values[done];
      MessagesHead(ep0, values, done);
      assert values[..done + 1] == values[..done] + [value];
      assert value !in values[..done];
      NothingPending(ep0[value], value);
      if ep[value].new_keys != {} {
        if !Printable(ep[value], value) {
          messages := [];
          return;
        }
        messages := messages + [MessageOf(ep[value], value)];
        ep := ep[value := Flushed(ep[value])];
      }
      done := done + 1;
    }
    MessagesNone(ep0);
    assert values[done..] == [];
  }

  lemma MessagesHead(ep: Endpoint, values: seq<UsageValue>, i: nat)
    requires i < |values| && values[i] in ep
    ensures MessagesOf(ep, values[i..])
              == (if ep[values[i]].new_keys != {} then [MessageOf(ep[values[i]], values[i])] else [])
                + MessagesOf(ep, values[i + 1..])
  {
    assert values[i..][1..] == values[i + 1..];
  }

  lemma MessagesNone(ep: Endpoint)
    ensures MessagesOf(ep, []) == []
  {
  }

  lemma NothingPending(v: Violation, value: UsageValue)
    ensures v.new_keys == {} ==> Flushed(v) == v && Printable(v, value)
  {
  }

  lemma AllValuesDistinct()
    ensures forall i, j :: 0 <= i < j < |AllValues| ==> AllValues[i] != AllValues[j]
    ensures forall v: UsageValue :: v in AllValues
  {
    forall i, j | 0 <= i < j < |AllValues| ensures AllValues[i] != AllValues[j] {
      OrdinalOf(i);
      OrdinalOf(j);
    }
    forall v: UsageValue ensures v in AllValues {
      AllValuesComplete(v);
    }
  }
}
