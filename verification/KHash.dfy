/** The open-addressing hash table of khash.h: power-of-two capacity, triangular probing,
    tombstones, and a rehash that keeps old and new entries in the same key and value arrays. */
module KHash {
  import opened Common
  import opened Bits
  import opened Probing

  /** The two-bit bucket state. */
  datatype Flag = Empty | Deleted | Live

  /** `(khint_t)(n * 0.77 + 0.5)`, exact for powers of two. */
  function UpperBound(n: nat): nat {
    (77 * n + 50) / 100
  }

  /** The load bound is 77 hundredths of the capacity, rounded to the nearest bucket. */
  lemma LoadBound(n: nat)
    ensures 77 * n - 50 < 100 * UpperBound(n) <= 77 * n + 50
    ensures n >= 4 ==> 3 <= UpperBound(n) < n
  {
  }

  // ---------------------------------------------------------------- bucket contents as values

  /** Key k is live in the bucket reached at probe `step`, and no earlier probe for k meets an empty bucket. */
  ghost predicate Sits<K>(hash: K -> nat, flags: seq<Flag>, keys: seq<K>, k: K, step: nat)
    requires 0 < |flags| <= |keys|
  {
    && step < |flags|
    && flags[Probe(hash(k), |flags|, step)].Live?
    && keys[Probe(hash(k), |flags|, step)] == k
    && NonEmptyBefore(hash, flags, k, step)
  }

  ghost predicate NonEmptyBefore<K>(hash: K -> nat, flags: seq<Flag>, k: K, step: nat)
    requires 0 < |flags|
  {
    forall s :: 0 <= s < step ==> !flags[Probe(hash(k), |flags|, s)].Empty?
  }

  /** The buckets represent exactly the map m; `at` gives the probe number at which each key is found. */
  ghost predicate Represents<K, V>(hash: K -> nat, flags: seq<Flag>, keys: seq<K>, vals: seq<V>,
                                   m: map<K, V>, at: map<K, nat>)
  {
    && |flags| <= |keys| == |vals|
    && at.Keys == m.Keys
    && (|flags| == 0 ==> m == map[])
    && (forall k :: k in m ==> 0 < |flags| && Sits(hash, flags, keys, k, at[k])
                               && vals[Probe(hash(k), |flags|, at[k])] == m[k])
    && (forall b :: 0 <= b < |flags| && flags[b].Live? ==>
          keys[b] in m && Probe(hash(keys[b]), |flags|, at[keys[b]]) == b)
  }

  ghost function Occupied(flags: seq<Flag>): set<nat> {
    set b | 0 <= b < |flags| && !flags[b].Empty?
  }

  ghost function LiveSet(flags: seq<Flag>): set<nat> {
    set b | 0 <= b < |flags| && flags[b].Live?
  }

  /** Live keys are unique. */
  lemma LiveKeysUnique<K, V>(hash: K -> nat, flags: seq<Flag>, keys: seq<K>, vals: seq<V>,
                             m: map<K, V>, at: map<K, nat>, b: nat, c: nat)
    requires Represents(hash, flags, keys, vals, m, at)
    requires b < |flags| && c < |flags| && flags[b].Live? && flags[c].Live? && keys[b] == keys[c]
    ensures b == c
  {
  }

  /** Some probe meets an empty bucket whenever fewer than n buckets are occupied. */
  lemma EmptyAhead(flags: seq<Flag>, h: nat, e: nat) returns (step: nat)
    requires |flags| == Pow2(e) && |Occupied(flags)| < |flags|
    ensures step < |flags| && flags[Probe(h, |flags|, step)].Empty?
  {
    var all := Below(|flags|);
    if all <= Occupied(flags) {
      SubsetSize(all, Occupied(flags));
    }
    var b :| b in all && b !in Occupied(flags);
    step := ProbeCovers(h, e, b);
  }

  /** A table with a free bucket: the walk from any hash value meets an empty bucket within n probes. */
  lemma WalkEnds(flags: seq<Flag>, h: nat) returns (e: nat, stop: nat)
    requires |flags| > 0 && IsPow2(|flags|) && |Occupied(flags)| < |flags|
    ensures Pow2(e) == |flags| && stop < |flags| && flags[Probe(h, |flags|, stop)].Empty?
  {
    e :| Pow2(e) == |flags|;
    stop := EmptyAhead(flags, h, e);
  }

  /** The first probe is the masked hash value. */
  lemma WalkStart(h: nat, e: nat)
    ensures BitAnd(h, Pow2(e) - 1) == Probe(h, Pow2(e), 0)
  {
    MaskIsMod(h, e);
  }

  lemma WalkNext(h: nat, e: nat, step: nat)
    ensures BitAnd(Probe(h, Pow2(e), step) + (step + 1), Pow2(e) - 1) == Probe(h, Pow2(e), step + 1)
  {
    MaskIsMod(Probe(h, Pow2(e), step) + (step + 1), e);
  }

  /** One turn of the probe loop: the masked sum is the next probe, never the start again within n probes. */
  lemma WalkStep<K>(hash: K -> nat, flags: seq<Flag>, keys: seq<K>, k: K, step: nat, e: nat)
    requires |flags| == Pow2(e) <= |keys| && NotMet(hash, flags, keys, k, step)
    requires var b := Probe(hash(k), |flags|, step);
             flags[b].Deleted? || (flags[b].Live? && keys[b] != k)
    ensures BitAnd(Probe(hash(k), |flags|, step) + (step + 1), |flags| - 1) == Probe(hash(k), |flags|, step + 1)
    ensures NotMet(hash, flags, keys, k, step + 1)
    ensures step + 1 < |flags| ==> Probe(hash(k), |flags|, step + 1) != Probe(hash(k), |flags|, 0)
  {
    WalkNext(hash(k), e, step);
    hide Probe, Mod, BitAnd, Pow2;
    if step + 1 < |flags| {
      ProbeInjective(hash(k), e, 0, step + 1);
    }
  }

  /** A probe that reaches an empty bucket without having met k proves that k is absent. */
  lemma MissIsAbsent<K, V>(hash: K -> nat, flags: seq<Flag>, keys: seq<K>, vals: seq<V>,
                           m: map<K, V>, at: map<K, nat>, k: K, step: nat)
    requires Represents(hash, flags, keys, vals, m, at) && step < |flags|
    requires flags[Probe(hash(k), |flags|, step)].Empty?
    requires NotMet(hash, flags, keys, k, step)
    ensures k !in m
  {
  }

  lemma HitIsPresent<K, V>(hash: K -> nat, flags: seq<Flag>, keys: seq<K>, vals: seq<V>,
                           m: map<K, V>, at: map<K, nat>, b: nat)
    requires Represents(hash, flags, keys, vals, m, at) && b < |flags| && flags[b].Live?
    ensures keys[b] in m && vals[b] == m[keys[b]]
  {
  }

  ghost predicate NotMet<K>(hash: K -> nat, flags: seq<Flag>, keys: seq<K>, k: K, step: nat)
    requires 0 < |flags| <= |keys|
  {
    forall s :: 0 <= s < step ==> var b := Probe(hash(k), |flags|, s);
                                  flags[b].Deleted? || (flags[b].Live? && keys[b] != k)
  }

  /** Writing a new key into a dead bucket of its probe path extends the map by that key and hides no other. */
  lemma InsertRepresents<K, V>(hash: K -> nat, flags: seq<Flag>, keys: seq<K>, vals: seq<V>,
                               m: map<K, V>, at: map<K, nat>, k: K, step: nat)
    requires Represents(hash, flags, keys, vals, m, at)
    requires k !in m && step < |flags| && NonEmptyBefore(hash, flags, k, step)
    requires !flags[Probe(hash(k), |flags|, step)].Live?
    ensures var b := Probe(hash(k), |flags|, step);
            Represents(hash, flags[b := Live], keys[b := k], vals, m[k := vals[b]], at[k := step])
  {
    hide Probe;
    var b := Probe(hash(k), |flags|, step);
    var flags', keys' := flags[b := Live], keys[b := k];
    var m', at' := m[k := vals[b]], at[k := step];
    forall k' | k' in m'
      ensures Sits(hash, flags', keys', k', at'[k']) && vals[Probe(hash(k'), |flags|, at'[k'])] == m'[k']
    {
      if k' != k {
        assert Sits(hash, flags, keys, k', at[k']);
      }
    }
  }

  lemma OccupiedGrows(flags: seq<Flag>, b: nat)
    requires b < |flags| && !flags[b].Live?
    ensures |Occupied(flags[b := Live])| == |Occupied(flags)| + (if flags[b].Empty? then 1 else 0)
  {
    var now := Occupied(flags[b := Live]);
    assert now == Occupied(flags) + {b};
    assert flags[b].Deleted? ==> now == Occupied(flags);
  }

  /** Marking a live bucket deleted removes exactly its key. */
  lemma DeleteRepresents<K, V>(hash: K -> nat, flags: seq<Flag>, keys: seq<K>, vals: seq<V>,
                               m: map<K, V>, at: map<K, nat>, b: nat)
    requires Represents(hash, flags, keys, vals, m, at)
    requires b < |flags| && flags[b].Live?
    ensures Represents(hash, flags[b := Deleted], keys, vals, m - {keys[b]}, at - {keys[b]})
    ensures Occupied(flags[b := Deleted]) == Occupied(flags)
    ensures |m - {keys[b]}| == |m| - 1
  {
    var gone := keys[b];
    var flags', m', at' := flags[b := Deleted], m - {gone}, at - {gone};
    forall k | k in m'
      ensures Sits(hash, flags', keys, k, at'[k]) && vals[Probe(hash(k), |flags|, at'[k])] == m'[k]
    {
      assert Sits(hash, flags, keys, k, at[k]);
      assert keys[Probe(hash(k), |flags|, at[k])] != keys[b];
    }
    assert m'.Keys == m.Keys - {gone};
  }

  /** Writing a value changes the map at that bucket's key only. */
  lemma WriteRepresents<K, V>(hash: K -> nat, flags: seq<Flag>, keys: seq<K>, vals: seq<V>,
                              m: map<K, V>, at: map<K, nat>, b: nat, v: V)
    requires Represents(hash, flags, keys, vals, m, at)
    requires b < |flags| && flags[b].Live?
    ensures Represents(hash, flags, keys, vals[b := v], m[keys[b] := v], at)
  {
  }

  // ---------------------------------------------------------------- the rehash, step by step

  /** State of the kick-out rehash. The old flags `was` mark the entries not yet moved, the new flags
      `now` the entries already placed; both kinds live in the same arrays keys and vals, and at most one
      entry is in hand. Together the three kinds make up m, each key counted once.
      `home` is the old bucket of each key, `placed` the new probe number of each placed key. */
  ghost predicate Rehashing<K, V>(hash: K -> nat, m: map<K, V>, home: map<K, nat>,
                                  was: seq<Flag>, now: seq<Flag>, keys: seq<K>, vals: seq<V>,
                                  placed: map<K, nat>, hand: Option<K>)
  {
    && |was| <= |keys| == |vals| && 0 < |now| <= |keys|
    && home.Keys == m.Keys && placed.Keys <= m.Keys
    && PlacedOk(hash, m, now, keys, vals, placed)
    && LiveOk(hash, now, keys, placed)
    && (forall b :: 0 <= b < |was| && was[b].Live? ==> Unmoved(m, home, now, keys, vals, placed, b))
    && RestAtHome(m, home, was, keys, placed, hand)
  }

  ghost predicate PlacedOk<K, V>(hash: K -> nat, m: map<K, V>, now: seq<Flag>, keys: seq<K>, vals: seq<V>,
                                 placed: map<K, nat>)
    requires 0 < |now| <= |keys| == |vals| && placed.Keys <= m.Keys
  {
    forall k :: k in placed ==> Sits(hash, now, keys, k, placed[k]) && vals[Probe(hash(k), |now|, placed[k])] == m[k]
  }

  ghost predicate LiveOk<K>(hash: K -> nat, now: seq<Flag>, keys: seq<K>, placed: map<K, nat>)
    requires 0 < |now| <= |keys|
  {
    && (forall b :: 0 <= b < |now| ==> !now[b].Deleted?)
    && (forall b :: 0 <= b < |now| && now[b].Live? ==>
          keys[b] in placed && Probe(hash(keys[b]), |now|, placed[keys[b]]) == b)
  }

  /** Keys neither placed nor in hand are still at home; the one in hand is not. */
  ghost predicate RestAtHome<K, V>(m: map<K, V>, home: map<K, nat>, was: seq<Flag>, keys: seq<K>,
                                   placed: map<K, nat>, hand: Option<K>)
    requires |was| <= |keys| && home.Keys == m.Keys
  {
    && (forall k :: k in m && k !in placed && hand != Some(k) ==>
          home[k] < |was| && was[home[k]].Live? && keys[home[k]] == k)
    && (hand.Some? ==> hand.value in m && hand.value !in placed
                       && !(home[hand.value] < |was| && was[home[hand.value]].Live?))
  }

  ghost predicate Unmoved<K, V>(m: map<K, V>, home: map<K, nat>, now: seq<Flag>, keys: seq<K>, vals: seq<V>,
                                placed: map<K, nat>, b: nat)
    requires b < |keys| == |vals| && home.Keys == m.Keys
  {
    && keys[b] in m && vals[b] == m[keys[b]] && home[keys[b]] == b
    && keys[b] !in placed
    && (b < |now| ==> now[b].Empty?)
  }

  ghost function UnmovedKeys<K>(was: seq<Flag>, keys: seq<K>): set<K>
    requires |was| <= |keys|
  {
    set b | 0 <= b < |was| && was[b].Live? :: keys[b]
  }

  /** Unmoved entries, the entry in hand and placed entries partition the map at every step of the rehash. */
  lemma RehashPartition<K, V>(hash: K -> nat, m: map<K, V>, home: map<K, nat>, was: seq<Flag>, now: seq<Flag>,
                              keys: seq<K>, vals: seq<V>, placed: map<K, nat>, hand: Option<K>)
    requires Rehashing(hash, m, home, was, now, keys, vals, placed, hand)
    ensures var held := if hand.Some? then {hand.value} else {};
            && m.Keys == UnmovedKeys(was, keys) + held + placed.Keys
            && UnmovedKeys(was, keys) !! placed.Keys && held !! placed.Keys && held !! UnmovedKeys(was, keys)
  {
    var unmoved := UnmovedKeys(was, keys);
    forall k | k in unmoved ensures k in m && k !in placed && hand != Some(k) {
      var b :| 0 <= b < |was| && was[b].Live? && keys[b] == k;
      assert Unmoved(m, home, now, keys, vals, placed, b);
    }
    forall k | k in m && k !in placed && hand != Some(k) ensures k in unmoved {
      assert keys[home[k]] == k;
    }
  }

  /** The rehash starts with every entry unmoved. */
  lemma RehashStart<K, V>(hash: K -> nat, was: seq<Flag>, keys: seq<K>, vals: seq<V>, m: map<K, V>,
                          at: map<K, nat>, now: seq<Flag>) returns (home: map<K, nat>)
    requires Represents(hash, was, keys, vals, m, at)
    requires 0 < |now| <= |keys| && forall b :: 0 <= b < |now| ==> now[b].Empty?
    ensures Rehashing(hash, m, home, was, now, keys, vals, map[], None)
  {
    home := map k | k in m :: Probe(hash(k), |was|, at[k]);
    forall k | k in m ensures home[k] < |was| && was[home[k]].Live? && keys[home[k]] == k {
      assert Sits(hash, was, keys, k, at[k]);
    }
  }

  /** Taking the live entry of old bucket j in hand. */
  lemma RehashTake<K, V>(hash: K -> nat, m: map<K, V>, home: map<K, nat>, was: seq<Flag>, now: seq<Flag>,
                         keys: seq<K>, vals: seq<V>, placed: map<K, nat>, j: nat)
    requires Rehashing(hash, m, home, was, now, keys, vals, placed, None)
    requires j < |was| && was[j].Live?
    ensures Rehashing(hash, m, home, was[j := Deleted], now, keys, vals, placed, Some(keys[j]))
    ensures keys[j] in m && vals[j] == m[keys[j]]
  {
    assert Unmoved(m, home, now, keys, vals, placed, j);
    var was' := was[j := Deleted];
    forall b | 0 <= b < |was'| && was'[b].Live? ensures Unmoved(m, home, now, keys, vals, placed, b) {
      assert was[b].Live?;
    }
  }

  /** Writing the entry in hand into an empty new bucket of its probe path. If that bucket still held an
      unmoved entry, that entry is now in hand; otherwise the hand is empty. */
  lemma RehashPlace<K, V>(hash: K -> nat, m: map<K, V>, home: map<K, nat>, was: seq<Flag>, now: seq<Flag>,
                          keys: seq<K>, vals: seq<V>, placed: map<K, nat>, k: K, step: nat)
    requires Rehashing(hash, m, home, was, now, keys, vals, placed, Some(k))
    requires step < |now| && NonEmptyBefore(hash, now, k, step)
    requires now[Probe(hash(k), |now|, step)].Empty?
    ensures var i := Probe(hash(k), |now|, step);
            var kicked := i < |was| && was[i].Live?;
            && Rehashing(hash, m, home, if kicked then was[i := Deleted] else was, now[i := Live],
                         keys[i := k], vals[i := m[k]], placed[k := step], if kicked then Some(keys[i]) else None)
            && (kicked ==> keys[i] in m && vals[i] == m[keys[i]])
  {
    assert k in m && k !in placed;
    hide Probe, Sits, NonEmptyBefore, Unmoved, PlacedOk, LiveOk, RestAtHome;
    PlacedStay(hash, m, now, keys, vals, placed, k, step);
    LiveStay(hash, now, keys, placed, k, step);
    UnmovedStay(hash, m, home, was, now, keys, vals, placed, k, step);
    RestStays(hash, m, home, was, now, keys, vals, placed, k, step);
  }

  lemma PlacedStay<K, V>(hash: K -> nat, m: map<K, V>, now: seq<Flag>,
                         keys: seq<K>, vals: seq<V>, placed: map<K, nat>, k: K, step: nat)
    requires 0 < |now| <= |keys| == |vals| && placed.Keys <= m.Keys && k in m
    requires PlacedOk(hash, m, now, keys, vals, placed)
    requires step < |now| && NonEmptyBefore(hash, now, k, step) && now[Probe(hash(k), |now|, step)].Empty?
    ensures var i := Probe(hash(k), |now|, step);
            PlacedOk(hash, m, now[i := Live], keys[i := k], vals[i := m[k]], placed[k := step])
  {
    var i := Probe(hash(k), |now|, step);
    var placed' := placed[k := step];
    forall k' | k' in placed'
      ensures Sits(hash, now[i := Live], keys[i := k], k', placed'[k'])
              && vals[i := m[k]][Probe(hash(k'), |now|, placed'[k'])] == m[k']
    {
      if k' != k {
        assert Sits(hash, now, keys, k', placed[k']);
      }
    }
  }

  lemma LiveStay<K>(hash: K -> nat, now: seq<Flag>, keys: seq<K>, placed: map<K, nat>, k: K, step: nat)
    requires 0 < |now| <= |keys| && LiveOk(hash, now, keys, placed) && k !in placed && step < |now|
    ensures var i := Probe(hash(k), |now|, step); LiveOk(hash, now[i := Live], keys[i := k], placed[k := step])
  {
  }

  lemma UnmovedStay<K, V>(hash: K -> nat, m: map<K, V>, home: map<K, nat>, was: seq<Flag>, now: seq<Flag>,
                          keys: seq<K>, vals: seq<V>, placed: map<K, nat>, k: K, step: nat)
    requires Rehashing(hash, m, home, was, now, keys, vals, placed, Some(k)) && step < |now|
    ensures var i := Probe(hash(k), |now|, step);
            forall b :: 0 <= b < |was| && was[b].Live? && b != i ==>
              Unmoved(m, home, now[i := Live], keys[i := k], vals[i := m[k]], placed[k := step], b)
    ensures var i := Probe(hash(k), |now|, step);
            i < |was| && was[i].Live? ==> keys[i] in m && vals[i] == m[keys[i]]
  {
    hide PlacedOk, LiveOk;
    var i := Probe(hash(k), |now|, step);
    forall b | 0 <= b < |was| && was[b].Live? && b != i
      ensures Unmoved(m, home, now[i := Live], keys[i := k], vals[i := m[k]], placed[k := step], b)
    {
      assert Unmoved(m, home, now, keys, vals, placed, b);
    }
    assert i < |was| && was[i].Live? ==> Unmoved(m, home, now, keys, vals, placed, i);
  }

  lemma RestStays<K, V>(hash: K -> nat, m: map<K, V>, home: map<K, nat>, was: seq<Flag>, now: seq<Flag>,
                        keys: seq<K>, vals: seq<V>, placed: map<K, nat>, k: K, step: nat)
    requires Rehashing(hash, m, home, was, now, keys, vals, placed, Some(k)) && step < |now|
    ensures var i := Probe(hash(k), |now|, step);
            var kicked := i < |was| && was[i].Live?;
            RestAtHome(m, home, if kicked then was[i := Deleted] else was, keys[i := k], placed[k := step],
                       if kicked then Some(keys[i]) else None)
  {
    hide PlacedOk, LiveOk;
    var i := Probe(hash(k), |now|, step);
    assert i < |was| && was[i].Live? ==> Unmoved(m, home, now, keys, vals, placed, i);
  }

  /** Placed entries occupy distinct buckets, so the entry in hand finds room while m fits. */
  lemma RehashRoom<K, V>(hash: K -> nat, m: map<K, V>, home: map<K, nat>, was: seq<Flag>, now: seq<Flag>,
                         keys: seq<K>, vals: seq<V>, placed: map<K, nat>, k: K)
    requires Rehashing(hash, m, home, was, now, keys, vals, placed, Some(k))
    requires |m| < |now|
    ensures |Occupied(now)| < |now|
  {
    LiveAtMost(hash, |now|, keys, placed, LiveSet(now), placed.Keys);
    assert Occupied(now) == LiveSet(now);
    assert placed.Keys + {k} <= m.Keys;
    SubsetSize(placed.Keys + {k}, m.Keys);
    assert |placed.Keys + {k}| == |placed.Keys| + 1;
  }

  lemma {:induction false} LiveAtMost<K>(hash: K -> nat, n: nat, keys: seq<K>, at: map<K, nat>,
                                         live: set<nat>, ks: set<K>)
    requires 0 < n <= |keys| && ks <= at.Keys
    requires forall b :: b in live ==> b < n && keys[b] in ks && Probe(hash(keys[b]), n, at[keys[b]]) == b
    ensures |live| <= |ks|
    decreases live
  {
    if live != {} {
      var b :| b in live;
      LiveAtMost(hash, n, keys, at, live - {b}, ks - {keys[b]});
    }
  }

  /** With nothing unmoved and nothing in hand, the new flags alone represent m, without tombstones. */
  lemma RehashDone<K, V>(hash: K -> nat, m: map<K, V>, home: map<K, nat>, was: seq<Flag>, now: seq<Flag>,
                         keys: seq<K>, vals: seq<V>, placed: map<K, nat>)
    requires Rehashing(hash, m, home, was, now, keys, vals, placed, None)
    requires forall b :: 0 <= b < |was| ==> !was[b].Live?
    ensures Represents(hash, now, keys, vals, m, placed)
    ensures |Occupied(now)| == |m|
  {
    assert placed.Keys == m.Keys;
    assert Occupied(now) == LiveSet(now);
    LiveCountIsSize(hash, now, keys, vals, m, placed);
  }

  /** The number of live buckets is the number of keys. */
  lemma LiveCountIsSize<K, V>(hash: K -> nat, flags: seq<Flag>, keys: seq<K>, vals: seq<V>,
                              m: map<K, V>, at: map<K, nat>)
    requires Represents(hash, flags, keys, vals, m, at)
    ensures |LiveSet(flags)| == |m|
  {
    if |flags| > 0 {
      LiveAtMost(hash, |flags|, keys, at, LiveSet(flags), m.Keys);
      KeysAtMost(hash, flags, keys, at, LiveSet(flags), m.Keys);
    }
  }

  lemma {:induction false} KeysAtMost<K>(hash: K -> nat, flags: seq<Flag>, keys: seq<K>, at: map<K, nat>,
                                         live: set<nat>, ks: set<K>)
    requires 0 < |flags| <= |keys| && ks <= at.Keys
    requires forall k :: k in ks ==> Probe(hash(k), |flags|, at[k]) in live && keys[Probe(hash(k), |flags|, at[k])] == k
    ensures |ks| <= |live|
    decreases ks
  {
    if ks != {} {
      var k :| k in ks;
      KeysAtMost(hash, flags, keys, at, live - {Probe(hash(k), |flags|, at[k])}, ks - {k});
    }
  }

  // ---------------------------------------------------------------- the table object

  method Store<T>(a: array<T>, i: nat, v: T)
    requires i < a.Length
    modifies a
    ensures a[..] == old(a[..])[i := v]
  {
    a[i] := v;
  }

  /** The probe loop of kh_get: walks the key's probe path to the key or to an empty bucket. Coming back to the first
      bucket, which would mean a full table without the key, cannot happen. */
  method FindKey<K(==)>(hash: K -> nat, flags: array<Flag>, keys: array<K>, key: K) returns (i: nat, ghost step: nat)
    requires 0 < flags.Length == keys.Length && IsPow2(flags.Length) && |Occupied(flags[..])| < flags.Length
    ensures i < flags.Length && step < flags.Length && i == Probe(hash(key), flags.Length, step)
    ensures NotMet(hash, flags[..], keys[..], key, step)
    ensures flags[i].Empty? || (flags[i].Live? && keys[i] == key)
  {
    hide Probe, Mod, BitAnd, Pow2, Occupied;
    ghost var fs, ks := flags[..], keys[..];
    ghost var e, stop := WalkEnds(fs, hash(key));
    var mask, turn := flags.Length - 1, 0;
    step := 0;
    WalkStart(hash(key), e);
    i := BitAnd(hash(key), mask);
    var last := i;
    while !flags[i].Empty? && (flags[i].Deleted? || keys[i] != key)
      invariant turn == step <= stop && i == Probe(hash(key), |fs|, step)
      invariant NotMet(hash, fs, ks, key, step)
      decreases stop - step
    {
      WalkStep(hash, fs, ks, key, step, e);
      step, turn := step + 1, turn + 1;
      i := BitAnd(i + turn, mask);
      if i == last {
        assert false;
        break;
      }
    }
  }

  ghost predicate NoTombstone<K>(hash: K -> nat, flags: seq<Flag>, key: K, from: nat, to: nat)
    requires 0 < |flags|
  {
    forall s :: from <= s < to ==> !flags[Probe(hash(key), |flags|, s)].Deleted?
  }

  /** Probe number xs meets the last tombstone before probe number `step`, or is `step` itself when there is none. */
  ghost predicate LastTombstone<K>(hash: K -> nat, flags: seq<Flag>, key: K, step: nat, xs: nat)
    requires 0 < |flags|
  {
    if xs < step then flags[Probe(hash(key), |flags|, xs)].Deleted? && NoTombstone(hash, flags, key, xs + 1, step)
    else xs == step && NoTombstone(hash, flags, key, 0, step)
  }

  /** The bucket search of kh_put: walks the key's probe path to the key or to an empty bucket, remembering
      the last tombstone met. Gives the key's own bucket, else that tombstone, else the empty bucket. */
  method FindSlot<K(==)>(hash: K -> nat, flags: array<Flag>, keys: array<K>, key: K)
    returns (x: int, ghost xStep: nat, ghost step: nat)
    requires 0 < flags.Length == keys.Length && IsPow2(flags.Length) && |Occupied(flags[..])| < flags.Length
    ensures 0 <= x < flags.Length && xStep <= step < flags.Length && x == Probe(hash(key), flags.Length, xStep)
    ensures NotMet(hash, flags[..], keys[..], key, step)
    ensures var b := Probe(hash(key), flags.Length, step);
            if flags[b].Empty? then !flags[x].Live? && LastTombstone(hash, flags[..], key, step, xStep)
            else x == b && flags[x].Live? && keys[x] == key
  {
    hide Probe, Mod, BitAnd, Pow2, Occupied;
    ghost var fs, ks := flags[..], keys[..];
    ghost var e, stop := WalkEnds(fs, hash(key));
    var n := flags.Length;
    var mask := n - 1;
    step, xStep, x := 0, 0, n;
    var turn, site := 0, n;
    WalkStart(hash(key), e);
    var i := BitAnd(hash(key), mask);
    if flags[i].Empty? {
      return i, 0, 0;
    }
    var last := i;
    while !flags[i].Empty? && (flags[i].Deleted? || keys[i] != key)
      invariant turn == step <= stop && i == Probe(hash(key), |fs|, step) && x == n
      invariant NotMet(hash, fs, ks, key, step)
      invariant site == n ==> NoTombstone(hash, fs, key, 0, step)
      invariant site != n ==> xStep < step && site == Probe(hash(key), |fs|, xStep) && fs[site].Deleted?
                              && NoTombstone(hash, fs, key, xStep + 1, step)
      decreases stop - step
    {
      if flags[i].Deleted? {
        site, xStep := i, step;
      }
      WalkStep(hash, fs, ks, key, step, e);
      step, turn := step + 1, turn + 1;
      i := BitAnd(i + turn, mask);
      if i == last {
        assert false;
        x := site;
        break;
      }
    }
    if x == n {
      if flags[i].Empty? && site != n {
        x := site;
      } else {
        x, xStep := i, step;
      }
    }
  }

  class Table<K(==,0,!new), V(0)> {
    const hash: K -> nat
    var n_buckets: nat
    var size: nat
    var n_occupied: nat
    var upper_bound: nat
    var flags: array<Flag>
    var keys: array<K>
    var vals: array<V>

    // the finite map the table stands for, and where each key is found
    ghost var m: map<K, V>
    ghost var at: map<K, nat>

    ghost predicate Separate()
      reads this
    {
      && (keys as object) != (vals as object) && (keys as object) != (flags as object)
      && (vals as object) != (flags as object)
    }

    ghost predicate Valid()
      reads this, flags, keys, vals
    {
      && Separate()
      && flags.Length == keys.Length == vals.Length == n_buckets <= MAX_BUCKETS
      && (n_buckets == 0 || (n_buckets >= 4 && IsPow2(n_buckets)))
      && upper_bound == (if n_buckets == 0 then 0 else UpperBound(n_buckets))
      && size == |m|
      && n_occupied == |Occupied(flags[..])| <= upper_bound
      && Represents(hash, flags[..], keys[..], vals[..], m, at)
    }

    /** kh_init: no buckets at all. */
    constructor (hash: K -> nat)
      ensures Valid() && m == map[] && n_buckets == 0 && this.hash == hash
      ensures fresh(flags) && fresh(keys) && fresh(vals)
    {
      this.hash := hash;
      n_buckets, size, n_occupied, upper_bound := 0, 0, 0, 0;
      flags, keys, vals := new Flag[0], new K[0], new V[0];
      m, at := map[], map[];
      new;
      assert Occupied(flags[..]) == {};
    }

    /** kh_get: the bucket of the key, or n_buckets when the map does not hold it. */
    method Get(key: K) returns (x: nat)
      requires Valid()
      ensures key in m <==> x != n_buckets
      ensures key in m ==> x < n_buckets && flags[x].Live? && keys[x] == key && vals[x] == m[key]
    {
      if n_buckets == 0 {
        return 0;
      }
      hide Represents, IsPow2;
      ghost var step;
      x, step := FindKey(hash, flags, keys, key);
      if flags[x].Empty? {
        MissIsAbsent(hash, flags[..], keys[..], vals[..], m, at, key, step);
        x := n_buckets;
      } else {
        HitIsPresent(hash, flags[..], keys[..], vals[..], m, at, x);
      }
    }

    /** kh_del: does nothing at kh_end or at a bucket that is not live. */
    method Del(x: nat)
      requires Valid() && x <= n_buckets
      modifies this`size, this`m, this`at, flags
      ensures Valid()
      ensures m == if x < n_buckets && old(flags[x]).Live? then old(m) - {keys[x]} else old(m)
    {
      hide Represents;
      if x != n_buckets && flags[x].Live? {
        DeleteRepresents(hash, flags[..], keys[..], vals[..], m, at, x);
        m, at := m - {keys[x]}, at - {keys[x]};
        Store(flags, x, Deleted);
        size := size - 1;
      }
    }

    /** `kh_value(h, x) = v` at a live bucket. */
    method SetValue(x: nat, v: V)
      requires Valid() && x < n_buckets && flags[x].Live?
      modifies this`m, vals
      ensures Valid()
      ensures m == old(m)[keys[x] := v]
    {
      hide Represents;
      WriteRepresents(hash, flags[..], keys[..], vals[..], m, at, x, v);
      HitIsPresent(hash, flags[..], keys[..], vals[..], m, at, x);
      assert m[keys[x] := v].Keys == m.Keys;
      m := m[keys[x] := v];
      Store(vals, x, v);
    }

    /** Everything but a table of 2^31 buckets that is at its load bound with at least half its buckets live: there the
        doubled bucket count does not fit 32 bits. */
    predicate CanMakeRoom()
      reads this
    {
      n_buckets < MAX_BUCKETS || n_occupied < upper_bound || n_buckets > 2 * size
    }

    /** The first half of kh_put: a full table drops its tombstones when at most half its buckets hold live
        keys, and doubles otherwise. */
    method MakeRoom()
      requires Valid() && CanMakeRoom()
      modifies this, flags, keys, vals
      ensures Valid() && m == old(m) && size == old(size) && n_occupied < upper_bound
      ensures fresh(flags) || flags == old(flags)
      ensures fresh(keys) || keys == old(keys)
      ensures fresh(vals) || vals == old(vals)
      ensures n_buckets == old(n_buckets) || n_buckets <= 4 || n_buckets <= 4 * old(size)
      ensures old(n_occupied) < old(upper_bound) ==> n_occupied == old(n_occupied)
      ensures old(n_occupied) >= old(upper_bound) ==> n_occupied == size
      ensures old(n_occupied) >= old(upper_bound) ==> forall b :: 0 <= b < n_buckets ==> !flags[b].Deleted?
    {
      hide Represents;
      if n_occupied >= upper_bound {
        SizeAtMostOccupied(hash, flags[..], keys[..], vals[..], m, at);
        PutCapacity(n_buckets, size);
        if n_buckets > 2 * size {
          Resize(n_buckets - 1);
        } else {
          Resize(n_buckets + 1);
        }
      }
    }

    /** kh_put: grows or cleans the table when it is full, then claims a bucket for the key. The value of a
        newly claimed bucket is whatever the array held; the caller writes it next. */
    method Put(key: K) returns (x: nat, ret: int)
      requires Valid() && CanMakeRoom()
      modifies this, flags, keys, vals
      ensures Valid()
      ensures fresh(flags) || flags == old(flags)
      ensures fresh(keys) || keys == old(keys)
      ensures fresh(vals) || vals == old(vals)
      ensures x < n_buckets && flags[x].Live? && keys[x] == key
      ensures ret in {0, 1, 2} && (ret == 0 <==> key in old(m))
      ensures m == if key in old(m) then old(m) else old(m)[key := vals[x]]
      // 1 for a bucket never used, 2 for a tombstone
      ensures old(n_occupied) < old(upper_bound) ==> n_occupied == old(n_occupied) + (if ret == 1 then 1 else 0)
      ensures old(n_occupied) >= old(upper_bound) ==> ret != 2 && n_occupied == size
      // capacity only ever follows the number of live keys
      ensures n_buckets == old(n_buckets) || n_buckets <= 4 || n_buckets <= 4 * old(size)
    {
      hide Represents;
      MakeRoom();
      ghost var xStep, step;
      x, xStep, step := FindSlot(hash, flags, keys, key);
      if flags[x].Live? {
        HitIsPresent(hash, flags[..], keys[..], vals[..], m, at, x);
        return x, 0;
      }
      MissIsAbsent(hash, flags[..], keys[..], vals[..], m, at, key, step);
      ret := if flags[x].Empty? then 1 else 2;
      Claim(x, key, xStep);
    }

    method Claim(x: nat, key: K, ghost step: nat)
      requires Valid() && n_occupied < upper_bound && key !in m
      requires step < n_buckets && x == Probe(hash(key), n_buckets, step) && x < n_buckets && !flags[x].Live?
      requires |flags[..]| == n_buckets && NonEmptyBefore(hash, flags[..], key, step)
      modifies this`size, this`n_occupied, this`m, this`at, flags, keys
      ensures Valid()
      ensures flags[x].Live? && keys[x] == key && size == old(size) + 1
      ensures m == old(m)[key := vals[x]]
      ensures n_occupied == old(n_occupied) + (if old(flags[x]).Empty? then 1 else 0)
    {
      hide Represents;
      ghost var fs, ks := flags[..], keys[..];
      InsertRepresents(hash, fs, ks, vals[..], m, at, key, step);
      OccupiedGrows(fs, x);
      var wasEmpty := flags[x].Empty?;
      m, at := m[key := vals[x]], at[key := step];
      Store(keys, x, key);
      Store(flags, x, Live);
      size := size + 1;
      if wasEmpty {
        n_occupied := n_occupied + 1;
      }
    }

    /** kh_put and then kh_value. */
    method Insert(key: K, v: V)
      requires Valid() && |m| < MAX_BUCKETS / 2
      modifies this, flags, keys, vals
      ensures Valid() && m == old(m)[key := v]
      ensures fresh(flags) || flags == old(flags)
      ensures fresh(keys) || keys == old(keys)
      ensures fresh(vals) || vals == old(vals)
    {
      hide Represents, Occupied, IsPow2, UpperBound;
      var x, ret := Put(key);
      SetValue(x, v);
    }

    /** kh_get and then kh_value. */
    method Overwrite(key: K, v: V)
      requires Valid()
      modifies this`m, vals
      ensures Valid() && m == if key in old(m) then old(m)[key := v] else old(m)
    {
      hide Represents, Occupied, IsPow2, UpperBound;
      var x := Get(key);
      if x != n_buckets {
        SetValue(x, v);
      }
    }

    /** kh_get and then kh_del. */
    method Erase(key: K)
      requires Valid()
      modifies this`size, this`m, this`at, flags
      ensures Valid() && m == old(m) - {key}
    {
      hide Represents, Occupied, IsPow2, UpperBound;
      var x := Get(key);
      Del(x);
      assert key !in old(m) ==> old(m) - {key} == old(m);
    }

    method Look(key: K) returns (answer: Option<V>)
      requires Valid()
      ensures answer == if key in m then Some(m[key]) else None
    {
      hide Represents, Occupied, IsPow2, UpperBound;
      var x := Get(key);
      answer := if x != n_buckets then Some(vals[x]) else None;
    }

    /** kh_resize: a request too small for the live entries is ignored; otherwise the table is rehashed in
        place to the least power of two at or above the request (at least 4). A request above 2^31 wraps to 4. */
    method Resize(request: nat)
      requires Valid() && request < WORD
      modifies this, flags, keys, vals
      ensures Valid() && m == old(m) && size == old(size)
      ensures fresh(flags) || flags == old(flags)
      ensures fresh(keys) || keys == old(keys)
      ensures fresh(vals) || vals == old(vals)
      ensures |m| >= UpperBound(SettledCapacity(request)) ==>
                n_buckets == old(n_buckets) && n_occupied == old(n_occupied) && upper_bound == old(upper_bound)
      // after a rehash no tombstone is left
      ensures |m| < UpperBound(SettledCapacity(request)) ==>
                n_buckets == SettledCapacity(request) && n_occupied == size
                && forall b :: 0 <= b < n_buckets ==> !flags[b].Deleted?
    {
      var capacity := KRoundUp32(request);
      if capacity < 4 {
        capacity := 4;
      }
      if request <= MAX_BUCKETS {
        RoundedIs(request, capacity);
      }
      if size >= UpperBound(capacity) {
        return;
      }
      Rehash(capacity);
    }

    /** The body of kh_resize once the new capacity is settled. */
    method Rehash(capacity: nat)
      requires Valid() && 4 <= capacity <= MAX_BUCKETS && IsPow2(capacity) && size < UpperBound(capacity)
      modifies this, flags, keys, vals
      ensures Valid() && m == old(m) && size == old(size)
      ensures fresh(flags) && (fresh(keys) || keys == old(keys)) && (fresh(vals) || vals == old(vals))
      ensures n_buckets == capacity && n_occupied == size
      ensures forall b :: 0 <= b < n_buckets ==> !flags[b].Deleted?
    {
      hide Represents, Occupied, IsPow2;
      ghost var placed;
      var fs, ks, vs;
      fs, ks, vs, placed := RehashArrays(hash, flags, keys, vals, m, at, capacity);
      flags, keys, vals, at := fs, ks, vs, placed;
      n_buckets := capacity;
      n_occupied := size;
      upper_bound := UpperBound(capacity);
    }
  }

  /** The rehash proper: grows the key and value arrays first or shrinks them last, and moves every entry. */
  method RehashArrays<K(0,!new), V(0)>(hash: K -> nat, flags: array<Flag>, keys: array<K>, vals: array<V>,
                                       ghost m: map<K, V>, ghost at: map<K, nat>, capacity: nat)
    returns (new_flags: array<Flag>, ks: array<K>, vs: array<V>, ghost placed: map<K, nat>)
    requires (keys as object) != (vals as object) && (keys as object) != (flags as object)
    requires (vals as object) != (flags as object) && flags.Length == keys.Length == vals.Length
    requires capacity > 0 && IsPow2(capacity) && |m| < capacity
    requires Represents(hash, flags[..], keys[..], vals[..], m, at)
    modifies flags, keys, vals
    ensures fresh(new_flags) && (fresh(ks) || ks == keys) && (fresh(vs) || vs == vals)
    ensures (ks as object) != (vs as object) && (ks as object) != (new_flags as object)
    ensures (vs as object) != (new_flags as object)
    ensures new_flags.Length == ks.Length == vs.Length == capacity
    ensures Represents(hash, new_flags[..], ks[..], vs[..], m, placed)
    ensures |Occupied(new_flags[..])| == |m|
    ensures forall b :: 0 <= b < capacity ==> !new_flags[b].Deleted?
  {
    hide Represents;
    hide Rehashing;
    ks, vs := keys, vals;
    if flags.Length < capacity {
      ks, vs := Reallocate(hash, flags[..], keys, vals, m, at, capacity);
    }
    new_flags := new Flag[capacity](_ => Empty);
    ghost var home := RehashStart(hash, flags[..], ks[..], vs[..], m, at, new_flags[..]);
    placed := MoveAll(hash, flags, new_flags, ks, vs, m, home);
    if flags.Length > capacity {
      ks, vs := Reallocate(hash, new_flags[..], ks, vs, m, placed, capacity);
    }
  }

  /** realloc of the key and value arrays to n slots, which must cover the buckets in use. */
  method Reallocate<K(0), V(0)>(ghost hash: K -> nat, ghost flags: seq<Flag>, keys: array<K>, vals: array<V>,
                          ghost m: map<K, V>, ghost at: map<K, nat>, n: nat) returns (ks: array<K>, vs: array<V>)
    requires keys.Length == vals.Length && |flags| <= n
    requires Represents(hash, flags, keys[..], vals[..], m, at)
    ensures fresh(ks) && fresh(vs) && ks.Length == vs.Length == n && (ks as object) != (vs as object)
    ensures Represents(hash, flags, ks[..], vs[..], m, at)
  {
    hide Represents;
    ks := CopyArray(keys, n);
    vs := CopyArray(vals, n);
    RepresentsPrefix(hash, flags, keys[..], vals[..], ks[..], vs[..], m, at);
  }

  lemma RepresentsPrefix<K, V>(hash: K -> nat, flags: seq<Flag>, keys: seq<K>, vals: seq<V>, ks: seq<K>, vs: seq<V>,
                               m: map<K, V>, at: map<K, nat>)
    requires Represents(hash, flags, keys, vals, m, at)
    requires |flags| <= |ks| == |vs|
    requires forall i :: 0 <= i < |flags| && i < |keys| == |vals| ==> ks[i] == keys[i] && vs[i] == vals[i]
    ensures Represents(hash, flags, ks, vs, m, at)
  {
    forall k | k in m ensures Sits(hash, flags, ks, k, at[k]) && vs[Probe(hash(k), |flags|, at[k])] == m[k] {
      assert Sits(hash, flags, keys, k, at[k]);
    }
  }

  method CopyArray<T(0)>(a: array<T>, n: nat) returns (b: array<T>)
    ensures fresh(b) && b.Length == n
    ensures forall i :: 0 <= i < n && i < a.Length ==> b[i] == a[i]
  {
    b := new T[n];
    var i := 0;
    while i < n && i < a.Length
      invariant 0 <= i <= n
      invariant forall j :: 0 <= j < i && j < a.Length ==> b[j] == a[j]
    {
      b[i] := a[i];
      i := i + 1;
    }
  }

  /** The least power of two at or above the request, and at least 4. */
  ghost function RoundedCapacity(request: nat): (c: nat)
    ensures c >= 4 && IsPow2(c)
  {
    assert Pow2(2) == 4;
    LeastPow2(request, 2)
  }

  ghost function SettledCapacity(request: nat): (c: nat)
    ensures c >= 4 && IsPow2(c)
  {
    if request <= MAX_BUCKETS then RoundedCapacity(request) else assert Pow2(2) == 4; 4
  }

  ghost function LeastPow2(request: nat, e: nat): (c: nat)
    ensures IsPow2(c) && c >= Pow2(e) && c >= request
    ensures forall d: nat :: d >= e && Pow2(d) >= request ==> c <= Pow2(d)
    decreases if request > Pow2(e) then request - Pow2(e) else 0
  {
    if Pow2(e) >= request then
      assert forall d: nat :: d >= e ==> Pow2(e) <= Pow2(d) by {
        forall d: nat | d >= e ensures Pow2(e) <= Pow2(d) { Pow2Monotone(e, d); }
      }
      Pow2(e)
    else LeastPow2(request, e + 1)
  }

  lemma RoundedIs(request: nat, capacity: nat)
    requires request == 0 ==> capacity == 4
    requires request >= 1 ==> capacity == 4 || (capacity > 4 && IsPow2(capacity) && request <= capacity)
    requires request >= 1 && capacity > 4 ==> forall e: nat :: Pow2(e) >= request ==> Pow2(e) >= capacity
    requires request >= 1 && capacity == 4 ==> request <= 4
    ensures capacity == RoundedCapacity(request)
  {
    assert Pow2(2) == 4;
    var d :| Pow2(d) == RoundedCapacity(request);
    if capacity > 4 {
      var e: nat :| Pow2(e) == capacity;
      Pow2Monotone(e, 2);
    }
  }

  lemma RoundedIsUnique(request: nat, c: nat)
    requires c >= 4 && IsPow2(c) && request <= c && (c == 4 || 2 * request > c)
    ensures RoundedCapacity(request) == c
  {
    assert Pow2(2) == 4;
    var d: nat :| Pow2(d) == RoundedCapacity(request);
    var e: nat :| Pow2(e) == c;
    Pow2Monotone(e, 2);
    Pow2Monotone(d, e);
    Pow2Monotone(e, d);
    Pow2Monotone(2, d);
  }

  /** The two resize requests of kh_put always leave room for one more key. */
  lemma PutCapacity(n: nat, size: nat)
    requires (n == 0 && size == 0) || (n >= 4 && IsPow2(n) && size <= UpperBound(n))
    ensures n > 2 * size ==> RoundedCapacity(n - 1) == n && size < UpperBound(n)
    ensures 0 < n <= 2 * size ==> RoundedCapacity(n + 1) == 2 * n && size < UpperBound(2 * n)
    ensures n == 0 ==> RoundedCapacity(n + 1) == 4 && UpperBound(4) == 3
  {
    assert Pow2(2) == 4;
    if n == 0 {
      RoundedIsUnique(1, 4);
    } else {
      RoundedIsUnique(n - 1, n);
      var e: nat :| Pow2(e) == n;
      assert Pow2(e + 1) == 2 * n;
      RoundedIsUnique(n + 1, 2 * n);
    }
  }

  lemma SizeAtMostOccupied<K, V>(hash: K -> nat, flags: seq<Flag>, keys: seq<K>, vals: seq<V>,
                                 m: map<K, V>, at: map<K, nat>)
    requires Represents(hash, flags, keys, vals, m, at)
    ensures |m| <= |Occupied(flags)|
  {
    LiveCountIsSize(hash, flags, keys, vals, m, at);
    SubsetSize(LiveSet(flags), Occupied(flags));
  }

  /** The outer rehash loop: every live old bucket is taken in hand and placed, kicking out what it displaces. */
  method MoveAll<K(!new), V>(hash: K -> nat, was: array<Flag>, now: array<Flag>, keys: array<K>, vals: array<V>,
                       ghost m: map<K, V>, ghost home: map<K, nat>) returns (ghost placed: map<K, nat>)
    requires was != now && (keys as object) != (vals as object)
    requires (keys as object) !in {was as object, now} && (vals as object) !in {was as object, now}
    requires was.Length <= keys.Length == vals.Length && now.Length <= keys.Length
    requires IsPow2(now.Length) && |m| < now.Length
    requires Rehashing(hash, m, home, was[..], now[..], keys[..], vals[..], map[], None)
    modifies was, now, keys, vals
    ensures Represents(hash, now[..], keys[..], vals[..], m, placed)
    ensures |Occupied(now[..])| == |m|
    ensures forall b :: 0 <= b < now.Length ==> !now[b].Deleted?
  {
    placed := map[];
    var j := 0;
    while j != was.Length
      invariant 0 <= j <= was.Length
      invariant Rehashing(hash, m, home, was[..], now[..], keys[..], vals[..], placed, None)
      invariant forall b :: 0 <= b < j ==> !was[b].Live?
    {
      if was[j].Live? {
        RehashTake(hash, m, home, was[..], now[..], keys[..], vals[..], placed, j);
        var key, val := keys[j], vals[j];
        Store(was, j, Deleted);
        placed := KickOut(hash, was, now, keys, vals, m, home, placed, key, val);
      }
      j := j + 1;
    }
    RehashDone(hash, m, home, was[..], now[..], keys[..], vals[..], placed);
  }

  /** The kick-out chain started by one entry in hand. Each turn places the entry in hand; it ends because
      every further turn marks one more old entry as moved. */
  method KickOut<K(!new), V>(hash: K -> nat, was: array<Flag>, now: array<Flag>, keys: array<K>, vals: array<V>,
                       ghost m: map<K, V>, ghost home: map<K, nat>, ghost placed0: map<K, nat>, key0: K, val0: V)
    returns (ghost placed: map<K, nat>)
    requires was != now && (keys as object) != (vals as object)
    requires (keys as object) !in {was as object, now} && (vals as object) !in {was as object, now}
    requires was.Length <= keys.Length == vals.Length && now.Length <= keys.Length
    requires IsPow2(now.Length) && |m| < now.Length
    requires Rehashing(hash, m, home, was[..], now[..], keys[..], vals[..], placed0, Some(key0))
    requires key0 in m && val0 == m[key0]
    modifies was, now, keys, vals
    ensures Rehashing(hash, m, home, was[..], now[..], keys[..], vals[..], placed, None)
    ensures forall b :: 0 <= b < was.Length && was[b].Live? ==> old(was[b]).Live?
  {
    hide Rehashing;
    placed := placed0;
    var key, val := key0, val0;
    while true
      invariant Rehashing(hash, m, home, was[..], now[..], keys[..], vals[..], placed, Some(key))
      invariant key in m && val == m[key]
      invariant forall b :: 0 <= b < was.Length && was[b].Live? ==> old(was[b]).Live?
      decreases |LiveSet(was[..])|
    {
      RehashRoom(hash, m, home, was[..], now[..], keys[..], vals[..], placed, key);
      ghost var step;
      var i;
      i, step := FirstEmpty(hash, now, key);
      RehashPlace(hash, m, home, was[..], now[..], keys[..], vals[..], placed, key, step);
      placed := placed[key := step];
      Store(now, i, Live);
      if i < was.Length && was[i].Live? {
        var k, v := keys[i], vals[i];
        Store(keys, i, key);
        Store(vals, i, val);
        key, val := k, v;
        LiveShrinks(was[..], i);
        Store(was, i, Deleted);
      } else {
        Store(keys, i, key);
        Store(vals, i, val);
        break;
      }
    }
  }

  lemma LiveShrinks(flags: seq<Flag>, i: nat)
    requires i < |flags| && flags[i].Live?
    ensures |LiveSet(flags[i := Deleted])| < |LiveSet(flags)|
  {
    assert LiveSet(flags[i := Deleted]) == LiveSet(flags) - {i};
  }

  /** The probe loop of the rehash: the first empty bucket on the key's path. */
  method FirstEmpty<K>(hash: K -> nat, now: array<Flag>, key: K) returns (i: nat, ghost step: nat)
    requires 0 < now.Length && IsPow2(now.Length) && |Occupied(now[..])| < now.Length
    ensures step < now.Length && i == Probe(hash(key), now.Length, step) && i < now.Length && now[i].Empty?
    ensures |now[..]| == now.Length && NonEmptyBefore(hash, now[..], key, step)
  {
    hide Probe, Mod, BitAnd, Pow2, Occupied;
    ghost var fs := now[..];
    ghost var e, stop := WalkEnds(fs, hash(key));
    var mask, turn := now.Length - 1, 0;
    step := 0;
    WalkStart(hash(key), e);
    i := BitAnd(hash(key), mask);
    while !now[i].Empty?
      invariant turn == step <= stop && i == Probe(hash(key), |fs|, step)
      invariant NonEmptyBefore(hash, fs, key, step)
      decreases stop - step
    {
      WalkNext(hash(key), e, step);
      step, turn := step + 1, turn + 1;
      i := BitAnd(i + turn, mask);
    }
  }

  // ---------------------------------------------------------------- whole runs against a plain map

  datatype Op<K, V> = Insert(k: K, v: V) | Write(k: K, v: V) | Erase(k: K) | Look(k: K)

  function Apply<K, V>(m: map<K, V>, op: Op<K, V>): map<K, V> {
    match op
    case Insert(k, v) => m[k := v]
    case Write(k, v) => if k in m then m[k := v] else m
    case Erase(k) => m - {k}
    case Look(k) => m
  }

  function Answers<K, V>(ops: seq<Op<K, V>>, m: map<K, V>): seq<Option<V>> {
    if ops == [] then [] else
      var rest := Answers(ops[1..], Apply(m, ops[0]));
      if !ops[0].Look? then rest
      else [if ops[0].k in m then Some(m[ops[0].k]) else None] + rest
  }

  /** Keys are added only while fewer than 2^30 are live; a run may be of any length. */
  predicate Fits<K, V>(ops: seq<Op<K, V>>, m: map<K, V>) {
    ops == [] || ((ops[0].Insert? ==> |m| < MAX_BUCKETS / 2) && Fits(ops[1..], Apply(m, ops[0])))
  }

  lemma AnswersHead<K, V>(ops: seq<Op<K, V>>, j: nat, m: map<K, V>)
    requires j < |ops|
    ensures Answers(ops[j..], m)
              == (if ops[j].Look? then [if ops[j].k in m then Some(m[ops[j].k]) else None] else [])
                 + Answers(ops[j + 1..], Apply(m, ops[j]))
    ensures Fits(ops[j..], m) <==> (ops[j].Insert? ==> |m| < MAX_BUCKETS / 2) && Fits(ops[j + 1..], Apply(m, ops[j]))
  {
    assert ops[j..][1..] == ops[j + 1..];
  }

  /** One operation on the table, as the callers combine kh_get, kh_put, kh_value and kh_del. */
  method Step<K(==,0,!new), V(0)>(t: Table<K, V>, op: Op<K, V>) returns (answer: Option<V>)
    requires t.Valid() && (op.Insert? ==> |t.m| < MAX_BUCKETS / 2)
    modifies t, t.flags, t.keys, t.vals
    ensures t.Valid() && t.m == Apply(old(t.m), op)
    ensures fresh(t.flags) || t.flags == old(t.flags)
    ensures fresh(t.keys) || t.keys == old(t.keys)
    ensures fresh(t.vals) || t.vals == old(t.vals)
    ensures op.Look? ==> answer == if op.k in old(t.m) then Some(old(t.m)[op.k]) else None
  {
    hide Table.Valid;
    answer := None;
    match op
    case Insert(k, v) => t.Insert(k, v);
    case Write(k, v) => t.Overwrite(k, v);
    case Erase(k) => t.Erase(k);
    case Look(k) => answer := t.Look(k);
  }

  /** The rest of a run: the lookups answer as the map that the table stands for would. */
  method RunFrom<K(==,0,!new), V(0)>(t: Table<K, V>, ops: seq<Op<K, V>>, j: nat) returns (answers: seq<Option<V>>)
    requires j <= |ops| && t.Valid() && Fits(ops[j..], t.m)
    modifies t, t.flags, t.keys, t.vals
    ensures answers == Answers(ops[j..], old(t.m))
    decreases |ops| - j
  {
    hide Table.Valid, Apply, Answers, Fits;
    if j == |ops| {
      AnswersNone(t.m, ops);
      return [];
    }
    AnswersHead(ops, j, t.m);
    var answer := Step(t, ops[j]);
    var rest := RunFrom(t, ops, j + 1);
    answers := if ops[j].Look? then [answer] + rest else rest;
  }

  /** Every lookup in every run of inserts, writes and deletes from an empty table answers as a plain finite map. */
  method Replay<K(==,0,!new), V(0)>(hash: K -> nat, ops: seq<Op<K, V>>) returns (answers: seq<Option<V>>)
    requires Fits(ops, map[])
    ensures answers == Answers(ops, map[])
  {
    var t := new Table<K, V>(hash);
    assert ops[0..] == ops;
    answers := RunFrom(t, ops, 0);
  }

  lemma AnswersNone<K, V>(m: map<K, V>, ops: seq<Op<K, V>>)
    ensures Answers(ops[|ops|..], m) == []
  {
  }
}
