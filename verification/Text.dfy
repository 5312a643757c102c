/** Strings cut at a delimiter: the reference split that StringSplit (C++), string_split (Lua) and
    str.split (Python) are measured against, and when splitting undoes joining. */
module Text {

  import opened Common

  predicate MatchAt(s: string, d: string, i: nat) {
    i + |d| <= |s| && s[i..i + |d|] == d
  }

  /** Position of the first occurrence of d in s at or after `from`. */
  function Find(s: string, d: string, from: nat): (r: Option<nat>)
    ensures r.Some? ==> from <= r.value && r.value + |d| <= |s|
    decreases |s| - from
  {
    if from + |d| > |s| then None
    else if MatchAt(s, d, from) then Some(from)
    else Find(s, d, from + 1)
  }

  lemma {:induction false} FindIsFirst(s: string, d: string, from: nat)
    ensures Find(s, d, from).Some? ==> MatchAt(s, d, Find(s, d, from).value)
    ensures Find(s, d, from).Some? ==> forall i :: from <= i < Find(s, d, from).value ==> !MatchAt(s, d, i)
    ensures Find(s, d, from).None? ==> forall i :: from <= i ==> !MatchAt(s, d, i)
    decreases |s| - from
  {
    if from + |d| <= |s| && !MatchAt(s, d, from) {
      FindIsFirst(s, d, from + 1);
    }
  }

  function Split(s: string, d: string): (ts: seq<string>)
    requires d != ""
    ensures |ts| >= 1
    decreases |s|
  {
    match Find(s, d, 0)
    case None => [s]
    case Some(i) => [s[..i]] + Split(s[i + |d|..], d)
  }

  function Join(ts: seq<string>, d: string): string {
    if |ts| == 0 then "" else if |ts| == 1 then ts[0] else ts[0] + d + Join(ts[1..], d)
  }

  lemma JoinCons(t: string, ts: seq<string>, d: string)
    requires |ts| >= 1
    ensures Join([t] + ts, d) == t + d + Join(ts, d)
  {
    assert ([t] + ts)[1..] == ts;
  }

  lemma Join3(a: string, b: string, c: string, d: string)
    ensures Join([a, b, c], d) == a + d + (b + d + c)
  {
    assert Join([c], d) == c;
    JoinCons(b, [c], d);
    JoinCons(a, [b, c], d);
    assert [a] + [b, c] == [a, b, c] && [b] + [c] == [b, c];
  }

  /** r is what is left of s from an index on. */
  ghost predicate IsRest(s: string, from: nat, r: string) {
    from + |r| == |s| && forall j :: 0 <= j < |r| ==> r[j] == s[from + j]
  }

  lemma RestSlices(s: string, from: nat, r: string, i: nat, n: nat)
    requires IsRest(s, from, r) && i + n <= |r|
    ensures r[..i] == s[from..from + i] && r[i..i + n] == s[from + i..from + i + n] && r[i + n..] == s[from + i + n..]
  {
  }

  lemma MatchInRest(s: string, d: string, from: nat, r: string, i: nat)
    requires IsRest(s, from, r)
    ensures MatchAt(r, d, i) <==> MatchAt(s, d, from + i)
  {
    if i + |d| <= |r| {
      RestSlices(s, from, r, i, |d|);
    }
  }

  /** Searching s from an index is searching the rest of s. */
  lemma {:induction false} FindInRest(s: string, d: string, from: nat, r: string, i: nat)
    requires IsRest(s, from, r)
    ensures Find(s, d, from + i) == match Find(r, d, i) case None => None case Some(k) => Some(from + k)
    decreases |r| - i
  {
    if i + |d| <= |r| {
      MatchInRest(s, d, from, r, i);
      hide MatchAt, IsRest;
      if !MatchAt(r, d, i) {
        FindInRest(s, d, from, r, i + 1);
      }
    }
  }

  /** The delimiter is first met right after the token: no earlier, possibly overlapping, occurrence. */
  predicate Clean(t: string, d: string) {
    forall i :: 0 <= i < |t| ==> !MatchAt(t + d, d, i)
  }

  predicate Free(t: string, d: string) {
    forall i :: 0 <= i <= |t| ==> !MatchAt(t, d, i)
  }

  predicate Separable(ts: seq<string>, d: string) {
    && |ts| >= 1
    && (forall i :: 0 <= i < |ts| - 1 ==> Clean(ts[i], d))
    && Free(ts[|ts| - 1], d)
  }

  lemma MatchWithin(t: string, d: string, rest: string, i: nat)
    requires d != "" && i <= |t|
    ensures MatchAt(t + d + rest, d, i) <==> MatchAt(t + d, d, i)
  {
    assert (t + d + rest)[i..i + |d|] == (t + d)[i..i + |d|];
  }

  /** Where the first cut of `t + d + rest` falls. */
  lemma FirstCut(t: string, d: string, rest: string)
    requires d != ""
    ensures Find(t + d + rest, d, 0).Some? && Find(t + d + rest, d, 0).value <= |t|
    ensures Clean(t, d) <==> Find(t + d + rest, d, 0) == Some(|t|)
  {
    var s := t + d + rest;
    forall i | 0 <= i <= |t| ensures MatchAt(s, d, i) <==> MatchAt(t + d, d, i) {
      MatchWithin(t, d, rest, i);
    }
    FindIsFirst(s, d, 0);
    assert (t + d)[|t|..|t| + |d|] == d;
    assert MatchAt(s, d, |t|);
  }

  lemma CutOnce(t: string, d: string, rest: string)
    requires d != ""
    ensures Clean(t, d) ==> Split(t + d + rest, d) == [t] + Split(rest, d)
    ensures !Clean(t, d) ==> |Split(t + d + rest, d)[0]| < |t|
  {
    FirstCut(t, d, rest);
    var s := t + d + rest;
    assert s[..|t|] == t && s[|t| + |d|..] == rest;
  }

  lemma FreeIsUncut(t: string, d: string)
    requires d != ""
    ensures Free(t, d) <==> Split(t, d) == [t]
  {
    FindIsFirst(t, d, 0);
    if Find(t, d, 0).Some? {
      var i := Find(t, d, 0).value;
      assert MatchAt(t, d, i);
      assert |Split(t, d)| >= 2;
    }
  }

  /** Splitting a join gives the tokens back exactly when no token hides or creates a delimiter. */
  lemma {:induction false} SplitJoin(ts: seq<string>, d: string)
    requires d != "" && |ts| >= 1
    ensures Split(Join(ts, d), d) == ts <==> Separable(ts, d)
    decreases |ts|
  {
    if |ts| == 1 {
      FreeIsUncut(ts[0], d);
      assert ts == [ts[0]];
    } else {
      var t, rest := ts[0], Join(ts[1..], d);
      hide Split, Separable, Clean, Free;
      CutOnce(t, d, rest);
      SplitJoin(ts[1..], d);
      SeparableTail(ts, d);
      assert ts == [t] + ts[1..];
    }
  }

  lemma SeparableTail(ts: seq<string>, d: string)
    requires |ts| >= 2
    ensures Separable(ts, d) <==> Clean(ts[0], d) && Separable(ts[1..], d)
  {
    var r := ts[1..];
    if Clean(ts[0], d) && Separable(r, d) {
      forall i | 0 <= i < |ts| - 1 ensures Clean(ts[i], d) {
        if i > 0 { assert r[i - 1] == ts[i]; }
      }
    }
    if Separable(ts, d) {
      forall i | 0 <= i < |r| - 1 ensures Clean(r[i], d) {
        assert r[i] == ts[i + 1];
      }
    }
  }

  lemma MatchFirst(s: string, d: string, i: nat)
    requires d != ""
    ensures MatchAt(s, d, i) ==> s[i] == d[0]
  {
    assert MatchAt(s, d, i) ==> s[i..i + |d|][0] == s[i];
  }

  /** A token without the delimiter's first character is safe anywhere. */
  lemma NoFirstChar(t: string, d: string)
    requires d != "" && d[0] !in t
    ensures Clean(t, d) && Free(t, d)
  {
    forall i | 0 <= i < |t| ensures !MatchAt(t + d, d, i) && !MatchAt(t, d, i) {
      MatchFirst(t + d, d, i);
      MatchFirst(t, d, i);
    }
  }

  lemma {:induction false} JoinSplit(s: string, d: string)
    requires d != ""
    ensures Join(Split(s, d), d) == s
    decreases |s|
  {
    FindIsFirst(s, d, 0);
    if Find(s, d, 0).Some? {
      var i := Find(s, d, 0).value;
      JoinSplit(s[i + |d|..], d);
      assert Split(s, d)[1..] == Split(s[i + |d|..], d);
      assert s == s[..i] + d + s[i + |d|..];
    }
  }

  // ---------------------------------------------------------------- one-character delimiters

  function CountOf(c: char, s: string): nat {
    if s == "" then 0 else (if s[0] == c then 1 else 0) + CountOf(c, s[1..])
  }

  lemma {:induction false} CountNone(c: char, s: string)
    ensures CountOf(c, s) == 0 <==> c !in s
  {
    if s != "" {
      CountNone(c, s[1..]);
      assert s == [s[0]] + s[1..];
    }
  }

  lemma {:induction false} CountConcat(c: char, a: string, b: string)
    ensures CountOf(c, a + b) == CountOf(c, a) + CountOf(c, b)
  {
    if a == "" {
      assert a + b == b;
    } else {
      CountConcat(c, a[1..], b);
      assert (a + b)[1..] == a[1..] + b;
    }
  }

  /** One more token than separators, wherever they are. */
  lemma {:induction false} SplitCount(s: string, c: char)
    ensures |Split(s, [c])| == CountOf(c, s) + 1
    decreases |s|
  {
    var f := Find(s, [c], 0);
    FindIsFirst(s, [c], 0);
    if f.Some? {
      var i := f.value;
      SplitCount(s[i + 1..], c);
      assert c !in s[..i] by {
        forall j | 0 <= j < i ensures s[j] != c {
          assert !MatchAt(s, [c], j);
          assert s[j..j + 1] == [s[j]];
        }
      }
      assert s == s[..i] + ([c] + s[i + 1..]) by { assert s[i..i + 1] == [c]; }
      CountConcat(c, s[..i], [c] + s[i + 1..]);
      CountConcat(c, [c], s[i + 1..]);
      CountNone(c, s[..i]);
    } else {
      forall j | 0 <= j < |s| ensures s[j] != c {
        assert !MatchAt(s, [c], j);
        assert s[j..j + 1] == [s[j]];
      }
      CountNone(c, s);
    }
  }

  lemma {:induction false} JoinCount(ts: seq<string>, c: char)
    requires |ts| >= 1
    ensures CountOf(c, Join(ts, [c])) >= |ts| - 1
    ensures CountOf(c, Join(ts, [c])) == |ts| - 1 <==> forall t :: t in ts ==> c !in t
    decreases |ts|
  {
    CountNone(c, ts[0]);
    if |ts| > 1 {
      var rest := Join(ts[1..], [c]);
      JoinCount(ts[1..], c);
      CountConcat(c, ts[0] + [c], rest);
      CountConcat(c, ts[0], [c]);
      assert ts == [ts[0]] + ts[1..];
    } else {
      assert ts == [ts[0]];
    }
  }

  /** For a one-character separator: the join has as many tokens as were joined exactly when no token
      contains it, and then it splits back to them. */
  lemma SplitJoinChar(ts: seq<string>, c: char)
    requires |ts| >= 1
    ensures |Split(Join(ts, [c]), [c])| == |ts| <==> forall t :: t in ts ==> c !in t
    ensures (forall t :: t in ts ==> c !in t) ==> Split(Join(ts, [c]), [c]) == ts
  {
    SplitCount(Join(ts, [c]), c);
    JoinCount(ts, c);
    if forall t :: t in ts ==> c !in t {
      forall i | 0 <= i < |ts| ensures Clean(ts[i], [c]) && Free(ts[i], [c]) {
        assert ts[i] in ts;
        NoFirstChar(ts[i], [c]);
      }
      SplitJoin(ts, [c]);
    }
  }
}
