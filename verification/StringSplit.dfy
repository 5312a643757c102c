/** The tokenizers: the incremental C++ StringSplit and the Lua string_split loop. */
module StringSplit {
  import opened Common
  import opened Text

  /** The first token of the rest of the input, found by searching the whole input from `from`. */
  lemma CutSome(s: string, d: string, from: nat, i: nat)
    requires d != "" && from <= |s| && Find(s, d, from) == Some(i)
    ensures from <= i <= i + |d| <= |s|
    ensures Split(s[from..], d) == [s[from..i]] + Split(s[i + |d|..], d)
  {
    var k := FoundInRest(s, d, from, i);
    UnfoldSome(s[from..], d, k);
    Rename(s[from..], d, k, s[from..i], s[i + |d|..]);
    hide *;
  }

  lemma CutNone(s: string, d: string, from: nat)
    requires d != "" && from <= |s| && Find(s, d, from).None?
    ensures Split(s[from..], d) == [s[from..]]
  {
    FindInRest(s, d, from, s[from..], 0);
    UnfoldNone(s[from..], d);
  }

  lemma FoundInRest(s: string, d: string, from: nat, i: nat) returns (k: nat)
    requires d != "" && from <= |s| && Find(s, d, from) == Some(i)
    ensures from <= i <= i + |d| <= |s| && k + |d| <= |s[from..]| && Find(s[from..], d, 0) == Some(k)
    ensures s[from..][..k] == s[from..i] && s[from..][k + |d|..] == s[i + |d|..]
  {
    k := i - from;
    FindInRest(s, d, from, s[from..], 0);
    RestSlices(s, from, s[from..], k, |d|);
  }

  lemma Rename(r: string, d: string, k: nat, a: string, b: string)
    requires d != "" && k + |d| <= |r| && r[..k] == a && r[k + |d|..] == b
    requires Split(r, d) == [r[..k]] + Split(r[k + |d|..], d)
    ensures Split(r, d) == [a] + Split(b, d)
  {
    hide *;
  }

  lemma UnfoldNone(r: string, d: string)
    requires d != "" && Find(r, d, 0).None?
    ensures Split(r, d) == [r]
  {
  }

  lemma UnfoldSome(r: string, d: string, i: nat)
    requires d != "" && Find(r, d, 0) == Some(i)
    ensures Split(r, d) == [r[..i]] + Split(r[i + |d|..], d)
  {
  }

  /** `finishedSuccessfully` after k calls to next, in terms of the reference split. */
  predicate Finished(input: string, d: string, k: nat) {
    && d != ""
    && var ts := Split(input, d);
       k == |ts| || (k == |ts| - 1 && ts[|ts| - 1] == "")
  }

  function Token(input: string, d: string, k: nat): string {
    if d != "" && k < |Split(input, d)| then Split(input, d)[k] else ""
  }

  class Splitter {
    const input: string
    const delimiter: string
    var index: nat
    var error: bool
    var eof: bool
    ghost var calls: nat

    ghost predicate Valid()
      reads this
    {
      if delimiter == "" then error
      else
        var ts := Split(input, delimiter);
        && (error <==> calls > |ts|)
        && (!error ==> (eof <==> calls == |ts|))
        && (eof ==> index >= |input|)
        && (!error && !eof ==> index <= |input| && Split(input[index..], delimiter) == ts[calls..])
    }

    constructor (input: string, delimiter: string)
      ensures Valid() && calls == 0 && this.input == input && this.delimiter == delimiter
    {
      this.input, this.delimiter := input, delimiter;
      index, eof, calls := 0, false, 0;
      error := delimiter == "";
      new;
      assert input[0..] == input;
    }

    method Next() returns (r: string)
      requires Valid()
      modifies this`index, this`error, this`eof, this`calls
      ensures Valid() && calls == old(calls) + 1
      ensures r == Token(input, delimiter, old(calls))
    {
      hide Split, Find, MatchAt;
      calls := calls + 1;
      if error {
        return "";
      }
      if eof {
        error := true;
        return "";
      }
      if input == "" {
        LastToken(input, delimiter);
        eof := true;
        index := 1;
        return "";
      }
      ghost var ts := Split(input, delimiter);
      assert ts[old(calls)..][1..] == ts[calls..];
      var next := Find(input, delimiter, index);
      if next.None? {
        CutNone(input, delimiter, index);
        r := input[index..];
        eof := true;
        index := |input|;
      } else {
        CutSome(input, delimiter, index, next.value);
        r := input[index..next.value];
        index := next.value + |delimiter|;
      }
    }

    method FinishedSuccessfully() returns (b: bool)
      requires Valid()
      ensures b <==> Finished(input, delimiter, calls)
    {
      b := !error && index >= |input|;
      if delimiter != "" && !error && !eof {
        ghost var ts := Split(input, delimiter);
        assert input[index..] == "" <==> index == |input|;
        LastToken(input[index..], delimiter);
        assert ts[calls..][|ts| - calls - 1] == ts[|ts| - 1];
      }
    }
  }

  lemma LastToken(rest: string, d: string)
    requires d != ""
    ensures rest == "" ==> Split(rest, d) == [""]
    ensures |Split(rest, d)| == 1 ==> Split(rest, d) == [rest]
  {
  }

  /** Any number of calls to next on a fresh splitter: the first k tokens of the reference split, then
      empty strings; and the success test afterwards. */
  method TakeTokens(input: string, d: string, k: nat) returns (ts: seq<string>, finished: bool)
    ensures |ts| == k && forall i :: 0 <= i < k ==> ts[i] == Token(input, d, i)
    ensures finished <==> Finished(input, d, k)
  {
    var split := new Splitter(input, d);
    ts := [];
    while |ts| < k
      invariant |ts| <= k && split.Valid() && split.calls == |ts|
      invariant split.input == input && split.delimiter == d && fresh(split)
      invariant forall i :: 0 <= i < |ts| ==> ts[i] == Token(input, d, i)
    {
      var t := split.Next();
      ts := ts + [t];
    }
    finished := split.FinishedSuccessfully();
  }

  // ---------------------------------------------------------------- string_split in Lua

  predicate EndsWith(s: string, d: string) {
    |d| <= |s| && s[|s| - |d|..] == d
  }

  /** What the Lua loop collects from index `from` on, before the suffix test; `room` is what is left of max_entries. */
  function LuaLoop(s: string, d: string, from: nat, room: Option<nat>): seq<string>
    requires d != ""
    decreases |s| - from
  {
    if from >= |s| then [] else
    match Find(s, d, from)
    case None => [s[from..]]
    case Some(i) =>
      if room.Some? && room.value <= 1 then [s[from..]]
      else [s[from..i]] + LuaLoop(s, d, i + |d|, Less(room))
  }

  function LuaSplitAtMost(s: string, d: string, max_entries: Option<nat>): seq<string> {
    if d == "" then [s] else LuaLoop(s, d, 0, max_entries) + (if EndsWith(s, d) then [""] else [])
  }

  function LuaSplit(s: string, d: string): seq<string> {
    LuaSplitAtMost(s, d, None)
  }

  /** The end of the loop, and one turn of it. */
  lemma LuaDone(s: string, d: string, from: nat, room: Option<nat>)
    requires d != "" && from >= |s|
    ensures LuaLoop(s, d, from, room) == []
  {
  }

  lemma LuaTurn(s: string, d: string, from: nat, room: Option<nat>)
    requires d != "" && from < |s|
    ensures var f := Find(s, d, from);
            LuaLoop(s, d, from, room)
            == if f.None? || (room.Some? && room.value <= 1) then [s[from..]]
               else [s[from..f.value]] + LuaLoop(s, d, f.value + |d|, Less(room))
  {
  }

  function Less(room: Option<nat>): Option<nat> {
    if room.Some? && room.value > 0 then Some(room.value - 1) else room
  }

  lemma Regroup(a: seq<string>, t: string, b: seq<string>)
    ensures a + ([t] + b) == (a + [t]) + b
  {
  }

  method LuaStringSplit(input: string, delimiter: string, max_entries: Option<nat>) returns (result: seq<string>)
    ensures result == LuaSplitAtMost(input, delimiter, max_entries)
  {
    if |delimiter| == 0 {
      return [input];
    }
    result := LuaCollect(input, delimiter, max_entries);
    if EndsWith(input, delimiter) {
      result := result + [""];
    }
  }

  method LuaCollect(input: string, delimiter: string, max_entries: Option<nat>) returns (result: seq<string>)
    requires delimiter != ""
    ensures result == LuaLoop(input, delimiter, 0, max_entries)
  {
    hide Find, LuaLoop, MatchAt;
    result := [];
    var from := 0;
    ghost var room: Option<nat> := max_entries;
    ghost var all := LuaLoop(input, delimiter, 0, max_entries);
    while from < |input|
      invariant result + LuaLoop(input, delimiter, from, room) == all
      invariant room.Some? <==> max_entries.Some?
      invariant room.Some? ==> room.value + |result| == max_entries.value
      decreases |input| - from
    {
      LuaTurn(input, delimiter, from, room);
      var start := Find(input, delimiter, from);
      if start.None? || (max_entries.Some? && |result| + 1 >= max_entries.value) {
        return result + [input[from..]];
      }
      var token, next := input[from..start.value], start.value + |delimiter|;
      Regroup(result, token, LuaLoop(input, delimiter, next, Less(room)));
      result, from, room := result + [token], next, Less(room);
    }
    LuaDone(input, delimiter, from, room);
    assert result + [] == result;
  }

  function LastOf(ts: seq<string>): string
    requires |ts| >= 1
  {
    ts[|ts| - 1]
  }

  function WithoutLastEmpty(ts: seq<string>): seq<string>
    requires |ts| >= 1
  {
    if LastOf(ts) == "" then ts[..|ts| - 1] else ts
  }

  /** The loop drops exactly a last empty token. */
  lemma {:induction false} LuaLoopIsSplit(s: string, d: string, from: nat)
    requires d != "" && from <= |s|
    ensures LuaLoop(s, d, from, None) == WithoutLastEmpty(Split(s[from..], d))
    decreases |s| - from
  {
    hide Split, Find, MatchAt;
    var f := Find(s, d, from);
    if f.None? {
      CutNone(s, d, from);
    } else {
      CutSome(s, d, from, f.value);
      LuaLoopIsSplit(s, d, f.value + |d|);
      LastOfCons(s[from..f.value], Split(s[f.value + |d|..], d));
    }
  }

  lemma LastOfCons(t: string, ts: seq<string>)
    requires |ts| >= 1
    ensures WithoutLastEmpty([t] + ts) == [t] + WithoutLastEmpty(ts)
  {
  }

  /** Lua agrees with the reference exactly when "ends with the delimiter" and "last token is empty" agree. */
  lemma LuaSplitIsSplit(s: string, d: string)
    requires d != ""
    ensures var ts := Split(s, d);
            LuaSplit(s, d) == ts <==> (LastOf(ts) == "" <==> EndsWith(s, d))
  {
    hide Split, LuaLoop, EndsWith, WithoutLastEmpty, LastOf;
    LuaLoopIsSplit(s, d, 0);
    assert s[0..] == s;
    RestoreLast(Split(s, d), EndsWith(s, d));
  }

  lemma RestoreLast(ts: seq<string>, add: bool)
    requires |ts| >= 1
    ensures WithoutLastEmpty(ts) + (if add then [""] else []) == ts <==> (LastOf(ts) == "" <==> add)
  {
    assert ts == ts[..|ts| - 1] + [ts[|ts| - 1]];
    assert |ts + [""]| != |ts|;
  }

  /** With room for n entries: all tokens as before when there are no more than n, and otherwise the first n - 1 tokens
      and the rest of the input in one piece. */
  lemma {:induction false} LuaLoopLimited(s: string, d: string, from: nat, n: nat)
    requires d != "" && from <= |s| && n >= 1
    ensures var ts := Split(s[from..], d);
            LuaLoop(s, d, from, Some(n)) == if |ts| <= n then LuaLoop(s, d, from, None)
                                            else ts[..n - 1] + [Join(ts[n - 1..], d)]
    decreases |s| - from
  {
    hide Split, Find, MatchAt, Join;
    var f, rest := Find(s, d, from), s[from..];
    if f.None? {
      CutNone(s, d, from);
    } else {
      CutSome(s, d, from, f.value);
      JoinSplit(rest, d);
      var next := f.value + |d|;
      if n == 1 {
        assert Split(rest, d)[0..] == Split(rest, d);
      } else {
        LuaLoopLimited(s, d, next, n - 1);
        if |Split(s[next..], d)| > n - 1 {
          Shifted(s[from..f.value], Split(s[next..], d), n - 1);
        }
      }
    }
  }

  lemma Shifted(t: string, ts: seq<string>, n: nat)
    requires 1 <= n < |ts|
    ensures ([t] + ts)[..n] == [t] + ts[..n - 1] && ([t] + ts)[n..] == ts[n - 1..]
  {
  }

  /** max_entries is exceeded, by one empty entry, if and only if there are more tokens than entries and the input ends
      with the delimiter. */
  lemma LimitExceededIff(s: string, d: string, n: nat)
    requires d != "" && s != "" && n >= 1 && |Split(s, d)| > n
    ensures LuaSplitAtMost(s, d, Some(n)) == Split(s, d)[..n - 1] + [Join(Split(s, d)[n - 1..], d)]
                                             + (if EndsWith(s, d) then [""] else [])
    ensures |LuaSplitAtMost(s, d, Some(n))| > n <==> EndsWith(s, d)
  {
    LuaLoopLimited(s, d, 0, n);
    assert s[0..] == s;
    hide Split, LuaLoop, Join, EndsWith;
  }

  /** For the one-character delimiters every caller uses, they agree on every non-empty input. */
  lemma LuaSplitChar(s: string, c: char)
    ensures s != "" ==> LuaSplit(s, [c]) == Split(s, [c])
    ensures s == "" ==> LuaSplit(s, [c]) == [] && Split(s, [c]) == [""]
  {
    if s != "" {
      LastEmpty(s, c);
      EndsWithChar(s, c);
      LuaSplitIsSplit(s, [c]);
    }
  }

  lemma {:induction false} LastEmpty(s: string, c: char)
    requires s != ""
    ensures LastOf(Split(s, [c])) == "" <==> s[|s| - 1] == c
    decreases |s|
  {
    FindIsFirst(s, [c], 0);
    MatchChar(s, c, |s| - 1);
    hide Split, Find, MatchAt, LastOf;
    var f := Find(s, [c], 0);
    if f.None? {
      UnfoldNone(s, [c]);
      LastOfOne(s);
    } else {
      UnfoldSome(s, [c], f.value);
      var rest := s[f.value + 1..];
      LastOfMore(s[..f.value], Split(rest, [c]));
      if rest == "" {
        EmptySplits(rest, [c]);
        LastOfOne(rest);
      } else {
        LastEmpty(rest, c);
      }
    }
  }

  lemma LastOfOne(t: string)
    ensures LastOf([t]) == t
  {
  }

  lemma LastOfMore(t: string, ts: seq<string>)
    requires |ts| >= 1
    ensures LastOf([t] + ts) == LastOf(ts)
  {
  }

  lemma MatchChar(s: string, c: char, i: nat)
    requires i < |s|
    ensures MatchAt(s, [c], i) <==> s[i] == c
  {
    assert s[i..i + 1] == [s[i]];
  }

  lemma EmptySplits(r: string, d: string)
    requires d != "" && r == ""
    ensures Split(r, d) == [""]
  {
  }

  lemma EndsWithChar(s: string, c: char)
    requires s != ""
    ensures EndsWith(s, [c]) <==> s[|s| - 1] == c
  {
    assert s[|s| - 1..] == [s[|s| - 1]];
  }

  /** A delimiter that overlaps itself makes the Lua suffix test add a token. */
  lemma LuaOverlapDiffers()
    ensures Split("aaa", "aa") == ["", "a"] && LuaSplit("aaa", "aa") == ["", "a", ""]
  {
    assert MatchAt("aaa", "aa", 0);
    assert Find("aaa", "aa", 0) == Some(0);
    assert "aaa"[2..] == "a";
    assert Find("aaa", "aa", 2) == None && "aaa"[0..0] == "";
    assert Split("a", "aa") == ["a"] && LuaLoop("aaa", "aa", 2, None) == ["a"];
    assert "aaa"[..0] == "";
    assert "aaa"[1..] == "aa";
  }
}
