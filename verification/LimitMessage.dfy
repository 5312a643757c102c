/** The limit-share message: printed by polygen (Python), read line by line by ingest_policies (Lua). */
module LimitMessage {
  import opened Common
  import opened Text
  import opened Decimal
  import opened StringSplit

  /** One entry of the computed map, with its instances in the dictionary's order. */
  datatype Entry = Entry(user: string, direction: string, shares: seq<(string, int)>)

  datatype Update = Update(timestamp: int, user: string, instance: string, direction: string, limit: int)

  // ---------------------------------------------------------------- printing

  function ShareText(direction: string, share: (string, int)): string
    requires share.1 > 0
  {
    Join([share.0, direction, PrintNat(share.1)], "_")
  }

  /** Only positive shares are printed. */
  function ShareTexts(direction: string, shares: seq<(string, int)>): seq<string> {
    if shares == [] then [] else
      (if shares[0].1 > 0 then [ShareText(direction, shares[0])] else []) + ShareTexts(direction, shares[1..])
  }

  function EntryText(epoch_ms: nat, e: Entry): string {
    Join([PrintNat(epoch_ms), e.user, Join(ShareTexts(e.direction, e.shares), ",")], ",")
  }

  function EntryTexts(epoch_ms: nat, es: seq<Entry>): seq<string> {
    seq(|es|, i requires 0 <= i < |es| => EntryText(epoch_ms, es[i]))
  }

  function PrintMessage(epoch_ms: nat, es: seq<Entry>): string {
    Join(["limit_share"] + EntryTexts(epoch_ms, es) + ["end_limit_share\n"], "\n")
  }

  // ---------------------------------------------------------------- what should arrive

  function Wanted(epoch_ms: nat, user: string, direction: string, shares: seq<(string, int)>): seq<Update> {
    if shares == [] then [] else
      (if shares[0].1 > 0 then [Update(epoch_ms, user, shares[0].0, direction, shares[0].1)] else [])
      + Wanted(epoch_ms, user, direction, shares[1..])
  }

  function WantedAll(epoch_ms: nat, es: seq<Entry>): seq<Update> {
    if es == [] then [] else Wanted(epoch_ms, es[0].user, es[0].direction, es[0].shares) + WantedAll(epoch_ms, es[1..])
  }

  // ---------------------------------------------------------------- reading

  function Terminated(ts: seq<string>): seq<string> {
    seq(|ts|, i requires 0 <= i < |ts| => ts[i] + "\n")
  }

  /** applet:getline() until the stream is empty: each line keeps its newline. */
  function Lines(text: string): seq<string> {
    var parts := Split(text, "\n");
    Terminated(parts[..|parts| - 1])
    + (if parts[|parts| - 1] == "" then [] else [parts[|parts| - 1]])
  }

  predicate StartsWith(line: string, prefix: string) {
    prefix <= line
  }

  datatype LineResult = LineResult(updates: seq<Update>, ok: bool)

  /** The `for i=3, #components` loop over the shares of one line. */
  function ReadShares(timestamp: int, user: string, components: seq<string>): LineResult {
    if components == [] then LineResult([], true) else
    var parts := LuaSplit(components[0], "_");
    if |parts| != 3 then LineResult([], false) else
    var limit := ToNumber(parts[2]);
    if limit.None? then LineResult([], false) else
    var rest := ReadShares(timestamp, user, components[1..]);
    LineResult([Update(timestamp, user, parts[0], parts[1], limit.value)] + rest.updates, rest.ok)
  }

  function ReadLine(line: string): LineResult {
    var components := LuaSplit(line, ",");
    if |components| < 3 then LineResult([], false) else
    var timestamp := ToNumber(components[0]);
    if timestamp.None? then LineResult([], false) else ReadShares(timestamp.value, components[1], components[2..])
  }

  /** ingest_policies as far as limit shares go; inside a message or between messages. A bad line ends the
      message, and what is left of it is taken for unmatched top-level lines. */
  datatype Mode = Top | InShares | InPolicies

  /** Policy lines are trimmed before they are looked at. */
  predicate EndsPolicies(line: string) {
    StartsWith(TrimRight(TrimLeft(line)), "END_OF_POLICIES")
  }

  function Ingest(mode: Mode, lines: seq<string>): seq<Update>
    decreases |lines|
  {
    if lines == [] then [] else
    var line := lines[0];
    match mode
    case Top =>
      Ingest(if StartsWith(line, "policies") then InPolicies
             else if StartsWith(line, "limit_share") then InShares else Top,
             lines[1..])
    case InPolicies => Ingest(if EndsPolicies(line) then Top else InPolicies, lines[1..])
    case InShares =>
      if StartsWith(line, "end_limit_share") then Ingest(Top, lines[1..])
      else if StartsWith(line, "limit_share") then Ingest(InShares, lines[1..])
      else
        var r := ReadLine(line);
        r.updates + Ingest(if r.ok then InShares else Top, lines[1..])
  }

  /** The reading loop itself. */
  method IngestLines(lines: seq<string>) returns (updates: seq<Update>)
    ensures updates == Ingest(Top, lines)
  {
    updates := [];
    var mode := Top;
    var at := 0;
    while at < |lines|
      invariant 0 <= at <= |lines|
      invariant updates + Ingest(mode, lines[at..]) == Ingest(Top, lines)
    {
      hide ReadLine;
      var line := lines[at];
      assert lines[at..][1..] == lines[at + 1..];
      at := at + 1;
      match mode
      case Top =>
        mode := if StartsWith(line, "policies") then InPolicies
                else if StartsWith(line, "limit_share") then InShares else Top;
      case InPolicies =>
        mode := if EndsPolicies(line) then Top else InPolicies;
      case InShares =>
        if StartsWith(line, "end_limit_share") {
          mode := Top;
        } else if !StartsWith(line, "limit_share") {
          var r := ReadLine(line);
          updates := updates + r.updates;
          mode := if r.ok then InShares else Top;
        }
    }
  }

  predicate BadComponent(c: string) {
    |LuaSplit(c, "_")| != 3 || ToNumber(LuaSplit(c, "_")[2]).None?
  }

  /** A bad component ends its line; what came before it on the line has been taken. */
  lemma {:induction false} BadComponentStops(timestamp: int, user: string, good: seq<string>, bad: string,
                                             more: seq<string>)
    requires (forall i :: 0 <= i < |good| ==> !BadComponent(good[i])) && BadComponent(bad)
    ensures ReadShares(timestamp, user, good).ok
    ensures ReadShares(timestamp, user, good + [bad] + more)
            == LineResult(ReadShares(timestamp, user, good).updates, false)
    decreases |good|
  {
    hide LuaSplit, ToNumber;
    var all := good + [bad] + more;
    if good == [] {
      assert all[0] == bad;
    } else {
      assert all[0] == good[0] && all[1..] == good[1..] + [bad] + more;
      BadComponentStops(timestamp, user, good[1..], bad, more);
    }
  }

  /** A line that is not taken in full ends the message: the lines after it are read at the top. A second header inside
      a message changes nothing. */
  lemma BadLineEndsMessage(line: string, rest: seq<string>)
    requires !StartsWith(line, "end_limit_share") && !StartsWith(line, "limit_share")
    ensures !ReadLine(line).ok ==> Ingest(InShares, [line] + rest) == ReadLine(line).updates + Ingest(Top, rest)
    ensures |LuaSplit(line, ",")| < 3 || ToNumber(LuaSplit(line, ",")[0]).None?
            ==> ReadLine(line) == LineResult([], false)
    ensures Ingest(InShares, ["limit_share\n"] + rest) == Ingest(InShares, rest)
  {
    hide LuaSplit, ToNumber, ReadShares;
    assert ([line] + rest)[1..] == rest && (["limit_share\n"] + rest)[1..] == rest;
    assert "limit_share" <= "limit_share\n" && !("end_limit_share" <= "limit_share\n") by {
      assert "end_limit_share"[0] != "limit_share\n"[0];
    }
  }

  /** A block of policies is skipped up to its end, and reading goes on at the top. */
  lemma {:induction false} PoliciesSkipped(block: seq<string>, rest: seq<string>)
    requires forall i :: 0 <= i < |block| ==> !EndsPolicies(block[i])
    ensures Ingest(InPolicies, block + ["END_OF_POLICIES\n"] + rest) == Ingest(Top, rest)
    ensures Ingest(Top, ["policies\n"] + (block + ["END_OF_POLICIES\n"] + rest)) == Ingest(Top, rest)
    decreases |block|
  {
    var lines := block + ["END_OF_POLICIES\n"] + rest;
    if block == [] {
      EndLine();
      assert lines[0] == "END_OF_POLICIES\n" && lines[1..] == rest;
    } else {
      assert lines[0] == block[0] && lines[1..] == block[1..] + ["END_OF_POLICIES\n"] + rest;
      PoliciesSkipped(block[1..], rest);
    }
    assert (["policies\n"] + lines)[1..] == lines;
    assert "policies" <= "policies\n";
  }

  lemma EndLine()
    ensures EndsPolicies("END_OF_POLICIES\n")
  {
    var s := "END_OF_POLICIES";
    assert s + "\n" == "END_OF_POLICIES\n" && (s + "\n")[..|s|] == s;
    assert TrimLeft(s + "\n") == s + "\n";
    assert TrimRight(s) == s;
    assert TrimRight(s + "\n") == s;
  }

  /** What a message with one user, direction and instance looks like. */
  lemma MessageText(epoch_ms: nat, user: string, direction: string, instance: string, share: nat)
    requires share > 0
    ensures PrintMessage(epoch_ms, [Entry(user, direction, [(instance, share)])])
            == "limit_share\n" + PrintNat(epoch_ms) + "," + user + ","
               + instance + "_" + direction + "_" + PrintNat(share)
               + "\nend_limit_share\n"
  {
    var e, text := Entry(user, direction, [(instance, share)]), ShareText(direction, (instance, share));
    Join3(instance, direction, PrintNat(share), "_");
    assert [(instance, share)][1..] == [];
    assert ShareTexts(direction, e.shares) == [text];
    assert Join([text], ",") == text;
    Join3(PrintNat(epoch_ms), user, text, ",");
    var line := EntryText(epoch_ms, e);
    assert EntryTexts(epoch_ms, [e]) == [line];
    assert ["limit_share"] + [line] + ["end_limit_share\n"] == ["limit_share", line, "end_limit_share\n"];
    Join3("limit_share", line, "end_limit_share\n", "\n");
    hide Join, PrintNat;
    TextPieces(PrintNat(epoch_ms), user, instance, direction, PrintNat(share));
  }

  lemma TextPieces(epoch: string, user: string, instance: string, direction: string, share: string)
    ensures "limit_share" + "\n" + (epoch + "," + (user + "," + (instance + "_" + (direction + "_" + share)))
                                    + "\n" + "end_limit_share\n")
            == "limit_share\n" + epoch + "," + user + "," + instance + "_" + direction + "_" + share
               + "\nend_limit_share\n"
  {
    assert "limit_share" + "\n" == "limit_share\n" && "\n" + "end_limit_share\n" == "\nend_limit_share\n";
  }

  // ---------------------------------------------------------------- reading what was printed

  predicate NameOk(s: string) {
    ',' !in s && '_' !in s && '\n' !in s
  }

  predicate EntryOk(e: Entry) {
    && ',' !in e.user && '\n' !in e.user
    && NameOk(e.direction)
    && forall i :: 0 <= i < |e.shares| ==> NameOk(e.shares[i].0)
  }

  lemma {:induction false} JoinHasNo(ts: seq<string>, d: string, c: char)
    requires c !in d && forall t :: t in ts ==> c !in t
    ensures c !in Join(ts, d)
  {
    if |ts| >= 2 {
      assert ts[0] in ts;
      JoinHasNo(ts[1..], d, c);
    } else if |ts| == 1 {
      assert ts[0] in ts;
    }
  }

  /** A printed share is read back to its three parts, with or without a newline after it. */
  lemma ShareReadBack(direction: string, share: (string, int), tail: string)
    requires share.1 > 0 && NameOk(share.0) && NameOk(direction) && (tail == "" || tail == "\n")
    ensures var t := ShareText(direction, share);
            t + tail != "" && LuaSplit(t + tail, "_") == [share.0, direction, PrintNat(share.1) + tail]
            && ToNumber(PrintNat(share.1) + tail) == Some(share.1)
  {
    var n := PrintNat(share.1);
    var ts := [share.0, direction, n + tail];
    DigitsHaveNo(share.1, '_');
    Join3(share.0, direction, n + tail, "_");
    Join3(share.0, direction, n, "_");
    assert ShareText(direction, share) + tail == Join(ts, "_");
    SplitJoinChar(ts, '_');
    LuaSplitChar(Join(ts, "_"), '_');
    ToNumberPrinted(share.1);
    assert n + "" == n;
  }

  /** The last component carries the line's newline. */
  function WithNewline(ts: seq<string>): seq<string>
    requires |ts| >= 1
  {
    ts[..|ts| - 1] + [ts[|ts| - 1] + "\n"]
  }

  lemma {:induction false} JoinNewline(ts: seq<string>, d: string)
    requires |ts| >= 1
    ensures Join(ts, d) + "\n" == Join(WithNewline(ts), d)
  {
    if |ts| > 1 {
      JoinNewline(ts[1..], d);
      assert WithNewline(ts)[1..] == WithNewline(ts[1..]);
      assert WithNewline(ts)[0] == ts[0];
    }
  }

  lemma {:induction false} ReadSharesBack(epoch_ms: nat, user: string, direction: string, shares: seq<(string, int)>)
    requires NameOk(direction) && forall i :: 0 <= i < |shares| ==> NameOk(shares[i].0)
    requires ShareTexts(direction, shares) != []
    ensures ReadShares(epoch_ms, user, WithNewline(ShareTexts(direction, shares)))
              == LineResult(Wanted(epoch_ms, user, direction, shares), true)
    decreases |shares|
  {
    var rest := shares[1..];
    if shares[0].1 <= 0 {
      assert ShareTexts(direction, shares) == ShareTexts(direction, rest);
      assert Wanted(epoch_ms, user, direction, shares) == Wanted(epoch_ms, user, direction, rest);
      ReadSharesBack(epoch_ms, user, direction, rest);
    } else {
      var more := ShareTexts(direction, rest);
      assert ShareTexts(direction, shares) == [ShareText(direction, shares[0])] + more;
      if more == [] {
        NothingWanted(epoch_ms, user, direction, rest);
      } else {
        ReadSharesBack(epoch_ms, user, direction, rest);
      }
      hide ReadShares, ShareTexts, ShareText, WithNewline;
      ReadHead(epoch_ms, user, direction, shares[0], more, LineResult(Wanted(epoch_ms, user, direction, rest), true));
    }
  }

  /** The first share of a line and whatever the rest of the line reads as. */
  lemma ReadHead(epoch_ms: nat, user: string, direction: string, share: (string, int), more: seq<string>,
                 rest: LineResult)
    requires share.1 > 0 && NameOk(share.0) && NameOk(direction)
    requires more == [] ==> rest == LineResult([], true)
    requires more != [] ==> ReadShares(epoch_ms, user, WithNewline(more)) == rest
    ensures ReadShares(epoch_ms, user, WithNewline([ShareText(direction, share)] + more))
              == LineResult([Update(epoch_ms, user, share.0, direction, share.1)] + rest.updates, rest.ok)
  {
    hide ReadShares, LuaSplit, ToNumber, ShareText, PrintNat, NameOk;
    var t, n := ShareText(direction, share), PrintNat(share.1);
    if more == [] {
      ShareReadBack(direction, share, "\n");
      assert WithNewline([t] + more) == [t + "\n"] + [];
      ReadNone(epoch_ms, user);
      ReadOne(epoch_ms, user, t + "\n", [], share.0, direction, n + "\n", share.1);
    } else {
      ShareReadBack(direction, share, "");
      assert t + "" == t && n + "" == n;
      assert WithNewline([t] + more) == [t] + WithNewline(more);
      ReadOne(epoch_ms, user, t, WithNewline(more), share.0, direction, n, share.1);
    }
  }

  lemma ReadOne(timestamp: int, user: string, c: string, cs: seq<string>, instance: string, direction: string,
                text: string, limit: int)
    requires LuaSplit(c, "_") == [instance, direction, text] && ToNumber(text) == Some(limit)
    ensures var rest := ReadShares(timestamp, user, cs);
            ReadShares(timestamp, user, [c] + cs)
              == LineResult([Update(timestamp, user, instance, direction, limit)] + rest.updates, rest.ok)
  {
    assert ([c] + cs)[1..] == cs;
  }

  lemma ReadNone(timestamp: int, user: string)
    ensures ReadShares(timestamp, user, []) == LineResult([], true)
  {
  }

  lemma CancelPrefix<T>(a: seq<T>, b: seq<T>, c: seq<T>)
    ensures a + b == a + c <==> b == c
  {
    if a + b == a + c {
      assert b == (a + b)[|a|..] && c == (a + c)[|a|..];
    }
  }

  lemma {:induction false} NothingWanted(epoch_ms: nat, user: string, direction: string, shares: seq<(string, int)>)
    ensures ShareTexts(direction, shares) == [] <==> Wanted(epoch_ms, user, direction, shares) == []
  {
    if shares != [] {
      NothingWanted(epoch_ms, user, direction, shares[1..]);
    }
  }

  /** The components of a printed line. */
  lemma {:induction false} ShareTextsOk(direction: string, shares: seq<(string, int)>)
    requires NameOk(direction) && forall i :: 0 <= i < |shares| ==> NameOk(shares[i].0)
    ensures forall t :: t in ShareTexts(direction, shares) ==> ',' !in t && '\n' !in t
  {
    if shares != [] {
      ShareTextsOk(direction, shares[1..]);
      if shares[0].1 > 0 {
        DigitsHaveNo(shares[0].1, ',');
        DigitsHaveNo(shares[0].1, '\n');
        JoinHasNo([shares[0].0, direction, PrintNat(shares[0].1)], "_", ',');
        JoinHasNo([shares[0].0, direction, PrintNat(shares[0].1)], "_", '\n');
      }
    }
  }

  lemma {:induction false} JoinNested(a: string, b: string, ts: seq<string>)
    requires |ts| >= 1
    ensures Join([a, b, Join(ts, ",")], ",") == Join([a, b] + ts, ",")
  {
    Join3(a, b, Join(ts, ","), ",");
    JoinCons(b, ts, ",");
    JoinCons(a, [b] + ts, ",");
    assert [a] + ([b] + ts) == [a, b] + ts;
  }

  /** The comma-separated components that Lua sees on the printed line of one entry. */
  function LineComponents(epoch_ms: nat, e: Entry): seq<string> {
    var shares := ShareTexts(e.direction, e.shares);
    [PrintNat(epoch_ms), e.user] + WithNewline(if shares == [] then [""] else shares)
  }

  lemma LineIsJoined(epoch_ms: nat, e: Entry)
    ensures EntryText(epoch_ms, e) + "\n" == Join(LineComponents(epoch_ms, e), ",")
  {
    var shares := ShareTexts(e.direction, e.shares);
    var ts := if shares == [] then [""] else shares;
    assert Join(ts, ",") == Join(shares, ",");
    JoinNested(PrintNat(epoch_ms), e.user, ts);
    var all := [PrintNat(epoch_ms), e.user] + ts;
    JoinNewline(all, ",");
    assert WithNewline(all) == LineComponents(epoch_ms, e);
  }

  lemma LineSplits(epoch_ms: nat, e: Entry)
    requires EntryOk(e)
    ensures LuaSplit(EntryText(epoch_ms, e) + "\n", ",") == LineComponents(epoch_ms, e)
  {
    var cs := LineComponents(epoch_ms, e);
    LineIsJoined(epoch_ms, e);
    DigitsHaveNo(epoch_ms, ',');
    ShareTextsOk(e.direction, e.shares);
    forall t | t in cs ensures ',' !in t {
    }
    SplitJoinChar(cs, ',');
    LuaSplitChar(Join(cs, ","), ',');
    assert EntryText(epoch_ms, e) + "\n" != "";
  }

  lemma LoneNewline()
    ensures LuaSplit("\n", "_") == ["\n"]
  {
    LuaSplitChar("\n", '_');
    FreeIsUncut("\n", "_");
    NoFirstChar("\n", "_");
  }

  /** A printed line yields the positive shares of its entry, or is refused when it has none. */
  lemma EntryReadBack(epoch_ms: nat, e: Entry)
    requires EntryOk(e)
    ensures ReadLine(EntryText(epoch_ms, e) + "\n")
              == LineResult(Wanted(epoch_ms, e.user, e.direction, e.shares), ShareTexts(e.direction, e.shares) != [])
  {
    LineSplits(epoch_ms, e);
    ToNumberPrinted(epoch_ms);
    NothingWanted(epoch_ms, e.user, e.direction, e.shares);
    var shares := ShareTexts(e.direction, e.shares);
    var cs := LineComponents(epoch_ms, e);
    ReadLineOf(EntryText(epoch_ms, e) + "\n", cs, epoch_ms);
    hide ReadLine, LuaSplit, EntryText, ToNumber, ShareTexts, Wanted;
    if shares == [] {
      LoneNewline();
      assert cs[2..] == ["\n"];
    } else {
      ReadSharesBack(epoch_ms, e.user, e.direction, e.shares);
      assert cs[2..] == WithNewline(shares);
      hide ReadShares;
    }
  }

  lemma ReadLineOf(line: string, cs: seq<string>, timestamp: int)
    requires LuaSplit(line, ",") == cs && |cs| >= 3 && ToNumber(cs[0]) == Some(timestamp)
    ensures ReadLine(line) == ReadShares(timestamp, cs[1], cs[2..])
  {
  }

  lemma DigitFirst(epoch_ms: nat, e: Entry, prefix: string)
    requires prefix != "" && !IsDigit(prefix[0])
    ensures !StartsWith(EntryText(epoch_ms, e) + "\n", prefix)
  {
    var line := EntryText(epoch_ms, e) + "\n";
    assert line[0] == PrintNat(epoch_ms)[0];
  }

  // ---------------------------------------------------------------- the whole message

  function EntryLines(epoch_ms: nat, es: seq<Entry>): seq<string> {
    if es == [] then ["end_limit_share\n"] else [EntryText(epoch_ms, es[0]) + "\n"] + EntryLines(epoch_ms, es[1..])
  }

  predicate HasShares(e: Entry) {
    ShareTexts(e.direction, e.shares) != []
  }

  /** Once a line without shares has been printed, no later line has any. */
  predicate EmptyLinesLast(es: seq<Entry>) {
    forall i, j :: 0 <= i < j < |es| && !HasShares(es[i]) ==> !HasShares(es[j])
  }

  lemma {:induction false} LeftoversIgnored(epoch_ms: nat, es: seq<Entry>)
    ensures Ingest(Top, EntryLines(epoch_ms, es)) == []
    decreases |es|
  {
    if es == [] {
      assert Ingest(Top, ["end_limit_share\n"]) == Ingest(Top, []);
      assert EntryLines(epoch_ms, es) == ["end_limit_share\n"];
    } else {
      DigitFirst(epoch_ms, es[0], "policies");
      DigitFirst(epoch_ms, es[0], "limit_share");
      LeftoversIgnored(epoch_ms, es[1..]);
      assert EntryLines(epoch_ms, es)[1..] == EntryLines(epoch_ms, es[1..]);
    }
  }

  lemma {:induction false} NoSharesNothingWanted(epoch_ms: nat, es: seq<Entry>)
    ensures WantedAll(epoch_ms, es) == [] <==> forall i :: 0 <= i < |es| ==> !HasShares(es[i])
    decreases |es|
  {
    if es != [] {
      NothingWanted(epoch_ms, es[0].user, es[0].direction, es[0].shares);
      NoSharesNothingWanted(epoch_ms, es[1..]);
      assert es == [es[0]] + es[1..];
    }
  }

  lemma EmptyLinesTail(es: seq<Entry>)
    requires es != []
    ensures HasShares(es[0]) ==> (EmptyLinesLast(es) <==> EmptyLinesLast(es[1..]))
    ensures !HasShares(es[0]) ==> (EmptyLinesLast(es) <==> forall i :: 0 <= i < |es[1..]| ==> !HasShares(es[1..][i]))
  {
    var r := es[1..];
    assert forall i :: 0 <= i < |r| ==> r[i] == es[i + 1];
    if HasShares(es[0]) && EmptyLinesLast(r) {
      forall i, j | 0 <= i < j < |es| && !HasShares(es[i]) ensures !HasShares(es[j]) {
        assert r[i - 1] == es[i] && r[j - 1] == es[j];
      }
    }
    if !HasShares(es[0]) && (forall i :: 0 <= i < |r| ==> !HasShares(r[i])) {
      forall i, j | 0 <= i < j < |es| && !HasShares(es[i]) ensures !HasShares(es[j]) {
        assert r[j - 1] == es[j];
      }
    }
  }

  lemma {:induction false} BodyReadBack(epoch_ms: nat, es: seq<Entry>)
    requires forall i :: 0 <= i < |es| ==> EntryOk(es[i])
    ensures Ingest(InShares, EntryLines(epoch_ms, es)) == WantedAll(epoch_ms, es) <==> EmptyLinesLast(es)
    decreases |es|
  {
    if es == [] {
      assert EntryLines(epoch_ms, es) == ["end_limit_share\n"];
      assert Ingest(InShares, ["end_limit_share\n"]) == Ingest(Top, []);
    } else {
      var e := es[0];
      var rest := EntryLines(epoch_ms, es[1..]);
      EmptyLinesTail(es);
      hide Ingest, ReadLine, Wanted, EntryText, EmptyLinesLast, HasShares;
      BodyStep(epoch_ms, e, rest);
      BodyReadBack(epoch_ms, es[1..]);
      NoSharesNothingWanted(epoch_ms, es[1..]);
      LeftoversIgnored(epoch_ms, es[1..]);
      var mode := if HasShares(e) then InShares else Top;
      CancelPrefix(Wanted(epoch_ms, e.user, e.direction, e.shares), Ingest(mode, rest), WantedAll(epoch_ms, es[1..]));
    }
  }

  /** The entries up to the first without a positive share. */
  function UntilEmpty(es: seq<Entry>): seq<Entry> {
    if es == [] || !HasShares(es[0]) then [] else [es[0]] + UntilEmpty(es[1..])
  }

  lemma {:induction false} BodyDelivers(epoch_ms: nat, es: seq<Entry>)
    requires forall i :: 0 <= i < |es| ==> EntryOk(es[i])
    ensures Ingest(InShares, EntryLines(epoch_ms, es)) == WantedAll(epoch_ms, UntilEmpty(es))
    decreases |es|
  {
    if es == [] {
      assert EntryLines(epoch_ms, es) == ["end_limit_share\n"];
      assert Ingest(InShares, ["end_limit_share\n"]) == Ingest(Top, []);
    } else {
      var rest := EntryLines(epoch_ms, es[1..]);
      hide Ingest, ReadLine, Wanted, EntryText, HasShares;
      BodyStep(epoch_ms, es[0], rest);
      BodyDelivers(epoch_ms, es[1..]);
      LeftoversIgnored(epoch_ms, es[1..]);
      assert HasShares(es[0]) ==> UntilEmpty(es)[1..] == UntilEmpty(es[1..]);
    }
  }

  lemma BodyStep(epoch_ms: nat, e: Entry, rest: seq<string>)
    requires EntryOk(e)
    ensures var wanted := Wanted(epoch_ms, e.user, e.direction, e.shares);
            Ingest(InShares, [EntryText(epoch_ms, e) + "\n"] + rest)
              == wanted + Ingest(if HasShares(e) then InShares else Top, rest)
    ensures !HasShares(e) ==> Wanted(epoch_ms, e.user, e.direction, e.shares) == []
  {
    DigitFirst(epoch_ms, e, "end_limit_share");
    DigitFirst(epoch_ms, e, "limit_share");
    EntryReadBack(epoch_ms, e);
    NothingWanted(epoch_ms, e.user, e.direction, e.shares);
    hide ReadLine, StartsWith, EntryText, Wanted, ShareTexts;
    assert ([EntryText(epoch_ms, e) + "\n"] + rest)[1..] == rest;
  }

  lemma MessageParts(epoch_ms: nat, es: seq<Entry>)
    requires forall i :: 0 <= i < |es| ==> EntryOk(es[i])
    ensures Split(PrintMessage(epoch_ms, es), "\n")
              == ["limit_share"] + EntryTexts(epoch_ms, es) + ["end_limit_share", ""]
  {
    var texts := EntryTexts(epoch_ms, es);
    var parts := ["limit_share"] + texts + ["end_limit_share", ""];
    forall t | t in parts ensures '\n' !in t {
      if t in texts {
        var i :| 0 <= i < |texts| && texts[i] == t;
        EntryTextOk(epoch_ms, es[i]);
      }
    }
    SplitJoinChar(parts, '\n');
    hide Split;
    LastPart(["limit_share"] + texts, "end_limit_share");
    assert ["limit_share"] + texts + ["end_limit_share"] + [""] == parts;
    assert "end_limit_share" + "\n" == "end_limit_share\n";
  }

  /** getline cuts the printed text back into the lines it was made of. */
  lemma LinesOfMessage(epoch_ms: nat, es: seq<Entry>)
    requires forall i :: 0 <= i < |es| ==> EntryOk(es[i])
    ensures Lines(PrintMessage(epoch_ms, es)) == ["limit_share\n"] + EntryLines(epoch_ms, es)
  {
    MessageParts(epoch_ms, es);
    EntryLinesAre(epoch_ms, es);
    hide Split, EntryText, PrintMessage, EntryOk, EntryLines, EntryTexts, Terminated;
    var texts := EntryTexts(epoch_ms, es);
    var parts := Split(PrintMessage(epoch_ms, es), "\n");
    assert parts[..|parts| - 1] == ["limit_share"] + (texts + ["end_limit_share"]);
    TerminatedConcat(["limit_share"], texts + ["end_limit_share"]);
    TerminatedConcat(texts, ["end_limit_share"]);
    TerminatedOne("limit_share");
    TerminatedOne("end_limit_share");
    assert "limit_share" + "\n" == "limit_share\n" && "end_limit_share" + "\n" == "end_limit_share\n";
  }

  lemma TerminatedConcat(a: seq<string>, b: seq<string>)
    ensures Terminated(a + b) == Terminated(a) + Terminated(b)
  {
  }

  lemma TerminatedOne(t: string)
    ensures Terminated([t]) == [t + "\n"]
  {
  }

  lemma EntryTextOk(epoch_ms: nat, e: Entry)
    requires EntryOk(e)
    ensures '\n' !in EntryText(epoch_ms, e)
  {
    DigitsHaveNo(epoch_ms, '\n');
    ShareTextsOk(e.direction, e.shares);
    JoinHasNo(ShareTexts(e.direction, e.shares), ",", '\n');
    JoinHasNo([PrintNat(epoch_ms), e.user, Join(ShareTexts(e.direction, e.shares), ",")], ",", '\n');
  }

  lemma {:induction false} LastPart(ts: seq<string>, last: string)
    ensures Join(ts + [last + "\n"], "\n") == Join(ts + [last] + [""], "\n")
    decreases |ts|
  {
    if ts == [] {
      assert [last, ""][1..] == [""];
      assert ts + [last + "\n"] == [last + "\n"] && ts + [last] + [""] == [last, ""];
      assert Join([last, ""], "\n") == last + "\n" + "";
    } else {
      LastPart(ts[1..], last);
      assert (ts + [last + "\n"])[1..] == ts[1..] + [last + "\n"];
      assert (ts + [last] + [""])[1..] == ts[1..] + [last] + [""];
    }
  }

  lemma {:induction false} EntryLinesAre(epoch_ms: nat, es: seq<Entry>)
    ensures EntryLines(epoch_ms, es) == Terminated(EntryTexts(epoch_ms, es)) + ["end_limit_share\n"]
    decreases |es|
  {
    hide EntryText;
    if es == [] {
      assert Terminated(EntryTexts(epoch_ms, es)) == [];
    } else {
      EntryLinesAre(epoch_ms, es[1..]);
      var t := EntryText(epoch_ms, es[0]);
      assert EntryTexts(epoch_ms, es) == [t] + EntryTexts(epoch_ms, es[1..]);
      TerminatedConcat([t], EntryTexts(epoch_ms, es[1..]));
      TerminatedOne(t);
    }
  }

  /** Reading a printed limit-share message yields exactly the positive (timestamp, user, instance, direction,
      limit) tuples of the computed map if and only if no entry without a positive share is printed before one
      that has some. */
  lemma MessageRoundTrip(epoch_ms: nat, es: seq<Entry>)
    requires forall i :: 0 <= i < |es| ==> EntryOk(es[i])
    ensures Ingest(Top, Lines(PrintMessage(epoch_ms, es))) == WantedAll(epoch_ms, es) <==> EmptyLinesLast(es)
  {
    LinesOfMessage(epoch_ms, es);
    BodyReadBack(epoch_ms, es);
    HeaderLine(EntryLines(epoch_ms, es));
    hide Lines, PrintMessage, WantedAll, EmptyLinesLast, EntryLines;
  }

  /** Every message delivers exactly the positive shares of the entries up to the first that has none. */
  lemma MessageDelivers(epoch_ms: nat, es: seq<Entry>)
    requires forall i :: 0 <= i < |es| ==> EntryOk(es[i])
    ensures Ingest(Top, Lines(PrintMessage(epoch_ms, es))) == WantedAll(epoch_ms, UntilEmpty(es))
  {
    LinesOfMessage(epoch_ms, es);
    BodyDelivers(epoch_ms, es);
    HeaderLine(EntryLines(epoch_ms, es));
    hide Lines, PrintMessage, WantedAll, EntryLines;
  }

  lemma HeaderLine(body: seq<string>)
    ensures Ingest(Top, ["limit_share\n"] + body) == Ingest(InShares, body)
  {
    var ls := ["limit_share\n"] + body;
    assert ls[1..] == body;
    assert !("policies" <= "limit_share\n") by { assert "limit_share\n"[0] != "policies"[0]; }
  }

  /** In particular when every printed entry has a positive share. */
  lemma FullMessageRoundTrip(epoch_ms: nat, es: seq<Entry>)
    requires forall i :: 0 <= i < |es| ==> EntryOk(es[i]) && HasShares(es[i])
    ensures Ingest(Top, Lines(PrintMessage(epoch_ms, es))) == WantedAll(epoch_ms, es)
  {
    MessageRoundTrip(epoch_ms, es);
  }

  lemma PrintedShareIsPositive(e: Entry) returns (i: nat)
    requires HasShares(e)
    ensures i < |e.shares| && e.shares[i].1 > 0
  {
    i := FirstPositive(e.direction, e.shares);
  }

  lemma {:induction false} FirstPositive(direction: string, shares: seq<(string, int)>) returns (i: nat)
    requires ShareTexts(direction, shares) != []
    ensures i < |shares| && shares[i].1 > 0
    decreases |shares|
  {
    if shares[0].1 > 0 {
      i := 0;
    } else {
      var j := FirstPositive(direction, shares[1..]);
      i := j + 1;
    }
  }

  lemma {:induction false} PositiveShareIsPrinted(direction: string, shares: seq<(string, int)>, i: nat)
    requires i < |shares| && shares[i].1 > 0
    ensures ShareTexts(direction, shares) != []
    decreases |shares|
  {
    if i > 0 {
      PositiveShareIsPrinted(direction, shares[1..], i - 1);
    }
  }
}
