/** The text that travels between the filter, the syslog server, Redis and polygen, and what survives
    each hop. */
module Wire {
  import opened Common
  import opened Text
  import opened Decimal
  import StringSplit

  const DELIMITER := "~|~"

  // ---------------------------------------------------------------- filter to syslog server

  /** The tokens of a line, as the server takes them: n calls to next and then the success test. */
  function ParseTokens(raw: string, n: nat): Option<seq<string>> {
    if StringSplit.Finished(raw, DELIMITER, n)
    then Some(seq(n, i requires 0 <= i => StringSplit.Token(raw, DELIMITER, i)))
    else None
  }

  /** A printed line gives its tokens back exactly when they are separable: no token contains the delimiter or
      starts one that overlaps the delimiter printed after it. */
  lemma TokensRoundTrip(ts: seq<string>)
    requires |ts| >= 1
    ensures ParseTokens(Join(ts, DELIMITER), |ts|) == Some(ts) <==> Separable(ts, DELIMITER)
  {
    var s := Join(ts, DELIMITER);
    SplitJoin(ts, DELIMITER);
    hide Split, Separable;
    if Separable(ts, DELIMITER) {
      assert seq(|ts|, i requires 0 <= i => StringSplit.Token(s, DELIMITER, i)) == ts;
    } else {
      var j := FirstShortToken(ts, DELIMITER);
      assert StringSplit.Token(s, DELIMITER, j) != ts[j];
    }
  }

  /** When the tokens are not separable, the first one at fault comes back shorter. */
  lemma {:induction false} FirstShortToken(ts: seq<string>, d: string) returns (j: nat)
    requires d != "" && |ts| >= 1 && !Separable(ts, d)
    ensures j < |ts| && (!Clean(ts[j], d) || !Free(ts[j], d))
    ensures j < |Split(Join(ts, d), d)| && |Split(Join(ts, d), d)[j]| < |ts[j]|
    decreases |ts|
  {
    if |ts| == 1 {
      j := 0;
      FindIsFirst(ts[0], d, 0);
    } else {
      var rest := Join(ts[1..], d);
      CutOnce(ts[0], d, rest);
      hide Split, Clean, Free;
      if Clean(ts[0], d) {
        SeparableTail(ts, d);
        var i := FirstShortToken(ts[1..], d);
        j := i + 1;
      } else {
        j := 0;
      }
    }
  }

  datatype Req = Req(addr: string, user: string, verb: string, direction: string, instance: string, active: int,
                     request_class: string)

  function ReqTokens(f: Req): seq<string> {
    ["req", f.addr, f.user, f.verb, f.direction, f.instance, PrintInt(f.active), f.request_class]
  }

  function PrintReq(f: Req): string {
    Join(ReqTokens(f), DELIMITER)
  }

  predicate Printable(s: string) {
    forall i :: 0 <= i < |s| ==> ' ' <= s[i] <= '~'
  }

  /** processReq up to the point where it touches the batch. */
  function ParseReq(raw: string): Option<Req> {
    match ParseTokens(raw, 8)
    case None => None
    case Some(ts) =>
      match FromChars(ts[6])
      case None => None
      case Some(active) =>
        if !Printable(ts[2]) then None
        else Some(Req(ts[1], ts[2], ts[3], ts[4], ts[5], active, ts[7]))
  }

  /** A `req` line is parsed back to its fields exactly when its tokens are separable and the user is printable. */
  lemma ReqRoundTrip(f: Req)
    requires INT_MIN <= f.active <= INT_MAX
    ensures ParseReq(PrintReq(f)) == Some(f) <==>
              Separable(ReqTokens(f), "~|~") && forall c :: c in f.user ==> ' ' <= c <= '~'
  {
    ReqParsed(f);
    PrintableSpelled(f.user);
    hide ParseReq, PrintReq, Separable, Printable;
  }

  lemma PrintableSpelled(s: string)
    ensures Printable(s) <==> forall c :: c in s ==> ' ' <= c <= '~'
  {
    assert forall i :: 0 <= i < |s| ==> s[i] in s;
  }

  lemma ReqParsed(f: Req)
    requires INT_MIN <= f.active <= INT_MAX
    ensures ParseReq(PrintReq(f)) == Some(f) <==> Separable(ReqTokens(f), DELIMITER) && Printable(f.user)
  {
    var ts := ReqTokens(f);
    TokensRoundTrip(ts);
    FromCharsPrinted(f.active);
    if !Separable(ts, DELIMITER) {
      var j := FirstShortToken(ts, DELIMITER);
      PrintIntHasNo(f.active, '~');
      NoFirstChar(ts[6], DELIMITER);
      NoFirstChar(ts[0], DELIMITER);
      assert StringSplit.Token(PrintReq(f), DELIMITER, j) != ts[j];
    }
  }

  lemma PrintIntHasNo(n: int, c: char)
    requires !IsDigit(c) && c != '-'
    ensures c !in PrintInt(n)
  {
    DigitsHaveNo(if n < 0 then -n else n, c);
  }

  predicate TildeFree(f: Req) {
    '~' !in f.addr && '~' !in f.user && '~' !in f.verb && '~' !in f.direction && '~' !in f.instance
      && '~' !in f.request_class
  }

  lemma TildeFreeSeparable(f: Req)
    requires TildeFree(f)
    ensures Separable(ReqTokens(f), DELIMITER)
  {
    var ts := ReqTokens(f);
    PrintIntHasNo(f.active, '~');
    forall i | 0 <= i < |ts| ensures Clean(ts[i], DELIMITER) && Free(ts[i], DELIMITER) {
      assert '~' !in ts[i];
      NoFirstChar(ts[i], DELIMITER);
    }
  }

  /** A field that ends in `~|` is read differently: the next delimiter is found one character early. */
  lemma OverlapChangesTokens()
    ensures !Clean("a~|", DELIMITER)
    ensures Split("a~|" + DELIMITER + "b", DELIMITER) == ["a", "|~b"]
  {
    var s := "a~|~|~b";
    assert "a~|" + DELIMITER + "b" == s;
    assert "a~|" + DELIMITER == "a~|~|~" && "a~|~|~"[1..4] == DELIMITER;
    assert MatchAt("a~|" + DELIMITER, DELIMITER, 1);
    assert s[0..3] == "a~|" && s[1..4] == DELIMITER;
    assert !MatchAt(s, DELIMITER, 0) && MatchAt(s, DELIMITER, 1);
    assert Find(s, DELIMITER, 0) == Find(s, DELIMITER, 1) == Some(1);
    assert s[4..] == "|~b" && s[..1] == "a";
    assert !MatchAt("|~b", DELIMITER, 0);
    assert Split("|~b", DELIMITER) == ["|~b"];
  }

  // ---------------------------------------------------------------- syslog server to polygen, through Redis

  function ConnItems(direction: string, instance: string, user: string, endpoint: string): seq<string> {
    ["conn", "v2", "user", direction, instance, user + "$" + endpoint]
  }

  function ConnKey(direction: string, instance: string, user: string, endpoint: string): string {
    Join(ConnItems(direction, instance, user, endpoint), "_")
  }

  predicate IsAlnum(c: char) {
    IsDigit(c) || 'A' <= c <= 'Z' || 'a' <= c <= 'z'
  }

  predicate Alnum(s: string) {
    s != "" && forall i :: 0 <= i < |s| ==> IsAlnum(s[i])
  }

  datatype Metric = Metric(direction: Option<string>, instance: Option<string>, user: string, endpoint: string)

  /** What Python's str.isalnum accepts: beyond ASCII, letters and digits of other scripts too. */
  ghost predicate PythonAlnum(isalnum: char -> bool) {
    forall c: char :: c as int < 128 ==> (isalnum(c) <==> IsAlnum(c))
  }

  predicate AllAre(isalnum: char -> bool, s: string) {
    s != "" && forall i :: 0 <= i < |s| ==> isalnum(s[i])
  }

  /** MetricService.create_user_level_metric on a `conn` key; None stands for any exception. */
  function ParseMetric(isalnum: char -> bool, key: string): Option<Metric> {
    var items := Split(key, "_");
    if items[0] != "conn" || |items| < 2 then None else
    if items[1] == "user" then
      (if |items| != 3 then None else ParseUser(isalnum, items[2], None, None))
    else if items[1] == "v2" then
      (if !(|items| == 6 && items[2] == "user") then None
       else ParseUser(isalnum, items[5], Some(items[3]), Some(items[4])))
    else None
  }

  function ParseUser(isalnum: char -> bool, acc_key: string, direction: Option<string>, instance: Option<string>)
    : Option<Metric>
  {
    var parts := Split(acc_key, "$");
    if |parts| != 2 || !AllAre(isalnum, parts[0]) then None else Some(Metric(direction, instance, parts[0], parts[1]))
  }

  datatype Demand = Demand(user: string, direction: string, instance: string)
  datatype DemandResult = Parsed(d: Demand) | TooShort | Raises

  /** The key parsing of aggregate_demand_from_conn_v2. */
  function ParseDemand(key: string): DemandResult {
    var items := Split(key, "_");
    if |items| < 6 then TooShort
    else if |items| != 6 then Raises
    else if items[3] != "up" && items[3] != "dwn" then Raises
    else Parsed(Demand(Split(items[5], "$")[0], items[3], items[4]))
  }

  predicate UnderscoreFree(direction: string, instance: string, user: string, endpoint: string) {
    '_' !in direction && '_' !in instance && '_' !in user && '_' !in endpoint
  }

  /** A connection key has six items exactly when none of its fields holds an underscore. */
  lemma ConnItemsSurvive(direction: string, instance: string, user: string, endpoint: string)
    ensures var got := Split(ConnKey(direction, instance, user, endpoint), "_");
            && |got| >= 6
            && (|got| == 6 <==> UnderscoreFree(direction, instance, user, endpoint))
            && (|got| == 6 ==> got == ConnItems(direction, instance, user, endpoint))
  {
    var ts := ConnItems(direction, instance, user, endpoint);
    SplitJoinChar(ts, '_');
    SplitCount(Join(ts, "_"), '_');
    JoinCount(ts, '_');
    assert '_' !in ts[0] && '_' !in ts[1] && '_' !in ts[2];
    assert '_' !in ts[5] <==> '_' !in user && '_' !in endpoint by {
      forall c | c in ts[5] ensures c in user || c == '$' || c in endpoint {
      }
      assert ts[5][..|user|] == user && ts[5][|user| + 1..] == endpoint;
    }
    assert (forall t :: t in ts ==> '_' !in t) <==>
           '_' !in ts[3] && '_' !in ts[4] && '_' !in ts[5] by {
      assert ts[3] in ts && ts[4] in ts && ts[5] in ts;
    }
  }

  lemma UserAndEndpoint(user: string, endpoint: string)
    ensures |Split(user + "$" + endpoint, "$")| == 2 <==> '$' !in user && '$' !in endpoint
    ensures '$' !in user && '$' !in endpoint ==> Split(user + "$" + endpoint, "$") == [user, endpoint]
    ensures Split(user + "$" + endpoint, "$")[0] == user <==> '$' !in user
  {
    hide Split;
    var ts := [user, endpoint];
    assert Join(ts, "$") == user + "$" + endpoint by {
      assert ts[1..] == [endpoint];
    }
    SplitJoinChar(ts, '$');
    assert (forall t :: t in ts ==> '$' !in t) <==> '$' !in user && '$' !in endpoint by {
      assert ts[0] in ts && ts[1] in ts;
    }
    CutOnce(user, "$", endpoint);
    CleanOfChar(user, '$');
    hide Clean;
  }

  lemma CleanOfChar(t: string, c: char)
    ensures Clean(t, [c]) <==> c !in t
  {
    if c in t {
      var i :| 0 <= i < |t| && t[i] == c;
      assert (t + [c])[i..i + 1] == [c];
      assert MatchAt(t + [c], [c], i);
    } else {
      NoFirstChar(t, [c]);
    }
  }

  /** polygen's violation check reads a connection key back to the fields it was built from exactly when the
      user is alphanumeric and no field can be mistaken for a separator. */
  lemma MetricRoundTrip(isalnum: char -> bool, direction: string, instance: string, user: string, endpoint: string)
    requires PythonAlnum(isalnum)
    ensures ParseMetric(isalnum, ConnKey(direction, instance, user, endpoint))
              == Some(Metric(Some(direction), Some(instance), user, endpoint))
            <==> UnderscoreFree(direction, instance, user, endpoint) && AllAre(isalnum, user) && '$' !in endpoint
  {
    ConnItemsSurvive(direction, instance, user, endpoint);
    UserAndEndpoint(user, endpoint);
    var got := Split(ConnKey(direction, instance, user, endpoint), "_");
    ConnVersion(direction, instance, user, endpoint);
    hide Split, ConnKey;
    assert !isalnum('$');
  }

  /** The older keys, which name no instance and no direction, are read as well. */
  lemma OldMetricRoundTrip(isalnum: char -> bool, user: string, endpoint: string)
    requires PythonAlnum(isalnum)
    ensures ParseMetric(isalnum, "conn_user_" + user + "$" + endpoint) == Some(Metric(None, None, user, endpoint))
            <==> '_' !in user && '_' !in endpoint && AllAre(isalnum, user) && '$' !in endpoint
  {
    OldItems(user, endpoint);
    UserAndEndpoint(user, endpoint);
    hide Split;
    assert !isalnum('$');
  }

  lemma OldItems(user: string, endpoint: string)
    ensures var key := "conn_user_" + user + "$" + endpoint;
            && Split(key, "_")[0] == "conn" && |Split(key, "_")| >= 2 && Split(key, "_")[1] == "user"
            && (|Split(key, "_")| == 3 <==> '_' !in user && '_' !in endpoint)
            && (|Split(key, "_")| == 3 ==> Split(key, "_") == ["conn", "user", user + "$" + endpoint])
  {
    var last := user + "$" + endpoint;
    var items := ["conn", "user", last];
    var key := "conn_user_" + user + "$" + endpoint;
    Join3("conn", "user", last, "_");
    assert key == "conn" + "_" + ("user" + "_" + last) by {
      assert "conn" + "_" + ("user" + "_") == "conn_user_";
    }
    SplitJoinChar(items, '_');
    assert (forall t :: t in items ==> '_' !in t) <==> '_' !in last by {
      assert items[2] in items;
    }
    assert '_' !in last <==> '_' !in user && '_' !in endpoint by {
      assert last[..|user|] == user && last[|user| + 1..] == endpoint;
      forall c | c in last ensures c in user || c == '$' || c in endpoint {
      }
    }
    NoFirstChar("conn", "_");
    NoFirstChar("user", "_");
    CutOnce("conn", "_", "user" + "_" + last);
    CutOnce("user", "_", last);
  }

  /** The first two items of a connection key are fixed whatever the fields are. */
  lemma ConnVersion(direction: string, instance: string, user: string, endpoint: string)
    ensures var got := Split(ConnKey(direction, instance, user, endpoint), "_");
            |got| >= 2 && got[0] == "conn" && got[1] == "v2"
  {
    var ts := ConnItems(direction, instance, user, endpoint);
    var r1, r2 := Join(ts[1..], "_"), Join(ts[2..], "_");
    assert ts[1..][1..] == ts[2..];
    NoFirstChar("conn", "_");
    NoFirstChar("v2", "_");
    CutOnce("conn", "_", r1);
    CutOnce("v2", "_", r2);
    assert ConnKey(direction, instance, user, endpoint) == "conn" + "_" + r1;
    assert r1 == "v2" + "_" + r2;
  }

  lemma AlnumHasNo(s: string, c: char)
    requires !IsAlnum(c)
    ensures Alnum(s) ==> c !in s
  {
  }

  /** The demand loop reads the same key to the same user, direction and instance exactly when the direction is
      one of the two names, no field holds an underscore and the user holds no `$`. */
  lemma DemandRoundTrip(direction: string, instance: string, user: string, endpoint: string)
    ensures ParseDemand(ConnKey(direction, instance, user, endpoint)) == Parsed(Demand(user, direction, instance))
            <==> UnderscoreFree(direction, instance, user, endpoint) && '$' !in user
                 && (direction == "up" || direction == "dwn")
  {
    ConnItemsSurvive(direction, instance, user, endpoint);
    UserAndEndpoint(user, endpoint);
    hide Split, ConnKey;
  }

  // ---------------------------------------------------------------- where users and instances come from

  function Sub(s: string, from: nat, to: nat): string
    requires 1 <= from
  {
    var lo, hi := from - 1, if to < |s| then to else |s|;
    if lo >= hi then "" else s[lo..hi]
  }

  predicate HasNonWord(s: string) {
    exists i :: 0 <= i < |s| && !IsAlnum(s[i])
  }

  /** validate_access_key; None is nil. */
  function ValidateAccessKey(key: Option<string>): (k: string)
    ensures Alnum(k) && (k == "common" || |k| == 19 || |k| == 20)
  {
    if key.None? || key.value == "" then "common"
    else if |key.value| == 20 && !HasNonWord(key.value) then key.value
    else if |key.value| == 19 && !HasNonWord(key.value) then key.value
    else "ItIsInvalidAccessKey"
  }

  function WordPrefix(s: string): (p: nat)
    ensures p <= |s|
  {
    if s == "" || !IsAlnum(s[0]) then 0 else 1 + WordPrefix(s[1..])
  }

  /** string.match(s, "^(%w+)") */
  function MatchWord(s: string): Option<string> {
    if WordPrefix(s) == 0 then None else Some(s[..WordPrefix(s)])
  }

  function KeyFromQuery(credential: Option<string>, access_key_id: Option<string>): string {
    ValidateAccessKey(if credential.Some? then MatchWord(credential.value)
                      else if access_key_id.Some? then MatchWord(access_key_id.value)
                      else Some(""))
  }

  function KeyFromHeader(auth: string): string {
    if Sub(auth, 1, 4) != "AWS4" && Sub(auth, 1, 4) != "AWS " then "InvalidAuthorization" else
    var start := if Sub(auth, 1, 4) == "AWS4" then 29 else 5;
    var key := Sub(auth, start, start + 19);
    ValidateAccessKey(Some(if StringSplit.EndsWith(key, "/") then key[..|key| - 1] else key))
  }

  function GetAccessKey(authorization: Option<string>, credential: Option<string>,
                        access_key_id: Option<string>): (k: string)
    // every key is alphanumeric and never empty, whatever the request carries
    ensures Alnum(k) && (k == "common" || |k| == 19 || |k| == 20)
  {
    if authorization.Some? then KeyFromHeader(authorization.value) else KeyFromQuery(credential, access_key_id)
  }

  /** A version 2 or version 4 authorization header yields the key it carries. */
  lemma HeaderKeyExtracted(prefix: string, key: string, rest: string, credential: Option<string>, id: Option<string>)
    requires prefix == "AWS " || (|prefix| == 28 && prefix[..4] == "AWS4")
    requires Alnum(key) && (|key| == 20 || (|key| == 19 && rest != "" && rest[0] == '/'))
    ensures GetAccessKey(Some(prefix + key + rest), credential, id) == key
  {
    var auth := prefix + key + rest;
    assert Sub(auth, 1, 4) == prefix[..4] by { assert auth[0..4] == prefix[..4]; }
    assert "AWS "[..4] == "AWS ";
    if |key| == 20 {
      LongKey(prefix, key, rest);
    } else {
      ShortKey(prefix, key, rest);
    }
    hide Sub;
  }

  lemma LongKey(prefix: string, key: string, rest: string)
    requires |key| == 20 && Alnum(key)
    ensures Sub(prefix + key + rest, |prefix| + 1, |prefix| + 20) == key && !StringSplit.EndsWith(key, "/")
  {
    assert (prefix + key + rest)[|prefix|..|prefix| + 20] == key;
    assert IsAlnum(key[19]) && key[19..] == [key[19]];
  }

  lemma ShortKey(prefix: string, key: string, rest: string)
    requires |key| == 19 && rest != "" && rest[0] == '/'
    ensures var got := Sub(prefix + key + rest, |prefix| + 1, |prefix| + 20);
            got == key + "/" && StringSplit.EndsWith(got, "/") && got[..|got| - 1] == key
  {
    var auth := prefix + key + rest;
    var from := |prefix|;
    assert auth[from..from + 19] == key && auth[from + 19] == rest[0];
    assert auth[from..from + 20] == auth[from..from + 19] + [auth[from + 19]];
  }

  lemma {:induction false} WordThenOther(key: string, rest: string)
    requires Alnum(key) && (rest == "" || !IsAlnum(rest[0]))
    ensures WordPrefix(key + rest) == |key|
  {
    assert (key + rest)[0] == key[0] && (key + rest)[1..] == key[1..] + rest;
    if |key| > 1 {
      WordThenOther(key[1..], rest);
    } else {
      assert key[1..] + rest == rest;
    }
  }

  /** And so does a presigned query, where the key ends at the first character that is no letter or digit. */
  lemma QueryKeyExtracted(key: string, rest: string, id: Option<string>)
    requires Alnum(key) && (|key| == 19 || |key| == 20) && (rest == "" || !IsAlnum(rest[0]))
    ensures GetAccessKey(None, Some(key + rest), id) == key
    ensures GetAccessKey(None, None, Some(key + rest)) == key
  {
    WordThenOther(key, rest);
    assert (key + rest)[..|key|] == key;
  }

  /** Everything else gets one of three fixed keys: no credentials at all, a header of another kind, or a key that is
      not twenty (or nineteen) letters and digits. */
  lemma FixedKeys(auth: string, key: string, rest: string, credential: Option<string>, id: Option<string>)
    ensures GetAccessKey(None, None, None) == "common"
    ensures !("AWS4" <= auth) && !("AWS " <= auth)
            ==> GetAccessKey(Some(auth), credential, id) == "InvalidAuthorization"
    ensures |key| == 20 && !Alnum(key) && key[19] != '/' ==>
              GetAccessKey(Some("AWS " + key + rest), credential, id) == "ItIsInvalidAccessKey"
  {
    assert Sub(auth, 1, 4) == "AWS4" ==> "AWS4" <= auth by { SubPrefix(auth, "AWS4"); }
    assert Sub(auth, 1, 4) == "AWS " ==> "AWS " <= auth by { SubPrefix(auth, "AWS "); }
    if |key| == 20 && !Alnum(key) && key[19] != '/' {
      var bad := "AWS " + key + rest;
      assert bad[0..4] == "AWS " && bad[4..24] == key;
      assert Sub(bad, 1, 4) == "AWS " && Sub(bad, 5, 24) == key;
      assert key[19..] == [key[19]];
      assert HasNonWord(key);
    }
  }

  lemma SubPrefix(s: string, p: string)
    requires |p| == 4
    ensures Sub(s, 1, 4) == p ==> p <= s
  {
    assert |s| >= 4 ==> s[0..4] == s[..4];
  }

  /** The in-place replacement of `_` in the instance id. */
  function Dashed(s: string): (r: string)
    ensures |r| == |s| && '_' !in r
    ensures forall i :: 0 <= i < |s| ==> r[i] == if s[i] == '_' then '-' else s[i]
  {
    if s == "" then "" else [if s[0] == '_' then '-' else s[0]] + Dashed(s[1..])
  }

  method ReplaceUnderscores(id: array<char>)
    modifies id
    ensures id[..] == Dashed(old(id[..]))
  {
    var i := 0;
    while i < id.Length
      invariant 0 <= i <= id.Length
      invariant forall j :: 0 <= j < i ==> id[j] == if old(id[j]) == '_' then '-' else old(id[j])
      invariant forall j :: i <= j < id.Length ==> id[j] == old(id[j])
    {
      if id[i] == '_' {
        id[i] := '-';
      }
      i := i + 1;
    }
  }

  function InstanceId(peer: string, port: nat): string {
    Dashed(peer + "-" + PrintNat(port))
  }

  lemma DashedConcat(a: string, b: string)
    ensures Dashed(a + b) == Dashed(a) + Dashed(b)
  {
  }

  lemma DashedDigits(n: nat)
    ensures Dashed("-" + PrintNat(n)) == "-" + PrintNat(n)
  {
    DigitsHaveNo(n, '_');
  }

  /** Two instances get the same id if and only if their ports are equal and their peer names differ at most in dashes
      where the other has underscores. */
  lemma InstanceIdsCollideIff(p: string, m: nat, q: string, n: nat)
    ensures InstanceId(p, m) == InstanceId(q, n) <==> m == n && Dashed(p) == Dashed(q)
  {
    InstanceIdText(p, m);
    InstanceIdText(q, n);
    DigitsHaveNo(m, '-');
    DigitsHaveNo(n, '-');
    hide InstanceId, Dashed, PrintNat;
    LastDash(Dashed(p), PrintNat(m), Dashed(q), PrintNat(n));
    if PrintNat(m) == PrintNat(n) {
      PrintInjective(m, n);
    }
  }

  lemma InstanceIdText(p: string, n: nat)
    ensures InstanceId(p, n) == Dashed(p) + "-" + PrintNat(n)
  {
    DashedConcat(p, "-" + PrintNat(n));
    DashedDigits(n);
    hide Dashed, PrintNat;
    assert p + "-" + PrintNat(n) == p + ("-" + PrintNat(n));
  }

  lemma LastDash(a: string, x: string, b: string, y: string)
    requires '-' !in x && '-' !in y
    ensures a + "-" + x == b + "-" + y <==> a == b && x == y
  {
    var s, t := a + "-" + x, b + "-" + y;
    if s == t {
      assert s[|a|] == '-' && t[|b|] == '-';
      assert |a| == |b|;
      assert s[..|a|] == a && t[..|a|] == b && s[|a| + 1..] == x && t[|a| + 1..] == y;
    }
  }

  lemma InstanceHasNo(peer: string, port: nat, c: char)
    requires c !in peer && !IsDigit(c) && c != '-'
    ensures c !in InstanceId(peer, port)
  {
    var s := peer + "-" + PrintNat(port);
    DigitsHaveNo(port, c);
    forall i | 0 <= i < |s| ensures Dashed(s)[i] != c {
      assert s[i] in peer || s[i] == '-' || s[i] in PrintNat(port);
    }
  }

  lemma AsciiIsAlnum(isalnum: char -> bool, s: string)
    requires PythonAlnum(isalnum) && Alnum(s)
    ensures AllAre(isalnum, s)
  {
    forall i | 0 <= i < |s| ensures isalnum(s[i]) {
      assert IsAlnum(s[i]) && s[i] as int < 128;
    }
  }

  /** A request's user, instance and direction survive every hop: the line the filter prints is parsed back by
      the server, and the Redis key the server builds is parsed back by both of polygen's readers. */
  lemma FieldsSurviveEveryHop(f: Req, endpoint: string, authorization: Option<string>, credential: Option<string>,
                              access_key_id: Option<string>, peer: string, port: nat, isalnum: char -> bool)
    requires PythonAlnum(isalnum)
    requires f.user == GetAccessKey(authorization, credential, access_key_id)
    requires f.instance == InstanceId(peer, port) && '~' !in peer
    requires f.direction == "up" || f.direction == "dwn"
    requires '~' !in f.addr && '~' !in f.verb && '~' !in f.request_class
    requires INT_MIN <= f.active <= INT_MAX
    requires '_' !in endpoint && '$' !in endpoint
    ensures ParseReq(PrintReq(f)) == Some(f)
    ensures var key := ConnKey(f.direction, f.instance, f.user, endpoint);
            && ParseMetric(isalnum, key) == Some(Metric(Some(f.direction), Some(f.instance), f.user, endpoint))
            && ParseDemand(key) == Parsed(Demand(f.user, f.direction, f.instance))
  {
    AlnumHasNo(f.user, '~');
    AlnumHasNo(f.user, '_');
    AlnumHasNo(f.user, '$');
    InstanceHasNo(peer, port, '~');
    TildeFreeSeparable(f);
    ReqRoundTrip(f);
    AsciiIsAlnum(isalnum, f.user);
    MetricRoundTrip(isalnum, f.direction, f.instance, f.user, endpoint);
    DemandRoundTrip(f.direction, f.instance, f.user, endpoint);
  }
}
