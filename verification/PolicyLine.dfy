/** One line of a policies message: printed by polygen (violations.py), read by update_violates (haproxy_lua.lua). */
module PolicyLine {
  import opened Common
  import opened Text
  import opened Decimal
  import opened StringSplit
  import opened Violations
  import LimitMessage

  const USECS := 1_000_000

  function Name(v: UsageValue): (s: string)
    // letters, digits and underscores only
    ensures forall i :: 0 <= i < |s| ==> s[i] >= '0'
  {
    match v
    case Get => "GET" case Put => "PUT" case Post => "POST" case Delete => "DELETE" case Head => "HEAD"
    case ListObjectsV2 => "LISTOBJECTSV2" case ListMultipartUploads => "LISTMULTIPARTUPLOADS"
    case ListObjectVersions => "LISTOBJECTVERSIONS" case ListBuckets => "LISTBUCKETS" case ListObjects => "LISTOBJECTS"
    case GetObject => "GETOBJECT" case DeleteObjects => "DELETEOBJECTS" case DeleteObject => "DELETEOBJECT"
    case CreateBucket => "CREATEBUCKET" case ThroughputRead => "bnd_dwn" case ThroughputWrite => "bnd_up"
    case RequestsBlock => "reqs_block" case RequestsUnblock => "reqs_unblock"
  }

  predicate IsRequests(v: UsageValue) {
    v.RequestsBlock? || v.RequestsUnblock?
  }

  // ---------------------------------------------------------------- category names and Redis fields

  function LowerChar(c: char): char {
    if 'A' <= c <= 'Z' then (c as int + 32) as char else c
  }

  function Lower(s: string): string {
    seq(|s|, i requires 0 <= i < |s| => LowerChar(s[i]))
  }

  /** UsageValue.from_string: case does not matter; None is a KeyError. */
  function FromString(s: string): Option<UsageValue> {
    var l := Lower(s);
    if l == "bnd_up" then Some(ThroughputWrite) else if l == "bnd_dwn" then Some(ThroughputRead)
    else if l == "get" then Some(Get) else if l == "put" then Some(Put) else if l == "post" then Some(Post)
    else if l == "delete" then Some(Delete) else if l == "listobjectsv2" then Some(ListObjectsV2)
    else if l == "listmultipartuploads" then Some(ListMultipartUploads)
    else if l == "listobjectversions" then Some(ListObjectVersions) else if l == "listbuckets" then Some(ListBuckets)
    else if l == "listobjects" then Some(ListObjects) else if l == "getobject" then Some(GetObject)
    else if l == "deleteobjects" then Some(DeleteObjects) else if l == "deleteobject" then Some(DeleteObject)
    else if l == "createbucket" then Some(CreateBucket) else if l == "head" then Some(Head)
    else if l == "reqs_block" then Some(RequestsBlock) else if l == "reqs_unblock" then Some(RequestsUnblock)
    else None
  }

  /** The name that polygen sends for a category is the Redis field it read the category from, up to case. */
  lemma NameReadBack(v: UsageValue)
    ensures FromString(Name(v)) == Some(v)
  {
    hide FromString, Name;
    match v
    case Get | Put | Post | Delete | Head => NameReadBack1(v);
    case ListObjectsV2 | ListMultipartUploads => NameReadBack2(v);
    case ListObjectVersions | ListBuckets => NameReadBack3(v);
    case ListObjects | GetObject => NameReadBack4(v);
    case DeleteObjects | DeleteObject => NameReadBack5(v);
    case CreateBucket | ThroughputRead | ThroughputWrite => NameReadBack6(v);
    case RequestsBlock | RequestsUnblock => NameReadBack7(v);
  }

  lemma NameReadBack1(v: UsageValue)
    requires v.Get? || v.Put? || v.Post? || v.Delete? || v.Head?
    ensures FromString(Name(v)) == Some(v)
  {
    match v
    case Get => assert Lower("GET") == "get";
    case Put => assert Lower("PUT") == "put";
    case Post => assert Lower("POST") == "post";
    case Delete => assert Lower("DELETE") == "delete";
    case Head => assert Lower("HEAD") == "head";
  }

  lemma NameReadBack2(v: UsageValue)
    requires v.ListObjectsV2? || v.ListMultipartUploads?
    ensures FromString(Name(v)) == Some(v)
  {
    match v
    case ListObjectsV2 => assert Lower("LISTOBJECTSV2") == "listobjectsv2";
    case ListMultipartUploads => assert Lower("LISTMULTIPARTUPLOADS") == "listmultipartuploads";
  }

  lemma NameReadBack3(v: UsageValue)
    requires v.ListObjectVersions? || v.ListBuckets?
    ensures FromString(Name(v)) == Some(v)
  {
    match v
    case ListObjectVersions => assert Lower("LISTOBJECTVERSIONS") == "listobjectversions";
    case ListBuckets => assert Lower("LISTBUCKETS") == "listbuckets";
  }

  lemma NameReadBack4(v: UsageValue)
    requires v.ListObjects? || v.GetObject?
    ensures FromString(Name(v)) == Some(v)
  {
    match v
    case ListObjects => assert Lower("LISTOBJECTS") == "listobjects";
    case GetObject => assert Lower("GETOBJECT") == "getobject";
  }

  lemma NameReadBack5(v: UsageValue)
    requires v.DeleteObjects? || v.DeleteObject?
    ensures FromString(Name(v)) == Some(v)
  {
    match v
    case DeleteObjects => assert Lower("DELETEOBJECTS") == "deleteobjects";
    case DeleteObject => assert Lower("DELETEOBJECT") == "deleteobject";
  }

  lemma NameReadBack6(v: UsageValue)
    requires v.CreateBucket? || v.ThroughputRead? || v.ThroughputWrite?
    ensures FromString(Name(v)) == Some(v)
  {
    match v
    case CreateBucket => assert Lower("CREATEBUCKET") == "createbucket";
    case ThroughputRead => assert Lower("bnd_dwn") == "bnd_dwn";
    case ThroughputWrite => assert Lower("bnd_up") == "bnd_up";
  }

  lemma NameReadBack7(v: UsageValue)
    requires v.RequestsBlock? || v.RequestsUnblock?
    ensures FromString(Name(v)) == Some(v)
  {
    match v
    case RequestsBlock => assert Lower("reqs_block") == "reqs_block";
    case RequestsUnblock => assert Lower("reqs_unblock") == "reqs_unblock";
  }

  /** What a line with one user looks like, for each kind of category. */
  lemma LineTexts(us: nat, user: string, ratio: string)
    ensures PrintLine(Get, us, [Key(user, ratio)]) == PrintNat(us) + ",user_GET," + user
    ensures PrintLine(ThroughputWrite, us, [Key(user, ratio)]) == PrintNat(us) + ",user_bnd_up," + user + ":" + ratio
    ensures PrintLine(RequestsBlock, us, [Key(user, ratio)]) == "user_reqs_block," + user
  {
    RateText(us, user, ratio);
    ThroughputText(us, user, ratio);
    RequestsText(us, user, ratio);
  }

  lemma RateText(us: nat, user: string, ratio: string)
    ensures PrintLine(Get, us, [Key(user, ratio)]) == PrintNat(us) + ",user_GET," + user
  {
    OneKeyText(Get, user, ratio);
    Join3(PrintNat(us), "user_" + "GET", user, ",");
    hide Join, PrintNat, KeyTexts;
    assert "," + (("user_" + "GET") + ",") == ",user_GET,";
    Around(PrintNat(us), "user_" + "GET", user);
  }

  lemma ThroughputText(us: nat, user: string, ratio: string)
    ensures PrintLine(ThroughputWrite, us, [Key(user, ratio)]) == PrintNat(us) + ",user_bnd_up," + user + ":" + ratio
  {
    OneKeyText(ThroughputWrite, user, ratio);
    Join3(PrintNat(us), "user_" + "bnd_up", user + ":" + ratio, ",");
    hide Join, PrintNat, KeyTexts;
    assert "," + (("user_" + "bnd_up") + ",") == ",user_bnd_up,";
    Around(PrintNat(us), "user_" + "bnd_up", user + ":" + ratio);
    Reassociate3(PrintNat(us) + ",user_bnd_up,", user, ":", ratio);
  }

  lemma RequestsText(us: nat, user: string, ratio: string)
    ensures PrintLine(RequestsBlock, us, [Key(user, ratio)]) == "user_reqs_block," + user
  {
    OneKeyText(RequestsBlock, user, ratio);
    JoinCons("user_" + "reqs_block", [user], ",");
    assert Join([user], ",") == user && ["user_" + "reqs_block"] + [user] == ["user_" + "reqs_block", user];
    hide Join, KeyTexts;
    assert ("user_" + "reqs_block") + "," == "user_reqs_block,";
  }

  lemma Around(a: string, b: string, c: string)
    ensures a + "," + (b + "," + c) == a + ("," + (b + ",")) + c
  {
  }

  lemma Reassociate3(a: string, b: string, c: string, d: string)
    ensures a + (b + c + d) == a + b + c + d
  {
  }

  lemma OneKeyText(v: UsageValue, user: string, ratio: string)
    ensures Join(KeyTexts(v, [Key(user, ratio)]), ",") == if IsThroughput(v) then user + ":" + ratio else user
  {
    var text := if IsThroughput(v) then user + ":" + ratio else user;
    assert KeyTexts(v, [Key(user, ratio)]) == [text];
  }

  // ---------------------------------------------------------------- printing

  /** A violating user, with its printed ratio when the category is a throughput. */
  datatype Key = Key(user: string, ratio: string)

  function KeyTexts(v: UsageValue, keys: seq<Key>): seq<string> {
    seq(|keys|, i requires 0 <= i < |keys| =>
          if IsThroughput(v) then keys[i].user + ":" + keys[i].ratio else keys[i].user)
  }

  function PrintLine(v: UsageValue, us: nat, keys: seq<Key>): string {
    var name, texts := "user_" + Name(v), Join(KeyTexts(v, keys), ",");
    if IsRequests(v) then Join([name, texts], ",") else Join([PrintNat(us), name, texts], ",")
  }

  // ---------------------------------------------------------------- reading

  /** What a line makes HAProxy do; Fails is arithmetic on nil. */
  datatype Policy =
    | Invalid
    | Stale
    | Fails
    | Requests(blocking: bool, users: seq<string>)
    | Throttle(us: int, up: bool, keys: seq<Key>)
    | Rate(verb: string, time: int, users: seq<string>)

  predicate Contains(s: string, d: string) {
    Find(s, d, 0).Some?
  }

  /** A line as getline delivers it: surrounding white space is cut off first. */
  function ReadRaw(raw: string, now: int): Policy {
    ReadLine(TrimRight(TrimLeft(raw)), now)
  }

  function ReadLine(line: string, now: int): Policy {
    ReadItems(LuaSplit(line, ","), now)
  }

  function ReadItems(items: seq<string>, now: int): Policy {
    if |items| < 2 then Invalid
    else if Contains(items[0], "_reqs_") then
      (if Contains(items[0], "reqs_block") then Requests(true, items[1..])
       else if Contains(items[0], "reqs_unblock") then Requests(false, items[1..])
       else Invalid)
    else if |items| < 3 then Invalid
    else match ToNumber(items[0])
      case None => Fails
      case Some(us) =>
        if us / USECS < now then Stale
        else if Contains(items[1], "_bnd_") then ReadThrottle(us, items[1], items[2..])
        else Rate(items[1], us / USECS, items[2..])
  }

  function ReadThrottle(us: int, name: string, items: seq<string>): Policy {
    if Contains(name, "_up") then Throttle(us, true, ReadKeys(items))
    else if Contains(name, "_dwn") then Throttle(us, false, ReadKeys(items))
    else Invalid
  }

  function ReadKeys(items: seq<string>): seq<Key> {
    seq(|items|, i requires 0 <= i < |items| =>
          var pair := LuaSplit(items[i], ":");
          if |pair| == 2 then Key(pair[0], pair[1])
          else if |pair| == 1 then Key(pair[0], "1.0")
          else Key("unknown", "1.0"))
  }

  // ---------------------------------------------------------------- names

  lemma ContainsMiddle(a: string, d: string, b: string)
    ensures Contains(a + d + b, d)
  {
    var s := a + d + b;
    assert s[|a|..|a| + |d|] == d;
    assert MatchAt(s, d, |a|);
    FindIsFirst(s, d, 0);
  }

  lemma ContainsNot(s: string, d: string)
    requires forall i :: 0 <= i <= |s| ==> !MatchAt(s, d, i)
    ensures !Contains(s, d)
  {
    FindIsFirst(s, d, 0);
  }

  lemma NoUnderscore(s: string, d: string)
    requires '_' !in s && d != "" && d[0] == '_'
    ensures !Contains(s, d)
  {
    forall i | 0 <= i <= |s| ensures !MatchAt(s, d, i) {
      MatchFirst(s, d, i);
    }
    ContainsNot(s, d);
  }

  lemma CharAt(s: string, d: string, i: nat, k: nat)
    requires k < |d|
    ensures MatchAt(s, d, i) ==> s[i + k] == d[k]
  {
    assert MatchAt(s, d, i) ==> s[i..i + |d|][k] == s[i + k];
  }

  lemma NameChars(v: UsageValue)
    ensures forall c :: c in "user_" + Name(v) ==> c >= '0'
  {
    hide Name;
  }

  /** A verb has a single underscore before its name, so it is not taken for a throughput. */
  lemma VerbName(v: UsageValue)
    requires !IsThroughput(v) && !IsRequests(v)
    ensures !Contains("user_" + Name(v), "_bnd_")
  {
    assert '_' !in Name(v);
    OneUnderscore(Name(v));
  }

  lemma OneUnderscore(name: string)
    requires '_' !in name
    ensures !Contains("user_" + name, "_bnd_")
  {
    var s := "user_" + name;
    forall i | 0 <= i <= |s| ensures !MatchAt(s, "_bnd_", i) {
      CharAt(s, "_bnd_", i, 0);
      CharAt(s, "_bnd_", i, 4);
      assert forall k :: 5 <= k < |s| ==> s[k] == name[k - 5];
      assert forall k :: 0 <= k < 4 ==> s[k] != '_';
    }
    ContainsNot(s, "_bnd_");
  }

  lemma ThroughputNames()
    ensures Contains("user_bnd_up", "_bnd_") && Contains("user_bnd_dwn", "_bnd_")
    ensures Contains("user_bnd_up", "_up") && !Contains("user_bnd_dwn", "_up") && Contains("user_bnd_dwn", "_dwn")
  {
    var up, dwn := "user_bnd_up", "user_bnd_dwn";
    assert "user" + "_bnd_" + "up" == up && "user" + "_bnd_" + "dwn" == dwn;
    assert "user_bnd" + "_up" + "" == up && "user_bnd" + "_dwn" + "" == dwn;
    ContainsMiddle("user", "_bnd_", "up");
    ContainsMiddle("user", "_bnd_", "dwn");
    ContainsMiddle("user_bnd", "_up", "");
    ContainsMiddle("user_bnd", "_dwn", "");
    forall i | 0 <= i <= |dwn| ensures !MatchAt(dwn, "_up", i) {
      CharAt(dwn, "_up", i, 0);
      CharAt(dwn, "_up", i, 1);
    }
    ContainsNot(dwn, "_up");
  }

  lemma RequestNames()
    ensures Contains("user_reqs_block", "_reqs_") && Contains("user_reqs_unblock", "_reqs_")
    ensures Contains("user_reqs_block", "reqs_block") && Contains("user_reqs_unblock", "reqs_unblock")
  {
    assert "user" + "_reqs_" + "block" == "user_reqs_block" && "user" + "_reqs_" + "unblock" == "user_reqs_unblock";
    assert "user_" + "reqs_block" + "" == "user_reqs_block" && "user_" + "reqs_unblock" + "" == "user_reqs_unblock";
    ContainsMiddle("user", "_reqs_", "block");
    ContainsMiddle("user", "_reqs_", "unblock");
    ContainsMiddle("user_", "reqs_block", "");
    ContainsMiddle("user_", "reqs_unblock", "");
  }

  lemma UnblockIsNotBlock()
    ensures !Contains("user_reqs_unblock", "reqs_block")
  {
    var u := "user_reqs_unblock";
    forall i | 0 <= i <= |u| ensures !MatchAt(u, "reqs_block", i) {
      CharAt(u, "reqs_block", i, 0);
      CharAt(u, "reqs_block", i, 1);
      CharAt(u, "reqs_block", i, 5);
    }
    ContainsNot(u, "reqs_block");
  }

  // ---------------------------------------------------------------- reading what was printed

  predicate KeyOk(k: Key) {
    ',' !in k.user && ':' !in k.user && ',' !in k.ratio && ':' !in k.ratio
  }

  /** A joined line is cut back into its items. */
  lemma ItemsBack(ts: seq<string>, c: char)
    requires |ts| >= 2 && forall t :: t in ts ==> c !in t
    ensures LuaSplit(Join(ts, [c]), [c]) == ts
  {
    SplitJoinChar(ts, c);
    assert Join(ts, [c]) == ts[0] + [c] + Join(ts[1..], [c]);
    LuaSplitChar(Join(ts, [c]), c);
  }

  lemma KeysBack(v: UsageValue, keys: seq<Key>)
    requires IsThroughput(v) && forall i :: 0 <= i < |keys| ==> KeyOk(keys[i])
    ensures ReadKeys(KeyTexts(v, keys)) == keys
  {
    var items := KeyTexts(v, keys);
    forall i | 0 <= i < |keys| ensures ReadKeys(items)[i] == keys[i] {
      var pair := [keys[i].user, keys[i].ratio];
      assert Join(pair, ":") == items[i] by {
        assert pair[1..] == [keys[i].ratio];
      }
      ItemsBack(pair, ':');
    }
  }

  /** A throttled key without a ratio gets 1.0, and one with more than one colon is not known at all. */
  lemma OddKeys(a: string, b: string, c: string)
    requires ':' !in a && ':' !in b && ':' !in c && a != ""
    ensures ReadKeys([a]) == [Key(a, "1.0")]
    ensures ReadKeys([a + ":" + (b + ":" + c)]) == [Key("unknown", "1.0")]
  {
    Join3(a, b, c, ":");
    ItemsBack([a, b, c], ':');
    SplitJoinChar([a], ':');
    assert Join([a], ":") == a;
    LuaSplitChar(a, ':');
    hide LuaSplit, Join;
  }

  /** A line without a comma, and a timed one with a single comma, say nothing. */
  lemma ShortLines(a: string, b: string, now: int)
    requires ',' !in a && ',' !in b && a != "" && '_' !in a
    ensures ReadLine(a, now) == Invalid && ReadLine(a + "," + b, now) == Invalid
  {
    SplitJoinChar([a], ',');
    assert Join([a], ",") == a;
    LuaSplitChar(a, ',');
    JoinCons(a, [b], ",");
    assert Join([b], ",") == b && [a] + [b] == [a, b];
    ItemsBack([a, b], ',');
    NoUnderscore(a, "_reqs_");
    hide LuaSplit, Join, Contains;
  }

  function Users(keys: seq<Key>): seq<string> {
    seq(|keys|, i requires 0 <= i < |keys| => keys[i].user)
  }

  /** What HAProxy should make of a message of this category. */
  function Meant(v: UsageValue, us: nat, keys: seq<Key>, now: int): Policy {
    if IsRequests(v) then Requests(v.RequestsBlock?, Users(keys))
    else if us / 1_000_000 < now then Stale
    else if IsThroughput(v) then Throttle(us, v.ThroughputWrite?, keys)
    else Rate("user_" + Name(v), us / 1_000_000, Users(keys))
  }

  lemma TextsOk(v: UsageValue, keys: seq<Key>)
    requires forall i :: 0 <= i < |keys| ==> KeyOk(keys[i])
    ensures |KeyTexts(v, keys)| == |keys| && forall t :: t in KeyTexts(v, keys) ==> ',' !in t
  {
  }

  lemma JoinTwo(a: string, ts: seq<string>)
    requires |ts| >= 1
    ensures Join([a, Join(ts, ",")], ",") == Join([a] + ts, ",")
  {
    JoinCons(a, ts, ",");
    assert [a, Join(ts, ",")][1..] == [Join(ts, ",")];
  }

  lemma CommaFree(xs: seq<string>, ys: seq<string>)
    requires (forall t :: t in xs ==> ',' !in t) && forall t :: t in ys ==> ',' !in t
    ensures forall t :: t in xs + ys ==> ',' !in t
  {
  }

  lemma ItemsOfTwo(a: string, ts: seq<string>)
    requires |ts| >= 1 && ',' !in a && forall t :: t in ts ==> ',' !in t
    ensures LuaSplit(Join([a, Join(ts, ",")], ","), ",") == [a] + ts
  {
    hide LuaSplit, Join;
    JoinTwo(a, ts);
    CommaFree([a], ts);
    ItemsBack([a] + ts, ',');
  }

  lemma ItemsOfThree(a: string, b: string, ts: seq<string>)
    requires |ts| >= 1 && ',' !in a && ',' !in b && forall t :: t in ts ==> ',' !in t
    ensures LuaSplit(Join([a, b, Join(ts, ",")], ","), ",") == [a] + [b] + ts
  {
    hide LuaSplit, Join;
    LimitMessage.JoinNested(a, b, ts);
    CommaFree([a, b], ts);
    ItemsBack([a, b] + ts, ',');
    assert [a] + [b] == [a, b];
  }

  lemma LineItems(v: UsageValue, us: nat, keys: seq<Key>)
    requires keys != [] && forall i :: 0 <= i < |keys| ==> KeyOk(keys[i])
    ensures LuaSplit(PrintLine(v, us, keys), ",")
              == (if IsRequests(v) then [] else [PrintNat(us)]) + ["user_" + Name(v)] + KeyTexts(v, keys)
  {
    NameChars(v);
    DigitsHaveNo(us, ',');
    TextsOk(v, keys);
    hide Name, PrintNat, KeyTexts, LuaSplit, Join;
    var name, texts := "user_" + Name(v), KeyTexts(v, keys);
    if IsRequests(v) {
      ItemsOfTwo(name, texts);
      assert [] + [name] == [name];
    } else {
      ItemsOfThree(PrintNat(us), name, texts);
    }
  }

  lemma ReadRequestItems(name: string, texts: seq<string>, now: int)
    requires texts != [] && Contains(name, "_reqs_") && (Contains(name, "reqs_block") || Contains(name, "reqs_unblock"))
    ensures ReadItems([name] + texts, now) == Requests(Contains(name, "reqs_block"), texts)
  {
    hide Contains, ToNumber, ReadThrottle;
    assert ([name] + texts)[1..] == texts;
  }

  lemma ReadRequests(v: UsageValue, texts: seq<string>, now: int)
    requires IsRequests(v) && texts != []
    ensures ReadItems(["user_" + Name(v)] + texts, now) == Requests(v.RequestsBlock?, texts)
  {
    hide Contains, ReadItems;
    RequestNames();
    UnblockIsNotBlock();
    var name := if v.RequestsBlock? then "user_reqs_block" else "user_reqs_unblock";
    assert "user_" + Name(v) == name;
    ReadRequestItems(name, texts, now);
  }

  lemma ReadTimed(us: nat, name: string, texts: seq<string>, now: int)
    requires texts != []
    ensures ReadItems([PrintNat(us)] + [name] + texts, now)
              == if us / USECS < now then Stale
                 else if Contains(name, "_bnd_") then ReadThrottle(us, name, texts)
                 else Rate(name, us / USECS, texts)
  {
    ToNumberPrinted(us);
    DigitsHaveNo(us, '_');
    NoUnderscore(PrintNat(us), "_reqs_");
    hide Contains, ToNumber, PrintNat, ReadThrottle;
    var items := [PrintNat(us)] + [name] + texts;
    assert items[0] == PrintNat(us) && items[1] == name && items[2..] == texts;
  }

  /** Every line polygen prints makes HAProxy do what it was meant to. */
  lemma LineReadBack(v: UsageValue, us: nat, keys: seq<Key>, now: int)
    requires keys != [] && forall i :: 0 <= i < |keys| ==> KeyOk(keys[i])
    ensures ReadLine(PrintLine(v, us, keys), now) == Meant(v, us, keys, now)
  {
    var name, texts := "user_" + Name(v), KeyTexts(v, keys);
    LineItems(v, us, keys);
    if IsRequests(v) {
      assert texts == Users(keys);
      hide LuaSplit, PrintLine, ReadItems, KeyTexts, Name;
      assert [] + [name] == [name];
      ReadRequests(v, texts, now);
    } else {
      ReadTimed(us, name, texts, now);
      hide LuaSplit, PrintLine, ReadItems, Contains, ReadKeys;
      if IsThroughput(v) {
        KeysBack(v, keys);
        ReadThroughput(v, us, texts);
      } else {
        VerbName(v);
        assert texts == Users(keys);
      }
    }
  }

  lemma ReadThroughput(v: UsageValue, us: nat, texts: seq<string>)
    requires IsThroughput(v)
    ensures Contains("user_" + Name(v), "_bnd_")
    ensures ReadThrottle(us, "user_" + Name(v), texts) == Throttle(us, v.ThroughputWrite?, ReadKeys(texts))
  {
    ThroughputNames();
    hide Contains, ReadKeys;
    assert "user_" + Name(v) == if v.ThroughputWrite? then "user_bnd_up" else "user_bnd_dwn";
  }

  // ---------------------------------------------------------------- the line on its way

  predicate SpaceFree(s: string) {
    forall i :: 0 <= i < |s| ==> !IsSpace(s[i])
  }

  lemma {:induction false} JoinSpaceFree(ts: seq<string>, d: string)
    requires SpaceFree(d) && forall i :: 0 <= i < |ts| ==> SpaceFree(ts[i])
    ensures SpaceFree(Join(ts, d))
  {
    if |ts| >= 2 {
      JoinSpaceFree(ts[1..], d);
    }
  }

  lemma NameSpaceFree(v: UsageValue)
    ensures SpaceFree("user_" + Name(v))
  {
    NameChars(v);
    hide Name;
    var s := "user_" + Name(v);
    forall i | 0 <= i < |s| ensures !IsSpace(s[i]) {
      assert s[i] in s;
    }
  }

  lemma TrimNewline(s: string)
    requires s != "" && SpaceFree(s)
    ensures TrimRight(TrimLeft(s + "\n")) == s
  {
    assert (s + "\n")[0] == s[0];
    assert TrimLeft(s + "\n") == s + "\n";
    assert (s + "\n")[..|s|] == s;
    assert TrimRight(s) == s;
  }

  lemma LineSpaceFree(v: UsageValue, us: nat, keys: seq<Key>)
    requires forall i :: 0 <= i < |keys| ==> SpaceFree(keys[i].user) && SpaceFree(keys[i].ratio)
    ensures SpaceFree(PrintLine(v, us, keys)) && PrintLine(v, us, keys) != ""
  {
    var name, texts := "user_" + Name(v), KeyTexts(v, keys);
    NameSpaceFree(v);
    forall i | 0 <= i < |texts| ensures SpaceFree(texts[i]) {
    }
    JoinSpaceFree(texts, ",");
    assert SpaceFree(PrintNat(us)) by {
      assert AllDigits(PrintNat(us));
    }
    hide KeyTexts, PrintNat, Name;
    JoinSpaceFree([name, Join(texts, ",")], ",");
    JoinSpaceFree([PrintNat(us), name, Join(texts, ",")], ",");
  }

  /** The same for the line as it travels, with its newline, when no user and no ratio holds white space. */
  lemma RawLineReadBack(v: UsageValue, us: nat, keys: seq<Key>, now: int)
    requires keys != [] && forall i :: 0 <= i < |keys| ==>
               KeyOk(keys[i]) && SpaceFree(keys[i].user) && SpaceFree(keys[i].ratio)
    ensures ReadRaw(PrintLine(v, us, keys) + "\n", now) == Meant(v, us, keys, now)
  {
    LineSpaceFree(v, us, keys);
    TrimNewline(PrintLine(v, us, keys));
    LineReadBack(v, us, keys, now);
  }
}
