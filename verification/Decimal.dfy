/** Decimal numbers as the three languages print and read them. */
module Decimal {
  import opened Common

  const INT_MIN := -0x8000_0000
  const INT_MAX := 0x7FFF_FFFF

  predicate IsDigit(c: char) {
    '0' <= c <= '9'
  }

  predicate AllDigits(s: string) {
    forall i :: 0 <= i < |s| ==> IsDigit(s[i])
  }

  function DigitChar(d: nat): (c: char)
    requires d < 10
    ensures IsDigit(c) && DigitValue(c) == d
  {
    '0' + d as char
  }

  function DigitValue(c: char): (d: nat)
    requires IsDigit(c)
    ensures d < 10
  {
    (c - '0') as nat
  }

  function PrintNat(n: nat): (s: string)
    ensures |s| >= 1 && AllDigits(s)
  {
    if n < 10 then [DigitChar(n)] else PrintNat(n / 10) + [DigitChar(n % 10)]
  }

  function ReadNat(s: string): nat
    requires AllDigits(s)
  {
    if s == "" then 0 else 10 * ReadNat(s[..|s| - 1]) + DigitValue(s[|s| - 1])
  }

  lemma {:induction false} ReadPrinted(n: nat)
    ensures ReadNat(PrintNat(n)) == n
  {
    if n >= 10 {
      ReadPrinted(n / 10);
      var s := PrintNat(n);
      assert s[..|s| - 1] == PrintNat(n / 10);
    } else {
      var s := PrintNat(n);
      assert s[..0] == "";
    }
  }

  /** Digits are the decimal ones, the most significant first. */
  lemma DecimalExample()
    ensures PrintNat(0) == "0" && PrintNat(1907) == "1907" && PrintNat(823_456) == "823456"
  {
    assert PrintNat(1) == "1" && PrintNat(19) == "19" && PrintNat(190) == "190";
    assert PrintNat(8) == "8" && PrintNat(82) == "82" && PrintNat(823) == "823" && PrintNat(8234) == "8234";
    assert PrintNat(82345) == "82345";
  }

  lemma PrintInjective(m: nat, n: nat)
    requires PrintNat(m) == PrintNat(n)
    ensures m == n
  {
    ReadPrinted(m);
    ReadPrinted(n);
  }

  lemma DigitsHaveNo(n: nat, c: char)
    requires !IsDigit(c)
    ensures c !in PrintNat(n)
  {
  }

  /** `%d` */
  function PrintInt(n: int): string {
    if n < 0 then "-" + PrintNat(-n) else PrintNat(n)
  }

  // ---------------------------------------------------------------- std::from_chars for int

  function DigitPrefix(s: string): (p: nat)
    ensures p <= |s| && AllDigits(s[..p])
    ensures AllDigits(s) ==> p == |s|
  {
    if s == "" || !IsDigit(s[0]) then 0 else
      var q := DigitPrefix(s[1..]);
      assert s[..q + 1] == [s[0]] + s[1..][..q];
      assert AllDigits(s) ==> AllDigits(s[1..]);
      q + 1
  }

  /** Reads a sign and the longest run of digits; what follows is ignored; out of range is an error. */
  function FromChars(s: string): Option<int> {
    if s != "" && s[0] == '-' then Signed(s[1..], true) else Signed(s, false)
  }

  function Signed(t: string, neg: bool): Option<int> {
    var p := DigitPrefix(t);
    if p == 0 then None else InRange(if neg then 0 - ReadNat(t[..p]) else ReadNat(t[..p]))
  }

  function InRange(v: int): Option<int> {
    if INT_MIN <= v <= INT_MAX then Some(v) else None
  }

  lemma SignedDigits(t: string, neg: bool)
    requires t != "" && AllDigits(t)
    ensures Signed(t, neg) == InRange(if neg then 0 - ReadNat(t) else ReadNat(t))
  {
    hide ReadNat, InRange, AllDigits;
    assert DigitPrefix(t) == |t|;
    assert t[..|t|] == t;
  }

  lemma FromCharsPrinted(n: int)
    ensures FromChars(PrintInt(n)) == if -0x8000_0000 <= n <= 0x7FFF_FFFF then Some(n) else None
  {
    var m: nat := if n < 0 then -n else n;
    var t := PrintNat(m);
    ReadPrinted(m);
    SignedDigits(t, n < 0);
    assert IsDigit(t[0]);
    hide Signed, ReadNat, PrintNat;
    if n < 0 {
      MinusFirst(t);
    }
  }

  lemma MinusFirst(t: string)
    ensures FromChars("-" + t) == Signed(t, true)
  {
    assert ("-" + t)[0] == '-' && ("-" + t)[1..] == t;
    hide Signed;
  }

  // ---------------------------------------------------------------- tonumber(s, 10) in Lua

  predicate IsSpace(c: char) {
    c == ' ' || '\t' <= c <= '\r'
  }

  function TrimLeft(s: string): string {
    if s != "" && IsSpace(s[0]) then TrimLeft(s[1..]) else s
  }

  function TrimRight(s: string): string {
    if s != "" && IsSpace(s[|s| - 1]) then TrimRight(s[..|s| - 1]) else s
  }

  predicate Numeral(s: string) {
    s != "" && AllDigits(s)
  }

  /** Surrounding white space is skipped; anything but a sign and digits is nil. */
  function ToNumber(s: string): Option<int> {
    var t := TrimRight(TrimLeft(s));
    if t == "" then None
    else if t[0] == '-' then (if Numeral(t[1..]) then Some(0 - ReadNat(t[1..])) else None)
    else if t[0] == '+' then (if Numeral(t[1..]) then Some(ReadNat(t[1..])) else None)
    else if Numeral(t) then Some(ReadNat(t)) else None
  }

  /** A printed number is read back, with or without the newline that getline leaves at its end. */
  lemma ToNumberPrinted(n: nat)
    ensures ToNumber(PrintNat(n)) == Some(n)
    ensures ToNumber(PrintNat(n) + "\n") == Some(n)
  {
    var t := PrintNat(n);
    ReadPrinted(n);
    assert IsDigit(t[0]) && IsDigit(t[|t| - 1]);
    assert TrimRight(t) == t;
    assert (t + "\n")[..|t|] == t;
    assert TrimLeft(t + "\n") == t + "\n" && TrimRight(t + "\n") == t;
  }
}
