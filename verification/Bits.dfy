/** Word arithmetic of khash.h: masks, shifts and the power-of-two rounding macro.
    Words are naturals below 2^32; `|` and `&` are defined digit by digit. */
module Bits {

  const WORD := 0x1_0000_0000
  const MAX_BUCKETS := 0x8000_0000

  function Pow2(e: nat): (r: nat)
    ensures r >= 1
  {
    if e == 0 then 1 else 2 * Pow2(e - 1)
  }

  ghost predicate IsPow2(n: nat) {
    exists e: nat :: Pow2(e) == n
  }

  function BitOr(a: nat, b: nat): nat
    decreases a + b
  {
    if a == 0 then b else if b == 0 then a
    else 2 * BitOr(a / 2, b / 2) + (if a % 2 == 1 || b % 2 == 1 then 1 else 0)
  }

  function BitAnd(a: nat, b: nat): nat {
    if a == 0 || b == 0 then 0
    else 2 * BitAnd(a / 2, b / 2) + (if a % 2 == 1 && b % 2 == 1 then 1 else 0)
  }

  lemma {:induction false} Pow2Monotone(a: nat, b: nat)
    ensures a <= b ==> Pow2(a) <= Pow2(b)
    ensures a < b ==> 2 * Pow2(a) <= Pow2(b)
    decreases b
  {
    if a < b {
      Pow2Monotone(a, b - 1);
    }
  }

  /** x reduced modulo n by repeated subtraction. */
  function Mod(x: nat, n: nat): (r: nat)
    requires n > 0
    ensures r < n
  {
    if x < n then x else Mod(x - n, n)
  }

  lemma {:induction false} ModAdd(a: nat, b: nat, n: nat)
    requires n > 0
    ensures Mod(Mod(a, n) + b, n) == Mod(a + b, n)
  {
    if a >= n {
      ModAdd(a - n, b, n);
    }
  }

  lemma {:induction false} ModHalve(k: nat, m: nat)
    requires m > 0
    ensures Mod(k, 2 * m) == 2 * Mod(k / 2, m) + k % 2
  {
    if k >= 2 * m {
      ModHalve(k - 2 * m, m);
      assert (k - 2 * m) / 2 == k / 2 - m && (k - 2 * m) % 2 == k % 2;
    }
  }

  /** Equal residues: the difference is a multiple of n. */
  lemma {:induction false} ModEqual(a: nat, b: nat, n: nat)
    requires n > 0 && a <= b && Mod(a, n) == Mod(b, n)
    ensures Mod(b - a, n) == 0
    decreases b
  {
    if a >= n {
      ModEqual(a - n, b - n, n);
    } else if b >= a + n {
      ModEqual(a, b - n, n);
    }
  }

  lemma {:induction false} ModMultiple(h: nat, q: nat, n: nat)
    requires n > 0
    ensures Mod(h + q * n, n) == Mod(h, n)
  {
    if q > 0 {
      assert h + q * n == (h + (q - 1) * n) + n;
      ModMultiple(h, q - 1, n);
    }
  }

  /** `k & (n - 1)` reduces k modulo n when n is a power of two. */
  lemma {:induction false} MaskIsMod(k: nat, e: nat)
    ensures BitAnd(k, Pow2(e) - 1) == Mod(k, Pow2(e))
  {
    if e == 0 {
      ModOne(k);
    } else if k > 0 {
      var m := Pow2(e - 1);
      MaskIsMod(k / 2, e - 1);
      assert (2 * m - 1) / 2 == m - 1;
      ModHalve(k, m);
    }
  }

  lemma {:induction false} ModOne(k: nat)
    ensures Mod(k, 1) == 0
  {
    if k > 0 {
      ModOne(k - 1);
    }
  }

  function Shr(a: nat, k: nat): nat {
    if k == 0 then a else Shr(a / 2, k - 1)
  }

  /** y has at most L digits and all but the lowest t of them are ones. */
  ghost predicate TopOnes(y: nat, L: nat, t: nat) {
    t <= L && Pow2(L) - Pow2(t) <= y < Pow2(L)
  }

  function Drop(t: nat, k: nat): nat {
    if k >= t then 0 else t - k
  }

  /** Shifting a run of leading ones right by k moves its lower end down by k. */
  lemma {:induction false} ShrTop(y: nat, L: nat, t: nat, k: nat)
    requires TopOnes(y, L, t) && k <= L
    ensures TopOnes(Shr(y, k), L - k, Drop(t, k))
    decreases k
  {
    if k > 0 {
      ShrTop(y / 2, L - 1, Drop(t, 1), k - 1);
    }
  }

  lemma {:induction false} ShrVanishes(y: nat, L: nat, k: nat)
    requires y < Pow2(L) && L <= k
    ensures Shr(y, k) == 0
    decreases k
  {
    if k > 0 {
      ShrVanishes(y / 2, Drop(L, 1), k - 1);
    }
  }

  /** Or-ing in a number whose ones start right below position t extends the run of ones. */
  lemma {:induction false} OrExtends(y: nat, z: nat, L: nat, t: nat, q: nat)
    requires TopOnes(y, L, t) && TopOnes(z, t, q)
    ensures TopOnes(BitOr(y, z), L, q)
    decreases t
  {
    if t > 0 {
      OrExtends(y / 2, z / 2, L - 1, t - 1, Drop(q, 1));
      OrDigit(y, z);
    }
  }

  lemma OrDigit(a: nat, b: nat)
    ensures BitOr(a, b) == 2 * BitOr(a / 2, b / 2) + (if a % 2 == 1 || b % 2 == 1 then 1 else 0)
  {
    if a == 0 || b == 0 {
      assert BitOr(a / 2, b / 2) == a / 2 + b / 2;
    }
  }

  /** One line `x |= x >> k` of the macro doubles the run of leading ones. */
  lemma Smear(y: nat, L: nat, k: nat)
    requires TopOnes(y, L, Drop(L, k))
    ensures TopOnes(BitOr(y, Shr(y, k)), L, Drop(L, 2 * k))
  {
    if k >= L {
      ShrVanishes(y, L, k);
    } else {
      ShrTop(y, L, L - k, k);
      OrExtends(y, Shr(y, k), L, L - k, Drop(L - k, k));
    }
  }

  lemma {:induction false} BitLength(y: nat) returns (L: nat)
    ensures y == 0 ==> L == 0
    ensures y > 0 ==> L >= 1 && Pow2(L - 1) <= y
    ensures y < Pow2(L)
  {
    if y == 0 {
      L := 0;
    } else {
      var l := BitLength(y / 2);
      L := l + 1;
    }
  }

  lemma Pow2Of(e: nat)
    requires e <= 32
    ensures Pow2(0) == 1 && Pow2(31) == MAX_BUCKETS && Pow2(32) == WORD
    ensures e <= 31 ==> Pow2(e) <= MAX_BUCKETS
  {
    assert Pow2(2) == 4; assert Pow2(4) == 16; assert Pow2(6) == 64; assert Pow2(8) == 256;
    assert Pow2(10) == 1024; assert Pow2(12) == 4096; assert Pow2(14) == 16384; assert Pow2(16) == 65536;
    assert Pow2(18) == 262144; assert Pow2(20) == 1048576; assert Pow2(22) == 4194304; assert Pow2(24) == 16777216;
    assert Pow2(26) == 67108864; assert Pow2(28) == 268435456; assert Pow2(30) == 1073741824;
    Pow2Monotone(e, 31);
  }

  /** `kroundup32`, statement by statement, with 32-bit wrap-around at both ends. */
  method KRoundUp32(x0: nat) returns (x: nat)
    requires x0 < WORD
    ensures x0 == 0 || x0 > MAX_BUCKETS ==> x == 0
    ensures 1 <= x0 <= MAX_BUCKETS ==> IsPow2(x) && x0 <= x <= MAX_BUCKETS
    // the least such power: every power of two at or above x0 is at or above x
    ensures 1 <= x0 <= MAX_BUCKETS ==> forall e: nat :: Pow2(e) >= x0 ==> Pow2(e) >= x
  {
    hide Pow2, BitOr, Shr;
    x := if x0 == 0 then WORD - 1 else x0 - 1;
    ghost var y := x;
    ghost var L := BitLength(y);
    Pow2Of(0);
    LengthBound(y, L);
    Smear(x, L, 1);
    x := BitOr(x, Shr(x, 1));
    Smear(x, L, 2);
    x := BitOr(x, Shr(x, 2));
    Smear(x, L, 4);
    x := BitOr(x, Shr(x, 4));
    Smear(x, L, 8);
    x := BitOr(x, Shr(x, 8));
    Smear(x, L, 16);
    x := BitOr(x, Shr(x, 16));
    assert x == Pow2(L) - 1;
    x := (x + 1) % WORD;
    RoundedIsLeast(x0, y, L);
  }

  lemma LengthBound(y: nat, L: nat)
    requires y < WORD && (y == 0 ==> L == 0) && (y > 0 ==> L >= 1 && Pow2(L - 1) <= y) && y < Pow2(L)
    ensures L <= 32
    ensures y < MAX_BUCKETS ==> L <= 31
    ensures y >= MAX_BUCKETS ==> L == 32
    ensures TopOnes(y, L, Drop(L, 1))
  {
    Pow2Of(0);
    var l: nat := if L == 0 then 0 else L - 1;
    Pow2Monotone(32, l);
    Pow2Monotone(31, l);
    Pow2Monotone(L, 31);
  }

  lemma RoundedIsLeast(x0: nat, y: nat, L: nat)
    requires x0 < WORD && y == (if x0 == 0 then WORD - 1 else x0 - 1)
    requires (y == 0 ==> L == 0) && (y > 0 ==> L >= 1 && Pow2(L - 1) <= y) && y < Pow2(L)
    ensures x0 == 0 || x0 > MAX_BUCKETS ==> Pow2(L) % WORD == 0
    ensures 1 <= x0 <= MAX_BUCKETS ==> Pow2(L) % WORD == Pow2(L) && x0 <= Pow2(L) <= MAX_BUCKETS
    ensures 1 <= x0 <= MAX_BUCKETS ==> forall e: nat :: Pow2(e) >= x0 ==> Pow2(e) >= Pow2(L)
  {
    hide Pow2;
    LengthBound(y, L);
    Pow2Of(if L <= 32 then L else 0);
    if 1 <= x0 <= MAX_BUCKETS {
      forall e: nat | Pow2(e) >= x0 ensures Pow2(e) >= Pow2(L) {
        Pow2Monotone(e, if L == 0 then 0 else L - 1);
        Pow2Monotone(L, e);
      }
    }
  }
}
