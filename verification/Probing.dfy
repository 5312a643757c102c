/** Triangular probing modulo a power of two: the walk `i = (i + (++step)) & mask` of khash.h. */
module Probing {
  import opened Bits

  /** The bucket inspected at probe number `step` for hash value h in a table of n buckets. */
  function Probe(h: nat, n: nat, step: nat): (i: nat)
    requires n > 0
    ensures i < n
  {
    if step == 0 then Mod(h, n) else Mod(Probe(h, n, step - 1) + step, n)
  }

  function Tri(step: nat): nat {
    if step == 0 then 0 else Tri(step - 1) + step
  }

  lemma {:induction false} ProbeIsTriangular(h: nat, n: nat, step: nat)
    requires n > 0
    ensures Probe(h, n, step) == Mod(h + Tri(step), n)
  {
    if step > 0 {
      ProbeIsTriangular(h, n, step - 1);
      ModAdd(h + Tri(step - 1), step, n);
    }
  }

  /** 2^e divides x, digit by digit. */
  predicate Divides2(e: nat, x: nat) {
    e == 0 || (x % 2 == 0 && Divides2(e - 1, x / 2))
  }

  lemma {:induction false} Divides2IsMod(e: nat, x: nat)
    ensures Divides2(e, x) <==> Mod(x, Pow2(e)) == 0
  {
    if e == 0 {
      ModOne(x);
    } else {
      Divides2IsMod(e - 1, x / 2);
      ModHalve(x, Pow2(e - 1));
    }
  }

  lemma {:induction false} Divides2Bound(e: nat, x: nat)
    ensures Divides2(e, x) && x > 0 ==> x >= Pow2(e)
  {
    if e > 0 {
      Divides2Bound(e - 1, x / 2);
    }
  }

  ghost function Product(a: int, b: int): int {
    a * b
  }

  lemma ProductCommutes(a: int, b: int)
    ensures Product(a, b) == Product(b, a)
  {
  }

  /** An odd factor takes no part in divisibility by a power of two. */
  lemma {:induction false} OddFactor(e: nat, a: nat, b: nat, p: nat)
    requires a % 2 == 1 && p == Product(a, b) && Divides2(e, p)
    ensures Divides2(e, b)
  {
    if e > 0 {
      HalfProduct(a, b, p);
      hide Product;
      OddFactor(e - 1, a, b / 2, p / 2);
    }
  }

  lemma HalfProduct(a: nat, b: nat, p: nat)
    requires a % 2 == 1 && p == Product(a, b) && p % 2 == 0
    ensures b % 2 == 0 && p / 2 == Product(a, b / 2)
  {
    var c, d := a / 2, b / 2;
    var z := b % 2;
    assert a * b == (2 * c + 1) * (2 * d + z) == 2 * (c * (2 * d + z) + d) + z;
    assert b == 2 * d;
    assert a * b == 2 * (a * d);
  }

  lemma {:induction false} TriDifference(i: nat, j: nat)
    requires i <= j
    ensures Tri(i) <= Tri(j)
    ensures 2 * (Tri(j) - Tri(i)) == Product(j - i, i + j + 1)
    decreases j
  {
    if i < j {
      TriDifference(i, j - 1);
      assert (j - i) * (i + j + 1) == (j - 1 - i) * (i + j) + 2 * j by {
        var a, b := j - 1 - i, i + j;
        assert (a + 1) * (b + 1) == a * b + a + b + 1;
      }
    }
  }

  /** Two probe numbers that reach the same bucket: one of j - i and i + j + 1 is a multiple of 2n. */
  lemma Collision(h: nat, e: nat, i: nat, j: nat)
    requires i < j && Probe(h, Pow2(e), i) == Probe(h, Pow2(e), j)
    ensures Divides2(e + 1, j - i) || Divides2(e + 1, i + j + 1)
  {
    hide *;
    CollisionMultiple(h, e, i, j);
    TriDifference(i, j);
    CollisionFactor(e + 1, j - i, i + j + 1, 2 * (Tri(j) - Tri(i)));
  }

  lemma CollisionMultiple(h: nat, e: nat, i: nat, j: nat)
    requires i < j && Probe(h, Pow2(e), i) == Probe(h, Pow2(e), j)
    ensures Tri(i) <= Tri(j) && Divides2(e + 1, 2 * (Tri(j) - Tri(i)))
  {
    TriDifference(i, j);
    ProbeIsTriangular(h, Pow2(e), i);
    ProbeIsTriangular(h, Pow2(e), j);
    ModEqual(h + Tri(i), h + Tri(j), Pow2(e));
    var d := Tri(j) - Tri(i);
    assert (h + Tri(j)) - (h + Tri(i)) == d;
    Divides2IsMod(e, d);
    assert (2 * d) / 2 == d;
  }

  lemma CollisionFactor(e: nat, a: nat, b: nat, p: nat)
    requires p == Product(a, b) && Divides2(e, p) && (a + b) % 2 == 1
    ensures Divides2(e, a) || Divides2(e, b)
  {
    hide Product, Divides2;
    if a % 2 == 1 {
      OddFactor(e, a, b, p);
    } else {
      ProductCommutes(a, b);
      OddFactor(e, b, a, p);
    }
  }

  /** The first n probes are pairwise distinct. */
  lemma ProbeInjective(h: nat, e: nat, i: nat, j: nat)
    requires i < j < Pow2(e)
    ensures Probe(h, Pow2(e), i) != Probe(h, Pow2(e), j)
  {
    Divides2Bound(e + 1, j - i);
    Divides2Bound(e + 1, i + j + 1);
    if Probe(h, Pow2(e), i) == Probe(h, Pow2(e), j) {
      Collision(h, e, i, j);
    }
  }

  lemma TriMultiple(s: nat, n: nat)
    requires s == 2 * n - 1
    ensures Tri(s) == s * n
  {
    TriDifference(0, s);
    assert s * (2 * n) == 2 * (s * n);
  }

  /** The walk first returns to its start at probe 2n - 1, and it does return there. */
  lemma FirstReturn(h: nat, e: nat, s: nat)
    requires 1 <= s
    ensures Probe(h, Pow2(e), s) == Probe(h, Pow2(e), 0) ==> s >= 2 * Pow2(e) - 1
    ensures s == 2 * Pow2(e) - 1 ==> Probe(h, Pow2(e), s) == Probe(h, Pow2(e), 0)
  {
    Divides2Bound(e + 1, s);
    Divides2Bound(e + 1, s + 1);
    if Probe(h, Pow2(e), s) == Probe(h, Pow2(e), 0) {
      Collision(h, e, 0, s);
    }
    if s == 2 * Pow2(e) - 1 {
      TriMultiple(s, Pow2(e));
      ProbeIsTriangular(h, Pow2(e), s);
      ModMultiple(h, s, Pow2(e));
    }
  }

  /** Buckets inspected by the first k probes. */
  ghost function Visited(h: nat, n: nat, k: nat): set<nat>
    requires n > 0
  {
    set j | 0 <= j < k :: Probe(h, n, j)
  }

  lemma {:induction false} VisitedSize(h: nat, e: nat, k: nat)
    requires k <= Pow2(e)
    ensures |Visited(h, Pow2(e), k)| == k
  {
    hide Probe, Pow2, Mod;
    if k == 0 {
      assert Visited(h, Pow2(e), k) == {};
    } else {
      VisitedSize(h, e, k - 1);
      var last := Probe(h, Pow2(e), k - 1);
      assert Visited(h, Pow2(e), k) == Visited(h, Pow2(e), k - 1) + {last};
      forall j | 0 <= j < k - 1 ensures Probe(h, Pow2(e), j) != last {
        ProbeInjective(h, e, j, k - 1);
      }
    }
  }

  function Below(n: nat): (s: set<nat>)
    ensures forall b :: b in s <==> 0 <= b < n
    ensures |s| == n
  {
    if n == 0 then {} else Below(n - 1) + {n - 1}
  }

  lemma SubsetSize<T>(a: set<T>, b: set<T>)
    requires a <= b
    ensures |a| <= |b|
    ensures |a| == |b| ==> a == b
  {
    assert b == a + (b - a);
  }

  /** The first n probes visit all n buckets. */
  lemma ProbeCovers(h: nat, e: nat, b: nat) returns (j: nat)
    requires b < Pow2(e)
    ensures j < Pow2(e) && Probe(h, Pow2(e), j) == b
  {
    var n := Pow2(e);
    VisitedSize(h, e, n);
    SubsetSize(Visited(h, n, n), Below(n));
    assert b in Visited(h, n, n);
    j :| 0 <= j < n && Probe(h, n, j) == b;
  }
}
