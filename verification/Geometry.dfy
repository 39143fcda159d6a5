/** Exact integer arithmetic behind the tree shape: powers of two, rounded-up logarithms and quotients. */
module Geometry {

  function Pow2(n: nat): (r: nat)
    ensures r >= 1
  {
    if n == 0 then 1 else 2 * Pow2(n - 1)
  }

  /** ceil(log2(x)) for x >= 1. */
  function CeilLog2(x: nat): (k: nat)
    requires x >= 1
    ensures x <= Pow2(k)
    ensures k > 0 ==> Pow2(k - 1) < x
  {
    if x == 1 then 0 else
    var h := CeilLog2((x + 1) / 2);
    assert h > 0 ==> Pow2(h) == 2 * Pow2(h - 1);
    h + 1
  }

  /** ceil(a / b). */
  function CeilDiv(a: nat, b: nat): (q: nat)
    requires b >= 1
    ensures a <= q * b
    ensures q > 0 ==> (q - 1) * b < a
  {
    if a == 0 then 0 else (a - 1) / b + 1
  }

  /** `tree_level_` as the client computes it. */
  function TreeLevel(blockNum: nat, bucketSize: nat): nat
    requires blockNum >= 1 && bucketSize >= 1
  {
    assert CeilDiv(blockNum, bucketSize) >= 1;
    LevelOf(CeilDiv(blockNum, bucketSize))
  }

  /** `ceil(log2(n + 1)) - 1`, the formula the client applies to buckets and the server to its capacity. */
  function LevelOf(n: nat): (l: nat)
    requires n >= 1
    ensures Pow2(l) <= n < Pow2(l + 1)
  {
    assert CeilLog2(n + 1) > 0;
    CeilLog2(n + 1) - 1
  }

  predicate Below(v: nat, n: nat) {
    v < n
  }

  ghost function Naturals(n: nat): set<nat> {
    set v: nat | v < n && Below(v, n)
  }

  lemma {:induction false} NaturalsCount(n: nat)
    ensures |Naturals(n)| == n
  {
    if n == 0 {
      assert Naturals(0) == {};
    } else {
      NaturalsCount(n - 1);
      assert Naturals(n) == Naturals(n - 1) + {n - 1};
    }
  }

  /** n groups of `size`. */
  function Times(n: nat, size: nat): nat {
    n * size
  }

  lemma TimesStep(n: nat, size: nat)
    ensures Times(n + 1, size) == Times(n, size) + size
    ensures Times(0, size) == 0
  {
  }

  lemma MulMonotone(a: int, b: int, c: nat)
    requires a <= b
    ensures a * c <= b * c
  {
  }

  lemma DivBounds(a: nat, b: nat)
    requires b >= 1
    ensures 0 <= a / b
    ensures (a / b) * b <= a < (a / b) * b + b
  {
    var q := a / b;
    assert a == q * b + a % b;
    if q < 0 { MulMonotone(q, -1, b); }
  }

  lemma DivUnique(a: nat, b: nat, q: nat)
    requires b >= 1 && q * b <= a < q * b + b
    ensures a / b == q
  {
    DivBounds(a, b);
    var p := a / b;
    if p < q { MulMonotone(p + 1, q, b); } else if q < p { MulMonotone(q + 1, p, b); }
  }

  /** Index, within its level, of the bucket of level `l` that lies on the path to leaf `path`. */
  function Offset(level: nat, l: nat, path: nat): nat
    requires l <= level
  {
    DivBounds(path, Pow2(level - l));
    path / Pow2(level - l)
  }

  lemma {:induction false} Pow2Monotone(a: nat, b: nat)
    requires a < b
    ensures 2 * Pow2(a) <= Pow2(b)
    decreases b
  {
    if a + 1 < b {
      Pow2Monotone(a, b - 1);
    }
  }

  lemma {:induction false} Pow2Add(a: nat, b: nat)
    ensures Pow2(a + b) == Pow2(a) * Pow2(b)
  {
    if a > 0 {
      Pow2Add(a - 1, b);
    }
  }

  /** Rounding exactly: any level between these powers is the one the formula yields. */
  lemma LevelOfUnique(n: nat, l: nat)
    requires n >= 1 && Pow2(l) <= n < Pow2(l + 1)
    ensures LevelOf(n) == l
  {
    var k := LevelOf(n);
    if k < l {
      if k + 1 < l { Pow2Monotone(k + 1, l); }
    } else if l < k {
      if l + 1 < k { Pow2Monotone(l + 1, k); }
    }
  }

  /** The server, told only the leaf count 2^L, arrives at the client's level L. */
  lemma ServerLevelAgrees(level: nat)
    ensures LevelOf(Pow2(level)) == level
  {
    LevelOfUnique(Pow2(level), level);
  }

  /** The number of blocks a tree with leaves at `level` holds. */
  function TreeSlots(level: nat, size: nat): nat {
    Times(Pow2(level + 1) - 1, size)
  }

  /** The tree built for `blockNum` blocks has room for all of them. */
  lemma TreeHoldsAllBlocks(blockNum: nat, bucketSize: nat)
    requires blockNum >= 1 && bucketSize >= 1
    ensures TreeSlots(TreeLevel(blockNum, bucketSize), bucketSize) >= blockNum
  {
    var q := CeilDiv(blockNum, bucketSize);
    MulMonotone(q, Pow2(TreeLevel(blockNum, bucketSize) + 1) - 1, bucketSize);
  }

  /** And it is the least such tree: one level less would be too small. */
  lemma TreeIsLeast(blockNum: nat, bucketSize: nat)
    requires blockNum >= 1 && bucketSize >= 1
    ensures var level := TreeLevel(blockNum, bucketSize);
      level > 0 ==> TreeSlots(level - 1, bucketSize) < blockNum
  {
    var level, q := TreeLevel(blockNum, bucketSize), CeilDiv(blockNum, bucketSize);
    if level > 0 {
      MulMonotone(Pow2(level) - 1, q - 1, bucketSize);
    }
  }

  /** Every valid leaf passes through an existing bucket of every level. */
  lemma OffsetInRange(level: nat, l: nat, path: nat)
    requires l <= level && path < Pow2(level)
    ensures Offset(level, l, path) < Pow2(l)
  {
    var span := Pow2(level - l);
    Pow2Add(l, level - l);
    DivBounds(path, span);
    if Offset(level, l, path) >= Pow2(l) { MulMonotone(Pow2(l), path / span, span); }
  }

  /** The leaves drawn for initial bucket (l, j) are exactly those whose path goes through it. */
  lemma LeafRange(level: nat, l: nat, j: nat, path: nat)
    requires l <= level && j < Pow2(l)
    ensures j * Pow2(level - l) <= path <= j * Pow2(level - l) + Pow2(level - l) - 1 <==> Offset(level, l, path) == j
    ensures Offset(level, l, path) == j ==> path < Pow2(level)
  {
    var span := Pow2(level - l);
    DivBounds(path, span);
    if j * span <= path <= j * span + span - 1 { DivUnique(path, span, j); }
    Pow2Add(l, level - l);
    MulMonotone(j + 1, Pow2(l), span);
  }
}
