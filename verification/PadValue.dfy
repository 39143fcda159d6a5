/**
 The pad value of the dictionary, ceil(3 * 1.44 * ln(x)) (core/odict_controller.cc:29-31), over exact real numbers, and
 which operations it covers: every find, every insertion from the sixth on, and not every one before.
 */
module PadValue {
  import opened Avl

  // ----- powers of reals --------------------------------------------------------------------------

  function Exp(b: real, n: nat): real {
    if n == 0 then 1.0 else b * Exp(b, n - 1)
  }

  lemma Scale(x: real, y: real, c: real)
    requires x < y && c > 0.0
    ensures x * c < y * c
  {
    assert (y - x) * c > 0.0;
  }

  lemma MulBounds(a: real, b: real, la: real, ua: real, lb: real, ub: real)
    requires 0.0 < la < a < ua && 0.0 < lb < b < ub
    ensures 0.0 < la * lb < a * b < ua * ub
  {
    Scale(0.0, lb, la);
    Scale(lb, b, la);
    Scale(la, a, b);
    Scale(a, ua, b);
    Scale(b, ub, ua);
  }

  lemma {:induction false} ExpPositive(b: real, n: nat)
    requires b > 0.0
    ensures Exp(b, n) > 0.0
  {
    if n > 0 {
      ExpPositive(b, n - 1);
    }
  }

  lemma {:induction false} ExpAdd(b: real, m: nat, n: nat)
    ensures Exp(b, m + n) == Exp(b, m) * Exp(b, n)
  {
    if m > 0 {
      ExpAdd(b, m - 1, n);
      assert b * (Exp(b, m - 1) * Exp(b, n)) == (b * Exp(b, m - 1)) * Exp(b, n);
    }
  }

  lemma {:induction false} ExpMul(b: real, m: nat, n: nat)
    ensures Exp(b, m * n) == Exp(Exp(b, m), n)
  {
    hide Exp;
    if n == 0 {
      ExpZero(b);
      ExpZero(Exp(b, m));
      assert m * n == 0;
    } else {
      ExpMul(b, m, n - 1);
      assert m * n == m + m * (n - 1);
      ExpAdd(b, m, m * (n - 1));
      ExpStep(Exp(b, m), n);
    }
  }

  lemma ExpStep(b: real, n: nat)
    requires n > 0
    ensures Exp(b, n) == b * Exp(b, n - 1)
  {
  }

  lemma ExpZero(b: real)
    ensures Exp(b, 0) == 1.0
  {
  }

  /** A larger base gives a larger power. */
  lemma {:induction false} ExpBase(a: real, b: real, n: nat)
    requires 0.0 < a <= b
    ensures Exp(a, n) <= Exp(b, n)
    ensures a < b && n > 0 ==> Exp(a, n) < Exp(b, n)
  {
    if n > 0 {
      ExpBase(a, b, n - 1);
      ExpPositive(a, n - 1);
      assert a * Exp(a, n - 1) <= b * Exp(a, n - 1) <= b * Exp(b, n - 1);
    }
  }

  /** A larger exponent gives a larger power. */
  lemma {:induction false} ExpExponent(b: real, m: nat, n: nat)
    requires b > 1.0 && m <= n
    ensures Exp(b, m) <= Exp(b, n)
    decreases n
  {
    if m < n {
      ExpExponent(b, m, n - 1);
      ExpPositive(b, n - 1);
      assert Exp(b, n - 1) <= b * Exp(b, n - 1);
    }
  }

  lemma ExpSmall(b: real)
    ensures Exp(b, 1) == b && Exp(b, 2) == b * b && Exp(b, 3) == b * b * b
  {
    assert Exp(b, 1) == b * Exp(b, 0);
    assert Exp(b, 2) == b * Exp(b, 1);
    assert Exp(b, 3) == b * Exp(b, 2);
  }

  // ----- the pad value ----------------------------------------------------------------------------

  /** Euler's number lies here; nothing else about it is used. */
  predicate IsEuler(e: real) {
    2.7182 < e < 2.7183
  }

  /** ceil(4.32 * ln(x)): the least p with 108 * ln(x) <= 25 * p. */
  predicate IsPadVal(e: real, x: nat, p: nat) {
    Exp(x as real, 108) <= Exp(e, 25 * p) && (p > 0 ==> Exp(e, 25 * (p - 1)) < Exp(x as real, 108))
  }

  lemma EulerPower(e: real)
    requires IsEuler(e)
    ensures 71000000000.0 < Exp(e, 25) < 72300000000.0
  {
    hide Exp;
    FifthPowerBounds(e, 2.7182, 2.7183, 148.3, 148.5);
    FifthPowerBounds(Exp(e, 5), 148.3, 148.5, 71000000000.0, 72300000000.0);
    ExpMul(e, 5, 5);
  }

  function Square(x: real): real {
    x * x
  }

  lemma Positive(a: real, b: real, product: real)
    requires a > 0.0 && b > 0.0 && product == a * b
    ensures product > 0.0
  {
  }

  lemma SquareGrows(x: real, y: real)
    requires 0.0 < x < y
    ensures 0.0 < Square(x) < Square(y)
  {
    Positive(x, x, Square(x));
    Positive(y - x, y + x, Square(y) - Square(x));
  }

  lemma SquareBounds(b: real, lo: real, hi: real)
    requires 0.0 < lo < b < hi
    ensures 0.0 < Square(lo) < Square(b) < Square(hi)
  {
    SquareGrows(lo, b);
    SquareGrows(b, hi);
  }

  lemma FifthPowerBounds(b: real, lo: real, hi: real, floor: real, ceiling: real)
    requires 0.0 < lo < b < hi
    requires floor <= Square(Square(lo)) * lo && Square(Square(hi)) * hi <= ceiling
    ensures floor < Exp(b, 5) < ceiling
  {
    hide Exp, Square;
    FifthPower(b);
    SquareBounds(b, lo, hi);
    SquareBounds(Square(b), Square(lo), Square(hi));
    MulBounds(Square(Square(b)), b, Square(Square(lo)), Square(Square(hi)), lo, hi);
  }

  lemma FifthPower(b: real)
    ensures Exp(b, 5) == Square(Square(b)) * b
  {
    hide Exp;
    ExpSmall(b);
    ExpAdd(b, 2, 2);
    ExpAdd(b, 4, 1);
  }

  lemma Cube(b: real, lo: real, hi: real)
    requires 0.0 < lo <= b && hi <= lo * lo * lo
    ensures Exp(b, 3) >= hi
  {
    hide Exp;
    ExpSmall(b);
    assert lo * lo <= b * b && (lo * lo) * lo <= (b * b) * b;
  }

  /** 1.261 is a little more than e^(25/108). */
  lemma RootBound()
    ensures Exp(1.261, 108) > 72300000000.0
  {
    hide Exp;
    var b := 1.261;
    ExpSmall(b);
    ExpAdd(b, 2, 2);
    assert Exp(b, 4) >= 2.528;
    ExpMul(b, 4, 3);
    Cube(Exp(b, 4), 2.528, 16.15);
    ExpMul(b, 12, 3);
    Cube(Exp(b, 12), 16.15, 4212.0);
    ExpMul(b, 36, 3);
    Cube(Exp(b, 36), 4212.0, 74000000000.0);
  }

  /** Below: the pad value exceeds k once x exceeds 1.261^k. */
  lemma PadBeyond(e: real, x: nat, p: nat, k: nat)
    requires IsEuler(e) && IsPadVal(e, x, p) && Exp(1.261, k) < x as real
    ensures p > k
  {
    hide Exp;
    if p <= k {
      var f, r := Exp(e, 25), Exp(1.261, k);
      EulerPower(e);
      RootBound();
      ExpExponent(e, 25 * p, 25 * k);
      ExpMul(e, 25, k);
      ExpBase(f, Exp(1.261, 108), k);
      ExpMul(1.261, 108, k);
      ExpMul(1.261, k, 108);
      assert 108 * k == k * 108;
      ExpPositive(1.261, k);
      ExpBase(r, x as real, 108);
    }
  }

  /** Above: the pad value is at most k once e^(25k) reaches x^108. */
  lemma PadWithin(e: real, x: nat, p: nat, k: nat)
    requires IsEuler(e) && IsPadVal(e, x, p) && Exp(x as real, 108) <= Exp(e, 25 * k)
    ensures p <= k
  {
    hide Exp;
    if p > k {
      ExpExponent(e, 25 * k, 25 * (p - 1));
    }
  }

  lemma PadOfFour(e: real, p: nat)
    requires IsEuler(e) && IsPadVal(e, 4, p)
    ensures p <= 6
  {
    hide Exp;
    EulerPower(e);
    ExpSmall(4.0);
    ExpMul(4.0, 3, 3);
    ExpSmall(64.0);
    ExpMul(4.0, 9, 2);
    ExpSmall(262144.0);
    assert Exp(4.0, 18) == 68719476736.0;
    ExpMul(4.0, 18, 6);
    ExpMul(e, 25, 6);
    ExpBase(68719476736.0, Exp(e, 25), 6);
    PadWithin(e, 4, p, 6);
  }

  lemma PadOfSix(e: real, p: nat)
    requires IsEuler(e) && IsPadVal(e, 6, p)
    ensures p <= 8
  {
    hide Exp;
    EulerPower(e);
    var f := Exp(e, 25);
    ExpSmall(6.0);
    ExpMul(6.0, 3, 3);
    ExpSmall(216.0);
    ExpMul(6.0, 9, 3);
    ExpSmall(10077696.0);
    var g := Exp(6.0, 27);
    assert g == 1023490369077469249536.0;
    ExpSmall(f);
    assert 71000000000.0 * 71000000000.0 < f * f;
    ExpMul(6.0, 27, 4);
    ExpMul(e, 25, 8);
    ExpMul(f, 2, 4);
    ExpBase(g, f * f, 4);
    PadWithin(e, 6, p, 8);
  }

  // ----- what it covers ---------------------------------------------------------------------------

  lemma RootPowers()
    ensures Exp(1.261, 8) < 6.4 && Exp(1.261, 9) < 8.1 && Exp(1.261, 10) < 10.3 && Exp(1.261, 11) < 12.9
  {
    hide Exp;
    var b := 1.261;
    ExpSmall(b);
    ExpAdd(b, 2, 2);
    ExpMul(b, 4, 2);
    ExpSmall(Exp(b, 4));
    ExpAdd(b, 8, 1);
    ExpAdd(b, 8, 2);
    ExpAdd(b, 8, 3);
  }

  /** The golden ratio exceeds 1.261, so the smallest AVL trees outgrow its powers. */
  lemma {:induction false} FibOutgrows(h: nat)
    requires h >= 5
    ensures Exp(1.261, h + 5) < Fib(h + 2) as real
  {
    hide Exp, Fib;
    FibValues();
    RootPowers();
    if h >= 7 {
      FibOutgrows(h - 1);
      FibOutgrows(h - 2);
      FibStep(h + 2);
      PowerStep(h + 3);
    }
  }

  lemma {:induction false} FibOutgrowsEarly(h: nat)
    requires h >= 1
    ensures Exp(1.261, h - 1) < Fib(h + 2) as real
  {
    hide Exp, Fib;
    FibValues();
    ExpSmall(1.261);
    ExpZero(1.261);
    if h >= 3 {
      FibOutgrowsEarly(h - 1);
      FibOutgrowsEarly(h - 2);
      FibStep(h + 2);
      PowerStep(h - 3);
    }
  }

  lemma FibStep(n: nat)
    requires n >= 2
    ensures Fib(n) == Fib(n - 1) + Fib(n - 2)
  {
  }

  lemma FibValues()
    ensures Fib(3) == 2 && Fib(4) == 3 && Fib(6) == 8 && Fib(7) == 13 && Fib(8) == 21
  {
  }

  lemma PowerStep(n: nat)
    ensures Exp(1.261, n + 2) <= Exp(1.261, n + 1) + Exp(1.261, n)
  {
    ExpPositive(1.261, n);
    assert Exp(1.261, n + 2) == 1.261 * Exp(1.261, n + 1);
  }

  /** The pad value of the next id covers every find, in every dictionary. */
  lemma PadCoversFind(e: real, t: Tree, next: nat, p: nat, key: nat)
    requires WellFormed(t, next) && IsEuler(e) && IsPadVal(e, next, p)
    ensures SearchReads(t, key) <= p
  {
    hide Exp, Fib, IsPadVal, IsEuler;
    PathIsShort(t, key);
    SizeAtLeastFib(t);
    var h := Height(t);
    if h >= 1 {
      FibOutgrowsEarly(h);
      PadBeyond(e, next, p, h - 1);
    }
  }

  lemma RootBelowIds(h: nat, next: nat)
    requires next >= 6 && next >= Fib(h + 2)
    ensures Exp(1.261, h + 5) < (next + 1) as real
  {
    hide Exp, Fib;
    RootPowers();
    FibValues();
    if h <= 3 {
      ExpExponent(1.261, h + 5, 8);
    } else if h >= 5 {
      FibOutgrows(h);
    }
  }

  /** The pad value covers every insertion from the sixth on, whatever the tree and the key. */
  lemma PadCoversInsert(e: real, t: Tree, next: nat, p: nat, key: nat)
    requires WellFormed(t, next) && next >= 6 && IsEuler(e) && IsPadVal(e, next + 1, p)
    ensures SearchReads(t, key) + MendReads(Foreseen(t, key)) <= p
  {
    hide Exp, Fib, IsPadVal, IsEuler, Foreseen, WellFormed, Height, Size, Balanced;
    WellFormedParts(t, next);
    PathIsShort(t, key);
    SizeAtLeastFib(t);
    RootBelowIds(Height(t), next);
    PadBeyond(e, next + 1, p, Height(t) + 5);
  }

  function Single(id: nat, key: nat, value: string): Tree {
    Node(id, key, value, Leaf, Leaf)
  }

  lemma InsertSingle(id: nat, key: nat, value: string)
    ensures Insert(Leaf, id, key, value) == Single(id, key, value)
  {
  }

  lemma OneNode(id: nat, key: nat, value: string, other: nat)
    requires key < other
    ensures var t := Single(id, key, value); Height(t) == 1 && SearchReads(t, other) == 1 && Grows(t, other)
  {
  }

  /** One level of an insertion whose subtree stays level with its sibling. */
  lemma InsertEven(t: Tree, below: Tree, id: nat, key: nat, value: string)
    requires t.Node? && key != t.key
    requires below == Insert(if key < t.key then t.left else t.right, id, key, value)
    requires Height(below) <= Height(if key < t.key then t.right else t.left) + 1
    requires Height(if key < t.key then t.right else t.left) <= Height(below) + 1
    ensures Insert(t, id, key, value) == if key < t.key then t.(left := below) else t.(right := below)
  {
  }

  lemma RunInsert(t: Tree, next: nat, key: nat, value: string, ops: seq<DictOp>)
    requires ops != [] && ops[0] == InsertOp(key, value)
    ensures Run(t, next, ops) == Run(Insert(t, next, key, value), next + 1, ops[1..])
  {
  }

  /** The keys 3, 1, 2: the double rotation takes the third insertion to 8 counted reads and 7 writes; the pad is 6. */
  lemma ThirdInsertExceedsPad(e: real, p: nat, a: string, b: string, c: string)
    requires IsEuler(e) && IsPadVal(e, 4, p)
    ensures var t := Run(Leaf, 1, [InsertOp(3, a), InsertOp(1, b)]).0;
      InsertReads(t, 3, 2, c) == 8 > p && InsertWrites(t, 3, 2, c) == 7 > p
  {
    hide Exp, IsPadVal, IsEuler, Insert, InsertReads, InsertWrites;
    PadOfFour(e, p);
    var t1 := Single(1, 3, a);
    var t := t1.(left := Single(2, 1, b));
    var ops := [InsertOp(3, a), InsertOp(1, b)];
    InsertSingle(1, 3, a);
    InsertSingle(2, 1, b);
    InsertEven(t1, Single(2, 1, b), 2, 1, b);
    RunInsert(Leaf, 1, 3, a, ops);
    RunInsert(t1, 2, 1, b, ops[1..]);
    assert Run(t, 3, ops[1..][1..]).0 == t;
    CostIsForeseen(t, 3, 2, c);
    OneNode(2, 1, b, 2);
  }

  /** From the sixth insertion on is sharp: the keys 2, 1, 6, 4, 5 need 9 counted reads at the fifth; the pad is 8. */
  lemma FifthInsertExceedsPad(e: real, p: nat, v: string, c: string)
    requires IsEuler(e) && IsPadVal(e, 6, p)
    ensures var t := Run(Leaf, 1, [InsertOp(2, v), InsertOp(1, v), InsertOp(6, v), InsertOp(4, v)]).0;
      WellFormed(t, 5) && InsertReads(t, 5, 5, c) == 9 > p
  {
    hide Exp, IsPadVal, IsEuler, Insert, InsertReads, InsertWrites, WellFormed;
    PadOfSix(e, p);
    var ops := [InsertOp(2, v), InsertOp(1, v), InsertOp(6, v), InsertOp(4, v)];
    var t := FourKeys(v, ops);
    EmptyWellFormed();
    DictionaryRun(Leaf, 1, ops);
    CostIsForeseen(t, 5, 5, c);
    var six := Node(3, 6, v, Single(4, 4, v), Leaf);
    OneNode(2, 1, v, 5);
    OneNode(4, 4, v, 5);
    assert Height(six) == 2 && SearchReads(six, 5) == 2;
    assert !Grows(six, 5) && Foreseen(six, 5) == LR;
    assert t.left == Single(2, 1, v) && t.right == six;
  }

  lemma FourKeys(v: string, ops: seq<DictOp>) returns (t: Tree)
    requires ops == [InsertOp(2, v), InsertOp(1, v), InsertOp(6, v), InsertOp(4, v)]
    ensures t == Node(1, 2, v, Single(2, 1, v), Node(3, 6, v, Single(4, 4, v), Leaf))
    ensures Run(Leaf, 1, ops).0 == t && Run(Leaf, 1, ops).1 == 5
  {
    hide Insert;
    var t1 := Single(1, 2, v);
    var t2 := t1.(left := Single(2, 1, v));
    var t3 := t2.(right := Single(3, 6, v));
    t := t3.(right := Node(3, 6, v, Single(4, 4, v), Leaf));
    InsertSingle(1, 2, v);
    InsertSingle(2, 1, v);
    InsertSingle(3, 6, v);
    InsertSingle(4, 4, v);
    InsertEven(t1, Single(2, 1, v), 2, 1, v);
    InsertEven(t2, Single(3, 6, v), 3, 6, v);
    InsertEven(t3.right, Single(4, 4, v), 4, 4, v);
    InsertEven(t3, t.right, 4, 4, v);
    RunInsert(Leaf, 1, 2, v, ops);
    RunInsert(t1, 2, 1, v, ops[1..]);
    RunInsert(t2, 3, 6, v, ops[1..][1..]);
    RunInsert(t3, 4, 4, v, ops[1..][1..][1..]);
    assert Run(t, 5, ops[1..][1..][1..][1..]) == (t, 5, []);
  }
}
