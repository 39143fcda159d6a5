/** Permutations of a vector: scattering, in-place swapping and the Fisher-Yates shuffle. */
module Permutations {
  import opened OramDefs
  import opened Geometry

  /** p is a bijection on [0, |p|). */
  ghost predicate IsPerm(p: seq<nat>) {
    && (forall i :: 0 <= i < |p| ==> p[i] < |p|)
    && (forall i, j :: 0 <= i < j < |p| ==> p[i] != p[j])
  }

  lemma PermWithin(p: seq<nat>)
    requires IsPerm(p)
    ensures forall i :: 0 <= i < |p| ==> p[i] < |p|
  {
  }

  ghost predicate Distinct<T(!new)>(s: seq<T>) {
    forall i, j :: 0 <= i < j < |s| ==> s[i] != s[j]
  }

  // ----- PermuteBy --------------------------------------------------------------------------------

  /** The element at index i of `arr` sits at index p[i] of `moved`. */
  ghost predicate IsPermuted<T(!new)>(p: seq<nat>, arr: seq<T>, moved: seq<T>) {
    |p| == |arr| == |moved| && IsPerm(p) && forall i :: 0 <= i < |p| ==> moved[p[i]] == arr[i]
  }

  function Identity(n: nat): (p: seq<nat>)
    ensures |p| == n && forall i :: 0 <= i < n ==> p[i] == i
  {
    seq(n, i => i)
  }

  /** First p, then q. */
  function Compose(q: seq<nat>, p: seq<nat>): (r: seq<nat>)
    requires forall i :: 0 <= i < |p| ==> p[i] < |q|
    ensures |r| == |p| && forall i :: 0 <= i < |p| ==> r[i] == q[p[i]]
  {
    seq(|p|, i requires 0 <= i < |p| => q[p[i]])
  }

  /** The last of the first n indices that `perm` sends to k. */
  function LastTo(perm: seq<nat>, n: nat, k: nat): (r: Option<nat>)
    requires n <= |perm|
    ensures r.Some? ==> r.value < n && perm[r.value] == k && forall i :: r.value < i < n ==> perm[i] != k
    ensures r.None? ==> forall i :: 0 <= i < n ==> perm[i] != k
  {
    if n == 0 then None else if perm[n - 1] == k then Some(n - 1) else LastTo(perm, n - 1, k)
  }

  /** Each element is written where `perm` sends it; later writes win, and what is not written stays. */
  ghost predicate IsScattered<T(!new)>(perm: seq<nat>, arr: seq<T>, n: nat, moved: seq<T>)
    requires n <= |perm| && n <= |arr|
  {
    |moved| == |arr| && forall k :: 0 <= k < |arr| ==>
      moved[k] == match LastTo(perm, n, k) case None => arr[k] case Some(i) => arr[i]
  }

  method PermuteBy<T(!new)>(perm: seq<nat>, arr: seq<T>) returns (moved: seq<T>)
    requires |perm| >= |arr| && forall i :: 0 <= i < |arr| ==> perm[i] < |arr|
    ensures |moved| == |arr| && IsScattered(perm, arr, |arr|, moved)
    ensures |perm| == |arr| && IsPerm(perm) ==> IsPermuted(perm, arr, moved)
  {
    hide IsScattered, IsPermuted, IsPerm;
    var clone := arr;
    ScatterNone(perm, arr);
    for i := 0 to |arr|
      invariant |clone| == |arr| && IsScattered(perm, arr, i, clone)
    {
      ScatterOne(perm, arr, i, clone);
      clone := clone[perm[i] := arr[i]];
    }
    if |perm| == |arr| && IsPerm(perm) {
      ScatteredIsPermuted(perm, arr, clone);
    }
    return clone;
  }

  lemma ScatterNone<T(!new)>(perm: seq<nat>, arr: seq<T>)
    ensures IsScattered(perm, arr, 0, arr)
  {
  }

  lemma ScatterOne<T(!new)>(perm: seq<nat>, arr: seq<T>, i: nat, moved: seq<T>)
    requires i < |arr| <= |perm| && perm[i] < |arr| && IsScattered(perm, arr, i, moved)
    ensures |moved| == |arr| && IsScattered(perm, arr, i + 1, moved[perm[i] := arr[i]])
  {
    forall k | 0 <= k < |arr|
      ensures LastTo(perm, i + 1, k) == if perm[i] == k then Some(i) else LastTo(perm, i, k)
    {
    }
    hide LastTo;
  }

  lemma ScatteredIsPermuted<T(!new)>(perm: seq<nat>, arr: seq<T>, moved: seq<T>)
    requires |perm| == |arr| && IsPerm(perm) && IsScattered(perm, arr, |arr|, moved)
    ensures IsPermuted(perm, arr, moved)
  {
    hide LastTo;
    forall i | 0 <= i < |perm|
      ensures moved[perm[i]] == arr[i]
    {
      assert LastTo(perm, |arr|, perm[i]) == Some(i);
    }
  }

  ghost function Values(p: seq<nat>): set<nat> {
    set i | 0 <= i < |p| :: p[i]
  }

  lemma {:induction false} ValuesCount(p: seq<nat>)
    requires Distinct(p)
    ensures |Values(p)| == |p|
  {
    if p != [] {
      var n := |p| - 1;
      ValuesCount(p[..n]);
      assert forall i :: 0 <= i < n ==> p[..n][i] == p[i] && p[i] != p[n];
      assert Values(p) == Values(p[..n]) + {p[n]};
    }
  }

  lemma SubsetOfSameSize(a: set<nat>, b: set<nat>)
    requires a <= b && |a| == |b|
    ensures a == b
  {
    assert b == a + (b - a);
    assert |b| == |a| + |b - a|;
  }

  /** Pigeonhole: a permutation reaches every index. */
  lemma PermIsOnto(p: seq<nat>, k: nat) returns (i: nat)
    requires IsPerm(p) && k < |p|
    ensures i < |p| && p[i] == k
  {
    ValuesCount(p);
    NaturalsCount(|p|);
    SubsetOfSameSize(Values(p), Naturals(|p|));
    assert k in Naturals(|p|);
    i :| 0 <= i < |p| && p[i] == k;
  }

  /** A permutation determines its result. */
  lemma PermutedIsUnique<T(!new)>(p: seq<nat>, arr: seq<T>, a: seq<T>, b: seq<T>)
    requires IsPermuted(p, arr, a) && IsPermuted(p, arr, b)
    ensures a == b
  {
    forall k | 0 <= k < |a|
      ensures a[k] == b[k]
    {
      var i := PermIsOnto(p, k);
    }
  }

  lemma ComposeIsPerm(q: seq<nat>, p: seq<nat>)
    requires |q| == |p| && IsPerm(p) && IsPerm(q)
    ensures IsPerm(Compose(q, p))
  {
    forall i, j | 0 <= i < j < |p|
      ensures q[p[i]] != q[p[j]]
    {
      assert p[i] != p[j];
    }
  }

  /** Permuting by p and then by q is permuting once by their composition, and nothing else is. */
  lemma PermuteTwice<T(!new)>(p: seq<nat>, q: seq<nat>, arr: seq<T>, once: seq<T>, twice: seq<T>)
    requires IsPermuted(p, arr, once) && IsPermuted(q, once, twice)
    ensures forall direct :: IsPermuted(Compose(q, p), arr, direct) <==> direct == twice
  {
    ComposeIsPerm(q, p);
    assert IsPermuted(Compose(q, p), arr, twice);
    forall direct | IsPermuted(Compose(q, p), arr, direct)
      ensures direct == twice
    {
      PermutedIsUnique(Compose(q, p), arr, twice, direct);
    }
  }

  // ----- swapping ---------------------------------------------------------------------------------

  function Swap<T>(s: seq<T>, i: nat, j: nat): (r: seq<T>)
    requires i < |s| && j < |s|
    ensures |r| == |s|
  {
    s[i := s[j]][j := s[i]]
  }

  lemma SwapKeeps<T(!new)>(s: seq<T>, i: nat, j: nat)
    requires i < |s| && j < |s|
    ensures multiset(Swap(s, i, j)) == multiset(s)
    ensures Distinct(s) ==> Distinct(Swap(s, i, j))
    ensures forall k :: 0 <= k < |s| ==> Swap(s, i, j)[k] == s[if k == j then i else if k == i then j else k]
  {
  }

  lemma SwapKeepsPerm(s: seq<nat>, i: nat, j: nat)
    requires i < |s| && j < |s|
    ensures IsPerm(s) ==> IsPerm(Swap(s, i, j))
  {
  }

  predicate InRange(buf: seq<nat>, n: nat) {
    forall i :: 0 <= i < |buf| ==> buf[i] < n
  }

  /** Swap position i with position buf[i], for the first n positions in turn. */
  function SwapAll<T>(s: seq<T>, buf: seq<nat>, n: nat): (r: seq<T>)
    requires |buf| == |s| && InRange(buf, |s|) && n <= |s|
    ensures |r| == |s|
  {
    if n == 0 then s else Swap(SwapAll(s, buf, n - 1), n - 1, buf[n - 1])
  }

  /** The swap phase of `RandomPermutation`; `permBuf` is what the cipher produced. */
  method SwapPhase(a: array<nat>, permBuf: seq<nat>)
    requires |permBuf| == a.Length && InRange(permBuf, a.Length)
    modifies a
    ensures a[..] == SwapAll(old(a[..]), permBuf, a.Length)
  {
    ghost var s := a[..];
    for i := 0 to a.Length
      invariant a[..] == SwapAll(s, permBuf, i)
    {
      a[i], a[permBuf[i]] := a[permBuf[i]], a[i];
    }
  }

  /** `RandomPermutation` once its cipher has filled `permBuf`. */
  method RandomPermutation(a: array<nat>, permBuf: seq<nat>) returns (status: StatusCode)
    requires |permBuf| == a.Length && InRange(permBuf, a.Length)
    modifies a
    ensures status == if a.Length == 0 then InvalidArgument else OK
    ensures a[..] == SwapAll(old(a[..]), permBuf, a.Length)
  {
    if a.Length == 0 {
      return InvalidArgument;
    }
    SwapPhase(a, permBuf);
    return OK;
  }

  /** Whatever the cipher produced, the swaps yield a permutation of their input. */
  lemma {:induction false} SwapPhaseIsPermutation(s: seq<nat>, buf: seq<nat>, n: nat)
    requires |buf| == |s| && InRange(buf, |s|) && n <= |s|
    ensures multiset(SwapAll(s, buf, n)) == multiset(s)
    ensures IsPerm(s) ==> IsPerm(SwapAll(s, buf, n))
  {
    hide IsPerm, Swap;
    if n > 0 {
      SwapPhaseIsPermutation(s, buf, n - 1);
      SwapKeeps(SwapAll(s, buf, n - 1), n - 1, buf[n - 1]);
      SwapKeepsPerm(SwapAll(s, buf, n - 1), n - 1, buf[n - 1]);
    }
  }

  /** Where the element that the first n swaps leave at index j came from. */
  function SwapOrigin(buf: seq<nat>, n: nat, j: nat): nat
    requires n <= |buf|
  {
    if n == 0 then j
    else SwapOrigin(buf, n - 1, if j == buf[n - 1] then n - 1 else if j == n - 1 then buf[n - 1] else j)
  }

  /** Element by element, what the swaps do: index j is traced back through buf[n-1], .., buf[0]. */
  lemma {:induction false} SwapPhaseMoves<T(!new)>(s: seq<T>, buf: seq<nat>, n: nat)
    requires |buf| == |s| && InRange(buf, |s|) && n <= |s|
    ensures forall j :: 0 <= j < |s| ==>
      SwapOrigin(buf, n, j) < |s| && SwapAll(s, buf, n)[j] == s[SwapOrigin(buf, n, j)]
  {
    hide Swap;
    if n > 0 {
      SwapPhaseMoves(s, buf, n - 1);
      SwapKeeps(SwapAll(s, buf, n - 1), n - 1, buf[n - 1]);
    }
  }

  /** Buffers whose entries never point back. */
  predicate Forward(buf: seq<nat>) {
    forall i :: 0 <= i < |buf| ==> i <= buf[i] < |buf|
  }

  lemma ForwardInRange(buf: seq<nat>)
    requires Forward(buf)
    ensures InRange(buf, |buf|)
  {
  }

  lemma SamePrefix(b: seq<nat>, c: seq<nat>, n: nat)
    requires n < |b| == |c| && b[..n] == c[..n]
    ensures forall i :: 0 <= i < n ==> b[i] == c[i]
    ensures b[n] == c[n] ==> b[..n + 1] == c[..n + 1]
  {
    assert forall i :: 0 <= i < n ==> b[i] == b[..n][i] == c[..n][i] == c[i];
  }

  /** A forward buffer settles one position after the other. */
  lemma {:induction false} ForwardSettles<T(!new)>(s: seq<T>, buf: seq<nat>, k: nat, n: nat)
    requires |buf| == |s| && Forward(buf) && k < n <= |s|
    ensures SwapAll(s, buf, n)[k] == SwapAll(s, buf, k)[buf[k]]
  {
    hide Swap;
    SwapKeeps(SwapAll(s, buf, n - 1), n - 1, buf[n - 1]);
    if k < n - 1 {
      ForwardSettles(s, buf, k, n - 1);
    }
  }

  lemma {:induction false} SwapAllIgnores<T(!new)>(s: seq<T>, b: seq<nat>, c: seq<nat>, n: nat)
    requires |b| == |c| == |s| && InRange(b, |s|) && InRange(c, |s|) && n <= |s|
    requires forall i :: 0 <= i < n ==> b[i] == c[i]
    ensures SwapAll(s, b, n) == SwapAll(s, c, n)
  {
    if n > 0 {
      SwapAllIgnores(s, b, c, n - 1);
    }
  }

  lemma {:induction false} SwapsStayDistinct<T(!new)>(s: seq<T>, buf: seq<nat>, n: nat)
    requires |buf| == |s| && InRange(buf, |s|) && n <= |s| && Distinct(s)
    ensures Distinct(SwapAll(s, buf, n))
  {
    hide Swap, Distinct;
    if n > 0 {
      SwapsStayDistinct(s, buf, n - 1);
      SwapKeeps(SwapAll(s, buf, n - 1), n - 1, buf[n - 1]);
    }
  }

  /** Different forward buffers, different results. */
  lemma {:induction false} SwapPhaseIsInjective<T(!new)>(s: seq<T>, b: seq<nat>, c: seq<nat>, n: nat)
    requires |b| == |c| == |s| && Forward(b) && Forward(c) && n <= |s| && Distinct(s)
    requires SwapAll(s, b, |s|) == SwapAll(s, c, |s|)
    ensures b[..n] == c[..n]
  {
    hide Distinct, Forward, SwapAll;
    if n > 0 {
      SwapPhaseIsInjective(s, b, c, n - 1);
      ForwardInRange(b);
      ForwardInRange(c);
      SamePrefix(b, c, n - 1);
      SwapAllIgnores(s, b, c, n - 1);
      ForwardSettles(s, b, n - 1, |s|);
      ForwardSettles(s, c, n - 1, |s|);
      SwapsStayDistinct(s, b, n - 1);
      SameIndex(SwapAll(s, b, n - 1), b[n - 1], c[n - 1]);
    }
  }

  /** Every permutation is the result of a forward buffer: here, of one that settles its first n positions. */
  lemma {:induction false} SwapPhaseIsOnto(p: seq<nat>, n: nat) returns (buf: seq<nat>)
    requires IsPerm(p) && n <= |p|
    ensures |buf| == |p| && Forward(buf)
    ensures SwapAll(Identity(|p|), buf, n)[..n] == p[..n]
  {
    if n == 0 {
      buf := Identity(|p|);
    } else {
      hide IsPerm, Swap;
      var b := SwapPhaseIsOnto(p, n - 1);
      var st := SwapAll(Identity(|p|), b, n - 1);
      IdentityIsPerm(|p|);
      SwapPhaseIsPermutation(Identity(|p|), b, n - 1);
      PermWithin(p);
      var j := PermIsOnto(st, p[n - 1]);
      NotYetSettled(p, st, n - 1, j);
      buf := b[n - 1 := j];
      SwapAllIgnores(Identity(|p|), b, buf, n - 1);
      SettleOne(p, st, n - 1, j);
    }
  }

  lemma SettleOne(p: seq<nat>, st: seq<nat>, n: nat, j: nat)
    requires n < |p| == |st| && n <= j < |st| && st[j] == p[n] && st[..n] == p[..n]
    ensures Swap(st, n, j)[..n + 1] == p[..n + 1]
  {
    var t := Swap(st, n, j);
    SwapKeeps(st, n, j);
    forall k | 0 <= k < n + 1
      ensures t[k] == p[k]
    {
      if k < n {
        assert st[k] == st[..n][k] == p[..n][k];
      }
    }
  }

  lemma IdentityIsPerm(n: nat)
    ensures IsPerm(Identity(n))
  {
  }

  lemma NotYetSettled(p: seq<nat>, st: seq<nat>, n: nat, j: nat)
    requires IsPerm(p) && n < |p| == |st| && j < |st| && st[j] == p[n] && st[..n] == p[..n]
    ensures n <= j
  {
    assert forall k :: 0 <= k < n ==> st[k] == st[..n][k] == p[..n][k] == p[k];
  }

  /**
   Forward buffers and permutations correspond one to one, so every permutation of [0, n) is a possible outcome.
   */
  lemma SwapPhaseIsBijection(n: nat)
    ensures forall b | |b| == n && Forward(b) :: IsPerm(SwapAll(Identity(n), b, n))
    ensures forall b, c | |b| == |c| == n && Forward(b) && Forward(c) ::
      SwapAll(Identity(n), b, n) == SwapAll(Identity(n), c, n) ==> b == c
    ensures forall p | |p| == n && IsPerm(p) ::
      exists b: seq<nat> :: |b| == n && Forward(b) && SwapAll(Identity(n), b, n) == p
  {
    hide IsPerm, SwapAll;
    IdentityIsPerm(n);
    forall b | |b| == n && Forward(b)
      ensures IsPerm(SwapAll(Identity(n), b, n))
    {
      SwapPhaseIsPermutation(Identity(n), b, n);
    }
    forall b, c | |b| == |c| == n && Forward(b) && Forward(c)
                  && SwapAll(Identity(n), b, n) == SwapAll(Identity(n), c, n)
      ensures b == c
    {
      SwapPhaseIsInjective(Identity(n), b, c, n);
      assert b[..n] == b && c[..n] == c;
    }
    forall p | |p| == n && IsPerm(p)
      ensures exists b: seq<nat> :: |b| == n && Forward(b) && SwapAll(Identity(n), b, n) == p
    {
      var b := SwapPhaseIsOnto(p, n);
      assert SwapAll(Identity(n), b, n)[..n] == SwapAll(Identity(n), b, n) && p[..n] == p;
    }
  }

  // ----- Fisher-Yates -----------------------------------------------------------------------------

  /** A choice vector: index i is drawn from 0..i. */
  predicate Choices(c: seq<nat>) {
    forall i :: 0 <= i < |c| ==> c[i] <= i
  }

  /** The shuffle of the first n positions: n-1 is swapped first, 1 last. */
  function Shuffled<T>(s: seq<T>, c: seq<nat>, n: nat): (r: seq<T>)
    requires Choices(c) && |c| == |s| && n <= |s|
    ensures |r| == |s|
    decreases n
  {
    if n <= 1 then s else Shuffled(Swap(s, n - 1, c[n - 1]), c, n - 1)
  }

  method RandomShuffle<T>(a: array<T>, choices: seq<nat>) returns (status: StatusCode)
    requires |choices| == a.Length && Choices(choices)
    modifies a
    ensures status == if a.Length == 0 then InvalidArgument else OK
    ensures a[..] == Shuffled(old(a[..]), choices, a.Length)
  {
    if a.Length == 0 {
      return InvalidArgument;
    }
    ghost var s := a[..];
    for i := a.Length downto 1
      invariant Shuffled(a[..], choices, i) == Shuffled(s, choices, a.Length)
    {
      var j := choices[i];
      ghost var before := a[..];
      a[i], a[j] := a[j], a[i];
      assert a[..] == Swap(before, i, j);
    }
    return OK;
  }

  lemma {:induction false} ShuffleKeeps<T(!new)>(s: seq<T>, c: seq<nat>, n: nat)
    requires Choices(c) && |c| == |s| && n <= |s|
    ensures multiset(Shuffled(s, c, n)) == multiset(s)
    ensures forall k :: n <= k < |s| ==> Shuffled(s, c, n)[k] == s[k]
    decreases n
  {
    if n > 1 {
      SwapKeeps(s, n - 1, c[n - 1]);
      ShuffleKeeps(Swap(s, n - 1, c[n - 1]), c, n - 1);
    }
  }

  /** Where the element that the shuffle of the first n positions leaves at index j came from. */
  function ShuffleOrigin(c: seq<nat>, n: nat, j: nat): nat
    requires n <= |c|
  {
    if n <= 1 then j else
    var k := ShuffleOrigin(c, n - 1, j);
    if k == c[n - 1] then n - 1 else if k == n - 1 then c[n - 1] else k
  }

  /** Element by element, what the shuffle does; the last position is drawn first and stays. */
  lemma {:induction false} ShuffleMoves<T(!new)>(s: seq<T>, c: seq<nat>, n: nat)
    requires Choices(c) && |c| == |s| && n <= |s|
    ensures forall j :: 0 <= j < |s| ==>
      ShuffleOrigin(c, n, j) < |s| && Shuffled(s, c, n)[j] == s[ShuffleOrigin(c, n, j)]
    ensures n > 0 ==> Shuffled(s, c, n)[n - 1] == s[c[n - 1]]
    decreases n
  {
    hide Swap;
    if n > 1 {
      SwapKeeps(s, n - 1, c[n - 1]);
      ShuffleKeeps(Swap(s, n - 1, c[n - 1]), c, n - 1);
      ShuffleMoves(Swap(s, n - 1, c[n - 1]), c, n - 1);
    }
  }

  lemma SwapBrings<T(!new)>(s: seq<T>, i: nat, j: nat)
    requires i < |s| && j < |s|
    ensures Swap(s, i, j)[i] == s[j]
    ensures Distinct(s) ==> Distinct(Swap(s, i, j))
  {
  }

  lemma SameIndex<T(!new)>(s: seq<T>, i: nat, j: nat)
    requires Distinct(s) && i < |s| && j < |s| && s[i] == s[j]
    ensures i == j
  {
  }

  /** Different choices, different results. */
  lemma {:induction false} ShuffleIsInjective<T(!new)>(s: seq<T>, c: seq<nat>, d: seq<nat>, n: nat)
    requires Choices(c) && Choices(d) && |c| == |d| == |s| && n <= |s| && Distinct(s)
    requires Shuffled(s, c, n) == Shuffled(s, d, n)
    ensures c[..n] == d[..n]
    decreases n
  {
    hide Swap, Distinct;
    if n > 1 {
      var s', s'' := Swap(s, n - 1, c[n - 1]), Swap(s, n - 1, d[n - 1]);
      ShuffleKeeps(s', c, n - 1);
      ShuffleKeeps(s'', d, n - 1);
      assert s'[n - 1] == Shuffled(s, c, n)[n - 1] == Shuffled(s, d, n)[n - 1] == s''[n - 1];
      SwapBrings(s, n - 1, c[n - 1]);
      SwapBrings(s, n - 1, d[n - 1]);
      SameIndex(s, c[n - 1], d[n - 1]);
      ShuffleIsInjective(s', c, d, n - 1);
      assert c[..n] == c[..n - 1] + [c[n - 1]] && d[..n] == d[..n - 1] + [d[n - 1]];
    }
  }

  /** Every rearrangement is the result of some choices. */
  lemma {:induction false} ShuffleIsOnto<T(!new)>(s: seq<T>, t: seq<T>, n: nat) returns (c: seq<nat>)
    requires n <= |s| == |t| && Distinct(s) && multiset(s) == multiset(t)
    requires forall k :: n <= k < |s| ==> s[k] == t[k]
    ensures |c| == |s| && Choices(c) && Shuffled(s, c, n) == t
    decreases n
  {
    hide Distinct, Swap;
    if n <= 1 {
      c := seq(|s|, _ => 0);
      SameBeyond(s, t, n);
    } else {
      var j := Origin(s, t, n);
      var s' := Swap(s, n - 1, j);
      SwapKeeps(s, n - 1, j);
      var c' := ShuffleIsOnto(s', t, n - 1);
      c := c'[n - 1 := j];
      ShuffleIgnores(s', c', c, n - 1);
    }
  }

  lemma Cancel<T>(a: multiset<T>, b: multiset<T>, r: multiset<T>)
    requires a + r == b + r
    ensures a == b
  {
    assert a == (a + r) - r && b == (b + r) - r;
  }

  /** The element that must end up at n-1 lies among the first n. */
  lemma Origin<T(!new)>(s: seq<T>, t: seq<T>, n: nat) returns (j: nat)
    requires 0 < n <= |s| == |t| && multiset(s) == multiset(t)
    requires forall k :: n <= k < |s| ==> s[k] == t[k]
    ensures j < n && s[j] == t[n - 1]
  {
    assert s == s[..n] + s[n..] && t == t[..n] + t[n..] && s[n..] == t[n..];
    assert multiset(s) == multiset(s[..n]) + multiset(s[n..]) && multiset(t) == multiset(t[..n]) + multiset(t[n..]);
    Cancel(multiset(s[..n]), multiset(t[..n]), multiset(s[n..]));
    assert t[..n][n - 1] in multiset(t[..n]);
    j :| 0 <= j < n && s[..n][j] == t[n - 1];
  }

  lemma SameBeyond<T(!new)>(s: seq<T>, t: seq<T>, n: nat)
    requires n <= 1 && n <= |s| == |t| && multiset(s) == multiset(t)
    requires forall k :: n <= k < |s| ==> s[k] == t[k]
    ensures s == t
  {
    if n == 1 {
      var j := Origin(s, t, 1);
    }
  }

  lemma {:induction false} ShuffleIgnores<T(!new)>(s: seq<T>, c: seq<nat>, d: seq<nat>, n: nat)
    requires Choices(c) && Choices(d) && |c| == |d| == |s| && n <= |s| && c[..n] == d[..n]
    ensures Shuffled(s, c, n) == Shuffled(s, d, n)
    decreases n
  {
    if n > 1 {
      assert c[n - 1] == c[..n][n - 1] == d[n - 1];
      assert c[..n - 1] == c[..n][..n - 1] == d[..n - 1];
      ShuffleIgnores(Swap(s, n - 1, c[n - 1]), c, d, n - 1);
    }
  }

  /** Choice vectors and rearrangements of a vector of distinct elements correspond one to one. */
  lemma ShuffleIsBijection<T(!new)>(s: seq<T>)
    requires Distinct(s)
    ensures forall c | |c| == |s| && Choices(c) :: multiset(Shuffled(s, c, |s|)) == multiset(s)
    ensures forall c, d | |c| == |d| == |s| && Choices(c) && Choices(d) ::
      Shuffled(s, c, |s|) == Shuffled(s, d, |s|) ==> c == d
    ensures forall t | |t| == |s| && multiset(t) == multiset(s) ::
      exists c: seq<nat> :: |c| == |s| && Choices(c) && Shuffled(s, c, |s|) == t
  {
    forall c | |c| == |s| && Choices(c)
      ensures multiset(Shuffled(s, c, |s|)) == multiset(s)
    {
      ShuffleKeeps(s, c, |s|);
    }
    forall c, d | |c| == |d| == |s| && Choices(c) && Choices(d) && Shuffled(s, c, |s|) == Shuffled(s, d, |s|)
      ensures c == d
    {
      ShuffleIsInjective(s, c, d, |s|);
      assert c == c[..|s|] && d == d[..|s|];
    }
    forall t | |t| == |s| && multiset(t) == multiset(s)
      ensures exists c: seq<nat> :: |c| == |s| && Choices(c) && Shuffled(s, c, |s|) == t
    {
      var c := ShuffleIsOnto(s, t, |s|);
    }
  }
}
