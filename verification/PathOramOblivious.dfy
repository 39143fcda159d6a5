/**
 Path ORAM is oblivious: what the server can tell apart, the sequence of leaves accessed, is equally likely to be any
 admissible one. An access consumes the leaf that the previous access to the same block drew, so each draw shows up
 at most once; counting draws then gives the distribution exactly.
 */
module PathOramOblivious {
  import opened OramDefs
  import opened Geometry
  import opened PathOramModel
  import opened PathOramPlacement
  import opened PathOramRefinement
  import opened PathOramTranscript

  /** The same requests, served with the given leaf draws. */
  function WithDraws(requests: seq<Request>, draws: seq<nat>): (r: seq<Request>)
    requires |draws| == |requests|
    ensures |r| == |requests|
  {
    if requests == [] then [] else
    [requests[0].(leaf := draws[0])] + WithDraws(requests[1..], draws[1..])
  }

  /** The leaf that `view` shows at the first request for the address, if there is one. */
  function FirstSight(requests: seq<Request>, view: seq<nat>, address: nat): Option<nat>
    requires |view| == |requests|
  {
    if requests == [] then None
    else if requests[0].address == address then Some(view[0])
    else FirstSight(requests[1..], view[1..], address)
  }

  predicate Agrees(c: Option<nat>, leaf: nat) {
    c.Some? ==> c.value == leaf
  }

  /** Blocks accessed for the first time show the leaf they had at the beginning. */
  ghost predicate StartsFrom(pos: PositionMap, requests: seq<Request>, view: seq<nat>)
    requires |view| == |requests|
  {
    forall a :: Agrees(FirstSight(requests, view, a), PosOf(pos, a))
  }

  /** What `view` says about each draw: the leaf shown by the next request for the same block, if there is one. */
  function Demands(requests: seq<Request>, view: seq<nat>): (r: seq<Option<nat>>)
    requires |view| == |requests|
    ensures |r| == |requests|
  {
    if requests == [] then [] else
    [FirstSight(requests[1..], view[1..], requests[0].address)] + Demands(requests[1..], view[1..])
  }

  predicate Meets(draws: seq<nat>, demands: seq<Option<nat>>) {
    |draws| == |demands| && forall i :: 0 <= i < |draws| ==> Agrees(demands[i], draws[i])
  }

  predicate LeavesBelow(s: seq<nat>, n: nat) {
    forall i :: 0 <= i < |s| ==> s[i] < n
  }

  // ----- positions along a run --------------------------------------------------------------------

  /** A successful access leaves its block mapped to the fresh draw, or not at all if it removed the block. */
  lemma ServePosition(s: State, r: Request)
    requires s.level == s.server.level && Serve(s, r).status == OK
    ensures Serve(s, r).state.pos
      == if r.op.OpWrite? || s.standalone then s.pos[r.address := r.leaf] else s.pos - {r.address}
  {
    hide AbsorbPath, PathBuckets, ReadLevels, Refill, FindBlock, PosOf, TotalLength;
    assert s.pos[r.address := r.leaf] - {r.address} == s.pos - {r.address};
  }

  /** A block that is gone is not accessed successfully any more. */
  lemma {:induction false} AbsentNeverSeen(m: Memory, standalone: bool, requests: seq<Request>, view: seq<nat>,
                                           address: nat)
    requires |view| == |requests| && address !in m && AllOK(FlatRun(m, standalone, requests).1)
    ensures FirstSight(requests, view, address) == None
    decreases |requests|
  {
    if requests != [] {
      FirstAnswer(m, standalone, requests);
      AbsentNeverSeen(ServeFlat(m, standalone, requests[0]).memory, standalone, requests[1..], view[1..], address);
    }
  }

  lemma FirstAnswer(m: Memory, standalone: bool, requests: seq<Request>)
    requires requests != [] && AllOK(FlatRun(m, standalone, requests).1)
    ensures ServeFlat(m, standalone, requests[0]).status == OK && requests[0].address in m
    ensures AllOK(FlatRun(ServeFlat(m, standalone, requests[0]).memory, standalone, requests[1..]).1)
  {
    var first := ServeFlat(m, standalone, requests[0]);
    var answers := FlatRun(m, standalone, requests).1;
    assert answers[0] == Answer(first.status, first.data);
    assert answers[1..] == FlatRun(first.memory, standalone, requests[1..]).1;
  }

  /**
   One request: the rest of the view starts from the new positions iff it starts from the old ones and the draw fits.
   */
  lemma StartAfter(pos: PositionMap, pos': PositionMap, requests: seq<Request>, view: seq<nat>, draw: nat)
    requires requests != [] && |view| == |requests|
    requires forall a :: a != requests[0].address ==> PosOf(pos', a) == PosOf(pos, a)
    requires Agrees(FirstSight(requests[1..], view[1..], requests[0].address), PosOf(pos', requests[0].address))
      <==> Agrees(FirstSight(requests[1..], view[1..], requests[0].address), draw)
    ensures view[0] == PosOf(pos, requests[0].address) && StartsFrom(pos', requests[1..], view[1..])
      <==> StartsFrom(pos, requests, view) && Agrees(Demands(requests, view)[0], draw)
  {
    hide PosOf, Agrees;
    var a0, rest, tail := requests[0].address, requests[1..], view[1..];
    assert FirstSight(requests, view, a0) == Some(view[0]);
    assert forall a :: a != a0 ==> FirstSight(requests, view, a) == FirstSight(rest, tail, a);
    if StartsFrom(pos', rest, tail) && view[0] == PosOf(pos, a0) {
      forall a
        ensures Agrees(FirstSight(requests, view, a), PosOf(pos, a))
      {
        if a == a0 {
          AgreesWithItself(view[0]);
        } else {
          assert Agrees(FirstSight(rest, tail, a), PosOf(pos', a));
        }
      }
    }
    if StartsFrom(pos, requests, view) && Agrees(Demands(requests, view)[0], draw) {
      assert Agrees(FirstSight(requests, view, a0), PosOf(pos, a0));
      AgreesMeans(view[0], PosOf(pos, a0));
      forall a
        ensures Agrees(FirstSight(rest, tail, a), PosOf(pos', a))
      {
        if a != a0 {
          assert Agrees(FirstSight(requests, view, a), PosOf(pos, a));
        }
      }
    }
  }

  lemma AgreesWithItself(v: nat)
    ensures Agrees(Some(v), v)
  {
  }

  lemma AgreesMeans(v: nat, leaf: nat)
    requires Agrees(Some(v), leaf)
    ensures v == leaf
  {
  }

  /** The draws that produce a view: those that the next access to the same block shows. */
  lemma {:induction false} ViewFromDraws(s: State, m: Memory, w: map<nat, Place>, requests: seq<Request>,
                                         draws: seq<nat>, view: seq<nat>)
    requires Invariant(s, m, w) && AllOK(FlatRun(m, s.standalone, requests).1)
    requires |draws| == |view| == |requests| && LeavesBelow(draws, Pow2(s.level))
    ensures Leaves(s, WithDraws(requests, draws)) == view
      <==> StartsFrom(s.pos, requests, view) && Meets(draws, Demands(requests, view))
    decreases |requests|
  {
    hide Invariant, Access, FlatAccess, PlacesAfter, PosOf, Agrees, StartsFrom;
    LevelsAgree(s, m, w);
    if requests == [] {
      EmptyStarts(s.pos, view);
    } else {
      var r, rest, tail := requests[0].(leaf := draws[0]), requests[1..], view[1..];
      var s', m' := Serve(s, r).state, ServeFlat(m, s.standalone, r).memory;
      assert ServeFlat(m, s.standalone, r) == ServeFlat(m, s.standalone, requests[0]);
      FirstAnswer(m, s.standalone, requests);
      AccessKeeps(s, m, w, r.op, r.address, r.leaf, r.data, r.pads);
      AccessKeepsShape(s, r.op, r.address, r.leaf, r.data, r.pads);
      var w' := PlacesAfter(s.(pos := s.pos[r.address := r.leaf]), s.pos, w, r.op, r.address, PosOf(s.pos, r.address),
                            r.data, r.pads);
      ViewFromDraws(s', m', w', rest, draws[1..], tail);
      ServedStart(s, m, requests, view, draws[0]);
      assert Leaves(s, WithDraws(requests, draws))
        == [PosOf(s.pos, r.address)] + Leaves(s', WithDraws(rest, draws[1..]));
      assert view == [view[0]] + tail;
      MeetsCons(draws, Demands(requests, view));
    }
  }

  lemma EmptyStarts(pos: PositionMap, view: seq<nat>)
    requires view == []
    ensures StartsFrom(pos, [], view)
  {
  }

  lemma MeetsCons(draws: seq<nat>, demands: seq<Option<nat>>)
    requires |draws| == |demands| > 0
    ensures Meets(draws, demands) <==> Agrees(demands[0], draws[0]) && Meets(draws[1..], demands[1..])
  {
    hide Agrees;
    if Meets(draws[1..], demands[1..]) {
      forall i | 1 <= i < |draws|
        ensures Agrees(demands[i], draws[i])
      {
        assert Agrees(demands[1..][i - 1], draws[1..][i - 1]);
      }
    }
  }

  lemma ServedStart(s: State, m: Memory, requests: seq<Request>, view: seq<nat>, draw: nat)
    requires s.level == s.server.level && |view| == |requests| && requests != []
    requires AllOK(FlatRun(m, s.standalone, requests).1)
    requires Serve(s, requests[0].(leaf := draw)).status == OK
    ensures var pos' := Serve(s, requests[0].(leaf := draw)).state.pos;
      view[0] == PosOf(s.pos, requests[0].address) && StartsFrom(pos', requests[1..], view[1..])
      <==> StartsFrom(s.pos, requests, view) && Agrees(Demands(requests, view)[0], draw)
  {
    hide Access, StartsFrom, AllOK;
    var r := requests[0].(leaf := draw);
    var pos' := Serve(s, r).state.pos;
    ServePosition(s, r);
    FirstAnswer(m, s.standalone, requests);
    if !(r.op.OpWrite? || s.standalone) {
      AbsentNeverSeen(ServeFlat(m, s.standalone, requests[0]).memory, s.standalone, requests[1..], view[1..],
                      r.address);
    }
    StartAfter(s.pos, pos', requests, view, draw);
  }

  // ----- counting ---------------------------------------------------------------------------------

  function Power(b: nat, e: nat): nat {
    if e == 0 then 1 else Times(b, Power(b, e - 1))
  }

  /** All vectors whose i-th entry comes from the i-th set. */
  ghost function Vectors(sets: seq<set<nat>>): set<seq<nat>> {
    if sets == [] then {[]} else Prefixed(sets[0], Vectors(sets[1..]))
  }

  ghost function Prefixed(xs: set<nat>, rests: set<seq<nat>>): set<seq<nat>> {
    set x, rest | x in xs && rest in rests :: [x] + rest
  }

  ghost predicate Fits(v: seq<nat>, sets: seq<set<nat>>) {
    |v| == |sets| && forall i :: 0 <= i < |v| ==> v[i] in sets[i]
  }

  lemma {:induction false} VectorsAre(sets: seq<set<nat>>, v: seq<nat>)
    ensures v in Vectors(sets) <==> Fits(v, sets)
    decreases |sets|
  {
    if sets != [] {
      if v != [] {
        VectorsAre(sets[1..], v[1..]);
        assert v == [v[0]] + v[1..];
        assert Fits(v, sets) <==> v[0] in sets[0] && Fits(v[1..], sets[1..]) by {
          assert forall i :: 1 <= i < |v| ==> v[i] == v[1..][i - 1] && (|v| == |sets| ==> sets[i] == sets[1..][i - 1]);
        }
      }
      if v in Vectors(sets) {
        var x, rest :| x in sets[0] && rest in Vectors(sets[1..]) && v == [x] + rest;
        assert rest == v[1..];
      }
    }
  }

  ghost function Product(sets: seq<set<nat>>): nat {
    if sets == [] then 1 else Times(|sets[0]|, Product(sets[1..]))
  }

  lemma {:induction false} VectorsCount(sets: seq<set<nat>>)
    ensures |Vectors(sets)| == Product(sets)
  {
    hide Prefixed, Times;
    if sets != [] {
      VectorsCount(sets[1..]);
      PrefixedCount(sets[0], Vectors(sets[1..]));
    }
  }

  lemma {:induction false} ProductConcat(a: seq<set<nat>>, b: seq<set<nat>>)
    ensures Product(a + b) == Times(Product(a), Product(b))
  {
    hide Times;
    if a == [] {
      assert a + b == b;
      OneTimes(Product(b));
    } else {
      assert (a + b)[1..] == a[1..] + b;
      ProductConcat(a[1..], b);
      TimesAssociates(|a[0]|, Product(a[1..]), Product(b));
    }
  }

  lemma TimesAssociates(x: nat, y: nat, z: nat)
    ensures Times(x, Times(y, z)) == Times(Times(x, y), z)
  {
  }

  /** The leaves below n that meet one demand. */
  ghost function Candidates(c: Option<nat>, n: nat): set<nat> {
    match c
    case None => Naturals(n)
    case Some(v) => {v}
  }

  ghost function CandidatesOf(demands: seq<Option<nat>>, n: nat): (r: seq<set<nat>>)
    ensures |r| == |demands| && forall i :: 0 <= i < |r| ==> r[i] == Candidates(demands[i], n)
  {
    seq(|demands|, i requires 0 <= i < |demands| => Candidates(demands[i], n))
  }

  /** All draw vectors that meet the demands. */
  ghost function Solutions(demands: seq<Option<nat>>, n: nat): set<seq<nat>> {
    Vectors(CandidatesOf(demands, n))
  }

  predicate DemandsBelow(demands: seq<Option<nat>>, n: nat) {
    forall i :: 0 <= i < |demands| && demands[i].Some? ==> demands[i].value < n
  }

  lemma SolutionsAre(demands: seq<Option<nat>>, n: nat, draws: seq<nat>)
    requires DemandsBelow(demands, n)
    ensures draws in Solutions(demands, n) <==> Meets(draws, demands) && LeavesBelow(draws, n)
  {
    hide Vectors;
    VectorsAre(CandidatesOf(demands, n), draws);
    if |draws| == |demands| {
      forall i | 0 <= i < |draws|
        ensures draws[i] in Candidates(demands[i], n) <==> Agrees(demands[i], draws[i]) && draws[i] < n
      {
      }
    }
  }

  lemma {:induction false} PrefixedCount(xs: set<nat>, rests: set<seq<nat>>)
    ensures |Prefixed(xs, rests)| == Times(|xs|, |rests|)
    decreases |xs|
  {
    hide Times, Prefixed, OnePrefixed;
    if xs == {} {
      assert Prefixed(xs, rests) == {} by { NothingPrefixed(rests); }
      TimesStep(0, |rests|);
    } else {
      var y :| y in xs;
      assert |xs - {y}| == |xs| - 1;
      PrefixedCount(xs - {y}, rests);
      OneCount(y, rests);
      PrefixedSplit(xs, y, rests);
      TimesStep(|xs| - 1, |rests|);
    }
  }

  lemma NothingPrefixed(rests: set<seq<nat>>)
    ensures Prefixed({}, rests) == {}
  {
  }

  lemma PrefixedSplit(xs: set<nat>, y: nat, rests: set<seq<nat>>)
    requires y in xs
    ensures Prefixed(xs, rests) == Prefixed(xs - {y}, rests) + OnePrefixed(y, rests)
    ensures Prefixed(xs - {y}, rests) !! OnePrefixed(y, rests)
  {
    forall v | v in Prefixed(xs - {y}, rests)
      ensures v !in OnePrefixed(y, rests)
    {
      assert v[0] != y;
    }
    forall v | v in Prefixed(xs, rests)
      ensures v in Prefixed(xs - {y}, rests) + OnePrefixed(y, rests)
    {
      var x, rest :| x in xs && rest in rests && v == [x] + rest;
      assert x == y || x in xs - {y};
    }
  }

  ghost function OnePrefixed(y: nat, rests: set<seq<nat>>): set<seq<nat>> {
    set rest | rest in rests :: [y] + rest
  }

  lemma {:induction false} OneCount(y: nat, rests: set<seq<nat>>)
    ensures |OnePrefixed(y, rests)| == |rests|
    decreases |rests|
  {
    if rests != {} {
      var r :| r in rests;
      OneCount(y, rests - {r});
      assert OnePrefixed(y, rests) == OnePrefixed(y, rests - {r}) + {[y] + r};
      assert forall q :: q in rests - {r} ==> ([y] + q)[1..] == q;
      assert ([y] + r)[1..] == r;
    }
  }

  function Unconstrained(demands: seq<Option<nat>>): (k: nat)
    ensures k <= |demands|
  {
    if demands == [] then 0 else (if demands[0].None? then 1 else 0) + Unconstrained(demands[1..])
  }

  lemma {:induction false} CandidatesProduct(demands: seq<Option<nat>>, n: nat)
    ensures Product(CandidatesOf(demands, n)) == Power(n, Unconstrained(demands))
  {
    if demands != [] {
      CandidatesProduct(demands[1..], n);
      assert CandidatesOf(demands, n)[1..] == CandidatesOf(demands[1..], n);
      NaturalsCount(n);
      OneTimes(Product(CandidatesOf(demands[1..], n)));
      assert demands[0].Some? ==> |Candidates(demands[0], n)| == 1;
    }
  }

  lemma SolutionsCount(demands: seq<Option<nat>>, n: nat)
    ensures |Solutions(demands, n)| == Power(n, Unconstrained(demands))
  {
    VectorsCount(CandidatesOf(demands, n));
    CandidatesProduct(demands, n);
  }

  lemma OneTimes(k: nat)
    ensures Times(1, k) == k
  {
  }

  ghost function Addresses(requests: seq<Request>): set<nat> {
    if requests == [] then {} else {requests[0].address} + Addresses(requests[1..])
  }

  lemma {:induction false} SeenIffRequested(requests: seq<Request>, view: seq<nat>, address: nat)
    requires |view| == |requests|
    ensures FirstSight(requests, view, address).Some? <==> address in Addresses(requests)
  {
    if requests != [] {
      SeenIffRequested(requests[1..], view[1..], address);
    }
  }

  /** The draws a view leaves open are one per block accessed: the draw of its last access. */
  lemma {:induction false} OpenDraws(requests: seq<Request>, view: seq<nat>)
    requires |view| == |requests|
    ensures Unconstrained(Demands(requests, view)) == |Addresses(requests)|
  {
    if requests != [] {
      var a, rest := requests[0].address, requests[1..];
      OpenDraws(rest, view[1..]);
      SeenIffRequested(rest, view[1..], a);
      assert Demands(requests, view)[1..] == Demands(rest, view[1..]);
      if a in Addresses(rest) {
        assert {a} + Addresses(rest) == Addresses(rest);
      }
    }
  }

  lemma {:induction false} SightBelow(requests: seq<Request>, view: seq<nat>, address: nat, n: nat)
    requires |view| == |requests| && LeavesBelow(view, n)
    ensures var c := FirstSight(requests, view, address); c.Some? ==> c.value < n
  {
    if requests != [] {
      SightBelow(requests[1..], view[1..], address, n);
    }
  }

  lemma {:induction false} ViewDemandsBelow(requests: seq<Request>, view: seq<nat>, n: nat)
    requires |view| == |requests| && LeavesBelow(view, n)
    ensures DemandsBelow(Demands(requests, view), n)
  {
    if requests != [] {
      SightBelow(requests[1..], view[1..], requests[0].address, n);
      ViewDemandsBelow(requests[1..], view[1..], n);
    }
  }

  // ----- the main result --------------------------------------------------------------------------

  /** All vectors of k leaf draws. */
  ghost function AllDraws(k: nat, n: nat): set<seq<nat>> {
    Solutions(seq(k, i => None), n)
  }

  lemma AllDrawsAre(k: nat, n: nat, draws: seq<nat>)
    ensures draws in AllDraws(k, n) <==> |draws| == k && LeavesBelow(draws, n)
  {
    SolutionsAre(seq(k, i => None), n, draws);
  }

  lemma {:induction false} AllUnconstrained(demands: seq<Option<nat>>)
    requires forall i :: 0 <= i < |demands| ==> demands[i] == None
    ensures Unconstrained(demands) == |demands|
  {
    if demands != [] {
      AllUnconstrained(demands[1..]);
    }
  }

  lemma AllDrawsCount(k: nat, n: nat)
    ensures |AllDraws(k, n)| == Power(n, k)
  {
    var none: seq<Option<nat>> := seq(k, i => None);
    SolutionsCount(none, n);
    AllUnconstrained(none);
  }

  /** The draws under which serving the requests shows the server exactly this sequence of leaves. */
  ghost function DrawsShowing(s: State, requests: seq<Request>, view: seq<nat>): set<seq<nat>>
    requires s.level == s.server.level
  {
    set draws | draws in AllDraws(|requests|, Pow2(s.level)) && |draws| == |requests|
      && Leaves(s, WithDraws(requests, draws)) == view
  }

  /**
   Of the Power(leaves, requests) equally likely draw vectors, every admissible view is shown by the same number, one
   factor per block accessed; every other view by none. Hence, given where the blocks were at the beginning, the
   server's view has the same distribution for any two request sequences touching the blocks in the same pattern, and
   the leaf of every repeated access is uniform and independent of all others.
   */
  lemma EveryViewEquallyLikely(s: State, m: Memory, w: map<nat, Place>, requests: seq<Request>, view: seq<nat>)
    requires Invariant(s, m, w) && AllOK(FlatRun(m, s.standalone, requests).1)
    requires |view| == |requests| && LeavesBelow(view, Pow2(s.level))
    ensures |DrawsShowing(s, requests, view)|
      == if StartsFrom(s.pos, requests, view) then Power(Pow2(s.level), |Addresses(requests)|) else 0
  {
    hide Invariant, StartsFrom, Leaves, AllDraws, Meets, LeavesBelow, DemandsBelow, Solutions, Power, Pow2, FlatRun;
    hide AllOK;
    LevelsAgree(s, m, w);
    var n, demands := Pow2(s.level), Demands(requests, view);
    ViewDemandsBelow(requests, view, n);
    forall draws: seq<nat>
      ensures draws in DrawsShowing(s, requests, view)
        <==> StartsFrom(s.pos, requests, view) && draws in Solutions(demands, n)
    {
      AllDrawsAre(|requests|, n, draws);
      SolutionsAre(demands, n, draws);
      MeetsLength(draws, demands);
      if |draws| == |requests| && LeavesBelow(draws, n) {
        ViewFromDraws(s, m, w, requests, draws, view);
      }
    }
    if StartsFrom(s.pos, requests, view) {
      assert DrawsShowing(s, requests, view) == Solutions(demands, n);
      SolutionsCount(demands, n);
      OpenDraws(requests, view);
    } else {
      assert DrawsShowing(s, requests, view) == {};
    }
  }

  lemma MeetsLength(draws: seq<nat>, demands: seq<Option<nat>>)
    ensures Meets(draws, demands) ==> |draws| == |demands|
  {
  }
}
