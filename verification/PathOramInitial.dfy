/**
 The view of the server from the initial fill on. The fill draws the leaf of a block among the leaves below the bucket
 it loads the block into, so first accesses are not uniform: they show where the block was loaded. Counting the initial
 draws together with those of the accesses gives the distribution of a view outright.
 */
module PathOramInitial {
  import opened OramDefs
  import opened Geometry
  import opened TreeStorage
  import opened PathOramModel
  import opened PathOramPlacement
  import opened PathOramRefinement
  import opened PathOramTranscript
  import opened PathOramFill
  import opened PathOramOblivious
  import Permutations
  import PathOramController

  // ----- where the fill puts a block, and which leaves that allows --------------------------------

  /** The bucket that holds a loaded block. */
  function HomeOf(s: State, w: map<nat, Place>, id: nat): (t: Tag)
    ensures t.0 <= s.level
  {
    if id in w && w[id].AtLevel? && w[id].l <= s.level then TagOn(s.level, w[id].l, PosOf(s.pos, id)) else (0, 0)
  }

  /** Every normal block in a bucket's share of the data has that bucket as its home, and a leaf below it. */
  lemma LoadedBelowItsBucket(s: State, m: Memory, w: map<nat, Place>, data: seq<Block>, t: Tag, b: Block)
    requires Invariant(s, m, w) && LaidOut(s.server, s.bucketSize, data, -1, 0)
    requires t in s.server.buckets && t.0 <= s.level && b.kind == Normal
    requires b in Share(data, s.bucketSize, FirstRank(s.level, t.0) + t.1)
    ensures b.id in m && HomeOf(s, w, b.id) == t && Offset(s.level, t.0, PosOf(s.pos, b.id)) == t.1
  {
    hide Invariant, LaidOut, Share, FirstRank, HomeOf, Offset;
    LevelsAgree(s, m, w);
    InItsBucket(s.server, s.bucketSize, data, t, b, s.level);
    BucketBelow(s, m, w, t, b);
  }

  lemma InItsBucket(sv: Server, size: nat, data: seq<Block>, t: Tag, b: Block, level: nat)
    requires LaidOut(sv, size, data, -1, 0) && t in sv.buckets && t.0 <= sv.level && b.kind == Normal
      && level == sv.level
    requires b in Share(data, size, FirstRank(level, t.0) + t.1)
    ensures b in RealOf(sv.buckets[t])
  {
    hide Share, FirstRank, RealOf, Normals;
    assert Written(t, -1, 0) && HoldsShare(sv, size, data, t);
    NormalsMembers(Share(data, size, FirstRank(level, t.0) + t.1));
  }

  lemma BucketBelow(s: State, m: Memory, w: map<nat, Place>, t: Tag, b: Block)
    requires Invariant(s, m, w) && t in s.server.buckets && t.0 <= s.level && b in RealOf(s.server.buckets[t])
    ensures b.id in m && HomeOf(s, w, b.id) == t && Offset(s.level, t.0, PosOf(s.pos, b.id)) == t.1
  {
    hide RealOf, Offset;
    assert BucketPlaced(s.level, t, RealOf(s.server.buckets[t]), s.pos, m, w);
  }

  /** Every leaf lies below a bucket if and only if it is the root: only blocks loaded there start at a uniform leaf. */
  lemma UniformIffRoot(level: nat, l: nat, j: nat)
    requires l <= level && j < Pow2(l)
    ensures (forall path :: 0 <= path < Pow2(level) ==> Offset(level, l, path) == j) <==> l == 0
  {
    if l == 0 {
      forall path | 0 <= path < Pow2(level)
        ensures Offset(level, l, path) == j
      {
        LeafRange(level, 0, 0, path);
      }
    } else {
      // bucket j' of the same level is another one, and has leaves below it too
      var j' := if j == 0 then 1 else 0;
      Pow2Monotone(0, l);
      var path := j' * Pow2(level - l);
      LeafRange(level, l, j', path);
      assert Offset(level, l, path) == j';
      assert path < Pow2(level);
    }
  }


  predicate Within(i: nat, begin: nat, size: nat) {
    begin <= i < begin + size
  }

  ghost function Interval(begin: nat, size: nat): set<nat> {
    set i: nat | i < begin + size && Within(i, begin, size)
  }

  lemma {:induction false} IntervalCount(begin: nat, size: nat)
    ensures |Interval(begin, size)| == size
  {
    if size == 0 {
      assert Interval(begin, 0) == {};
    } else {
      IntervalCount(begin, size - 1);
      assert Interval(begin, size) == Interval(begin, size - 1) + {begin + size - 1};
    }
  }

  lemma LeavesUnderCount(level: nat, t: Tag)
    requires IsTag(level, t)
    ensures |LeavesUnder(level, t)| == Pow2(level - t.0)
  {
    var begin, span := t.1 * Pow2(level - t.0), Pow2(level - t.0);
    forall path: nat
      ensures path in LeavesUnder(level, t) <==> path in Interval(begin, span)
    {
      LeafRange(level, t.0, t.1, path);
    }
    assert LeavesUnder(level, t) == Interval(begin, span);
    IntervalCount(begin, span);
  }

  // ----- initial positions ------------------------------------------------------------------------

  /** The state of the fill, with the blocks `ids` mapped to the given leaves instead. */
  function StartAt(s: State, ids: seq<nat>, starts: seq<nat>): State
    requires |starts| == |ids|
  {
    s.(pos := StartMap(ids, starts))
  }

  function StartMap(ids: seq<nat>, starts: seq<nat>): PositionMap
    requires |starts| == |ids|
  {
    if ids == [] then map[] else StartMap(ids[1..], starts[1..])[ids[0] := starts[0]]
  }

  lemma {:induction false} StartMapAt(ids: seq<nat>, starts: seq<nat>)
    requires |starts| == |ids| && Permutations.Distinct(ids)
    ensures forall a :: a in StartMap(ids, starts) <==> a in ids
    ensures forall i :: 0 <= i < |ids| ==> StartMap(ids, starts)[ids[i]] == starts[i]
  {
    hide Permutations.Distinct;
    if ids != [] {
      DistinctRest(ids);
      StartMapAt(ids[1..], starts[1..]);
      assert ids == [ids[0]] + ids[1..];
      forall i | 1 <= i < |ids|
        ensures StartMap(ids, starts)[ids[i]] == starts[i]
      {
        assert ids[i] == ids[1..][i - 1] && starts[i] == starts[1..][i - 1];
      }
    }
  }

  lemma DistinctRest(ids: seq<nat>)
    requires ids != [] && Permutations.Distinct(ids)
    ensures Permutations.Distinct(ids[1..]) && forall i :: 1 <= i < |ids| ==> ids[i] != ids[0]
  {
    assert forall i :: 0 <= i < |ids| - 1 ==> ids[1..][i] == ids[i + 1];
  }

  /** `ids` lists the blocks just loaded: all of them in the tree, none in the stash. */
  ghost predicate JustLoaded(s: State, m: Memory, w: map<nat, Place>, ids: seq<nat>) {
    && Invariant(s, m, w) && s.stash == [] && Permutations.Distinct(ids)
    && (forall id :: id in m <==> id in ids) && (forall id :: id in s.pos ==> id in m)
  }

  /** The homes of the blocks loaded, in the order of `ids`. */
  function Homes(s: State, w: map<nat, Place>, ids: seq<nat>): (r: seq<Tag>)
    ensures |r| == |ids| && forall i :: 0 <= i < |r| ==> r[i] == HomeOf(s, w, ids[i]) && r[i].0 <= s.level
  {
    seq(|ids|, i requires 0 <= i < |ids| => HomeOf(s, w, ids[i]))
  }

  ghost function StartSets(level: nat, homes: seq<Tag>): (r: seq<set<nat>>)
    requires forall i :: 0 <= i < |homes| ==> homes[i].0 <= level
    ensures |r| == |homes| && forall i :: 0 <= i < |r| ==> r[i] == LeavesUnder(level, homes[i])
  {
    seq(|homes|, i requires 0 <= i < |homes| => LeavesUnder(level, homes[i]))
  }

  /** The tree is laid out the same for all initial leaves below the homes. */
  lemma StartKeepsInvariant(s: State, m: Memory, w: map<nat, Place>, ids: seq<nat>, starts: seq<nat>)
    requires JustLoaded(s, m, w, ids) && Fits(starts, StartSets(s.level, Homes(s, w, ids)))
    ensures Invariant(StartAt(s, ids, starts), m, w)
  {
    hide RealOf, Offset;
    var s', homes := StartAt(s, ids, starts), Homes(s, w, ids);
    StartMapAt(ids, starts);
    forall id | id in m
      ensures id in s'.pos && s'.pos[id] < Pow2(s.level) && id in s.pos
      ensures id in w && w[id].AtLevel? && w[id].l <= s.level
      ensures Offset(s.level, w[id].l, s'.pos[id]) == Offset(s.level, w[id].l, s.pos[id])
    {
      var i :| 0 <= i < |ids| && ids[i] == id;
      assert Located(id, s.pos, s.stash, s.server, m, w);
      assert starts[i] in LeavesUnder(s.level, homes[i]);
    }
    SameOffsets(s, m, w, s'.pos);
  }

  lemma SameOffsets(s: State, m: Memory, w: map<nat, Place>, pos: PositionMap)
    requires Invariant(s, m, w) && s.stash == []
    requires forall id :: id in pos ==> pos[id] < Pow2(s.level)
    requires forall id :: id in m ==>
      && id in pos && id in s.pos && id in w && w[id].AtLevel? && w[id].l <= s.level
      && Offset(s.level, w[id].l, pos[id]) == Offset(s.level, w[id].l, s.pos[id])
    ensures Invariant(s.(pos := pos), m, w)
  {
    hide RealOf, Offset;
    forall t | t in s.server.buckets
      ensures BucketPlaced(s.level, t, RealOf(s.server.buckets[t]), pos, m, w)
    {
      assert BucketPlaced(s.level, t, RealOf(s.server.buckets[t]), s.pos, m, w);
    }
    forall id | id in m
      ensures Located(id, pos, [], s.server, m, w)
    {
      assert Located(id, s.pos, s.stash, s.server, m, w);
    }
  }

  /** Whatever the fill drew is one of these starts. */
  lemma OwnStart(s: State, m: Memory, w: map<nat, Place>, ids: seq<nat>) returns (starts: seq<nat>)
    requires JustLoaded(s, m, w, ids)
    ensures Fits(starts, StartSets(s.level, Homes(s, w, ids))) && StartAt(s, ids, starts) == s
  {
    hide Invariant, StartSets, Homes, LeavesUnder;
    starts := seq(|ids|, i requires 0 <= i < |ids| => PosOf(s.pos, ids[i]));
    StartMapAt(ids, starts);
    forall i | 0 <= i < |ids|
      ensures ids[i] in s.pos && starts[i] in LeavesUnder(s.level, HomeOf(s, w, ids[i]))
    {
      LeafUnderHome(s, m, w, ids[i]);
    }
    assert StartMap(ids, starts) == s.pos;
  }

  lemma LeafUnderHome(s: State, m: Memory, w: map<nat, Place>, id: nat)
    requires Invariant(s, m, w) && s.stash == [] && id in m
    ensures id in s.pos && PosOf(s.pos, id) in LeavesUnder(s.level, HomeOf(s, w, id))
  {
    hide RealOf, Offset;
    assert Located(id, s.pos, s.stash, s.server, m, w);
  }

  // ----- counting from the fill on ----------------------------------------------------------------

  /** A tape: the initial leaf of every block loaded, then the draw of every request. */
  ghost function TapeSets(level: nat, homes: seq<Tag>, requests: nat): seq<set<nat>>
    requires forall i :: 0 <= i < |homes| ==> homes[i].0 <= level
  {
    StartSets(level, homes) + CandidatesOf(seq(requests, _ => None), Pow2(level))
  }

  /** The tapes under which the server sees exactly this sequence of leaves. */
  ghost function TapesShowing(s: State, w: map<nat, Place>, ids: seq<nat>, requests: seq<Request>,
                              view: seq<nat>): set<seq<nat>>
    requires s.level == s.server.level
  {
    set tape | tape in Vectors(TapeSets(s.level, Homes(s, w, ids), |requests|)) && |tape| == |ids| + |requests|
               && Leaves(StartAt(s, ids, tape[..|ids|]), WithDraws(requests, tape[|ids|..])) == view
  }

  /** What is left of a set of leaves once one of them has been seen. */
  ghost function Sighted(leaves: set<nat>, c: Option<nat>): set<nat> {
    match c
    case None => leaves
    case Some(v) => leaves * {v}
  }

  ghost function SightedSets(level: nat, ids: seq<nat>, homes: seq<Tag>, requests: seq<Request>,
                             view: seq<nat>): (r: seq<set<nat>>)
    requires |homes| == |ids| && |view| == |requests|
    requires forall i :: 0 <= i < |homes| ==> homes[i].0 <= level
    ensures |r| == |ids|
    ensures forall i :: 0 <= i < |r| ==>
      r[i] == Sighted(LeavesUnder(level, homes[i]), FirstSight(requests, view, ids[i]))
  {
    seq(|ids|, i requires 0 <= i < |ids| => Sighted(LeavesUnder(level, homes[i]), FirstSight(requests, view, ids[i])))
  }

  lemma SightedIs(leaves: set<nat>, c: Option<nat>, leaf: nat)
    ensures leaf in Sighted(leaves, c) <==> leaf in leaves && Agrees(c, leaf)
  {
  }

  /**
   Initial leaves start a view exactly when each lies below its home and is the first leaf seen of its block, if any.
   */
  lemma StartsSighted(s: State, m: Memory, w: map<nat, Place>, ids: seq<nat>, starts: seq<nat>, requests: seq<Request>,
                      view: seq<nat>)
    requires JustLoaded(s, m, w, ids) && AllOK(FlatRun(m, s.standalone, requests).1) && |view| == |requests|
    requires Fits(starts, StartSets(s.level, Homes(s, w, ids)))
    ensures StartsFrom(StartMap(ids, starts), requests, view)
      <==> Fits(starts, SightedSets(s.level, ids, Homes(s, w, ids), requests, view))
  {
    hide Agrees, Sighted, LeavesUnder, FirstSight, Invariant, FlatRun, AllOK;
    var pos, homes := StartMap(ids, starts), Homes(s, w, ids);
    StartMapAt(ids, starts);
    forall i | 0 <= i < |ids|
      ensures starts[i] in SightedSets(s.level, ids, homes, requests, view)[i]
        <==> Agrees(FirstSight(requests, view, ids[i]), PosOf(pos, ids[i]))
    {
      SightedIs(LeavesUnder(s.level, homes[i]), FirstSight(requests, view, ids[i]), starts[i]);
    }
    forall a: nat | a !in ids
      ensures Agrees(FirstSight(requests, view, a), PosOf(pos, a))
    {
      AbsentNeverSeen(m, s.standalone, requests, view, a);
      NothingAgrees(PosOf(pos, a));
    }
    if Fits(starts, SightedSets(s.level, ids, homes, requests, view)) {
      forall a
        ensures Agrees(FirstSight(requests, view, a), PosOf(pos, a))
      {
        if a in ids {
          var i :| 0 <= i < |ids| && ids[i] == a;
          assert starts[i] in SightedSets(s.level, ids, homes, requests, view)[i];
        }
      }
    }
  }

  lemma NothingAgrees(leaf: nat)
    ensures Agrees(None, leaf)
  {
  }

  lemma FitsConcat(v: seq<nat>, a: seq<set<nat>>, b: seq<set<nat>>)
    ensures Fits(v, a + b) <==> |v| == |a| + |b| && Fits(v[..|a|], a) && Fits(v[|a|..], b)
  {
    if |v| == |a| + |b| && Fits(v[..|a|], a) && Fits(v[|a|..], b) {
      forall i | 0 <= i < |v|
        ensures v[i] in (a + b)[i]
      {
        if i < |a| {
          assert v[i] == v[..|a|][i];
        } else {
          assert v[i] == v[|a|..][i - |a|];
        }
      }
    }
    if Fits(v, a + b) {
      assert forall i :: 0 <= i < |a| ==> v[..|a|][i] in (a + b)[i];
      assert forall i :: 0 <= i < |b| ==> v[|a|..][i] == v[|a| + i] && (a + b)[|a| + i] == b[i];
    }
  }

  /** Every block accessed was loaded below the leaf that its first access shows. */
  ghost predicate Admissible(level: nat, ids: seq<nat>, homes: seq<Tag>, requests: seq<Request>, view: seq<nat>)
    requires |homes| == |ids| && |view| == |requests|
    requires forall i :: 0 <= i < |homes| ==> homes[i].0 <= level
  {
    forall i :: 0 <= i < |ids| ==>
      var c := FirstSight(requests, view, ids[i]);
      c.Some? ==> Offset(level, homes[i].0, c.value) == homes[i].1
  }

  /** The ways to draw the initial leaves of the blocks that are never accessed. */
  function Unseen(level: nat, ids: seq<nat>, homes: seq<Tag>, accessed: set<nat>): nat
    requires |homes| == |ids| && forall i :: 0 <= i < |homes| ==> homes[i].0 <= level
  {
    if ids == [] then 1 else
    Times(if ids[0] in accessed then 1 else Pow2(level - homes[0].0), Unseen(level, ids[1..], homes[1..], accessed))
  }

  lemma {:induction false} SightedProduct(level: nat, ids: seq<nat>, homes: seq<Tag>, requests: seq<Request>,
                                          view: seq<nat>)
    requires |homes| == |ids| && |view| == |requests| && LeavesBelow(view, Pow2(level))
    requires forall i :: 0 <= i < |homes| ==> homes[i].0 <= level && IsTag(level, homes[i])
    ensures Product(SightedSets(level, ids, homes, requests, view))
      == if Admissible(level, ids, homes, requests, view) then Unseen(level, ids, homes, Addresses(requests)) else 0
  {
    hide Times, FirstSight, Addresses, Pow2, Offset;
    if ids != [] {
      var sets, tail := SightedSets(level, ids, homes, requests, view),
        SightedSets(level, ids[1..], homes[1..], requests, view);
      assert sets[1..] == tail;
      SightedProduct(level, ids[1..], homes[1..], requests, view);
      SightedOne(level, ids[0], homes[0], requests, view);
      AdmissibleCons(level, ids, homes, requests, view);
      TimesZero(Product(tail));
      TimesZero(|sets[0]|);
    }
  }

  lemma TimesZero(n: nat)
    ensures Times(0, n) == 0 && Times(n, 0) == 0
  {
  }

  lemma AdmissibleCons(level: nat, ids: seq<nat>, homes: seq<Tag>, requests: seq<Request>, view: seq<nat>)
    requires |homes| == |ids| > 0 && |view| == |requests|
    requires forall i :: 0 <= i < |homes| ==> homes[i].0 <= level
    ensures Admissible(level, ids, homes, requests, view) <==>
      && Admissible(level, ids[..1], homes[..1], requests, view)
      && Admissible(level, ids[1..], homes[1..], requests, view)
  {
    hide Offset, FirstSight;
    if Admissible(level, ids[..1], homes[..1], requests, view)
      && Admissible(level, ids[1..], homes[1..], requests, view) {
      forall i | 0 <= i < |ids|
        ensures var c := FirstSight(requests, view, ids[i]);
          c.Some? ==> Offset(level, homes[i].0, c.value) == homes[i].1
      {
        if i == 0 {
          assert ids[..1][0] == ids[0] && homes[..1][0] == homes[0];
        } else {
          assert ids[1..][i - 1] == ids[i] && homes[1..][i - 1] == homes[i];
        }
      }
    }
  }

  lemma SightedOne(level: nat, id: nat, home: Tag, requests: seq<Request>, view: seq<nat>)
    requires |view| == |requests| && LeavesBelow(view, Pow2(level)) && IsTag(level, home)
    ensures |Sighted(LeavesUnder(level, home), FirstSight(requests, view, id))|
      == if id !in Addresses(requests) then Pow2(level - home.0)
         else if Admissible(level, [id], [home], requests, view) then 1 else 0
    ensures id !in Addresses(requests) ==> Admissible(level, [id], [home], requests, view)
  {
    hide Offset, Pow2;
    SeenIffRequested(requests, view, id);
    SightBelow(requests, view, id, Pow2(level));
    var c := FirstSight(requests, view, id);
    var leaves := LeavesUnder(level, home);
    if c.None? {
      LeavesUnderCount(level, home);
    } else {
      assert leaves * {c.value} == if c.value in leaves then {c.value} else {};
      assert [id][0] == id && [home][0] == home;
    }
  }

  lemma HomesAreTags(s: State, m: Memory, w: map<nat, Place>, ids: seq<nat>)
    requires JustLoaded(s, m, w, ids)
    ensures forall i :: 0 <= i < |ids| ==> IsTag(s.level, Homes(s, w, ids)[i])
  {
    hide Offset;
    forall i | 0 <= i < |ids|
      ensures IsTag(s.level, HomeOf(s, w, ids[i]))
    {
      assert Located(ids[i], s.pos, s.stash, s.server, m, w);
      OffsetInRange(s.level, w[ids[i]].l, s.pos[ids[i]]);
    }
  }

  /** One tape: it shows the view exactly when its two parts do. */
  lemma TapeShows(s: State, m: Memory, w: map<nat, Place>, ids: seq<nat>, requests: seq<Request>, view: seq<nat>,
                  tape: seq<nat>)
    requires JustLoaded(s, m, w, ids) && AllOK(FlatRun(m, s.standalone, requests).1)
    requires |view| == |requests| && LeavesBelow(view, Pow2(s.level))
    ensures tape in TapesShowing(s, w, ids, requests, view) <==>
      Fits(tape, SightedSets(s.level, ids, Homes(s, w, ids), requests, view)
                 + CandidatesOf(Demands(requests, view), Pow2(s.level)))
  {
    hide Invariant, Leaves, Vectors, Fits, Sighted, LeavesUnder, StartsFrom, Meets, LeavesBelow, FlatRun, AllOK, Pow2;
    hide StartAt;
    var n, homes, demands := Pow2(s.level), Homes(s, w, ids), Demands(requests, view);
    var startSets, sighted := StartSets(s.level, homes), SightedSets(s.level, ids, homes, requests, view);
    var none: seq<Option<nat>> := seq(|requests|, _ => None);
    VectorsAre(startSets + CandidatesOf(none, n), tape);
    FitsConcat(tape, startSets, CandidatesOf(none, n));
    FitsConcat(tape, sighted, CandidatesOf(demands, n));
    if |tape| == |ids| + |requests| {
      var starts, draws := tape[..|ids|], tape[|ids|..];
      DrawParts(draws, demands, n, requests, view);
      SightedStarts(s, w, ids, starts, requests, view);
      if Fits(starts, startSets) && LeavesBelow(draws, n) {
        StartKeepsInvariant(s, m, w, ids, starts);
        StartParts(s, ids, starts);
        ViewFromDraws(StartAt(s, ids, starts), m, w, requests, draws, view);
        StartsSighted(s, m, w, ids, starts, requests, view);
      }
    }
  }

  lemma StartParts(s: State, ids: seq<nat>, starts: seq<nat>)
    requires |starts| == |ids|
    ensures var s' := StartAt(s, ids, starts);
      s'.level == s.level && s'.standalone == s.standalone && s'.pos == StartMap(ids, starts) && s'.server == s.server
  {
  }

  lemma DrawParts(draws: seq<nat>, demands: seq<Option<nat>>, n: nat, requests: seq<Request>, view: seq<nat>)
    requires |view| == |requests| == |draws| && LeavesBelow(view, n) && demands == Demands(requests, view)
    ensures Fits(draws, CandidatesOf(demands, n)) <==> Meets(draws, demands) && LeavesBelow(draws, n)
    ensures Fits(draws, CandidatesOf(seq(|requests|, _ => None), n)) <==> LeavesBelow(draws, n)
  {
    hide Vectors;
    var none: seq<Option<nat>> := seq(|requests|, _ => None);
    ViewDemandsBelow(requests, view, n);
    SolutionsAre(demands, n, draws);
    VectorsAre(CandidatesOf(demands, n), draws);
    SolutionsAre(none, n, draws);
    VectorsAre(CandidatesOf(none, n), draws);
  }

  lemma SightedStarts(s: State, w: map<nat, Place>, ids: seq<nat>, starts: seq<nat>, requests: seq<Request>,
                      view: seq<nat>)
    requires |view| == |requests|
    ensures Fits(starts, SightedSets(s.level, ids, Homes(s, w, ids), requests, view))
      ==> Fits(starts, StartSets(s.level, Homes(s, w, ids)))
  {
    hide LeavesUnder, FirstSight;
  }

  /**
   Of all tapes, every admissible view is shown by the same number: the ways to start the blocks never accessed, times
   one factor of the leaf count per block accessed. Every other view is shown by none.
   */
  lemma ViewsFromTheFill(s: State, m: Memory, w: map<nat, Place>, ids: seq<nat>, requests: seq<Request>, view: seq<nat>)
    requires JustLoaded(s, m, w, ids) && AllOK(FlatRun(m, s.standalone, requests).1)
    requires |view| == |requests| && LeavesBelow(view, Pow2(s.level))
    ensures |TapesShowing(s, w, ids, requests, view)|
      == if Admissible(s.level, ids, Homes(s, w, ids), requests, view)
         then Times(Unseen(s.level, ids, Homes(s, w, ids), Addresses(requests)),
                    Power(Pow2(s.level), |Addresses(requests)|))
         else 0
  {
    hide JustLoaded, TapesShowing, Vectors, Fits, Product, Admissible, Unseen, Power, Times, LeavesBelow, FlatRun;
    hide AllOK, Pow2;
    var homes, demands := Homes(s, w, ids), Demands(requests, view);
    var sighted, chosen := SightedSets(s.level, ids, homes, requests, view), CandidatesOf(demands, Pow2(s.level));
    LoadedLevels(s, m, w, ids);
    forall tape: seq<nat>
      ensures tape in TapesShowing(s, w, ids, requests, view) <==> tape in Vectors(sighted + chosen)
    {
      TapeShows(s, m, w, ids, requests, view, tape);
      VectorsAre(sighted + chosen, tape);
    }
    assert TapesShowing(s, w, ids, requests, view) == Vectors(sighted + chosen);
    VectorsCount(sighted + chosen);
    ProductConcat(sighted, chosen);
    HomesAreTags(s, m, w, ids);
    SightedProduct(s.level, ids, homes, requests, view);
    CandidatesProduct(demands, Pow2(s.level));
    OpenDraws(requests, view);
    TimesZero(Product(chosen));
  }

  lemma LoadedLevels(s: State, m: Memory, w: map<nat, Place>, ids: seq<nat>)
    requires JustLoaded(s, m, w, ids)
    ensures s.level == s.server.level
  {
  }

  /** All tapes there are: every start of every block, and every draw of every request. */
  lemma TapesInAll(s: State, m: Memory, w: map<nat, Place>, ids: seq<nat>, k: nat)
    requires JustLoaded(s, m, w, ids)
    ensures |Vectors(TapeSets(s.level, Homes(s, w, ids), k))|
      == Times(Unseen(s.level, ids, Homes(s, w, ids), {}), Power(Pow2(s.level), k))
  {
    hide JustLoaded, Vectors, Product, Unseen, Power, Times, Pow2, LeavesUnder;
    var homes, none: seq<Option<nat>> := Homes(s, w, ids), seq(k, _ => None);
    VectorsCount(TapeSets(s.level, homes, k));
    ProductConcat(StartSets(s.level, homes), CandidatesOf(none, Pow2(s.level)));
    CandidatesProduct(none, Pow2(s.level));
    AllUnconstrained(none);
    HomesAreTags(s, m, w, ids);
    StartProduct(s.level, ids, homes);
  }

  lemma {:induction false} StartProduct(level: nat, ids: seq<nat>, homes: seq<Tag>)
    requires |homes| == |ids| && forall i :: 0 <= i < |homes| ==> homes[i].0 <= level && IsTag(level, homes[i])
    ensures Product(StartSets(level, homes)) == Unseen(level, ids, homes, {})
  {
    hide LeavesUnder, Times, Pow2;
    if ids != [] {
      assert StartSets(level, homes)[1..] == StartSets(level, homes[1..]);
      StartProduct(level, ids[1..], homes[1..]);
      LeavesUnderCount(level, homes[0]);
    }
  }

  // ----- every start is the outcome of a fill -----------------------------------------------------

  /** The ids of the normal blocks, in order. */
  function NormalIds(data: seq<Block>): seq<nat> {
    if data == [] then [] else
    var k := |data| - 1;
    NormalIds(data[..k]) + if data[k].kind == Normal then [data[k].id] else []
  }

  /** The leaves drawn for them. */
  function NormalStarts(data: seq<Block>, starts: seq<nat>): seq<nat>
    requires |starts| == |data|
  {
    if data == [] then [] else
    var k := |data| - 1;
    NormalStarts(data[..k], starts[..k]) + if data[k].kind == Normal then [starts[k]] else []
  }

  /** The buckets they go to. */
  function NormalHomes(level: nat, size: nat, data: seq<Block>): (r: seq<Tag>)
    requires size >= 1
    ensures forall i :: 0 <= i < |r| ==> r[i].0 <= level
  {
    if data == [] then [] else
    var k := |data| - 1;
    NormalHomes(level, size, data[..k]) + if data[k].kind == Normal then [BucketOf(level, size, k)] else []
  }

  /** Leaves for all blocks that give the normal ones the leaves of `p`. */
  function Spread(data: seq<Block>, p: seq<nat>): (starts: seq<nat>)
    requires |p| == |NormalIds(data)|
    ensures |starts| == |data|
  {
    if data == [] then [] else
    var k := |data| - 1;
    if data[k].kind == Normal then Spread(data[..k], p[..|p| - 1]) + [p[|p| - 1]] else Spread(data[..k], p) + [0]
  }

  lemma {:induction false} NormalsLineUp(level: nat, size: nat, data: seq<Block>, starts: seq<nat>)
    requires size >= 1 && |starts| == |data|
    ensures |NormalIds(data)| == |NormalStarts(data, starts)| == |NormalHomes(level, size, data)|
  {
    if data != [] {
      NormalsLineUp(level, size, data[..|data| - 1], starts[..|data| - 1]);
    }
  }

  lemma {:induction false} SpreadGives(data: seq<Block>, p: seq<nat>)
    requires |p| == |NormalIds(data)|
    ensures NormalStarts(data, Spread(data, p)) == p
  {
    if data != [] {
      var k := |data| - 1;
      var starts := Spread(data, p);
      SpreadGives(data[..k], if data[k].kind == Normal then p[..|p| - 1] else p);
      assert starts[..k] == Spread(data[..k], if data[k].kind == Normal then p[..|p| - 1] else p);
    }
  }

  /** Leaves below the homes of the normal blocks, spread over the data, are leaves the fill may draw. */
  lemma {:induction false} SpreadIsBelow(level: nat, size: nat, data: seq<Block>, p: seq<nat>)
    requires size >= 1 && |p| == |NormalIds(data)| == |NormalHomes(level, size, data)|
    requires Fits(p, StartSets(level, NormalHomes(level, size, data)))
    ensures StartsBelow(level, size, data, Spread(data, p))
  {
    hide BucketOf, LeavesUnder, TreeSlots, StartsBelow, StartSets, Fits;
    if data == [] {
      NothingBelow(level, size);
    } else {
      var k := |data| - 1;
      var front := data[..k];
      var q := if data[k].kind == Normal then p[..|p| - 1] else p;
      NormalsLineUp(level, size, front, Spread(data, p)[..k]);
      FitsFront(level, NormalHomes(level, size, front), NormalHomes(level, size, data), q, p);
      SpreadIsBelow(level, size, front, q);
      BelowNext(level, size, data, Spread(front, q), Spread(data, p)[k]);
      assert Spread(data, p) == Spread(front, q) + [Spread(data, p)[k]];
    }
  }

  lemma NothingBelow(level: nat, size: nat)
    requires size >= 1
    ensures StartsBelow(level, size, [], [])
  {
  }

  lemma FitsFront(level: nat, front: seq<Tag>, homes: seq<Tag>, q: seq<nat>, p: seq<nat>)
    requires forall i :: 0 <= i < |homes| ==> homes[i].0 <= level
    requires front <= homes && q <= p && |q| == |front| && Fits(p, StartSets(level, homes))
    ensures Fits(q, StartSets(level, front))
    ensures |p| == |homes| && forall i :: 0 <= i < |p| ==> p[i] in LeavesUnder(level, homes[i])
  {
    hide LeavesUnder;
    forall i | 0 <= i < |p|
      ensures p[i] in LeavesUnder(level, homes[i])
    {
      assert p[i] in StartSets(level, homes)[i];
    }
  }

  lemma BelowNext(level: nat, size: nat, data: seq<Block>, front: seq<nat>, leaf: nat)
    requires size >= 1 && |front| + 1 == |data| && StartsBelow(level, size, data[..|front|], front)
    requires data[|front|].kind == Normal ==> leaf in LeavesUnder(level, BucketOf(level, size, |front|))
    ensures StartsBelow(level, size, data, front + [leaf])
  {
    hide LeavesUnder, BucketOf;
  }

  /** A position map that has the drawn leaves, and no others, is the map counted. */
  lemma {:induction false} StartedIsStartMap(pos: PositionMap, data: seq<Block>, starts: seq<nat>)
    requires |starts| == |data| && DistinctNormals(data)
    requires StartedAt(pos, data, starts, |data|) && forall id :: id in pos ==> id in Loaded(data)
    ensures |NormalIds(data)| == |NormalStarts(data, starts)| && Permutations.Distinct(NormalIds(data))
    ensures pos == StartMap(NormalIds(data), NormalStarts(data, starts))
    ensures forall id :: id in Loaded(data) <==> id in NormalIds(data)
  {
    var ids, p := NormalIds(data), NormalStarts(data, starts);
    NormalsLineUp(0, 1, data, starts);
    NormalIdsAt(data, starts);
    NormalIdsDistinct(data);
    StartMapAt(ids, p);
    hide Loaded, NormalIds, NormalStarts, StartMap, DistinctNormals;
    forall id | id in ids
      ensures id in pos && pos[id] == StartMap(ids, p)[id]
    {
      var i :| 0 <= i < |ids| && ids[i] == id;
      var k :| IsStart(data, starts, k, ids[i], p[i]);
    }
    assert StartMap(ids, p).Keys == pos.Keys;
  }

  /** The k-th block is normal, with this id, and has this leaf drawn for it. */
  predicate IsStart(data: seq<Block>, starts: seq<nat>, k: int, id: nat, leaf: nat)
    requires |starts| == |data|
  {
    0 <= k < |data| && data[k].kind == Normal && data[k].id == id && starts[k] == leaf
  }

  ghost predicate Drawn(data: seq<Block>, starts: seq<nat>, id: nat, leaf: nat)
    requires |starts| == |data|
  {
    exists k :: IsStart(data, starts, k, id, leaf)
  }

  /** The i-th normal block is some block of the data, with its id and its leaf; and every normal block is one. */
  lemma {:induction false} NormalIdsAt(data: seq<Block>, starts: seq<nat>)
    requires |starts| == |data|
    ensures |NormalIds(data)| == |NormalStarts(data, starts)|
    ensures forall i :: 0 <= i < |NormalIds(data)| ==>
      Drawn(data, starts, NormalIds(data)[i], NormalStarts(data, starts)[i])
    ensures forall id :: id in Loaded(data) <==> id in NormalIds(data)
  {
    if data == [] {
      assert NormalIds(data) == [];
    } else {
      var n := |data| - 1;
      var front, before := data[..n], starts[..n];
      NormalIdsAt(front, before);
      var ids, p := NormalIds(data), NormalStarts(data, starts);
      NormalsLineUp(0, 1, data, starts);
      NormalsLineUp(0, 1, front, before);
      forall i | 0 <= i < |ids|
        ensures Drawn(data, starts, ids[i], p[i])
      {
        if i < |NormalIds(front)| {
          assert Drawn(front, before, NormalIds(front)[i], NormalStarts(front, before)[i]);
          var k :| IsStart(front, before, k, NormalIds(front)[i], NormalStarts(front, before)[i]);
          assert IsStart(data, starts, k, ids[i], p[i]);
        } else {
          assert IsStart(data, starts, n, ids[i], p[i]);
        }
      }
    }
  }

  lemma {:induction false} NormalIdsDistinct(data: seq<Block>)
    requires DistinctNormals(data)
    ensures Permutations.Distinct(NormalIds(data))
  {
    if data != [] {
      var n := |data| - 1;
      NormalIdsDistinct(data[..n]);
      if data[n].kind == Normal {
        NormalIdsAt(data[..n], seq(n, _ => 0));
        forall i | 0 <= i < |NormalIds(data[..n])|
          ensures NormalIds(data[..n])[i] != data[n].id
        {
          var zeros := seq(n, _ => 0);
          var k :| IsStart(data[..n], zeros, k, NormalIds(data[..n])[i], NormalStarts(data[..n], zeros)[i]);
          assert data[k].id == NormalIds(data[..n])[i];
        }
      }
    }
  }

  /** After the fill, the homes found in the state are the buckets that the order of the data gives. */
  lemma HomesByOrder(s: State, m: Memory, w: map<nat, Place>, data: seq<Block>)
    requires Invariant(s, m, w) && LaidOut(s.server, s.bucketSize, data, -1, 0)
    requires s.bucketSize >= 1 && |data| <= TreeSlots(s.level, s.bucketSize)
    ensures |NormalHomes(s.level, s.bucketSize, data)| == |NormalIds(data)|
    ensures Homes(s, w, NormalIds(data)) == NormalHomes(s.level, s.bucketSize, data)
  {
    hide Invariant, LaidOut, HomeOf, TreeSlots, BucketOf;
    NormalsLineUp(s.level, s.bucketSize, data, seq(|data|, _ => 0));
    forall k | 0 <= k < |data| && data[k].kind == Normal
      ensures HomeOf(s, w, data[k].id) == BucketOf(s.level, s.bucketSize, k)
    {
      BlockAtHome(s, m, w, data, k);
    }
    HomesOfFront(s, w, data, |data|);
    assert data[..|data|] == data;
  }

  lemma {:induction false} HomesOfFront(s: State, w: map<nat, Place>, data: seq<Block>, n: nat)
    requires n <= |data| && s.bucketSize >= 1
    requires forall k :: 0 <= k < |data| && data[k].kind == Normal ==>
      HomeOf(s, w, data[k].id) == BucketOf(s.level, s.bucketSize, k)
    ensures Homes(s, w, NormalIds(data[..n])) == NormalHomes(s.level, s.bucketSize, data[..n])
  {
    hide HomeOf, BucketOf;
    if n > 0 {
      HomesOfFront(s, w, data, n - 1);
      assert data[..n][..n - 1] == data[..n - 1];
    }
  }

  lemma BlockAtHome(s: State, m: Memory, w: map<nat, Place>, data: seq<Block>, k: nat)
    requires Invariant(s, m, w) && LaidOut(s.server, s.bucketSize, data, -1, 0) && s.bucketSize >= 1
    requires k < |data| <= TreeSlots(s.level, s.bucketSize) && data[k].kind == Normal
    ensures HomeOf(s, w, data[k].id) == BucketOf(s.level, s.bucketSize, k)
  {
    hide Invariant, LaidOut, HomeOf, Share, FirstRank, WellShaped, TagOfRank, Times, Pow2;
    var rank, t := k / s.bucketSize, BucketOf(s.level, s.bucketSize, k);
    LevelsAgree(s, m, w);
    RankFits(s.level, s.bucketSize, k);
    TagHasRank(s.level, rank);
    InShareOfRank(data, s.bucketSize, k);
    TagIsThere(s, m, w, t);
    LoadedBelowItsBucket(s, m, w, data, t, data[k]);
  }

  lemma TagIsThere(s: State, m: Memory, w: map<nat, Place>, t: Tag)
    requires Invariant(s, m, w) && IsTag(s.level, t)
    ensures t in s.server.buckets
  {
  }

  lemma RankFits(level: nat, size: nat, k: nat)
    requires size >= 1 && k < TreeSlots(level, size)
    ensures 0 <= k / size < Pow2(level + 1) - 1
  {
    DivBounds(k, size);
    if k / size >= Pow2(level + 1) - 1 {
      MulMonotone(Pow2(level + 1) - 1, k / size, size);
    }
  }

  lemma {:induction false} TagHasRank(l: nat, rank: nat)
    requires rank < Pow2(l + 1) - 1
    ensures IsTag(l, TagOfRank(l, rank)) && FirstRank(l, TagOfRank(l, rank).0) + TagOfRank(l, rank).1 == rank
  {
    var t := TagOfRank(l, rank);
    FirstRankValue(l, t.0);
    if l > 0 && rank >= Pow2(l) {
      TagHasRank(l - 1, rank - Pow2(l));
      FirstRankValue(l - 1, t.0);
    }
  }

  lemma InShareOfRank(data: seq<Block>, size: nat, k: nat)
    requires size >= 1 && k < |data| && k / size >= 0
    ensures data[k] in Share(data, size, k / size)
  {
    var rank: nat := k / size;
    DivBounds(k, size);
    TimesStep(rank, size);
    var begin := Min(|data|, Times(rank, size));
    assert Share(data, size, rank)[k - begin] == data[k];
  }

  /**
   Every start that is counted is the outcome of a fill: drawing those leaves ends in exactly that position map, with
   the blocks in the buckets that their order gives.
   */
  method FillReaches(oram: PathOramController.PathOramController, data: seq<Block>, p: seq<nat>, pads: PadSource)
    requires oram.Connected() && !oram.isInitialized && oram.positionMap == map[] && oram.stash == []
    requires forall t :: t in oram.server.storage ==> oram.server.storage[t] == []
    requires DistinctNormals(data) && |data| <= TreeSlots(oram.treeLevel, oram.bucketSize)
    requires Fits(p, StartSets(oram.treeLevel, NormalHomes(oram.treeLevel, oram.bucketSize, data)))
    modifies oram, oram.server
    ensures oram.isInitialized && oram.Valid() && JustLoaded(oram.View(), oram.memory, oram.places, NormalIds(data))
    ensures oram.memory == Loaded(data)
    ensures Homes(oram.View(), oram.places, NormalIds(data)) == NormalHomes(oram.treeLevel, oram.bucketSize, data)
    ensures |p| == |NormalIds(data)| && oram.positionMap == StartMap(NormalIds(data), p)
  {
    hide Invariant, LaidOut, Filled, DistinctNormals, Loaded, TreeSlots, WellShaped, StartsBelow, StartedAt, Fits;
    hide StartMap, NormalIds, NormalStarts, NormalHomes, Homes, Spread, StartSets, Permutations.Distinct;
    NormalsLineUp(oram.treeLevel, oram.bucketSize, data, seq(|data|, _ => 0));
    FitsLength(p, StartSets(oram.treeLevel, NormalHomes(oram.treeLevel, oram.bucketSize, data)));
    var starts := Spread(data, p);
    SpreadIsBelow(oram.treeLevel, oram.bucketSize, data, p);
    SpreadGives(data, p);
    oram.FillWithData(data, starts, pads);
    assert data[..|data|] == data;
    StartedIsStartMap(oram.positionMap, data, starts);
    HomesByOrder(oram.View(), oram.memory, oram.places, data);
  }

  lemma FitsLength(v: seq<nat>, sets: seq<set<nat>>)
    requires Fits(v, sets)
    ensures |v| == |sets|
  {
  }

  /** What a run shows depends on the state of the fill through its positions alone, so a tape stands for its fill. */
  lemma ViewFollowsPositions(s: State, w: map<nat, Place>, s': State, w': map<nat, Place>, m: Memory,
                             requests: seq<Request>, draws: seq<nat>)
    requires Invariant(s, m, w) && Invariant(s', m, w') && s'.pos == s.pos
    requires s'.level == s.level && s'.standalone == s.standalone
    requires AllOK(FlatRun(m, s.standalone, requests).1) && |draws| == |requests| && LeavesBelow(draws, Pow2(s.level))
    ensures s.level == s.server.level && s'.level == s'.server.level
    ensures Leaves(s, WithDraws(requests, draws)) == Leaves(s', WithDraws(requests, draws))
  {
    hide Invariant, FlatRun, AllOK, Pow2, StartsFrom, Meets, LeavesBelow, Run;
    LevelsAgree(s, m, w);
    LevelsAgree(s', m, w');
    OneLeafEach(s, WithDraws(requests, draws));
    var view := Leaves(s, WithDraws(requests, draws));
    ViewFromDraws(s, m, w, requests, draws, view);
    ViewFromDraws(s', m, w', requests, draws, view);
  }

  // ----- an example -------------------------------------------------------------------------------

  /**
   Three blocks in a tree of three one-block buckets: the first two go to the leaves, so their first leaves differ.
   */
  lemma FirstLeavesDiffer(s: State, m: Memory, w: map<nat, Place>, data: seq<Block>)
    requires |data| == 3 && forall i :: 0 <= i < 3 ==> data[i].kind == Normal && data[i].id == i
    requires s.level == 1 && s.bucketSize == 1 && Invariant(s, m, w) && LaidOut(s.server, 1, data, -1, 0)
    ensures PosOf(s.pos, 0) == 0 && PosOf(s.pos, 1) == 1
  {
    hide Invariant, LaidOut;
    assert Pow2(0) == 1 && Pow2(1) == 2;
    forall j | 0 <= j < 2
      ensures PosOf(s.pos, j) == j
    {
      OneBlockBucket(s, m, w, data, j);
      LoadedBelowItsBucket(s, m, w, data, (1, j), data[j]);
      assert Offset(1, 1, PosOf(s.pos, j)) == PosOf(s.pos, j);
    }
  }

  lemma OneBlockBucket(s: State, m: Memory, w: map<nat, Place>, data: seq<Block>, j: nat)
    requires |data| == 3 && j < 2 && s.level == 1 && Invariant(s, m, w)
    ensures (1, j) in s.server.buckets
    ensures data[j] in Share(data, 1, FirstRank(1, 1) + j)
  {
    assert Pow2(0) == 1 && Pow2(1) == 2;
    assert IsTag(s.level, (1, j));
    assert FirstRank(1, 1) == 0;
    assert Share(data, 1, j) == [data[j]];
  }

  /** The client reaches such a state, with the root block anywhere: first accesses to 0 and to 1 never look alike. */
  method LoadThreeBlocks(data: seq<Block>, start: nat, pads: PadSource)
    returns (oram: PathOramController.PathOramController)
    requires |data| == 3 && (forall i :: 0 <= i < 3 ==> data[i].kind == Normal && data[i].id == i) && start < 2
    ensures oram.isInitialized && oram.Valid() && oram.memory.Keys == {0, 1, 2}
    ensures oram.positionMap == map[0 := 0, 1 := 1, 2 := start]
  {
    hide Invariant, LaidOut, Filled, DistinctNormals, Loaded, TreeSlots, TreeLevel, WellShaped, StartsBelow;
    ThreeBuckets();
    NumberedAreDistinct(data);
    ThreeStarts(data, start);
    oram := new PathOramController.PathOramController(3, 1, true);
    oram.InitOram();
    oram.FillWithData(data, [0, 1, start], pads);
    assert data[..3] == data;
    NumberedAreLoaded(data);
    ThreePositions(oram.positionMap, data, start);
  }

  lemma ThreeStarts(data: seq<Block>, start: nat)
    requires |data| == 3 && start < 2
    ensures StartsBelow(1, 1, data, [0, 1, start])
  {
    assert Pow2(0) == 1 && Pow2(1) == 2;
    assert BucketOf(1, 1, 0) == (1, 0) && BucketOf(1, 1, 1) == (1, 1) && BucketOf(1, 1, 2) == (0, 0);
    LeafRange(1, 1, 0, 0);
    LeafRange(1, 1, 1, 1);
    LeafRange(1, 0, 0, start);
  }

  lemma ThreePositions(pos: PositionMap, data: seq<Block>, start: nat)
    requires |data| == 3 && forall i :: 0 <= i < 3 ==> data[i].kind == Normal && data[i].id == i
    requires StartedAt(pos, data, [0, 1, start], 3) && forall id :: id in pos ==> id in {0, 1, 2}
    ensures pos == map[0 := 0, 1 := 1, 2 := start]
  {
    assert data[0].id in pos && data[1].id in pos && data[2].id in pos;
  }

  lemma NumberedAreDistinct(data: seq<Block>)
    requires forall i :: 0 <= i < |data| ==> data[i].id == i
    ensures DistinctNormals(data)
  {
  }

  lemma NumberedAreLoaded(data: seq<Block>)
    requires |data| == 3 && forall i :: 0 <= i < 3 ==> data[i].kind == Normal && data[i].id == i
    ensures Loaded(data).Keys == {0, 1, 2}
  {
    hide Loaded, DistinctNormals;
    NumberedAreDistinct(data);
    LoadedExactly(data);
    assert Current(data[0], Loaded(data)) && Current(data[1], Loaded(data)) && Current(data[2], Loaded(data));
    forall id | id in Loaded(data)
      ensures id in {0, 1, 2}
    {
      assert Current(Live(Loaded(data), id), Loaded(data));
    }
  }

  lemma ThreeBuckets()
    ensures TreeLevel(3, 1) == 1 && TreeSlots(1, 1) == 3
  {
    assert Pow2(1) == 2 && Pow2(2) == 4;
    assert CeilDiv(3, 1) == 3;
    LevelOfUnique(3, 1);
  }
}
