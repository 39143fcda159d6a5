/**
 The placement invariant of Path ORAM: every live block has exactly one copy, in the stash or in the bucket that
 its level and its leaf determine. Each phase of an access keeps it.
 */
module PathOramPlacement {
  import opened OramDefs
  import opened Geometry
  import opened TreeStorage
  import opened PathOramModel

  /** The flat memory that the ORAM stands for. */
  type Memory = map<nat, Cell>

  datatype Place = InStash | AtLevel(l: nat)

  function Live(m: Memory, id: nat): Block
    requires id in m
  {
    Block(id, Normal, m[id])
  }

  predicate Current(b: Block, m: Memory) {
    b.id in m && b == Live(m, b.id)
  }

  /** The normal blocks of a bucket. */
  function Normals(bucket: seq<Block>): (r: seq<Block>)
    ensures |r| <= |bucket|
  {
    if bucket == [] then [] else
    var last := bucket[|bucket| - 1];
    Normals(bucket[..|bucket| - 1]) + if last.kind == Normal then [last] else []
  }

  function RealOf(bucket: seq<Slot>): seq<Block> {
    Normals(Contents(bucket))
  }

  ghost predicate DistinctIds(s: seq<Block>) {
    forall i, j :: 0 <= i < j < |s| ==> s[i].id != s[j].id
  }

  ghost predicate StashPlaced(stash: seq<Block>, m: Memory, w: map<nat, Place>) {
    && DistinctIds(stash)
    && forall b :: b in stash ==> Current(b, m) && b.id in w && w[b.id] == InStash
  }

  ghost predicate BucketPlaced(level: nat, t: Tag, blocks: seq<Block>, home: PositionMap, m: Memory, w: map<nat, Place>)
    requires t.0 <= level
  {
    && DistinctIds(blocks)
    && forall b :: b in blocks ==>
         && Current(b, m)
         && b.id in w && w[b.id] == AtLevel(t.0)
         && b.id in home && t.1 == Offset(level, t.0, home[b.id])
  }

  ghost predicate Located(id: nat, home: PositionMap, stash: seq<Block>, sv: Server, m: Memory, w: map<nat, Place>)
    requires id in m
  {
    && id in w
    && id in home && home[id] < Pow2(sv.level)
    && match w[id]
       case InStash => Live(m, id) in stash
       case AtLevel(l) => l <= sv.level && Live(m, id) in RealOf(BucketOn(sv, l, home[id]))
  }

  /**
   `w` names the one place of each live block. A block at level l lies in the bucket of that level on the path to
   its leaf `home[id]`; nothing else in the stash or the tree is a normal block.
   */
  ghost predicate Placed(home: PositionMap, stash: seq<Block>, sv: Server, m: Memory, w: map<nat, Place>) {
    && WellShaped(sv)
    && StashPlaced(stash, m, w)
    && (forall t :: t in sv.buckets ==> BucketPlaced(sv.level, t, RealOf(sv.buckets[t]), home, m, w))
    && (forall id :: id in m ==> Located(id, home, stash, sv, m, w))
  }

  // ----- sequences of blocks ----------------------------------------------------------------------

  lemma {:induction false} NormalsMembers(bucket: seq<Block>)
    ensures forall b :: b in Normals(bucket) <==> b in bucket && b.kind == Normal
  {
    if bucket != [] {
      NormalsMembers(bucket[..|bucket| - 1]);
      assert bucket == bucket[..|bucket| - 1] + [bucket[|bucket| - 1]];
    }
  }

  lemma {:induction false} NormalsConcat(a: seq<Block>, b: seq<Block>)
    ensures Normals(a + b) == Normals(a) + Normals(b)
  {
    if b == [] {
      assert a + b == a;
    } else {
      NormalsConcat(a, b[..|b| - 1]);
      assert (a + b)[..|a + b| - 1] == a + b[..|b| - 1];
    }
  }

  lemma {:induction false} NormalsOfNormal(s: seq<Block>)
    requires forall b :: b in s ==> b.kind == Normal
    ensures Normals(s) == s
  {
    if s != [] {
      NormalsOfNormal(s[..|s| - 1]);
    }
  }

  lemma {:induction false} NormalsOfPads(s: seq<Block>)
    requires forall b :: b in s ==> b.kind != Normal
    ensures Normals(s) == []
  {
    if s != [] {
      NormalsOfPads(s[..|s| - 1]);
    }
  }

  /** Padding is invisible. */
  lemma NormalsOfPadded(s: seq<Block>, size: nat, tag: nat, pads: PadSource)
    requires forall b :: b in s ==> b.kind == Normal
    ensures RealOf(Sealed(Padded(s, size, tag, pads))) == s
  {
    var r := Padded(s, size, tag, pads);
    ContentsOfSealed(r);
    assert r == s + r[|s|..];
    NormalsConcat(s, r[|s|..]);
    NormalsOfNormal(s);
    NormalsOfPads(r[|s|..]);
  }

  lemma RealOfCleared(bucket: seq<Slot>)
    ensures RealOf(Cleared(bucket)) == []
  {
    ContentsOfCleared(bucket);
  }

  lemma NoMatch(s: seq<Block>, b: Block)
    requires DistinctIds(s + [b])
    ensures FindBlock(s, b.id) == |s|
  {
    assert (s + [b])[|s|] == b;
    assert forall k :: 0 <= k < |s| ==> s[k] == (s + [b])[k];
  }

  /** With ids all different, absorbing a bucket appends exactly its normal blocks. */
  lemma {:induction false} AbsorbAppends(stash: seq<Block>, bucket: seq<Block>)
    requires DistinctIds(stash + Normals(bucket))
    ensures Absorb(stash, bucket) == stash + Normals(bucket)
  {
    if bucket != [] {
      var front, last := bucket[..|bucket| - 1], bucket[|bucket| - 1];
      var all := stash + Normals(bucket);
      assert DistinctIds(stash + Normals(front)) by {
        assert forall k :: 0 <= k < |stash + Normals(front)| ==> (stash + Normals(front))[k] == all[k];
      }
      AbsorbAppends(stash, front);
      if last.kind == Normal {
        assert all == (stash + Normals(front)) + [last];
        NoMatch(stash + Normals(front), last);
      }
    }
  }

  /** Taking and keeping split the stash; what is taken is mapped to x. */
  lemma {:induction false} TakenKeptSplit(stash: seq<Block>, pos: PositionMap, x: nat, room: nat)
    ensures forall b :: b in Taken(stash, pos, x, room) ==> b in stash && PosOf(pos, b.id) == x
    ensures forall b :: b in Kept(stash, pos, x, room) ==> b in stash
    ensures forall b :: b in stash ==> b in Taken(stash, pos, x, room) || b in Kept(stash, pos, x, room)
  {
    if stash != [] && room > 0 {
      var here := PosOf(pos, stash[0].id) == x;
      TakenKeptSplit(stash[1..], pos, x, if here then room - 1 else room);
      assert stash == [stash[0]] + stash[1..];
    }
  }

  lemma {:induction false} TakenKeptDistinct(stash: seq<Block>, pos: PositionMap, x: nat, room: nat)
    requires DistinctIds(stash)
    ensures DistinctIds(Taken(stash, pos, x, room)) && DistinctIds(Kept(stash, pos, x, room))
    ensures forall a, b :: a in Taken(stash, pos, x, room) && b in Kept(stash, pos, x, room) ==> a.id != b.id
  {
    if stash != [] && room > 0 {
      var here := PosOf(pos, stash[0].id) == x;
      var room' := if here then room - 1 else room;
      TakenKeptDistinct(stash[1..], pos, x, room');
      TakenKeptSplit(stash[1..], pos, x, room');
      assert forall b :: b in stash[1..] ==> b.id != stash[0].id;
    }
  }

  // ----- the read phase ---------------------------------------------------------------------------

  /** Where the blocks are once level l of path x has been pulled into the stash. */
  function PulledPlaces(level: nat, home: PositionMap, w: map<nat, Place>, l: nat, x: nat): map<nat, Place>
    requires l <= level
  {
    map id | id in w ::
      if w[id] == AtLevel(l) && id in home && Offset(level, l, home[id]) == Offset(level, l, x) then InStash else w[id]
  }

  lemma PullDistinct(stash: seq<Block>, blocks: seq<Block>, m: Memory, w: map<nat, Place>)
    requires StashPlaced(stash, m, w) && DistinctIds(blocks)
    requires forall b :: b in blocks ==> b.id in w && w[b.id] != InStash
    ensures DistinctIds(stash + blocks)
  {
    forall i, j | 0 <= i < j < |stash + blocks|
      ensures (stash + blocks)[i].id != (stash + blocks)[j].id
    {
      assert i < |stash| ==> stash[i] in stash;
      assert j >= |stash| ==> blocks[j - |stash|] in blocks;
    }
  }

  /** Level l of path x moves into the stash, in order, and nothing else moves. */
  lemma PullLevel(home: PositionMap, stash: seq<Block>, sv: Server, m: Memory, w: map<nat, Place>, l: nat, x: nat)
    requires Placed(home, stash, sv, m, w)
    requires l <= sv.level && x < Pow2(sv.level)
    ensures Absorb(stash, Contents(BucketOn(sv, l, x))) == stash + RealOf(BucketOn(sv, l, x))
    ensures Placed(home, stash + RealOf(BucketOn(sv, l, x)), AfterRead(sv, l, x), m,
                   PulledPlaces(sv.level, home, w, l, x))
  {
    OffsetInRange(sv.level, l, x);
    var t := TagOn(sv.level, l, x);
    assert t in sv.buckets by { assert IsTag(sv.level, t); }
    var blocks := RealOf(sv.buckets[t]);
    var sv', w' := AfterRead(sv, l, x), PulledPlaces(sv.level, home, w, l, x);
    assert BucketPlaced(sv.level, t, blocks, home, m, w);
    PullDistinct(stash, blocks, m, w);
    AbsorbAppends(stash, Contents(sv.buckets[t]));
    assert WellShaped(sv') by {
      assert sv'.buckets.Keys == sv.buckets.Keys;
    }
    assert StashPlaced(stash + blocks, m, w');
    forall u | u in sv'.buckets
      ensures BucketPlaced(sv.level, u, RealOf(sv'.buckets[u]), home, m, w')
    {
      PullOtherBucket(home, sv, m, w, l, x, u);
    }
    forall id | id in m
      ensures Located(id, home, stash + blocks, sv', m, w')
    {
      PullLocated(home, stash, sv, m, w, l, x, id);
    }
  }

  lemma PullOtherBucket(home: PositionMap, sv: Server, m: Memory, w: map<nat, Place>, l: nat, x: nat, u: Tag)
    requires l <= sv.level && u in sv.buckets && u.0 <= sv.level
    requires BucketPlaced(sv.level, u, RealOf(sv.buckets[u]), home, m, w)
    ensures BucketPlaced(sv.level, u, RealOf(AfterRead(sv, l, x).buckets[u]), home, m,
                         PulledPlaces(sv.level, home, w, l, x))
  {
    RealOfCleared(sv.buckets[u]);
  }

  lemma PullLocated(home: PositionMap, stash: seq<Block>, sv: Server, m: Memory, w: map<nat, Place>, l: nat, x: nat,
                    id: nat)
    requires l <= sv.level && id in m && Located(id, home, stash, sv, m, w)
    ensures Located(id, home, stash + RealOf(BucketOn(sv, l, x)), AfterRead(sv, l, x), m,
                    PulledPlaces(sv.level, home, w, l, x))
  {
    var t := TagOn(sv.level, l, x);
    match w[id] {
      case InStash =>
      case AtLevel(k) =>
        var u := TagOn(sv.level, k, home[id]);
        if u == t {
          assert w[id] == AtLevel(l);
        }
    }
  }

  // ----- the whole read phase ---------------------------------------------------------------------

  function OnPath(level: nat, l: nat, a: nat, b: nat): bool {
    l <= level && Offset(level, l, a) == Offset(level, l, b)
  }

  function PulledTo(level: nat, home: PositionMap, w: map<nat, Place>, x: nat, n: nat): map<nat, Place> {
    map id | id in w ::
      if w[id].AtLevel? && w[id].l < n && id in home && OnPath(level, w[id].l, home[id], x) then InStash else w[id]
  }

  /** The normal blocks of levels 0..n-1 on path x, root first. */
  function PathReal(sv: Server, x: nat, n: nat): seq<Block>
    requires n <= sv.level + 1
  {
    if n == 0 then [] else PathReal(sv, x, n - 1) + RealOf(BucketOn(sv, n - 1, x))
  }

  lemma AfterReadBucket(sv: Server, l: nat, k: nat, x: nat)
    requires l <= sv.level && k <= sv.level
    ensures BucketOn(AfterRead(sv, l, x), k, x) == if k == l then Cleared(BucketOn(sv, l, x)) else BucketOn(sv, k, x)
  {
  }

  /** Reading touches only the levels read so far. */
  lemma {:induction false} ReadLevelsBuckets(sv: Server, x: nat, n: nat, l: nat)
    requires n <= sv.level + 1 && l <= sv.level
    ensures BucketOn(ReadLevels(sv, x, n), l, x) ==
            if l < n then Cleared(BucketOn(sv, l, x)) else BucketOn(sv, l, x)
  {
    hide BucketOn, AfterRead;
    if n > 0 {
      ReadLevelsBuckets(sv, x, n - 1, l);
      AfterReadBucket(ReadLevels(sv, x, n - 1), n - 1, l, x);
    }
  }

  lemma NothingRead(sv: Server, x: nat)
    ensures PathBuckets(sv, x, 0) == [] && ReadLevels(sv, x, 0) == sv && TotalLength([]) == 0
  {
  }

  /** Reading one more level hands out that level's bucket. */
  lemma OneMoreLevel(sv: Server, x: nat, n: nat)
    requires n <= sv.level
    ensures var bucket := Contents(BucketOn(ReadLevels(sv, x, n), n, x));
      && PathBuckets(sv, x, n + 1) == PathBuckets(sv, x, n) + [bucket]
      && ReadLevels(sv, x, n + 1) == AfterRead(ReadLevels(sv, x, n), n, x)
      && TotalLength(PathBuckets(sv, x, n + 1)) == TotalLength(PathBuckets(sv, x, n)) + |bucket|
  {
    hide Contents, BucketOn, AfterRead;
    ReadLevelsBuckets(sv, x, n, n);
    assert PathBuckets(sv, x, n + 1)[..n] == PathBuckets(sv, x, n);
  }

  lemma PulledToNext(level: nat, home: PositionMap, w: map<nat, Place>, x: nat, n: nat)
    requires n <= level
    ensures PulledTo(level, home, w, x, n + 1) == PulledPlaces(level, home, PulledTo(level, home, w, x, n), n, x)
  {
    hide Offset;
  }

  /** The read phase: the stash gains the path's normal blocks, root first, and the invariant holds after each level. */
  lemma {:induction false} PullPath(home: PositionMap, stash: seq<Block>, sv: Server, m: Memory, w: map<nat, Place>,
                                    x: nat, n: nat)
    requires Placed(home, stash, sv, m, w)
    requires n <= sv.level + 1 && x < Pow2(sv.level)
    ensures AbsorbPath(stash, PathBuckets(sv, x, n)) == stash + PathReal(sv, x, n)
    ensures Placed(home, stash + PathReal(sv, x, n), ReadLevels(sv, x, n), m, PulledTo(sv.level, home, w, x, n))
  {
    if n == 0 {
      assert stash + PathReal(sv, x, 0) == stash;
      assert PulledTo(sv.level, home, w, x, 0) == w;
    } else {
      PullPath(home, stash, sv, m, w, x, n - 1);
      PullNext(home, stash, sv, m, w, x, n);
    }
  }

  lemma PullNext(home: PositionMap, stash: seq<Block>, sv: Server, m: Memory, w: map<nat, Place>, x: nat, n: nat)
    requires WellShaped(sv) && 0 < n <= sv.level + 1 && x < Pow2(sv.level)
    requires AbsorbPath(stash, PathBuckets(sv, x, n - 1)) == stash + PathReal(sv, x, n - 1)
    requires Placed(home, stash + PathReal(sv, x, n - 1), ReadLevels(sv, x, n - 1), m,
                    PulledTo(sv.level, home, w, x, n - 1))
    ensures AbsorbPath(stash, PathBuckets(sv, x, n)) == stash + PathReal(sv, x, n)
    ensures Placed(home, stash + PathReal(sv, x, n), ReadLevels(sv, x, n), m, PulledTo(sv.level, home, w, x, n))
  {
    hide Placed, RealOf, BucketOn, AfterRead, PulledTo, PulledPlaces, Absorb;
    var stash1, sv1, w1 := stash + PathReal(sv, x, n - 1), ReadLevels(sv, x, n - 1),
      PulledTo(sv.level, home, w, x, n - 1);
    ReadLevelsBuckets(sv, x, n - 1, n - 1);
    PulledToNext(sv.level, home, w, x, n - 1);
    PullLevel(home, stash1, sv1, m, w1, n - 1, x);
    assert PathBuckets(sv, x, n)[..n - 1] == PathBuckets(sv, x, n - 1);
    assert stash + PathReal(sv, x, n) == stash1 + RealOf(BucketOn(sv, n - 1, x));
  }

  /** The stash search finds a block exactly when it is live and in the stash. */
  lemma FindLive(home: PositionMap, stash: seq<Block>, sv: Server, m: Memory, w: map<nat, Place>, id: nat)
    requires Placed(home, stash, sv, m, w)
    ensures FindBlock(stash, id) < |stash| <==> id in m && w[id] == InStash
    ensures FindBlock(stash, id) < |stash| ==> stash[FindBlock(stash, id)] == Live(m, id)
  {
    var i := FindBlock(stash, id);
    if i < |stash| {
      assert stash[i] in stash;
    }
    if id in m && w[id] == InStash {
      assert Located(id, home, stash, sv, m, w);
      var k :| 0 <= k < |stash| && stash[k] == Live(m, id);
    }
  }

  // ----- the update -------------------------------------------------------------------------------

  /** Leaves may change freely for blocks in the stash. */
  lemma Rehome(home: PositionMap, home': PositionMap, stash: seq<Block>, sv: Server, m: Memory, w: map<nat, Place>)
    requires Placed(home, stash, sv, m, w)
    requires forall id :: id in m ==>
      id in home' && home'[id] < Pow2(sv.level) && (w[id] == InStash || home'[id] == home[id])
    ensures Placed(home', stash, sv, m, w)
  {
    forall t | t in sv.buckets
      ensures BucketPlaced(sv.level, t, RealOf(sv.buckets[t]), home', m, w)
    {
      assert BucketPlaced(sv.level, t, RealOf(sv.buckets[t]), home, m, w);
    }
    forall id | id in m
      ensures Located(id, home', stash, sv, m, w)
    {
      assert Located(id, home, stash, sv, m, w);
    }
  }

  lemma WriteInStash(home: PositionMap, stash: seq<Block>, sv: Server, m: Memory, w: map<nat, Place>, i: nat,
                     cell: Cell)
    requires Placed(home, stash, sv, m, w) && i < |stash|
    ensures Placed(home, stash[i := stash[i].(cell := cell)], sv, m[stash[i].id := cell], w)
  {
    var id := stash[i].id;
    assert stash[i] in stash;
    var stash', m' := stash[i := stash[i].(cell := cell)], m[id := cell];
    assert stash'[i] in stash';
    assert forall k :: 0 <= k < |stash| && k != i ==> stash'[k] == stash[k] && stash[k] in stash && stash[k].id != id;
    assert StashPlaced(stash', m', w);
    forall t | t in sv.buckets
      ensures BucketPlaced(sv.level, t, RealOf(sv.buckets[t]), home, m', w)
    {
      assert BucketPlaced(sv.level, t, RealOf(sv.buckets[t]), home, m, w);
    }
    forall k | k in m'
      ensures Located(k, home, stash', sv, m', w)
    {
      assert Located(k, home, stash, sv, m, w);
      if k != id && w[k] == InStash {
        var j :| 0 <= j < |stash| && stash[j] == Live(m, k);
        assert stash'[j] == Live(m', k);
      }
    }
  }

  lemma RemoveFromStash(home: PositionMap, stash: seq<Block>, sv: Server, m: Memory, w: map<nat, Place>, i: nat)
    requires Placed(home, stash, sv, m, w) && i < |stash|
    ensures Placed(home - {stash[i].id}, Without(stash, i), sv, m - {stash[i].id}, w)
  {
    var id := stash[i].id;
    assert stash[i] in stash;
    var stash', m', home' := Without(stash, i), m - {id}, home - {id};
    RemovedOthers(stash, i);
    assert StashPlaced(stash', m', w);
    forall t | t in sv.buckets
      ensures BucketPlaced(sv.level, t, RealOf(sv.buckets[t]), home', m', w)
    {
      assert BucketPlaced(sv.level, t, RealOf(sv.buckets[t]), home, m, w);
    }
    forall k | k in m'
      ensures Located(k, home', stash', sv, m', w)
    {
      assert Located(k, home, stash, sv, m, w);
    }
  }

  lemma RemovedOthers(stash: seq<Block>, i: nat)
    requires DistinctIds(stash) && i < |stash|
    ensures DistinctIds(Without(stash, i))
    ensures forall b :: b in Without(stash, i) <==> b in stash && b.id != stash[i].id
  {
    assert stash == stash[..i] + [stash[i]] + stash[i + 1..];
  }

  // ----- the write phase --------------------------------------------------------------------------

  /** No normal block is left on path x. */
  ghost predicate PathEmpty(sv: Server, x: nat) {
    forall l :: 0 <= l <= sv.level ==> RealOf(BucketOn(sv, l, x)) == []
  }

  function EvictedPlaces(w: map<nat, Place>, taken: seq<Block>, l: nat): map<nat, Place> {
    map id | id in w :: if exists b :: b in taken && b.id == id then AtLevel(l) else w[id]
  }

  /** One level of write-back: blocks mapped to x move from the stash into an empty bucket on path x. */
  lemma EvictLevel(home: PositionMap, stash: seq<Block>, sv: Server, m: Memory, w: map<nat, Place>, l: nat, x: nat,
                   size: nat, pads: PadSource)
    requires Placed(home, stash, sv, m, w)
    requires l <= sv.level && x < Pow2(sv.level)
    requires RealOf(BucketOn(sv, l, x)) == []
    ensures var taken := Taken(stash, home, x, size);
      Placed(home, Kept(stash, home, x, size), AfterWrite(sv, l, x, Padded(taken, size, l, pads)), m,
             EvictedPlaces(w, taken, l))
  {
    hide AfterWrite, RealOf, Taken, Kept, Padded, BucketPlaced, EvictedPlaces, BucketOn, TagOn;
    var taken, kept := Taken(stash, home, x, size), Kept(stash, home, x, size);
    var sv' := AfterWrite(sv, l, x, Padded(taken, size, l, pads));
    var w' := EvictedPlaces(w, taken, l);
    TakenKeptSplit(stash, home, x, size);
    TakenKeptDistinct(stash, home, x, size);
    assert forall b :: b in taken ==> b in stash && b.kind == Normal;
    NormalsOfPadded(taken, size, l, pads);
    AfterWriteReal(sv, l, x, Padded(taken, size, l, pads), taken);
    KeptPlaced(stash, m, w, taken, kept, l);
    forall u | u in sv'.buckets
      ensures BucketPlaced(sv.level, u, RealOf(sv'.buckets[u]), home, m, w')
    {
      EvictBucket(home, stash, sv, m, w, l, x, taken, kept, sv', w', u);
    }
    forall id | id in m
      ensures Located(id, home, kept, sv', m, w')
    {
      assert Located(id, home, stash, sv, m, w);
      EvictLocated(home, stash, sv, m, w, l, x, taken, kept, sv', w', id);
    }
  }

  lemma AfterWriteReal(sv: Server, l: nat, x: nat, blocks: seq<Block>, taken: seq<Block>)
    requires WellShaped(sv) && l <= sv.level && x < Pow2(sv.level) && RealOf(Sealed(blocks)) == taken
    ensures var sv' := AfterWrite(sv, l, x, blocks);
      && WellShaped(sv') && sv'.level == sv.level && sv'.buckets.Keys == sv.buckets.Keys
      && TagOn(sv.level, l, x) in sv'.buckets
      && forall u :: u in sv'.buckets ==>
           RealOf(sv'.buckets[u]) == if u == TagOn(sv.level, l, x) then taken else RealOf(sv.buckets[u])
  {
    hide RealOf, Sealed, Offset;
    OffsetInRange(sv.level, l, x);
    assert IsTag(sv.level, TagOn(sv.level, l, x));
    assert AfterWrite(sv, l, x, blocks).buckets.Keys == sv.buckets.Keys;
  }

  lemma KeptPlaced(stash: seq<Block>, m: Memory, w: map<nat, Place>, taken: seq<Block>, kept: seq<Block>, l: nat)
    requires StashPlaced(stash, m, w) && DistinctIds(kept) && forall b :: b in kept ==> b in stash
    requires forall a, b :: a in taken && b in kept ==> a.id != b.id
    ensures StashPlaced(kept, m, EvictedPlaces(w, taken, l))
  {
  }

  lemma EvictBucket(home: PositionMap, stash: seq<Block>, sv: Server, m: Memory, w: map<nat, Place>, l: nat, x: nat,
                    taken: seq<Block>, kept: seq<Block>, sv': Server, w': map<nat, Place>, u: Tag)
    requires Placed(home, stash, sv, m, w) && l <= sv.level && u in sv.buckets
    requires sv'.level == sv.level && sv'.buckets.Keys == sv.buckets.Keys
    requires u in sv'.buckets
    requires RealOf(sv'.buckets[u]) == if u == TagOn(sv.level, l, x) then taken else RealOf(sv.buckets[u])
    requires w' == EvictedPlaces(w, taken, l) && DistinctIds(taken)
    requires forall b :: b in taken ==> b in stash && PosOf(home, b.id) == x
    ensures BucketPlaced(sv.level, u, RealOf(sv'.buckets[u]), home, m, w')
  {
    assert BucketPlaced(sv.level, u, RealOf(sv.buckets[u]), home, m, w);
    if u == TagOn(sv.level, l, x) {
      forall b | b in taken
        ensures b.id in home && Current(b, m) && b.id in w
      {
        assert Located(b.id, home, stash, sv, m, w);
      }
    }
  }

  lemma EvictLocated(home: PositionMap, stash: seq<Block>, sv: Server, m: Memory, w: map<nat, Place>, l: nat, x: nat,
                     taken: seq<Block>, kept: seq<Block>, sv': Server, w': map<nat, Place>, id: nat)
    requires StashPlaced(stash, m, w) && l <= sv.level && id in m
    requires Located(id, home, stash, sv, m, w)
    requires RealOf(BucketOn(sv, l, x)) == []
    requires sv'.level == sv.level && sv'.buckets.Keys == sv.buckets.Keys && TagOn(sv.level, l, x) in sv'.buckets
    requires forall u :: u in sv'.buckets ==> 
      RealOf(sv'.buckets[u]) == if u == TagOn(sv.level, l, x) then taken else RealOf(sv.buckets[u])
    requires w' == EvictedPlaces(w, taken, l)
    requires forall b :: b in taken ==> b in stash && PosOf(home, b.id) == x
    requires forall b :: b in stash ==> b in taken || b in kept
    ensures Located(id, home, kept, sv', m, w')
  {
    match w[id] {
      case InStash =>
        if Live(m, id) in taken {
          assert w'[id] == AtLevel(l);
        } else {
          assert w'[id] == InStash;
        }
      case AtLevel(k) =>
        assert forall b :: b in taken ==> b.id != id;
        assert w'[id] == AtLevel(k);
    }
  }

  function RefilledTo(home: PositionMap, stash: seq<Block>, sv: Server, w: map<nat, Place>, x: nat, size: nat,
                      pads: PadSource, lo: nat): map<nat, Place>
    requires lo <= sv.level + 1
    decreases sv.level + 1 - lo
  {
    if lo == sv.level + 1 then w
    else EvictedPlaces(RefilledTo(home, stash, sv, w, x, size, pads, lo + 1),
                       Taken(Refill(home, stash, sv, x, size, pads, lo + 1).stash, home, x, size), lo)
  }

  lemma AfterWriteBucket(sv: Server, l: nat, k: nat, x: nat, blocks: seq<Block>)
    requires l <= sv.level && k <= sv.level && k != l
    ensures BucketOn(AfterWrite(sv, l, x, blocks), k, x) == BucketOn(sv, k, x)
  {
  }

  /** Write-back touches only the levels written so far. */
  lemma {:induction false} RefillBuckets(pos: PositionMap, stash: seq<Block>, sv: Server, x: nat, size: nat,
                                         pads: PadSource, lo: nat, l: nat)
    requires l < lo <= sv.level + 1
    ensures BucketOn(Refill(pos, stash, sv, x, size, pads, lo).server, l, x) == BucketOn(sv, l, x)
    decreases sv.level + 1 - lo
  {
    hide BucketOn, AfterWrite;
    if lo <= sv.level {
      RefillBuckets(pos, stash, sv, x, size, pads, lo + 1, l);
      var below := Refill(pos, stash, sv, x, size, pads, lo + 1);
      AfterWriteBucket(below.server, lo, l, x, Padded(Taken(below.stash, pos, x, size), size, lo, pads));
    }
  }

  /** The write phase keeps the invariant after each level, from the leaf up. */
  lemma {:induction false} RefillPath(home: PositionMap, stash: seq<Block>, sv: Server, m: Memory, w: map<nat, Place>,
                                      x: nat, size: nat, pads: PadSource, lo: nat)
    requires Placed(home, stash, sv, m, w)
    requires lo <= sv.level + 1 && x < Pow2(sv.level)
    requires PathEmpty(sv, x)
    ensures var r := Refill(home, stash, sv, x, size, pads, lo);
      Placed(home, r.stash, r.server, m, RefilledTo(home, stash, sv, w, x, size, pads, lo))
    decreases sv.level + 1 - lo
  {
    hide Placed, RealOf, BucketOn, AfterWrite, EvictedPlaces, Kept;
    if lo <= sv.level {
      RefillPath(home, stash, sv, m, w, x, size, pads, lo + 1);
      var below := Refill(home, stash, sv, x, size, pads, lo + 1);
      RefillBuckets(home, stash, sv, x, size, pads, lo + 1, lo);
      EvictLevel(home, below.stash, below.server, m, RefilledTo(home, stash, sv, w, x, size, pads, lo + 1), lo, x,
                 size, pads);
    }
  }

  /** One copy only: two places that hold a normal block of the same id are the same place. */
  lemma OneCopy(home: PositionMap, stash: seq<Block>, sv: Server, m: Memory, w: map<nat, Place>, a: Block, b: Block)
    requires Placed(home, stash, sv, m, w) && a.id == b.id
    ensures a in stash && b in stash ==> a == b
    ensures forall t :: t in sv.buckets && a in stash ==> b !in RealOf(sv.buckets[t])
    ensures forall t, u | t in sv.buckets && u in sv.buckets ::
      a in RealOf(sv.buckets[t]) && b in RealOf(sv.buckets[u]) ==> t == u && a == b
  {
    forall t, u | t in sv.buckets && u in sv.buckets && a in RealOf(sv.buckets[t]) && b in RealOf(sv.buckets[u])
      ensures t == u && a == b
    {
      assert BucketPlaced(sv.level, t, RealOf(sv.buckets[t]), home, m, w);
      assert BucketPlaced(sv.level, u, RealOf(sv.buckets[u]), home, m, w);
    }
  }
}
