/** Why the initial bottom-up fill establishes the placement invariant. */
module PathOramFill {
  import opened OramDefs
  import opened Geometry
  import opened TreeStorage
  import opened PathOramModel
  import opened PathOramPlacement
  import opened PathOramTranscript

  /** The memory loaded from a sequence of blocks: one cell per normal block. */
  function Loaded(data: seq<Block>): Memory {
    if data == [] then map[] else
    var last := data[|data| - 1];
    if last.kind == Normal then Loaded(data[..|data| - 1])[last.id := last.cell] else Loaded(data[..|data| - 1])
  }

  ghost predicate DistinctNormals(data: seq<Block>) {
    forall i, j :: 0 <= i < j < |data| && data[i].kind == Normal && data[j].kind == Normal ==> data[i].id != data[j].id
  }

  lemma {:induction false} LoadedKeys(data: seq<Block>)
    ensures forall id :: id in Loaded(data) <==> exists k :: 0 <= k < |data| && Matches(data[k], id)
  {
    if data != [] {
      var n := |data| - 1;
      LoadedKeys(data[..n]);
      assert data[n].kind == Normal ==> Matches(data[n], data[n].id);
    }
  }

  /** With normal ids distinct, the loaded memory holds precisely the normal blocks. */
  lemma {:induction false} LoadedExactly(data: seq<Block>)
    requires DistinctNormals(data)
    ensures forall b :: Current(b, Loaded(data)) <==> b in data && b.kind == Normal
  {
    if data != [] {
      var n := |data| - 1;
      LoadedExactly(data[..n]);
      LoadedKeys(data[..n]);
      assert data == data[..n] + [data[n]];
    }
  }

  lemma {:induction false} NormalsDistinct(data: seq<Block>)
    requires DistinctNormals(data)
    ensures DistinctIds(Normals(data))
  {
    if data != [] {
      var n := |data| - 1;
      NormalsDistinct(data[..n]);
      NormalsMembers(data[..n]);
      assert forall b :: b in data[..n] && b.kind == Normal && data[n].kind == Normal ==> b.id != data[n].id;
    }
  }

  lemma NotTwice(data: seq<Block>, n: nat, n': nat, a: Block, b: Block)
    requires DistinctNormals(data) && n <= n' <= |data|
    requires a in data[..n] && b in data[n..n'] && a.kind == Normal && b.kind == Normal
    ensures a.id != b.id
  {
    var k :| 0 <= k < n && data[..n][k] == a;
    var k' :| 0 <= k' < n' - n && data[n..n'][k'] == b;
    assert data[k] == a && data[n + k'] == b;
  }

  ghost predicate Extends(m: Memory, m': Memory, added: seq<Block>) {
    && DistinctIds(added)
    && (forall id :: id in m ==> id in m' && m'[id] == m[id])
    && (forall b :: b in added ==> b.id !in m && Current(b, m'))
    && (forall id :: id in m' ==> id in m || Live(m', id) in added)
  }

  /** Loading further blocks adds their cells and leaves the earlier ones alone. */
  lemma LoadedExtends(data: seq<Block>, n: nat, n': nat)
    requires DistinctNormals(data) && n <= n' <= |data|
    ensures Extends(Loaded(data[..n]), Loaded(data[..n']), Normals(data[n..n']))
  {
    var m, m', added := Loaded(data[..n]), Loaded(data[..n']), Normals(data[n..n']);
    hide Loaded, Normals;
    NormalsDistinct(data[n..n']);
    NormalsMembers(data[n..n']);
    LoadedExactly(data[..n]);
    LoadedExactly(data[..n']);
    assert data[..n'] == data[..n] + data[n..n'];
    forall id | id in m
      ensures id in m' && m'[id] == m[id]
    {
      assert Current(Live(m, id), m);
      assert Current(Live(m, id), m');
    }
    forall b | b in added
      ensures b.id !in m
    {
      if b.id in m {
        NotTwice(data, n, n', Live(m, b.id), b);
      }
    }
    forall id | id in m'
      ensures id in m || Live(m', id) in added
    {
      assert Current(Live(m', id), m');
      assert id !in m ==> !Current(Live(m', id), m);
    }
  }

  /** Whether the fill has already written bucket t when it works on bucket (l, j). */
  predicate Written(t: Tag, l: int, j: nat) {
    t.0 > l || (t.0 == l && t.1 < j)
  }

  /** State of the fill: the first n blocks are in place, written buckets are full, the others untouched. */
  ghost predicate FillState(pos: PositionMap, sv: Server, size: nat, data: seq<Block>, n: nat, w: map<nat, Place>,
                            l: int, j: nat)
    requires n <= |data|
  {
    && Placed(pos, [], sv, Loaded(data[..n]), w)
    && (forall id :: id in pos ==> pos[id] < Pow2(sv.level) && id in Loaded(data[..n]))
    && (forall t :: t in sv.buckets ==>
          if Written(t, l, j) then FullBucket(sv.buckets[t], size) else sv.buckets[t] == [])
  }

  /** How the position map grows while bucket (l, j) is put together. */
  ghost predicate Assigned(level: nat, pos: PositionMap, pos': PositionMap, bucket: seq<Block>, l: nat, j: nat)
    requires l <= level
  {
    && (forall id :: id in pos ==> id in pos' && ((exists b :: b in bucket && b.id == id) || pos'[id] == pos[id]))
    && (forall id :: id in pos' ==> id in pos || exists b :: b in bucket && b.id == id)
    && (forall b :: b in bucket ==> b.id in pos' && Offset(level, l, pos'[b.id]) == j)
  }

  lemma AssignNone(level: nat, pos: PositionMap, l: nat, j: nat)
    requires l <= level
    ensures Assigned(level, pos, pos, [], l, j)
  {
  }

  lemma AssignOne(level: nat, pos: PositionMap, pos': PositionMap, bucket: seq<Block>, l: nat, j: nat, b: Block,
                  path: nat)
    requires l <= level && Assigned(level, pos, pos', bucket, l, j) && Offset(level, l, path) == j
    ensures Assigned(level, pos, pos'[b.id := path], bucket + [b], l, j)
  {
    hide Offset;
    assert forall c :: c in bucket + [b] <==> c in bucket || c == b;
  }

  function FilledServer(sv: Server, t: Tag, blocks: seq<Block>): Server
    requires t in sv.buckets
  {
    sv.(buckets := sv.buckets[t := sv.buckets[t] + Sealed(blocks)])
  }

  function PlacesWith(w: map<nat, Place>, bucket: seq<Block>, l: nat): map<nat, Place> {
    w + map b | b in bucket :: b.id := AtLevel(l)
  }

  /** Appending a padded bucket of newly placed blocks to the untouched bucket (l, j) keeps the state of the fill. */
  lemma FillBucket(pos: PositionMap, pos': PositionMap, sv: Server, size: nat, data: seq<Block>, n: nat, n': nat,
                   w: map<nat, Place>, l: nat, j: nat, bucket: seq<Block>, tag: nat, pads: PadSource)
    requires DistinctNormals(data) && n <= n' <= |data| && l <= sv.level && j < Pow2(l)
    requires FillState(pos, sv, size, data, n, w, l, j)
    requires bucket == Normals(data[n..n']) && |bucket| <= size
    requires Assigned(sv.level, pos, pos', bucket, l, j)
    ensures (l, j) in sv.buckets
    ensures FillState(pos', FilledServer(sv, (l, j), Padded(bucket, size, tag, pads)), size, data, n',
                      PlacesWith(w, bucket, l), l, j + 1)
  {
    hide Placed, Loaded, Normals, Contents, Padded, Offset, FullBucket, Extends, Written;
    var t: Tag := (l, j);
    var blocks := Padded(bucket, size, tag, pads);
    FillTarget(pos, sv, size, data, n, w, l, j);
    LoadedExtends(data, n, n');
    NormalsMembers(data[n..n']);
    NormalsOfPadded(bucket, size, tag, pads);
    assert sv.buckets[t] + Sealed(blocks) == Sealed(blocks);
    FillPlaced(pos, pos', sv, Loaded(data[..n]), Loaded(data[..n']), w, l, j, bucket, blocks);
    FillLeaves(pos, pos', sv.level, l, j, bucket);
    FillMapped(pos, pos', sv.level, l, j, bucket, Loaded(data[..n]), Loaded(data[..n']));
    FillWritten(sv, size, l, j, Sealed(blocks));
  }

  lemma FillTarget(pos: PositionMap, sv: Server, size: nat, data: seq<Block>, n: nat, w: map<nat, Place>, l: nat,
                   j: nat)
    requires n <= |data| && l <= sv.level && j < Pow2(l) && FillState(pos, sv, size, data, n, w, l, j)
    ensures (l, j) in sv.buckets && sv.buckets[(l, j)] == []
  {
    var t: Tag := (l, j);
    assert IsTag(sv.level, t);
  }

  lemma FillWritten(sv: Server, size: nat, l: nat, j: nat, slots: seq<Slot>)
    requires (l, j) in sv.buckets && FullBucket(slots, size)
    requires forall t :: t in sv.buckets ==>
      if Written(t, l, j) then FullBucket(sv.buckets[t], size) else sv.buckets[t] == []
    ensures var b' := sv.buckets[(l, j) := slots];
      forall t :: t in b' ==> if Written(t, l, j + 1) then FullBucket(b'[t], size) else b'[t] == []
  {
  }

  lemma FillPlaced(pos: PositionMap, pos': PositionMap, sv: Server, m: Memory, m': Memory, w: map<nat, Place>, l: nat,
                   j: nat, bucket: seq<Block>, blocks: seq<Block>)
    requires Placed(pos, [], sv, m, w) && l <= sv.level && j < Pow2(l)
    requires (l, j) in sv.buckets && sv.buckets[(l, j)] == [] && RealOf(Sealed(blocks)) == bucket
    requires Assigned(sv.level, pos, pos', bucket, l, j)
    requires Extends(m, m', bucket)
    ensures Placed(pos', [], FilledServer(sv, (l, j), blocks), m', PlacesWith(w, bucket, l))
  {
    hide Normals, Contents, Offset, RealOf, Extends, Assigned, PlacesWith;
    var t: Tag := (l, j);
    var sv', w' := FilledServer(sv, t, blocks), PlacesWith(w, bucket, l);
    assert sv'.buckets[t] == Sealed(blocks);
    SameShape(sv, sv');
    forall u | u in sv'.buckets
      ensures BucketPlaced(sv.level, u, RealOf(sv'.buckets[u]), pos', m', w')
    {
      if u == t {
        FillThis(pos, pos', m, m', w, l, j, bucket, sv.level);
      } else {
        FillOther(pos, pos', m, m', w, l, j, bucket, sv.level, u, RealOf(sv.buckets[u]));
      }
    }
    FillLocateds(pos, pos', sv, m, m', w, l, j, bucket, sv');
  }

  lemma FillLeaves(pos: PositionMap, pos': PositionMap, level: nat, l: nat, j: nat, bucket: seq<Block>)
    requires l <= level && j < Pow2(l) && Assigned(level, pos, pos', bucket, l, j)
    requires forall id :: id in pos ==> pos[id] < Pow2(level)
    ensures forall id :: id in pos' ==> pos'[id] < Pow2(level)
  {
    forall id | id in pos'
      ensures pos'[id] < Pow2(level)
    {
      if exists b :: b in bucket && b.id == id {
        LeafRange(level, l, j, pos'[id]);
      }
    }
  }

  lemma FillMapped(pos: PositionMap, pos': PositionMap, level: nat, l: nat, j: nat, bucket: seq<Block>, m: Memory,
                   m': Memory)
    requires l <= level && Assigned(level, pos, pos', bucket, l, j) && Extends(m, m', bucket)
    requires forall id :: id in pos ==> id in m
    ensures forall id :: id in pos' ==> id in m'
  {
    hide Offset;
  }

  lemma FillThis(pos: PositionMap, pos': PositionMap, m: Memory, m': Memory, w: map<nat, Place>, l: nat, j: nat,
                 bucket: seq<Block>, level: nat)
    requires l <= level && Assigned(level, pos, pos', bucket, l, j)
    requires Extends(m, m', bucket)
    ensures BucketPlaced(level, (l, j), bucket, pos', m', PlacesWith(w, bucket, l))
  {
    hide Offset;
  }

  lemma FillLocateds(pos: PositionMap, pos': PositionMap, sv: Server, m: Memory, m': Memory, w: map<nat, Place>,
                     l: nat, j: nat, bucket: seq<Block>, sv': Server)
    requires l <= sv.level && j < Pow2(l) && (l, j) in sv.buckets && sv.buckets[(l, j)] == []
    requires sv'.level == sv.level && sv'.buckets.Keys == sv.buckets.Keys
    requires forall u :: u in sv.buckets && u != (l, j) ==> sv'.buckets[u] == sv.buckets[u]
    requires RealOf(sv'.buckets[(l, j)]) == bucket
    requires forall id :: id in m ==> Located(id, pos, [], sv, m, w)
    requires Assigned(sv.level, pos, pos', bucket, l, j)
    requires Extends(m, m', bucket)
    ensures forall id :: id in m' ==> Located(id, pos', [], sv', m', PlacesWith(w, bucket, l))
  {
    forall id | id in m'
      ensures Located(id, pos', [], sv', m', PlacesWith(w, bucket, l))
    {
      if id in m {
        FillLocated(pos, pos', sv, m, m', w, l, j, bucket, sv', id);
      } else {
        assert Live(m', id) in bucket;
        LeafRange(sv.level, l, j, pos'[id]);
      }
    }
  }

  lemma FillOther(pos: PositionMap, pos': PositionMap, m: Memory, m': Memory, w: map<nat, Place>, l: nat, j: nat,
                  bucket: seq<Block>, level: nat, u: Tag, blocks: seq<Block>)
    requires l <= level && u.0 <= level && BucketPlaced(level, u, blocks, pos, m, w)
    requires Assigned(level, pos, pos', bucket, l, j)
    requires Extends(m, m', bucket)
    ensures BucketPlaced(level, u, blocks, pos', m', PlacesWith(w, bucket, l))
  {
    hide Offset;
    forall b | b in blocks
      ensures b.id in pos' && pos'[b.id] == pos[b.id] && PlacesWith(w, bucket, l)[b.id] == w[b.id]
    {
      assert forall c :: c in bucket ==> c.id != b.id;
    }
  }

  lemma FillLocated(pos: PositionMap, pos': PositionMap, sv: Server, m: Memory, m': Memory, w: map<nat, Place>, l: nat,
                    j: nat, bucket: seq<Block>, sv': Server, id: nat)
    requires l <= sv.level && (l, j) in sv.buckets && sv.buckets[(l, j)] == []
    requires sv'.level == sv.level && sv'.buckets.Keys == sv.buckets.Keys
    requires forall u :: u in sv.buckets && u != (l, j) ==> sv'.buckets[u] == sv.buckets[u]
    requires id in m && Located(id, pos, [], sv, m, w)
    requires Assigned(sv.level, pos, pos', bucket, l, j)
    requires Extends(m, m', bucket)
    ensures id in m' && Located(id, pos', [], sv', m', PlacesWith(w, bucket, l))
  {
    hide Offset;
    assert forall c :: c in bucket ==> c.id != id;
    assert pos'[id] == pos[id] && PlacesWith(w, bucket, l)[id] == w[id];
    assert RealOf([]) == [];
  }

  /** Leaving a level: every bucket of it has been written. */
  lemma FillLevelDone(pos: PositionMap, sv: Server, size: nat, data: seq<Block>, n: nat, w: map<nat, Place>, l: nat)
    requires n <= |data| && FillState(pos, sv, size, data, n, w, l, Pow2(l))
    ensures FillState(pos, sv, size, data, n, w, l - 1, 0)
  {
    hide Placed, FullBucket;
    assert forall t :: t in sv.buckets ==> (Written(t, l, Pow2(l)) <==> Written(t, l - 1, 0)) by {
      assert Placed(pos, [], sv, Loaded(data[..n]), w);
      WellShapedOf(pos, sv, Loaded(data[..n]), w);
    }
  }

  lemma WellShapedOf(pos: PositionMap, sv: Server, m: Memory, w: map<nat, Place>)
    requires Placed(pos, [], sv, m, w)
    ensures WellShaped(sv)
  {
  }

  /** Before the fill: nothing placed, nothing written. */
  lemma FillStart(sv: Server, size: nat, data: seq<Block>)
    requires WellShaped(sv) && forall t :: t in sv.buckets ==> sv.buckets[t] == []
    ensures FillState(map[], sv, size, data, 0, map[], sv.level, 0)
  {
    assert Loaded(data[..0]) == map[];
    forall t | t in sv.buckets
      ensures !Written(t, sv.level, 0) && BucketPlaced(sv.level, t, RealOf(sv.buckets[t]), map[], map[], map[])
    {
      assert IsTag(sv.level, t);
      assert RealOf([]) == [];
    }
  }

  /** After the fill: every bucket is full and every loaded block is placed. */
  lemma FillEnd(pos: PositionMap, sv: Server, size: nat, data: seq<Block>, n: nat, w: map<nat, Place>)
    requires n <= |data| && FillState(pos, sv, size, data, n, w, -1, 0)
    ensures Placed(pos, [], sv, Loaded(data[..n]), w) && AllFull(sv, size)
    ensures forall id :: id in pos ==> pos[id] < Pow2(sv.level) && id in Loaded(data[..n])
  {
    hide Placed, FullBucket;
    assert forall t :: t in sv.buckets ==> Written(t, -1, 0);
  }

  lemma NormalsGrow(data: seq<Block>, n: nat, n': nat)
    requires n <= n' < |data|
    ensures Normals(data[n..n' + 1]) == Normals(data[n..n']) + if data[n'].kind == Normal then [data[n']] else []
  {
    assert data[n..n' + 1][..n' - n] == data[n..n'];
  }

  function Min(a: nat, b: nat): nat {
    if a <= b then a else b
  }

  // ----- who goes where ---------------------------------------------------------------------------

  /** How many buckets are filled before those of level l: all deeper ones. */
  function FirstRank(level: nat, l: nat): nat
    requires l <= level
    decreases level - l
  {
    if l == level then 0 else FirstRank(level, l + 1) + Pow2(l + 1)
  }

  lemma {:induction false} FirstRankValue(level: nat, l: nat)
    requires l <= level
    ensures FirstRank(level, l) == Pow2(level + 1) - Pow2(l + 1)
    decreases level - l
  {
    if l < level {
      FirstRankValue(level, l + 1);
    }
  }

  /** The bucket filled as number `rank`: leaves first, left to right, then the levels above. */
  function TagOfRank(l: nat, rank: nat): (t: Tag)
    ensures t.0 <= l
  {
    if l == 0 || rank < Pow2(l) then (l, rank) else TagOfRank(l - 1, rank - Pow2(l))
  }

  lemma {:induction false} RankOfTag(level: nat, l: nat, j: nat)
    requires l <= level && j < Pow2(l)
    ensures TagOfRank(level, FirstRank(level, l) + j) == (l, j)
    decreases level
  {
    FirstRankValue(level, l);
    if l < level {
      Pow2Monotone(l, level);
      FirstRankValue(level - 1, l);
      RankOfTag(level - 1, l, j);
    }
  }

  /** Leaves for the data: that of each normal block which fits lies below the block's bucket. */
  ghost predicate StartsBelow(level: nat, size: nat, data: seq<Block>, starts: seq<nat>)
    requires size >= 1
  {
    && |starts| == |data|
    && forall k :: 0 <= k < |data| && k < TreeSlots(level, size) && data[k].kind == Normal ==>
         starts[k] in LeavesUnder(level, BucketOf(level, size, k))
  }

  /** The bucket that the k-th block goes to. */
  function BucketOf(level: nat, size: nat, k: nat): (t: Tag)
    requires size >= 1
    ensures t.0 <= level
  {
    DivBounds(k, size);
    TagOfRank(level, k / size)
  }

  ghost function LeavesUnder(level: nat, t: Tag): set<nat>
    requires t.0 <= level
  {
    set path: nat | path < Pow2(level) && Offset(level, t.0, path) == t.1
  }

  /** The part of `StartsBelow` that concerns bucket (l, j), filled from the blocks at `start` and after. */
  ghost predicate ShareStarts(level: nat, size: nat, data: seq<Block>, starts: seq<nat>, l: nat, j: nat, start: nat)
    requires l <= level
  {
    && |starts| == |data|
    && forall k :: start <= k < |data| && k < start + size && data[k].kind == Normal ==>
         Offset(level, l, starts[k]) == j
  }

  lemma StartsInShare(level: nat, size: nat, data: seq<Block>, starts: seq<nat>, l: nat, j: nat, rank: nat, start: nat)
    requires size >= 1 && l <= level && j < Pow2(l) && StartsBelow(level, size, data, starts)
    requires rank == FirstRank(level, l) + j && start == Min(|data|, Times(rank, size))
    ensures ShareStarts(level, size, data, starts, l, j, start)
  {
    hide FirstRank, Offset, TagOfRank, LeavesUnder, Pow2;
    RankOfTag(level, l, j);
    forall k | start <= k < |data| && k < start + size && data[k].kind == Normal
      ensures Offset(level, l, starts[k]) == j
    {
      RankInTree(level, l, j);
      DivUnique(k, size, rank);
      SlotInTree(level, size, k, rank);
      LeafUnder(level, (l, j), starts[k]);
    }
  }

  lemma LeafUnder(level: nat, t: Tag, path: nat)
    requires t.0 <= level && path in LeavesUnder(level, t)
    ensures Offset(level, t.0, path) == t.1 && path < Pow2(level)
  {
  }

  lemma RankInTree(level: nat, l: nat, j: nat)
    requires l <= level && j < Pow2(l)
    ensures FirstRank(level, l) + j + 1 <= Pow2(level + 1) - 1
  {
    FirstRankValue(level, l);
  }

  lemma SlotInTree(level: nat, size: nat, k: nat, rank: nat)
    requires rank + 1 <= Pow2(level + 1) - 1 && Times(rank, size) <= k < Times(rank, size) + size
    ensures k < TreeSlots(level, size)
  {
    hide Pow2;
    TimesStep(rank, size);
    MulMonotone(rank + 1, Pow2(level + 1) - 1, size);
  }

  /** The first n blocks have the positions drawn for them. */
  ghost predicate StartedAt(pos: PositionMap, data: seq<Block>, starts: seq<nat>, n: nat)
    requires n <= |data| == |starts|
  {
    forall k :: 0 <= k < n && data[k].kind == Normal ==> data[k].id in pos && pos[data[k].id] == starts[k]
  }

  lemma NothingStarted(level: nat, size: nat, data: seq<Block>, starts: seq<nat>)
    requires size >= 1 && StartsBelow(level, size, data, starts)
    ensures |data| == |starts| && StartedAt(map[], data, starts, 0)
  {
  }

  lemma StartOne(pos: PositionMap, data: seq<Block>, starts: seq<nat>, n: nat)
    requires n < |data| == |starts| && DistinctNormals(data) && StartedAt(pos, data, starts, n)
    ensures StartedAt(if data[n].kind == Normal then pos[data[n].id := starts[n]] else pos, data, starts, n + 1)
  {
  }

  /** The blocks of the bucket filled as number `rank`. */
  function Share(data: seq<Block>, size: nat, rank: nat): seq<Block> {
    TimesStep(rank, size);
    data[Min(|data|, Times(rank, size))..Min(|data|, Times(rank + 1, size))]
  }

  lemma ShareFrom(data: seq<Block>, size: nat, rank: nat)
    ensures var start := Min(|data|, Times(rank, size));
      Share(data, size, rank) == data[start..Min(|data|, start + size)]
  {
    TimesStep(rank, size);
  }

  /** Bucket t holds its share of the data. */
  ghost predicate HoldsShare(sv: Server, size: nat, data: seq<Block>, t: Tag)
    requires t in sv.buckets && t.0 <= sv.level
  {
    RealOf(sv.buckets[t]) == Normals(Share(data, size, FirstRank(sv.level, t.0) + t.1))
  }

  /** Every bucket written so far holds its share of the data: deepest level first, left to right. */
  ghost predicate LaidOut(sv: Server, size: nat, data: seq<Block>, l: int, j: nat) {
    forall t :: t in sv.buckets && t.0 <= sv.level && Written(t, l, j) ==> HoldsShare(sv, size, data, t)
  }

  lemma LaidOutStart(sv: Server, size: nat, data: seq<Block>)
    ensures LaidOut(sv, size, data, sv.level, 0)
  {
  }

  lemma SameShare(sv: Server, sv': Server, size: nat, data: seq<Block>, t: Tag)
    requires t in sv.buckets && t in sv'.buckets && sv'.buckets[t] == sv.buckets[t] && sv'.level == sv.level
    requires t.0 <= sv.level && HoldsShare(sv, size, data, t)
    ensures HoldsShare(sv', size, data, t)
  {
  }

  lemma LaidOutStep(sv: Server, sv': Server, size: nat, data: seq<Block>, l: nat, j: nat)
    requires LaidOut(sv, size, data, l, j) && l <= sv.level && sv'.level == sv.level
      && sv'.buckets.Keys == sv.buckets.Keys
    requires forall t :: t in sv.buckets && t != (l, j) ==> sv'.buckets[t] == sv.buckets[t]
    requires (l, j) in sv'.buckets && HoldsShare(sv', size, data, (l, j))
    ensures LaidOut(sv', size, data, l, j + 1)
  {
    hide HoldsShare;
    forall t | t in sv'.buckets && t.0 <= sv.level && Written(t, l, j + 1)
      ensures HoldsShare(sv', size, data, t)
    {
      if t != (l, j) {
        assert t in sv.buckets.Keys && Written(t, l, j);
        SameShare(sv, sv', size, data, t);
      }
    }
  }

  /** Bucket (l, j), filled as number `rank` from the blocks at `start` and after, has its share. */
  lemma LaidOutNext(sv: Server, sv': Server, size: nat, data: seq<Block>, l: nat, j: nat, rank: nat, start: nat)
    requires LaidOut(sv, size, data, l, j) && l <= sv.level && sv'.level == sv.level
      && sv'.buckets.Keys == sv.buckets.Keys
    requires forall t :: t in sv.buckets && t != (l, j) ==> sv'.buckets[t] == sv.buckets[t]
    requires rank == FirstRank(sv.level, l) + j && start == Min(|data|, Times(rank, size))
    requires (l, j) in sv'.buckets && RealOf(sv'.buckets[(l, j)]) == Normals(data[start..Min(|data|, start + size)])
    ensures LaidOut(sv', size, data, l, j + 1)
    ensures Min(|data|, start + size) == Min(|data|, Times(rank + 1, size))
  {
    hide LaidOut, RealOf, Normals, FirstRank, Share, Times;
    TimesStep(rank, size);
    ShareFrom(data, size, rank);
    LaidOutStep(sv, sv', size, data, l, j);
  }

  lemma BucketReal(data: seq<Block>, bucket: seq<Block>, slots: seq<Slot>, size: nat, tag: nat, pads: PadSource)
    requires bucket == Normals(data) && slots == []
    ensures RealOf(slots + Sealed(Padded(bucket, size, tag, pads))) == bucket
  {
    NormalsMembers(data);
    NormalsOfPadded(bucket, size, tag, pads);
    assert slots + Sealed(Padded(bucket, size, tag, pads)) == Sealed(Padded(bucket, size, tag, pads));
  }

  lemma LaidOutLevelDone(sv: Server, size: nat, data: seq<Block>, l: nat)
    requires LaidOut(sv, size, data, l, Pow2(l)) && WellShaped(sv)
    ensures LaidOut(sv, size, data, l - 1, 0)
  {
    hide HoldsShare;
    forall t | t in sv.buckets && t.0 <= sv.level && Written(t, l - 1, 0)
      ensures Written(t, l, Pow2(l))
    {
      assert IsTag(sv.level, t);
    }
  }
}
