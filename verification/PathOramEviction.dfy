/** Two exact accounts of an access: which blocks are written back where, and what the server gets to see. */
module PathOramEviction {
  import opened OramDefs
  import opened Geometry
  import opened TreeStorage
  import opened PathOramModel
  import opened PathOramPlacement
  import opened PathOramRefinement
  import opened PathOramFill

  // ----- greedy eviction --------------------------------------------------------------------------

  /** All stash blocks mapped to leaf x, in stash order. */
  function Matching(stash: seq<Block>, pos: PositionMap, x: nat): seq<Block> {
    if stash == [] then []
    else (if PosOf(pos, stash[0].id) == x then [stash[0]] else []) + Matching(stash[1..], pos, x)
  }

  /** The blocks of s outside `gone`, in order. */
  function Minus(s: seq<Block>, gone: seq<Block>): seq<Block> {
    if s == [] then [] else (if s[0] in gone then [] else [s[0]]) + Minus(s[1..], gone)
  }

  /** The normal blocks on path x, read from the leaf level up to level lo. */
  function LeafToRoot(sv: Server, x: nat, lo: nat): seq<Block>
    requires lo <= sv.level + 1
    decreases sv.level + 1 - lo
  {
    if lo == sv.level + 1 then [] else LeafToRoot(sv, x, lo + 1) + RealOf(BucketOn(sv, lo, x))
  }

  lemma {:induction false} TakenIsPrefix(stash: seq<Block>, pos: PositionMap, x: nat, room: nat)
    ensures Taken(stash, pos, x, room) == Matching(stash, pos, x)[..Min(room, |Matching(stash, pos, x)|)]
  {
    if stash != [] && room > 0 {
      TakenIsPrefix(stash[1..], pos, x, if PosOf(pos, stash[0].id) == x then room - 1 else room);
    }
  }

  lemma {:induction false} KeptIsRest(stash: seq<Block>, pos: PositionMap, x: nat, room: nat)
    requires DistinctIds(stash)
    ensures Kept(stash, pos, x, room) == Minus(stash, Taken(stash, pos, x, room))
  {
    if stash == [] {
    } else if room == 0 {
      KeptIsRest(stash[1..], pos, x, 0);
    } else {
      var here := PosOf(pos, stash[0].id) == x;
      var room' := if here then room - 1 else room;
      KeptIsRest(stash[1..], pos, x, room');
      TakenKeptSplit(stash[1..], pos, x, room');
      assert forall b :: b in stash[1..] ==> b.id != stash[0].id;
      if here {
        MinusIgnores(stash[1..], Taken(stash[1..], pos, x, room'), stash[0]);
      }
    }
  }

  lemma {:induction false} MinusIgnores(s: seq<Block>, gone: seq<Block>, b: Block)
    requires b !in s
    ensures Minus(s, [b] + gone) == Minus(s, gone)
  {
    if s != [] {
      MinusIgnores(s[1..], gone, b);
    }
  }

  lemma SkipKept(stash: seq<Block>, pos: PositionMap, x: nat, a: nat, b: nat)
    requires stash != [] && a > 0 && PosOf(pos, stash[0].id) != x
    ensures var k, k' := Kept(stash, pos, x, a), Kept(stash[1..], pos, x, a);
      && Taken(k, pos, x, b) == Taken(k', pos, x, b)
      && Kept(k, pos, x, b) == [stash[0]] + Kept(k', pos, x, b)
  {
    assert Kept(stash, pos, x, a) == [stash[0]] + Kept(stash[1..], pos, x, a);
    assert Kept(stash, pos, x, a)[1..] == Kept(stash[1..], pos, x, a);
  }

  /** Two rounds of taking are one round with the rooms added. */
  lemma {:induction false} TakenCompose(stash: seq<Block>, pos: PositionMap, x: nat, a: nat, b: nat)
    ensures Taken(stash, pos, x, a + b) == Taken(stash, pos, x, a) + Taken(Kept(stash, pos, x, a), pos, x, b)
    ensures Kept(stash, pos, x, a + b) == Kept(Kept(stash, pos, x, a), pos, x, b)
  {
    if stash == [] || a == 0 {
      NothingTaken(stash, pos, x, a);
    } else if PosOf(pos, stash[0].id) == x {
      TakenCompose(stash[1..], pos, x, a - 1, b);
      var all, first := Taken(stash[1..], pos, x, a - 1 + b), Taken(stash[1..], pos, x, a - 1);
      var second := Taken(Kept(stash[1..], pos, x, a - 1), pos, x, b);
      assert [stash[0]] + (first + second) == ([stash[0]] + first) + second;
      assert Taken(stash, pos, x, a + b) == [stash[0]] + all && Taken(stash, pos, x, a) == [stash[0]] + first;
    } else {
      TakenCompose(stash[1..], pos, x, a, b);
      SkipKept(stash, pos, x, a, b);
    }
  }

  lemma {:induction false} LeafToRootFrame(sv: Server, sv': Server, x: nat, lo: nat)
    requires sv.level == sv'.level && lo <= sv.level + 1
    requires forall l :: lo <= l <= sv.level ==> BucketOn(sv, l, x) == BucketOn(sv', l, x)
    ensures LeafToRoot(sv, x, lo) == LeafToRoot(sv', x, lo)
    decreases sv.level + 1 - lo
  {
    if lo <= sv.level {
      LeafToRootFrame(sv, sv', x, lo + 1);
    }
  }

  lemma WrittenBucket(sv: Server, l: nat, x: nat, stash: seq<Block>, pos: PositionMap, size: nat, pads: PadSource)
    requires WellShaped(sv) && l <= sv.level && x < Pow2(sv.level)
    requires forall b :: b in stash ==> b.kind == Normal
    ensures var taken := Taken(stash, pos, x, size);
      RealOf(BucketOn(AfterWrite(sv, l, x, Padded(taken, size, l, pads)), l, x)) == taken
  {
    OffsetInRange(sv.level, l, x);
    assert IsTag(sv.level, TagOn(sv.level, l, x));
    TakenKeptSplit(stash, pos, x, size);
    NormalsOfPadded(Taken(stash, pos, x, size), size, l, pads);
  }

  lemma {:induction false} RefillClosedForm(pos: PositionMap, stash: seq<Block>, sv: Server, x: nat, size: nat,
                                            pads: PadSource, lo: nat)
    requires WellShaped(sv) && lo <= sv.level + 1 && x < Pow2(sv.level)
    requires forall b :: b in stash ==> b.kind == Normal
    ensures var r := Refill(pos, stash, sv, x, size, pads, lo);
      var room := Times(sv.level + 1 - lo, size);
      && WellShaped(r.server) && r.stash == Kept(stash, pos, x, room)
      && LeafToRoot(r.server, x, lo) == Taken(stash, pos, x, room)
    decreases sv.level + 1 - lo
  {
    hide RealOf, BucketOn, AfterWrite, Kept, Taken, Padded, Times;
    if lo == sv.level + 1 {
      TimesStep(0, size);
      TakenIsPrefix(stash, pos, x, 0);
      NothingTaken(stash, pos, x, 0);
    } else {
      RefillClosedForm(pos, stash, sv, x, size, pads, lo + 1);
      var below := Refill(pos, stash, sv, x, size, pads, lo + 1);
      var after := Refill(pos, stash, sv, x, size, pads, lo).server;
      var room := Times(sv.level - lo, size);
      TimesStep(sv.level - lo, size);
      TakenCompose(stash, pos, x, room, size);
      TakenKeptSplit(stash, pos, x, room);
      WrittenBucket(below.server, lo, x, below.stash, pos, size, pads);
      forall l | lo + 1 <= l <= sv.level
        ensures BucketOn(after, l, x) == BucketOn(below.server, l, x)
      {
        AfterWriteBucket(below.server, lo, l, x, Padded(Taken(below.stash, pos, x, size), size, lo, pads));
      }
      LeafToRootFrame(below.server, after, x, lo + 1);
      assert after.buckets.Keys == below.server.buckets.Keys;
    }
  }

  /** The stash an access of leaf x evicts from: the pulled path joined to the stash, with the update applied. */
  function EvictableState(s: State, op: Operation, address: nat, x: nat, data: Block): State
    requires s.level == s.server.level
    requires FindBlock(Pulled(s, x).stash, address) < |Pulled(s, x).stash|
  {
    Updated(Pulled(s, x), op, address, FindBlock(Pulled(s, x).stash, address), data)
  }

  /**
   A successful access to leaf x writes back, counted from the leaf level up, exactly the first min(c, Z(L+1)) of the
   c stash blocks mapped to x, in stash order, and leaves the rest of the stash in order.
   */
  lemma EvictionClosedForm(s: State, home: PositionMap, m: Memory, w: map<nat, Place>, op: Operation, address: nat,
                           x: nat, data: Block, pads: PadSource)
    requires Ready(s, home, m, w, address, x)
    requires AccessDirect(s, op, address, x, data, pads).status == OK
    ensures var before, after := EvictableState(s, op, address, x, data),
      AccessDirect(s, op, address, x, data, pads).state;
      var matching := Matching(before.stash, before.pos, x);
      var written := matching[..Min(Times(s.level + 1, s.bucketSize), |matching|)];
      && LeafToRoot(after.server, x, 0) == written
      && after.stash == Minus(before.stash, written)
  {
    hide Ready, Placed, RealOf, BucketOn, Kept, Taken, Times, ReadLevels, Updated;
    ReadyParts(s, home, m, w, address, x);
    var before := EvictableState(s, op, address, x, data);
    EvictableIsPlaced(s, home, m, w, op, address, x, data);
    var room := Times(s.level + 1, s.bucketSize);
    RefillClosedForm(before.pos, before.stash, before.server, x, s.bucketSize, pads, 0);
    TakenIsPrefix(before.stash, before.pos, x, room);
    KeptIsRest(before.stash, before.pos, x, room);
  }

  lemma ReadyParts(s: State, home: PositionMap, m: Memory, w: map<nat, Place>, address: nat, x: nat)
    requires Ready(s, home, m, w, address, x)
    ensures s.server.level == s.level && x < Pow2(s.level)
  {
  }

  lemma EvictableIsPlaced(s: State, home: PositionMap, m: Memory, w: map<nat, Place>, op: Operation, address: nat,
                          x: nat, data: Block)
    requires Ready(s, home, m, w, address, x)
    requires FindBlock(Pulled(s, x).stash, address) < |Pulled(s, x).stash|
    ensures var before := EvictableState(s, op, address, x, data);
      && before.server == Pulled(s, x).server && WellShaped(before.server)
      && before.level == s.level && before.bucketSize == s.bucketSize
      && DistinctIds(before.stash) && forall b :: b in before.stash ==> b.kind == Normal
  {
    var s1, w1 := Pulled(s, x), PulledTo(s.level, home, w, x, s.level + 1);
    PulledIsPlaced(s, home, m, w, address, x);
    UpdatedState(s1, m, w1, op, address, data);
    UpdatedFrame(s1, op, address, FindBlock(s1.stash, address), data);
  }

  /** The same for `InternalAccess`, which evicts along the old leaf of the block it has just remapped. */
  lemma AccessEviction(s: State, m: Memory, w: map<nat, Place>, op: Operation, address: nat, leaf: nat, data: Block,
                       pads: PadSource)
    requires Invariant(s, m, w) && leaf < Pow2(s.level) && address in m
    ensures var s0, x := s.(pos := s.pos[address := leaf]), PosOf(s.pos, address);
      var after := Access(s, op, address, leaf, data, pads).state;
      && FindBlock(Pulled(s0, x).stash, address) < |Pulled(s0, x).stash|
      && var before := EvictableState(s0, op, address, x, data);
         var matching := Matching(before.stash, before.pos, x);
         var written := matching[..Min(Times(s.level + 1, s.bucketSize), |matching|)];
         LeafToRoot(after.server, x, 0) == written && after.stash == Minus(before.stash, written)
  {
    hide Placed, RealOf, BucketOn, Ready, AccessDirect, Updated, Pulled, Times, Matching, Minus, Invariant, FindBlock;
    hide Visible;
    var s0, x := s.(pos := s.pos[address := leaf]), PosOf(s.pos, address);
    LevelsAgree(s, m, w);
    RemappedIsReady(s, m, w, address, leaf);
    AccessKeeps(s, m, w, op, address, leaf, data, pads);
    OkMeansFound(s0, op, address, x, data, pads);
    EvictionClosedForm(s0, s.pos, m, w, op, address, x, data, pads);
  }

  lemma OkMeansFound(s: State, op: Operation, address: nat, x: nat, data: Block, pads: PadSource)
    requires s.level == s.server.level && AccessDirect(s, op, address, x, data, pads).status == OK
    ensures FindBlock(Pulled(s, x).stash, address) < |Pulled(s, x).stash|
  {
    hide Pulled, Updated, WrittenBack, FindBlock;
  }

  lemma {:induction false} LeafToRootMembers(sv: Server, x: nat, lo: nat, l: nat, b: Block)
    requires lo <= l <= sv.level && b in RealOf(BucketOn(sv, l, x))
    ensures b in LeafToRoot(sv, x, lo)
    decreases sv.level + 1 - lo
  {
    if lo < l {
      LeafToRootMembers(sv, x, lo + 1, l, b);
    }
  }

  /** After a successful access every normal block on the path is mapped to that very leaf. */
  lemma PathHoldsOnlyItsLeaf(s: State, home: PositionMap, m: Memory, w: map<nat, Place>, op: Operation, address: nat,
                             x: nat, data: Block, pads: PadSource, l: nat, b: Block)
    requires Ready(s, home, m, w, address, x) && l <= s.level
    requires AccessDirect(s, op, address, x, data, pads).status == OK
    requires b in RealOf(BucketOn(AccessDirect(s, op, address, x, data, pads).state.server, l, x))
    ensures PosOf(AccessDirect(s, op, address, x, data, pads).state.pos, b.id) == x
  {
    var before := EvictableState(s, op, address, x, data);
    EvictionClosedForm(s, home, m, w, op, address, x, data, pads);
    LeafToRootMembers(AccessDirect(s, op, address, x, data, pads).state.server, x, 0, l, b);
    MatchingMapped(before.stash, before.pos, x);
  }

  lemma {:induction false} MatchingMapped(stash: seq<Block>, pos: PositionMap, x: nat)
    ensures forall b :: b in Matching(stash, pos, x) ==> PosOf(pos, b.id) == x
  {
    if stash != [] {
      MatchingMapped(stash[1..], pos, x);
    }
  }
}
