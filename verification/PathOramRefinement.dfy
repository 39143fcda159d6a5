/**
 Path ORAM is a memory: every run of accesses, with any leaf draws and any padding, gives the answers of a plain map
 from addresses to cells.
 */
module PathOramRefinement {
  import opened OramDefs
  import opened Geometry
  import opened TreeStorage
  import opened PathOramModel
  import opened PathOramPlacement

  // ----- the memory the ORAM stands for -----------------------------------------------------------

  datatype FlatOutcome = FlatOutcome(memory: Memory, status: StatusCode, data: Block)

  /** A plain memory: absent addresses are reported, reads remove the block unless the ORAM is standalone. */
  function FlatAccess(m: Memory, standalone: bool, op: Operation, address: nat, data: Block): FlatOutcome {
    if address !in m then FlatOutcome(m, ObjectNotFound, data)
    else if op.OpWrite? then FlatOutcome(m[address := data.cell], OK, data)
    else FlatOutcome(if standalone then m else m - {address}, OK, Live(m, address))
  }

  // ----- one access -------------------------------------------------------------------------------

  /** The placement invariant of a whole state; phantom entries of the position map are valid leaves too. */
  ghost predicate Invariant(s: State, m: Memory, w: map<nat, Place>) {
    && s.server.level == s.level
    && (forall id :: id in s.pos ==> s.pos[id] < Pow2(s.level))
    && Placed(s.pos, s.stash, s.server, m, w)
  }

  /** Whether an access of leaf x can see the block: it is in the stash, or its bucket is on the path to x. */
  predicate Visible(s: State, home: PositionMap, w: map<nat, Place>, x: nat, address: nat) {
    address in w && address in home &&
    (w[address] == InStash || OnPath(s.level, w[address].l, home[address], x))
  }

  function PlacesAfter(s: State, home: PositionMap, w: map<nat, Place>, op: Operation, address: nat, x: nat,
                       data: Block, pads: PadSource): map<nat, Place>
    requires s.level == s.server.level
  {
    var w1 := PulledTo(s.level, home, w, x, s.level + 1);
    var s1 := Pulled(s, x);
    var i := FindBlock(s1.stash, address);
    if x >= Pow2(s.level) then w
    else if i == |s1.stash| then w1
    else
      var s2 := Updated(s1, op, address, i, data);
      RefilledTo(s2.pos, s2.stash, s2.server, w1, x, s2.bucketSize, pads, 0)
  }

  lemma PulledPathEmpty(sv: Server, x: nat)
    ensures PathEmpty(ReadLevels(sv, x, sv.level + 1), x)
  {
    hide RealOf, BucketOn;
    var sv1 := ReadLevels(sv, x, sv.level + 1);
    forall l | 0 <= l <= sv.level
      ensures RealOf(BucketOn(sv1, l, x)) == []
    {
      ReadLevelsBuckets(sv, x, sv.level + 1, l);
      RealOfCleared(BucketOn(sv, l, x));
    }
  }

  lemma LiveIsLocated(home: PositionMap, stash: seq<Block>, sv: Server, m: Memory, w: map<nat, Place>, id: nat)
    requires Placed(home, stash, sv, m, w) && id in m
    ensures Located(id, home, stash, sv, m, w)
  {
  }

  /** After the read phase the block is in the stash exactly when it is live and was visible. */
  lemma PulledState(s: State, home: PositionMap, m: Memory, w: map<nat, Place>, address: nat, x: nat)
    requires s.server.level == s.level && Placed(home, s.stash, s.server, m, w) && x < Pow2(s.level)
    ensures var s1, w1 := Pulled(s, x), PulledTo(s.level, home, w, x, s.level + 1);
      && Placed(home, s1.stash, s1.server, m, w1)
      && (FindBlock(s1.stash, address) < |s1.stash| <==> address in m && Visible(s, home, w, x, address))
      && (FindBlock(s1.stash, address) < |s1.stash| ==>
            w1[address] == InStash && s1.stash[FindBlock(s1.stash, address)] == Live(m, address))
  {
    hide Placed, RealOf, BucketOn, ReadLevels, PathReal, AbsorbPath, FindBlock, PathBuckets;
    var s1, w1 := Pulled(s, x), PulledTo(s.level, home, w, x, s.level + 1);
    PullPath(home, s.stash, s.server, m, w, x, s.level + 1);
    FindLive(home, s1.stash, s1.server, m, w1, address);
    if address in m {
      LiveIsLocated(home, s.stash, s.server, m, w, address);
    }
  }

  /** The update of the found block is the memory's update. */
  lemma UpdatedState(s: State, m: Memory, w: map<nat, Place>, op: Operation, address: nat, data: Block)
    requires Placed(s.pos, s.stash, s.server, m, w)
    requires FindBlock(s.stash, address) < |s.stash|
    ensures var s2 := Updated(s, op, address, FindBlock(s.stash, address), data);
      Placed(s2.pos, s2.stash, s2.server, FlatAccess(m, s.standalone, op, address, data).memory, w)
  {
    var i := FindBlock(s.stash, address);
    FindLive(s.pos, s.stash, s.server, m, w, address);
    hide Placed;
    if op.OpWrite? {
      WriteInStash(s.pos, s.stash, s.server, m, w, i, data.cell);
    } else if !s.standalone {
      RemoveFromStash(s.pos, s.stash, s.server, m, w, i);
    }
  }

  /**
   Entry condition of an access to leaf x: the tree is placed by the leaves `home`, from which the position map may
   differ only at the accessed address, and there only if the block is visible from x.
   */
  ghost predicate Ready(s: State, home: PositionMap, m: Memory, w: map<nat, Place>, address: nat, x: nat) {
    && s.server.level == s.level && Placed(home, s.stash, s.server, m, w) && x < Pow2(s.level)
    && (forall id :: id in s.pos ==> s.pos[id] < Pow2(s.level))
    && (forall id :: id in m ==> id in s.pos && id in home && (id == address || s.pos[id] == home[id]))
    && (address in m ==> Visible(s, home, w, x, address) || s.pos[address] == home[address])
  }

  /** Placement after the read phase, in terms of the new position map. */
  lemma PulledIsPlaced(s: State, home: PositionMap, m: Memory, w: map<nat, Place>, address: nat, x: nat)
    requires Ready(s, home, m, w, address, x)
    ensures Placed(s.pos, Pulled(s, x).stash, Pulled(s, x).server, m, PulledTo(s.level, home, w, x, s.level + 1))
  {
    hide Placed, ReadLevels, PathReal, AbsorbPath, FindBlock, PathBuckets, Visible, PulledTo;
    var s1, w1 := Pulled(s, x), PulledTo(s.level, home, w, x, s.level + 1);
    PulledState(s, home, m, w, address, x);
    forall id | id in m
      ensures id in w1 && (w1[id] == InStash || s.pos[id] == home[id])
    {
      LiveIsLocated(home, s1.stash, s1.server, m, w1, id);
    }
    Rehome(home, s.pos, s1.stash, s1.server, m, w1);
  }

  /**
   An access of any valid leaf: it acts on the memory if the block is visible from that leaf, and otherwise reports
   kObjectNotFound and changes nothing in the memory.
   */
  lemma DirectKeeps(s: State, home: PositionMap, m: Memory, w: map<nat, Place>, op: Operation, address: nat, x: nat,
                    data: Block, pads: PadSource)
    requires Ready(s, home, m, w, address, x)
    ensures var r := AccessDirect(s, op, address, x, data, pads);
      var f := if address in m && Visible(s, home, w, x, address) then FlatAccess(m, s.standalone, op, address, data)
               else FlatOutcome(m, ObjectNotFound, data);
      r.status == f.status && r.data == f.data
        && Invariant(r.state, f.memory, PlacesAfter(s, home, w, op, address, x, data, pads))
  {
    hide Placed, PathEmpty, ReadLevels, PathReal, AbsorbPath, FindBlock, PathBuckets, Refill, Updated, Visible;
    hide PulledTo;
    var s1, w1 := Pulled(s, x), PulledTo(s.level, home, w, x, s.level + 1);
    PulledState(s, home, m, w, address, x);
    PulledIsPlaced(s, home, m, w, address, x);
    PulledPathEmpty(s.server, x);
    var i := FindBlock(s1.stash, address);
    if i < |s1.stash| {
      var m2 := FlatAccess(m, s.standalone, op, address, data).memory;
      UpdatedState(s1, m, w1, op, address, data);
      UpdatedFrame(s1, op, address, i, data);
      var s2 := Updated(s1, op, address, i, data);
      RefillPath(s2.pos, s2.stash, s2.server, m2, w1, x, s2.bucketSize, pads, 0);
    }
  }

  lemma StashIsMapped(home: PositionMap, stash: seq<Block>, sv: Server, m: Memory, w: map<nat, Place>)
    requires Placed(home, stash, sv, m, w)
    ensures forall b :: b in stash ==> b.id in home
  {
    forall b | b in stash
      ensures b.id in home
    {
      LiveIsLocated(home, stash, sv, m, w, b.id);
    }
  }

  /** When write-back starts, every stash block is in the position map. */
  lemma UpdatedIsMapped(s: State, home: PositionMap, m: Memory, w: map<nat, Place>, op: Operation, address: nat,
                        x: nat, data: Block)
    requires Ready(s, home, m, w, address, x)
    requires FindBlock(Pulled(s, x).stash, address) < |Pulled(s, x).stash|
    ensures var s1 := Pulled(s, x);
      var s2 := Updated(s1, op, address, FindBlock(s1.stash, address), data);
      forall b :: b in s2.stash ==> b.id in s2.pos
  {
    var s1, w1 := Pulled(s, x), PulledTo(s.level, home, w, x, s.level + 1);
    PulledIsPlaced(s, home, m, w, address, x);
    UpdatedState(s1, m, w1, op, address, data);
    hide Placed, ReadLevels, PathReal, AbsorbPath, FindBlock, PathBuckets, Updated, PulledTo;
    var s2 := Updated(s1, op, address, FindBlock(s1.stash, address), data);
    StashIsMapped(s2.pos, s2.stash, s2.server, FlatAccess(m, s.standalone, op, address, data).memory, w1);
  }

  lemma UpdatedFrame(s: State, op: Operation, address: nat, i: nat, data: Block)
    requires i < |s.stash|
    ensures var s2 := Updated(s, op, address, i, data);
      && s2.server == s.server && s2.level == s.level && s2.bucketSize == s.bucketSize
        && s2.communication == s.communication
      && forall id :: id in s2.pos ==> id in s.pos && s2.pos[id] == s.pos[id]
  {
  }

  lemma InvariantIsReady(s: State, m: Memory, w: map<nat, Place>, address: nat, x: nat)
    requires Invariant(s, m, w) && x < Pow2(s.level)
    ensures Ready(s, s.pos, m, w, address, x)
  {
    forall id | id in m
      ensures id in s.pos
    {
      LiveIsLocated(s.pos, s.stash, s.server, m, w, id);
    }
  }

  lemma RemappedIsReady(s: State, m: Memory, w: map<nat, Place>, address: nat, leaf: nat)
    requires Invariant(s, m, w) && leaf < Pow2(s.level)
    ensures Ready(s.(pos := s.pos[address := leaf]), s.pos, m, w, address, PosOf(s.pos, address))
    ensures address in m ==> Visible(s, s.pos, w, PosOf(s.pos, address), address)
  {
    forall id | id in m
      ensures id in s.pos && id in w && (w[id] == InStash || w[id].l <= s.level)
    {
      LiveIsLocated(s.pos, s.stash, s.server, m, w, id);
    }
  }

  /** `InternalAccess` answers like the flat memory and keeps the invariant, whatever leaf is drawn. */
  lemma AccessKeeps(s: State, m: Memory, w: map<nat, Place>, op: Operation, address: nat, leaf: nat, data: Block,
                    pads: PadSource)
    requires Invariant(s, m, w) && leaf < Pow2(s.level)
    ensures var r := Access(s, op, address, leaf, data, pads);
      var f := FlatAccess(m, s.standalone, op, address, data);
      var s0 := s.(pos := s.pos[address := leaf]);
      && r.status == f.status && r.data == f.data
      && Invariant(r.state, f.memory, PlacesAfter(s0, s.pos, w, op, address, PosOf(s.pos, address), data, pads))
  {
    RemappedIsReady(s, m, w, address, leaf);
    hide Placed, AccessDirect, PlacesAfter;
    DirectKeeps(s.(pos := s.pos[address := leaf]), s.pos, m, w, op, address, PosOf(s.pos, address), data, pads);
  }

  /** `AccessDirect` keeps the invariant for every leaf, valid or not, and finds exactly the blocks visible from it. */
  lemma AccessDirectKeeps(s: State, m: Memory, w: map<nat, Place>, op: Operation, address: nat, x: nat, data: Block,
                          pads: PadSource)
    requires Invariant(s, m, w)
    ensures var r := AccessDirect(s, op, address, x, data, pads);
      var f := if x >= Pow2(s.level) then FlatOutcome(m, InvalidArgument, data)
               else if address in m && Visible(s, s.pos, w, x, address)
                 then FlatAccess(m, s.standalone, op, address, data)
               else FlatOutcome(m, ObjectNotFound, data);
      && r.status == f.status && r.data == f.data
      && Invariant(r.state, f.memory, PlacesAfter(s, s.pos, w, op, address, x, data, pads))
  {
    if x < Pow2(s.level) {
      InvariantIsReady(s, m, w, address, x);
      hide Placed, AccessDirect, PlacesAfter, Visible;
      DirectKeeps(s, s.pos, m, w, op, address, x, data, pads);
    }
  }

  // ----- whole runs -------------------------------------------------------------------------------

  /** One request with the random draws made while serving it. */
  datatype Request = Request(op: Operation, address: nat, data: Block, leaf: nat, pads: PadSource)

  datatype Answer = Answer(status: StatusCode, data: Block)

  function Serve(s: State, r: Request): Outcome
    requires s.level == s.server.level
  {
    Access(s, r.op, r.address, r.leaf, r.data, r.pads)
  }

  function ServeFlat(m: Memory, standalone: bool, r: Request): FlatOutcome {
    FlatAccess(m, standalone, r.op, r.address, r.data)
  }

  function Run(s: State, requests: seq<Request>): (r: (State, seq<Answer>))
    requires s.level == s.server.level
    ensures r.0.level == s.level == r.0.server.level
    decreases |requests|
  {
    if requests == [] then (s, []) else
    var first := Serve(s, requests[0]);
    var rest := Run(first.state, requests[1..]);
    (rest.0, [Answer(first.status, first.data)] + rest.1)
  }

  function FlatRun(m: Memory, standalone: bool, requests: seq<Request>): (Memory, seq<Answer>)
    decreases |requests|
  {
    if requests == [] then (m, []) else
    var first := ServeFlat(m, standalone, requests[0]);
    var rest := FlatRun(first.memory, standalone, requests[1..]);
    (rest.0, [Answer(first.status, first.data)] + rest.1)
  }

  lemma LevelsAgree(s: State, m: Memory, w: map<nat, Place>)
    requires Invariant(s, m, w)
    ensures s.level == s.server.level
  {
  }

  lemma AccessKeepsShape(s: State, op: Operation, address: nat, leaf: nat, data: Block, pads: PadSource)
    requires s.level == s.server.level
    ensures var t := Access(s, op, address, leaf, data, pads).state;
      t.level == s.level && t.standalone == s.standalone && t.bucketSize == s.bucketSize
  {
  }

  /** Every run of accesses is a run of the flat memory: same statuses, same data, and the invariant at the end. */
  lemma {:induction false} RunRefinesMemory(s: State, m: Memory, w: map<nat, Place>, requests: seq<Request>)
    returns (w': map<nat, Place>)
    requires Invariant(s, m, w)
    requires forall r :: r in requests ==> r.leaf < Pow2(s.level)
    ensures Run(s, requests).1 == FlatRun(m, s.standalone, requests).1
    ensures Invariant(Run(s, requests).0, FlatRun(m, s.standalone, requests).0, w')
    decreases |requests|
  {
    hide Invariant, Access, FlatAccess, PlacesAfter, PosOf;
    LevelsAgree(s, m, w);
    if requests == [] {
      w' := w;
    } else {
      var r := requests[0];
      AccessKeeps(s, m, w, r.op, r.address, r.leaf, r.data, r.pads);
      AccessKeepsShape(s, r.op, r.address, r.leaf, r.data, r.pads);
      var s0 := s.(pos := s.pos[r.address := r.leaf]);
      w' := RunRefinesMemory(Serve(s, r).state, ServeFlat(m, s.standalone, r).memory,
                             PlacesAfter(s0, s.pos, w, r.op, r.address, PosOf(s.pos, r.address), r.data, r.pads),
                             requests[1..]);
    }
  }
}
