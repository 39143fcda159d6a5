/**
 The state transitions of the Path ORAM client and its server (core/path_oram_controller.cc), as functions on
 values. `PathOramController` is proved to perform exactly these; `PathOramPlacement` and `PathOramRefinement`
 prove what they achieve.
 */
module PathOramModel {
  import opened OramDefs
  import opened Geometry
  import opened TreeStorage

  type PositionMap = map<nat, nat>

  datatype State = State(
    level: nat,
    bucketSize: nat,
    standalone: bool,
    pos: PositionMap,
    stash: seq<Block>,
    stashSize: nat,
    communication: nat,
    server: Server)

  /** `position_map_[id]`: a missing id reads as 0. */
  function PosOf(pos: PositionMap, id: nat): nat {
    if id in pos then pos[id] else 0
  }

  /** `BlockEqual(id)`: only normal blocks match. */
  predicate Matches(b: Block, id: nat) {
    b.id == id && b.kind == Normal
  }

  /** `find_if`: index of the first match, or the length. */
  function FindBlock(stash: seq<Block>, id: nat): (i: nat)
    ensures i <= |stash|
    ensures i < |stash| ==> Matches(stash[i], id)
    ensures forall k :: 0 <= k < i ==> !Matches(stash[k], id)
  {
    if stash == [] || Matches(stash[0], id) then 0 else 1 + FindBlock(stash[1..], id)
  }

  // ----- reading a path ---------------------------------------------------------------------------

  /** The buckets of levels 0..n-1 on the path to leaf x. */
  function PathBuckets(sv: Server, x: nat, n: nat): (r: seq<seq<Block>>)
    requires n <= sv.level + 1
    ensures |r| == n
  {
    seq(n, l requires 0 <= l < n => Contents(BucketOn(sv, l, x)))
  }

  /** The server after levels 0..n-1 have been read. */
  function ReadLevels(sv: Server, x: nat, n: nat): (r: Server)
    requires n <= sv.level + 1
    ensures r.level == sv.level && r.buckets.Keys == sv.buckets.Keys
  {
    if n == 0 then sv else AfterRead(ReadLevels(sv, x, n - 1), n - 1, x)
  }

  function TotalLength(path: seq<seq<Block>>): nat {
    if path == [] then 0 else TotalLength(path[..|path| - 1]) + |path[|path| - 1]|
  }

  function AbsorbOne(stash: seq<Block>, b: Block): seq<Block> {
    if FindBlock(stash, b.id) == |stash| && b.kind == Normal then stash + [b] else stash
  }

  function Absorb(stash: seq<Block>, bucket: seq<Block>): seq<Block> {
    if bucket == [] then stash
    else AbsorbOne(Absorb(stash, bucket[..|bucket| - 1]), bucket[|bucket| - 1])
  }

  /** The stash after the blocks of a path were added, root bucket first. */
  function AbsorbPath(stash: seq<Block>, path: seq<seq<Block>>): seq<Block> {
    if path == [] then stash
    else Absorb(AbsorbPath(stash, path[..|path| - 1]), path[|path| - 1])
  }

  // ----- writing a path ---------------------------------------------------------------------------

  /** The blocks `FindSubsetOf` removes from the stash: the first `room` ones mapped to leaf x. */
  function Taken(stash: seq<Block>, pos: PositionMap, x: nat, room: nat): (r: seq<Block>)
    ensures |r| <= room
  {
    if stash == [] || room == 0 then []
    else if PosOf(pos, stash[0].id) == x then [stash[0]] + Taken(stash[1..], pos, x, room - 1)
    else Taken(stash[1..], pos, x, room)
  }

  /** The blocks `FindSubsetOf` leaves behind. */
  function Kept(stash: seq<Block>, pos: PositionMap, x: nat, room: nat): (r: seq<Block>)
    ensures |r| <= |stash|
  {
    if stash == [] || room == 0 then stash
    else if PosOf(pos, stash[0].id) == x then Kept(stash[1..], pos, x, room - 1)
    else [stash[0]] + Kept(stash[1..], pos, x, room)
  }

  /** Where the walk of `FindSubsetOf` stands: what it took and passed, together with what is to come, is the split. */
  ghost predicate Walking(stash: seq<Block>, pos: PositionMap, x: nat, room: nat, subset: seq<Block>,
                          front: seq<Block>, rest: seq<Block>) {
    && |subset| <= room
    && subset + Taken(rest, pos, x, room - |subset|) == Taken(stash, pos, x, room)
    && front + Kept(rest, pos, x, room - |subset|) == Kept(stash, pos, x, room)
  }

  lemma WalkBegins(stash: seq<Block>, pos: PositionMap, x: nat, room: nat)
    ensures Walking(stash, pos, x, room, [], [], stash)
  {
  }

  lemma WalkTakes(stash: seq<Block>, pos: PositionMap, x: nat, room: nat, subset: seq<Block>, front: seq<Block>,
                  rest: seq<Block>)
    requires Walking(stash, pos, x, room, subset, front, rest) && |subset| < room && rest != []
      && PosOf(pos, rest[0].id) == x
    ensures Walking(stash, pos, x, room, subset + [rest[0]], front, rest[1..])
  {
    var left := room - |subset|;
    assert Taken(rest, pos, x, left) == [rest[0]] + Taken(rest[1..], pos, x, left - 1);
    assert subset + ([rest[0]] + Taken(rest[1..], pos, x, left - 1))
      == (subset + [rest[0]]) + Taken(rest[1..], pos, x, left - 1);
  }

  lemma WalkPasses(stash: seq<Block>, pos: PositionMap, x: nat, room: nat, subset: seq<Block>, front: seq<Block>,
                   rest: seq<Block>)
    requires Walking(stash, pos, x, room, subset, front, rest) && |subset| < room && rest != []
      && PosOf(pos, rest[0].id) != x
    ensures Walking(stash, pos, x, room, subset, front + [rest[0]], rest[1..])
  {
    var left := room - |subset|;
    assert Kept(rest, pos, x, left) == [rest[0]] + Kept(rest[1..], pos, x, left);
    assert front + ([rest[0]] + Kept(rest[1..], pos, x, left)) == (front + [rest[0]]) + Kept(rest[1..], pos, x, left);
  }

  lemma WalkEnds(stash: seq<Block>, pos: PositionMap, x: nat, room: nat, subset: seq<Block>, front: seq<Block>,
                 rest: seq<Block>)
    requires Walking(stash, pos, x, room, subset, front, rest) && (|subset| == room || rest == [])
    ensures subset == Taken(stash, pos, x, room) && front + rest == Kept(stash, pos, x, room)
  {
    NothingTaken(rest, pos, x, room - |subset|);
  }

  lemma NothingTaken(s: seq<Block>, pos: PositionMap, x: nat, room: nat)
    requires s == [] || room == 0
    ensures Taken(s, pos, x, room) == [] && Kept(s, pos, x, room) == s
  {
  }

  datatype Refilled = Refilled(stash: seq<Block>, server: Server)

  /** Stash and server after levels L, L-1, .., lo of path x have been written. */
  function Refill(pos: PositionMap, stash: seq<Block>, sv: Server, x: nat, size: nat, pads: PadSource,
                  lo: nat): (r: Refilled)
    requires lo <= sv.level + 1
    ensures r.server.level == sv.level && r.server.buckets.Keys == sv.buckets.Keys
    decreases sv.level + 1 - lo
  {
    if lo == sv.level + 1 then Refilled(stash, sv) else
    var below := Refill(pos, stash, sv, x, size, pads, lo + 1);
    var subset := Padded(Taken(below.stash, pos, x, size), size, lo, pads);
    Refilled(Kept(below.stash, pos, x, size), AfterWrite(below.server, lo, x, subset))
  }

  // ----- one access -------------------------------------------------------------------------------

  datatype Outcome = Outcome(state: State, status: StatusCode, data: Block)

  function Without<T>(s: seq<T>, i: nat): seq<T>
    requires i < |s|
  {
    s[..i] + s[i + 1..]
  }

  /** State once the whole path to leaf x sits in the stash. */
  function Pulled(s: State, x: nat): State
    requires s.level == s.server.level
  {
    var path := PathBuckets(s.server, x, s.level + 1);
    s.(stash := AbsorbPath(s.stash, path),
       server := ReadLevels(s.server, x, s.level + 1),
       communication := s.communication + TotalLength(path))
  }

  /** Steps 6-9 on a stash that holds the block at index i. */
  function Updated(s: State, op: Operation, address: nat, i: nat, data: Block): State
    requires i < |s.stash|
  {
    var s1 := s.(stashSize := if s.stashSize >= |s.stash| then s.stashSize else |s.stash|);
    if op.OpWrite? then s1.(stash := s.stash[i := s.stash[i].(cell := data.cell)])
    else if s.standalone then s1
    else s1.(stash := Without(s.stash, i), pos := s.pos - {address})
  }

  function WrittenBack(s: State, x: nat, pads: PadSource): State
    requires s.level == s.server.level
  {
    var r := Refill(s.pos, s.stash, s.server, x, s.bucketSize, pads, 0);
    s.(stash := r.stash, server := r.server, communication := s.communication + Times(s.level + 1, s.bucketSize))
  }

  /** `InternalAccessDirect` without the dummy case. */
  function AccessDirect(s: State, op: Operation, address: nat, x: nat, data: Block, pads: PadSource): (r: Outcome)
    requires s.level == s.server.level
    ensures r.state.level == s.level == r.state.server.level
  {
    if x >= Pow2(s.level) then Outcome(s, InvalidArgument, data) else
    var s1 := Pulled(s, x);
    var i := FindBlock(s1.stash, address);
    if i == |s1.stash| then Outcome(s1, ObjectNotFound, data) else
    var s2 := Updated(s1, op, address, i, data);
    Outcome(WrittenBack(s2, x, pads), OK, if op.OpWrite? then data else s1.stash[i])
  }

  /** `InternalAccess`: remap the block to the fresh leaf, then access its old path. */
  function Access(s: State, op: Operation, address: nat, leaf: nat, data: Block, pads: PadSource): (r: Outcome)
    requires s.level == s.server.level
    ensures r.state.level == s.level == r.state.server.level
  {
    AccessDirect(s.(pos := s.pos[address := leaf]), op, address, PosOf(s.pos, address), data, pads)
  }
}
