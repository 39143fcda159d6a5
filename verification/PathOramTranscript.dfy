/** What the server sees of Path ORAM: the request sequence of a run is a function of the leaves accessed alone. */
module PathOramTranscript {
  import opened OramDefs
  import opened Geometry
  import opened TreeStorage
  import opened PathOramModel
  import opened PathOramPlacement
  import opened PathOramRefinement

  predicate FullBucket(bucket: seq<Slot>, size: nat) {
    |bucket| == size && forall k :: 0 <= k < size ==> bucket[k].Full?
  }

  /** Every bucket holds exactly `size` entries, except the drained ones, which hold nothing. */
  ghost predicate FullExcept(sv: Server, size: nat, drained: set<Tag>) {
    forall t :: t in sv.buckets ==>
      if t in drained then Contents(sv.buckets[t]) == [] else FullBucket(sv.buckets[t], size)
  }

  ghost predicate AllFull(sv: Server, size: nat) {
    forall t :: t in sv.buckets ==> FullBucket(sv.buckets[t], size)
  }

  /** The buckets of levels 0..n-1 on the path to leaf x. */
  function PathTags(level: nat, x: nat, n: nat): set<Tag>
    requires n <= level + 1
  {
    set l | 0 <= l < n :: TagOn(level, l, x)
  }

  /** Reads of levels 0..n-1 of a path: a drained bucket yields nothing, any other yields `size` blocks. */
  function ReadLog(level: nat, x: nat, n: nat, size: nat, drained: set<Tag>): seq<Event>
    requires n <= level + 1
  {
    if n == 0 then [] else
    ReadLog(level, x, n - 1, size, drained)
      + [ReadEvent(n - 1, x, if TagOn(level, n - 1, x) in drained then 0 else size)]
  }

  /** The blocks those reads move. */
  function ReadTraffic(level: nat, x: nat, n: nat, size: nat, drained: set<Tag>): nat
    requires n <= level + 1
  {
    if n == 0 then 0 else
    ReadTraffic(level, x, n - 1, size, drained) + if TagOn(level, n - 1, x) in drained then 0 else size
  }

  /** Writes of levels level, level-1, .., lo. */
  function WriteLog(x: nat, level: nat, lo: nat, size: nat): seq<Event>
    requires lo <= level + 1
    decreases level + 1 - lo
  {
    if lo == level + 1 then [] else WriteLog(x, level, lo + 1, size) + [WriteEvent(lo, x, size)]
  }

  /** All the server sees of one access: reads from the root down, then, on success, writes from the leaf up. */
  function Transcript(x: nat, level: nat, size: nat, ok: bool, drained: set<Tag>): seq<Event> {
    ReadLog(level, x, level + 1, size, drained) + if ok then WriteLog(x, level, 0, size) else []
  }

  /** The blocks an access moves. */
  function Traffic(x: nat, level: nat, size: nat, ok: bool, drained: set<Tag>): nat {
    ReadTraffic(level, x, level + 1, size, drained) + if ok then Times(level + 1, size) else 0
  }

  /** A failed access drains its path, a successful one fills it. */
  function DrainedAfter(x: nat, level: nat, ok: bool, drained: set<Tag>): set<Tag> {
    if ok then drained - PathTags(level, x, level + 1) else drained + PathTags(level, x, level + 1)
  }

  lemma {:induction false} FullContents(bucket: seq<Slot>, size: nat)
    requires FullBucket(bucket, size)
    ensures |Contents(bucket)| == size
  {
    if size > 0 {
      FullContents(bucket[..size - 1], size - 1);
    }
  }

  lemma OnPathCount(sv: Server, size: nat, drained: set<Tag>, l: nat, x: nat)
    requires WellShaped(sv) && FullExcept(sv, size, drained) && l <= sv.level && x < Pow2(sv.level)
    ensures TagOn(sv.level, l, x) in sv.buckets
    ensures |Contents(BucketOn(sv, l, x))| == if TagOn(sv.level, l, x) in drained then 0 else size
  {
    OffsetInRange(sv.level, l, x);
    var t := TagOn(sv.level, l, x);
    assert IsTag(sv.level, t);
    if t !in drained {
      FullContents(sv.buckets[t], size);
    }
  }

  lemma PathTagsNext(level: nat, x: nat, n: nat)
    requires n <= level
    ensures PathTags(level, x, n + 1) == PathTags(level, x, n) + {TagOn(level, n, x)}
    ensures TagOn(level, n, x) !in PathTags(level, x, n)
    ensures PathTags(level, x, 0) == {}
  {
    hide Offset;
  }

  lemma {:induction false} ReadPhaseTraffic(sv: Server, size: nat, drained: set<Tag>, x: nat, n: nat)
    requires WellShaped(sv) && FullExcept(sv, size, drained) && x < Pow2(sv.level) && n <= sv.level + 1
    ensures TotalLength(PathBuckets(sv, x, n)) == ReadTraffic(sv.level, x, n, size, drained)
  {
    hide Contents, BucketOn, FullExcept, WellShaped, Offset;
    if n > 0 {
      ReadPhaseTraffic(sv, size, drained, x, n - 1);
      OnPathCount(sv, size, drained, n - 1, x);
      assert PathBuckets(sv, x, n)[..n - 1] == PathBuckets(sv, x, n - 1);
    }
  }

  lemma {:induction false} ReadPhaseLog(sv: Server, size: nat, drained: set<Tag>, x: nat, n: nat)
    requires WellShaped(sv) && FullExcept(sv, size, drained) && x < Pow2(sv.level) && n <= sv.level + 1
    ensures ReadLevels(sv, x, n).log == sv.log + ReadLog(sv.level, x, n, size, drained)
    ensures FullExcept(ReadLevels(sv, x, n), size, drained + PathTags(sv.level, x, n))
  {
    hide Contents, BucketOn, AfterRead, Offset, WellShaped, FullExcept, PathTags;
    if n == 0 {
      PathTagsNext(sv.level, x, 0);
      assert drained + {} == drained;
    } else {
      ReadPhaseLog(sv, size, drained, x, n - 1);
      OnPathCount(sv, size, drained, n - 1, x);
      ReadLevelsBuckets(sv, x, n - 1, n - 1);
      PathTagsNext(sv.level, x, n - 1);
      var sv1 := ReadLevels(sv, x, n - 1);
      assert TagOn(sv.level, n - 1, x) in sv1.buckets.Keys;
      ReadStepLog(sv1, size, drained + PathTags(sv.level, x, n - 1), x, n);
      assert drained + PathTags(sv.level, x, n) == drained + PathTags(sv.level, x, n - 1) + {TagOn(sv.level, n - 1, x)};
    }
  }

  lemma ReadStepLog(sv: Server, size: nat, drained: set<Tag>, x: nat, n: nat)
    requires 0 < n <= sv.level + 1 && FullExcept(sv, size, drained) && TagOn(sv.level, n - 1, x) in sv.buckets
    ensures AfterRead(sv, n - 1, x).log == sv.log + [ReadEvent(n - 1, x, |Contents(BucketOn(sv, n - 1, x))|)]
    ensures FullExcept(AfterRead(sv, n - 1, x), size, drained + {TagOn(sv.level, n - 1, x)})
  {
    hide Contents, Offset;
    ContentsOfCleared(sv.buckets[TagOn(sv.level, n - 1, x)]);
    assert sv.buckets.Keys == AfterRead(sv, n - 1, x).buckets.Keys;
  }

  lemma WriteStepLog(sv: Server, size: nat, drained: set<Tag>, x: nat, lo: nat, blocks: seq<Block>)
    requires lo <= sv.level && FullExcept(sv, size, drained)
    requires TagOn(sv.level, lo, x) in sv.buckets && |blocks| == size
    ensures AfterWrite(sv, lo, x, blocks).log == sv.log + [WriteEvent(lo, x, size)]
    ensures FullExcept(AfterWrite(sv, lo, x, blocks), size, drained - {TagOn(sv.level, lo, x)})
  {
    hide Contents, Offset;
  }

  /** What is still drained once the levels from lo down have been written. */
  function Unwritten(level: nat, x: nat, lo: nat, drained: set<Tag>): set<Tag>
    requires lo <= level + 1
  {
    (drained - PathTags(level, x, level + 1)) + PathTags(level, x, lo)
  }

  lemma UnwrittenNext(level: nat, x: nat, lo: nat, drained: set<Tag>)
    requires lo <= level
    ensures Unwritten(level, x, lo, drained) == Unwritten(level, x, lo + 1, drained) - {TagOn(level, lo, x)}
  {
    PathTagsNext(level, x, lo);
    assert TagOn(level, lo, x) in PathTags(level, x, level + 1);
  }

  lemma UnwrittenEnds(level: nat, x: nat, drained: set<Tag>)
    ensures Unwritten(level, x, level + 1, drained) == drained + PathTags(level, x, level + 1)
    ensures Unwritten(level, x, 0, drained) == drained - PathTags(level, x, level + 1)
  {
    PathTagsNext(level, x, 0);
  }

  lemma {:induction false} WritePhaseLog(pos: PositionMap, stash: seq<Block>, sv: Server, drained: set<Tag>, x: nat,
                                         size: nat, pads: PadSource, lo: nat)
    requires WellShaped(sv) && x < Pow2(sv.level) && lo <= sv.level + 1
    requires FullExcept(sv, size, Unwritten(sv.level, x, sv.level + 1, drained))
    ensures var r := Refill(pos, stash, sv, x, size, pads, lo).server;
      && r.log == sv.log + WriteLog(x, sv.level, lo, size)
      && FullExcept(r, size, Unwritten(sv.level, x, lo, drained))
    decreases sv.level + 1 - lo
  {
    hide FullExcept, AfterWrite, Taken, Kept, Unwritten, Offset;
    if lo <= sv.level {
      WritePhaseLog(pos, stash, sv, drained, x, size, pads, lo + 1);
      var below := Refill(pos, stash, sv, x, size, pads, lo + 1);
      assert TagOn(sv.level, lo, x) in below.server.buckets by {
        OffsetInRange(sv.level, lo, x);
        assert IsTag(sv.level, TagOn(sv.level, lo, x));
        assert below.server.buckets.Keys == sv.buckets.Keys;
      }
      UnwrittenNext(sv.level, x, lo, drained);
      WriteStepLog(below.server, size, Unwritten(sv.level, x, lo + 1, drained), x, lo,
                   Padded(Taken(below.stash, pos, x, size), size, lo, pads));
    }
  }

  /** A state between accesses: a complete tree with Z entries in every bucket but the drained ones, which are empty. */
  ghost predicate FilledExcept(s: State, drained: set<Tag>) {
    s.server.level == s.level && WellShaped(s.server) && FullExcept(s.server, s.bucketSize, drained)
  }

  /** A state as `FillWithData` leaves it. */
  ghost predicate Filled(s: State) {
    s.server.level == s.level && WellShaped(s.server) && AllFull(s.server, s.bucketSize)
  }

  lemma FilledIsUndrained(s: State)
    ensures Filled(s) <==> FilledExcept(s, {})
  {
  }

  /**
   What one access of a valid leaf shows the server, and how many blocks it moves: reads of the whole path and, if the
   block was found, writes of the whole path. A failed access leaves the path drained.
   */
  lemma AnyAccessTranscript(s: State, op: Operation, address: nat, x: nat, data: Block, pads: PadSource,
                            drained: set<Tag>)
    requires FilledExcept(s, drained) && x < Pow2(s.level)
    ensures var r := AccessDirect(s, op, address, x, data, pads);
      var ok := r.status == OK;
      && r.state.server.log == s.server.log + Transcript(x, s.level, s.bucketSize, ok, drained)
      && r.state.communication == s.communication + Traffic(x, s.level, s.bucketSize, ok, drained)
      && FilledExcept(r.state, DrainedAfter(x, s.level, ok, drained))
      && (ok || r.status == ObjectNotFound)
  {
    hide Times, Refill, ReadLevels, FindBlock, Updated, AbsorbPath, PathBuckets, ReadLog, WriteLog, FullExcept;
    hide PathTags, Unwritten, WellShaped, ReadTraffic, TotalLength;
    var s1 := Pulled(s, x);
    var i := FindBlock(s1.stash, address);
    ReadPhaseLog(s.server, s.bucketSize, drained, x, s.level + 1);
    ReadPhaseTraffic(s.server, s.bucketSize, drained, x, s.level + 1);
    SameShape(s.server, s1.server);
    if i < |s1.stash| {
      UpdatedFrame(s1, op, address, i, data);
      var s2 := Updated(s1, op, address, i, data);
      UnwrittenEnds(s.level, x, drained);
      WritePhaseLog(s2.pos, s2.stash, s2.server, drained, x, s2.bucketSize, pads, 0);
      SameShape(s2.server, Refill(s2.pos, s2.stash, s2.server, x, s2.bucketSize, pads, 0).server);
    }
  }

  lemma {:induction false} UndrainedTraffic(level: nat, x: nat, n: nat, size: nat)
    requires n <= level + 1
    ensures ReadTraffic(level, x, n, size, {}) == Times(n, size)
  {
    if n == 0 {
      TimesStep(0, size);
    } else {
      UndrainedTraffic(level, x, n - 1, size);
      TimesStep(n - 1, size);
    }
  }

  /** In a filled tree a successful access reads levels 0..L, then writes L..0, Z blocks each: 2Z(L+1) in all. */
  lemma AccessTranscript(s: State, op: Operation, address: nat, x: nat, data: Block, pads: PadSource)
    requires Filled(s) && AccessDirect(s, op, address, x, data, pads).status == OK
    ensures var t := AccessDirect(s, op, address, x, data, pads).state;
      && t.server.log == s.server.log + Transcript(x, s.level, s.bucketSize, true, {})
      && t.communication == s.communication + 2 * Times(s.level + 1, s.bucketSize)
      && Filled(t)
  {
    hide FullExcept, Times, PathTags, WellShaped, AllFull;
    FilledIsUndrained(s);
    AnyAccessTranscript(s, op, address, x, data, pads, {});
    UndrainedTraffic(s.level, x, s.level + 1, s.bucketSize);
    FilledIsUndrained(AccessDirect(s, op, address, x, data, pads).state);
    assert {} - PathTags(s.level, x, s.level + 1) == {};
  }

  lemma SameShape(sv: Server, sv': Server)
    requires WellShaped(sv) && sv.level == sv'.level && sv.buckets.Keys == sv'.buckets.Keys
    ensures WellShaped(sv')
  {
    assert forall t :: t in sv'.buckets <==> t in sv'.buckets.Keys;
  }

  // ----- whole runs -------------------------------------------------------------------------------

  /** The leaf whose path each request of a run reads. */
  function Leaves(s: State, requests: seq<Request>): seq<nat>
    requires s.level == s.server.level
    decreases |requests|
  {
    if requests == [] then [] else
    [PosOf(s.pos, requests[0].address)] + Leaves(Serve(s, requests[0]).state, requests[1..])
  }

  predicate AllOK(answers: seq<Answer>) {
    forall a :: a in answers ==> a.status == OK
  }

  /** What the server sees of a run: a function of the leaves accessed, of which accesses failed, and nothing else. */
  function RunView(leaves: seq<nat>, answers: seq<Answer>, level: nat, size: nat, drained: set<Tag>): seq<Event>
    requires |leaves| == |answers|
  {
    if leaves == [] then [] else
    var ok := answers[0].status == OK;
    Transcript(leaves[0], level, size, ok, drained)
      + RunView(leaves[1..], answers[1..], level, size, DrainedAfter(leaves[0], level, ok, drained))
  }

  function RunTraffic(leaves: seq<nat>, answers: seq<Answer>, level: nat, size: nat, drained: set<Tag>): nat
    requires |leaves| == |answers|
  {
    if leaves == [] then 0 else
    var ok := answers[0].status == OK;
    Traffic(leaves[0], level, size, ok, drained)
      + RunTraffic(leaves[1..], answers[1..], level, size, DrainedAfter(leaves[0], level, ok, drained))
  }

  lemma {:induction false} OneLeafEach(s: State, requests: seq<Request>)
    requires s.level == s.server.level
    ensures |Leaves(s, requests)| == |Run(s, requests).1| == |requests|
    decreases |requests|
  {
    if requests != [] {
      OneLeafEach(Serve(s, requests[0]).state, requests[1..]);
    }
  }

  /** The positions of a state and all draws to come are leaves of the tree. */
  ghost predicate LeavesValid(s: State, requests: seq<Request>) {
    (forall id :: id in s.pos ==> s.pos[id] < Pow2(s.level)) && forall r :: r in requests ==> r.leaf < Pow2(s.level)
  }

  lemma ServeTranscript(s: State, r: Request, drained: set<Tag>)
    requires FilledExcept(s, drained) && LeavesValid(s, [r])
    ensures var x, o := PosOf(s.pos, r.address), Serve(s, r);
      var ok := o.status == OK;
      && x < Pow2(s.level) && o.state.level == s.level && o.state.bucketSize == s.bucketSize
      && o.state.server.log == s.server.log + Transcript(x, s.level, s.bucketSize, ok, drained)
      && o.state.communication == s.communication + Traffic(x, s.level, s.bucketSize, ok, drained)
      && FilledExcept(o.state, DrainedAfter(x, s.level, ok, drained))
  {
    hide FullExcept, WellShaped, Transcript, Traffic, DrainedAfter, AccessDirect;
    assert r in [r];
    AccessKeepsShape(s, r.op, r.address, r.leaf, r.data, r.pads);
    AnyAccessTranscript(s.(pos := s.pos[r.address := r.leaf]), r.op, r.address, PosOf(s.pos, r.address), r.data, r.pads,
                        drained);
  }

  lemma ServeKeepsLeavesValid(s: State, requests: seq<Request>)
    requires s.level == s.server.level && requests != [] && LeavesValid(s, requests)
    ensures LeavesValid(Serve(s, requests[0]).state, requests[1..]) && LeavesValid(s, [requests[0]])
  {
    var r := requests[0];
    assert r in requests;
    var s0, x := s.(pos := s.pos[r.address := r.leaf]), PosOf(s.pos, r.address);
    hide AbsorbPath, PathBuckets, ReadLevels, Refill, FindBlock, TotalLength, Updated;
    if x < Pow2(s.level) && FindBlock(Pulled(s0, x).stash, r.address) < |Pulled(s0, x).stash| {
      UpdatedFrame(Pulled(s0, x), r.op, r.address, FindBlock(Pulled(s0, x).stash, r.address), r.data);
    }
  }

  /**
   Any run at all, failed accesses included: the server sees the transcripts of the leaves, with a path drained by every
   failed access until a later one fills it again. Operations, addresses and data leave no other trace.
   */
  lemma {:induction false} AnyRunTranscript(s: State, requests: seq<Request>, drained: set<Tag>)
    requires FilledExcept(s, drained) && LeavesValid(s, requests)
    ensures |Leaves(s, requests)| == |Run(s, requests).1|
    ensures var t := Run(s, requests);
      && t.0.server.log
        == s.server.log + RunView(Leaves(s, requests), t.1, s.level, s.bucketSize, drained)
      && t.0.communication
        == s.communication + RunTraffic(Leaves(s, requests), t.1, s.level, s.bucketSize, drained)
    decreases |requests|
  {
    hide Transcript, Traffic, DrainedAfter, FullExcept, WellShaped, PosOf, Serve, LeavesValid;
    OneLeafEach(s, requests);
    if requests != [] {
      var first := Serve(s, requests[0]);
      var ok, x := first.status == OK, PosOf(s.pos, requests[0].address);
      ServeKeepsLeavesValid(s, requests);
      ServeTranscript(s, requests[0], drained);
      AnyRunTranscript(first.state, requests[1..], DrainedAfter(x, s.level, ok, drained));
      OneLeafEach(first.state, requests[1..]);
      assert Leaves(s, requests)[1..] == Leaves(first.state, requests[1..]);
      assert Run(s, requests).1[1..] == Run(first.state, requests[1..]).1;
    }
  }

  function Transcripts(leaves: seq<nat>, level: nat, size: nat): seq<Event> {
    if leaves == [] then [] else Transcript(leaves[0], level, size, true, {}) + Transcripts(leaves[1..], level, size)
  }

  /** One successful request from a filled tree; an invalid leaf would have been refused. */
  lemma ServeFilled(s: State, r: Request)
    requires Filled(s) && Serve(s, r).status == OK
    ensures var t := Serve(s, r).state;
      && t.server.log == s.server.log + Transcript(PosOf(s.pos, r.address), s.level, s.bucketSize, true, {})
      && t.communication == s.communication + 2 * Times(s.level + 1, s.bucketSize)
      && Filled(t) && t.level == s.level && t.bucketSize == s.bucketSize
  {
    hide Transcript, AllFull, WellShaped, AccessDirect;
    AccessKeepsShape(s, r.op, r.address, r.leaf, r.data, r.pads);
    AccessTranscript(s.(pos := s.pos[r.address := r.leaf]), r.op, r.address, PosOf(s.pos, r.address), r.data, r.pads);
  }

  /**
   Over a run of successful accesses the server sees the full transcripts of the leaves, nothing more, and the traffic
   counter grows by a fixed amount per access.
   */
  lemma {:induction false} RunTranscript(s: State, requests: seq<Request>)
    requires Filled(s) && AllOK(Run(s, requests).1)
    ensures var t := Run(s, requests).0;
      && t.server.log == s.server.log + Transcripts(Leaves(s, requests), s.level, s.bucketSize)
      && t.communication == s.communication + Times(|requests|, 2 * Times(s.level + 1, s.bucketSize))
      && Filled(t)
    decreases |requests|
  {
    hide Transcript, AllFull, WellShaped, Times, PosOf, Serve;
    var traffic := 2 * Times(s.level + 1, s.bucketSize);
    if requests == [] {
      TimesStep(0, traffic);
    } else {
      var first := Serve(s, requests[0]);
      assert Answer(first.status, first.data) in Run(s, requests).1;
      ServeFilled(s, requests[0]);
      assert Run(first.state, requests[1..]).1 == Run(s, requests).1[1..];
      RunTranscript(first.state, requests[1..]);
      TimesStep(|requests| - 1, traffic);
    }
  }

  /** Two runs that access the same leaves, and fail at the same accesses, look the same to the server. */
  lemma SameLeavesSameView(s: State, requests: seq<Request>, s': State, requests': seq<Request>, drained: set<Tag>)
    requires FilledExcept(s, drained) && FilledExcept(s', drained)
    requires s.level == s'.level && s.bucketSize == s'.bucketSize && s.server.log == s'.server.log
    requires LeavesValid(s, requests) && LeavesValid(s', requests') && |requests| == |requests'|
    requires Leaves(s, requests) == Leaves(s', requests')
    requires |Run(s, requests).1| == |Run(s', requests').1|
    requires forall i :: 0 <= i < |Run(s, requests).1| ==>
      (Run(s, requests).1[i].status == OK <==> Run(s', requests').1[i].status == OK)
    ensures Run(s, requests).0.server.log == Run(s', requests').0.server.log
  {
    hide FullExcept, WellShaped, Run, Leaves, RunView, LeavesValid;
    AnyRunTranscript(s, requests, drained);
    AnyRunTranscript(s', requests', drained);
    ViewOfStatuses(Leaves(s, requests), Run(s, requests).1, Run(s', requests').1, s.level, s.bucketSize, drained);
  }

  lemma {:induction false} ViewOfStatuses(leaves: seq<nat>, a: seq<Answer>, b: seq<Answer>, level: nat, size: nat,
                                          drained: set<Tag>)
    requires |leaves| == |a| == |b| && forall i :: 0 <= i < |a| ==> (a[i].status == OK <==> b[i].status == OK)
    ensures RunView(leaves, a, level, size, drained) == RunView(leaves, b, level, size, drained)
  {
    hide Transcript, DrainedAfter;
    if leaves != [] {
      ViewOfStatuses(leaves[1..], a[1..], b[1..], level, size,
                     DrainedAfter(leaves[0], level, a[0].status == OK, drained));
    }
  }

  // ----- what a failed access leaves behind -------------------------------------------------------

  /** Reading a path changes no bucket off it. */
  lemma {:induction false} ReadLevelsFrame(sv: Server, x: nat, n: nat)
    requires n <= sv.level + 1
    ensures forall t :: t in sv.buckets && t !in PathTags(sv.level, x, n) ==>
      ReadLevels(sv, x, n).buckets[t] == sv.buckets[t]
  {
    hide Offset, PathTags;
    if n > 0 {
      ReadLevelsFrame(sv, x, n - 1);
      PathTagsNext(sv.level, x, n - 1);
      assert forall t :: t in sv.buckets <==> t in ReadLevels(sv, x, n - 1).buckets.Keys;
    }
  }

  lemma {:induction false} RefillFrame(pos: PositionMap, stash: seq<Block>, sv: Server, x: nat, size: nat,
                                       pads: PadSource, lo: nat)
    requires lo <= sv.level + 1
    ensures forall t :: t in sv.buckets && t !in PathTags(sv.level, x, sv.level + 1) ==>
      Refill(pos, stash, sv, x, size, pads, lo).server.buckets[t] == sv.buckets[t]
    decreases sv.level + 1 - lo
  {
    hide Offset, Taken, Kept;
    if lo <= sv.level {
      RefillFrame(pos, stash, sv, x, size, pads, lo + 1);
      var below := Refill(pos, stash, sv, x, size, pads, lo + 1).server;
      assert forall t :: t in sv.buckets <==> t in below.buckets.Keys;
      assert TagOn(sv.level, lo, x) in PathTags(sv.level, x, sv.level + 1);
    }
  }

  /**
   No access, found or not, touches a bucket off its path, and it records the fullest stash exactly when it succeeds.
   */
  lemma AccessFrame(s: State, home: PositionMap, m: Memory, w: map<nat, Place>, op: Operation, address: nat, x: nat,
                    data: Block, pads: PadSource)
    requires s.server.level == s.level && Placed(home, s.stash, s.server, m, w) && x < Pow2(s.level)
    ensures var r := AccessDirect(s, op, address, x, data, pads);
      var fullest := |s.stash| + |PathReal(s.server, x, s.level + 1)|;
      && r.state.server.buckets.Keys == s.server.buckets.Keys
      && (forall t :: t in s.server.buckets && t !in PathTags(s.level, x, s.level + 1) ==>
            r.state.server.buckets[t] == s.server.buckets[t])
      && r.state.stashSize == if r.status == OK && s.stashSize < fullest then fullest else s.stashSize
  {
    hide Placed, ReadLevels, FindBlock, AbsorbPath, PathBuckets, PathReal, Refill, PathTags, TotalLength;
    var s1 := Pulled(s, x);
    PullPath(home, s.stash, s.server, m, w, x, s.level + 1);
    ReadLevelsFrame(s.server, x, s.level + 1);
    assert s1.server.buckets.Keys == s.server.buckets.Keys;
    assert forall t :: t in s.server.buckets <==> t in s1.server.buckets.Keys;
    var i := FindBlock(s1.stash, address);
    if i < |s1.stash| {
      var s2 := Updated(s1, op, address, i, data);
      UpdatedFrame(s1, op, address, i, data);
      RefillFrame(s2.pos, s2.stash, s2.server, x, s2.bucketSize, pads, 0);
    }
  }

  /**
   A failed access has moved the normal blocks of its path to the stash, root first, and left every bucket on it empty.
   */
  lemma NotFoundExit(s: State, home: PositionMap, m: Memory, w: map<nat, Place>, op: Operation, address: nat, x: nat,
                     data: Block, pads: PadSource)
    requires s.server.level == s.level && Placed(home, s.stash, s.server, m, w) && x < Pow2(s.level)
    requires AccessDirect(s, op, address, x, data, pads).status == ObjectNotFound
    ensures var t := AccessDirect(s, op, address, x, data, pads).state;
      && t.stash == s.stash + PathReal(s.server, x, s.level + 1)
      && t.pos == s.pos && t.stashSize == s.stashSize
      && (forall u :: u in PathTags(s.level, x, s.level + 1) ==>
            u in t.server.buckets && Contents(t.server.buckets[u]) == [])
  {
    hide Placed, ReadLevels, FindBlock, AbsorbPath, PathBuckets, PathReal, Refill, TotalLength, Updated, Contents;
    PullPath(home, s.stash, s.server, m, w, x, s.level + 1);
    var sv' := ReadLevels(s.server, x, s.level + 1);
    forall u | u in PathTags(s.level, x, s.level + 1)
      ensures u in sv'.buckets && Contents(sv'.buckets[u]) == []
    {
      var l :| 0 <= l < s.level + 1 && u == TagOn(s.level, l, x);
      PathBucketCleared(home, s, m, w, x, l);
    }
  }

  lemma PathBucketCleared(home: PositionMap, s: State, m: Memory, w: map<nat, Place>, x: nat, l: nat)
    requires s.server.level == s.level && Placed(home, s.stash, s.server, m, w) && x < Pow2(s.level) && l <= s.level
    ensures var sv', u := ReadLevels(s.server, x, s.level + 1), TagOn(s.level, l, x);
      u in sv'.buckets && Contents(sv'.buckets[u]) == []
  {
    hide ReadLevels, StashPlaced, BucketPlaced, Located, RealOf, Contents;
    OffsetInRange(s.level, l, x);
    assert IsTag(s.level, TagOn(s.level, l, x));
    assert ReadLevels(s.server, x, s.level + 1).buckets.Keys == s.server.buckets.Keys;
    assert TagOn(s.level, l, x) in s.server.buckets.Keys;
    ReadLevelsBuckets(s.server, x, s.level + 1, l);
    ContentsOfCleared(BucketOn(s.server, l, x));
  }

  /**
   An access to an address that is not in the memory, all told: one path is read and nothing written; its blocks end up
   in the stash; its buckets are empty and all others as before; the address keeps the leaf it was given.
   */
  lemma AbsentAccess(s: State, m: Memory, w: map<nat, Place>, r: Request)
    requires Invariant(s, m, w) && Filled(s) && r.leaf < Pow2(s.level) && r.address !in m
    ensures var x, o := PosOf(s.pos, r.address), Serve(s, r);
      var t, path := o.state, PathTags(s.level, x, s.level + 1);
      && o.status == ObjectNotFound && o.data == r.data
      && t.server.log == s.server.log + ReadLog(s.level, x, s.level + 1, s.bucketSize, {})
      && t.communication == s.communication + Times(s.level + 1, s.bucketSize)
      && t.stash == s.stash + PathReal(s.server, x, s.level + 1)
      && t.pos == s.pos[r.address := r.leaf] && t.stashSize == s.stashSize
      && t.server.buckets.Keys == s.server.buckets.Keys
      && (forall u :: u in s.server.buckets ==>
            if u in path then Contents(t.server.buckets[u]) == [] else t.server.buckets[u] == s.server.buckets[u])
  {
    hide Placed, FullExcept, WellShaped, AllFull, ReadLog, ReadTraffic, PathTags, Times, PathReal, Contents;
    hide AccessDirect, PlacesAfter;
    LevelsAgree(s, m, w);
    var x, s0 := PosOf(s.pos, r.address), s.(pos := s.pos[r.address := r.leaf]);
    FilledIsUndrained(s);
    AccessKeeps(s, m, w, r.op, r.address, r.leaf, r.data, r.pads);
    AnyAccessTranscript(s0, r.op, r.address, x, r.data, r.pads, {});
    UndrainedTraffic(s.level, x, s.level + 1, s.bucketSize);
    NotFoundExit(s0, s.pos, m, w, r.op, r.address, x, r.data, r.pads);
    AccessFrame(s0, s.pos, m, w, r.op, r.address, x, r.data, r.pads);
  }

  /** A leaf beyond the tree is refused, and nothing at all has changed. */
  lemma InvalidLeafExit(s: State, op: Operation, address: nat, x: nat, data: Block, pads: PadSource)
    requires s.level == s.server.level && x >= Pow2(s.level)
    ensures var r := AccessDirect(s, op, address, x, data, pads);
      r.status == InvalidArgument && r.state == s && r.data == data
  {
  }
}
