/** The Path ORAM client (core/path_oram_controller.cc) talking to its server. */
module PathOramController {
  import opened OramDefs
  import opened Geometry
  import opened TreeStorage
  import opened PathOramModel
  import opened PathOramPlacement
  import opened PathOramRefinement
  import opened PathOramTranscript
  import opened PathOramFill

  class PathOramController {
    const blockNum: nat
    const bucketSize: nat
    const standalone: bool
    const treeLevel: nat
    const numberOfLeafs: nat
    var positionMap: PositionMap
    var stash: seq<Block>
    var stashSize: nat
    var networkCommunication: nat
    var isInitialized: bool
    var server: TreeOramServerStorage?

    /** The flat memory this ORAM stands for, and where each live block is. */
    ghost var memory: Memory
    ghost var places: map<nat, Place>

    ghost predicate Connected()
      reads this, server
    {
      && numberOfLeafs == Pow2(treeLevel) && 1 <= bucketSize
      && server != null && server.level == treeLevel && WellShaped(server.View())
    }

    ghost function View(): State
      reads this, server
      requires server != null
    {
      State(treeLevel, bucketSize, standalone, positionMap, stash, stashSize, networkCommunication, server.View())
    }

    ghost predicate Valid()
      reads this, server
    {
      Connected() && Invariant(View(), memory, places)
    }

    constructor (blockNum: nat, bucketSize: nat, standalone: bool)
      requires blockNum >= 1 && 1 <= bucketSize <= 255
      ensures this.blockNum == blockNum && this.bucketSize == bucketSize && this.standalone == standalone
      ensures treeLevel == TreeLevel(blockNum, bucketSize) && numberOfLeafs == Pow2(treeLevel)
      ensures TreeSlots(treeLevel, bucketSize) >= blockNum
      ensures treeLevel > 0 ==> TreeSlots(treeLevel - 1, bucketSize) < blockNum
      ensures positionMap == map[] && stash == [] && stashSize == 0 && networkCommunication == 0
      ensures !isInitialized && server == null
    {
      TreeHoldsAllBlocks(blockNum, bucketSize);
      TreeIsLeast(blockNum, bucketSize);
      this.blockNum, this.bucketSize, this.standalone := blockNum, bucketSize, standalone;
      var bucketNum := CeilDiv(blockNum, bucketSize);
      treeLevel := LevelOf(bucketNum);
      numberOfLeafs := Pow2(LevelOf(bucketNum));
      positionMap, stash, stashSize, networkCommunication := map[], [], 0, 0;
      isInitialized, server := false, null;
      memory, places := map[], map[];
    }

    /** The server is told the number of leaves, and builds a tree of the client's own height. */
    method InitOram()
      requires numberOfLeafs == Pow2(treeLevel) && 1 <= bucketSize && server == null
      modifies this`server
      ensures server != null && fresh(server) && Connected() && server.log == []
      ensures forall t :: t in server.storage ==> server.storage[t] == []
    {
      server := new TreeOramServerStorage(numberOfLeafs, bucketSize);
      ServerLevelAgrees(treeLevel);
    }

    /** Send one initial bucket, by level and offset. */
    method AccurateWriteBucket(level: nat, offset: nat, bucket: seq<Block>) returns (status: StatusCode)
      requires Connected() && (level, offset) in server.storage
      modifies server
      ensures Connected() && status == OK && server.log == old(server.log)
      ensures server.storage
        == old(server.storage)[(level, offset) := old(server.storage)[(level, offset)] + Sealed(bucket)]
    {
      status := server.AccurateWritePath(level, offset, bucket, TypeInit);
      SameShape(old(server.View()), server.View());
    }

    /**
     Fill the buckets greedily from the leaf level up and from left to right. `starts[k]` is the leaf drawn for the
     k-th block, among those below its bucket, and becomes its position. What does not fit is not loaded.
     */
    method FillWithData(data: seq<Block>, starts: seq<nat>, pads: PadSource)
      requires Connected() && !isInitialized && positionMap == map[] && stash == []
      requires forall t :: t in server.storage ==> server.storage[t] == []
      requires DistinctNormals(data) && StartsBelow(treeLevel, bucketSize, data, starts)
      modifies this`positionMap, this`isInitialized, this`memory, this`places, server
      ensures isInitialized && Valid() && Filled(View())
      ensures memory == Loaded(data[..Min(|data|, TreeSlots(treeLevel, bucketSize))])
      ensures stash == [] && forall id :: id in positionMap ==> id in memory
      ensures StartedAt(positionMap, data, starts, Min(|data|, TreeSlots(treeLevel, bucketSize)))
      ensures LaidOut(server.View(), bucketSize, data, -1, 0)
      ensures server.log == old(server.log)
    {
      hide Placed, FillState, Loaded, AllFull, Times, LaidOut, Share, RealOf, Normals, WellShaped, StartsBelow;
      hide StartedAt, ShareStarts;
      NothingStarted(treeLevel, bucketSize, data, starts);
      var pData, written := 0, 0;
      ghost var w: map<nat, Place> := map[];
      FillStart(server.View(), bucketSize, data);
      LaidOutStart(server.View(), bucketSize, data);
      TimesStep(0, bucketSize);
      for i := treeLevel + 1 downto 0
        invariant Connected() && server.log == old(server.log)
        invariant written == Pow2(treeLevel + 1) - Pow2(i)
        invariant pData == Min(|data|, Times(written, bucketSize))
        invariant FillState(positionMap, server.View(), bucketSize, data, pData, w, i - 1, 0)
        invariant LaidOut(server.View(), bucketSize, data, i - 1, 0)
        invariant StartedAt(positionMap, data, starts, pData)
      {
        FirstRankValue(treeLevel, i);
        var levelSize := Pow2(i);
        var span := Pow2(treeLevel - i);
        ghost var before := written;
        for j := 0 to levelSize
          invariant Connected() && server.log == old(server.log)
          invariant written == before + j
          invariant pData == Min(|data|, Times(written, bucketSize))
          invariant FillState(positionMap, server.View(), bucketSize, data, pData, w, i, j)
          invariant LaidOut(server.View(), bucketSize, data, i, j)
          invariant StartedAt(positionMap, data, starts, pData)
        {
          ghost var sv := server.View();
          StartsInShare(treeLevel, bucketSize, data, starts, i, j, written, pData);
          w := FillOneBucket(data, starts, pads, i, j, span, pData, written, w);
          LaidOutNext(sv, server.View(), bucketSize, data, i, j, written, pData);
          pData := if |data| - pData < bucketSize then |data| else pData + bucketSize;
          written := written + 1;
        }
        FillLevelDone(positionMap, server.View(), bucketSize, data, pData, w, i);
        LaidOutLevelDone(server.View(), bucketSize, data, i);
      }
      FillEnd(positionMap, server.View(), bucketSize, data, pData, w);
      isInitialized := true;
      memory, places := Loaded(data[..pData]), w;
    }

    /** Put together and send the bucket (i, j) from the blocks at pData and after. */
    method FillOneBucket(data: seq<Block>, starts: seq<nat>, pads: PadSource, i: nat, j: nat, span: nat, start: nat,
                         tag: nat, ghost w: map<nat, Place>)
      returns (ghost w': map<nat, Place>)
      requires Connected() && DistinctNormals(data) && start <= |data|
      requires i <= treeLevel && j < Pow2(i) && span == Pow2(treeLevel - i)
      requires FillState(positionMap, server.View(), bucketSize, data, start, w, i, j)
      requires ShareStarts(treeLevel, bucketSize, data, starts, i, j, start)
      requires StartedAt(positionMap, data, starts, start)
      modifies this`positionMap, server
      ensures Connected() && server.log == old(server.log)
      ensures FillState(positionMap, server.View(), bucketSize, data, Min(|data|, start + bucketSize), w', i, j + 1)
      ensures StartedAt(positionMap, data, starts, Min(|data|, start + bucketSize))
      ensures server.storage.Keys == old(server.storage).Keys && (i, j) in server.storage
      ensures forall t :: t in server.storage && t != (i, j) ==> server.storage[t] == old(server.storage)[t]
      ensures RealOf(server.storage[(i, j)]) == Normals(data[start..Min(|data|, start + bucketSize)])
    {
      hide FillState, Assigned, Normals, Padded, WellShaped, DistinctNormals, RealOf, PlacesWith, Offset, StartedAt;
      var bucket: seq<Block> := [];
      var begin := j * span;
      var end := begin + span - 1;
      var pData := start;
      ghost var pos0, sv := positionMap, server.View();
      FillTarget(pos0, sv, bucketSize, data, start, w, i, j);
      AssignNone(treeLevel, pos0, i, j);
      assert data[start..start] == [];
      for k := 0 to bucketSize
        invariant start <= pData == Min(|data|, start + k)
        invariant bucket == Normals(data[start..pData]) && |bucket| <= k
        invariant Assigned(treeLevel, pos0, positionMap, bucket, i, j)
        invariant server.View() == sv && StartedAt(positionMap, data, starts, pData)
      {
        if pData >= |data| {
          break;
        }
        NormalsGrow(data, start, pData);
        StartOne(positionMap, data, starts, pData);
        if data[pData].kind == Normal {
          var path := starts[pData];
          LeafRange(treeLevel, i, j, path);
          assert begin <= path <= end;
          AssignOne(treeLevel, pos0, positionMap, bucket, i, j, data[pData], path);
          bucket := bucket + [data[pData]];
          positionMap := positionMap[data[pData].id := path];
        }
        pData := pData + 1;
      }
      FillBucket(pos0, positionMap, sv, bucketSize, data, start, pData, w, i, j, bucket, tag, pads);
      w' := PlacesWith(w, bucket, i);
      BucketReal(data[start..pData], bucket, sv.buckets[(i, j)], bucketSize, tag, pads);
      bucket := PadStash(bucket, bucketSize, tag, pads);
      var status := AccurateWriteBucket(i, j, bucket);
      assert status == OK;
    }

    method ReadBucket(path: nat, level: nat) returns (status: StatusCode, bucket: seq<Block>)
      requires Connected()
      modifies this`networkCommunication, server
      ensures Connected()
      ensures path >= numberOfLeafs || level > treeLevel ==>
        && status == InvalidArgument && bucket == [] && server.View() == old(server.View())
        && networkCommunication == old(networkCommunication)
      ensures path < numberOfLeafs && level <= treeLevel ==>
        && status == OK && bucket == Contents(BucketOn(old(server.View()), level, path))
        && server.View() == AfterRead(old(server.View()), level, path)
        && networkCommunication == old(networkCommunication) + |bucket|
    {
      if path >= numberOfLeafs || level > treeLevel {
        return InvalidArgument, [];
      }
      OffsetInRange(treeLevel, level, path);
      assert IsTag(treeLevel, TagOn(treeLevel, level, path));
      status, bucket := server.ReadPath(level, path);
      assert status == OK;  // a bucket on a valid path exists, so the server error return is never taken
      SameShape(old(server.View()), server.View());
      networkCommunication := networkCommunication + |bucket|;
    }

    method WriteBucket(path: nat, level: nat, bucket: seq<Block>) returns (status: StatusCode)
      requires Connected() && path < numberOfLeafs && level <= treeLevel
      modifies this`networkCommunication, server
      ensures Connected() && status == OK
      ensures server.View() == AfterWrite(old(server.View()), level, path, bucket)
      ensures networkCommunication == old(networkCommunication) + |bucket|
    {
      OffsetInRange(treeLevel, level, path);
      assert IsTag(treeLevel, TagOn(treeLevel, level, path));
      networkCommunication := networkCommunication + |bucket|;
      status := server.WritePath(level, path, bucket);
      SameShape(old(server.View()), server.View());
    }

    /** Erase from the stash, while walking over it, up to a bucketful of blocks mapped to the path. */
    method FindSubsetOf(currentPath: nat, tag: nat, pads: PadSource) returns (subset: seq<Block>)
      requires forall b :: b in stash ==> b.id in positionMap
      modifies this`stash
      ensures subset == Padded(Taken(old(stash), positionMap, currentPath, bucketSize), bucketSize, tag, pads)
      ensures stash == Kept(old(stash), positionMap, currentPath, bucketSize)
    {
      hide Padded, Walking, Taken, Kept;
      subset := [];
      var iter := 0;
      ghost var front, rest := [], stash;
      WalkBegins(stash, positionMap, currentPath, bucketSize);
      while iter < |stash|
        invariant stash == front + rest && iter == |front| && |subset| <= bucketSize
        invariant forall b :: b in stash ==> b.id in positionMap
        invariant Walking(old(stash), positionMap, currentPath, bucketSize, subset, front, rest)
        decreases |rest|
      {
        assert stash[iter] == rest[0];
        var blockPath := positionMap[stash[iter].id];
        if |subset| < bucketSize {
          if blockPath == currentPath {
            WalkTakes(old(stash), positionMap, currentPath, bucketSize, subset, front, rest);
            subset := subset + [stash[iter]];
            stash := stash[..iter] + stash[iter + 1..];
          } else {
            WalkPasses(old(stash), positionMap, currentPath, bucketSize, subset, front, rest);
            front := front + [rest[0]];
            iter := iter + 1;
          }
          rest := rest[1..];
        } else {
          break;
        }
      }
      WalkEnds(old(stash), positionMap, currentPath, bucketSize, subset, front, rest);
      subset := PadStash(subset, bucketSize, tag, pads);
    }

    /** Steps 3-5, first half: read the path, root bucket first. An invalid leaf is rejected by the first read. */
    method ReadWholePath(x: nat) returns (status: StatusCode, path: seq<seq<Block>>)
      requires Connected()
      modifies this`networkCommunication, server
      ensures Connected()
      ensures x >= numberOfLeafs ==> status == InvalidArgument && View() == old(View())
      ensures x < numberOfLeafs ==>
        && status == OK && path == PathBuckets(old(server.View()), x, treeLevel + 1)
        && server.View() == ReadLevels(old(server.View()), x, treeLevel + 1)
        && networkCommunication == old(networkCommunication) + TotalLength(path)
    {
      hide WellShaped, Contents, BucketOn, AfterRead, ReadLevels, TotalLength, PathBuckets;
      ghost var sv := server.View();
      path := [];
      NothingRead(sv, x);
      for i := 0 to treeLevel + 1
        invariant Connected() && (i == 0 || x < numberOfLeafs)
        invariant path == PathBuckets(sv, x, i)
        invariant server.View() == ReadLevels(sv, x, i)
        invariant networkCommunication == old(networkCommunication) + TotalLength(path)
      {
        var bucket;
        status, bucket := ReadBucket(x, i);
        if status != OK {
          return status, path;
        }
        OneMoreLevel(sv, x, i);
        path := path + [bucket];
      }
      return OK, path;
    }

    /** Steps 3-5, second half: add the normal blocks that the stash does not hold yet. */
    method AbsorbWholePath(path: seq<seq<Block>>)
      modifies this`stash
      ensures stash == AbsorbPath(old(stash), path)
    {
      for i := 0 to |path|
        invariant stash == AbsorbPath(old(stash), path[..i])
      {
        var bucket := path[i];
        for j := 0 to |bucket|
          invariant stash == Absorb(AbsorbPath(old(stash), path[..i]), bucket[..j])
        {
          var block := bucket[j];
          if FindBlock(stash, block.id) == |stash| && block.kind == Normal {
            stash := stash + [block];
          }
          assert bucket[..j + 1][..j] == bucket[..j];
        }
        assert bucket[..|bucket|] == bucket;
        assert path[..i + 1][..i] == path[..i];
      }
      assert path[..|path|] == path;
    }

    /** Steps 6-9: update the block found at `iter`, or hand it out (and, unless standalone, forget it). */
    method UpdateBlock(op: Operation, address: nat, iter: nat, data: Block) returns (out: Block)
      requires server != null && iter < |stash|
      modifies this`stash, this`stashSize, this`positionMap
      ensures View() == Updated(old(View()), op, address, iter, data)
      ensures out == if op.OpWrite? then data else old(stash)[iter]
    {
      stashSize := if stashSize >= |stash| then stashSize else |stash|;
      if op.OpWrite? {
        stash := stash[iter := stash[iter].(cell := data.cell)];
        return data;
      }
      out := stash[iter];
      if !standalone {
        stash := stash[..iter] + stash[iter + 1..];
        positionMap := positionMap - {address};
      }
    }

    /** Steps 10-15: refill the path from the leaf up. */
    method WriteWholePath(x: nat, pads: PadSource)
      requires Connected() && x < numberOfLeafs
      requires forall b :: b in stash ==> b.id in positionMap
      modifies this`stash, this`networkCommunication, server
      ensures Connected() && View() == WrittenBack(old(View()), x, pads)
    {
      hide Taken, Kept, Padded, AfterWrite, Times, WellShaped;
      ghost var sv := server.View();
      TimesStep(0, bucketSize);
      for i := treeLevel + 1 downto 0
        invariant Connected()
        invariant Refilled(stash, server.View()) == Refill(positionMap, old(stash), sv, x, bucketSize, pads, i)
        invariant networkCommunication == old(networkCommunication) + Times(treeLevel + 1 - i, bucketSize)
        invariant forall b :: b in stash ==> b.id in positionMap
      {
        TakenKeptSplit(stash, positionMap, x, bucketSize);
        TimesStep(treeLevel - i, bucketSize);
        var subset := FindSubsetOf(x, i, pads);
        var status := WriteBucket(x, i, subset);
        assert status == OK;  // the bucket exists, so the error return is never taken
      }
    }

    /** One access along the path to leaf x. `home` holds the leaves by which the tree is currently laid out. */
    method InternalAccessDirect(op: Operation, address: nat, x: nat, data: Block, pads: PadSource,
                                ghost home: PositionMap)
      returns (status: StatusCode, out: Block)
      requires Connected()
      requires x < numberOfLeafs ==> Ready(View(), home, memory, places, address, x)
      modifies this`stash, this`stashSize, this`positionMap, this`networkCommunication, server
      ensures Connected()
      ensures var r := PathOramModel.AccessDirect(old(View()), op, address, x, data, pads);
        View() == r.state && status == r.status && out == r.data
    {
      hide Ready, AbsorbPath, ReadLevels, PathBuckets, TotalLength, FindBlock, Refill, Updated, WellShaped, Offset;
      ghost var s0 := View();
      var path;
      status, path := ReadWholePath(x);
      if status != OK {
        return status, data;
      }
      AbsorbWholePath(path);
      assert View() == Pulled(s0, x);
      var iter := FindBlock(stash, address);
      if iter == |stash| {
        return ObjectNotFound, data;
      }
      UpdatedIsMapped(s0, home, memory, places, op, address, x, data);
      out := UpdateBlock(op, address, iter, data);
      WriteWholePath(x, pads);
      return OK, out;
    }

    /** Client and server are as they were. */
    twostate predicate Untouched()
      reads this, server
    {
      && unchanged(this) && (server != null ==> unchanged(server))
    }

    /** Remap the block to the fresh leaf, then access the path of its old one. */
    method InternalAccess(op: Operation, address: nat, leaf: nat, data: Block, pads: PadSource)
      returns (status: StatusCode, out: Block)
      requires isInitialized ==> Valid() && leaf < numberOfLeafs && !op.OpInvalid?
      modifies this`stash, this`stashSize, this`positionMap, this`networkCommunication, this`memory, this`places,
        if server == null then {} else {server}
      ensures isInitialized ==> Valid()
      ensures !isInitialized ==> status == InvalidOperation && out == data && Untouched()
      ensures isInitialized ==>
        var r := PathOramModel.Access(old(View()), op, address, leaf, data, pads);
        var f := FlatAccess(old(memory), standalone, op, address, data);
        && View() == r.state && status == r.status == f.status && out == r.data == f.data
        && memory == f.memory
    {
      hide Invariant, Placed, Ready, PathOramModel.AccessDirect, FlatAccess, PlacesAfter, Visible, WellShaped;
      if !isInitialized {
        return InvalidOperation, data;
      }
      ghost var s0 := View();
      var prev := if address in positionMap then positionMap[address] else 0;
      positionMap := positionMap[address := leaf];
      RemappedIsReady(s0, memory, places, address, leaf);
      status, out := InternalAccessDirect(op, address, prev, data, pads, s0.pos);
      AccessKeeps(s0, memory, places, op, address, leaf, data, pads);
      places := PlacesAfter(s0.(pos := s0.pos[address := leaf]), s0.pos, places, op, address, prev, data, pads);
      memory := FlatAccess(memory, standalone, op, address, data).memory;
    }

    method Access(op: Operation, address: nat, leaf: nat, data: Block, pads: PadSource)
      returns (status: StatusCode, out: Block)
      requires isInitialized ==> Valid() && leaf < numberOfLeafs && !op.OpInvalid?
      modifies this`stash, this`stashSize, this`positionMap, this`networkCommunication, this`memory, this`places,
        if server == null then {} else {server}
      ensures isInitialized ==> Valid()
      ensures !isInitialized ==> status == InvalidOperation && out == data && Untouched()
      ensures isInitialized ==>
        var f := FlatAccess(old(memory), standalone, op, address, data);
        && View() == PathOramModel.Access(old(View()), op, address, leaf, data, pads).state
        && status == f.status && out == f.data && memory == f.memory
    {
      if !isInitialized {
        return InvalidOperation, data;
      }
      status, out := InternalAccess(op, address, leaf, data, pads);
    }

    /** Access along a leaf the caller names. It reaches the block if the stash or that very path holds it. */
    method AccessDirect(op: Operation, address: nat, position: nat, data: Block, pads: PadSource)
      returns (status: StatusCode, out: Block)
      requires isInitialized ==> Valid()
      modifies this`stash, this`stashSize, this`positionMap, this`networkCommunication, this`memory, this`places,
        if server == null then {} else {server}
      ensures isInitialized ==> Valid()
      ensures !isInitialized ==> status == InvalidOperation && out == data && Untouched()
      ensures isInitialized ==>
        var reached := position < numberOfLeafs && address in old(memory)
                       && Visible(old(View()), old(positionMap), old(places), position, address);
        && View() == PathOramModel.AccessDirect(old(View()), op, address, position, data, pads).state
        && (!reached ==> memory == old(memory) && out == data
                         && status == if position < numberOfLeafs then ObjectNotFound else InvalidArgument)
        && (reached ==> var f := FlatAccess(old(memory), standalone, op, address, data);
                        status == f.status && out == f.data && memory == f.memory)
    {
      hide Invariant, Placed, Ready, PathOramModel.AccessDirect, FlatAccess, PlacesAfter, Visible, WellShaped;
      if !isInitialized {
        return InvalidOperation, data;
      }
      ghost var s0 := View();
      if position < numberOfLeafs {
        InvariantIsReady(s0, memory, places, address, position);
      }
      status, out := InternalAccessDirect(op, address, position, data, pads, s0.pos);
      AccessDirectKeeps(s0, memory, places, op, address, position, data, pads);
      if position < numberOfLeafs && address in memory && Visible(s0, s0.pos, places, position, address) {
        memory := FlatAccess(memory, standalone, op, address, data).memory;
      }
      places := PlacesAfter(s0, s0.pos, places, op, address, position, data, pads);
    }
  }
}
