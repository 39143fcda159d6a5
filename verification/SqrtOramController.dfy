/** The square-root ORAM client (core/square_root_oram_controller.cc) talking to its server. */
module SqrtOramController {
  import opened OramDefs
  import opened Permutations
  import opened SqrtStorage
  import SqrtModel

  type PositionMap = map<nat, nat>

  /** ceil(sqrt(n)). */
  function CeilSqrt(n: nat): (r: nat)
    ensures n <= r * r
    ensures r > 0 ==> (r - 1) * (r - 1) < n
  {
    if n == 0 then 0 else
    var r := CeilSqrt(n - 1);
    if n <= r * r then r else r + 1
  }

  predicate IsPow2(n: nat) {
    n == 1 || (n > 0 && n % 2 == 0 && IsPow2(n / 2))
  }

  // ----- permutation agreement --------------------------------------------------------------------

  /** The position map is a bijection from addresses to indices, both in [0, n). */
  ghost predicate IsLayout(pos: PositionMap, n: nat) {
    && (forall a :: a in pos <==> 0 <= a < n)
    && (forall a :: 0 <= a < n ==> pos[a] < n)
    && (forall a, b :: 0 <= a < b < n ==> pos[a] != pos[b])
  }

  /** The word of every address sits where the position map says. */
  ghost predicate Agrees(pos: PositionMap, mem: seq<Slot>, contents: seq<Block>) {
    && IsLayout(pos, |contents|) && |mem| == |contents|
    && forall a :: 0 <= a < |contents| ==> mem[pos[a]] == Full(contents[a])
  }

  lemma MappedExactly(pos: PositionMap, mem: seq<Slot>, contents: seq<Block>)
    requires Agrees(pos, mem, contents)
    ensures forall a :: a in pos <==> 0 <= a < |contents|
  {
  }

  /** What `UpdatePosition` does to one entry. */
  function Moved(pos: PositionMap, perm: seq<nat>, i: nat): nat
    requires i < |perm| && (i in pos ==> pos[i] < |perm|)
  {
    if i in pos then perm[pos[i]] else perm[i]
  }

  ghost predicate IsUpdated(pos: PositionMap, perm: seq<nat>, pos': PositionMap)
    requires forall a :: a in pos ==> pos[a] < |perm|
  {
    && (forall a :: a in pos' <==> 0 <= a < |perm| || a in pos)
    && (forall a :: 0 <= a < |perm| ==> pos'[a] == Moved(pos, perm, a))
    && (forall a :: a in pos && a >= |perm| ==> pos'[a] == pos[a])
  }

  /** Every address has moved from its word to where the permutation sends that word. */
  ghost predicate Remapped(pos: PositionMap, perm: seq<nat>, pos': PositionMap) {
    pos'.Keys == pos.Keys && forall a :: a in pos ==> pos[a] < |perm| && pos'[a] == perm[pos[a]]
  }

  lemma UpdatedIsRemapped(pos: PositionMap, perm: seq<nat>, pos': PositionMap, mem: seq<Slot>, contents: seq<Block>)
    requires Agrees(pos, mem, contents) && |perm| == |contents| && IsUpdated(pos, perm, pos')
    ensures Remapped(pos, perm, pos')
  {
  }

  /** The first permutation lays the memory out. */
  lemma InitialLayout(perm: seq<nat>, pos: PositionMap, contents: seq<Block>, slots: seq<Slot>, mem: seq<Slot>)
    requires |contents| == |perm| == |slots| && IsUpdated(map[], perm, pos)
    requires forall a :: 0 <= a < |contents| ==> slots[a] == Full(contents[a])
    requires IsPermuted(perm, slots, mem)
    ensures Agrees(pos, mem, contents)
  {
  }

  /** Right after loading, the word of address a is the one the first permutation sends it to. */
  lemma LaidOutBy(perm: seq<nat>, pos: PositionMap, mem: seq<Slot>, contents: seq<Block>)
    requires |perm| == |contents| && IsPerm(perm) && IsUpdated(map[], perm, pos) && Agrees(pos, mem, contents)
    ensures |mem| == |contents| && (forall a :: a in pos <==> 0 <= a < |contents|)
    ensures forall a :: 0 <= a < |contents| ==>
      pos[a] == perm[a] && perm[a] < |mem| && mem[perm[a]] == Full(contents[a])
  {
  }

  /** Client and server compose the same permutation, so they stay in step. */
  lemma LayoutFollowsPermutation(pos: PositionMap, perm: seq<nat>, pos': PositionMap, contents: seq<Block>,
                                 mem: seq<Slot>, mem': seq<Slot>)
    requires Agrees(pos, mem, contents) && |perm| == |contents|
    requires IsUpdated(pos, perm, pos') && IsPermuted(perm, mem, mem')
    ensures Agrees(pos', mem', contents)
  {
    forall a, b | 0 <= a < b < |contents|
      ensures pos'[a] != pos'[b]
    {
      assert pos[a] != pos[b];
    }
  }

  /** Writing one word by its tag, in the current layout, writes that address. */
  lemma WriteByTag(pos: PositionMap, mem: seq<Slot>, contents: seq<Block>, address: nat, block: Block)
    requires Agrees(pos, mem, contents) && address < |contents|
    ensures Agrees(pos, mem[pos[address] := Full(block)], contents[address := block])
  {
  }

  // ----- what the server is asked -----------------------------------------------------------------

  function ShelterScan(n: nat): (r: seq<Request>)
    ensures |r| == n && forall i :: 0 <= i < n ==> r[i] == AskRead(SHELTER, i)
  {
    seq(n, i requires 0 <= i => AskRead(SHELTER, i))
  }

  /** The read that follows the scan: the next dummy on a hit, the word itself on a miss. */
  function SecondRead(hit: bool, index: nat, nextDummy: nat): Request {
    if hit then AskRead(DUMMY, nextDummy) else AskRead(MAIN_MEMORY, index)
  }

  /**
   The rest of a successful access: the block is sent to the shelter, and a full period is followed by a permutation.
   */
  function Afterwards(index: nat, full: bool, perm: seq<nat>): seq<Request> {
    [SendBlock(index)] + (if full then [SendPermutation(perm)] else [])
  }

  lemma ThenAfterwards(before: seq<Request>, index: nat, full: bool, perm: seq<nat>)
    ensures (before + [SendBlock(index)]) + (if full then [SendPermutation(perm)] else [])
      == before + Afterwards(index, full, perm)
  {
  }

  /** The main-memory indices that a run within one period reads. */
  function IndicesRead(pos: PositionMap, s: SqrtModel.Machine, accesses: seq<SqrtModel.Access>): (r: seq<nat>)
    requires forall i :: 0 <= i < |SqrtModel.MainReads(s, accesses)| ==> SqrtModel.MainReads(s, accesses)[i] in pos
    ensures |r| == |SqrtModel.MainReads(s, accesses)|
    ensures forall i :: 0 <= i < |r| ==> r[i] == pos[SqrtModel.MainReads(s, accesses)[i]]
  {
    var misses := SqrtModel.MainReads(s, accesses);
    seq(|misses|, i requires 0 <= i < |misses| => pos[misses[i]])
  }

  /**
   Within a period no main-memory index is read twice if and only if the accesses to each block follow one another
   directly: the shelter remembers only the last block, so coming back to an earlier one reads its word again.
   */
  lemma IndexReadTwice(pos: PositionMap, s: SqrtModel.Machine, accesses: seq<SqrtModel.Access>)
    requires IsLayout(pos, |s.memory|)
    requires SqrtModel.Labelled(s) && s.pending == None && s.counter + |accesses| <= s.period
    requires forall a :: a in accesses ==> SqrtModel.ProperAccess(a, |s.memory|) && s.memory[a.address].kind == Normal
    ensures forall i :: 0 <= i < |SqrtModel.MainReads(s, accesses)| ==> SqrtModel.MainReads(s, accesses)[i] in pos
    ensures Distinct(IndicesRead(pos, s, accesses)) <==> SqrtModel.Contiguous(SqrtModel.AddressesOf(accesses))
  {
    var misses := SqrtModel.MainReads(s, accesses);
    SqrtModel.MainReadsOnce(s, accesses);
    SqrtModel.MainReadsRequested(s, accesses);
    assert forall i :: 0 <= i < |misses| ==> misses[i] in misses;
    var indices := IndicesRead(pos, s, accesses);
    assert forall i, j :: 0 <= i < j < |misses| ==> (indices[i] == indices[j] <==> misses[i] == misses[j]);
  }

  // ----- loading ----------------------------------------------------------------------------------

  function Ids(blocks: seq<Block>): (r: seq<nat>)
    ensures |r| == |blocks| && forall i :: 0 <= i < |r| ==> r[i] == blocks[i].id
  {
    seq(|blocks|, i requires 0 <= i < |blocks| => blocks[i].id)
  }

  /** `Padded`: fill up with invalid blocks numbered on from the data. */
  function PaddedTo(data: seq<Block>, num: nat, filler: Cell): (r: seq<Block>)
    requires |data| <= num
    ensures |r| == num
    ensures forall i :: 0 <= i < num ==> r[i] == if i < |data| then data[i] else Block(i, Invalid, filler)
  {
    seq(num, i requires 0 <= i => if i < |data| then data[i] else Block(i, Invalid, filler))
  }

  method PadBlocks(data: seq<Block>, num: nat, filler: Cell) returns (ans: seq<Block>)
    requires |data| <= num
    ensures ans == PaddedTo(data, num, filler)
  {
    ans := data;
    var i := |data|;
    while i != num
      invariant |data| <= i <= num && ans == PaddedTo(data, i, filler)
      decreases num - i
    {
      ans := ans + [Block(i, Invalid, filler)];
      i := i + 1;
    }
  }

  /** Ids that number the data still number it once padded. */
  lemma PaddedIdsArePerm(data: seq<Block>, num: nat, filler: Cell)
    requires |data| <= num && IsPerm(Ids(data))
    ensures IsPerm(Ids(PaddedTo(data, num, filler)))
  {
    var p := PaddedTo(data, num, filler);
    forall i | 0 <= i < num
      ensures Ids(p)[i] < num && (i < |data| ==> Ids(p)[i] == Ids(data)[i]) && (i >= |data| ==> Ids(p)[i] == i)
    {
    }
  }

  ghost predicate Ascending(blocks: seq<Block>) {
    forall i, j :: 0 <= i < j < |blocks| ==> blocks[i].id < blocks[j].id
  }

  /** `std::sort` by id. Its comparison is no ordering on equal ids, so they are excluded. */
  method SortById(blocks: seq<Block>) returns (sorted: seq<Block>)
    requires Distinct(Ids(blocks))
    ensures multiset(sorted) == multiset(blocks) && Ascending(sorted)
  {
    sorted := [];
    for i := 0 to |blocks|
      invariant multiset(sorted) == multiset(blocks[..i]) && Ascending(sorted)
    {
      var k := 0;
      while k < |sorted| && sorted[k].id < blocks[i].id
        invariant k <= |sorted| && forall j :: 0 <= j < k ==> sorted[j].id < blocks[i].id
      {
        k := k + 1;
      }
      InsertSorted(blocks, i, sorted, k);
      sorted := sorted[..k] + [blocks[i]] + sorted[k..];
    }
    assert blocks[..|blocks|] == blocks;
  }

  lemma InsertSorted(blocks: seq<Block>, i: nat, sorted: seq<Block>, k: nat)
    requires Distinct(Ids(blocks)) && i < |blocks| && multiset(sorted) == multiset(blocks[..i]) && Ascending(sorted)
    requires k <= |sorted| && forall j :: 0 <= j < k ==> sorted[j].id < blocks[i].id
    requires k < |sorted| ==> blocks[i].id <= sorted[k].id
    ensures var longer := sorted[..k] + [blocks[i]] + sorted[k..];
      multiset(longer) == multiset(blocks[..i + 1]) && Ascending(longer)
  {
    hide Ascending, Distinct;
    NotYetSorted(blocks, i, sorted);
    InsertAscending(sorted, k, blocks[i]);
    InsertMultiset(blocks, i, sorted, k);
  }

  lemma NotYetSorted(blocks: seq<Block>, i: nat, sorted: seq<Block>)
    requires Distinct(Ids(blocks)) && i < |blocks| && multiset(sorted) == multiset(blocks[..i])
    ensures forall b :: b in sorted ==> b.id != blocks[i].id
  {
    SameMembers(sorted, blocks[..i]);
    forall b | b in sorted
      ensures b.id != blocks[i].id
    {
      var j :| 0 <= j < i && blocks[..i][j] == b;
      assert Ids(blocks)[j] != Ids(blocks)[i];
    }
  }

  lemma InsertAscending(sorted: seq<Block>, k: nat, b: Block)
    requires Ascending(sorted) && k <= |sorted| && forall c :: c in sorted ==> c.id != b.id
    requires forall j :: 0 <= j < k ==> sorted[j].id < b.id
    requires k < |sorted| ==> b.id <= sorted[k].id
    ensures Ascending(sorted[..k] + [b] + sorted[k..])
  {
    assert k < |sorted| ==> sorted[k] in sorted;
  }

  lemma InsertMultiset(blocks: seq<Block>, i: nat, sorted: seq<Block>, k: nat)
    requires i < |blocks| && multiset(sorted) == multiset(blocks[..i]) && k <= |sorted|
    ensures multiset(sorted[..k] + [blocks[i]] + sorted[k..]) == multiset(blocks[..i + 1])
  {
    assert blocks[..i + 1] == blocks[..i] + [blocks[i]];
    assert sorted == sorted[..k] + sorted[k..];
  }

  lemma {:induction false} AscendingFrom(blocks: seq<Block>, k: nat)
    requires Ascending(blocks) && k < |blocks|
    ensures k <= blocks[k].id && blocks[|blocks| - 1].id >= blocks[k].id + (|blocks| - 1 - k)
  {
    if k > 0 {
      AscendingFrom(blocks[..k], k - 1);
    }
    AscendingTo(blocks, k);
  }

  lemma {:induction false} AscendingTo(blocks: seq<Block>, k: nat)
    requires Ascending(blocks) && k < |blocks|
    ensures blocks[|blocks| - 1].id >= blocks[k].id + (|blocks| - 1 - k)
    decreases |blocks| - k
  {
    if k + 1 < |blocks| {
      AscendingTo(blocks, k + 1);
    }
  }

  /** If the ids number the data 0, 1, .., sorting by id puts every block at its own address. */
  lemma LoadedContents(data: seq<Block>, num: nat, filler: Cell, sorted: seq<Block>)
    requires |data| <= num && IsPerm(Ids(data))
    requires multiset(sorted) == multiset(PaddedTo(data, num, filler)) && Ascending(sorted)
    ensures |sorted| == num && forall a :: 0 <= a < num ==> sorted[a].id == a
    ensures forall b :: b in data ==> b.id < num && sorted[b.id] == b
    ensures forall a :: |data| <= a < num ==> sorted[a] == Block(a, Invalid, filler)
  {
    var p := PaddedTo(data, num, filler);
    PaddedIdsArePerm(data, num, filler);
    SameMembers(sorted, p);
    forall a | 0 <= a < num
      ensures sorted[a].id == a
    {
      AscendingFrom(sorted, a);
      assert sorted[num - 1] in p;
      var i :| 0 <= i < num && p[i] == sorted[num - 1];
      assert Ids(p)[i] < num;
    }
    forall i | 0 <= i < num
      ensures p[i].id < num && sorted[p[i].id] == p[i]
    {
      assert p[i] in sorted;
      var a :| 0 <= a < num && sorted[a] == p[i];
    }
    forall b | b in data
      ensures b.id < num && sorted[b.id] == b
    {
      var i :| 0 <= i < |data| && data[i] == b;
      assert p[i] == b;
    }
    assert forall a :: |data| <= a < num ==> p[a].id == a;
  }

  lemma LoadedIfNumbered(data: seq<Block>, num: nat, filler: Cell, sorted: seq<Block>)
    requires |data| <= num && multiset(sorted) == multiset(PaddedTo(data, num, filler)) && Ascending(sorted)
    ensures IsPerm(Ids(data)) ==>
      && (forall b :: b in data ==> b.id < |sorted| && sorted[b.id] == b)
      && (forall a :: |data| <= a < |sorted| ==> sorted[a] == Block(a, Invalid, filler))
  {
    if IsPerm(Ids(data)) {
      LoadedContents(data, num, filler, sorted);
    }
  }

  lemma SameMembers(s: seq<Block>, t: seq<Block>)
    requires multiset(s) == multiset(t)
    ensures |s| == |t| && forall b :: b in s <==> b in t
  {
    assert |s| == |multiset(s)| && |t| == |multiset(t)|;
    assert forall b :: b in s <==> b in multiset(s);
    assert forall b :: b in t <==> b in multiset(t);
  }

  class SqrtOramController {
    const blockNum: nat
    const sqrtM: nat
    var nextDummy: nat
    var counter: nat
    var positionMap: PositionMap
    var isInitialized: bool
    var server: SqrtOramServerStorage?

    /** The machine this ORAM stands for: the block of every address, and the pending block. */
    ghost var memory: seq<Block>
    ghost var pending: Option<SqrtModel.Pending>

    ghost predicate Sized()
      reads this, server
    {
      && 1 <= blockNum && 1 <= sqrtM && blockNum + sqrtM < INVALID_TAG
      && server != null && |server.mainMemory| == blockNum && |server.dummy| == sqrtM == |server.shelter|
    }

    /** The shelter holds the pending block, under the tag of its address, and nothing else. */
    ghost predicate ShelterHoldsPending()
      reads this, server
      requires Sized()
    {
      match pending
      case None => AllFree(server.shelter)
      case Some(p) =>
        && p.address in positionMap
        && server.shelter[0] == Shelved(positionMap[p.address], Full(p.block))
        && forall i :: 1 <= i < sqrtM ==> server.shelter[i] == FREE
    }

    ghost predicate Valid()
      reads this, server
    {
      && Sized()
      && |memory| == blockNum + sqrtM
      && Agrees(positionMap, server.mainMemory + server.dummy, memory)
      && nextDummy <= counter < sqrtM
      && ShelterHoldsPending()
    }

    ghost function Machine(): SqrtModel.Machine
      reads this
    {
      SqrtModel.Machine(memory, pending, counter, sqrtM)
    }

    constructor (blockNum: nat)
      requires IsPow2(CeilSqrt(blockNum) + blockNum)
      ensures this.blockNum == blockNum && sqrtM == CeilSqrt(blockNum)
      ensures nextDummy == 0 && counter == 0 && positionMap == map[] && !isInitialized && server == null
    {
      this.blockNum := blockNum;
      sqrtM := CeilSqrt(blockNum);
      nextDummy, counter, positionMap := 0, 0, map[];
      isInitialized, server := false, null;
      memory, pending := [], None;
    }

    method InitOram()
      requires server == null
      modifies this`server
      ensures server != null && fresh(server) && server.capacity == blockNum
      ensures server.mainMemory == [] && server.dummy == [] && server.shelter == []
    {
      server := new SqrtOramServerStorage(blockNum);
    }

    /** New entries take perm[i]; existing ones are carried along by the permutation. */
    method UpdatePosition(perm: seq<nat>)
      requires forall a :: a in positionMap ==> positionMap[a] < |perm|
      modifies this`positionMap
      ensures IsUpdated(old(positionMap), perm, positionMap)
    {
      ghost var pos := positionMap;
      for i := 0 to |perm|
        invariant forall a :: a in positionMap <==> 0 <= a < i || a in pos
        invariant forall a :: 0 <= a < i ==> positionMap[a] == Moved(pos, perm, a)
        invariant forall a :: a in pos && a >= i ==> positionMap[a] == pos[a]
      {
        if i !in positionMap {
          positionMap := positionMap[i := perm[i]];
        } else {
          positionMap := positionMap[i := perm[positionMap[i]]];
        }
      }
    }

    method RandomPerm(permBuf: seq<nat>) returns (perm: seq<nat>)
      requires |permBuf| == blockNum + sqrtM && InRange(permBuf, blockNum + sqrtM) && |permBuf| > 0
      ensures |perm| == blockNum + sqrtM && IsPerm(perm)
      ensures perm == SwapAll(Identity(blockNum + sqrtM), permBuf, blockNum + sqrtM)
    {
      var vec := new nat[blockNum + sqrtM](i => i);
      assert vec[..] == Identity(blockNum + sqrtM);
      SwapPhaseIsPermutation(Identity(blockNum + sqrtM), permBuf, blockNum + sqrtM);
      var status := RandomPermutation(vec, permBuf);
      assert status == OK;
      perm := vec[..];
    }

    /** Pad, sort by id, and lay out at random. Ids that number the data 0, 1, .. become the addresses. */
    method FillWithData(data: seq<Block>, filler: Cell, permBuf: seq<nat>)
      requires 1 <= blockNum && 1 <= sqrtM && blockNum + sqrtM < INVALID_TAG
      requires server != null && server.capacity == blockNum
      requires server.mainMemory == [] && server.dummy == [] && server.shelter == []
      requires !isInitialized && positionMap == map[] && nextDummy == 0 && counter == 0
      requires |data| <= blockNum + sqrtM && Distinct(Ids(PaddedTo(data, blockNum + sqrtM, filler)))
      requires |permBuf| == blockNum + sqrtM && InRange(permBuf, blockNum + sqrtM)
      modifies this`positionMap, this`isInitialized, this`memory, this`pending, server
      ensures isInitialized && Valid() && pending == None
      ensures multiset(memory) == multiset(PaddedTo(data, blockNum + sqrtM, filler)) && Ascending(memory)
      ensures IsPerm(Ids(data)) ==>
        && (forall b :: b in data ==> b.id < |memory| && memory[b.id] == b)
        && (forall a :: |data| <= a < |memory| ==> memory[a] == Block(a, Invalid, filler))
      ensures var perm := SwapAll(Identity(blockNum + sqrtM), permBuf, blockNum + sqrtM);
        && |perm| == |memory| == |server.mainMemory + server.dummy| && IsPerm(perm)
        && (forall a :: a in positionMap <==> 0 <= a < |memory|)
        && forall a :: 0 <= a < |memory| ==>
             positionMap[a] == perm[a] && (server.mainMemory + server.dummy)[perm[a]] == Full(memory[a])
      ensures server.log == old(server.log)
    {
      hide Permutations.InRange, SqrtStorage.Merged, TagsBelow, IsPerm, PaddedTo, Agrees, IsUpdated, Ascending;
      hide Distinct;
      var n := blockNum + sqrtM;
      var paddedData := PadBlocks(data, n, filler);
      var perm := RandomPerm(permBuf);
      UpdatePosition(perm);
      var sorted := SortById(paddedData);
      SameMembers(sorted, paddedData);
      SendContents(perm, sorted);
      isInitialized := true;
      memory, pending := sorted, None;
      LoadedIfNumbered(data, n, filler, sorted);
      LaidOutBy(perm, positionMap, server.mainMemory + server.dummy, memory);
    }

    /** Move every block to its place and load the server. */
    method SendContents(perm: seq<nat>, sorted: seq<Block>)
      requires server != null && server.capacity == blockNum
      requires server.mainMemory == [] && server.dummy == [] && server.shelter == []
      requires |sorted| == |perm| == blockNum + sqrtM && IsPerm(perm) && IsUpdated(map[], perm, positionMap)
      modifies server
      ensures |server.mainMemory| == blockNum && |server.dummy| == sqrtM == |server.shelter| && AllFree(server.shelter)
      ensures Agrees(positionMap, server.mainMemory + server.dummy, sorted) && server.log == old(server.log)
    {
      hide IsPerm, Agrees, IsUpdated, IsScattered, IsPermuted;
      var contents := seq(|sorted|, i requires 0 <= i < |sorted| => Full(sorted[i]));
      PermWithin(perm);
      var moved := PermuteBy(perm, contents);
      server.Fill(moved);
      assert server.mainMemory + server.dummy == moved;
      InitialLayout(perm, positionMap, sorted, contents, moved);
    }

    /** Scan the whole shelter, emptying it, for a normal block with the requested id. */
    method ReadShelter(data: Block) returns (status: StatusCode, out: Block)
      requires Sized() && ShelterHoldsPending()
      modifies server`log, server`shelter
      ensures server.log == old(server.log) + ShelterScan(sqrtM)
      ensures |server.shelter| == sqrtM && AllFree(server.shelter)
      ensures var hit := SqrtModel.Hit(Machine(), data.id);
        && status == (if hit then OK else ObjectNotFound)
        && out == if hit then pending.value.block else data
    {
      status, out := ObjectNotFound, data;
      ghost var before := server.shelter;
      for i := 0 to sqrtM
        invariant |server.shelter| == sqrtM && server.log == old(server.log) + ShelterScan(i)
        invariant forall k :: 0 <= k < i ==> server.shelter[k] == FREE
        invariant forall k :: i <= k < sqrtM ==> server.shelter[k] == before[k]
        invariant var hit := i > 0 && SqrtModel.Hit(Machine(), data.id);
          && status == (if hit then OK else ObjectNotFound)
          && out == if hit then pending.value.block else data
      {
        assert ShelterScan(i + 1) == ShelterScan(i) + [AskRead(SHELTER, i)];
        var answer, content := server.ReadSqrtMemory(SHELTER, i);
        assert answer == OK;
        if content.Full? && content.block.kind == Normal && content.block.id == out.id {
          status, out := OK, content.block;
        }
      }
    }

    /** Send the permutation to the server, which merges the shelter first; then follow it in the position map. */
    method DoPermute(perm: seq<nat>)
      requires Sized() && |memory| == blockNum + sqrtM && ShelterHoldsPending()
      requires Agrees(positionMap, server.mainMemory + server.dummy, memory)
      requires |perm| == |memory| && IsPerm(perm)
      modifies this`positionMap, this`memory, this`pending, server
      ensures server.log == old(server.log) + [SendPermutation(perm)]
      ensures Sized() && pending == None && ShelterHoldsPending()
      ensures IsUpdated(old(positionMap), perm, positionMap)
      ensures memory == match old(pending) case None => old(memory) case Some(p) => old(memory)[p.address := p.block]
      ensures Agrees(positionMap, server.mainMemory + server.dummy, memory)
    {
      ghost var mem := server.mainMemory + server.dummy;
      ghost var shelter := server.shelter;
      match pending {
        case None => MergeNothing(mem, shelter);
        case Some(p) =>
          MergeOne(mem, shelter, 0);
          WriteByTag(positionMap, mem, memory, p.address, p.block);
          memory := memory[p.address := p.block];
      }
      pending := None;
      server.SqrtPermute(perm);
      ghost var pos := positionMap;
      UpdatePosition(perm);
      LayoutFollowsPermutation(pos, perm, positionMap, memory, Merged(mem, shelter), server.mainMemory + server.dummy);
    }

    method PermuteOnFull(permBuf: seq<nat>) returns (status: StatusCode)
      requires Sized() && |memory| == blockNum + sqrtM && ShelterHoldsPending() && pending.Some?
      requires Agrees(positionMap, server.mainMemory + server.dummy, memory)
      requires counter < sqrtM && nextDummy <= counter + 1
      requires |permBuf| == |memory| && InRange(permBuf, |memory|)
      modifies this`positionMap, this`nextDummy, this`counter, this`memory, this`pending, server
      ensures Valid() && status == OK
      ensures server.log == old(server.log)
        + if old(counter) + 1 == sqrtM
          then [SendPermutation(SwapAll(Identity(blockNum + sqrtM), permBuf, blockNum + sqrtM))] else []
      ensures nextDummy == if old(counter) + 1 == sqrtM then 0 else old(nextDummy)
      ensures old(counter) + 1 == sqrtM ==>
        Remapped(old(positionMap), SwapAll(Identity(blockNum + sqrtM), permBuf, blockNum + sqrtM), positionMap)
      ensures old(counter) + 1 < sqrtM ==> positionMap == old(positionMap)
      ensures var p := old(pending.value);
        Machine() == if old(counter) + 1 == sqrtM
          then SqrtModel.Machine(old(memory)[p.address := p.block], None, 0, sqrtM)
                     else SqrtModel.Machine(old(memory), old(pending), old(counter) + 1, sqrtM)
    {
      counter := counter + 1;
      if counter == sqrtM {
        counter := 0;
        nextDummy := 0;
        var perm := RandomPerm(permBuf);
        DoPermute(perm);
        UpdatedIsRemapped(old(positionMap), perm, positionMap, old(server.mainMemory + server.dummy), old(memory));
      }
      return OK;
    }

    /** Write the block into the shelter under the given tag. */
    method WriteBlock(address: nat, data: Block)
      requires Sized() && AllFree(server.shelter) && address in positionMap
      modifies this`pending, server`log, server`shelter
      ensures server.log == old(server.log) + [SendBlock(positionMap[address])]
      ensures Sized() && pending == Some(SqrtModel.Pending(address, data)) && ShelterHoldsPending()
    {
      assert server.shelter[0] == FREE;
      server.WriteSqrtMemory(positionMap[address], Full(data));
      pending := Some(SqrtModel.Pending(address, data));
    }

    /** Steps 1 and 2: scan the shelter; on a hit read the next dummy, otherwise read main memory. */
    method FetchBlock(address: nat, junk: Cell) returns (block: Block)
      requires Valid() && address in positionMap
      modifies this`nextDummy, this`pending, server`log, server`shelter
      ensures server.log == old(server.log) + ShelterScan(sqrtM)
        + [SecondRead(SqrtModel.Hit(old(Machine()), address), positionMap[address], old(nextDummy))]
      ensures block == SqrtModel.Fetched(old(Machine()), address)
      ensures Sized() && AllFree(server.shelter) && pending == None
      ensures nextDummy == old(nextDummy) + if SqrtModel.Hit(old(Machine()), address) then 1 else 0
    {
      var status;
      status, block := ReadShelter(Block(address, Normal, junk));
      if status == OK {
        var answer, ignored := server.ReadSqrtMemory(DUMMY, nextDummy);
        nextDummy := nextDummy + 1;
      } else {
        var answer, content := server.ReadSqrtMemory(MAIN_MEMORY, positionMap[address]);
        assert content.Full?;  // main memory never holds an empty word, so the not-found return is never taken
        block := content.block;
      }
      pending := None;
    }

    /** One access is one step of the pending-block machine. */
    method InternalAccess(op: Operation, address: nat, data: Block, permBuf: seq<nat>)
      returns (status: StatusCode, out: Block)
      requires isInitialized ==> Valid() && !op.OpInvalid?
      requires |permBuf| == blockNum + sqrtM && InRange(permBuf, blockNum + sqrtM)
      modifies this`positionMap, this`nextDummy, this`counter, this`memory, this`pending,
        if server == null then {} else {server}
      ensures !isInitialized ==> status == InvalidOperation && out == data && Machine() == old(Machine())
      ensures server != null && (!isInitialized || address !in old(positionMap)) ==> server.log == old(server.log)
      ensures isInitialized && address in old(positionMap) ==>
        var scan := ShelterScan(sqrtM)
          + [SecondRead(SqrtModel.Hit(old(Machine()), address), old(positionMap)[address], old(nextDummy))];
        var perm := SwapAll(Identity(blockNum + sqrtM), permBuf, blockNum + sqrtM);
        server.log == old(server.log) + scan
          + if status == OK then Afterwards(old(positionMap)[address], old(counter) + 1 == sqrtM, perm) else []
      ensures isInitialized ==> Valid()
      ensures isInitialized ==>
        var r := SqrtModel.Step(old(Machine()), op, address, data);
        && Machine() == r.machine && status == r.status && out == r.data
      ensures isInitialized && address in old(positionMap) ==>
        var perm := SwapAll(Identity(blockNum + sqrtM), permBuf, blockNum + sqrtM);
        if status == OK && old(counter) + 1 == sqrtM
        then nextDummy == 0 && Remapped(old(positionMap), perm, positionMap)
        else && positionMap == old(positionMap)
             && nextDummy == old(nextDummy) + if SqrtModel.Hit(old(Machine()), address) then 1 else 0
    {
      hide InRange, IsPerm, Merged, TagsBelow, SwapAll, Identity, ShelterScan, Agrees, IsUpdated, Afterwards, Remapped;
      hide AllFree;
      ghost var perm := SwapAll(Identity(blockNum + sqrtM), permBuf, blockNum + sqrtM);
      if !isInitialized {
        return InvalidOperation, data;
      }
      MappedExactly(positionMap, server.mainMemory + server.dummy, memory);
      if address !in positionMap {
        return InvalidArgument, data;
      }
      var block := FetchBlock(address, data.cell);
      if block.kind == Normal && block.id != address {
        return UnknownError, data;
      }
      out := if op.OpRead? then block else data;
      ghost var asked, full := server.log, counter + 1 == sqrtM;
      WriteBlock(address, out);
      ThenAfterwards(asked, positionMap[address], full, perm);
      status := PermuteOnFull(permBuf);
    }
  }
}
