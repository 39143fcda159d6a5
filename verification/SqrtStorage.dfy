/** The server side of the square-root ORAM (server/sqrt_oram_storage.cc): main memory, dummies and the shelter. */
module SqrtStorage {
  import opened OramDefs
  import opened Permutations

  /** `kInvalidMask`: the tag of a free shelter entry. */
  const INVALID_TAG: nat := 0xFFFF_FFFF

  datatype Shelved = Shelved(tag: nat, content: Slot)

  const FREE: Shelved := Shelved(INVALID_TAG, Empty)

  /** Tags of occupied entries point into a memory of n words. */
  predicate TagsBelow(shelter: seq<Shelved>, n: nat) {
    forall i :: 0 <= i < |shelter| && shelter[i].tag != INVALID_TAG ==> shelter[i].tag < n
  }

  predicate AllFree(shelter: seq<Shelved>) {
    forall i :: 0 <= i < |shelter| ==> shelter[i] == FREE
  }

  /** The memory after the shelter entries are written back by tag, first entry first. */
  function Merged(mem: seq<Slot>, shelter: seq<Shelved>): (r: seq<Slot>)
    requires TagsBelow(shelter, |mem|)
    ensures |r| == |mem|
  {
    if shelter == [] then mem else
    var r := Merged(mem, shelter[..|shelter| - 1]);
    var last := shelter[|shelter| - 1];
    if last.tag != INVALID_TAG && last.content != Empty then r[last.tag := last.content] else r
  }

  lemma {:induction false} MergeNothing(mem: seq<Slot>, shelter: seq<Shelved>)
    requires AllFree(shelter)
    ensures TagsBelow(shelter, |mem|) && Merged(mem, shelter) == mem
  {
    if shelter != [] {
      MergeNothing(mem, shelter[..|shelter| - 1]);
    }
  }

  /** One occupied entry: exactly that word changes. */
  lemma {:induction false} MergeOne(mem: seq<Slot>, shelter: seq<Shelved>, k: nat)
    requires k < |shelter| && shelter[k].tag < |mem| && shelter[k].tag != INVALID_TAG && shelter[k].content != Empty
    requires forall i :: 0 <= i < |shelter| && i != k ==> shelter[i] == FREE
    ensures TagsBelow(shelter, |mem|) && Merged(mem, shelter) == mem[shelter[k].tag := shelter[k].content]
  {
    var front := shelter[..|shelter| - 1];
    if k == |shelter| - 1 {
      MergeNothing(mem, front);
    } else {
      MergeOne(mem, front, k);
    }
  }

  /** The content written last among the first n shelter entries that carry the tag. */
  function LastShelved(shelter: seq<Shelved>, tag: nat): Option<Slot> {
    if shelter == [] then None else
    var last := shelter[|shelter| - 1];
    if last.tag == tag && tag != INVALID_TAG && last.content != Empty then Some(last.content)
    else LastShelved(shelter[..|shelter| - 1], tag)
  }

  /** Any shelter at all: each word takes the last content shelved under its tag, and keeps its own if there is none. */
  lemma {:induction false} MergeLast(mem: seq<Slot>, shelter: seq<Shelved>)
    requires TagsBelow(shelter, |mem|)
    ensures forall k :: 0 <= k < |mem| ==>
      Merged(mem, shelter)[k] == match LastShelved(shelter, k) case None => mem[k] case Some(c) => c
  {
    if shelter != [] {
      MergeLast(mem, shelter[..|shelter| - 1]);
    }
  }

  /** Overwriting a word of main memory followed by the dummies. */
  lemma SetWord(main: seq<Slot>, dummy: seq<Slot>, i: nat, word: Slot)
    requires i < |main| + |dummy|
    ensures i < |main| ==> main[i := word] + dummy == (main + dummy)[i := word]
    ensures i >= |main| ==> main + dummy[i - |main| := word] == (main + dummy)[i := word]
  {
  }

  /** What to read from, as the client asks for it. */
  const SHELTER: nat := 0
  const MAIN_MEMORY: nat := 1
  const DUMMY: nat := 2

  /** What the server is asked. */
  datatype Request = AskRead(from: nat, tag: nat) | SendBlock(tag: nat) | SendPermutation(perm: seq<nat>)

  class SqrtOramServerStorage {
    const capacity: nat
    var mainMemory: seq<Slot>
    var dummy: seq<Slot>
    var shelter: seq<Shelved>
    /** The requests received so far. */
    ghost var log: seq<Request>

    /** Whether the service lets a read through: 0 asks for the shelter, 1 for main memory, 2 for a dummy. */
    predicate Check(pos: nat, from: nat)
      reads this
    {
      from == 0 || (from == 1 && pos <= |mainMemory| + |dummy|) || from == 2
    }

    /** Whether the read that follows stays within the memory it asks for. */
    predicate Readable(pos: nat, from: nat)
      reads this
    {
      match from
      case 0 => pos < |shelter|
      case 1 => pos < |mainMemory| + |dummy|
      case 2 => pos < |dummy|
      case _ => false
    }

    /** The check never turns a possible read away, and lets exactly these impossible ones through. */
    lemma CheckIsTooWide(pos: nat, from: nat)
      ensures Readable(pos, from) ==> Check(pos, from)
      ensures Check(pos, from) && !Readable(pos, from) <==>
        || (from == 0 && pos >= |shelter|)
        || (from == 1 && pos == |mainMemory| + |dummy|)
        || (from == 2 && pos >= |dummy|)
    {
    }

    constructor (capacity: nat)
      ensures this.capacity == capacity && mainMemory == [] && dummy == [] && shelter == [] && log == []
    {
      this.capacity := capacity;
      mainMemory, dummy, shelter, log := [], [], [], [];
    }

    /** Load: the first `capacity` words are main memory, each further one is a dummy and opens a shelter entry. */
    method Fill(data: seq<Slot>)
      requires mainMemory == [] && dummy == [] && shelter == [] && |data| >= capacity
      modifies this`mainMemory, this`dummy, this`shelter
      ensures mainMemory == data[..capacity] && dummy == data[capacity..]
      ensures |shelter| == |dummy| && AllFree(shelter)
    {
      for i := 0 to |data|
        invariant mainMemory == data[..if i < capacity then i else capacity]
        invariant dummy == if i < capacity then [] else data[capacity..i]
        invariant |shelter| == |dummy| && AllFree(shelter)
      {
        if i < capacity {
          mainMemory := mainMemory + [data[i]];
        } else {
          dummy := dummy + [data[i]];
          shelter := shelter + [FREE];
        }
      }
    }

    /** Claim the first free entry. Running out of entries would be the source's panic. */
    method WriteBlockToShelter(tag: nat, data: Slot)
      requires FREE in shelter
      modifies this`shelter
      ensures |shelter| == |old(shelter)|
      ensures exists k ::
        && 0 <= k < |shelter| && old(shelter)[k] == FREE
        && shelter == old(shelter)[k := Shelved(tag, data)]
        && forall i :: 0 <= i < k ==> old(shelter)[i] != FREE
    {
      var i := 0;
      while shelter[i] != FREE
        invariant i < |shelter| && shelter == old(shelter)
        invariant forall k :: 0 <= k < i ==> shelter[k] != FREE
        decreases |shelter| - i
      {
        i := i + 1;
      }
      shelter := shelter[i := Shelved(tag, data)];
    }

    /** Reading an entry frees it. */
    method ReadBlockFromShelter(pos: nat) returns (ans: Slot)
      requires pos < |shelter|
      modifies this`shelter
      ensures ans == old(shelter)[pos].content && shelter == old(shelter)[pos := FREE]
    {
      ans := shelter[pos].content;
      shelter := shelter[pos := FREE];
    }

    method ReadBlockFromMain(pos: nat) returns (ans: Slot)
      requires pos < |mainMemory| + |dummy|
      ensures ans == (mainMemory + dummy)[pos]
    {
      if pos < |mainMemory| {
        ans := mainMemory[pos];
      } else {
        ans := ReadBlockFromDummy(pos - |mainMemory|);
      }
    }

    method ReadBlockFromDummy(pos: nat) returns (ans: Slot)
      requires pos < |dummy|
      ensures ans == dummy[pos]
    {
      return dummy[pos];
    }

    /** Write the shelter back by tag, in the old layout, then move every word to its new place. */
    method DoPermute(perm: seq<nat>)
      requires |perm| == |mainMemory| + |dummy| && IsPerm(perm)
      requires TagsBelow(shelter, |perm|)
      modifies this`mainMemory, this`dummy, this`shelter
      ensures |mainMemory| == |old(mainMemory)| && |dummy| == |old(dummy)|
      ensures |shelter| == |old(shelter)| && AllFree(shelter)
      ensures IsPermuted(perm, Merged(old(mainMemory) + old(dummy), old(shelter)), mainMemory + dummy)
    {
      hide IsScattered;
      ghost var mem := mainMemory + dummy;
      for i := 0 to |shelter|
        invariant |mainMemory| == |old(mainMemory)| && |dummy| == |old(dummy)| && |shelter| == |old(shelter)|
        invariant shelter[i..] == old(shelter)[i..] && AllFree(shelter[..i])
        invariant TagsBelow(old(shelter)[..i], |mem|)
        invariant mainMemory + dummy == Merged(mem, old(shelter)[..i])
      {
        var entry := shelter[i];
        assert old(shelter)[..i + 1][..i] == old(shelter)[..i];
        assert entry == shelter[i..][0] == old(shelter)[i];
        if entry.tag != INVALID_TAG && entry.content != Empty {
          SetWord(mainMemory, dummy, entry.tag, entry.content);
          if entry.tag < |mainMemory| {
            mainMemory := mainMemory[entry.tag := entry.content];
          } else {
            dummy := dummy[entry.tag - |mainMemory| := entry.content];
          }
        }
        shelter := shelter[i := FREE];
      }
      assert old(shelter)[..|shelter|] == old(shelter) && shelter[..|shelter|] == shelter;
      var assembled := PermuteBy(perm, mainMemory + dummy);
      var m := |mainMemory|;
      for i := 0 to |assembled|
        invariant |mainMemory| == m && |dummy| == |old(dummy)|
        invariant AllFree(shelter) && |shelter| == |old(shelter)|
        invariant forall k :: 0 <= k < i ==> (mainMemory + dummy)[k] == assembled[k]
      {
        SetWord(mainMemory, dummy, i, assembled[i]);
        if i < m {
          mainMemory := mainMemory[i := assembled[i]];
        } else {
          dummy := dummy[i - m := assembled[i]];
        }
      }
      assert mainMemory + dummy == assembled;
    }

    // ----- requests (server/oram_server.cc) -----

    /** Dispatch a read request, unless the check turns it away. */
    method ReadSqrtMemory(from: nat, tag: nat) returns (status: StatusCode, content: Slot)
      requires Check(tag, from) ==> Readable(tag, from)
      modifies this`log, this`shelter
      ensures log == old(log) + [AskRead(from, tag)]
      ensures status == if old(Readable(tag, from)) then OK else InvalidArgument
      ensures shelter == if from == SHELTER && tag < |old(shelter)| then old(shelter)[tag := FREE] else old(shelter)
      ensures old(Readable(tag, from)) ==>
        content == if from == SHELTER then old(shelter)[tag].content
                   else if from == MAIN_MEMORY then (mainMemory + dummy)[tag]
                   else dummy[tag]
    {
      log := log + [AskRead(from, tag)];
      if !Check(tag, from) {
        return InvalidArgument, Empty;
      }
      if from == SHELTER {
        content := ReadBlockFromShelter(tag);
      } else if from == MAIN_MEMORY {
        content := ReadBlockFromMain(tag);
      } else {
        content := ReadBlockFromDummy(tag);
      }
      return OK, content;
    }

    /** A write always goes to the shelter. */
    method WriteSqrtMemory(tag: nat, data: Slot)
      requires FREE in shelter
      modifies this`log, this`shelter
      ensures log == old(log) + [SendBlock(tag)]
      ensures |shelter| == |old(shelter)|
      ensures exists k ::
        && 0 <= k < |shelter| && old(shelter)[k] == FREE
        && shelter == old(shelter)[k := Shelved(tag, data)]
        && forall i :: 0 <= i < k ==> old(shelter)[i] != FREE
    {
      log := log + [SendBlock(tag)];
      WriteBlockToShelter(tag, data);
    }

    method SqrtPermute(perm: seq<nat>)
      requires |perm| == |mainMemory| + |dummy| && IsPerm(perm)
      requires TagsBelow(shelter, |perm|)
      modifies this
      ensures log == old(log) + [SendPermutation(perm)]
      ensures |mainMemory| == |old(mainMemory)| && |dummy| == |old(dummy)|
      ensures |shelter| == |old(shelter)| && AllFree(shelter)
      ensures IsPermuted(perm, Merged(old(mainMemory) + old(dummy), old(shelter)), mainMemory + dummy)
    {
      log := log + [SendPermutation(perm)];
      DoPermute(perm);
    }
  }
}
