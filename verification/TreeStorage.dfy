/** The server side of Path ORAM (server/tree_oram_storage.cc): a complete binary tree of buckets. */
module TreeStorage {
  import opened OramDefs
  import opened Geometry

  /** (level, offset within the level). */
  type Tag = (nat, nat)

  /** What the server sees of one request: the level, the path, and how many blocks travel. */
  datatype Event = ReadEvent(level: nat, path: nat, count: nat) | WriteEvent(level: nat, path: nat, count: nat)

  /** The value of the server's state. */
  datatype Server = Server(level: nat, buckets: map<Tag, seq<Slot>>, log: seq<Event>)

  predicate IsTag(level: nat, t: Tag) {
    t.0 <= level && t.1 < Pow2(t.0)
  }

  ghost predicate WellShaped(sv: Server) {
    forall t :: t in sv.buckets <==> IsTag(sv.level, t)
  }

  function TagOn(level: nat, l: nat, path: nat): Tag
    requires l <= level
  {
    (l, Offset(level, l, path))
  }

  /** The non-empty entries of a bucket, in order. */
  function Contents(bucket: seq<Slot>): (r: seq<Block>)
    ensures |r| <= |bucket|
  {
    if bucket == [] then [] else
    var last := bucket[|bucket| - 1];
    Contents(bucket[..|bucket| - 1]) + if last.Full? then [last.block] else []
  }

  function Cleared(bucket: seq<Slot>): (r: seq<Slot>)
    ensures |r| == |bucket| && forall k :: 0 <= k < |r| ==> r[k] == Empty
  {
    seq(|bucket|, _ => Empty)
  }

  function Sealed(blocks: seq<Block>): (r: seq<Slot>)
    ensures |r| == |blocks| && forall k :: 0 <= k < |r| ==> r[k] == Full(blocks[k])
  {
    seq(|blocks|, k requires 0 <= k < |blocks| => Full(blocks[k]))
  }

  function BucketOn(sv: Server, l: nat, path: nat): seq<Slot>
    requires l <= sv.level
  {
    var t := TagOn(sv.level, l, path);
    if t in sv.buckets then sv.buckets[t] else []
  }

  /** A read hands out the bucket's blocks and empties every entry it read. */
  function AfterRead(sv: Server, l: nat, path: nat): Server
    requires l <= sv.level
  {
    var t := TagOn(sv.level, l, path);
    if t in sv.buckets then
      sv.(buckets := sv.buckets[t := Cleared(sv.buckets[t])],
          log := sv.log + [ReadEvent(l, path, |Contents(sv.buckets[t])|)])
    else sv
  }

  /** A write replaces the whole bucket. */
  function AfterWrite(sv: Server, l: nat, path: nat, blocks: seq<Block>): Server
    requires l <= sv.level
  {
    var t := TagOn(sv.level, l, path);
    if t in sv.buckets then
      sv.(buckets := sv.buckets[t := Sealed(blocks)], log := sv.log + [WriteEvent(l, path, |blocks|)])
    else sv
  }

  lemma {:induction false} ContentsMembers(bucket: seq<Slot>)
    ensures forall b :: b in Contents(bucket) <==> Full(b) in bucket
  {
    if bucket != [] {
      var front, last := bucket[..|bucket| - 1], bucket[|bucket| - 1];
      ContentsMembers(front);
      assert bucket == front + [last];
    }
  }

  lemma {:induction false} ContentsOfSealed(blocks: seq<Block>)
    ensures Contents(Sealed(blocks)) == blocks
  {
    if blocks != [] {
      var front := blocks[..|blocks| - 1];
      ContentsOfSealed(front);
      assert Sealed(blocks)[..|blocks| - 1] == Sealed(front);
    }
  }

  lemma {:induction false} ContentsOfCleared(bucket: seq<Slot>)
    ensures Contents(Cleared(bucket)) == []
  {
    if bucket != [] {
      ContentsOfCleared(bucket[..|bucket| - 1]);
      assert Cleared(bucket)[..|bucket| - 1] == Cleared(bucket[..|bucket| - 1]);
    }
  }

  datatype WriteType = TypeNormal | TypeInit

  class TreeOramServerStorage {
    const level: nat
    const bucketSize: nat
    var storage: map<Tag, seq<Slot>>
    ghost var log: seq<Event>

    ghost function View(): Server
      reads this
    {
      Server(level, storage, log)
    }

    constructor (capacity: nat, bucketSize: nat)
      requires capacity >= 1
      ensures level == LevelOf(capacity) && this.bucketSize == bucketSize
      ensures WellShaped(View()) && log == []
      ensures forall t :: t in storage ==> storage[t] == []
    {
      level := LevelOf(capacity);
      this.bucketSize := bucketSize;
      storage := map[];
      log := [];
      new;
      for i := 0 to level + 1
        invariant log == []
        invariant forall t :: t in storage <==> t.0 < i && t.1 < Pow2(t.0)
        invariant forall t :: t in storage ==> storage[t] == []
      {
        for j := 0 to Pow2(i)
          invariant log == []
          invariant forall t :: t in storage <==> (t.0 < i && t.1 < Pow2(t.0)) || (t.0 == i && t.1 < j)
          invariant forall t :: t in storage ==> storage[t] == []
        {
          storage := storage[(i, j) := []];
        }
      }
    }

    method ReadPath(l: nat, path: nat) returns (status: StatusCode, outBucket: seq<Block>)
      requires l <= level
      modifies this
      ensures View() == AfterRead(old(View()), l, path)
      ensures status == if TagOn(level, l, path) in old(storage) then OK else ObjectNotFound
      ensures outBucket == Contents(BucketOn(old(View()), l, path))
    {
      outBucket := [];
      var tag := TagOn(level, l, path);
      if tag !in storage {
        return ObjectNotFound, outBucket;
      }
      ghost var was := storage;
      var n := |storage[tag]|;
      for k := 0 to n
        invariant log == old(log) && tag in storage && storage == was[tag := storage[tag]]
        invariant |storage[tag]| == n
        invariant storage[tag][..k] == Cleared(was[tag][..k]) && storage[tag][k..] == was[tag][k..]
        invariant outBucket == Contents(was[tag][..k])
      {
        assert was[tag][..k + 1][..k] == was[tag][..k];
        assert storage[tag][k] == was[tag][k];
        if storage[tag][k].Full? {
          outBucket := outBucket + [storage[tag][k].block];
          storage := storage[tag := storage[tag][k := Empty]];
        }
      }
      assert was[tag][..n] == was[tag] && storage[tag][..n] == storage[tag];
      log := log + [ReadEvent(l, path, |outBucket|)];
      return OK, outBucket;
    }

    method WritePath(l: nat, path: nat, inBucket: seq<Block>) returns (status: StatusCode)
      requires l <= level
      modifies this
      ensures View() == AfterWrite(old(View()), l, path, inBucket)
      ensures status == if TagOn(level, l, path) in old(storage) then OK else ObjectNotFound
    {
      var offset := Offset(level, l, path);
      status := AccurateWritePath(l, offset, inBucket, TypeNormal);
      if status == OK {
        log := log + [WriteEvent(l, path, |inBucket|)];
      }
    }

    /** Initial writes append to a bucket that must exist; ordinary writes replace it. */
    method AccurateWritePath(l: nat, offset: nat, inBucket: seq<Block>, kind: WriteType) returns (status: StatusCode)
      requires kind.TypeInit? ==> (l, offset) in storage
      modifies this
      ensures log == old(log)
      ensures status == if (l, offset) in old(storage) then OK else ObjectNotFound
      ensures storage ==
        if (l, offset) !in old(storage) then old(storage)
        else if kind.TypeInit? then old(storage)[(l, offset) := old(storage)[(l, offset)] + Sealed(inBucket)]
        else old(storage)[(l, offset) := Sealed(inBucket)]
    {
      var tag := (l, offset);
      if kind.TypeNormal? && tag !in storage {
        return ObjectNotFound;
      }
      ghost var was := storage;
      ghost var base: seq<Slot> := if kind.TypeInit? then was[tag] else [];
      if kind.TypeNormal? {
        storage := storage[tag := []];
      }
      for k := 0 to |inBucket|
        invariant log == old(log) && tag in storage
        invariant storage == was[tag := storage[tag]]
        invariant storage[tag] == base + Sealed(inBucket[..k])
      {
        storage := storage[tag := storage[tag] + [Full(inBucket[k])]];
        assert Sealed(inBucket[..k + 1]) == Sealed(inBucket[..k]) + [Full(inBucket[k])];
      }
      assert inBucket[..|inBucket|] == inBucket;
      assert kind.TypeNormal? ==> base + Sealed(inBucket) == Sealed(inBucket);
      return OK;
    }
  }
}
