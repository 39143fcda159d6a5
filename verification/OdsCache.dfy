/** The least-recently-used node cache (core/ods_cache.cc). */
module OdsCache {
  import opened OdsObjects
  import opened OramDefs

  ghost predicate NoDup(s: seq<nat>) {
    forall i, j :: 0 <= i < j < |s| ==> s[i] != s[j]
  }

  /** `find_if`: first index of id, or the length. */
  function IndexOf(s: seq<nat>, id: nat): (i: nat)
    ensures i <= |s|
    ensures i < |s| ==> s[i] == id
    ensures i == |s| <==> id !in s
  {
    if s == [] || s[0] == id then 0 else 1 + IndexOf(s[1..], id)
  }

  /** The sequence with the first occurrence of id erased. */
  function Erased(s: seq<nat>, id: nat): (r: seq<nat>)
    ensures |r| == if id in s then |s| - 1 else |s|
  {
    if s == [] then [] else if s[0] == id then s[1..] else [s[0]] + Erased(s[1..], id)
  }

  function Take(s: seq<nat>, n: nat): seq<nat> {
    if |s| <= n then s else s[..n]
  }

  lemma {:induction false} ErasedByIndex(s: seq<nat>, id: nat)
    requires id in s
    ensures Erased(s, id) == s[..IndexOf(s, id)] + s[IndexOf(s, id) + 1..]
  {
    if s[0] != id {
      ErasedByIndex(s[1..], id);
    }
  }

  lemma NoDupCons(x: nat, s: seq<nat>)
    requires NoDup(s) && x !in s
    ensures NoDup([x] + s)
  {
  }

  lemma {:induction false} ErasedMembers(s: seq<nat>, id: nat)
    requires NoDup(s)
    ensures NoDup(Erased(s, id))
    ensures forall x :: x in Erased(s, id) <==> x in s && x != id
  {
    if s != [] {
      ErasedMembers(s[1..], id);
      assert forall x :: x in s <==> x == s[0] || x in s[1..];
      if s[0] != id {
        NoDupCons(s[0], Erased(s[1..], id));
      }
    }
  }

  lemma {:induction false} NoDupCount(s: seq<nat>, keys: set<nat>)
    requires NoDup(s) && forall x :: x in s <==> x in keys
    ensures |keys| == |s|
  {
    if s == [] {
      assert keys == {};
    } else {
      assert s[0] in keys;
      forall x
        ensures x in s[1..] <==> x in keys - {s[0]}
      {
        assert s == [s[0]] + s[1..];
      }
      NoDupCount(s[1..], keys - {s[0]});
    }
  }

  // ----- the recency order ------------------------------------------------------------------------

  /** Order after a hit on id. */
  function Touched(order: seq<nat>, id: nat): (r: seq<nat>)
    ensures r != [] && r[0] == id
  {
    [id] + Erased(order, id)
  }

  /** Order after a put of id: it comes first, and at most one id falls off the end. */
  function PutOrder(order: seq<nat>, id: nat, max: nat): seq<nat> {
    var r := Touched(order, id);
    if |r| > max then r[..|r| - 1] else r
  }

  /** The id at the far end after touching. */
  function LastTouched(order: seq<nat>, id: nat): nat {
    var r := Touched(order, id);
    r[|r| - 1]
  }

  lemma TouchedMembers(order: seq<nat>, id: nat)
    requires NoDup(order)
    ensures NoDup(Touched(order, id))
    ensures forall x :: x in Touched(order, id) <==> x == id || x in order
  {
    hide NoDup;
    ErasedMembers(order, id);
    NoDupCons(id, Erased(order, id));
  }

  lemma DropLast(s: seq<nat>)
    requires NoDup(s) && s != []
    ensures NoDup(s[..|s| - 1])
    ensures forall x :: x in s[..|s| - 1] <==> x in s && x != s[|s| - 1]
  {
    assert s == s[..|s| - 1] + [s[|s| - 1]];
  }

  /** The order and the item map list the same ids. */
  ghost predicate Matching(order: seq<nat>, items: map<nat, TreeNode>) {
    NoDup(order) && forall id :: id in order <==> id in items
  }

  /** A hit reorders the list and no more. */
  lemma TouchKeepsMatching(order: seq<nat>, items: map<nat, TreeNode>, id: nat)
    requires Matching(order, items) && id in items
    ensures Matching(Touched(order, id), items) && |Touched(order, id)| == |order|
    ensures IndexOf(order, id) < |order| && order[IndexOf(order, id)] == id
  {
    ErasedByIndex(order, id);
    TouchedMembers(order, id);
  }

  lemma MatchingCount(order: seq<nat>, items: map<nat, TreeNode>)
    requires Matching(order, items)
    ensures |items| == |order|
  {
    NoDupCount(order, items.Keys);
  }

  /** A put on values: the touched order matches the updated map, also after the last id is dropped from both. */
  lemma PutMatching(order: seq<nat>, items: map<nat, TreeNode>, id: nat, item: TreeNode)
    requires Matching(order, items)
    ensures var order', items' := Touched(order, id), items[id := item];
      && Matching(order', items') && |items'| == |order'|
      && |order'| == (if id in items then |items| else |items| + 1)
      && (id in order <==> id in items)
      && Matching(order'[..|order'| - 1], items' - {LastTouched(order, id)})
  {
    MatchingCount(order, items);
    TouchedMembers(order, id);
    MatchingCount(Touched(order, id), items[id := item]);
    DropLast(Touched(order, id));
  }

  lemma EraseEither(order: seq<nat>, id: nat)
    ensures id in order ==> order[..IndexOf(order, id)] + order[IndexOf(order, id) + 1..] == Erased(order, id)
    ensures id !in order ==> order == Erased(order, id)
  {
    if id in order { ErasedByIndex(order, id); } else { NothingToErase(order, id); }
  }

  class OdsCache {
    const maxSize: nat
    var cacheItems: map<nat, TreeNode>
    var lruTable: seq<nat>

    /** The recency list has no duplicates and holds exactly the keys of the item map. */
    ghost predicate Valid()
      reads this
    {
      Matching(lruTable, cacheItems) && |lruTable| <= maxSize
    }

    constructor (maxSize: nat)
      ensures this.maxSize == maxSize && Valid() && lruTable == [] && cacheItems == map[]
    {
      this.maxSize := maxSize;
      lruTable, cacheItems := [], map[];
    }

    method Clear()
      modifies this
      ensures Valid() && lruTable == [] && cacheItems == map[]
    {
      lruTable := [];
      cacheItems := map[];
    }

    predicate IsEmpty()
      reads this
    {
      cacheItems == map[]
    }

    lemma EmptyBoth()
      requires Valid()
      ensures cacheItems == map[] <==> lruTable == []
    {
      MatchingCount(lruTable, cacheItems);
    }

    /** Look an id up; a hit moves it to the front. */
    method Get(id: nat) returns (node: Option<TreeNode>)
      requires Valid()
      modifies this`lruTable
      ensures Valid()
      ensures node == if id in cacheItems then Some(cacheItems[id]) else None
      ensures lruTable == if id in cacheItems then Touched(old(lruTable), id) else old(lruTable)
    {
      hide NoDup, Erased, Matching, IndexOf;
      if id !in cacheItems {
        return None;
      }
      TouchKeepsMatching(lruTable, cacheItems, id);
      EraseEither(lruTable, id);
      var it := IndexOf(lruTable, id);
      var itemId := lruTable[it];
      lruTable := lruTable[..it] + lruTable[it + 1..];
      lruTable := [itemId] + lruTable;
      return Some(cacheItems[id]);
    }

    /** Store a node at the front; the last id falls off if the cache would overflow. */
    method Put(id: nat, item: TreeNode) returns (evicted: Option<TreeNode>)
      requires Valid()
      modifies this
      ensures Valid()
      ensures lruTable == PutOrder(old(lruTable), id, maxSize)
      ensures id in old(cacheItems) || |old(cacheItems)| < maxSize ==>
        evicted == None && cacheItems == old(cacheItems)[id := item] && lruTable == Touched(old(lruTable), id)
      ensures !(id in old(cacheItems) || |old(cacheItems)| < maxSize) ==>
        var full, back := old(cacheItems)[id := item], LastTouched(old(lruTable), id);
        back in full && evicted == Some(full[back]) && cacheItems == full - {back}
    {
      hide NoDup, Erased, Matching, IndexOf;
      PutMatching(lruTable, cacheItems, id, item);
      EraseEither(lruTable, id);
      var it := IndexOf(lruTable, id);
      if id in cacheItems && it < |lruTable| {
        cacheItems := cacheItems - {id};
        lruTable := lruTable[..it] + lruTable[it + 1..];
      }
      lruTable := [id] + lruTable;
      cacheItems := cacheItems[id := item];
      assert lruTable == Touched(old(lruTable), id) && cacheItems == old(cacheItems)[id := item];
      evicted := None;
      if |cacheItems| > maxSize {
        var back := lruTable[|lruTable| - 1];
        lruTable := lruTable[..|lruTable| - 1];
        evicted := Some(cacheItems[back]);
        cacheItems := cacheItems - {back};
      }
    }

    /** Drop the most recent entry. */
    method Pop()
      requires Valid() && lruTable != []
      modifies this
      ensures Valid() && lruTable == old(lruTable)[1..] && cacheItems == old(cacheItems) - {old(lruTable)[0]}
    {
      var front := lruTable[0];
      assert lruTable == [front] + lruTable[1..];
      lruTable := lruTable[1..];
      cacheItems := cacheItems - {front};
    }

    /** The most recent entry. */
    method Front() returns (node: TreeNode)
      requires Valid() && lruTable != []
      ensures lruTable[0] in cacheItems && node == cacheItems[lruTable[0]]
    {
      assert lruTable[0] in lruTable;
      return cacheItems[lruTable[0]];
    }
  }

  lemma {:induction false} NothingToErase(s: seq<nat>, id: nat)
    requires id !in s
    ensures Erased(s, id) == s
  {
    if s != [] {
      NothingToErase(s[1..], id);
    }
  }

  // ----- recency over whole histories -------------------------------------------------------------

  datatype CacheOp = PutOp(id: nat) | GetOp(id: nat)

  function OrderStep(order: seq<nat>, op: CacheOp, max: nat): seq<nat> {
    match op
    case PutOp(id) => PutOrder(order, id, max)
    case GetOp(id) => if id in order then Touched(order, id) else order
  }

  /** The recency list after a sequence of operations on an empty cache. */
  function OrderAfter(ops: seq<CacheOp>, max: nat): seq<nat> {
    if ops == [] then [] else OrderStep(OrderAfter(ops[..|ops| - 1], max), ops[|ops| - 1], max)
  }

  /** The ids put or hit so far, most recent first. */
  function History(ops: seq<CacheOp>, max: nat): seq<nat> {
    if ops == [] then [] else
    var front, last := ops[..|ops| - 1], ops[|ops| - 1];
    if last.PutOp? || last.id in OrderAfter(front, max) then [last.id] + History(front, max) else History(front, max)
  }

  /** First occurrences only, skipping ids already seen. */
  function FirstOccurrences(s: seq<nat>, seen: set<nat>): seq<nat> {
    if s == [] then []
    else if s[0] in seen then FirstOccurrences(s[1..], seen)
    else [s[0]] + FirstOccurrences(s[1..], seen + {s[0]})
  }

  lemma {:induction false} DistinctMembers(s: seq<nat>, seen: set<nat>)
    ensures NoDup(FirstOccurrences(s, seen))
    ensures forall x :: x in FirstOccurrences(s, seen) <==> x in s && x !in seen
  {
    if s != [] {
      DistinctMembers(s[1..], if s[0] in seen then seen else seen + {s[0]});
      assert forall x :: x in s <==> x == s[0] || x in s[1..];
    }
  }

  /** Having seen one more id is erasing it. */
  lemma {:induction false} DistinctErases(s: seq<nat>, seen: set<nat>, id: nat)
    requires id !in seen
    ensures FirstOccurrences(s, seen + {id}) == Erased(FirstOccurrences(s, seen), id)
  {
    if s != [] {
      if s[0] in seen {
        DistinctErases(s[1..], seen, id);
      } else if s[0] == id {
      } else {
        DistinctErases(s[1..], seen + {s[0]}, id);
        assert seen + {id} + {s[0]} == seen + {s[0]} + {id};
      }
    }
  }

  /** Touching a truncated list is truncating the touched list. */
  lemma {:induction false} TouchTruncated(s: seq<nat>, id: nat, max: nat)
    requires NoDup(s)
    ensures PutOrder(Take(s, max), id, max) == Take(Touched(s, id), max)
    ensures id in Take(s, max) ==> Touched(Take(s, max), id) == Take(Touched(s, id), max)
  {
    EraseTruncated(s, id, max);
    var t := Take(s, max);
    assert Touched(s, id)[1..] == Erased(s, id);
    if max > 0 {
      assert Take(Touched(s, id), max) == [id] + Take(Erased(s, id), max - 1);
      if id !in t {
        assert PutOrder(t, id, max) == [id] + Take(t, max - 1);
        assert Take(t, max - 1) == Take(s, max - 1);
      }
    }
  }

  lemma {:induction false} EraseTruncated(s: seq<nat>, id: nat, max: nat)
    requires NoDup(s)
    ensures id in Take(s, max) ==> Erased(Take(s, max), id) == Take(Erased(s, id), max - 1)
    ensures id !in Take(s, max)
      ==> Erased(Take(s, max), id) == Take(s, max) && (max > 0 ==> Take(Erased(s, id), max - 1) == Take(s, max - 1))
  {
    if s != [] && max > 0 {
      TakeCons(s[0], s[1..], max);
      assert s == [s[0]] + s[1..];
      if s[0] == id {
        assert Take(s, max)[0] == id;
      } else {
        EraseTruncated(s[1..], id, max - 1);
        TakeCons(s[0], Erased(s[1..], id), max - 1);
        TakeCons(s[0], s[1..], max - 1);
      }
    }
  }

  lemma TakeCons(x: nat, s: seq<nat>, n: nat)
    ensures Take([x] + s, n) == if n == 0 then [] else [x] + Take(s, n - 1)
  {
  }

  /** The recency list is the first `max` distinct ids of the history, most recent first. */
  lemma {:induction false} OrderIsRecentHistory(ops: seq<CacheOp>, max: nat)
    ensures OrderAfter(ops, max) == Take(FirstOccurrences(History(ops, max), {}), max)
  {
    if ops != [] {
      var front, last := ops[..|ops| - 1], ops[|ops| - 1];
      OrderIsRecentHistory(front, max);
      var h := History(front, max);
      DistinctMembers(h, {});
      DistinctErases(h, {}, last.id);
      assert {} + {last.id} == {last.id};
      TouchTruncated(FirstOccurrences(h, {}), last.id, max);
      assert FirstOccurrences([last.id] + h, {}) == Touched(FirstOccurrences(h, {}), last.id) by {
        assert ([last.id] + h)[1..] == h;
      }
    }
  }
}
