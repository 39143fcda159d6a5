/** How an id-linked store of nodes spells out a tree, and what one sees through a cache laid over a memory. */
module OdictStore {
  import opened OramDefs
  import opened OdsObjects
  import opened PathOramPlacement
  import Avl
  import OdsCache

  type Store = map<nat, TreeNode>

  /** The node as stored: children by id, with their real heights. */
  function ImageOf(t: Avl.Tree): (n: TreeNode)
    requires t.Node?
    ensures n.id == t.id && n.key == t.key && n.value == t.value
    ensures Height(n) == Avl.Height(t)
  {
    TreeNode(t.id, t.key, t.value, Avl.RootId(t.left), Avl.RootId(t.right), Avl.Height(t.left), Avl.Height(t.right))
  }

  /** Following ids from the root of t reads exactly t. */
  ghost predicate Spells(store: Store, t: Avl.Tree) {
    match t
    case Leaf => true
    case Node(id, _, _, l, r) => id in store && store[id] == ImageOf(t) && Spells(store, l) && Spells(store, r)
  }

  ghost predicate AgreeOn(a: Store, b: Store, ids: set<nat>) {
    forall id :: id in ids && id in a ==> id in b && b[id] == a[id]
  }

  lemma {:induction false} SpellsFrame(a: Store, b: Store, t: Avl.Tree)
    requires Spells(a, t) && AgreeOn(a, b, Avl.Ids(t))
    ensures Spells(b, t)
  {
    if t.Node? {
      SpellsFrame(a, b, t.left);
      SpellsFrame(a, b, t.right);
    }
  }

  /** A write outside the tree leaves it alone. */
  lemma SpellsElsewhere(store: Store, t: Avl.Tree, n: TreeNode)
    requires Spells(store, t) && n.id !in Avl.Ids(t)
    ensures Spells(store[n.id := n], t)
  {
    SpellsFrame(store, store[n.id := n], t);
  }

  lemma {:induction false} SpelledIds(store: Store, t: Avl.Tree)
    requires Spells(store, t)
    ensures forall id :: id in Avl.Ids(t) ==> id in store && store[id].id == id
  {
    if t.Node? {
      SpelledIds(store, t.left);
      SpelledIds(store, t.right);
    }
  }

  /** b arises from a by writing only the given ids. */
  ghost predicate ChangedOnly(a: Store, b: Store, ids: set<nat>) {
    && (forall id :: id in a && id !in ids ==> id in b && b[id] == a[id])
    && (forall id :: id in b ==> id in a || id in ids)
  }

  /** A change, a write and another change make up one change. */
  lemma ChangedChain(a: Store, b: Store, n: TreeNode, c: Store, first: set<nat>, second: set<nat>, ids: set<nat>)
    requires ChangedOnly(a, b, first) && ChangedOnly(b[n.id := n], c, second)
    requires first <= ids && second <= ids && n.id in ids
    ensures ChangedOnly(a, c, ids)
  {
  }

  lemma Unchanged(a: Store, ids: set<nat>)
    ensures ChangedOnly(a, a, ids)
  {
  }

  lemma ChangedWider(a: Store, b: Store, ids: set<nat>, wider: set<nat>)
    requires ChangedOnly(a, b, ids) && ids <= wider
    ensures ChangedOnly(a, b, wider)
  {
  }

  lemma ChangedByWrite(a: Store, n: TreeNode, ids: set<nat>)
    requires n.id in ids
    ensures ChangedOnly(a, a[n.id := n], ids)
  {
  }

  lemma ChangedByTwoWrites(a: Store, n: TreeNode, n': TreeNode)
    ensures ChangedOnly(a, a[n.id := n][n'.id := n'], {n.id, n'.id})
  {
  }

  lemma ChangedTwice(a: Store, b: Store, c: Store, first: set<nat>, second: set<nat>)
    requires ChangedOnly(a, b, first) && ChangedOnly(b, c, second) && second <= first
    ensures ChangedOnly(a, c, first)
  {
  }

  lemma RotatedStore(a: Store, b: Store, t: Avl.Tree)
    requires t.Node? && t.left.Node? && Spells(a, t) && Avl.IdsOnce(t)
    requires ChangedOnly(a, b, {t.id, t.left.id})
    requires var r := Avl.RotateRight(t); r.id in b && b[r.id] == ImageOf(r) && t.id in b && b[t.id] == ImageOf(r.right)
    ensures Spells(b, Avl.RotateRight(t))
  {
    SpellsFrame(a, b, t.left.left);
    SpellsFrame(a, b, t.left.right);
    SpellsFrame(a, b, t.right);
    assert Spells(b, Avl.RotateRight(t).right);
  }

  lemma RotatedStoreLeft(a: Store, b: Store, t: Avl.Tree)
    requires t.Node? && t.right.Node? && Spells(a, t) && Avl.IdsOnce(t)
    requires ChangedOnly(a, b, {t.id, t.right.id})
    requires var r := Avl.RotateLeft(t); r.id in b && b[r.id] == ImageOf(r) && t.id in b && b[t.id] == ImageOf(r.left)
    ensures Spells(b, Avl.RotateLeft(t))
  {
    SpellsFrame(a, b, t.right.right);
    SpellsFrame(a, b, t.right.left);
    SpellsFrame(a, b, t.left);
    assert Spells(b, Avl.RotateLeft(t).left);
  }

  /** Replacing the left subtree and rewriting the root spells the changed tree. */
  lemma ReplacedLeft(a: Store, b: Store, t: Avl.Tree, l: Avl.Tree, ids: set<nat>)
    requires t.Node? && Spells(a, t) && Avl.IdsOnce(t)
    requires ChangedOnly(a, b, ids) && Spells(b, l) && ids !! Avl.Ids(t.right) && t.id !in ids && t.id !in Avl.Ids(l)
    ensures var t' := t.(left := l); Spells(b[t.id := ImageOf(t')], t')
    ensures t.id in b && b[t.id] == a[t.id]
  {
    var n := ImageOf(t.(left := l));
    SpellsFrame(a, b, t.right);
    SpellsElsewhere(b, t.right, n);
    SpellsElsewhere(b, l, n);
  }

  lemma ReplacedRight(a: Store, b: Store, t: Avl.Tree, r: Avl.Tree, ids: set<nat>)
    requires t.Node? && Spells(a, t) && Avl.IdsOnce(t)
    requires ChangedOnly(a, b, ids) && Spells(b, r) && ids !! Avl.Ids(t.left) && t.id !in ids && t.id !in Avl.Ids(r)
    ensures var t' := t.(right := r); Spells(b[t.id := ImageOf(t')], t')
    ensures t.id in b && b[t.id] == a[t.id]
  {
    var n := ImageOf(t.(right := r));
    SpellsFrame(a, b, t.left);
    SpellsElsewhere(b, t.left, n);
    SpellsElsewhere(b, r, n);
  }

  /** The store after the recursive insertion and the write of this node spells the tree before rebalancing. */
  lemma PlacedStore(a: Store, b: Store, t: Avl.Tree, node: TreeNode, p: Avl.Tree)
    requires t.Node? && Spells(a, t) && Avl.IdsOnce(t) && Avl.Sorted(t) && node.id != 0 && node.id !in Avl.Ids(t)
    requires p == Avl.Placed(t, node.id, node.key, node.value)
    requires t.key < node.key ==> ChangedOnly(a, b, Avl.Ids(t.right) + {node.id}) && Spells(b, p.right)
    requires node.key < t.key ==> ChangedOnly(a, b, Avl.Ids(t.left) + {node.id}) && Spells(b, p.left)
    requires node.key == t.key ==> a == b
    ensures Spells(b[t.id := ImageOf(p)], p) && Avl.IdsOnce(p) && Avl.Ids(p) <= Avl.Ids(t) + {node.id}
    ensures t.id in b && b[t.id] == a[t.id]
    ensures ChangedOnly(a, b[t.id := ImageOf(p)], Avl.Ids(t) + {node.id})
  {
    if t.key < node.key {
      Avl.InsertIds(t.right, node.id, node.key, node.value);
      ReplacedRight(a, b, t, p.right, Avl.Ids(t.right) + {node.id});
    } else if node.key < t.key {
      Avl.InsertIds(t.left, node.id, node.key, node.value);
      ReplacedLeft(a, b, t, p.left, Avl.Ids(t.left) + {node.id});
    } else {
      assert b[t.id := ImageOf(t)] == b;
    }
  }

  /**
   Cached entries are within the ids an operation may touch, which fit the cache, and are filed under their own id.
   */
  ghost predicate Roomy(items: Store, touchable: set<nat>, max: nat) {
    && items.Keys <= touchable && |touchable| <= max
    && forall id :: id in items ==> items[id].id == id
  }

  /** A touchable node always finds room: putting it evicts nothing. */
  lemma RoomyPut(items: Store, touchable: set<nat>, max: nat, n: TreeNode)
    requires Roomy(items, touchable, max) && n.id in touchable
    ensures n.id in items || |items| < max
    ensures Roomy(items[n.id := n], touchable, max)
  {
    if n.id !in items {
      var rest := touchable - {n.id} - items.Keys;
      assert touchable == items.Keys + {n.id} + rest;
      assert |touchable| == |items.Keys| + 1 + |rest|;
    }
  }

  lemma PutKeys(items: Store, n: TreeNode)
    ensures items[n.id := n].Keys == items.Keys + {n.id}
    ensures n.id in items ==> items[n.id := n].Keys == items.Keys
  {
  }

  lemma FromNothing(path: set<nat>, added: set<nat>)
    ensures {} + path + added == path + added
  {
  }

  lemma FetchedKeys(keys: set<nat>, id: nat, path: set<nat>, added: set<nat>)
    requires id in path
    ensures (keys + {id}) + path + added == keys + path + added
  {
  }

  // ----- memory and cache -------------------------------------------------------------------------

  /** The node a block holds. A block never written by the dictionary deserialises to something arbitrary. */
  function NodeIn(cell: Cell): TreeNode {
    match cell.data
    case Image(n) => n
    case Raw(_) => FreshNode(INVALID_MASK, 0, "")
  }

  /** What a read through the cache returns, for every loaded block. */
  function Seen(mem: Memory, items: Store): (r: Store)
    ensures forall id :: id in r <==> id in mem || id in items
    ensures forall id :: id in r ==> r[id] == if id in items then items[id] else NodeIn(mem[id])
  {
    map id | id in mem.Keys + items.Keys :: if id in items then items[id] else NodeIn(mem[id])
  }

  lemma SeenPut(mem: Memory, items: Store, n: TreeNode)
    ensures Seen(mem, items[n.id := n]) == Seen(mem, items)[n.id := n]
  {
  }

  /** Fetching a block into the cache changes nothing that is seen. */
  lemma SeenFetch(mem: Memory, items: Store, id: nat)
    requires id in mem && id !in items
    ensures Seen(mem, items[id := NodeIn(mem[id])]) == Seen(mem, items)
  {
  }

  /** Writing an entry back and dropping it from the cache changes nothing that is seen. */
  lemma SeenWriteBack(mem: Memory, items: Store, id: nat, len: nat)
    requires id in mem && id in items
    ensures Seen(mem[id := Cell(len, Image(items[id]))], items - {id}) == Seen(mem, items)
  {
  }

  /** The ids an operation may touch are loaded, and none is the padding block. */
  lemma PathLoaded(mem: Memory, t: Avl.Tree, key: nat)
    requires Spells(Seen(mem, map[]), t) && Avl.IdsOnce(t)
    ensures Avl.PathIds(t, key) <= mem.Keys && 0 !in Avl.PathIds(t, key)
  {
    Avl.PathIsShort(t, key);
    Avl.NoNullId(t);
    SpelledIds(Seen(mem, map[]), t);
  }

  // ----- the accesses of finalisation -------------------------------------------------------------

  function Pads(op: Operation, n: nat): (r: seq<(Operation, nat)>)
    ensures |r| == n
  {
    seq(n, _ => (op, 0))
  }

  function WritesOf(ids: seq<nat>): (r: seq<(Operation, nat)>)
    ensures |r| == |ids| && forall i :: 0 <= i < |ids| ==> r[i] == (OpWrite, ids[i])
  {
    seq(|ids|, i requires 0 <= i < |ids| => (OpWrite, ids[i]))
  }

  function ReadsOf(ids: seq<nat>): (r: seq<(Operation, nat)>)
    ensures |r| == |ids| && forall i :: 0 <= i < |ids| ==> r[i] == (OpRead, ids[i])
  {
    seq(|ids|, i requires 0 <= i < |ids| => (OpRead, ids[i]))
  }

  /** Fetching one id and then others is fetching them all. */
  lemma ReadsOfCons(log: seq<(Operation, nat)>, id: nat, ids: seq<nat>)
    ensures (log + [(OpRead, id)]) + ReadsOf(ids) == log + ReadsOf([id] + ids)
  {
  }

  lemma ReadsOfNone(log: seq<(Operation, nat)>)
    ensures log + ReadsOf([]) == log
  {
  }

  function Reversed(s: seq<nat>): (r: seq<nat>)
    ensures |r| == |s|
  {
    if s == [] then [] else Reversed(s[1..]) + [s[0]]
  }

  /** Bringing the ids to the front one after the other leaves them in reverse order. */
  lemma ReversedStart(s: seq<nat>, order: seq<nat>)
    ensures s == [] ==> Reversed(s) + order == order
    ensures s != [] ==> Reversed(s) + order == Reversed(s[1..]) + ([s[0]] + order)
  {
  }

  /** An id that is not cached is simply put in front. */
  lemma FetchedFirst(lru: seq<nat>, items: Store, id: nat)
    requires OdsCache.Matching(lru, items) && id !in items
    ensures OdsCache.Touched(lru, id) == [id] + lru
  {
    OdsCache.NothingToErase(lru, id);
  }

  /** The accesses of finalisation: pad reads, one write per cached id in recency order, pad writes. */
  ghost predicate FinalAccesses(before: seq<(Operation, nat)>, after: seq<(Operation, nat)>, padReads: nat,
                                lru: seq<nat>, padWrites: nat) {
    after == before + Pads(OpRead, padReads) + WritesOf(lru) + Pads(OpWrite, padWrites)
  }

  /** What the ORAM sees of a lookup along `path`. */
  function FindAccesses(path: seq<nat>, pad: nat): (r: seq<(Operation, nat)>)
    requires |path| <= pad
    ensures |r| == 2 * pad + |path|
  {
    ReadsOf(path) + Pads(OpRead, pad - |path|) + WritesOf(Reversed(path)) + Pads(OpWrite, pad)
  }

  lemma FindLog(before: seq<(Operation, nat)>, fetched: seq<(Operation, nat)>, after: seq<(Operation, nat)>,
                path: seq<nat>, lru: seq<nat>, pad: nat)
    requires |path| <= pad && fetched == before + ReadsOf(path) && lru == Reversed(path) + []
    requires FinalAccesses(fetched, after, pad - |path|, lru, pad)
    ensures after == before + FindAccesses(path, pad)
  {
    hide ReadsOf, WritesOf, Pads, Reversed;
    assert lru == Reversed(path);
    Regroup(before, ReadsOf(path), Pads(OpRead, pad - |path|), WritesOf(lru), Pads(OpWrite, pad));
  }

  lemma Regroup<T>(a: seq<T>, b: seq<T>, c: seq<T>, d: seq<T>, e: seq<T>)
    ensures (a + b) + c + d + e == a + (b + c + d + e)
  {
  }

  /** Padding does not hide the depth of a lookup: with one pad value, two lookups are as long iff they go as deep. */
  lemma FindsAlike(t: Avl.Tree, key: nat, t': Avl.Tree, key': nat, pad: nat)
    requires Avl.IdsOnce(t) && Avl.IdsOnce(t') && Avl.SearchReads(t, key) <= pad && Avl.SearchReads(t', key') <= pad
    ensures |Avl.PathSeq(t, key)| <= pad && |Avl.PathSeq(t', key')| <= pad
    ensures |FindAccesses(Avl.PathSeq(t, key), pad)| == |FindAccesses(Avl.PathSeq(t', key'), pad)|
      <==> Avl.SearchReads(t, key) == Avl.SearchReads(t', key')
  {
    Avl.PathSeqOnce(t, key);
    Avl.PathSeqOnce(t', key');
  }

  /**
   What the ORAM sees of an insertion along `path` whose rebalancing costs the given reads and writes in the cache.
   */
  function InsertAccesses(path: seq<nat>, lru: seq<nat>, mendReads: nat, mendWrites: nat,
                          pad: nat): seq<(Operation, nat)>
    requires |path| + mendReads <= pad && |path| + mendWrites <= pad
  {
    ReadsOf(path) + Pads(OpRead, pad - |path| - mendReads) + WritesOf(lru) + Pads(OpWrite, pad - |path| - mendWrites)
  }

  /** `lru` lists exactly the ids of the path and the added ones, each once. */
  ghost predicate WritesEachOnce(lru: seq<nat>, path: seq<nat>, added: set<nat>) {
    && OdsCache.NoDup(lru) && |lru| == |path| + |added|
    && forall id :: id in lru <==> id in path || id in added
  }

  /**
   The length of an insertion. A new node adds an access; rebalancing takes away five or eleven, because the pads shrink
   by the counted accesses that the cache answers.
   */
  lemma InsertLength(t: Avl.Tree, id: nat, key: nat, value: string, lru: seq<nat>, pad: nat)
    requires Avl.WellFormed(t, id) && Avl.SearchReads(t, key) + Avl.MendReads(Avl.Foreseen(t, key)) <= pad
    requires WritesEachOnce(lru, Avl.PathSeq(t, key), if key in Avl.Content(t) then {} else {id})
    ensures |Avl.PathSeq(t, key)| == Avl.SearchReads(t, key)
    ensures |InsertAccesses(Avl.PathSeq(t, key), lru, Avl.MendReads(Avl.Foreseen(t, key)),
                            Avl.MendWrites(Avl.Foreseen(t, key)), pad)|
      == 2 * pad + (if key in Avl.Content(t) then 0 else 1)
         - (match Avl.Foreseen(t, key) case Even => 0 case LL => 5 case RR => 5 case LR => 11 case RL => 11)
  {
    hide Avl.WellFormed, Avl.Foreseen, Avl.Content;
    Avl.WellFormedParts(t, id);
    Avl.PathSeqOnce(t, key);
  }

  lemma InsertLog(before: seq<(Operation, nat)>, fetched: seq<(Operation, nat)>, after: seq<(Operation, nat)>,
                  t: Avl.Tree, key: nat, lru: seq<nat>, pad: nat)
    requires Avl.IdsOnce(t) && Avl.ForeseenReads(t, key) <= pad && Avl.ForeseenWrites(t, key) <= pad
    requires fetched == before + ReadsOf(Avl.PathSeq(t, key))
    requires FinalAccesses(fetched, after, pad - Avl.ForeseenReads(t, key), lru, pad - Avl.ForeseenWrites(t, key))
    ensures |Avl.PathSeq(t, key)| == Avl.SearchReads(t, key)
    ensures after == before + InsertAccesses(Avl.PathSeq(t, key), lru, Avl.MendReads(Avl.Foreseen(t, key)),
                                             Avl.MendWrites(Avl.Foreseen(t, key)), pad)
  {
    hide ReadsOf, WritesOf, Pads, Avl.Foreseen, Avl.PathSeq, Avl.SearchReads, Avl.IdsOnce;
    Avl.PathSeqOnce(t, key);
    var padReads, padWrites := pad - Avl.ForeseenReads(t, key), pad - Avl.ForeseenWrites(t, key);
    Regroup(before, ReadsOf(Avl.PathSeq(t, key)), Pads(OpRead, padReads), WritesOf(lru), Pads(OpWrite, padWrites));
  }

  /** After an insertion the cache lists the search path and the new node, each once. */
  lemma EachOnce(lru: seq<nat>, items: Store, t: Avl.Tree, id: nat, key: nat)
    requires OdsCache.Matching(lru, items) && items.Keys == Avl.PathIds(t, key) + Avl.NewIds(t, id, key)
    requires Avl.IdsOnce(t) && id !in Avl.Ids(t)
    ensures WritesEachOnce(lru, Avl.PathSeq(t, key), if key in Avl.Content(t) then {} else {id})
  {
    Avl.ContentKeys(t);
    Avl.PathSeqOnce(t, key);
    Avl.PathIsShort(t, key);
    OdsCache.MatchingCount(lru, items);
    hide Avl.Content, Avl.Keys, Avl.PathIds, Avl.PathSeq, Avl.IdsOnce;
    assert |items| == |items.Keys|;
    assert Avl.PathIds(t, key) !! Avl.NewIds(t, id, key);
  }

  /** The memory holds, outside the padding block 0, what was seen before. */
  ghost predicate Settled(mem: Memory, seen: Store) {
    && mem.Keys == seen.Keys
    && forall id :: id in mem && id != 0 ==> NodeIn(mem[id]) == seen[id]
  }

  /** Padding lands on block 0, which is never part of a tree. */
  lemma SettledSpells(mem: Memory, seen: Store, t: Avl.Tree)
    requires Settled(mem, seen) && Spells(seen, t) && Avl.IdsOnce(t)
    ensures Spells(Seen(mem, map[]), t)
  {
    Avl.NoNullId(t);
    SpellsFrame(seen, Seen(mem, map[]), t);
  }
}
