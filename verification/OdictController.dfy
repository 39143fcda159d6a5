/** The oblivious dictionary (core/odict_controller.cc): an AVL tree of ORAM blocks edited through a node cache. */
module OdictController {
  import opened OramDefs
  import opened OdsObjects
  import opened PathOramPlacement
  import opened PathOramRefinement
  import opened OdictStore
  import Avl
  import OdsCache

  /**
   The backbone ORAM as its client sees it. `PathOramController.Access` answers by the same `FlatAccess`, for every
   draw of leaves and padding.
   */
  class BackboneOram {
    var memory: Memory
    /** The accesses made so far, as (operation, address). */
    ghost var log: seq<(Operation, nat)>

    constructor (memory: Memory)
      ensures this.memory == memory && log == []
    {
      this.memory := memory;
      log := [];
    }

    method Access(op: Operation, address: nat, data: Block) returns (status: StatusCode, out: Block)
      modifies this
      ensures var f := FlatAccess(old(memory), true, op, address, data);
        memory == f.memory && status == f.status && out == f.data
      ensures log == old(log) + [(op, address)]
    {
      var f := FlatAccess(memory, true, op, address, data);
      memory := f.memory;
      log := log + [(op, address)];
      return f.status, f.data;
    }
  }

  class OdictController {
    const oram: BackboneOram
    const cache: OdsCache.OdsCache
    const odictSize: nat
    var rootId: nat
    var nodeCount: nat
    var readCount: nat
    var writeCount: nat

    /** The tree spelled out in the store, and the ids an operation may bring into the cache. */
    ghost var tree: Avl.Tree
    ghost var touchable: set<nat>

    ghost function View(): Store
      reads oram, cache
    {
      Seen(oram.memory, cache.cacheItems)
    }

    /** During an operation: no cached node can be lost, and each entry is filed under its own id. */
    ghost predicate Working()
      reads this`touchable, cache
    {
      cache.Valid() && Roomy(cache.cacheItems, touchable, cache.maxSize)
    }

    /** Between operations: the memory spells out an AVL tree whose ids are below the next one. */
    ghost predicate Valid()
      reads this, oram, cache
    {
      && cache.Valid()
      && rootId == Avl.RootId(tree) && readCount == 0 && writeCount == 0
      && Spells(Seen(oram.memory, map[]), tree)
      && Avl.WellFormed(tree, nodeCount)
    }

    constructor (odictSize: nat, clientCacheMaxSize: nat, oram: BackboneOram)
      ensures this.oram == oram && this.odictSize == odictSize && fresh(cache) && cache.maxSize == clientCacheMaxSize
      ensures Valid() && tree == Avl.Leaf && nodeCount == 1
    {
      this.oram, this.odictSize := oram, odictSize;
      cache := new OdsCache.OdsCache(clientCacheMaxSize);
      rootId, nodeCount, readCount, writeCount := INVALID_MASK, 1, 0, 0;
      tree, touchable := Avl.Leaf, {};
    }

    // ----- reading and writing nodes ----------------------------------------------------------------

    /** Fetch a block from the ORAM and read the node out of it. */
    method CacheHelper(id: nat, junk: Cell) returns (status: StatusCode, node: TreeNode)
      requires id in oram.memory
      modifies oram
      ensures oram.memory == old(oram.memory) && oram.log == old(oram.log) + [(OpRead, id)]
      ensures status == OK && node == NodeIn(oram.memory[id])
    {
      var block;
      status, block := oram.Access(OpRead, id, Block(id, Dummy, junk));
      node := NodeIn(block.cell);
    }

    method OdsAccessRead(id: nat, junk: Cell) returns (node: TreeNode)
      requires Working() && id in touchable
      requires id in View() && View()[id].id == id
      modifies this`readCount, oram, cache
      ensures Working() && View() == old(View()) && oram.memory == old(oram.memory)
      ensures node == View()[id] && readCount == old(readCount) + 1
      ensures cache.cacheItems == old(cache.cacheItems)[id := node]
      ensures cache.cacheItems.Keys == old(cache.cacheItems.Keys) + {id}
      ensures cache.lruTable == OdsCache.Touched(old(cache.lruTable), id)
      ensures oram.log == old(oram.log) + if id in old(cache.cacheItems) then [] else [(OpRead, id)]
      ensures id in old(cache.cacheItems.Keys) ==> Quiet()
    {
      hide Roomy, OdsCache.Matching, OdsCache.PutOrder;
      readCount := readCount + 1;
      var hit := cache.Get(id);
      if hit == None {
        var status;
        status, node := CacheHelper(id, junk);
        assert status == OK;
        SeenFetch(oram.memory, cache.cacheItems, id);
        RoomyPut(cache.cacheItems, touchable, cache.maxSize, node);
        var evicted := cache.Put(id, node);
        assert evicted == None;
      } else {
        node := hit.value;
      }
      PutKeys(old(cache.cacheItems), node);
    }

    method OdsAccessWrite(node: TreeNode)
      requires Working() && node.id in touchable
      modifies this`writeCount, cache
      ensures Working() && View() == old(View())[node.id := node]
      ensures cache.cacheItems == old(cache.cacheItems)[node.id := node]
      ensures cache.lruTable == OdsCache.Touched(old(cache.lruTable), node.id)
      ensures writeCount == old(writeCount) + 1
      ensures node.id in old(cache.cacheItems.Keys) ==> Quiet()
    {
      hide Roomy, OdsCache.Matching, OdsCache.PutOrder;
      PutKeys(cache.cacheItems, node);
      writeCount := writeCount + 1;
      var hit := cache.Get(node.id);
      SeenPut(oram.memory, cache.cacheItems, node);
      RoomyPut(cache.cacheItems, touchable, cache.maxSize, node);
      var evicted := cache.Put(node.id, node);
      assert evicted == None;
    }

    /** Remove a node: a cached one is brought to the front and popped, any other is fetched and not kept. */
    method OdsAccessRemove(id: nat, junk: Cell)
      requires Working() && id in View()
      modifies oram, cache
      ensures Working() && oram.memory == old(oram.memory)
      ensures cache.cacheItems == old(cache.cacheItems) - {id}
      ensures cache.lruTable == OdsCache.Erased(old(cache.lruTable), id)
      ensures oram.log == old(oram.log) + if id in old(cache.cacheItems) then [] else [(OpRead, id)]
    {
      var hit := cache.Get(id);
      if hit == None {
        var status, node := CacheHelper(id, junk);
        assert status == OK;
        OdsCache.NothingToErase(cache.lruTable, id);
      } else {
        cache.Pop();
      }
    }

    method OdsAccessInsert(node: TreeNode)
      requires Working() && node.id in touchable
      modifies cache
      ensures Working() && View() == old(View())[node.id := node]
      ensures cache.cacheItems == old(cache.cacheItems)[node.id := node]
      ensures cache.lruTable == OdsCache.Touched(old(cache.lruTable), node.id)
    {
      hide Roomy, OdsCache.Matching, OdsCache.PutOrder;
      SeenPut(oram.memory, cache.cacheItems, node);
      RoomyPut(cache.cacheItems, touchable, cache.maxSize, node);
      var evicted := cache.Put(node.id, node);
      assert evicted == None;
    }

    /** Nothing was fetched from the ORAM. */
    twostate predicate Quiet()
      reads oram, cache
    {
      oram.log == old(oram.log) && cache.cacheItems.Keys == old(cache.cacheItems.Keys)
    }

    // ----- rotations --------------------------------------------------------------------------------

    method RightRotate(root: nat, junk: Cell, ghost t: Avl.Tree) returns (ret: TreeNode)
      requires Working() && t.Node? && t.left.Node? && t.id == root
      requires Spells(View(), t) && Avl.IdsOnce(t) && {t.id, t.left.id} <= touchable
      modifies this`readCount, this`writeCount, oram, cache
      ensures Working() && oram.memory == old(oram.memory)
      ensures Spells(View(), Avl.RotateRight(t)) && ret == ImageOf(Avl.RotateRight(t))
      ensures ChangedOnly(old(View()), View(), {t.id, t.left.id})
      ensures readCount == old(readCount) + 2 && writeCount == old(writeCount) + 2
      ensures {t.id, t.left.id} <= old(cache.cacheItems.Keys) ==> Quiet()
    {
      hide Roomy, Seen, ChangedOnly, OdsCache.Matching, OdsCache.Touched;
      ghost var r := Avl.RotateRight(t);
      ghost var v0 := View();
      var node := OdsAccessRead(root, junk);
      var left := OdsAccessRead(node.leftId, junk);
      node := node.(leftId := left.rightId, leftHeight := left.rightHeight);
      OdsAccessWrite(node);
      left := left.(rightHeight := Height(node), rightId := root);
      OdsAccessWrite(left);
      assert node == ImageOf(r.right) && left == ImageOf(r);
      ChangedByTwoWrites(v0, node, left);
      RotatedStore(v0, View(), t);
      return left;
    }

    method LeftRotate(root: nat, junk: Cell, ghost t: Avl.Tree) returns (ret: TreeNode)
      requires Working() && t.Node? && t.right.Node? && t.id == root
      requires Spells(View(), t) && Avl.IdsOnce(t) && {t.id, t.right.id} <= touchable
      modifies this`readCount, this`writeCount, oram, cache
      ensures Working() && oram.memory == old(oram.memory)
      ensures Spells(View(), Avl.RotateLeft(t)) && ret == ImageOf(Avl.RotateLeft(t))
      ensures ChangedOnly(old(View()), View(), {t.id, t.right.id})
      ensures readCount == old(readCount) + 2 && writeCount == old(writeCount) + 2
      ensures {t.id, t.right.id} <= old(cache.cacheItems.Keys) ==> Quiet()
    {
      hide Roomy, Seen, ChangedOnly, OdsCache.Matching, OdsCache.Touched;
      ghost var r := Avl.RotateLeft(t);
      ghost var v0 := View();
      var node := OdsAccessRead(root, junk);
      var right := OdsAccessRead(node.rightId, junk);
      node := node.(rightId := right.leftId, rightHeight := right.leftHeight);
      OdsAccessWrite(node);
      right := right.(leftHeight := Height(node), leftId := root);
      OdsAccessWrite(right);
      assert node == ImageOf(r.left) && right == ImageOf(r);
      ChangedByTwoWrites(v0, node, right);
      RotatedStoreLeft(v0, View(), t);
      return right;
    }

    method LeftRightRotate(root: nat, junk: Cell, ghost t: Avl.Tree) returns (ret: TreeNode)
      requires Working() && t.Node? && t.left.Node? && t.left.right.Node? && t.id == root
      requires Spells(View(), t) && Avl.IdsOnce(t) && {t.id, t.left.id, t.left.right.id} <= touchable
      modifies this`readCount, this`writeCount, oram, cache
      ensures Working() && oram.memory == old(oram.memory)
      ensures var r := Avl.RotateRight(t.(left := Avl.RotateLeft(t.left)));
        Spells(View(), r) && ret == ImageOf(r)
      ensures ChangedOnly(old(View()), View(), {t.id, t.left.id, t.left.right.id})
      ensures readCount == old(readCount) + 5 && writeCount == old(writeCount) + 5
      ensures {t.id, t.left.id, t.left.right.id} <= old(cache.cacheItems.Keys) ==> Quiet()
    {
      hide Roomy, Avl.Ids, Avl.IdsOnce, Seen, ChangedOnly, OdsCache.Matching, OdsCache.Touched;
      Avl.InnerLeftIds(t);
      ghost var v0 := View();
      var node := OdsAccessRead(root, junk);
      var left := LeftRotate(node.leftId, junk, t.left);
      ghost var v1 := View();
      ghost var t1 := t.(left := Avl.RotateLeft(t.left));
      node := node.(leftId := left.id, leftHeight := Height(left));
      OdsAccessWrite(node);
      ReplacedLeft(v0, v1, t, Avl.RotateLeft(t.left), {t.left.id, t.left.right.id});
      ret := RightRotate(root, junk, t1);
      ChangedChain(v0, v1, node, View(), {t.left.id, t.left.right.id}, {t1.id, t1.left.id},
                   {t.id, t.left.id, t.left.right.id});
    }

    method RightLeftRotate(root: nat, junk: Cell, ghost t: Avl.Tree) returns (ret: TreeNode)
      requires Working() && t.Node? && t.right.Node? && t.right.left.Node? && t.id == root
      requires Spells(View(), t) && Avl.IdsOnce(t) && {t.id, t.right.id, t.right.left.id} <= touchable
      modifies this`readCount, this`writeCount, oram, cache
      ensures Working() && oram.memory == old(oram.memory)
      ensures var r := Avl.RotateLeft(t.(right := Avl.RotateRight(t.right)));
        Spells(View(), r) && ret == ImageOf(r)
      ensures ChangedOnly(old(View()), View(), {t.id, t.right.id, t.right.left.id})
      ensures readCount == old(readCount) + 5 && writeCount == old(writeCount) + 5
      ensures {t.id, t.right.id, t.right.left.id} <= old(cache.cacheItems.Keys) ==> Quiet()
    {
      hide Roomy, Avl.Ids, Avl.IdsOnce, Seen, ChangedOnly, OdsCache.Matching, OdsCache.Touched;
      Avl.InnerRightIds(t);
      ghost var v0 := View();
      var node := OdsAccessRead(root, junk);
      var right := RightRotate(node.rightId, junk, t.right);
      ghost var v1 := View();
      ghost var t1 := t.(right := Avl.RotateRight(t.right));
      node := node.(rightId := right.id, rightHeight := Height(right));
      OdsAccessWrite(node);
      ReplacedRight(v0, v1, t, Avl.RotateRight(t.right), {t.right.id, t.right.left.id});
      ret := LeftRotate(root, junk, t1);
      ChangedChain(v0, v1, node, View(), {t.right.id, t.right.left.id}, {t1.id, t1.right.id},
                   {t.id, t.right.id, t.right.left.id});
    }

    /** Rebalance at a node just written, whose fields the caller holds in `root`. */
    method Balance(root: TreeNode, junk: Cell, ghost t: Avl.Tree) returns (ret: TreeNode)
      requires Working() && t.Node? && root == ImageOf(t)
      requires Spells(View(), t) && Avl.IdsOnce(t) && Avl.BalanceIds(t) <= touchable
      modifies this`readCount, this`writeCount, oram, cache
      ensures Working() && oram.memory == old(oram.memory)
      ensures Spells(View(), Avl.Rebalanced(t)) && ret == ImageOf(Avl.Rebalanced(t))
      ensures ChangedOnly(old(View()), View(), Avl.Ids(t))
      ensures readCount == old(readCount) + Avl.BalanceReads(t) && writeCount == old(writeCount) + Avl.BalanceWrites(t)
      ensures Avl.BalanceIds(t) <= old(cache.cacheItems.Keys) ==> Quiet()
    {
      hide Roomy, Seen, ChangedOnly, OdsCache.Matching, OdsCache.Touched;
      hide Avl.Rebalanced, Avl.BalanceIds, Avl.BalanceReads, Avl.BalanceWrites, Avl.RotateLeft, Avl.RotateRight;
      hide Avl.IdsOnce, Avl.Ids;
      BalanceCases(t);
      ghost var v0 := View();
      if root.leftHeight > root.rightHeight && root.leftHeight - root.rightHeight > 1 {
        var left := OdsAccessRead(root.leftId, junk);
        assert Avl.BalanceIds(t) <= old(cache.cacheItems.Keys) ==> Quiet();
        if left.leftHeight >= left.rightHeight {
          ret := RightRotate(root.id, junk, t);
        } else {
          ret := LeftRightRotate(root.id, junk, t);
        }
        ChangedWider(v0, View(), Avl.BalanceIds(t), Avl.Ids(t));
      } else if root.rightHeight > root.leftHeight && root.rightHeight - root.leftHeight > 1 {
        var right := OdsAccessRead(root.rightId, junk);
        assert Avl.BalanceIds(t) <= old(cache.cacheItems.Keys) ==> Quiet();
        if right.rightHeight >= right.leftHeight {
          ret := LeftRotate(root.id, junk, t);
        } else {
          ret := RightLeftRotate(root.id, junk, t);
        }
        ChangedWider(v0, View(), Avl.BalanceIds(t), Avl.Ids(t));
      } else {
        Unchanged(v0, Avl.Ids(t));
        ret := root;
      }
    }

    // ----- insertion and search ---------------------------------------------------------------------

    /** Insert below the given root, rebalancing on the way back; returns the new root of the subtree. */
    method InternalInsert(node: TreeNode, root: nat, junk: Cell, ghost t: Avl.Tree) returns (ret: TreeNode)
      requires Working() && root == Avl.RootId(t)
      requires node == FreshNode(node.id, node.key, node.value) && node.id != 0 && node.id !in Avl.Ids(t)
      requires Spells(View(), t) && Avl.IdsOnce(t) && Avl.Sorted(t) && Avl.Balanced(t)
      requires Avl.PathIds(t, node.key) + {node.id} <= touchable
      requires Avl.PathIds(t, node.key) + {node.id} !! cache.cacheItems.Keys
      modifies this`readCount, this`writeCount, oram, cache
      ensures Working() && oram.memory == old(oram.memory)
      ensures var t' := Avl.Insert(t, node.id, node.key, node.value); Spells(View(), t') && ret == ImageOf(t')
      ensures ChangedOnly(old(View()), View(), Avl.Ids(t) + {node.id})
      ensures readCount == old(readCount) + Avl.InsertReads(t, node.id, node.key, node.value)
      ensures writeCount == old(writeCount) + Avl.InsertWrites(t, node.id, node.key, node.value)
      ensures oram.log == old(oram.log) + ReadsOf(Avl.PathSeq(t, node.key))
      ensures cache.cacheItems.Keys
        == old(cache.cacheItems.Keys) + Avl.PathIds(t, node.key) + Avl.NewIds(t, node.id, node.key)
      decreases t, 1
    {
      hide Roomy, Seen, ChangedOnly, OdsCache.Matching, OdsCache.Touched, ReadsOf;
      hide Avl.Rebalanced, Avl.TiltOf, Avl.BalanceIds, Avl.BalanceReads, Avl.BalanceWrites, Avl.NewIds;
      hide Avl.Sorted, Avl.Balanced, Avl.Insert, Avl.InsertReads, Avl.InsertWrites, Avl.PathIds, Avl.Ids, Avl.IdsOnce;
      ghost var v0 := View();
      NullRootIsLeaf(t);
      if root == INVALID_MASK {
        InsertAtLeaf(node.id, node.key, node.value);
        OdsAccessInsert(node);
        ChangedByWrite(v0, node, Avl.Ids(t) + {node.id});
        ReadsOfNone(oram.log);
        return node;
      }
      InsertLevel(t, node.id, node.key, node.value);
      ghost var p := Avl.Placed(t, node.id, node.key, node.value);
      var cur := OdsAccessRead(root, junk);
      ReadsOfCons(old(oram.log), t.id, Avl.PathSeq(t, node.key)[1..]);
      cur := InsertBelow(node, cur, junk, t);
      FetchedKeys(old(cache.cacheItems.Keys), t.id, Avl.PathIds(t, node.key), Avl.NewIds(t, node.id, node.key));
      OdsAccessWrite(cur);
      Avl.BalanceStaysOnPath(t, node.id, node.key, node.value);
      ghost var v2 := View();
      ret := Balance(cur, junk, p);
      ChangedTwice(v0, v2, View(), Avl.Ids(t) + {node.id}, Avl.Ids(p));
    }

    /** Insert into the proper subtree of the node just read, and relink that node. */
    method InsertBelow(node: TreeNode, read: TreeNode, junk: Cell, ghost t: Avl.Tree) returns (cur: TreeNode)
      requires Working() && t.Node? && read == ImageOf(t) && t.id in cache.cacheItems
      requires node == FreshNode(node.id, node.key, node.value) && node.id != 0 && node.id !in Avl.Ids(t)
      requires Spells(View(), t) && Avl.IdsOnce(t) && Avl.Sorted(t) && Avl.Balanced(t)
      requires Avl.PathIds(t, node.key) + {node.id} <= touchable
      requires (Avl.PathIds(t, node.key) + {node.id}) - {t.id} !! cache.cacheItems.Keys
      modifies this`readCount, this`writeCount, oram, cache
      ensures Working() && oram.memory == old(oram.memory)
      ensures var p := Avl.Placed(t, node.id, node.key, node.value);
        && cur == ImageOf(p) && Spells(View()[t.id := cur], p)
        && Avl.IdsOnce(p) && Avl.Ids(p) <= Avl.Ids(t) + {node.id}
      ensures ChangedOnly(old(View()), View()[t.id := cur], Avl.Ids(t) + {node.id})
      ensures readCount == old(readCount) + Avl.ReadsBelow(t, node.id, node.key, node.value)
      ensures writeCount == old(writeCount) + Avl.WritesBelow(t, node.id, node.key, node.value)
      ensures oram.log == old(oram.log) + ReadsOf(Avl.PathSeq(t, node.key)[1..])
      ensures cache.cacheItems.Keys
        == old(cache.cacheItems.Keys) + Avl.PathIds(t, node.key) + Avl.NewIds(t, node.id, node.key)
      decreases t, 0
    {
      hide Roomy, Seen, ChangedOnly, OdsCache.Matching, OdsCache.Touched, ReadsOf;
      hide Avl.Rebalanced, Avl.TiltOf, Avl.BalanceIds, Avl.BalanceReads, Avl.BalanceWrites, Avl.NewIds;
      hide Avl.Sorted, Avl.Balanced, Avl.Insert, Avl.InsertReads, Avl.InsertWrites, Avl.PathIds, Avl.Ids, Avl.IdsOnce;
      ghost var v0 := View();
      InsertLevel(t, node.id, node.key, node.value);
      Avl.NewBelow(t, node.id, node.key);
      cur := read;
      if cur.key < node.key {
        var child := InternalInsert(node, cur.rightId, junk, t.right);
        cur := cur.(rightId := child.id, rightHeight := Height(child));
      } else if cur.key > node.key {
        var child := InternalInsert(node, cur.leftId, junk, t.left);
        cur := cur.(leftId := child.id, leftHeight := Height(child));
      } else {
        ReadsOfNone(oram.log);
      }
      PlacedStore(v0, View(), t, node, Avl.Placed(t, node.id, node.key, node.value));
    }

    /** Walk down from the given root; hands back the node with the key, if there is one. */
    method InternalFind(key: nat, root: nat, junk: Cell, ghost t: Avl.Tree) returns (ret: Option<TreeNode>)
      requires Working() && root == Avl.RootId(t) && Spells(View(), t) && Avl.IdsOnce(t)
      requires Avl.PathIds(t, key) <= touchable
      requires Avl.PathIds(t, key) !! cache.cacheItems.Keys
      modifies this`readCount, oram, cache
      ensures Working() && View() == old(View()) && oram.memory == old(oram.memory)
      ensures var found := Avl.Search(t, key); ret == if found.Leaf? then None else Some(ImageOf(found))
      ensures readCount == old(readCount) + Avl.SearchReads(t, key)
      ensures oram.log == old(oram.log) + ReadsOf(Avl.PathSeq(t, key))
      ensures cache.lruTable == Reversed(Avl.PathSeq(t, key)) + old(cache.lruTable)
      decreases t
    {
      hide Roomy, Seen, OdsCache.Matching, OdsCache.Touched, ReadsOf, Reversed, Avl.IdsOnce, Avl.PathIds;
      Avl.NoPath(key);
      NullRootIsLeaf(t);
      ReadsOfNone(oram.log);
      ReversedStart(Avl.PathSeq(t, key), cache.lruTable);
      if root == INVALID_MASK {
        return None;
      }
      Avl.PathBelow(t, key);
      FetchedFirst(cache.lruTable, cache.cacheItems, root);
      var node := OdsAccessRead(root, junk);
      ReadsOfCons(old(oram.log), root, Avl.PathSeq(t, key)[1..]);
      if node.key == key {
        return Some(node);
      }
      if node.key < key {
        ret := InternalFind(key, node.rightId, junk, t.right);
      } else {
        ret := InternalFind(key, node.leftId, junk, t.left);
      }
    }

    /** `OdsStart`: an operation begins with an empty cache, and may bring the given ids into it. */
    method OdsStart(ghost ids: set<nat>)
      requires |ids| <= cache.maxSize
      modifies this`touchable, cache
      ensures Working() && touchable == ids && View() == Seen(oram.memory, map[])
      ensures cache.cacheItems == map[] && cache.lruTable == []
    {
      cache.Clear();
      touchable := ids;
    }

    // ----- operations -------------------------------------------------------------------------------

    /** `num` accesses to block 0; `junk` is the uninitialised block that pad writes send. */
    method DoPad(op: Operation, num: nat, junk: Cell) returns (status: StatusCode)
      requires 0 in oram.memory
      modifies oram
      ensures status == OK && oram.log == old(oram.log) + Pads(op, num)
      ensures oram.memory == if op.OpWrite? && num > 0 then old(oram.memory)[0 := junk] else old(oram.memory)
    {
      var block := Block(0, Normal, junk);
      for i := 0 to num
        invariant oram.log == old(oram.log) + Pads(op, i)
        invariant oram.memory == if op.OpWrite? && i > 0 then old(oram.memory)[0 := junk] else old(oram.memory)
        invariant op.OpWrite? ==> block.cell == junk
      {
        status, block := oram.Access(op, 0, block);
        assert status == OK;  // block 0 is loaded, so the error return is never taken
        assert Pads(op, i + 1) == Pads(op, i) + [(op, 0)];
      }
      return OK;
    }

    /** Write every cached node back, most recent first, and empty the cache. */
    method Drain(junk: Cell)
      requires Working() && cache.cacheItems.Keys <= oram.memory.Keys
      modifies oram, cache
      ensures cache.Valid() && cache.cacheItems == map[] && cache.lruTable == []
      ensures Seen(oram.memory, map[]) == old(View()) && oram.memory.Keys == old(oram.memory).Keys
      ensures oram.log == old(oram.log) + WritesOf(old(cache.lruTable))
    {
      hide Seen, OdsCache.Matching;
      ghost var k, lru, mem, v0 := 0, cache.lruTable, oram.memory, View();
      while !cache.IsEmpty()
        invariant cache.Valid() && k <= |lru| && cache.lruTable == lru[k..]
        invariant cache.cacheItems.Keys <= oram.memory.Keys == mem.Keys
        invariant forall id :: id in cache.cacheItems ==> cache.cacheItems[id].id == id
        invariant Seen(oram.memory, cache.cacheItems) == v0
        invariant oram.log == old(oram.log) + WritesOf(lru[..k])
        decreases |lru| - k
      {
        cache.EmptyBoth();
        var node := cache.Front();
        assert node.id == cache.lruTable[0] == lru[k];
        SeenWriteBack(oram.memory, cache.cacheItems, node.id, junk.len);
        var status, ignored := oram.Access(OpWrite, node.id, Block(node.id, Normal, Cell(junk.len, Image(node))));
        cache.Pop();
        assert WritesOf(lru[..k + 1]) == WritesOf(lru[..k]) + [(OpWrite, lru[k])];
        k := k + 1;
      }
      cache.EmptyBoth();
      assert lru[..k] == lru;
    }

    /** Pad the reads, drain the cache, pad the writes. */
    method OdsFinalize(padVal: nat, junk: Cell) returns (status: StatusCode)
      requires Working() && touchable <= oram.memory.Keys
      requires 0 in oram.memory && 0 !in touchable
      requires padVal >= readCount && padVal >= writeCount
      modifies this`readCount, this`writeCount, oram, cache
      ensures status == OK && cache.Valid() && cache.lruTable == [] && readCount == 0 && writeCount == 0
      ensures Settled(oram.memory, old(View())) && oram.memory.Keys == old(oram.memory).Keys
      ensures FinalAccesses(old(oram.log), oram.log, padVal - old(readCount), old(cache.lruTable),
                            padVal - old(writeCount))
    {
      status := DoPad(OpRead, padVal - readCount, junk);
      Drain(junk);
      status := DoPad(OpWrite, padVal - writeCount, junk);
      writeCount, readCount := 0, 0;
    }

    /**
     Look a key up: the value is the one in the dictionary's content. The ORAM sees the search path read from the root
     down and written back from the bottom up, each padded to the pad value.
     */
    method Find(key: nat, padVal: nat, junk: Cell) returns (ret: Option<TreeNode>)
      requires Valid() && 0 in oram.memory && Avl.Height(tree) <= cache.maxSize
      requires padVal >= Avl.SearchReads(tree, key)
      modifies this`readCount, this`writeCount, this`touchable, oram, cache
      ensures Valid() && oram.memory.Keys == old(oram.memory).Keys
      ensures var found := Avl.Search(tree, key); ret == if found.Leaf? then None else Some(ImageOf(found))
      ensures ret.Some? <==> key in Avl.Content(tree)
      ensures ret.Some? ==> ret.value.key == key && ret.value.value == Avl.Content(tree)[key]
      ensures |Avl.PathSeq(tree, key)| == Avl.SearchReads(tree, key)
      ensures oram.log == old(oram.log) + FindAccesses(Avl.PathSeq(tree, key), padVal)
    {
      hide Roomy, Seen, Settled, FinalAccesses, FindAccesses, Spells, ChangedOnly, Pads, ReadsOf, WritesOf, Reversed;
      hide ImageOf, OdsCache.Matching, Avl.Balanced, Avl.Sorted, Avl.IdsOnce, Avl.Ids, Avl.Size, Avl.Height;
      hide Avl.Search, Avl.Content, Avl.PathIds, Avl.PathSeq, Avl.SearchReads;
      PathLoaded(oram.memory, tree, key);
      Avl.PathIsShort(tree, key);
      Avl.PathSeqOnce(tree, key);
      Avl.SearchIsLookup(tree, key);
      OdsStart(Avl.PathIds(tree, key));
      ret := InternalFind(key, rootId, junk, tree);
      ghost var seen, lru, fetched := View(), cache.lruTable, oram.log;
      var status := OdsFinalize(padVal, junk);
      SettledSpells(oram.memory, seen, tree);
      FindLog(old(oram.log), fetched, oram.log, Avl.PathSeq(tree, key), lru, padVal);
    }

    /** Start an insertion and carry it out in the cache; the ORAM's contents stay as they are. */
    method InsertCached(node: TreeNode, junk: Cell) returns (ans: TreeNode)
      requires cache.Valid() && rootId == Avl.RootId(tree) && readCount == 0 && writeCount == 0
      requires Spells(Seen(oram.memory, map[]), tree) && Avl.WellFormed(tree, node.id)
      requires Avl.Height(tree) + 1 <= cache.maxSize
      requires node == FreshNode(node.id, node.key, node.value)
      modifies this`readCount, this`writeCount, this`touchable, oram, cache
      ensures Working() && oram.memory == old(oram.memory) && touchable == Avl.PathIds(tree, node.key) + {node.id}
      ensures var t' := Avl.Insert(tree, node.id, node.key, node.value); Spells(View(), t') && ans == ImageOf(t')
      ensures readCount == Avl.InsertReads(tree, node.id, node.key, node.value)
      ensures writeCount == Avl.InsertWrites(tree, node.id, node.key, node.value)
      ensures oram.log == old(oram.log) + ReadsOf(Avl.PathSeq(tree, node.key))
      ensures cache.cacheItems.Keys == Avl.PathIds(tree, node.key) + Avl.NewIds(tree, node.id, node.key)
    {
      hide Roomy, ChangedOnly, Spells, Seen, OdsCache.Matching, ReadsOf;
      hide Avl.WellFormed, Avl.Insert, Avl.PathIds, Avl.PathSeq, Avl.NewIds, Avl.InsertReads, Avl.InsertWrites;
      hide Avl.Height, Avl.IdsOnce, Avl.Sorted, Avl.Balanced, Avl.Ids, ImageOf;
      FromNothing(Avl.PathIds(tree, node.key), Avl.NewIds(tree, node.id, node.key));
      Avl.WellFormedParts(tree, node.id);
      Avl.TouchedCount(tree, node.id, node.key);
      OdsStart(Avl.PathIds(tree, node.key) + {node.id});
      ans := InternalInsert(node, rootId, junk, tree);
    }

    /** Insert in the cache and finalize: the ORAM's contents now spell the tree after insertion. */
    method InsertSettled(node: TreeNode, padVal: nat, junk: Cell) returns (ans: TreeNode, ghost lru: seq<nat>)
      requires cache.Valid() && rootId == Avl.RootId(tree) && readCount == 0 && writeCount == 0
      requires Spells(Seen(oram.memory, map[]), tree) && Avl.WellFormed(tree, node.id)
      requires Avl.Height(tree) + 1 <= cache.maxSize && 0 in oram.memory && node.id in oram.memory
      requires node == FreshNode(node.id, node.key, node.value)
      requires Avl.ForeseenReads(tree, node.key) <= padVal && Avl.ForeseenWrites(tree, node.key) <= padVal
      modifies this`readCount, this`writeCount, this`touchable, oram, cache
      ensures cache.Valid() && readCount == 0 && writeCount == 0 && oram.memory.Keys == old(oram.memory).Keys
      ensures var t' := Avl.Insert(tree, node.id, node.key, node.value);
        Spells(Seen(oram.memory, map[]), t') && ans == ImageOf(t')
      ensures |Avl.PathSeq(tree, node.key)| == Avl.SearchReads(tree, node.key)
      ensures oram.log == old(oram.log)
        + InsertAccesses(Avl.PathSeq(tree, node.key), lru, Avl.MendReads(Avl.Foreseen(tree, node.key)),
                         Avl.MendWrites(Avl.Foreseen(tree, node.key)), padVal)
      ensures WritesEachOnce(lru, Avl.PathSeq(tree, node.key), if node.key in Avl.Content(tree) then {} else {node.id})
    {
      hide Roomy, Seen, Settled, FinalAccesses, InsertAccesses, WritesEachOnce, Spells, ChangedOnly, Pads, ReadsOf;
      hide WritesOf, ImageOf, OdsCache.Matching, OdsCache.NoDup, Avl.Balanced, Avl.Sorted, Avl.IdsOnce, Avl.Ids;
      hide Avl.Size, Avl.Height, Avl.WellFormed, Avl.Insert, Avl.Content, Avl.PathIds, Avl.PathSeq, Avl.NewIds;
      hide Avl.InsertReads, Avl.InsertWrites, Avl.SearchReads, Avl.MendReads, Avl.MendWrites, Avl.Foreseen;
      ghost var id, key := node.id, node.key;
      Avl.WellFormedParts(tree, id);
      PathLoaded(oram.memory, tree, key);
      Avl.InsertWellFormed(tree, id, key, node.value);
      Avl.CostIsForeseen(tree, id, key, node.value);
      ghost var t' := Avl.Insert(tree, id, key, node.value);
      ans := InsertCached(node, junk);
      ghost var seen, fetched := View(), oram.log;
      lru := cache.lruTable;
      EachOnce(lru, cache.cacheItems, tree, id, key);
      var status := OdsFinalize(padVal, junk);
      Avl.WellFormedParts(t', id + 1);
      SettledSpells(oram.memory, seen, t');
      InsertLog(old(oram.log), fetched, oram.log, tree, key, lru, padVal);
    }

    /**
     Insert a pair under the next node id. A key that is already present keeps its first value. The ORAM sees the
     search path read from the root down, and each node of it, with the new one, written back once in the order `lru`.
     */
    method Insert(key: nat, value: string, padVal: nat, junk: Cell) returns (ans: TreeNode, ghost lru: seq<nat>)
      requires Valid() && 0 in oram.memory && nodeCount in oram.memory && Avl.Height(tree) + 1 <= cache.maxSize
      requires padVal >= Avl.SearchReads(tree, key) + Avl.MendReads(Avl.Foreseen(tree, key))
      modifies this`rootId, this`nodeCount, this`readCount, this`writeCount, this`tree, this`touchable, oram, cache
      ensures Valid() && nodeCount == old(nodeCount) + 1 && oram.memory.Keys == old(oram.memory).Keys
      ensures tree == Avl.Insert(old(tree), old(nodeCount), key, value)
      ensures Avl.Content(tree) == Avl.FirstWins(Avl.Content(old(tree)), key, value)
      ensures ans == ImageOf(tree)
      ensures |Avl.PathSeq(old(tree), key)| == Avl.SearchReads(old(tree), key)
      ensures Avl.MendWrites(Avl.Foreseen(old(tree), key)) <= Avl.MendReads(Avl.Foreseen(old(tree), key))
      ensures oram.log == old(oram.log)
        + InsertAccesses(Avl.PathSeq(old(tree), key), lru, Avl.MendReads(Avl.Foreseen(old(tree), key)),
                         Avl.MendWrites(Avl.Foreseen(old(tree), key)), padVal)
      ensures WritesEachOnce(lru, Avl.PathSeq(old(tree), key),
                             if key in Avl.Content(old(tree)) then {} else {old(nodeCount)})
    {
      hide Seen, InsertAccesses, WritesEachOnce, Spells, ImageOf, OdsCache.Matching, Avl.WellFormed, Avl.Insert;
      hide Avl.Content, Avl.FirstWins, Avl.PathSeq, Avl.SearchReads, Avl.MendReads, Avl.MendWrites, Avl.Foreseen;
      hide Avl.InsertReads, Avl.InsertWrites, Avl.Height;
      Avl.WellFormedParts(tree, nodeCount);
      Avl.InsertWellFormed(tree, nodeCount, key, value);
      Avl.CostIsForeseen(tree, nodeCount, key, value);
      Avl.MendCosts(Avl.Foreseen(tree, key));
      var node := FreshNode(nodeCount, key, value);
      nodeCount := nodeCount + 1;
      ans, lru := InsertSettled(node, padVal, junk);
      tree := Avl.Insert(tree, node.id, key, value);
      rootId := ans.id;
    }
  }

  /** One level of an insertion, unfolded. */
  lemma InsertLevel(t: Avl.Tree, id: nat, key: nat, value: string)
    requires t.Node? && Avl.Sorted(t) && Avl.Balanced(t) && Avl.IdsOnce(t)
    ensures var p := Avl.Placed(t, id, key, value);
      && Avl.Insert(t, id, key, value) == Avl.Rebalanced(p)
      && Avl.InsertReads(t, id, key, value) == 1 + Avl.ReadsBelow(t, id, key, value) + Avl.BalanceReads(p)
      && Avl.InsertWrites(t, id, key, value) == 1 + Avl.WritesBelow(t, id, key, value) + Avl.BalanceWrites(p)
    ensures t.id in Avl.PathIds(t, key) && t.id in Avl.Ids(t)
    ensures t.key < key ==> Beneath(t, t.right, key)
    ensures key < t.key ==> Beneath(t, t.left, key)
    ensures key == t.key ==> Avl.PathIds(t, key) == {t.id}
  {
    if key < t.key {
      Avl.PathIsShort(t.left, key);
    } else if t.key < key {
      Avl.PathIsShort(t.right, key);
    }
  }

  /** What a search for the key passes on from a node to the subtree it enters. */
  ghost predicate Beneath(t: Avl.Tree, child: Avl.Tree, key: nat)
    requires t.Node?
  {
    && Avl.Sorted(child) && Avl.Balanced(child) && Avl.IdsOnce(child) && Avl.Ids(child) <= Avl.Ids(t)
    && Avl.PathIds(t, key) == {t.id} + Avl.PathIds(child, key) && t.id !in Avl.PathIds(child, key)
  }

  /** What rebalancing is and costs, tilt by tilt. */
  lemma BalanceCases(t: Avl.Tree)
    requires t.Node?
    ensures Avl.BalanceIds(t) <= Avl.Ids(t)
    ensures match Avl.TiltOf(t)
      case Even => Avl.Rebalanced(t) == t && Avl.BalanceReads(t) == Avl.BalanceWrites(t) == 0 && Avl.BalanceIds(t) == {}
      case LL =>
        && Avl.Rebalanced(t) == Avl.RotateRight(t) && Avl.BalanceIds(t) == {t.id, t.left.id}
        && Avl.BalanceReads(t) == 3 && Avl.BalanceWrites(t) == 2
      case LR =>
        && Avl.Rebalanced(t) == Avl.RotateRight(t.(left := Avl.RotateLeft(t.left)))
        && Avl.BalanceIds(t) == {t.id, t.left.id, t.left.right.id}
        && Avl.BalanceReads(t) == 6 && Avl.BalanceWrites(t) == 5
      case RR =>
        && Avl.Rebalanced(t) == Avl.RotateLeft(t) && Avl.BalanceIds(t) == {t.id, t.right.id}
        && Avl.BalanceReads(t) == 3 && Avl.BalanceWrites(t) == 2
      case RL =>
        && Avl.Rebalanced(t) == Avl.RotateLeft(t.(right := Avl.RotateRight(t.right)))
        && Avl.BalanceIds(t) == {t.id, t.right.id, t.right.left.id}
        && Avl.BalanceReads(t) == 6 && Avl.BalanceWrites(t) == 5
  {
    Avl.BalanceIdsWithin(t);
  }

  lemma NullRootIsLeaf(t: Avl.Tree)
    requires Avl.IdsOnce(t)
    ensures Avl.RootId(t) == INVALID_MASK <==> t.Leaf?
  {
  }

  lemma InsertAtLeaf(id: nat, key: nat, value: string)
    ensures Avl.Insert(Avl.Leaf, id, key, value) == Avl.Node(id, key, value, Avl.Leaf, Avl.Leaf)
    ensures Avl.InsertReads(Avl.Leaf, id, key, value) == 0 == Avl.InsertWrites(Avl.Leaf, id, key, value)
    ensures Avl.PathIds(Avl.Leaf, key) == {} && Avl.NewIds(Avl.Leaf, id, key) == {id}
  {
  }
}
