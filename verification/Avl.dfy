/**
 The tree behind the oblivious dictionary, as a value: an AVL tree whose nodes carry ids. `OdictController` edits the
 id-linked store so that it always spells out such a tree.
 */
module Avl {
  import opened OramDefs

  datatype Tree = Leaf | Node(id: nat, key: nat, value: string, left: Tree, right: Tree)

  function Height(t: Tree): nat {
    match t
    case Leaf => 0
    case Node(_, _, _, l, r) => 1 + if Height(l) >= Height(r) then Height(l) else Height(r)
  }

  function Size(t: Tree): nat {
    match t
    case Leaf => 0
    case Node(_, _, _, l, r) => 1 + Size(l) + Size(r)
  }

  function RootId(t: Tree): nat {
    if t.Leaf? then 0 else t.id
  }

  function Keys(t: Tree): set<nat> {
    match t
    case Leaf => {}
    case Node(_, k, _, l, r) => {k} + Keys(l) + Keys(r)
  }

  function Ids(t: Tree): set<nat> {
    match t
    case Leaf => {}
    case Node(id, _, _, l, r) => {id} + Ids(l) + Ids(r)
  }

  /** At every node the subtree heights differ by at most one. */
  predicate Balanced(t: Tree) {
    match t
    case Leaf => true
    case Node(_, _, _, l, r) => Balanced(l) && Balanced(r) && Height(l) <= Height(r) + 1 && Height(r) <= Height(l) + 1
  }

  /** Keys are in search order. */
  ghost predicate Sorted(t: Tree) {
    match t
    case Leaf => true
    case Node(_, key, _, l, r) =>
      Sorted(l) && Sorted(r) && (forall k :: k in Keys(l) ==> k < key) && (forall k :: k in Keys(r) ==> key < k)
  }

  /** Each id is reached once, and none is the null id. */
  ghost predicate IdsOnce(t: Tree) {
    match t
    case Leaf => true
    case Node(id, _, _, l, r) =>
      id != 0 && id !in Ids(l) && id !in Ids(r) && Ids(l) !! Ids(r) && IdsOnce(l) && IdsOnce(r)
  }

  /** The key-value pairs of the tree, whatever their order. */
  function Content(t: Tree): map<nat, string> {
    match t
    case Leaf => map[]
    case Node(_, k, v, l, r) => (Content(l) + Content(r))[k := v]
  }

  // ----- rotations and balancing ------------------------------------------------------------------

  function RotateRight(t: Tree): Tree
    requires t.Node? && t.left.Node?
  {
    t.left.(right := t.(left := t.left.right))
  }

  function RotateLeft(t: Tree): Tree
    requires t.Node? && t.right.Node?
  {
    t.right.(left := t.(right := t.right.left))
  }

  datatype Tilt = Even | LL | LR | RR | RL

  function TiltOf(t: Tree): (r: Tilt)
    requires t.Node?
    ensures r.LL? || r.LR? ==> t.left.Node?
    ensures r.RR? || r.RL? ==> t.right.Node?
    ensures r.LR? ==> t.left.right.Node?
    ensures r.RL? ==> t.right.left.Node?
  {
    if Height(t.left) > Height(t.right) + 1 then
      if Height(t.left.left) >= Height(t.left.right) then LL else LR
    else if Height(t.right) > Height(t.left) + 1 then
      if Height(t.right.right) >= Height(t.right.left) then RR else RL
    else Even
  }

  function Rebalanced(t: Tree): Tree
    requires t.Node?
  {
    match TiltOf(t)
    case Even => t
    case LL => RotateRight(t)
    case LR => RotateRight(t.(left := RotateLeft(t.left)))
    case RR => RotateLeft(t)
    case RL => RotateLeft(t.(right := RotateRight(t.right)))
  }

  // ----- insertion --------------------------------------------------------------------------------

  /** The tree with the new node placed below, before this node is rebalanced. */
  function Placed(t: Tree, id: nat, key: nat, value: string): (r: Tree)
    requires t.Node?
    ensures r.Node? && r.id == t.id
    decreases t, 0
  {
    if t.key < key then t.(right := Insert(t.right, id, key, value))
    else if key < t.key then t.(left := Insert(t.left, id, key, value))
    else t
  }

  function Insert(t: Tree, id: nat, key: nat, value: string): (r: Tree)
    ensures r.Node?
    decreases t, 1
  {
    if t.Leaf? then Node(id, key, value, Leaf, Leaf) else Rebalanced(Placed(t, id, key, value))
  }

  /** A node whose left subtree has just outgrown the right by two, on one clear side, is mended by one rebalancing. */
  lemma MendLeft(t: Tree)
    requires t.Node? && Balanced(t.left) && Balanced(t.right)
    requires Height(t.left) == Height(t.right) + 2 && Height(t.left.left) != Height(t.left.right)
    ensures Balanced(Rebalanced(t)) && Height(Rebalanced(t)) == Height(t) - 1
  {
  }

  lemma MendRight(t: Tree)
    requires t.Node? && Balanced(t.left) && Balanced(t.right)
    requires Height(t.right) == Height(t.left) + 2 && Height(t.right.left) != Height(t.right.right)
    ensures Balanced(Rebalanced(t)) && Height(Rebalanced(t)) == Height(t) - 1
  {
  }

  lemma MendLeftTie(t: Tree)
    requires t.Node? && Balanced(t.left) && Balanced(t.right)
    requires Height(t.left) == Height(t.right) + 2 && Height(t.left.left) == Height(t.left.right)
    ensures Balanced(Rebalanced(t)) && Height(Rebalanced(t)) == Height(t)
  {
    assert TiltOf(t) == LL;
    assert Rebalanced(t).right == t.(left := t.left.right);
  }

  lemma MendRightTie(t: Tree)
    requires t.Node? && Balanced(t.left) && Balanced(t.right)
    requires Height(t.right) == Height(t.left) + 2 && Height(t.right.left) == Height(t.right.right)
    ensures Balanced(Rebalanced(t)) && Height(Rebalanced(t)) == Height(t)
  {
    assert TiltOf(t) == RR;
    assert Rebalanced(t).left == t.(right := t.right.left);
  }

  lemma NoLean(t: Tree)
    requires t.Node? && Height(t.left) <= Height(t.right) + 1 && Height(t.right) <= Height(t.left) + 1
    ensures Rebalanced(t) == t
  {
  }

  /**
   Rebalancing mends any lean of two, ties included: a taller child whose own subtrees are equally high is rotated
   once, because rotating it twice could leave one of its subtrees two levels short.
   */
  lemma RebalancedIsBalanced(t: Tree)
    requires t.Node? && Balanced(t.left) && Balanced(t.right)
    requires Height(t.left) <= Height(t.right) + 2 && Height(t.right) <= Height(t.left) + 2
    ensures Balanced(Rebalanced(t)) && Height(t) - 1 <= Height(Rebalanced(t)) <= Height(t)
  {
    hide Rebalanced, TiltOf;
    if Height(t.left) == Height(t.right) + 2 {
      if Height(t.left.left) == Height(t.left.right) { MendLeftTie(t); } else { MendLeft(t); }
    } else if Height(t.right) == Height(t.left) + 2 {
      if Height(t.right.left) == Height(t.right.right) { MendRightTie(t); } else { MendRight(t); }
    } else {
      NoLean(t);
    }
  }

  /** How a subtree may have grown: a fresh leaf node, or the same root leaning strictly towards a grown child. */
  ghost predicate Grown(t: Tree, t': Tree, id: nat, key: nat, value: string) {
    && t'.Node? && Height(t') == Height(t) + 1
    && if t.Leaf? then t' == Node(id, key, value, Leaf, Leaf)
       else
         && t'.id == t.id && key != t.key
         && (key < t.key ==> t' == t.(left := Insert(t.left, id, key, value))
                             && Height(t'.left) == Height(t.left) + 1 && Height(t'.left) > Height(t'.right))
         && (t.key < key ==> t' == t.(right := Insert(t.right, id, key, value))
                             && Height(t'.right) == Height(t.right) + 1 && Height(t'.right) > Height(t'.left))
  }

  /** Insertion keeps balance, and the height stays or grows by one in a controlled way. */
  lemma {:induction false} InsertBalanced(t: Tree, id: nat, key: nat, value: string)
    requires Balanced(t)
    ensures var t' := Insert(t, id, key, value);
      Balanced(t') && (Height(t') == Height(t) || Grown(t, t', id, key, value))
  {
    if t.Node? && key != t.key {
      var p := Placed(t, id, key, value);
      if key < t.key {
        InsertBalanced(t.left, id, key, value);
        if Height(p.left) == Height(p.right) + 2 {
          MendLeft(p);
        }
      } else {
        InsertBalanced(t.right, id, key, value);
        if Height(p.right) == Height(p.left) + 2 {
          MendRight(p);
        }
      }
    }
  }

  lemma {:induction false} ContentKeys(t: Tree)
    ensures Content(t).Keys == Keys(t)
  {
    if t.Node? {
      ContentKeys(t.left);
      ContentKeys(t.right);
    }
  }

  lemma RotateMaps(a: map<nat, string>, b: map<nat, string>, c: map<nat, string>, x: nat, vx: string, y: nat,
                   vy: string)
    requires x != y && x !in c
    ensures ((a + b)[x := vx] + c)[y := vy] == (a + (b + c)[y := vy])[x := vx]
  {
  }

  lemma RotateRightSorted(t: Tree)
    requires t.Node? && t.left.Node? && Sorted(t)
    ensures Sorted(RotateRight(t)) && Keys(RotateRight(t)) == Keys(t)
    ensures t.left.key != t.key && t.left.key !in Keys(t.right)
  {
    assert t.left.key in Keys(t.left);
  }

  lemma RotateLeftSorted(t: Tree)
    requires t.Node? && t.right.Node? && Sorted(t)
    ensures Sorted(RotateLeft(t)) && Keys(RotateLeft(t)) == Keys(t)
    ensures t.right.key != t.key && t.key !in Keys(t.right.right)
  {
    assert t.right.key in Keys(t.right);
  }

  lemma RotateRightKeepsOrder(t: Tree)
    requires t.Node? && t.left.Node? && Sorted(t)
    ensures var r := RotateRight(t); Sorted(r) && Keys(r) == Keys(t) && Content(r) == Content(t)
  {
    RotateRightSorted(t);
    hide Sorted, Keys;
    ContentKeys(t.right);
    RotateMaps(Content(t.left.left), Content(t.left.right), Content(t.right), t.left.key, t.left.value, t.key, t.value);
  }

  lemma RotateLeftKeepsOrder(t: Tree)
    requires t.Node? && t.right.Node? && Sorted(t)
    ensures var r := RotateLeft(t); Sorted(r) && Keys(r) == Keys(t) && Content(r) == Content(t)
  {
    RotateLeftSorted(t);
    hide Sorted, Keys;
    ContentKeys(t.right.right);
    RotateMaps(Content(t.left), Content(t.right.left), Content(t.right.right), t.key, t.value, t.right.key,
               t.right.value);
  }

  lemma {:induction false} NoNullId(t: Tree)
    requires IdsOnce(t)
    ensures 0 !in Ids(t)
  {
    if t.Node? {
      NoNullId(t.left);
      NoNullId(t.right);
    }
  }

  lemma RotationsKeepIds(t: Tree)
    requires t.Node? && IdsOnce(t)
    ensures t.left.Node? ==> var r := RotateRight(t); IdsOnce(r) && Ids(r) == Ids(t)
    ensures t.right.Node? ==> var r := RotateLeft(t); IdsOnce(r) && Ids(r) == Ids(t)
  {
  }

  lemma InnerLeftIds(t: Tree)
    requires t.Node? && t.left.Node? && t.left.right.Node? && IdsOnce(t)
    ensures IdsOnce(t.left) && IdsOnce(t.(left := RotateLeft(t.left)))
    ensures {t.left.id, t.left.right.id} !! Ids(t.right)
    ensures t.id !in {t.left.id, t.left.right.id} && t.id !in Ids(RotateLeft(t.left))
  {
    RotationsKeepIds(t.left);
  }

  lemma InnerRightIds(t: Tree)
    requires t.Node? && t.right.Node? && t.right.left.Node? && IdsOnce(t)
    ensures IdsOnce(t.right) && IdsOnce(t.(right := RotateRight(t.right)))
    ensures {t.right.id, t.right.left.id} !! Ids(t.left)
    ensures t.id !in {t.right.id, t.right.left.id} && t.id !in Ids(RotateRight(t.right))
  {
    RotationsKeepIds(t.right);
  }

  lemma RebalanceKeepsOrder(t: Tree)
    requires t.Node? && Sorted(t)
    ensures var r := Rebalanced(t); Sorted(r) && Keys(r) == Keys(t) && Content(r) == Content(t)
  {
    match TiltOf(t)
    case Even =>
    case LL => RotateRightKeepsOrder(t);
    case LR =>
      RotateLeftKeepsOrder(t.left);
      RotateRightKeepsOrder(t.(left := RotateLeft(t.left)));
    case RR => RotateLeftKeepsOrder(t);
    case RL =>
      RotateRightKeepsOrder(t.right);
      RotateLeftKeepsOrder(t.(right := RotateRight(t.right)));
  }

  lemma RebalanceKeepsIds(t: Tree)
    requires t.Node? && IdsOnce(t)
    ensures IdsOnce(Rebalanced(t)) && Ids(Rebalanced(t)) == Ids(t)
  {
    match TiltOf(t)
    case Even =>
    case LL => RotationsKeepIds(t);
    case LR =>
      RotationsKeepIds(t.left);
      RotationsKeepIds(t.(left := RotateLeft(t.left)));
    case RR => RotationsKeepIds(t);
    case RL =>
      RotationsKeepIds(t.right);
      RotationsKeepIds(t.(right := RotateRight(t.right)));
  }

  /** What insertion does to a map: the first insertion of a key wins. */
  function FirstWins(m: map<nat, string>, key: nat, value: string): map<nat, string> {
    if key in m then m else m[key := value]
  }

  lemma PlaceMaps(l: map<nat, string>, r: map<nat, string>, k: nat, v: string, key: nat, value: string)
    requires key != k
    ensures key !in r ==> (FirstWins(l, key, value) + r)[k := v] == FirstWins((l + r)[k := v], key, value)
    ensures key !in l ==> (l + FirstWins(r, key, value))[k := v] == FirstWins((l + r)[k := v], key, value)
  {
  }

  lemma PlacedContent(t: Tree, id: nat, key: nat, value: string)
    requires t.Node? && Sorted(t)
    requires key < t.key ==> Content(Insert(t.left, id, key, value)) == FirstWins(Content(t.left), key, value)
    requires t.key < key ==> Content(Insert(t.right, id, key, value)) == FirstWins(Content(t.right), key, value)
    ensures Content(Placed(t, id, key, value)) == FirstWins(Content(t), key, value)
  {
    hide Insert;
    ContentKeys(t.left);
    ContentKeys(t.right);
    if key != t.key {
      PlaceMaps(Content(t.left), Content(t.right), t.key, t.value, key, value);
    }
  }

  lemma LeafContent(id: nat, key: nat, value: string)
    ensures Content(Node(id, key, value, Leaf, Leaf)) == FirstWins(Content(Leaf), key, value)
  {
    assert Content(Leaf) + Content(Leaf) == map[];
  }

  /** Insertion keeps the search order and acts on the content as `FirstWins`. */
  lemma {:induction false} InsertContent(t: Tree, id: nat, key: nat, value: string)
    requires Sorted(t)
    ensures var t' := Insert(t, id, key, value);
      Sorted(t') && Keys(t') == Keys(t) + {key} && Content(t') == FirstWins(Content(t), key, value)
  {
    hide Rebalanced, Content, FirstWins;
    if t.Leaf? {
      LeafContent(id, key, value);
    } else {
      if key != t.key {
        InsertContent(if key < t.key then t.left else t.right, id, key, value);
      }
      PlacedContent(t, id, key, value);
      RebalanceKeepsOrder(Placed(t, id, key, value));
    }
  }

  /** Insertion keeps ids unique, and adds the new id exactly when the key is new. */
  lemma {:induction false} InsertIds(t: Tree, id: nat, key: nat, value: string)
    requires IdsOnce(t) && Sorted(t) && id != 0 && id !in Ids(t)
    ensures var t' := Insert(t, id, key, value);
      IdsOnce(t') && Ids(t') == if key in Keys(t) then Ids(t) else Ids(t) + {id}
  {
    if t.Node? {
      var p := Placed(t, id, key, value);
      if key < t.key {
        InsertIds(t.left, id, key, value);
      } else if t.key < key {
        InsertIds(t.right, id, key, value);
      }
      RebalanceKeepsIds(p);
    }
  }

  // ----- search -----------------------------------------------------------------------------------

  /** The subtree whose root holds the key, or a leaf. */
  function Search(t: Tree, key: nat): Tree {
    if t.Leaf? || t.key == key then t
    else if t.key < key then Search(t.right, key)
    else Search(t.left, key)
  }

  /** Searching finds exactly what the content says. */
  lemma {:induction false} SearchIsLookup(t: Tree, key: nat)
    requires Sorted(t)
    ensures Search(t, key).Node? <==> key in Content(t)
    ensures key in Content(t) ==> Search(t, key).key == key && Search(t, key).value == Content(t)[key]
  {
    ContentKeys(t);
    if t.Node? && t.key != key {
      ContentKeys(t.left);
      ContentKeys(t.right);
      SearchIsLookup(t.left, key);
      SearchIsLookup(t.right, key);
    }
  }

  // ----- cost -------------------------------------------------------------------------------------

  /** Ids on the search path of a key. */
  function PathIds(t: Tree, key: nat): set<nat> {
    if t.Leaf? then {}
    else {t.id} + if t.key < key then PathIds(t.right, key) else if key < t.key then PathIds(t.left, key) else {}
  }

  /** The same ids in the order they are met. */
  function PathSeq(t: Tree, key: nat): seq<nat> {
    if t.Leaf? then []
    else [t.id] + if t.key < key then PathSeq(t.right, key) else if key < t.key then PathSeq(t.left, key) else []
  }

  /** One step of a search path. */
  lemma PathBelow(t: Tree, key: nat)
    requires t.Node? && IdsOnce(t)
    ensures var child := if t.key < key then t.right else t.left;
      && IdsOnce(child) && t.id !in PathIds(child, key)
      && (key != t.key ==> PathIds(t, key) == {t.id} + PathIds(child, key))
      && (key == t.key ==> PathIds(t, key) == {t.id})
  {
    PathIsShort(t.left, key);
    PathIsShort(t.right, key);
  }

  lemma {:induction false} PathSeqOnce(t: Tree, key: nat)
    requires IdsOnce(t)
    ensures |PathSeq(t, key)| == SearchReads(t, key) == |PathIds(t, key)|
    ensures forall id :: id in PathSeq(t, key) <==> id in PathIds(t, key)
  {
    hide IdsOnce, PathIds;
    NoPath(key);
    if t.Node? {
      PathBelow(t, key);
      var child := if t.key < key then t.right else t.left;
      PathSeqOnce(child, key);
    }
  }

  lemma NoPath(key: nat)
    ensures PathIds(Leaf, key) == {}
  {
  }

  /** The ids an insertion adds: the new one, unless the key is present. */
  function NewIds(t: Tree, id: nat, key: nat): set<nat> {
    if key in Keys(t) then {} else {id}
  }

  /** Ids that rebalancing at the root of t reads or writes. */
  function BalanceIds(t: Tree): set<nat>
    requires t.Node?
  {
    match TiltOf(t)
    case Even => {}
    case LL => {t.id, t.left.id}
    case LR => {t.id, t.left.id, t.left.right.id}
    case RR => {t.id, t.right.id}
    case RL => {t.id, t.right.id, t.right.left.id}
  }

  lemma BalanceIdsWithin(t: Tree)
    requires t.Node?
    ensures BalanceIds(t) <= Ids(t)
  {
  }

  /** Counted reads of `Balance`: one to inspect the taller child, two per rotation, one more for a double rotation. */
  function MendReads(tilt: Tilt): nat {
    match tilt case Even => 0 case LL => 3 case RR => 3 case LR => 6 case RL => 6
  }

  function MendWrites(tilt: Tilt): nat {
    match tilt case Even => 0 case LL => 2 case RR => 2 case LR => 5 case RL => 5
  }

  lemma MendCosts(tilt: Tilt)
    ensures MendWrites(tilt) <= MendReads(tilt)
  {
  }

  function BalanceReads(t: Tree): nat
    requires t.Node?
  {
    MendReads(TiltOf(t))
  }

  function BalanceWrites(t: Tree): nat
    requires t.Node?
  {
    MendWrites(TiltOf(t))
  }

  function InsertReads(t: Tree, id: nat, key: nat, value: string): nat
    decreases t, 1
  {
    if t.Leaf? then 0 else 1 + ReadsBelow(t, id, key, value) + BalanceReads(Placed(t, id, key, value))
  }

  /** The reads made in the subtree that the key belongs to. */
  function ReadsBelow(t: Tree, id: nat, key: nat, value: string): nat
    requires t.Node?
    decreases t, 0
  {
    if t.key < key then InsertReads(t.right, id, key, value)
    else if key < t.key then InsertReads(t.left, id, key, value) else 0
  }

  function InsertWrites(t: Tree, id: nat, key: nat, value: string): nat
    decreases t, 1
  {
    if t.Leaf? then 0 else 1 + WritesBelow(t, id, key, value) + BalanceWrites(Placed(t, id, key, value))
  }

  function WritesBelow(t: Tree, id: nat, key: nat, value: string): nat
    requires t.Node?
    decreases t, 0
  {
    if t.key < key then InsertWrites(t.right, id, key, value)
    else if key < t.key then InsertWrites(t.left, id, key, value) else 0
  }

  /** How many nodes are rebalanced during an insertion. */
  function Rebalances(t: Tree, id: nat, key: nat, value: string): nat {
    if t.Leaf? then 0 else
    var below := if t.key < key then Rebalances(t.right, id, key, value)
                 else if key < t.key then Rebalances(t.left, id, key, value) else 0;
    below + if TiltOf(Placed(t, id, key, value)).Even? then 0 else 1
  }

  function SearchReads(t: Tree, key: nat): nat {
    if t.Leaf? then 0
    else 1 + if t.key < key then SearchReads(t.right, key) else if key < t.key then SearchReads(t.left, key) else 0
  }

  /** An insertion rebalances at most once, because a rebalanced subtree has its old height again. */
  lemma {:induction false} RebalancesAtMostOnce(t: Tree, id: nat, key: nat, value: string)
    requires Balanced(t)
    ensures Rebalances(t, id, key, value) <= 1
    ensures Rebalances(t, id, key, value) == 1 ==> Height(Insert(t, id, key, value)) == Height(t)
  {
    if t.Node? && key != t.key {
      var p := Placed(t, id, key, value);
      InsertBalanced(t.left, id, key, value);
      InsertBalanced(t.right, id, key, value);
      if key < t.key {
        RebalancesAtMostOnce(t.left, id, key, value);
        if Height(p.left) == Height(p.right) + 2 {
          MendLeft(p);
        }
      } else {
        RebalancesAtMostOnce(t.right, id, key, value);
        if Height(p.right) == Height(p.left) + 2 {
          MendRight(p);
        }
      }
    }
  }

  lemma {:induction false} CostByRebalances(t: Tree, id: nat, key: nat, value: string)
    ensures InsertReads(t, id, key, value) <= Height(t) + 6 * Rebalances(t, id, key, value)
    ensures InsertWrites(t, id, key, value) <= Height(t) + 5 * Rebalances(t, id, key, value)
  {
    if t.Node? {
      if key < t.key {
        CostByRebalances(t.left, id, key, value);
      } else if t.key < key {
        CostByRebalances(t.right, id, key, value);
      }
    }
  }

  /** Counted accesses of one insertion into a tree of height h: at most h+6 reads and h+5 writes. */
  lemma InsertCost(t: Tree, id: nat, key: nat, value: string)
    requires Balanced(t)
    ensures InsertReads(t, id, key, value) <= Height(t) + 6
    ensures InsertWrites(t, id, key, value) <= Height(t) + 5
  {
    RebalancesAtMostOnce(t, id, key, value);
    CostByRebalances(t, id, key, value);
  }

  /** The one tilt an insertion mends, if any. */
  function TiltMet(t: Tree, id: nat, key: nat, value: string): Tilt {
    if t.Leaf? then Even else
    var here := TiltOf(Placed(t, id, key, value));
    if !here.Even? then here
    else if t.key < key then TiltMet(t.right, id, key, value)
    else if key < t.key then TiltMet(t.left, id, key, value) else Even
  }

  /** Exact cost: the search path once, plus 0, 3 or 6 reads and 0, 2 or 5 writes for the tilt that was mended. */
  lemma {:induction false} InsertCostExactly(t: Tree, id: nat, key: nat, value: string)
    requires Balanced(t)
    ensures var tilt := TiltMet(t, id, key, value);
      && InsertReads(t, id, key, value) == SearchReads(t, key) + MendReads(tilt)
      && InsertWrites(t, id, key, value) == SearchReads(t, key) + MendWrites(tilt)
      && (Rebalances(t, id, key, value) == 0 <==> tilt == Even)
  {
    if t.Node? {
      RebalancesAtMostOnce(t, id, key, value);
      if key < t.key {
        InsertCostExactly(t.left, id, key, value);
      } else if t.key < key {
        InsertCostExactly(t.right, id, key, value);
      }
    }
  }

  // ----- the cost of an insertion, told from the tree before it -----------------------------------

  /** Inserting the key makes the tree higher: the key is new and no node on its search path leans either way. */
  predicate Grows(t: Tree, key: nat) {
    t.Leaf? || (key != t.key && Height(t.left) == Height(t.right)
                && Grows(if key < t.key then t.left else t.right, key))
  }

  lemma {:induction false} GrowsExactly(t: Tree, id: nat, key: nat, value: string)
    requires Balanced(t)
    ensures Height(Insert(t, id, key, value)) == Height(t) + if Grows(t, key) then 1 else 0
  {
    if t.Node? && key != t.key {
      var p := Placed(t, id, key, value);
      if key < t.key {
        GrowsExactly(t.left, id, key, value);
        InsertBalanced(t.left, id, key, value);
        if Height(p.left) == Height(p.right) + 2 {
          MendLeft(p);
        }
      } else {
        GrowsExactly(t.right, id, key, value);
        InsertBalanced(t.right, id, key, value);
        if Height(p.right) == Height(p.left) + 2 {
          MendRight(p);
        }
      }
    }
  }

  /** The rebalancing an insertion of the key will need: at the node that leans towards a child which grows. */
  function Foreseen(t: Tree, key: nat): Tilt {
    if t.Leaf? || key == t.key then Even
    else if key < t.key then
      if Height(t.left) == Height(t.right) + 1 && Grows(t.left, key) then if key < t.left.key then LL else LR
      else Foreseen(t.left, key)
    else
      if Height(t.right) == Height(t.left) + 1 && Grows(t.right, key) then if t.right.key < key then RR else RL
      else Foreseen(t.right, key)
  }

  lemma {:induction false} ForeseenIsMet(t: Tree, id: nat, key: nat, value: string)
    requires Balanced(t)
    ensures TiltMet(t, id, key, value) == Foreseen(t, key)
  {
    if t.Node? && key != t.key {
      if key < t.key {
        ForeseenIsMet(t.left, id, key, value);
        GrowsExactly(t.left, id, key, value);
        InsertBalanced(t.left, id, key, value);
      } else {
        ForeseenIsMet(t.right, id, key, value);
        GrowsExactly(t.right, id, key, value);
        InsertBalanced(t.right, id, key, value);
      }
    }
  }

  /** The counted reads an insertion will make; they are never fewer than its counted writes. */
  function ForeseenReads(t: Tree, key: nat): nat {
    SearchReads(t, key) + MendReads(Foreseen(t, key))
  }

  function ForeseenWrites(t: Tree, key: nat): nat {
    SearchReads(t, key) + MendWrites(Foreseen(t, key))
  }

  lemma CostIsForeseen(t: Tree, id: nat, key: nat, value: string)
    requires Balanced(t)
    ensures InsertReads(t, id, key, value) == ForeseenReads(t, key)
    ensures InsertWrites(t, id, key, value) == ForeseenWrites(t, key) <= ForeseenReads(t, key)
  {
    InsertCostExactly(t, id, key, value);
    ForeseenIsMet(t, id, key, value);
  }

  /** Exactly when a pad value covers an insertion, told from the tree and the key alone. */
  lemma PadCovers(t: Tree, id: nat, key: nat, value: string, pad: nat)
    requires Balanced(t)
    ensures InsertReads(t, id, key, value) <= pad && InsertWrites(t, id, key, value) <= pad
      <==> SearchReads(t, key) + MendReads(Foreseen(t, key)) <= pad
  {
    CostIsForeseen(t, id, key, value);
  }

  lemma {:induction false} PathIsShort(t: Tree, key: nat)
    ensures |PathIds(t, key)| <= SearchReads(t, key) <= Height(t)
    ensures PathIds(t, key) <= Ids(t)
  {
    if t.Node? {
      PathIsShort(t.left, key);
      PathIsShort(t.right, key);
      var rest := if t.key < key then PathIds(t.right, key) else if key < t.key then PathIds(t.left, key) else {};
      assert |{t.id} + rest| <= 1 + |rest|;
    }
  }

  lemma PathStep(t: Tree, key: nat)
    requires t.Node?
    ensures t.id in PathIds(t, key)
    ensures key < t.key ==> PathIds(t.left, key) <= PathIds(t, key)
    ensures t.key < key ==> PathIds(t.right, key) <= PathIds(t, key)
  {
  }

  lemma NewAtMostOne(t: Tree, id: nat, key: nat)
    ensures NewIds(t, id, key) <= {id}
  {
  }

  lemma NewBelow(t: Tree, id: nat, key: nat)
    requires Sorted(t) && t.Node?
    ensures Sorted(t.left) && Sorted(t.right)
    ensures key < t.key ==> NewIds(t, id, key) == NewIds(t.left, id, key)
    ensures t.key < key ==> NewIds(t, id, key) == NewIds(t.right, id, key)
    ensures t.key == key ==> NewIds(t, id, key) == {}
  {
    assert key < t.key ==> key !in Keys(t.right);
    assert t.key < key ==> key !in Keys(t.left);
    assert Keys(t) == {t.key} + Keys(t.left) + Keys(t.right);
  }

  lemma BalanceLeftOnPath(t: Tree, id: nat, key: nat, value: string)
    requires Balanced(t) && Sorted(t) && t.Node? && key < t.key
    ensures BalanceIds(Placed(t, id, key, value)) <= {t.id} + PathIds(t.left, key) + NewIds(t.left, id, key)
  {
    hide NewIds, Sorted, Keys, Insert, PathIds;
    NewBelow(t, id, key);
    InsertBalanced(t.left, id, key, value);
    GrownOnPath(t.left, id, key, value);
  }

  lemma BalanceRightOnPath(t: Tree, id: nat, key: nat, value: string)
    requires Balanced(t) && Sorted(t) && t.Node? && t.key < key
    ensures BalanceIds(Placed(t, id, key, value)) <= {t.id} + PathIds(t.right, key) + NewIds(t.right, id, key)
  {
    hide NewIds, Sorted, Keys, Insert, PathIds;
    NewBelow(t, id, key);
    InsertBalanced(t.right, id, key, value);
    GrownOnPath(t.right, id, key, value);
  }

  lemma EvenOnPath(t: Tree, id: nat, key: nat, value: string)
    requires Balanced(t) && t.Node?
    ensures key == t.key ==> BalanceIds(Placed(t, id, key, value)) == {}
  {
  }

  /** The nodes touched by rebalancing lie on the search path or are the new node. */
  lemma BalanceStaysOnPath(t: Tree, id: nat, key: nat, value: string)
    requires Balanced(t) && Sorted(t) && t.Node?
    ensures BalanceIds(Placed(t, id, key, value)) <= PathIds(t, key) + NewIds(t, id, key) <= PathIds(t, key) + {id}
  {
    hide BalanceIds, Placed, NewIds, PathIds, Sorted, Keys, Insert;
    EvenOnPath(t, id, key, value);
    NewAtMostOne(t, id, key);
    NewBelow(t, id, key);
    PathStep(t, key);
    if key < t.key {
      BalanceLeftOnPath(t, id, key, value);
    } else if t.key < key {
      BalanceRightOnPath(t, id, key, value);
    }
  }

  lemma {:induction false} GrownIsNew(t: Tree, key: nat)
    requires Sorted(t) && Grows(t, key)
    ensures key !in Keys(t)
  {
    if t.Node? {
      GrownIsNew(if key < t.key then t.left else t.right, key);
    }
  }

  lemma GrownOnPath(t: Tree, id: nat, key: nat, value: string)
    requires Balanced(t) && Sorted(t)
    ensures var t' := Insert(t, id, key, value);
      Grown(t, t', id, key, value) ==>
        && NewIds(t, id, key) == {id} && t'.id in PathIds(t, key) + {id}
        && (Height(t'.left) > Height(t'.right) ==> t'.left.Node? && t'.left.id in PathIds(t, key) + {id})
        && (Height(t'.right) > Height(t'.left) ==> t'.right.Node? && t'.right.id in PathIds(t, key) + {id})
  {
    GrowsExactly(t, id, key, value);
    if Grows(t, key) {
      GrownIsNew(t, key);
    }
    if t.Node? {
      InsertBalanced(t.left, id, key, value);
      InsertBalanced(t.right, id, key, value);
    }
  }

  /** An insertion touches at most h+1 distinct ids. */
  lemma TouchedCount(t: Tree, id: nat, key: nat)
    ensures |PathIds(t, key) + {id}| <= Height(t) + 1
  {
    PathIsShort(t, key);
    assert |PathIds(t, key) + {id}| <= |PathIds(t, key)| + 1;
  }

  // ----- height -----------------------------------------------------------------------------------

  function Fib(n: nat): nat {
    if n < 2 then n else Fib(n - 1) + Fib(n - 2)
  }

  lemma {:induction false} FibMonotone(m: nat, n: nat)
    requires m <= n
    ensures Fib(m) <= Fib(n)
    decreases n
  {
    if m < n {
      if n > 1 { FibMonotone(m, n - 1); }
    }
  }

  /** A balanced tree of height h has at least Fib(h+2)-1 nodes. */
  lemma {:induction false} SizeAtLeastFib(t: Tree)
    requires Balanced(t)
    ensures Size(t) + 1 >= Fib(Height(t) + 2)
  {
    if t.Node? {
      SizeAtLeastFib(t.left);
      SizeAtLeastFib(t.right);
      FibMonotone(Height(t), Height(t.left) + 2);
      FibMonotone(Height(t), Height(t.right) + 2);
    }
  }

  /** So a cache of c nodes suffices for every tree of fewer than Fib(c+2)-1 nodes. */
  lemma CacheSuffices(t: Tree, c: nat)
    requires Balanced(t) && Size(t) + 1 < Fib(c + 2)
    ensures Height(t) + 1 <= c
  {
    SizeAtLeastFib(t);
    if Height(t) >= c {
      FibMonotone(c + 2, Height(t) + 2);
    }
  }

  lemma FibFive(n: nat)
    ensures Fib(n + 5) == 3 * Fib(n) + 5 * Fib(n + 1) && Fib(n + 6) == 5 * Fib(n) + 8 * Fib(n + 1)
  {
    assert Fib(n + 3) == Fib(n + 2) + Fib(n + 1) && Fib(n + 4) == Fib(n + 3) + Fib(n + 2);
  }

  /** The default cache of 32 nodes outlasts the default dictionary size of 100000. */
  lemma DefaultCacheSuffices(t: Tree)
    requires Balanced(t) && Size(t) <= 100000
    ensures Height(t) + 1 <= 32
  {
    FibFive(0);
    FibFive(5);
    FibFive(10);
    FibFive(15);
    FibFive(20);
    assert Fib(26) == 121393;
    CacheSuffices(t, 24);
  }

  lemma RebalanceKeepsSize(t: Tree)
    requires t.Node?
    ensures Size(Rebalanced(t)) == Size(t)
  {
    match TiltOf(t)
    case Even =>
    case LL =>
    case LR => assert Size(RotateLeft(t.left)) == Size(t.left);
    case RR =>
    case RL => assert Size(RotateRight(t.right)) == Size(t.right);
  }

  lemma {:induction false} InsertSize(t: Tree, id: nat, key: nat, value: string)
    ensures Size(t) <= Size(Insert(t, id, key, value)) <= Size(t) + 1
  {
    hide Rebalanced;
    if t.Node? {
      if key < t.key {
        InsertSize(t.left, id, key, value);
      } else if t.key < key {
        InsertSize(t.right, id, key, value);
      }
      RebalanceKeepsSize(Placed(t, id, key, value));
    }
  }

  // ----- dictionaries -----------------------------------------------------------------------------

  /** A tree all of whose ids are below the next one to be handed out. */
  ghost predicate WellFormed(t: Tree, next: nat) {
    && Balanced(t) && Sorted(t) && IdsOnce(t)
    && 1 <= next && Size(t) < next && forall id :: id in Ids(t) ==> id < next
  }

  lemma EmptyWellFormed()
    ensures WellFormed(Leaf, 1)
  {
  }

  lemma WellFormedParts(t: Tree, next: nat)
    requires WellFormed(t, next)
    ensures Balanced(t) && Sorted(t) && IdsOnce(t) && next != 0 && next !in Ids(t) && Size(t) < next
  {
  }

  /** What one insertion does to a well-formed tree, all at once. */
  lemma InsertWellFormed(t: Tree, next: nat, key: nat, value: string)
    requires WellFormed(t, next)
    ensures var t' := Insert(t, next, key, value);
      WellFormed(t', next + 1) && Content(t') == FirstWins(Content(t), key, value)
  {
    InsertBalanced(t, next, key, value);
    InsertContent(t, next, key, value);
    InsertIds(t, next, key, value);
    InsertSize(t, next, key, value);
  }

  datatype DictOp = InsertOp(key: nat, value: string) | FindOp(key: nat)

  /** A run of the dictionary: the final tree and next id, and for each `FindOp` what it found. */
  function Run(t: Tree, next: nat, ops: seq<DictOp>): (Tree, nat, seq<Option<string>>)
    decreases |ops|
  {
    if ops == [] then (t, next, []) else
    match ops[0]
    case InsertOp(key, value) => Run(Insert(t, next, key, value), next + 1, ops[1..])
    case FindOp(key) =>
      var found := Search(t, key);
      var rest := Run(t, next, ops[1..]);
      (rest.0, rest.1, [if found.Leaf? then None else Some(found.value)] + rest.2)
  }

  /** The same run on a plain map in which the first insertion of a key wins. */
  function MapRun(m: map<nat, string>, ops: seq<DictOp>): (map<nat, string>, seq<Option<string>>)
    decreases |ops|
  {
    if ops == [] then (m, []) else
    match ops[0]
    case InsertOp(key, value) => MapRun(FirstWins(m, key, value), ops[1..])
    case FindOp(key) =>
      var rest := MapRun(m, ops[1..]);
      (rest.0, [if key in m then Some(m[key]) else None] + rest.1)
  }

  /** Every run of inserts and finds answers like the map, and ends in an AVL tree with unique ids. */
  lemma {:induction false} DictionaryRun(t: Tree, next: nat, ops: seq<DictOp>)
    requires WellFormed(t, next)
    ensures Run(t, next, ops).2 == MapRun(Content(t), ops).1
    ensures Content(Run(t, next, ops).0) == MapRun(Content(t), ops).0
    ensures WellFormed(Run(t, next, ops).0, Run(t, next, ops).1)
    decreases |ops|
  {
    if ops != [] {
      match ops[0]
      case InsertOp(key, value) =>
        InsertWellFormed(t, next, key, value);
        DictionaryRun(Insert(t, next, key, value), next + 1, ops[1..]);
      case FindOp(key) =>
        SearchIsLookup(t, key);
        DictionaryRun(t, next, ops[1..]);
    }
  }

  /** From the empty dictionary, a cache of c nodes has room for every operation of a run shorter than Fib(c+2)-1. */
  lemma {:induction false} RunFitsCache(ops: seq<DictOp>, c: nat)
    requires |ops| + 1 < Fib(c + 2)
    ensures Height(Run(Leaf, 1, ops).0) + 1 <= c
  {
    DictionaryRun(Leaf, 1, ops);
    NextAfterRun(Leaf, 1, ops);
    CacheSuffices(Run(Leaf, 1, ops).0, c);
  }

  lemma {:induction false} NextAfterRun(t: Tree, next: nat, ops: seq<DictOp>)
    ensures next <= Run(t, next, ops).1 <= next + |ops|
    decreases |ops|
  {
    if ops != [] {
      match ops[0]
      case InsertOp(key, value) => NextAfterRun(Insert(t, next, key, value), next + 1, ops[1..]);
      case FindOp(key) => NextAfterRun(t, next, ops[1..]);
    }
  }
}
