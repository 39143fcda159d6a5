/** The tree node of the oblivious dictionary (base/ods_objects.h). */
module OdsObjects {

  /** Node ids are ORAM block addresses; 0 is the null id (`invalid_mask`). */
  const INVALID_MASK: nat := 0

  datatype TreeNode = TreeNode(
    id: nat,
    key: nat,
    value: string,
    leftId: nat,
    rightId: nat,
    leftHeight: nat,
    rightHeight: nat)

  /** The one-argument constructor: a node without children. The key-value pair is filled in by the caller. */
  function FreshNode(id: nat, key: nat, value: string): TreeNode {
    TreeNode(id, key, value, INVALID_MASK, INVALID_MASK, 0, 0)
  }

  /** The HEIGHT macro on a non-null node (base/ods_defs.h). */
  function Height(n: TreeNode): nat {
    (if n.leftHeight >= n.rightHeight then n.leftHeight else n.rightHeight) + 1
  }
}
