/** Blocks, operations and status codes shared by every ORAM (base/oram_defs.h, base/oram_status.h). */
module OramDefs {
  import opened OdsObjects

  const DATA_SIZE := 512

  newtype Byte = x: int | 0 <= x < 256

  type RawData = s: seq<Byte> | |s| == DATA_SIZE witness seq(DATA_SIZE, _ => 0)

  /** The data area of a block. The oblivious dictionary copies the memory image of a node into it. */
  datatype Payload = Raw(bytes: RawData) | Image(node: TreeNode)

  datatype BlockType = Dummy | Normal | Invalid

  /** What a write replaces: the data length in the header and the data area. */
  datatype Cell = Cell(len: nat, data: Payload)

  datatype Block = Block(id: nat, kind: BlockType, cell: Cell)

  /** A padding block is random bytes; it is taken not to carry the type kNormal. */
  type Pad = b: Block | b.kind != Normal witness Block(0, Dummy, Cell(0, Raw(seq(DATA_SIZE, _ => 0))))

  /** Padding for one bucket: `pads(t, k)` is the k-th entry of the bucket numbered t. */
  type PadSource = (nat, nat) -> Pad

  datatype Operation = OpRead | OpWrite | OpInvalid

  datatype StatusCode = OK | InvalidArgument | InvalidOperation | ServerError | ObjectNotFound | UnknownError

  datatype Option<+T> = None | Some(value: T)

  /** An entry of server storage: a string, empty or holding one serialised block. */
  datatype Slot = Empty | Full(block: Block)

  /** `PadStash`: grow a bucket to `size` entries. */
  function Padded(bucket: seq<Block>, size: nat, tag: nat, pads: PadSource): (r: seq<Block>)
    ensures |r| == if |bucket| < size then size else |bucket|
    ensures bucket <= r
    ensures forall k :: |bucket| <= k < |r| ==> r[k].kind != Normal
    decreases if |bucket| < size then size - |bucket| else 0
  {
    if |bucket| < size then Padded(bucket + [pads(tag, |bucket|)], size, tag, pads) else bucket
  }

  method PadStash(stash: seq<Block>, size: nat, tag: nat, pads: PadSource) returns (r: seq<Block>)
    ensures r == Padded(stash, size, tag, pads)
  {
    r := stash;
    if |stash| < size {
      for i := |stash| to size
        invariant |r| == i
        invariant Padded(r, size, tag, pads) == Padded(stash, size, tag, pads)
      {
        r := r + [pads(tag, i)];
      }
    }
  }
}
