/** Packing a tree in memory and unpacking the bytes again: both imperative halves of the codec together. */
module TreeRoundTrip {
  import opened Values
  import opened PackFormat
  import opened PackProofs
  import opened ValueHeap
  import PackTree
  import UnpackTree

  /**
   The result is never NULL, stands for the normalised value, shares no block with the original, and the original is as
   it was.
   */
  method RoundTripTree(mem: Memory, src: ValueNode?) returns (v: ValueNode)
    requires (src != null ==> src.Valid()) && Sized(ModelOf(src)) && mem.Holds(ReprOf(src))
    modifies mem
    ensures v.Valid() && v.model == Normal(old(ModelOf(src)))
    ensures fresh(v.repr) && mem.live == old(mem.live) + v.repr
    ensures src != null ==> src.Valid() && src.model == old(ModelOf(src)) && src.repr !! v.repr
  {
    hide ValueNode.Valid, UnpackAll, Pack;
    var buf, len := PackTree.ValuePack(mem, src);
    PackThenUnpack(ModelOf(src));
    var t, _ := UnpackTree.ValueUnpack(mem, buf[..len]);
    v := t;
  }
}
