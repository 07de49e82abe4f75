/**
 The value tree of value/value.c in memory: nodes, key/value arrays and byte strings that are allocated one by one.
 `Memory.live` is the set of blocks that were allocated and not yet freed, and `Memory.built` counts the nodes that were
 ever allocated, kept or not. A valid node knows its footprint `repr`, which
 is exactly the blocks of its tree, and the mathematical value `model` that the tree stands for.
 */
module ValueHeap {
  import opened Bytes
  import opened Wrappers
  import opened Values

  class Memory {
    ghost var live: set<object>
    ghost var built: nat

    constructor ()
      ensures live == {} && built == 0
    {
      live, built := {}, 0;
    }

    /** These blocks are allocated. The allocator itself is no block. */
    ghost predicate Holds(blocks: set<object>)
      reads this
    {
      blocks <= live && this !in live
    }
  }

  function Own(o: object?): set<object> {
    if o == null then {} else {o}
  }

  ghost function Union(parts: seq<set<object>>): set<object> {
    set i, o | 0 <= i < |parts| && o in parts[i] :: o
  }

  ghost predicate PairwiseDisjoint(parts: seq<set<object>>) {
    forall i, j | 0 <= i < j < |parts| :: parts[i] !! parts[j]
  }

  lemma UnionAppend(parts: seq<set<object>>, part: set<object>)
    ensures Union(parts + [part]) == Union(parts) + part
  {
    var all := parts + [part];
    assert all[|parts|] == part;
    forall o | o in Union(parts)
      ensures o in Union(all)
    {
      var i :| 0 <= i < |parts| && o in parts[i];
      assert all[i] == parts[i];
    }
  }

  datatype Kv = Kv(isIntKey: bool, ikey: i64, skey: array?<byte>, skeyLen: nat, val: ValueNode?)

  const ZEROED := Kv(false, 0, null, 0, null)

  /** The tag of a node together with the member of the union that it selects. */
  datatype Payload =
    | PNull
    | PBool(b: bool)
    | PLong(i: i64)
    | PDouble(bits: u64)
    | PStr(p: array?<byte>, len: nat)
    | PArr(items: array?<Kv>, n: nat, cap: nat)
    | PObj(cls: array?<byte>, clen: nat, items: array?<Kv>, n: nat, cap: nat)
    | PErr(ecls: array?<byte>, msg: array?<byte>, code: i64, trace: array?<byte>)

  /** A duplicated byte string: NULL exactly when it is empty. */
  ghost predicate HoldsBytes(a: array?<byte>, len: nat, s: seq<byte>)
    reads a
  {
    len == |s| && (a == null <==> len == 0) && (a != null ==> a[..] == s)
  }

  /** A C string on the heap, or NULL. */
  ghost predicate HoldsCString(a: array?<byte>, s: Option<cstring>)
    reads a
  {
    match s
    case None => a == null
    case Some(c) => a != null && a[..] == c + [0]
  }

  /** The value that a pointer stands for. */
  ghost function ModelOf(v: ValueNode?): Value
    reads v
  {
    if v == null then Missing else v.model
  }

  ghost function ReprOf(v: ValueNode?): set<object>
    reads v
  {
    if v == null then {} else v.repr
  }

  /** One slot of a key/value array stands for an entry, and owns exactly `part`. */
  ghost predicate HoldsEntry(kv: Kv, part: set<object>, e: Entry)
    reads part
    decreases part, 1, 0
  {
    && (kv.skey != null ==> kv.skey in part)
    && (kv.val != null ==>
          && kv.val in part
          && kv.val.repr <= part
          && kv.skey !in kv.val.repr
          && kv.val.Valid())
    && part == Own(kv.skey) + ReprOf(kv.val)
    && e.val == ModelOf(kv.val)
    && (if kv.isIntKey then kv.skey == null && kv.skeyLen == 0 && e.key == IntKey(kv.ikey)
        else e.key.StrKey? && HoldsBytes(kv.skey, kv.skeyLen, e.key.skey))
  }

  /** The first n slots of a key/value array stand for these entries; their parts lie apart from each other in `all`. */
  ghost predicate HoldsBlock(items: array?<Kv>, n: nat, parts: seq<set<object>>, es: seq<Entry>, all: set<object>)
    reads items, all
    decreases all, 2, 0
  {
    && |parts| == |es| == n
    && (items != null ==> n <= items.Length)
    && (items == null ==> n == 0)
    && PairwiseDisjoint(parts)
    && forall i | 0 <= i < n :: parts[i] <= all && items !in parts[i] && HoldsEntry(items[i], parts[i], es[i])
  }

  class ValueNode {
    var payload: Payload
    ghost var repr: set<object>
    ghost var parts: seq<set<object>>
    ghost var model: Value

    constructor (p: Payload)
      ensures payload == p
    {
      payload := p;
    }

    /** A new payload, together with what it stands for. */
    method Set(p: Payload, ghost r: set<object>, ghost ps: seq<set<object>>, ghost m: Value)
      modifies this
      ensures payload == p && repr == r && parts == ps && model == m
    {
      payload, repr, parts, model := p, r, ps, m;
    }

    ghost predicate Valid()
      reads this, repr
      decreases repr, 0, 1
    {
      && this in repr
      && match payload
         case PNull => repr == {this} && model == Null
         case PBool(b) => repr == {this} && model == Bool(b)
         case PLong(i) => repr == {this} && model == Long(i)
         case PDouble(bits) => repr == {this} && model == Double(bits)
         case PStr(p, len) =>
           repr == {this} + Own(p) && model.Str? && HoldsBytes(p, len, model.s)
         case PArr(items, n, cap) => ValidArr(items, n, cap)
         case PObj(cls, clen, items, n, cap) => ValidObj(cls, clen, items, n, cap)
         case PErr(cls, msg, code, trace) => ValidErr(cls, msg, code, trace)
    }

    ghost predicate ValidArr(items: array?<Kv>, n: nat, cap: nat)
      requires this in repr
      reads this, repr
      decreases repr, 0, 0
    {
      && model.Arr?
      && repr == {this} + Own(items) + Union(parts)
      && this !in Union(parts) && items !in Union(parts)
      && n <= cap && (if items == null then cap == 0 else items.Length == cap)
      && HoldsBlock(items, n, parts, model.items, Union(parts))
    }

    ghost predicate ValidObj(cls: array?<byte>, clen: nat, items: array?<Kv>, n: nat, cap: nat)
      requires this in repr
      reads this, repr
      decreases repr, 0, 0
    {
      && model.Obj?
      && repr == {this} + Own(cls) + Own(items) + Union(parts)
      && this !in Union(parts) && cls !in Union(parts) && items !in Union(parts)
      && n <= cap && (if items == null then cap == 0 else items.Length == cap)
      && HoldsBytes(cls, clen, model.cls)
      && HoldsBlock(items, n, parts, model.props, Union(parts))
    }

    ghost predicate ValidErr(cls: array?<byte>, msg: array?<byte>, code: i64, trace: array?<byte>)
      requires this in repr
      reads this, repr
    {
      && model.Error? && model.code == code
      && repr == {this} + Own(cls) + Own(msg) + Own(trace)
      && (cls != null ==> cls != msg && cls != trace) && (msg != null ==> msg != trace)
      && HoldsCString(cls, model.ecls) && HoldsCString(msg, model.msg) && HoldsCString(trace, model.trace)
    }

    /** The key/value array, if there is one. */
    function Slots(): set<object>
      reads this
    {
      match payload
      case PArr(items, _, _) => Own(items)
      case PObj(_, _, items, _, _) => Own(items)
      case _ => {}
    }
  }
}
