/** Rebuilding as the C code performs it: loops over the slots of a node that write into a new table or object. */
module RestoreTable {
  import opened Bytes
  import opened Values
  import opened ValueHeap
  import opened ValueBuild
  import opened ValueDestroy
  import opened ValueAccess
  import opened Zvals
  import opened Restore

  /** An ordered hash table. */
  class ZTable {
    var elems: seq<Elem>

    constructor ()
      ensures elems == []
    {
      elems := [];
    }

    /** `add_index_zval` and `add_assoc_zval_ex`, under the key that the engine stores. */
    method Add(key: ZKey, val: Zval)
      modifies this
      ensures elems == Put(old(elems), key, val)
    {
      var i := 0;
      while i < |elems| && elems[i].key != key
        invariant 0 <= i <= |elems|
        invariant forall j | 0 <= j < i :: elems[j].key != key
      {
        i := i + 1;
      }
      PlaceIs(elems, key, i);
      elems := if i < |elems| then elems[i := Elem(key, val)] else elems + [Elem(key, val)];
    }
  }

  lemma FilledStep(en: Engine, es: seq<Entry>, i: nat)
    requires i < |es|
    ensures Filled(en, es[..i + 1]) == Put(Filled(en, es[..i]), KeyOut(en, es[i].key), RebuildEntry(en, es[i]))
    ensures Writes(en, es[..i + 1])
         == Writes(en, es[..i]) + [Elem(Name(StoredKey(es[i].key, false).skey), RebuildEntry(en, es[i]))]
  {
    assert es[..i + 1][..i] == es[..i];
  }

  /** The value in a slot. */
  method RebuildSlot(ghost mem: Memory, en: Engine, kv: Kv, ghost part: set<object>, ghost e: Entry) returns (z: Zval)
    requires HoldsEntry(kv, part, e)
    requires mem.Holds(part)
    ensures z == RebuildEntry(en, e)
    decreases part, 1
  {
    EntryParts(kv, part, e);
    hide HoldsEntry, ValueNode.Valid;
    z := ValueToZval(mem, en, kv.val);
  }

  /** The key of a slot as it is handed to the engine; the string of a slot with an integer key is empty. */
  method SlotKey(ghost mem: Memory, kv: Kv, ghost part: set<object>, ghost e: Entry) returns (skey: seq<byte>)
    requires HoldsEntry(kv, part, e)
    requires mem.Holds(part)
    ensures skey == StoredKey(e.key, false).skey
    ensures kv.isIntKey == e.key.IntKey? && (kv.isIntKey ==> e.key.ikey == kv.ikey)
  {
    skey := if kv.skey == null then [] else kv.skey[..];
  }

  /** One turn of the loop of `kv_block_to_array`. */
  method AddSlot(ghost mem: Memory, en: Engine, target: ZTable, kv: Kv, ghost part: set<object>, ghost e: Entry)
    requires HoldsEntry(kv, part, e)
    requires mem.Holds(part)
    modifies target
    ensures target.elems == Put(old(target.elems), KeyOut(en, e.key), RebuildEntry(en, e))
    decreases part, 2
  {
    hide HoldsEntry, RebuildEntry, Put;
    var child := RebuildSlot(mem, en, kv, part, e);
    var skey := SlotKey(mem, kv, part, e);
    if kv.isIntKey {
      target.Add(Index(ToU64(kv.ikey)), child);
    } else {
      target.Add(en.normalise(skey), child);
    }
  }

  /** `kv_block_to_array`. */
  method KvBlockToArray(ghost mem: Memory, en: Engine, items: array?<Kv>, n: nat,
                        ghost parts: seq<set<object>>, ghost es: seq<Entry>,
                        ghost all: set<object>)
    returns (target: ZTable)
    requires all == Union(parts) && HoldsBlock(items, n, parts, es, all)
    requires mem.Holds(Own(items) + all)
    ensures fresh(target) && target.elems == Filled(en, es)
    decreases all, 3
  {
    target := new ZTable();
    BlockSize(items, n, parts, es);
    hide HoldsBlock, HoldsEntry, Union, PairwiseDisjoint, Filled, Put, KeyOut, RebuildEntry;
    NothingFilled(en, es[..0]);
    var i := 0;
    while i < n
      invariant 0 <= i <= n == |es|
      invariant HoldsBlock(items, n, parts, es, all)
      invariant target.elems == Filled(en, es[..i])
    {
      BlockEntry(items, n, parts, es, i);
      UntouchedPart(parts, i);
      AddSlot(mem, en, target, items[i], parts[i], es[i]);
      TableStep(en, es, i, target.elems);
      i := i + 1;
    }
    assert es[..n] == es;
  }

  lemma TableStep(en: Engine, es: seq<Entry>, i: nat, after: seq<Elem>)
    requires i < |es| && after == Put(Filled(en, es[..i]), KeyOut(en, es[i].key), RebuildEntry(en, es[i]))
    ensures after == Filled(en, es[..i + 1])
  {
    FilledStep(en, es, i);
  }

  lemma NothingFilled(en: Engine, es: seq<Entry>)
    requires es == []
    ensures Filled(en, es) == [] && Writes(en, es) == []
  {
  }

  /** One turn of the loop of `kv_block_to_object`. */
  method WriteSlot(ghost mem: Memory, en: Engine, kv: Kv, ghost part: set<object>, ghost e: Entry)
    returns (written: Elem)
    requires HoldsEntry(kv, part, e)
    requires mem.Holds(part)
    ensures written == Elem(Name(StoredKey(e.key, false).skey), RebuildEntry(en, e))
    decreases part, 2
  {
    hide HoldsEntry, RebuildEntry;
    var child := RebuildSlot(mem, en, kv, part, e);
    var skey := SlotKey(mem, kv, part, e);
    written := Elem(Name(skey), child);
  }

  /** `kv_block_to_object`: the property writes that the new object receives. */
  method KvBlockToObject(ghost mem: Memory, en: Engine, items: array?<Kv>, n: nat,
                         ghost parts: seq<set<object>>, ghost es: seq<Entry>)
    returns (writes: seq<Elem>)
    requires HoldsBlock(items, n, parts, es, Union(parts))
    requires mem.Holds(Own(items) + Union(parts))
    ensures writes == Writes(en, es)
    decreases Union(parts), 3
  {
    BlockSize(items, n, parts, es);
    hide HoldsBlock, HoldsEntry, Union, PairwiseDisjoint, Writes, Filled, Put, KeyOut, RebuildEntry;
    NothingFilled(en, es[..0]);
    writes := [];
    var i := 0;
    while i < n
      invariant 0 <= i <= n == |es|
      invariant HoldsBlock(items, n, parts, es, Union(parts))
      invariant writes == Writes(en, es[..i])
    {
      BlockEntry(items, n, parts, es, i);
      UntouchedPart(parts, i);
      var written := WriteSlot(mem, en, items[i], parts[i], es[i]);
      FilledStep(en, es, i);
      writes := writes + [written];
      i := i + 1;
    }
    assert es[..n] == es;
  }

  /** The VAL_ERR case. */
  method RebuildError(ghost mem: Memory, en: Engine, v: ValueNode) returns (z: Zval)
    requires v.Valid() && v.payload.PErr?
    requires mem.Holds(v.repr)
    ensures z == Rebuild(en, v.model)
  {
    var PErr(cls, msg, code, trace) := v.payload;
    UnfoldErr(v);
    ghost var m := v.model;
    RebuildIs(en, m);
    hide HoldsCString, ValueNode.Valid, ErrorWrites, Rebuild;
    var c := TextBytes(mem, cls, m.ecls);
    var s := TextBytes(mem, msg, m.msg);
    var t := TextBytes(mem, trace, m.trace);
    z := ZObject(Created(en.errorClass, ErrorWrites(c, s, code, t)));
  }

  lemma RebuildIs(en: Engine, v: Value)
    ensures v.Arr? ==> Rebuild(en, v) == ZArray(Filled(en, v.items))
    ensures v.Obj? ==>
              var cls := if en.hasClass(v.cls) then v.cls else en.standardClass;
              Rebuild(en, v) == ZObject(Created(cls, Writes(en, v.props)))
    ensures v.Error? ==>
              var writes := ErrorWrites(OrEmpty(v.ecls), OrEmpty(v.msg), v.code, OrEmpty(v.trace));
              Rebuild(en, v) == ZObject(Created(en.errorClass, writes))
  {
  }

  lemma UnfoldErr(v: ValueNode)
    requires v.Valid() && v.payload.PErr?
    ensures v.model.Error? && v.model.code == v.payload.code
    ensures HoldsCString(v.payload.ecls, v.model.ecls) && HoldsCString(v.payload.msg, v.model.msg)
    ensures HoldsCString(v.payload.trace, v.model.trace)
  {
    var PErr(cls, msg, code, trace) := v.payload;
    assert v.ValidErr(cls, msg, code, trace);
  }

  /** `value_to_zval_inner`. */
  method ValueToZval(ghost mem: Memory, en: Engine, v: ValueNode?) returns (z: Zval)
    requires v != null ==> v.Valid()
    requires mem.Holds(ReprOf(v))
    ensures z == Rebuild(en, ModelOf(v))
    ensures v == null ==> z == ZNull
    ensures v != null && v.model.Error? ==> HoldsError(z, v.model) && z.o.cls == en.errorClass
    decreases ReprOf(v), 0
  {
    if v == null {
      return ZNull;
    }
    hide HoldsError;
    match v.payload {
      case PNull => z := ZNull;
      case PBool(b) => z := ZBool(b);
      case PLong(i) => z := ZLong(i);
      case PDouble(bits) => z := ZDouble(bits);
      case PStr(p, len) =>
        var s := BytesOf(mem, p, len, v.model.s);
        z := ZString(s);
      case PArr(items, n, _) =>
        UnfoldArr(v);
        RebuildIs(en, v.model);
        hide ValueNode.Valid, HoldsBlock, Rebuild, Filled;
        var target := KvBlockToArray(mem, en, items, n, v.parts, v.model.items, Union(v.parts));
        z := ZArray(target.elems);
      case PObj(cls, clen, items, n, _) =>
        UnfoldObj(v);
        RebuildIs(en, v.model);
        hide ValueNode.Valid, HoldsBlock, Rebuild, Writes;
        var name := BytesOf(mem, cls, clen, v.model.cls);
        var writes := KvBlockToObject(mem, en, items, n, v.parts, v.model.props);
        z := ZObject(Created(if en.hasClass(name) then name else en.standardClass, writes));
      case PErr(_, _, _, _) =>
        z := RebuildError(mem, en, v);
        RebuiltError(en, v.model);
    }
  }
}
