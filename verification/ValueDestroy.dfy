/** The recursive destructor of value/value.c: it frees every block of the tree, once, and nothing else. */
module ValueDestroy {
  import opened Values
  import opened ValueHeap
  import opened ValueBuild

  lemma UnionTake(parts: seq<set<object>>, k: nat)
    requires k < |parts|
    ensures Union(parts[..k + 1]) == Union(parts[..k]) + parts[k]
  {
    assert parts[..k + 1] == parts[..k] + [parts[k]];
    UnionAppend(parts[..k], parts[k]);
  }

  /** A part that has not been reached shares nothing with the ones before it. */
  lemma UntouchedPart(parts: seq<set<object>>, k: nat)
    requires k < |parts| && PairwiseDisjoint(parts)
    ensures parts[k] <= Union(parts) && parts[k] !! Union(parts[..k])
  {
    forall o | o in Union(parts[..k])
      ensures o !in parts[k]
    {
      var i :| 0 <= i < k && o in parts[..k][i];
      assert parts[i] !! parts[k];
    }
  }

  lemma BlockSize(items: array?<Kv>, n: nat, parts: seq<set<object>>, es: seq<Entry>)
    requires HoldsBlock(items, n, parts, es, Union(parts))
    ensures |parts| == |es| == n && (items == null ==> n == 0) && (items != null ==> n <= items.Length)
    ensures PairwiseDisjoint(parts) && Union(parts[..0]) == {}
  {
  }

  lemma BlockEntry(items: array?<Kv>, n: nat, parts: seq<set<object>>, es: seq<Entry>, k: nat)
    requires HoldsBlock(items, n, parts, es, Union(parts)) && k < n
    ensures items != null && k < items.Length && |parts| == |es| == n && PairwiseDisjoint(parts)
    ensures HoldsEntry(items[k], parts[k], es[k])
  {
  }

  lemma EntryParts(kv: Kv, part: set<object>, e: Entry)
    requires HoldsEntry(kv, part, e)
    ensures part == Own(kv.skey) + ReprOf(kv.val)
    ensures (kv.val != null ==> kv.val.Valid()) && kv.skey !in ReprOf(kv.val)
    ensures e.val == ModelOf(kv.val)
  {
  }

  /** One turn of the loop of `free_kv_array`: the key, then the child. */
  method FreeEntry(mem: Memory, kv: Kv, ghost part: set<object>, ghost e: Entry)
    requires HoldsEntry(kv, part, e) && mem.Holds(part)
    modifies mem
    ensures mem.live == old(mem.live) - part
    ensures mem.built == old(mem.built)
    decreases part, 1
  {
    EntryParts(kv, part, e);
    hide HoldsEntry, ValueNode.Valid;
    Free(mem, kv.skey);
    ValueFree(mem, kv.val);
  }

  /** `free_kv_array`. */
  method FreeKvArray(mem: Memory, items: array?<Kv>, n: nat, ghost parts: seq<set<object>>, ghost es: seq<Entry>)
    requires HoldsBlock(items, n, parts, es, Union(parts)) && items !in Union(parts)
    requires mem.Holds(Own(items) + Union(parts))
    modifies mem
    ensures mem.live == old(mem.live) - Union(parts) - Own(items)
    ensures mem.built == old(mem.built)
    decreases Union(parts), 2
  {
    if items == null {
      return;
    }
    hide HoldsEntry, PairwiseDisjoint, HoldsBlock, Union;
    BlockSize(items, n, parts, es);
    var i := 0;
    while i < n
      invariant 0 <= i <= n == |parts| == |es| && n <= items.Length
      invariant HoldsBlock(items, n, parts, es, Union(parts))
      invariant mem.live == old(mem.live) - Union(parts[..i]) && mem.built == old(mem.built)
    {
      BlockEntry(items, n, parts, es, i);
      UntouchedPart(parts, i);
      UnionTake(parts, i);
      FreeEntry(mem, items[i], parts[i], es[i]);
      i := i + 1;
    }
    assert parts[..n] == parts;
    Free(mem, items);
  }

  /** `value_free`, a no-op on NULL. */
  method ValueFree(mem: Memory, v: ValueNode?)
    requires v != null ==> v.Valid()
    requires mem.Holds(ReprOf(v))
    modifies mem
    ensures mem.live == old(mem.live) - old(ReprOf(v))
    ensures mem.built == old(mem.built)
    decreases ReprOf(v), 0
  {
    if v == null {
      return;
    }
    match v.payload {
      case PStr(p, _) =>
        Free(mem, p);
      case PArr(items, n, _) =>
        UnfoldArr(v);
        FreeKvArray(mem, items, n, v.parts, v.model.items);
      case PObj(cls, _, items, n, _) =>
        UnfoldObj(v);
        Free(mem, cls);
        FreeKvArray(mem, items, n, v.parts, v.model.props);
      case PErr(cls, msg, _, trace) =>
        assert v.ValidErr(cls, msg, v.payload.code, trace);
        Free(mem, cls);
        Free(mem, msg);
        Free(mem, trace);
      case _ =>
    }
    Free(mem, v);
  }
}
