/** The deep clone of value/clone.c: an equal tree that shares no block with the original. */
module ValueCloning {
  import opened Bytes
  import opened Wrappers
  import opened Values
  import opened ValueHeap
  import opened ValueBuild
  import opened ValueDestroy

  lemma HeldBytes(a: array?<byte>, len: nat, s: seq<byte>)
    requires HoldsBytes(a, len, s)
    ensures s == if a == null then [] else a[..]
  {
  }

  lemma HeldText(a: array?<byte>, s: Option<cstring>)
    requires HoldsCString(a, s)
    ensures TextOf(a) == s && (a != null ==> 0 in a[..])
  {
    if a != null {
      var c := s.value;
      assert a[..][|c|] == 0;
      assert a[..][..|c|] == c;
      CStringIs(a[..], |c|);
    }
  }

  /** One turn of the loop of `clone_kv_block`. */
  method CloneEntry(mem: Memory, kv: Kv, ghost part: set<object>, ghost e: Entry)
    returns (copy: Kv, ghost newPart: set<object>)
    requires HoldsEntry(kv, part, e) && mem.Holds(part)
    modifies mem
    ensures HoldsEntry(copy, newPart, e)
    ensures fresh(newPart) && mem.live == old(mem.live) + newPart
    decreases part, 1
  {
    EntryParts(kv, part, e);
    assert !kv.isIntKey ==> HoldsBytes(kv.skey, kv.skeyLen, e.key.skey);
    assert kv.isIntKey ==> kv.skey == null && kv.skeyLen == 0 && e.key == IntKey(kv.ikey);
    var skey: array?<byte> := null;
    if kv.skey != null && kv.skeyLen > 0 {
      HeldBytes(kv.skey, kv.skeyLen, e.key.skey);
      skey := DupBytes(mem, kv.skey[..]);
    }
    hide ValueNode.Valid;
    var val := ValueClone(mem, kv.val);
    copy, newPart := Kv(kv.isIntKey, kv.ikey, skey, kv.skeyLen, val), Own(skey) + ReprOf(val);
  }

  /** One turn of the loop of `clone_kv_block`: slot i of the new array. */
  method CloneSlot(mem: Memory, items: array<Kv>, kv: Kv, i: nat,
                   ghost part: set<object>, ghost es: seq<Entry>, ghost newParts: seq<set<object>>, ghost u: set<object>)
    returns (ghost newPart: set<object>)
    requires i < |es| == items.Length && HoldsEntry(kv, part, es[i]) && mem.Holds(part)
    requires HoldsBlock(items, i, newParts, es[..i], u)
    requires items !in part && mem !in u
    modifies mem, items
    ensures HoldsBlock(items, i + 1, newParts + [newPart], es[..i + 1], u + newPart)
    ensures fresh(newPart) && mem.live == old(mem.live) + newPart
    decreases part, 2
  {
    hide HoldsEntry, HoldsBlock, Union;
    var copy;
    copy, newPart := CloneEntry(mem, kv, part, es[i]);
    Store(items, i, copy, newParts, es[..i], newPart, es[i], u);
    assert es[..i] + [es[i]] == es[..i + 1];
  }

  /** The loop of `clone_kv_block`, over a new array. */
  method CloneSlots(mem: Memory, src: array<Kv>, n: nat, ghost parts: seq<set<object>>, ghost es: seq<Entry>,
                    items: array<Kv>)
    returns (ghost newParts: seq<set<object>>)
    requires HoldsBlock(src, n, parts, es, Union(parts)) && mem.Holds(Union(parts))
    requires items.Length == n && items != src && items !in Union(parts) && HoldsBlock(items, 0, [], [], {})
    modifies mem, items
    ensures HoldsBlock(items, n, newParts, es, Union(newParts))
    ensures fresh(Union(newParts)) && mem.live == old(mem.live) + Union(newParts)
    decreases Union(parts), 3
  {
    BlockSize(src, n, parts, es);
    NoParts();
    hide HoldsEntry, HoldsBlock, PairwiseDisjoint, Union;
    newParts := [];
    ghost var u: set<object> := {};
    var i := 0;
    assert es[..0] == [];
    while i < n
      invariant 0 <= i <= n == |parts| == |es| && u == Union(newParts) && fresh(u)
      invariant HoldsBlock(items, i, newParts, es[..i], u)
      invariant mem.live == old(mem.live) + u
    {
      BlockEntry(src, n, parts, es, i);
      UntouchedPart(parts, i);
      var part := CloneSlot(mem, items, src[i], i, parts[i], es, newParts, u);
      UnionAppend(newParts, part);
      newParts, u := newParts + [part], u + part;
      i := i + 1;
    }
    assert es[..n] == es;
  }

  lemma NoParts()
    ensures Union([]) == {}
  {
  }

  /** `clone_kv_block`. */
  method CloneKvBlock(mem: Memory, src: array?<Kv>, n: nat, ghost parts: seq<set<object>>, ghost es: seq<Entry>)
    returns (dst: array?<Kv>, ghost newParts: seq<set<object>>)
    requires HoldsBlock(src, n, parts, es, Union(parts)) && mem.Holds(Union(parts))
    modifies mem
    ensures HoldsBlock(dst, n, newParts, es, Union(newParts)) && dst !in Union(newParts)
    ensures if dst == null then n == 0 else dst.Length == n
    ensures fresh(Own(dst) + Union(newParts)) && mem.live == old(mem.live) + Own(dst) + Union(newParts)
    decreases Union(parts), 4
  {
    BlockSize(src, n, parts, es);
    newParts := [];
    if n == 0 {
      return null, [];
    }
    hide HoldsEntry, HoldsBlock, Union;
    var items := NewBlock(mem, n);
    newParts := CloneSlots(mem, src, n, parts, es, items);
    dst := items;
  }

  /** `calloc` for n slots. */
  method NewBlock(mem: Memory, n: nat) returns (items: array<Kv>)
    modifies mem
    ensures fresh(items) && items.Length == n && mem.live == old(mem.live) + {items}
    ensures HoldsBlock(items, 0, [], [], {})
  {
    items := new Kv[n](_ => ZEROED);
    mem.live := mem.live + {items};
    EmptyBlock(items);
  }

  lemma EmptyBlock(items: array<Kv>)
    ensures HoldsBlock(items, 0, [], [], {})
  {
  }

  method CloneArr(mem: Memory, src: ValueNode) returns (dst: ValueNode)
    requires src.Valid() && src.payload.PArr? && mem.Holds(src.repr)
    modifies mem
    ensures dst.Valid() && fresh(dst.repr) && dst.model == old(src.model) && mem.live == old(mem.live) + dst.repr
    decreases src.repr, 0, 0
  {
    hide ValueNode.Valid, HoldsBlock, Union;
    UnfoldArr(src);
    var PArr(items, n, _) := src.payload;
    dst := ValueArr(mem, 0);
    UnfoldArr(dst);
    var copy, parts := CloneKvBlock(mem, items, n, src.parts, src.model.items);
    dst.Set(PArr(copy, n, n), {dst} + Own(copy) + Union(parts), parts, src.model);
    FoldArr(dst, copy, n, n, Union(parts));
  }

  method CloneObj(mem: Memory, src: ValueNode) returns (dst: ValueNode)
    requires src.Valid() && src.payload.PObj? && mem.Holds(src.repr)
    modifies mem
    ensures dst.Valid() && fresh(dst.repr) && dst.model == old(src.model) && mem.live == old(mem.live) + dst.repr
    decreases src.repr, 0, 0
  {
    hide ValueNode.Valid, HoldsBlock, Union;
    UnfoldObj(src);
    var PObj(cls, clen, items, n, _) := src.payload;
    HeldBytes(cls, clen, src.model.cls);
    dst := ValueObj(mem, if cls == null then [] else cls[..], 0);
    UnfoldObj(dst);
    var copy, parts := CloneKvBlock(mem, items, n, src.parts, src.model.props);
    var name := dst.payload.cls;
    dst.Set(PObj(name, clen, copy, n, n), {dst} + Own(name) + Own(copy) + Union(parts), parts, src.model);
    FoldObj(dst, name, clen, copy, n, n, Union(parts));
  }

  /** `value_clone`. NULL is cloned to NULL. */
  method ValueClone(mem: Memory, src: ValueNode?) returns (dst: ValueNode?)
    requires (src != null ==> src.Valid()) && mem.Holds(ReprOf(src))
    modifies mem
    ensures (dst == null <==> src == null) && (dst != null ==> dst.Valid())
    ensures ModelOf(dst) == old(ModelOf(src))
    ensures fresh(ReprOf(dst)) && mem.live == old(mem.live) + ReprOf(dst)
    decreases ReprOf(src), 0, 1
  {
    if src == null {
      return null;
    }
    match src.payload {
      case PNull => dst := ValueNull(mem);
      case PBool(b) => dst := ValueBool(mem, b);
      case PLong(i) => dst := ValueLong(mem, i);
      case PDouble(bits) => dst := ValueDouble(mem, bits);
      case PStr(p, len) =>
        HeldBytes(p, len, src.model.s);
        dst := ValueStr(mem, if p == null then [] else p[..]);
      case PArr(_, _, _) => dst := CloneArr(mem, src);
      case PObj(_, _, _, _, _) => dst := CloneObj(mem, src);
      case PErr(cls, msg, code, trace) =>
        assert src.ValidErr(cls, msg, code, trace);
        HeldText(cls, src.model.ecls);
        HeldText(msg, src.model.msg);
        HeldText(trace, src.model.trace);
        dst := ValueErr(mem, cls, msg, code, trace);
    }
  }

  /** A clone lives its own life: pushing onto the original afterwards leaves it as it was. */
  method CloneThenAppend(mem: Memory, src: ValueNode, key: seq<byte>, child: ValueNode) returns (copy: ValueNode)
    requires src.Valid() && src.payload.PArr? && child.Valid()
    requires child.repr !! src.repr && mem.Holds(src.repr + child.repr)
    modifies mem, src, src.Slots()
    ensures copy.Valid() && copy.model == old(src.model) && copy.repr !! src.repr
    ensures src.Valid() && src.model == Extended(old(src.model), Entry(StrKey(key), old(child.model)))
  {
    hide ValueNode.Valid;
    var c := ValueClone(mem, src);
    ValueArrSetStr(mem, src, key, child);
    copy := c;
  }
}
