/** `value_pack`: the recursive writer over the tree in memory, which appends exactly the packed form of its value. */
module PackTree {
  import opened Bytes
  import opened Wrappers
  import opened Varint
  import opened Values
  import opened PackFormat
  import opened ValueHeap
  import opened ValueBuild
  import opened ValueDestroy
  import opened ValueAccess
  import opened WriteBuffer

  lemma Assoc(a: seq<byte>, b: seq<byte>, c: seq<byte>)
    ensures (a + b) + c == a + (b + c)
  {
  }

  /** The buffer lies outside a footprint. */
  ghost predicate Outside(b: WBuf, blocks: set<object>)
    reads b
  {
    b !in blocks && b.data !in blocks
  }

  method PutBlob(b: WBuf, s: seq<byte>)
    requires b.Valid() && |s| < TWO_TO_THE_64
    modifies b, b.data
    ensures b.Valid() && b.Contents() == old(b.Contents()) + Blob(s)
    ensures b.data == old(b.data) || fresh(b.data)
  {
    b.PutVarint(|s|);
    b.PutBytes(s);
  }

  method PutIntKey(b: WBuf, ikey: i64)
    requires b.Valid()
    modifies b, b.data
    ensures b.Valid() && b.Contents() == old(b.Contents()) + PackKey(IntKey(ikey))
    ensures b.data == old(b.data) || fresh(b.data)
  {
    hide WBuf.Contents, WBuf.Valid, VarintBytes;
    b.PutByte(1);
    b.PutVarint(ToU64(ikey));
    Assoc(old(b.Contents()), [1], VarintBytes(ToU64(ikey)));
  }

  method PutStrKey(b: WBuf, skey: seq<byte>)
    requires b.Valid() && |skey| < TWO_TO_THE_64
    modifies b, b.data
    ensures b.Valid() && b.Contents() == old(b.Contents()) + PackKey(StrKey(skey))
    ensures b.data == old(b.data) || fresh(b.data)
  {
    hide WBuf.Contents, WBuf.Valid, Blob;
    b.PutByte(0);
    PutBlob(b, skey);
    Assoc(old(b.Contents()), [0], Blob(skey));
  }

  /** The key of one entry, after its flag. */
  method PutKey(ghost mem: Memory, b: WBuf, kv: Kv, ghost part: set<object>, ghost e: Entry)
    requires b.Valid() && HoldsEntry(kv, part, e) && SizedEntry(e) && Outside(b, part)
    requires mem.Holds(part)
    modifies b, b.data
    ensures b.Valid() && b.Contents() == old(b.Contents()) + PackKey(e.key)
    ensures b.data == old(b.data) || fresh(b.data)
  {
    if kv.isIntKey {
      PutIntKey(b, kv.ikey);
    } else {
      var key := BytesOf(mem, kv.skey, kv.skeyLen, e.key.skey);
      PutStrKey(b, key);
    }
  }

  /** One turn of the loop of `pack_kv_block`. */
  method PutEntry(ghost mem: Memory, b: WBuf, kv: Kv, ghost part: set<object>, ghost e: Entry)
    requires b.Valid() && HoldsEntry(kv, part, e) && SizedEntry(e) && Outside(b, part)
    requires mem.Holds(part)
    modifies b, b.data
    ensures b.Valid() && b.Contents() == old(b.Contents()) + PackEntry(e)
    ensures b.data == old(b.data) || fresh(b.data)
    decreases part, 1, 0
  {
    EntryParts(kv, part, e);
    hide HoldsEntry, ValueNode.Valid, WBuf.Contents, WBuf.Valid, PackKey, Pack;
    PutKey(mem, b, kv, part, e);
    PackOne(mem, b, kv.val);
    Assoc(old(b.Contents()), PackKey(e.key), Pack(e.val));
  }

  lemma {:induction false} SizedAt(es: seq<Entry>, i: nat)
    requires SizedEntries(es) && i < |es|
    ensures SizedEntry(es[i])
  {
    if i > 0 {
      SizedAt(es[1..], i - 1);
    }
  }

  /** What is written for the entries from i on. */
  function PackFrom(es: seq<Entry>, i: nat): seq<byte>
    requires i <= |es|
  {
    PackEntries(es[i..])
  }

  lemma PackFromNext(es: seq<Entry>, i: nat)
    requires i < |es|
    ensures PackFrom(es, i) == PackEntry(es[i]) + PackFrom(es, i + 1)
  {
    assert es[i..][1..] == es[i + 1..];
  }

  lemma PackFromEnds(es: seq<Entry>)
    ensures PackFrom(es, 0) == PackEntries(es) && PackFrom(es, |es|) == []
  {
    assert es[0..] == es;
  }

  /** The entries from i on, as one entry and the ones after it. */
  method PutNext(ghost mem: Memory, b: WBuf, items: array?<Kv>, n: nat, i: nat,
                 ghost parts: seq<set<object>>, ghost es: seq<Entry>)
    requires b.Valid() && HoldsBlock(items, n, parts, es, Union(parts)) && i < n
    requires items != null && n <= items.Length && n == |parts| == |es| && SizedEntries(es)
    requires Outside(b, Union(parts))
    requires mem.Holds(Own(items) + Union(parts))
    modifies b, b.data
    ensures b.Valid() && (b.data == old(b.data) || fresh(b.data))
    ensures b.Contents() + PackFrom(es, i + 1) == old(b.Contents()) + PackFrom(es, i)
    decreases Union(parts), 2, 0
  {
    BlockEntry(items, n, parts, es, i);
    UntouchedPart(parts, i);
    SizedAt(es, i);
    PackFromNext(es, i);
    hide HoldsBlock, HoldsEntry, Union, WBuf.Contents, WBuf.Valid, PackFrom, PackEntry, PairwiseDisjoint;
    PutEntry(mem, b, items[i], parts[i], es[i]);
    Assoc(old(b.Contents()), PackEntry(es[i]), PackFrom(es, i + 1));
  }

  /** The loop of `pack_kv_block`. */
  method PutEntries(ghost mem: Memory, b: WBuf, items: array?<Kv>, n: nat,
                    ghost parts: seq<set<object>>, ghost es: seq<Entry>)
    requires b.Valid() && HoldsBlock(items, n, parts, es, Union(parts)) && SizedEntries(es)
    requires Outside(b, Union(parts)) && b.data as object? != items
    requires mem.Holds(Own(items) + Union(parts))
    modifies b, b.data
    ensures b.Valid() && b.Contents() == old(b.Contents()) + PackEntries(es)
    ensures b.data == old(b.data) || fresh(b.data)
    decreases Union(parts), 3, 0
  {
    BlockSize(items, n, parts, es);
    PackFromEnds(es);
    hide HoldsBlock, HoldsEntry, Union, WBuf.Contents, WBuf.Valid, PackFrom, PackEntries, PairwiseDisjoint, SizedEntries;
    var i := 0;
    while i < n
      invariant 0 <= i <= n == |parts| == |es| && (items != null ==> n <= items.Length)
      invariant b.Valid() && (b.data == old(b.data) || fresh(b.data))
      invariant b.Contents() + PackFrom(es, i) == old(b.Contents()) + PackEntries(es)
    {
      PutNext(mem, b, items, n, i, parts, es);
      i := i + 1;
    }
  }

  /** `pack_kv_block`. */
  method PackKvBlock(ghost mem: Memory, b: WBuf, items: array?<Kv>, n: nat,
                     ghost parts: seq<set<object>>, ghost es: seq<Entry>)
    requires b.Valid() && HoldsBlock(items, n, parts, es, Union(parts))
    requires SizedEntries(es) && |es| < TWO_TO_THE_64
    requires Outside(b, Union(parts)) && b.data as object? != items
    requires mem.Holds(Own(items) + Union(parts))
    modifies b, b.data
    ensures b.Valid() && b.Contents() == old(b.Contents()) + PackBlock(es)
    ensures b.data == old(b.data) || fresh(b.data)
    decreases Union(parts), 4, 0
  {
    BlockSize(items, n, parts, es);
    hide HoldsBlock, HoldsEntry, Union, WBuf.Contents, WBuf.Valid, PackEntries, VarintBytes;
    b.PutVarint(n);
    PutEntries(mem, b, items, n, parts, es);
    Assoc(old(b.Contents()), VarintBytes(n), PackEntries(es));
  }

  method PackArr(ghost mem: Memory, b: WBuf, v: ValueNode)
    requires b.Valid() && v.Valid() && v.payload.PArr? && Sized(v.model) && Outside(b, v.repr)
    requires mem.Holds(v.repr)
    modifies b, b.data
    ensures b.Valid() && b.Contents() == old(b.Contents()) + Pack(old(v.model))
    ensures b.data == old(b.data) || fresh(b.data)
    decreases v.repr, 0, 0
  {
    UnfoldArr(v);
    var PArr(items, n, _) := v.payload;
    hide ValueNode.Valid, HoldsBlock, Union, WBuf.Contents, WBuf.Valid, PackBlock;
    b.PutByte(5);
    PackKvBlock(mem, b, items, n, v.parts, v.model.items);
    Assoc(old(b.Contents()), [5], PackBlock(v.model.items));
  }

  method PutTaggedBlob(b: WBuf, tag: byte, s: seq<byte>)
    requires b.Valid() && |s| < TWO_TO_THE_64
    modifies b, b.data
    ensures b.Valid() && b.Contents() == old(b.Contents()) + ([tag] + Blob(s))
    ensures b.data == old(b.data) || fresh(b.data)
  {
    hide WBuf.Contents, WBuf.Valid, Blob;
    b.PutByte(tag);
    PutBlob(b, s);
    Assoc(old(b.Contents()), [tag], Blob(s));
  }

  method PackObj(ghost mem: Memory, b: WBuf, v: ValueNode)
    requires b.Valid() && v.Valid() && v.payload.PObj? && Sized(v.model) && Outside(b, v.repr)
    requires mem.Holds(v.repr)
    modifies b, b.data
    ensures b.Valid() && b.Contents() == old(b.Contents()) + Pack(old(v.model))
    ensures b.data == old(b.data) || fresh(b.data)
    decreases v.repr, 0, 0
  {
    UnfoldObj(v);
    var PObj(cls, clen, items, n, _) := v.payload;
    var name := BytesOf(mem, cls, clen, v.model.cls);
    hide ValueNode.Valid, HoldsBlock, HoldsBytes, Union, WBuf.Contents, WBuf.Valid, PackBlock, Blob;
    PutTaggedBlob(b, 6, name);
    PackKvBlock(mem, b, items, n, v.parts, v.model.props);
    Assoc(old(b.Contents()), [6] + Blob(name), PackBlock(v.model.props));
    Assoc([6], Blob(name), PackBlock(v.model.props));
  }

  method PackErr(ghost mem: Memory, b: WBuf, v: ValueNode)
    requires b.Valid() && v.Valid() && v.payload.PErr? && Sized(v.model) && Outside(b, v.repr)
    requires mem.Holds(v.repr)
    modifies b, b.data
    ensures b.Valid() && b.Contents() == old(b.Contents()) + Pack(old(v.model))
    ensures b.data == old(b.data) || fresh(b.data)
  {
    var PErr(cls, msg, code, trace) := v.payload;
    assert v.ValidErr(cls, msg, code, trace);
    var c := TextBytes(mem, cls, v.model.ecls);
    var m := TextBytes(mem, msg, v.model.msg);
    var t := TextBytes(mem, trace, v.model.trace);
    hide ValueNode.Valid, ValueNode.ValidErr, HoldsCString, WBuf.Contents, WBuf.Valid;
    PutError(b, c, m, code, t);
  }

  method PutError(b: WBuf, c: cstring, m: cstring, code: i64, t: cstring)
    requires b.Valid() && |c| < TWO_TO_THE_64 && |m| < TWO_TO_THE_64 && |t| < TWO_TO_THE_64
    modifies b, b.data
    ensures b.Valid() && (b.data == old(b.data) || fresh(b.data))
    ensures b.Contents() == old(b.Contents()) + Pack(Error(Some(c), Some(m), code, Some(t)))
  {
    hide WBuf.Contents, WBuf.Valid, Blob, VarintBytes;
    b.PutByte(7);
    PutBlob(b, c);
    PutBlob(b, m);
    b.PutVarint(ToU64(code));
    PutBlob(b, t);
    ErrorAppended(old(b.Contents()), Blob(c), Blob(m), VarintBytes(ToU64(code)), Blob(t));
  }

  lemma ErrorAppended(o: seq<byte>, c: seq<byte>, m: seq<byte>, k: seq<byte>, t: seq<byte>)
    ensures o + [7] + c + m + k + t == o + ([7] + (c + (m + (k + t))))
  {
  }

  /** `pack_one`; a NULL pointer is written as VAL_NULL. */
  method PackOne(ghost mem: Memory, b: WBuf, v: ValueNode?)
    requires b.Valid() && (v != null ==> v.Valid()) && Sized(ModelOf(v)) && Outside(b, ReprOf(v))
    requires mem.Holds(ReprOf(v))
    modifies b, b.data
    ensures b.Valid() && b.Contents() == old(b.Contents()) + Pack(old(ModelOf(v)))
    ensures b.data == old(b.data) || fresh(b.data)
    decreases ReprOf(v), 0, 1
  {
    if v == null {
      b.PutByte(0);
      return;
    }
    match v.payload {
      case PNull => b.PutByte(0);
      case PBool(_) => PackScalar(mem, b, v);
      case PLong(_) => PackScalar(mem, b, v);
      case PDouble(_) => PackScalar(mem, b, v);
      case PStr(_, _) => PackScalar(mem, b, v);
      case PArr(_, _, _) => PackArr(mem, b, v);
      case PObj(_, _, _, _, _) => PackObj(mem, b, v);
      case PErr(_, _, _, _) => PackErr(mem, b, v);
    }
  }

  method PackScalar(ghost mem: Memory, b: WBuf, v: ValueNode)
    requires b.Valid() && v.Valid() && Sized(v.model) && Outside(b, v.repr)
    requires v.payload.PBool? || v.payload.PLong? || v.payload.PDouble? || v.payload.PStr?
    requires mem.Holds(v.repr)
    modifies b, b.data
    ensures b.Valid() && b.Contents() == old(b.Contents()) + Pack(old(v.model))
    ensures b.data == old(b.data) || fresh(b.data)
  {
    ghost var o := b.Contents();
    match v.payload {
      case PBool(x) =>
        hide WBuf.Contents, WBuf.Valid;
        b.PutByte(1);
        b.PutByte(Flag(x));
        Assoc(o, [1], [Flag(x)]);
      case PLong(i) =>
        hide WBuf.Contents, WBuf.Valid, VarintBytes;
        b.PutByte(2);
        b.PutVarint(ToU64(i));
        Assoc(o, [2], VarintBytes(ToU64(i)));
      case PDouble(bits) =>
        hide WBuf.Contents, WBuf.Valid, LittleEndian;
        b.PutByte(3);
        b.PutDouble(bits);
        Assoc(o, [3], LittleEndian(bits, 8));
      case PStr(p, len) =>
        var s := BytesOf(mem, p, len, v.model.s);
        hide WBuf.Contents, WBuf.Valid, Blob;
        PutTaggedBlob(b, 4, s);
    }
  }

  /** `value_pack`: the caller gets the buffer and the length; its first `len` bytes are the packed value. */
  method ValuePack(ghost mem: Memory, v: ValueNode?) returns (buf: array<byte>, len: nat)
    requires (v != null ==> v.Valid()) && Sized(ModelOf(v))
    requires mem.Holds(ReprOf(v))
    ensures fresh(buf) && len <= buf.Length && buf[..len] == Pack(ModelOf(v))
    ensures buf.Length <= 64 || buf.Length <= 2 * (len + 9)
  {
    var b := new WBuf();
    PackOne(mem, b, v);
    buf, len := b.data, b.len;
  }
}
