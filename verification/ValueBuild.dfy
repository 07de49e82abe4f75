/**
 The constructors and builders of value/value.c. Each method states the new value, the new footprint, that the live
 blocks changed by exactly the difference of the footprints, and how many nodes it built.
 */
module ValueBuild {
  import opened Bytes
  import opened Wrappers
  import opened Values
  import opened ValueHeap

  method Malloc(mem: Memory, n: nat) returns (a: array<byte>)
    modifies mem
    ensures fresh(a) && a.Length == n && mem.live == old(mem.live) + {a}
    ensures mem.built == old(mem.built)
  {
    a := new byte[n];
    mem.live := mem.live + {a};
  }

  /** `free`, a no-op on NULL; freeing a block that is not live is excluded. */
  method Free(mem: Memory, o: object?)
    requires mem.Holds(Own(o))
    modifies mem
    ensures mem.live == old(mem.live) - Own(o)
    ensures mem.built == old(mem.built)
  {
    if o != null {
      mem.live := mem.live - {o};
    }
  }

  method DupBytes(mem: Memory, src: seq<byte>) returns (a: array?<byte>)
    modifies mem
    ensures HoldsBytes(a, |src|, src)
    ensures fresh(Own(a)) && mem.live == old(mem.live) + Own(a)
    ensures mem.built == old(mem.built)
  {
    if |src| == 0 {
      return null;
    }
    var p := Malloc(mem, |src|);
    forall i | 0 <= i < |src| {
      p[i] := src[i];
    }
    assert p[..] == src;
    a := p;
  }

  /** `strlen`. */
  method StrLen(s: array<byte>) returns (n: nat)
    requires 0 in s[..]
    ensures n < s.Length && s[n] == 0 && CString(s[..]) == s[..n]
  {
    n := 0;
    while s[n] != 0
      invariant n < s.Length && 0 in s[n..]
      invariant 0 !in s[..n]
      decreases s.Length - n
    {
      assert s[n..] == [s[n]] + s[n + 1..];
      assert s[..n + 1] == s[..n] + [s[n]];
      n := n + 1;
    }
    CStringIs(s[..], n);
  }

  lemma {:induction false} CStringIs(s: seq<byte>, n: nat)
    requires n < |s| && s[n] == 0 && 0 !in s[..n]
    ensures CString(s) == s[..n]
    decreases n
  {
    if n > 0 {
      assert s[..n] == [s[0]] + s[1..][..n - 1];
      CStringIs(s[1..], n - 1);
    }
  }

  /** What a C string buffer says, or nothing for NULL. */
  ghost function TextOf(a: array?<byte>): Option<cstring>
    reads a
  {
    if a == null then None else Some(CString(a[..]))
  }

  method DupCString(mem: Memory, src: array?<byte>) returns (a: array?<byte>)
    requires src != null ==> 0 in src[..]
    modifies mem
    ensures HoldsCString(a, TextOf(src))
    ensures fresh(Own(a)) && mem.live == old(mem.live) + Own(a)
    ensures mem.built == old(mem.built)
  {
    if src == null {
      return null;
    }
    var len := StrLen(src);
    assert src[..len + 1] == src[..len] + [0];
    var p := Malloc(mem, len + 1);
    forall i | 0 <= i < len + 1 {
      p[i] := src[i];
    }
    assert p[..] == src[..len + 1];
    a := p;
  }

  // ---------- Constructors ----------

  method AllocValue(mem: Memory, p: Payload) returns (v: ValueNode)
    modifies mem
    ensures fresh(v) && v.payload == p && mem.live == old(mem.live) + {v}
    ensures mem.built == old(mem.built) + 1
  {
    v := new ValueNode(p);
    mem.live, mem.built := mem.live + {v}, mem.built + 1;
  }

  method ValueNull(mem: Memory) returns (v: ValueNode)
    modifies mem
    ensures v.Valid() && fresh(v.repr) && v.model == Null
    ensures mem.live == old(mem.live) + v.repr
    ensures mem.built == old(mem.built) + 1
  {
    v := AllocValue(mem, PNull);
    v.repr, v.parts, v.model := {v}, [], Null;
  }

  method ValueBool(mem: Memory, b: bool) returns (v: ValueNode)
    modifies mem
    ensures v.Valid() && fresh(v.repr) && v.model == Bool(b)
    ensures mem.live == old(mem.live) + v.repr
    ensures mem.built == old(mem.built) + 1
  {
    v := AllocValue(mem, PBool(b));
    v.repr, v.parts, v.model := {v}, [], Bool(b);
  }

  method ValueLong(mem: Memory, i: i64) returns (v: ValueNode)
    modifies mem
    ensures v.Valid() && fresh(v.repr) && v.model == Long(i)
    ensures mem.live == old(mem.live) + v.repr
    ensures mem.built == old(mem.built) + 1
  {
    v := AllocValue(mem, PLong(i));
    v.repr, v.parts, v.model := {v}, [], Long(i);
  }

  method ValueDouble(mem: Memory, bits: u64) returns (v: ValueNode)
    modifies mem
    ensures v.Valid() && fresh(v.repr) && v.model == Double(bits)
    ensures mem.live == old(mem.live) + v.repr
    ensures mem.built == old(mem.built) + 1
  {
    v := AllocValue(mem, PDouble(bits));
    v.repr, v.parts, v.model := {v}, [], Double(bits);
  }

  method ValueStr(mem: Memory, s: seq<byte>) returns (v: ValueNode)
    modifies mem
    ensures v.Valid() && fresh(v.repr) && v.model == Str(s)
    ensures mem.live == old(mem.live) + v.repr
    ensures mem.built == old(mem.built) + 1
  {
    v := AllocValue(mem, PNull);
    var p := DupBytes(mem, s);
    v.payload := PStr(p, |s|);
    v.repr, v.parts, v.model := {v} + Own(p), [], Str(s);
  }

  method ValueArr(mem: Memory, initialCap: nat) returns (v: ValueNode)
    modifies mem
    ensures v.Valid() && fresh(v.repr) && v.payload.PArr? && v.model == Arr([])
    ensures v.repr == {v} + v.Slots() && fresh(v.Slots()) && (initialCap == 0 ==> v.Slots() == {})
    ensures mem.live == old(mem.live) + v.repr
    ensures mem.built == old(mem.built) + 1
  {
    v := AllocValue(mem, PNull);
    var items: array?<Kv> := null;
    if initialCap > 0 {
      items := new Kv[initialCap](_ => ZEROED);
      mem.live := mem.live + {items};
    }
    v.Set(PArr(items, 0, initialCap), {v} + Own(items), [], Arr([]));
  }

  method ValueObj(mem: Memory, cls: seq<byte>, initialCap: nat) returns (v: ValueNode)
    modifies mem
    ensures v.Valid() && fresh(v.repr) && v.payload.PObj? && v.model == Obj(cls, [])
    ensures v.repr == {v} + Own(v.payload.cls) + v.Slots() && fresh(v.Slots()) && (initialCap == 0 ==> v.Slots() == {})
    ensures mem.live == old(mem.live) + v.repr
    ensures mem.built == old(mem.built) + 1
  {
    v := AllocValue(mem, PNull);
    var c := DupBytes(mem, cls);
    var items: array?<Kv> := null;
    if initialCap > 0 {
      items := new Kv[initialCap](_ => ZEROED);
      mem.live := mem.live + {items};
    }
    v.Set(PObj(c, |cls|, items, 0, initialCap), {v} + Own(c) + Own(items), [], Obj(cls, []));
  }

  method ValueErr(mem: Memory, cls: array?<byte>, msg: array?<byte>, code: i64, trace: array?<byte>)
    returns (v: ValueNode)
    requires (cls != null ==> 0 in cls[..]) && (msg != null ==> 0 in msg[..]) && (trace != null ==> 0 in trace[..])
    modifies mem
    ensures v.Valid() && fresh(v.repr)
    ensures v.model == Error(TextOf(cls), TextOf(msg), code, TextOf(trace))
    ensures mem.live == old(mem.live) + v.repr
    ensures mem.built == old(mem.built) + 1
  {
    hide CString, HoldsCString, HoldsBlock, HoldsBytes, Union, TextOf;
    ghost var model := Error(TextOf(cls), TextOf(msg), code, TextOf(trace));
    v := AllocValue(mem, PNull);
    var c := DupCString(mem, cls);
    var m := DupCString(mem, msg);
    var t := DupCString(mem, trace);
    v.Set(PErr(c, m, code, t), {v} + Own(c) + Own(m) + Own(t), [], model);
    assert v.ValidErr(c, m, code, t);
  }

  // ---------- Builders ----------

  /** `grow`: a reallocated, larger array with the old slots in front and zeroed slots behind. */
  method Grow(mem: Memory, items: array?<Kv>, cap: nat) returns (items': array<Kv>, cap': nat)
    requires if items == null then cap == 0 else items.Length == cap
    requires mem.Holds(Own(items))
    modifies mem
    ensures fresh(items') && items'.Length == cap' > cap
    ensures forall i | 0 <= i < cap :: items'[i] == items[i]
    ensures mem.live == old(mem.live) - Own(items) + {items'}
    ensures mem.built == old(mem.built)
  {
    cap' := if cap == 0 then 4 else cap * 2;
    items' := new Kv[cap'](_ => ZEROED);
    forall i | 0 <= i < cap {
      items'[i] := items[i];
    }
    mem.live := mem.live + {items'};
    Free(mem, items);
  }

  /** Storing an entry in the first unused slot: the slots before it stand for what they stood for. */
  method Store(items: array<Kv>, n: nat, kv: Kv, ghost parts: seq<set<object>>, ghost es: seq<Entry>,
               ghost part: set<object>, ghost e: Entry, ghost all: set<object>)
    requires n < items.Length && HoldsBlock(items, n, parts, es, all) && HoldsEntry(kv, part, e)
    requires part !! all && items !in part
    modifies items
    ensures HoldsBlock(items, n + 1, parts + [part], es + [e], all + part)
  {
    items[n] := kv;
    ghost var parts', es' := parts + [part], es + [e];
    forall i | 0 <= i < n + 1
      ensures parts'[i] <= all + part && items !in parts'[i] && HoldsEntry(items[i], parts'[i], es'[i])
    {
      if i < n {
        assert parts'[i] == parts[i] && es'[i] == es[i];
        assert old(HoldsEntry(items[i], parts[i], es[i]));
      }
    }
  }

  /** The array after one more entry; it is reallocated when it is full. */
  method AppendSlot(mem: Memory, items: array?<Kv>, n: nat, cap: nat, kv: Kv,
                    ghost parts: seq<set<object>>, ghost es: seq<Entry>, ghost part: set<object>, ghost e: Entry)
    returns (items': array<Kv>, cap': nat)
    requires if items == null then cap == 0 else items.Length == cap
    requires n <= cap && HoldsBlock(items, n, parts, es, Union(parts)) && HoldsEntry(kv, part, e)
    requires mem.Holds(Own(items) + Union(parts) + part) && part !! Union(parts) + Own(items)
    modifies mem, items
    ensures items'.Length == cap' && n < cap' && (items' == items || fresh(items'))
    ensures HoldsBlock(items', n + 1, parts + [part], es + [e], Union(parts + [part]))
    ensures mem.live == old(mem.live) - Own(items) + {items'}
    ensures mem.built == old(mem.built)
  {
    UnionAppend(parts, part);
    if n == cap {
      items', cap' := Grow(mem, items, cap);
      KeepBlock(items, items', n, parts, es);
    } else {
      items', cap' := items, cap;
    }
    Store(items', n, kv, parts, es, part, e, Union(parts));
  }

  /** A copy of the slots stands for the same entries. */
  lemma KeepBlock(items: array?<Kv>, items': array<Kv>, n: nat, parts: seq<set<object>>, es: seq<Entry>)
    requires HoldsBlock(items, n, parts, es, Union(parts))
    requires n <= items'.Length && (forall i | 0 <= i < n :: items'[i] == items[i])
    requires items' !in Union(parts)
    ensures HoldsBlock(items', n, parts, es, Union(parts))
  {
    forall i | 0 <= i < n
      ensures parts[i] <= Union(parts) && items' !in parts[i] && HoldsEntry(items'[i], parts[i], es[i])
    {
      assert HoldsEntry(items[i], parts[i], es[i]);
    }
  }

  /** An array or object value with one more entry at the end. */
  function Extended(m: Value, e: Entry): Value {
    match m
    case Arr(es) => Arr(es + [e])
    case Obj(cls, es) => Obj(cls, es + [e])
    case _ => m
  }

  // Folding and unfolding of validity, so that the builders below need not look inside it.

  lemma FoldArr(v: ValueNode, items: array?<Kv>, n: nat, cap: nat, u: set<object>)
    requires v.payload == PArr(items, n, cap) && v.model.Arr? && u == Union(v.parts)
    requires v !in u && items !in u && v.repr == {v} + Own(items) + u
    requires n <= cap && (if items == null then cap == 0 else items.Length == cap)
    requires HoldsBlock(items, n, v.parts, v.model.items, u)
    ensures v.Valid()
  {
    assert v.ValidArr(items, n, cap);
  }

  lemma UnfoldArr(v: ValueNode)
    requires v.Valid() && v.payload.PArr?
    ensures var PArr(items, n, cap) := v.payload;
            var u := Union(v.parts);
            && v.model.Arr?
            && v !in u && items !in u && v.repr == {v} + Own(items) + u
            && n <= cap && (if items == null then cap == 0 else items.Length == cap)
            && HoldsBlock(items, n, v.parts, v.model.items, u)
  {
    var PArr(items, n, cap) := v.payload;
    assert v.ValidArr(items, n, cap);
  }

  lemma FoldObj(v: ValueNode, cls: array?<byte>, clen: nat, items: array?<Kv>, n: nat, cap: nat, u: set<object>)
    requires v.payload == PObj(cls, clen, items, n, cap) && v.model.Obj? && u == Union(v.parts)
    requires v !in u && cls !in u && items !in u && v.repr == {v} + Own(cls) + Own(items) + u
    requires n <= cap && (if items == null then cap == 0 else items.Length == cap)
    requires HoldsBytes(cls, clen, v.model.cls) && HoldsBlock(items, n, v.parts, v.model.props, u)
    ensures v.Valid()
  {
    assert v.ValidObj(cls, clen, items, n, cap);
  }

  lemma UnfoldObj(v: ValueNode)
    requires v.Valid() && v.payload.PObj?
    ensures var PObj(cls, clen, items, n, cap) := v.payload;
            var u := Union(v.parts);
            && v.model.Obj?
            && v !in u && cls !in u && items !in u && v.repr == {v} + Own(cls) + Own(items) + u
            && n <= cap && (if items == null then cap == 0 else items.Length == cap)
            && HoldsBytes(cls, clen, v.model.cls) && HoldsBlock(items, n, v.parts, v.model.props, u)
  {
    var PObj(cls, clen, items, n, cap) := v.payload;
    assert v.ValidObj(cls, clen, items, n, cap);
  }

  /** A footprint whose array was exchanged, and that took in the blocks of one more entry. */
  lemma NewFootprint(repr: set<object>, head: set<object>, items: array?<Kv>, items': array<Kv>,
                     u: set<object>, part: set<object>)
    requires items !in head && items !in u && repr == head + Own(items) + u
    ensures repr - Own(items) + Own(items') + part == head + Own(items') + (u + part)
  {
  }

  /** The common end of the builders of an array: `kv` becomes its last entry. */
  method AppendToArr(mem: Memory, v: ValueNode, kv: Kv, ghost part: set<object>, ghost e: Entry)
    requires v.Valid() && v.payload.PArr?
    requires HoldsEntry(kv, part, e) && part !! v.repr && mem.Holds(v.repr + part)
    modifies mem, v, v.Slots()
    ensures v.Valid() && v.payload.PArr? && v.model == Extended(old(v.model), e)
    ensures v.Slots() == old(v.Slots()) || fresh(v.Slots())
    ensures v.repr == old(v.repr) - old(v.Slots()) + v.Slots() + part
    ensures mem.live == old(mem.live) - old(v.Slots()) + v.Slots()
    ensures mem.built == old(mem.built)
  {
    hide ValueNode.Valid, HoldsBlock, HoldsEntry, Union, HoldsBytes;
    UnfoldArr(v);
    ghost var m, parts, u := v.model, v.parts, Union(v.parts);
    var PArr(items, n, cap) := v.payload;
    var items', cap' := AppendSlot(mem, items, n, cap, kv, parts, m.items, part, e);
    UnionAppend(parts, part);
    NewFootprint(v.repr, {v}, items, items', u, part);
    v.Set(PArr(items', n + 1, cap'), v.repr - Own(items) + Own(items') + part, parts + [part], Extended(m, e));
    FoldArr(v, items', n + 1, cap', u + part);
  }

  /** The same for an object. */
  method AppendToObj(mem: Memory, v: ValueNode, kv: Kv, ghost part: set<object>, ghost e: Entry)
    requires v.Valid() && v.payload.PObj?
    requires HoldsEntry(kv, part, e) && part !! v.repr && mem.Holds(v.repr + part)
    modifies mem, v, v.Slots()
    ensures v.Valid() && v.payload.PObj? && v.model == Extended(old(v.model), e)
    ensures v.Slots() == old(v.Slots()) || fresh(v.Slots())
    ensures v.repr == old(v.repr) - old(v.Slots()) + v.Slots() + part
    ensures mem.live == old(mem.live) - old(v.Slots()) + v.Slots()
    ensures mem.built == old(mem.built)
  {
    hide ValueNode.Valid, HoldsBlock, HoldsEntry, Union, HoldsBytes;
    UnfoldObj(v);
    ghost var m, parts, u := v.model, v.parts, Union(v.parts);
    var PObj(cls, clen, items, n, cap) := v.payload;
    var items', cap' := AppendSlot(mem, items, n, cap, kv, parts, m.props, part, e);
    UnionAppend(parts, part);
    NewFootprint(v.repr, {v} + Own(cls), items, items', u, part);
    v.Set(PObj(cls, clen, items', n + 1, cap'), v.repr - Own(items) + Own(items') + part, parts + [part], Extended(m, e));
    FoldObj(v, cls, clen, items', n + 1, cap', u + part);
  }

  /** A slot with an integer key, over a child that the caller hands over. */
  lemma IntEntry(key: i64, child: ValueNode?)
    requires child != null ==> child.Valid()
    ensures HoldsEntry(Kv(true, key, null, 0, child), ReprOf(child), Entry(IntKey(key), ModelOf(child)))
  {
  }

  lemma StrEntry(skey: array?<byte>, key: seq<byte>, child: ValueNode?)
    requires child != null ==> child.Valid() && skey !in child.repr
    requires HoldsBytes(skey, |key|, key)
    ensures HoldsEntry(Kv(false, 0, skey, |key|, child), Own(skey) + ReprOf(child),
                       Entry(StrKey(key), ModelOf(child)))
  {
  }

  /** How the live blocks changed, told by the footprint as a whole. */
  lemma Exchange(live: set<object>, repr: set<object>, drop: set<object>, add: set<object>,
                 part: set<object>, extra: set<object>)
    requires drop <= repr <= live && part !! repr && extra <= part && part - extra <= live
    ensures live + extra - drop + add == live - repr + (repr - drop + add + part)
  {
  }

  /** `value_arr_set_int`. The child belongs to the array afterwards. */
  method ValueArrSetInt(mem: Memory, arr: ValueNode, key: i64, child: ValueNode?)
    requires arr.Valid() && arr.payload.PArr? && (child != null ==> child.Valid())
    requires ReprOf(child) !! arr.repr && mem.Holds(arr.repr + ReprOf(child))
    modifies mem, arr, arr.Slots()
    ensures arr.Valid() && arr.payload.PArr?
    ensures arr.model == Extended(old(arr.model), Entry(IntKey(key), old(ModelOf(child))))
    ensures old(ReprOf(child)) <= arr.repr && fresh(arr.repr - old(arr.repr) - old(ReprOf(child)))
    ensures mem.live == old(mem.live) - old(arr.repr) + arr.repr && mem.Holds(arr.repr)
    ensures arr.Slots() == old(arr.Slots()) || fresh(arr.Slots())
    ensures mem.built == old(mem.built)
  {
    hide ValueNode.Valid, HoldsEntry, ModelOf;
    UnfoldArr(arr);
    IntEntry(key, child);
    ghost var part, e := ReprOf(child), Entry(IntKey(key), ModelOf(child));
    AppendToArr(mem, arr, Kv(true, key, null, 0, child), part, e);
    Exchange(old(mem.live), old(arr.repr), old(arr.Slots()), arr.Slots(), part, {});
  }

  /** `value_arr_set_str`. The key is copied. */
  method ValueArrSetStr(mem: Memory, arr: ValueNode, key: seq<byte>, child: ValueNode?)
    requires arr.Valid() && arr.payload.PArr? && (child != null ==> child.Valid())
    requires ReprOf(child) !! arr.repr && mem.Holds(arr.repr + ReprOf(child))
    modifies mem, arr, arr.Slots()
    ensures arr.Valid() && arr.payload.PArr?
    ensures arr.model == Extended(old(arr.model), Entry(StrKey(key), old(ModelOf(child))))
    ensures old(ReprOf(child)) <= arr.repr && fresh(arr.repr - old(arr.repr) - old(ReprOf(child)))
    ensures mem.live == old(mem.live) - old(arr.repr) + arr.repr && mem.Holds(arr.repr)
    ensures arr.Slots() == old(arr.Slots()) || fresh(arr.Slots())
    ensures mem.built == old(mem.built)
  {
    hide ValueNode.Valid, HoldsEntry, HoldsBytes, ModelOf;
    UnfoldArr(arr);
    var skey := DupBytes(mem, key);
    StrEntry(skey, key, child);
    ghost var part, e := Own(skey) + ReprOf(child), Entry(StrKey(key), ModelOf(child));
    AppendToArr(mem, arr, Kv(false, 0, skey, |key|, child), part, e);
    Exchange(old(mem.live), old(arr.repr), old(arr.Slots()), arr.Slots(), part, Own(skey));
  }

  /** `value_obj_set`. */
  method ValueObjSet(mem: Memory, obj: ValueNode, key: seq<byte>, child: ValueNode?)
    requires obj.Valid() && obj.payload.PObj? && (child != null ==> child.Valid())
    requires ReprOf(child) !! obj.repr && mem.Holds(obj.repr + ReprOf(child))
    modifies mem, obj, obj.Slots()
    ensures obj.Valid() && obj.payload.PObj?
    ensures obj.model == Extended(old(obj.model), Entry(StrKey(key), old(ModelOf(child))))
    ensures old(ReprOf(child)) <= obj.repr && fresh(obj.repr - old(obj.repr) - old(ReprOf(child)))
    ensures mem.live == old(mem.live) - old(obj.repr) + obj.repr && mem.Holds(obj.repr)
    ensures obj.Slots() == old(obj.Slots()) || fresh(obj.Slots())
    ensures mem.built == old(mem.built)
  {
    hide ValueNode.Valid, HoldsEntry, HoldsBytes, ModelOf;
    UnfoldObj(obj);
    var skey := DupBytes(mem, key);
    StrEntry(skey, key, child);
    ghost var part, e := Own(skey) + ReprOf(child), Entry(StrKey(key), ModelOf(child));
    AppendToObj(mem, obj, Kv(false, 0, skey, |key|, child), part, e);
    Exchange(old(mem.live), old(obj.repr), old(obj.Slots()), obj.Slots(), part, Own(skey));
  }

  lemma ContainerModel(v: ValueNode)
    requires v.Valid()
    ensures (v.payload.PArr? ==> v.model.Arr?) && (v.payload.PObj? ==> v.model.Obj?)
  {
    if v.payload.PArr? {
      UnfoldArr(v);
    } else if v.payload.PObj? {
      UnfoldObj(v);
    }
  }
}
