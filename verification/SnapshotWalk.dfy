/** The capture walk as the C code performs it: it builds the tree node by node, and frees what it has on a refusal. */
module SnapshotWalk {
  import opened Bytes
  import opened Wrappers
  import opened Values
  import opened ValueHeap
  import opened ValueBuild
  import opened ValueDestroy
  import opened ValueAccess
  import opened Zvals
  import opened Snapshot

  /** One element more. */
  lemma CaptureListStep(h: Heap, cs: seq<Elem>, depth: nat, isArr: bool, es: seq<Entry>, c: Elem)
    requires depth <= MAX_DEPTH && CaptureList(h, cs, depth, isArr) == Ok(es)
    ensures CaptureList(h, cs + [c], depth, isArr) ==
            if isArr && c.val.ZReference? then Err(ByRefElement)
            else match Capture(h, c.val, depth + 1)
                 case Err(e) => Err(e)
                 case Ok(v) => Ok(es + [Entry(KeyIn(c.key), v)])
  {
    assert (cs + [c])[..|cs|] == cs;
  }

  /** What the walk of a list has led to: the container holds the entries, or the walk has stopped. */
  ghost predicate Reached(list: Result<seq<Entry>, Refusal>, m: Value, thrown: Option<Refusal>) {
    match list
    case Ok(es) => thrown == None && EntriesOf(m) == es
    case Err(e) => thrown == Some(e)
  }

  /** The whole walk has stopped where a part of it has. */
  lemma ReachedPrefix(h: Heap, cs: seq<Elem>, cs': seq<Elem>, depth: nat, isArr: bool, m: Value,
                      thrown: Option<Refusal>)
    requires depth <= MAX_DEPTH && cs <= cs' && thrown.Some? && Reached(CaptureList(h, cs, depth, isArr), m, thrown)
    ensures Reached(CaptureList(h, cs', depth, isArr), m, thrown)
  {
    CaptureListPrefix(h, cs, cs', depth, isArr);
  }

  /** A container that this walk has built and still owns. */
  ghost predicate IsContainer(v: ValueNode, isArr: bool)
    reads v
  {
    if isArr then v.payload.PArr? && v.model.Arr? else v.payload.PObj? && v.model.Obj?
  }

  /** The end of a loop turn: `value_arr_set_str`, `value_arr_set_int` or `value_obj_set`. */
  method AddChild(mem: Memory, v: ValueNode, isArr: bool, key: ZKey, child: ValueNode)
    requires v.Valid() && child.Valid() && (if isArr then v.payload.PArr? else v.payload.PObj? && key.Name?)
    requires child.repr !! v.repr && mem.Holds(v.repr + child.repr)
    modifies mem, v, v.Slots()
    ensures v.Valid() && (if isArr then v.payload.PArr? else v.payload.PObj?)
    ensures v.model == Extended(old(v.model), Entry(KeyIn(key), old(child.model)))
    ensures old(child.repr) <= v.repr && fresh(v.repr - old(v.repr) - old(child.repr))
    ensures mem.live == old(mem.live) - old(v.repr) + v.repr && mem.Holds(v.repr)
    ensures v.Slots() == old(v.Slots()) || fresh(v.Slots())
  {
    hide ValueNode.Valid;
    if !isArr {
      ValueObjSet(mem, v, key.s, child);
    } else if key.Name? {
      ValueArrSetStr(mem, v, key.s, child);
    } else {
      ValueArrSetInt(mem, v, ToI64(key.h), child);
    }
  }

  /** One turn of a loop: the walk below one element, whose value then becomes the last entry. */
  method CaptureChild(mem: Memory, h: Heap, v: ValueNode, isArr: bool, ghost cs: seq<Elem>, c: Elem, depth: nat)
    returns (thrown: Option<Refusal>)
    requires depth <= MAX_DEPTH && v.Valid() && IsContainer(v, isArr) && (!isArr ==> c.key.Name?)
    requires mem.Holds(v.repr) && !(isArr && c.val.ZReference?)
    requires CaptureList(h, cs, depth, isArr) == Ok(EntriesOf(v.model))
    modifies mem, v, v.Slots()
    ensures v.Valid() && IsContainer(v, isArr)
    ensures v.model.Obj? ==> v.model.cls == old(ClassOf(v.model))
    ensures Reached(CaptureList(h, cs + [c], depth, isArr), v.model, thrown)
    ensures fresh(v.repr - old(v.repr))
    ensures mem.live == old(mem.live) - old(v.repr) + v.repr && mem.Holds(v.repr)
    ensures v.Slots() == old(v.Slots()) || fresh(v.Slots())
    decreases MAX_DEPTH - depth, 1
  {
    CaptureListStep(h, cs, depth, isArr, EntriesOf(v.model), c);
    hide ValueNode.Valid, CaptureList, Capture;
    var child;
    child, thrown := ZvalToValue(mem, h, c.val, depth + 1);
    if child == null {
      return;
    }
    AddChild(mem, v, isArr, c.key, child);
  }

  function ClassOf(m: Value): seq<byte> {
    if m.Obj? then m.cls else []
  }

  /** `array_to_value`. */
  method ArrayToValue(mem: Memory, h: Heap, elems: seq<Elem>, depth: nat)
    returns (v: ValueNode?, thrown: Option<Refusal>)
    requires depth <= MAX_DEPTH && mem.Holds({})
    modifies mem
    ensures match CaptureList(h, elems, depth, true)
            case Ok(es) => v != null && v.Valid() && v.model == Arr(es) && thrown == None
            case Err(e) => v == null && thrown == Some(e)
    ensures fresh(ReprOf(v)) && mem.live == old(mem.live) + ReprOf(v)
    decreases MAX_DEPTH - depth, 2
  {
    hide ValueNode.Valid, CaptureList;
    var arr := ValueArr(mem, |elems|);
    assert elems[..0] == [];
    NothingToCapture(h, depth, true);
    thrown := None;
    var i := 0;
    while i < |elems| && thrown == None
      invariant 0 <= i <= |elems| && arr.Valid() && IsContainer(arr, true)
      invariant Reached(CaptureList(h, elems[..i], depth, true), arr.model, thrown)
      invariant fresh(arr.repr) && fresh(arr.Slots()) && mem.live == old(mem.live) + arr.repr && mem.Holds(arr.repr)
      decreases |elems| - i
    {
      assert elems[..i + 1] == elems[..i] + [elems[i]];
      if elems[i].val.ZReference? {
        CaptureListStep(h, elems[..i], depth, true, EntriesOf(arr.model), elems[i]);
        thrown := Some(ByRefElement);
      } else {
        thrown := CaptureChild(mem, h, arr, true, elems[..i], elems[i], depth);
      }
      i := i + 1;
    }
    assert elems[..|elems|] == elems;
    if thrown.Some? {
      ReachedPrefix(h, elems[..i], elems, depth, true, arr.model, thrown);
      ValueFree(mem, arr);
      return null, thrown;
    }
    v := arr;
  }

  /** The scan for a name among the properties captured so far: whole length, then `memcmp`. */
  method AlreadyCaptured(ghost mem: Memory, obj: ValueNode, key: seq<byte>) returns (already: bool)
    requires obj.Valid() && obj.payload.PObj?
    requires mem.Holds(obj.repr)
    ensures obj.model.Obj?
    ensures already == exists i | 0 <= i < |obj.model.props| :: StoredKey(obj.model.props[i].key, false) == StrKey(key)
  {
    UnfoldObj(obj);
    var PObj(_, _, items, n, _) := obj.payload;
    ghost var es := obj.model.props;
    BlockSize(items, n, obj.parts, es);
    hide ValueNode.Valid, HoldsBlock, HoldsEntry;
    var i := 0;
    while i < n
      invariant 0 <= i <= n == |es|
      invariant forall j | 0 <= j < i :: StoredKey(es[j].key, false) != StrKey(key)
    {
      BlockEntry(items, n, obj.parts, es, i);
      EntryKey(items[i], obj.parts[i], es[i]);
      SlotName(items[i], obj.parts[i], es[i]);
      if items[i].skeyLen == |key| {
        var same := SameBytes(mem, items[i].skey, key, StoredKey(es[i].key, false).skey);
        if same {
          return true;
        }
      }
      i := i + 1;
    }
    already := false;
  }

  /** The key string of a slot; a slot with an integer key has none, which is as good as an empty one. */
  lemma SlotName(kv: Kv, part: set<object>, e: Entry)
    requires HoldsEntry(kv, part, e)
    ensures HoldsBytes(kv.skey, kv.skeyLen, StoredKey(e.key, false).skey)
  {
  }

  /** The captured names are the names of the visited properties. */
  lemma NamesCaptured(h: Heap, cs: seq<Elem>, depth: nat, es: seq<Entry>, name: seq<byte>)
    requires depth <= MAX_DEPTH && CaptureList(h, cs, depth, false) == Ok(es)
    requires Named(cs)
    ensures HasKey(cs, Name(name)) <==> exists i | 0 <= i < |es| :: StoredKey(es[i].key, false) == StrKey(name)
  {
    CaptureListIff(h, cs, depth, false, es);
    hide CaptureList, Capture;
    if i :| 0 <= i < |cs| && cs[i].key == Name(name) {
      assert EntryOf(h, cs[i], depth, es[i]);
    }
    if i :| 0 <= i < |es| && StoredKey(es[i].key, false) == StrKey(name) {
      assert EntryOf(h, cs[i], depth, es[i]);
    }
  }

  /** The loop over the declared properties. */
  method CaptureDeclared(mem: Memory, h: Heap, obj: ValueNode, ps: seq<Declared>, depth: nat)
    returns (thrown: Option<Refusal>)
    requires depth <= MAX_DEPTH && obj.Valid() && IsContainer(obj, false) && EntriesOf(obj.model) == []
    requires mem.Holds(obj.repr)
    modifies mem, obj, obj.Slots()
    ensures obj.Valid() && IsContainer(obj, false) && obj.model.cls == old(ClassOf(obj.model))
    ensures Reached(CaptureList(h, DeclaredElems(h, ps), depth, false), obj.model, thrown)
    ensures fresh(obj.repr - old(obj.repr))
    ensures mem.live == old(mem.live) - old(obj.repr) + obj.repr && mem.Holds(obj.repr)
    ensures obj.Slots() == old(obj.Slots()) || fresh(obj.Slots())
    decreases MAX_DEPTH - depth, 2
  {
    hide ValueNode.Valid, CaptureList;
    assert DeclaredElems(h, ps[..0]) == [];
    NothingToCapture(h, depth, false);
    thrown := None;
    var i := 0;
    while i < |ps| && thrown == None
      invariant 0 <= i <= |ps| && obj.Valid() && IsContainer(obj, false) && obj.model.cls == old(ClassOf(obj.model))
      invariant Reached(CaptureList(h, DeclaredElems(h, ps[..i]), depth, false), obj.model, thrown)
      invariant fresh(obj.repr - old(obj.repr))
      invariant mem.live == old(mem.live) - old(obj.repr) + obj.repr && mem.Holds(obj.repr)
      invariant obj.Slots() == old(obj.Slots()) || fresh(obj.Slots())
      decreases |ps| - i
    {
      assert ps[..i + 1][..i] == ps[..i];
      if !ps[i].isStatic && ps[i].slot != ZUndef {
        var c := Elem(Name(ps[i].name), Deref(h, ps[i].slot));
        thrown := CaptureChild(mem, h, obj, false, DeclaredElems(h, ps[..i]), c, depth);
      }
      i := i + 1;
    }
    assert ps[..|ps|] == ps;
    if thrown.Some? {
      DeclaredElemsPrefix(h, ps, i);
      ReachedPrefix(h, DeclaredElems(h, ps[..i]), DeclaredElems(h, ps), depth, false, obj.model, thrown);
    }
  }

  /** The loop over the dynamic properties. */
  method CaptureDynamic(mem: Memory, h: Heap, obj: ValueNode, ghost cs: seq<Elem>, ps: seq<Dynamic>, depth: nat)
    returns (thrown: Option<Refusal>)
    requires depth <= MAX_DEPTH && obj.Valid() && IsContainer(obj, false) && Named(cs)
    requires CaptureList(h, cs, depth, false) == Ok(EntriesOf(obj.model))
    requires mem.Holds(obj.repr)
    modifies mem, obj, obj.Slots()
    ensures obj.Valid() && IsContainer(obj, false) && obj.model.cls == old(ClassOf(obj.model))
    ensures Reached(CaptureList(h, WithDynamic(h, cs, ps), depth, false), obj.model, thrown)
    ensures fresh(obj.repr - old(obj.repr))
    ensures mem.live == old(mem.live) - old(obj.repr) + obj.repr && mem.Holds(obj.repr)
    ensures obj.Slots() == old(obj.Slots()) || fresh(obj.Slots())
    decreases MAX_DEPTH - depth, 2
  {
    hide ValueNode.Valid, CaptureList, HasKey, Named;
    thrown := None;
    var i := 0;
    while i < |ps| && thrown == None
      invariant 0 <= i <= |ps| && obj.Valid() && IsContainer(obj, false) && obj.model.cls == old(ClassOf(obj.model))
      invariant Reached(CaptureList(h, WithDynamic(h, cs, ps[..i]), depth, false), obj.model, thrown)
      invariant fresh(obj.repr - old(obj.repr))
      invariant mem.live == old(mem.live) - old(obj.repr) + obj.repr && mem.Holds(obj.repr)
      invariant obj.Slots() == old(obj.Slots()) || fresh(obj.Slots())
      decreases |ps| - i
    {
      assert ps[..i + 1][..i] == ps[..i];
      if ps[i].name.Some? && ps[i].slot != ZUndef {
        ghost var seen := WithDynamic(h, cs, ps[..i]);
        DynamicNamed(h, cs, ps[..i]);
        NamesCaptured(h, seen, depth, obj.model.props, ps[i].name.value);
        var already := AlreadyCaptured(mem, obj, ps[i].name.value);
        if !already {
          var c := Elem(Name(ps[i].name.value), Deref(h, ps[i].slot));
          thrown := CaptureChild(mem, h, obj, false, seen, c, depth);
        }
      }
      i := i + 1;
    }
    assert ps[..|ps|] == ps;
    if thrown.Some? {
      WithDynamicPrefix(h, cs, ps, i);
      ReachedPrefix(h, WithDynamic(h, cs, ps[..i]), WithDynamic(h, cs, ps), depth, false, obj.model, thrown);
    }
  }

  /** Both loops. */
  method CaptureProps(mem: Memory, h: Heap, obj: ValueNode, data: ObjectData, depth: nat)
    returns (thrown: Option<Refusal>)
    requires depth <= MAX_DEPTH && obj.Valid() && IsContainer(obj, false) && EntriesOf(obj.model) == []
    requires mem.Holds(obj.repr)
    modifies mem, obj, obj.Slots()
    ensures obj.Valid() && IsContainer(obj, false) && obj.model.cls == old(ClassOf(obj.model))
    ensures Reached(CaptureList(h, PropsOf(h, data), depth, false), obj.model, thrown)
    ensures fresh(obj.repr - old(obj.repr))
    ensures mem.live == old(mem.live) - old(obj.repr) + obj.repr && mem.Holds(obj.repr)
    decreases MAX_DEPTH - depth, 3
  {
    hide ValueNode.Valid, CaptureList, DeclaredElems, WithDynamic;
    ghost var declared := DeclaredElems(h, data.declared);
    thrown := CaptureDeclared(mem, h, obj, data.declared, depth);
    if thrown.Some? {
      DynamicAfter(h, declared, data.dynamic);
      ReachedPrefix(h, declared, PropsOf(h, data), depth, false, obj.model, thrown);
      return;
    }
    DeclaredNamed(h, data.declared);
    thrown := CaptureDynamic(mem, h, obj, declared, data.dynamic, depth);
  }

  /** `object_to_value`. */
  method ObjectToValue(mem: Memory, h: Heap, o: ObjectRef, depth: nat)
    returns (v: ValueNode?, thrown: Option<Refusal>)
    requires depth <= MAX_DEPTH && mem.Holds({})
    modifies mem
    ensures match Capture(h, ZObject(o), depth)
            case Ok(m) => v != null && v.Valid() && v.model == m && thrown == None
            case Err(e) => v == null && thrown == Some(e)
    ensures fresh(ReprOf(v)) && mem.live == old(mem.live) + ReprOf(v)
    decreases MAX_DEPTH - depth, 4
  {
    var data := h.objects(o);
    if data.isClosure {
      return null, Some(NestedClosure);
    }
    if data.isNative {
      return null, Some(NativeState);
    }
    hide ValueNode.Valid, CaptureList, PropsOf;
    var obj := ValueObj(mem, data.cls, 0);
    thrown := CaptureProps(mem, h, obj, data, depth);
    if thrown.Some? {
      ValueFree(mem, obj);
      return null, thrown;
    }
    v := obj;
  }

  lemma DynamicAfter(h: Heap, cs: seq<Elem>, ps: seq<Dynamic>)
    ensures cs <= WithDynamic(h, cs, ps)
  {
    WithDynamicPrefix(h, cs, ps, 0);
    assert WithDynamic(h, cs, ps[..0]) == cs;
  }

  /** `zval_to_value_inner`: the captured tree, or NULL, the refusal that was thrown, and no block left behind. */
  method ZvalToValue(mem: Memory, h: Heap, z: Zval, depth: nat)
    returns (v: ValueNode?, thrown: Option<Refusal>)
    requires depth <= MAX_DEPTH + 1 && mem.Holds({})
    modifies mem
    ensures match Capture(h, z, depth)
            case Ok(m) => v != null && v.Valid() && v.model == m && thrown == None
            case Err(e) => v == null && thrown == Some(e)
    ensures fresh(ReprOf(v)) && mem.live == old(mem.live) + ReprOf(v)
    decreases MAX_DEPTH + 1 - depth, 0
  {
    hide ValueNode.Valid, CaptureList;
    thrown := None;
    if depth > MAX_DEPTH {
      return null, Some(TooDeep);
    }
    match z {
      case ZNull => v := ValueNull(mem);
      case ZBool(b) => v := ValueBool(mem, b);
      case ZLong(i) => v := ValueLong(mem, i);
      case ZDouble(bits) => v := ValueDouble(mem, bits);
      case ZString(s) => v := ValueStr(mem, s);
      case ZArray(elems) => v, thrown := ArrayToValue(mem, h, elems, depth);
      case ZObject(o) => v, thrown := ObjectToValue(mem, h, o, depth);
      case ZResource => v, thrown := null, Some(NoResource);
      case ZReference(_) => v, thrown := null, Some(ByReference);
      case _ => v, thrown := null, Some(Unsupported);
    }
  }
}
