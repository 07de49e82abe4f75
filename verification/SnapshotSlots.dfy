/** What the capture walk makes of an object's slots as they are: static, without a value, references, names taken. */
module SnapshotSlots {
  import opened Bytes
  import opened Wrappers
  import opened Values
  import opened Zvals
  import opened Snapshot
  import opened SnapshotRefusal

  // ---------- One property more ----------

  /** A captured object with one property more, or the refusal of the property's value. */
  function WithProperty(v: Value, name: seq<byte>, r: Result<Value, Refusal>): Result<Value, Refusal>
    requires v.Obj?
  {
    match r
    case Err(e) => Err(e)
    case Ok(w) => Ok(Obj(v.cls, v.props + [Entry(StrKey(name), w)]))
  }

  /** An object whose class may travel and that has no properties. */
  lemma NoProperties(h: Heap, o: ObjectRef, depth: nat)
    requires depth <= 256 && !h.objects(o).isClosure && !h.objects(o).isNative
    requires h.objects(o).declared == [] && h.objects(o).dynamic == []
    ensures Capture(h, ZObject(o), depth) == Ok(Obj(h.objects(o).cls, []))
  {
    NothingToCapture(h, depth, false);
    hide CaptureList;
  }

  /** One visited property more. */
  lemma VisitedStep(h: Heap, o: ObjectRef, o': ObjectRef, name: seq<byte>, z: Zval, depth: nat)
    requires depth <= MAX_DEPTH
    requires h.objects(o').cls == h.objects(o).cls
    requires h.objects(o').isClosure == h.objects(o).isClosure && h.objects(o').isNative == h.objects(o).isNative
    requires PropsOf(h, h.objects(o')) == PropsOf(h, h.objects(o)) + [Elem(Name(name), z)]
    ensures var r := Capture(h, ZObject(o), depth);
            && (r.Ok? ==> r.value.Obj?)
            && Capture(h, ZObject(o'), depth) == if r.Err? then r else WithProperty(r.value, name, Capture(h, z, depth + 1))
  {
    var cs := PropsOf(h, h.objects(o));
    assert (cs + [Elem(Name(name), z)])[..|cs|] == cs;
    hide PropsOf;
  }

  lemma SameProperties(h: Heap, o: ObjectRef, o': ObjectRef, depth: nat)
    requires depth <= MAX_DEPTH
    requires h.objects(o').cls == h.objects(o).cls
    requires h.objects(o').isClosure == h.objects(o).isClosure && h.objects(o').isNative == h.objects(o).isNative
    requires PropsOf(h, h.objects(o')) == PropsOf(h, h.objects(o))
    ensures Capture(h, ZObject(o'), depth) == Capture(h, ZObject(o), depth)
  {
    hide PropsOf, CaptureList;
  }

  /**
   One declared property more: a static one and one without a value change nothing, and of a reference the value of its
   cell is captured.
   */
  lemma DeclaredStep(h: Heap, o: ObjectRef, o': ObjectRef, p: Declared, depth: nat)
    requires depth <= MAX_DEPTH && h.objects(o).dynamic == []
    requires h.objects(o') == h.objects(o).(declared := h.objects(o).declared + [p])
    ensures var r := Capture(h, ZObject(o), depth);
            && (r.Ok? ==> r.value.Obj?)
            && Capture(h, ZObject(o'), depth) ==
               if r.Err? || p.isStatic || p.slot == ZUndef then r
               else if p.slot.ZReference? then
                 WithProperty(r.value, p.name, Capture(h, h.cells(p.slot.cell), depth + 1))
               else WithProperty(r.value, p.name, Capture(h, p.slot, depth + 1))
  {
    var ps := h.objects(o).declared;
    assert (ps + [p])[..|ps|] == ps;
    hide Capture;
    if p.isStatic || p.slot == ZUndef {
      SameProperties(h, o, o', depth);
      CapturedIsObj(h, o, depth);
    } else {
      VisitedStep(h, o, o', p.name, Deref(h, p.slot), depth);
    }
  }

  lemma CapturedIsObj(h: Heap, o: ObjectRef, depth: nat)
    requires depth <= MAX_DEPTH
    ensures var r := Capture(h, ZObject(o), depth); r.Ok? ==> r.value.Obj? && |r.value.props| == |PropsOf(h, h.objects(o))|
  {
    hide CaptureList, PropsOf;
  }

  /** Some captured property has this name. */
  predicate HasProperty(v: Value, name: seq<byte>)
    requires v.Obj?
  {
    exists i | 0 <= i < |v.props| :: v.props[i].key == StrKey(name)
  }

  /** One dynamic property more: likewise, and nor does one without a name, or under a name that is captured already. */
  lemma DynamicStep(h: Heap, o: ObjectRef, o': ObjectRef, p: Dynamic, depth: nat)
    requires depth <= MAX_DEPTH
    requires h.objects(o') == h.objects(o).(dynamic := h.objects(o).dynamic + [p])
    ensures var r := Capture(h, ZObject(o), depth);
            && (r.Ok? ==> r.value.Obj?)
            && Capture(h, ZObject(o'), depth) ==
               if r.Err? || p.name.None? || p.slot == ZUndef || HasProperty(r.value, p.name.value) then r
               else if p.slot.ZReference? then
                 WithProperty(r.value, p.name.value, Capture(h, h.cells(p.slot.cell), depth + 1))
               else WithProperty(r.value, p.name.value, Capture(h, p.slot, depth + 1))
  {
    var ps := h.objects(o).dynamic;
    assert (ps + [p])[..|ps|] == ps;
    CapturedIsObj(h, o, depth);
    if p.name.Some? {
      PropertyNames(h, o, p.name.value, depth);
    }
    hide Capture, HasKey, HasProperty;
    var cs := PropsOf(h, h.objects(o));
    if DynamicKept(cs, p) {
      VisitedStep(h, o, o', p.name.value, Deref(h, p.slot), depth);
    } else {
      SameProperties(h, o, o', depth);
    }
  }

  lemma PropertyNames(h: Heap, o: ObjectRef, name: seq<byte>, depth: nat)
    requires depth <= MAX_DEPTH
    ensures var r := Capture(h, ZObject(o), depth);
            r.Ok? ==> r.value.Obj? && (HasProperty(r.value, name) <==> HasKey(PropsOf(h, h.objects(o)), Name(name)))
  {
    var cs, r := PropsOf(h, h.objects(o)), Capture(h, ZObject(o), depth);
    PropsNamed(h, h.objects(o));
    hide PropsOf;
    if r.Ok? {
      CaptureListIff(h, cs, depth, false, r.value.props);
      hide Capture, CaptureList;
      forall i | 0 <= i < |cs|
        ensures cs[i].key == Name(name) <==> r.value.props[i].key == StrKey(name)
      {
        assert EntryOf(h, cs[i], depth, r.value.props[i]);
      }
    }
  }

  /**
   The walk refuses a property as a reference exactly if its slot is a reference to a cell that holds a reference again.
   The path [n] leads to the property behind the n that are captured.
   */
  lemma ByReferenceAt(h: Heap, o: ObjectRef, o': ObjectRef, p: Declared, depth: nat)
    requires depth < 256 && h.objects(o).dynamic == [] && !p.isStatic && p.slot != ZUndef
    requires h.objects(o') == h.objects(o).(declared := h.objects(o).declared + [p])
    requires Capture(h, ZObject(o), depth).Ok?
    ensures var v := Capture(h, ZObject(o), depth).value;
            v.Obj? && (FaultOn(h, ZObject(o'), depth, false, [|v.props|]) == Some(ByReference)
                       <==> p.slot.ZReference? && h.cells(p.slot.cell).ZReference?)
    ensures p.slot.ZReference? && h.cells(p.slot.cell).ZReference? ==> Capture(h, ZObject(o'), depth) == Err(ByReference)
  {
    var ps, n := h.objects(o).declared, |PropsOf(h, h.objects(o))|;
    assert (ps + [p])[..|ps|] == ps;
    CapturedIsObj(h, o, depth);
    DeclaredStep(h, o, o', p, depth);
    assert Children(h, ZObject(o')) == PropsOf(h, h.objects(o)) + [Elem(Name(p.name), Deref(h, p.slot))];
    hide PropsOf, CaptureList, Children;
    assert [n][1..] == [];
    assert FaultOn(h, ZObject(o'), depth, false, [n]) == FaultAt(h, Deref(h, p.slot), depth + 1, false);
  }

  // ---------- References in slots are followed ----------

  /** The slot itself, or what the cell holds that it refers to, unless that is a reference or nothing. */
  predicate Replaces(h: Heap, slot: Zval, slot': Zval) {
    || slot' == slot
    || (slot.ZReference? && slot' == h.cells(slot.cell) && !slot'.ZReference? && slot' != ZUndef)
  }

  ghost predicate DeclaredReplaced(h: Heap, ps: seq<Declared>, ps': seq<Declared>) {
    |ps'| == |ps| && forall i | 0 <= i < |ps| ::
      ps'[i].name == ps[i].name && ps'[i].isStatic == ps[i].isStatic && Replaces(h, ps[i].slot, ps'[i].slot)
  }

  ghost predicate DynamicReplaced(h: Heap, ps: seq<Dynamic>, ps': seq<Dynamic>) {
    |ps'| == |ps| && forall i | 0 <= i < |ps| :: ps'[i].name == ps[i].name && Replaces(h, ps[i].slot, ps'[i].slot)
  }

  ghost predicate ObjectReplaced(h: Heap, a: ObjectData, b: ObjectData) {
    && b.cls == a.cls && b.isClosure == a.isClosure && b.isNative == a.isNative
    && DeclaredReplaced(h, a.declared, b.declared) && DynamicReplaced(h, a.dynamic, b.dynamic)
  }

  /** The same heap, except that in any objects any slots that are references hold what their cells hold. */
  ghost predicate HeapReplaced(h: Heap, h': Heap) {
    && (forall c :: h'.cells(c) == h.cells(c))
    && (forall o :: ObjectReplaced(h, h.objects(o), h'.objects(o)))
  }

  lemma {:induction false} DeclaredSame(h: Heap, h': Heap, ps: seq<Declared>, ps': seq<Declared>)
    requires (forall c :: h'.cells(c) == h.cells(c)) && DeclaredReplaced(h, ps, ps')
    ensures DeclaredElems(h', ps') == DeclaredElems(h, ps)
    decreases |ps|
  {
    if ps != [] {
      var n := |ps| - 1;
      DeclaredSame(h, h', ps[..n], ps'[..n]);
      assert Replaces(h, ps[n].slot, ps'[n].slot);
    }
  }

  lemma {:induction false} DynamicSame(h: Heap, h': Heap, es: seq<Elem>, ps: seq<Dynamic>, ps': seq<Dynamic>)
    requires (forall c :: h'.cells(c) == h.cells(c)) && DynamicReplaced(h, ps, ps')
    ensures WithDynamic(h', es, ps') == WithDynamic(h, es, ps)
    decreases |ps|
  {
    if ps != [] {
      var n := |ps| - 1;
      DynamicSame(h, h', es, ps[..n], ps'[..n]);
      assert Replaces(h, ps[n].slot, ps'[n].slot);
    }
  }

  lemma PropsSame(h: Heap, h': Heap, o: ObjectRef)
    requires HeapReplaced(h, h')
    ensures PropsOf(h', h'.objects(o)) == PropsOf(h, h.objects(o))
    ensures var a, b := h.objects(o), h'.objects(o);
            b.cls == a.cls && b.isClosure == a.isClosure && b.isNative == a.isNative
  {
    var a, b := h.objects(o), h'.objects(o);
    assert ObjectReplaced(h, a, b);
    DeclaredSame(h, h', a.declared, b.declared);
    DynamicSame(h, h', DeclaredElems(h, a.declared), a.dynamic, b.dynamic);
  }

  /** Replacing references in slots by what they refer to changes no capture, from whatever value the walk starts. */
  lemma {:induction false} ReferencesAreFollowed(h: Heap, h': Heap, z: Zval, depth: nat)
    requires HeapReplaced(h, h') && depth <= MAX_DEPTH + 1
    ensures Capture(h', z, depth) == Capture(h, z, depth)
    decreases MAX_DEPTH + 1 - depth, 0, 0
  {
    if depth <= MAX_DEPTH {
      if z.ZArray? {
        ListSame(h, h', z.elems, depth, true);
      } else if z.ZObject? {
        PropsSame(h, h', z.o);
        ListSame(h, h', PropsOf(h, h.objects(z.o)), depth, false);
      }
      hide CaptureList, PropsOf, HeapReplaced;
    }
  }

  lemma {:induction false} ListSame(h: Heap, h': Heap, cs: seq<Elem>, depth: nat, isArr: bool)
    requires HeapReplaced(h, h') && depth <= MAX_DEPTH
    ensures CaptureList(h', cs, depth, isArr) == CaptureList(h, cs, depth, isArr)
    decreases MAX_DEPTH - depth, 1, |cs|
  {
    hide HeapReplaced, Capture;
    if cs != [] {
      ListSame(h, h', cs[..|cs| - 1], depth, isArr);
      ReferencesAreFollowed(h, h', cs[|cs| - 1].val, depth + 1);
    }
  }

  // ---------- Depth and keys ----------

  /** n arrays inside one another. */
  function Nested(n: nat): Zval {
    if n == 0 then ZNull else ZArray([Elem(Index(0), Nested(n - 1))])
  }

  /** The walk goes 256 levels deep and no further. */
  lemma {:induction false} DepthLimit(h: Heap, n: nat, depth: nat)
    requires depth <= 257
    ensures Capture(h, Nested(n), depth).Ok? <==> depth + n <= 256
    decreases n
  {
    if depth <= 256 {
      CaptureOkStep(h, Nested(n), depth);
      hide Capture;
      if n > 0 {
        DepthLimit(h, n - 1, depth + 1);
      }
    }
  }

  /** An array element is captured under its name, or under its index read as a signed number. */
  lemma KeysIn(i: u64, name: seq<byte>)
    ensures KeyIn(Name(name)) == StrKey(name)
    ensures KeyIn(Index(i)).IntKey? && KeyIn(Index(i)).ikey % 0x1_0000_0000_0000_0000 == i
  {
    CastsWrap(0, i);
  }
}
