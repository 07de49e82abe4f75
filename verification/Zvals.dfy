/** PHP values as the bridge sees them: scalars, ordered arrays, and objects and reference cells in a heap. */
module Zvals {
  import opened Bytes
  import opened Wrappers

  datatype ZKey = Index(h: u64) | Name(s: seq<byte>)

  datatype Elem = Elem(key: ZKey, val: Zval)

  /** An object that was there, or one that rebuilding a value has created and written properties to, in this order. */
  datatype ObjectRef = Existing(id: nat) | Created(cls: seq<byte>, writes: seq<Elem>)

  datatype Zval =
    | ZUndef
    | ZNull
    | ZBool(b: bool)
    | ZLong(i: i64)
    | ZDouble(bits: u64)
    | ZString(s: seq<byte>)
    | ZArray(elems: seq<Elem>)
    | ZObject(o: ObjectRef)
    | ZResource
    | ZReference(cell: nat)
    | ZOther

  datatype Declared = Declared(name: seq<byte>, isStatic: bool, slot: Zval)

  /** A dynamic property; without a name where the table has an integer key. */
  datatype Dynamic = Dynamic(name: Option<seq<byte>>, slot: Zval)

  datatype ObjectData = ObjectData(
    cls: seq<byte>, isClosure: bool, isNative: bool, declared: seq<Declared>, dynamic: seq<Dynamic>)

  /** What the object handles and the reference cells stand for. Nothing keeps a heap from being cyclic. */
  datatype Heap = Heap(objects: ObjectRef -> ObjectData, cells: nat -> Zval)

  /** `ZVAL_DEREF`. */
  function Deref(h: Heap, z: Zval): Zval {
    if z.ZReference? then h.cells(z.cell) else z
  }

  predicate DeclaredKept(p: Declared) {
    !p.isStatic && p.slot != ZUndef
  }

  /** The declared properties that the walk visits, in order. */
  function DeclaredElems(h: Heap, ps: seq<Declared>): seq<Elem> {
    if ps == [] then [] else
      var before, p := DeclaredElems(h, ps[..|ps| - 1]), ps[|ps| - 1];
      if DeclaredKept(p) then before + [Elem(Name(p.name), Deref(h, p.slot))] else before
  }

  predicate HasKey(es: seq<Elem>, key: ZKey) {
    exists i | 0 <= i < |es| :: es[i].key == key
  }

  predicate DynamicKept(es: seq<Elem>, p: Dynamic) {
    p.name.Some? && p.slot != ZUndef && !HasKey(es, Name(p.name.value))
  }

  /** `es`, and behind it the dynamic properties whose names have not come before. */
  function WithDynamic(h: Heap, es: seq<Elem>, ps: seq<Dynamic>): seq<Elem> {
    if ps == [] then es else
      var before, p := WithDynamic(h, es, ps[..|ps| - 1]), ps[|ps| - 1];
      if DynamicKept(before, p) then before + [Elem(Name(p.name.value), Deref(h, p.slot))] else before
  }

  /** The properties of an object that the walk visits, in order. */
  function PropsOf(h: Heap, o: ObjectData): seq<Elem> {
    WithDynamic(h, DeclaredElems(h, o.declared), o.dynamic)
  }

  /** Where the walk goes from a value. */
  function Children(h: Heap, z: Zval): seq<Elem> {
    match z
    case ZArray(elems) => elems
    case ZObject(o) => PropsOf(h, h.objects(o))
    case _ => []
  }

  /** The place of the first element under a key, or the number of elements. */
  function Place(es: seq<Elem>, key: ZKey): (i: nat)
    ensures i <= |es|
    ensures i < |es| ==> es[i].key == key
    ensures forall j | 0 <= j < i :: es[j].key != key
  {
    if es == [] || es[0].key == key then 0
    else
      var i := Place(es[1..], key);
      assert forall j | 1 <= j < i + 1 :: es[j] == es[1..][j - 1];
      1 + i
  }

  /** What the first element under a key holds. */
  function Lookup(es: seq<Elem>, key: ZKey): Option<Zval> {
    var i := Place(es, key);
    if i < |es| then Some(es[i].val) else None
  }

  // ---------- The visited properties are the union in which the first one wins ----------

  predicate DistinctKeys(es: seq<Elem>) {
    forall i, j | 0 <= i < j < |es| :: es[i].key != es[j].key
  }

  lemma {:induction false} DeclaredElemsPrefix(h: Heap, ps: seq<Declared>, n: nat)
    requires n <= |ps|
    ensures DeclaredElems(h, ps[..n]) <= DeclaredElems(h, ps)
    decreases |ps|
  {
    if n < |ps| {
      assert ps[..|ps| - 1][..n] == ps[..n];
      DeclaredElemsPrefix(h, ps[..|ps| - 1], n);
    } else {
      assert ps[..n] == ps;
    }
  }

  lemma {:induction false} WithDynamicPrefix(h: Heap, es: seq<Elem>, ps: seq<Dynamic>, n: nat)
    requires n <= |ps|
    ensures WithDynamic(h, es, ps[..n]) <= WithDynamic(h, es, ps)
    decreases |ps|
  {
    if n < |ps| {
      assert ps[..|ps| - 1][..n] == ps[..n];
      WithDynamicPrefix(h, es, ps[..|ps| - 1], n);
    } else {
      assert ps[..n] == ps;
    }
  }

  predicate DistinctNames(ps: seq<Declared>) {
    forall i, j | 0 <= i < j < |ps| :: ps[i].name != ps[j].name
  }

  lemma {:induction false} DeclaredNames(h: Heap, ps: seq<Declared>)
    ensures forall e | e in DeclaredElems(h, ps) ::
              exists p | p in ps :: DeclaredKept(p) && e == Elem(Name(p.name), Deref(h, p.slot))
    ensures DistinctNames(ps) ==> DistinctKeys(DeclaredElems(h, ps))
  {
    if ps != [] {
      var n := |ps| - 1;
      DeclaredNames(h, ps[..n]);
      assert forall p | p in ps[..n] :: p in ps;
      if DistinctNames(ps) {
        var before := DeclaredElems(h, ps[..n]);
        forall i | 0 <= i < |before|
          ensures before[i].key != Name(ps[n].name)
        {
          assert before[i] in before;
        }
      }
    }
  }

  lemma {:induction false} DynamicDistinct(h: Heap, es: seq<Elem>, ps: seq<Dynamic>)
    requires DistinctKeys(es)
    ensures DistinctKeys(WithDynamic(h, es, ps))
  {
    if ps != [] {
      DynamicDistinct(h, es, ps[..|ps| - 1]);
    }
  }

  /** The dynamic properties with a name and a value, before any name is left out. */
  function DynamicElems(h: Heap, ps: seq<Dynamic>): seq<Elem> {
    if ps == [] then [] else
      var before, p := DynamicElems(h, ps[..|ps| - 1]), ps[|ps| - 1];
      if p.name.Some? && p.slot != ZUndef then before + [Elem(Name(p.name.value), Deref(h, p.slot))] else before
  }

  lemma PlaceIs(es: seq<Elem>, key: ZKey, i: nat)
    requires i <= |es| && (i < |es| ==> es[i].key == key)
    requires forall j | 0 <= j < i :: es[j].key != key
    ensures Place(es, key) == i
  {
  }

  lemma PlaceAppend(es: seq<Elem>, e: Elem, key: ZKey)
    ensures Place(es, key) < |es| ==> Place(es + [e], key) == Place(es, key)
    ensures Place(es, key) == |es| ==> Place(es + [e], key) == if e.key == key then |es| else |es| + 1
  {
    var i := Place(es, key);
    PlaceIs(es + [e], key, if i < |es| || e.key == key then i else i + 1);
  }

  lemma LookupAppend(es: seq<Elem>, e: Elem, key: ZKey)
    ensures Lookup(es + [e], key) ==
            if HasKey(es, key) then Lookup(es, key) else if e.key == key then Some(e.val) else None
  {
    PlaceAppend(es, e, key);
  }

  lemma {:induction false} FirstDynamicWins(h: Heap, es: seq<Elem>, ps: seq<Dynamic>, key: ZKey)
    ensures Lookup(WithDynamic(h, es, ps), key) == Lookup(es + DynamicElems(h, ps), key)
  {
    if ps == [] {
      assert es + DynamicElems(h, ps) == es;
    } else {
      var n := |ps| - 1;
      var p := ps[n];
      FirstDynamicWins(h, es, ps[..n], key);
      var before, all := WithDynamic(h, es, ps[..n]), es + DynamicElems(h, ps[..n]);
      if p.name.Some? && p.slot != ZUndef {
        var e := Elem(Name(p.name.value), Deref(h, p.slot));
        assert es + DynamicElems(h, ps) == all + [e];
        LookupAppend(all, e, key);
        LookupAppend(before, e, key);
      }
    }
  }

  lemma FirstWins(h: Heap, o: ObjectData, key: ZKey)
    requires DistinctNames(o.declared)
    ensures DistinctKeys(PropsOf(h, o))
    ensures Lookup(PropsOf(h, o), key) == Lookup(DeclaredElems(h, o.declared) + DynamicElems(h, o.dynamic), key)
  {
    DeclaredNames(h, o.declared);
    DynamicDistinct(h, DeclaredElems(h, o.declared), o.dynamic);
    FirstDynamicWins(h, DeclaredElems(h, o.declared), o.dynamic, key);
  }

  lemma {:induction false} LookupConcat(es: seq<Elem>, ds: seq<Elem>, key: ZKey)
    ensures Lookup(es + ds, key) == if HasKey(es, key) then Lookup(es, key) else Lookup(ds, key)
    decreases |ds|
  {
    if ds == [] {
      assert es + ds == es;
    } else {
      var n := |ds| - 1;
      LookupConcat(es, ds[..n], key);
      LookupAppend(es + ds[..n], ds[n], key);
      LookupAppend(ds[..n], ds[n], key);
      assert es + ds == es + ds[..n] + [ds[n]] && ds == ds[..n] + [ds[n]];
    }
  }

  /** A declared property of this name that is not static and has a value. */
  predicate DeclaredAt(ps: seq<Declared>, name: seq<byte>, i: nat) {
    i < |ps| && ps[i].name == name && !ps[i].isStatic && ps[i].slot != ZUndef
  }

  predicate DynamicAt(ps: seq<Dynamic>, name: seq<byte>, i: nat) {
    i < |ps| && ps[i].name == Some(name) && ps[i].slot != ZUndef
  }

  lemma {:induction false} DeclaredLookup(h: Heap, ps: seq<Declared>, name: seq<byte>)
    requires DistinctNames(ps)
    ensures forall i: nat | DeclaredAt(ps, name, i) ::
              Lookup(DeclaredElems(h, ps), Name(name))
              == Some(if ps[i].slot.ZReference? then h.cells(ps[i].slot.cell) else ps[i].slot)
    ensures HasKey(DeclaredElems(h, ps), Name(name)) <==> exists i: nat :: DeclaredAt(ps, name, i)
  {
    if ps != [] {
      var n := |ps| - 1;
      DeclaredLookup(h, ps[..n], name);
      assert forall i | 0 <= i < n :: ps[..n][i] == ps[i];
      var before := DeclaredElems(h, ps[..n]);
      LookupAppend(before, Elem(Name(ps[n].name), Deref(h, ps[n].slot)), Name(name));
      hide DeclaredElems, Lookup;
      assert DeclaredAt(ps, name, n) ==> forall i: nat | i < n :: !DeclaredAt(ps[..n], name, i);
      assert forall i: nat | i < n :: DeclaredAt(ps, name, i) <==> DeclaredAt(ps[..n], name, i);
    }
  }
  /** The first dynamic property of this name that has a value. */
  predicate FirstDynamicAt(ps: seq<Dynamic>, name: seq<byte>, i: nat) {
    DynamicAt(ps, name, i) && forall j: nat | j < i :: !DynamicAt(ps, name, j)
  }

  lemma {:induction false} DynamicLookup(h: Heap, ps: seq<Dynamic>, name: seq<byte>)
    ensures forall i: nat | FirstDynamicAt(ps, name, i) ::
              Lookup(DynamicElems(h, ps), Name(name))
              == Some(if ps[i].slot.ZReference? then h.cells(ps[i].slot.cell) else ps[i].slot)
    ensures HasKey(DynamicElems(h, ps), Name(name)) <==> exists i: nat :: DynamicAt(ps, name, i)
  {
    hide Lookup, HasKey, Deref;
    if ps == [] {
      NoKeys(Name(name));
    } else {
      var n := |ps| - 1;
      DynamicLookup(h, ps[..n], name);
      DynamicLast(h, ps, name);
      hide DynamicElems;
      forall i: nat | FirstDynamicAt(ps, name, i) && i < n
        ensures FirstDynamicAt(ps[..n], name, i)
      {
        assert forall j: nat | j < i :: DynamicAt(ps[..n], name, j) ==> DynamicAt(ps, name, j);
      }
      forall i: nat | i < n
        ensures DynamicAt(ps, name, i) <==> DynamicAt(ps[..n], name, i)
      {
      }
    }
  }

  lemma NoKeys(key: ZKey)
    ensures Lookup([], key) == None && !HasKey([], key)
  {
  }

  /** What the last dynamic property adds. */
  lemma DynamicLast(h: Heap, ps: seq<Dynamic>, name: seq<byte>)
    requires ps != []
    ensures var n := |ps| - 1;
            var before, slot := DynamicElems(h, ps[..n]), ps[n].slot;
            && (HasKey(DynamicElems(h, ps), Name(name)) <==> DynamicAt(ps, name, n) || HasKey(before, Name(name)))
            && Lookup(DynamicElems(h, ps), Name(name)) ==
               if HasKey(before, Name(name)) || !DynamicAt(ps, name, n) then Lookup(before, Name(name))
               else Some(if slot.ZReference? then h.cells(slot.cell) else slot)
  {
    var n := |ps| - 1;
    var before := DynamicElems(h, ps[..n]);
    HasKeyIff(before, Name(name));
    HasKeyIff(DynamicElems(h, ps), Name(name));
    hide Lookup, HasKey;
    if ps[n].name.Some? {
      LookupAppend(before, Elem(Name(ps[n].name.value), Deref(h, ps[n].slot)), Name(name));
    }
  }

  /**
   An object's properties have distinct names. Under a name stands the value of its declared property if that is not
   static and has one, otherwise the value of the first dynamic property of this name that has one; a slot that is a
   reference gives the value of its cell. Other names do not occur.
   */
  lemma PropsAreFirstWins(h: Heap, o: ObjectData, name: seq<byte>)
    requires DistinctNames(o.declared)
    ensures DistinctKeys(PropsOf(h, o))
    ensures forall i: nat | DeclaredAt(o.declared, name, i) ::
              Lookup(PropsOf(h, o), Name(name))
              == var slot := o.declared[i].slot; Some(if slot.ZReference? then h.cells(slot.cell) else slot)
    ensures (forall i: nat :: !DeclaredAt(o.declared, name, i)) ==>
              forall i: nat | FirstDynamicAt(o.dynamic, name, i) ::
                Lookup(PropsOf(h, o), Name(name))
                == var slot := o.dynamic[i].slot; Some(if slot.ZReference? then h.cells(slot.cell) else slot)
    ensures Lookup(PropsOf(h, o), Name(name)) == None
       <==> forall i: nat :: !DeclaredAt(o.declared, name, i) && !DynamicAt(o.dynamic, name, i)
  {
    FirstWins(h, o, Name(name));
    DeclaredLookup(h, o.declared, name);
    DynamicLookup(h, o.dynamic, name);
    LookupConcat(DeclaredElems(h, o.declared), DynamicElems(h, o.dynamic), Name(name));
    HasKeyIff(DeclaredElems(h, o.declared), Name(name));
    HasKeyIff(DynamicElems(h, o.dynamic), Name(name));
    hide DeclaredElems, DynamicElems, PropsOf, Lookup, HasKey, DistinctKeys;
    if i: nat :| DynamicAt(o.dynamic, name, i) {
      var j := LeastDynamic(o.dynamic, name, i);
    }
  }

  lemma HasKeyIff(es: seq<Elem>, key: ZKey)
    ensures HasKey(es, key) <==> Lookup(es, key).Some?
  {
  }

  lemma {:induction false} LeastDynamic(ps: seq<Dynamic>, name: seq<byte>, i: nat) returns (j: nat)
    requires DynamicAt(ps, name, i)
    ensures FirstDynamicAt(ps, name, j)
    decreases i
  {
    if k: nat :| k < i && DynamicAt(ps, name, k) {
      j := LeastDynamic(ps, name, k);
    } else {
      j := i;
    }
  }

  predicate Named(cs: seq<Elem>) {
    forall i | 0 <= i < |cs| :: cs[i].key.Name?
  }

  lemma {:induction false} DeclaredNamed(h: Heap, ps: seq<Declared>)
    ensures Named(DeclaredElems(h, ps))
  {
    if ps != [] {
      DeclaredNamed(h, ps[..|ps| - 1]);
    }
  }

  lemma {:induction false} DynamicNamed(h: Heap, cs: seq<Elem>, ps: seq<Dynamic>)
    requires Named(cs)
    ensures Named(WithDynamic(h, cs, ps))
  {
    if ps != [] {
      DynamicNamed(h, cs, ps[..|ps| - 1]);
    }
  }

  lemma PropsNamed(h: Heap, o: ObjectData)
    ensures Named(PropsOf(h, o))
  {
    DeclaredNamed(h, o.declared);
    DynamicNamed(h, DeclaredElems(h, o.declared), o.dynamic);
  }
}
