/**
 Rebuilding PHP values from value trees, as in bridge.c: the ordered hash table that an array's entries are written to
 one after the other, and when a captured value comes back unchanged.
 */
module Restore {
  import opened Bytes
  import opened Wrappers
  import opened Values
  import opened PackFormat
  import opened PackProofs
  import opened ValueAccess
  import opened Zvals
  import opened Snapshot

  /** What the engine decides: under which key it stores a string key, and which classes it knows. */
  datatype Engine = Engine(
    normalise: seq<byte> -> ZKey, hasClass: seq<byte> -> bool, standardClass: seq<byte>, errorClass: seq<byte>)

  function Ascii(s: string): seq<byte>
    requires forall i | 0 <= i < |s| :: s[i] as int < 256
  {
    if s == [] then []
    else
      var first: byte := s[0] as int;
      [first] + Ascii(s[1..])
  }

  /** The key under which `add_index_zval` or `add_assoc_zval_ex` stores. */
  function KeyOut(en: Engine, k: Key): ZKey {
    match k
    case IntKey(i) => Index(ToU64(i))
    case StrKey(s) => en.normalise(s)
  }

  /** An integer key is stored under its value modulo 2^64, and a string key under what the engine makes of it. */
  lemma KeysOut(en: Engine, i: i64, s: seq<byte>)
    ensures KeyOut(en, IntKey(i)) == Index(i % 0x1_0000_0000_0000_0000)
    ensures KeyOut(en, StrKey(s)) == en.normalise(s)
  {
    CastsWrap(i, 0);
  }

  /** A write to an ordered hash table: in place where the key is present, and at the end where it is not. */
  function Put(es: seq<Elem>, key: ZKey, val: Zval): seq<Elem> {
    var i := Place(es, key);
    if i < |es| then es[i := Elem(key, val)] else es + [Elem(key, val)]
  }

  /** `value_to_zval_inner`. */
  function Rebuild(en: Engine, v: Value): Zval
    decreases v
  {
    match v
    case Missing => ZNull
    case Null => ZNull
    case Bool(b) => ZBool(b)
    case Long(i) => ZLong(i)
    case Double(bits) => ZDouble(bits)
    case Str(s) => ZString(s)
    case Arr(items) => ZArray(Filled(en, items))
    case Obj(cls, props) =>
      ZObject(Created(if en.hasClass(cls) then cls else en.standardClass, Writes(en, props)))
    case Error(cls, msg, code, trace) =>
      ZObject(Created(en.errorClass, ErrorWrites(OrEmpty(cls), OrEmpty(msg), code, OrEmpty(trace))))
  }

  /** The property writes of a rebuilt error. */
  function ErrorWrites(cls: seq<byte>, msg: seq<byte>, code: i64, trace: seq<byte>): seq<Elem> {
    [Elem(Name(Ascii("class")), ZString(cls)), Elem(Name(Ascii("message")), ZString(msg)),
     Elem(Name(Ascii("code")), ZLong(code)), Elem(Name(Ascii("trace")), ZString(trace))]
  }

  /** The string that a C text becomes; "" for a NULL pointer. */
  ghost predicate IsText(z: Option<Zval>, text: Option<cstring>) {
    z == Some(ZString(match text case None => [] case Some(s) => s))
  }

  /** The properties of a rebuilt error: these four, in this order, and no other. Names are spelled as bytes. */
  ghost predicate HoldsError(z: Zval, v: Value)
    requires v.Error?
  {
    && z.ZObject? && z.o.Created? && |z.o.writes| == 4
    && z.o.writes[0].key == Name([99, 108, 97, 115, 115])
    && IsText(Lookup(z.o.writes, Name([99, 108, 97, 115, 115])), v.ecls)
    && z.o.writes[1].key == Name([109, 101, 115, 115, 97, 103, 101])
    && IsText(Lookup(z.o.writes, Name([109, 101, 115, 115, 97, 103, 101])), v.msg)
    && z.o.writes[2].key == Name([99, 111, 100, 101])
    && Lookup(z.o.writes, Name([99, 111, 100, 101])) == Some(ZLong(v.code))
    && z.o.writes[3].key == Name([116, 114, 97, 99, 101])
    && IsText(Lookup(z.o.writes, Name([116, 114, 97, 99, 101])), v.trace)
  }

  lemma PropertyNames()
    ensures Ascii("class") == [99, 108, 97, 115, 115]
    ensures Ascii("message") == [109, 101, 115, 115, 97, 103, 101]
    ensures Ascii("code") == [99, 111, 100, 101]
    ensures Ascii("trace") == [116, 114, 97, 99, 101]
  {
    hide Ascii;
    AsciiIs("class", [99, 108, 97, 115, 115]);
    AsciiIs("message", [109, 101, 115, 115, 97, 103, 101]);
    AsciiIs("code", [99, 111, 100, 101]);
    AsciiIs("trace", [116, 114, 97, 99, 101]);
  }

  lemma {:induction false} AsciiIs(s: string, t: seq<byte>)
    requires |s| == |t| && forall i | 0 <= i < |s| :: s[i] as int == t[i]
    ensures Ascii(s) == t
  {
    if s != [] {
      AsciiIs(s[1..], t[1..]);
      assert t == [t[0]] + t[1..];
    }
  }

  /** A rebuilt error has its class, message, code and trace as properties of the class for errors. */
  lemma RebuiltError(en: Engine, v: Value)
    requires v.Error?
    ensures HoldsError(Rebuild(en, v), v) && Rebuild(en, v).o.cls == en.errorClass
  {
    PropertyNames();
    var es := ErrorWrites(OrEmpty(v.ecls), OrEmpty(v.msg), v.code, OrEmpty(v.trace));
    hide Ascii;
    forall i | 0 <= i < 4
      ensures Lookup(es, es[i].key) == Some(es[i].val)
    {
      PlaceIs(es, es[i].key, i);
    }
  }

  function RebuildEntry(en: Engine, e: Entry): Zval
    decreases e
  {
    Rebuild(en, e.val)
  }

  /** The table after the loop of `kv_block_to_array`. */
  function Filled(en: Engine, items: seq<Entry>): seq<Elem>
    decreases items
  {
    if items == [] then []
    else
      var n := |items| - 1;
      Put(Filled(en, items[..n]), KeyOut(en, items[n].key), RebuildEntry(en, items[n]))
  }

  /** The property writes of the loop of `kv_block_to_object`. */
  function Writes(en: Engine, props: seq<Entry>): (r: seq<Elem>)
    ensures |r| == |props|
    decreases props
  {
    if props == [] then []
    else
      var n := |props| - 1;
      Writes(en, props[..n]) + [Elem(Name(StoredKey(props[n].key, false).skey), RebuildEntry(en, props[n]))]
  }

  // ---------- The table ----------

  lemma PutLookup(es: seq<Elem>, key: ZKey, val: Zval, k: ZKey)
    ensures Lookup(Put(es, key, val), k) == if k == key then Some(val) else Lookup(es, k)
  {
    var i := Place(es, key);
    if i == |es| {
      LookupAppend(es, Elem(key, val), k);
    } else {
      PlaceIs(es[i := Elem(key, val)], k, Place(es, k));
    }
  }

  /** The last entry that the engine stores under k, or -1. */
  function LastPlace(en: Engine, items: seq<Entry>, k: ZKey): (i: int)
    ensures -1 <= i < |items|
    ensures i >= 0 ==> KeyOut(en, items[i].key) == k
    ensures forall j | i < j < |items| :: KeyOut(en, items[j].key) != k
  {
    if items == [] then -1
    else
      var n := |items| - 1;
      if KeyOut(en, items[n].key) == k then n else LastPlace(en, items[..n], k)
  }

  /** What it holds. */
  function LastUnder(en: Engine, items: seq<Entry>, k: ZKey): Option<Zval> {
    var i := LastPlace(en, items, k);
    if i < 0 then None else Some(Rebuild(en, items[i].val))
  }

  /** The last write wins. */
  lemma {:induction false} LastWriteWins(en: Engine, items: seq<Entry>, k: ZKey)
    ensures Lookup(Filled(en, items), k) == LastUnder(en, items, k)
  {
    if items != [] {
      var n := |items| - 1;
      LastWriteWins(en, items[..n], k);
      PutLookup(Filled(en, items[..n]), KeyOut(en, items[n].key), RebuildEntry(en, items[n]), k);
    }
  }

  predicate DistinctOut(en: Engine, items: seq<Entry>) {
    forall i, j | 0 <= i < j < |items| :: KeyOut(en, items[i].key) != KeyOut(en, items[j].key)
  }

  /** Each entry has its own element in the table, in the same order, exactly where no two share a key. */
  lemma {:induction false} FilledExact(en: Engine, items: seq<Entry>)
    ensures |Filled(en, items)| <= |items|
    ensures |Filled(en, items)| == |items| <==> DistinctOut(en, items)
    ensures DistinctOut(en, items) ==>
              forall i | 0 <= i < |items| ::
                Filled(en, items)[i] == Elem(KeyOut(en, items[i].key), Rebuild(en, items[i].val))
  {
    if items != [] {
      var n := |items| - 1;
      var before, key, val := Filled(en, items[..n]), KeyOut(en, items[n].key), RebuildEntry(en, items[n]);
      FilledExact(en, items[..n]);
      assert Filled(en, items) == Put(before, key, val);
      hide Filled, KeyOut, Rebuild;
      if DistinctOut(en, items[..n]) {
        var i := Place(before, key);
        if i < n {
          assert KeyOut(en, items[i].key) == key;
          assert !DistinctOut(en, items);
        } else {
          assert forall j | 0 <= j < n :: before[j].key == KeyOut(en, items[j].key) != key;
        }
      } else {
        assert !DistinctOut(en, items);
      }
    }
  }

  /** The first entry that the engine stores under k. */
  ghost predicate FirstUnder(en: Engine, items: seq<Entry>, k: ZKey, i: nat) {
    i < |items| && KeyOut(en, items[i].key) == k && forall j | 0 <= j < i :: KeyOut(en, items[j].key) != k
  }

  /** Each element of the table stands for the first entry of its key, in the order of the entries. */
  ghost predicate InOrder(en: Engine, items: seq<Entry>, es: seq<Elem>, firsts: seq<nat>) {
    && |firsts| == |es| && (forall i | 0 <= i < |es| :: FirstUnder(en, items, es[i].key, firsts[i]))
    && forall i, j | 0 <= i < j < |es| :: firsts[i] < firsts[j]
  }

  /** A key that is written again keeps its place: the table is in the order in which the keys first occur. */
  lemma {:induction false} FilledInOrder(en: Engine, items: seq<Entry>) returns (firsts: seq<nat>)
    ensures InOrder(en, items, Filled(en, items), firsts)
    ensures forall i | 0 <= i < |items| :: HasKey(Filled(en, items), KeyOut(en, items[i].key))
  {
    if items == [] {
      firsts := [];
    } else {
      var n := |items| - 1;
      var before, key, val := Filled(en, items[..n]), KeyOut(en, items[n].key), RebuildEntry(en, items[n]);
      firsts := FilledInOrder(en, items[..n]);
      assert Filled(en, items) == Put(before, key, val);
      hide Filled, RebuildEntry, KeyOut, Put;
      KeepOrder(en, items, before, firsts);
      PutKeys(before, key, val);
      forall i | 0 <= i < |items|
        ensures HasKey(Put(before, key, val), KeyOut(en, items[i].key))
      {
        if i < n {
          assert items[..n][i] == items[i];
        }
      }
      firsts := PutInOrder(en, items, before, val, firsts);
    }
  }

  lemma KeepOrder(en: Engine, items: seq<Entry>, es: seq<Elem>, firsts: seq<nat>)
    requires items != [] && InOrder(en, items[..|items| - 1], es, firsts)
    ensures InOrder(en, items, es, firsts)
  {
    hide KeyOut;
    forall i | 0 <= i < |es|
      ensures FirstUnder(en, items, es[i].key, firsts[i])
    {
      assert FirstUnder(en, items[..|items| - 1], es[i].key, firsts[i]);
    }
  }

  lemma PutInOrder(en: Engine, items: seq<Entry>, es: seq<Elem>, val: Zval, firsts: seq<nat>) returns (more: seq<nat>)
    requires items != [] && InOrder(en, items, es, firsts) && InOrder(en, items[..|items| - 1], es, firsts)
    requires forall i | 0 <= i < |items| - 1 :: HasKey(es, KeyOut(en, items[i].key))
    ensures InOrder(en, items, Put(es, KeyOut(en, items[|items| - 1].key), val), more)
  {
    var key := KeyOut(en, items[|items| - 1].key);
    var i := Place(es, key);
    hide KeyOut, InOrder, Place;
    if i < |es| {
      more := firsts;
      SameOrder(en, items, es, es[i := Elem(key, val)], firsts);
    } else {
      more := firsts + [|items| - 1];
      AppendInOrder(en, items, es, Elem(key, val), firsts);
    }
  }

  lemma SameOrder(en: Engine, items: seq<Entry>, es: seq<Elem>, rs: seq<Elem>, firsts: seq<nat>)
    requires InOrder(en, items, es, firsts) && |rs| == |es| && forall i | 0 <= i < |es| :: rs[i].key == es[i].key
    ensures InOrder(en, items, rs, firsts)
  {
    hide FirstUnder;
  }

  lemma AppendInOrder(en: Engine, items: seq<Entry>, es: seq<Elem>, e: Elem, firsts: seq<nat>)
    requires items != [] && InOrder(en, items, es, firsts) && InOrder(en, items[..|items| - 1], es, firsts)
    requires e.key == KeyOut(en, items[|items| - 1].key) && forall j | 0 <= j < |es| :: es[j].key != e.key
    requires forall i | 0 <= i < |items| - 1 :: HasKey(es, KeyOut(en, items[i].key))
    ensures InOrder(en, items, es + [e], firsts + [|items| - 1])
  {
    hide KeyOut;
    var n := |items| - 1;
    assert FirstUnder(en, items, e.key, n);
    forall i | 0 <= i < |es|
      ensures firsts[i] < n
    {
      assert FirstUnder(en, items[..n], es[i].key, firsts[i]);
    }
    hide FirstUnder, HasKey;
  }

  lemma PutKeys(es: seq<Elem>, key: ZKey, val: Zval)
    ensures forall k :: HasKey(Put(es, key, val), k) <==> k == key || HasKey(es, k)
  {
    var rs := Put(es, key, val);
    forall k
      ensures HasKey(rs, k) <==> k == key || HasKey(es, k)
    {
      assert rs[Place(es, key)].key == key;
      if i :| 0 <= i < |es| && es[i].key == k {
        assert rs[i].key == k;
      }
    }
  }

  // ---------- What comes back ----------

  /** All array keys in the tree are as the engine stores them, and no array has a key twice. */
  predicate WellKeyed(en: Engine, v: Value)
    decreases v
  {
    match v
    case Arr(items) => StoredAsIs(en, items) && DistinctEntries(items) && AllWellKeyed(en, items)
    case Obj(_, props) => AllWellKeyed(en, props)
    case _ => true
  }

  predicate AllWellKeyed(en: Engine, es: seq<Entry>)
    decreases es
  {
    forall i | 0 <= i < |es| :: EntryWellKeyed(en, es[i])
  }

  predicate EntryWellKeyed(en: Engine, e: Entry)
    decreases e
  {
    WellKeyed(en, e.val)
  }

  predicate StoredAsIs(en: Engine, es: seq<Entry>) {
    forall i | 0 <= i < |es| && es[i].key.StrKey? :: en.normalise(es[i].key.skey) == Name(es[i].key.skey)
  }

  predicate DistinctEntries(es: seq<Entry>) {
    forall i, j | 0 <= i < j < |es| :: es[i].key != es[j].key
  }

  /** r is a copy of z: arrays with equal keys in the same order, objects of the same class with equal properties. */
  ghost predicate Mirrors(en: Engine, h: Heap, z: Zval, r: Zval)
    decreases r
  {
    match z
    case ZArray(elems) => r.ZArray? && MirrorsAll(en, h, elems, r.elems)
    case ZObject(o) =>
      var data := h.objects(o);
      && r.ZObject? && r.o.Created?
      && r.o.cls == (if en.hasClass(data.cls) then data.cls else en.standardClass)
      && MirrorsAll(en, h, PropsOf(h, data), r.o.writes)
    case _ => r == z
  }

  ghost predicate MirrorsAll(en: Engine, h: Heap, cs: seq<Elem>, rs: seq<Elem>)
    decreases rs
  {
    |cs| == |rs| && forall i | 0 <= i < |rs| :: MirrorsElem(en, h, cs[i], rs[i])
  }

  ghost predicate MirrorsElem(en: Engine, h: Heap, c: Elem, r: Elem)
    decreases r
  {
    c.key == r.key && Mirrors(en, h, c.val, r.val)
  }

  /** The keys of a list of elements survive exactly where the engine keeps them apart and as they are. */
  lemma KeysSurvive(en: Engine, cs: seq<Elem>, es: seq<Entry>)
    requires |cs| == |es| && forall i | 0 <= i < |es| :: es[i].key == KeyIn(cs[i].key)
    ensures StoredAsIs(en, es) && DistinctEntries(es)
       <==> DistinctOut(en, es) && forall i | 0 <= i < |cs| :: KeyOut(en, es[i].key) == cs[i].key
  {
    if StoredAsIs(en, es) && DistinctEntries(es) {
      forall i | 0 <= i < |cs|
        ensures KeyOut(en, es[i].key) == cs[i].key
      {
      }
      forall i, j | 0 <= i < j < |es|
        ensures KeyOut(en, es[i].key) != KeyOut(en, es[j].key)
      {
        assert es[i].key != es[j].key;
      }
    }
  }

  lemma {:induction false} WritesAt(en: Engine, props: seq<Entry>, i: nat)
    requires i < |props|
    ensures Writes(en, props)[i] == Elem(Name(StoredKey(props[i].key, false).skey), Rebuild(en, props[i].val))
  {
    if i < |props| - 1 {
      WritesAt(en, props[..|props| - 1], i);
    }
  }

  /**
   The theorem of the whole way: a captured graph that is rebuilt gives a copy of it, exactly if the engine stores all
   its array keys as they are, and no array has a key twice.
   */
  lemma {:induction false} RebuiltMirrors(en: Engine, h: Heap, z: Zval, v: Value)
    requires Unfolds(h, z, v)
    ensures Mirrors(en, h, z, Rebuild(en, v)) <==> WellKeyed(en, v)
    decreases v
  {
    if z.ZArray? {
      FilledMirrors(en, h, z.elems, v.items);
    } else if z.ZObject? {
      PropsNamed(h, h.objects(z.o));
      WritesMirror(en, h, PropsOf(h, h.objects(z.o)), v.props);
    }
  }

  lemma {:induction false} FilledMirrors(en: Engine, h: Heap, cs: seq<Elem>, es: seq<Entry>)
    requires UnfoldsInto(h, cs, es)
    ensures MirrorsAll(en, h, cs, Filled(en, es)) <==> StoredAsIs(en, es) && DistinctEntries(es) && AllWellKeyed(en, es)
    decreases es
  {
    FilledExact(en, es);
    assert forall i | 0 <= i < |es| :: UnfoldsIntoEntry(h, cs[i], es[i]);
    KeysSurvive(en, cs, es);
    hide Filled, StoredAsIs, DistinctEntries;
    if DistinctOut(en, es) {
      var rs := Filled(en, es);
      forall i | 0 <= i < |es|
        ensures MirrorsElem(en, h, cs[i], rs[i]) <==> KeyOut(en, es[i].key) == cs[i].key && EntryWellKeyed(en, es[i])
      {
        EntryMirrors(en, h, cs[i], es[i]);
      }
    }
  }

  lemma {:induction false} WritesMirror(en: Engine, h: Heap, cs: seq<Elem>, es: seq<Entry>)
    requires UnfoldsInto(h, cs, es) && Named(cs)
    ensures MirrorsAll(en, h, cs, Writes(en, es)) <==> AllWellKeyed(en, es)
    decreases es
  {
    var rs := Writes(en, es);
    forall i | 0 <= i < |es|
      ensures MirrorsElem(en, h, cs[i], rs[i]) <==> EntryWellKeyed(en, es[i])
    {
      assert UnfoldsIntoEntry(h, cs[i], es[i]);
      EntryMirrors(en, h, cs[i], es[i]);
      WritesAt(en, es, i);
    }
  }

  lemma {:induction false} EntryMirrors(en: Engine, h: Heap, c: Elem, e: Entry)
    requires UnfoldsIntoEntry(h, c, e)
    ensures Mirrors(en, h, c.val, Rebuild(en, e.val)) <==> EntryWellKeyed(en, e)
    decreases e
  {
    RebuiltMirrors(en, h, c.val, e.val);
  }

  // ---------- Values without objects ----------

  /** Arrays and scalars only. */
  predicate Plain(z: Zval)
    decreases z
  {
    match z
    case ZArray(elems) => AllPlain(elems)
    case ZObject(_) => false
    case _ => true
  }

  predicate AllPlain(cs: seq<Elem>)
    decreases cs
  {
    forall i | 0 <= i < |cs| :: PlainElem(cs[i])
  }

  predicate PlainElem(c: Elem)
    decreases c
  {
    Plain(c.val)
  }

  /** All arrays in the value are as the engine keeps them: distinct keys, none of them a string stored otherwise. */
  predicate Tidy(en: Engine, z: Zval)
    decreases z
  {
    z.ZArray? ==> DistinctKeys(z.elems) && AllTidy(en, z.elems)
  }

  predicate AllTidy(en: Engine, cs: seq<Elem>)
    decreases cs
  {
    forall i | 0 <= i < |cs| :: TidyElem(en, cs[i])
  }

  predicate TidyElem(en: Engine, c: Elem)
    decreases c
  {
    (c.key.Name? ==> en.normalise(c.key.s) == c.key) && Tidy(en, c.val)
  }

  /** For these, a copy is the same value. */
  lemma {:induction false} PlainCopy(en: Engine, h: Heap, z: Zval, r: Zval)
    requires Plain(z)
    ensures Mirrors(en, h, z, r) <==> r == z
    decreases z
  {
    if z.ZArray? && r.ZArray? && |z.elems| == |r.elems| {
      PlainCopies(en, h, z.elems, r.elems);
    }
  }

  lemma {:induction false} PlainCopies(en: Engine, h: Heap, cs: seq<Elem>, rs: seq<Elem>)
    requires AllPlain(cs) && |cs| == |rs|
    ensures MirrorsAll(en, h, cs, rs) <==> rs == cs
    decreases cs
  {
    forall i | 0 <= i < |cs|
      ensures MirrorsElem(en, h, cs[i], rs[i]) <==> rs[i] == cs[i]
    {
      assert PlainElem(cs[i]);
      PlainElemCopy(en, h, cs[i], rs[i]);
    }
  }

  lemma {:induction false} PlainElemCopy(en: Engine, h: Heap, c: Elem, r: Elem)
    requires PlainElem(c)
    ensures MirrorsElem(en, h, c, r) <==> r == c
    decreases c
  {
    PlainCopy(en, h, c.val, r.val);
  }

  lemma {:induction false} TidyIffWellKeyed(en: Engine, h: Heap, z: Zval, v: Value)
    requires Plain(z) && Unfolds(h, z, v)
    ensures Tidy(en, z) <==> WellKeyed(en, v)
    decreases z
  {
    if z.ZArray? {
      AllTidyIff(en, h, z.elems, v.items);
    }
  }

  lemma {:induction false} AllTidyIff(en: Engine, h: Heap, cs: seq<Elem>, es: seq<Entry>)
    requires AllPlain(cs) && UnfoldsInto(h, cs, es)
    ensures DistinctKeys(cs) <==> DistinctEntries(es)
    ensures AllTidy(en, cs) <==> StoredAsIs(en, es) && AllWellKeyed(en, es)
    decreases cs
  {
    forall i | 0 <= i < |cs|
      ensures es[i].key == KeyIn(cs[i].key)
      ensures TidyElem(en, cs[i])
         <==> (es[i].key.StrKey? ==> en.normalise(es[i].key.skey) == Name(es[i].key.skey)) && EntryWellKeyed(en, es[i])
    {
      assert PlainElem(cs[i]) && UnfoldsIntoEntry(h, cs[i], es[i]);
      ElemTidyIff(en, h, cs[i], es[i]);
    }
  }

  lemma {:induction false} ElemTidyIff(en: Engine, h: Heap, c: Elem, e: Entry)
    requires PlainElem(c) && UnfoldsIntoEntry(h, c, e)
    ensures Tidy(en, c.val) <==> EntryWellKeyed(en, e)
    decreases c
  {
    TidyIffWellKeyed(en, h, c.val, e.val);
  }

  /** A snapshot of arrays and scalars comes back as the same value, exactly if its arrays are tidy. */
  lemma PlainRoundTrip(en: Engine, h: Heap, z: Zval)
    requires Plain(z) && Capture(h, z, 0).Ok?
    ensures Rebuild(en, Capture(h, z, 0).value) == z <==> Tidy(en, z)
  {
    var v := Capture(h, z, 0).value;
    CaptureIsUnfolding(h, z, 0, v);
    RebuiltMirrors(en, h, z, v);
    PlainCopy(en, h, z, Rebuild(en, v));
    TidyIffWellKeyed(en, h, z, v);
  }

  // ---------- Looking up ----------

  /** The engine keeps a string key as it is, or makes it an integer. */
  ghost predicate KeepsStrings(en: Engine) {
    forall s | en.normalise(s).Name? :: en.normalise(s) == Name(s)
  }

  /** At most one entry has the key. */
  predicate OccursOnce(items: seq<Entry>, key: seq<byte>) {
    forall i, j | 0 <= i < j < |items| :: items[i].key != StrKey(key) || items[j].key != StrKey(key)
  }

  lemma StoredUnder(en: Engine, k: Key, key: seq<byte>)
    requires KeepsStrings(en) && en.normalise(key) == Name(key)
    ensures KeyOut(en, k) == Name(key) <==> k == StrKey(key)
  {
  }

  /** The lookup in the tree and the lookup in the table find the same entry, or both find none. */
  predicate SameEntry(en: Engine, items: seq<Entry>, key: seq<byte>) {
    var i, j := FirstWith(items, key), LastPlace(en, items, en.normalise(key));
    if i < |items| then i == j else j == -1
  }

  /**
   For every key string: the lookup in the tree finds the first entry with just that string, and the table holds the last
   entry stored under the same key, integer keys included. What the tree finds the table has; they find the same entry
   exactly if the first entry with the string is the last of all that are stored under its key, or there are none.
   */
  lemma {:induction false} FirstMatchIsLastWrite(en: Engine, items: seq<Entry>, key: seq<byte>)
    ensures var i, k := FirstWith(items, key), en.normalise(key);
            var j := LastPlace(en, items, k);
            && Lookup(Filled(en, items), k) == (if j >= 0 then Some(Rebuild(en, items[j].val)) else None)
            && (i < |items| ==> i <= j)
    ensures SameEntry(en, items, key)
       <==> forall n | 0 <= n < |items| && KeyOut(en, items[n].key) == en.normalise(key) ::
              n <= FirstWith(items, key) < |items|
  {
    var i, k := FirstWith(items, key), en.normalise(key);
    var j := LastPlace(en, items, k);
    LastWriteWins(en, items, k);
    if i < |items| {
      assert KeyOut(en, items[i].key) == k;
    }
    hide Filled, Rebuild, FirstWith, LastPlace;
  }

  /** For a string that the engine keeps, that means: exactly if the string occurs once or not at all. */
  lemma {:induction false} StringKeysAgree(en: Engine, items: seq<Entry>, key: seq<byte>)
    requires KeepsStrings(en) && en.normalise(key) == Name(key)
    ensures FirstWith(items, key) == |items| <==> LastPlace(en, items, Name(key)) == -1
    ensures SameEntry(en, items, key) <==> OccursOnce(items, key)
  {
    FirstMatchIsLastWrite(en, items, key);
    forall n | 0 <= n < |items|
      ensures KeyOut(en, items[n].key) == Name(key) <==> items[n].key == StrKey(key)
    {
      StoredUnder(en, items[n].key, key);
    }
    hide Filled, Rebuild, KeyOut, KeepsStrings, FirstWith, LastPlace, SameEntry;
    var i := FirstWith(items, key);
    if OccursOnce(items, key) {
      forall n | 0 <= n < |items| && KeyOut(en, items[n].key) == Name(key)
        ensures n <= i < |items|
      {
        assert items[n].key == StrKey(key);
      }
    } else {
      var a, b :| 0 <= a < b < |items| && items[a].key == StrKey(key) && items[b].key == StrKey(key);
      assert KeyOut(en, items[b].key) == Name(key) && i <= a;
    }
  }

  /** A numeric string that the engine makes an integer: the tree has the integer key, and does not find the string. */
  lemma {:induction false} NumericKeyIsNotFound(en: Engine)
    requires en.normalise([53]) == Index(5)
    ensures var items := [Entry(IntKey(5), Long(1))];
            && FirstWith(items, [53]) == |items|
            && Lookup(Filled(en, items), en.normalise([53])) == Some(ZLong(1))
            && !SameEntry(en, items, [53])
  {
    var items := [Entry(IntKey(5), Long(1))];
    LastWriteWins(en, items, Index(5));
    assert KeyOut(en, items[0].key) == Index(5);
    assert LastPlace(en, items, Index(5)) == 0;
    hide Filled;
  }

  /** With a key twice they differ. */
  lemma {:induction false} FirstMatchCanDiffer(en: Engine)
    requires en.normalise([97]) == Name([97])
    ensures var items := [Entry(StrKey([97]), Long(1)), Entry(StrKey([97]), Long(2))];
            && items[FirstWith(items, [97])].val == Long(1)
            && Lookup(Filled(en, items), Name([97])) == Some(ZLong(2))
  {
    var items := [Entry(StrKey([97]), Long(1)), Entry(StrKey([97]), Long(2))];
    LastWriteWins(en, items, Name([97]));
    assert FirstWith(items, [97]) == 0;
  }

  // ---------- Across a packed snapshot ----------

  lemma {:induction false} CapturedIsNormal(h: Heap, z: Zval, v: Value)
    requires Unfolds(h, z, v)
    ensures Normal(v) == v
    decreases v
  {
    if z.ZArray? {
      EntriesNormal(h, z.elems, v.items, true);
    } else if z.ZObject? {
      PropsNamed(h, h.objects(z.o));
      EntriesNormal(h, PropsOf(h, h.objects(z.o)), v.props, false);
    }
  }

  lemma {:induction false} EntriesNormal(h: Heap, cs: seq<Elem>, es: seq<Entry>, isArr: bool)
    requires UnfoldsInto(h, cs, es) && (isArr || Named(cs))
    ensures NormalEntries(es, isArr) == es
    decreases es
  {
    if es != [] {
      assert UnfoldsIntoEntry(h, cs[0], es[0]);
      EntryNormal(h, cs[0], es[0], isArr);
      forall i | 0 <= i < |es| - 1
        ensures UnfoldsIntoEntry(h, cs[1..][i], es[1..][i])
      {
        assert UnfoldsIntoEntry(h, cs[i + 1], es[i + 1]);
      }
      EntriesNormal(h, cs[1..], es[1..], isArr);
    }
  }

  lemma {:induction false} EntryNormal(h: Heap, c: Elem, e: Entry, isArr: bool)
    requires UnfoldsIntoEntry(h, c, e) && (isArr || c.key.Name?)
    ensures NormalEntry(e, isArr) == e
    decreases e
  {
    CapturedIsNormal(h, c.val, e.val);
  }

  /** A captured value loses nothing in packed form. */
  lemma CapturedSurvivesPacking(en: Engine, h: Heap, z: Zval)
    requires Capture(h, z, 0).Ok? && Sized(Capture(h, z, 0).value)
    ensures UnpackAll(Pack(Capture(h, z, 0).value)) == Some(Capture(h, z, 0).value)
    ensures Plain(z) && Tidy(en, z) ==> Rebuild(en, UnpackAll(Pack(Capture(h, z, 0).value)).value) == z
  {
    var v := Capture(h, z, 0).value;
    CaptureIsUnfolding(h, z, 0, v);
    CapturedIsNormal(h, z, v);
    PackThenUnpack(v);
    if Plain(z) {
      PlainRoundTrip(en, h, z);
    }
  }
}
