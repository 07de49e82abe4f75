/**
 `value_unpack`: the recursive reader. For every input it builds exactly the tree that the format describes, and the live
 blocks grow by exactly that tree: by nothing at all when the input is refused, at whatever depth.
 */
module UnpackTree {
  import opened Bytes
  import opened Wrappers
  import opened Varint
  import opened Values
  import opened PackFormat
  import opened ValueHeap
  import opened ValueBuild
  import opened ValueDestroy

  /**
   The packed bytes and how far they have been read: the `const uint8_t **p` and `end` of the C code. `deepest` is the
   largest number of calls of `unpack_one` that were active at a time and had read their tag.
   */
  class Reader {
    const input: seq<byte>
    var p: nat
    ghost var deepest: nat

    constructor (s: seq<byte>)
      ensures input == s && p == 0 && deepest == 0
    {
      input, p, deepest := s, 0, 0;
    }

    /** No more calls were ever nested than bytes were read. */
    ghost predicate Valid()
      reads this
    {
      deepest <= p <= |input|
    }
  }

  lemma {:induction false} TakenOneMore(s: seq<byte>, p: nat, n: nat)
    requires p + n < |s|
    ensures Taken(s, p, n + 1) == Taken(s, p, n) + [s[p + n]]
    decreases n
  {
    if n > 0 {
      TakenOneMore(s, p + 1, n - 1);
    }
  }

  /** One turn of the loop of `varint_read`: what the turn adds to the number. */
  lemma ReadTurn(s: seq<byte>, p: nat, k: nat, v: nat)
    requires k < 10 && p + k < |s| && v == GroupValue(Taken(s, p, k)) && v < Pow(2, 7 * k)
    ensures var b, w := s[p + k], v + Placed(s[p + k], k);
            && w == GroupValue(Taken(s, p, k + 1))
            && Or(v, Placed(b, k) % TWO_TO_THE_64) == w % TWO_TO_THE_64
            && (k < 9 ==> w < Pow(2, 7 * (k + 1)) && w % TWO_TO_THE_64 == w)
  {
    hide Or, Pow, Placed, GroupValue;
    var w := v + Placed(s[p + k], k);
    GroupValueAppend(Taken(s, p, k), s[p + k]);
    TakenOneMore(s, p, k);
    ReadStep(v, s[p + k], k);
    if k < 9 {
      Pow2At63();
      NoCut(w);
    }
  }

  /** And whether it is the last one. */
  lemma ReadEnds(s: seq<byte>, p: nat, k: nat)
    requires k < 10 && p + k < |s| && GroupEnd(s, p, 10) == GroupEnd(s, p + k, 10 - k)
    ensures s[p + k] < 0x80 ==> ReadVarint(s, p) == Got(GroupValue(Taken(s, p, k + 1)) % TWO_TO_THE_64, p + k + 1)
    ensures s[p + k] >= 0x80 ==> GroupEnd(s, p, 10) == GroupEnd(s, p + k + 1, 9 - k)
    ensures s[p + k] >= 0x80 && k == 9 ==> ReadVarint(s, p) == Fail
  {
    hide GroupValue, Taken;
  }

  /** `varint_read`. */
  method VarintRead(r: Reader) returns (ok: bool, out: u64)
    requires r.Valid()
    modifies r`p
    ensures old(r.p) <= r.p && r.Valid()
    ensures match ReadVarint(r.input, old(r.p))
            case Fail => !ok && r.p == (if old(r.p) + 10 <= |r.input| then old(r.p) + 10 else |r.input|)
            case Got(v, q) => ok && out == v && r.p == q <= old(r.p) + 10
  {
    hide Or, Pow, Placed, GroupValue, ReadVarint, Taken;
    ghost var p0, k := r.p, 0;
    var v: u64, shift := 0, 0;
    EmptyGroup(r.input, p0);
    while r.p < |r.input|
      invariant r.Valid() && k < 10 && r.p == p0 + k && shift == 7 * k
      invariant v == GroupValue(Taken(r.input, p0, k)) && v < Pow(2, 7 * k)
      invariant GroupEnd(r.input, p0, 10) == GroupEnd(r.input, r.p, 10 - k)
      decreases |r.input| - r.p
    {
      var b := r.input[r.p];
      ReadTurn(r.input, p0, k, v);
      ReadEnds(r.input, p0, k);
      r.p := r.p + 1;
      PlacedIs(b, k);
      v := Or(v, ((b % 128) * Pow(2, shift)) % TWO_TO_THE_64);
      if b < 0x80 {
        return true, v;
      }
      shift := shift + 7;
      if shift >= 64 {
        return false, 0;
      }
      k := k + 1;
    }
    NoMoreBytes(r.input, p0, 10 - k);
    return false, 0;
  }

  lemma EmptyGroup(s: seq<byte>, p: nat)
    requires p <= |s|
    ensures GroupValue(Taken(s, p, 0)) == 0 < Pow(2, 7 * 0)
  {
  }

  lemma PlacedIs(b: byte, k: nat)
    ensures Placed(b, k) == (b % 128) * Pow(2, 7 * k)
  {
  }

  lemma NoMoreBytes(s: seq<byte>, p: nat, room: nat)
    requires p <= |s| && GroupEnd(s, p, 10) == GroupEnd(s, |s|, room)
    ensures ReadVarint(s, p) == Fail
  {
  }

  /** A length that the rest of the input covers. */
  method ReadLength(r: Reader) returns (ok: bool, n: nat)
    requires r.Valid()
    modifies r`p
    ensures old(r.p) <= r.p && r.Valid()
    ensures match ReadBlob(r.input, old(r.p))
            case Fail => !ok
            case Got(b, q) => ok && r.p + n == q && b == r.input[r.p..r.p + n]
  {
    hide ReadVarint, Taken;
    ok, n := VarintRead(r);
    if ok && |r.input| - r.p < n {
      return false, 0;
    }
    if ok {
      TakenIsSlice(r.input, r.p, n);
    }
  }

  /** `read_double`: eight shifted bytes, or-ed together. */
  method DoubleRead(r: Reader) returns (ok: bool, bits: u64)
    requires r.Valid()
    modifies r`p
    ensures old(r.p) <= r.p && r.Valid()
    ensures ok <==> old(r.p) + 8 <= |r.input|
    ensures ok ==> bits == ReadDouble(r.input, old(r.p)) && r.p == old(r.p) + 8
  {
    if |r.input| - r.p < 8 {
      return false, 0;
    }
    hide Or, Pow, ReadDouble, FromLittleEndian, Taken, ByteAt;
    var v: nat, i := 0, 0;
    NoBytesYet(r.input, r.p);
    while i < 8
      invariant 0 <= i <= 8 && r.p == old(r.p)
      invariant v == FromLittleEndian(Taken(r.input, r.p, i)) && v < Pow(2, 8 * i)
    {
      DoubleTurn(r.input, r.p, i, v);
      v := Or(v, ByteAt(r.input[r.p + i], i));
      i := i + 1;
    }
    DoubleDone(r.input, r.p);
    bits := v;
    r.p := r.p + 8;
    ok := true;
  }

  /** A byte shifted left by 8 * i bits. */
  function ByteAt(b: byte, i: nat): nat {
    b * Pow(2, 8 * i)
  }

  lemma NoBytesYet(s: seq<byte>, p: nat)
    requires p <= |s|
    ensures FromLittleEndian(Taken(s, p, 0)) == 0 < Pow(2, 8 * 0)
  {
  }

  lemma DoubleDone(s: seq<byte>, p: nat)
    requires p + 8 <= |s|
    ensures ReadDouble(s, p) == FromLittleEndian(Taken(s, p, 8))
  {
  }

  lemma {:induction false} LittleEndianAppend(s: seq<byte>, b: byte)
    ensures FromLittleEndian(s + [b]) == FromLittleEndian(s) + ByteAt(b, |s|)
  {
    if s == [] {
      assert s + [b] == [b];
    } else {
      assert (s + [b])[1..] == s[1..] + [b];
      LittleEndianAppend(s[1..], b);
      EightMore(|s| - 1);
      TimesAssoc(256, b, Pow(2, 8 * (|s| - 1)));
      TimesAssoc(b, 256, Pow(2, 8 * (|s| - 1)));
    }
  }

  lemma EightMore(k: nat)
    ensures Pow(2, 8 * (k + 1)) == 256 * Pow(2, 8 * k)
  {
    PowAdd(2, 8, 8 * k);
    assert Pow(2, 8) == 256;
  }

  lemma DoubleTurn(s: seq<byte>, p: nat, i: nat, v: nat)
    requires p + i < |s| && v == FromLittleEndian(Taken(s, p, i)) && v < Pow(2, 8 * i)
    ensures var w := v + ByteAt(s[p + i], i);
            && Or(v, ByteAt(s[p + i], i)) == w
            && w == FromLittleEndian(Taken(s, p, i + 1)) && w < Pow(2, 8 * (i + 1))
  {
    hide Or, Pow, FromLittleEndian;
    LittleEndianAppend(Taken(s, p, i), s[p + i]);
    TakenOneMore(s, p, i);
    OrDisjoint(v, ByteAt(s[p + i], i), 8 * i, s[p + i]);
    EightMore(i);
    ByteFitsBelow(v, s[p + i], Pow(2, 8 * i));
  }

  lemma ByteFitsBelow(v: nat, b: byte, w: nat)
    requires v < w
    ensures v + b * w < 256 * w
  {
    assert 256 * w == b * w + (256 - b) * w;
    AtLeastOnce(w, 256 - b);
  }

  // ---------- The recursive reader ----------

  /** A pointer that is NULL where nothing can be read, and otherwise a tree for what was read. */
  ghost predicate Built(v: ValueNode?, spec: Parsed<Value>, p: nat)
    reads v, ReprOf(v)
  {
    match spec
    case Fail => v == null
    case Got(m, q) => v != null && v.Valid() && v.model == m && p == q
  }

  /** One entry of a block, as the reader stores it. */
  function ReadEntry(s: seq<byte>, p: nat, isArr: bool): (r: Parsed<Entry>)
    requires p <= |s|
    ensures r.Got? ==> p + 1 < r.next <= |s|
  {
    match ReadKey(s, p)
    case Fail => Fail
    case Got(key, q) =>
      match Unpack(s, q)
      case Fail => Fail
      case Got(child, q') => Got(Entry(StoredKey(key, isArr), child), q')
  }

  /** Entries that were read already, in front of the ones still to come. */
  function Prepend(es: seq<Entry>, rest: Parsed<seq<Entry>>): Parsed<seq<Entry>> {
    match rest
    case Fail => Fail
    case Got(more, q) => Got(es + more, q)
  }

  lemma EntriesStep(s: seq<byte>, p: nat, n: nat, isArr: bool, es: seq<Entry>)
    requires p <= |s| && n > 0
    ensures match ReadEntry(s, p, isArr)
            case Fail => Prepend(es, UnpackEntries(s, p, n, isArr)) == Fail
            case Got(e, q) => Prepend(es, UnpackEntries(s, p, n, isArr))
                              == Prepend(es + [e], UnpackEntries(s, q, n - 1, isArr))
  {
    match ReadEntry(s, p, isArr) {
      case Fail =>
      case Got(e, q) =>
        if UnpackEntries(s, q, n - 1, isArr).Got? {
          var more := UnpackEntries(s, q, n - 1, isArr).value;
          assert es + ([e] + more) == es + [e] + more;
        }
    }
  }

  /** The key of an entry; a string key is a temporary block that the caller frees. */
  method KeyRead(mem: Memory, r: Reader) returns (ok: bool, isInt: bool, ikey: i64, skey: array?<byte>, klen: nat)
    requires r.Valid() && mem.Holds({})
    modifies mem, r`p
    ensures old(r.p) <= r.p && r.Valid()
    ensures ok <==> ReadKey(r.input, old(r.p)).Got?
    ensures ok ==> ReadKey(r.input, old(r.p)) == Got(KeyOf(isInt, ikey, skey, klen), r.p)
    ensures ok ==> if isInt then skey == null && klen == 0 else skey != null && klen <= skey.Length
    ensures !ok ==> skey == null
    ensures fresh(Own(skey)) && mem.live == old(mem.live) + Own(skey)
    ensures mem.built == old(mem.built)
  {
    ok, isInt, ikey, skey, klen := false, false, 0, null, 0;
    if r.p == |r.input| {
      return;
    }
    var flag := r.input[r.p];
    r.p := r.p + 1;
    isInt := flag != 0;
    if isInt {
      var k;
      ok, k := VarintRead(r);
      ikey := ToI64(k);
    } else {
      ok, klen := ReadLength(r);
      if !ok {
        return;
      }
      skey := Malloc(mem, if klen > 0 then klen else 1);
      forall i | 0 <= i < klen {
        skey[i] := r.input[r.p + i];
      }
      assert skey[..klen] == r.input[r.p..r.p + klen];
      r.p := r.p + klen;
    }
  }

  ghost function KeyOf(isInt: bool, ikey: i64, skey: array?<byte>, klen: nat): Key
    reads skey
  {
    if isInt then IntKey(ikey) else if skey == null || klen > skey.Length then StrKey([]) else StrKey(skey[..klen])
  }

  /** Storing a child under the key that was read. */
  method StoreChild(mem: Memory, parent: ValueNode, isArr: bool, isInt: bool, ikey: i64, skey: seq<byte>,
                    child: ValueNode)
    requires parent.Valid() && (if isArr then parent.payload.PArr? else parent.payload.PObj?)
    requires child.Valid() && child.repr !! parent.repr && mem.Holds(parent.repr + child.repr)
    requires isInt ==> skey == []
    modifies mem, parent, parent.Slots()
    ensures parent.Valid() && (if isArr then parent.payload.PArr? else parent.payload.PObj?)
    ensures parent.model == Extended(old(parent.model),
                                     Entry(StoredKey(if isInt then IntKey(ikey) else StrKey(skey), isArr),
                                           old(child.model)))
    ensures fresh(parent.repr - old(parent.repr) - old(child.repr)) && old(child.repr) <= parent.repr
    ensures mem.live == old(mem.live) - old(parent.repr) + parent.repr && mem.Holds(parent.repr)
    ensures parent.Slots() == old(parent.Slots()) || fresh(parent.Slots())
    ensures mem.built == old(mem.built)
  {
    hide ValueNode.Valid;
    if isArr {
      if isInt {
        ValueArrSetInt(mem, parent, ikey, child);
      } else {
        ValueArrSetStr(mem, parent, skey, child);
      }
    } else {
      ValueObjSet(mem, parent, skey, child);
    }
  }

  /** One entry more can only raise a node to its own height. */
  lemma {:induction false} HeightAppend(es: seq<Entry>, e: Entry)
    ensures HeightOf(es + [e]) == Max(HeightOf(es), 1 + Height(e.val))
  {
    if es == [] {
      assert es + [e] == [e];
    } else {
      assert (es + [e])[1..] == es[1..] + [e];
      HeightAppend(es[1..], e);
    }
  }

  /** One turn of the loop of `unpack_kv_block`. */
  method EntryRead(mem: Memory, r: Reader, parent: ValueNode, isArr: bool, ghost depth: nat)
    returns (ok: bool)
    requires r.Valid() && parent.Valid() && (if isArr then parent.payload.PArr? else parent.payload.PObj?)
    requires mem.Holds(parent.repr) && r !in mem.live
    requires depth <= r.deepest && depth + HeightOf(EntriesOf(parent.model)) <= r.deepest
    modifies mem, r, parent, parent.Slots()
    ensures old(r.p) <= r.p && r.Valid()
    ensures parent.Valid() && (if isArr then parent.payload.PArr? else parent.payload.PObj?)
    ensures match ReadEntry(r.input, old(r.p), isArr)
            case Fail => !ok
            case Got(e, q) => ok && r.p == q && parent.model == Extended(old(parent.model), e)
    ensures fresh(parent.repr - old(parent.repr))
    ensures mem.live == old(mem.live) - old(parent.repr) + parent.repr && mem.Holds(parent.repr)
    ensures parent.Slots() == old(parent.Slots()) || fresh(parent.Slots())
    ensures mem.built - old(mem.built) <= r.p - old(r.p) && old(r.deepest) <= r.deepest
    ensures ok ==> depth + HeightOf(EntriesOf(parent.model)) <= r.deepest
    decreases |r.input| - r.p, 1
  {
    hide ValueNode.Valid, ReadKey, Unpack, HeightOf, Height, StoredKey;
    var isInt, ikey, skey, klen;
    ok, isInt, ikey, skey, klen := KeyRead(mem, r);
    if !ok {
      return;
    }
    ghost var key := KeyOf(isInt, ikey, skey, klen);
    var child := UnpackOne(mem, r, depth);
    if child == null {
      Free(mem, skey);
      return false;
    }
    var name: seq<byte> := if skey == null then [] else skey[..klen];
    ghost var e := Entry(StoredKey(if isInt then IntKey(ikey) else StrKey(name), isArr), child.model);
    HeightAppend(EntriesOf(parent.model), e);
    ContainerModel(parent);
    StoreChild(mem, parent, isArr, isInt, ikey, name, child);
    Free(mem, skey);
  }

  /** The loop of `unpack_kv_block`: n entries, or as many as can be read. */
  method EntriesRead(mem: Memory, r: Reader, parent: ValueNode, isArr: bool, n: nat, ghost depth: nat)
    returns (ok: bool)
    requires r.Valid() && parent.Valid() && (if isArr then parent.payload.PArr? else parent.payload.PObj?)
    requires mem.Holds(parent.repr) && r !in mem.live
    requires depth <= r.deepest && depth + HeightOf(EntriesOf(parent.model)) <= r.deepest
    modifies mem, r, parent, parent.Slots()
    ensures old(r.p) <= r.p && r.Valid()
    ensures parent.Valid() && (if isArr then parent.payload.PArr? else parent.payload.PObj?)
    ensures match Prepend(EntriesOf(old(parent.model)), UnpackEntries(r.input, old(r.p), n, isArr))
            case Fail => !ok
            case Got(es, q) => ok && r.p == q && parent.model == WithEntries(old(parent.model), es)
    ensures fresh(parent.repr - old(parent.repr))
    ensures mem.live == old(mem.live) - old(parent.repr) + parent.repr && mem.Holds(parent.repr)
    ensures parent.Slots() == old(parent.Slots()) || fresh(parent.Slots())
    ensures mem.built - old(mem.built) <= r.p - old(r.p) && old(r.deepest) <= r.deepest
    ensures ok ==> depth + HeightOf(EntriesOf(parent.model)) <= r.deepest
    decreases |r.input| - r.p, 2
  {
    hide ValueNode.Valid, UnpackEntries, ReadEntry, Prepend;
    var i := 0;
    while i < n
      invariant 0 <= i <= n && old(r.p) <= r.p && r.Valid() && r !in mem.live
      invariant parent.Valid() && (if isArr then parent.payload.PArr? else parent.payload.PObj?)
      invariant parent.model == WithEntries(old(parent.model), EntriesOf(parent.model))
      invariant Prepend(EntriesOf(old(parent.model)), UnpackEntries(r.input, old(r.p), n, isArr))
             == Prepend(EntriesOf(parent.model), UnpackEntries(r.input, r.p, n - i, isArr))
      invariant fresh(parent.repr - old(parent.repr))
      invariant parent.Slots() == old(parent.Slots()) || fresh(parent.Slots())
      invariant mem.live == old(mem.live) - old(parent.repr) + parent.repr && mem.Holds(parent.repr)
      invariant mem.built - old(mem.built) <= r.p - old(r.p) && old(r.deepest) <= r.deepest
      invariant depth <= r.deepest && depth + HeightOf(EntriesOf(parent.model)) <= r.deepest
    {
      ContainerModel(parent);
      EntriesStep(r.input, r.p, n - i, isArr, EntriesOf(parent.model));
      ok := EntryRead(mem, r, parent, isArr, depth);
      if !ok {
        return;
      }
      i := i + 1;
    }
    NoEntriesLeft(r.input, r.p, isArr, EntriesOf(parent.model));
    ok := true;
  }

  function WithEntries(m: Value, es: seq<Entry>): Value {
    match m
    case Arr(_) => Arr(es)
    case Obj(cls, _) => Obj(cls, es)
    case _ => m
  }

  lemma NoEntriesLeft(s: seq<byte>, p: nat, isArr: bool, es: seq<Entry>)
    requires p <= |s|
    ensures Prepend(es, UnpackEntries(s, p, 0, isArr)) == Got(es, p)
  {
    assert es + [] == es;
  }

  /** `unpack_kv_block`, into a node that has no entries yet. */
  method UnpackKvBlock(mem: Memory, r: Reader, parent: ValueNode, isArr: bool, ghost depth: nat)
    returns (ok: bool)
    requires r.Valid() && parent.Valid() && (if isArr then parent.payload.PArr? else parent.payload.PObj?)
    requires mem.Holds(parent.repr) && r !in mem.live && EntriesOf(parent.model) == []
    requires depth <= r.deepest
    modifies mem, r, parent, parent.Slots()
    ensures old(r.p) <= r.p && r.Valid()
    ensures parent.Valid() && (if isArr then parent.payload.PArr? else parent.payload.PObj?)
    ensures match UnpackBlock(r.input, old(r.p), isArr)
            case Fail => !ok
            case Got(es, q) => ok && r.p == q && parent.model == WithEntries(old(parent.model), es)
    ensures fresh(parent.repr - old(parent.repr))
    ensures mem.live == old(mem.live) - old(parent.repr) + parent.repr && mem.Holds(parent.repr)
    ensures mem.built - old(mem.built) <= r.p - old(r.p) && old(r.deepest) <= r.deepest
    ensures ok ==> depth + HeightOf(EntriesOf(parent.model)) <= r.deepest
    decreases |r.input| - r.p, 3
  {
    hide ValueNode.Valid, UnpackEntries, ReadVarint;
    var n;
    ok, n := VarintRead(r);
    if ok {
      NothingBefore(UnpackEntries(r.input, r.p, n, isArr));
      ok := EntriesRead(mem, r, parent, isArr, n, depth);
    }
  }

  lemma NothingBefore(rest: Parsed<seq<Entry>>)
    ensures Prepend([], rest) == rest
  {
    if rest.Got? {
      assert [] + rest.value == rest.value;
    }
  }

  method UnpackArr(mem: Memory, r: Reader, ghost depth: nat) returns (v: ValueNode?)
    requires r.Valid() && mem.Holds({}) && r !in mem.live
    requires depth < r.deepest
    modifies mem, r
    ensures old(r.p) <= r.p && r.Valid()
    ensures match UnpackBlock(r.input, old(r.p), true)
            case Fail => v == null
            case Got(es, q) => v != null && v.Valid() && v.model == Arr(es) && r.p == q
    ensures fresh(ReprOf(v)) && mem.live == old(mem.live) + ReprOf(v)
    ensures mem.built - old(mem.built) <= 1 + r.p - old(r.p) && old(r.deepest) <= r.deepest
    ensures v != null ==> depth + Height(v.model) < r.deepest
    decreases |r.input| - r.p, 4
  {
    hide ValueNode.Valid, UnpackBlock;
    var arr := ValueArr(mem, 0);
    var ok := UnpackKvBlock(mem, r, arr, true, depth + 1);
    if !ok {
      ValueFree(mem, arr);
      return null;
    }
    v := arr;
  }

  method UnpackObj(mem: Memory, r: Reader, ghost depth: nat) returns (v: ValueNode?)
    requires r.Valid() && mem.Holds({}) && r !in mem.live
    requires depth < r.deepest
    modifies mem, r
    ensures old(r.p) <= r.p && r.Valid()
    ensures match ReadBlob(r.input, old(r.p))
            case Fail => v == null
            case Got(cls, p) =>
              match UnpackBlock(r.input, p, false)
              case Fail => v == null
              case Got(es, q) => v != null && v.Valid() && v.model == Obj(cls, es) && r.p == q
    ensures fresh(ReprOf(v)) && mem.live == old(mem.live) + ReprOf(v)
    ensures mem.built - old(mem.built) <= 1 + r.p - old(r.p) && old(r.deepest) <= r.deepest
    ensures v != null ==> depth + Height(v.model) < r.deepest
    decreases |r.input| - r.p, 4
  {
    hide ValueNode.Valid, UnpackBlock, ReadBlob;
    var ok, clen := ReadLength(r);
    if !ok {
      return null;
    }
    var obj := ValueObj(mem, r.input[r.p..r.p + clen], 0);
    r.p := r.p + clen;
    ok := UnpackKvBlock(mem, r, obj, false, depth + 1);
    if !ok {
      ValueFree(mem, obj);
      return null;
    }
    v := obj;
  }

  /** A temporary NUL-terminated copy of the next blob. */
  method TextRead(mem: Memory, r: Reader) returns (text: array?<byte>)
    requires r.Valid() && mem.Holds({}) && r !in mem.live
    modifies mem, r`p
    ensures old(r.p) <= r.p && r.Valid()
    ensures match ReadBlob(r.input, old(r.p))
            case Fail => text == null
            case Got(b, q) => text != null && text[..] == b + [0] && r.p == q
    ensures fresh(Own(text)) && mem.live == old(mem.live) + Own(text)
    ensures mem.built == old(mem.built)
  {
    hide ReadBlob;
    var ok, n := ReadLength(r);
    if !ok {
      return null;
    }
    var copy := Malloc(mem, n + 1);
    forall i | 0 <= i < n {
      copy[i] := r.input[r.p + i];
    }
    copy[n] := 0;
    assert copy[..] == r.input[r.p..r.p + n] + [0];
    r.p := r.p + n;
    text := copy;
  }

  lemma {:induction false} CStringTerminated(b: seq<byte>)
    ensures CString(b + [0]) == CString(b) && 0 in b + [0]
  {
    assert (b + [0])[|b|] == 0;
    if b != [] {
      assert (b + [0])[1..] == b[1..] + [0];
      CStringTerminated(b[1..]);
    }
  }

  method UnpackErr(mem: Memory, r: Reader) returns (v: ValueNode?)
    requires r.Valid() && mem.Holds({}) && r !in mem.live
    modifies mem, r`p
    ensures old(r.p) <= r.p && r.Valid()
    ensures Built(v, ReadError(r.input, old(r.p)), r.p)
    ensures fresh(ReprOf(v)) && mem.live == old(mem.live) + ReprOf(v)
    ensures mem.built - old(mem.built) == if v == null then 0 else 1
    ensures v != null ==> Height(v.model) == 0
  {
    hide ReadBlob, ReadVarint, CString, ValueNode.Valid;
    var cls := TextRead(mem, r);
    if cls == null {
      return null;
    }
    var msg := TextRead(mem, r);
    if msg == null {
      Free(mem, cls);
      return null;
    }
    var ok, code := VarintRead(r);
    if !ok {
      Free(mem, cls);
      Free(mem, msg);
      return null;
    }
    var trace := TextRead(mem, r);
    if trace == null {
      Free(mem, cls);
      Free(mem, msg);
      return null;
    }
    v := FinishErr(mem, cls, msg, ToI64(code), trace);
  }

  /** The end of the VAL_ERR case: the error node copies the three texts up to their first NUL. */
  method FinishErr(mem: Memory, cls: array<byte>, msg: array<byte>, code: i64, trace: array<byte>) returns (v: ValueNode)
    requires cls.Length > 0 && msg.Length > 0 && trace.Length > 0
    requires cls[cls.Length - 1] == 0 && msg[msg.Length - 1] == 0 && trace[trace.Length - 1] == 0
    requires cls != msg && cls != trace && msg != trace && mem.Holds({cls, msg, trace})
    modifies mem
    ensures v.Valid() && fresh(v.repr)
    ensures v.model == Error(Some(CString(cls[..cls.Length - 1])), Some(CString(msg[..msg.Length - 1])), code,
                             Some(CString(trace[..trace.Length - 1])))
    ensures mem.live == old(mem.live) - {cls, msg, trace} + v.repr
    ensures mem.built == old(mem.built) + 1
  {
    TextEnds(cls);
    TextEnds(msg);
    TextEnds(trace);
    hide CString, ValueNode.Valid;
    v := ValueErr(mem, cls, msg, code, trace);
    Free(mem, cls);
    Free(mem, msg);
    Free(mem, trace);
  }

  lemma TextEnds(a: array<byte>)
    requires a.Length > 0 && a[a.Length - 1] == 0
    ensures 0 in a[..] && CString(a[..]) == CString(a[..a.Length - 1])
  {
    assert a[..] == a[..a.Length - 1] + [0];
    CStringTerminated(a[..a.Length - 1]);
  }

  /** The tags without children. */
  method UnpackScalar(mem: Memory, r: Reader, tag: byte) returns (v: ValueNode?)
    requires r.Valid() && mem.Holds({}) && r !in mem.live && tag < 5
    requires 0 < r.p && r.input[r.p - 1] == tag
    modifies mem, r`p
    ensures old(r.p) <= r.p && r.Valid()
    ensures Built(v, Unpack(r.input, old(r.p) - 1), r.p)
    ensures fresh(ReprOf(v)) && mem.live == old(mem.live) + ReprOf(v)
    ensures mem.built - old(mem.built) == if v == null then 0 else 1
    ensures v != null ==> Height(v.model) == 0
  {
    match tag {
      case 0 => v := ValueNull(mem);
      case 1 =>
        if r.p == |r.input| {
          return null;
        }
        var b := r.input[r.p];
        r.p := r.p + 1;
        v := ValueBool(mem, b != 0);
      case 2 =>
        hide ReadVarint, ValueNode.Valid;
        var ok, i := VarintRead(r);
        if !ok {
          return null;
        }
        v := ValueLong(mem, ToI64(i));
      case 3 =>
        hide ReadDouble, ValueNode.Valid;
        var ok, bits := DoubleRead(r);
        if !ok {
          return null;
        }
        v := ValueDouble(mem, bits);
      case 4 =>
        hide ReadBlob, ValueNode.Valid;
        var ok, n := ReadLength(r);
        if !ok {
          return null;
        }
        v := ValueStr(mem, r.input[r.p..r.p + n]);
        r.p := r.p + n;
    }
  }

  /**
   `unpack_one`, `depth` calls below `value_unpack`. In every outcome it builds at most as many nodes as it reads bytes, and
   nests at most as many calls as bytes were read, whatever counts the input declares.
   */
  method UnpackOne(mem: Memory, r: Reader, ghost depth: nat) returns (v: ValueNode?)
    requires r.Valid() && mem.Holds({}) && r !in mem.live
    requires depth <= r.p
    modifies mem, r
    ensures old(r.p) <= r.p && r.Valid()
    ensures Built(v, Unpack(r.input, old(r.p)), r.p)
    ensures fresh(ReprOf(v)) && mem.live == old(mem.live) + ReprOf(v)
    ensures mem.built - old(mem.built) <= r.p - old(r.p) && old(r.deepest) <= r.deepest
    ensures v != null ==> depth + Height(v.model) < r.deepest
    decreases |r.input| - r.p, 0
  {
    if r.p >= |r.input| {
      return null;
    }
    hide ValueNode.Valid, UnpackBlock, ReadBlob, ReadError;
    var tag := r.input[r.p];
    r.p := r.p + 1;
    r.deepest := Max(r.deepest, depth + 1);
    if tag < 5 {
      v := UnpackScalar(mem, r, tag);
    } else if tag == 5 {
      v := UnpackArr(mem, r, depth);
    } else if tag == 6 {
      v := UnpackObj(mem, r, depth);
    } else if tag == 7 {
      v := UnpackErr(mem, r);
    } else {
      v := null;
    }
  }

  /**
   `value_unpack`: the tree of the whole input, or NULL and no block left behind. For every input, refused ones included,
   it builds at most |s| nodes, and its recursion is at most |s| deep and deeper than the tree is high.
   */
  method ValueUnpack(mem: Memory, s: seq<byte>) returns (v: ValueNode?, ghost deepest: nat)
    requires mem.Holds({})
    modifies mem
    ensures match UnpackAll(s)
            case None => v == null
            case Some(m) => v != null && v.Valid() && v.model == m
    ensures fresh(ReprOf(v)) && mem.live == old(mem.live) + ReprOf(v)
    ensures mem.built - old(mem.built) <= |s| && deepest <= |s|
    ensures v != null ==> Height(v.model) < deepest
  {
    hide Unpack, ValueNode.Valid;
    var r := new Reader(s);
    var t := UnpackOne(mem, r, 0);
    deepest := r.deepest;
    if t == null {
      return null, deepest;
    }
    if r.p != |s| {
      ValueFree(mem, t);
      return null, deepest;
    }
    v := t;
  }
}
