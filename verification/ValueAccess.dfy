/** Appending under the next integer key, and looking a string key up: the loops of value/value.c that only read. */
module ValueAccess {
  import opened Bytes
  import opened Wrappers
  import opened Values
  import opened ValueHeap
  import opened ValueBuild
  import opened ValueDestroy

  /** One more than the largest integer key, and 0 where there is none or all are negative. */
  function NextKey(es: seq<Entry>): (k: int)
    ensures k >= 0
    ensures forall e | e in es && e.key.IntKey? :: e.key.ikey < k
    ensures k > 0 ==> exists e | e in es :: e.key.IntKey? && e.key.ikey == k - 1
  {
    if es == [] then 0 else
      var before, last := NextKey(es[..|es| - 1]), es[|es| - 1];
      assert es == es[..|es| - 1] + [last];
      if last.key.IntKey? && last.key.ikey >= before then last.key.ikey + 1 else before
  }

  /** The place of the first entry with this string key, or the number of entries. */
  function FirstWith(es: seq<Entry>, key: seq<byte>): (i: nat)
    ensures i <= |es|
    ensures i < |es| ==> es[i].key == StrKey(key)
    ensures forall j | 0 <= j < i :: es[j].key != StrKey(key)
  {
    if es == [] || es[0].key == StrKey(key) then 0 else
      var i := FirstWith(es[1..], key);
      assert forall j | 1 <= j < i + 1 :: es[j] == es[1..][j - 1];
      1 + i
  }

  /** The bytes of a duplicated byte string. */
  method BytesOf(ghost mem: Memory, a: array?<byte>, len: nat, ghost s: seq<byte>) returns (r: seq<byte>)
    requires HoldsBytes(a, len, s)
    requires mem.Holds(Own(a))
    ensures r == s
  {
    r := if a == null then [] else a[..];
  }

  /** The bytes of a C string, "" for NULL. */
  method TextBytes(ghost mem: Memory, a: array?<byte>, ghost s: Option<cstring>) returns (r: cstring)
    requires HoldsCString(a, s)
    requires mem.Holds(Own(a))
    ensures r == OrEmpty(s)
  {
    if a == null {
      return [];
    }
    ghost var c := s.value;
    assert a[|c|] == 0 && a[..|c|] == c;
    assert 0 in a[..] by { assert a[..][|c|] == 0; }
    var len := StrLen(a);
    CStringIs(a[..], |c|);
    assert a[..][..|c|] == c;
    r := a[..len];
  }

  lemma EntryKey(kv: Kv, part: set<object>, e: Entry)
    requires HoldsEntry(kv, part, e)
    ensures kv.isIntKey == e.key.IntKey? && (kv.isIntKey ==> e.key.ikey == kv.ikey)
    ensures !kv.isIntKey ==> HoldsBytes(kv.skey, kv.skeyLen, e.key.skey)
  {
  }

  /** `next_int_key`. */
  method NextIntKey(ghost mem: Memory, arr: ValueNode) returns (key: int)
    requires arr.Valid() && arr.payload.PArr?
    requires mem.Holds(arr.repr)
    ensures arr.model.Arr? && key == NextKey(arr.model.items)
  {
    UnfoldArr(arr);
    var PArr(items, n, _) := arr.payload;
    ghost var es := arr.model.items;
    BlockSize(items, n, arr.parts, es);
    hide ValueNode.Valid, HoldsBlock, HoldsEntry, NextKey;
    var max: int, i := -1, 0;
    NextKeyStart(es);
    while i < n
      invariant 0 <= i <= n == |es|
      invariant max + 1 == NextKey(es[..i])
    {
      BlockEntry(items, n, arr.parts, es, i);
      EntryKey(items[i], arr.parts[i], es[i]);
      NextKeyStep(es, i);
      if items[i].isIntKey && items[i].ikey > max {
        max := items[i].ikey;
      }
      i := i + 1;
    }
    assert es[..n] == es;
    key := max + 1;
  }

  lemma NextKeyStart(es: seq<Entry>)
    ensures NextKey(es[..0]) == 0
  {
  }

  lemma NextKeyStep(es: seq<Entry>, i: nat)
    requires i < |es|
    ensures var before := NextKey(es[..i]);
            NextKey(es[..i + 1]) == if es[i].key.IntKey? && es[i].key.ikey >= before then es[i].key.ikey + 1 else before
  {
    assert es[..i + 1][..i] == es[..i];
  }

  /**
   `value_arr_push`. The C code adds 1 to the largest key in 64 bits, so the largest key has to leave room; the new key
   is then greater than every integer key before it.
   */
  method ValueArrPush(mem: Memory, arr: ValueNode, child: ValueNode?)
    requires arr.Valid() && arr.payload.PArr? && (child != null ==> child.Valid())
    requires ReprOf(child) !! arr.repr && mem.Holds(arr.repr + ReprOf(child))
    requires arr.model.Arr? && NextKey(arr.model.items) < 0x8000_0000_0000_0000
    modifies mem, arr, arr.Slots()
    ensures arr.Valid() && arr.payload.PArr?
    ensures arr.model == Extended(old(arr.model), Entry(IntKey(old(NextKey(arr.model.items))), old(ModelOf(child))))
    ensures old(ReprOf(child)) <= arr.repr && fresh(arr.repr - old(arr.repr) - old(ReprOf(child)))
    ensures mem.live == old(mem.live) - old(arr.repr) + arr.repr && mem.Holds(arr.repr)
    ensures arr.Slots() == old(arr.Slots()) || fresh(arr.Slots())
  {
    hide ValueNode.Valid, NextKey;
    var key := NextIntKey(mem, arr);
    ValueArrSetInt(mem, arr, key, child);
  }

  /** What pushing one value after the other onto an empty array gives. */
  function Pushed(vs: seq<Value>): (es: seq<Entry>)
    requires |vs| < 0x8000_0000_0000_0000
    ensures |es| == |vs| == NextKey(es)
  {
    if vs == [] then [] else
      var before := Pushed(vs[..|vs| - 1]);
      var es := before + [Entry(IntKey(NextKey(before)), vs[|vs| - 1])];
      assert es[..|es| - 1] == before;
      es
  }

  /** Pushed values get the keys 0, 1, 2, ... in order. */
  lemma {:induction false} PushedIsList(vs: seq<Value>)
    requires |vs| < 0x8000_0000_0000_0000
    ensures forall i | 0 <= i < |vs| :: Pushed(vs)[i] == Entry(IntKey(i), vs[i])
  {
    if vs != [] {
      var n := |vs| - 1;
      var before := Pushed(vs[..n]);
      assert Pushed(vs) == before + [Entry(IntKey(NextKey(before)), vs[n])];
      assert NextKey(before) == n;
      hide Pushed, NextKey;
      PushedIsList(vs[..n]);
      forall i | 0 <= i < |vs|
        ensures Pushed(vs)[i] == Entry(IntKey(i), vs[i])
      {
        if i < n {
          assert before[i] == Entry(IntKey(i), vs[..n][i]);
        }
      }
    }
  }

  /** The test of the loop: a string key of the same length with the same bytes. */
  method KeyMatches(ghost mem: Memory, kv: Kv, ghost part: set<object>, ghost e: Entry,
                    key: seq<byte>) returns (same: bool)
    requires HoldsEntry(kv, part, e)
    requires mem.Holds(part)
    ensures same == (e.key == StrKey(key))
  {
    EntryKey(kv, part, e);
    hide HoldsEntry;
    same := !kv.isIntKey && kv.skeyLen == |key|;
    if same {
      same := SameBytes(mem, kv.skey, key, e.key.skey);
    }
  }

  /** `value_arr_get_str`: the child of the first entry with the key, or NULL; NULL also for what is no array. */
  method ValueArrGetStr(ghost mem: Memory, arr: ValueNode?, key: seq<byte>) returns (v: ValueNode?)
    requires arr != null ==> arr.Valid()
    requires mem.Holds(ReprOf(arr))
    ensures arr == null || !arr.payload.PArr? ==> v == null
    ensures arr != null && arr.payload.PArr? ==>
              var es := EntriesOf(arr.model);
              var i := FirstWith(es, key);
              if i == |es| then v == null else ModelOf(v) == es[i].val && (v != null ==> v in arr.repr && v.Valid())
  {
    if arr == null || !arr.payload.PArr? {
      return null;
    }
    UnfoldArr(arr);
    hide ValueNode.Valid, FirstWith, HoldsBlock, HoldsEntry;
    var PArr(items, n, _) := arr.payload;
    ghost var es := arr.model.items;
    var i := FirstSlot(mem, items, n, arr.parts, es, key);
    BlockSize(items, n, arr.parts, es);
    if i == n {
      return null;
    }
    BlockEntry(items, n, arr.parts, es, i);
    EntryParts(items[i], arr.parts[i], es[i]);
    UntouchedPart(arr.parts, i);
    v := items[i].val;
  }

  /** The loop: the first slot with the key, or n. */
  method FirstSlot(ghost mem: Memory, items: array?<Kv>, n: nat,
                   ghost parts: seq<set<object>>, ghost es: seq<Entry>, key: seq<byte>)
    returns (i: nat)
    requires HoldsBlock(items, n, parts, es, Union(parts))
    requires mem.Holds(Own(items) + Union(parts))
    ensures i == FirstWith(es, key)
  {
    BlockSize(items, n, parts, es);
    hide FirstWith, HoldsBlock, HoldsEntry, Union;
    i := 0;
    while i < n
      invariant 0 <= i <= n == |es|
      invariant forall j | 0 <= j < i :: es[j].key != StrKey(key)
    {
      BlockEntry(items, n, parts, es, i);
      var same := KeyMatches(mem, items[i], parts[i], es[i], key);
      if same {
        FirstIs(es, key, i);
        return;
      }
      i := i + 1;
    }
    FirstIs(es, key, n);
  }

  lemma FirstIs(es: seq<Entry>, key: seq<byte>, i: nat)
    requires i <= |es| && (i < |es| ==> es[i].key == StrKey(key))
    requires forall j | 0 <= j < i :: es[j].key != StrKey(key)
    ensures FirstWith(es, key) == i
  {
  }

  /** `memcmp` on keys of equal length. */
  method SameBytes(ghost mem: Memory, a: array?<byte>, key: seq<byte>, ghost s: seq<byte>) returns (same: bool)
    requires HoldsBytes(a, |key|, s)
    requires mem.Holds(Own(a))
    ensures same == (s == key)
  {
    same := if a == null then |key| == 0 else a[..] == key;
  }
}
