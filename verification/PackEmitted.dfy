/** Which of the buffers that the reader accepts the writer emits, and one of each kind that it never does. */
module PackEmitted {
  import opened Bytes
  import opened Wrappers
  import opened Varint
  import opened Values
  import opened PackFormat
  import opened PackProofs

  /** All objects in the tree have string keys only, as `value_obj_set` sees to. */
  predicate StringKeyed(v: Value)
    decreases v
  {
    match v
    case Arr(items) => EntriesStringKeyed(items, true)
    case Obj(_, props) => EntriesStringKeyed(props, false)
    case _ => true
  }

  predicate EntriesStringKeyed(es: seq<Entry>, isArr: bool)
    decreases es
  {
    es != [] ==> EntryStringKeyed(es[0], isArr) && EntriesStringKeyed(es[1..], isArr)
  }

  predicate EntryStringKeyed(e: Entry, isArr: bool)
    decreases e
  {
    (isArr || e.key.StrKey?) && StringKeyed(e.val)
  }

  /** A value in memory and what is left of it after travelling have the same packed form. */
  lemma {:induction false} PackNormal(v: Value)
    requires StringKeyed(v)
    ensures Pack(Normal(v)) == Pack(v)
    decreases v
  {
    hide VarintBytes, Blob, PackEntries;
    if v.Arr? {
      PackNormalEntries(v.items, true);
    } else if v.Obj? {
      PackNormalEntries(v.props, false);
    }
  }

  lemma {:induction false} PackNormalEntries(es: seq<Entry>, isArr: bool)
    requires EntriesStringKeyed(es, isArr)
    ensures PackEntries(NormalEntries(es, isArr)) == PackEntries(es)
    decreases es
  {
    if es != [] {
      PackNormalEntry(es[0], isArr);
      PackNormalEntries(es[1..], isArr);
      assert NormalEntries(es, isArr)[1..] == NormalEntries(es[1..], isArr);
    }
  }

  lemma {:induction false} PackNormalEntry(e: Entry, isArr: bool)
    requires EntryStringKeyed(e, isArr)
    ensures PackEntry(NormalEntry(e, isArr)) == PackEntry(e)
    decreases e
  {
    PackNormal(e.val);
    hide PackKey, Pack, Normal;
  }

  /** What has travelled has string keys only. */
  lemma {:induction false} NormalIsStringKeyed(v: Value)
    ensures StringKeyed(Normal(v))
    decreases v
  {
    if v.Arr? {
      NormalEntriesStringKeyed(v.items, true);
    } else if v.Obj? {
      NormalEntriesStringKeyed(v.props, false);
    }
  }

  lemma {:induction false} NormalEntriesStringKeyed(es: seq<Entry>, isArr: bool)
    ensures EntriesStringKeyed(NormalEntries(es, isArr), isArr)
    decreases es
  {
    if es != [] {
      NormalEntryStringKeyed(es[0], isArr);
      NormalEntriesStringKeyed(es[1..], isArr);
      assert NormalEntries(es, isArr)[1..] == NormalEntries(es[1..], isArr);
    }
  }

  lemma {:induction false} NormalEntryStringKeyed(e: Entry, isArr: bool)
    ensures EntryStringKeyed(NormalEntry(e, isArr), isArr)
    decreases e
  {
    NormalIsStringKeyed(e.val);
  }

  /** The packed form of some value that memory can hold. */
  ghost predicate Emitted(s: seq<byte>) {
    exists v | Sized(v) && StringKeyed(v) :: Pack(v) == s
  }

  /** An accepted buffer comes from the writer exactly if it is its own canonical form. */
  lemma EmittedIff(s: seq<byte>)
    requires UnpackAll(s).Some?
    ensures Emitted(s) <==> Pack(UnpackAll(s).value) == s
  {
    var w := UnpackAll(s).value;
    UnpackCanonical(s, 0);
    NormalIsStringKeyed(w);
    hide Pack, Normal, Sized, StringKeyed, UnpackAll;
    if v :| Sized(v) && StringKeyed(v) && Pack(v) == s {
      PackThenUnpack(v);
      PackNormal(v);
    }
  }

  // ---------- Accepted, but never emitted ----------

  /** An overlong varint: 0 in two bytes. */
  lemma OverlongVarint()
    ensures UnpackAll([2, 0x80, 0]) == Some(Long(0)) && !Emitted([2, 0x80, 0])
  {
    var s: seq<byte> := [2, 0x80, 0];
    assert GroupEnd(s, 1, 10) == Some(3);
    assert Taken(s, 1, 2) == [0x80, 0];
    assert GroupValue([0x80, 0]) == 0;
    EmittedIff(s);
    hide Emitted;
  }

  /** A boolean that is neither 0 nor 1. */
  lemma OddBoolean()
    ensures UnpackAll([1, 7]) == Some(Bool(true)) && !Emitted([1, 7])
  {
    EmittedIff([1, 7]);
    hide Emitted;
  }

  /** A varint of one byte. */
  lemma ByteAt(s: seq<byte>, p: nat)
    requires p < |s| && s[p] < 0x80
    ensures ReadVarint(s, p) == Got(s[p], p + 1)
  {
    assert GroupEnd(s, p, 10) == Some(p + 1);
    assert Taken(s, p, 1) == [s[p]];
    assert GroupValue([s[p]]) == s[p];
  }

  /** A string of no bytes. */
  lemma EmptyAt(s: seq<byte>, p: nat)
    requires p < |s| && s[p] == 0
    ensures ReadBlob(s, p) == Got([], p + 1)
  {
    ByteAt(s, p);
    assert Taken(s, p + 1, 0) == [];
    hide ReadVarint;
  }

  lemma PackedEntry(k: Key)
    ensures PackEntries([Entry(k, Null)]) == PackKey(k) + [0]
  {
    var es := [Entry(k, Null)];
    assert es[1..] == [] && PackEntries([]) == [];
    assert PackEntry(es[0]) == PackKey(k) + [0];
    assert PackEntries(es) == PackEntry(es[0]) + PackEntries(es[1..]);
  }

  /** A key flag that is neither 0 nor 1. */
  lemma OddKeyFlag()
    ensures UnpackAll([5, 1, 7, 5, 0]) == Some(Arr([Entry(IntKey(5), Null)])) && !Emitted([5, 1, 7, 5, 0])
  {
    var s: seq<byte> := [5, 1, 7, 5, 0];
    ByteAt(s, 1);
    ByteAt(s, 3);
    LastEntry(s, 2, true, IntKey(5), 4);
    PackedEntry(IntKey(5));
    assert Pack(Arr([Entry(IntKey(5), Null)])) == [5] + ([1] + (([1] + [5]) + [0]));
    EmittedIff(s);
    hide Emitted, Pack, ReadVarint, UnpackEntries;
  }

  /** A block of one entry, whose child is null. */
  lemma LastEntry(s: seq<byte>, p: nat, isArr: bool, k: Key, q: nat)
    requires p <= |s| && q < |s| && s[q] == 0 && ReadKey(s, p) == Got(k, q)
    ensures UnpackEntries(s, p, 1, isArr) == Got([Entry(StoredKey(k, isArr), Null)], q + 1)
  {
    var e := Entry(StoredKey(k, isArr), Null);
    assert UnpackEntries(s, q + 1, 0, isArr) == Got([], q + 1) && Unpack(s, q) == Got(Null, q + 1);
    assert UnpackEntries(s, p, 1, isArr) == Got([e] + [], q + 1);
    assert [e] + [] == [e];
    hide ReadKey;
  }

  /** An integer key in an object, which is dropped. */
  lemma IntegerKeyInObject()
    ensures UnpackAll([6, 0, 1, 1, 5, 0]) == Some(Obj([], [Entry(StrKey([]), Null)])) && !Emitted([6, 0, 1, 1, 5, 0])
  {
    var s: seq<byte> := [6, 0, 1, 1, 5, 0];
    EmptyAt(s, 1);
    ByteAt(s, 2);
    ByteAt(s, 4);
    LastEntry(s, 3, false, IntKey(5), 5);
    PackedEntry(StrKey([]));
    assert Pack(Obj([], [Entry(StrKey([]), Null)])) == [6] + (([0] + []) + ([1] + (([0] + ([0] + [])) + [0])));
    EmittedIff(s);
    hide Emitted, Pack, ReadVarint, ReadBlob, UnpackEntries;
  }

  const NUL_ERROR: seq<byte> := [7, 1, 0, 0, 0, 0]

  const EMPTY_ERROR: Value := Error(Some([]), Some([]), 0, Some([]))

  lemma NulErrorReads(s: seq<byte>)
    requires s == NUL_ERROR
    ensures ReadError(s, 1) == Got(EMPTY_ERROR, 6)
  {
    ByteAt(s, 1);
    assert Taken(s, 2, 1) == [0] && CString([0]) == [];
    assert ReadBlob(s, 1) == Got([0], 3);
    EmptyAt(s, 3);
    ByteAt(s, 4);
    EmptyAt(s, 5);
    hide ReadVarint, ReadBlob, CString, Taken;
  }

  lemma EmptyErrorPacks()
    ensures |Pack(EMPTY_ERROR)| == 5
  {
    var e: seq<byte> := [];
    assert |Blob(e)| == 1 && |VarintBytes(0)| == 1;
    hide Blob, VarintBytes;
  }

  /** A buffer for an error whose packed form is shorter. */
  lemma LongerThanPacked(s: seq<byte>, w: Value)
    requires s != [] && s[0] == 7 && ReadError(s, 1) == Got(w, |s|) && |Pack(w)| < |s|
    ensures UnpackAll(s) == Some(w) && !Emitted(s)
  {
    assert UnpackAll(s) == Some(w);
    EmittedIff(s);
    hide Emitted, Pack, UnpackAll, ReadError;
  }

  /** An error string with a NUL, which ends it. */
  lemma NulInErrorText()
    ensures UnpackAll(NUL_ERROR) == Some(EMPTY_ERROR) && !Emitted(NUL_ERROR)
  {
    NulErrorReads(NUL_ERROR);
    EmptyErrorPacks();
    hide ReadError, Pack, UnpackAll, Emitted;
    LongerThanPacked(NUL_ERROR, EMPTY_ERROR);
  }
}
