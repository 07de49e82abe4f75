/** The packed format byte by byte, with the tag numbers of value/value.h, and what a value loses on the way. */
module PackWire {
  import opened Bytes
  import opened Wrappers
  import opened Varint
  import opened Values
  import opened PackFormat

  // ---------- The tag ----------

  /** The first byte of a packed value is the number of its tag. */
  lemma FirstByte(v: Value)
    ensures Pack(v)[0] == 0 <==> v.Missing? || v.Null?
    ensures Pack(v)[0] == 1 <==> v.Bool?
    ensures Pack(v)[0] == 2 <==> v.Long?
    ensures Pack(v)[0] == 3 <==> v.Double?
    ensures Pack(v)[0] == 4 <==> v.Str?
    ensures Pack(v)[0] == 5 <==> v.Arr?
    ensures Pack(v)[0] == 6 <==> v.Obj?
    ensures Pack(v)[0] == 7 <==> v.Error?
  {
  }

  /** What is read is a value with the tag that the first byte says. */
  lemma FirstByteDecides(s: seq<byte>, p: nat)
    requires p <= |s| && Unpack(s, p).Got?
    ensures p < |s| && s[p] <= 7
    ensures var v := Unpack(s, p).value;
            && (s[p] == 0 <==> v.Null?) && (s[p] == 1 <==> v.Bool?) && (s[p] == 2 <==> v.Long?)
            && (s[p] == 3 <==> v.Double?) && (s[p] == 4 <==> v.Str?) && (s[p] == 5 <==> v.Arr?)
            && (s[p] == 6 <==> v.Obj?) && (s[p] == 7 <==> v.Error?)
  {
    hide ReadVarint, ReadBlob, ReadDouble, UnpackBlock;
  }

  // ---------- Numbers ----------

  /** The k-th digit of a number to some base, the lowest first. */
  function Digit(v: nat, base: nat, k: nat): nat
    requires base > 0
  {
    PowPositive(base, k);
    v / Pow(base, k) % base
  }

  lemma NextDigit(v: nat, base: nat, k: nat)
    requires base > 0
    ensures Digit(v, base, 0) == v % base && Digit(v, base, k + 1) == Digit(v / base, base, k)
  {
    PowPositive(base, k);
    PowPositive(base, k + 1);
    DivideTwice(v, base, Pow(base, k));
  }

  lemma DivideTwice(v: nat, a: nat, b: nat)
    requires a > 0 && b > 0
    ensures a * b > 0 && v / (a * b) == v / a / b
  {
    var q, r := v / a, v % a;
    QuotientIs(v, a, b, r, q / b, q % b);
  }

  lemma QuotientIs(v: nat, a: nat, b: nat, r: nat, m: nat, n: nat)
    requires r < a && n < b && v == a * (b * m + n) + r
    ensures a * b > 0 && v / (a * b) == m
  {
    AtLeastOnce(a, b);
    Remainder(a, b, n, r);
    Regroup(a, b, m, n, r);
    ModuloIs(a * b, m, a * n + r);
  }

  lemma Regroup(a: nat, b: nat, m: nat, n: nat, r: nat)
    ensures a * (b * m + n) + r == (a * b) * m + (a * n + r)
  {
    TimesAssoc(a, b, m);
  }

  lemma Remainder(a: nat, b: nat, n: nat, r: nat)
    requires n < b && r < a
    ensures a * n + r < a * b
  {
    assert a * b == a * n + a * (b - n);
    AtLeastOnce(a, b - n);
  }

  /** Byte k of a varint has the k-th digit to base 128, and the high bit exactly if it is not the last. */
  lemma {:induction false} VarintByte(v: nat, k: nat)
    requires k < |VarintBytes(v)|
    ensures VarintBytes(v)[k] == Digit(v, 128, k) + (if k + 1 < |VarintBytes(v)| then 128 else 0)
    decreases v
  {
    NextDigit(v, 128, if k > 0 then k - 1 else 0);
    hide Digit;
    if k > 0 {
      VarintByte(v / 128, k - 1);
    }
  }

  /** Byte k of a number that is written lowest byte first. */
  lemma {:induction false} LittleEndianByte(v: nat, n: nat, k: nat)
    requires k < n
    ensures LittleEndian(v, n)[k] == Digit(v, 256, k)
    decreases n
  {
    NextDigit(v, 256, if k > 0 then k - 1 else 0);
    hide Digit;
    if k > 0 {
      LittleEndianByte(v / 256, n - 1, k - 1);
    }
  }

  /** A double: its tag, and its 64 bits lowest byte first. */
  lemma DoubleBytes(bits: u64, k: nat)
    requires k < 8
    ensures |Pack(Double(bits))| == 9 && Pack(Double(bits))[1 + k] == Digit(bits, 256, k)
  {
    LittleEndianByte(bits, 8, k);
  }

  /** An integer: its tag, and the varint of its value modulo 2^64. */
  lemma LongBytes(i: i64)
    ensures Pack(Long(i)) == [2] + VarintBytes(i % 0x1_0000_0000_0000_0000)
  {
    CastsWrap(i, 0);
  }

  // ---------- Strings, blocks and errors ----------

  lemma Assoc(a: seq<byte>, b: seq<byte>, c: seq<byte>)
    ensures a + (b + c) == a + b + c
  {
  }

  lemma BoolBytes(b: bool)
    ensures Pack(Bool(b)) == [1, if b then 1 else 0]
  {
  }

  lemma StrIsBlob(s: seq<byte>)
    ensures Pack(Str(s)) == [4] + Blob(s)
  {
    hide Blob;
  }

  lemma StrBytes(s: seq<byte>)
    ensures Pack(Str(s)) == [4] + VarintBytes(|s|) + s
  {
    hide VarintBytes, Pack;
    StrIsBlob(s);
    Assoc([4], VarintBytes(|s|), s);
  }

  /** An array and an object: their tag, for an object the class name, the number of entries, and the entries. */
  lemma BlockBytes(cls: seq<byte>, es: seq<Entry>)
    ensures Pack(Arr(es)) == [5] + VarintBytes(|es|) + PackEntries(es)
    ensures Pack(Obj(cls, es)) == [6] + VarintBytes(|cls|) + cls + VarintBytes(|es|) + PackEntries(es)
  {
    hide VarintBytes, PackEntries;
    assert PackBlock(es) == VarintBytes(|es|) + PackEntries(es);
    assert Blob(cls) == VarintBytes(|cls|) + cls;
  }

  /** A key: 1 and the varint of the integer modulo 2^64, or 0, the length and the bytes. */
  function KeyBytes(k: Key): seq<byte> {
    match k
    case IntKey(i) => [1] + VarintBytes(i % 0x1_0000_0000_0000_0000)
    case StrKey(s) => [0] + VarintBytes(|s|) + s
  }

  lemma KeyIs(k: Key)
    ensures PackKey(k) == KeyBytes(k)
  {
    if k.IntKey? {
      CastsWrap(k.ikey, 0);
    }
  }

  lemma EntriesUnfold(es: seq<Entry>)
    ensures PackEntries([]) == []
    ensures es != [] ==> PackEntries(es) == PackEntry(es[0]) + PackEntries(es[1..])
  {
    hide PackEntry;
  }

  lemma EntryIs(e: Entry)
    ensures PackEntry(e) == KeyBytes(e.key) + Pack(e.val)
  {
    KeyIs(e.key);
    hide PackKey, KeyBytes, Pack;
  }

  /** Between the entries before it and those behind it an entry stands as its key and its packed value. */
  lemma {:induction false} EntryBytes(es: seq<Entry>, k: nat)
    requires k < |es|
    ensures PackEntries(es)
         == PackEntries(es[..k]) + (KeyBytes(es[k].key) + Pack(es[k].val)) + PackEntries(es[k + 1..])
  {
    hide *;
    EntriesUnfold(es);
    EntriesUnfold(es[..k]);
    EntryIs(es[k]);
    var before, here, behind := PackEntries(es[..k]), PackEntry(es[k]), PackEntries(es[k + 1..]);
    if k == 0 {
      assert es[..0] == [];
      assert [] + here == here;
    } else {
      EntryBytes(es[1..], k - 1);
      assert es[1..][..k - 1] == es[..k][1..];
      assert es[1..][k..] == es[k + 1..];
      Assoc(PackEntry(es[0]), PackEntries(es[..k][1..]), here);
      Assoc(PackEntry(es[0]), PackEntries(es[..k][1..]) + here, behind);
    }
  }

  /** The C string of an error, "" for a NULL pointer. */
  function Text(s: Option<cstring>): seq<byte> {
    if s.None? then [] else s.value
  }

  /** An error: class, message, the varint of its code modulo 2^64, and trace, in this order. */
  lemma ErrorBytes(cls: Option<cstring>, msg: Option<cstring>, code: i64, trace: Option<cstring>)
    ensures Pack(Error(cls, msg, code, trace))
         == [7] + VarintBytes(|Text(cls)|) + Text(cls) + VarintBytes(|Text(msg)|) + Text(msg)
            + VarintBytes(code % 0x1_0000_0000_0000_0000) + VarintBytes(|Text(trace)|) + Text(trace)
  {
    hide VarintBytes;
    CastsWrap(code, 0);
    var c, m, t := Blob(Text(cls)), Blob(Text(msg)), Blob(Text(trace));
    var i := VarintBytes(ToU64(code));
    assert Pack(Error(cls, msg, code, trace)) == [7] + (c + (m + (i + t)));
    assert c == VarintBytes(|Text(cls)|) + Text(cls) && m == VarintBytes(|Text(msg)|) + Text(msg);
    assert t == VarintBytes(|Text(trace)|) + Text(trace);
    hide *;
    Assoc(m, i, t);
    Assoc(c, m + i, t);
    Assoc(c, m, i);
    Assoc([7], c + m + i, t);
    Assoc([7], c + m, i);
    Assoc([7], c, m);
    Assoc([7], VarintBytes(|Text(cls)|), Text(cls));
    Assoc([7] + c, VarintBytes(|Text(msg)|), Text(msg));
    Assoc([7] + c + m + i, VarintBytes(|Text(trace)|), Text(trace));
  }

  lemma {:induction false} GroupDigit(s: seq<byte>, k: nat)
    requires k < |s|
    ensures Digit(GroupValue(s), 128, k) == s[k] % 128
  {
    hide Digit;
    NextDigit(GroupValue(s), 128, if k > 0 then k - 1 else 0);
    if k > 0 {
      GroupDigit(s[1..], k - 1);
    }
  }

  lemma {:induction false} GroupEndIs(s: seq<byte>, p: nat, room: nat)
    requires p <= |s| && GroupEnd(s, p, room).Some?
    ensures var q := GroupEnd(s, p, room).value; s[q - 1] < 0x80 && forall i | p <= i < q - 1 :: s[i] >= 0x80
    decreases room
  {
    if s[p] >= 0x80 {
      GroupEndIs(s, p + 1, room - 1);
    }
  }

  /**
   What is read as a varint: the bytes up to the first below 0x80 are the digits of a number to base 128, which is cut to
   64 bits.
   */
  lemma VarintIsRead(s: seq<byte>, p: nat) returns (n: nat)
    requires p <= |s| && ReadVarint(s, p).Got?
    ensures var q := ReadVarint(s, p).next;
            && p < q <= |s| && s[q - 1] < 0x80 && (forall i | p <= i < q - 1 :: s[i] >= 0x80)
            && n < Pow(128, q - p) && forall k | 0 <= k < q - p :: Digit(n, 128, k) == s[p + k] % 128
    ensures ReadVarint(s, p).value == n % 0x1_0000_0000_0000_0000
  {
    var q := ReadVarint(s, p).next;
    var t := Taken(s, p, q - p);
    n := GroupValue(t);
    GroupEndIs(s, p, 10);
    TakenIsSlice(s, p, q - p);
    GroupValueBound(t);
    hide GroupValue, Taken, GroupEnd, Digit;
    forall k | 0 <= k < q - p
      ensures Digit(n, 128, k) == s[p + k] % 128
    {
      GroupDigit(t, k);
    }
  }

  /** What is read as a double has the eight bytes behind the tag as its bits, lowest first. */
  lemma DoubleIsRead(s: seq<byte>, p: nat, k: nat)
    requires p + 9 <= |s| && s[p] == 3 && k < 8
    ensures Unpack(s, p).Got? && Unpack(s, p).value.Double? && Unpack(s, p).next == p + 9
    ensures Digit(Unpack(s, p).value.bits, 256, k) == s[p + 1 + k]
  {
    ByteOfNumber(Taken(s, p + 1, 8), k);
    TakenIsSlice(s, p + 1, 8);
    hide Taken, FromLittleEndian;
  }

  lemma {:induction false} ByteOfNumber(s: seq<byte>, k: nat)
    requires k < |s|
    ensures Digit(FromLittleEndian(s), 256, k) == s[k]
  {
    hide Digit;
    NextDigit(FromLittleEndian(s), 256, if k > 0 then k - 1 else 0);
    if k > 0 {
      ByteOfNumber(s[1..], k - 1);
    }
  }

  // ---------- What a value loses ----------

  /** Nothing is NULL in the tree, and its objects have string keys only. */
  predicate Complete(v: Value)
    decreases v
  {
    match v
    case Missing => false
    case Arr(items) => AllComplete(items, true)
    case Obj(_, props) => AllComplete(props, false)
    case Error(cls, msg, _, trace) => cls.Some? && msg.Some? && trace.Some?
    case _ => true
  }

  predicate AllComplete(es: seq<Entry>, isArr: bool)
    decreases es
  {
    es != [] ==> EntryComplete(es[0], isArr) && AllComplete(es[1..], isArr)
  }

  predicate EntryComplete(e: Entry, isArr: bool)
    decreases e
  {
    (isArr || e.key.StrKey?) && Complete(e.val)
  }

  /** A packed value comes back as it was exactly if it is complete. */
  lemma {:induction false} NormalIffComplete(v: Value)
    ensures Normal(v) == v <==> Complete(v)
    decreases v
  {
    if v.Arr? {
      EntriesIffComplete(v.items, true);
    } else if v.Obj? {
      EntriesIffComplete(v.props, false);
    }
  }

  lemma {:induction false} EntriesIffComplete(es: seq<Entry>, isArr: bool)
    ensures NormalEntries(es, isArr) == es <==> AllComplete(es, isArr)
    decreases es
  {
    if es != [] {
      EntryIffComplete(es[0], isArr);
      EntriesIffComplete(es[1..], isArr);
      var ns := NormalEntries(es, isArr);
      assert ns == [NormalEntry(es[0], isArr)] + NormalEntries(es[1..], isArr);
      assert ns[1..] == NormalEntries(es[1..], isArr) && es == [es[0]] + es[1..];
    }
  }

  lemma {:induction false} EntryIffComplete(e: Entry, isArr: bool)
    ensures NormalEntry(e, isArr) == e <==> EntryComplete(e, isArr)
    decreases e
  {
    NormalIffComplete(e.val);
  }

  /** A NULL child becomes null, and a NULL text "". */
  lemma NormalFillsIn(cls: Option<cstring>, msg: Option<cstring>, code: i64, trace: Option<cstring>)
    ensures Normal(Missing) == Null
    ensures Normal(Error(cls, msg, code, trace)) == Error(Some(Text(cls)), Some(Text(msg)), code, Some(Text(trace)))
  {
  }

  /** Entries stay in their order; the integer key of an object becomes "". */
  lemma {:induction false} NormalEntryAt(cls: seq<byte>, es: seq<Entry>, k: nat)
    requires k < |es|
    ensures Normal(Arr(es)).items[k] == Entry(es[k].key, Normal(es[k].val))
    ensures Normal(Obj(cls, es)).cls == cls
    ensures Normal(Obj(cls, es)).props[k] == Entry(if es[k].key.IntKey? then StrKey([]) else es[k].key, Normal(es[k].val))
  {
    EntryKept(es, true, k);
    EntryKept(es, false, k);
  }

  lemma {:induction false} EntryKept(es: seq<Entry>, isArr: bool, k: nat)
    requires k < |es|
    ensures NormalEntries(es, isArr)[k] == NormalEntry(es[k], isArr)
  {
    if k > 0 {
      EntryKept(es[1..], isArr, k - 1);
    }
  }
}
