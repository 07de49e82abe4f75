/**
 What the packed format promises: unpacking undoes packing, the accepted buffers form a prefix code, and every accepted
 buffer, however wasteful, has a canonical form that is no longer.
 */
module PackProofs {
  import opened Bytes
  import opened Wrappers
  import opened Varint
  import opened Values
  import opened PackFormat

  // ---------- Round trip ----------

  lemma {:induction false} LittleEndianRoundTrip(v: nat, n: nat)
    requires v < Pow(256, n)
    ensures FromLittleEndian(LittleEndian(v, n)) == v
  {
    if n > 0 {
      LittleEndianRoundTrip(v / 256, n - 1);
      assert LittleEndian(v, n)[1..] == LittleEndian(v / 256, n - 1);
    }
  }

  lemma DoubleRoundTrip(s: seq<byte>, p: nat, bits: u64)
    requires At(s, p, LittleEndian(bits, 8))
    ensures p + 8 <= |s| && ReadDouble(s, p) == bits
  {
    assert Pow(256, 8) == TWO_TO_THE_64;
    LittleEndianRoundTrip(bits, 8);
    TakenAt(s, p, LittleEndian(bits, 8));
  }

  lemma BlobRoundTrip(s: seq<byte>, p: nat, b: seq<byte>)
    requires |b| < TWO_TO_THE_64 && At(s, p, Blob(b))
    ensures ReadBlob(s, p) == Got(b, p + |Blob(b)|)
  {
    AtSplit(s, p, VarintBytes(|b|), b);
    VarintRoundTrip(s, p, |b|);
    TakenAt(s, p + |VarintBytes(|b|)|, b);
  }

  lemma KeyRoundTrip(s: seq<byte>, p: nat, k: Key)
    requires k.StrKey? ==> |k.skey| < TWO_TO_THE_64
    requires At(s, p, PackKey(k))
    ensures ReadKey(s, p) == Got(k, p + |PackKey(k)|)
  {
    match k {
      case IntKey(i) =>
        AtSplit(s, p, [1], VarintBytes(ToU64(i)));
        VarintRoundTrip(s, p + 1, ToU64(i));
      case StrKey(b) =>
        AtSplit(s, p, [0], Blob(b));
        BlobRoundTrip(s, p + 1, b);
    }
  }

  lemma ErrorRoundTrip(s: seq<byte>, p: nat, cls: cstring, msg: cstring, code: i64, trace: cstring)
    requires |cls| < TWO_TO_THE_64 && |msg| < TWO_TO_THE_64 && |trace| < TWO_TO_THE_64
    requires At(s, p, Blob(cls) + (Blob(msg) + (VarintBytes(ToU64(code)) + Blob(trace))))
    ensures ReadError(s, p) == Got(Error(Some(cls), Some(msg), code, Some(trace)),
                                   p + |Blob(cls)| + |Blob(msg)| + |VarintBytes(ToU64(code))| + |Blob(trace)|)
  {
    hide ReadBlob, ReadVarint, At, Blob, VarintBytes;
    AtSplit(s, p, Blob(cls), Blob(msg) + (VarintBytes(ToU64(code)) + Blob(trace)));
    BlobRoundTrip(s, p, cls);
    var p1 := p + |Blob(cls)|;
    AtSplit(s, p1, Blob(msg), VarintBytes(ToU64(code)) + Blob(trace));
    BlobRoundTrip(s, p1, msg);
    var p2 := p1 + |Blob(msg)|;
    AtSplit(s, p2, VarintBytes(ToU64(code)), Blob(trace));
    VarintRoundTrip(s, p2, ToU64(code));
    BlobRoundTrip(s, p2 + |VarintBytes(ToU64(code))|, trace);
    CStringOfCString(cls);
    CStringOfCString(msg);
    CStringOfCString(trace);
  }

  lemma CStringOfCString(c: cstring)
    ensures CString(c) == c
  {
    if c[|CString(c)|..] != [] {
      assert false;
    }
  }

  /** Wherever the packed form of a value stands, reading there gives the value, normalised, and stops right after it. */
  lemma {:induction false} RoundTrip(v: Value, s: seq<byte>, p: nat)
    requires Sized(v) && At(s, p, Pack(v))
    ensures Unpack(s, p) == Got(Normal(v), p + |Pack(v)|)
    decreases v
  {
    hide ReadBlob, ReadVarint, ReadError, UnpackBlock, PackBlock, Blob, VarintBytes, LittleEndian, ReadDouble, Taken;
    match v {
      case Arr(items) =>
        AtSplit(s, p, [5], PackBlock(items));
        RoundTripBlock(items, s, p + 1, true);
      case Obj(cls, props) =>
        AtSplit(s, p, [6], Blob(cls) + PackBlock(props));
        AtSplit(s, p + 1, Blob(cls), PackBlock(props));
        BlobRoundTrip(s, p + 1, cls);
        RoundTripBlock(props, s, p + 1 + |Blob(cls)|, false);
      case Error(cls, msg, code, trace) =>
        var c, m, t := OrEmpty(cls), OrEmpty(msg), OrEmpty(trace);
        AtSplit(s, p, [7], Blob(c) + (Blob(m) + (VarintBytes(ToU64(code)) + Blob(t))));
        ErrorRoundTrip(s, p + 1, c, m, code, t);
      case _ => RoundTripLeaf(v, s, p);
    }
  }

  lemma RoundTripLeaf(v: Value, s: seq<byte>, p: nat)
    requires !v.Arr? && !v.Obj? && !v.Error?
    requires Sized(v) && At(s, p, Pack(v))
    ensures Unpack(s, p) == Got(Normal(v), p + |Pack(v)|)
  {
    hide ReadBlob, ReadVarint, ReadError, UnpackBlock, PackBlock, Blob, VarintBytes, LittleEndian, ReadDouble, Taken;
    match v {
      case Bool(b) =>
        AtSplit(s, p, [1], [Flag(b)]);
      case Long(i) =>
        AtSplit(s, p, [2], VarintBytes(ToU64(i)));
        VarintRoundTrip(s, p + 1, ToU64(i));
      case Double(bits) =>
        AtSplit(s, p, [3], LittleEndian(bits, 8));
        DoubleRoundTrip(s, p + 1, bits);
      case Str(b) =>
        AtSplit(s, p, [4], Blob(b));
        BlobRoundTrip(s, p + 1, b);
      case Missing =>
      case Null =>
    }
  }

  lemma {:induction false} RoundTripBlock(es: seq<Entry>, s: seq<byte>, p: nat, isArr: bool)
    requires |es| < TWO_TO_THE_64 && SizedEntries(es) && At(s, p, PackBlock(es))
    ensures UnpackBlock(s, p, isArr) == Got(NormalEntries(es, isArr), p + |PackBlock(es)|)
    decreases es, 1
  {
    hide UnpackEntries, ReadVarint, At, PackEntries, VarintBytes;
    AtSplit(s, p, VarintBytes(|es|), PackEntries(es));
    VarintRoundTrip(s, p, |es|);
    RoundTripEntries(es, s, p + |VarintBytes(|es|)|, isArr);
  }

  lemma {:induction false} RoundTripEntries(es: seq<Entry>, s: seq<byte>, p: nat, isArr: bool)
    requires SizedEntries(es) && At(s, p, PackEntries(es))
    ensures UnpackEntries(s, p, |es|, isArr) == Got(NormalEntries(es, isArr), p + |PackEntries(es)|)
    decreases es, 0
  {
    hide Unpack, ReadKey, At, PackEntry, PackKey, Pack;
    if es != [] {
      var e := es[0];
      AtSplit(s, p, PackEntry(e), PackEntries(es[1..]));
      RoundTripEntry(e, s, p);
      RoundTripEntries(es[1..], s, p + |PackEntry(e)|, isArr);
    }
  }

  lemma {:induction false} RoundTripEntry(e: Entry, s: seq<byte>, p: nat)
    requires SizedEntry(e) && At(s, p, PackEntry(e))
    ensures ReadKey(s, p) == Got(e.key, p + |PackKey(e.key)|)
    ensures Unpack(s, p + |PackKey(e.key)|) == Got(Normal(e.val), p + |PackEntry(e)|)
    decreases e, 0
  {
    hide Unpack, ReadKey, At, PackKey, Pack;
    AtSplit(s, p, PackKey(e.key), Pack(e.val));
    KeyRoundTrip(s, p, e.key);
    RoundTrip(e.val, s, p + |PackKey(e.key)|);
  }

  // ---------- Locality ----------

  lemma ReadBlobLocal(s: seq<byte>, p: nat, s': seq<byte>, p': nat)
    requires p <= |s| && ReadBlob(s, p).Got?
    requires Same(s, p, s', p', ReadBlob(s, p).next - p)
    ensures var r := ReadBlob(s, p); ReadBlob(s', p') == Got(r.value, p' + (r.next - p))
  {
    var q, n := ReadVarint(s, p).next - p, ReadBlob(s, p).next - p;
    SamePart(s, p, s', p', n, 0, q);
    ReadVarintLocal(s, p, s', p');
    SamePart(s, p, s', p', n, q, n);
    SameTaken(s, p + q, s', p' + q, n - q);
  }

  lemma ReadKeyLocal(s: seq<byte>, p: nat, s': seq<byte>, p': nat)
    requires p <= |s| && ReadKey(s, p).Got?
    requires Same(s, p, s', p', ReadKey(s, p).next - p)
    ensures var r := ReadKey(s, p); ReadKey(s', p') == Got(r.value, p' + (r.next - p))
  {
    if s[p] != 0 {
      ReadVarintLocal(s, p + 1, s', p' + 1);
    } else {
      ReadBlobLocal(s, p + 1, s', p' + 1);
    }
  }

  lemma ReadErrorLocal(s: seq<byte>, p: nat, s': seq<byte>, p': nat)
    requires p <= |s| && ReadError(s, p).Got?
    requires Same(s, p, s', p', ReadError(s, p).next - p)
    ensures var r := ReadError(s, p); ReadError(s', p') == Got(r.value, p' + (r.next - p))
  {
    hide ReadBlob, ReadVarint, Same, Taken, CString;
    var n := ReadError(s, p).next - p;
    var q1 := ReadBlob(s, p).next - p;
    var q2 := ReadBlob(s, p + q1).next - p;
    var q3 := ReadVarint(s, p + q2).next - p;
    SamePart(s, p, s', p', n, 0, q1);
    ReadBlobLocal(s, p, s', p');
    SamePart(s, p, s', p', n, q1, q2);
    ReadBlobLocal(s, p + q1, s', p' + q1);
    SamePart(s, p, s', p', n, q2, q3);
    ReadVarintLocal(s, p + q2, s', p' + q2);
    SamePart(s, p, s', p', n, q3, n);
    ReadBlobLocal(s, p + q3, s', p' + q3);
  }

  /** A successful read depends only on the bytes it took: put them anywhere, in front of anything, and it repeats. */
  lemma {:induction false} UnpackLocal(s: seq<byte>, p: nat, s': seq<byte>, p': nat)
    requires p <= |s| && Unpack(s, p).Got?
    requires Same(s, p, s', p', Unpack(s, p).next - p)
    ensures var r := Unpack(s, p); Unpack(s', p') == Got(r.value, p' + (r.next - p))
    decreases |s| - p, 0
  {
    hide ReadBlob, ReadVarint, ReadError, Taken, UnpackBlock, FromLittleEndian;
    match s[p] {
      case 0 =>
      case 1 =>
      case 2 => ReadVarintLocal(s, p + 1, s', p' + 1);
      case 3 => SameTaken(s, p + 1, s', p' + 1, 8);
      case 4 => ReadBlobLocal(s, p + 1, s', p' + 1);
      case 5 => UnpackBlockLocal(s, p + 1, s', p' + 1, true);
      case 6 => UnpackObjectLocal(s, p + 1, s', p' + 1);
      case 7 => ReadErrorLocal(s, p + 1, s', p' + 1);
    }
  }

  lemma {:induction false} UnpackObjectLocal(s: seq<byte>, p: nat, s': seq<byte>, p': nat)
    requires p <= |s| && ReadBlob(s, p).Got? && UnpackBlock(s, ReadBlob(s, p).next, false).Got?
    requires Same(s, p, s', p', UnpackBlock(s, ReadBlob(s, p).next, false).next - p)
    ensures var Got(cls, q) := ReadBlob(s, p);
            var Got(es, q') := UnpackBlock(s, q, false);
            && ReadBlob(s', p') == Got(cls, p' + (q - p))
            && UnpackBlock(s', p' + (q - p), false) == Got(es, p' + (q' - p))
    decreases |s| - p, 3
  {
    hide UnpackBlock, ReadBlob, Same;
    var q := ReadBlob(s, p).next - p;
    var n := UnpackBlock(s, p + q, false).next - p;
    SamePart(s, p, s', p', n, 0, q);
    ReadBlobLocal(s, p, s', p');
    SamePart(s, p, s', p', n, q, n);
    UnpackBlockLocal(s, p + q, s', p' + q, false);
  }

  lemma {:induction false} UnpackBlockLocal(s: seq<byte>, p: nat, s': seq<byte>, p': nat, isArr: bool)
    requires p <= |s| && UnpackBlock(s, p, isArr).Got?
    requires Same(s, p, s', p', UnpackBlock(s, p, isArr).next - p)
    ensures var r := UnpackBlock(s, p, isArr); UnpackBlock(s', p', isArr) == Got(r.value, p' + (r.next - p))
    decreases |s| - p, 2
  {
    hide UnpackEntries, ReadVarint, Same;
    var n := UnpackBlock(s, p, isArr).next - p;
    var q := ReadVarint(s, p).next - p;
    SamePart(s, p, s', p', n, 0, q);
    ReadVarintLocal(s, p, s', p');
    SamePart(s, p, s', p', n, q, n);
    UnpackEntriesLocal(s, p + q, s', p' + q, ReadVarint(s, p).value, isArr);
  }

  lemma {:induction false} UnpackEntriesLocal(
      s: seq<byte>, p: nat, s': seq<byte>, p': nat, count: nat, isArr: bool)
    requires p <= |s| && UnpackEntries(s, p, count, isArr).Got?
    requires Same(s, p, s', p', UnpackEntries(s, p, count, isArr).next - p)
    ensures var r := UnpackEntries(s, p, count, isArr);
            UnpackEntries(s', p', count, isArr) == Got(r.value, p' + (r.next - p))
    decreases |s| - p, 1
  {
    hide Unpack, ReadKey, Same;
    if count > 0 {
      var n := UnpackEntries(s, p, count, isArr).next - p;
      var q1 := ReadKey(s, p).next - p;
      var q2 := Unpack(s, p + q1).next - p;
      SamePart(s, p, s', p', n, 0, q1);
      ReadKeyLocal(s, p, s', p');
      SamePart(s, p, s', p', n, q1, q2);
      UnpackLocal(s, p + q1, s', p' + q1);
      SamePart(s, p, s', p', n, q2, n);
      UnpackEntriesLocal(s, p + q2, s', p' + q2, count - 1, isArr);
    }
  }

  // ---------- Canonical form and bounds ----------

  lemma BlobRewriteShorter(s: seq<byte>, p: nat)
    requires p <= |s| && ReadBlob(s, p).Got?
    ensures var r := ReadBlob(s, p); |Blob(r.value)| <= r.next - p && |r.value| < TWO_TO_THE_64
  {
    VarintRewriteShorter(s, p);
  }

  /** A string cut at its first NUL packs no longer than the whole. */
  lemma CutBlobShorter(b: seq<byte>)
    ensures |Blob(CString(b))| <= |Blob(b)|
  {
    VarintMonotone(|CString(b)|, |b|);
  }

  lemma {:induction false} VarintMonotone(m: nat, n: nat)
    requires m <= n
    ensures |VarintBytes(m)| <= |VarintBytes(n)|
    decreases n
  {
    if m >= 0x80 {
      VarintMonotone(m / 128, n / 128);
    }
  }

  lemma KeyRewriteShorter(s: seq<byte>, p: nat, isArr: bool)
    requires p <= |s| && ReadKey(s, p).Got?
    ensures var r := ReadKey(s, p);
            && |PackKey(StoredKey(r.value, isArr))| <= r.next - p
            && (r.value.StrKey? ==> |r.value.skey| < TWO_TO_THE_64)
  {
    if s[p] != 0 {
      VarintRewriteShorter(s, p + 1);
      assert ToU64(ToI64(ReadVarint(s, p + 1).value)) == ReadVarint(s, p + 1).value;
    } else {
      BlobRewriteShorter(s, p + 1);
    }
  }

  lemma ErrorRewriteShorter(s: seq<byte>, p: nat)
    requires p <= |s| && ReadError(s, p).Got?
    ensures var r := ReadError(s, p);
            r.value.Error? && Sized(r.value) && Normal(r.value) == r.value && |Pack(r.value)| <= 1 + r.next - p
  {
    var p1 := ReadBlob(s, p).next;
    var p2 := ReadBlob(s, p1).next;
    var p3 := ReadVarint(s, p2).next;
    BlobRewriteShorter(s, p);
    BlobRewriteShorter(s, p1);
    VarintRewriteShorter(s, p2);
    BlobRewriteShorter(s, p3);
    CutBlobShorter(ReadBlob(s, p).value);
    CutBlobShorter(ReadBlob(s, p1).value);
    CutBlobShorter(ReadBlob(s, p3).value);
  }

  /**
   What is read is already normal, packs into at most the bytes it was read from, and has no more nodes, and a smaller
   height, than there were bytes.
   */
  lemma {:induction false} UnpackCanonical(s: seq<byte>, p: nat)
    requires p <= |s| && Unpack(s, p).Got?
    ensures var Got(v, q) := Unpack(s, p);
            && Sized(v) && Normal(v) == v && |Pack(v)| <= q - p
            && Nodes(v) <= q - p && Height(v) < q - p
    decreases |s| - p, 0
  {
    hide ReadBlob, ReadVarint, ReadError, UnpackBlock, PackBlock, Blob, VarintBytes;
    match s[p] {
      case 0 =>
      case 1 =>
      case 2 => VarintRewriteShorter(s, p + 1);
      case 3 =>
      case 4 => BlobRewriteShorter(s, p + 1);
      case 5 => UnpackBlockCanonical(s, p + 1, true);
      case 6 =>
        BlobRewriteShorter(s, p + 1);
        UnpackBlockCanonical(s, ReadBlob(s, p + 1).next, false);
      case 7 => ErrorRewriteShorter(s, p + 1);
    }
  }

  lemma {:induction false} UnpackBlockCanonical(s: seq<byte>, p: nat, isArr: bool)
    requires p <= |s| && UnpackBlock(s, p, isArr).Got?
    ensures var Got(es, q) := UnpackBlock(s, p, isArr);
            && |es| < TWO_TO_THE_64 && SizedEntries(es) && NormalEntries(es, isArr) == es
            && |PackBlock(es)| <= q - p && NodesOf(es) < q - p && HeightOf(es) < q - p
    decreases |s| - p, 2
  {
    VarintRewriteShorter(s, p);
    UnpackEntriesCanonical(s, ReadVarint(s, p).next, ReadVarint(s, p).value, isArr);
  }

  lemma {:induction false} UnpackEntriesCanonical(s: seq<byte>, p: nat, count: nat, isArr: bool)
    requires p <= |s| && UnpackEntries(s, p, count, isArr).Got?
    ensures var Got(es, q) := UnpackEntries(s, p, count, isArr);
            && SizedEntries(es) && NormalEntries(es, isArr) == es
            && |PackEntries(es)| <= q - p && NodesOf(es) <= q - p && HeightOf(es) <= q - p
    decreases |s| - p, 1
  {
    hide Unpack, ReadKey, Pack, PackKey;
    if count > 0 {
      var key := ReadKey(s, p);
      var child := Unpack(s, key.next);
      KeyRewriteShorter(s, p, isArr);
      UnpackCanonical(s, key.next);
      UnpackEntriesCanonical(s, child.next, count - 1, isArr);
      var es := UnpackEntries(s, p, count, isArr).value;
      assert es[1..] == UnpackEntries(s, child.next, count - 1, isArr).value;
    }
  }

  // ---------- The promises of value_pack and value_unpack ----------

  /** Packing then unpacking gives the value back, whatever its depth, its keys and its double patterns. */
  lemma PackThenUnpack(v: Value)
    requires Sized(v)
    ensures UnpackAll(Pack(v)) == Some(Normal(v))
  {
    WholeAt(Pack(v));
    RoundTrip(v, Pack(v), 0);
  }

  /** The accepted buffers form a prefix code: of two of them, none continues the other. */
  lemma AcceptedArePrefixFree(s: seq<byte>, t: seq<byte>)
    requires UnpackAll(s).Some? && s < t
    ensures UnpackAll(t) == None
  {
    SamePrefix(s, t, 0, |s|);
    UnpackLocal(s, 0, t, 0);
  }

  /** A packed value that is cut short, or that anything follows, is refused. */
  lemma PackedIsSelfDelimiting(v: Value, cut: nat, tail: seq<byte>)
    requires Sized(v) && cut < |Pack(v)| && tail != []
    ensures UnpackAll(Pack(v)[..cut]) == None
    ensures Unpack(Pack(v)[..cut], 0) == Fail
    ensures UnpackAll(Pack(v) + tail) == None
  {
    PackThenUnpack(v);
    AcceptedArePrefixFree(Pack(v), Pack(v) + tail);
    var prefix := Pack(v)[..cut];
    if Unpack(prefix, 0).Got? {
      var q := Unpack(prefix, 0).next;
      SamePrefix(prefix, Pack(v), 0, q);
      UnpackLocal(prefix, 0, Pack(v), 0);
      assert false;
    }
  }

  /** Values with equal packed forms are equal up to what packing normalises. */
  lemma PackInjective(v: Value, w: Value)
    requires Sized(v) && Sized(w) && Pack(v) == Pack(w)
    ensures Normal(v) == Normal(w)
  {
    PackThenUnpack(v);
    PackThenUnpack(w);
  }

  /**
   Every accepted buffer, overlong varints, odd flags and dropped keys included, has a canonical form: packing what was
   read gives a buffer that is no longer, reads as the same value, and is its own canonical form.
   */
  lemma Canonicalise(s: seq<byte>)
    requires UnpackAll(s).Some?
    ensures var v := UnpackAll(s).value;
            && |Pack(v)| <= |s|
            && UnpackAll(Pack(v)) == Some(v)
            && Nodes(v) <= |s| && Height(v) < |s|
  {
    UnpackCanonical(s, 0);
    PackThenUnpack(UnpackAll(s).value);
  }
}
