/**
 The base-128 integers of value/pack.c: seven value bits a byte, low group first, bit 7 set on every byte but the last.
 `VarintBytes` is what the writer emits, `ReadVarint` what the reader accepts; the reader takes more than the writer emits.
 */
module Varint {
  import opened Bytes
  import opened Wrappers

  /** The outcome of reading something at an offset: nothing, or a value and the offset after it. */
  datatype Parsed<+T> = Fail | Got(value: T, next: nat)

  /** `e` stands in `s` at offset `p`. */
  ghost predicate At(s: seq<byte>, p: nat, e: seq<byte>)
    decreases |e|
  {
    p + |e| <= |s| && (e != [] ==> s[p] == e[0] && At(s, p + 1, e[1..]))
  }

  lemma {:induction false} AtSplit(s: seq<byte>, p: nat, a: seq<byte>, b: seq<byte>)
    requires At(s, p, a + b)
    ensures At(s, p, a) && At(s, p + |a|, b)
    decreases |a|
  {
    if a == [] {
      assert a + b == b;
    } else {
      assert (a + b)[1..] == a[1..] + b;
      AtSplit(s, p + 1, a[1..], b);
    }
  }

  /** The n bytes at `p`. */
  function Taken(s: seq<byte>, p: nat, n: nat): (r: seq<byte>)
    requires p + n <= |s|
    ensures |r| == n
    decreases n
  {
    if n == 0 then [] else [s[p]] + Taken(s, p + 1, n - 1)
  }

  lemma {:induction false} TakenIsSlice(s: seq<byte>, p: nat, n: nat)
    requires p + n <= |s|
    ensures Taken(s, p, n) == s[p..p + n]
    decreases n
  {
    if n > 0 {
      TakenIsSlice(s, p + 1, n - 1);
    }
  }

  lemma {:induction false} TakenAt(s: seq<byte>, p: nat, e: seq<byte>)
    requires p + |e| <= |s|
    ensures At(s, p, e) <==> Taken(s, p, |e|) == e
    decreases |e|
  {
    if e != [] {
      TakenAt(s, p + 1, e[1..]);
      assert e == [e[0]] + e[1..];
      assert Taken(s, p, |e|)[1..] == Taken(s, p + 1, |e| - 1);
    }
  }

  lemma WholeAt(e: seq<byte>)
    ensures At(e, 0, e)
  {
    TakenIsSlice(e, 0, |e|);
    TakenAt(e, 0, e);
  }

  /** The n bytes at `p` of `s` are the n bytes at `p'` of `s'`. */
  ghost predicate Same(s: seq<byte>, p: nat, s': seq<byte>, p': nat, n: nat)
    decreases n
  {
    p + n <= |s| && p' + n <= |s'| && (n > 0 ==> s[p] == s'[p'] && Same(s, p + 1, s', p' + 1, n - 1))
  }

  /** Buffers that agree on a range agree on every part of it. */
  lemma {:induction false} SamePart(s: seq<byte>, p: nat, s': seq<byte>, p': nat, n: nat, lo: nat, hi: nat)
    requires lo <= hi <= n && Same(s, p, s', p', n)
    ensures Same(s, p + lo, s', p' + lo, hi - lo)
    decreases n
  {
    if lo > 0 {
      SamePart(s, p + 1, s', p' + 1, n - 1, lo - 1, hi - 1);
    } else if hi > 0 {
      SamePart(s, p + 1, s', p' + 1, n - 1, 0, hi - 1);
    }
  }

  lemma {:induction false} SameTaken(s: seq<byte>, p: nat, s': seq<byte>, p': nat, n: nat)
    requires Same(s, p, s', p', n)
    ensures Taken(s, p, n) == Taken(s', p', n)
    decreases n
  {
    if n > 0 {
      SameTaken(s, p + 1, s', p' + 1, n - 1);
    }
  }

  /** Where one buffer is a prefix of the other, they are the same. */
  lemma {:induction false} SamePrefix(s: seq<byte>, t: seq<byte>, p: nat, n: nat)
    requires s <= t && p + n <= |s|
    ensures Same(s, p, t, p, n)
    decreases n
  {
    if n > 0 {
      SamePrefix(s, t, p + 1, n - 1);
    }
  }

  function VarintBytes(v: nat): (s: seq<byte>)
    ensures |s| > 0
  {
    if v < 0x80 then [v] else [v % 128 + 128] + VarintBytes(v / 128)
  }

  /** The number that a run of groups stands for, before it is cut to 64 bits. */
  function GroupValue(s: seq<byte>): nat {
    if s == [] then 0 else s[0] % 128 + 128 * GroupValue(s[1..])
  }

  /** Where the varint at `p` ends: after the first byte below 0x80, which must be among the next `room` bytes. */
  function GroupEnd(s: seq<byte>, p: nat, room: nat): (r: Option<nat>)
    requires p <= |s|
    ensures r.Some? ==> p < r.value <= |s| && r.value <= p + room
    decreases |s| - p
  {
    if room == 0 || p == |s| then None
    else if s[p] < 0x80 then Some(p + 1)
    else GroupEnd(s, p + 1, room - 1)
  }

  /** The reader: at most ten bytes, the value cut to 64 bits. */
  function ReadVarint(s: seq<byte>, p: nat): (r: Parsed<u64>)
    requires p <= |s|
    ensures r.Got? ==> p < r.next <= |s| && r.next <= p + 10
  {
    match GroupEnd(s, p, 10)
    case None => Fail
    case Some(q) => Got(GroupValue(Taken(s, p, q - p)) % TWO_TO_THE_64, q)
  }

  /** n groups hold exactly the numbers below 128^n. */
  lemma {:induction false} GroupValueBound(s: seq<byte>)
    ensures GroupValue(s) < Pow(128, |s|)
  {
    if s != [] {
      GroupValueBound(s[1..]);
    }
  }

  lemma {:induction false} VarintBytesShort(v: nat, n: nat)
    requires n > 0 && v < Pow(128, n)
    ensures |VarintBytes(v)| <= n
  {
    if v >= 0x80 {
      assert n > 1 by { assert Pow(128, 1) == 128; }
      VarintBytesShort(v / 128, n - 1);
    }
  }

  /** The written form is minimal: no group of bytes that stands for the same number is shorter. */
  lemma VarintMinimal(v: nat, s: seq<byte>)
    requires s != [] && v <= GroupValue(s)
    ensures |VarintBytes(v)| <= |s|
  {
    GroupValueBound(s);
    VarintBytesShort(v, |s|);
  }

  /** Every 64-bit value fits the ten bytes that the writer reserves. */
  lemma VarintAtMostTen(v: u64)
    ensures 1 <= |VarintBytes(v)| <= 10
  {
    assert Pow(128, 10) == 128 * 128 * 128 * 128 * 128 * 128 * 128 * 128 * 128 * 128;
    VarintBytesShort(v, 10);
  }

  lemma {:induction false} GroupEndOfVarintBytes(s: seq<byte>, p: nat, v: nat, room: nat)
    requires At(s, p, VarintBytes(v)) && |VarintBytes(v)| <= room
    ensures GroupEnd(s, p, room) == Some(p + |VarintBytes(v)|)
    ensures GroupValue(VarintBytes(v)) == v
    decreases v
  {
    var e := VarintBytes(v);
    if v >= 0x80 {
      assert e[1..] == VarintBytes(v / 128);
      GroupEndOfVarintBytes(s, p + 1, v / 128, room - 1);
    } else {
      assert e[1..] == [];
    }
  }

  /** Reading what was written gives it back, and stops right after it. */
  lemma VarintRoundTrip(s: seq<byte>, p: nat, v: u64)
    requires At(s, p, VarintBytes(v))
    ensures ReadVarint(s, p) == Got(v, p + |VarintBytes(v)|)
  {
    VarintAtMostTen(v);
    GroupEndOfVarintBytes(s, p, v, 10);
    TakenAt(s, p, VarintBytes(v));
    assert v % TWO_TO_THE_64 == v;
  }

  /** Whatever was read, writing it again takes no more bytes than were read. */
  lemma VarintRewriteShorter(s: seq<byte>, p: nat)
    requires p <= |s| && ReadVarint(s, p).Got?
    ensures var r := ReadVarint(s, p); |VarintBytes(r.value)| <= r.next - p
  {
    var r := ReadVarint(s, p);
    VarintMinimal(r.value, Taken(s, p, r.next - p));
  }

  lemma {:induction false} GroupEndLocal(s: seq<byte>, p: nat, s': seq<byte>, p': nat, room: nat, n: nat)
    requires p <= |s| && GroupEnd(s, p, room) == Some(p + n) && Same(s, p, s', p', n)
    ensures GroupEnd(s', p', room) == Some(p' + n)
    decreases room
  {
    if s[p] >= 0x80 {
      GroupEndLocal(s, p + 1, s', p' + 1, room - 1, n - 1);
    }
  }

  /** The outcome depends only on the bytes that were taken. */
  lemma ReadVarintLocal(s: seq<byte>, p: nat, s': seq<byte>, p': nat)
    requires p <= |s| && ReadVarint(s, p).Got?
    requires Same(s, p, s', p', ReadVarint(s, p).next - p)
    ensures var r := ReadVarint(s, p); ReadVarint(s', p') == Got(r.value, p' + (r.next - p))
  {
    var n := ReadVarint(s, p).next - p;
    GroupEndLocal(s, p, s', p', 10, n);
    SameTaken(s, p, s', p', n);
  }

  lemma {:induction false} GroupEndNone(s: seq<byte>, p: nat, room: nat)
    requires p <= |s|
    ensures GroupEnd(s, p, room) == None <==> forall i | p <= i < p + room && i < |s| :: s[i] >= 0x80
    decreases room
  {
    if room > 0 && p < |s| && s[p] >= 0x80 {
      GroupEndNone(s, p + 1, room - 1);
    }
  }

  /** A read fails exactly if no byte ends the varint among the next ten, or among those that are left. */
  lemma VarintFails(s: seq<byte>, p: nat)
    requires p <= |s|
    ensures ReadVarint(s, p) == Fail <==> forall i | p <= i < p + 10 && i < |s| :: s[i] >= 0x80
  {
    GroupEndNone(s, p, 10);
  }

  /** Ten bytes decide about every read, failing ones included: an eleventh has no influence. */
  lemma VarintDecidedByTen(s: seq<byte>, p: nat, s': seq<byte>, p': nat)
    requires p <= |s| && p' <= |s'| && Same(s, p, s', p', 10)
    ensures match ReadVarint(s, p)
            case Fail => ReadVarint(s', p') == Fail
            case Got(v, q) => ReadVarint(s', p') == Got(v, p' + (q - p))
  {
    if ReadVarint(s, p).Got? {
      SamePart(s, p, s', p', 10, 0, ReadVarint(s, p).next - p);
      ReadVarintLocal(s, p, s', p');
    } else {
      VarintFails(s, p);
      VarintFails(s', p');
      forall i | p' <= i < p' + 10 && i < |s'|
        ensures s'[i] >= 0x80
      {
        var k := i - p';
        SamePart(s, p, s', p', 10, k, k + 1);
        assert s[p + k] >= 0x80;
      }
    }
  }

  /** The groups of a byte at the place that the k-th byte has. */
  function Placed(b: byte, k: nat): nat {
    (b % 128) * Pow(2, 7 * k)
  }

  /** What one more group adds. */
  lemma {:induction false} GroupValueAppend(s: seq<byte>, b: byte)
    ensures GroupValue(s + [b]) == GroupValue(s) + Placed(b, |s|)
  {
    if s == [] {
      assert s + [b] == [b];
    } else {
      assert (s + [b])[1..] == s[1..] + [b];
      GroupValueAppend(s[1..], b);
      PlacedHigher(b, |s| - 1);
    }
  }

  lemma PlacedHigher(b: byte, k: nat)
    ensures Placed(b, k + 1) == 128 * Placed(b, k)
  {
    SevenMore(k);
    TimesAssoc(b % 128, 128, Pow(2, 7 * k));
    TimesAssoc(128, b % 128, Pow(2, 7 * k));
  }

  lemma SevenMore(k: nat)
    ensures Pow(2, 7 * (k + 1)) == 128 * Pow(2, 7 * k)
  {
    PowAdd(2, 7, 7 * k);
    assert Pow(2, 7) == 128;
  }

  lemma {:induction false} PowMonotone(m: nat, n: nat)
    requires m <= n
    ensures 0 < Pow(2, m) <= Pow(2, n)
  {
    if m < n {
      PowMonotone(m, n - 1);
    } else {
      PowPositive(2, m);
    }
  }

  lemma Pow2At63()
    ensures Pow(2, 63) == 0x8000_0000_0000_0000
  {
    assert Pow(2, 9) == 512;
    PowAdd(2, 9, 9);
    PowAdd(2, 18, 9);
    PowAdd(2, 27, 27);
    PowAdd(2, 54, 9);
  }

  /** One turn of the reader's loop: shifting, cutting to 64 bits and or-ing add the group at its place. */
  lemma ReadStep(v: nat, b: byte, k: nat)
    requires k < 10 && v < Pow(2, 7 * k)
    ensures Or(v, Placed(b, k) % TWO_TO_THE_64) == (v + Placed(b, k)) % TWO_TO_THE_64
    ensures k < 9 ==> v + Placed(b, k) < Pow(2, 7 * (k + 1)) <= Pow(2, 63)
  {
    if k < 9 {
      GroupFits(v, b, k);
      OrWithoutCut(v, Placed(b, k), 7 * k, b % 128);
    } else {
      Pow2At63();
      TopGroup(v, b % 128);
      OrDisjoint(v, (b % 128 % 2) * Pow(2, 63), 63, b % 128 % 2);
    }
  }

  lemma OrWithoutCut(v: nat, x: nat, n: nat, c: nat)
    requires v < Pow(2, n) && x == c * Pow(2, n) && v + x < TWO_TO_THE_64
    ensures Or(v, x % TWO_TO_THE_64) == (v + x) % TWO_TO_THE_64
  {
    hide Or, Pow;
    OrDisjoint(v, x, n, c);
    NoCut(x);
    NoCut(v + x);
  }

  lemma NoCut(x: nat)
    requires x < TWO_TO_THE_64
    ensures x % TWO_TO_THE_64 == x
  {
  }

  lemma GroupFits(v: nat, b: byte, k: nat)
    requires k < 9 && v < Pow(2, 7 * k)
    ensures v + Placed(b, k) < Pow(2, 7 * (k + 1)) <= Pow(2, 63) < TWO_TO_THE_64
  {
    SevenMore(k);
    FitsBelow(v, b % 128, Pow(2, 7 * k));
    PowMonotone(7 * (k + 1), 63);
    Pow2At63();
  }

  lemma FitsBelow(v: nat, g: nat, w: nat)
    requires v < w && g < 128
    ensures v + g * w < 128 * w
  {
    assert 128 * w == g * w + (128 - g) * w;
    AtLeastOnce(w, 128 - g);
  }

  /** Of the tenth group only the lowest bit lands inside the 64. */
  lemma TopGroup(v: nat, g: nat)
    requires v < Pow(2, 63) == 0x8000_0000_0000_0000 && g < 128
    ensures (g * Pow(2, 63)) % TWO_TO_THE_64 == (g % 2) * Pow(2, 63)
    ensures (v + g * Pow(2, 63)) % TWO_TO_THE_64 == v + (g % 2) * Pow(2, 63)
  {
    var h, bit := g / 2, g % 2;
    assert g * 0x8000_0000_0000_0000 == TWO_TO_THE_64 * h + bit * 0x8000_0000_0000_0000;
    ModuloIs(TWO_TO_THE_64, h, bit * 0x8000_0000_0000_0000);
    ModuloIs(TWO_TO_THE_64, h, v + bit * 0x8000_0000_0000_0000);
  }

  /** `varint_write`: the bytes at `p`, nothing else touched. */
  method VarintWrite(data: array<byte>, p: nat, v: u64) returns (q: nat)
    requires p + 10 <= data.Length
    modifies data
    ensures p < q <= p + 10
    ensures data[p..q] == VarintBytes(v)
    ensures forall i | 0 <= i < data.Length && !(p <= i < q) :: data[i] == old(data[i])
  {
    VarintAtMostTen(v);
    q := p;
    var rest := v;
    while rest >= 0x80
      invariant p <= q && q + |VarintBytes(rest)| == p + |VarintBytes(v)|
      invariant forall i | 0 <= i < data.Length && !(p <= i < q) :: data[i] == old(data[i])
      invariant data[p..q] + VarintBytes(rest) == VarintBytes(v)
      decreases rest
    {
      ghost var before := data[p..q];
      data[q] := WithHighBit(rest);
      assert data[p..q + 1] == before + [rest % 128 + 128];
      q, rest := q + 1, rest / 128;
    }
    ghost var before := data[p..q];
    data[q] := rest;
    assert data[p..q + 1] == before + [rest];
    q := q + 1;
  }
}
