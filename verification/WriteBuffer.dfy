/** The growable write buffer of value/pack.c. `copied` counts the bytes that its reallocations have moved. */
module WriteBuffer {
  import opened Bytes
  import opened Varint
  import opened PackFormat

  class WBuf {
    var data: array?<byte>
    var len: nat
    var cap: nat
    ghost var copied: nat

    constructor ()
      ensures Valid() && Contents() == [] && data == null
    {
      data, len, cap, copied := null, 0, 0, 0;
    }

    ghost predicate Shape()
      reads this
    {
      && (data == null <==> cap == 0) && (data != null ==> data.Length == cap) && len <= cap
      && copied <= cap
    }

    /**
     The capacity stays within a factor of two of what was needed, and all reallocations together never moved more bytes
     than the buffer now holds.
     */
    ghost predicate Valid()
      reads this
    {
      Shape() && (cap <= 64 || cap <= 2 * (len + 9))
    }

    ghost function Contents(): seq<byte>
      reads this, data
    {
      if data == null || len > data.Length then [] else data[..len]
    }

    /** `wbuf_reserve`. */
    method Reserve(extra: nat)
      requires Shape()
      modifies this
      ensures Shape() && Contents() == old(Contents()) && len == old(len) && len + extra <= cap
      ensures cap == old(cap) || cap == 64 || cap <= 2 * (len + extra - 1)
      ensures data == old(data) || fresh(data)
    {
      if len + extra <= cap {
        return;
      }
      var newCap := if cap == 0 then 64 else cap * 2;
      while newCap < len + extra
        invariant newCap > 0 && 2 * cap <= newCap
        invariant newCap == 64 || newCap <= 2 * (len + extra - 1)
        decreases len + extra - newCap
      {
        newCap := newCap * 2;
      }
      var newData := new byte[newCap];
      forall i | 0 <= i < len {
        newData[i] := data[i];
      }
      assert newData[..len] == Contents();
      copied := copied + cap;
      data, cap := newData, newCap;
    }

    /** `wbuf_u8`. */
    method PutByte(v: byte)
      requires Valid()
      modifies this, data
      ensures Valid() && Contents() == old(Contents()) + [v]
      ensures data == old(data) || fresh(data)
    {
      Reserve(1);
      data[len] := v;
      len := len + 1;
    }

    /** `wbuf_bytes`. */
    method PutBytes(p: seq<byte>)
      requires Valid()
      modifies this, data
      ensures Valid() && Contents() == old(Contents()) + p
      ensures data == old(data) || fresh(data)
    {
      Reserve(|p|);
      if |p| > 0 {
        forall i | 0 <= i < |p| {
          data[len + i] := p[i];
        }
        len := len + |p|;
      }
    }

    /** `wbuf_varint`: ten bytes are reserved, which is enough for every value. */
    method PutVarint(v: u64)
      requires Valid()
      modifies this, data
      ensures Valid() && Contents() == old(Contents()) + VarintBytes(v)
      ensures data == old(data) || fresh(data)
    {
      Reserve(10);
      var end := VarintWrite(data, len, v);
      assert data[..end] == data[..len] + data[len..end];
      len := end;
    }

    /** `wbuf_double`: the pattern, lowest byte first. */
    method PutDouble(bits: u64)
      requires Valid()
      modifies this, data
      ensures Valid() && Contents() == old(Contents()) + LittleEndian(bits, 8)
      ensures data == old(data) || fresh(data)
    {
      var out := DoubleBytes(bits);
      PutBytes(out);
    }
  }

  /** The local array of `wbuf_double`. */
  method DoubleBytes(bits: u64) returns (r: seq<byte>)
    ensures r == LittleEndian(bits, 8)
  {
    var out := new byte[8];
    var i := 0;
    while i < 8
      invariant 0 <= i <= 8
      invariant out[..i] + LittleEndian(Shr(bits, i * 8), 8 - i) == LittleEndian(bits, 8)
    {
      ghost var done := out[..i];
      out[i] := Shr(bits, i * 8) % 256;
      assert out[..i + 1] == done + [Shr(bits, i * 8) % 256];
      ShrByte(bits, i * 8);
      i := i + 1;
    }
    r := out[..];
  }
}
