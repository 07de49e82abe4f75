/**
 The packed format of value/pack.c as a writer and a reader on byte sequences. The reader is the recursive descent of
 `unpack_one`, with the same order of checks; it accepts much that the writer never emits.
 */
module PackFormat {
  import opened Bytes
  import opened Wrappers
  import opened Varint
  import opened Values

  function LittleEndian(v: nat, n: nat): (s: seq<byte>)
    ensures |s| == n
  {
    if n == 0 then [] else [v % 256] + LittleEndian(v / 256, n - 1)
  }

  function FromLittleEndian(s: seq<byte>): (v: nat)
    ensures v < Pow(256, |s|)
  {
    if s == [] then 0 else s[0] + 256 * FromLittleEndian(s[1..])
  }

  /** The 64-bit pattern of a double. */
  function ReadDouble(s: seq<byte>, p: nat): u64
    requires p + 8 <= |s|
  {
    assert Pow(256, 8) == TWO_TO_THE_64;
    FromLittleEndian(Taken(s, p, 8))
  }

  /** A length and that many bytes. */
  function Blob(s: seq<byte>): seq<byte> {
    VarintBytes(|s|) + s
  }

  function Flag(b: bool): byte {
    if b then 1 else 0
  }

  function PackKey(k: Key): seq<byte> {
    match k
    case IntKey(i) => [1] + VarintBytes(ToU64(i))
    case StrKey(s) => [0] + Blob(s)
  }

  function Pack(v: Value): (s: seq<byte>)
    ensures |s| > 0
    decreases v
  {
    match v
    case Missing => [0]
    case Null => [0]
    case Bool(b) => [1] + [Flag(b)]
    case Long(i) => [2] + VarintBytes(ToU64(i))
    case Double(bits) => [3] + LittleEndian(bits, 8)
    case Str(s) => [4] + Blob(s)
    case Arr(items) => [5] + PackBlock(items)
    case Obj(cls, props) => [6] + (Blob(cls) + PackBlock(props))
    case Error(cls, msg, code, trace) =>
      [7] + (Blob(OrEmpty(cls)) + (Blob(OrEmpty(msg)) + (VarintBytes(ToU64(code)) + Blob(OrEmpty(trace)))))
  }

  function PackBlock(es: seq<Entry>): seq<byte>
    decreases es, 1
  {
    VarintBytes(|es|) + PackEntries(es)
  }

  function PackEntries(es: seq<Entry>): seq<byte>
    decreases es, 0
  {
    if es == [] then [] else PackEntry(es[0]) + PackEntries(es[1..])
  }

  function PackEntry(e: Entry): seq<byte>
    decreases e, 0
  {
    PackKey(e.key) + Pack(e.val)
  }

  /** A length and that many bytes, if they are all there. */
  function ReadBlob(s: seq<byte>, p: nat): (r: Parsed<seq<byte>>)
    requires p <= |s|
    ensures r.Got? ==> p < r.next <= |s|
  {
    match ReadVarint(s, p)
    case Fail => Fail
    case Got(n, q) => if |s| - q < n then Fail else Got(Taken(s, q, n), q + n)
  }

  /** A key: any nonzero flag announces an integer. */
  function ReadKey(s: seq<byte>, p: nat): (r: Parsed<Key>)
    requires p <= |s|
    ensures r.Got? ==> p + 1 < r.next <= |s|
  {
    if p == |s| then Fail
    else if s[p] != 0 then
      match ReadVarint(s, p + 1)
      case Fail => Fail
      case Got(k, q) => Got(IntKey(ToI64(k)), q)
    else
      match ReadBlob(s, p + 1)
      case Fail => Fail
      case Got(k, q) => Got(StrKey(k), q)
  }

  function ReadError(s: seq<byte>, p: nat): (r: Parsed<Value>)
    requires p <= |s|
    ensures r.Got? ==> p < r.next <= |s|
  {
    match ReadBlob(s, p)
    case Fail => Fail
    case Got(cls, p1) =>
      match ReadBlob(s, p1)
      case Fail => Fail
      case Got(msg, p2) =>
        match ReadVarint(s, p2)
        case Fail => Fail
        case Got(code, p3) =>
          match ReadBlob(s, p3)
          case Fail => Fail
          case Got(trace, p4) =>
            Got(Error(Some(CString(cls)), Some(CString(msg)), ToI64(code), Some(CString(trace))), p4)
  }

  /** One value at `p`. Each recursive call has fewer bytes left, whatever count a block declares. */
  function Unpack(s: seq<byte>, p: nat): (r: Parsed<Value>)
    requires p <= |s|
    ensures r.Got? ==> p < r.next <= |s|
    decreases |s| - p, 0
  {
    if p == |s| then Fail
    else match s[p]
      case 0 => Got(Null, p + 1)
      case 1 => if p + 1 == |s| then Fail else Got(Bool(s[p + 1] != 0), p + 2)
      case 2 => (
        match ReadVarint(s, p + 1)
        case Fail => Fail
        case Got(i, q) => Got(Long(ToI64(i)), q))
      case 3 =>
        if |s| - (p + 1) < 8 then Fail
        else Got(Double(ReadDouble(s, p + 1)), p + 9)
      case 4 => (
        match ReadBlob(s, p + 1)
        case Fail => Fail
        case Got(b, q) => Got(Str(b), q))
      case 5 => (
        match UnpackBlock(s, p + 1, true)
        case Fail => Fail
        case Got(es, q) => Got(Arr(es), q))
      case 6 => (
        match ReadBlob(s, p + 1)
        case Fail => Fail
        case Got(cls, q) =>
          match UnpackBlock(s, q, false)
          case Fail => Fail
          case Got(es, q') => Got(Obj(cls, es), q'))
      case 7 => ReadError(s, p + 1)
      case _ => Fail
  }

  function UnpackBlock(s: seq<byte>, p: nat, isArr: bool): (r: Parsed<seq<Entry>>)
    requires p <= |s|
    ensures r.Got? ==> p < r.next <= |s|
    decreases |s| - p, 2
  {
    match ReadVarint(s, p)
    case Fail => Fail
    case Got(n, q) => UnpackEntries(s, q, n, isArr)
  }

  function UnpackEntries(s: seq<byte>, p: nat, n: nat, isArr: bool): (r: Parsed<seq<Entry>>)
    requires p <= |s|
    ensures r.Got? ==> p <= r.next <= |s| && |r.value| == n
    decreases |s| - p, 1
  {
    if n == 0 then Got([], p)
    else
      match ReadKey(s, p)
      case Fail => Fail
      case Got(key, q) =>
        match Unpack(s, q)
        case Fail => Fail
        case Got(child, q') =>
          match UnpackEntries(s, q', n - 1, isArr)
          case Fail => Fail
          case Got(rest, q'') => Got([Entry(StoredKey(key, isArr), child)] + rest, q'')
  }

  /** `value_unpack`: one value and nothing after it. */
  function UnpackAll(s: seq<byte>): Option<Value> {
    match Unpack(s, 0)
    case Fail => None
    case Got(v, q) => if q == |s| then Some(v) else None
  }
}
