/**
 The value tree of value/value.h as a mathematical value. `Missing` stands for a NULL `value_t *`, which the packer
 accepts as a child; the optional strings of an error are the NULL-able C strings of `as.err`.
 */
module Values {
  import opened Bytes
  import opened Wrappers

  datatype Key = IntKey(ikey: i64) | StrKey(skey: seq<byte>)

  datatype Entry = Entry(key: Key, val: Value)

  datatype Value =
    | Missing
    | Null
    | Bool(b: bool)
    | Long(i: i64)
    | Double(bits: u64)
    | Str(s: seq<byte>)
    | Arr(items: seq<Entry>)
    | Obj(cls: seq<byte>, props: seq<Entry>)
    | Error(ecls: Option<cstring>, msg: Option<cstring>, code: i64, trace: Option<cstring>)

  /** The entries of an array or an object. */
  function EntriesOf(m: Value): seq<Entry> {
    match m
    case Arr(es) => es
    case Obj(_, es) => es
    case _ => []
  }

  /** The string that C code sees where it substitutes "" for a NULL pointer. */
  function OrEmpty(s: Option<cstring>): cstring {
    match s
    case None => []
    case Some(c) => c
  }

  /** Every length fits a 64-bit integer, as every length in memory does. */
  predicate Sized(v: Value)
    decreases v
  {
    match v
    case Str(s) => |s| < TWO_TO_THE_64
    case Arr(items) => |items| < TWO_TO_THE_64 && SizedEntries(items)
    case Obj(cls, props) => |cls| < TWO_TO_THE_64 && |props| < TWO_TO_THE_64 && SizedEntries(props)
    case Error(cls, msg, _, trace) =>
      |OrEmpty(cls)| < TWO_TO_THE_64 && |OrEmpty(msg)| < TWO_TO_THE_64 && |OrEmpty(trace)| < TWO_TO_THE_64
    case _ => true
  }

  predicate SizedEntries(es: seq<Entry>)
    decreases es
  {
    es != [] ==> SizedEntry(es[0]) && SizedEntries(es[1..])
  }

  predicate SizedEntry(e: Entry)
    decreases e
  {
    (e.key.StrKey? ==> |e.key.skey| < TWO_TO_THE_64) && Sized(e.val)
  }

  /** The key under which a reader stores an entry: objects have string keys only, and an integer key becomes "". */
  function StoredKey(k: Key, isArr: bool): Key {
    if isArr || k.StrKey? then k else StrKey([])
  }

  /** What is left of a value after it has travelled in packed form. */
  function Normal(v: Value): Value
    decreases v
  {
    match v
    case Missing => Null
    case Arr(items) => Arr(NormalEntries(items, true))
    case Obj(cls, props) => Obj(cls, NormalEntries(props, false))
    case Error(cls, msg, code, trace) =>
      Error(Some(OrEmpty(cls)), Some(OrEmpty(msg)), code, Some(OrEmpty(trace)))
    case _ => v
  }

  function NormalEntries(es: seq<Entry>, isArr: bool): (r: seq<Entry>)
    ensures |r| == |es|
    decreases es
  {
    if es == [] then [] else [NormalEntry(es[0], isArr)] + NormalEntries(es[1..], isArr)
  }

  function NormalEntry(e: Entry, isArr: bool): Entry
    decreases e
  {
    Entry(StoredKey(e.key, isArr), Normal(e.val))
  }

  /** How many nodes a tree has. */
  function Nodes(v: Value): nat
    decreases v
  {
    1 + (match v
         case Arr(items) => NodesOf(items)
         case Obj(_, props) => NodesOf(props)
         case _ => 0)
  }

  function NodesOf(es: seq<Entry>): nat
    decreases es
  {
    if es == [] then 0 else EntryNodes(es[0]) + NodesOf(es[1..])
  }

  function EntryNodes(e: Entry): nat
    decreases e
  {
    Nodes(e.val)
  }

  /** The number of edges on its longest path. */
  function Height(v: Value): nat
    decreases v
  {
    match v
    case Arr(items) => HeightOf(items)
    case Obj(_, props) => HeightOf(props)
    case _ => 0
  }

  /** The height of a node over these entries. */
  function HeightOf(es: seq<Entry>): nat
    decreases es
  {
    if es == [] then 0 else Max(EntryHeight(es[0]), HeightOf(es[1..]))
  }

  function EntryHeight(e: Entry): nat
    decreases e
  {
    1 + Height(e.val)
  }

  function Max(a: nat, b: nat): nat {
    if a > b then a else b
  }
}
