/**
 The capture walk of bridge.c as a function, and its theorems: it succeeds exactly when the graph has no node that
 cannot travel and no path over 256 edges, and then returns the unfolding of the graph.
 */
module Snapshot {
  import opened Bytes
  import opened Wrappers
  import opened Values
  import opened Zvals

  const MAX_DEPTH := 256

  datatype Refusal =
    TooDeep | ByRefElement | ByReference | NestedClosure | NativeState | NoResource | Unsupported

  function KeyIn(k: ZKey): Key {
    match k
    case Index(h) => IntKey(ToI64(h))
    case Name(s) => StrKey(s)
  }

  /** The entries of the elements up to the first that is refused, if any is. */
  function CaptureList(h: Heap, cs: seq<Elem>, depth: nat, isArr: bool): (r: Result<seq<Entry>, Refusal>)
    requires depth <= MAX_DEPTH
    ensures r.Ok? ==> |r.value| == |cs|
    decreases MAX_DEPTH - depth, 1, |cs|
  {
    if cs == [] then Ok([])
    else
      match CaptureList(h, cs[..|cs| - 1], depth, isArr)
      case Err(e) => Err(e)
      case Ok(es) =>
        var c := cs[|cs| - 1];
        if isArr && c.val.ZReference? then Err(ByRefElement)
        else
          match Capture(h, c.val, depth + 1)
          case Err(e) => Err(e)
          case Ok(v) => Ok(es + [Entry(KeyIn(c.key), v)])
  }

  /** `zval_to_value_inner`. */
  function Capture(h: Heap, z: Zval, depth: nat): Result<Value, Refusal>
    requires depth <= MAX_DEPTH + 1
    decreases MAX_DEPTH + 1 - depth, 0, 0
  {
    if depth > MAX_DEPTH then Err(TooDeep)
    else
      match z
      case ZNull => Ok(Null)
      case ZBool(b) => Ok(Bool(b))
      case ZLong(i) => Ok(Long(i))
      case ZDouble(bits) => Ok(Double(bits))
      case ZString(s) => Ok(Str(s))
      case ZArray(elems) => (
        match CaptureList(h, elems, depth, true)
        case Err(e) => Err(e)
        case Ok(es) => Ok(Arr(es)))
      case ZObject(o) => (
        var data := h.objects(o);
        if data.isClosure then Err(NestedClosure)
        else if data.isNative then Err(NativeState)
        else
          match CaptureList(h, PropsOf(h, data), depth, false)
          case Err(e) => Err(e)
          case Ok(es) => Ok(Obj(data.cls, es)))
      case ZResource => Err(NoResource)
      case ZReference(_) => Err(ByReference)
      case _ => Err(Unsupported)
  }

  // ---------- Lists ----------

  lemma NothingToCapture(h: Heap, depth: nat, isArr: bool)
    requires depth <= MAX_DEPTH
    ensures CaptureList(h, [], depth, isArr) == Ok([])
  {
  }

  lemma {:induction false} CaptureListPrefix(h: Heap, cs: seq<Elem>, cs': seq<Elem>, depth: nat, isArr: bool)
    requires depth <= MAX_DEPTH && cs <= cs' && CaptureList(h, cs, depth, isArr).Err?
    ensures CaptureList(h, cs', depth, isArr) == CaptureList(h, cs, depth, isArr)
    decreases |cs'|
  {
    if cs != cs' {
      CaptureListPrefix(h, cs, cs'[..|cs'| - 1], depth, isArr);
    }
  }

  predicate EntryOf(h: Heap, c: Elem, depth: nat, e: Entry)
    requires depth <= MAX_DEPTH
  {
    e.key == KeyIn(c.key) && Capture(h, c.val, depth + 1) == Ok(e.val)
  }

  /** A list is captured exactly when each of its elements is. */
  lemma {:induction false} CaptureListIff(h: Heap, cs: seq<Elem>, depth: nat, isArr: bool, es: seq<Entry>)
    requires depth <= MAX_DEPTH
    ensures CaptureList(h, cs, depth, isArr) == Ok(es)
       <==> |es| == |cs| && forall i | 0 <= i < |cs| :: EntryOf(h, cs[i], depth, es[i])
    decreases |cs|
  {
    if cs != [] {
      var n := |cs| - 1;
      if |es| == |cs| {
        CaptureListIff(h, cs[..n], depth, isArr, es[..n]);
        assert es == es[..n] + [es[n]];
      }
      if CaptureList(h, cs[..n], depth, isArr).Ok? {
        var before := CaptureList(h, cs[..n], depth, isArr).value;
        CaptureListIff(h, cs[..n], depth, isArr, before);
      }
    }
  }

  /** And refused exactly when one of them is. */
  lemma {:induction false} CaptureListOk(h: Heap, cs: seq<Elem>, depth: nat, isArr: bool)
    requires depth <= MAX_DEPTH
    ensures CaptureList(h, cs, depth, isArr).Ok? <==> forall i | 0 <= i < |cs| :: Capture(h, cs[i].val, depth + 1).Ok?
    decreases |cs|
  {
    if cs != [] {
      CaptureListOk(h, cs[..|cs| - 1], depth, isArr);
    }
  }

  // ---------- The unfolding ----------

  /** v is the finite tree that following all edges from z unfolds into. */
  ghost predicate Unfolds(h: Heap, z: Zval, v: Value)
    decreases v
  {
    match z
    case ZNull => v == Null
    case ZBool(b) => v == Bool(b)
    case ZLong(i) => v == Long(i)
    case ZDouble(bits) => v == Double(bits)
    case ZString(s) => v == Str(s)
    case ZArray(elems) => v.Arr? && UnfoldsInto(h, elems, v.items)
    case ZObject(o) =>
      && !h.objects(o).isClosure && !h.objects(o).isNative
      && v.Obj? && v.cls == h.objects(o).cls
      && UnfoldsInto(h, PropsOf(h, h.objects(o)), v.props)
    case _ => false
  }

  ghost predicate UnfoldsInto(h: Heap, cs: seq<Elem>, es: seq<Entry>)
    decreases es
  {
    |cs| == |es| && forall i | 0 <= i < |es| :: UnfoldsIntoEntry(h, cs[i], es[i])
  }

  ghost predicate UnfoldsIntoEntry(h: Heap, c: Elem, e: Entry)
    decreases e
  {
    e.key == KeyIn(c.key) && Unfolds(h, c.val, e.val)
  }

  lemma {:induction false} HeightBound(es: seq<Entry>, bound: nat)
    ensures HeightOf(es) <= bound <==> forall i | 0 <= i < |es| :: 1 + Height(es[i].val) <= bound
  {
    if es != [] {
      HeightBound(es[1..], bound);
      assert forall i | 1 <= i < |es| :: es[i] == es[1..][i - 1];
      assert forall i | 0 <= i < |es[1..]| :: es[1..][i] == es[i + 1];
    }
  }

  /**
   The walk succeeds exactly on the graphs whose unfolding is a finite tree of height at most 256, and returns that
   tree. The walk always ends, on cyclic graphs too: `Capture` is a total function.
   */
  lemma {:induction false} CaptureIsUnfolding(h: Heap, z: Zval, depth: nat, v: Value)
    requires depth <= MAX_DEPTH + 1
    ensures Capture(h, z, depth) == Ok(v) <==> Unfolds(h, z, v) && Height(v) + depth <= MAX_DEPTH
    decreases MAX_DEPTH + 1 - depth, 0
  {
    if depth <= MAX_DEPTH {
      hide PropsOf, UnfoldsInto, CaptureList;
      if z.ZArray? {
        if v.Arr? {
          CaptureListIsUnfolding(h, z.elems, depth, true, v.items);
        }
      } else if z.ZObject? {
        if v.Obj? {
          CaptureListIsUnfolding(h, PropsOf(h, h.objects(z.o)), depth, false, v.props);
        }
      }
    }
  }

  lemma {:induction false} CaptureListIsUnfolding(h: Heap, cs: seq<Elem>, depth: nat, isArr: bool, es: seq<Entry>)
    requires depth <= MAX_DEPTH
    ensures CaptureList(h, cs, depth, isArr) == Ok(es) <==> UnfoldsInto(h, cs, es) && HeightOf(es) + depth <= MAX_DEPTH
    decreases MAX_DEPTH - depth, 1
  {
    CaptureListIff(h, cs, depth, isArr, es);
    HeightBound(es, MAX_DEPTH - depth);
    hide Capture, CaptureList, HeightOf, Height, Unfolds;
    if |cs| == |es| {
      forall i | 0 <= i < |cs|
        ensures EntryOf(h, cs[i], depth, es[i])
           <==> UnfoldsIntoEntry(h, cs[i], es[i]) && 1 + Height(es[i].val) <= MAX_DEPTH - depth
      {
        CaptureIsUnfolding(h, cs[i].val, depth + 1, es[i].val);
      }
    }
  }

  /** A graph has at most one unfolding. */
  lemma {:induction false} UnfoldingIsUnique(h: Heap, z: Zval, v: Value, w: Value)
    requires Unfolds(h, z, v) && Unfolds(h, z, w)
    ensures v == w
    decreases v
  {
    if z.ZArray? {
      EntriesUnique(h, z.elems, v.items, w.items);
    } else if z.ZObject? {
      EntriesUnique(h, PropsOf(h, h.objects(z.o)), v.props, w.props);
    }
  }

  lemma {:induction false} EntriesUnique(h: Heap, cs: seq<Elem>, es: seq<Entry>, fs: seq<Entry>)
    requires UnfoldsInto(h, cs, es) && UnfoldsInto(h, cs, fs)
    ensures es == fs
    decreases es
  {
    forall i | 0 <= i < |es|
      ensures es[i] == fs[i]
    {
      EntryUnique(h, cs[i], es[i], fs[i]);
    }
  }

  lemma {:induction false} EntryUnique(h: Heap, c: Elem, e: Entry, f: Entry)
    requires UnfoldsIntoEntry(h, c, e) && UnfoldsIntoEntry(h, c, f)
    ensures e == f
    decreases e
  {
    UnfoldingIsUnique(h, c.val, e.val, f.val);
  }

  // ---------- The graph ----------

  /** A node that can travel, apart from its children. */
  predicate Portable(h: Heap, z: Zval) {
    match z
    case ZObject(o) => !h.objects(o).isClosure && !h.objects(o).isNative
    case ZUndef => false
    case ZResource => false
    case ZReference(_) => false
    case ZOther => false
    case _ => true
  }

  /** The node at the end of a path, which says which child to take at each node. */
  function Follow(h: Heap, z: Zval, path: seq<nat>): Option<Zval>
    decreases |path|
  {
    if path == [] then Some(z)
    else if path[0] >= |Children(h, z)| then None
    else Follow(h, Children(h, z)[path[0]].val, path[1..])
  }

  /** Each path from z is short enough, and ends at a node that can travel. */
  ghost predicate AllPathsGood(h: Heap, z: Zval, depth: nat) {
    forall path | Follow(h, z, path).Some? :: |path| + depth <= 256 && Portable(h, Follow(h, z, path).value)
  }

  lemma GoodNode(h: Heap, z: Zval, depth: nat)
    requires depth <= MAX_DEPTH + 1
    requires AllPathsGood(h, z, depth)
    ensures depth <= MAX_DEPTH && Portable(h, z)
    ensures forall i | 0 <= i < |Children(h, z)| :: AllPathsGood(h, Children(h, z)[i].val, depth + 1)
  {
    assert Follow(h, z, []) == Some(z);
    hide Children, Portable;
    forall i, path | 0 <= i < |Children(h, z)| && Follow(h, Children(h, z)[i].val, path).Some?
      ensures |path| + depth + 1 <= MAX_DEPTH && Portable(h, Follow(h, Children(h, z)[i].val, path).value)
    {
      assert ([i] + path)[1..] == path;
      assert Follow(h, z, [i] + path) == Follow(h, Children(h, z)[i].val, path);
    }
  }

  lemma GoodFromChildren(h: Heap, z: Zval, depth: nat)
    requires depth <= MAX_DEPTH && Portable(h, z)
    requires forall i | 0 <= i < |Children(h, z)| :: AllPathsGood(h, Children(h, z)[i].val, depth + 1)
    ensures AllPathsGood(h, z, depth)
  {
    hide Children, Portable;
    forall path | Follow(h, z, path).Some?
      ensures |path| + depth <= 256 && Portable(h, Follow(h, z, path).value)
    {
      if path != [] {
        assert AllPathsGood(h, Children(h, z)[path[0]].val, depth + 1);
        assert Follow(h, Children(h, z)[path[0]].val, path[1..]).Some?;
      }
    }
  }

  /** One level of the walk. */
  lemma CaptureOkStep(h: Heap, z: Zval, depth: nat)
    requires depth <= MAX_DEPTH
    ensures Capture(h, z, depth).Ok?
       <==> Portable(h, z) && forall i | 0 <= i < |Children(h, z)| :: Capture(h, Children(h, z)[i].val, depth + 1).Ok?
  {
    hide CaptureList, PropsOf;
    if z.ZArray? {
      CaptureListOk(h, z.elems, depth, true);
      assert Children(h, z) == z.elems;
    } else if z.ZObject? {
      CaptureListOk(h, PropsOf(h, h.objects(z.o)), depth, false);
      assert Children(h, z) == PropsOf(h, h.objects(z.o));
    } else {
      assert Children(h, z) == [];
    }
  }

  /**
   Capture succeeds exactly when every path from the value has at most 256 edges and reaches no resource, reference,
   closure, object with native state or value of unknown type.
   */
  lemma {:induction false} CaptureSucceedsIff(h: Heap, z: Zval, depth: nat)
    requires depth <= MAX_DEPTH + 1
    ensures Capture(h, z, depth).Ok? <==> AllPathsGood(h, z, depth)
    decreases MAX_DEPTH + 1 - depth
  {
    hide AllPathsGood, Children, Portable;
    if depth > MAX_DEPTH {
      if AllPathsGood(h, z, depth) {
        GoodNode(h, z, depth);
      }
    } else {
      CaptureOkStep(h, z, depth);
      hide Capture;
      forall i | 0 <= i < |Children(h, z)|
        ensures Capture(h, Children(h, z)[i].val, depth + 1).Ok? <==> AllPathsGood(h, Children(h, z)[i].val, depth + 1)
      {
        CaptureSucceedsIff(h, Children(h, z)[i].val, depth + 1);
      }
      if AllPathsGood(h, z, depth) {
        GoodNode(h, z, depth);
      } else if Capture(h, z, depth).Ok? {
        GoodFromChildren(h, z, depth);
      }
    }
  }

  // ---------- Cycles ----------

  lemma {:induction false} FollowAppend(h: Heap, z: Zval, path: seq<nat>, more: seq<nat>)
    requires Follow(h, z, path).Some?
    ensures Follow(h, z, path + more) == Follow(h, Follow(h, z, path).value, more)
    decreases |path|
  {
    if path == [] {
      assert path + more == more;
    } else {
      assert (path + more)[1..] == path[1..] + more;
      FollowAppend(h, Children(h, z)[path[0]].val, path[1..], more);
    }
  }

  function Times(path: seq<nat>, n: nat): (r: seq<nat>)
    ensures path != [] ==> |r| >= n
  {
    if n == 0 then [] else path + Times(path, n - 1)
  }

  lemma {:induction false} AroundAgain(h: Heap, z: Zval, circle: seq<nat>, n: nat)
    requires Follow(h, z, circle) == Some(z)
    ensures Follow(h, z, Times(circle, n)) == Some(z)
  {
    if n > 0 {
      AroundAgain(h, z, circle, n - 1);
      FollowAppend(h, z, circle, Times(circle, n - 1));
    }
  }

  /** A value from which a cycle can be reached is refused, wherever the cycle lies. */
  lemma CyclesAreRefused(h: Heap, z: Zval, way: seq<nat>, circle: seq<nat>)
    requires Follow(h, z, way).Some? && circle != []
    requires Follow(h, Follow(h, z, way).value, circle) == Follow(h, z, way)
    ensures Capture(h, z, 0).Err?
  {
    var y := Follow(h, z, way).value;
    var rounds := Times(circle, MAX_DEPTH + 1);
    AroundAgain(h, y, circle, MAX_DEPTH + 1);
    FollowAppend(h, z, way, rounds);
    CaptureSucceedsIff(h, z, 0);
    hide Capture, Follow, Portable;
  }
}
