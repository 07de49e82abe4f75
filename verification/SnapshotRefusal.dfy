/** Which refusal a failed capture reports: that of the first offending node in the order of the walk. */
module SnapshotRefusal {
  import opened Wrappers
  import opened Values
  import opened Zvals
  import opened Snapshot

  /** What is wrong with a node itself. A reference inside an array is seen before the depth is. */
  function FaultAt(h: Heap, z: Zval, depth: nat, inArray: bool): Option<Refusal> {
    if inArray && z.ZReference? then Some(ByRefElement)
    else if depth > MAX_DEPTH then Some(TooDeep)
    else
      match z
      case ZObject(o) =>
        if h.objects(o).isClosure then Some(NestedClosure)
        else if h.objects(o).isNative then Some(NativeState) else None
      case ZResource => Some(NoResource)
      case ZReference(_) => Some(ByReference)
      case ZUndef => Some(Unsupported)
      case ZOther => Some(Unsupported)
      case _ => None
  }

  /** What is wrong with the node at the end of a path, if there is such a node. */
  function FaultOn(h: Heap, z: Zval, depth: nat, inArray: bool, path: seq<nat>): Option<Refusal>
    decreases |path|
  {
    if path == [] then FaultAt(h, z, depth, inArray)
    else if path[0] >= |Children(h, z)| then None
    else FaultOn(h, Children(h, z)[path[0]].val, depth + 1, z.ZArray?, path[1..])
  }

  /** The walk visits the node at the end of q before the one at the end of p. */
  predicate Before(q: seq<nat>, p: seq<nat>) {
    p != [] && (q == [] || q[0] < p[0] || (q[0] == p[0] && Before(q[1..], p[1..])))
  }

  lemma {:induction false} BeforeIsTotal(p: seq<nat>, q: seq<nat>)
    ensures p == q || Before(p, q) || Before(q, p)
  {
    if p != [] && q != [] && p[0] == q[0] {
      BeforeIsTotal(p[1..], q[1..]);
      assert p == [p[0]] + p[1..] && q == [q[0]] + q[1..];
    }
  }

  ghost predicate IsFirstFault(h: Heap, z: Zval, depth: nat, inArray: bool, path: seq<nat>, e: Refusal) {
    && FaultOn(h, z, depth, inArray, path) == Some(e)
    && forall q | Before(q, path) :: FaultOn(h, z, depth, inArray, q) == None
  }

  /** The walk at a child of an array or of an object. */
  function Visit(h: Heap, z: Zval, depth: nat, inArray: bool): Result<Value, Refusal>
    requires depth <= MAX_DEPTH + 1
  {
    if inArray && z.ZReference? then Err(ByRefElement) else Capture(h, z, depth)
  }

  lemma {:induction false} FirstRefused(h: Heap, cs: seq<Elem>, depth: nat, isArr: bool) returns (i: nat)
    requires depth <= MAX_DEPTH && CaptureList(h, cs, depth, isArr).Err?
    ensures i < |cs|
    ensures forall j | 0 <= j < i :: Visit(h, cs[j].val, depth + 1, isArr).Ok?
    ensures Visit(h, cs[i].val, depth + 1, isArr) == Err(CaptureList(h, cs, depth, isArr).error)
    decreases |cs|
  {
    hide Capture;
    var n := |cs| - 1;
    if CaptureList(h, cs[..n], depth, isArr).Err? {
      i := FirstRefused(h, cs[..n], depth, isArr);
    } else {
      i := n;
      var es := CaptureList(h, cs[..n], depth, isArr).value;
      AllVisited(h, cs[..n], depth, isArr);
    }
  }

  lemma {:induction false} AllVisited(h: Heap, cs: seq<Elem>, depth: nat, isArr: bool)
    requires depth <= MAX_DEPTH && CaptureList(h, cs, depth, isArr).Ok?
    ensures forall i | 0 <= i < |cs| :: Visit(h, cs[i].val, depth + 1, isArr).Ok?
    decreases |cs|
  {
    hide Capture;
    if cs != [] {
      AllVisited(h, cs[..|cs| - 1], depth, isArr);
    }
  }

  /** One level of the walk, failing: either at the node itself, or among its children. */
  lemma OneLevel(h: Heap, z: Zval, depth: nat)
    requires depth <= MAX_DEPTH
    ensures FaultAt(h, z, depth, false).Some? ==> Capture(h, z, depth) == Err(FaultAt(h, z, depth, false).value)
    ensures FaultAt(h, z, depth, false) == None ==>
              match CaptureList(h, Children(h, z), depth, z.ZArray?)
              case Ok(_) => Capture(h, z, depth).Ok?
              case Err(e) => Capture(h, z, depth) == Err(e)
  {
    NothingToCapture(h, depth, z.ZArray?);
    hide CaptureList, PropsOf;
    if !z.ZArray? && !z.ZObject? {
      assert Children(h, z) == [];
    }
  }

  /** A successful walk has passed no offending node. */
  lemma {:induction false} OkHasNoFault(h: Heap, z: Zval, depth: nat, inArray: bool, path: seq<nat>)
    requires depth <= MAX_DEPTH + 1 && Visit(h, z, depth, inArray).Ok?
    ensures FaultOn(h, z, depth, inArray, path) == None
    decreases |path|
  {
    if depth <= MAX_DEPTH {
      OneLevel(h, z, depth);
      hide Capture, Children;
      if path != [] && path[0] < |Children(h, z)| {
        AllVisited(h, Children(h, z), depth, z.ZArray?);
        OkHasNoFault(h, Children(h, z)[path[0]].val, depth + 1, z.ZArray?, path[1..]);
      }
    }
  }

  lemma {:induction false} ErrHasFirstFault(h: Heap, z: Zval, depth: nat, inArray: bool) returns (path: seq<nat>)
    requires depth <= MAX_DEPTH + 1 && Visit(h, z, depth, inArray).Err?
    ensures IsFirstFault(h, z, depth, inArray, path, Visit(h, z, depth, inArray).error)
    decreases MAX_DEPTH + 1 - depth
  {
    if FaultAt(h, z, depth, inArray).Some? {
      path := [];
      if depth <= MAX_DEPTH {
        OneLevel(h, z, depth);
      }
      return;
    }
    OneLevel(h, z, depth);
    hide Capture, Children, FaultAt, CaptureList;
    var cs, isArr := Children(h, z), z.ZArray?;
    var i := FirstRefused(h, cs, depth, isArr);
    var rest := ErrHasFirstFault(h, cs[i].val, depth + 1, isArr);
    path := [i] + rest;
    assert path[1..] == rest;
    forall q | Before(q, path)
      ensures FaultOn(h, z, depth, inArray, q) == None
    {
      if q != [] && q[0] < |cs| {
        if q[0] < i {
          OkHasNoFault(h, cs[q[0]].val, depth + 1, isArr, q[1..]);
        } else {
          assert Before(q[1..], rest);
        }
      }
    }
  }

  /** Capture fails with a refusal exactly when that is what is wrong with the first node that has something wrong. */
  lemma RefusalIsFirstFault(h: Heap, z: Zval, e: Refusal)
    ensures Capture(h, z, 0) == Err(e) <==> exists path :: IsFirstFault(h, z, 0, false, path, e)
  {
    if Capture(h, z, 0).Err? {
      var first := ErrHasFirstFault(h, z, 0, false);
      forall path | IsFirstFault(h, z, 0, false, path, e)
        ensures Capture(h, z, 0) == Err(e)
      {
        BeforeIsTotal(path, first);
      }
    } else {
      forall path
        ensures !IsFirstFault(h, z, 0, false, path, e)
      {
        OkHasNoFault(h, z, 0, false, path);
      }
    }
  }
}
