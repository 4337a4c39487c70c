/** Records and the record walker: the source's `traverse` (index.js:102-120). */
module Values {
  import opened Wrappers
  import opened Text

  /** The leaf kinds `traverse` reports: String, Number (integers only) and Boolean. */
  datatype Primitive = Str(s: string) | Num(n: int) | Bool(b: bool)

  /** A record: a primitive, an array (indices become the keys "0", "1", ...)
      or an object with its fields in enumeration order. Unlike a JavaScript
      object, an `Obj` may list the same key twice; every property here holds
      for that larger set of records as well. */
  datatype Value = Prim(p: Primitive) | Arr(items: seq<Value>) | Obj(fields: seq<(string, Value)>)

  /** What a filter callback returns: nothing (`undefined`) or some value. */
  datatype Verdict = Undefined | Returned(value: Value)

  /** The optional `filter(key, container)` callback of `add`. */
  type Filter = (string, Value) -> Verdict

  /** A field is skipped only when the filter exists and returns exactly `false`
      (index.js:105). */
  predicate Prunes(filter: Option<Filter>, key: string, container: Value)
  {
    filter.Some? && filter.value(key, container) == Returned(Prim(Bool(false)))
  }

  /** One callback of `traverse`: the keys leading to the leaf (the last one is
      the key the callback receives) and the primitive value. */
  datatype Leaf = Leaf(path: seq<string>, value: Primitive)

  /** The callbacks `traverse(v, func, filter)` makes, in order, with every
      path starting with `path`. A primitive `v` has no fields to enumerate. */
  function Walk(v: Value, filter: Option<Filter>, path: seq<string>): (r: seq<Leaf>)
    decreases v, 2
    ensures forall l :: l in r ==> |l.path| > |path| && l.path[..|path|] == path
  {
    match v
    case Prim(_) => []
    case Arr(_) => WalkItems(v, filter, path, 0)
    case Obj(_) => WalkFields(v, filter, path, 0)
  }

  function WalkItems(v: Value, filter: Option<Filter>, path: seq<string>, i: nat): (r: seq<Leaf>)
    requires v.Arr? && i <= |v.items|
    decreases v, 1, |v.items| - i
    ensures forall l :: l in r ==> |l.path| > |path| && l.path[..|path|] == path
  {
    if i == |v.items| then []
    else Visit(v, NatText(i), v.items[i], filter, path) + WalkItems(v, filter, path, i + 1)
  }

  function WalkFields(v: Value, filter: Option<Filter>, path: seq<string>, i: nat): (r: seq<Leaf>)
    requires v.Obj? && i <= |v.fields|
    decreases v, 1, |v.fields| - i
    ensures forall l :: l in r ==> |l.path| > |path| && l.path[..|path|] == path
  {
    if i == |v.fields| then []
    else Visit(v, v.fields[i].0, v.fields[i].1, filter, path) + WalkFields(v, filter, path, i + 1)
  }

  /** One iteration of the `for (key in object)` loop: skip the field when the
      filter prunes it, report a primitive, descend into a structure. */
  function Visit(container: Value, key: string, child: Value, filter: Option<Filter>, path: seq<string>): (r: seq<Leaf>)
    decreases child, 3
    ensures forall l :: l in r ==> |l.path| > |path| && l.path[..|path| + 1] == path + [key]
  {
    if Prunes(filter, key, container) then []
    else match child
      case Prim(p) => [Leaf(path + [key], p)]
      case _ =>
        var r := Walk(child, filter, path + [key]);
        assert forall l :: l in r ==> l.path[..|path| + 1] == l.path[..|path + [key]|];
        r
  }

  // ---------------------------------------------------------------------------
  // A filtered walk reports only leaves an unfiltered walk reports.

  lemma {:induction false} WalkSubset(v: Value, filter: Option<Filter>, path: seq<string>)
    decreases v, 2
    ensures forall l :: l in Walk(v, filter, path) ==> l in Walk(v, None, path)
  {
    match v
    case Prim(_) =>
    case Arr(_) => WalkItemsSubset(v, filter, path, 0);
    case Obj(_) => WalkFieldsSubset(v, filter, path, 0);
  }

  lemma {:induction false} WalkItemsSubset(v: Value, filter: Option<Filter>, path: seq<string>, i: nat)
    requires v.Arr? && i <= |v.items|
    decreases v, 1, |v.items| - i
    ensures forall l :: l in WalkItems(v, filter, path, i) ==> l in WalkItems(v, None, path, i)
  {
    if i < |v.items| {
      VisitSubset(v, NatText(i), v.items[i], filter, path);
      WalkItemsSubset(v, filter, path, i + 1);
    }
  }

  lemma {:induction false} WalkFieldsSubset(v: Value, filter: Option<Filter>, path: seq<string>, i: nat)
    requires v.Obj? && i <= |v.fields|
    decreases v, 1, |v.fields| - i
    ensures forall l :: l in WalkFields(v, filter, path, i) ==> l in WalkFields(v, None, path, i)
  {
    if i < |v.fields| {
      VisitSubset(v, v.fields[i].0, v.fields[i].1, filter, path);
      WalkFieldsSubset(v, filter, path, i + 1);
    }
  }

  lemma {:induction false} VisitSubset(container: Value, key: string, child: Value, filter: Option<Filter>, path: seq<string>)
    decreases child, 3
    ensures forall l :: l in Visit(container, key, child, filter, path) ==> l in Visit(container, key, child, None, path)
  {
    if !child.Prim? {
      WalkSubset(child, filter, path + [key]);
    }
  }

  // ---------------------------------------------------------------------------
  // Filter exclusion: with a filter that prunes exactly the keys of a set, the
  // walk reports exactly the unfiltered leaves with no pruned key on their path.

  /** The filter returns exactly `false` for the keys in `pruned` and only for them,
      whatever the container. */
  ghost predicate PrunesExactly(filter: Filter, pruned: set<string>)
  {
    forall key, container :: Prunes(Some(filter), key, container) <==> key in pruned
  }

  /** No key of the path at depth `d` or below is pruned. */
  predicate PathAvoids(path: seq<string>, pruned: set<string>, d: nat)
  {
    forall k :: d <= k < |path| ==> path[k] !in pruned
  }

  /** The leaves with no pruned key at depth `d` or below, in order. */
  function Avoiding(leaves: seq<Leaf>, pruned: set<string>, d: nat): seq<Leaf>
  {
    if leaves == [] then []
    else (if PathAvoids(leaves[0].path, pruned, d) then [leaves[0]] else []) + Avoiding(leaves[1..], pruned, d)
  }

  lemma {:induction false} AvoidingConcat(a: seq<Leaf>, b: seq<Leaf>, pruned: set<string>, d: nat)
    ensures Avoiding(a + b, pruned, d) == Avoiding(a, pruned, d) + Avoiding(b, pruned, d)
  {
    if a == [] {
      assert a + b == b;
    } else {
      var h := if PathAvoids(a[0].path, pruned, d) then [a[0]] else [];
      assert (a + b)[0] == a[0];
      assert (a + b)[1..] == a[1..] + b;
      assert Avoiding(a + b, pruned, d) == h + Avoiding(a[1..] + b, pruned, d);
      AvoidingConcat(a[1..], b, pruned, d);
      assert Avoiding(a, pruned, d) == h + Avoiding(a[1..], pruned, d);
      assert h + (Avoiding(a[1..], pruned, d) + Avoiding(b, pruned, d))
          == (h + Avoiding(a[1..], pruned, d)) + Avoiding(b, pruned, d);
    }
  }

  /** When every leaf carries a pruned key at depth `d`, nothing is kept. */
  lemma {:induction false} AvoidingBlocked(leaves: seq<Leaf>, pruned: set<string>, d: nat)
    requires forall l :: l in leaves ==> d < |l.path| && l.path[d] in pruned
    ensures Avoiding(leaves, pruned, d) == []
  {
    if leaves != [] {
      assert leaves[0] in leaves;
      AvoidingBlocked(leaves[1..], pruned, d);
    }
  }

  /** When every leaf carries an unpruned key at depth `d`, looking from `d` or
      from `d + 1` keeps the same leaves. */
  lemma {:induction false} AvoidingShift(leaves: seq<Leaf>, pruned: set<string>, d: nat)
    requires forall l :: l in leaves ==> d < |l.path| && l.path[d] !in pruned
    ensures Avoiding(leaves, pruned, d) == Avoiding(leaves, pruned, d + 1)
  {
    if leaves != [] {
      assert leaves[0] in leaves;
      assert PathAvoids(leaves[0].path, pruned, d) <==> PathAvoids(leaves[0].path, pruned, d + 1);
      AvoidingShift(leaves[1..], pruned, d);
    }
  }

  lemma {:induction false} WalkFilterExact(v: Value, filter: Filter, pruned: set<string>, path: seq<string>)
    requires PrunesExactly(filter, pruned)
    decreases v, 2
    ensures Walk(v, Some(filter), path) == Avoiding(Walk(v, None, path), pruned, |path|)
  {
    match v
    case Prim(_) =>
    case Arr(_) => WalkItemsFilterExact(v, filter, pruned, path, 0);
    case Obj(_) => WalkFieldsFilterExact(v, filter, pruned, path, 0);
  }

  lemma {:induction false} WalkItemsFilterExact(v: Value, filter: Filter, pruned: set<string>, path: seq<string>, i: nat)
    requires PrunesExactly(filter, pruned)
    requires v.Arr? && i <= |v.items|
    decreases v, 1, |v.items| - i
    ensures WalkItems(v, Some(filter), path, i) == Avoiding(WalkItems(v, None, path, i), pruned, |path|)
  {
    if i < |v.items| {
      var key, child := NatText(i), v.items[i];
      VisitFilterExact(v, key, child, filter, pruned, path);
      WalkItemsFilterExact(v, filter, pruned, path, i + 1);
      AvoidingConcat(Visit(v, key, child, None, path), WalkItems(v, None, path, i + 1), pruned, |path|);
    }
  }

  lemma {:induction false} WalkFieldsFilterExact(v: Value, filter: Filter, pruned: set<string>, path: seq<string>, i: nat)
    requires PrunesExactly(filter, pruned)
    requires v.Obj? && i <= |v.fields|
    decreases v, 1, |v.fields| - i
    ensures WalkFields(v, Some(filter), path, i) == Avoiding(WalkFields(v, None, path, i), pruned, |path|)
  {
    if i < |v.fields| {
      var key, child := v.fields[i].0, v.fields[i].1;
      VisitFilterExact(v, key, child, filter, pruned, path);
      WalkFieldsFilterExact(v, filter, pruned, path, i + 1);
      AvoidingConcat(Visit(v, key, child, None, path), WalkFields(v, None, path, i + 1), pruned, |path|);
    }
  }

  lemma {:induction false} VisitFilterExact(container: Value, key: string, child: Value, filter: Filter, pruned: set<string>, path: seq<string>)
    requires PrunesExactly(filter, pruned)
    decreases child, 3
    ensures Visit(container, key, child, Some(filter), path) == Avoiding(Visit(container, key, child, None, path), pruned, |path|)
  {
    var all := Visit(container, key, child, None, path);
    forall l | l in all ensures |path| < |l.path| && l.path[|path|] == key {
      assert l.path[..|path| + 1][|path|] == (path + [key])[|path|];
    }
    if key in pruned {
      AvoidingBlocked(all, pruned, |path|);
    } else {
      match child
      case Prim(p) =>
        assert PathAvoids((path + [key]), pruned, |path|);
      case _ =>
        WalkFilterExact(child, filter, pruned, path + [key]);
        AvoidingShift(all, pruned, |path|);
    }
  }
}
