/**
 * The walk that `set`, `delete` and `merge` share (`keys.reduce` over the
 * deep-cloned root): every key must already name an entry; a container on
 * the way is cloned again and entered; the last key is where the three
 * differ.  `EditAt` is the walk as a function of the tree it starts from;
 * `Walk` is the loop.
 */
module Edits {
  import opened Wrappers
  import opened ArrayIndex
  import opened JsValue
  import opened DeepClone
  import opened PathParser
  import opened Reads

  /** What happens at the last key. */
  datatype Edit =
    | SetTo(value: Value)
    | DeleteKey
    | MergeIn(value: Value)

  /**
   * `!isNaN(next)`, which picks `[]` over `{}` for a replaced intermediate.
   * Only digit strings are recognised here; the container is empty either
   * way, so the choice never shows.
   */
  predicate LooksNumeric(next: string) {
    |next| > 0 && AllDigits(next)
  }

  /** `isNaN(next) ? {} : []`: an empty container, with no entries at all. */
  function EmptyFor(next: string): (r: Value)
    ensures IsObject(r) && Clone(r) == r
    ensures forall k :: Lookup(r, k) == Undefined
  {
    if LooksNumeric(next) then List([]) else Obj(map[])
  }

  /** The write at the last key, into the container `acc` the walk has reached. */
  function Finish(acc: Value, key: string, e: Edit): (r: Value)
    requires Lookup(acc, key) != Undefined
    ensures forall k :: k != key ==> Lookup(r, k) == Lookup(acc, k)
    ensures e.SetTo? ==> Lookup(r, key) == e.value
    ensures e.DeleteKey? ==> Lookup(r, key) == Undefined
    ensures e.MergeIn? ==> Lookup(r, key) == Merged(Lookup(acc, key), e.value)
    ensures acc.List? ==> r.List? && |r.items| == |acc.items|
    ensures acc.List? ==> forall j | 0 <= j < |acc.items| && j != DigitsValue(key) :: r.items[j] == acc.items[j]
    ensures acc.List? ==> (r.items[DigitsValue(key)] == Hole <==> e.DeleteKey?)
    ensures acc.Obj? ==> r.Obj? && r.fields.Keys == (if e.DeleteKey? then acc.fields.Keys - {key} else acc.fields.Keys)
  {
    var cur := Lookup(acc, key);
    match e
    case SetTo(v) => if !IsObject(v) && cur == v then acc else Store(acc, key, v)
    case DeleteKey => Remove(acc, key)
    case MergeIn(v) => Store(acc, key, Merged(cur, v))
  }

  /**
   * The walk from key `i` on, starting at the container `acc`: the edited
   * `acc`, or the error the walk throws.
   */
  function EditAt(acc: Value, keys: seq<string>, i: nat, e: Edit): Result<Value, Error>
    requires i < |keys|
    decreases |keys| - i
  {
    var key := keys[i];
    var cur := Lookup(acc, key);
    if !Truthy(acc) || cur == Undefined then Failure(NotFound(keys[..i + 1]))
    else if i == |keys| - 1 then Success(Finish(acc, key, e))
    else if e.DeleteKey? && !IsObject(cur) then
      // `delete` goes on in a detached `{}` and leaves `acc` as it is
      match EditAt(Obj(map[]), keys, i + 1, e)
      case Success(_) => Success(acc)
      case Failure(err) => Failure(err)
    else
      var child := Clone(if IsObject(cur) then cur else EmptyFor(keys[i + 1]));
      match EditAt(child, keys, i + 1, e)
      case Success(c) => Success(Store(acc, key, c))
      case Failure(err) => Failure(err)
  }

  /** The whole walk over `root`; with no keys the reduce returns `root` as it is. */
  function EditTree(root: Value, keys: seq<string>, e: Edit): (r: Result<Value, Error>)
    ensures r.Failure? ==> r.error.NotFound? && 0 < |r.error.prefix| <= |keys| && r.error.prefix == keys[..|r.error.prefix|]
    ensures r.Success? && keys != [] ==> IsObject(root) && r.value.List? == root.List? && r.value.Obj? == root.Obj?
  {
    if keys == [] then Success(root)
    else
      EditAtKeepsKind(root, keys, 0, e);
      EditAtFailsOnPrefix(root, keys, 0, e);
      EditAt(root, keys, 0, e)
  }

  /** A walk from key `i` that throws names a prefix of the keys reaching past key `i`. */
  lemma {:induction false} EditAtFailsOnPrefix(acc: Value, keys: seq<string>, i: nat, e: Edit)
    requires i < |keys|
    ensures var r := EditAt(acc, keys, i, e);
      r.Failure? ==> r.error.NotFound? && i < |r.error.prefix| <= |keys| && r.error.prefix == keys[..|r.error.prefix|]
    decreases |keys| - i
  {
    var cur := Lookup(acc, keys[i]);
    if i < |keys| - 1 && Truthy(acc) && cur != Undefined {
      if e.DeleteKey? && !IsObject(cur) {
        EditAtFailsOnPrefix(Obj(map[]), keys, i + 1, e);
      } else {
        EditAtFailsOnPrefix(Clone(if IsObject(cur) then cur else EmptyFor(keys[i + 1])), keys, i + 1, e);
      }
    }
  }

  /** A walk that gets through edits a container and returns one of the same kind. */
  lemma {:induction false} EditAtKeepsKind(acc: Value, keys: seq<string>, i: nat, e: Edit)
    requires i < |keys|
    ensures var r := EditAt(acc, keys, i, e);
      r.Success? ==> IsObject(acc) && r.value.List? == acc.List? && r.value.Obj? == acc.Obj?
    decreases |keys| - i
  {
    if i < |keys| - 1 {
      EditAtKeepsKind(Obj(map[]), keys, i + 1, e);
      var cur := Lookup(acc, keys[i]);
      EditAtKeepsKind(Clone(if IsObject(cur) then cur else EmptyFor(keys[i + 1])), keys, i + 1, e);
    }
  }

  /** What `set`, `delete` and `merge` compute from `this.obj`: the walk over its deep clone. */
  function EditRoot(obj: Value, keys: seq<string>, e: Edit): (r: Result<Value, Error>)
    ensures keys == [] ==> r == Success(Clone(obj))
    ensures r.Failure? ==> r.error.NotFound? && 0 < |r.error.prefix| <= |keys| && r.error.prefix == keys[..|r.error.prefix|]
    ensures r.Success? && keys != [] ==> IsObject(obj) && r.value.List? == obj.List? && r.value.Obj? == obj.Obj?
  {
    EditTree(Clone(obj), keys, e)
  }

  // ---------------------------------------------------------------------------
  // The walk, key by key

  /** A walk through a replaced intermediate never gets past the next key. */
  lemma EditInEmpty(keys: seq<string>, i: nat, e: Edit)
    requires i + 1 < |keys|
    ensures EditAt(Obj(map[]), keys, i + 1, e) == Failure(NotFound(keys[..i + 2]))
    ensures EditAt(Clone(EmptyFor(keys[i + 1])), keys, i + 1, e) == Failure(NotFound(keys[..i + 2]))
  {
  }

  /** The walk from key `i` succeeds exactly when the rest of the path reads something. */
  lemma {:induction false} EditAtSucceeds(acc: Value, keys: seq<string>, i: nat, e: Edit)
    requires i < |keys|
    ensures EditAt(acc, keys, i, e).Success? <==> GetIn(acc, keys[i..]) != Undefined
    decreases |keys| - i
  {
    var key := keys[i];
    var cur := Lookup(acc, key);
    GetSlice(acc, keys, i, |keys|);
    if cur != Undefined && i < |keys| - 1 {
      GetSlice(cur, keys, i + 1, |keys|);
      if !IsObject(cur) {
        EditInEmpty(keys, i, e);
      } else {
        EditAtSucceeds(Clone(cur), keys, i + 1, e);
        GetClone(cur, keys[i + 1..]);
      }
    }
  }

  /**
   * `prefix` is the shortest prefix of `keys` that, read from `acc` past
   * the first `i` keys, gives nothing.
   */
  predicate ShortestMissing(acc: Value, keys: seq<string>, i: nat, prefix: seq<string>) {
    && i < |prefix| <= |keys|
    && prefix == keys[..|prefix|]
    && GetIn(acc, keys[i..|prefix|]) == Undefined
    && (|prefix| > i + 1 ==> GetIn(acc, keys[i..|prefix| - 1]) != Undefined)
  }

  /**
   * A failed walk over a tidy tree (a clone is one) names the shortest
   * prefix of the keys that reads nothing.
   */
  lemma {:induction false} EditAtFailure(acc: Value, keys: seq<string>, i: nat, e: Edit)
    requires i < |keys| && Tidy(acc) && EditAt(acc, keys, i, e).Failure?
    ensures EditAt(acc, keys, i, e).error.NotFound?
    ensures ShortestMissing(acc, keys, i, EditAt(acc, keys, i, e).error.prefix)
    decreases |keys| - i
  {
    var key := keys[i];
    var cur := Lookup(acc, key);
    GetSlice(acc, keys, i, i + 1);
    if cur != Undefined {
      assert i < |keys| - 1;
      if !IsObject(cur) {
        EditInEmpty(keys, i, e);
        assert EditAt(acc, keys, i, e) == Failure(NotFound(keys[..i + 2]));
        GetSlice(acc, keys, i, i + 2);
        GetSlice(cur, keys, i + 1, i + 2);
      } else {
        TidyLookup(acc, key);
        CloneOfTidy(cur);
        EditAtFailure(cur, keys, i + 1, e);
        ShortestMissingStep(acc, keys, i, EditAt(cur, keys, i + 1, e).error.prefix);
      }
    }
  }

  /** A prefix missing below the entry at key `i` is the one missing from its container. */
  lemma ShortestMissingStep(acc: Value, keys: seq<string>, i: nat, prefix: seq<string>)
    requires i + 1 < |keys| && Lookup(acc, keys[i]) != Undefined
    requires ShortestMissing(Lookup(acc, keys[i]), keys, i + 1, prefix)
    ensures ShortestMissing(acc, keys, i, prefix)
  {
    var n := |prefix|;
    GetSlice(acc, keys, i, n);
    GetSlice(acc, keys, i, n - 1);
  }

  /**
   * On a tidy tree, a successful walk leaves the last key's container
   * exactly as `Finish` makes it.
   */
  lemma {:induction false} EditAtParent(acc: Value, keys: seq<string>, i: nat, e: Edit)
    requires i < |keys| && Tidy(acc) && EditAt(acc, keys, i, e).Success?
    ensures var n := |keys|;
      && Lookup(GetIn(acc, keys[i..n - 1]), keys[n - 1]) != Undefined
      && GetIn(EditAt(acc, keys, i, e).value, keys[i..n - 1])
         == Finish(GetIn(acc, keys[i..n - 1]), keys[n - 1], e)
    decreases |keys| - i
  {
    var n := |keys|;
    var key := keys[i];
    var cur := Lookup(acc, key);
    if i < n - 1 {
      TidyLookup(acc, key);
      CloneOfTidy(cur);
      EditAtParent(cur, keys, i + 1, e);
      var c := EditAt(cur, keys, i + 1, e).value;
      GetSlice(acc, keys, i, n - 1);
      GetSlice(Store(acc, key, c), keys, i, n - 1);
    }
  }

  /**
   * One successful step of the walk on a tidy tree that is not the last:
   * either `delete` went on detached and `acc` is as it was, or the entry
   * was a container and holds its own edited copy.
   */
  lemma EditAtDescends(acc: Value, keys: seq<string>, i: nat, e: Edit)
    requires i + 1 < |keys| && Tidy(acc) && EditAt(acc, keys, i, e).Success?
    ensures Lookup(acc, keys[i]) != Undefined
    ensures e.DeleteKey? && !IsObject(Lookup(acc, keys[i])) ==> EditAt(acc, keys, i, e).value == acc
    ensures !(e.DeleteKey? && !IsObject(Lookup(acc, keys[i]))) ==>
      && IsObject(Lookup(acc, keys[i])) && Tidy(Lookup(acc, keys[i]))
      && EditAt(Lookup(acc, keys[i]), keys, i + 1, e).Success?
      && EditAt(acc, keys, i, e).value == Store(acc, keys[i], EditAt(Lookup(acc, keys[i]), keys, i + 1, e).value)
  {
    var cur := Lookup(acc, keys[i]);
    if !(e.DeleteKey? && !IsObject(cur)) {
      if !IsObject(cur) {
        EditInEmpty(keys, i, e);
      } else {
        TidyLookup(acc, keys[i]);
        CloneOfTidy(cur);
      }
    }
  }

  /** `q` parts from `path` at some key before `path` ends. */
  predicate Leaves(q: seq<string>, path: seq<string>)
    decreases |q|
  {
    q != [] && path != [] && (q[0] != path[0] || Leaves(q[1..], path[1..]))
  }

  /** Parting at key `j` is leaving. */
  lemma {:induction false} LeavesAt(q: seq<string>, path: seq<string>, j: nat)
    requires j < |path| && j < |q| && q[..j] == path[..j] && q[j] != path[j]
    ensures Leaves(q, path)
    decreases j
  {
    if j > 0 {
      assert q[0] == q[..j][0] == path[..j][0] == path[0];
      assert q[1..][..j - 1] == q[..j][1..] == path[..j][1..] == path[1..][..j - 1];
      LeavesAt(q[1..], path[1..], j - 1);
    }
  }

  /**
   * On a tidy tree, a successful walk leaves every path that leaves the
   * edited path reading what it read before.
   */
  lemma {:induction false} EditAtFrame(acc: Value, keys: seq<string>, i: nat, e: Edit, q: seq<string>)
    requires i < |keys| && Leaves(q, keys[i..])
    requires Tidy(acc) && EditAt(acc, keys, i, e).Success?
    ensures GetIn(EditAt(acc, keys, i, e).value, q) == GetIn(acc, q)
    decreases |keys| - i
  {
    var key := keys[i];
    var cur := Lookup(acc, key);
    var r := EditAt(acc, keys, i, e).value;
    assert GetIn(r, q) == GetIn(ReadStep(r, q[0]), q[1..]);
    assert GetIn(acc, q) == GetIn(ReadStep(acc, q[0]), q[1..]);
    assert keys[i..][0] == key && keys[i..][1..] == keys[i + 1..];
    if i == |keys| - 1 {
      assert r == Finish(acc, key, e);
    } else {
      EditAtDescends(acc, keys, i, e);
      if q[0] == key && !(e.DeleteKey? && !IsObject(cur)) {
        EditAtFrame(cur, keys, i + 1, e, q[1..]);
      }
    }
  }

  /**
   * On a tidy tree, setting a path to the value it already reads gives the
   * tree back unchanged.
   */
  lemma {:induction false} EditAtSameValue(acc: Value, keys: seq<string>, i: nat)
    requires i < |keys| && Tidy(acc) && GetIn(acc, keys[i..]) != Undefined
    ensures EditAt(acc, keys, i, SetTo(GetIn(acc, keys[i..]))) == Success(acc)
    decreases |keys| - i
  {
    var v := GetIn(acc, keys[i..]);
    var key := keys[i];
    var cur := Lookup(acc, key);
    GetSlice(acc, keys, i, |keys|);
    if i == |keys| - 1 {
      StoreSame(acc, key);
    } else {
      GetSlice(cur, keys, i + 1, |keys|);
      TidyLookup(acc, key);
      CloneOfTidy(cur);
      EditAtSameValue(cur, keys, i + 1);
      StoreSame(acc, key);
    }
  }

  // ---------------------------------------------------------------------------
  // The loop

  /**
   * How the container the loop is in hangs from the one above it: as the
   * entry `key` of `parent`, or, after `delete` met a non-container, not at
   * all.
   */
  datatype Hold = Into(parent: Value, key: string) | Detached(parent: Value)

  predicate Attached(above: seq<Hold>) {
    forall j | 0 <= j < |above| :: above[j].Into? ==> Lookup(above[j].parent, above[j].key) != Undefined
  }

  /**
   * The root as it reads once `v` stands where the loop has got to: what the
   * in-place writes into `acc` look like from `newObject`.
   */
  function Plug(above: seq<Hold>, v: Value): Value
    requires Attached(above)
    decreases |above|
  {
    if above == [] then v
    else
      var up := above[..|above| - 1];
      match above[|above| - 1]
      case Into(p, k) => Plug(up, Store(p, k, v))
      case Detached(p) => Plug(up, p)
  }

  function Reattach(above: seq<Hold>, r: Result<Value, Error>): Result<Value, Error>
    requires Attached(above)
  {
    match r
    case Success(v) => Success(Plug(above, v))
    case Failure(err) => Failure(err)
  }

  lemma PlugInto(above: seq<Hold>, p: Value, k: string, v: Value)
    requires Attached(above) && Lookup(p, k) != Undefined
    ensures Attached(above + [Into(p, k)])
    ensures Plug(above + [Into(p, k)], v) == Plug(above, Store(p, k, v))
  {
    assert (above + [Into(p, k)])[..|above|] == above;
  }

  lemma PlugDetached(above: seq<Hold>, p: Value, v: Value)
    requires Attached(above)
    ensures Attached(above + [Detached(p)])
    ensures Plug(above + [Detached(p)], v) == Plug(above, p)
  {
    assert (above + [Detached(p)])[..|above|] == above;
  }

  /** One step down after `delete` met a non-container: the rest runs detached. */
  lemma StepDetached(above: seq<Hold>, acc: Value, keys: seq<string>, i: nat, e: Edit)
    requires Attached(above) && i + 1 < |keys|
    requires Truthy(acc) && Lookup(acc, keys[i]) != Undefined
    requires e.DeleteKey? && !IsObject(Lookup(acc, keys[i]))
    ensures Attached(above + [Detached(acc)])
    ensures Reattach(above, EditAt(acc, keys, i, e))
         == Reattach(above + [Detached(acc)], EditAt(Obj(map[]), keys, i + 1, e))
  {
    PlugDetached(above, acc, acc);
    match EditAt(Obj(map[]), keys, i + 1, e)
    case Success(c) => PlugDetached(above, acc, c);
    case Failure(_) =>
  }

  /** One step down into the cloned child, stored back into `acc` at once. */
  lemma StepInto(above: seq<Hold>, acc: Value, keys: seq<string>, i: nat, e: Edit, child: Value)
    requires Attached(above) && i + 1 < |keys|
    requires Truthy(acc) && Lookup(acc, keys[i]) != Undefined
    requires !(e.DeleteKey? && !IsObject(Lookup(acc, keys[i])))
    requires child == Clone(if IsObject(Lookup(acc, keys[i])) then Lookup(acc, keys[i]) else EmptyFor(keys[i + 1]))
    ensures Attached(above + [Into(Store(acc, keys[i], child), keys[i])])
    ensures Reattach(above, EditAt(acc, keys, i, e))
         == Reattach(above + [Into(Store(acc, keys[i], child), keys[i])], EditAt(child, keys, i + 1, e))
  {
    var key := keys[i];
    var stored := Store(acc, key, child);
    PlugInto(above, stored, key, child);
    match EditAt(child, keys, i + 1, e)
    case Success(c) =>
      PlugInto(above, stored, key, c);
      StoreTwice(acc, key, child, c);
    case Failure(_) =>
  }

  /** The last key of the walk: assign, `delete`, or merge into the entry. */
  method LastStep(acc: Value, key: string, e: Edit) returns (a: Value)
    requires Lookup(acc, key) != Undefined
    ensures a == Finish(acc, key, e)
  {
    var cur := Lookup(acc, key);
    a := acc;
    match e {
      case SetTo(v) =>
        if !(!IsObject(v) && cur == v) {
          a := Store(a, key, v);
        }
      case DeleteKey =>
        a := Remove(a, key);
      case MergeIn(v) =>
        if !IsObject(cur) {
          a := Store(a, key, Obj(map[]));
          StoreTwice(acc, key, Obj(map[]), Merged(Obj(map[]), v));
        }
        a := Store(a, key, Merged(Lookup(a, key), v));
    }
  }

  /** The `keys.reduce` of `set`, `delete` and `merge`, run on the clone `newObject`. */
  method Walk(newObject: Value, keys: seq<string>, e: Edit) returns (r: Result<Value, Error>)
    ensures r == EditTree(newObject, keys, e)
  {
    if keys == [] {
      return Success(newObject);
    }
    ghost var goal := EditAt(newObject, keys, 0, e);
    var above: seq<Hold> := [];
    var acc := newObject;
    var index := 0;
    while true
      invariant 0 <= index < |keys|
      invariant Attached(above)
      invariant goal == Reattach(above, EditAt(acc, keys, index, e))
      decreases |keys| - index
    {
      var key := keys[index];
      var cur := Lookup(acc, key);
      if !Truthy(acc) || cur == Undefined {
        return Failure(NotFound(keys[..index + 1]));
      }
      if index == |keys| - 1 {
        acc := LastStep(acc, key, e);
        return Success(Plug(above, acc));
      }
      if e.DeleteKey? && !IsObject(cur) {
        StepDetached(above, acc, keys, index, e);
        above := above + [Detached(acc)];
        acc := Obj(map[]);
      } else {
        var child := if IsObject(cur) then cur else EmptyFor(keys[index + 1]);
        child := CloneDeep(child);
        StepInto(above, acc, keys, index, e, child);
        acc := Store(acc, key, child);
        above := above + [Into(acc, key)];
        acc := child;
      }
      index := index + 1;
    }
  }
}
