/**
 * `ImmutableUpdater`: wraps a root value and answers `get`, `set`,
 * `delete` and `merge` by path.  Each edit deep-clones the root, walks the
 * clone and returns a new updater; `obj` is never written.
 */
module Updater {
  import opened Wrappers
  import opened ArrayIndex
  import opened JsValue
  import opened DeepClone
  import opened PathParser
  import opened Reads
  import opened Edits

  /** The root an edit call produces from `obj`, or the error it throws, in the order the checks run. */
  function Updated(obj: Value, path: Value, e: Edit): (r: Result<Value, Error>)
    ensures r == Failure(InvalidPath) <==> !path.Str? || path.s == []
    ensures r == Failure(NotAnObject) <==> path.Str? && path.s != [] && e.MergeIn? && !IsObject(e.value)
    ensures r.Failure? && r.error.NotFound? ==>
      && path.Str? && 0 < |r.error.prefix| <= |Segments(path.s)|
      && r.error.prefix == Segments(path.s)[..|r.error.prefix|]
    ensures path.Str? && path.s != [] && Strip(path.s) == [] && !(e.MergeIn? && !IsObject(e.value))
      ==> r == Success(Clone(obj))
  {
    if !path.Str? || path.s == [] then Failure(InvalidPath)
    else if e.MergeIn? && !IsObject(e.value) then Failure(NotAnObject)
    else
      if Strip(path.s) == [] then SeparatorsOnly(path.s); EditRoot(obj, Segments(path.s), e)
      else EditRoot(obj, Segments(path.s), e)
  }

  // ---------------------------------------------------------------------------
  // What every edit promises

  /** An edit succeeds exactly when the path has no keys or reads something in `obj`. */
  lemma EditSucceedsIff(obj: Value, keys: seq<string>, e: Edit)
    ensures EditRoot(obj, keys, e).Success? <==> keys == [] || GetIn(obj, keys) != Undefined
  {
    if keys != [] {
      assert keys[0..] == keys;
      EditAtSucceeds(Clone(obj), keys, 0, e);
      GetClone(obj, keys);
    }
  }

  /**
   * A failed edit throws "Path '…' does not exist." for the shortest
   * prefix of the keys that reads nothing in `obj`.
   */
  lemma EditFailsAtFirstMissingKey(obj: Value, keys: seq<string>, e: Edit)
    requires EditRoot(obj, keys, e).Failure?
    ensures EditRoot(obj, keys, e).error.NotFound?
    ensures var prefix := EditRoot(obj, keys, e).error.prefix;
      && 0 < |prefix| <= |keys|
      && prefix == keys[..|prefix|]
      && GetIn(obj, prefix) == Undefined
      && (|prefix| > 1 ==> GetIn(obj, prefix[..|prefix| - 1]) != Undefined)
  {
    assert keys != [] && EditRoot(obj, keys, e) == EditAt(Clone(obj), keys, 0, e);
    CloneIsTidy(obj);
    EditAtFailure(Clone(obj), keys, 0, e);
    MissingInClone(obj, keys, EditRoot(obj, keys, e).error.prefix);
  }

  lemma MissingInClone(obj: Value, keys: seq<string>, prefix: seq<string>)
    requires ShortestMissing(Clone(obj), keys, 0, prefix)
    ensures && 0 < |prefix| <= |keys|
      && prefix == keys[..|prefix|]
      && GetIn(obj, prefix) == Undefined
      && (|prefix| > 1 ==> GetIn(obj, prefix[..|prefix| - 1]) != Undefined)
  {
    var n := |prefix|;
    assert keys[0..n] == prefix;
    GetClone(obj, prefix);
    if n > 1 {
      assert keys[0..n - 1] == prefix[..n - 1];
      GetClone(obj, prefix[..n - 1]);
    }
  }

  /**
   * After a successful edit, the container that held the last key is the
   * clone of the original one with `Finish` applied at that key.
   */
  lemma EditParent(obj: Value, keys: seq<string>, e: Edit)
    requires keys != [] && EditRoot(obj, keys, e).Success?
    ensures var n := |keys|;
      var parent := Clone(GetIn(obj, keys[..n - 1]));
      && Lookup(parent, keys[n - 1]) != Undefined
      && GetIn(EditRoot(obj, keys, e).value, keys[..n - 1]) == Finish(parent, keys[n - 1], e)
  {
    var n := |keys|;
    CloneIsTidy(obj);
    EditAtParent(Clone(obj), keys, 0, e);
    assert keys[0..n - 1] == keys[..n - 1];
    GetClone(obj, keys[..n - 1]);
  }

  /**
   * After a successful edit, every path that leaves the edited path reads
   * (a clone of) what it read in `obj`.
   */
  lemma EditFrame(obj: Value, keys: seq<string>, e: Edit, q: seq<string>, j: nat)
    requires j < |keys| && j < |q| && q[..j] == keys[..j] && q[j] != keys[j]
    requires EditRoot(obj, keys, e).Success?
    ensures GetIn(EditRoot(obj, keys, e).value, q) == Clone(GetIn(obj, q))
  {
    CloneIsTidy(obj);
    LeavesAt(q, keys, j);
    assert keys[0..] == keys;
    EditAtFrame(Clone(obj), keys, 0, e, q);
    GetClone(obj, q);
  }

  /** The entry the last key names, read after an edit. */
  lemma ReadAfterEdit(obj: Value, keys: seq<string>, e: Edit)
    requires keys != [] && EditRoot(obj, keys, e).Success?
    ensures var n := |keys|;
      var parent := Clone(GetIn(obj, keys[..n - 1]));
      && Lookup(parent, keys[n - 1]) == Clone(GetIn(obj, keys))
      && Lookup(parent, keys[n - 1]) != Undefined
      && GetIn(EditRoot(obj, keys, e).value, keys) == Lookup(Finish(parent, keys[n - 1], e), keys[n - 1])
  {
    var n := |keys|;
    var r := EditRoot(obj, keys, e).value;
    EditParent(obj, keys, e);
    GetLast(r, keys);
    ReadCloneOfParent(obj, keys);
  }

  /** The last key, read in a copy of the container the other keys reach, gives a copy of what the path reads. */
  lemma ReadCloneOfParent(v: Value, keys: seq<string>)
    requires keys != []
    ensures var n := |keys|;
      Lookup(Clone(GetIn(v, keys[..n - 1])), keys[n - 1]) == Clone(GetIn(v, keys))
  {
    var n := |keys|;
    GetLast(v, keys);
    LookupClone(GetIn(v, keys[..n - 1]), keys[n - 1]);
  }

  // ---------------------------------------------------------------------------
  // set

  /** Reading back the path just set gives exactly the value set. */
  lemma SetThenGet(obj: Value, keys: seq<string>, v: Value)
    requires keys != [] && EditRoot(obj, keys, SetTo(v)).Success?
    ensures GetIn(EditRoot(obj, keys, SetTo(v)).value, keys) == v
  {
    ReadAfterEdit(obj, keys, SetTo(v));
  }

  /** Below the path just set, the result reads what the value set reads. */
  lemma SetThenGetBelow(obj: Value, keys: seq<string>, v: Value, q: seq<string>)
    requires keys != [] && EditRoot(obj, keys, SetTo(v)).Success?
    ensures GetIn(EditRoot(obj, keys, SetTo(v)).value, keys + q) == GetIn(v, q)
  {
    SetThenGet(obj, keys, v);
    GetAppend(EditRoot(obj, keys, SetTo(v)).value, keys, q);
  }

  /** Setting a path of a tidy root to what it already reads gives that root back. */
  lemma SetSameValue(obj: Value, keys: seq<string>)
    requires Tidy(obj) && GetIn(obj, keys) != Undefined
    ensures EditRoot(obj, keys, SetTo(GetIn(obj, keys))) == Success(obj)
  {
    CloneOfTidy(obj);
    if keys != [] {
      assert keys[0..] == keys;
      EditAtSameValue(obj, keys, 0);
    }
  }

  /** Setting the primitive a path already holds skips the write: the result is the plain clone. */
  lemma SetSamePrimitive(obj: Value, keys: seq<string>, v: Value)
    requires keys != [] && !IsObject(v) && v != Undefined && GetIn(obj, keys) == v
    ensures EditRoot(obj, keys, SetTo(v)) == Success(Clone(obj))
  {
    CloneIsTidy(obj);
    GetClone(obj, keys);
    assert keys[0..] == keys;
    EditAtSameValue(Clone(obj), keys, 0);
  }

  // ---------------------------------------------------------------------------
  // delete

  /**
   * After a delete the path reads nothing, and its container keeps every
   * other entry, an array its length.
   */
  lemma DeleteThenGet(obj: Value, keys: seq<string>)
    requires keys != [] && EditRoot(obj, keys, DeleteKey).Success?
    ensures GetIn(EditRoot(obj, keys, DeleteKey).value, keys) == Undefined
    ensures var n := |keys|;
      var before := Clone(GetIn(obj, keys[..n - 1]));
      var after := GetIn(EditRoot(obj, keys, DeleteKey).value, keys[..n - 1]);
      && (forall k :: k != keys[n - 1] ==> Lookup(after, k) == Lookup(before, k))
      && (before.List? ==> after.List? && |after.items| == |before.items|)
      && (before.Obj? ==> after.Obj? && after.fields.Keys == before.fields.Keys - {keys[n - 1]})
  {
    var n := |keys|;
    var last := keys[n - 1];
    var before := Clone(GetIn(obj, keys[..n - 1]));
    var after := GetIn(EditRoot(obj, keys, DeleteKey).value, keys[..n - 1]);
    ReadAfterEdit(obj, keys, DeleteKey);
    EditParent(obj, keys, DeleteKey);
    assert after == Remove(before, last);
  }

  // ---------------------------------------------------------------------------
  // merge

  /**
   * After a merge the path holds an object: the entries of `v` as they
   * are, and those of the (cloned) old target that `v` does not name.
   */
  lemma MergeThenGet(obj: Value, keys: seq<string>, v: Value)
    requires keys != [] && EditRoot(obj, keys, MergeIn(v)).Success?
    ensures var target := Clone(GetIn(obj, keys));
      var m := GetIn(EditRoot(obj, keys, MergeIn(v)).value, keys);
      && m.Obj?
      && m.fields.Keys == Entries(target).Keys + Entries(v).Keys
      && (forall k :: k in Entries(v) ==> Lookup(m, k) == Lookup(v, k))
      && (forall k :: k !in Entries(v) ==> Lookup(m, k) == Clone(Lookup(GetIn(obj, keys), k)))
  {
    ReadAfterEdit(obj, keys, MergeIn(v));
    forall k {
      LookupClone(GetIn(obj, keys), k);
    }
  }

  /** The checks run in order: the path, then (for merge) the value, then every key. */
  lemma UpdatedErrors(obj: Value, path: Value, e: Edit)
    requires Updated(obj, path, e).Failure?
    ensures var err := Updated(obj, path, e).error;
      && (err == InvalidPath <==> !path.Str? || path.s == [])
      && (err == NotAnObject <==> path.Str? && path.s != [] && e.MergeIn? && !IsObject(e.value))
      && (err.NotFound? ==> GetIn(obj, Segments(path.s)) == Undefined && GetIn(obj, err.prefix) == Undefined)
  {
    if path.Str? && path.s != [] && !(e.MergeIn? && !IsObject(e.value)) {
      var keys := Segments(path.s);
      EditSucceedsIff(obj, keys, e);
      EditFailsAtFirstMissingKey(obj, keys, e);
    }
  }

  // ---------------------------------------------------------------------------
  // Two worked cases

  /** Nothing is created on the way: `set('a.b.c', 1)` on `{}` throws for `a`. */
  lemma SetCreatesNothing()
    ensures Updated(Obj(map[]), Str("a.b.c"), SetTo(Num(1))) == Failure(NotFound(["a"]))
  {
    var keys := ["a", "b", "c"];
    assert Segments("a.b.c") == keys by {
      ParseJoin(keys);
      assert Join(keys) == "a.b.c";
    }
    assert Updated(Obj(map[]), Str("a.b.c"), SetTo(Num(1))) == EditRoot(Obj(map[]), keys, SetTo(Num(1)));
    assert Clone(Obj(map[])) == Obj(map[]);
  }

  /** `set('.', v)` finds no keys in its path: it returns the plain copy and drops `v`. */
  lemma SetDotIgnoresValue(obj: Value, v: Value)
    ensures Updated(obj, Str("."), SetTo(v)) == Success(Clone(obj))
  {
  }

  /** The keys of the path `list[0]`. */
  lemma SegmentsOfListPath()
    ensures Segments("list[0]") == ["list", "0"]
  {
    assert "list[0]" == "list" + "[0]";
    ScanThrough("list", "[0]", []);
    assert Scan("[0]", "list") == ["list"] + Scan("0]", []);
    assert [] + "list" == "list";
    assert "0]" == "0" + "]" && [] + "0" == "0";
    ScanThrough("0", "]", []);
    assert Scan("]", "0") == ["0"] + Scan([], []);
  }

  /** The last step of the delete below: index 0 becomes a hole. */
  lemma DeleteFirstOfTwo(one: Value, two: Value)
    requires one != Undefined
    ensures EditAt(List([Present(one), Present(two)]), ["list", "0"], 1, DeleteKey)
      == Success(List([Hole, Present(two)]))
  {
    var list := List([Present(one), Present(two)]);
    IndexKeyRoundTrip(0);
    assert IndexKey(0) == "0";
    assert Lookup(list, "0") == one;
    assert Remove(list, "0") == List([Hole, Present(two)]);
  }

  /** The whole walk of the delete below, on a tidy two-element array. */
  lemma DeleteThroughList(one: Value, two: Value)
    requires IsObject(one) && Tidy(List([Present(one), Present(two)]))
    ensures var list := List([Present(one), Present(two)]);
      EditAt(Obj(map["list" := list]), ["list", "0"], 0, DeleteKey)
      == Success(Obj(map["list" := List([Hole, Present(two)])]))
  {
    var list := List([Present(one), Present(two)]);
    var root := Obj(map["list" := list]);
    CloneOfTidy(list);
    DeleteFirstOfTwo(one, two);
    assert Lookup(root, "list") == list;
    var emptied := List([Hole, Present(two)]);
    assert EditAt(root, ["list", "0"], 0, DeleteKey) == Success(Store(root, "list", emptied));
    assert map["list" := list]["list" := emptied] == map["list" := emptied];
  }

  /**
   * `delete('list[0]')` on `{list: [{v: 1}, {v: 2}]}` leaves a hole: the
   * array keeps its length and `{v: 2}` stays at index 1.
   */
  lemma DeleteLeavesHole()
    ensures var one := Obj(map["v" := Num(1)]);
      var two := Obj(map["v" := Num(2)]);
      Updated(Obj(map["list" := List([Present(one), Present(two)])]), Str("list[0]"), DeleteKey)
      == Success(Obj(map["list" := List([Hole, Present(two)])]))
  {
    var one := Obj(map["v" := Num(1)]);
    var two := Obj(map["v" := Num(2)]);
    var list := List([Present(one), Present(two)]);
    var root := Obj(map["list" := list]);
    var keys := ["list", "0"];
    SegmentsOfListPath();
    assert Updated(root, Str("list[0]"), DeleteKey) == EditRoot(root, keys, DeleteKey);
    SampleIsTidy(one, two);
    CloneOfTidy(root);
    assert EditRoot(root, keys, DeleteKey) == EditAt(root, keys, 0, DeleteKey);
    DeleteThroughList(one, two);
  }

  /** Objects of numbers, and a list and an object holding them, are tidy. */
  lemma SampleIsTidy(one: Value, two: Value)
    requires one == Obj(map["v" := Num(1)]) && two == Obj(map["v" := Num(2)])
    ensures var list := List([Present(one), Present(two)]);
      Tidy(list) && Tidy(Obj(map["list" := list]))
  {
    assert Tidy(one) && Tidy(two);
  }

  class ImmutableUpdater {
    const obj: Value

    constructor (obj: Value)
      ensures this.obj == obj
    {
      this.obj := obj;
    }

    /** `get(path = '')`: throws only for a missing or empty path. */
    function Get(path: Value): (r: Result<Value, Error>)
      ensures r.Failure? <==> !path.Str? || path.s == []
      ensures r.Failure? ==> r.error == InvalidPath
      ensures r.Success? ==> r.value == GetIn(obj, Segments(path.s))
    {
      match ParsePath(path)
      case Failure(err) => Failure(err)
      case Success(keys) => Success(GetIn(obj, keys))
    }

    /** `set(path, value)`. */
    method Set(path: Value, value: Value) returns (r: Result<ImmutableUpdater, Error>)
      ensures r.Success? <==> Updated(obj, path, SetTo(value)).Success?
      ensures r.Success? ==> r.value.obj == Updated(obj, path, SetTo(value)).value
      ensures r.Failure? ==> r.error == Updated(obj, path, SetTo(value)).error
      ensures r.Success? ==> fresh(r.value)
    {
      if !path.Str? || path.s == [] {
        return Failure(InvalidPath);
      }
      var keys := Segments(path.s);
      var newObject := CloneDeep(obj);
      var walked := Walk(newObject, keys, SetTo(value));
      match walked {
        case Failure(err) => r := Failure(err);
        case Success(root) =>
          var u := new ImmutableUpdater(root);
          r := Success(u);
      }
    }

    /** `delete(path)`. */
    method Delete(path: Value) returns (r: Result<ImmutableUpdater, Error>)
      ensures r.Success? <==> Updated(obj, path, DeleteKey).Success?
      ensures r.Success? ==> r.value.obj == Updated(obj, path, DeleteKey).value
      ensures r.Failure? ==> r.error == Updated(obj, path, DeleteKey).error
      ensures r.Success? ==> fresh(r.value)
    {
      if !path.Str? || path.s == [] {
        return Failure(InvalidPath);
      }
      var keys := Segments(path.s);
      var newObject := CloneDeep(obj);
      var walked := Walk(newObject, keys, DeleteKey);
      match walked {
        case Failure(err) => r := Failure(err);
        case Success(root) =>
          var u := new ImmutableUpdater(root);
          r := Success(u);
      }
    }

    /** `merge(path, value)`. */
    method Merge(path: Value, value: Value) returns (r: Result<ImmutableUpdater, Error>)
      ensures r.Success? <==> Updated(obj, path, MergeIn(value)).Success?
      ensures r.Success? ==> r.value.obj == Updated(obj, path, MergeIn(value)).value
      ensures r.Failure? ==> r.error == Updated(obj, path, MergeIn(value)).error
      ensures r.Success? ==> fresh(r.value)
    {
      if !path.Str? || path.s == [] {
        return Failure(InvalidPath);
      }
      if !IsObject(value) {
        return Failure(NotAnObject);
      }
      var keys := Segments(path.s);
      var newObject := CloneDeep(obj);
      var walked := Walk(newObject, keys, MergeIn(value));
      match walked {
        case Failure(err) => r := Failure(err);
        case Success(root) =>
          var u := new ImmutableUpdater(root);
          r := Success(u);
      }
    }
  }
}
