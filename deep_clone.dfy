/**
 * `ImmutableUpdater.cloneDeep`: a structural copy.  The copy of an array is
 * built by assigning `clone[key]` for each present index in turn, so holes
 * inside it stay holes and holes at its end are not copied at all.
 */
module DeepClone {
  import opened ArrayIndex
  import opened JsValue

  /** `s` without its trailing holes. */
  function Trim(s: seq<Slot>): (r: seq<Slot>)
    ensures r <= s
    ensures r == [] || r[|r| - 1].Present?
    ensures forall j | |r| <= j < |s| :: s[j].Hole?
    decreases |s|
  {
    if s != [] && s[|s| - 1].Hole? then Trim(s[..|s| - 1]) else s
  }

  /** The specification of `cloneDeep`. */
  function Clone(v: Value): (r: Value)
    ensures !IsObject(v) ==> r == v
    ensures r == Undefined <==> v == Undefined
    ensures r.List? == v.List? && r.Obj? == v.Obj?
    ensures v.Obj? ==> r.fields.Keys == v.fields.Keys
    ensures v.List? ==> |r.items| <= |v.items|
    decreases v
  {
    match v
    case List(items) => List(Trim(seq(|items|, n requires 0 <= n < |items| => CloneSlot(items[n]))))
    case Obj(m) => Obj(map k | k in m :: Clone(m[k]))
    case _ => v
  }

  function CloneSlot(s: Slot): Slot
    decreases s
  {
    match s
    case Hole => Hole
    case Present(x) => Present(Clone(x))
  }

  /**
   * The copy of an array has a hole exactly where the array has one, up to
   * its last present element, and so the same present indices.
   */
  lemma ClonePresentSlots(v: Value)
    requires v.List?
    ensures forall n | 0 <= n < |Clone(v).items| :: Clone(v).items[n].Present? == v.items[n].Present?
    ensures forall n | |Clone(v).items| <= n < |v.items| :: v.items[n].Hole?
    ensures PresentKeys(Clone(v).items) == PresentKeys(v.items)
  {
    var items := v.items;
    var slots := seq(|items|, n requires 0 <= n < |items| => CloneSlot(items[n]));
    var t := Trim(slots);
    assert Clone(v).items == t;
    forall n | 0 <= n < |t|
      ensures t[n].Present? == items[n].Present?
    {
      assert t[n] == slots[n];
    }
    forall n | |t| <= n < |items|
      ensures items[n].Hole?
    {
      assert slots[n].Hole?;
    }
    forall k | k in PresentKeys(items)
      ensures k in PresentKeys(t)
    {
      var n :| 0 <= n < |items| && items[n].Present? && k == IndexKey(n);
      assert n < |t|;
    }
  }

  /** Reading an entry of a copy gives the copy of the entry. */
  lemma LookupClone(v: Value, key: string)
    ensures Lookup(Clone(v), key) == Clone(Lookup(v, key))
  {
    if v.List? && IsIndexKey(key) {
      var items := v.items;
      var slots := seq(|items|, n requires 0 <= n < |items| => CloneSlot(items[n]));
      var t := Trim(slots);
      assert Clone(v).items == t;
      var n := DigitsValue(key);
      if n < |t| {
        assert t[n] == slots[n];
      } else if n < |items| {
        assert slots[n].Hole?;
      }
    }
  }

  /** Whatever `cloneDeep` returns is tidy. */
  lemma {:induction false} CloneIsTidy(v: Value)
    ensures Tidy(Clone(v))
    decreases v
  {
    match v
    case List(items) =>
      var slots := seq(|items|, n requires 0 <= n < |items| => CloneSlot(items[n]));
      var t := Trim(slots);
      forall i | 0 <= i < |t| && t[i].Present? ensures Tidy(t[i].value) {
        CloneIsTidy(items[i].value);
      }
    case Obj(m) =>
      forall k | k in m ensures Tidy(Clone(v).fields[k]) {
        CloneIsTidy(m[k]);
      }
    case _ =>
  }

  /** A tidy value is copied exactly. */
  lemma {:induction false} CloneOfTidy(v: Value)
    requires Tidy(v)
    ensures Clone(v) == v
    decreases v
  {
    match v
    case List(items) =>
      var slots := seq(|items|, n requires 0 <= n < |items| => CloneSlot(items[n]));
      forall i | 0 <= i < |items| ensures slots[i] == items[i] {
        if items[i].Present? {
          CloneOfTidy(items[i].value);
        }
      }
      assert slots == items;
    case Obj(m) =>
      forall k | k in m ensures Clone(m[k]) == m[k] {
        CloneOfTidy(m[k]);
      }
      assert Clone(v).fields == m;
    case _ =>
  }

  /**
   * The copy deep-equals the original exactly when the original has no
   * array ending in a hole.
   */
  lemma CloneIsExactIff(v: Value)
    ensures Clone(v) == v <==> Tidy(v)
  {
    CloneIsTidy(v);
    if Tidy(v) {
      CloneOfTidy(v);
    }
  }

  /** Cloning a copy again gives the same copy. */
  lemma CloneIdempotent(v: Value)
    ensures Clone(Clone(v)) == Clone(v)
  {
    CloneIsTidy(v);
    CloneOfTidy(Clone(v));
  }

  /** `clone[key] = e` on an array of length at most `key`: pad with holes. */
  function AssignAt(out: seq<Slot>, i: nat, e: Value): (r: seq<Slot>)
    requires |out| <= i
    ensures |r| == i + 1 && r[..|out|] == out && r[i] == Present(e)
    ensures forall j | |out| <= j < i :: r[j] == Hole
  {
    out + seq(i - |out|, _ => Hole) + [Present(e)]
  }

  /** Trimming after one more slot: a hole is dropped, a present slot ends the run. */
  lemma TrimAppend(s: seq<Slot>, x: Slot)
    ensures x.Hole? ==> Trim(s + [x]) == Trim(s)
    ensures x.Present? ==> Trim(s + [x]) == s + [x]
  {
    assert (s + [x])[..|s|] == s;
  }

  /** Writing index `|s|` into the trimmed `s` pads it back with holes. */
  lemma AssignAtTrim(s: seq<Slot>, e: Value)
    ensures AssignAt(Trim(s), |s|, e) == s + [Present(e)]
  {
    TrimPadded(s);
  }

  /** The trimmed `s` padded back with holes to its length is `s`. */
  lemma TrimPadded(s: seq<Slot>)
    ensures Trim(s) + seq(|s| - |Trim(s)|, _ => Hole) == s
  {
    var t := Trim(s);
    var padded := t + seq(|s| - |t|, _ => Hole);
    forall k | 0 <= k < |s|
      ensures padded[k] == s[k]
    {
      if k >= |t| {
        assert s[k].Hole?;
      }
    }
  }

  /** The copies of the first `i` slots of `items`. */
  function ClonedPrefix(items: seq<Slot>, i: nat): seq<Slot>
    requires i <= |items|
  {
    seq(i, n requires 0 <= n < i => CloneSlot(items[n]))
  }

  lemma ClonedPrefixStep(items: seq<Slot>, i: nat)
    requires i < |items|
    ensures ClonedPrefix(items, i + 1) == ClonedPrefix(items, i) + [CloneSlot(items[i])]
  {
  }

  lemma ClonedPrefixAll(items: seq<Slot>)
    ensures ClonedPrefix(items, |items|) == seq(|items|, n requires 0 <= n < |items| => CloneSlot(items[n]))
  {
  }

  /** `cloneDeep` with its `for…in` loop over the own entries of a container. */
  method CloneDeep(v: Value) returns (c: Value)
    ensures c == Clone(v)
    decreases v, 1
  {
    if !IsObject(v) {
      return v;
    }
    if v.List? {
      c := CloneArray(v);
    } else {
      c := CloneObject(v);
    }
  }

  /** The loop of `cloneDeep` over an array: present indices in ascending order. */
  method CloneArray(v: Value) returns (c: Value)
    requires v.List?
    ensures c == Clone(v)
    decreases v, 0
  {
    var items := v.items;
    var out: seq<Slot> := [];
    var i := 0;
    while i < |items|
      invariant 0 <= i <= |items|
      invariant out == Trim(ClonedPrefix(items, i))
    {
      ghost var before := ClonedPrefix(items, i);
      ClonedPrefixStep(items, i);
      TrimAppend(before, CloneSlot(items[i]));
      if items[i].Present? {
        var e := CloneDeep(items[i].value);
        AssignAtTrim(before, e);
        out := AssignAt(out, i, e);
      }
      i := i + 1;
    }
    ClonedPrefixAll(items);
    c := List(out);
  }

  /** The loop of `cloneDeep` over an object: each own key once. */
  method CloneObject(v: Value) returns (c: Value)
    requires v.Obj?
    ensures c == Clone(v)
    decreases v, 0
  {
    var m := v.fields;
    var out: map<string, Value> := map[];
    var rest := m.Keys;
    while rest != {}
      invariant rest <= m.Keys
      invariant out.Keys == m.Keys - rest
      invariant forall k :: k in out ==> out[k] == Clone(m[k])
      decreases rest
    {
      var k :| k in rest;
      var e := CloneDeep(m[k]);
      out := out[k := e];
      rest := rest - {k};
    }
    assert out == map k | k in m.Keys :: Clone(m[k]);
    c := Obj(out);
  }
}
