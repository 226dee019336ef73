/**
 * The JSON-like values the updater walks: primitives, arrays and plain
 * objects.  An array is a sequence of slots; a slot is a `Hole` where the
 * array has no element (what `delete arr[i]` leaves behind) and
 * `Present(v)` otherwise, `v` possibly `Undefined`.
 */
module JsValue {
  import opened ArrayIndex

  datatype Value =
    | Undefined
    | Null
    | Bool(b: bool)
    | Num(n: int)
    | Str(s: string)
    | List(items: seq<Slot>)
    | Obj(fields: map<string, Value>)

  datatype Slot = Hole | Present(value: Value)

  /** What JavaScript's `typeof` answers for a value. */
  function TypeOf(v: Value): string {
    match v
    case Undefined => "undefined"
    case Bool(_) => "boolean"
    case Num(_) => "number"
    case Str(_) => "string"
    case _ => "object"
  }

  /** `ImmutableUpdater.isObject`: exactly the arrays and the plain objects. */
  predicate IsObject(v: Value)
    ensures IsObject(v) <==> v.List? || v.Obj?
  {
    v != Null && TypeOf(v) == "object"
  }

  /** JavaScript truthiness, as `acc && …` and `!acc` test it. */
  predicate Truthy(v: Value)
    ensures IsObject(v) ==> Truthy(v)
    ensures Truthy(v) ==> v != Undefined && v != Null
  {
    match v
    case Undefined => false
    case Null => false
    case Bool(b) => b
    case Num(n) => n != 0
    case Str(s) => s != []
    case _ => true
  }

  /**
   * `acc[key]`: an own entry of an object or a present element of an array,
   * `Undefined` when there is none.  Primitives have no entries here.
   */
  function Lookup(acc: Value, key: string): (r: Value)
    ensures !IsObject(acc) ==> r == Undefined
    ensures acc.Obj? ==> r == (if key in acc.fields then acc.fields[key] else Undefined)
  {
    match acc
    case Obj(m) => if key in m then m[key] else Undefined
    case List(items) =>
      if IsIndexKey(key) && DigitsValue(key) < |items| && items[DigitsValue(key)].Present?
      then items[DigitsValue(key)].value
      else Undefined
    case _ => Undefined
  }

  /**
   * An array has an entry only at a canonical index inside it whose slot
   * is present; a hole, an index past the end or any other key reads nothing.
   */
  lemma LookupInArray(acc: Value, key: string)
    requires acc.List?
    ensures Lookup(acc, key) != Undefined ==>
      IsIndexKey(key) && DigitsValue(key) < |acc.items| && acc.items[DigitsValue(key)] == Present(Lookup(acc, key))
    ensures IsIndexKey(key) && DigitsValue(key) < |acc.items| && acc.items[DigitsValue(key)].Present? ==>
      Lookup(acc, key) == acc.items[DigitsValue(key)].value
    ensures !IsIndexKey(key) || DigitsValue(key) >= |acc.items| || acc.items[DigitsValue(key)] == Hole ==>
      Lookup(acc, key) == Undefined
  {
  }

  /** A value with an entry at `key` is an array or an object. */
  lemma LookupOnlyInContainers(acc: Value, key: string)
    requires Lookup(acc, key) != Undefined
    ensures IsObject(acc)
  {
  }

  /** `acc[key] = x` at an entry the walk has already found. */
  function Store(acc: Value, key: string, x: Value): (r: Value)
    requires Lookup(acc, key) != Undefined
    ensures Lookup(r, key) == x
    ensures forall k :: k != key ==> Lookup(r, k) == Lookup(acc, k)
    ensures acc.List? ==> r.List? && |r.items| == |acc.items|
    ensures acc.List? ==> r.items[DigitsValue(key)] == Present(x)
    ensures acc.List? ==> forall j | 0 <= j < |acc.items| && j != DigitsValue(key) :: r.items[j] == acc.items[j]
    ensures acc.Obj? ==> r.Obj? && r.fields.Keys == acc.fields.Keys
  {
    match acc
    case Obj(m) => Obj(m[key := x])
    case List(items) =>
      var r := List(items[DigitsValue(key) := Present(x)]);
      assert forall k :: k != key ==> Lookup(r, k) == Lookup(acc, k) by {
        forall k | k != key ensures Lookup(r, k) == Lookup(acc, k) {
          if IsIndexKey(k) && DigitsValue(k) == DigitsValue(key) {
            IndexKeyInjective(k, key);
          }
        }
      }
      r
  }

  /** A second write at the same entry overrides the first. */
  lemma StoreTwice(acc: Value, key: string, x: Value, y: Value)
    requires Lookup(acc, key) != Undefined && x != Undefined
    ensures Store(Store(acc, key, x), key, y) == Store(acc, key, y)
  {
  }

  /** Writing back what an entry already holds changes nothing. */
  lemma StoreSame(acc: Value, key: string)
    requires Lookup(acc, key) != Undefined
    ensures Store(acc, key, Lookup(acc, key)) == acc
  {
    if acc.List? {
      var i := DigitsValue(key);
      assert acc.items[i := Present(acc.items[i].value)] == acc.items;
    }
  }

  /**
   * `delete acc[key]` at an entry the walk has already found: an object
   * loses the key, an array gets a hole and keeps its length.
   */
  function Remove(acc: Value, key: string): (r: Value)
    requires Lookup(acc, key) != Undefined
    ensures Lookup(r, key) == Undefined
    ensures forall k :: k != key ==> Lookup(r, k) == Lookup(acc, k)
    ensures acc.List? ==> r.List? && |r.items| == |acc.items| && r.items[DigitsValue(key)] == Hole
    ensures acc.List? ==> forall j | 0 <= j < |acc.items| && j != DigitsValue(key) :: r.items[j] == acc.items[j]
    ensures acc.Obj? ==> r.Obj? && r.fields.Keys == acc.fields.Keys - {key}
  {
    match acc
    case Obj(m) => Obj(m - {key})
    case List(items) =>
      var r := List(items[DigitsValue(key) := Hole]);
      assert forall k :: k != key ==> Lookup(r, k) == Lookup(acc, k) by {
        forall k | k != key ensures Lookup(r, k) == Lookup(acc, k) {
          if IsIndexKey(k) && DigitsValue(k) == DigitsValue(key) {
            IndexKeyInjective(k, key);
          }
        }
      }
      r
  }

  /** The names of the present elements of an array. */
  function PresentKeys(items: seq<Slot>): set<string> {
    set n | 0 <= n < |items| && items[n].Present? :: IndexKey(n)
  }

  /**
   * The own enumerable entries that `{ ...v }` copies: every own key of an
   * object and every present element of an array under its index name,
   * those holding `Undefined` included; nothing for a primitive.
   */
  function Entries(v: Value): (r: map<string, Value>)
    ensures v.Obj? ==> r.Keys == v.fields.Keys
    ensures v.List? ==> r.Keys == PresentKeys(v.items)
    ensures !IsObject(v) ==> r == map[]
    ensures forall k :: k in r ==> r[k] == Lookup(v, k)
    ensures forall k :: Lookup(v, k) != Undefined ==> k in r
  {
    match v
    case List(items) =>
      var r := map k | k in PresentKeys(items) :: Lookup(v, k);
      assert forall k :: Lookup(v, k) != Undefined ==> k in r by {
        forall k | Lookup(v, k) != Undefined ensures k in r {
          IndexKeyCanonical(k);
        }
      }
      r
    case Obj(m) => m
    case _ => map[]
  }

  /**
   * `{ ...target, ...value }` with a non-object target first replaced by
   * `{}`: always an object; `value`'s entries win, the rest come from the
   * target.
   */
  function Merged(target: Value, value: Value): (r: Value)
    ensures r.Obj?
    ensures r.fields.Keys == Entries(target).Keys + Entries(value).Keys
    ensures forall k :: k in Entries(value) ==> Lookup(r, k) == Lookup(value, k)
    ensures forall k :: k !in Entries(value) ==> Lookup(r, k) == Lookup(target, k)
  {
    var base := if IsObject(target) then target else Obj(map[]);
    Obj(Entries(base) + Entries(value))
  }

  /**
   * No array anywhere in `v` ends in a hole: the shape `cloneDeep` always
   * produces.
   */
  predicate Tidy(v: Value) {
    match v
    case List(items) =>
      (items == [] || items[|items| - 1].Present?)
      && forall i | 0 <= i < |items| :: items[i].Present? ==> Tidy(items[i].value)
    case Obj(m) => forall k | k in m :: Tidy(m[k])
    case _ => true
  }

  /** Every entry of a tidy value is tidy. */
  lemma TidyLookup(v: Value, key: string)
    requires Tidy(v)
    ensures Tidy(Lookup(v, key))
  {
  }
}
