/**
 * `ImmutableUpdater.get`: a left fold over the keys that stops at the
 * first missing or falsy value and yields `Undefined` from then on.
 */
module Reads {
  import opened JsValue
  import opened DeepClone

  /** One step of the fold: `acc && acc[key] !== undefined ? acc[key] : undefined`. */
  function ReadStep(acc: Value, key: string): (r: Value)
    ensures r == Lookup(acc, key)
  {
    if Truthy(acc) && Lookup(acc, key) != Undefined then Lookup(acc, key) else Undefined
  }

  /** The value reached from `v` by following `keys`; `v` itself for no keys. */
  function GetIn(v: Value, keys: seq<string>): (r: Value)
    ensures keys == [] ==> r == v
    ensures v == Undefined ==> r == Undefined
    decreases |keys|
  {
    if keys == [] then v else GetIn(ReadStep(v, keys[0]), keys[1..])
  }

  /** Following `a + b` is following `a`, then `b`. */
  lemma {:induction false} GetAppend(v: Value, a: seq<string>, b: seq<string>)
    ensures GetIn(v, a + b) == GetIn(GetIn(v, a), b)
    decreases |a|
  {
    if a == [] {
      assert a + b == b;
    } else {
      assert (a + b)[0] == a[0] && (a + b)[1..] == a[1..] + b;
      GetAppend(ReadStep(v, a[0]), a[1..], b);
    }
  }

  /** The last key of a path is read in the container its other keys reach. */
  lemma GetLast(v: Value, keys: seq<string>)
    requires keys != []
    ensures GetIn(v, keys) == Lookup(GetIn(v, keys[..|keys| - 1]), keys[|keys| - 1])
  {
    var n := |keys|;
    assert keys == keys[..n - 1] + [keys[n - 1]];
    GetAppend(v, keys[..n - 1], [keys[n - 1]]);
  }

  /** A path that reads something reads something at each of its prefixes. */
  lemma GetPrefixDefined(v: Value, keys: seq<string>, j: nat)
    requires j <= |keys| && GetIn(v, keys) != Undefined
    ensures GetIn(v, keys[..j]) != Undefined
  {
    assert keys == keys[..j] + keys[j..];
    GetAppend(v, keys[..j], keys[j..]);
  }

  /** Reading through a copy gives the copy of what the original reads. */
  lemma {:induction false} GetClone(v: Value, keys: seq<string>)
    ensures GetIn(Clone(v), keys) == Clone(GetIn(v, keys))
    decreases |keys|
  {
    if keys != [] {
      LookupClone(v, keys[0]);
      GetClone(Lookup(v, keys[0]), keys[1..]);
    }
  }

  /** Everything read from a tidy value is tidy. */
  lemma {:induction false} GetTidy(v: Value, keys: seq<string>)
    requires Tidy(v)
    ensures Tidy(GetIn(v, keys))
    decreases |keys|
  {
    if keys != [] {
      TidyLookup(v, keys[0]);
      GetTidy(Lookup(v, keys[0]), keys[1..]);
    }
  }

  /** Reading `keys[i..m]` is one lookup, then reading `keys[i + 1..m]`. */
  lemma GetSlice(v: Value, keys: seq<string>, i: nat, m: nat)
    requires i < m <= |keys|
    ensures GetIn(v, keys[i..m]) == GetIn(Lookup(v, keys[i]), keys[i + 1..m])
  {
    assert keys[i..m][0] == keys[i] && keys[i..m][1..] == keys[i + 1..m];
  }
}
