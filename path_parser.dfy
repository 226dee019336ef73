/**
 * `ImmutableUpdater.parsePath`: a path such as `a.b[0].c` is cut into the
 * maximal runs of characters other than `.`, `[` and `]`.  Brackets are
 * not matched; separators only end segments.
 */
module PathParser {
  import opened Wrappers
  import opened JsValue

  /** What a call can throw, with the key prefix a missing path names. */
  datatype Error =
    | InvalidPath
    | NotFound(prefix: seq<string>)
    | NotAnObject

  predicate IsSeparator(c: char) {
    c == '.' || c == '[' || c == ']'
  }

  predicate NoSeparator(s: string) {
    forall i | 0 <= i < |s| :: !IsSeparator(s[i])
  }

  /** A key `parsePath` can produce. */
  predicate IsSegment(s: string) {
    |s| > 0 && NoSeparator(s)
  }

  /** The run read so far, as the segments it contributes. */
  function Flush(run: string): seq<string> {
    if run == [] then [] else [run]
  }

  /**
   * The left-to-right scan behind `path.match(/[^.[\]]+/g) || []`: `run`
   * holds the characters of the segment being read.
   */
  function Scan(s: string, run: string): seq<string>
    decreases |s|
  {
    if s == [] then Flush(run)
    else if IsSeparator(s[0]) then Flush(run) + Scan(s[1..], [])
    else Scan(s[1..], run + [s[0]])
  }

  /** The keys `path.match(/[^.[\]]+/g) || []` gives. */
  function Segments(path: string): (r: seq<string>)
    ensures forall i | 0 <= i < |r| :: IsSegment(r[i])
    ensures Concat(r) == Strip(path)
  {
    ScanYieldsSegments(path, []);
    ScanKeepsCharacters(path, []);
    Scan(path, [])
  }

  /** `s` without its separators. */
  function Strip(s: string): string
    decreases |s|
  {
    if s == [] then []
    else (if IsSeparator(s[0]) then [] else [s[0]]) + Strip(s[1..])
  }

  function Concat(ss: seq<string>): string
    decreases |ss|
  {
    if ss == [] then [] else ss[0] + Concat(ss[1..])
  }

  /** A reference reading of the same rule: split at every separator. */
  function Pieces(s: string): (r: seq<string>)
    ensures |r| > 0
    decreases |s|
  {
    if s == [] then [[]]
    else
      var p := Pieces(s[1..]);
      if IsSeparator(s[0]) then [[]] + p else [[s[0]] + p[0]] + p[1..]
  }

  /** The non-empty strings of `ss`, in order. */
  function NonEmpty(ss: seq<string>): seq<string>
    decreases |ss|
  {
    if ss == [] then [] else (if ss[0] == [] then [] else [ss[0]]) + NonEmpty(ss[1..])
  }

  lemma {:induction false} NonEmptyAppend(a: seq<string>, b: seq<string>)
    ensures NonEmpty(a + b) == NonEmpty(a) + NonEmpty(b)
    decreases |a|
  {
    if a != [] {
      assert (a + b)[1..] == a[1..] + b;
      NonEmptyAppend(a[1..], b);
    } else {
      assert a + b == b;
    }
  }

  lemma {:induction false} ConcatAppend(a: seq<string>, b: seq<string>)
    ensures Concat(a + b) == Concat(a) + Concat(b)
    decreases |a|
  {
    if a != [] {
      assert (a + b)[1..] == a[1..] + b;
      ConcatAppend(a[1..], b);
    } else {
      assert a + b == b;
    }
  }

  /** Every segment is non-empty and holds no separator. */
  lemma {:induction false} ScanYieldsSegments(s: string, run: string)
    requires NoSeparator(run)
    ensures forall i | 0 <= i < |Scan(s, run)| :: IsSegment(Scan(s, run)[i])
    decreases |s|
  {
    if s != [] {
      if IsSeparator(s[0]) {
        ScanYieldsSegments(s[1..], []);
      } else {
        ScanYieldsSegments(s[1..], run + [s[0]]);
      }
    }
  }

  /** The segments, put back together, are the path without its separators. */
  lemma {:induction false} ScanKeepsCharacters(s: string, run: string)
    ensures Concat(Scan(s, run)) == run + Strip(s)
    decreases |s|
  {
    if s == [] {
      assert run + Strip(s) == run;
    } else if IsSeparator(s[0]) {
      ScanKeepsCharacters(s[1..], []);
      ConcatAppend(Flush(run), Scan(s[1..], []));
      assert Concat(Flush(run)) == run;
      assert Strip(s) == Strip(s[1..]);
    } else {
      ScanKeepsCharacters(s[1..], run + [s[0]]);
      assert Strip(s) == [s[0]] + Strip(s[1..]);
      assert run + [s[0]] + Strip(s[1..]) == run + Strip(s);
    }
  }

  /** The scan finds exactly the non-empty pieces between separators. */
  lemma {:induction false} ScanIsMaximalRuns(s: string, run: string)
    ensures Scan(s, run) == NonEmpty([run + Pieces(s)[0]] + Pieces(s)[1..])
    decreases |s|
  {
    if s == [] {
      assert run + [] == run;
    } else {
      var p := Pieces(s[1..]);
      if IsSeparator(s[0]) {
        ScanIsMaximalRuns(s[1..], []);
        var q: string := p[0];
        assert [] + q == q;
        assert [q] + p[1..] == p;
        NonEmptyAppend([run], p);
        assert Pieces(s) == [[]] + p;
        assert run + [] == run;
        assert [run + Pieces(s)[0]] + Pieces(s)[1..] == [run] + p;
      } else {
        ScanIsMaximalRuns(s[1..], run + [s[0]]);
        assert run + [s[0]] + p[0] == run + ([s[0]] + p[0]);
      }
    }
  }

  /** `parsePath`, with the argument check every entry point starts with. */
  function ParsePath(path: Value): (r: Result<seq<string>, Error>)
    ensures r.Failure? <==> !path.Str? || path.s == []
    ensures r.Failure? ==> r.error == InvalidPath
    ensures r.Success? ==> forall i | 0 <= i < |r.value| :: IsSegment(r.value[i])
    ensures r.Success? ==> Concat(r.value) == Strip(path.s)
  {
    if !path.Str? || path.s == [] then Failure(InvalidPath)
    else
      ScanYieldsSegments(path.s, []);
      ScanKeepsCharacters(path.s, []);
      Success(Segments(path.s))
  }

  /** A path made only of separators has no segments. */
  lemma SeparatorsOnly(s: string)
    requires Strip(s) == []
    ensures Segments(s) == []
  {
    ScanYieldsSegments(s, []);
    ScanKeepsCharacters(s, []);
  }

  /** Keys joined with `.`, as the error message quotes them. */
  function Join(keys: seq<string>): string
    decreases |keys|
  {
    if keys == [] then []
    else if |keys| == 1 then keys[0]
    else keys[0] + "." + Join(keys[1..])
  }

  lemma {:induction false} ScanThrough(k: string, rest: string, run: string)
    requires NoSeparator(k)
    ensures Scan(k + rest, run) == Scan(rest, run + k)
    decreases |k|
  {
    if k == [] {
      assert k + rest == rest && run + k == run;
    } else {
      assert (k + rest)[1..] == k[1..] + rest;
      ScanThrough(k[1..], rest, run + [k[0]]);
      assert run + [k[0]] + k[1..] == run + k;
    }
  }

  /** The prefix quoted in an error parses back to the keys it names. */
  lemma {:induction false} ParseJoin(keys: seq<string>)
    requires keys != []
    requires forall i | 0 <= i < |keys| :: IsSegment(keys[i])
    ensures Segments(Join(keys)) == keys
    decreases |keys|
  {
    ScanThrough(keys[0], if |keys| == 1 then [] else "." + Join(keys[1..]), []);
    if |keys| == 1 {
      assert keys[0] + [] == keys[0] && [] + keys[0] == keys[0];
      assert Join(keys) == keys[0];
    } else {
      var tail := "." + Join(keys[1..]);
      assert Join(keys) == keys[0] + tail;
      assert [] + keys[0] == keys[0];
      assert tail[0] == '.' && tail[1..] == Join(keys[1..]);
      ParseJoin(keys[1..]);
      assert Scan(tail, keys[0]) == [keys[0]] + Scan(Join(keys[1..]), []);
      assert [keys[0]] + keys[1..] == keys;
    }
  }

  /** The message each error is thrown with. */
  function Message(e: Error): (r: string)
    ensures e.NotFound? ==> 23 <= |r| && r[..6] == "Path '" && r[|r| - 17..] == "' does not exist."
    ensures e.NotFound? && e.prefix != [] && (forall i | 0 <= i < |e.prefix| :: IsSegment(e.prefix[i]))
      ==> Segments(r[6..|r| - 17]) == e.prefix
    ensures !e.NotFound? ==> !(23 <= |r| && r[..6] == "Path '" && r[|r| - 17..] == "' does not exist.")
  {
    match e
    case InvalidPath => "Path must be a non-empty string."
    case NotFound(prefix) =>
      var r := "Path '" + Join(prefix) + "' does not exist.";
      assert r[6..|r| - 17] == Join(prefix);
      if prefix != [] && (forall i | 0 <= i < |prefix| :: IsSegment(prefix[i])) then
        ParseJoin(prefix);
        r
      else r
    case NotAnObject => "Value must be an object."
  }
}
