/**
  The values that flow through the persister: call arguments, cache keys,
  results, and the failures the Python code raises as exceptions.
 */
module Values {

  datatype Option<+T> = None | Some(value: T)

  /** An argument value: an int, a string or a dict. A dict is the only
      value the key builder looks inside, and the only one that makes a
      key unhashable. */
  datatype Value =
    | Int(i: int)
    | Str(s: string)
    | Dict(entries: map<string, Value>)

  /** A keyword-argument dict: argument name to value. */
  type Kwargs = map<string, Value>

  /** A cache key: the (name, value) pairs of the normalised arguments,
      sorted by name. */
  type Key = seq<(string, Value)>

  /** The exceptions the core raises, one constructor per cause. */
  datatype Error =
    | VarargsUnsupported          // assertion: the wrapped function declares *args
    | TooManyPositional           // IndexError: more positional arguments than parameters
    | BadSwitch                   // int() cannot convert the per-call switch value
    | NotADict(name: string)      // an expand target is not a dict (no .items())
    | MissingGroupby(name: string) // KeyError: a groupby name is not among the arguments
    | TooDeep                     // assertion in make_dir_if_necessary
    | ZeroDivision                // hash(key) % 0
    | ReadonlyMiss                // assertion: READONLY call whose key is not cached
    | AltRootsUnsupported         // NotImplementedError for alternative roots
    | ComputationFailed           // the wrapped function raised
    | Unhashable                  // TypeError: the cache key holds a dict
    | DuplicateSpecial            // assertion in _check_arguments
    | NotAPyFile                  // assertion: the source path does not end in .py
    | NotUnderProject             // assertion: the project path does not occur in it

  datatype Result<+T> = Ok(value: T) | Err(error: Error)

  /** No element occurs twice. */
  predicate Distinct<T(==)>(s: seq<T>)
  {
    forall i, j :: 0 <= i < j < |s| ==> s[i] != s[j]
  }

  /** set(s). */
  function Elems<T>(s: seq<T>): set<T>
  {
    set x | x in s
  }

  /** len(set(s)) == len(s) is the distinctness test: a set built from a
      sequence is never larger, and as large only without repetitions. */
  lemma {:induction false} DistinctElems<T>(s: seq<T>)
    ensures |Elems(s)| <= |s|
    ensures |Elems(s)| == |s| <==> Distinct(s)
    decreases |s|
  {
    if s != [] {
      var init := s[..|s| - 1];
      var x := s[|s| - 1];
      DistinctElems(init);
      assert s == init + [x];
      assert Elems(s) == Elems(init) + {x};
      if x in init {
        var i :| 0 <= i < |init| && init[i] == x;
        assert s[i] == s[|s| - 1];
      } else {
        assert Distinct(s) <==> Distinct(init) by {
          if Distinct(init) {
            forall i, j | 0 <= i < j < |s| ensures s[i] != s[j] {
              if j == |s| - 1 { assert s[i] == init[i]; }
            }
          }
        }
      }
    }
  }
}
