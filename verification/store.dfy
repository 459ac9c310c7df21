/**
  Bucket files (_persist_rw_curr_results, _persist_write and
  _persist_write_if_necessary in persist_to_disk/persister.py): a bucket
  maps cache keys to results; reading repairs a missing or unreadable
  bucket, writing sets one key; a miss computes the wrapped function
  outside any bucket access and then writes.
 */
module CacheStore {
  import opened Values
  import opened Utils
  import opened BucketLocator

  type Bucket = map<Key, Value>

  /** One invocation of the wrapped function: positional arguments and
      keywords. */
  type Invocation = (seq<Value>, Kwargs)

  /** The wrapped function: its result, or None when it raises. */
  type Wrapped = (seq<Value>, Kwargs) -> Option<Value>

  /** What reading a bucket file yields: its map, or {} when the file is
      missing or cannot be unpickled. */
  function Stored(pickles: map<string, PickleFile>, path: string): (r: Bucket)
    ensures r != map[] ==> path in pickles && pickles[path] == Bucket(r)
  {
    if path in pickles && pickles[path].Bucket? then pickles[path].entries else map[]
  }

  /** The bucket files after a read: a missing or unreadable bucket is
      rewritten as {}; what any bucket holds is unchanged. */
  function Normalised(pickles: map<string, PickleFile>, path: string): (r: map<string, PickleFile>)
    ensures path in r && r[path].Bucket?
    ensures forall q :: Stored(r, q) == Stored(pickles, q)
    ensures forall q :: q != path ==> (q in r <==> q in pickles) && (q in r ==> r[q] == pickles[q])
  {
    if path in pickles && pickles[path].Bucket? then pickles else pickles[path := Bucket(map[])]
  }

  /** The bucket files after key is set to v in the bucket at path. */
  function StoreEntry(pickles: map<string, PickleFile>, path: string, key: Key, v: Value): (r: map<string, PickleFile>)
    ensures Stored(r, path) == Stored(pickles, path)[key := v]
    ensures forall q :: q != path ==> (q in r <==> q in pickles) && (q in r ==> r[q] == pickles[q])
  {
    pickles[path := Bucket(Stored(pickles, path)[key := v])]
  }

  /** Whether Python can hash the key tuple: a dict among the values
      makes it unhashable, and then every `key in res` and
      `res[key] = v` raises TypeError. */
  predicate Hashable(key: Key)
  {
    forall i :: 0 <= i < |key| ==> !key[i].1.Dict?
  }

  /** _persist_rw_curr_results: reads the bucket (an unreadable or missing
      one becomes {} and is written back), sets the write key when there
      is one and writes the bucket back, and returns the bucket; setting
      an unhashable key raises after the repair and writes nothing. */
  method PersistRw(fs: FileSystem, path: string, write: Option<(Key, Value)>) returns (res: Result<Bucket>)
    modifies fs
    ensures write.None? ==> res == Ok(Stored(old(fs.pickles), path)) && fs.pickles == Normalised(old(fs.pickles), path)
    ensures write.Some? && Hashable(write.value.0) ==>
      res == Ok(Stored(old(fs.pickles), path)[write.value.0 := write.value.1]) &&
      fs.pickles == StoreEntry(old(fs.pickles), path, write.value.0, write.value.1)
    ensures write.Some? && !Hashable(write.value.0) ==>
      res == Err(Unhashable) && fs.pickles == Normalised(old(fs.pickles), path)
    ensures res.Ok? ==> Stored(fs.pickles, path) == res.value
    ensures res.Err? ==> forall q :: Stored(fs.pickles, q) == Stored(old(fs.pickles), q)
    ensures fs.dirs == old(fs.dirs) && fs.tables == old(fs.tables)
  {
    var bucket: Bucket;
    if path in fs.pickles && fs.pickles[path].Bucket? {
      bucket := fs.pickles[path].entries;
    } else {
      bucket := map[];
      fs.pickles := fs.pickles[path := Bucket(bucket)];
    }
    if write.Some? {
      if !Hashable(write.value.0) {
        return Err(Unhashable);
      }
      bucket := bucket[write.value.0 := write.value.1];
      fs.pickles := fs.pickles[path := Bucket(bucket)];
    }
    res := Ok(bucket);
  }

  /** What a call leads to: its result, the invocations of the wrapped
      function, and the directories and bucket files afterwards. */
  datatype Outcome = Outcome(
    result: Result<Value>,
    calls: seq<Invocation>,
    dirs: set<string>,
    pickles: map<string, PickleFile>)

  /** _persist_write: with alternative roots it raises before computing;
      otherwise it calls the function once and, when that returns, stores
      the value under the key; a raising function stores nothing, and an
      unhashable key raises once the bucket has been read (and repaired). */
  function WriteOutcome(dirs: set<string>, pickles: map<string, PickleFile>, loc: Location, f: Wrapped,
                        inv: Invocation, altRoots: bool): (o: Outcome)
    ensures o.dirs == dirs
    ensures o.calls == (if altRoots then [] else [inv])
    ensures o.result.Ok? <==> !altRoots && f(inv.0, inv.1).Some? && Hashable(loc.key)
    ensures o.result.Ok? ==> o.result.value == f(inv.0, inv.1).value
    ensures o.result.Ok? ==> Stored(o.pickles, loc.path) == Stored(pickles, loc.path)[loc.key := o.result.value]
    ensures o.result.Err? && o.result != Err(Unhashable) ==> o.pickles == pickles
    ensures o.result.Err? ==> forall q :: Stored(o.pickles, q) == Stored(pickles, q)
    ensures forall q :: q != loc.path ==> Stored(o.pickles, q) == Stored(pickles, q)
  {
    if altRoots then Outcome(Err(AltRootsUnsupported), [], dirs, pickles)
    else match f(inv.0, inv.1)
      case None => Outcome(Err(ComputationFailed), [inv], dirs, pickles)
      case Some(v) =>
        if Hashable(loc.key) then Outcome(Ok(v), [inv], dirs, StoreEntry(pickles, loc.path, loc.key, v))
        else Outcome(Err(Unhashable), [inv], dirs, Normalised(pickles, loc.path))
  }

  /** _persist_write_if_necessary: one read of the bucket (which repairs
      it); looking an unhashable key up raises; a stored key answers
      without computing; in read-only mode a miss fails; otherwise the
      value is computed and written. */
  function WriteIfNecessaryOutcome(dirs: set<string>, pickles: map<string, PickleFile>, loc: Location, f: Wrapped,
                                   inv: Invocation, readonly: bool, altRoots: bool): (o: Outcome)
    ensures o.dirs == dirs
    ensures !Hashable(loc.key) ==> o.result == Err(Unhashable) && o.calls == []
    ensures Hashable(loc.key) && loc.key in Stored(pickles, loc.path) ==>
      o.result == Ok(Stored(pickles, loc.path)[loc.key]) && o.calls == []
    ensures o.calls != [] ==>
      Hashable(loc.key) && loc.key !in Stored(pickles, loc.path) && !readonly && o.calls == [inv]
    ensures o.result.Ok? ==> Hashable(loc.key)
    ensures o.result.Ok? ==> loc.key in Stored(o.pickles, loc.path) && Stored(o.pickles, loc.path)[loc.key] == o.result.value
    ensures o.result.Err? ==> forall q :: Stored(o.pickles, q) == Stored(pickles, q)
    ensures forall q :: q != loc.path ==> Stored(o.pickles, q) == Stored(pickles, q)
  {
    var stored := Stored(pickles, loc.path);
    var repaired := Normalised(pickles, loc.path);
    if !Hashable(loc.key) then Outcome(Err(Unhashable), [], dirs, repaired)
    else if loc.key in stored then Outcome(Ok(stored[loc.key]), [], dirs, repaired)
    else if readonly then Outcome(Err(ReadonlyMiss), [], dirs, repaired)
    else WriteOutcome(dirs, repaired, loc, f, inv, altRoots)
  }

  method PersistWrite(fs: FileSystem, loc: Location, f: Wrapped, inv: Invocation, altRoots: bool)
    returns (r: Result<Value>, calls: seq<Invocation>)
    modifies fs
    ensures Outcome(r, calls, fs.dirs, fs.pickles) == WriteOutcome(old(fs.dirs), old(fs.pickles), loc, f, inv, altRoots)
    ensures fs.tables == old(fs.tables)
  {
    if altRoots {
      return Err(AltRootsUnsupported), [];
    }
    var out := f(inv.0, inv.1);
    calls := [inv];
    if out.None? {
      return Err(ComputationFailed), calls;
    }
    var written := PersistRw(fs, loc.path, Some((loc.key, out.value)));
    r := if written.Ok? then Ok(out.value) else Err(written.error);
  }

  method PersistWriteIfNecessary(fs: FileSystem, loc: Location, f: Wrapped, inv: Invocation,
                                 readonly: bool, altRoots: bool)
    returns (r: Result<Value>, calls: seq<Invocation>)
    modifies fs
    ensures Outcome(r, calls, fs.dirs, fs.pickles) ==
      WriteIfNecessaryOutcome(old(fs.dirs), old(fs.pickles), loc, f, inv, readonly, altRoots)
    ensures fs.tables == old(fs.tables)
  {
    var res := PersistRw(fs, loc.path, None);
    if !Hashable(loc.key) {
      return Err(Unhashable), [];
    }
    if loc.key in res.value {
      return Ok(res.value[loc.key]), [];
    }
    if readonly {
      return Err(ReadonlyMiss), [];
    }
    r, calls := PersistWrite(fs, loc, f, inv, altRoots);
  }
}
