/**
  Bucket location (_get_hashed_path_and_key in persist_to_disk/persister.py):
  the groupby arguments become directories under the function's cache
  directory, the remaining arguments sorted by name become the cache key,
  and the key's hash modulo hashsize names the bucket file.
 */
module BucketLocator {
  import opened Values
  import opened Text
  import opened OsPath
  import opened Utils

  /** One groupby entry: an argument name, or a tuple of names whose
      values share one directory level. */
  datatype GroupEntry = Name(name: string) | Names(names: seq<string>)

  /** The collaborators key building calls but does not define: the md5
      digest of the pickled key read as an integer, and str() of a dict. */
  datatype Env = Env(hash: Key -> nat, dictStr: Kwargs -> string)

  /** Where a call's result lives: the bucket file and the key inside it. */
  datatype Location = Location(path: string, key: Key)

  /** str(v). */
  function Render(env: Env, v: Value): (r: string)
    ensures v.Str? ==> r == v.s
    ensures v.Int? ==> ParseInt(r) == Some(v.i)
  {
    match v
    case Int(i) => ParseIntToString(i); IntToString(i)
    case Str(s) => s
    case Dict(m) => env.dictStr(m)
  }

  function RenderAll(env: Env, vals: seq<Value>): seq<string>
  {
    seq(|vals|, i requires 0 <= i < |vals| => Render(env, vals[i]))
  }

  function EntryNames(e: GroupEntry): seq<string>
  {
    match e
    case Name(n) => [n]
    case Names(ns) => ns
  }

  /** Every argument name groupby pops, in order. */
  function FlatNames(groupby: seq<GroupEntry>): seq<string>
    decreases |groupby|
  {
    if groupby == [] then [] else EntryNames(groupby[0]) + FlatNames(groupby[1..])
  }

  /** full_kwargs.pop(n) for each n in turn: the popped values and what is
      left, or the KeyError of the first name no longer present. */
  function PopAll(m: Kwargs, names: seq<string>): (r: Result<(seq<Value>, Kwargs)>)
    ensures r.Ok? ==> |r.value.0| == |names|
    ensures r.Err? ==> r.error.MissingGroupby? && r.error.name in names
    decreases |names|
  {
    if names == [] then Ok(([], m))
    else if names[0] !in m then Err(MissingGroupby(names[0]))
    else match PopAll(m - {names[0]}, names[1..])
      case Err(e) => Err(e)
      case Ok(popped) => Ok(([m[names[0]]] + popped.0, popped.1))
  }

  /** Popping succeeds exactly when the names are distinct and all present;
      it then yields their values in order and removes exactly them. */
  lemma {:induction false} PopAllSpec(m: Kwargs, names: seq<string>)
    ensures PopAll(m, names).Ok? <==> Distinct(names) && forall i :: 0 <= i < |names| ==> names[i] in m
    ensures PopAll(m, names).Err? ==> PopAll(m, names).error.MissingGroupby?
    ensures PopAll(m, names).Ok? ==>
      var (vals, rest) := PopAll(m, names).value;
      && |vals| == |names|
      && (forall i :: 0 <= i < |names| ==> vals[i] == m[names[i]])
      && rest == m - Elems(names)
    decreases |names|
  {
    if names != [] {
      var k := names[0];
      var tail := names[1..];
      PopAllSpec(m - {k}, tail);
      assert forall i :: 0 <= i < |tail| ==> tail[i] == names[i + 1];
      if k in m {
        if PopAll(m, names).Ok? {
          assert Elems(names) == {k} + Elems(tail);
          assert (m - {k}) - Elems(tail) == m - Elems(names);
        }
        if Distinct(names) && forall i :: 0 <= i < |names| ==> names[i] in m {
          forall i | 0 <= i < |tail| ensures tail[i] in m - {k} {
            assert names[0] != names[i + 1];
          }
        }
        if !Distinct(names) && Distinct(tail) {
          var i, j :| 0 <= i < j < |names| && names[i] == names[j];
          assert i == 0;
          assert tail[j - 1] !in m - {k};
        }
      }
    }
  }

  /** The directory level one groupby entry contributes: str of the value,
      or the values' strs joined by "$$" for a tuple. */
  function Segment(env: Env, e: GroupEntry, vals: seq<Value>): (r: string)
    ensures |vals| == 1 ==> r == Render(env, vals[0])
  {
    if e.Name? && |vals| == 1 then Render(env, vals[0]) else JoinWith("$$", RenderAll(env, vals))
  }

  /** The groupby loop: the directory segments in groupby order and the
      arguments that remain. */
  function GroupDirs(env: Env, m: Kwargs, groupby: seq<GroupEntry>): (r: Result<(seq<string>, Kwargs)>)
    ensures r.Ok? ==> |r.value.0| == |groupby|
    ensures r.Err? ==> r.error.MissingGroupby?
    decreases |groupby|
  {
    if groupby == [] then Ok(([], m))
    else match PopAll(m, EntryNames(groupby[0]))
      case Err(e) => Err(e)
      case Ok(popped) =>
        match GroupDirs(env, popped.1, groupby[1..])
        case Err(e) => Err(e)
        case Ok(grouped) => Ok(([Segment(env, groupby[0], popped.0)] + grouped.0, grouped.1))
  }

  /** The value of a name, for stating segments (every name looked up is
      present where it is used). */
  function Lookup(m: Kwargs, n: string): Value
  {
    if n in m then m[n] else Str("")
  }

  function Lookups(m: Kwargs, names: seq<string>): (r: seq<Value>)
    ensures |r| == |names| && forall i :: 0 <= i < |names| ==> r[i] == Lookup(m, names[i])
  {
    seq(|names|, i requires 0 <= i < |names| => Lookup(m, names[i]))
  }

  /** The groupby loop succeeds exactly when the popped names are
      distinct and all present; otherwise it raises KeyError. */
  lemma {:induction false} GroupDirsOk(env: Env, m: Kwargs, groupby: seq<GroupEntry>)
    ensures GroupDirs(env, m, groupby).Ok? <==>
      Distinct(FlatNames(groupby)) && forall n :: n in FlatNames(groupby) ==> n in m
    ensures GroupDirs(env, m, groupby).Err? ==> GroupDirs(env, m, groupby).error.MissingGroupby?
    decreases |groupby|
  {
    if groupby != [] {
      var names := EntryNames(groupby[0]);
      var tail := groupby[1..];
      var flat := FlatNames(groupby);
      assert flat == names + FlatNames(tail);
      PopAllSpec(m, names);
      DistinctConcat(names, FlatNames(tail));
      if PopAll(m, names).Ok? {
        var m' := PopAll(m, names).value.1;
        GroupDirsOk(env, m', tail);
        assert forall n :: n in FlatNames(tail) ==> (n in m' <==> n in m && n !in names);
      } else if Distinct(names) {
        var i :| 0 <= i < |names| && names[i] !in m;
        assert names[i] in flat;
      }
    }
  }

  /** A successful groupby loop yields one segment per entry and removes
      exactly the popped names. */
  lemma {:induction false} GroupDirsRest(env: Env, m: Kwargs, groupby: seq<GroupEntry>)
    requires GroupDirs(env, m, groupby).Ok?
    ensures |GroupDirs(env, m, groupby).value.0| == |groupby|
    ensures GroupDirs(env, m, groupby).value.1 == m - Elems(FlatNames(groupby))
    decreases |groupby|
  {
    if groupby != [] {
      var names := EntryNames(groupby[0]);
      var tail := groupby[1..];
      PopAllSpec(m, names);
      var m' := PopAll(m, names).value.1;
      GroupDirsRest(env, m', tail);
      assert Elems(FlatNames(groupby)) == Elems(names) + Elems(FlatNames(tail));
    }
  }

  lemma LookupsAgree(m: Kwargs, m': Kwargs, names: seq<string>)
    requires forall n :: n in names ==> (n in m' <==> n in m) && (n in m' ==> m'[n] == m[n])
    ensures Lookups(m', names) == Lookups(m, names)
  {
  }

  /** Segment i of a successful groupby loop is made from the values that
      entry i names in the dict the loop started from. */
  lemma {:induction false} GroupDirsSegments(env: Env, m: Kwargs, groupby: seq<GroupEntry>)
    requires GroupDirs(env, m, groupby).Ok?
    ensures forall i :: 0 <= i < |groupby| && i < |GroupDirs(env, m, groupby).value.0| ==>
      GroupDirs(env, m, groupby).value.0[i] == Segment(env, groupby[i], Lookups(m, EntryNames(groupby[i])))
    decreases |groupby|
  {
    if groupby != [] {
      var names := EntryNames(groupby[0]);
      var tail := groupby[1..];
      PopAllSpec(m, names);
      var (vals, m') := PopAll(m, names).value;
      GroupDirsSegments(env, m', tail);
      GroupDirsOk(env, m, groupby);
      assert FlatNames(groupby) == names + FlatNames(tail);
      DistinctConcat(names, FlatNames(tail));
      assert vals == Lookups(m, names);
      var segs := GroupDirs(env, m, groupby).value.0;
      forall i | 1 <= i < |groupby| && i < |segs|
        ensures segs[i] == Segment(env, groupby[i], Lookups(m, EntryNames(groupby[i])))
      {
        var e := tail[i - 1];
        forall n | n in EntryNames(e) ensures (n in m' <==> n in m) && (n in m' ==> m'[n] == m[n]) {
          var j :| 0 <= j < |EntryNames(e)| && EntryNames(e)[j] == n;
          FlatNamesHas(tail, i - 1, j);
        }
        LookupsAgree(m, m', EntryNames(e));
      }
    }
  }

  lemma {:induction false} FlatNamesHas(groupby: seq<GroupEntry>, i: nat, j: nat)
    requires i < |groupby| && j < |EntryNames(groupby[i])|
    ensures EntryNames(groupby[i])[j] in FlatNames(groupby)
    decreases i
  {
    if i > 0 {
      FlatNamesHas(groupby[1..], i - 1, j);
    }
  }

  lemma DistinctConcat<T>(a: seq<T>, b: seq<T>)
    ensures Distinct(a + b) <==> Distinct(a) && Distinct(b) && forall x :: x in a ==> x !in b
  {
    if Distinct(a) && Distinct(b) && forall x :: x in a ==> x !in b {
      forall i, j | 0 <= i < j < |a + b| ensures (a + b)[i] != (a + b)[j] {
        if i < |a| && j >= |a| {
          assert (a + b)[i] in a && (a + b)[j] == b[j - |a|];
        }
      }
    }
    if Distinct(a + b) {
      forall i, j | 0 <= i < j < |a| ensures a[i] != a[j] {
        assert a[i] == (a + b)[i] && a[j] == (a + b)[j];
      }
      forall i, j | 0 <= i < j < |b| ensures b[i] != b[j] {
        assert b[i] == (a + b)[i + |a|] && b[j] == (a + b)[j + |a|];
      }
      forall x | x in a ensures x !in b {
        var i :| 0 <= i < |a| && a[i] == x;
        forall j | 0 <= j < |b| ensures b[j] != x {
          assert (a + b)[|a| + j] == b[j] && (a + b)[i] == a[i];
        }
      }
    }
  }

  /** key lists the items of m sorted strictly by name: what
      tuple(sorted(m.items(), key=name)) produces. */
  predicate Lists(key: Key, m: Kwargs)
  {
    && (forall i, j :: 0 <= i < j < |key| ==> Less(key[i].0, key[j].0))
    && (forall i :: 0 <= i < |key| ==> key[i].0 in m && m[key[i].0] == key[i].1)
    && (forall n :: n in m ==> exists i :: 0 <= i < |key| && key[i].0 == n)
  }

  lemma LeastUnique(s: set<string>)
    ensures forall a, b :: IsLeast(a, s) && IsLeast(b, s) ==> a == b
  {
    forall a, b | IsLeast(a, s) && IsLeast(b, s) ensures a == b {
      if a != b {
        LessAsymmetric(a, b);
      }
    }
  }

  /** The least name of a non-empty set. */
  function Least(s: set<string>): (k: string)
    requires s != {}
    ensures IsLeast(k, s)
  {
    LeastExists(s);
    LeastUnique(s);
    var k :| IsLeast(k, s);
    k
  }

  /** sorted(m.items()) by name. */
  function SortedItems(m: Kwargs): (key: Key)
    ensures Lists(key, m)
    decreases |m|
  {
    if m == map[] then []
    else
      var k := Least(m.Keys);
      ListsCons(m, k, SortedItems(m - {k}));
      [(k, m[k])] + SortedItems(m - {k})
  }

  lemma ListsCons(m: Kwargs, k: string, tail: Key)
    requires IsLeast(k, m.Keys) && Lists(tail, m - {k})
    ensures Lists([(k, m[k])] + tail, m)
  {
    var key := [(k, m[k])] + tail;
    forall i, j | 0 <= i < j < |key| ensures Less(key[i].0, key[j].0) {
      if i == 0 {
        assert key[j] == tail[j - 1];
      } else {
        assert key[i] == tail[i - 1] && key[j] == tail[j - 1];
      }
    }
    forall n | n in m ensures exists i :: 0 <= i < |key| && key[i].0 == n {
      if n != k {
        assert n in m - {k};
        var i :| 0 <= i < |tail| && tail[i].0 == n;
        assert key[i + 1].0 == n;
      } else {
        assert key[0].0 == n;
      }
    }
  }

  /** The first name of a sorted listing is the least name. */
  lemma ListsHead(a: Key, m: Kwargs)
    requires Lists(a, m) && a != []
    ensures IsLeast(a[0].0, m.Keys)
  {
    forall n | n in m && n != a[0].0 ensures Less(a[0].0, n) {
      var i :| 0 <= i < |a| && a[i].0 == n;
    }
  }

  /** There is only one sorted listing of a dict, so the key depends on
      the arguments' names and values and not on the order in which the
      dict was filled. */
  lemma {:induction false} ListingUnique(a: Key, b: Key, m: Kwargs)
    requires Lists(a, m) && Lists(b, m)
    ensures a == b
    decreases |a|
  {
    if a != [] {
      assert b != [] by { assert a[0].0 in m; }
      ListsHead(a, m);
      ListsHead(b, m);
      LeastUnique(m.Keys);
      ListsTail(a, m);
      ListsTail(b, m);
      ListingUnique(a[1..], b[1..], m - {a[0].0});
      assert a == [a[0]] + a[1..] && b == [b[0]] + b[1..];
    }
  }

  lemma ListsTail(a: Key, m: Kwargs)
    requires Lists(a, m) && a != []
    ensures Lists(a[1..], m - {a[0].0})
  {
    forall i | 1 <= i < |a| ensures a[i].0 != a[0].0 {
      LessIrreflexive(a[0].0);
    }
    forall n | n in m - {a[0].0} ensures exists i :: 0 <= i < |a[1..]| && a[1..][i].0 == n {
      var i :| 0 <= i < |a| && a[i].0 == n;
      assert a[1..][i - 1].0 == n;
    }
  }

  /** Python's (a // n, a % n) for n != 0: the quotient rounds toward
      minus infinity, so the remainder lies between 0 and n, on n's side
      of zero. */
  function PyDivMod(a: int, n: int): (qr: (int, int))
    requires n != 0
    ensures a == qr.0 * n + qr.1
    ensures n > 0 ==> 0 <= qr.1 < n
    ensures n < 0 ==> n < qr.1 <= 0
  {
    var q := a / n;
    if n > 0 || a % n == 0 then (q, a % n)
    else
      assert (q - 1) * n == q * n - n;
      (q - 1, a % n + n)
  }

  /** The whole of _get_hashed_path_and_key, with the directories that
      exist afterwards: make_dir_if_necessary runs (default depth 3)
      after the groupby loop and before the hash is taken modulo
      hashsize, so a zero hashsize fails after the directory exists. */
  function Locate(dirs: set<string>, env: Env, cacheDir: string, cleaned: Kwargs, hashsize: int,
                  groupby: seq<GroupEntry>): (r: (Result<Location>, set<string>))
    ensures dirs <= r.1
    ensures r.0.Err? ==> r.0.error.MissingGroupby? || r.0.error == TooDeep || r.0.error == ZeroDivision
    ensures r.0.Ok? ==> hashsize != 0 && EndsWith(r.0.value.path, ".pkl")
  {
    match GroupDirs(env, cleaned, groupby)
    case Err(e) => (Err(e), dirs)
    case Ok(grouped) =>
      var dir := JoinAll(cacheDir, grouped.0);
      match DirsAfter(dirs, dir, 3)
      case None => (Err(TooDeep), dirs)
      case Some(dirs') =>
        var key := SortedItems(grouped.1);
        if hashsize == 0 then (Err(ZeroDivision), dirs')
        else
          var name := IntToString(PyDivMod(env.hash(key), hashsize).1) + ".pkl";
          JoinKeeps(dir, name);
          assert EndsWith(name, ".pkl");
          (Ok(Location(Join(dir, name), key)), dirs')
  }

  /** The directory levels the groupby entries name, each made from the
      values its names have in m. */
  function GroupSegments(env: Env, m: Kwargs, groupby: seq<GroupEntry>): seq<string>
  {
    seq(|groupby|, i requires 0 <= i < |groupby| => Segment(env, groupby[i], Lookups(m, EntryNames(groupby[i]))))
  }

  /** A successful groupby loop yields exactly the segments its entries
      name. */
  lemma GroupDirsAre(env: Env, m: Kwargs, groupby: seq<GroupEntry>)
    requires GroupDirs(env, m, groupby).Ok?
    ensures GroupDirs(env, m, groupby).value.0 == GroupSegments(env, m, groupby)
  {
    GroupDirsRest(env, m, groupby);
    GroupDirsSegments(env, m, groupby);
  }

  /** A bucket is located only when the groupby names are distinct and
      all present and hashsize is not zero. */
  lemma LocateNeeds(dirs: set<string>, env: Env, cacheDir: string, cleaned: Kwargs, hashsize: int,
                    groupby: seq<GroupEntry>)
    ensures Locate(dirs, env, cacheDir, cleaned, hashsize, groupby).0.Ok? ==>
      && Distinct(FlatNames(groupby))
      && (forall n :: n in FlatNames(groupby) ==> n in cleaned)
      && hashsize != 0
  {
    GroupDirsOk(env, cleaned, groupby);
  }

  /** The key of a located bucket lists exactly the cleaned arguments that
      are not groupby names, sorted by name. */
  lemma LocateKey(dirs: set<string>, env: Env, cacheDir: string, cleaned: Kwargs, hashsize: int,
                  groupby: seq<GroupEntry>)
    requires Locate(dirs, env, cacheDir, cleaned, hashsize, groupby).0.Ok?
    ensures var key := Locate(dirs, env, cacheDir, cleaned, hashsize, groupby).0.value.key;
      && Lists(key, cleaned - Elems(FlatNames(groupby)))
      && (forall i :: 0 <= i < |key| ==> key[i].0 !in FlatNames(groupby))
  {
    GroupDirsRest(env, cleaned, groupby);
  }

  /** The file of a located bucket is `<index>.pkl`, with 0 <= index <
      hashsize for a positive hashsize, inside cacheDir extended by one
      segment per groupby entry in order; that directory exists
      afterwards. */
  lemma LocateFile(dirs: set<string>, env: Env, cacheDir: string, cleaned: Kwargs, hashsize: int,
                   groupby: seq<GroupEntry>)
    requires Locate(dirs, env, cacheDir, cleaned, hashsize, groupby).0.Ok?
    ensures var (located, dirs') := Locate(dirs, env, cacheDir, cleaned, hashsize, groupby);
      var loc := located.value;
      var dir := JoinAll(cacheDir, GroupSegments(env, cleaned, groupby));
      && dir in dirs'
      && exists idx :: (hashsize > 0 ==> 0 <= idx < hashsize) && loc.path == Join(dir, IntToString(idx) + ".pkl")
  {
    GroupDirsAre(env, cleaned, groupby);
    var dir := JoinAll(cacheDir, GroupSegments(env, cleaned, groupby));
    MakeDirOutcome(dirs, dir, 3);
    var m :| 0 <= m && Ancestor(dir, m) in dirs &&
      DirsAfter(dirs, dir, 3).value == dirs + AncestorSet(dir, m) &&
      forall i :: 0 <= i <= m ==> Ancestor(dir, i) in DirsAfter(dirs, dir, 3).value;
    assert Ancestor(dir, 0) == dir;
  }

  /** Locating a bucket a second time, from the directories the first
      time left, finds the same bucket and creates nothing. */
  lemma LocateIdempotent(dirs: set<string>, env: Env, cacheDir: string, cleaned: Kwargs, hashsize: int,
                         groupby: seq<GroupEntry>)
    requires Locate(dirs, env, cacheDir, cleaned, hashsize, groupby).0.Ok?
    ensures var (loc, dirs') := Locate(dirs, env, cacheDir, cleaned, hashsize, groupby);
      Locate(dirs', env, cacheDir, cleaned, hashsize, groupby) == (loc, dirs')
  {
    var dir := JoinAll(cacheDir, GroupDirs(env, cleaned, groupby).value.0);
    MakeDirOutcome(dirs, dir, 3);
    var dirs' := DirsAfter(dirs, dir, 3).value;
    assert Ancestor(dir, 0) == dir;
    assert dir in dirs';
    assert DirsAfter(dirs', dir, 3) == Some(dirs');
  }

  /** Prefixes already-popped values to the result of the remaining pops. */
  function AfterPopped(vals: seq<Value>, r: Result<(seq<Value>, Kwargs)>): Result<(seq<Value>, Kwargs)>
  {
    match r
    case Err(e) => Err(e)
    case Ok(popped) => Ok((vals + popped.0, popped.1))
  }

  /** The pops of one groupby entry, name by name. */
  method PopNames(m: Kwargs, names: seq<string>) returns (r: Result<(seq<Value>, Kwargs)>)
    ensures r == PopAll(m, names)
  {
    var rest := m;
    var vals: seq<Value> := [];
    var i := 0;
    match PopAll(m, names) {
      case Err(_) =>
      case Ok(popped) => assert [] + popped.0 == popped.0;
    }
    while i < |names|
      invariant 0 <= i <= |names|
      invariant PopAll(m, names) == AfterPopped(vals, PopAll(rest, names[i..]))
    {
      var n := names[i];
      assert names[i..][1..] == names[i + 1..];
      if n !in rest {
        return Err(MissingGroupby(n));
      }
      match PopAll(rest - {n}, names[i + 1..]) {
        case Err(_) =>
        case Ok(popped) => assert vals + ([rest[n]] + popped.0) == (vals + [rest[n]]) + popped.0;
      }
      vals := vals + [rest[n]];
      rest := rest - {n};
      i := i + 1;
    }
    assert vals + [] == vals;
    r := Ok((vals, rest));
  }

  /** Prefixes already-built segments to the result of the remaining
      groupby entries. */
  function AfterSegments(segs: seq<string>, r: Result<(seq<string>, Kwargs)>): Result<(seq<string>, Kwargs)>
  {
    match r
    case Err(e) => Err(e)
    case Ok(grouped) => Ok((segs + grouped.0, grouped.1))
  }

  lemma AfterNoSegments(r: Result<(seq<string>, Kwargs)>)
    ensures AfterSegments([], r) == r
  {
    match r {
      case Err(_) =>
      case Ok(grouped) => assert [] + grouped.0 == grouped.0;
    }
  }

  lemma AfterAllSegments(segs: seq<string>, m: Kwargs)
    ensures AfterSegments(segs, Ok(([], m))) == Ok((segs, m))
  {
    assert segs + [] == segs;
  }

  /** One turn of the groupby loop: the entry's pops either fail, failing
      the whole loop, or add its segment ahead of the remaining entries'. */
  lemma GroupDirsStep(env: Env, m: Kwargs, rest: seq<GroupEntry>, segs: seq<string>)
    requires rest != []
    ensures PopAll(m, EntryNames(rest[0])).Err? ==>
      GroupDirs(env, m, rest) == Err(PopAll(m, EntryNames(rest[0])).error)
    ensures PopAll(m, EntryNames(rest[0])).Ok? ==>
      var popped := PopAll(m, EntryNames(rest[0])).value;
      AfterSegments(segs, GroupDirs(env, m, rest)) ==
      AfterSegments(segs + [Segment(env, rest[0], popped.0)], GroupDirs(env, popped.1, rest[1..]))
  {
    match PopAll(m, EntryNames(rest[0])) {
      case Err(_) =>
      case Ok(popped) =>
        var seg := Segment(env, rest[0], popped.0);
        match GroupDirs(env, popped.1, rest[1..]) {
          case Err(_) =>
          case Ok(grouped) => assert segs + ([seg] + grouped.0) == (segs + [seg]) + grouped.0;
        }
    }
  }

  /** The groupby loop of _get_hashed_path_and_key: pops each entry's
      arguments and extends the directory by its segment. */
  method GroupPath(env: Env, cacheDir: string, cleaned: Kwargs, groupby: seq<GroupEntry>)
    returns (r: Result<(string, Kwargs)>)
    ensures GroupDirs(env, cleaned, groupby).Err? ==> r == Err(GroupDirs(env, cleaned, groupby).error)
    ensures GroupDirs(env, cleaned, groupby).Ok? ==>
      r == Ok((JoinAll(cacheDir, GroupDirs(env, cleaned, groupby).value.0), GroupDirs(env, cleaned, groupby).value.1))
  {
    var m := cleaned;
    var dir := cacheDir;
    ghost var segs: seq<string> := [];
    var i := 0;
    AfterNoSegments(GroupDirs(env, cleaned, groupby));
    while i < |groupby|
      invariant 0 <= i <= |groupby|
      invariant dir == JoinAll(cacheDir, segs)
      invariant GroupDirs(env, cleaned, groupby) == AfterSegments(segs, GroupDirs(env, m, groupby[i..]))
    {
      var e := groupby[i];
      assert groupby[i..][1..] == groupby[i + 1..];
      GroupDirsStep(env, m, groupby[i..], segs);
      var popped := PopNames(m, EntryNames(e));
      if popped.Err? {
        return Err(popped.error);
      }
      var seg := Segment(env, e, popped.value.0);
      JoinAllSnoc(cacheDir, segs, seg);
      dir := Join(dir, seg);
      segs := segs + [seg];
      m := popped.value.1;
      i := i + 1;
    }
    AfterAllSegments(segs, m);
    r := Ok((dir, m));
  }

  /** _get_hashed_path_and_key: pops the groupby arguments while extending
      the directory, creates it, sorts the rest into the key and picks
      the bucket file. */
  method GetHashedPathAndKey(fs: FileSystem, env: Env, cacheDir: string, cleaned: Kwargs, hashsize: int,
                             groupby: seq<GroupEntry>) returns (r: Result<Location>)
    modifies fs
    ensures (r, fs.dirs) == Locate(old(fs.dirs), env, cacheDir, cleaned, hashsize, groupby)
    ensures fs.pickles == old(fs.pickles) && fs.tables == old(fs.tables)
  {
    var grouped := GroupPath(env, cacheDir, cleaned, groupby);
    if grouped.Err? {
      return Err(grouped.error);
    }
    var (dir, m) := grouped.value;
    var ok := fs.MakeDirIfNecessary(dir, 3);
    if !ok {
      return Err(TooDeep);
    }
    var key := SortedItems(m);
    if hashsize == 0 {
      return Err(ZeroDivision);
    }
    var index := PyDivMod(env.hash(key), hashsize).1;
    r := Ok(Location(Join(dir, IntToString(index) + ".pkl"), key));
  }
}
