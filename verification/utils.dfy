/**
  persist_to_disk/_utils.py: the file system the cache lives in, nested
  directory creation under a depth budget, and the id table that names
  cache directories of files outside any project.
 */
module Utils {
  import opened Values
  import opened Text
  import opened OsPath

  /** What a .pkl file holds: a bucket (cache key to result), or bytes
      that pickle cannot load. */
  datatype PickleFile = Bucket(entries: map<Key, Value>) | Unreadable

  /** One line `key||id` of an id table. */
  type Record = (string, string)

  /** The ancestors of d that are missing, counted from d upwards and
      looking at no more than bound + 1 of them: 0 when d exists, bound + 1
      when none of d, ..., Ancestor(d, bound) exists. */
  function FirstExisting(dirs: set<string>, d: string, bound: nat): (k: nat)
    ensures k <= bound + 1
    ensures forall i :: 0 <= i < k ==> Ancestor(d, i) !in dirs
    ensures k <= bound ==> Ancestor(d, k) in dirs
    decreases bound
  {
    if d in dirs then 0
    else if bound == 0 then 1
    else 1 + FirstExisting(dirs, DirName(d), bound - 1)
  }

  /** The first k ancestors of d, d itself included. */
  function AncestorSet(d: string, k: nat): set<string>
  {
    set i | 0 <= i < k :: Ancestor(d, i)
  }

  lemma AncestorSetStep(d: string, k: nat)
    requires k > 0
    ensures AncestorSet(d, k) == {d} + AncestorSet(DirName(d), k - 1)
  {
    forall p | p in AncestorSet(d, k) ensures p in {d} + AncestorSet(DirName(d), k - 1) {
      var i :| 0 <= i < k && Ancestor(d, i) == p;
      if i > 0 { assert Ancestor(DirName(d), i - 1) == p; }
    }
    forall p | p in AncestorSet(DirName(d), k - 1) ensures p in AncestorSet(d, k) {
      var i :| 0 <= i < k - 1 && Ancestor(DirName(d), i) == p;
      assert Ancestor(d, i + 1) == p;
    }
    assert Ancestor(d, 0) == d;
  }

  /** The directories that exist after make_dir_if_necessary(d, maxDepth):
      unchanged when d exists; d and its missing ancestors added when the
      missing chain is at most maxDepth + 1 long; None when the depth
      assertion fails. */
  function DirsAfter(dirs: set<string>, d: string, maxDepth: int): (r: Option<set<string>>)
    ensures r.Some? ==> dirs <= r.value && d in r.value
    ensures r.None? ==> d !in dirs
  {
    var k := FirstExisting(dirs, d, if maxDepth < 0 then 0 else maxDepth + 1);
    if k == 0 then Some(dirs)
    else if k <= maxDepth + 1 then
      assert Ancestor(d, 0) == d;
      Some(dirs + AncestorSet(d, k))
    else None
  }

  /** make_dir_if_necessary succeeds exactly when d, or one of its first
      maxDepth + 1 ancestors, already exists; it then leaves d and every
      ancestor below the first existing one in place, and adds nothing
      else. */
  lemma MakeDirOutcome(dirs: set<string>, d: string, maxDepth: int)
    ensures DirsAfter(dirs, d, maxDepth).Some? <==>
      d in dirs || exists m :: 0 < m <= maxDepth + 1 && Ancestor(d, m) in dirs
    ensures DirsAfter(dirs, d, maxDepth).Some? ==>
      exists m :: 0 <= m && Ancestor(d, m) in dirs &&
        (forall i :: 0 <= i < m ==> Ancestor(d, i) !in dirs) &&
        DirsAfter(dirs, d, maxDepth).value == dirs + AncestorSet(d, m) &&
        forall i :: 0 <= i <= m ==> Ancestor(d, i) in DirsAfter(dirs, d, maxDepth).value
  {
    var bound: nat := if maxDepth < 0 then 0 else maxDepth + 1;
    var k := FirstExisting(dirs, d, bound);
    if d in dirs {
      assert Ancestor(d, 0) == d && AncestorSet(d, 0) == {};
      assert DirsAfter(dirs, d, maxDepth).value == dirs + AncestorSet(d, 0);
      assert forall i :: 0 <= i <= 0 ==> Ancestor(d, i) in DirsAfter(dirs, d, maxDepth).value;
    } else if k <= maxDepth + 1 {
      var after := dirs + AncestorSet(d, k);
      assert DirsAfter(dirs, d, maxDepth) == Some(after);
      assert exists m :: 0 < m <= maxDepth + 1 && Ancestor(d, m) in dirs by {
        assert 0 < k <= maxDepth + 1 && Ancestor(d, k) in dirs;
      }
      forall i | 0 <= i <= k ensures Ancestor(d, i) in after {
        if i < k { assert Ancestor(d, i) in AncestorSet(d, k); }
      }
      assert 0 <= k && Ancestor(d, k) in dirs && (forall i :: 0 <= i < k ==> Ancestor(d, i) !in dirs) &&
        DirsAfter(dirs, d, maxDepth).value == dirs + AncestorSet(d, k) &&
        forall i :: 0 <= i <= k ==> Ancestor(d, i) in DirsAfter(dirs, d, maxDepth).value;
    } else {
      forall m | 0 < m <= maxDepth + 1 ensures Ancestor(d, m) !in dirs {
        assert m < k;
      }
    }
  }

  /** The id table a file of `key||id` lines stands for: dict() over the
      lines, a later line winning over an earlier one with the same key. */
  function TableOf(records: seq<Record>): (r: map<string, string>)
    decreases |records|
  {
    if records == [] then map[]
    else TableOf(records[..|records| - 1])[records[|records| - 1].0 := records[|records| - 1].1]
  }

  /** A table only retrieve_id has written to: distinct keys, and the
      i-th line (from 0) carries id str(i + 1). */
  predicate WellFormedTable(records: seq<Record>)
  {
    && (forall i, j :: 0 <= i < j < |records| ==> records[i].0 != records[j].0)
    && (forall i :: 0 <= i < |records| ==> records[i].1 == NatToString(i + 1))
  }

  lemma {:induction false} TableOfHas(records: seq<Record>)
    ensures forall i :: 0 <= i < |records| ==> records[i].0 in TableOf(records)
    decreases |records|
  {
    if records != [] {
      TableOfHas(records[..|records| - 1]);
    }
  }

  lemma {:induction false} TableOfOnly(records: seq<Record>, x: string)
    requires x in TableOf(records)
    ensures exists i :: 0 <= i < |records| && records[i].0 == x
    decreases |records|
  {
    var n := |records| - 1;
    if records[n].0 != x {
      TableOfOnly(records[..n], x);
      var i :| 0 <= i < n && records[..n][i].0 == x;
      assert records[i].0 == x;
    }
  }

  /** In a well-formed table every key maps to the id of its own line,
      and there are as many entries as lines. */
  lemma {:induction false} WellFormedLookup(records: seq<Record>)
    requires WellFormedTable(records)
    ensures |TableOf(records)| == |records|
    ensures forall i :: 0 <= i < |records| ==>
      records[i].0 in TableOf(records) && TableOf(records)[records[i].0] == NatToString(i + 1)
    decreases |records|
  {
    TableOfHas(records);
    if records != [] {
      var n := |records| - 1;
      var init := records[..n];
      assert WellFormedTable(init);
      WellFormedLookup(init);
      var last := records[n].0;
      assert last !in TableOf(init) by {
        if last in TableOf(init) {
          TableOfOnly(init, last);
        }
      }
      assert TableOf(records).Keys == TableOf(init).Keys + {last};
      forall i | 0 <= i < |records|
        ensures records[i].0 in TableOf(records) && TableOf(records)[records[i].0] == NatToString(i + 1)
      {
        if i < n {
          assert records[i].0 == init[i].0 && records[i].0 != last;
        }
      }
    }
  }

  /** Two different keys of a well-formed table never share an id. */
  lemma WellFormedIdsDistinct(records: seq<Record>, a: string, b: string)
    requires WellFormedTable(records)
    requires a in TableOf(records) && b in TableOf(records) && a != b
    ensures TableOf(records)[a] != TableOf(records)[b]
  {
    WellFormedLookup(records);
    TableOfOnly(records, a);
    TableOfOnly(records, b);
    var i :| 0 <= i < |records| && records[i].0 == a;
    var j :| 0 <= j < |records| && records[j].0 == b;
    NatToStringInjective(i + 1, j + 1);
  }

  /** Appending a new key with the next id keeps a table well formed. */
  lemma AppendKeepsWellFormed(records: seq<Record>, key: string)
    requires WellFormedTable(records) && key !in TableOf(records)
    ensures WellFormedTable(records + [(key, NatToString(|TableOf(records)| + 1))])
  {
    WellFormedLookup(records);
  }

  /** The lines of table file f (none when the file does not exist). */
  function LinesOf(tables: map<string, seq<Record>>, f: string): seq<Record>
  {
    if f in tables then tables[f] else []
  }

  /** The file system state the core reads and writes. */
  class FileSystem {
    var dirs: set<string>
    var pickles: map<string, PickleFile>
    var tables: map<string, seq<Record>>

    constructor (dirs0: set<string>, pickles0: map<string, PickleFile>, tables0: map<string, seq<Record>>)
      ensures dirs == dirs0 && pickles == pickles0 && tables == tables0
    {
      dirs, pickles, tables := dirs0, pickles0, tables0;
    }

    /** make_dir_if_necessary(d, max_depth): creates d after creating its
        missing parent recursively with one less depth; fails its
        assertion when the budget runs out before an existing ancestor. */
    method MakeDirIfNecessary(d: string, maxDepth: int) returns (ok: bool)
      modifies this
      ensures ok == DirsAfter(old(dirs), d, maxDepth).Some?
      ensures ok ==> dirs == DirsAfter(old(dirs), d, maxDepth).value
      ensures !ok ==> dirs == old(dirs)
      ensures pickles == old(pickles) && tables == old(tables)
      decreases if maxDepth < 0 then 0 else maxDepth + 1
    {
      if d in dirs {
        return true;
      }
      if maxDepth < 0 {
        return false;
      }
      var parent := DirName(d);
      ghost var k := FirstExisting(old(dirs), d, maxDepth + 1);
      assert k == 1 + FirstExisting(old(dirs), parent, maxDepth);
      if parent !in dirs {
        ok := MakeDirIfNecessary(parent, maxDepth - 1);
        if maxDepth == 0 {
          assert FirstExisting(old(dirs), parent, 0) == 1;
        }
        if !ok {
          return;
        }
      }
      AncestorSetStep(d, k);
      dirs := dirs + {d};
      ok := true;
    }

    /** retrieve_id(meta_file, key): reads the table, and when key is new
        gives it id str(n + 1), n being the number of entries, and appends
        one line for it. */
    method RetrieveId(metaFile: string, key: string) returns (id: string)
      modifies this
      ensures var before := TableOf(old(LinesOf(tables, metaFile)));
        && (key in before ==> id == before[key] && tables == old(tables))
        && (key !in before ==>
              && id == NatToString(|before| + 1)
              && tables == old(tables)[metaFile := old(LinesOf(tables, metaFile)) + [(key, id)]])
      ensures key in TableOf(LinesOf(tables, metaFile)) && TableOf(LinesOf(tables, metaFile))[key] == id
      ensures old(WellFormedTable(LinesOf(tables, metaFile))) ==> WellFormedTable(LinesOf(tables, metaFile))
      ensures dirs == old(dirs) && pickles == old(pickles)
    {
      var lines := LinesOf(tables, metaFile);
      var current: map<string, string> := map[];
      var i := 0;
      while i < |lines|
        invariant 0 <= i <= |lines|
        invariant current == TableOf(lines[..i])
      {
        assert lines[..i + 1][..i] == lines[..i];
        current := current[lines[i].0 := lines[i].1];
        i := i + 1;
      }
      assert lines[..i] == lines;
      if key !in current {
        var pid := NatToString(|current| + 1);
        var appended := lines + [(key, pid)];
        assert appended[..|lines|] == lines;
        assert TableOf(appended) == current[key := pid];
        if WellFormedTable(lines) {
          AppendKeepsWellFormed(lines, key);
        }
        current := current[key := pid];
        tables := tables[metaFile := appended];
      }
      id := current[key];
    }
  }
}
