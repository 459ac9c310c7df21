/**
  Key normalisation (_clean_kwargs and _expand_dict_recursive in
  persist_to_disk/persister.py): skip names are dropped, and dict-valued
  arguments are flattened into `name|subname` entries, either one level
  for the listed names or recursively for every dict ('all').
 */
module KwargCleaning {
  import opened Values
  import opened Text

  /** expand_dict_kwargs: the string 'all', or a list of names. */
  datatype ExpandSpec = ExpandAll | ExpandNames(names: seq<string>)

  /** {f"{k}|{kk}": v for kk, v in d.items()} */
  function Prefixed(k: string, d: Kwargs): (r: Kwargs)
    ensures forall kk :: kk in d ==> k + "|" + kk in r && r[k + "|" + kk] == d[kk]
    ensures forall n :: n in r ==> exists kk :: kk in d && n == k + "|" + kk
  {
    PrefixInjective(k);
    map kk | kk in d :: k + "|" + kk := d[kk]
  }

  /** The sub-key a prefixed name was made from. */
  function Unprefix(k: string, n: string): string
  {
    if |n| > |k| then n[|k| + 1..] else ""
  }

  /** Prefixing is injective: the sub-key can be read back. */
  lemma PrefixInjective(k: string)
    ensures forall kk :: Unprefix(k, k + "|" + kk) == kk
  {
    forall kk ensures Unprefix(k, k + "|" + kk) == kk {
      assert (k + "|" + kk)[|k| + 1..] == kk;
    }
  }

  /** The list branch of _clean_kwargs: for each listed name present in
      the dict, pop it and add its dict's items under `name|item`; a
      present name whose value is not a dict raises. */
  function ExpandNamed(m: Kwargs, names: seq<string>): (r: Result<Kwargs>)
    ensures r.Err? ==> r.error.NotADict? && r.error.name in names
    ensures (forall i :: 0 <= i < |names| ==> names[i] !in m) ==> r == Ok(m)
    decreases |names|
  {
    if names == [] then Ok(m)
    else
      var k := names[0];
      if k !in m then ExpandNamed(m, names[1..])
      else if !m[k].Dict? then Err(NotADict(k))
      else ExpandNamed((m - {k}) + Prefixed(k, m[k].entries), names[1..])
  }

  predicate BarFree(s: string) { '|' !in s }

  /** What ExpandNamed(m, names) holds under name n, stated without the
      loop: a name without '|' survives unless it is listed; a name
      `k|kk` whose k is listed and whose dict has item kk gets that item;
      any other name keeps its value. */
  function ExpectedAt(m: Kwargs, names: seq<string>, n: string): (r: Option<Value>)
    ensures names == [] ==> (r.Some? <==> n in m) && (n in m ==> r == Some(m[n]))
  {
    if BarFree(n) then
      (if n in m && n !in names then Some(m[n]) else None)
    else
      var k := BeforeBar(n);
      var kk := AfterBar(n);
      if k in names && k in m && m[k].Dict? && kk in m[k].entries then Some(m[k].entries[kk])
      else if n in m then Some(m[n])
      else None
  }

  lemma {:induction false} BarSplit(n: string)
    requires !BarFree(n)
    ensures n == BeforeBar(n) + "|" + AfterBar(n) && BarFree(BeforeBar(n))
    decreases |n|
  {
    if n[0] != '|' {
      BarSplit(n[1..]);
      assert n == [n[0]] + n[1..];
    }
  }

  /** A name is produced by Prefixed(k, d) exactly when it splits into k
      and an item of d. */
  lemma PrefixedHas(k: string, d: Kwargs, n: string)
    requires BarFree(k)
    ensures n in Prefixed(k, d) <==> !BarFree(n) && BeforeBar(n) == k && AfterBar(n) in d
    ensures n in Prefixed(k, d) ==> Prefixed(k, d)[n] == d[AfterBar(n)]
  {
    if n in Prefixed(k, d) {
      var kk :| kk in d && n == k + "|" + kk;
      SplitJoinedName(k, kk);
      assert Prefixed(k, d)[n] == d[kk];
    } else if !BarFree(n) && BeforeBar(n) == k && AfterBar(n) in d {
      BarSplit(n);
      assert false;
    }
  }

  /** One expansion step does not change the expected entry of any name. */
  lemma ExpandStepKeepsExpected(m: Kwargs, names: seq<string>, n: string)
    requires names != [] && forall i :: 0 <= i < |names| ==> BarFree(names[i])
    requires names[0] in m && m[names[0]].Dict?
    ensures ExpectedAt((m - {names[0]}) + Prefixed(names[0], m[names[0]].entries), names[1..], n)
         == ExpectedAt(m, names, n)
  {
    var k := names[0];
    var d := m[k].entries;
    var m' := (m - {k}) + Prefixed(k, d);
    assert BarFree(k);
    assert forall j :: j in names <==> j == k || j in names[1..];
    PrefixedHas(k, d, n);
    if !BarFree(n) {
      var kn := BeforeBar(n);
      BarSplit(n);
      PrefixedHas(k, d, kn);
      if kn != k {
        assert kn in m' <==> kn in m;
        if kn in m { assert m'[kn] == m[kn]; }
      } else {
        assert kn !in m';
      }
    }
  }

  lemma SkipStepKeepsExpected(m: Kwargs, names: seq<string>, n: string)
    requires names != [] && names[0] !in m
    ensures ExpectedAt(m, names[1..], n) == ExpectedAt(m, names, n)
  {
    assert forall j :: j in names <==> j == names[0] || j in names[1..];
  }

  /** List-mode expansion, characterised name by name for bar-free expand
      names: it succeeds exactly when every listed name that is present
      holds a dict, and then each listed name k is replaced by exactly
      the entries k|kk of its dict while all other entries stay. */
  lemma {:induction false} ExpandNamedCharacterised(m: Kwargs, names: seq<string>)
    requires forall i :: 0 <= i < |names| ==> BarFree(names[i])
    ensures ExpandNamed(m, names).Ok? <==> forall k :: k in names && k in m ==> m[k].Dict?
    ensures ExpandNamed(m, names).Ok? ==> forall n ::
      && (n in ExpandNamed(m, names).value <==> ExpectedAt(m, names, n).Some?)
      && (n in ExpandNamed(m, names).value ==> ExpandNamed(m, names).value[n] == ExpectedAt(m, names, n).value)
    decreases |names|
  {
    if names != [] {
      var k := names[0];
      var rest := names[1..];
      assert forall j :: j in names <==> j == k || j in rest;
      if k !in m {
        ExpandNamedCharacterised(m, rest);
        forall n ensures ExpectedAt(m, rest, n) == ExpectedAt(m, names, n) {
          SkipStepKeepsExpected(m, names, n);
        }
      } else if m[k].Dict? {
        var m' := (m - {k}) + Prefixed(k, m[k].entries);
        ExpandNamedCharacterised(m', rest);
        forall n ensures ExpectedAt(m', rest, n) == ExpectedAt(m, names, n) {
          ExpandStepKeepsExpected(m, names, n);
        }
        forall j | j in rest ensures (j in m' <==> j in m && j != k) && (j in m' && j in m ==> m'[j] == m[j]) {
          assert BarFree(j);
          PrefixedHas(k, m[k].entries, j);
        }
      }
    }
  }

  /** A name that is present and not listed for expansion survives list
      mode expansion. */
  lemma {:induction false} ExpandNamedKeeps(m: Kwargs, names: seq<string>, n: string)
    requires n in m && n !in names
    ensures ExpandNamed(m, names).Ok? ==> n in ExpandNamed(m, names).value
    decreases |names|
  {
    if names != [] {
      var k := names[0];
      assert n != k && n !in names[1..];
      if k !in m {
        ExpandNamedKeeps(m, names[1..], n);
      } else if m[k].Dict? {
        ExpandNamedKeeps((m - {k}) + Prefixed(k, m[k].entries), names[1..], n);
      }
    }
  }

  /** The (flattened name, leaf) pairs of a value: every non-dict leaf
      under the `|`-joined names of the dicts above it. */
  ghost function LeavesOf(v: Value): set<(string, Value)>
    decreases v, 0
  {
    match v
    case Dict(m) => set k, p | k in m && p in KeyLeaves(k, m[k]) :: p
    case _ => {}
  }

  /** The pairs one top-level entry k: v contributes. */
  ghost function KeyLeaves(k: string, v: Value): set<(string, Value)>
    decreases v, 1
  {
    if v.Dict? then set p | p in LeavesOf(v) :: (k + "|" + p.0, p.1) else {(k, v)}
  }

  lemma LeavesSplit(m: Kwargs, k: string)
    requires k in m
    ensures LeavesOf(Dict(m)) == LeavesOf(Dict(m - {k})) + KeyLeaves(k, m[k])
  {
    var rest := m - {k};
    forall p | p in LeavesOf(Dict(m)) ensures p in LeavesOf(Dict(rest)) + KeyLeaves(k, m[k]) {
      var j :| j in m && p in KeyLeaves(j, m[j]);
      if j != k { assert j in rest && rest[j] == m[j]; }
    }
    forall p | p in LeavesOf(Dict(rest)) ensures p in LeavesOf(Dict(m)) {
      var j :| j in rest && p in KeyLeaves(j, rest[j]);
      assert j in m && m[j] == rest[j];
    }
  }

  /** _expand_dict_recursive: a fresh dict filled in a loop over the
      items, recursing into dict values. Python visits the items in
      insertion order, which a map does not record; the loop here visits
      them in an arbitrary order, so its contract holds for every order.
      The inner loop, which stores each flattened sub-entry under
      `k|kk`, is written as one update by the prefixed sub-dict. Every
      entry of the result is a non-dict leaf of d under its joined name,
      and every leaf's joined name is in the result. */
  method ExpandDictRecursive(d: Kwargs) returns (r: Kwargs)
    ensures forall n :: n in r ==> !r[n].Dict? && (n, r[n]) in LeavesOf(Dict(d))
    ensures forall p :: p in LeavesOf(Dict(d)) ==> p.0 in r
    decreases Dict(d)
  {
    r := map[];
    var todo := d.Keys;
    while todo != {}
      invariant todo <= d.Keys
      invariant forall n :: n in r ==> !r[n].Dict? && (n, r[n]) in LeavesOf(Dict(d - todo))
      invariant forall p :: p in LeavesOf(Dict(d - todo)) ==> p.0 in r
      decreases todo
    {
      var k :| k in todo;
      var v := d[k];
      var done := d - (todo - {k});
      assert done - {k} == d - todo;
      LeavesSplit(done, k);
      if v.Dict? {
        var sub := ExpandDictRecursive(v.entries);
        SubLeaves(k, v, sub);
        r := r + Prefixed(k, sub);
      } else {
        r := r[k := v];
      }
      todo := todo - {k};
    }
    assert d - todo == d;
  }

  /** A flattened sub-dict, prefixed by k, holds exactly the leaves that
      entry k contributes. */
  lemma SubLeaves(k: string, v: Value, sub: Kwargs)
    requires v.Dict?
    requires forall n :: n in sub ==> !sub[n].Dict? && (n, sub[n]) in LeavesOf(v)
    requires forall p :: p in LeavesOf(v) ==> p.0 in sub
    ensures forall n :: n in Prefixed(k, sub) ==> !Prefixed(k, sub)[n].Dict? && (n, Prefixed(k, sub)[n]) in KeyLeaves(k, v)
    ensures forall p :: p in KeyLeaves(k, v) ==> p.0 in Prefixed(k, sub)
  {
    forall n | n in Prefixed(k, sub)
      ensures !Prefixed(k, sub)[n].Dict? && (n, Prefixed(k, sub)[n]) in KeyLeaves(k, v)
    {
      var kk :| kk in sub && n == k + "|" + kk;
      assert (kk, sub[kk]) in LeavesOf(v);
    }
    forall p | p in KeyLeaves(k, v) ensures p.0 in Prefixed(k, sub) {
      var q :| q in LeavesOf(v) && p == (k + "|" + q.0, q.1);
      assert q.0 in sub;
    }
  }

  /** _clean_kwargs: pops every skip name (absent ones are ignored), then
      expands the listed names, or flattens every dict when the spec is
      'all'. */
  method CleanKwargs(full: Kwargs, skip: seq<string>, expand: ExpandSpec) returns (r: Result<Kwargs>)
    ensures expand.ExpandNames? ==> r == ExpandNamed(full - Elems(skip), expand.names)
    ensures expand.ExpandAll? ==> r.Ok?
    ensures expand.ExpandAll? ==> forall n :: n in r.value ==>
      !r.value[n].Dict? && (n, r.value[n]) in LeavesOf(Dict(full - Elems(skip)))
    ensures expand.ExpandAll? ==> forall p :: p in LeavesOf(Dict(full - Elems(skip))) ==> p.0 in r.value
  {
    var cur := full;
    var i := 0;
    while i < |skip|
      invariant 0 <= i <= |skip|
      invariant cur == full - Elems(skip[..i])
    {
      assert Elems(skip[..i + 1]) == Elems(skip[..i]) + {skip[i]} by {
        assert skip[..i + 1] == skip[..i] + [skip[i]];
      }
      cur := cur - {skip[i]};
      i := i + 1;
    }
    assert skip[..i] == skip;
    if expand.ExpandAll? {
      var flat := ExpandDictRecursive(cur);
      return Ok(flat);
    }
    var names := expand.names;
    ghost var start := cur;
    i := 0;
    while i < |names|
      invariant 0 <= i <= |names|
      invariant ExpandNamed(cur, names[i..]) == ExpandNamed(start, names)
    {
      var k := names[i];
      assert names[i..][1..] == names[i + 1..];
      if k in cur {
        var v := cur[k];
        cur := cur - {k};
        if !v.Dict? {
          return Err(NotADict(k));
        }
        cur := cur + Prefixed(k, v.entries);
      }
      i := i + 1;
    }
    r := Ok(cur);
  }

  /** Two leaves with the same flattened name are the same leaf. */
  ghost predicate Unambiguous(v: Value)
  {
    forall p, q :: p in LeavesOf(v) && q in LeavesOf(v) && p.0 == q.0 ==> p == q
  }

  /** No key at any depth contains '|'. */
  ghost predicate BarFreeKeys(v: Value)
    decreases v
  {
    v.Dict? ==> forall k :: k in v.entries ==> BarFree(k) && BarFreeKeys(v.entries[k])
  }

  /** The name of a pair an entry k: v contributes: k itself for a
      non-dict v, else k|name of one of v's own leaves. */
  lemma LeafShape(k: string, v: Value, p: (string, Value))
    requires BarFree(k) && p in KeyLeaves(k, v)
    ensures BarFree(p.0) <==> !v.Dict?
    ensures !v.Dict? ==> p == (k, v)
    ensures v.Dict? ==> BeforeBar(p.0) == k && (AfterBar(p.0), p.1) in LeavesOf(v)
  {
    if v.Dict? {
      var q :| q in LeavesOf(v) && p == (k + "|" + q.0, q.1);
      SplitJoinedName(k, q.0);
    }
  }

  /** With bar-free names at every depth, flattening loses nothing: no
      two leaves share a flattened name. */
  lemma {:induction false} BarFreeUnambiguous(v: Value)
    requires BarFreeKeys(v)
    ensures Unambiguous(v)
    decreases v
  {
    if v.Dict? {
      var m := v.entries;
      forall p, q | p in LeavesOf(v) && q in LeavesOf(v) && p.0 == q.0 ensures p == q {
        var j1 :| j1 in m && p in KeyLeaves(j1, m[j1]);
        var j2 :| j2 in m && q in KeyLeaves(j2, m[j2]);
        LeafShape(j1, m[j1], p);
        LeafShape(j2, m[j2], q);
        if m[j1].Dict? != m[j2].Dict? {
          assert false;
        } else if m[j1].Dict? {
          BarFreeUnambiguous(m[j1]);
        }
      }
    }
  }

  /** What 'all' flattening keeps at the top level: a bar-free name with a
      non-dict value is the only leaf of that name, so it reappears
      unchanged; a bar-free name with an empty dict leaves no leaf, so
      the name vanishes. */
  lemma TopLevelLeaves(m: Kwargs, k: string)
    requires k in m && BarFree(k)
    ensures !m[k].Dict? ==> (k, m[k]) in LeavesOf(Dict(m))
    ensures !m[k].Dict? ==> forall p :: p in LeavesOf(Dict(m)) && p.0 == k ==> p == (k, m[k])
    ensures m[k] == Dict(map[]) ==> forall p :: p in LeavesOf(Dict(m)) ==> p.0 != k
  {
    forall p | p in LeavesOf(Dict(m)) && p.0 == k ensures !m[k].Dict? && p == (k, m[k]) {
      var j :| j in m && p in KeyLeaves(j, m[j]);
      LeafShape(j, m[j], p);
    }
    if !m[k].Dict? {
      assert (k, m[k]) in KeyLeaves(k, m[k]);
    }
  }

  /** When no two leaves share a name, the flattened dict is determined:
      every leaf appears under its joined name with its own value. */
  lemma FlattenExact(d: Kwargs, r: Kwargs)
    requires Unambiguous(Dict(d))
    requires forall n :: n in r ==> (n, r[n]) in LeavesOf(Dict(d))
    requires forall p :: p in LeavesOf(Dict(d)) ==> p.0 in r
    ensures forall p :: p in LeavesOf(Dict(d)) ==> r[p.0] == p.1
  {
    forall p | p in LeavesOf(Dict(d)) ensures r[p.0] == p.1 {
      assert (p.0, r[p.0]) in LeavesOf(Dict(d));
    }
  }
}
