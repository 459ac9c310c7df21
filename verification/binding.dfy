/**
  Argument binding (_get_full_kwargs_noargs in persist_to_disk/persister.py):
  one name-to-value dict built from the declared defaults, the positional
  arguments and the keywords of a call.
 */
module ArgBinding {
  import opened Values

  /** What inspect.getfullargspec reports about the wrapped function:
      its positional parameter names, the defaults of the last of them,
      the defaults of its keyword-only parameters, and whether it takes
      *args. */
  datatype Schema = Schema(
    params: seq<string>,
    defaults: seq<Value>,
    kwOnlyDefaults: Kwargs,
    hasVarargs: bool)

  /** args[-len(defaults):], the parameters the defaults belong to. */
  function DefaultedNames(s: Schema): seq<string>
  {
    if |s.defaults| <= |s.params| then s.params[|s.params| - |s.defaults|..] else s.params
  }

  /** Index of the first parameter that has a default. */
  function FirstDefaulted(s: Schema): nat
    requires |s.defaults| <= |s.params|
  {
    |s.params| - |s.defaults|
  }

  /** m.update(zip(names, vals)): pairs assigned left to right, as many as
      the shorter list has. */
  function Assign(m: Kwargs, names: seq<string>, vals: seq<Value>): Kwargs
    decreases |names|
  {
    if names == [] || vals == [] then m else Assign(m[names[0] := vals[0]], names[1..], vals[1..])
  }

  function Min(a: nat, b: nat): nat { if a <= b then a else b }

  /** What Assign does to one name, when the names are distinct: a name
      among the first min(|names|, |vals|) gets its paired value, any
      other name keeps what it had. */
  lemma {:induction false} AssignAt(m: Kwargs, names: seq<string>, vals: seq<Value>, n: string)
    requires Distinct(names)
    ensures n in Assign(m, names, vals) <==> n in m || n in names[..Min(|names|, |vals|)]
    ensures forall i :: 0 <= i < Min(|names|, |vals|) && names[i] == n ==>
      Assign(m, names, vals)[n] == vals[i]
    ensures n !in names[..Min(|names|, |vals|)] && n in m ==> Assign(m, names, vals)[n] == m[n]
    decreases |names|
  {
    if names != [] && vals != [] {
      var k := Min(|names|, |vals|);
      assert names[1..][..k - 1] == names[..k][1..];
      assert names[..k] == [names[0]] + names[1..][..k - 1];
      AssignAt(m[names[0] := vals[0]], names[1..], vals[1..], n);
      forall i | 0 <= i < k && names[i] == n ensures Assign(m, names, vals)[n] == vals[i] {
        if i > 0 {
          assert names[1..][i - 1] == n;
          assert n != names[0];
        } else {
          assert n !in names[1..][..k - 1];
        }
      }
    }
  }

  /** The full keyword dict of a call, or the error binding raises:
      keyword-only defaults first, then the positional defaults, then the
      positional arguments under their parameter names, then the explicit
      keywords, each later source overriding the earlier ones. */
  function Bind(s: Schema, pos: seq<Value>, kw: Kwargs): (r: Result<Kwargs>)
    ensures r.Ok? <==> !s.hasVarargs && |pos| <= |s.params|
    ensures s.hasVarargs ==> r == Err(VarargsUnsupported)
  {
    if s.hasVarargs then Err(VarargsUnsupported)
    else if |pos| > |s.params| then Err(TooManyPositional)
    else Ok(Assign(Assign(s.kwOnlyDefaults, DefaultedNames(s), s.defaults), s.params, pos) + kw)
  }

  /** Precedence of the bound dict, name by name, for a function whose
      parameter names are distinct (as Python requires): an explicit
      keyword wins; else a positional argument; else the parameter's
      default; else a keyword-only default; no other name is bound. */
  lemma BindPrecedence(s: Schema, pos: seq<Value>, kw: Kwargs, n: string)
    requires !s.hasVarargs && |pos| <= |s.params|
    requires |s.defaults| <= |s.params| && Distinct(s.params)
    ensures var r := Bind(s, pos, kw).value;
      && (n in r <==>
            n in kw || n in s.kwOnlyDefaults || n in s.params[..|pos|] || n in s.params[FirstDefaulted(s)..])
      && (n in kw ==> r[n] == kw[n])
      && (forall i :: 0 <= i < |pos| && s.params[i] == n && n !in kw ==> r[n] == pos[i])
      && (forall i :: |pos| <= i < |s.params| && FirstDefaulted(s) <= i && s.params[i] == n && n !in kw ==>
            r[n] == s.defaults[i - FirstDefaulted(s)])
      && (n !in kw && n !in s.params && n in s.kwOnlyDefaults ==> r[n] == s.kwOnlyDefaults[n])
  {
    var f := FirstDefaulted(s);
    var names := DefaultedNames(s);
    assert names == s.params[f..];
    assert Distinct(names);
    var withDefaults := Assign(s.kwOnlyDefaults, names, s.defaults);
    var withPos := Assign(withDefaults, s.params, pos);
    assert Bind(s, pos, kw) == Ok(withPos + kw);
    AssignAt(s.kwOnlyDefaults, names, s.defaults, n);
    assert names[..Min(|names|, |s.defaults|)] == names;
    assert n in withDefaults <==> n in s.kwOnlyDefaults || n in names;
    AssignAt(withDefaults, s.params, pos, n);
    assert s.params[..Min(|s.params|, |pos|)] == s.params[..|pos|];
    assert n in withPos <==> n in withDefaults || n in s.params[..|pos|];
    forall i | |pos| <= i < |s.params| && f <= i && s.params[i] == n && n !in kw
      ensures Bind(s, pos, kw).value[n] == s.defaults[i - f]
    {
      assert names[i - f] == n;
      assert n !in s.params[..|pos|];
      assert withPos[n] == withDefaults[n];
    }
    if n !in kw && n !in s.params && n in s.kwOnlyDefaults {
      assert n !in names && n !in s.params[..|pos|];
      assert withPos[n] == withDefaults[n];
    }
  }

  /** _get_full_kwargs_noargs: builds the dict by updates, in the source's
      order. */
  method GetFullKwargs(s: Schema, pos: seq<Value>, kw: Kwargs) returns (r: Result<Kwargs>)
    ensures r == Bind(s, pos, kw)
  {
    if s.hasVarargs {
      return Err(VarargsUnsupported);
    }
    var full := s.kwOnlyDefaults;
    var names := DefaultedNames(s);
    var i := 0;
    while i < |names| && i < |s.defaults|
      invariant 0 <= i <= |names| && i <= |s.defaults|
      invariant Assign(full, names[i..], s.defaults[i..]) == Assign(s.kwOnlyDefaults, names, s.defaults)
    {
      full := full[names[i] := s.defaults[i]];
      i := i + 1;
    }
    assert Assign(full, names[i..], s.defaults[i..]) == full;
    ghost var withDefaults := full;
    i := 0;
    while i < |pos|
      invariant 0 <= i <= |pos|
      invariant i <= |s.params|
      invariant Assign(full, s.params[i..], pos[i..]) == Assign(withDefaults, s.params, pos)
    {
      if i >= |s.params| {
        return Err(TooManyPositional);
      }
      full := full[s.params[i] := pos[i]];
      i := i + 1;
    }
    assert Assign(full, s.params[i..], pos[i..]) == full;
    r := Ok(full + kw);
  }
}
