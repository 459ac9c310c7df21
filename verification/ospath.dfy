/**
  The few os.path operations the persister relies on, as POSIX Python
  defines them (posixpath.join, posixpath.dirname, genericpath splitext).
  Paths are plain strings; no normalisation is applied.
 */
module OsPath {

  /** Index of the last occurrence of c in p, or -1 (str.rfind). */
  function RFind(p: string, c: char): (i: int)
    ensures -1 <= i < |p|
    ensures 0 <= i ==> p[i] == c
    ensures forall j :: i < j < |p| ==> p[j] != c
    decreases |p|
  {
    if p == [] then -1
    else if p[|p| - 1] == c then |p| - 1
    else RFind(p[..|p| - 1], c)
  }

  /** os.path.join(a, b): an absolute b replaces a; otherwise one '/' is
      put between them unless a is empty or already ends in '/'. */
  function Join(a: string, b: string): string
  {
    if |b| > 0 && b[0] == '/' then b
    else if a == [] || a[|a| - 1] == '/' then a + b
    else a + "/" + b
  }

  /** The joined path ends with b, and starts with a unless b is
      absolute. */
  lemma JoinKeeps(a: string, b: string)
    ensures EndsWith(Join(a, b), b)
    ensures (b == [] || b[0] != '/') ==> |a| <= |Join(a, b)| && Join(a, b)[..|a|] == a
  {
  }

  /** os.path.join folded over several segments. */
  function JoinAll(a: string, segments: seq<string>): string
    decreases |segments|
  {
    if segments == [] then a else JoinAll(Join(a, segments[0]), segments[1..])
  }

  lemma {:induction false} JoinAllSnoc(a: string, segments: seq<string>, last: string)
    ensures JoinAll(a, segments + [last]) == Join(JoinAll(a, segments), last)
    decreases |segments|
  {
    if segments != [] {
      assert (segments + [last])[1..] == segments[1..] + [last];
      JoinAllSnoc(Join(a, segments[0]), segments[1..], last);
    }
  }

  /** The layout a cache path has when nothing in it is absolute or ends
      in a slash: one '/' between consecutive segments. */
  function SlashPath(a: string, segments: seq<string>): string
    decreases |segments|
  {
    if segments == [] then a else SlashPath(a + "/" + segments[0], segments[1..])
  }

  predicate PlainSegment(s: string) { s != [] && s[0] != '/' && s[|s| - 1] != '/' }

  lemma {:induction false} JoinAllPlain(a: string, segments: seq<string>)
    requires PlainSegment(a)
    requires forall i :: 0 <= i < |segments| ==> PlainSegment(segments[i])
    ensures JoinAll(a, segments) == SlashPath(a, segments)
    decreases |segments|
  {
    if segments != [] {
      var b := a + "/" + segments[0];
      assert Join(a, segments[0]) == b;
      assert b[|b| - 1] == segments[0][|segments[0]| - 1];
      JoinAllPlain(b, segments[1..]);
    }
  }

  function RStripSlashes(s: string): (r: string)
    ensures |r| <= |s| && r == s[..|r|]
    decreases |s|
  {
    if s != [] && s[|s| - 1] == '/' then RStripSlashes(s[..|s| - 1]) else s
  }

  predicate AllSlashes(s: string) { forall i :: 0 <= i < |s| ==> s[i] == '/' }

  /** os.path.dirname(p): everything up to the last '/', with trailing
      slashes removed unless the head is made of slashes only. */
  function DirName(p: string): (r: string)
    ensures |r| <= |p| && r == p[..|r|]
    ensures '/' !in p ==> r == []
  {
    var head := p[..RFind(p, '/') + 1];
    if head != [] && !AllSlashes(head) then RStripSlashes(head) else head
  }

  /** The i-th ancestor: dirname applied i times. */
  function Ancestor(p: string, i: nat): string
    decreases i
  {
    if i == 0 then p else Ancestor(DirName(p), i - 1)
  }

  predicate EndsWith(s: string, suffix: string)
  {
    |suffix| <= |s| && s[|s| - |suffix|..] == suffix
  }

  /** os.path.splitext(p)[0]: the extension is the part from the last '.'
      of the last component, unless everything before that dot in the
      component is dots (".py" and "..py" have no extension). */
  function SplitExtRoot(p: string): (r: string)
    ensures |r| <= |p| && r == p[..|r|]
    ensures |r| < |p| ==> p[|r|] == '.'
  {
    var sep := RFind(p, '/');
    var dot := RFind(p, '.');
    if dot > sep && exists j :: sep < j < dot && p[j] != '.' then p[..dot] else p
  }

  /** For a path ending in ".py" whose file name has a non-dot character
      before the extension, splitext drops exactly the three characters. */
  lemma SplitExtPy(p: string)
    requires EndsWith(p, ".py")
    requires exists j :: RFind(p, '/') < j < |p| - 3 && p[j] != '.'
    ensures SplitExtRoot(p) == p[..|p| - 3]
  {
    assert p[|p| - 3] == '.' && p[|p| - 2] == 'p' && p[|p| - 1] == 'y';
    assert RFind(p, '.') == |p| - 3;
  }
}
