/** The two path-splitting conventions the sources use on POSIX paths:
    `os.path.splitext` / `os.path.basename`, and `pathlib.Path.name` /
    `suffix`. The separator is `/`. */
module Paths {
  import opened Wrappers

  /** `s.rfind(c)`: the last index holding `c`. */
  function RFind(s: string, c: char): (r: Option<nat>)
    ensures r.Some? ==> r.value < |s| && s[r.value] == c
    ensures r.Some? ==> forall k :: r.value < k < |s| ==> s[k] != c
    ensures r.None? ==> forall k :: 0 <= k < |s| ==> s[k] != c
  {
    if s == [] then None
    else if s[|s| - 1] == c then Some(|s| - 1)
    else RFind(s[..|s| - 1], c)
  }

  /** `p[d..]` is what `splitext` calls the extension of `p`: `p[d]` is the
      last dot, it lies in the last path component, and that component has
      some character other than a dot before it (so `.bashrc` and `..`
      have no extension). */
  predicate ExtensionAt(p: string, d: int) {
    && 0 <= d < |p| && p[d] == '.'
    && (forall k :: d < k < |p| ==> p[k] != '.' && p[k] != '/')
    && (exists k :: 0 <= k < d && p[k] != '.' && p[k] != '/'
                    && forall j :: k < j < d ==> p[j] != '/')
  }

  /** `os.path.splitext(p)` on a POSIX path: `(root, ext)`. */
  function SplitExt(p: string): (r: (string, string))
    ensures r.0 + r.1 == p
    ensures r.1 != [] ==> ExtensionAt(p, |r.0|)
    ensures r.1 == [] ==> forall d :: !ExtensionAt(p, d)
  {
    match RFind(p, '.')
    case None => (p, [])
    case Some(d) =>
      var start := match RFind(p, '/') case None => 0 case Some(s) => s + 1;
      if start <= d && exists k :: start <= k < d && p[k] != '.' then
        assert ExtensionAt(p, d) by {
          var k :| start <= k < d && p[k] != '.';
          assert p[k] != '/';
        }
        (p[..d], p[d..])
      else
        assert forall d' :: !ExtensionAt(p, d') by {
          forall d' | ExtensionAt(p, d') ensures false {
            assert d' == d;
            var k :| 0 <= k < d && p[k] != '.' && p[k] != '/'
                     && forall j :: k < j < d ==> p[j] != '/';
          }
        }
        (p, [])
  }

  /** The last path component: `os.path.basename(p)` and, for paths without
      a trailing separator, `pathlib.Path(p).name`. */
  function Name(p: string): string {
    match RFind(p, '/')
    case None => p
    case Some(i) => p[i + 1..]
  }

  /** The name is the tail of the path after its last separator, or the
      whole path when it has none. */
  lemma NameIsLastComponent(p: string)
    ensures var r := Name(p);
      && |r| <= |p| && r == p[|p| - |r|..]
      && (forall k :: 0 <= k < |r| ==> r[k] != '/')
      && (|r| == |p| || p[|p| - |r| - 1] == '/')
  {
    match RFind(p, '/')
    case None =>
    case Some(i) =>
      var r := p[i + 1..];
      forall k | 0 <= k < |r|
        ensures r[k] != '/'
      {
        assert r[k] == p[i + 1 + k];
      }
  }

  /** The name holds no character the path does not. */
  lemma NameKeepsAbsent(p: string, c: char)
    requires c !in p
    ensures c !in Name(p)
  {
    NameIsLastComponent(p);
    var n := Name(p);
    forall k | 0 <= k < |n|
      ensures n[k] != c
    {
      assert n[k] == p[|p| - |n| + k];
    }
  }

  /** The name is what follows the last separator. */
  lemma NameAfterLastSlash(p: string, i: nat)
    requires i < |p| && p[i] == '/'
    requires forall k :: i < k < |p| ==> p[k] != '/'
    ensures Name(p) == p[i + 1..]
  {
  }

  /** `pathlib.Path(p).suffix`: from the last dot of the name, provided the
      dot is neither the first nor the last character of the name. */
  function Suffix(p: string): (r: string)
    ensures r == [] || (|r| >= 2 && r[0] == '.')
    ensures forall k :: 1 <= k < |r| ==> r[k] != '.' && r[k] != '/'
  {
    var n := Name(p);
    NameIsLastComponent(p);
    match RFind(n, '.')
    case None => []
    case Some(i) =>
      if 0 < i < |n| - 1 then
        TailAfterLastDot(n, i);
        n[i..]
      else []
  }

  lemma TailAfterLastDot(n: string, i: nat)
    requires 0 < i < |n| - 1 && n[i] == '.'
    requires forall k :: i < k < |n| ==> n[k] != '.'
    requires forall k :: 0 <= k < |n| ==> n[k] != '/'
    ensures forall k :: 1 <= k < |n| - i ==> n[i..][k] != '.' && n[i..][k] != '/'
  {
    forall k | 1 <= k < |n| - i
      ensures n[i..][k] != '.' && n[i..][k] != '/'
    {
      assert n[i..][k] == n[i + k];
    }
  }

  /** The suffix is a proper tail of the name: it never is the whole name. */
  lemma SuffixIsTailOfName(p: string)
    ensures var n := Name(p); var r := Suffix(p);
      r == [] || (|r| < |n| && r == n[|n| - |r|..])
  {
    var n := Name(p);
    var f := RFind(n, '.');
    if f.Some? && 0 < f.value < |n| - 1 {
      assert Suffix(p) == n[f.value..];
    } else {
      assert Suffix(p) == [];
    }
  }
}
