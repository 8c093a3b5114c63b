/** `generate_unique_filename` (core), `_unique_path` (rom_rename_tool) and
    `ensure_unique_path` (rom_renamer_auto): the same loop. The folder is
    the set of names that `os.path.exists` finds in it. */
module UniqueName {
  import opened Text
  import opened Paths

  /** `f"{base} ({i}){ext}"`. */
  function Numbered(base: string, i: nat, ext: string): string {
    base + " (" + Decimal(i) + ")" + ext
  }

  /** Different numbers give different names. */
  lemma NumberedInjective(base: string, ext: string, i: nat, j: nat)
    requires Numbered(base, i, ext) == Numbered(base, j, ext)
    ensures i == j
  {
    var a, b := Numbered(base, i, ext), Numbered(base, j, ext);
    var lo := |base| + 2;
    assert |Decimal(i)| == |Decimal(j)|;
    assert a[lo..lo + |Decimal(i)|] == Decimal(i);
    assert b[lo..lo + |Decimal(j)|] == Decimal(j);
    DecimalInjective(i, j);
  }

  /** If the names numbered 1 to n are all taken, the folder has at least
      n names. */
  lemma {:induction false} TakenBound(existing: set<string>, base: string, ext: string, n: nat)
    requires forall j :: 1 <= j <= n ==> Numbered(base, j, ext) in existing
    ensures n <= |existing|
  {
    var taken := set j | 1 <= j <= n :: Numbered(base, j, ext);
    TakenCount(base, ext, n);
    assert taken <= existing by {
      forall x | x in taken ensures x in existing {
        var j :| 1 <= j <= n && x == Numbered(base, j, ext);
      }
    }
    SubsetSize(taken, existing);
  }

  lemma {:induction false} SubsetSize<T>(a: set<T>, b: set<T>)
    requires a <= b
    ensures |a| <= |b|
    decreases |a|
  {
    if a != {} {
      var x :| x in a;
      SubsetSize(a - {x}, b - {x});
    }
  }

  lemma TakenCount(base: string, ext: string, n: nat)
    ensures |set j | 1 <= j <= n :: Numbered(base, j, ext)| == n
  {
    forall i, j | 1 <= i <= n && 1 <= j <= n && Numbered(base, i, ext) == Numbered(base, j, ext)
      ensures i == j
    {
      NumberedInjective(base, ext, i, j);
    }
    var f := (j: nat) => Numbered(base, j, ext);
    ImageSize(f, n);
    var image, taken := set j | 1 <= j <= n :: f(j), set j | 1 <= j <= n :: Numbered(base, j, ext);
    forall x ensures x in image <==> x in taken {
      if x in image {
        var j :| 1 <= j <= n && f(j) == x;
        assert Numbered(base, j, ext) in taken;
      }
      if x in taken {
        var j :| 1 <= j <= n && Numbered(base, j, ext) == x;
        assert f(j) in image;
      }
    }
    assert image == taken;
  }

  /** An injective function maps 1..n to n distinct values. */
  lemma {:induction false} ImageSize<T>(f: nat -> T, n: nat)
    requires forall i, j :: 1 <= i <= n && 1 <= j <= n && f(i) == f(j) ==> i == j
    ensures |set j | 1 <= j <= n :: f(j)| == n
  {
    if n > 0 {
      var prev := set j | 1 <= j <= n - 1 :: f(j);
      var all := set j | 1 <= j <= n :: f(j);
      ImageSize(f, n - 1);
      assert all == prev + {f(n)};
      assert f(n) !in prev;
    }
  }

  /** The first free numbered name from `i` on, given that those below `i`
      are taken. */
  function FirstFree(existing: set<string>, base: string, ext: string, i: nat): (r: string)
    requires i >= 1
    requires forall j :: 1 <= j < i ==> Numbered(base, j, ext) in existing
    ensures r !in existing
    decreases |existing| + 1 - i
  {
    TakenBound(existing, base, ext, i - 1);
    var c := Numbered(base, i, ext);
    if c !in existing then c else FirstFree(existing, base, ext, i + 1)
  }

  /** `FirstFree` from `i` is `base (k)ext` for the first free `k >= i`. */
  lemma {:induction false} FirstFreeIsFirst(existing: set<string>, base: string, ext: string, i: nat)
    requires i >= 1
    requires forall j :: 1 <= j < i ==> Numbered(base, j, ext) in existing
    ensures exists k ::
      i <= k && FirstFree(existing, base, ext, i) == Numbered(base, k, ext) && forall j :: 1 <= j < k ==> Numbered(base, j, ext) in existing
    decreases |existing| + 1 - i
  {
    TakenBound(existing, base, ext, i - 1);
    if Numbered(base, i, ext) in existing {
      FirstFreeIsFirst(existing, base, ext, i + 1);
    }
  }

  /** The name the allocator returns for `filename`. */
  function Allocation(existing: set<string>, filename: string): (r: string)
    ensures r !in existing
    ensures filename !in existing ==> r == filename
  {
    if filename !in existing then filename
    else
      var (base, ext) := SplitExt(filename);
      FirstFree(existing, base, ext, 1)
  }

  /** The allocation is the requested name when it is free, and otherwise
      `base (i)ext` for the smallest `i >= 1` that is free, where
      `(base, ext)` is `os.path.splitext` of the name. */
  lemma AllocationIsSmallestFree(existing: set<string>, filename: string)
    requires filename in existing
    ensures var (base, ext) := SplitExt(filename);
      exists i :: 1 <= i && Allocation(existing, filename) == Numbered(base, i, ext)
        && Numbered(base, i, ext) !in existing
        && forall j :: 1 <= j < i ==> Numbered(base, j, ext) in existing
  {
    var (base, ext) := SplitExt(filename);
    var r := FirstFree(existing, base, ext, 1);
    assert Allocation(existing, filename) == r;
    FirstFreeIsFirst(existing, base, ext, 1);
    var k :| 1 <= k && r == Numbered(base, k, ext) && forall j :: 1 <= j < k ==> Numbered(base, j, ext) in existing;
  }

  /** The loop itself. */
  method Allocate(existing: set<string>, filename: string) returns (r: string)
    ensures r == Allocation(existing, filename)
  {
    var (base, ext) := SplitExt(filename);
    var candidate, i := filename, 1;
    while candidate in existing
      invariant i >= 1
      invariant forall j :: 1 <= j < i - 1 ==> Numbered(base, j, ext) in existing
      invariant i == 1 ==> candidate == filename
      invariant i > 1 ==> candidate == Numbered(base, i - 1, ext) && filename in existing
      invariant i > 1 ==> Allocation(existing, filename) == FirstFree(existing, base, ext, i - 1)
      decreases |existing| + 1 - i
    {
      if i > 1 {
        TakenBound(existing, base, ext, i - 1);
      }
      candidate := Numbered(base, i, ext);
      i := i + 1;
    }
    r := candidate;
  }

  /** `Mario.gba` in a folder that already has `Mario.gba` and
      `Mario (1).gba` becomes `Mario (2).gba`. */
  lemma SecondCopyGetsTwo()
    ensures Allocation({"Mario.gba", "Mario (1).gba"}, "Mario.gba") == "Mario (2).gba"
  {
    var existing := {"Mario.gba", "Mario (1).gba"};
    var p := "Mario.gba";
    assert ExtensionAt(p, 5) by {
      assert p[0] != '.' && p[0] != '/';
      assert forall j :: 0 < j < 5 ==> p[j] != '/';
    }
    assert p[5] == '.';
    var (base, ext) := SplitExt(p);
    assert |base| == 5;
    assert base == "Mario" && ext == ".gba" by {
      assert base == p[..5] && ext == p[5..];
    }
    assert Decimal(1) == "1" && Decimal(2) == "2";
    assert Numbered("Mario", 1, ".gba") == "Mario (1).gba";
    assert Numbered("Mario", 2, ".gba") == "Mario (2).gba";
    assert "Mario (2).gba" !in existing;
  }
}
