/**
 * The filesystem as the pipeline sees it: a finite map from paths (sequences of
 * components) to nodes. `os.path.join`, `basename` and `dirname` become sequence
 * operations, and `open`, `shutil.copytree` and `os.makedirs` become functions
 * that return the new map, or `None` where the Python call raises.
 */
module Files {
  import opened Common

  type Path = seq<string>

  /** A directory, or a file with its text and whether opening it for reading or writing succeeds. */
  datatype Node = Dir | File(text: string, readable: bool, writable: bool)

  type FileMap = map<Path, Node>

  function Basename(p: Path): string {
    if p == [] then "" else p[|p| - 1]
  }

  function Dirname(p: Path): Path {
    if p == [] then [] else p[..|p| - 1]
  }

  /** `os.path.join(p, name)`; `dirname` and `basename` take it apart again. */
  function Join(p: Path, name: string): (r: Path)
    ensures Dirname(r) == p && Basename(r) == name
    ensures |r| == |p| + 1 && p <= r
  {
    p + [name]
  }

  predicate IsDir(fs: FileMap, p: Path) {
    p in fs && fs[p].Dir?
  }

  /** A well-formed tree: the root is a directory and so is the parent of every other node. */
  predicate TreeClosed(fs: FileMap) {
    && IsDir(fs, [])
    && forall p :: p in fs && p != [] ==> IsDir(fs, Dirname(p))
  }

  /** In a well-formed tree nothing lies below a path that does not exist. */
  lemma {:induction false} NoOrphans(fs: FileMap, d: Path, q: Path)
    requires TreeClosed(fs) && d !in fs && q in fs
    ensures !(d <= q)
    decreases |q|
  {
    if d <= q {
      assert q != d && q != [];
      var parent := Dirname(q);
      assert d <= parent by {
        assert |d| < |q|;
        assert d == q[..|d|] && parent[..|d|] == q[..|d|];
      }
      NoOrphans(fs, d, parent);
    }
  }

  /** `open(p, encoding='utf-8').read()`: only a readable file gives its text. */
  function ReadText(fs: FileMap, p: Path): (r: Option<string>)
    ensures r.Some? <==> p in fs && fs[p].File? && fs[p].readable
    ensures r.Some? ==> r.value == fs[p].text
  {
    if p in fs && fs[p].File? && fs[p].readable then Some(fs[p].text) else None
  }

  /** Whether `open(p, 'w')` succeeds: `p` is a writable file, or is new in an existing directory. */
  predicate CanWrite(fs: FileMap, p: Path) {
    (p in fs && fs[p].File? && fs[p].writable) || (p !in fs && p != [] && IsDir(fs, Dirname(p)))
  }

  /** The node a successful write leaves at `p`: the new text, the old read permission, writable. */
  function Written(fs: FileMap, p: Path, text: string): Node {
    File(text, p !in fs || !fs[p].File? || fs[p].readable, true)
  }

  /**
   * `open(p, 'w').write(text)`: overwrites a writable file, or creates a new file in
   * an existing directory; writing to a directory, to a read-only file or into a
   * missing directory raises.
   */
  function WriteText(fs: FileMap, p: Path, text: string): (r: Option<FileMap>)
    ensures r.Some? <==> CanWrite(fs, p)
    ensures r.Some? ==> r.value.Keys == fs.Keys + {p}
    ensures r.Some? ==> r.value[p] == Written(fs, p, text)
    ensures r.Some? ==> forall q :: q in fs && q != p ==> r.value[q] == fs[q]
    ensures r.Some? && TreeClosed(fs) ==> TreeClosed(r.value)
  {
    if p in fs then
      match fs[p]
      case Dir => None
      case File(_, readable, writable) =>
        if writable then Some(fs[p := File(text, readable, writable)]) else None
    else if p != [] && IsDir(fs, Dirname(p)) then Some(fs[p := File(text, true, true)])
    else None
  }

  /** The paths of the nodes below `src` (itself included), moved below `dst`. */
  function MovedKeys(fs: FileMap, src: Path, dst: Path): (keys: set<Path>)
    ensures forall q :: q in keys ==> dst <= q && src + q[|dst|..] in fs
    ensures forall p :: p in fs && src <= p ==> dst + p[|src|..] in keys
  {
    var keys := set p | p in fs && src <= p :: dst + p[|src|..];
    assert forall p :: p in fs && src <= p ==> src + (dst + p[|src|..])[|dst|..] == p by {
      forall p | p in fs && src <= p ensures src + (dst + p[|src|..])[|dst|..] == p {
        assert (dst + p[|src|..])[|dst|..] == p[|src|..];
      }
    }
    keys
  }

  /** The nodes below `src` (itself included), moved below `dst`. */
  function CopiedSubtree(fs: FileMap, src: Path, dst: Path): (m: FileMap)
    ensures forall q :: q in m ==> dst <= q && src + q[|dst|..] in fs && m[q] == fs[src + q[|dst|..]]
    ensures forall p :: p in fs && src <= p ==> dst + p[|src|..] in m
  {
    map q | q in MovedKeys(fs, src, dst) :: fs[src + q[|dst|..]]
  }

  /**
   * `shutil.copytree(src, dst)`: raises unless `src` is a directory and `dst` does not
   * exist; otherwise `dst` becomes a copy of the tree below `src`.
   */
  function CopyTree(fs: FileMap, src: Path, dst: Path): (r: Option<FileMap>)
    ensures r.Some? <==> IsDir(fs, src) && dst !in fs
  {
    if IsDir(fs, src) && dst !in fs then Some(fs + CopiedSubtree(fs, src, dst)) else None
  }

  /**
   * A successful copy adds exactly the image of the source tree below `dst`
   * and leaves every other path as it was.
   */
  lemma CopyTreeIsCopy(fs: FileMap, src: Path, dst: Path)
    requires TreeClosed(fs) && CopyTree(fs, src, dst).Some?
    ensures var n := CopyTree(fs, src, dst).value;
      && (forall p :: p in fs && src <= p ==> dst + p[|src|..] in n && n[dst + p[|src|..]] == fs[p])
      && (forall q :: q in n && dst <= q ==> src + q[|dst|..] in fs)
      && (forall q :: (q in n && !(dst <= q)) <==> (q in fs && !(dst <= q)))
      && (forall q :: q in fs && !(dst <= q) ==> n[q] == fs[q])
  {
    var n := CopyTree(fs, src, dst).value;
    var m := CopiedSubtree(fs, src, dst);
    forall p | p in fs && src <= p
      ensures dst + p[|src|..] in n && n[dst + p[|src|..]] == fs[p]
    {
      var q := dst + p[|src|..];
      assert q in m;
      assert q[|dst|..] == p[|src|..];
      assert src + q[|dst|..] == p;
    }
    forall q | q in n && dst <= q ensures src + q[|dst|..] in fs {
      if q !in m {
        NoOrphans(fs, dst, q);
      }
    }
  }

  /** Copying next to an existing directory keeps the tree well formed. */
  lemma CopyTreePreservesTree(fs: FileMap, src: Path, dst: Path)
    requires TreeClosed(fs) && CopyTree(fs, src, dst).Some?
    requires dst != [] && IsDir(fs, Dirname(dst))
    ensures TreeClosed(CopyTree(fs, src, dst).value)
  {
    var n := CopyTree(fs, src, dst).value;
    CopyTreeIsCopy(fs, src, dst);
    assert !(dst <= []);
    forall q | q in n && q != [] ensures IsDir(n, Dirname(q)) {
      if dst <= q {
        CopiedParentIsDir(fs, src, dst, q);
      } else {
        assert Dirname(q) <= q;
      }
    }
  }

  lemma CopiedParentIsDir(fs: FileMap, src: Path, dst: Path, q: Path)
    requires TreeClosed(fs) && CopyTree(fs, src, dst).Some?
    requires dst != [] && IsDir(fs, Dirname(dst))
    requires q in CopyTree(fs, src, dst).value && dst <= q
    ensures IsDir(CopyTree(fs, src, dst).value, Dirname(q))
  {
    var m := CopiedSubtree(fs, src, dst);
    assert CopyTree(fs, src, dst).value == fs + m;
    if q !in m {
      NoOrphans(fs, dst, q);
    }
    if q != dst {
      CopiedParentIsCopiedDir(fs, src, dst, q);
    }
  }

  lemma CopiedParentIsCopiedDir(fs: FileMap, src: Path, dst: Path, q: Path)
    requires TreeClosed(fs)
    requires q in CopiedSubtree(fs, src, dst) && q != dst
    ensures IsDir(CopiedSubtree(fs, src, dst), Dirname(q))
  {
    var m := CopiedSubtree(fs, src, dst);
    var tail := q[|dst|..];
    PrefixThenRest(dst, q);
    assert tail != [];
    var ptail := tail[..|tail| - 1];
    // the source node's parent is a directory below `src` ...
    DirnameOfAppend(src, tail);
    assert IsDir(fs, src + ptail);
    // ... and its image is the parent of `q`
    DirnameOfAppend(dst, tail);
    DirnameOfAppend(dst, ptail + [""]);
    assert (ptail + [""])[..|ptail|] == ptail;
    assert dst + ptail in m;
  }

  /** A path that starts with `a` is `a` followed by the rest of it. */
  lemma PrefixThenRest(a: Path, q: Path)
    requires a <= q
    ensures q == a + q[|a|..]
  {
  }

  /** The parent of `a + t`, for a non-empty `t`, is `a` followed by all of `t` but its last component. */
  lemma DirnameOfAppend(a: Path, t: Path)
    requires t != []
    ensures Dirname(a + t) == a + t[..|t| - 1]
    ensures a <= a + t[..|t| - 1] && (a + t[..|t| - 1])[|a|..] == t[..|t| - 1]
    ensures (a + t)[|a|..] == t
  {
  }

  /** Whether `q` is a non-empty prefix of `d`, i.e. one of the directories `os.makedirs(d)` walks through. */
  predicate OnPathTo(q: Path, d: Path) {
    q != [] && q <= d
  }

  /**
   * `os.makedirs(d, exist_ok=True)`: every ancestor of `d` and `d` itself become
   * directories; raises if one of them already exists as a file.
   */
  function MakeDirs(fs: FileMap, d: Path): (r: Option<FileMap>)
    ensures r.None? <==> exists q :: OnPathTo(q, d) && q in fs && !fs[q].Dir?
    ensures r.Some? ==> forall q :: OnPathTo(q, d) ==> IsDir(r.value, q)
    ensures r.Some? ==> forall q :: q in fs ==> q in r.value && r.value[q] == fs[q]
    ensures r.Some? ==> forall q :: q in r.value && q !in fs ==> OnPathTo(q, d) && r.value[q] == Dir
    decreases |d|
  {
    if d == [] then Some(fs)
    else
      var parent := d[..|d| - 1];
      assert forall q :: OnPathTo(q, d) <==> OnPathTo(q, parent) || q == d;
      match MakeDirs(fs, parent)
      case None => None
      case Some(m) =>
        assert d in m <==> d in fs;
        if d in m then (if m[d].Dir? then Some(m) else None) else Some(m[d := Dir])
  }

  lemma MakeDirsPreservesTree(fs: FileMap, d: Path)
    requires TreeClosed(fs) && MakeDirs(fs, d).Some?
    ensures TreeClosed(MakeDirs(fs, d).value)
  {
    var n := MakeDirs(fs, d).value;
    forall q | q in n && q != [] ensures IsDir(n, Dirname(q)) {
      if q !in fs {
        assert OnPathTo(q, d);
        if Dirname(q) != [] {
          assert OnPathTo(Dirname(q), d);
        }
      }
    }
  }

  /**
   * `shutil.copy2(src, dst)`: copies a readable file, with its permission bits, to
   * `dst`, or into `dst` when `dst` is a directory; raises when the source cannot be
   * read or the target cannot be written.
   */
  function CopyFile(fs: FileMap, src: Path, dst: Path): (r: Option<FileMap>)
    ensures r.Some? <==> ReadText(fs, src).Some? && CanWrite(fs, CopyTarget(fs, src, dst))
    ensures r.Some? ==> var target := CopyTarget(fs, src, dst);
      && r.value == fs[target := fs[src]]
      && (TreeClosed(fs) ==> TreeClosed(r.value))
  {
    var target := CopyTarget(fs, src, dst);
    if ReadText(fs, src).Some? && CanWrite(fs, target) then Some(fs[target := fs[src]]) else None
  }

  /** Where `shutil.copy2` puts the copy: inside `dst`, under the source's name, when `dst` is a directory. */
  function CopyTarget(fs: FileMap, src: Path, dst: Path): (target: Path)
    ensures IsDir(fs, dst) ==> Dirname(target) == dst && Basename(target) == Basename(src)
    ensures !IsDir(fs, dst) ==> target == dst
    ensures dst <= target
  {
    if IsDir(fs, dst) then Join(dst, Basename(src)) else dst
  }
}
