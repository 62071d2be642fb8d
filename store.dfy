/**
 * The filesystem the importer works on: a map from absolute path to file content.
 * Directories are implicit: a path is a directory exactly when some file lies
 * beneath it, so creating a directory (`mkdir`) never changes the store and
 * removing an emptied directory (`rmdir`) is automatic. `copy`, `unlink` and
 * `mkdir` fail on a path in `locked`, which stands for every permission or disk
 * error of the host; extraction is not refused and writes locked paths too.
 */
module Store {
  import opened Paths

  type Bytes = seq<bv8>
  type Files = map<Path, Bytes>

  /** `p` is a directory: some stored file lies beneath it. */
  predicate IsDir(files: Files, p: Path)
  {
    exists f :: f in files && p + "/" <= f
  }

  /** `p` lies beneath a stored file, where nothing can be created. */
  predicate UnderFile(files: Files, p: Path)
  {
    exists f :: f in files && f + "/" <= p
  }

  /** PHP `file_exists`: true for files and for directories. */
  predicate FileExists(files: Files, p: Path)
  {
    p in files || IsDir(files, p)
  }

  /** A real directory tree: no stored file is also a directory. */
  predicate WellFormed(files: Files)
  {
    forall f :: f in files ==> !IsDir(files, f)
  }

  /**
   * PHP `copy($src, $dst)` succeeds when the source is a file and the destination
   * is writable: not locked, not a directory and not beneath a file.
   */
  predicate CopyAllowed(files: Files, locked: set<Path>, src: Path, dst: Path)
  {
    src in files && dst !in locked && !IsDir(files, dst) && !UnderFile(files, dst)
  }

  /** PHP `mkdir($p, 0777, true)` succeeds when nothing exists at `p` and `p` is writable. */
  predicate MkdirAllowed(files: Files, locked: set<Path>, p: Path)
  {
    p !in locked && p !in files && !IsDir(files, p) && !UnderFile(files, p)
  }

  /**
   * The store once everything beneath directory `dir` has been deleted file by file:
   * only the locked files there, which the host refuses to delete, remain.
   */
  function Cleared(files: Files, locked: set<Path>, dir: Path): (r: Files)
    ensures r.Keys <= files.Keys
    ensures forall p :: p in r ==> r[p] == files[p]
  {
    map p | p in files && (!(dir + "/" <= p) || p in locked) :: files[p]
  }

  /** The text of `s` before its first slash (all of `s` when it has none). */
  function FirstComponent(s: string): (r: string)
    ensures r <= s && '/' !in r
    ensures |r| == |s| || s[|r|] == '/'
  {
    if s == [] || s[0] == '/' then []
    else [s[0]] + FirstComponent(s[1..])
  }

  /** The name of the entry of `dir` that holds `f`, a path beneath `dir`. */
  function ChildName(dir: Path, f: Path): string
    requires dir + "/" <= f
  {
    FirstComponent(f[|dir| + 1..])
  }

  /** PHP `scandir($dir)` without `.` and `..`: the names of the entries of `dir`. */
  function Children(files: Files, dir: Path): set<string>
  {
    set f | f in files && dir + "/" <= f :: ChildName(dir, f)
  }

  /**
   * The entries of a directory are the slash-free names `n` for which `dir/n` is a
   * file or a directory.
   */
  lemma ChildrenIff(files: Files, dir: Path, n: string)
    ensures n in Children(files, dir) <==> '/' !in n && (dir + "/" + n in files || IsDir(files, dir + "/" + n))
  {
    var c := dir + "/" + n;
    if n in Children(files, dir) {
      var f :| f in files && dir + "/" <= f && ChildName(dir, f) == n;
      ChildOf(dir, f);
    }
    if '/' !in n && (c in files || IsDir(files, c)) {
      var f :| f in files && (f == c || c + "/" <= f);
      ChildNameOf(dir, n, f);
    }
  }

  /** Every file beneath `dir` is the entry `dir/name` itself or lies beneath it. */
  lemma ChildOf(dir: Path, f: Path)
    requires dir + "/" <= f
    ensures var c := dir + "/" + ChildName(dir, f); f == c || c + "/" <= f
  {
    var n := ChildName(dir, f);
    var rest := f[|dir| + 1..];
    assert f == dir + "/" + rest;
    if |n| < |rest| {
      assert rest[|n|] == '/';
      assert (dir + "/" + n + "/") == f[..|dir| + 1 + |n| + 1];
    } else {
      assert n == rest;
    }
  }

  /** A path beneath the entry `dir/n` has `n` as its entry name in `dir`. */
  lemma ChildNameOf(dir: Path, n: string, f: Path)
    requires '/' !in n
    requires f == dir + "/" + n || dir + "/" + n + "/" <= f
    ensures dir + "/" <= f && ChildName(dir, f) == n
  {
    var rest := f[|dir| + 1..];
    assert f[..|dir| + 1] == dir + "/";
    assert n <= rest;
    FirstComponentOfPrefix(n, rest);
  }

  lemma FirstComponentOfPrefix(n: string, s: string)
    requires '/' !in n && n <= s
    requires |s| == |n| || s[|n|] == '/'
    ensures FirstComponent(s) == n
  {
    if n != [] {
      assert s[0] == n[0] && n[0] in n;
      FirstComponentOfPrefix(n[1..], s[1..]);
    }
  }

  /** Two prefixes of one string are prefixes of each other, the shorter of the longer. */
  lemma PrefixesCompare(a: string, b: string, s: string)
    ensures a <= s && b <= s && |a| <= |b| ==> a <= b
  {
    if a <= s && b <= s && |a| <= |b| {
      assert a == s[..|a|] == b[..|a|];
    }
  }

  /** A directory prefix of `dir + "/"` is `dir` itself or lies above it. */
  lemma PrefixOfSlashed(g: string, dir: string)
    ensures g + "/" <= dir + "/" ==> g == dir || g + "/" <= dir
  {
    if g + "/" <= dir + "/" {
      if |g| < |dir| {
        assert (g + "/") == (dir + "/")[..|g| + 1] == dir[..|g| + 1];
      } else {
        assert g == (g + "/")[..|g|] == (dir + "/")[..|g|] == dir;
      }
    }
  }

  /** `g + "/" <= f` for two files of the store would make `g` a directory. */
  lemma NoFileBeneathFile(files: Files, g: Path, f: Path)
    requires WellFormed(files) && g in files && f in files
    ensures !(g + "/" <= f)
  {
  }

  /** A copy that is allowed keeps the store a directory tree. */
  lemma CopyKeepsWellFormed(files: Files, locked: set<Path>, src: Path, dst: Path)
    requires WellFormed(files) && CopyAllowed(files, locked, src, dst)
    ensures WellFormed(files[dst := files[src]])
  {
    var r := files[dst := files[src]];
    forall g, f | g in r && f in r
      ensures !(g + "/" <= f)
    {
      if g != dst && f != dst {
        NoFileBeneathFile(files, g, f);
      }
    }
  }

  /** Removing files keeps the store a directory tree. */
  lemma RemovalKeepsWellFormed(files: Files, r: Files)
    requires WellFormed(files)
    requires r.Keys <= files.Keys
    ensures WellFormed(r)
  {
    forall g, f | g in r && f in r
      ensures !(g + "/" <= f)
    {
      NoFileBeneathFile(files, g, f);
    }
  }

  /** The paths the entries of an archive get once extracted beneath `dir`. */
  function PlacedPaths(dir: Path, entries: Files): (r: set<Path>)
    ensures forall k :: k in entries ==> dir + "/" + k in r
    ensures forall p :: p in r ==> dir + "/" <= p && p[|dir| + 1..] in entries
  {
    var r := set k | k in entries :: dir + "/" + k;
    assert forall p :: p in r ==> dir + "/" <= p && p[|dir| + 1..] in entries by {
      forall p | p in r
        ensures dir + "/" <= p && p[|dir| + 1..] in entries
      {
        var k :| k in entries && p == dir + "/" + k;
        assert p[|dir| + 1..] == k;
      }
    }
    r
  }

  /** The files `entries`, named relative to `dir`, placed beneath `dir`. */
  function Placed(dir: Path, entries: Files): (r: Files)
    ensures forall k :: k in entries ==> dir + "/" + k in r && r[dir + "/" + k] == entries[k]
    ensures forall p :: p in r ==> dir + "/" <= p && p[|dir| + 1..] in entries
  {
    var r := map p | p in PlacedPaths(dir, entries) :: entries[p[|dir| + 1..]];
    assert forall k :: k in entries ==> (dir + "/" + k)[|dir| + 1..] == k;
    r
  }

  /** Two extracted files lie one beneath the other only if they do in the archive. */
  lemma PlacedPair(dir: Path, entries: Files, g: Path, f: Path)
    requires WellFormed(entries)
    requires g in Placed(dir, entries) && f in Placed(dir, entries)
    ensures !(g + "/" <= f)
  {
    var k, k' := g[|dir| + 1..], f[|dir| + 1..];
    assert g == dir + "/" + k && f == dir + "/" + k';
    assert k in entries && k' in entries;
    assert !(k + "/" <= k');
    assert (g + "/")[|dir| + 1..] == k + "/";
  }

  /** An extracted file and a file that was there before never lie one beneath the other. */
  lemma PlacedAndOld(files: Files, locked: set<Path>, dir: Path, entries: Files, g: Path, f: Path)
    requires MkdirAllowed(files, locked, dir)
    requires (g in Placed(dir, entries) && f in files) || (g in files && f in Placed(dir, entries))
    ensures !(g + "/" <= f)
  {
    if g in files {
      assert dir + "/" <= f;
      assert g != dir && !(g + "/" <= dir) && !(dir + "/" <= g);
      PrefixesCompare(dir + "/", g + "/", f);
      PrefixesCompare(g + "/", dir + "/", f);
      PrefixOfSlashed(g, dir);
    } else {
      assert dir + "/" <= g;
      assert !(dir + "/" <= f);
      PrefixesCompare(dir + "/", g + "/", f);
    }
  }

  /**
   * Extracting a well-formed archive into a directory that does not exist yet keeps
   * the store a directory tree.
   */
  lemma PlacedKeepsWellFormed(files: Files, locked: set<Path>, dir: Path, entries: Files)
    requires WellFormed(files) && WellFormed(entries)
    requires MkdirAllowed(files, locked, dir)
    ensures WellFormed(files + Placed(dir, entries))
  {
    var add := Placed(dir, entries);
    var r := files + add;
    forall g, f | g in r && f in r
      ensures !(g + "/" <= f)
    {
      if g in add && f in add {
        PlacedPair(dir, entries, g, f);
      } else if g in add || f in add {
        PlacedAndOld(files, locked, dir, entries, g, f);
      } else {
        NoFileBeneathFile(files, g, f);
      }
    }
  }

  /** Every path of the store is at most `bound` long. */
  predicate LengthBound(files: Files, bound: nat)
  {
    forall p :: p in files ==> |p| <= bound
  }

  /** A bound on the length of the paths in `keys`. */
  ghost function MaxLength(keys: set<Path>): (n: nat)
    ensures forall p :: p in keys ==> |p| <= n
    decreases |keys|
  {
    if keys == {} then 0
    else
      var k :| k in keys;
      var m := MaxLength(keys - {k});
      if |k| > m then |k| else m
  }

  /** No path occurs twice in `s`. */
  predicate Distinct(s: seq<Path>)
  {
    forall i, j :: 0 <= i < j < |s| ==> s[i] != s[j]
  }

  /** `staged` lists every file beneath `dir`, each once. */
  ghost predicate IsListing(files: Files, dir: Path, staged: seq<Path>)
  {
    && (forall p :: p in staged <==> p in files && dir + "/" <= p)
    && Distinct(staged)
  }

  /**
   * The store as the importer sees it. `files` changes as files are copied, extracted
   * and removed; `locked` names the paths on which `copy`, `unlink` and `mkdir` fail.
   * Extraction writes beneath its directory regardless of `locked`.
   */
  class FileSystem {
    var files: Files
    const locked: set<Path>

    ghost predicate Valid()
      reads this
    {
      WellFormed(files)
    }

    constructor (files: Files, locked: set<Path>)
      requires WellFormed(files)
      ensures Valid() && this.files == files && this.locked == locked
    {
      this.files := files;
      this.locked := locked;
    }

    /** PHP `copy`: on success `dst` holds the content of `src`; on failure nothing changes. */
    method Copy(src: Path, dst: Path) returns (ok: bool)
      modifies this
      ensures ok == CopyAllowed(old(files), locked, src, dst)
      ensures files == if ok then old(files)[dst := old(files)[src]] else old(files)
    {
      ok := CopyAllowed(files, locked, src, dst);
      if ok {
        files := files[dst := files[src]];
      }
    }

    /** PHP `unlink`: fails for a missing or a locked file; otherwise the file at `p` is gone. */
    method Unlink(p: Path) returns (ok: bool)
      requires Valid()
      modifies this
      ensures Valid()
      ensures ok == (p in old(files) && p !in locked)
      ensures files == if ok then old(files) - {p} else old(files)
    {
      ok := p in files && p !in locked;
      if ok {
        RemovalKeepsWellFormed(files, files - {p});
        files := files - {p};
      }
    }

    /** PHP `mkdir` of the temporary directory: reports whether it could be created. */
    method Mkdir(p: Path) returns (ok: bool)
      ensures ok == MkdirAllowed(files, locked, p)
    {
      ok := MkdirAllowed(files, locked, p);
    }

    /** PHP `is_dir`. */
    method IsDirectory(p: Path) returns (b: bool)
      ensures b == IsDir(files, p)
    {
      b := IsDir(files, p);
    }

    /** PHP `file_exists`. */
    method Exists(p: Path) returns (b: bool)
      ensures b == FileExists(files, p)
    {
      b := FileExists(files, p);
    }

    /**
     * PHP `scandir`, without the `.` and `..` entries: the names `n` without a slash
     * for which `dir/n` is a file or a directory.
     */
    method ScanDir(dir: Path) returns (names: set<string>)
      ensures forall n :: n in names <==> '/' !in n && (dir + "/" + n in files || IsDir(files, dir + "/" + n))
      ensures names == Children(files, dir)
    {
      names := Children(files, dir);
      forall n
        ensures n in names <==> '/' !in n && (dir + "/" + n in files || IsDir(files, dir + "/" + n))
      {
        ChildrenIff(files, dir, n);
      }
    }

    /** `ZipArchive::extractTo($dir)`: every entry of the archive is written beneath `dir`. */
    method ExtractTo(dir: Path, entries: Files)
      requires Valid() && WellFormed(entries)
      requires MkdirAllowed(files, locked, dir)
      modifies this
      ensures Valid()
      ensures files == old(files) + Placed(dir, entries)
    {
      PlacedKeepsWellFormed(files, locked, dir, entries);
      files := files + Placed(dir, entries);
    }
  }
}
