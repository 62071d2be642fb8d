/**
 * The translation-file distributor of the PrestaShop module `translationimporter`:
 * an uploaded archive is extracted into a temporary directory, every translation
 * file in it is copied into the theme's or the core's translation folder of one
 * language (flattened to its file name, backing up any file it replaces), and the
 * temporary directory is removed again.
 */
module TranslationImporter {
  import opened Wrappers
  import opened Paths
  import opened Store

  /** The module's name (`$this->name`), part of its temporary and backup paths. */
  const ModuleName: string := "translationimporter"

  /**
   * The shop installation: its root directory (`_PS_ROOT_DIR_`, with the module
   * directory `_PS_MODULE_DIR_` at `<root>/modules/`) and the name of the theme the
   * shop context reports.
   */
  datatype Site = Site(root: Path, themeName: string)

  /**
   * One upload: the submitted target type (`"theme"`, `"core"`, anything else
   * auto-detects), the language folder such as `it-IT`, and the run's timestamp.
   */
  datatype Job = Job(site: Site, mode: string, iso: string, timestamp: string)

  /** The line added to the summary when files were backed up. */
  datatype BackupLine = BackupLine(count: nat, dir: string)

  /** What the module shows the administrator, in order. */
  datatype Message =
    | ZipOpenFailed
    | TmpDirFailed
    | CopyFailed(filename: string)
    | Imported(count: nat, mode: string, backups: Option<BackupLine>)

  function ModuleDir(site: Site): Path
  {
    site.root + "/modules/" + ModuleName
  }

  /** The extraction directory of a run (`realpath` drops the trailing slash). */
  function TmpDir(site: Site, timestamp: string): Path
  {
    ModuleDir(site) + "/tmp/" + timestamp
  }

  /** The backup folder of a run. */
  function BackupRoot(site: Site, timestamp: string): Path
  {
    ModuleDir(site) + "/backups/" + timestamp + "/"
  }

  function ThemeDir(site: Site, iso: string): Path
  {
    site.root + "/themes/" + site.themeName + "/translations/" + iso + "/"
  }

  function CoreDir(site: Site, iso: string): Path
  {
    site.root + "/app/Resources/translations/" + iso + "/"
  }

  /** A file is imported only when its extension is exactly `xlf`, `php` or `tpl`. */
  predicate Accepted(filename: string)
  {
    var ext := Extension(filename);
    ext == "xlf" || ext == "php" || ext == "tpl"
  }

  /** Auto-detection's theme test: the full path mentions `Theme` or the name starts with `Shop`. */
  predicate ThemeMarked(file: Path)
  {
    Contains(file, "Theme") || "Shop" <= Basename(file)
  }

  /** Auto-detection's core test: the full path mentions `prestashop` or the name starts with `Admin`. */
  predicate CoreMarked(file: Path)
  {
    Contains(file, "prestashop") || "Admin" <= Basename(file)
  }

  /** The theme and core folders differ already in the first letter after the root. */
  lemma ThemeDirIsNotCoreDir(site: Site, iso: string)
    ensures ThemeDir(site, iso) != CoreDir(site, iso)
  {
    assert ThemeDir(site, iso)[|site.root| + 1] == 't';
    assert CoreDir(site, iso)[|site.root| + 1] == 'a';
  }

  /**
   * The folder a staged file is copied into. Theme and core modes force their folder;
   * any other mode routes by the first test that matches: theme markers, then core
   * markers, and the theme folder when neither matches.
   */
  function Destination(job: Job, file: Path): Path
  {
    if job.mode == "theme" then ThemeDir(job.site, job.iso)
    else if job.mode == "core" then CoreDir(job.site, job.iso)
    else if ThemeMarked(file) then ThemeDir(job.site, job.iso)
    else if CoreMarked(file) then CoreDir(job.site, job.iso)
    else ThemeDir(job.site, job.iso)
  }

  /**
   * Routing: every staged file goes to the theme folder or to the core folder; the two
   * modes force their folder, and auto-detection picks the core folder exactly when the
   * file carries a core marker and no theme marker.
   */
  lemma DestinationChoice(job: Job, file: Path)
    ensures var d := Destination(job, file);
      && (d == ThemeDir(job.site, job.iso) || d == CoreDir(job.site, job.iso))
      && (job.mode == "theme" ==> d == ThemeDir(job.site, job.iso))
      && (job.mode == "core" ==> d == CoreDir(job.site, job.iso))
      && (d == CoreDir(job.site, job.iso) <==>
            job.mode == "core" || (job.mode != "theme" && !ThemeMarked(file) && CoreMarked(file)))
  {
    ThemeDirIsNotCoreDir(job.site, job.iso);
  }

  /** Where a staged file lands: its destination folder plus its bare file name. */
  function Target(job: Job, file: Path): Path
  {
    Destination(job, file) + Basename(file)
  }

  /** Where the file a staged file replaces is backed up. */
  function BackupPath(job: Job, file: Path): Path
  {
    BackupRoot(job.site, job.timestamp) + Basename(file)
  }

  /** The counters, the error log and the store while files are distributed. */
  datatype Tally = Tally(files: Files, count: nat, backups: nat, log: seq<Message>)

  /** Backing up `target` to `backup`, when the target exists and the copy succeeds. */
  function BackUp(t: Tally, locked: set<Path>, target: Path, backup: Path): Tally
  {
    if FileExists(t.files, target) && CopyAllowed(t.files, locked, target, backup) then
      t.(files := t.files[backup := t.files[target]], backups := t.backups + 1)
    else
      t
  }

  /** Copying staged `src` to `target`: counted when it succeeds, logged under `name` when it fails. */
  function Deliver(t: Tally, locked: set<Path>, src: Path, target: Path, name: string): Tally
  {
    if CopyAllowed(t.files, locked, src, target) then
      t.(files := t.files[target := t.files[src]], count := t.count + 1)
    else
      t.(log := t.log + [CopyFailed(name)])
  }

  /** Distributing one staged file: skip it, or back up its target and copy it there. */
  function Step(t: Tally, locked: set<Path>, job: Job, file: Path): Tally
  {
    var name := Basename(file);
    if !Accepted(name) then t
    else
      var target := Target(job, file);
      Deliver(BackUp(t, locked, target, BackupPath(job, file)), locked, file, target, name)
  }

  /** Distributing the staged files in order, starting from store `files0`. */
  function Run(files0: Files, locked: set<Path>, job: Job, staged: seq<Path>): Tally
  {
    if staged == [] then Tally(files0, 0, 0, [])
    else Step(Run(files0, locked, job, staged[..|staged| - 1]), locked, job, staged[|staged| - 1])
  }

  /** The run's output: the copy errors, then the summary (with a backup line only if any were made). */
  function Summary(job: Job, t: Tally): seq<Message>
  {
    var line := if t.backups > 0
                then Some(BackupLine(t.backups, "modules/" + ModuleName + "/backups/" + job.timestamp + "/"))
                else None;
    t.log + [Imported(t.count, job.mode, line)]
  }

  /** `getDirContents`: every file beneath `dir`, found by walking its directories. */
  method GetDirContents(fs: FileSystem, dir: Path, ghost bound: nat) returns (results: seq<Path>)
    requires fs.Valid() && LengthBound(fs.files, bound) && |dir| <= bound
    ensures IsListing(fs.files, dir, results)
    decreases bound - |dir|
  {
    results := [];
    var names := fs.ScanDir(dir);
    ghost var done: set<string> := {};
    while names != {}
      invariant names + done == Children(fs.files, dir) && names !! done
      invariant ListedSoFar(fs.files, dir, done, results)
      decreases names
    {
      var value :| value in names;
      var path := dir + "/" + value;
      ChildEntry(fs.files, dir, value);
      var isDir := fs.IsDirectory(path);
      var found: seq<Path>;
      if !isDir {
        found := [path];
      } else {
        found := GetDirContents(fs, path, bound);
      }
      ListingGrows(fs.files, dir, done, results, value, found);
      results := results + found;
      names := names - {value};
      done := done + {value};
    }
    ListingComplete(fs.files, dir, done, results);
  }

  /** `results` lists, each once, the files beneath the entries `done` of `dir`. */
  ghost predicate ListedSoFar(files: Files, dir: Path, done: set<string>, results: seq<Path>)
  {
    && (forall p :: p in results <==> p in files && dir + "/" <= p && ChildName(dir, p) in done)
    && Distinct(results)
  }

  /** `found` lists, each once, the files of the entry `path`: the entry itself or the files beneath it. */
  ghost predicate ListsEntry(files: Files, path: Path, found: seq<Path>)
  {
    && (forall p :: p in found <==> p in files && (p == path || path + "/" <= p))
    && Distinct(found)
  }

  /** Adding the files of one more entry keeps the partial listing exact. */
  lemma ListingGrows(files: Files, dir: Path, done: set<string>, results: seq<Path>, value: string, found: seq<Path>)
    requires '/' !in value && value !in done
    requires ListedSoFar(files, dir, done, results)
    requires ListsEntry(files, dir + "/" + value, found)
    ensures ListedSoFar(files, dir, done + {value}, results + found)
  {
    var path := dir + "/" + value;
    forall p | p in found
      ensures dir + "/" <= p && ChildName(dir, p) == value
    {
      ChildNameOf(dir, value, p);
    }
    forall p | p in files && dir + "/" <= p && ChildName(dir, p) == value
      ensures p in found
    {
      ChildOf(dir, p);
    }
    var r := results + found;
    forall i, j | 0 <= i < j < |r|
      ensures r[i] != r[j]
    {
      if j >= |results| && i < |results| {
        assert r[i] in results && r[j] in found;
      }
    }
  }

  /** Once every entry is done, the partial listing is the whole listing. */
  lemma ListingComplete(files: Files, dir: Path, done: set<string>, results: seq<Path>)
    requires done == Children(files, dir)
    requires ListedSoFar(files, dir, done, results)
    ensures IsListing(files, dir, results)
  {
    forall p | p in files && dir + "/" <= p
      ensures ChildName(dir, p) in done
    {
    }
  }

  /**
   * What lies beneath the entry `dir/value`: a file that is not a directory, or a
   * directory that is not a file. Either way its files are the ones whose entry name is `value`.
   */
  lemma ChildEntry(files: Files, dir: Path, value: string)
    requires WellFormed(files) && value in Children(files, dir)
    ensures var path := dir + "/" + value;
      && '/' !in value
      && (IsDir(files, path) ==> path !in files)
      && (!IsDir(files, path) ==> ListsEntry(files, path, [path]))
  {
    var path := dir + "/" + value;
    var f :| f in files && dir + "/" <= f && ChildName(dir, f) == value;
    ChildOf(dir, f);
  }

  /**
   * `distributeFiles`: copy every accepted file beneath `sourceDir` into its
   * destination, backing up what it replaces, and report. Returns the staged files
   * in the order the walk found them.
   */
  method DistributeFiles(fs: FileSystem, job: Job, sourceDir: Path, ghost bound: nat)
    returns (log: seq<Message>, ghost staged: seq<Path>)
    requires fs.Valid() && LengthBound(fs.files, bound) && |sourceDir| <= bound
    modifies fs
    ensures fs.Valid()
    ensures IsListing(old(fs.files), sourceDir, staged)
    ensures fs.files == Run(old(fs.files), fs.locked, job, staged).files
    ensures log == Summary(job, Run(old(fs.files), fs.locked, job, staged))
  {
    var files := GetDirContents(fs, sourceDir, bound);
    staged := files;
    var count, backupCount := 0, 0;
    log := [];
    var i := 0;
    while i < |files|
      invariant 0 <= i <= |files|
      invariant Run(old(fs.files), fs.locked, job, files[..i]) == Tally(fs.files, count, backupCount, log)
    {
      assert files[..i + 1][..i] == files[..i];
      count, backupCount, log := DistributeFile(fs, job, files[i], count, backupCount, log);
      i := i + 1;
    }
    assert files[..i] == files;
    RunKeepsWellFormed(old(fs.files), fs.locked, job, files);
    var line := None;
    if backupCount > 0 {
      line := Some(BackupLine(backupCount, "modules/" + ModuleName + "/backups/" + job.timestamp + "/"));
    }
    log := log + [Imported(count, job.mode, line)];
  }

  /** One turn of the loop of `distributeFiles`: the staged `file` handled as `Step` says. */
  method DistributeFile(fs: FileSystem, job: Job, file: Path, count: nat, backupCount: nat, log: seq<Message>)
    returns (count': nat, backupCount': nat, log': seq<Message>)
    modifies fs
    ensures Tally(fs.files, count', backupCount', log') ==
            Step(Tally(old(fs.files), count, backupCount, log), fs.locked, job, file)
  {
    var filename := Basename(file);
    if !Accepted(filename) {
      return count, backupCount, log;
    }
    var destination := Destination(job, file);
    var targetFile := destination + filename;
    var backupFile := BackupRoot(job.site, job.timestamp) + filename;
    backupCount' := BackUpExisting(fs, targetFile, backupFile, count, backupCount, log);
    count', log' := CopyInto(fs, file, targetFile, filename, count, backupCount', log);
  }

  /** Backing up an existing target before it is overwritten. */
  method BackUpExisting(fs: FileSystem, target: Path, backup: Path, count: nat, backupCount: nat, log: seq<Message>)
    returns (backupCount': nat)
    modifies fs
    ensures Tally(fs.files, count, backupCount', log) ==
            BackUp(Tally(old(fs.files), count, backupCount, log), fs.locked, target, backup)
  {
    backupCount' := backupCount;
    var targetExists := fs.Exists(target);
    if targetExists {
      var backedUp := fs.Copy(target, backup);
      if backedUp {
        backupCount' := backupCount' + 1;
      }
    }
  }

  /** Copying the staged file over its target, counting a success and logging a failure. */
  method CopyInto(fs: FileSystem, src: Path, target: Path, name: string, count: nat, backupCount: nat, log: seq<Message>)
    returns (count': nat, log': seq<Message>)
    modifies fs
    ensures Tally(fs.files, count', backupCount, log') ==
            Deliver(Tally(old(fs.files), count, backupCount, log), fs.locked, src, target, name)
  {
    count', log' := count, log;
    var copied := fs.Copy(src, target);
    if copied {
      count' := count' + 1;
    } else {
      log' := log' + [CopyFailed(name)];
    }
  }

  /** One staged file never breaks the directory tree: both of its copies are allowed ones. */
  lemma StepKeepsWellFormed(t: Tally, locked: set<Path>, job: Job, file: Path)
    requires WellFormed(t.files)
    ensures WellFormed(Step(t, locked, job, file).files)
  {
    var target, bak := Target(job, file), BackupPath(job, file);
    if FileExists(t.files, target) && CopyAllowed(t.files, locked, target, bak) {
      CopyKeepsWellFormed(t.files, locked, target, bak);
    }
    var t1 := BackUp(t, locked, target, bak);
    if CopyAllowed(t1.files, locked, file, target) {
      CopyKeepsWellFormed(t1.files, locked, file, target);
    }
  }

  /** Distribution keeps the store a directory tree. */
  lemma {:induction false} RunKeepsWellFormed(files0: Files, locked: set<Path>, job: Job, staged: seq<Path>)
    requires WellFormed(files0)
    ensures WellFormed(Run(files0, locked, job, staged).files)
  {
    if staged != [] {
      var prefix := staged[..|staged| - 1];
      RunKeepsWellFormed(files0, locked, job, prefix);
      StepKeepsWellFormed(Run(files0, locked, job, prefix), locked, job, staged[|staged| - 1]);
    }
  }

  /**
   * `recursiveRemoveDir`: delete every file beneath `dir`, directory by directory. The
   * result of each `unlink` is ignored, so the locked files stay where they were.
   */
  method RecursiveRemoveDir(fs: FileSystem, dir: Path, ghost bound: nat)
    requires fs.Valid() && LengthBound(fs.files, bound) && |dir| <= bound
    modifies fs
    ensures fs.Valid()
    ensures fs.files == Cleared(old(fs.files), fs.locked, dir)
    decreases bound - |dir|
  {
    var isDir := fs.IsDirectory(dir);
    if !isDir {
      NothingBeneath(fs.files, fs.locked, dir);
      return;
    }
    var objects := fs.ScanDir(dir);
    ghost var done: set<string> := {};
    RemovedNone(fs.files, fs.locked, dir);
    while objects != {}
      invariant fs.Valid() && LengthBound(fs.files, bound)
      invariant objects + done == Children(old(fs.files), dir) && objects !! done
      invariant fs.files == RemovedEntries(old(fs.files), fs.locked, dir, done)
      decreases objects
    {
      var entry :| entry in objects;
      var path := dir + "/" + entry;
      RemovalGrows(old(fs.files), fs.locked, dir, done, entry);
      var sub := fs.IsDirectory(path);
      if sub {
        RecursiveRemoveDir(fs, path, bound);
      } else {
        var _ := fs.Unlink(path);
      }
      objects := objects - {entry};
      done := done + {entry};
    }
    RemovedAll(old(fs.files), fs.locked, dir, done);
  }

  /** The store once the entries `done` of `dir` have been removed, files and directories alike, locked files excepted. */
  function RemovedEntries(files: Files, locked: set<Path>, dir: Path, done: set<string>): (r: Files)
    ensures r.Keys <= files.Keys
    ensures forall p :: p in r ==> r[p] == files[p]
  {
    map p | p in files && !(dir + "/" <= p && ChildName(dir, p) in done && p !in locked) :: files[p]
  }

  lemma RemovedNone(files: Files, locked: set<Path>, dir: Path)
    ensures RemovedEntries(files, locked, dir, {}) == files
  {
  }

  /** A path that is not a directory has nothing beneath it to remove. */
  lemma NothingBeneath(files: Files, locked: set<Path>, dir: Path)
    requires !IsDir(files, dir)
    ensures Cleared(files, locked, dir) == files
  {
  }

  /** With every entry of `dir` done, all of `dir` but its locked files is gone. */
  lemma RemovedAll(files: Files, locked: set<Path>, dir: Path, done: set<string>)
    requires done == Children(files, dir)
    ensures RemovedEntries(files, locked, dir, done) == Cleared(files, locked, dir)
  {
    forall p | p in files && dir + "/" <= p
      ensures ChildName(dir, p) in done
    {
    }
  }

  /**
   * Removing one more entry: it looks as it did before the removal started, and deleting
   * it (the file, or everything beneath the directory) leaves the entries `done + {value}` removed.
   */
  lemma RemovalGrows(files: Files, locked: set<Path>, dir: Path, done: set<string>, value: string)
    requires WellFormed(files) && value in Children(files, dir) && value !in done
    ensures var path, cur := dir + "/" + value, RemovedEntries(files, locked, dir, done);
      && (IsDir(cur, path) <==> IsDir(files, path))
      && (IsDir(files, path) ==> Cleared(cur, locked, path) == RemovedEntries(files, locked, dir, done + {value}))
      && (!IsDir(files, path) ==> path in cur)
      && (!IsDir(files, path) && path !in locked ==> cur - {path} == RemovedEntries(files, locked, dir, done + {value}))
      && (!IsDir(files, path) && path in locked ==> cur == RemovedEntries(files, locked, dir, done + {value}))
  {
    ChildEntry(files, dir, value);
    EntryNamed(files, dir, value);
    EntryStillThere(files, locked, dir, done, value);
    if IsDir(files, dir + "/" + value) {
      DirEntryRemoved(files, locked, dir, done, value);
    } else {
      FileEntryRemoved(files, locked, dir, done, value);
    }
  }

  lemma EntryStillThere(files: Files, locked: set<Path>, dir: Path, done: set<string>, value: string)
    requires '/' !in value && value !in done
    requires forall p :: p in files && (p == dir + "/" + value || dir + "/" + value + "/" <= p) ==>
               dir + "/" <= p && ChildName(dir, p) == value
    ensures IsDir(RemovedEntries(files, locked, dir, done), dir + "/" + value) <==> IsDir(files, dir + "/" + value)
    ensures dir + "/" + value in files ==> dir + "/" + value in RemovedEntries(files, locked, dir, done)
  {
    var path := dir + "/" + value;
    if IsDir(files, path) {
      var f :| f in files && path + "/" <= f;
      assert f in RemovedEntries(files, locked, dir, done);
    }
  }

  lemma DirEntryRemoved(files: Files, locked: set<Path>, dir: Path, done: set<string>, value: string)
    requires dir + "/" + value !in files
    requires forall p :: p in files && dir + "/" + value + "/" <= p ==> dir + "/" <= p && ChildName(dir, p) == value
    requires forall p :: p in files && dir + "/" <= p && ChildName(dir, p) == value ==>
               p == dir + "/" + value || dir + "/" + value + "/" <= p
    ensures Cleared(RemovedEntries(files, locked, dir, done), locked, dir + "/" + value) ==
            RemovedEntries(files, locked, dir, done + {value})
  {
    var path := dir + "/" + value;
    var l, r := Cleared(RemovedEntries(files, locked, dir, done), locked, path), RemovedEntries(files, locked, dir, done + {value});
    forall p
      ensures p in l <==> p in r
    {
    }
    assert l == r;
  }

  lemma FileEntryRemoved(files: Files, locked: set<Path>, dir: Path, done: set<string>, value: string)
    requires !IsDir(files, dir + "/" + value)
    requires forall p :: p in files && p == dir + "/" + value ==> dir + "/" <= p && ChildName(dir, p) == value
    requires forall p :: p in files && dir + "/" <= p && ChildName(dir, p) == value ==>
               p == dir + "/" + value || dir + "/" + value + "/" <= p
    ensures var path, cur := dir + "/" + value, RemovedEntries(files, locked, dir, done);
      (if path in locked then cur else cur - {path}) == RemovedEntries(files, locked, dir, done + {value})
  {
    var path := dir + "/" + value;
    var cur := RemovedEntries(files, locked, dir, done);
    var l, r := (if path in locked then cur else cur - {path}), RemovedEntries(files, locked, dir, done + {value});
    forall p
      ensures p in l <==> p in r
    {
      assert p in files ==> !(path + "/" <= p);
    }
    assert l == r;
  }

  /** The files whose entry name in `dir` is `value` are `dir/value` and the files beneath it. */
  lemma EntryNamed(files: Files, dir: Path, value: string)
    requires '/' !in value
    ensures forall p :: p in files && (p == dir + "/" + value || dir + "/" + value + "/" <= p) ==>
              dir + "/" <= p && ChildName(dir, p) == value
    ensures forall p :: p in files && dir + "/" <= p && ChildName(dir, p) == value ==>
              p == dir + "/" + value || dir + "/" + value + "/" <= p
  {
    var path := dir + "/" + value;
    forall p | p in files && (p == path || path + "/" <= p)
      ensures dir + "/" <= p && ChildName(dir, p) == value
    {
      ChildNameOf(dir, value, p);
    }
    forall p | p in files && dir + "/" <= p && ChildName(dir, p) == value
      ensures p == path || path + "/" <= p
    {
      ChildOf(dir, p);
    }
  }

  /**
   * `processUpload` once the upload itself has been accepted: `archive` is the zip's
   * content, `None` when it cannot be opened. Returns the files staged by the run.
   */
  method ProcessUpload(fs: FileSystem, job: Job, archive: Option<Files>)
    returns (output: seq<Message>, ghost staged: seq<Path>)
    requires fs.Valid()
    requires archive.Some? ==> WellFormed(archive.value)
    modifies fs
    ensures fs.Valid()
    ensures archive.None? ==> output == [ZipOpenFailed] && fs.files == old(fs.files)
    ensures archive.Some? && !MkdirAllowed(old(fs.files), fs.locked, TmpDir(job.site, job.timestamp)) ==>
              output == [TmpDirFailed] && fs.files == old(fs.files)
    ensures archive.Some? && MkdirAllowed(old(fs.files), fs.locked, TmpDir(job.site, job.timestamp)) ==>
              var tmp := TmpDir(job.site, job.timestamp);
              var extracted := old(fs.files) + Placed(tmp, archive.value);
              && IsListing(extracted, tmp, staged)
              && output == Summary(job, Run(extracted, fs.locked, job, staged))
              && fs.files == Cleared(Run(extracted, fs.locked, job, staged).files, fs.locked, tmp)
  {
    staged := [];
    if archive.None? {
      output := [ZipOpenFailed];
      return;
    }
    var tmpDir := TmpDir(job.site, job.timestamp);
    var created := fs.Mkdir(tmpDir);
    if !created {
      output := [TmpDirFailed];
      return;
    }
    fs.ExtractTo(tmpDir, archive.value);
    ghost var extracted := fs.files;
    ghost var bound := MaxLength(fs.files.Keys) + |tmpDir|;
    output, staged := DistributeFiles(fs, job, tmpDir, bound);
    assert LengthBound(fs.files, bound + MaxLength(fs.files.Keys));
    RecursiveRemoveDir(fs, tmpDir, bound + MaxLength(fs.files.Keys));
  }
}
