/**
 * What a distribution run guarantees: which files it imports, where it writes, what the
 * counters and the messages report, and what the backup folder ends up holding.
 */
module ImporterProofs {
  import opened Wrappers
  import opened Paths
  import opened Store
  import opened TranslationImporter

  // ---------------------------------------------------------------------------
  // Which files are imported

  /** The extension test is a suffix test: exactly the names ending in `.xlf`, `.php` or `.tpl` pass. */
  lemma AcceptedIffSuffix(name: string)
    ensures Accepted(name) <==> EndsWith(name, ".xlf") || EndsWith(name, ".php") || EndsWith(name, ".tpl")
  {
    AcceptedHasSuffix(name);
    SuffixAccepted(name, "xlf");
    SuffixAccepted(name, "php");
    SuffixAccepted(name, "tpl");
  }

  lemma AcceptedHasSuffix(name: string)
    ensures Accepted(name) ==> EndsWith(name, ".xlf") || EndsWith(name, ".php") || EndsWith(name, ".tpl")
  {
    ExtensionSplits(name);
    if Accepted(name) {
      EndsWithExtension(name);
      var ext := Extension(name);
      assert "." + ext == ".xlf" || "." + ext == ".php" || "." + ext == ".tpl";
    }
  }

  lemma EndsWithExtension(name: string)
    requires '.' in name
    ensures EndsWith(name, "." + Extension(name))
  {
    ExtensionSplits(name);
    var ext := Extension(name);
    assert name[|name| - |ext| - 1..] == "." + ext;
  }

  lemma SuffixAccepted(name: string, ext: string)
    requires '.' !in ext
    ensures EndsWith(name, "." + ext) ==> Extension(name) == ext
  {
    if EndsWith(name, "." + ext) {
      var a := name[..|name| - |ext| - 1];
      assert name == a + ['.'] + ext;
      assert name[|a|] == '.';
      AfterLastOfTail(a, '.', ext);
    }
  }

  /** The staged files a run imports, in staging order. */
  function AcceptedOnly(staged: seq<Path>): (r: seq<Path>)
    ensures |r| <= |staged|
  {
    if staged == [] then []
    else
      var last := staged[|staged| - 1];
      AcceptedOnly(staged[..|staged| - 1]) + (if Accepted(Basename(last)) then [last] else [])
  }

  /** The accepted files are the staged files whose name passes the extension test. */
  lemma {:induction false} AcceptedOnlyMembers(staged: seq<Path>)
    ensures forall f :: f in AcceptedOnly(staged) <==> f in staged && Accepted(Basename(f))
  {
    if staged != [] {
      var prefix := staged[..|staged| - 1];
      AcceptedOnlyMembers(prefix);
      assert staged == prefix + [staged[|staged| - 1]];
    }
  }

  /** Files with any other extension are skipped: the run is the run over the accepted files alone. */
  lemma {:induction false} RejectedFilesIgnored(files0: Files, locked: set<Path>, job: Job, staged: seq<Path>)
    ensures Run(files0, locked, job, staged) == Run(files0, locked, job, AcceptedOnly(staged))
  {
    if staged != [] {
      var prefix, last := staged[..|staged| - 1], staged[|staged| - 1];
      RejectedFilesIgnored(files0, locked, job, prefix);
      if Accepted(Basename(last)) {
        var acc := AcceptedOnly(prefix) + [last];
        assert acc[..|acc| - 1] == AcceptedOnly(prefix);
      } else {
        assert AcceptedOnly(staged) == AcceptedOnly(prefix);
        StepSkips(Run(files0, locked, job, prefix), locked, job, last);
      }
    }
  }

  // ---------------------------------------------------------------------------
  // Where a run writes

  /** Targets lie in the theme or core folder, backups in the module's backup folder, staging in its tmp folder. */
  lemma TargetIsNotBackup(job: Job, f: Path, g: Path)
    ensures Target(job, f) != BackupPath(job, g)
  {
    var k := |job.site.root| + 1;
    DestinationChoice(job, f);
    assert BackupPath(job, g)[k] == 'm';
    assert Target(job, f)[k] == 't' || Target(job, f)[k] == 'a';
  }

  /** Nothing a run writes lies in the staging folder. */
  lemma WritesOutsideStaging(job: Job, f: Path, p: Path)
    requires TmpDir(job.site, job.timestamp) + "/" <= p
    ensures p != Target(job, f) && p != BackupPath(job, f)
  {
    var k := |job.site.root| + 1;
    DestinationChoice(job, f);
    assert p[k] == 'm';
    assert Target(job, f)[k] == 't' || Target(job, f)[k] == 'a';
    var m := |ModuleDir(job.site)| + 1;
    assert p[m] == 't';
    assert BackupPath(job, f)[m] == 'b';
  }

  /** `p` is the target or the backup path of an accepted staged file. */
  predicate Written(job: Job, staged: seq<Path>, p: Path)
  {
    exists i :: 0 <= i < |staged| && Accepted(Basename(staged[i])) &&
      (p == Target(job, staged[i]) || p == BackupPath(job, staged[i]))
  }

  /** A backup writes the backup path only. */
  lemma BackUpFrame(t: Tally, locked: set<Path>, target: Path, bak: Path)
    ensures var s := BackUp(t, locked, target, bak);
      && t.files.Keys <= s.files.Keys
      && forall p :: p in s.files && p != bak ==> p in t.files && s.files[p] == t.files[p]
  {
  }

  /** Delivering a file writes its target only. */
  lemma DeliverFrame(t: Tally, locked: set<Path>, src: Path, target: Path, name: string)
    ensures var s := Deliver(t, locked, src, target, name);
      && t.files.Keys <= s.files.Keys
      && forall p :: p in s.files && p != target ==> p in t.files && s.files[p] == t.files[p]
  {
  }

  /** A skipped file changes nothing. */
  lemma StepSkips(t: Tally, locked: set<Path>, job: Job, file: Path)
    requires !Accepted(Basename(file))
    ensures Step(t, locked, job, file) == t
  {
  }

  /** One step writes at most the target and the backup path of its file, and deletes nothing. */
  lemma StepFrame(t: Tally, locked: set<Path>, job: Job, file: Path)
    ensures var s := Step(t, locked, job, file);
      && t.files.Keys <= s.files.Keys
      && forall p :: p in s.files && !(p in t.files && s.files[p] == t.files[p]) ==>
           Accepted(Basename(file)) && (p == Target(job, file) || p == BackupPath(job, file))
  {
    if Accepted(Basename(file)) {
      var target, bak := Target(job, file), BackupPath(job, file);
      BackUpFrame(t, locked, target, bak);
      DeliverFrame(BackUp(t, locked, target, bak), locked, file, target, Basename(file));
    } else {
      StepSkips(t, locked, job, file);
    }
  }

  /** One step counts its file once, as a copy or as a logged failure, and backs up at most once. */
  lemma StepCounts(t: Tally, locked: set<Path>, job: Job, file: Path)
    ensures var s := Step(t, locked, job, file);
      var n := if Accepted(Basename(file)) then 1 else 0;
      && s.count + |s.log| == t.count + |t.log| + n
      && t.backups <= s.backups <= t.backups + n
      && s.log[..|t.log|] == t.log
      && forall m :: m in s.log[|t.log|..] ==> m.CopyFailed?
  {
    if Accepted(Basename(file)) {
      var target, bak := Target(job, file), BackupPath(job, file);
      var t1 := BackUp(t, locked, target, bak);
      assert t1.count == t.count && t1.log == t.log && t.backups <= t1.backups <= t.backups + 1;
      var s := Deliver(t1, locked, file, target, Basename(file));
      assert s.count + |s.log| == t1.count + |t1.log| + 1;
      assert s.backups == t1.backups;
      assert s.log[..|t.log|] == t.log;
    } else {
      StepSkips(t, locked, job, file);
    }
  }

  /**
   * A run deletes nothing, and every path it creates or changes is the target or the
   * backup path of an accepted staged file.
   */
  lemma {:induction false} RunFrame(files0: Files, locked: set<Path>, job: Job, staged: seq<Path>)
    ensures var r := Run(files0, locked, job, staged).files;
      && files0.Keys <= r.Keys
      && forall p :: p in r && !(p in files0 && r[p] == files0[p]) ==> Written(job, staged, p)
  {
    if staged != [] {
      var prefix, last := staged[..|staged| - 1], staged[|staged| - 1];
      var t := Run(files0, locked, job, prefix);
      RunFrame(files0, locked, job, prefix);
      StepFrame(t, locked, job, last);
      var r := Run(files0, locked, job, staged).files;
      forall p | p in r && !(p in files0 && r[p] == files0[p])
        ensures Written(job, staged, p)
      {
        if p in t.files && r[p] == t.files[p] {
          assert Written(job, prefix, p);
          var i :| 0 <= i < |prefix| && Accepted(Basename(prefix[i])) &&
            (p == Target(job, prefix[i]) || p == BackupPath(job, prefix[i]));
          assert staged[i] == prefix[i];
        } else {
          assert staged[|staged| - 1] == last;
        }
      }
    }
  }

  /** The staged files themselves are never overwritten: every step reads the content that was extracted. */
  lemma StagingUntouched(files0: Files, locked: set<Path>, job: Job, staged: seq<Path>, p: Path)
    requires TmpDir(job.site, job.timestamp) + "/" <= p && p in files0
    ensures var r := Run(files0, locked, job, staged).files;
      p in r && r[p] == files0[p]
  {
    RunFrame(files0, locked, job, staged);
    var r := Run(files0, locked, job, staged).files;
    if r[p] != files0[p] {
      var i :| 0 <= i < |staged| && Accepted(Basename(staged[i])) &&
        (p == Target(job, staged[i]) || p == BackupPath(job, staged[i]));
      WritesOutsideStaging(job, staged[i], p);
    }
  }

  // ---------------------------------------------------------------------------
  // What a run reports

  /**
   * Every accepted file is counted once: as a successful copy or as a logged failure.
   * Backups never outnumber the accepted files, and the log holds copy failures only.
   */
  lemma {:induction false} RunAccounting(files0: Files, locked: set<Path>, job: Job, staged: seq<Path>)
    ensures var r := Run(files0, locked, job, staged);
      && r.count + |r.log| == |AcceptedOnly(staged)|
      && r.backups <= |AcceptedOnly(staged)|
      && forall m :: m in r.log ==> m.CopyFailed?
  {
    if staged != [] {
      var prefix, last := staged[..|staged| - 1], staged[|staged| - 1];
      var t, r := Run(files0, locked, job, prefix), Run(files0, locked, job, staged);
      RunAccounting(files0, locked, job, prefix);
      StepCounts(t, locked, job, last);
      forall m | m in r.log
        ensures m.CopyFailed?
      {
        assert r.log == r.log[..|t.log|] + r.log[|t.log|..];
      }
    }
  }

  /**
   * The run's output: the copy failures in order, then one summary whose count and the
   * failures together account for every accepted file, and whose backup line appears
   * exactly when something was backed up.
   */
  lemma ReportAccounting(files0: Files, locked: set<Path>, job: Job, staged: seq<Path>)
    ensures var r, out := Run(files0, locked, job, staged), Summary(job, Run(files0, locked, job, staged));
      && |out| >= 1 && out[|out| - 1].Imported?
      && out[|out| - 1].count + (|out| - 1) == |AcceptedOnly(staged)|
      && out[|out| - 1].mode == job.mode
      && (out[|out| - 1].backups.Some? <==> r.backups > 0)
      && (out[|out| - 1].backups.Some? ==> out[|out| - 1].backups.value.count == r.backups)
      && forall i :: 0 <= i < |out| - 1 ==> out[i].CopyFailed?
  {
    RunAccounting(files0, locked, job, staged);
    var r := Run(files0, locked, job, staged);
    var out := Summary(job, r);
    assert out[..|out| - 1] == r.log;
    forall i | 0 <= i < |out| - 1
      ensures out[i].CopyFailed?
    {
      assert out[i] == r.log[i];
      assert r.log[i] in r.log;
    }
  }

  // ---------------------------------------------------------------------------
  // What the store holds afterwards

  /** A backup copies the target, or changes nothing. */
  lemma BackUpCopies(t: Tally, locked: set<Path>, target: Path, bak: Path)
    ensures var s := BackUp(t, locked, target, bak);
      s.files == t.files || (target in t.files && s.files == t.files[bak := t.files[target]])
  {
  }

  /** Delivering copies the staged file over its target, or changes nothing. */
  lemma DeliverCopies(t: Tally, locked: set<Path>, src: Path, target: Path, name: string)
    ensures var s := Deliver(t, locked, src, target, name);
      s.files == t.files || (src in t.files && s.files == t.files[target := t.files[src]])
  {
  }

  /** A path no accepted staged file targets or backs up into keeps its content. */
  lemma NotWrittenKept(files0: Files, locked: set<Path>, job: Job, staged: seq<Path>, p: Path)
    requires !Written(job, staged, p)
    ensures var r := Run(files0, locked, job, staged).files;
      (p in r <==> p in files0) && (p in r ==> r[p] == files0[p])
  {
    RunFrame(files0, locked, job, staged);
  }

  /** No accepted staged file other than `staged[i]` has its name. */
  predicate NameUniqueAt(staged: seq<Path>, i: nat)
    requires i < |staged|
  {
    forall j :: 0 <= j < |staged| && j != i && Accepted(Basename(staged[j])) ==> Basename(staged[j]) != Basename(staged[i])
  }

  /** No accepted file staged after `staged[i]` has its target. */
  predicate TargetUniqueAfter(job: Job, staged: seq<Path>, i: nat)
    requires i < |staged|
  {
    forall j :: i < j < |staged| && Accepted(Basename(staged[j])) ==> Target(job, staged[j]) != Target(job, staged[i])
  }

  /** No accepted file from `staged[m]` on has `p` as its target or its backup path. */
  predicate UnwrittenFrom(job: Job, staged: seq<Path>, p: Path, m: nat)
  {
    forall j :: m <= j < |staged| && Accepted(Basename(staged[j])) ==> p != Target(job, staged[j]) && p != BackupPath(job, staged[j])
  }

  /** Files with different names have different targets and different backup paths. */
  lemma DifferentNamesDifferentPaths(job: Job, f: Path, g: Path)
    requires Basename(f) != Basename(g)
    ensures Target(job, f) != Target(job, g) && BackupPath(job, f) != BackupPath(job, g)
  {
    AfterLastIsTail(f, '/');
    AfterLastIsTail(g, '/');
    DestinationChoice(job, f);
    DestinationChoice(job, g);
    var df, dg := Destination(job, f), Destination(job, g);
    var af, ag := df[..|df| - 1], dg[..|dg| - 1];
    assert df == af + ['/'] && dg == ag + ['/'];
    assert Target(job, f) == af + ['/'] + Basename(f);
    assert Target(job, g) == ag + ['/'] + Basename(g);
    SplitAtLast(af, Basename(f), ag, Basename(g), '/');
    var root := BackupRoot(job.site, job.timestamp);
    assert BackupPath(job, f)[|root|..] == Basename(f);
    assert BackupPath(job, g)[|root|..] == Basename(g);
  }

  /** The backup made while handling the last staged file, when there is one, holds what its target held before the run. */
  lemma LastBackupHoldsPreRunContent(files0: Files, locked: set<Path>, job: Job, staged: seq<Path>)
    requires staged != [] && Accepted(Basename(staged[|staged| - 1]))
    requires NameUniqueAt(staged, |staged| - 1)
    requires BackupPath(job, staged[|staged| - 1]) !in files0
    requires BackupPath(job, staged[|staged| - 1]) in Run(files0, locked, job, staged).files
    ensures var f := staged[|staged| - 1];
      Target(job, f) in files0 &&
      Run(files0, locked, job, staged).files[BackupPath(job, f)] == files0[Target(job, f)]
  {
    var prefix, f := staged[..|staged| - 1], staged[|staged| - 1];
    var t := Run(files0, locked, job, prefix);
    var target, bak := Target(job, f), BackupPath(job, f);
    TargetIsNotBackup(job, f, f);
    forall i | 0 <= i < |prefix| && Accepted(Basename(prefix[i]))
      ensures target != Target(job, prefix[i]) && target != BackupPath(job, prefix[i])
      ensures bak != Target(job, prefix[i]) && bak != BackupPath(job, prefix[i])
    {
      assert prefix[i] == staged[i];
      DifferentNamesDifferentPaths(job, f, prefix[i]);
      TargetIsNotBackup(job, f, prefix[i]);
      TargetIsNotBackup(job, prefix[i], f);
    }
    NotWrittenKept(files0, locked, job, prefix, target);
    NotWrittenKept(files0, locked, job, prefix, bak);
    StepAccepted(t, locked, job, f);
    var t1 := BackUp(t, locked, target, bak);
    BackUpCopies(t, locked, target, bak);
    DeliverCopies(t1, locked, f, target, Basename(f));
  }

  /** `Step` on an accepted file is a backup followed by a delivery. */
  lemma StepAccepted(t: Tally, locked: set<Path>, job: Job, file: Path)
    requires Accepted(Basename(file))
    ensures Step(t, locked, job, file) ==
      Deliver(BackUp(t, locked, Target(job, file), BackupPath(job, file)), locked, file, Target(job, file), Basename(file))
  {
  }

  /** A backup of every accepted file with a distinct name holds what its target held before the run. */
  lemma {:induction false} BackupsHoldPreRunContent(files0: Files, locked: set<Path>, job: Job, staged: seq<Path>, i: nat)
    requires i < |staged| && Accepted(Basename(staged[i])) && NameUniqueAt(staged, i)
    requires BackupPath(job, staged[i]) !in files0
    requires BackupPath(job, staged[i]) in Run(files0, locked, job, staged).files
    ensures Target(job, staged[i]) in files0 &&
      Run(files0, locked, job, staged).files[BackupPath(job, staged[i])] == files0[Target(job, staged[i])]
  {
    if i == |staged| - 1 {
      LastBackupHoldsPreRunContent(files0, locked, job, staged);
    } else {
      var prefix, last := staged[..|staged| - 1], staged[|staged| - 1];
      var t := Run(files0, locked, job, prefix);
      assert prefix[i] == staged[i];
      assert NameUniqueAt(prefix, i) by {
        forall j | 0 <= j < |prefix| && j != i && Accepted(Basename(prefix[j]))
          ensures Basename(prefix[j]) != Basename(prefix[i])
        {
          assert prefix[j] == staged[j];
        }
      }
      StepFrame(t, locked, job, last);
      if Accepted(Basename(last)) {
        DifferentNamesDifferentPaths(job, last, staged[i]);
        TargetIsNotBackup(job, last, staged[i]);
      }
      BackupsHoldPreRunContent(files0, locked, job, prefix, i);
    }
  }

  /** The run over the first `n` staged files is the run over the first `n - 1` followed by one step. */
  lemma RunSnoc(files0: Files, locked: set<Path>, job: Job, staged: seq<Path>, n: nat)
    requires 0 < n <= |staged|
    ensures Run(files0, locked, job, staged[..n]) == Step(Run(files0, locked, job, staged[..n - 1]), locked, job, staged[n - 1])
  {
    assert staged[..n][..n - 1] == staged[..n - 1];
  }

  /** A staged file whose copy succeeds sits at its target with its extracted content right after its step. */
  lemma JustDelivered(files0: Files, locked: set<Path>, job: Job, staged: seq<Path>, i: nat)
    requires i < |staged| && Accepted(Basename(staged[i]))
    requires TmpDir(job.site, job.timestamp) + "/" <= staged[i]
    requires var t := Run(files0, locked, job, staged[..i]);
      Step(t, locked, job, staged[i]).count == t.count + 1
    ensures staged[i] in files0 && HoldsAt(files0, locked, job, staged, Target(job, staged[i]), files0[staged[i]], i + 1)
  {
    RunSnoc(files0, locked, job, staged, i + 1);
    var t := Run(files0, locked, job, staged[..i]);
    StepDelivery(t, locked, job, staged[i]);
    StagingNotWritten(job, staged[..i], staged[i]);
    NotWrittenKept(files0, locked, job, staged[..i], staged[i]);
  }

  /**
   * What a run leaves at a target: an accepted staged file whose copy succeeded, and whose
   * target no later accepted staged file shares, is found at its target after the whole run,
   * with the content it was extracted with.
   */
  lemma RunDelivers(files0: Files, locked: set<Path>, job: Job, staged: seq<Path>, i: nat)
    requires i < |staged| && Accepted(Basename(staged[i])) && TargetUniqueAfter(job, staged, i)
    requires TmpDir(job.site, job.timestamp) + "/" <= staged[i]
    requires var t := Run(files0, locked, job, staged[..i]);
      Step(t, locked, job, staged[i]).count == t.count + 1
    ensures staged[i] in files0 && Target(job, staged[i]) in Run(files0, locked, job, staged).files
    ensures Run(files0, locked, job, staged).files[Target(job, staged[i])] == files0[staged[i]]
  {
    var target := Target(job, staged[i]);
    JustDelivered(files0, locked, job, staged, i);
    TargetUnwrittenAfter(job, staged, i);
    HeldUpTo(files0, locked, job, staged, target, files0[staged[i]], i + 1, |staged|);
    HeldAtEnd(files0, locked, job, staged, target, files0[staged[i]]);
  }

  /** Only the target's own file writes it after its step, as no target is a backup path. */
  lemma TargetUnwrittenAfter(job: Job, staged: seq<Path>, i: nat)
    requires i < |staged| && TargetUniqueAfter(job, staged, i)
    ensures UnwrittenFrom(job, staged, Target(job, staged[i]), i + 1)
  {
    forall j | i + 1 <= j < |staged|
      ensures Target(job, staged[i]) != BackupPath(job, staged[j])
    {
      TargetIsNotBackup(job, staged[i], staged[j]);
    }
  }

  /** After the steps for the first `n` staged files, the file `p` holds `v`. */
  predicate HoldsAt(files0: Files, locked: set<Path>, job: Job, staged: seq<Path>, p: Path, v: Bytes, n: nat)
    requires n <= |staged|
  {
    var r := Run(files0, locked, job, staged[..n]).files;
    p in r && r[p] == v
  }

  /** A file no later step writes keeps its content from the first `m` steps up to the first `n`. */
  lemma {:induction false} HeldUpTo(files0: Files, locked: set<Path>, job: Job, staged: seq<Path>, p: Path, v: Bytes, m: nat, n: nat)
    requires m <= n <= |staged| && UnwrittenFrom(job, staged, p, m)
    requires HoldsAt(files0, locked, job, staged, p, v, m)
    ensures HoldsAt(files0, locked, job, staged, p, v, n)
    decreases n
  {
    if n > m {
      HeldUpTo(files0, locked, job, staged, p, v, m, n - 1);
      HeldStep(files0, locked, job, staged, p, v, m, n);
    }
  }

  /** Step `n` keeps a file it does not write. */
  lemma HeldStep(files0: Files, locked: set<Path>, job: Job, staged: seq<Path>, p: Path, v: Bytes, m: nat, n: nat)
    requires m < n <= |staged| && UnwrittenFrom(job, staged, p, m)
    requires HoldsAt(files0, locked, job, staged, p, v, n - 1)
    ensures HoldsAt(files0, locked, job, staged, p, v, n)
  {
    RunSnoc(files0, locked, job, staged, n);
    StepFrame(Run(files0, locked, job, staged[..n - 1]), locked, job, staged[n - 1]);
  }

  /** Holding after the steps for all staged files means holding after the run. */
  lemma HeldAtEnd(files0: Files, locked: set<Path>, job: Job, staged: seq<Path>, p: Path, v: Bytes)
    requires HoldsAt(files0, locked, job, staged, p, v, |staged|)
    ensures p in Run(files0, locked, job, staged).files && Run(files0, locked, job, staged).files[p] == v
  {
    assert staged[..|staged|] == staged;
  }

  /**
   * A backup made during the run survives it: when no other accepted staged file shares
   * the name of `staged[i]` and its step makes a backup, that target existed before the
   * run and, after the whole run, its backup holds the target's pre-run content.
   */
  lemma PreExistingTargetBackedUp(files0: Files, locked: set<Path>, job: Job, staged: seq<Path>, i: nat)
    requires i < |staged| && Accepted(Basename(staged[i])) && NameUniqueAt(staged, i)
    requires MakesBackup(files0, locked, job, staged, i)
    ensures Target(job, staged[i]) in files0
    ensures BackupPath(job, staged[i]) in Run(files0, locked, job, staged).files
    ensures Run(files0, locked, job, staged).files[BackupPath(job, staged[i])] == files0[Target(job, staged[i])]
  {
    var target, bak := Target(job, staged[i]), BackupPath(job, staged[i]);
    JustBackedUp(files0, locked, job, staged, i);
    BackupUnwrittenAfter(job, staged, i);
    HeldUpTo(files0, locked, job, staged, bak, files0[target], i + 1, |staged|);
    HeldAtEnd(files0, locked, job, staged, bak, files0[target]);
  }

  /** The step for `staged[i]` raises the backup count: its target existed and was copied to the backup path. */
  predicate MakesBackup(files0: Files, locked: set<Path>, job: Job, staged: seq<Path>, i: nat)
    requires i < |staged|
  {
    var t := Run(files0, locked, job, staged[..i]);
    Step(t, locked, job, staged[i]).backups == t.backups + 1
  }

  /** A step that makes a backup copies into it the target's content from before the run. */
  lemma JustBackedUp(files0: Files, locked: set<Path>, job: Job, staged: seq<Path>, i: nat)
    requires i < |staged| && NameUniqueAt(staged, i) && MakesBackup(files0, locked, job, staged, i)
    ensures var target := Target(job, staged[i]);
      target in files0 && HoldsAt(files0, locked, job, staged, BackupPath(job, staged[i]), files0[target], i + 1)
  {
    RunSnoc(files0, locked, job, staged, i + 1);
    StepBackup(Run(files0, locked, job, staged[..i]), locked, job, staged[i]);
    TargetUntouchedBefore(files0, locked, job, staged, i);
  }

  /** No earlier step writes the target of a file whose name is unique. */
  lemma TargetUntouchedBefore(files0: Files, locked: set<Path>, job: Job, staged: seq<Path>, i: nat)
    requires i < |staged| && NameUniqueAt(staged, i)
    ensures var r, target := Run(files0, locked, job, staged[..i]).files, Target(job, staged[i]);
      (target in r <==> target in files0) && (target in r ==> r[target] == files0[target])
  {
    var prefix, target := staged[..i], Target(job, staged[i]);
    forall j | 0 <= j < |prefix| && Accepted(Basename(prefix[j]))
      ensures target != Target(job, prefix[j]) && target != BackupPath(job, prefix[j])
    {
      assert prefix[j] == staged[j];
      DifferentNamesDifferentPaths(job, staged[i], staged[j]);
      TargetIsNotBackup(job, staged[i], staged[j]);
    }
    NotWrittenKept(files0, locked, job, prefix, target);
  }

  /** No later file writes the backup path of a file whose name is unique. */
  lemma BackupUnwrittenAfter(job: Job, staged: seq<Path>, i: nat)
    requires i < |staged| && NameUniqueAt(staged, i)
    ensures UnwrittenFrom(job, staged, BackupPath(job, staged[i]), i + 1)
  {
    forall j | i + 1 <= j < |staged| && Accepted(Basename(staged[j]))
      ensures BackupPath(job, staged[i]) != Target(job, staged[j])
      ensures BackupPath(job, staged[i]) != BackupPath(job, staged[j])
    {
      TargetIsNotBackup(job, staged[j], staged[i]);
      DifferentNamesDifferentPaths(job, staged[i], staged[j]);
    }
  }

  /**
   * One step backs up exactly when its file is accepted, its target exists and the copy
   * to the backup path succeeds; the backup then holds the target's content from before the step.
   */
  lemma StepBackup(t: Tally, locked: set<Path>, job: Job, file: Path)
    ensures var s, target, bak := Step(t, locked, job, file), Target(job, file), BackupPath(job, file);
      && (s.backups == t.backups + 1 <==>
            Accepted(Basename(file)) && FileExists(t.files, target) && CopyAllowed(t.files, locked, target, bak))
      && (s.backups != t.backups + 1 ==> s.backups == t.backups)
      && (s.backups == t.backups + 1 ==> bak in s.files && s.files[bak] == t.files[target])
  {
    if Accepted(Basename(file)) {
      StepAccepted(t, locked, job, file);
      TargetIsNotBackup(job, file, file);
    }
  }

  /**
   * One step on an accepted staged file either copies the staged content over the target
   * and counts it, or logs one failure under the file's name; it succeeds exactly when the
   * copy is allowed once the backup is made.
   */
  lemma StepDelivery(t: Tally, locked: set<Path>, job: Job, file: Path)
    requires TmpDir(job.site, job.timestamp) + "/" <= file && Accepted(Basename(file))
    ensures var s, target, bak := Step(t, locked, job, file), Target(job, file), BackupPath(job, file);
      && (s.count == t.count + 1 <==> CopyAllowed(BackUp(t, locked, target, bak).files, locked, file, target))
      && (s.count == t.count + 1 ==> s.log == t.log && file in t.files && target in s.files && s.files[target] == t.files[file])
      && (s.count != t.count + 1 ==> s.count == t.count && s.log == t.log + [CopyFailed(Basename(file))])
  {
    StepAccepted(t, locked, job, file);
    WritesOutsideStaging(job, file, file);
  }

  /**
   * Two accepted files of the same name routed to the same folder: once the first is
   * imported, the second backs up the first one's imported content, not the pre-run content.
   */
  lemma SameNameBacksUpEarlierImport(t: Tally, locked: set<Path>, job: Job, f: Path, g: Path)
    requires TmpDir(job.site, job.timestamp) + "/" <= f && Accepted(Basename(f))
    requires Basename(g) == Basename(f) && Destination(job, g) == Destination(job, f)
    requires Step(t, locked, job, f).count == t.count + 1
    requires Step(Step(t, locked, job, f), locked, job, g).backups == Step(t, locked, job, f).backups + 1
    ensures var s := Step(Step(t, locked, job, f), locked, job, g);
      f in t.files && BackupPath(job, g) in s.files && s.files[BackupPath(job, g)] == t.files[f]
  {
    StepDelivery(t, locked, job, f);
    StepBackup(Step(t, locked, job, f), locked, job, g);
  }

  /**
   * Two staged files with the same name routed to different folders share one backup
   * path: the second backup replaces the first, so the vault ends with the second
   * target's old content and no longer holds the first target's.
   */
  lemma SameNameOtherFolderLosesBackup(t: Tally, locked: set<Path>, job: Job, f: Path, g: Path)
    requires Accepted(Basename(f)) && Basename(g) == Basename(f) && Destination(job, g) != Destination(job, f)
    requires Step(t, locked, job, f).backups == t.backups + 1
    requires Step(Step(t, locked, job, f), locked, job, g).backups == Step(t, locked, job, f).backups + 1
    ensures BackupPath(job, g) == BackupPath(job, f)
    ensures var s1 := Step(t, locked, job, f);
      var s2 := Step(s1, locked, job, g);
      && BackupPath(job, f) in s1.files && s1.files[BackupPath(job, f)] == t.files[Target(job, f)]
      && BackupPath(job, f) in s2.files && Target(job, g) in t.files
      && s2.files[BackupPath(job, f)] == t.files[Target(job, g)]
  {
    var s1 := Step(t, locked, job, f);
    StepBackup(t, locked, job, f);
    StepBackup(s1, locked, job, g);
    StepFrame(t, locked, job, f);
    TargetIsNotBackup(job, g, f);
    var tf, tg := Target(job, f), Target(job, g);
    assert tf != tg by {
      var n := |Basename(f)|;
      assert Destination(job, f) == tf[..|tf| - n];
      assert Destination(job, g) == tg[..|tg| - n];
    }
  }

  /**
   * Auto-detection tests the absolute path of the extracted file, so the shop's own
   * install path takes part: a root mentioning `Theme` sends every file to the theme
   * folder, and a root mentioning `prestashop` sends every file without a theme marker
   * to the core folder.
   */
  lemma AutoRoutingSeesInstallPath(job: Job, file: Path)
    requires job.mode != "theme" && job.mode != "core"
    requires TmpDir(job.site, job.timestamp) + "/" <= file
    ensures Contains(job.site.root, "Theme") ==> Destination(job, file) == ThemeDir(job.site, job.iso)
    ensures Contains(job.site.root, "prestashop") && !ThemeMarked(file) ==>
      Destination(job, file) == CoreDir(job.site, job.iso)
  {
    var root := job.site.root;
    assert file == [] + root + file[|root|..];
    if Contains(root, "Theme") {
      ContainsExtended(root, "Theme", [], file[|root|..]);
    }
    if Contains(root, "prestashop") {
      ContainsExtended(root, "prestashop", [], file[|root|..]);
    }
  }

  /** Nothing under the temporary directory is a target or a backup path. */
  lemma StagingNotWritten(job: Job, staged: seq<Path>, p: Path)
    requires TmpDir(job.site, job.timestamp) + "/" <= p
    ensures !Written(job, staged, p)
  {
    forall i | 0 <= i < |staged|
      ensures p != Target(job, staged[i]) && p != BackupPath(job, staged[i])
    {
      WritesOutsideStaging(job, staged[i], p);
    }
  }

  /**
   * The store after a successful upload: every file that existed before is still there,
   * every path outside the staging folder whose content differs from before is the target
   * or the backup path of an accepted staged file, and all that remains in the staging
   * folder are the extracted files the host refused to delete, as they were extracted.
   */
  lemma UploadFrame(files0: Files, locked: set<Path>, job: Job, archive: Files, staged: seq<Path>)
    requires MkdirAllowed(files0, locked, TmpDir(job.site, job.timestamp))
    ensures var tmp := TmpDir(job.site, job.timestamp);
      var r := Cleared(Run(files0 + Placed(tmp, archive), locked, job, staged).files, locked, tmp);
      && files0.Keys <= r.Keys
      && (forall p :: p in r && tmp + "/" <= p ==> p in locked && p in Placed(tmp, archive) && r[p] == Placed(tmp, archive)[p])
      && forall p :: p in r && !(tmp + "/" <= p) && !(p in files0 && r[p] == files0[p]) ==> Written(job, staged, p)
  {
    var tmp := TmpDir(job.site, job.timestamp);
    var extracted := files0 + Placed(tmp, archive);
    var run := Run(extracted, locked, job, staged).files;
    var r := Cleared(run, locked, tmp);
    RunFrame(extracted, locked, job, staged);
    forall p | p in files0
      ensures p in r
    {
      assert !(tmp + "/" <= p);
    }
    forall p | p in r && tmp + "/" <= p
      ensures p in locked && p in Placed(tmp, archive) && r[p] == Placed(tmp, archive)[p]
    {
      StagingNotWritten(job, staged, p);
      NotWrittenKept(extracted, locked, job, staged, p);
      assert p !in files0 by {
        assert !IsDir(files0, tmp);
      }
    }
    forall p | p in r && !(tmp + "/" <= p) && !Written(job, staged, p)
      ensures p in files0 && r[p] == files0[p]
    {
      assert p !in Placed(tmp, archive);
    }
  }
}
