/** Safe configuration saves: `backup_config`, `safe_save_config` and `restore_from_backup` over a disk on which
    every primitive may fail.  A failed write or copy may leave anything at its destination; rename, chmod and
    unlink either happen or do not. */
module ConfigSave {
  import opened Wrappers

  datatype Path = Path(dir: string, name: string)

  type Content = string

  /** How the next primitive goes; `junk` is what a failed write or copy leaves behind, if it touched the file. */
  datatype Fault = Works | Fails(junk: Option<Content>)

  /** The files, how the coming primitives will go, and how many have failed so far. */
  datatype Disk = Disk(files: map<Path, Content>, faults: seq<Fault>, failures: nat)

  // ---------------------------------------------------------------------------------------------
  // Primitives
  // ---------------------------------------------------------------------------------------------

  /** How the k-th of the coming primitives will go. */
  function FaultAt(d: Disk, k: nat): Fault { if k < |d.faults| then d.faults[k] else Works }

  function NextFault(d: Disk): Fault { FaultAt(d, 0) }

  function Consume(d: Disk): Disk {
    d.(faults := if d.faults == [] then [] else d.faults[1..],
       failures := d.failures + if NextFault(d).Fails? then 1 else 0)
  }

  /** A primitive that changes no file content: `mkdir(exist_ok=True)`, `chmod`. */
  function Touch(d: Disk): (bool, Disk) { (NextFault(d).Works?, Consume(d)) }

  /** `write_text` */
  function Write(d: Disk, p: Path, c: Content): (bool, Disk) {
    match NextFault(d)
    case Works => (true, Consume(d).(files := d.files[p := c]))
    case Fails(junk) => (false, if junk.Some? then Consume(d).(files := d.files[p := junk.value]) else Consume(d))
  }

  /** `shutil.copy2` */
  function Copy(d: Disk, src: Path, dst: Path): (bool, Disk) {
    if src !in d.files || src == dst then (false, d) else Write(d, dst, d.files[src])
  }

  function Rename(d: Disk, src: Path, dst: Path): (bool, Disk) {
    if src !in d.files then (false, d)
    else if NextFault(d).Works? then (true, Consume(d).(files := (d.files - {src})[dst := d.files[src]]))
    else (false, Consume(d))
  }

  function Unlink(d: Disk, p: Path): (bool, Disk) {
    if NextFault(d).Works? then (true, Consume(d).(files := d.files - {p})) else (false, Consume(d))
  }

  // ---------------------------------------------------------------------------------------------
  // Names
  // ---------------------------------------------------------------------------------------------

  function Decimal(n: nat): string {
    if n < 10 then [('0' as int + n) as char] else Decimal(n / 10) + [('0' as int + n % 10) as char]
  }

  /** The k-th name tried: `config_<stamp>.bak`, then `config_<stamp>_<k>.bak`. */
  function BackupName(stamp: string, k: nat): string {
    "config_" + stamp + (if k == 0 then "" else "_" + Decimal(k)) + ".bak"
  }

  function BackupDir(config: Path): string { config.dir + "/backups" }

  function BackupPath(config: Path, stamp: string, k: nat): Path {
    Path(BackupDir(config), BackupName(stamp, k))
  }

  /** Position of the last dot of `name` before position `n`, if any. */
  function LastDot(name: string, n: nat): Option<nat>
    requires n <= |name|
  {
    if n == 0 then None else if name[n - 1] == '.' then Some(n - 1) else LastDot(name, n - 1)
  }

  /** `with_suffix('.tmp')`: a dot counts unless it comes first or last. */
  function TempPath(config: Path): Path {
    var dot := LastDot(config.name, |config.name|);
    if dot.Some? && 0 < dot.value < |config.name| - 1 then config.(name := config.name[..dot.value] + ".tmp")
    else config.(name := config.name + ".tmp")
  }

  lemma {:induction false} DecimalInjective(a: nat, b: nat)
    requires Decimal(a) == Decimal(b)
    ensures a == b
    decreases a
  {
    var s, t := Decimal(a), Decimal(b);
    assert s[|s| - 1] == t[|t| - 1] && s[..|s| - 1] == t[..|t| - 1];
    DecimalParts(a);
    DecimalParts(b);
    if a >= 10 && b >= 10 {
      DecimalInjective(a / 10, b / 10);
    }
  }

  lemma DecimalParts(n: nat)
    ensures var s := Decimal(n);
            && |s| > 0 && s[|s| - 1] == ('0' as int + n % 10) as char
            && s[..|s| - 1] == (if n < 10 then "" else Decimal(n / 10))
            && (n >= 10 ==> |Decimal(n / 10)| > 0)
  {
  }

  lemma NamesDistinct(stamp: string, j: nat, k: nat)
    requires BackupName(stamp, j) == BackupName(stamp, k)
    ensures j == k
  {
    var s, head := BackupName(stamp, j), "config_" + stamp;
    DecimalParts(j);
    DecimalParts(k);
    if j > 0 && k > 0 {
      assert s[|head| + 1..|s| - 4] == Decimal(j);
      assert s[|head| + 1..|s| - 4] == Decimal(k);
      DecimalInjective(j, k);
    }
  }

  /** If the first `k` names are taken, there are at least `k` files. */
  lemma {:induction false} TakenNames(files: set<Path>, config: Path, stamp: string, k: nat)
    requires forall j :: 0 <= j < k ==> BackupPath(config, stamp, j) in files
    ensures k <= |files|
    decreases k
  {
    if k > 0 {
      var last := BackupPath(config, stamp, k - 1);
      forall j | 0 <= j < k - 1 ensures BackupPath(config, stamp, j) in files - {last} {
        if BackupPath(config, stamp, j) == last {
          NamesDistinct(stamp, j, k - 1);
        }
      }
      TakenNames(files - {last}, config, stamp, k - 1);
    }
  }

  /** The first free index at or after `k`. */
  function FreeIndex(files: map<Path, Content>, config: Path, stamp: string, k: nat): (n: nat)
    requires forall j :: 0 <= j < k ==> BackupPath(config, stamp, j) in files
    ensures n >= k && BackupPath(config, stamp, n) !in files
    ensures forall j :: 0 <= j < n ==> BackupPath(config, stamp, j) in files
    decreases |files| + 1 - k
  {
    TakenNames(files.Keys, config, stamp, k);
    if BackupPath(config, stamp, k) in files then
      TakenNames(files.Keys, config, stamp, k + 1);
      FreeIndex(files, config, stamp, k + 1)
    else k
  }

  function FreshBackup(files: map<Path, Content>, config: Path, stamp: string): (p: Path)
    ensures p !in files && p.dir == BackupDir(config)
  {
    BackupPath(config, stamp, FreeIndex(files, config, stamp, 0))
  }

  // ---------------------------------------------------------------------------------------------
  // The save, as a function of the disk
  // ---------------------------------------------------------------------------------------------

  datatype Stage = Backup | WriteTemp | RenameTemp | Chmod

  /** `Raised`: the clean-up `unlink` failed and its exception left the function. */
  datatype Outcome =
    | Rejected
    | Saved(backup: Option<Path>)
    | NotSaved(stage: Stage, backup: Option<Path>)
    | Raised

  function BackedUp(d: Disk, config: Path, stamp: string): (Option<Path>, Disk) {
    var (made, d1) := Touch(d);
    if !made then (None, d1)
    else
      var p := FreshBackup(d1.files, config, stamp);
      var (copied, d2) := Copy(d1, config, p);
      (if copied then Some(p) else None, d2)
  }

  function CleanedUp(d: Disk, config: Path, backup: Option<Path>, stage: Stage): (Outcome, Disk) {
    var temp := TempPath(config);
    var (gone, d1) := if temp in d.files then Unlink(d, temp) else (true, d);
    if !gone then (Raised, d1)
    else (NotSaved(stage, backup), if backup.Some? then Copy(d1, backup.value, config).1 else d1)
  }

  function Written(d: Disk, config: Path, content: Content, backup: Option<Path>): (Outcome, Disk) {
    var (written, d1) := Write(d, TempPath(config), content);
    if !written then CleanedUp(d1, config, backup, WriteTemp)
    else
      var (renamed, d2) := Rename(d1, TempPath(config), config);
      if !renamed then CleanedUp(d2, config, backup, RenameTemp)
      else
        var (modeSet, d3) := Touch(d2);
        if !modeSet then CleanedUp(d3, config, backup, Chmod) else (Saved(backup), d3)
  }

  function SafelySaved(d: Disk, config: Path, content: Content, stamp: string, valid: Content -> bool): (Outcome, Disk)
  {
    if !valid(content) then (Rejected, d)
    else if config !in d.files then Written(d, config, content, None)
    else
      var (backup, d1) := BackedUp(d, config, stamp);
      if backup.None? then (NotSaved(Backup, None), d1) else Written(d1, config, content, backup)
  }

  // ---------------------------------------------------------------------------------------------
  // The code
  // ---------------------------------------------------------------------------------------------

  class FileSystem {
    var disk: Disk

    constructor (d: Disk)
      ensures disk == d
    {
      disk := d;
    }

    /** `backup_config`; `None` stands for the exception. */
    method BackupConfig(config: Path, stamp: string) returns (backup: Option<Path>)
      requires config in disk.files
      modifies this
      ensures (backup, disk) == BackedUp(old(disk), config, stamp)
    {
      var made := Touch(disk);
      disk := made.1;
      if !made.0 {
        return None;
      }
      var path := BackupPath(config, stamp, 0);
      var counter := 1;
      while path in disk.files
        invariant disk == Touch(old(disk)).1
        invariant counter >= 1 && path == BackupPath(config, stamp, counter - 1)
        invariant forall j :: 0 <= j < counter - 1 ==> BackupPath(config, stamp, j) in disk.files
        invariant FreshBackup(disk.files, config, stamp)
               == BackupPath(config, stamp, FreeIndex(disk.files, config, stamp, counter - 1))
        decreases |disk.files| + 1 - counter
      {
        TakenNames(disk.files.Keys, config, stamp, counter);
        path := BackupPath(config, stamp, counter);
        counter := counter + 1;
      }
      assert FreshBackup(disk.files, config, stamp) == path;
      var copied := Copy(disk, config, path);
      disk := copied.1;
      return if copied.0 then Some(path) else None;
    }

    /** The `except` branch of `safe_save_config`. */
    method CleanUp(config: Path, backup: Option<Path>, stage: Stage) returns (o: Outcome)
      modifies this
      ensures (o, disk) == CleanedUp(old(disk), config, backup, stage)
    {
      if TempPath(config) in disk.files {
        var gone := Unlink(disk, TempPath(config));
        disk := gone.1;
        if !gone.0 {
          return Raised;
        }
      }
      if backup.Some? {
        var restored := Copy(disk, backup.value, config);
        disk := restored.1;
      }
      return NotSaved(stage, backup);
    }

    /** `safe_save_config` */
    method SafeSave(config: Path, content: Content, stamp: string, valid: Content -> bool) returns (o: Outcome)
      modifies this
      ensures (o, disk) == SafelySaved(old(disk), config, content, stamp, valid)
    {
      if !valid(content) {
        return Rejected;
      }
      var backup := None;
      if config in disk.files {
        backup := BackupConfig(config, stamp);
        if backup.None? {
          return NotSaved(Backup, None);
        }
      }
      var temp := TempPath(config);
      var written := Write(disk, temp, content);
      disk := written.1;
      if !written.0 {
        o := CleanUp(config, backup, WriteTemp);
        return;
      }
      var renamed := Rename(disk, temp, config);
      disk := renamed.1;
      if !renamed.0 {
        o := CleanUp(config, backup, RenameTemp);
        return;
      }
      var modeSet := Touch(disk);
      disk := modeSet.1;
      if !modeSet.0 {
        o := CleanUp(config, backup, Chmod);
        return;
      }
      return Saved(backup);
    }

    /** `restore_from_backup` */
    method Restore(config: Path, backup: Path) returns (ok: bool)
      modifies this
      ensures (ok, disk) == Copy(old(disk), backup, config)
    {
      if backup !in disk.files {
        return false;
      }
      var copied := Copy(disk, backup, config);
      disk := copied.1;
      return copied.0;
    }
  }

  // ---------------------------------------------------------------------------------------------
  // One save
  // ---------------------------------------------------------------------------------------------

  predicate Holds(d: Disk, p: Path, c: Content) { p in d.files && d.files[p] == c }

  /** `config` is there in `e` exactly as it was in `d`. */
  predicate SameAt(d: Disk, e: Disk, p: Path) {
    (p in d.files <==> p in e.files) && (p in d.files ==> d.files[p] == e.files[p])
  }

  /** The temporary file is not the configuration itself, as it is for a name that ends in `.tmp`. */
  predicate TempApart(config: Path) { TempPath(config) != config }

  /** It is, exactly when the name does not end in `.tmp` with something before it. */
  lemma TempApartIff(config: Path)
    ensures TempApart(config) <==> !(|config.name| > 4 && config.name[|config.name| - 4..] == ".tmp")
  {
    var name, n := config.name, |config.name|;
    if n > 4 && name[n - 4..] == ".tmp" {
      assert name[n - 1] == name[n - 4..][3] && name[n - 2] == name[n - 4..][2];
      assert name[n - 3] == name[n - 4..][1] && name[n - 4] == name[n - 4..][0];
      assert LastDot(name, n) == LastDot(name, n - 1) == LastDot(name, n - 2) == LastDot(name, n - 3) == Some(n - 4);
      assert name[..n - 4] + ".tmp" == name;
    }
  }

  /** Nothing but the configuration, its temporary file and one backup that did not exist before is touched. */
  ghost predicate OthersKept(d: Disk, e: Disk, config: Path, stamp: string) {
    forall p :: p != config && p != TempPath(config) && p != FreshBackup(d.files, config, stamp) ==> SameAt(d, e, p)
  }

  lemma BackupDirApart(config: Path)
    ensures BackupDir(config) != config.dir && TempPath(config).dir == config.dir
  {
    assert |BackupDir(config)| == |config.dir| + 8;
  }

  /** What a backup does: a fresh file, and no other, holds the configuration, or nothing is returned. */
  lemma BackupEffect(d: Disk, config: Path, stamp: string)
    requires config in d.files
    ensures var (b, e) := BackedUp(d, config, stamp);
            var p := FreshBackup(d.files, config, stamp);
            && (forall q :: q != p ==> SameAt(d, e, q))
            && (b.Some? ==> b.value == p && Holds(e, p, d.files[config]) && e.failures == d.failures)
            && (b.None? ==> e.failures == d.failures + 1)
  {
    BackupDirApart(config);
  }

  lemma CleanUpEffect(d: Disk, config: Path, backup: Option<Path>, stage: Stage)
    requires backup.Some? ==> backup.value in d.files && backup.value.dir == BackupDir(config)
    ensures var (o, e) := CleanedUp(d, config, backup, stage);
            && (o == Raised || o == NotSaved(stage, backup))
            && OnlyTwo(d, e, config)
            && (o.Raised? ==> e.files == d.files && e.failures == d.failures + 1 && TempPath(config) in d.files)
            && (o.NotSaved? && TempApart(config) ==> TempPath(config) !in e.files)
            && (o.NotSaved? && backup.None? && TempApart(config) ==> SameAt(d, e, config))
            && (o.NotSaved? && backup.Some? && e.failures == d.failures ==>
                  Holds(e, config, d.files[backup.value]))
            && (o.NotSaved? ==> d.failures <= e.failures <= d.failures + 1)
  {
    BackupDirApart(config);
  }

  /** Everything but the configuration and its temporary file is the same on both disks. */
  ghost predicate OnlyTwo(d: Disk, e: Disk, config: Path) {
    forall q :: q != config && q != TempPath(config) ==> SameAt(d, e, q)
  }

  lemma OnlyTwoTransitive(d: Disk, d1: Disk, e: Disk, config: Path)
    requires OnlyTwo(d, d1, config) && OnlyTwo(d1, e, config)
    ensures OnlyTwo(d, e, config)
  {
    forall q | q != config && q != TempPath(config) ensures SameAt(d, e, q) {
      assert SameAt(d, d1, q) && SameAt(d1, e, q);
    }
  }

  /** What the write-rename-chmod part does, given the backup. */
  ghost predicate WriteEffect(d: Disk, e: Disk, o: Outcome, config: Path, content: Content, backup: Option<Path>)
    requires backup.Some? ==> backup.value in d.files
  {
    && OnlyTwo(d, e, config)
    && !o.Rejected? && (o.Saved? || o.NotSaved? ==> o.backup == backup)
    && (o.Saved? ==> Holds(e, config, content) && e.failures == d.failures)
    && (o.Saved? && TempApart(config) ==> TempPath(config) !in e.files)
    && (o.NotSaved? ==> o.stage != Backup && e.failures >= d.failures + 1)
    && (o.NotSaved? && TempApart(config) ==> TempPath(config) !in e.files)
    && (o.Raised? ==> e.failures == d.failures + 2 && (TempApart(config) ==> SameAt(d, e, config)))
    && (o.NotSaved? && backup.Some? && e.failures == d.failures + 1 ==> Holds(e, config, d.files[backup.value]))
    && (o.NotSaved? && backup.None? && TempApart(config) ==>
          if o.stage == Chmod then Holds(e, config, content) else SameAt(d, e, config))
  }

  predicate GoodBackup(d: Disk, config: Path, backup: Option<Path>) {
    && (backup.Some? ==> backup.value in d.files && backup.value.dir == BackupDir(config))
    && (config in d.files ==> backup.Some? && d.files[backup.value] == d.files[config])
  }

  lemma WriteFails(d: Disk, config: Path, content: Content, backup: Option<Path>)
    requires GoodBackup(d, config, backup) && NextFault(d).Fails?
    ensures var (o, e) := Written(d, config, content, backup); WriteEffect(d, e, o, config, content, backup)
  {
    hide CleanedUp;
    BackupDirApart(config);
    var d1 := Write(d, TempPath(config), content).1;
    CleanUpEffect(d1, config, backup, WriteTemp);
    OnlyTwoTransitive(d, d1, Written(d, config, content, backup).1, config);
  }

  lemma RenameFails(d: Disk, config: Path, content: Content, backup: Option<Path>)
    requires GoodBackup(d, config, backup) && NextFault(d).Works? && NextFault(Consume(d)).Fails?
    ensures var (o, e) := Written(d, config, content, backup); WriteEffect(d, e, o, config, content, backup)
  {
    hide CleanedUp;
    BackupDirApart(config);
    var temp := TempPath(config);
    var d2 := Rename(Write(d, temp, content).1, temp, config).1;
    CleanUpEffect(d2, config, backup, RenameTemp);
    OnlyTwoTransitive(d, d2, Written(d, config, content, backup).1, config);
  }

  lemma ChmodOrDone(d: Disk, config: Path, content: Content, backup: Option<Path>)
    requires GoodBackup(d, config, backup) && NextFault(d).Works? && NextFault(Consume(d)).Works?
    ensures var (o, e) := Written(d, config, content, backup); WriteEffect(d, e, o, config, content, backup)
  {
    hide CleanedUp, TempPath, BackupDir;
    BackupDirApart(config);
    var temp := TempPath(config);
    var d3 := Touch(Rename(Write(d, temp, content).1, temp, config).1).1;
    assert Holds(d3, config, content);
    CleanUpEffect(d3, config, backup, Chmod);
    OnlyTwoTransitive(d, d3, Written(d, config, content, backup).1, config);
  }

  lemma WrittenEffect(d: Disk, config: Path, content: Content, backup: Option<Path>)
    requires GoodBackup(d, config, backup)
    ensures var (o, e) := Written(d, config, content, backup); WriteEffect(d, e, o, config, content, backup)
  {
    if NextFault(d).Fails? {
      WriteFails(d, config, content, backup);
    } else if NextFault(Consume(d)).Fails? {
      RenameFails(d, config, content, backup);
    } else {
      ChmodOrDone(d, config, content, backup);
    }
  }

  /** SAVE SAFETY.  For every pattern of failing primitives:
      the save succeeds exactly when the content is valid and no primitive fails; success means that the
      configuration holds the new content and that what it held is in the backup returned; a failure leaves what it
      held in the configuration or in the backup returned; a rejected content changes nothing; no temporary file
      stays behind unless an exception escapes, which leaves a fresh backup, and the configuration alone when the
      temporary file is another file; and a configuration is lost exactly under the faults of `Costs`, which one
      failing primitive never is. */
  lemma SaveSafe(d: Disk, config: Path, content: Content, stamp: string, valid: Content -> bool)
    ensures var (o, e) := SafelySaved(d, config, content, stamp, valid);
            && OthersKept(d, e, config, stamp)
            && (o.Rejected? <==> !valid(content)) && (o.Rejected? ==> e == d)
            && (o.Saved? <==> valid(content) && e.failures == d.failures)
            && (o.NotSaved? && o.stage != Backup && TempApart(config) ==> TempPath(config) !in e.files)
            && (o.Saved? ==> Holds(e, config, content) && (o.backup.Some? <==> config in d.files))
            && (o.Saved? && TempApart(config) ==> TempPath(config) !in e.files)
            && (config in d.files && o.Saved? ==>
                  o.backup.value !in d.files && Holds(e, o.backup.value, d.files[config]))
            && (config in d.files && o.NotSaved? ==>
                  Holds(e, config, d.files[config]) || (o.backup.Some? && Holds(e, o.backup.value, d.files[config])))
            && (o.Raised? && TempApart(config) ==> SameAt(d, e, config))
            && (config in d.files && o.Raised? ==> Holds(e, FreshBackup(d.files, config, stamp), d.files[config]))
            && (config in d.files && !o.Saved? && e.failures <= d.failures + 1 ==> Holds(e, config, d.files[config]))
            && (config in d.files ==>
                  (!o.Saved? && !Holds(e, config, d.files[config]) <==> valid(content) && Costs(d, config, content)))
  {
    hide Written, BackedUp, Costs;
    BackupDirApart(config);
    if config in d.files {
      PreservedIff(d, config, content, stamp, valid);
    }
    if valid(content) {
      if config !in d.files {
        WrittenEffect(d, config, content, None);
        var o := Written(d, config, content, None).0;
        assert o.Saved? || o.NotSaved? || o.Raised?;
      } else {
        BackupEffect(d, config, stamp);
        var (backup, d1) := BackedUp(d, config, stamp);
        var p := FreshBackup(d.files, config, stamp);
        assert p.dir == BackupDir(config) && SameAt(d, d1, config);
        if backup.Some? {
          WrittenEffect(d1, config, content, backup);
          var e := Written(d1, config, content, backup).1;
          assert SameAt(d1, e, p);
          forall q | q != config && q != TempPath(config) && q != p ensures SameAt(d, e, q) {
            assert SameAt(d, d1, q) && SameAt(d1, e, q);
          }
        }
      }
    }
  }

  // ---------------------------------------------------------------------------------------------
  // Exactly which faults cost a configuration
  // ---------------------------------------------------------------------------------------------

  function ContentAt(d: Disk, p: Path): Option<Content> { if p in d.files then Some(d.files[p]) else None }

  /** What a copy of `source` leaves in a file that held `now`. */
  function CopyLeaves(f: Fault, now: Option<Content>, source: Content): Option<Content> {
    match f
    case Works => Some(source)
    case Fails(junk) => if junk.Some? then junk else now
  }

  /** The copy that goes as `f` does not bring `prior` back to a configuration that holds `now`. */
  predicate Spoils(f: Fault, now: Option<Content>, prior: Content) { CopyLeaves(f, now, prior) != Some(prior) }

  /** The faults that cost an existing configuration.  Both steps of the backup, 0 and 1, work; then
      - the temporary file is another file, and
        - the write, 2, fails, the temporary file, when there is one, is unlinked, and the restore spoils; or
        - the rename, 3, fails, the unlink, 4, works, and the restore, 5, spoils; or
        - the chmod, 4, fails, and the restore, 5, does not bring the old content back; or
      - the temporary file is the configuration itself, so that writing it and unlinking it are already damage. */
  predicate Costs(d: Disk, config: Path, content: Content)
    requires config in d.files
  {
    var prior := d.files[config];
    && FaultAt(d, 0).Works? && FaultAt(d, 1).Works?
    && if TempApart(config) then
         if FaultAt(d, 2).Fails? then
           if TempPath(config) in d.files || FaultAt(d, 2).junk.Some? then
             FaultAt(d, 3).Works? && Spoils(FaultAt(d, 4), Some(prior), prior)
           else Spoils(FaultAt(d, 3), Some(prior), prior)
         else if FaultAt(d, 3).Fails? then FaultAt(d, 4).Works? && Spoils(FaultAt(d, 5), Some(prior), prior)
         else FaultAt(d, 4).Fails? && Spoils(FaultAt(d, 5), Some(content), prior)
       else if FaultAt(d, 2).Fails? then
         if FaultAt(d, 3).Works? then Spoils(FaultAt(d, 4), None, prior)
         else FaultAt(d, 2).junk.Some? && FaultAt(d, 2).junk.value != prior
       else if FaultAt(d, 3).Fails? then
         if FaultAt(d, 4).Works? then Spoils(FaultAt(d, 5), None, prior) else content != prior
       else
         && FaultAt(d, 4).Fails?
         && if FaultAt(d, 5).Works? then Spoils(FaultAt(d, 6), None, prior) else content != prior
  }

  /** What the clean-up leaves in the configuration. */
  lemma CleanUpLeaves(d: Disk, config: Path, backup: Option<Path>, stage: Stage)
    requires GoodSource(d, config, backup)
    ensures var temp := TempPath(config);
            var now := if TempApart(config) then ContentAt(d, config) else None;
            var f := FaultAt(d, if temp in d.files then 1 else 0);
            ContentAt(CleanedUp(d, config, backup, stage).1, config) ==
              if temp in d.files && FaultAt(d, 0).Fails? then ContentAt(d, config)
              else if backup.Some? then CopyLeaves(f, now, d.files[backup.value])
              else now
  {
    BackupDirApart(config);
  }

  lemma Consumed(d: Disk, files: map<Path, Content>)
    ensures NextFault(d) == FaultAt(d, 0)
    ensures forall k: nat :: FaultAt(Consume(d).(files := files), k) == FaultAt(d, k + 1)
  {
  }

  predicate GoodSource(d: Disk, config: Path, backup: Option<Path>) {
    backup.Some? ==> backup.value in d.files && backup.value.dir == BackupDir(config)
  }

  function Back(d: Disk, config: Path, backup: Option<Path>): Option<Content>
    requires GoodSource(d, config, backup)
  {
    if backup.Some? then Some(d.files[backup.value]) else None
  }

  /** What is left in the configuration when the write fails, when the rename does, and when the chmod does. */
  function AfterWrite(d: Disk, config: Path, back: Option<Content>): Option<Content>
    requires FaultAt(d, 0).Fails?
  {
    var now, junk := ContentAt(d, config), FaultAt(d, 0).junk;
    var there := TempPath(config) in d.files || junk.Some?;
    if there && FaultAt(d, 1).Fails? then (if TempApart(config) || junk.None? then now else junk)
    else Restored(FaultAt(d, if there then 2 else 1), if TempApart(config) then now else None, back)
  }

  function AfterRename(d: Disk, config: Path, content: Content, back: Option<Content>): Option<Content> {
    var now := ContentAt(d, config);
    if FaultAt(d, 2).Fails? then (if TempApart(config) then now else Some(content))
    else Restored(FaultAt(d, 3), if TempApart(config) then now else None, back)
  }

  function AfterChmod(d: Disk, config: Path, content: Content, back: Option<Content>): Option<Content> {
    if TempApart(config) then Restored(FaultAt(d, 3), Some(content), back)
    else if FaultAt(d, 3).Fails? then Some(content)
    else Restored(FaultAt(d, 4), None, back)
  }

  lemma WriteLeaves(d: Disk, config: Path, content: Content, backup: Option<Path>)
    requires GoodSource(d, config, backup) && FaultAt(d, 0).Fails?
    ensures var (o, e) := Written(d, config, content, backup);
            !o.Saved? && ContentAt(e, config) == AfterWrite(d, config, Back(d, config, backup))
  {
    hide CleanedUp;
    BackupDirApart(config);
    var d1 := Write(d, TempPath(config), content).1;
    Consumed(d, d1.files);
    CleanUpLeaves(d1, config, backup, WriteTemp);
    CleanUpEffect(d1, config, backup, WriteTemp);
  }

  lemma RenameLeaves(d: Disk, config: Path, content: Content, backup: Option<Path>)
    requires GoodSource(d, config, backup) && FaultAt(d, 0).Works? && FaultAt(d, 1).Fails?
    ensures var (o, e) := Written(d, config, content, backup);
            !o.Saved? && ContentAt(e, config) == AfterRename(d, config, content, Back(d, config, backup))
  {
    hide CleanedUp;
    BackupDirApart(config);
    var d1 := Write(d, TempPath(config), content).1;
    Consumed(d, d1.files);
    var d2 := Rename(d1, TempPath(config), config).1;
    Consumed(d1, d2.files);
    CleanUpLeaves(d2, config, backup, RenameTemp);
    CleanUpEffect(d2, config, backup, RenameTemp);
  }

  lemma ChmodLeaves(d: Disk, config: Path, content: Content, backup: Option<Path>)
    requires GoodSource(d, config, backup) && FaultAt(d, 0).Works? && FaultAt(d, 1).Works?
    ensures var (o, e) := Written(d, config, content, backup);
            if FaultAt(d, 2).Works? then o.Saved? && ContentAt(e, config) == Some(content)
            else !o.Saved? && ContentAt(e, config) == AfterChmod(d, config, content, Back(d, config, backup))
  {
    hide CleanedUp;
    BackupDirApart(config);
    var d1 := Write(d, TempPath(config), content).1;
    Consumed(d, d1.files);
    var d2 := Rename(d1, TempPath(config), config).1;
    Consumed(d1, d2.files);
    var d3 := Touch(d2).1;
    Consumed(d2, d3.files);
    CleanUpLeaves(d3, config, backup, Chmod);
    CleanUpEffect(d3, config, backup, Chmod);
  }

  /** What write, rename, chmod and clean-up leave in the configuration. */
  lemma WrittenLeaves(d: Disk, config: Path, content: Content, backup: Option<Path>)
    requires GoodSource(d, config, backup)
    ensures var (o, e) := Written(d, config, content, backup);
            var back := Back(d, config, backup);
            && (o.Saved? <==> forall k :: 0 <= k < 3 ==> FaultAt(d, k).Works?)
            && ContentAt(e, config) == (if FaultAt(d, 0).Fails? then AfterWrite(d, config, back)
                                        else if FaultAt(d, 1).Fails? then AfterRename(d, config, content, back)
                                        else if FaultAt(d, 2).Fails? then AfterChmod(d, config, content, back)
                                        else Some(content))
  {
    hide Written, AfterWrite, AfterRename, AfterChmod;
    if FaultAt(d, 0).Fails? {
      WriteLeaves(d, config, content, backup);
    } else if FaultAt(d, 1).Fails? {
      RenameLeaves(d, config, content, backup);
    } else {
      ChmodLeaves(d, config, content, backup);
      assert (forall k :: 0 <= k < 3 ==> FaultAt(d, k).Works?) <==> FaultAt(d, 2).Works?;
    }
  }

  /** What is left after the backup, if there is one, is copied over `now`. */
  function Restored(f: Fault, now: Option<Content>, back: Option<Content>): Option<Content> {
    if back.Some? then CopyLeaves(f, now, back.value) else now
  }

  /** EXACTLY WHEN.  A save that does not succeed keeps an existing configuration, but for the faults of `Costs`. */
  lemma PreservedIff(d: Disk, config: Path, content: Content, stamp: string, valid: Content -> bool)
    requires config in d.files
    ensures var (o, e) := SafelySaved(d, config, content, stamp, valid);
            !o.Saved? && !Holds(e, config, d.files[config]) <==> valid(content) && Costs(d, config, content)
  {
    hide Written, TempPath;
    BackupDirApart(config);
    if valid(content) {
      var (backup, d1) := BackedUp(d, config, stamp);
      BackupEffect(d, config, stamp);
      BackupFaults(d, config, stamp);
      var p := FreshBackup(d.files, config, stamp);
      assert p != config && p != TempPath(config) && SameAt(d, d1, config) && SameAt(d, d1, TempPath(config));
      if backup.Some? {
        WrittenLeaves(d1, config, content, backup);
      }
    }
  }

  /** The backup takes two primitives. */
  lemma BackupFaults(d: Disk, config: Path, stamp: string)
    requires config in d.files
    ensures var (b, e) := BackedUp(d, config, stamp);
            && (b.Some? <==> FaultAt(d, 0).Works? && FaultAt(d, 1).Works?)
            && (b.Some? ==> forall k: nat :: FaultAt(e, k) == FaultAt(d, k + 2))
  {
    BackupDirApart(config);
  }

  /** A save succeeds exactly when the content is valid and its three steps work, after the two of the backup if the
      configuration exists. */
  lemma SavedIff(d: Disk, config: Path, content: Content, stamp: string, valid: Content -> bool)
    ensures SafelySaved(d, config, content, stamp, valid).0.Saved? <==>
            valid(content) && forall k :: 0 <= k < (if config in d.files then 5 else 3) ==> FaultAt(d, k).Works?
  {
    hide Written, TempPath;
    BackupDirApart(config);
    if valid(content) && config in d.files {
      BackupEffect(d, config, stamp);
      BackupFaults(d, config, stamp);
      var (backup, d1) := BackedUp(d, config, stamp);
      if backup.Some? {
        WrittenLeaves(d1, config, content, backup);
        assert forall k :: 2 <= k < 5 ==> FaultAt(d, k) == FaultAt(d1, k - 2);
      }
    } else if valid(content) {
      WrittenLeaves(d, config, content, None);
    }
  }

  /** The faults after which a first save that fails leaves a configuration: the chmod, 2, fails after write and
      rename worked.  When the temporary file is the configuration itself: the unlink fails, and there is something to
      unlink. */
  predicate LeavesFirst(d: Disk, config: Path) {
    if TempApart(config) then FaultAt(d, 0).Works? && FaultAt(d, 1).Works? && FaultAt(d, 2).Fails?
    else if FaultAt(d, 0).Fails? then FaultAt(d, 0).junk.Some? && FaultAt(d, 1).Fails?
    else if FaultAt(d, 1).Fails? then FaultAt(d, 2).Fails?
    else FaultAt(d, 2).Fails? && FaultAt(d, 3).Fails?
  }

  /** The pattern `config_*.bak` by which the backups of a configuration are listed. */
  predicate Listed(config: Path, p: Path) {
    p.dir == config.dir + "/backups" && |p.name| >= 11 && "config_" <= p.name && p.name[|p.name| - 4..] == ".bak"
  }

  /** A save makes no file in the backup directory that the listing does not find, whatever fails; so every backup it
      returns is listed. */
  lemma BackupsListed(d: Disk, config: Path, content: Content, stamp: string, valid: Content -> bool, p: Path)
    ensures var (o, e) := SafelySaved(d, config, content, stamp, valid);
            && (p.dir == BackupDir(config) && p in e.files && p !in d.files ==> Listed(config, p))
            && ((o.Saved? || o.NotSaved?) && o.backup == Some(p) ==> Listed(config, p))
  {
    hide SafelySaved, Costs;
    SaveSafe(d, config, content, stamp, valid);
    BackupDirApart(config);
    NameListed(config, stamp, FreeIndex(d.files, config, stamp, 0));
    ReturnedBackup(d, config, content, stamp, valid);
    var e := SafelySaved(d, config, content, stamp, valid).1;
    assert p.dir == BackupDir(config) && p != FreshBackup(d.files, config, stamp) ==> SameAt(d, e, p);
  }

  lemma NameListed(config: Path, stamp: string, k: nat)
    ensures Listed(config, BackupPath(config, stamp, k))
  {
    var middle := stamp + (if k == 0 then "" else "_" + Decimal(k));
    assert BackupName(stamp, k) == "config_" + middle + ".bak";
  }

  /** The backup a save returns is the fresh one. */
  lemma ReturnedBackup(d: Disk, config: Path, content: Content, stamp: string, valid: Content -> bool)
    ensures var o := SafelySaved(d, config, content, stamp, valid).0;
            (o.Saved? || o.NotSaved?) && o.backup.Some? ==> o.backup.value == FreshBackup(d.files, config, stamp)
  {
    hide Written, BackedUp, CleanedUp;
    if valid(content) && config in d.files {
      BackupDirApart(config);
      BackupEffect(d, config, stamp);
      var (backup, d1) := BackedUp(d, config, stamp);
      assert FreshBackup(d.files, config, stamp) != config && SameAt(d, d1, config);
      if backup.Some? {
        WrittenEffect(d1, config, content, backup);
      }
    } else if valid(content) {
      WrittenEffect(d, config, content, None);
    }
  }

  /** `name` splits into a stem and a suffix without dot, neither empty. */
  predicate HasSuffix(name: string, stem: string, suffix: string) {
    stem != "" && suffix != "" && '.' !in suffix && name == stem + "." + suffix
  }

  lemma {:induction false} LastDotIs(name: string, n: nat)
    requires n <= |name|
    ensures var dot := LastDot(name, n);
            && (dot.Some? ==> dot.value < n && name[dot.value] == '.')
            && forall i :: (if dot.Some? then dot.value + 1 else 0) <= i < n ==> name[i] != '.'
  {
    if n > 0 && name[n - 1] != '.' {
      LastDotIs(name, n - 1);
    }
  }

  /** The temporary file's name: the suffix replaced by `.tmp`, or `.tmp` appended to a name without suffix. */
  lemma TempPathIs(config: Path)
    ensures TempPath(config).dir == config.dir
    ensures forall stem, suffix :: HasSuffix(config.name, stem, suffix) ==> TempPath(config).name == stem + ".tmp"
    ensures (forall stem, suffix :: !HasSuffix(config.name, stem, suffix)) ==>
              TempPath(config).name == config.name + ".tmp"
  {
    hide LastDot, HasSuffix;
    var name, n := config.name, |config.name|;
    var dot := LastDot(name, n);
    if dot.Some? && 0 < dot.value < n - 1 {
      SuffixAtDot(name);
    }
    forall stem, suffix | HasSuffix(name, stem, suffix) ensures TempPath(config).name == stem + ".tmp" {
      DotOfSuffix(name, stem, suffix);
    }
  }

  lemma SuffixAtDot(name: string)
    requires var dot := LastDot(name, |name|); dot.Some? && 0 < dot.value < |name| - 1
    ensures var k := LastDot(name, |name|).value; k < |name| && HasSuffix(name, name[..k], name[k + 1..])
  {
    LastDotIs(name, |name|);
    var k := LastDot(name, |name|).value;
    DotSplits(name, k);
  }

  lemma DotSplits(name: string, k: nat)
    requires 0 < k < |name| - 1 && name[k] == '.' && forall i :: k < i < |name| ==> name[i] != '.'
    ensures HasSuffix(name, name[..k], name[k + 1..])
  {
    var stem, suffix := name[..k], name[k + 1..];
    assert forall i :: 0 <= i < |suffix| ==> suffix[i] == name[k + 1 + i];
    assert "." == [name[k]];
    assert name == stem + "." + suffix;
  }

  lemma DotOfSuffix(name: string, stem: string, suffix: string)
    requires HasSuffix(name, stem, suffix)
    ensures LastDot(name, |name|) == Some(|stem|) && 0 < |stem| < |name| - 1 && name[..|stem|] == stem
  {
    hide LastDot;
    LastDotIs(name, |name|);
    assert name[|stem|] == '.';
    forall i | |stem| < i < |name| ensures name[i] != '.' {
      assert name[i] == suffix[i - |stem| - 1];
    }
  }

  /** First save: a failure leaves no configuration, but for the faults of `LeavesFirst`. */
  lemma FirstSaveUndoneIff(d: Disk, config: Path, content: Content, stamp: string, valid: Content -> bool)
    requires config !in d.files
    ensures var (o, e) := SafelySaved(d, config, content, stamp, valid);
            && (!o.Saved? && config in e.files <==> valid(content) && LeavesFirst(d, config))
            && (!o.Saved? && config in e.files && TempApart(config) ==> Holds(e, config, content))
  {
    hide Written;
    if valid(content) {
      WrittenLeaves(d, config, content, None);
    }
  }

  /** The restore can do the damage it is there to undo: the temporary file cannot be written, the configuration
      is intact, and copying the backup over it fails half way. */
  lemma RestoreCanDestroy(config: Path, before: Content, content: Content, junk: Content, stamp: string)
    requires TempApart(config)
    ensures var d := Disk(map[config := before], [Works, Works, Fails(None), Fails(Some(junk))], 0);
            var (o, e) := SafelySaved(d, config, content, stamp, _ => true);
            o.NotSaved? && o.stage == WriteTemp && Holds(e, config, junk)
  {
    BackupDirApart(config);
  }

  // ---------------------------------------------------------------------------------------------
  // Runs
  // ---------------------------------------------------------------------------------------------

  datatype Operation = Save(content: Content, stamp: string) | RestoreFrom(backup: Path)

  /** The disks a run of operations goes through, first and last included. */
  function Run(d: Disk, config: Path, ops: seq<Operation>, valid: Content -> bool): (r: seq<Disk>)
    ensures |r| == |ops| + 1 && r[0] == d
    decreases |ops|
  {
    if ops == [] then [d] else [d] + Run(After(d, config, ops[0], valid), config, ops[1..], valid)
  }

  function After(d: Disk, config: Path, op: Operation, valid: Content -> bool): Disk {
    match op
    case Save(content, stamp) => SafelySaved(d, config, content, stamp, valid).1
    case RestoreFrom(backup) => Copy(d, backup, config).1
  }

  /** A file of the backup directory. */
  predicate IsBackup(config: Path, p: Path) { p.dir == BackupDir(config) }

  lemma BackupKept(d: Disk, config: Path, op: Operation, valid: Content -> bool, p: Path)
    requires IsBackup(config, p) && p in d.files
    ensures SameAt(d, After(d, config, op, valid), p)
  {
    BackupDirApart(config);
    if op.Save? {
      SaveSafe(d, config, op.content, op.stamp, valid);
    }
  }

  /** No operation of any run ever alters or removes a backup that exists. */
  lemma {:induction false} BackupsNeverAltered(d: Disk, config: Path, ops: seq<Operation>, valid: Content -> bool,
                                               p: Path)
    requires IsBackup(config, p) && p in d.files
    ensures forall i :: 0 <= i <= |ops| ==> SameAt(d, Run(d, config, ops, valid)[i], p)
    decreases |ops|
  {
    if ops != [] {
      BackupKept(d, config, ops[0], valid, p);
      BackupsNeverAltered(After(d, config, ops[0], valid), config, ops[1..], valid, p);
    }
  }

  /** RECOVERABLE.  Whatever a successful save of a run replaced is, at the end of the run, still in the backup
      that save returned. */
  lemma {:induction false} ReplacedIsRecoverable(d: Disk, config: Path, ops: seq<Operation>, valid: Content -> bool,
                                                 i: nat)
    requires i < |ops| && ops[i].Save?
    requires var di := Run(d, config, ops, valid)[i];
             config in di.files && SafelySaved(di, config, ops[i].content, ops[i].stamp, valid).0.Saved?
    ensures var di := Run(d, config, ops, valid)[i];
            var o := SafelySaved(di, config, ops[i].content, ops[i].stamp, valid).0;
            o.backup.Some? && Holds(Run(d, config, ops, valid)[|ops|], o.backup.value, di.files[config])
    decreases i
  {
    hide SafelySaved, Costs, OthersKept, FreshBackup;
    var next := After(d, config, ops[0], valid);
    if i == 0 {
      SaveSafe(d, config, ops[0].content, ops[0].stamp, valid);
      var p := SafelySaved(d, config, ops[0].content, ops[0].stamp, valid).0.backup.value;
      SavedBackupPlace(d, config, ops[0].content, ops[0].stamp, valid);
      BackupsNeverAltered(next, config, ops[1..], valid, p);
    } else {
      ReplacedIsRecoverable(next, config, ops[1..], valid, i - 1);
    }
  }

  lemma SavedBackupPlace(d: Disk, config: Path, content: Content, stamp: string, valid: Content -> bool)
    requires config in d.files && SafelySaved(d, config, content, stamp, valid).0.Saved?
    ensures var o := SafelySaved(d, config, content, stamp, valid).0;
            o.backup == Some(FreshBackup(d.files, config, stamp))
  {
    var (backup, d1) := BackedUp(d, config, stamp);
    BackupEffect(d, config, stamp);
    WrittenEffect(d1, config, content, backup);
  }

  /** A restore works exactly when the backup is there, is another file, and the copy does; then the configuration
      holds what the backup holds.  No other file changes, whatever happens. */
  lemma RestoreEffect(d: Disk, config: Path, backup: Path)
    ensures var (ok, e) := Copy(d, backup, config);
            && (ok <==> backup in d.files && backup != config && FaultAt(d, 0).Works?)
            && (ok ==> Holds(e, config, d.files[backup]))
            && (forall p :: p != config ==> SameAt(d, e, p))
            && (backup !in d.files ==> e == d)
  {
  }

  /** UNDO.  At the end of any run, restoring the backup that a successful save of the run returned brings back what
      that save replaced, exactly when the copy works. */
  lemma RestoreUndoes(d: Disk, config: Path, ops: seq<Operation>, valid: Content -> bool, i: nat)
    requires i < |ops| && ops[i].Save?
    requires var di := Run(d, config, ops, valid)[i];
             config in di.files && SafelySaved(di, config, ops[i].content, ops[i].stamp, valid).0.Saved?
    ensures var run := Run(d, config, ops, valid);
            var di, end := run[i], run[|ops|];
            var o := SafelySaved(di, config, ops[i].content, ops[i].stamp, valid).0;
            && o.backup.Some?
            && var (ok, e) := Copy(end, o.backup.value, config);
               && (ok <==> FaultAt(end, 0).Works?)
               && (ok ==> Holds(e, config, di.files[config]))
  {
    hide SafelySaved, Run, Copy;
    var run := Run(d, config, ops, valid);
    ReplacedIsRecoverable(d, config, ops, valid, i);
    SavedBackupPlace(run[i], config, ops[i].content, ops[i].stamp, valid);
    BackupDirApart(config);
    RestoreEffect(run[|ops|], config, FreshBackup(run[i].files, config, ops[i].stamp));
  }
}
