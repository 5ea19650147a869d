/** The save directories of both emulators as an abstract store: a map from a
    directory path to the tree it holds. Copying a tree and removing a tree
    (`shutil.copytree`, `shutil.rmtree`), taking a timestamped backup
    (`backup_save`), the one-way sync (`sync_save`) and the freshness of a
    directory (`get_last_modified_time`) are stated here as functions of the
    store, and class SaveStore performs them in place. */
module SaveFs {
  import Decimal

  type Path = string

  /** One entry of a directory as `os.listdir` lists it, with the
      modification time `os.path.getmtime` reports for it. */
  datatype Entry =
    | File(name: string, mtime: int, data: seq<bv8>)
    | Subdir(name: string, mtime: int, tree: Tree)

  /** The contents of a directory. */
  datatype Tree = Tree(entries: seq<Entry>)

  type Fs = map<Path, Tree>

  /** The three exceptions of the source that are modelled:
      FileNotFoundError, FileExistsError, and the ValueError of `max` over
      no entries. */
  datatype FsError = NotFound(path: Path) | AlreadyExists(path: Path) | EmptyDirectory(path: Path)

  datatype Option<T> = None | Some(value: T)

  datatype Result<T> = Ok(value: T) | Err(error: FsError)

  /** The store after an operation, and what the operation returned or raised. */
  datatype Outcome<T> = Outcome(fs: Fs, result: Result<T>)

  /** The two backup directories `sync_save` reports. */
  datatype SyncReport = SyncReport(backupSrc: Path, backupDst: Path)

  // ---------------------------------------------------------------------------
  // shutil primitives

  /** `shutil.copytree(src, dst)`: refuses a missing source first, then an
      existing destination; otherwise adds `dst` holding a copy of `src`. */
  function Copied(fs: Fs, src: Path, dst: Path): (r: Result<Fs>)
    ensures r.Ok? <==> src in fs && dst !in fs
    ensures src !in fs ==> r == Err(NotFound(src))
    ensures src in fs && dst in fs ==> r == Err(AlreadyExists(dst))
    ensures r.Ok? ==> r.value.Keys == fs.Keys + {dst} && r.value[dst] == fs[src]
    ensures r.Ok? ==> forall k :: k in fs ==> r.value[k] == fs[k]
  {
    if src !in fs then Err(NotFound(src))
    else if dst in fs then Err(AlreadyExists(dst))
    else Ok(fs[dst := fs[src]])
  }

  /** `shutil.rmtree(path)`: refuses a missing path; otherwise drops it and
      nothing else. */
  function Removed(fs: Fs, path: Path): (r: Result<Fs>)
    ensures r.Ok? <==> path in fs
    ensures r.Err? ==> r.error == NotFound(path)
    ensures r.Ok? ==> r.value.Keys == fs.Keys - {path}
    ensures r.Ok? ==> forall k :: k in r.value ==> r.value[k] == fs[k]
  {
    if path in fs then Ok(fs - {path}) else Err(NotFound(path))
  }

  // ---------------------------------------------------------------------------
  // backup_save

  /** The name `backup_save` gives a backup taken at second `now`: the save
      path itself as a strict prefix, then an underscore, then the decimal
      stamp. It is never the save path. */
  function BackupPath(savePath: Path, now: int): (b: Path)
    ensures |b| > |savePath| + 1 && b[..|savePath|] == savePath && b[|savePath|] == '_'
    ensures b != savePath
  {
    savePath + "_" + Decimal.IntToString(now)
  }

  /** The stamp after the underscore reads back as the second it was taken. */
  lemma BackupStampReadsBack(savePath: Path, now: int)
    ensures Decimal.IsIntLiteral(BackupPath(savePath, now)[|savePath| + 1..])
    ensures Decimal.ParseInt(BackupPath(savePath, now)[|savePath| + 1..]) == now
  {
    assert BackupPath(savePath, now)[|savePath| + 1..] == Decimal.IntToString(now);
    Decimal.IntRoundTrip(now);
  }

  /** Two backup names coincide only for the same save path and the same
      second: the stamp holds no underscore, so the last underscore splits a
      backup name back into its two parts. */
  lemma BackupPathInjective(p: Path, t: int, q: Path, u: int)
    requires BackupPath(p, t) == BackupPath(q, u)
    ensures p == q && t == u
  {
    var s := BackupPath(p, t);
    var a, b := Decimal.IntToString(t), Decimal.IntToString(u);
    assert s == p + "_" + a == q + "_" + b;
    assert a == s[|s| - |a|..] == b;
    assert p == s[..|p|] == q;
    Decimal.IntToStringInjective(t, u);
  }

  /** `backup_save(save_path)` with the clock reading `now`: on success the
      store gains exactly the backup path, holding what the save path holds,
      and every existing path keeps its tree; on failure nothing changes. */
  function BackedUp(fs: Fs, savePath: Path, now: int): (o: Outcome<Path>)
    ensures o.result.Ok? <==> savePath in fs && BackupPath(savePath, now) !in fs
    ensures o.result.Ok? ==> o.result.value == BackupPath(savePath, now)
    ensures o.result.Ok? ==> o.fs.Keys == fs.Keys + {o.result.value} && o.fs[o.result.value] == fs[savePath]
    ensures o.result.Ok? ==> forall k :: k in fs ==> o.fs[k] == fs[k]
    ensures o.result.Err? ==> o.fs == fs
  {
    var b := BackupPath(savePath, now);
    match Copied(fs, savePath, b)
    case Ok(fs') => Outcome(fs', Ok(b))
    case Err(e) => Outcome(fs, Err(e))
  }

  // ---------------------------------------------------------------------------
  // sync_save

  /** `sync_save(src, dst)` with the two clock readings its two backups take:
      back up `src`, back up `dst`, remove `dst`, copy `src` to `dst`. The
      first step that raises ends the operation, keeping what the earlier
      steps did: a missing source raises before anything is written, and a
      completed sync reports its two backup names. SyncedOk, SyncedOkIff and
      SyncedErrKeepsSaves state the rest. */
  function Synced(fs: Fs, src: Path, dst: Path, tSrc: int, tDst: int): (o: Outcome<SyncReport>)
    ensures src !in fs ==> o == Outcome(fs, Err(NotFound(src)))
    ensures o.result.Ok? ==> o.result.value == SyncReport(BackupPath(src, tSrc), BackupPath(dst, tDst))
  {
    var b1 := BackedUp(fs, src, tSrc);
    if b1.result.Err? then Outcome(b1.fs, Err(b1.result.error))
    else
      var b2 := BackedUp(b1.fs, dst, tDst);
      if b2.result.Err? then Outcome(b2.fs, Err(b2.result.error))
      else
        match Removed(b2.fs, dst)
        case Err(e) => Outcome(b2.fs, Err(e))
        case Ok(fs3) =>
          match Copied(fs3, src, dst)
          case Err(e) => Outcome(fs3, Err(e))
          case Ok(fs4) => Outcome(fs4, Ok(SyncReport(b1.result.value, b2.result.value)))
  }

  /** When a sync succeeds: `dst` now holds the old tree of `src`, `src` is
      unchanged, the backup of `src` holds the old `src` and the backup of
      `dst` the old `dst`, both backups are new paths, and no other existing
      path changes. The one way `dst` may be absent beforehand is when it is
      the backup path of `src` itself, which the first backup creates. */
  lemma SyncedOk(fs: Fs, src: Path, dst: Path, tSrc: int, tDst: int)
    requires Synced(fs, src, dst, tSrc, tDst).result.Ok?
    ensures var o := Synced(fs, src, dst, tSrc, tDst);
            var bs, bd := BackupPath(src, tSrc), BackupPath(dst, tDst);
            && o.result.value == SyncReport(bs, bd)
            && src in fs && src != dst
            && bs !in fs && bd !in fs && bs != bd
            && (dst !in fs ==> dst == bs)
            && o.fs.Keys == fs.Keys + {dst, bs, bd}
            && o.fs[dst] == fs[src] && o.fs[src] == fs[src] && o.fs[bs] == fs[src]
            && o.fs[bd] == (if dst in fs then fs[dst] else fs[src])
            && forall k :: k in fs && k != dst ==> o.fs[k] == fs[k]
  {
  }

  /** The conditions under which a sync succeeds, exactly. */
  lemma SyncedOkIff(fs: Fs, src: Path, dst: Path, tSrc: int, tDst: int)
    ensures var bs, bd := BackupPath(src, tSrc), BackupPath(dst, tDst);
            Synced(fs, src, dst, tSrc, tDst).result.Ok? <==>
              && src in fs && src != dst
              && bs !in fs && (dst in fs || dst == bs)
              && bd !in fs && bd != bs
  {
  }

  /** A failed sync between two different paths removes and overwrites
      nothing: at most the backup of `src` has been added. A missing source
      is reported before anything is written. */
  lemma SyncedErrKeepsSaves(fs: Fs, src: Path, dst: Path, tSrc: int, tDst: int)
    requires src != dst
    requires Synced(fs, src, dst, tSrc, tDst).result.Err?
    ensures var o := Synced(fs, src, dst, tSrc, tDst);
            o.fs == fs || (src in fs && BackupPath(src, tSrc) !in fs && o.fs == fs[BackupPath(src, tSrc) := fs[src]])
    ensures src !in fs ==> Synced(fs, src, dst, tSrc, tDst) == Outcome(fs, Err(NotFound(src)))
  {
  }

  /** Syncing a save onto itself across two different seconds backs it up
      twice, removes it, and then fails to copy it: afterwards only the two
      backups hold it. */
  lemma SyncOntoItself(fs: Fs, p: Path, t1: int, t2: int)
    requires p in fs && t1 != t2
    requires BackupPath(p, t1) !in fs && BackupPath(p, t2) !in fs
    ensures var o := Synced(fs, p, p, t1, t2);
            && o.result == Err(NotFound(p))
            && p !in o.fs
            && BackupPath(p, t1) in o.fs && o.fs[BackupPath(p, t1)] == fs[p]
            && BackupPath(p, t2) in o.fs && o.fs[BackupPath(p, t2)] == fs[p]
  {
    if BackupPath(p, t1) == BackupPath(p, t2) {
      BackupPathInjective(p, t1, p, t2);
    }
  }

  // ---------------------------------------------------------------------------
  // get_last_modified_time

  /** The largest modification time among some entries. */
  function MaxMtime(entries: seq<Entry>): (m: int)
    requires |entries| > 0
    ensures forall e :: e in entries ==> e.mtime <= m
    ensures exists e :: e in entries && e.mtime == m
  {
    if |entries| == 1 then entries[0].mtime
    else
      var rest := MaxMtime(entries[1..]);
      if entries[0].mtime >= rest then entries[0].mtime else rest
  }

  /** `get_last_modified_time(dir)`: the largest modification time among the
      DIRECT entries of the directory, files and subdirectories alike; it
      raises when the directory is missing or has no entries. */
  function LastModified(fs: Fs, dir: Path): (r: Result<int>)
    ensures r.Ok? <==> dir in fs && fs[dir].entries != []
    ensures dir !in fs ==> r == Err(NotFound(dir))
    ensures dir in fs && fs[dir].entries == [] ==> r == Err(EmptyDirectory(dir))
    ensures r.Ok? ==> forall e :: e in fs[dir].entries ==> e.mtime <= r.value
    ensures r.Ok? ==> exists e :: e in fs[dir].entries && e.mtime == r.value
  {
    if dir !in fs then Err(NotFound(dir))
    else if fs[dir].entries == [] then Err(EmptyDirectory(dir))
    else Ok(MaxMtime(fs[dir].entries))
  }

  /** The newest time depends on the entries' times alone: the contract of
      MaxMtime pins it down. */
  lemma MaxMtimeSeesOnlyMtimes(a: seq<Entry>, b: seq<Entry>)
    requires |a| == |b| > 0
    requires forall i :: 0 <= i < |a| ==> a[i].mtime == b[i].mtime
    ensures MaxMtime(a) == MaxMtime(b)
  {
  }

  /** The scan is not recursive: replacing everything inside a subdirectory
      while its own entry keeps its modification time leaves the directory's
      time as it was. */
  lemma NestedChangesUnseen(fs: Fs, dir: Path, i: nat, inner: Tree)
    requires dir in fs && i < |fs[dir].entries| && fs[dir].entries[i].Subdir?
    ensures var e := fs[dir].entries[i];
            var fs' := fs[dir := Tree(fs[dir].entries[i := Subdir(e.name, e.mtime, inner)])];
            LastModified(fs', dir) == LastModified(fs, dir)
  {
    var es := fs[dir].entries;
    var e := es[i];
    MaxMtimeSeesOnlyMtimes(es[i := Subdir(e.name, e.mtime, inner)], es);
  }

  // ---------------------------------------------------------------------------
  // The store, updated in place

  class SaveStore {
    /** Every directory that exists, by path. */
    var dirs: Fs

    constructor (dirs: Fs)
      ensures this.dirs == dirs
    {
      this.dirs := dirs;
    }

    method CopyTree(src: Path, dst: Path) returns (r: Result<()>)
      modifies this
      ensures r.Ok? ==> Copied(old(dirs), src, dst) == Ok(dirs)
      ensures r.Err? ==> Copied(old(dirs), src, dst) == Err(r.error) && dirs == old(dirs)
    {
      if src !in dirs {
        return Err(NotFound(src));
      }
      if dst in dirs {
        return Err(AlreadyExists(dst));
      }
      dirs := dirs[dst := dirs[src]];
      r := Ok(());
    }

    method RmTree(path: Path) returns (r: Result<()>)
      modifies this
      ensures r.Ok? ==> Removed(old(dirs), path) == Ok(dirs)
      ensures r.Err? ==> Removed(old(dirs), path) == Err(r.error) && dirs == old(dirs)
    {
      if path !in dirs {
        return Err(NotFound(path));
      }
      dirs := dirs - {path};
      r := Ok(());
    }

    /** `backup_save`, with `now` the truncated clock reading. */
    method BackupSave(savePath: Path, now: int) returns (r: Result<Path>)
      modifies this
      ensures BackedUp(old(dirs), savePath, now) == Outcome(dirs, r)
    {
      var backupPath := BackupPath(savePath, now);
      var copied := CopyTree(savePath, backupPath);
      if copied.Err? {
        return Err(copied.error);
      }
      r := Ok(backupPath);
    }

    /** `sync_save`, with the clock readings of its two backups. */
    method SyncSave(src: Path, dst: Path, tSrc: int, tDst: int) returns (r: Result<SyncReport>)
      modifies this
      ensures Synced(old(dirs), src, dst, tSrc, tDst) == Outcome(dirs, r)
    {
      var backupSrc := BackupSave(src, tSrc);
      if backupSrc.Err? {
        return Err(backupSrc.error);
      }
      var backupDst := BackupSave(dst, tDst);
      if backupDst.Err? {
        return Err(backupDst.error);
      }
      // `dst` exists here: its backup was just copied from it.
      var removed := RmTree(dst);
      assert removed.Ok?;
      var copied := CopyTree(src, dst);
      if copied.Err? {
        return Err(copied.error);
      }
      r := Ok(SyncReport(backupSrc.value, backupDst.value));
    }

    /** `confirm_sync`: the yes/no answer of the dialog is `confirmed`; a
        declined sync touches nothing and reports None. */
    method ConfirmSync(src: Path, dst: Path, confirmed: bool, tSrc: int, tDst: int)
      returns (r: Option<Result<SyncReport>>)
      modifies this
      ensures !confirmed ==> r == None && dirs == old(dirs)
      ensures confirmed ==> r.Some? && Synced(old(dirs), src, dst, tSrc, tDst) == Outcome(dirs, r.value)
    {
      if confirmed {
        var synced := SyncSave(src, dst, tSrc, tDst);
        r := Some(synced);
      } else {
        r := None;
      }
    }
  }
}
