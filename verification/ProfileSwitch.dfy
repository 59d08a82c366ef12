// Switching the client profile: up to six renames that either all happen or are all undone.
module ProfileSwitch {
  type Path = string
  type Files = map<Path, string>

  datatype Paths = Paths(currentConfig: Path, currentCert: Path, archiveConfig: Path, archiveCert: Path,
                         targetConfig: Path, targetCert: Path) {
    function All(): set<Path> {
      {currentConfig, currentCert, archiveConfig, archiveCert, targetConfig, targetCert}
    }

    ghost predicate PairwiseDistinct() {
      && currentConfig !in {currentCert, archiveConfig, archiveCert, targetConfig, targetCert}
      && currentCert !in {archiveConfig, archiveCert, targetConfig, targetCert}
      && archiveConfig !in {archiveCert, targetConfig, targetCert}
      && archiveCert !in {targetConfig, targetCert}
      && targetConfig != targetCert
    }
  }

  datatype Rename = Rename(from: Path, to: Path)

  /** os.Rename: an existing file under the new name is replaced; a missing one cannot be moved. */
  function Renamed(files: Files, from: Path, to: Path): Files {
    if from in files then (files - {from})[to := files[from]] else files
  }

  /** Undoes a list of renames, the last one first. */
  function Undone(files: Files, renames: seq<Rename>): Files
    decreases |renames|
  {
    if renames == [] then files
    else
      var last := renames[|renames| - 1];
      Undone(Renamed(files, last.to, last.from), renames[..|renames| - 1])
  }

  lemma UndoLast(files: Files, renames: seq<Rename>, from: Path, to: Path)
    requires from in files && to !in files
    ensures Undone(Renamed(files, from, to), renames + [Rename(from, to)]) == Undone(files, renames)
  {
    assert (renames + [Rename(from, to)])[..|renames|] == renames;
    assert Renamed(Renamed(files, from, to), to, from) == files;
  }

  /** The files after a switch: the current profile under the archive names, the target one under the current
      names, the target paths gone. Without a current certificate the archived one is left alone. */
  ghost function Switched(f: Files, p: Paths): Files
    requires p.currentConfig in f && p.targetConfig in f && p.targetCert in f
  {
    var moved := f - {p.targetConfig, p.targetCert};
    var archived := moved[p.archiveConfig := f[p.currentConfig]];
    var withCert := if p.currentCert in f then archived[p.archiveCert := f[p.currentCert]] else archived;
    withCert[p.currentConfig := f[p.targetConfig]][p.currentCert := f[p.targetCert]]
  }

  /** In terms of the single paths. */
  lemma SwitchedMeans(f: Files, p: Paths, other: Path)
    requires p.PairwiseDistinct() && p.currentConfig in f && p.targetConfig in f && p.targetCert in f
    ensures var s := Switched(f, p);
            && p.currentConfig in s && s[p.currentConfig] == f[p.targetConfig]
            && p.currentCert in s && s[p.currentCert] == f[p.targetCert]
            && p.archiveConfig in s && s[p.archiveConfig] == f[p.currentConfig]
            && (p.currentCert in f ==> p.archiveCert in s && s[p.archiveCert] == f[p.currentCert])
            && (p.currentCert !in f ==> (p.archiveCert in s <==> p.archiveCert in f))
            && p.targetConfig !in s && p.targetCert !in s
            && (other !in p.All() ==> (other in s <==> other in f) && (other in f ==> s[other] == f[other]))
  {
  }

  function Aside(f: Files, path: Path, backup: Path): Files {
    if path in f then Renamed(f, path, backup) else f
  }

  /** The two backups that may be made first. */
  function Prepared(f: Files, p: Paths, b1: Path, b2: Path): Files {
    var f1 := Aside(f, p.archiveConfig, b1);
    if p.currentCert in f then Aside(f1, p.archiveCert, b2) else f1
  }

  /** The four moves. */
  function Moved(f: Files, p: Paths): Files {
    Renamed(Renamed(Renamed(Renamed(f, p.currentConfig, p.archiveConfig), p.currentCert, p.archiveCert),
                    p.targetConfig, p.currentConfig), p.targetCert, p.currentCert)
  }

  /** The names the backups were given: none for a file that was not there. */
  ghost function BackupsMade(f: Files, p: Paths, b1: Path, b2: Path): set<Path> {
    (if p.archiveConfig in f then {b1} else {}) + (if p.currentCert in f && p.archiveCert in f then {b2} else {})
  }

  ghost predicate FreshBackups(f: Files, p: Paths, b1: Path, b2: Path) {
    && BackupsMade(f, p, b1, b2) !! p.All() + f.Keys
    && (p.archiveConfig in f && p.currentCert in f && p.archiveCert in f ==> b1 != b2)
  }

  lemma PreparedAt(f: Files, p: Paths, b1: Path, b2: Path, path: Path)
    requires p.PairwiseDistinct() && FreshBackups(f, p, b1, b2)
    requires path !in BackupsMade(f, p, b1, b2)
    ensures path in Prepared(f, p, b1, b2) <==>
            path in f && path != p.archiveConfig && !(path == p.archiveCert && p.currentCert in f)
    ensures path in Prepared(f, p, b1, b2) ==> Prepared(f, p, b1, b2)[path] == f[path]
  {
    assert p.archiveConfig in f ==> b1 in BackupsMade(f, p, b1, b2);
    assert p.currentCert in f && p.archiveCert in f ==> b2 in BackupsMade(f, p, b1, b2);
  }

  /** Backups and moves together are the switch, up to the backups themselves. */
  lemma ChainIsSwitch(f: Files, p: Paths, b1: Path, b2: Path)
    requires p.PairwiseDistinct() && FreshBackups(f, p, b1, b2)
    requires p.currentConfig in f && p.targetConfig in f && p.targetCert in f
    ensures Moved(Prepared(f, p, b1, b2), p) - BackupsMade(f, p, b1, b2) == Switched(f, p)
  {
    var made := BackupsMade(f, p, b1, b2);
    var f2 := Prepared(f, p, b1, b2);
    assert made !! p.All();
    forall path | path !in made
      ensures path in f2 <==> path in f && path != p.archiveConfig && !(path == p.archiveCert && p.currentCert in f)
      ensures path in f2 ==> f2[path] == f[path]
    {
      PreparedAt(f, p, b1, b2, path);
    }
    hide Prepared, BackupsMade, FreshBackups;
    MovesAreSwitch(f, f2, p, made);
  }

  lemma MovesAreSwitch(f: Files, f2: Files, p: Paths, made: set<Path>)
    requires p.PairwiseDistinct() && made !! p.All() && made !! f.Keys
    requires p.currentConfig in f && p.targetConfig in f && p.targetCert in f
    requires forall path | path !in made ::
               path in f2 <==> path in f && path != p.archiveConfig && !(path == p.archiveCert && p.currentCert in f)
    requires forall path | path !in made && path in f2 :: path in f && f2[path] == f[path]
    ensures Moved(f2, p) - made == Switched(f, p)
  {
    var f3 := Renamed(f2, p.currentConfig, p.archiveConfig);
    var f4 := Renamed(f3, p.currentCert, p.archiveCert);
    var f5 := Renamed(f4, p.targetConfig, p.currentConfig);
    var f6 := Renamed(f5, p.targetCert, p.currentCert);
    assert Moved(f2, p) == f6;
    assert (f6 - made).Keys == Switched(f, p).Keys;
    assert f6 - made == Switched(f, p);
  }

  /** No temporary name can be found: the first twenty proposals are all in use. */
  ghost predicate AllTaken(files: Files, candidates: seq<Path>) {
    forall i | 0 <= i < |candidates| && i < 20 :: candidates[i] in files
  }

  function Destinations(renames: seq<Rename>): set<Path> {
    set r | r in renames :: r.to
  }

  /** The file system, with a plan of which system calls fail, and the switch's own bookkeeping. */
  class Switcher {
    var files: Files
    var moved: seq<Rename>
    var backups: seq<Rename>
    var calls: nat
    const fails: nat -> bool

    constructor (files: Files, fails: nat -> bool)
      ensures this.files == files && this.fails == fails && moved == [] && backups == [] && calls == 0
    {
      this.files, this.fails := files, fails;
      moved, backups, calls := [], [], 0;
    }

    /** What a rollback would leave. */
    ghost function RolledBack(): Files
      reads this
    {
      Undone(Undone(files, moved), backups)
    }

    ghost predicate Faulty() {
      exists i: nat :: fails(i)
    }

    method SystemCallFails() returns (failed: bool)
      modifies `calls
      ensures failed ==> Faulty()
    {
      failed := fails(calls);
      calls := calls + 1;
    }

    /** The first of the proposed names that is not taken, among at most twenty. */
    method TemporarySiblingPath(candidates: seq<Path>) returns (ok: bool, path: Path)
      ensures ok ==> path in candidates && path !in files
      ensures !ok ==> AllTaken(files, candidates)
    {
      path := "";
      var i := 0;
      while i < |candidates| && i < 20
        invariant 0 <= i <= |candidates| && i <= 20
        invariant forall j | 0 <= j < i :: candidates[j] in files
      {
        if candidates[i] !in files {
          return true, candidates[i];
        }
        i := i + 1;
      }
      return false, path;
    }

    /** Moves an existing file aside and remembers it. */
    method AddBackup(path: Path, candidates: seq<Path>) returns (ok: bool, ghost backup: Path)
      requires moved == []
      modifies `files, `backups, `calls
      ensures RolledBack() == old(RolledBack())
      ensures ok && path in old(files) ==>
                && backup in candidates && backup !in old(files)
                && files == Renamed(old(files), path, backup) && backups == old(backups) + [Rename(path, backup)]
      ensures !ok || path !in old(files) ==> files == old(files) && backups == old(backups)
      ensures !ok ==> path in old(files) && (Faulty() || AllTaken(old(files), candidates))
    {
      backup := "";
      if path !in files {
        return true, backup;
      }
      var found, temp := TemporarySiblingPath(candidates);
      backup := temp;
      if !found {
        return false, backup;
      }
      var failed := SystemCallFails();
      if failed {
        return false, backup;
      }
      UndoLast(files, backups, path, temp);
      files := Renamed(files, path, temp);
      backups := backups + [Rename(path, temp)];
      return true, backup;
    }

    /** renameNoReplace, remembered; an optional source may be missing. */
    method Move(from: Path, to: Path, optional: bool) returns (ok: bool)
      requires from != to
      modifies `files, `moved, `calls
      ensures RolledBack() == old(RolledBack())
      ensures ok && from in old(files) ==>
                to !in old(files) && files == Renamed(old(files), from, to) && moved == old(moved) + [Rename(from, to)]
      ensures ok && from !in old(files) ==> optional
      ensures !ok || from !in old(files) ==> files == old(files) && moved == old(moved)
      ensures !ok ==> to in old(files) || from !in old(files) || Faulty()
      ensures optional && from !in old(files) ==> ok
    {
      if optional && from !in files {
        return true;
      }
      if to in files {
        return false;
      }
      var failed := SystemCallFails();       // the parent directory
      if failed {
        return false;
      }
      failed := SystemCallFails();           // the rename itself
      if failed || from !in files {
        return false;
      }
      UndoLast(files, moved, from, to);
      files := Renamed(files, from, to);
      moved := moved + [Rename(from, to)];
      return true;
    }

    /** Undoes the moves and then the backups, each list from its end; these renames succeed. */
    method Rollback()
      modifies `files
      ensures files == old(RolledBack())
    {
      UndoFromEnd(moved);
      UndoFromEnd(backups);
    }

    method UndoFromEnd(renames: seq<Rename>)
      modifies `files
      ensures files == Undone(old(files), renames)
    {
      var i := |renames|;
      assert renames[..i] == renames;
      while i > 0
        invariant 0 <= i <= |renames|
        invariant Undone(files, renames[..i]) == Undone(old(files), renames)
      {
        i := i - 1;
        assert renames[..i + 1][..i] == renames[..i];
        files := Renamed(files, renames[i].to, renames[i].from);
      }
      assert renames[..0] == [];
    }

    /** Removes the backups; a failing removal leaves its file behind. */
    method Cleanup() returns (ghost left: set<Path>)
      modifies `files, `calls
      ensures left <= Destinations(backups)
      ensures left != {} ==> Faulty()
      ensures files == old(files) - (Destinations(backups) - left)
    {
      ghost var removed := {};
      ghost var missed := {};
      for i := 0 to |backups|
        invariant removed + missed == Destinations(backups[..i])
        invariant missed != {} ==> Faulty()
        invariant files == old(files) - removed
      {
        assert backups[..i + 1] == backups[..i] + [backups[i]];
        assert Destinations(backups[..i + 1]) == Destinations(backups[..i]) + {backups[i].to};
        var failed := SystemCallFails();
        if failed {
          missed := missed + {backups[i].to};
        } else {
          files := files - {backups[i].to};
          removed := removed + {backups[i].to};
        }
      }
      assert backups[..|backups|] == backups;
      left := missed - removed;
    }

    /** Moves the files that are in the way aside: the archived configuration, and the archived certificate if there
        is a current one to put in its place. */
    method Prepare(p: Paths, names1: seq<Path>, names2: seq<Path>) returns (ok: bool, ghost b1: Path, ghost b2: Path)
      requires moved == [] && backups == [] && p.PairwiseDistinct()
      requires forall name | name in names1 || name in names2 :: name !in p.All()
      modifies `files, `backups, `calls
      ensures !ok ==> RolledBack() == old(files)
      ensures !ok ==> Faulty() || CannotPrepare(old(files), p, names1, names2)
      ensures ok ==> FreshBackups(old(files), p, b1, b2) && files == Prepared(old(files), p, b1, b2)
      ensures ok ==> RolledBack() == old(files) && Destinations(backups) == BackupsMade(old(files), p, b1, b2)
      ensures ok ==> forall name | name in Destinations(backups) :: name in names1 || name in names2
    {
      var currentCertExists := p.currentCert in files;
      b2 := "";
      ok, b1 := AddBackup(p.archiveConfig, names1);
      if !ok {
        return;
      }
      if currentCertExists {
        ok, b2 := AddBackup(p.archiveCert, names2);
      }
    }

    ghost predicate CannotPrepare(f: Files, p: Paths, names1: seq<Path>, names2: seq<Path>) {
      || (p.archiveConfig in f && AllTaken(f, names1))
      || (&& p.currentCert in f && p.archiveCert in f
          && exists b1: Path ::
            (b1 in names1 || p.archiveConfig !in f) && AllTaken(Aside(f, p.archiveConfig, b1), names2))
    }

    /** The four moves; the current certificate is optional exactly when there was none. */
    method MoveAll(p: Paths, currentCertExists: bool) returns (ok: bool)
      requires moved == [] && p.PairwiseDistinct()
      requires p.archiveConfig !in files && (currentCertExists ==> p.archiveCert !in files)
      requires currentCertExists == (p.currentCert in files)
      modifies `files, `moved, `calls
      ensures RolledBack() == old(RolledBack())
      ensures ok ==> files == Moved(old(files), p)
      ensures ok ==> p.currentConfig in old(files) && p.targetConfig in old(files) && p.targetCert in old(files)
      ensures !ok ==>
                || Faulty() || p.currentConfig !in old(files) || p.targetConfig !in old(files)
                || p.targetCert !in old(files)
    {
      ok := Move(p.currentConfig, p.archiveConfig, false);
      if !ok { return; }
      ok := Move(p.currentCert, p.archiveCert, !currentCertExists);
      if !ok { return; }
      ok := Move(p.targetConfig, p.currentConfig, false);
      if !ok { return; }
      ok := Move(p.targetCert, p.currentCert, false);
    }

    /** switchClientProfileFiles: all or nothing, whichever system call fails. */
    method Switch(p: Paths, names1: seq<Path>, names2: seq<Path>) returns (ok: bool, ghost left: set<Path>)
      requires moved == [] && backups == [] && p.PairwiseDistinct()
      requires forall name | name in names1 || name in names2 :: name !in p.All()
      modifies this
      ensures !ok ==> files == old(files)
      ensures ok ==> p.currentConfig in old(files) && p.targetConfig in old(files) && p.targetCert in old(files)
      ensures ok ==> left !! old(files).Keys && files - left == Switched(old(files), p)
      ensures ok ==> forall name | name in left :: name in names1 || name in names2
      ensures ok && left != {} ==> Faulty()
      ensures !ok ==>
                || Faulty() || CannotPrepare(old(files), p, names1, names2)
                || p.currentConfig !in old(files) || p.targetConfig !in old(files) || p.targetCert !in old(files)
    {
      left := {};
      var currentCertExists := p.currentCert in files;
      ghost var b1, b2;
      ok, b1, b2 := Prepare(p, names1, names2);
      if !ok {
        Rollback();
        return;
      }
      ghost var prepared := files;
      assert forall path | path in p.All() :: path !in BackupsMade(old(files), p, b1, b2);
      forall path | path in p.All()
        ensures path in files <==>
                path in old(files) && path != p.archiveConfig && !(path == p.archiveCert && p.currentCert in old(files))
      {
        PreparedAt(old(files), p, b1, b2, path);
      }
      ok := MoveAll(p, currentCertExists);
      if !ok {
        Rollback();
        return;
      }
      ghost var made := BackupsMade(old(files), p, b1, b2);
      ChainIsSwitch(old(files), p, b1, b2);
      left := Cleanup();
      hide Moved, Prepared, Switched;
      assert files - left == Moved(prepared, p) - made;
    }
  }
}
