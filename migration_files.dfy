/** `migrate.Create`: the command that lays down an empty pair of migration
    scripts, `db/migrations/<timestamp>_<name>.up.sql` and its `.down.sql`
    twin, and the agreement between those names and what the migration
    engine later globs for and derives by `replaceSuffix`.

    The file system is a `FileSystem` object holding the set of existing
    directories and the map from file path to contents; the paths the
    operating system refuses to create (permissions, a full disk) are given
    as a set, and `time.Now()` is a `DateTime` parameter. */
module MigrationFiles {
  import opened Strings
  import opened Wrappers
  import opened Timestamps
  import Migrations

  /** The placeholder contents of the two new scripts. */
  const UpBody := "-- SQL UP Migration"
  const DownBody := "-- SQL DOWN Migration"

  // ---------------------------------------------------------------------
  // Paths
  // ---------------------------------------------------------------------

  /** `<timestamp>_<name>`: the part the two file names share. */
  function Stem(ts: string, name: string): string {
    ts + "_" + name
  }

  /** `fmt.Sprintf("%s/%s_%s.up.sql", migrationDir, timestamp, name)`. */
  function UpPath(ts: string, name: string): string {
    Migrations.MigrationDir + "/" + Stem(ts, name) + Migrations.UpSuffix
  }

  /** `fmt.Sprintf("%s/%s_%s.down.sql", migrationDir, timestamp, name)`. */
  function DownPath(ts: string, name: string): string {
    Migrations.MigrationDir + "/" + Stem(ts, name) + Migrations.DownSuffix
  }

  /** `filepath.Base` of a path that does not end in a slash: what follows
      the last `/`, or the whole path when it has none. Go gives `"."` for
      the empty path and this gives `""`; every path the model builds is
      non-empty, so that case does not arise. */
  function Base(path: string): (r: string)
    ensures '/' !in r
    ensures |r| <= |path| && r == path[|path| - |r|..]
    ensures |r| < |path| ==> path[|path| - |r| - 1] == '/'
  {
    if path == [] then []
    else if path[|path| - 1] == '/' then []
    else Base(path[..|path| - 1]) + [path[|path| - 1]]
  }

  /** `filepath.Dir` of such a path: what precedes the last `/`, or `"."`. */
  function Dir(path: string): (r: string)
    ensures '/' !in path ==> r == "."
    ensures '/' in path ==> |Base(path)| < |path| && r == path[..|path| - |Base(path)| - 1]
    ensures '/' in path <==> r + "/" + Base(path) == path
  {
    var b := Base(path);
    if |b| == |path| then "."
    else
      var d := path[..|path| - |b| - 1];
      assert d + "/" + b == path;
      d
  }

  /** Appending a text without slashes appends it to the base name. */
  lemma {:induction false} BaseAppend(p: string, s: string)
    requires '/' !in s
    ensures Base(p + s) == Base(p) + s
    decreases |s|
  {
    if s != [] {
      var s' := s[..|s| - 1];
      assert (p + s)[..|p + s| - 1] == p + s';
      BaseAppend(p, s');
      assert s' + [s[|s| - 1]] == s;
    } else {
      assert p + s == p;
    }
  }

  /** A file joined under a directory has that directory and that base name. */
  lemma BaseOfJoin(dir: string, file: string)
    requires '/' !in file
    ensures Base(dir + "/" + file) == file
    ensures Dir(dir + "/" + file) == dir
  {
    BaseAppend(dir + "/", file);
    assert Base(dir + "/") == [];
    var path := dir + "/" + file;
    assert |Base(path)| < |path|;
    assert path[..|path| - |file| - 1] == dir;
  }

  /** Both paths are `db/migrations/<timestamp>_<name>` followed by the
      suffix, and they differ in nothing else. */
  lemma SharedPrefix(ts: string, name: string)
    ensures var up, down := UpPath(ts, name), DownPath(ts, name);
      var prefix := Migrations.MigrationDir + "/" + Stem(ts, name);
      && up == prefix + Migrations.UpSuffix && down == prefix + Migrations.DownSuffix
      && up[..|up| - |Migrations.UpSuffix|] == down[..|down| - |Migrations.DownSuffix|] == prefix
  {
    var prefix := Migrations.MigrationDir + "/" + Stem(ts, name);
    assert (prefix + Migrations.UpSuffix)[..|prefix|] == prefix;
    assert (prefix + Migrations.DownSuffix)[..|prefix|] == prefix;
  }

  /** The engine's rollback finds the down twin of a created up script:
      `replaceSuffix(base(up), ".up.sql", ".down.sql") == base(down)`, for
      every name, slashes included. */
  lemma DownOfCreatedUp(ts: string, name: string)
    ensures Migrations.DownName(Base(UpPath(ts, name))) == Some(Base(DownPath(ts, name)))
  {
    var prefix := Migrations.MigrationDir + "/" + Stem(ts, name);
    BaseAppend(prefix, Migrations.UpSuffix);
    BaseAppend(prefix, Migrations.DownSuffix);
    var b := Base(prefix);
    assert (b + Migrations.UpSuffix)[..|b|] == b;
  }

  /** A down-script name never ends in `.up.sql`. */
  lemma DownNotUp(b: string)
    ensures !EndsWith(b + Migrations.DownSuffix, Migrations.UpSuffix)
  {
    var s := b + Migrations.DownSuffix;
    assert s[|s| - 7] == 'o';
  }

  /** The glob `*.up.sql` matches the created up script and not its twin,
      so only the up half ever becomes a pending migration. */
  lemma GlobSeesUpOnly(ts: string, name: string)
    ensures Migrations.IsUpScript(Base(UpPath(ts, name)))
    ensures !EndsWith(Base(DownPath(ts, name)), Migrations.UpSuffix)
  {
    var prefix := Migrations.MigrationDir + "/" + Stem(ts, name);
    BaseAppend(prefix, Migrations.UpSuffix);
    BaseAppend(prefix, Migrations.DownSuffix);
    EndsWithAppend(Base(prefix), Migrations.UpSuffix);
    DownNotUp(Base(prefix));
  }

  /** A name without slashes puts both scripts directly in `db/migrations`,
      under the base names the engine sees. */
  lemma CreatedInMigrationDir(ts: string, name: string)
    requires '/' !in ts && '/' !in name
    ensures Dir(UpPath(ts, name)) == Migrations.MigrationDir
    ensures Dir(DownPath(ts, name)) == Migrations.MigrationDir
    ensures Base(UpPath(ts, name)) == Stem(ts, name) + Migrations.UpSuffix
    ensures Base(DownPath(ts, name)) == Stem(ts, name) + Migrations.DownSuffix
  {
    var up, down := Stem(ts, name) + Migrations.UpSuffix, Stem(ts, name) + Migrations.DownSuffix;
    assert '/' !in up && '/' !in down;
    assert UpPath(ts, name) == Migrations.MigrationDir + "/" + up;
    assert DownPath(ts, name) == Migrations.MigrationDir + "/" + down;
    BaseOfJoin(Migrations.MigrationDir, up);
    BaseOfJoin(Migrations.MigrationDir, down);
  }

  lemma StemSplit(ts: string, name: string)
    ensures Stem(ts, name) + Migrations.UpSuffix == ts + ("_" + name + Migrations.UpSuffix)
  {
  }

  /** Of two stamps of one width, the earlier one's up script sorts first. */
  lemma StampOrder(t1: string, t2: string, n1: string, n2: string)
    requires |t1| == |t2| && '/' !in t1 && '/' !in t2 && '/' !in n1 && '/' !in n2
    requires LexLess(t1, t2)
    ensures LexLess(Base(UpPath(t1, n1)), Base(UpPath(t2, n2)))
  {
    CreatedInMigrationDir(t1, n1);
    CreatedInMigrationDir(t2, n2);
    var r1, r2 := "_" + n1 + Migrations.UpSuffix, "_" + n2 + Migrations.UpSuffix;
    StemSplit(t1, n1);
    StemSplit(t2, n2);
    LexConcat(t1, r1, t2, r2);
  }

  /** Scripts created at an earlier second sort before later ones, whatever
      their names, so the engine's name order is creation order. */
  lemma CreationOrder(a: DateTime, b: DateTime, n1: string, n2: string)
    requires '/' !in n1 && '/' !in n2
    requires Before(a, b)
    ensures LexLess(Base(UpPath(Format(a), n1)), Base(UpPath(Format(b), n2)))
  {
    var t1, t2 := Format(a), Format(b);
    assert '/' !in t1 by { assert forall i :: 0 <= i < |t1| ==> IsDigit(t1[i]); }
    assert '/' !in t2 by { assert forall i :: 0 <= i < |t2| ==> IsDigit(t2[i]); }
    FormatOrder(a, b);
    StampOrder(t1, t2, n1, n2);
  }

  // ---------------------------------------------------------------------
  // The file system
  // ---------------------------------------------------------------------

  /** A value snapshot of a `FileSystem`. */
  datatype Disk = Disk(dirs: set<string>, files: map<string, string>)

  /** `os.MkdirAll` succeeds unless the path is refused or a file is in the way. */
  predicate MkdirOk(d: Disk, path: string, refused: set<string>) {
    path !in refused && path !in d.files
  }

  /** `os.WriteFile` succeeds when the path is allowed, is not a directory,
      and its parent directory exists; an existing file is overwritten. */
  predicate WriteOk(d: Disk, path: string, refused: set<string>) {
    path !in refused && path !in d.dirs && Dir(path) in d.dirs
  }

  class FileSystem {
    var dirs: set<string>
    var files: map<string, string>

    function Snapshot(): Disk
      reads this
    {
      Disk(dirs, files)
    }

    constructor (d: Disk)
      ensures Snapshot() == d
    {
      dirs := d.dirs;
      files := d.files;
    }

    method MkdirAll(path: string, refused: set<string>) returns (ok: bool)
      modifies this
      ensures ok <==> MkdirOk(old(Snapshot()), path, refused)
      ensures Snapshot() == if ok then old(Snapshot()).(dirs := old(dirs) + {path}) else old(Snapshot())
    {
      ok := MkdirOk(Snapshot(), path, refused);
      if ok {
        dirs := dirs + {path};
      }
    }

    method WriteFile(path: string, data: string, refused: set<string>) returns (ok: bool)
      modifies this
      ensures ok <==> WriteOk(old(Snapshot()), path, refused)
      ensures Snapshot() == if ok then old(Snapshot()).(files := old(files)[path := data]) else old(Snapshot())
    {
      ok := WriteOk(Snapshot(), path, refused);
      if ok {
        files := files[path := data];
      }
    }
  }

  // ---------------------------------------------------------------------
  // Create
  // ---------------------------------------------------------------------

  /** The errors `Create` returns. */
  datatype CreateError = MissingName | MkdirFailed | WriteFailed(path: string)

  datatype Created = Created(disk: Disk, err: Option<CreateError>)

  /** What `Create(name)` at time `now` does to a disk, step by step. */
  function CreateSpec(d: Disk, name: string, now: DateTime, refused: set<string>): Created {
    if name == "" then Created(d, Some(MissingName))
    else
      var up, down := UpPath(Format(now), name), DownPath(Format(now), name);
      if !MkdirOk(d, Migrations.MigrationDir, refused) then Created(d, Some(MkdirFailed))
      else
        var d1 := d.(dirs := d.dirs + {Migrations.MigrationDir});
        if !WriteOk(d1, up, refused) then Created(d1, Some(WriteFailed(up)))
        else
          var d2 := d1.(files := d1.files[up := UpBody]);
          if !WriteOk(d2, down, refused) then Created(d2, Some(WriteFailed(down)))
          else Created(d2.(files := d2.files[down := DownBody]), None)
  }

  /** `migrate.Create`. */
  method Create(fs: FileSystem, name: string, now: DateTime, refused: set<string>) returns (err: Option<CreateError>)
    modifies fs
    ensures Created(fs.Snapshot(), err) == CreateSpec(old(fs.Snapshot()), name, now, refused)
  {
    if name == "" {
      return Some(MissingName);
    }
    var timestamp := Format(now);
    var upFile := UpPath(timestamp, name);
    var downFile := DownPath(timestamp, name);
    var ok := fs.MkdirAll(Migrations.MigrationDir, refused);
    if !ok {
      return Some(MkdirFailed);
    }
    ok := fs.WriteFile(upFile, UpBody, refused);
    if !ok {
      return Some(WriteFailed(upFile));
    }
    ok := fs.WriteFile(downFile, DownBody, refused);
    if !ok {
      return Some(WriteFailed(downFile));
    }
    return None;
  }

  /** An empty name is an error, and nothing is touched. */
  lemma EmptyNameTouchesNothing(d: Disk, now: DateTime, refused: set<string>)
    ensures CreateSpec(d, "", now, refused) == Created(d, Some(MissingName))
  {
  }

  /** `Create` succeeds exactly when every step is allowed; it then holds
      the directory, the up script and the down script, overwriting any
      files already at those paths. */
  lemma CreateSucceeds(d: Disk, name: string, now: DateTime, refused: set<string>)
    ensures var up, down := UpPath(Format(now), name), DownPath(Format(now), name);
      var d1 := d.(dirs := d.dirs + {Migrations.MigrationDir});
      var d2 := d1.(files := d1.files[up := UpBody]);
      var r := CreateSpec(d, name, now, refused);
      && (r.err == None <==>
           name != "" && MkdirOk(d, Migrations.MigrationDir, refused)
           && WriteOk(d1, up, refused) && WriteOk(d2, down, refused))
      && (r.err == None ==>
           r.disk.dirs == d.dirs + {Migrations.MigrationDir}
           && r.disk.files == d.files[up := UpBody][down := DownBody])
  {
  }

  /** The steps run in the order directory, up script, down script, and a
      failing step leaves every later one undone: a failed directory
      creation changes nothing, a failed up write leaves only the
      directory, and a failed down write leaves the up script in place. */
  lemma CreateStopsAtFirstFailure(d: Disk, name: string, now: DateTime, refused: set<string>)
    ensures var up, down := UpPath(Format(now), name), DownPath(Format(now), name);
      var r := CreateSpec(d, name, now, refused);
      && (r.err == Some(MkdirFailed) ==> r.disk == d)
      && (r.err.Some? && r.err.value.WriteFailed? ==>
            r.disk.dirs == d.dirs + {Migrations.MigrationDir})
      && (r.err == Some(WriteFailed(up)) ==> r.disk.files == d.files)
      && up != down
      && (r.err == Some(WriteFailed(down)) ==>
            r.disk.files == d.files[up := UpBody])
      && (r.err.Some? && r.err.value.WriteFailed? ==>
            r.err.value.path == up || r.err.value.path == down)
  {
  }

  /** After a successful `Create` with a name free of slashes, the engine's
      rollback of the new migration finds its down script: the up script is
      an up-glob match in `db/migrations`, and joining the directory with
      `replaceSuffix` of its base name gives the down path, which exists. */
  lemma CreatedPairRollsBack(d: Disk, name: string, now: DateTime, refused: set<string>)
    requires '/' !in name
    requires CreateSpec(d, name, now, refused).err == None
    ensures var up, down := UpPath(Format(now), name), DownPath(Format(now), name);
      var files := CreateSpec(d, name, now, refused).disk.files;
      && up in files && down in files
      && Dir(up) == Migrations.MigrationDir && Migrations.IsUpScript(Base(up))
      && Migrations.DownName(Base(up)).Some?
      && Migrations.MigrationDir + "/" + Migrations.DownName(Base(up)).value == down
  {
    var ts := Format(now);
    assert '/' !in ts by { assert forall i :: 0 <= i < |ts| ==> IsDigit(ts[i]); }
    CreateSucceeds(d, name, now, refused);
    CreatedInMigrationDir(ts, name);
    GlobSeesUpOnly(ts, name);
    DownOfCreatedUp(ts, name);
  }
}
