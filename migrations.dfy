/** The schema migration engine: a ledger table of applied migration names,
    `RunMigrations`, which applies every pending `*.up.sql` script in file
    order and records each one after it succeeds, and `RollbackLastMigration`,
    which runs the paired `.down.sql` script of the most recently applied
    migration and then deletes its ledger row.

    The database is a `Database` object: its ledger rows, the auto-increment
    counter of their primary key, and the log of the scripts handed to the
    target store for execution. The migration directory, the target store's
    verdict on each script body, and the clock are given as an `Env`. Every
    `log.Fatalf` of the source becomes a `Failed` outcome that leaves the
    state exactly as it was when the failure happened. */
module Migrations {
  import opened Strings
  import opened Wrappers

  const MigrationDir := "db/migrations"
  const UpSuffix := ".up.sql"
  const DownSuffix := ".down.sql"

  /** One row of the `migrations` table. */
  datatype Migration = Migration(id: nat, name: string, appliedAt: int)

  /** What `os.Stat`/`os.ReadFile` find under a name in the migration directory. */
  datatype File = Readable(body: string) | Unreadable

  /** The `log.Fatalf` calls of the engine. */
  datatype Fatal =
    | SchemaFailed             // AutoMigrate could not create the ledger table
    | ReadFailed(file: string) // a script could not be read
    | ExecFailed(name: string) // the target store rejected a script
    | MissingDown(name: string)// the applied migration has no .down.sql
    | InvalidName(name: string)// replaceSuffix: the name lacks the expected suffix

  datatype Outcome =
    | Done
    | NothingToRollBack
    | RolledBack(row: Migration)
    | Failed(reason: Fatal)

  /** The world outside the database: the migration directory keyed by base
      name, the script bodies the target store rejects, and `clock(k)`, the
      reading of `time.Now()` at the k-th ledger insert of a run. */
  datatype Env = Env(dir: map<string, File>, rejects: set<string>, clock: nat -> int)

  /** A value snapshot of a `Database`. */
  datatype State = State(ledger: seq<Migration>, execLog: seq<string>, nextId: nat)

  datatype Run = Run(state: State, outcome: Outcome)

  // ---------------------------------------------------------------------
  // File names
  // ---------------------------------------------------------------------

  /** `replaceSuffix(name, old, new)`; `None` is its `log.Fatalf`. */
  function ReplaceSuffix(name: string, oldSuffix: string, newSuffix: string): (r: Option<string>)
    ensures r.Some? <==> EndsWith(name, oldSuffix)
    ensures r.Some? ==> EndsWith(r.value, newSuffix)
    ensures r.Some? ==> |r.value| == |name| - |oldSuffix| + |newSuffix|
    ensures r.Some? ==> r.value[..|r.value| - |newSuffix|] == name[..|name| - |oldSuffix|]
  {
    if EndsWith(name, oldSuffix) then
      var stem := TrimSuffix(name, oldSuffix);
      EndsWithAppend(stem, newSuffix);
      assert (stem + newSuffix)[..|stem|] == stem;
      Some(stem + newSuffix)
    else None
  }

  /** Swapping the suffixes back restores the name. */
  lemma ReplaceSuffixInverse(name: string, oldSuffix: string, newSuffix: string)
    requires EndsWith(name, oldSuffix)
    ensures ReplaceSuffix(name, oldSuffix, newSuffix).Some?
    ensures ReplaceSuffix(ReplaceSuffix(name, oldSuffix, newSuffix).value, newSuffix, oldSuffix) == Some(name)
  {
    var stem := name[..|name| - |oldSuffix|];
    assert stem + oldSuffix == name;
    assert ReplaceSuffix(name, oldSuffix, newSuffix).value == stem + newSuffix;
  }

  /** The base name of the down script paired with an up script. */
  function DownName(upName: string): Option<string> {
    ReplaceSuffix(upName, UpSuffix, DownSuffix)
  }

  /** A base name that the glob of up scripts in the migration directory can return. */
  predicate IsUpScript(name: string) {
    EndsWith(name, UpSuffix) && '/' !in name
  }

  /** What `filepath.Glob` returns: up-script names, sorted, without repeats. */
  predicate GlobResult(files: seq<string>) {
    StrictlySorted(files) && forall i :: 0 <= i < |files| ==> IsUpScript(files[i])
  }

  // ---------------------------------------------------------------------
  // The ledger
  // ---------------------------------------------------------------------

  function Names(ledger: seq<Migration>): set<string> {
    set i | 0 <= i < |ledger| :: ledger[i].name
  }

  /** The table's constraints (unique name, unique auto-increment primary key)
      and the engine's own invariant that it records only up-script names. */
  predicate ValidState(st: State) {
    && (forall i, j :: 0 <= i < j < |st.ledger| ==> st.ledger[i].name != st.ledger[j].name)
    && (forall i, j :: 0 <= i < j < |st.ledger| ==> st.ledger[i].id != st.ledger[j].id)
    && (forall i :: 0 <= i < |st.ledger| ==> st.ledger[i].id < st.nextId)
    && (forall i :: 0 <= i < |st.ledger| ==> EndsWith(st.ledger[i].name, UpSuffix))
  }

  /** `db.Order("applied_at desc").First(&last)` may return row `j`. */
  predicate IsLatest(ledger: seq<Migration>, j: int) {
    0 <= j < |ledger| && forall k :: 0 <= k < |ledger| ==> ledger[k].appliedAt <= ledger[j].appliedAt
  }

  /** `db.Delete(&last)`: delete the rows whose primary key is `id`. */
  function DeleteById(ledger: seq<Migration>, id: nat): (r: seq<Migration>)
    ensures forall i :: 0 <= i < |r| ==> r[i] in ledger && r[i].id != id
  {
    if |ledger| == 0 then []
    else (if ledger[0].id == id then [] else [ledger[0]]) + DeleteById(ledger[1..], id)
  }

  // ---------------------------------------------------------------------
  // RunMigrations, as a function of the state before the run
  // ---------------------------------------------------------------------

  /** The script `name` can be read and the target store accepts it. */
  predicate Runs(name: string, env: Env) {
    name in env.dir && env.dir[name].Readable? && env.dir[name].body !in env.rejects
  }

  /** The loop over the glob result: skip names in `applied`, else read,
      execute and record; stop at the first failure. `t` counts the ledger
      inserts made so far in this run. */
  function Walk(files: seq<string>, applied: set<string>, env: Env, st: State, t: nat): (r: Run)
    ensures st.ledger <= r.state.ledger && st.execLog <= r.state.execLog
    decreases |files|
  {
    if |files| == 0 then Run(st, Done)
    else
      var name := files[0];
      if name in applied then Walk(files[1..], applied, env, st, t)
      else if name !in env.dir || env.dir[name].Unreadable? then Run(st, Failed(ReadFailed(name)))
      else
        var executed := st.(execLog := st.execLog + [name]);
        if env.dir[name].body in env.rejects then Run(executed, Failed(ExecFailed(name)))
        else
          var row := Migration(st.nextId, name, env.clock(t));
          Walk(files[1..], applied, env, executed.(ledger := st.ledger + [row], nextId := st.nextId + 1), t + 1)
  }

  /** `RunMigrations(db)`: create the ledger table, read the applied names,
      then walk the glob result. */
  function RunSpec(st: State, files: seq<string>, env: Env, schemaFails: bool): (r: Run)
    ensures st.ledger <= r.state.ledger && st.execLog <= r.state.execLog
    ensures schemaFails ==> r == Run(st, Failed(SchemaFailed))
  {
    if schemaFails then Run(st, Failed(SchemaFailed))
    else Walk(files, Names(st.ledger), env, st, 0)
  }

  // ---------------------------------------------------------------------
  // The same run described in closed form
  // ---------------------------------------------------------------------

  /** The pending set: the glob result minus the applied names, in file order. */
  function Pending(files: seq<string>, applied: set<string>): (p: seq<string>)
    ensures |p| <= |files|
    ensures forall x :: x in p <==> x in files && x !in applied
  {
    if |files| == 0 then []
    else (if files[0] in applied then [] else [files[0]]) + Pending(files[1..], applied)
  }

  /** Index of the first pending script that cannot be read or is rejected. */
  function FirstBad(p: seq<string>, env: Env): (m: nat)
    ensures m <= |p|
    ensures forall i :: 0 <= i < m ==> Runs(p[i], env)
    ensures m < |p| ==> !Runs(p[m], env)
  {
    if |p| == 0 || !Runs(p[0], env) then 0 else 1 + FirstBad(p[1..], env)
  }

  /** The ledger rows a run appends for `names`, starting at primary key `id`
      and at clock call `t`. */
  function Rows(names: seq<string>, id: nat, t: nat, clock: nat -> int): (rows: seq<Migration>)
    ensures |rows| == |names|
  {
    if |names| == 0 then []
    else [Migration(id, names[0], clock(t))] + Rows(names[1..], id + 1, t + 1, clock)
  }

  function RowNames(rows: seq<Migration>): (r: seq<string>)
    ensures |r| == |rows|
    ensures forall i :: 0 <= i < |rows| ==> r[i] == rows[i].name
  {
    seq(|rows|, i requires 0 <= i < |rows| => rows[i].name)
  }

  /** The end of a run whose pending set is `p` and whose first bad script
      is at `m`: the first `m` scripts are executed and recorded in order,
      then script `m` (if any) fails, after being sent to the store when it
      could be read. */
  function Finish(p: seq<string>, m: nat, env: Env, st: State, t: nat): Run
    requires m <= |p|
  {
    var ok := State(st.ledger + Rows(p[..m], st.nextId, t, env.clock), st.execLog + p[..m], st.nextId + m);
    if m == |p| then Run(ok, Done)
    else if !IsReadable(p[m], env) then Run(ok, Failed(ReadFailed(p[m])))
    else Run(ok.(execLog := ok.execLog + [p[m]]), Failed(ExecFailed(p[m])))
  }

  /** Reference description of a run, in closed form. */
  function Expected(files: seq<string>, applied: set<string>, env: Env, st: State, t: nat): Run {
    var p := Pending(files, applied);
    Finish(p, FirstBad(p, env), env, st, t)
  }

  lemma {:induction false} WalkClosedForm(files: seq<string>, applied: set<string>, env: Env, st: State, t: nat)
    ensures Walk(files, applied, env, st, t) == Expected(files, applied, env, st, t)
    decreases |files|
  {
    if |files| == 0 {
      assert st.ledger + [] == st.ledger && st.execLog + [] == st.execLog;
    } else {
      var name := files[0];
      if name in applied {
        assert Pending(files, applied) == Pending(files[1..], applied);
        WalkClosedForm(files[1..], applied, env, st, t);
      } else if !Runs(name, env) {
        ExpectedFails(files, applied, env, st, t);
      } else {
        var row := Migration(st.nextId, name, env.clock(t));
        var st' := State(st.ledger + [row], st.execLog + [name], st.nextId + 1);
        assert Walk(files, applied, env, st, t) == Walk(files[1..], applied, env, st', t + 1);
        WalkClosedForm(files[1..], applied, env, st', t + 1);
        ExpectedStep(files, applied, env, st, t);
      }
    }
  }

  /** The first pending script fails at once. */
  lemma ExpectedFails(files: seq<string>, applied: set<string>, env: Env, st: State, t: nat)
    requires |files| > 0 && files[0] !in applied && !Runs(files[0], env)
    ensures Walk(files, applied, env, st, t) == Expected(files, applied, env, st, t)
  {
    var p := Pending(files, applied);
    assert p == [files[0]] + Pending(files[1..], applied);
    assert FirstBad(p, env) == 0;
    assert st.ledger + Rows(p[..0], st.nextId, t, env.clock) == st.ledger;
    assert st.execLog + p[..0] == st.execLog;
  }

  /** Running the first pending script and recording it moves the closed form
      one script along. */
  lemma ExpectedStep(files: seq<string>, applied: set<string>, env: Env, st: State, t: nat)
    requires |files| > 0 && files[0] !in applied && Runs(files[0], env)
    ensures var row := Migration(st.nextId, files[0], env.clock(t));
      var st' := State(st.ledger + [row], st.execLog + [files[0]], st.nextId + 1);
      Expected(files, applied, env, st, t) == Expected(files[1..], applied, env, st', t + 1)
  {
    var p := Pending(files, applied);
    var p' := Pending(files[1..], applied);
    assert p == [files[0]] + p';
    assert p[1..] == p';
    assert FirstBad(p, env) == FirstBad(p', env) + 1;
    FinishStep(p, FirstBad(p, env), env, st, t);
  }

  lemma FinishStep(p: seq<string>, m: nat, env: Env, st: State, t: nat)
    requires 1 <= m <= |p|
    ensures var row := Migration(st.nextId, p[0], env.clock(t));
      var st' := State(st.ledger + [row], st.execLog + [p[0]], st.nextId + 1);
      Finish(p, m, env, st, t) == Finish(p[1..], m - 1, env, st', t + 1)
  {
    var row := Migration(st.nextId, p[0], env.clock(t));
    var st' := State(st.ledger + [row], st.execLog + [p[0]], st.nextId + 1);
    var p' := p[1..];
    assert p[..m] == [p[0]] + p'[..m - 1];
    var rows := Rows(p[..m], st.nextId, t, env.clock);
    var rows' := Rows(p'[..m - 1], st.nextId + 1, t + 1, env.clock);
    assert p[..m][1..] == p'[..m - 1];
    assert rows == [row] + rows';
    assert st'.ledger + rows' == st.ledger + rows;
    assert st'.execLog + p'[..m - 1] == st.execLog + p[..m];
    if m < |p| {
      assert p[m] == p'[m - 1];
    }
  }

  /** The closed form spelled out field by field. */
  lemma RunFacts(st: State, files: seq<string>, env: Env)
    ensures var r := RunSpec(st, files, env, false);
      var p := Pending(files, Names(st.ledger));
      var m := FirstBad(p, env);
      && r.state.ledger == st.ledger + Rows(p[..m], st.nextId, 0, env.clock)
      && r.state.nextId == st.nextId + m
      && r.state.execLog == st.execLog + (if m < |p| && IsReadable(p[m], env) then p[..m + 1] else p[..m])
      && (m == |p| ==> r.outcome == Done)
      && (m < |p| && !IsReadable(p[m], env) ==> r.outcome == Failed(ReadFailed(p[m])))
      && (m < |p| && IsReadable(p[m], env) ==> r.outcome == Failed(ExecFailed(p[m])))
  {
    var applied := Names(st.ledger);
    WalkClosedForm(files, applied, env, st, 0);
    var p := Pending(files, applied);
    var m := FirstBad(p, env);
    if m < |p| {
      assert p[..m] + [p[m]] == p[..m + 1];
      AppendAssoc(st.execLog, p[..m], [p[m]]);
    }
  }

  /** Row `i` appended for `names` carries `names[i]` and primary key `id + i`. */
  lemma {:induction false} RowsAt(names: seq<string>, id: nat, t: nat, clock: nat -> int)
    ensures forall i :: 0 <= i < |names| ==> Rows(names, id, t, clock)[i].id == id + i
    ensures forall i :: 0 <= i < |names| ==> Rows(names, id, t, clock)[i].name == names[i]
    decreases |names|
  {
    if |names| > 0 {
      RowsAt(names[1..], id + 1, t + 1, clock);
      var rows := Rows(names, id, t, clock);
      forall i | 1 <= i < |names| ensures rows[i] == Rows(names[1..], id + 1, t + 1, clock)[i - 1] && names[i] == names[1..][i - 1] {
      }
    }
  }

  lemma RowsNames(names: seq<string>, id: nat, t: nat, clock: nat -> int)
    ensures RowNames(Rows(names, id, t, clock)) == names
  {
    RowsAt(names, id, t, clock);
  }

  lemma NamesAppend(ledger: seq<Migration>, rows: seq<Migration>)
    ensures Names(ledger + rows) == Names(ledger) + (set i | 0 <= i < |rows| :: rows[i].name)
  {
    var l := ledger + rows;
    forall x | x in Names(l) ensures x in Names(ledger) + (set i | 0 <= i < |rows| :: rows[i].name) {
      var i :| 0 <= i < |l| && l[i].name == x;
      if i >= |ledger| { assert rows[i - |ledger|].name == x; }
    }
    forall x | x in (set i | 0 <= i < |rows| :: rows[i].name) ensures x in Names(l) {
      var i :| 0 <= i < |rows| && rows[i].name == x;
      assert l[|ledger| + i].name == x;
    }
    forall x | x in Names(ledger) ensures x in Names(l) {
      var i :| 0 <= i < |ledger| && ledger[i].name == x;
      assert l[i].name == x;
    }
  }

  lemma {:induction false} PendingEmpty(files: seq<string>, applied: set<string>)
    requires forall f :: f in files ==> f in applied
    ensures Pending(files, applied) == []
    decreases |files|
  {
    if |files| > 0 {
      PendingEmpty(files[1..], applied);
    }
  }

  /** When every script but `name` is applied, `name` alone is pending. */
  lemma {:induction false} PendingSingle(files: seq<string>, applied: set<string>, name: string)
    requires StrictlySorted(files) && name in files && name !in applied
    requires forall f :: f in files && f != name ==> f in applied
    ensures Pending(files, applied) == [name]
    decreases |files|
  {
    var rest := files[1..];
    assert StrictlySorted(rest) by {
      forall i, j | 0 <= i < j < |rest| ensures LexLess(rest[i], rest[j]) {
        assert rest[i] == files[i + 1] && rest[j] == files[j + 1];
      }
    }
    if files[0] == name {
      forall f | f in rest ensures f in applied {
        var k :| 0 <= k < |rest| && rest[k] == f;
        SortedDistinct(files, 0, k + 1);
      }
      PendingEmpty(rest, applied);
    } else {
      PendingSingle(rest, applied, name);
    }
  }

  lemma {:induction false} PendingSorted(files: seq<string>, applied: set<string>)
    requires StrictlySorted(files)
    ensures StrictlySorted(Pending(files, applied))
    decreases |files|
  {
    if |files| > 0 {
      var rest := files[1..];
      assert StrictlySorted(rest) by {
        forall i, j | 0 <= i < j < |rest| ensures LexLess(rest[i], rest[j]) {
          assert rest[i] == files[i + 1] && rest[j] == files[j + 1];
        }
      }
      PendingSorted(rest, applied);
      var p' := Pending(rest, applied);
      forall x | x in p' ensures LexLess(files[0], x) {
        var k :| 0 <= k < |rest| && rest[k] == x;
        assert files[k + 1] == x;
      }
    }
  }

  // ---------------------------------------------------------------------
  // Properties of RunMigrations
  // ---------------------------------------------------------------------

  /** A run only appends: old rows and old log entries stay as they were; every
      new row and every newly executed script is a glob result that was not
      applied before the run, so an applied script is never executed or
      recorded again. */
  lemma SkipsApplied(st: State, files: seq<string>, env: Env, schemaFails: bool)
    ensures var r := RunSpec(st, files, env, schemaFails).state;
      && |st.ledger| <= |r.ledger| && r.ledger[..|st.ledger|] == st.ledger
      && |st.execLog| <= |r.execLog| && r.execLog[..|st.execLog|] == st.execLog
      && (forall i :: |st.ledger| <= i < |r.ledger| ==>
            r.ledger[i].name in files && r.ledger[i].name !in Names(st.ledger))
      && (forall i :: |st.execLog| <= i < |r.execLog| ==>
            r.execLog[i] in files && r.execLog[i] !in Names(st.ledger))
  {
    if !schemaFails {
      var applied := Names(st.ledger);
      RunFacts(st, files, env);
      var p := Pending(files, applied);
      var m := FirstBad(p, env);
      var rows := Rows(p[..m], st.nextId, 0, env.clock);
      RowsNames(p[..m], st.nextId, 0, env.clock);
      var r := RunSpec(st, files, env, schemaFails).state;
      forall i | |st.ledger| <= i < |r.ledger|
        ensures r.ledger[i].name in files && r.ledger[i].name !in applied
      {
        assert r.ledger[i] == rows[i - |st.ledger|];
        assert r.ledger[i].name == p[i - |st.ledger|];
      }
      forall i | |st.execLog| <= i < |r.execLog|
        ensures r.execLog[i] in files && r.execLog[i] !in applied
      {
        assert r.execLog[i] in p;
      }
    }
  }

  /** Scripts are executed in the order of the pending set, which is the glob
      result's own (ascending) order; each recorded name is recorded right
      after its own execution, and only a script the store rejected is
      executed without being recorded. */
  lemma RunsInFileOrder(st: State, files: seq<string>, env: Env)
    requires StrictlySorted(files)
    ensures var r := RunSpec(st, files, env, false);
      var p := Pending(files, Names(st.ledger));
      var executed := r.state.execLog[|st.execLog|..];
      var recorded := RowNames(r.state.ledger[|st.ledger|..]);
      && StrictlySorted(p)
      && |executed| <= |p| && executed == p[..|executed|]
      && (r.outcome == Done ==> executed == p && recorded == p)
      && (r.outcome.Failed? && r.outcome.reason.ExecFailed? ==>
            executed == recorded + [r.outcome.reason.name])
      && (r.outcome.Failed? && r.outcome.reason.ReadFailed? ==> executed == recorded)
  {
    var applied := Names(st.ledger);
    RunFacts(st, files, env);
    PendingSorted(files, applied);
    var p := Pending(files, applied);
    var m := FirstBad(p, env);
    var rows := Rows(p[..m], st.nextId, 0, env.clock);
    RowsNames(p[..m], st.nextId, 0, env.clock);
    var r := RunSpec(st, files, env, false);
    var ex := if m < |p| && IsReadable(p[m], env) then p[..m + 1] else p[..m];
    DropPrefix(st.ledger, rows);
    DropPrefix(st.execLog, ex);
    PendingOrder(p, m, ex, RowNames(rows), r.outcome, env);
  }

  /** The order facts of a run, stated on its pieces. */
  lemma PendingOrder(p: seq<string>, m: nat, executed: seq<string>, recorded: seq<string>, o: Outcome, env: Env)
    requires m <= |p| && recorded == p[..m]
    requires executed == if m < |p| && IsReadable(p[m], env) then p[..m + 1] else p[..m]
    requires m == |p| ==> o == Done
    requires m < |p| && !IsReadable(p[m], env) ==> o == Failed(ReadFailed(p[m]))
    requires m < |p| && IsReadable(p[m], env) ==> o == Failed(ExecFailed(p[m]))
    ensures |executed| <= |p| && executed == p[..|executed|]
    ensures o == Done ==> executed == p && recorded == p
    ensures o.Failed? && o.reason.ExecFailed? ==> executed == recorded + [o.reason.name]
    ensures o.Failed? && o.reason.ReadFailed? ==> executed == recorded
  {
    if m == |p| {
      assert p[..m] == p;
    } else if IsReadable(p[m], env) {
      assert p[..m + 1] == p[..m] + [p[m]];
    }
  }

  predicate IsReadable(name: string, env: Env) {
    name in env.dir && env.dir[name].Readable?
  }

  /** After a run with no failure the applied names are the old ones plus the
      whole glob result. */
  lemma SuccessAppliesAll(st: State, files: seq<string>, env: Env)
    requires RunSpec(st, files, env, false).outcome == Done
    ensures Names(RunSpec(st, files, env, false).state.ledger) == Names(st.ledger) + (set f | f in files)
  {
    var applied := Names(st.ledger);
    RunFacts(st, files, env);
    var p := Pending(files, applied);
    assert FirstBad(p, env) == |p|;
    var rows := Rows(p, st.nextId, 0, env.clock);
    assert p[..|p|] == p;
    RowsNames(p, st.nextId, 0, env.clock);
    NamesAppend(st.ledger, rows);
    var added := set i | 0 <= i < |rows| :: rows[i].name;
    forall x | x in added ensures x in p {
      var i :| 0 <= i < |rows| && rows[i].name == x;
      assert p[i] == x;
    }
    forall x | x in p ensures x in added {
      var i :| 0 <= i < |p| && p[i] == x;
      assert rows[i].name == x;
    }
  }

  /** The applied names after a run: the old ones plus the pending scripts
      before the first one that failed. */
  lemma RunNames(st: State, files: seq<string>, env: Env)
    ensures var p := Pending(files, Names(st.ledger));
      var m := FirstBad(p, env);
      Names(RunSpec(st, files, env, false).state.ledger) == Names(st.ledger) + (set j | 0 <= j < m :: p[j])
  {
    var applied := Names(st.ledger);
    RunFacts(st, files, env);
    var p := Pending(files, applied);
    var m := FirstBad(p, env);
    var rows := Rows(p[..m], st.nextId, 0, env.clock);
    RowsNames(p[..m], st.nextId, 0, env.clock);
    NamesAppend(st.ledger, rows);
    var added := set i | 0 <= i < |rows| :: rows[i].name;
    forall x | x in added ensures x in (set j | 0 <= j < m :: p[j]) {
      var i :| 0 <= i < |rows| && rows[i].name == x;
      assert p[i] == x;
    }
    forall x | x in (set j | 0 <= j < m :: p[j]) ensures x in added {
      var i :| 0 <= i < m && p[i] == x;
      assert rows[i].name == x;
    }
  }

  /** Fail-fast: when pending script `k` cannot be read or is rejected, every
      pending script before it is recorded, neither `k` nor any script after
      it is, and no script after `k` was executed. */
  lemma FailFast(st: State, files: seq<string>, env: Env)
    requires StrictlySorted(files)
    requires var o := RunSpec(st, files, env, false).outcome;
      o.Failed? && (o.reason.ReadFailed? || o.reason.ExecFailed?)
    ensures var r := RunSpec(st, files, env, false);
      var k := if r.outcome.reason.ReadFailed? then r.outcome.reason.file else r.outcome.reason.name;
      var p := Pending(files, Names(st.ledger));
      var m := FirstBad(p, env);
      && m < |p| && p[m] == k
      && (forall j :: 0 <= j < m ==> p[j] in Names(r.state.ledger))
      && (forall j :: m <= j < |p| ==> p[j] !in Names(r.state.ledger))
      && r.state.execLog[|st.execLog|..] == (if r.outcome.reason.ExecFailed? then p[..m + 1] else p[..m])
  {
    var applied := Names(st.ledger);
    RunFacts(st, files, env);
    RunNames(st, files, env);
    RunsInFileOrder(st, files, env);
    var p := Pending(files, applied);
    var m := FirstBad(p, env);
    var r := RunSpec(st, files, env, false);
    forall j | m <= j < |p| ensures p[j] !in Names(r.state.ledger) {
      forall i | 0 <= i < m ensures p[i] != p[j] {
        SortedDistinct(p, i, j);
      }
    }
  }

  /** A second run right after a fully successful one, over the same glob
      result, executes nothing and leaves the ledger as it is, whatever the
      directory and the store would now do. */
  lemma Idempotent(st: State, files: seq<string>, env: Env, env': Env)
    requires RunSpec(st, files, env, false).outcome == Done
    ensures var r := RunSpec(st, files, env, false).state;
      RunSpec(r, files, env', false) == Run(r, Done)
  {
    var r := RunSpec(st, files, env, false).state;
    SuccessAppliesAll(st, files, env);
    PendingEmpty(files, Names(r.ledger));
    WalkClosedForm(files, Names(r.ledger), env', r, 0);
    assert r.ledger + [] == r.ledger && r.execLog + [] == r.execLog;
  }

  /** A run keeps the ledger's constraints when the file list is a glob result. */
  lemma RunPreservesValid(st: State, files: seq<string>, env: Env, schemaFails: bool)
    requires ValidState(st) && GlobResult(files)
    ensures ValidState(RunSpec(st, files, env, schemaFails).state)
  {
    if !schemaFails {
      RunFacts(st, files, env);
      var p := Pending(files, Names(st.ledger));
      var q := p[..FirstBad(p, env)];
      FreshPrefix(st, files, |q|);
      var r := RunSpec(st, files, env, schemaFails).state;
      AppendRowsValid(st, q, env.clock, Rows(q, st.nextId, 0, env.clock), r.execLog);
      assert r == State(st.ledger + Rows(q, st.nextId, 0, env.clock), r.execLog, st.nextId + |q|);
    }
  }

  /** A prefix of the pending set of a glob result holds distinct up-script
      names that the ledger does not have. */
  lemma FreshPrefix(st: State, files: seq<string>, m: nat)
    requires GlobResult(files) && m <= |Pending(files, Names(st.ledger))|
    ensures var q := Pending(files, Names(st.ledger))[..m];
      && (forall i, j :: 0 <= i < j < |q| ==> q[i] != q[j])
      && (forall i, k :: 0 <= i < |q| && 0 <= k < |st.ledger| ==> q[i] != st.ledger[k].name)
      && (forall i :: 0 <= i < |q| ==> EndsWith(q[i], UpSuffix))
  {
    var applied := Names(st.ledger);
    PendingSorted(files, applied);
    var p := Pending(files, applied);
    var q := p[..m];
    forall i, j | 0 <= i < j < |q| ensures q[i] != q[j] {
      SortedDistinct(p, i, j);
    }
    forall i | 0 <= i < |q| ensures q[i] !in applied && EndsWith(q[i], UpSuffix) {
      assert q[i] in p;
    }
    forall i, k | 0 <= i < |q| && 0 <= k < |st.ledger| ensures q[i] != st.ledger[k].name {
      assert st.ledger[k].name in applied;
    }
  }

  /** Appending rows for fresh, distinct up-script names keeps the ledger's
      constraints. */
  lemma AppendRowsValid(st: State, q: seq<string>, clock: nat -> int, rows: seq<Migration>, log: seq<string>)
    requires ValidState(st)
    requires forall i, j :: 0 <= i < j < |q| ==> q[i] != q[j]
    requires forall i, k :: 0 <= i < |q| && 0 <= k < |st.ledger| ==> q[i] != st.ledger[k].name
    requires forall i :: 0 <= i < |q| ==> EndsWith(q[i], UpSuffix)
    requires rows == Rows(q, st.nextId, 0, clock)
    ensures ValidState(State(st.ledger + rows, log, st.nextId + |q|))
  {
    RowsAt(q, st.nextId, 0, clock);
    AppendValid(st, q, rows, log);
  }

  lemma AppendValid(st: State, q: seq<string>, rows: seq<Migration>, log: seq<string>)
    requires ValidState(st) && |rows| == |q|
    requires forall i :: 0 <= i < |rows| ==> rows[i].id == st.nextId + i && rows[i].name == q[i]
    requires forall i, j :: 0 <= i < j < |q| ==> q[i] != q[j]
    requires forall i, k :: 0 <= i < |q| && 0 <= k < |st.ledger| ==> q[i] != st.ledger[k].name
    requires forall i :: 0 <= i < |q| ==> EndsWith(q[i], UpSuffix)
    ensures ValidState(State(st.ledger + rows, log, st.nextId + |q|))
  {
    var l := st.ledger + rows;
    var n := |st.ledger|;
    forall i | 0 <= i < |l| ensures l[i].id < st.nextId + |q| && EndsWith(l[i].name, UpSuffix) {
      if i >= n {
        assert l[i] == rows[i - n];
      }
    }
    forall i, j | 0 <= i < j < |l| ensures l[i].name != l[j].name && l[i].id != l[j].id {
      if j >= n {
        assert l[j] == rows[j - n];
        if i >= n {
          assert l[i] == rows[i - n];
        }
      }
    }
  }

  // ---------------------------------------------------------------------
  // RollbackLastMigration, for a chosen latest row
  // ---------------------------------------------------------------------

  /** Rolling back row `j`: derive the down name, require the file, read it,
      execute it, and only then delete the row. */
  function RollbackAt(st: State, j: nat, env: Env): Run
    requires j < |st.ledger|
  {
    var last := st.ledger[j];
    match DownName(last.name)
    case None => Run(st, Failed(InvalidName(last.name)))
    case Some(down) =>
      if down !in env.dir then Run(st, Failed(MissingDown(last.name)))
      else if env.dir[down].Unreadable? then Run(st, Failed(ReadFailed(down)))
      else
        var executed := st.(execLog := st.execLog + [down]);
        if env.dir[down].body in env.rejects then Run(executed, Failed(ExecFailed(last.name)))
        else Run(executed.(ledger := DeleteById(st.ledger, last.id)), RolledBack(last))
  }

  lemma {:induction false} DeleteUnique(ledger: seq<Migration>, j: nat)
    requires j < |ledger|
    requires forall a, b :: 0 <= a < b < |ledger| ==> ledger[a].id != ledger[b].id
    ensures DeleteById(ledger, ledger[j].id) == ledger[..j] + ledger[j + 1..]
    decreases |ledger|
  {
    var id := ledger[j].id;
    if j == 0 {
      NoneDeleted(ledger[1..], id);
    } else {
      DeleteUnique(ledger[1..], j - 1);
      assert ledger[1..][j - 1] == ledger[j];
      assert ledger[..j] == [ledger[0]] + ledger[1..][..j - 1];
      assert ledger[j + 1..] == ledger[1..][j..];
    }
  }

  lemma {:induction false} NoneDeleted(ledger: seq<Migration>, id: nat)
    requires forall a :: 0 <= a < |ledger| ==> ledger[a].id != id
    ensures DeleteById(ledger, id) == ledger
    decreases |ledger|
  {
    if |ledger| > 0 {
      NoneDeleted(ledger[1..], id);
    }
  }

  lemma {:induction false} LatestExists(ledger: seq<Migration>)
    requires |ledger| > 0
    ensures exists j :: IsLatest(ledger, j)
    decreases |ledger|
  {
    if |ledger| > 1 {
      var init := ledger[..|ledger| - 1];
      LatestExists(init);
      var j :| IsLatest(init, j);
      if ledger[j].appliedAt >= ledger[|ledger| - 1].appliedAt {
        assert IsLatest(ledger, j);
      } else {
        assert IsLatest(ledger, |ledger| - 1);
      }
    } else {
      assert IsLatest(ledger, 0);
    }
  }

  /** Removing row `j` removes its name and no other, since names are unique. */
  lemma RemoveRowNames(ledger: seq<Migration>, j: nat)
    requires j < |ledger|
    requires forall a, b :: 0 <= a < b < |ledger| ==> ledger[a].name != ledger[b].name
    ensures Names(ledger[..j] + ledger[j + 1..]) == Names(ledger) - {ledger[j].name}
  {
    var last := ledger[j];
    var l := ledger[..j] + ledger[j + 1..];
    forall x | x in Names(l) ensures x in Names(ledger) - {last.name} {
      var i :| 0 <= i < |l| && l[i].name == x;
      if i < j { assert l[i] == ledger[i]; } else { assert l[i] == ledger[i + 1]; }
    }
    forall x | x in Names(ledger) - {last.name} ensures x in Names(l) {
      var i :| 0 <= i < |ledger| && ledger[i].name == x;
      if i < j { assert l[i] == ledger[i]; } else { assert i > j && l[i - 1] == ledger[i]; }
    }
  }

  /** Removing a row keeps the ledger's constraints. */
  lemma RemoveRowValid(st: State, j: nat)
    requires ValidState(st) && j < |st.ledger|
    ensures ValidState(st.(ledger := st.ledger[..j] + st.ledger[j + 1..]))
  {
    var l := st.ledger[..j] + st.ledger[j + 1..];
    forall a | 0 <= a < |l| ensures l[a] == st.ledger[if a < j then a else a + 1] {
    }
  }

  /** Deleting row `j` of a valid ledger by its primary key removes exactly
      that row, keeps the others in order, and keeps the ledger valid. */
  lemma DeleteRow(st: State, j: nat)
    requires ValidState(st) && j < |st.ledger|
    ensures var l := DeleteById(st.ledger, st.ledger[j].id);
      && l == st.ledger[..j] + st.ledger[j + 1..]
      && Names(l) == Names(st.ledger) - {st.ledger[j].name}
      && ValidState(st.(ledger := l))
  {
    DeleteUnique(st.ledger, j);
    RemoveRowNames(st.ledger, j);
    RemoveRowValid(st, j);
  }

  /** What a rollback of the latest row does to a valid ledger: on success it
      removes exactly that row and keeps every other row in place; on any
      failure the ledger is unchanged; it never fails for want of the .up.sql
      suffix; and it reports a missing down script exactly when the paired
      file is absent. */
  lemma RollbackEffect(st: State, j: nat, env: Env)
    requires ValidState(st) && IsLatest(st.ledger, j)
    ensures var r := RollbackAt(st, j, env);
      var last := st.ledger[j];
      && DownName(last.name).Some?
      && !(r.outcome.Failed? && r.outcome.reason.InvalidName?)
      && (r.outcome == Failed(MissingDown(last.name)) <==> DownName(last.name).value !in env.dir)
      && (r.outcome.RolledBack? <==> Runs(DownName(last.name).value, env))
      && (r.outcome.RolledBack? ==>
            && r.outcome.row == last
            && r.state.ledger == st.ledger[..j] + st.ledger[j + 1..]
            && Names(r.state.ledger) == Names(st.ledger) - {last.name}
            && r.state.execLog == st.execLog + [DownName(last.name).value])
      && (r.outcome.Failed? ==> r.state.ledger == st.ledger)
      && r.state.nextId == st.nextId
      && ValidState(r.state)
  {
    assert EndsWith(st.ledger[j].name, UpSuffix);
    DeleteRow(st, j);
  }

  /** Applying, rolling back and applying again: if every script of the glob
      result is applied and the latest one is rolled back, the next run
      executes exactly that script again and restores the applied names. */
  lemma RollbackThenReapply(st: State, j: nat, files: seq<string>, env: Env, env': Env)
    requires ValidState(st) && IsLatest(st.ledger, j) && GlobResult(files)
    requires forall f :: f in files ==> f in Names(st.ledger)
    requires st.ledger[j].name in files
    requires RollbackAt(st, j, env).outcome.RolledBack?
    requires Runs(st.ledger[j].name, env')
    ensures var back := RollbackAt(st, j, env).state;
      var again := RunSpec(back, files, env', false);
      && again.outcome == Done
      && again.state.execLog == back.execLog + [st.ledger[j].name]
      && Names(again.state.ledger) == Names(st.ledger)
  {
    var name := st.ledger[j].name;
    RollbackEffect(st, j, env);
    var back := RollbackAt(st, j, env).state;
    assert Names(back.ledger) == Names(st.ledger) - {name};
    var applied := Names(back.ledger);
    PendingSorted(files, applied);
    var p := Pending(files, applied);
    PendingSingle(files, applied, name);
    RunFacts(back, files, env');
    assert FirstBad(p, env') == 1;
    assert p[..1] == p;
    SuccessAppliesAll(back, files, env');
  }

  // ---------------------------------------------------------------------
  // The database object
  // ---------------------------------------------------------------------

  class Database {
    var ledger: seq<Migration>
    var execLog: seq<string>   // scripts handed to the target store, in order
    var nextId: nat            // next auto-increment primary key

    function Snapshot(): State
      reads this
    {
      State(ledger, execLog, nextId)
    }

    predicate Valid()
      reads this
    {
      ValidState(Snapshot())
    }

    /** A fresh database: AutoMigrate finds no table, so the ledger is empty. */
    constructor ()
      ensures Snapshot() == State([], [], 1) && Valid()
    {
      ledger, execLog, nextId := [], [], 1;
    }

    /** The `appliedMap` built from the ledger before the walk. */
    method AppliedMap() returns (applied: set<string>)
      ensures applied == Names(ledger)
    {
      applied := {};
      var i := 0;
      while i < |ledger|
        invariant 0 <= i <= |ledger|
        invariant applied == Names(ledger[..i])
      {
        assert ledger[..i + 1] == ledger[..i] + [ledger[i]];
        NamesAppend(ledger[..i], [ledger[i]]);
        applied := applied + {ledger[i].name};
        i := i + 1;
      }
      assert ledger[..i] == ledger;
    }

    /** `RunMigrations(db)`. `files` is what the glob returns; `schemaFails`
        says whether AutoMigrate fails. */
    method RunMigrations(files: seq<string>, env: Env, schemaFails: bool) returns (out: Outcome)
      requires Valid() && GlobResult(files)
      modifies this
      ensures Run(Snapshot(), out) == RunSpec(old(Snapshot()), files, env, schemaFails)
      ensures Valid()
    {
      ghost var s0 := Snapshot();
      RunPreservesValid(s0, files, env, schemaFails);
      if schemaFails {
        return Failed(SchemaFailed);
      }

      var applied := AppliedMap();
      var t: nat := 0;
      var i := 0;
      assert files[0..] == files;
      while i < |files|
        invariant 0 <= i <= |files|
        invariant Walk(files[i..], applied, env, Snapshot(), t) == RunSpec(s0, files, env, false)
      {
        var name := files[i];
        ghost var st := Snapshot();
        assert files[i..][0] == name && files[i..][1..] == files[i + 1..];
        if name in applied {
          i := i + 1;
          continue;
        }
        if name !in env.dir || env.dir[name].Unreadable? {
          return Failed(ReadFailed(name));
        }
        var body := env.dir[name].body;
        execLog := execLog + [name];
        if body in env.rejects {
          return Failed(ExecFailed(name));
        }
        var row := Migration(nextId, name, env.clock(t));
        ledger := ledger + [row];
        nextId := nextId + 1;
        assert Walk(files[i..], applied, env, st, t) == Walk(files[i + 1..], applied, env, Snapshot(), t + 1);
        t := t + 1;
        i := i + 1;
      }
      return Done;
    }

    /** `RollbackLastMigration(db)`: when several rows share the greatest
        `AppliedAt`, any of them may be the one rolled back. */
    method RollbackLastMigration(env: Env) returns (out: Outcome)
      requires Valid()
      modifies this
      ensures old(ledger) == [] ==> out == NothingToRollBack && Snapshot() == old(Snapshot())
      ensures old(ledger) != [] ==>
        exists j: nat :: IsLatest(old(ledger), j) && Run(Snapshot(), out) == RollbackAt(old(Snapshot()), j, env)
      ensures !(out.Failed? && out.reason.InvalidName?)
      ensures Valid()
    {
      if |ledger| == 0 {
        return NothingToRollBack;
      }
      LatestExists(ledger);
      var j: nat :| IsLatest(ledger, j);
      ghost var s0 := Snapshot();
      RollbackEffect(s0, j, env);
      var last := ledger[j];
      var down := DownName(last.name);
      if down.None? {
        return Failed(InvalidName(last.name));
      }
      var downFile := down.value;
      if downFile !in env.dir {
        return Failed(MissingDown(last.name));
      }
      if env.dir[downFile].Unreadable? {
        return Failed(ReadFailed(downFile));
      }
      execLog := execLog + [downFile];
      if env.dir[downFile].body in env.rejects {
        return Failed(ExecFailed(last.name));
      }
      ledger := DeleteById(ledger, last.id);
      return RolledBack(last);
    }
  }
}
