# gecho migrations and scaffolding, modelled in Dafny

This project models the parts of the `gecho` command-line tool that carry the most logic. It has three pieces.

- **The schema migration engine** (`internal/tool/services/database/migrations.go`):
  - The engine keeps a ledger table of applied migrations, one `Migration` row per name.
  - `RunMigrations` reads the applied names, walks the sorted `*.up.sql` scripts of `db/migrations` and skips the applied ones. It executes each remaining script and records it right after it succeeds. The first failure stops the run.
  - `RollbackLastMigration` takes the row with the greatest `AppliedAt`. It derives the paired `.down.sql` name through `replaceSuffix`, requires that file, executes it, and only then deletes the row.
- **Migration-file creation** (`internal/migrate/create.go`). `Create(name)` rejects an empty name. Otherwise it makes `db/migrations` and writes `db/migrations/<yyyyMMddHHmmss>_<name>.up.sql` and then the `.down.sql` twin, returning at the first error.
- **The scaffolder's naming** (`internal/scaffold/scaffold.go`):
  - the ASCII transforms `toLowerCamelCase`, `toPascalCase`, `toSnakeCase`, `plural` and `singular`;
  - the line scan of `getModuleName` over the contents of `go.mod`;
  - the names and paths that `Run` derives from the raw model name before it writes anything (lines 12-33).

## Structure

| file | module | what it holds |
|---|---|---|
| `wrappers.dfy` | `Wrappers` | `Option` |
| `strings.dfy` | `Strings` | ASCII case mapping and the Go `strings` functions the code uses: `Split`, `Join`, `TrimSpace`, `TrimPrefix`, `TrimSuffix`, and Go's byte-wise string order `LexLess` |
| `timestamps.dfy` | `Timestamps` | `DateTime` and `time.Format("20060102150405")` |
| `migrations.dfy` | `Migrations` | the ledger, `RunMigrations` and `RollbackLastMigration` |
| `migration_files.dfy` | `MigrationFiles` | `Create`, its paths, and a small file system |
| `scaffold.dfy` | `Scaffold` | the naming transforms, `getModuleName` and `Run`'s derivations |

### Migrations

The database is a `Database` object with three fields:

- `ledger`: the ledger rows in insertion order;
- `execLog`: the scripts handed to the store, in order, by name;
- `nextId`: the next auto-increment key.

The world around the database is an `Env` value with three parts:

- the migration directory, a map from base name to a readable body or an unreadable file;
- the script bodies the target store rejects;
- the clock, read once per ledger insert.

Each `log.Fatalf` becomes a `Failed` outcome that leaves the state as it was at that point. That includes a script that was sent to the store and rejected: it stays in `execLog`.

Each of the two methods is proved equal to a function of the old state:

- `Database.RunMigrations` equals `RunSpec` and `Walk`. Inside it, the `appliedMap` loop (lines 31-34) and the file loop (lines 41-58) carry their invariants.
- `Database.RollbackLastMigration` equals `RollbackAt` at some latest row.

The lemmas about those functions state the engine's guarantees. `Expected` is an independent closed-form description of a run: the pending scripts before the first bad one are executed and recorded, then that one fails. `WalkClosedForm` proves the loop equal to it.

### Create

The file system is a `FileSystem` object with two fields: the existing directories, and a map from each file path to its contents. The paths the operating system refuses are a parameter.

`Create` is proved equal to `CreateSpec`. `Base` and `Dir` are `filepath.Base` and `filepath.Dir` for the paths involved.

### Scaffold

`toPascalCase`, `toSnakeCase` and `getModuleName` loop in the source, so they are methods here. Each is proved equal to a function:

- `ToPascalCase` equals `PascalCase`;
- `ToSnakeCase` equals `SnakeCase`;
- `GetModuleName` equals `ModuleName`.

The lemmas are stated about those functions. `plural`, `singular` and `toLowerCamelCase` are plain conditional expressions in the source, and here they are plain functions. `PlanScaffold` is `Run` up to line 33. It is pure because the contents of `go.mod` and the time are parameters.

### Notes on the code

- **Rollback ties.** `RollbackLastMigration` asks for `Order("applied_at desc").First(&last)` (`migrations.go:66`). Among rows with the same `AppliedAt`, the row picked then depends on the ordering gorm and the database add, which the model does not fix. The model lets rollback pick any row with the greatest `AppliedAt` (`IsLatest`), which covers every such choice.
- **Create.** `Create` neither normalises the name nor checks for an existing file (`create.go:9-30`). `os.WriteFile` overwrites, and `CreateSucceeds` states that overwrite.

## Model

| member | source | states |
|---|---|---|
| Migrations.ReplaceSuffix | internal/tool/services/database/migrations.go:90-95 | fails exactly when the name lacks the old suffix; otherwise the result ends with the new suffix, has the name's stem and the adjusted length |
| Migrations.ReplaceSuffixInverse | internal/tool/services/database/migrations.go:90-95 | swapping the suffixes back restores the name |
| Migrations.DeleteById | internal/tool/services/database/migrations.go:86 | deleting by primary key keeps only rows of the old ledger whose key differs |
| Migrations.Walk | internal/tool/services/database/migrations.go:41-58 | the loop over the glob result only ever appends to the ledger and to the execution log |
| Migrations.RunSpec | internal/tool/services/database/migrations.go:21-61 | a run only appends to the ledger and to the log; an AutoMigrate failure changes nothing |
| Migrations.Pending | internal/tool/services/database/migrations.go:41-45 | a name is pending exactly when it is a glob result and not applied |
| Migrations.FirstBad | internal/tool/services/database/migrations.go:47-55 | every pending script before the returned index reads and executes; the one at the index does not |
| Migrations.WalkClosedForm | internal/tool/services/database/migrations.go:41-58 | the step-by-step loop equals the closed form: the pending scripts before the first bad one are executed and recorded in order with consecutive keys and clock readings, then that one fails (a rejected one after it is sent to the store) |
| Migrations.RunFacts | internal/tool/services/database/migrations.go:41-58 | after a run, the ledger is the old one plus one row per pending script before the first bad one, the key counter has moved by that many, the log holds those scripts plus the bad one when it could be read, and the outcome names the bad script by its failure |
| Migrations.PendingSorted | internal/tool/services/database/migrations.go:36-41 | the pending scripts of a sorted glob result are sorted |
| Migrations.SkipsApplied | internal/tool/services/database/migrations.go:31-45 | old rows and old log entries stay as they were; every new row and every newly executed script is a glob result that was not applied before |
| Migrations.RunsInFileOrder | internal/tool/services/database/migrations.go:36-58 | scripts are executed in the glob's ascending order; on success every pending script is executed and recorded in that order; a rejected script is the only one executed without a row; a read failure executes nothing more |
| Migrations.SuccessAppliesAll | internal/tool/services/database/migrations.go:41-58 | after a run without failure the applied names are the old ones united with every glob result |
| Migrations.RunNames | internal/tool/services/database/migrations.go:41-58 | the applied names after any run are the old ones plus the pending scripts before the first failing one |
| Migrations.FailFast | internal/tool/services/database/migrations.go:47-57 | when script k fails to read or execute, every earlier pending script is recorded, neither k nor any later one is, and nothing after k was executed |
| Migrations.Idempotent | internal/tool/services/database/migrations.go:41-45 | a second run over the same glob result right after a successful one executes nothing and changes nothing, whatever the directory and store now do |
| Migrations.RunPreservesValid | internal/tool/services/database/migrations.go:14-18 | a run keeps names unique, keys unique and below the counter, and every recorded name ending in `.up.sql` |
| Migrations.LatestExists | internal/tool/services/database/migrations.go:66 | a non-empty ledger has a row with the greatest `AppliedAt` |
| Migrations.DeleteUnique | internal/tool/services/database/migrations.go:86 | with unique keys, deleting row j's key removes row j and keeps the others in order |
| Migrations.DeleteRow | internal/tool/services/database/migrations.go:86 | deleting the row removes exactly its name and keeps the ledger valid |
| Migrations.RollbackEffect | internal/tool/services/database/migrations.go:64-88 | `replaceSuffix` never fails on a recorded name; the outcome is "missing down script" exactly when the paired file is absent, and success exactly when that file reads and executes; success removes exactly the latest row and keeps every other row in place; every failure leaves the ledger unchanged |
| Migrations.RollbackThenReapply | internal/tool/services/database/migrations.go:41-88 | after rolling back the latest of a fully applied glob result, the next run executes exactly that script and restores the applied names |
| Migrations.Database.constructor | internal/tool/services/database/migrations.go:24-26 | a fresh database has an empty, valid ledger |
| Migrations.Database.AppliedMap | internal/tool/services/database/migrations.go:28-34 | the map built from the ledger holds exactly the recorded names |
| Migrations.Database.RunMigrations | internal/tool/services/database/migrations.go:21-61 | the new state and outcome are those of `RunSpec` on the old state; the ledger stays valid |
| Migrations.Database.RollbackLastMigration | internal/tool/services/database/migrations.go:64-88 | an empty ledger gives "nothing to roll back" and changes nothing; otherwise the effect is `RollbackAt` on some row with the greatest `AppliedAt`; never an invalid-name failure; the ledger stays valid |
| MigrationFiles.Base | internal/tool/services/database/migrations.go:42 | the base name has no slash, is a suffix of the path, and is preceded by a slash when shorter |
| MigrationFiles.Dir | internal/migrate/create.go:24-28 | the parent directory `os.WriteFile` needs: `"."` for a path without a slash, otherwise exactly the text before the last slash, which joined with the base name gives back the path |
| MigrationFiles.BaseOfJoin | internal/migrate/create.go:17-18 | a slash-free file under a directory has that directory and that base name |
| MigrationFiles.SharedPrefix | internal/migrate/create.go:17-18 | both paths are `db/migrations/<timestamp>_<name>` plus `.up.sql` or `.down.sql`, and nothing else differs |
| MigrationFiles.DownOfCreatedUp | internal/migrate/create.go:17-18 | `replaceSuffix(base(up), ".up.sql", ".down.sql") == base(down)` for every name |
| MigrationFiles.GlobSeesUpOnly | internal/migrate/create.go:17-18 | the up file matches the `*.up.sql` glob and the down file does not |
| MigrationFiles.CreatedInMigrationDir | internal/migrate/create.go:17-18 | a slash-free name puts both files directly in `db/migrations` under `<timestamp>_<name>.up.sql` and `.down.sql` |
| MigrationFiles.CreationOrder | internal/migrate/create.go:14-18 | the up script created at an earlier second sorts first, whatever the names |
| MigrationFiles.FileSystem.MkdirAll | internal/migrate/create.go:20-22 | succeeds unless the path is refused or a file; success adds the directory, failure changes nothing |
| MigrationFiles.FileSystem.WriteFile | internal/migrate/create.go:24-30 | succeeds when the path is allowed, not a directory, and its parent exists; success overwrites the file, failure changes nothing |
| MigrationFiles.Create | internal/migrate/create.go:9-31 | the new file system and the error are those of `CreateSpec` |
| MigrationFiles.EmptyNameTouchesNothing | internal/migrate/create.go:10-12 | an empty name is an error and touches nothing |
| MigrationFiles.CreateSucceeds | internal/migrate/create.go:20-31 | success exactly when the directory and both writes are allowed; it then adds the directory and writes both files, overwriting any already there |
| MigrationFiles.CreateStopsAtFirstFailure | internal/migrate/create.go:20-30 | a failed directory creation changes nothing; a failed up write leaves only the directory; a failed down write leaves the up file written |
| MigrationFiles.CreatedPairRollsBack | internal/migrate/create.go:17-30 | after a successful `Create` with a slash-free name, both files exist, the up one is a glob match in `db/migrations`, and rollback's joined `replaceSuffix` path is the down file |
| Timestamps.Digits | internal/migrate/create.go:14 | a zero-padded numeral has exactly the width and only digits |
| Timestamps.DigitsOrder | internal/migrate/create.go:14 | on numerals of one width, string order is numeric order |
| Timestamps.Format | internal/migrate/create.go:14 | the timestamp is 14 digits |
| Timestamps.FormatOrder | internal/migrate/create.go:14 | two timestamps compare as strings exactly as the times compare chronologically |
| Timestamps.FormatInjective | internal/migrate/create.go:14 | two readings format alike only when they are the same second |
| Strings.SplitParts | internal/scaffold/scaffold.go:72 | `strings.Split` gives one more piece than there are separators, none containing the separator |
| Strings.JoinSplit | internal/scaffold/scaffold.go:91 | joining the pieces of a split gives back the string |
| Strings.SplitJoin | internal/scaffold/scaffold.go:91 | splitting a join of separator-free pieces gives back the pieces |
| Strings.TrimSpaceClean | internal/scaffold/scaffold.go:74 | `strings.TrimSpace` leaves neither leading nor trailing white space |
| Strings.LexTransitive | internal/tool/services/database/migrations.go:36 | Go's string order is transitive |
| Strings.LexTotal | internal/tool/services/database/migrations.go:36 | any two strings are equal or ordered one way |
| Strings.LexConcat | internal/tool/services/database/migrations.go:36 | on equal-length prefixes, the order of two concatenations is decided by the prefixes, then by the rest |
| Strings.SortedDistinct | internal/tool/services/database/migrations.go:36 | a strictly sorted glob result has no repeated names |
| Scaffold.LowerCamelCase | internal/scaffold/scaffold.go:83-88 | keeps the length, lowercases the first character only, leaves the rest |
| Scaffold.LowerCamelIdempotent | internal/scaffold/scaffold.go:83-88 | applying it twice is applying it once |
| Scaffold.Capitalize | internal/scaffold/scaffold.go:93-95 | keeps the length, uppercases the first character only |
| Scaffold.ToPascalCase | internal/scaffold/scaffold.go:90-98 | the result is the capitalized `_`-segments concatenated |
| Scaffold.PascalCaseShape | internal/scaffold/scaffold.go:90-98 | the result has no `_` and is shorter than the input by the number of `_` |
| Scaffold.SnakeCase | internal/scaffold/scaffold.go:100-109 | no upper-case letter; length is the input length plus the upper-case letters after position 0 |
| Scaffold.SnakeMid | internal/scaffold/scaffold.go:102-107 | after the first character, each upper-case letter adds one `_`, and none remains upper case |
| Scaffold.ToSnakeCase | internal/scaffold/scaffold.go:100-109 | the loop's result is `SnakeCase` of the input |
| Scaffold.SnakeOfPascal | internal/scaffold/scaffold.go:90-109 | `toSnakeCase(toPascalCase(s)) == s` for lower-case letters, digits and `_` with every segment non-empty and starting with a letter |
| Scaffold.DigitSegmentLosesSeparator | internal/scaffold/scaffold.go:90-109 | the letter-start condition is needed: `a_1` comes back as `a1` |
| Scaffold.LowerCamelOfPascalWord | internal/scaffold/scaffold.go:24-26 | a one-word snake name comes back from PascalCase and then lowerCamelCase unchanged |
| Scaffold.Plural | internal/scaffold/scaffold.go:123-131 | ends in `s`, is longer than the input, and keeps the input as a prefix exactly when the y → ies rule does not apply |
| Scaffold.Singular | internal/scaffold/scaffold.go:133-144 | applies one rule in the priority ies → y, es → "", s → "", otherwise none; never lengthens |
| Scaffold.SingularOfPlural | internal/scaffold/scaffold.go:123-144 | `singular(plural(x)) == x` exactly when `x` does not end in `e` |
| Scaffold.FirstDeclaring | internal/scaffold/scaffold.go:73-78 | no line before the index declares the module; the line at it does |
| Scaffold.GetModuleName | internal/scaffold/scaffold.go:66-81 | the scan returns `ModuleName` of the file's contents |
| Scaffold.ModulePathClean | internal/scaffold/scaffold.go:74-76 | the path a declaring line names is non-empty and has no surrounding white space |
| Scaffold.ModuleNameFound | internal/scaffold/scaffold.go:72-79 | a module is found exactly when some line declares one |
| Scaffold.ModuleNameFirst | internal/scaffold/scaffold.go:73-77 | the result is the path named by the first declaring line, non-empty and without surrounding white space |
| Scaffold.SnakeName | internal/scaffold/scaffold.go:23 | the snake name keeps the length and has no spaces and no upper-case letters |
| Scaffold.PlanChecksInOrder | internal/scaffold/scaffold.go:12-15 | an unreadable `go.mod` aborts first, a missing module declaration next, an empty model name last; the names are derived only with all three in order |
| Scaffold.PlanNames | internal/scaffold/scaffold.go:23-26 | snake name without spaces or upper case; struct name without `_`; plural ending in `s` and longer; module path non-empty |
| Scaffold.PlanMigrationPair | internal/scaffold/scaffold.go:28-29 | the scaffold's scripts share `db/migrations/<timestamp>_<snakeName>`, differ only in `.up.sql` and `.down.sql`, and rollback's `replaceSuffix` leads from one to the other |

## Left out

- SQL execution and gorm (`AutoMigrate`, `Find`, `Order().First`, `Create`, `Delete`, `Exec`) are not modelled as such:
  - the store is a set of rejected script bodies;
  - the ledger is a sequence of rows;
  - an AutoMigrate failure is a boolean input.
- The errors the code ignores (`db.Find` at line 29, `db.Create` at line 57, `db.Delete` at line 86 of `migrations.go`) are treated as successes.
- `filepath.Glob` is an input list that must be sorted, free of repeats and made of slash-free `.up.sql` names (`GlobResult`). Its error at lines 37-39 occurs only for a malformed pattern, and the pattern is a constant.
- `os.Stat` and `os.ReadFile` become the directory map: an absent key is "does not exist", and `Unreadable` is any other read error.
- Log lines and `fmt.Printf` messages are left out (`migrations.go:52,60,67,81,87`, `create.go:32`, `scaffold.go:60`).
- Process exit is left out. `log.Fatalf` ends the run as a `Failed` or `Refused` outcome.
- `time.Now()` is a parameter. In the engine it is a clock function read once per ledger insert; in `Create` and `Run` it is a `DateTime`.
- `DateTime` bounds each field but does not check the day against the month, and it has no time zone or sub-second part.
- Cross-process concurrency between two engine runs is left out; the code has no lock.
- `internal/tool/services/database/connection.go` is not part of this model: it is environment variables, `gorm.Open` and a global handle.
- `internal/setup/init.go`, `internal/migrate/migrate.go` and `cmd/*.go` are not part of this model. They are command wiring and template output. The `getModuleName` in `init.go` is the same scan as the scaffold one.
- The rest of `scaffold.Run` (lines 35-61) is left out: the four `MkdirAll` calls, the SQL template writes, `writeFileIfNotExists`, and the summary print. So are the boilerplate templates at lines 146-218. All of them are plain `fmt.Sprintf` text.
- `Scaffold.SnakeCase`: covers ASCII only. Go's `range` decodes runes and takes the first byte of each lowered rune; non-ASCII input is not modelled.
- `Scaffold.SnakeName`: covers ASCII only. Non-ASCII case mapping is left out of all the scaffold transforms.
- `MigrationFiles.FileSystem.MkdirAll`: does not record the parent directories it creates. It fails only on a refused path or a file in the way.
- `MigrationFiles.Base`: models `filepath.Base` and `filepath.Dir` only for paths without a trailing slash; path cleaning is not modelled.
- A second `Create` in the same second with the same name overwrites both files. The code does not detect this, and the model does not claim it does.
