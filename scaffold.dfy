/** The naming transforms of `scaffold.Run`: from the raw model name typed on
    the command line it derives the snake_case table stem, the PascalCase
    struct name, the plural table name, the lowerCamelCase file stem, and the
    paths of the two migration scripts and the three Go files it writes. The
    module path comes from the `module` line of `go.mod`.

    All transforms work on ASCII: `strings.ToLower`/`ToUpper` are modelled
    by their ASCII case mapping. */
module Scaffold {
  import opened Strings
  import opened Wrappers
  import opened Timestamps
  import MigrationFiles
  import Migrations

  // ---------------------------------------------------------------------
  // toLowerCamelCase
  // ---------------------------------------------------------------------

  /** `toLowerCamelCase`: lowercases the first character only. */
  function LowerCamelCase(s: string): (r: string)
    ensures |r| == |s|
    ensures |s| > 0 ==> r[0] == ToLower(s[0]) && r[1..] == s[1..]
  {
    if |s| == 0 then s else [ToLower(s[0])] + s[1..]
  }

  lemma LowerCamelIdempotent(s: string)
    ensures LowerCamelCase(LowerCamelCase(s)) == LowerCamelCase(s)
  {
  }

  // ---------------------------------------------------------------------
  // toPascalCase
  // ---------------------------------------------------------------------

  /** One segment with its first character uppercased. */
  function Capitalize(p: string): (r: string)
    ensures |r| == |p|
    ensures |p| > 0 ==> r[0] == ToUpper(p[0]) && r[1..] == p[1..]
  {
    if |p| > 0 then [ToUpper(p[0])] + p[1..] else p
  }

  function CapAll(ps: seq<string>): (r: seq<string>)
    ensures |r| == |ps|
  {
    seq(|ps|, k requires 0 <= k < |ps| => Capitalize(ps[k]))
  }

  /** What `toPascalCase(s)` returns: the `_`-separated segments of `s`,
      each capitalized, joined with nothing between them. */
  function PascalCase(s: string): string {
    Concat(CapAll(Split(s, '_')))
  }

  /** `toPascalCase`, overwriting the segments in place as the source does. */
  method ToPascalCase(s: string) returns (r: string)
    ensures r == PascalCase(s)
  {
    var parts := Split(s, '_');
    ghost var segments := parts;
    var i := 0;
    while i < |parts|
      invariant 0 <= i <= |parts| == |segments|
      invariant forall k :: 0 <= k < i ==> parts[k] == Capitalize(segments[k])
      invariant forall k :: i <= k < |parts| ==> parts[k] == segments[k]
    {
      if |parts[i]| > 0 {
        parts := parts[i := [ToUpper(parts[i][0])] + parts[i][1..]];
      }
      i := i + 1;
    }
    assert parts == CapAll(segments);
    r := Concat(parts);
  }

  lemma {:induction false} ConcatFree(ps: seq<string>, c: char)
    requires forall k :: 0 <= k < |ps| ==> c !in ps[k]
    ensures c !in Concat(ps)
  {
    if |ps| > 0 {
      ConcatFree(ps[1..], c);
    }
  }

  lemma {:induction false} JoinLength(ps: seq<string>, sep: char)
    requires |ps| >= 1
    ensures |Join(ps, sep)| == |Concat(ps)| + |ps| - 1
  {
    if |ps| > 1 {
      JoinLength(ps[1..], sep);
    }
  }

  lemma {:induction false} CapAllLength(ps: seq<string>)
    ensures |Concat(CapAll(ps))| == |Concat(ps)|
  {
    if |ps| > 0 {
      assert CapAll(ps)[1..] == CapAll(ps[1..]);
      CapAllLength(ps[1..]);
    }
  }

  /** The PascalCase name has no underscores, and is shorter than `s` by
      exactly the number of underscores in `s`. */
  lemma PascalCaseShape(s: string)
    ensures '_' !in PascalCase(s)
    ensures |PascalCase(s)| == |s| - Count(s, '_')
  {
    var ws := Split(s, '_');
    SplitParts(s, '_');
    forall k | 0 <= k < |ws| ensures '_' !in CapAll(ws)[k] {
      var w := ws[k];
      if |w| > 0 {
        assert w[0] in w;
        assert CapAll(ws)[k] == [ToUpper(w[0])] + w[1..];
        assert forall c :: c in w[1..] ==> c in w;
      }
    }
    ConcatFree(CapAll(ws), '_');
    JoinSplit(s, '_');
    JoinLength(ws, '_');
    CapAllLength(ws);
  }

  // ---------------------------------------------------------------------
  // toSnakeCase
  // ---------------------------------------------------------------------

  /** Number of ASCII upper-case letters in `t`. */
  function UpperCount(t: string): (n: nat)
    ensures n <= |t|
  {
    if t == [] then 0 else (if IsUpper(t[0]) then 1 else 0) + UpperCount(t[1..])
  }

  /** The characters of `toSnakeCase` after the first: each upper-case letter
      becomes `_` and its lower-case form, everything else stays as it is. */
  function SnakeMid(t: string): (r: string)
    ensures |r| == |t| + UpperCount(t)
    ensures forall k :: 0 <= k < |r| ==> !IsUpper(r[k])
  {
    if t == [] then []
    else (if IsUpper(t[0]) then "_" else "") + [ToLower(t[0])] + SnakeMid(t[1..])
  }

  /** What `toSnakeCase(s)` returns: no `_` goes before the first character. */
  function SnakeCase(s: string): (r: string)
    ensures s == [] ==> r == []
    ensures s != [] ==> |r| == |s| + UpperCount(s[1..])
    ensures forall k :: 0 <= k < |r| ==> !IsUpper(r[k])
  {
    if s == [] then [] else [ToLower(s[0])] + SnakeMid(s[1..])
  }

  lemma {:induction false} SnakeMidAppend(a: string, b: string)
    ensures SnakeMid(a + b) == SnakeMid(a) + SnakeMid(b)
  {
    if a == [] {
      assert a + b == b;
    } else {
      assert (a + b)[1..] == a[1..] + b;
      SnakeMidAppend(a[1..], b);
    }
  }

  /** One character more in, one step of `toSnakeCase`'s loop more out. */
  lemma SnakeStep(t: string, c: char)
    ensures SnakeCase(t + [c]) == SnakeCase(t) + (if t != [] && IsUpper(c) then "_" else "") + [ToLower(c)]
  {
    if t != [] {
      assert (t + [c])[1..] == t[1..] + [c];
      SnakeMidAppend(t[1..], [c]);
    }
  }

  /** `toSnakeCase`, appending to `result` one character at a time. */
  method ToSnakeCase(s: string) returns (r: string)
    ensures r == SnakeCase(s)
  {
    var result := "";
    for i := 0 to |s|
      invariant result == SnakeCase(s[..i])
    {
      SnakeStep(s[..i], s[i]);
      assert s[..i + 1] == s[..i] + [s[i]];
      if i > 0 && IsUpper(s[i]) {
        result := result + "_";
      }
      result := result + [ToLower(s[i])];
    }
    assert s[..|s|] == s;
    r := result;
  }

  // ---------------------------------------------------------------------
  // toSnakeCase(toPascalCase(s)) == s
  // ---------------------------------------------------------------------

  /** A segment of a snake_case identifier: a lower-case letter, then
      lower-case letters and digits. */
  predicate Word(w: string) {
    |w| > 0 && IsLower(w[0]) && forall k :: 0 <= k < |w| ==> IsLower(w[k]) || IsDigit(w[k])
  }

  /** Lower-case letters, digits and `_`, where every `_`-separated segment
      is non-empty (no leading, trailing or doubled `_`) and starts with a
      lower-case letter. */
  predicate SnakeIdent(s: string) {
    && (forall k :: 0 <= k < |s| ==> IsLower(s[k]) || IsDigit(s[k]) || s[k] == '_')
    && (forall w :: w in Split(s, '_') ==> |w| > 0 && IsLower(w[0]))
  }

  /** The separator and each segment after the first. */
  function JoinTail(ws: seq<string>): string {
    if ws == [] then [] else "_" + ws[0] + JoinTail(ws[1..])
  }

  lemma {:induction false} JoinHeadTail(ws: seq<string>)
    requires |ws| >= 1
    ensures Join(ws, '_') == ws[0] + JoinTail(ws[1..])
  {
    if |ws| > 1 {
      JoinHeadTail(ws[1..]);
      assert ws[1..][1..] == ws[2..];
    }
  }

  lemma {:induction false} SnakeMidPlain(t: string)
    requires forall k :: 0 <= k < |t| ==> !IsUpper(t[k])
    ensures SnakeMid(t) == t
  {
    if t != [] {
      SnakeMidPlain(t[1..]);
    }
  }

  /** After its first letter, a word has no upper-case letters. */
  lemma WordTailPlain(w: string)
    requires Word(w)
    ensures forall k :: 0 <= k < |w[1..]| ==> !IsUpper(w[1..][k])
  {
    forall k | 0 <= k < |w[1..]| ensures !IsUpper(w[1..][k]) {
      assert w[1..][k] == w[k + 1];
    }
  }

  lemma MidWord(w: string)
    requires Word(w)
    ensures SnakeMid(Capitalize(w)) == "_" + w
  {
    var c, tail := Capitalize(w), w[1..];
    assert c[0] == ToUpper(w[0]) && c[1..] == tail;
    WordTailPlain(w);
    SnakeMidPlain(tail);
    LowerOfUpper(w[0]);
    assert SnakeMid(c) == "_" + [w[0]] + SnakeMid(tail);
    ConsHead(w);
    AppendAssoc("_", [w[0]], tail);
  }

  lemma {:induction false} MidWords(ws: seq<string>)
    requires forall k :: 0 <= k < |ws| ==> Word(ws[k])
    ensures SnakeMid(Concat(CapAll(ws))) == JoinTail(ws)
  {
    if ws != [] {
      assert CapAll(ws)[1..] == CapAll(ws[1..]);
      SnakeMidAppend(Capitalize(ws[0]), Concat(CapAll(ws[1..])));
      MidWord(ws[0]);
      MidWords(ws[1..]);
    }
  }

  lemma ConsHead(x: string)
    requires |x| > 0
    ensures [x[0]] + x[1..] == x
  {
  }

  lemma HeadOfAppend(x: string, y: string)
    requires |x| > 0
    ensures (x + y)[0] == x[0] && (x + y)[1..] == x[1..] + y
  {
  }

  lemma RoundCons(w: string, ws: seq<string>)
    requires Word(w) && forall k :: 0 <= k < |ws| ==> Word(ws[k])
    ensures SnakeCase(Capitalize(w) + Concat(CapAll(ws))) == w + JoinTail(ws)
  {
    var tail, rest := w[1..], Concat(CapAll(ws));
    var c := Capitalize(w) + rest;
    HeadOfAppend(Capitalize(w), rest);
    WordTailPlain(w);
    SnakeMidAppend(tail, rest);
    SnakeMidPlain(tail);
    MidWords(ws);
    LowerOfUpper(w[0]);
    var first := ToLower(c[0]);
    assert first == w[0];
    assert SnakeMid(c[1..]) == tail + JoinTail(ws);
    assert SnakeCase(c) == [first] + SnakeMid(c[1..]);
    ConsHead(w);
    AppendAssoc([w[0]], tail, JoinTail(ws));
  }

  lemma RoundWords(ws: seq<string>)
    requires |ws| >= 1 && forall k :: 0 <= k < |ws| ==> Word(ws[k])
    ensures SnakeCase(Concat(CapAll(ws))) == Join(ws, '_')
  {
    assert CapAll(ws)[1..] == CapAll(ws[1..]);
    assert Concat(CapAll(ws)) == Capitalize(ws[0]) + Concat(CapAll(ws[1..]));
    forall k | 0 <= k < |ws| - 1 ensures Word(ws[1..][k]) {
      assert ws[1..][k] == ws[k + 1];
    }
    RoundCons(ws[0], ws[1..]);
    JoinHeadTail(ws);
  }

  lemma {:induction false} PartChars(ps: seq<string>, sep: char, k: nat, c: char)
    requires k < |ps| && c in ps[k]
    ensures c in Join(ps, sep)
  {
    if k > 0 {
      PartChars(ps[1..], sep, k - 1, c);
    }
  }

  /** `toSnakeCase(toPascalCase(s)) == s` for every snake_case identifier. */
  lemma SnakeOfPascal(s: string)
    requires SnakeIdent(s)
    ensures SnakeCase(PascalCase(s)) == s
  {
    var ws := Split(s, '_');
    JoinSplit(s, '_');
    SplitParts(s, '_');
    forall k | 0 <= k < |ws| ensures Word(ws[k]) {
      assert ws[k] in ws;
      forall i | 0 <= i < |ws[k]| ensures IsLower(ws[k][i]) || IsDigit(ws[k][i]) {
        PartChars(ws, '_', k, ws[k][i]);
      }
    }
    RoundWords(ws);
  }

  /** Restricting to identifiers is needed: a segment that starts with a
      digit loses its separator. */
  lemma DigitSegmentLosesSeparator()
    ensures SnakeCase(PascalCase("a_1")) == "a1"
  {
    assert Split("a_1", '_') == ["a", "1"] by {
      SplitPrefix("a", "1", '_');
      SplitNoSep("1", '_');
      assert "a" + ['_'] + "1" == "a_1";
    }
    assert Capitalize("a") == "A" by {
      assert ToUpper('a') == 'A';
      assert "a"[1..] == [];
    }
    assert Capitalize("1") == "1";
    assert CapAll(["a", "1"]) == ["A", "1"];
    assert Concat(["A", "1"]) == "A1";
  }

  /** A single lower-case word survives PascalCase and then lowerCamelCase. */
  lemma LowerCamelOfPascalWord(w: string)
    requires Word(w)
    ensures PascalCase(w) == Capitalize(w)
    ensures LowerCamelCase(PascalCase(w)) == w
  {
    SplitNoSep(w, '_');
    assert CapAll([w]) == [Capitalize(w)];
    assert Concat([Capitalize(w)]) == Capitalize(w) + [];
    LowerOfUpper(w[0]);
    assert [w[0]] + w[1..] == w;
  }

  // ---------------------------------------------------------------------
  // plural and singular
  // ---------------------------------------------------------------------

  /** The y → ies rule of `plural`. */
  predicate YToIes(name: string) {
    EndsWith(name, "y") && !EndsWith(name, "ay") && !EndsWith(name, "ey")
  }

  /** `plural`: always ends in `s` and is longer than its input, and the
      input survives as a prefix except under the y → ies rule. */
  function Plural(name: string): (r: string)
    ensures EndsWith(r, "s") && |r| > |name|
    ensures StartsWith(r, name) <==> !YToIes(name)
  {
    if YToIes(name) then
      var r := TrimSuffix(name, "y") + "ies";
      assert r[|name| - 1] == 'i' != name[|name| - 1];
      r
    else if EndsWith(name, "s") then name + "es"
    else name + "s"
  }

  /** `singular`: at most one rule, in the priority ies → y, then es → "",
      then s → ""; the result is never longer than the input. */
  function Singular(name: string): (r: string)
    ensures |r| <= |name|
    ensures EndsWith(name, "ies") ==> EndsWith(r, "y") && r[..|r| - 1] + "ies" == name
    ensures !EndsWith(name, "ies") && EndsWith(name, "es") ==> r + "es" == name
    ensures !EndsWith(name, "es") && EndsWith(name, "s") ==> r + "s" == name
    ensures !EndsWith(name, "s") ==> r == name
  {
    if EndsWith(name, "ies") then TrimSuffix(name, "ies") + "y"
    else if EndsWith(name, "es") then TrimSuffix(name, "es")
    else if EndsWith(name, "s") then TrimSuffix(name, "s")
    else name
  }

  lemma EndsWithChar(s: string, c: char, suffix: string)
    ensures EndsWith(s + [c], suffix + [c]) <==> EndsWith(s, suffix)
  {
    var t := s + [c];
    if EndsWith(s, suffix) {
      assert t[|t| - |suffix| - 1..] == s[|s| - |suffix|..] + [c];
    }
    if EndsWith(t, suffix + [c]) {
      assert t[|t| - |suffix| - 1..] == s[|s| - |suffix|..] + [c];
      assert s[|s| - |suffix|..] == t[|t| - |suffix| - 1..][..|suffix|];
    }
  }

  /** `singular(plural(x)) == x` exactly when `x` does not end in `e`. */
  lemma SingularOfPlural(x: string)
    ensures Singular(Plural(x)) == x <==> !EndsWith(x, "e")
  {
    var p := Plural(x);
    if YToIes(x) {
      var stem := TrimSuffix(x, "y");
      assert p == stem + "ies";
      EndsWithAppend(stem, "ies");
      assert x[|x| - 1] == 'y';
    } else if EndsWith(x, "s") {
      assert p == x + "es";
      EndsWithAppend(x, "es");
      EndsWithChar(x + "e", 's', "ie");
      EndsWithChar(x, 'e', "i");
      assert x + "es" == x + "e" + "s";
      assert x[|x| - 1] == 's';
      assert (x + "es")[..|x|] == x;
    } else {
      assert p == x + "s";
      EndsWithChar(x, 's', "ie");
      EndsWithChar(x, 's', "e");
      EndsWithChar(x, 's', "");
      assert "ie" + "s" == "ies" && "e" + "s" == "es";
      assert (x + "s")[..|x|] == x;
      if EndsWith(x, "ie") {
        assert x[|x| - 1] == 'e';
      }
      if EndsWith(x, "e") && !EndsWith(x, "ie") {
        assert |Singular(p)| == |x| - 1;
      }
    }
  }

  // ---------------------------------------------------------------------
  // getModuleName
  // ---------------------------------------------------------------------

  /** A `go.mod` line that declares the module: after trimming white space
      it starts with `module `. */
  predicate Declares(line: string) {
    StartsWith(TrimSpace(line), "module ")
  }

  /** The module path a declaring line names. */
  function ModulePath(line: string): string {
    TrimSpace(TrimPrefix(TrimSpace(line), "module"))
  }

  /** Which lines declare the module. */
  function Declared(lines: seq<string>): (flags: seq<bool>)
    ensures |flags| == |lines|
    ensures forall j :: 0 <= j < |lines| ==> flags[j] == Declares(lines[j])
  {
    seq(|lines|, j requires 0 <= j < |lines| => Declares(lines[j]))
  }

  /** Index of the first `true`, or `|flags|` when there is none. */
  function FirstTrue(flags: seq<bool>): (k: nat)
    ensures k <= |flags|
    ensures forall j :: 0 <= j < k ==> !flags[j]
    ensures k < |flags| ==> flags[k]
  {
    if flags == [] then 0
    else if flags[0] then 0
    else 1 + FirstTrue(flags[1..])
  }

  lemma {:induction false} FirstTrueAt(flags: seq<bool>, i: nat)
    requires i <= |flags|
    requires forall j :: 0 <= j < i ==> !flags[j]
    requires i < |flags| ==> flags[i]
    ensures FirstTrue(flags) == i
    decreases i
  {
    if i > 0 {
      var rest := flags[1..];
      forall j | 0 <= j < i - 1 ensures !rest[j] {
        assert rest[j] == flags[j + 1];
      }
      FirstTrueAt(rest, i - 1);
    }
  }

  /** Index of the first declaring line, or `|lines|` when none declares. */
  function FirstDeclaring(lines: seq<string>): (k: nat)
    ensures k <= |lines|
    ensures forall j :: 0 <= j < k ==> !Declares(lines[j])
    ensures k < |lines| ==> Declares(lines[k])
  {
    FirstTrue(Declared(lines))
  }

  lemma FirstDeclaringAt(lines: seq<string>, i: nat)
    requires i <= |lines|
    requires forall j :: 0 <= j < i ==> !Declares(lines[j])
    requires i < |lines| ==> Declares(lines[i])
    ensures FirstDeclaring(lines) == i
  {
    var flags := Declared(lines);
    forall j | 0 <= j < i ensures !flags[j] {
    }
    FirstTrueAt(flags, i);
  }

  /** What `getModuleName` returns for the contents of `go.mod`, with `None`
      for its `log.Fatal("No module declaration found in go.mod")`. */
  function ModuleName(data: string): Option<string> {
    var lines := Split(data, '\n');
    var k := FirstTrue(Declared(lines));
    if k < |lines| then Some(ModulePath(lines[k])) else None
  }

  /** The line scan of `getModuleName`, returning at the first match. */
  method GetModuleName(data: string) returns (r: Option<string>)
    ensures r == ModuleName(data)
  {
    var lines := Split(data, '\n');
    ghost var flags := Declared(lines);
    for i := 0 to |lines|
      invariant forall j :: 0 <= j < i ==> !flags[j]
    {
      if Declares(lines[i]) {
        ModuleNameAt(data, i);
        return Some(ModulePath(lines[i]));
      }
    }
    ModuleNameAt(data, |lines|);
    return None;
  }

  /** `ModuleName` when line `i` is the first declaring one (or none is,
      for `i == |lines|`). */
  lemma ModuleNameAt(data: string, i: nat)
    requires var flags := Declared(Split(data, '\n'));
      && i <= |flags| && (forall j :: 0 <= j < i ==> !flags[j]) && (i < |flags| ==> flags[i])
    ensures var lines := Split(data, '\n');
      ModuleName(data) == if i < |lines| then Some(ModulePath(lines[i])) else None
  {
    FirstTrueAt(Declared(Split(data, '\n')), i);
  }

  /** The module path of a declaring line is never empty and carries no
      surrounding white space. */
  lemma ModulePathClean(line: string)
    requires Declares(line)
    ensures var v := ModulePath(line);
      v != [] && !IsSpace(v[0]) && !IsSpace(v[|v| - 1])
  {
    var t := TrimSpace(line);
    TrimSpaceClean(line);
    assert t[6] == ' ' && IsSpace(t[6]);
    assert |t| > 7;
    var rest := TrimPrefix(t, "module");
    assert rest == t[6..];
    assert rest[|rest| - 1] == t[|t| - 1];
    TrimSpaceNonEmpty(rest);
    TrimSpaceClean(rest);
  }

  /** `getModuleName` finds a module exactly when some line declares one. */
  lemma ModuleNameFound(data: string)
    ensures var lines := Split(data, '\n');
      ModuleName(data).Some? <==> exists k :: 0 <= k < |lines| && Declares(lines[k])
  {
    var lines := Split(data, '\n');
    var k := FirstDeclaring(lines);
    if k < |lines| {
      assert Declares(lines[k]);
    }
    ModuleNameAt(data, k);
  }

  /** When it finds one, it is the non-empty path named by the first
      declaring line. */
  lemma ModuleNameFirst(data: string, k: nat)
    requires var lines := Split(data, '\n');
      k < |lines| && Declares(lines[k]) && forall j :: 0 <= j < k ==> !Declares(lines[j])
    ensures ModuleName(data) == Some(ModulePath(Split(data, '\n')[k]))
    ensures var v := ModuleName(data).value;
      v != [] && !IsSpace(v[0]) && !IsSpace(v[|v| - 1])
  {
    var lines := Split(data, '\n');
    FirstDeclaringAt(lines, k);
    ModulePathClean(lines[k]);
  }

  // ---------------------------------------------------------------------
  // The names Run derives
  // ---------------------------------------------------------------------

  /** The `log.Fatalf`s and the error return of `Run` before any file is written. */
  datatype ScaffoldError = GoModUnreadable | NoModuleDeclaration | MissingModelName

  /** Everything `Run` computes before it touches the file system. */
  datatype Layout = Layout(
    moduleName: string,
    snakeName: string,
    structName: string,
    pluralName: string,
    lowerCamel: string,
    upFile: string,
    downFile: string,
    modelFile: string,
    routeFile: string,
    queriesFile: string)

  datatype Planned = Planned(layout: Layout) | Refused(error: ScaffoldError)

  /** `strings.ToLower(strings.ReplaceAll(rawName, " ", "_"))`. */
  function SnakeName(rawName: string): (r: string)
    ensures |r| == |rawName|
    ensures ' ' !in r
    ensures forall k :: 0 <= k < |r| ==> !IsUpper(r[k])
  {
    LowerAll(ReplaceChar(rawName, ' ', '_'))
  }

  /** Lines 12-33 of `Run`: `goMod` is the contents of `go.mod`, `None` when
      it cannot be read, and `now` the reading of `time.Now()`. */
  function PlanScaffold(goMod: Option<string>, rawName: string, now: DateTime): Planned {
    if goMod.None? then Refused(GoModUnreadable)
    else if ModuleName(goMod.value).None? then Refused(NoModuleDeclaration)
    else if rawName == "" then Refused(MissingModelName)
    else
      var timestamp := Format(now);
      var snakeName := SnakeName(rawName);
      var structName := PascalCase(Singular(snakeName));
      var pluralName := Plural(snakeName);
      var lowerCamel := LowerCamelCase(structName);
      Planned(Layout(
        ModuleName(goMod.value).value,
        snakeName, structName, pluralName, lowerCamel,
        MigrationFiles.UpPath(timestamp, snakeName),
        MigrationFiles.DownPath(timestamp, snakeName),
        "app/models/" + lowerCamel + ".go",
        "app/routes/" + lowerCamel + "s.go",
        "app/services/database/" + lowerCamel + "Queries.go"))
  }

  /** `Run` reads `go.mod` before it looks at the model name, so a missing
      module wins over a missing name; it goes on only with both. */
  lemma PlanChecksInOrder(goMod: Option<string>, rawName: string, now: DateTime)
    ensures var r := PlanScaffold(goMod, rawName, now);
      && (r == Refused(GoModUnreadable) <==> goMod.None?)
      && (r == Refused(NoModuleDeclaration) <==> goMod.Some? && ModuleName(goMod.value).None?)
      && (r == Refused(MissingModelName) <==>
            goMod.Some? && ModuleName(goMod.value).Some? && rawName == "")
      && (r.Planned? <==> goMod.Some? && ModuleName(goMod.value).Some? && rawName != "")
  {
  }

  /** The derived names: the snake name keeps the length of the raw name and
      has no spaces or upper-case letters, the struct name has no
      underscores, the plural ends in `s`, and the module path is clean. */
  lemma PlanNames(goMod: Option<string>, rawName: string, now: DateTime)
    requires PlanScaffold(goMod, rawName, now).Planned?
    ensures var l := PlanScaffold(goMod, rawName, now).layout;
      && |l.snakeName| == |rawName| && ' ' !in l.snakeName
      && (forall k :: 0 <= k < |l.snakeName| ==> !IsUpper(l.snakeName[k]))
      && '_' !in l.structName
      && EndsWith(l.pluralName, "s") && |l.pluralName| > |l.snakeName|
      && l.moduleName != [] && !IsSpace(l.moduleName[0])
  {
    var l := PlanScaffold(goMod, rawName, now).layout;
    var snake := SnakeName(rawName);
    assert l.snakeName == snake && l.structName == PascalCase(Singular(snake)) && l.pluralName == Plural(snake);
    assert l.moduleName == ModuleName(goMod.value).value;
    PascalCaseShape(Singular(snake));
    var lines := Split(goMod.value, '\n');
    ModuleNameFirst(goMod.value, FirstDeclaring(lines));
  }

  /** `Run`'s migration scripts are the pair `migrate.Create` would make for
      the snake name: they share `db/migrations/<timestamp>_<snakeName>`,
      differ only in `.up.sql` against `.down.sql`, and the engine's
      `replaceSuffix` leads from the first to the second. */
  lemma PlanMigrationPair(goMod: Option<string>, rawName: string, now: DateTime)
    requires PlanScaffold(goMod, rawName, now).Planned?
    ensures var l := PlanScaffold(goMod, rawName, now).layout;
      var prefix := Migrations.MigrationDir + "/" + MigrationFiles.Stem(Format(now), l.snakeName);
      && l.upFile == prefix + Migrations.UpSuffix
      && l.downFile == prefix + Migrations.DownSuffix
      && Migrations.IsUpScript(MigrationFiles.Base(l.upFile))
      && Migrations.DownName(MigrationFiles.Base(l.upFile)) == Some(MigrationFiles.Base(l.downFile))
  {
    var ts, snake := Format(now), SnakeName(rawName);
    var l := PlanScaffold(goMod, rawName, now).layout;
    assert l.snakeName == snake;
    assert l.upFile == MigrationFiles.UpPath(ts, snake);
    assert l.downFile == MigrationFiles.DownPath(ts, snake);
    MigrationFiles.SharedPrefix(ts, snake);
    MigrationFiles.GlobSeesUpOnly(ts, snake);
    MigrationFiles.DownOfCreatedUp(ts, snake);
  }
}
