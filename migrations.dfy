/** The migration runner of internal/mysql/db.go: which files become migrations, how a script
    is cut into statements, the mysqlBool codec, and which migrations run and are recorded.
    The directory listing, the file contents and the database's verdict on each statement are
    parameters; the __Migrations table and the executed statements are fields of `MigrationDb`. */
module Migrations {
  import opened Wrappers
  import opened GoStrings

  // ---------------------------------------------------------------------------------------------
  // Selecting the migration files

  datatype FileInfo = FileInfo(name: string, isDir: bool)

  /** A plain file whose extension, lower-cased, is ".sql". */
  predicate IsMigrationFile(f: FileInfo) {
    !f.isDir && ToLower(Ext(f.name)) == ".sql"
  }

  /** The names of the migration files, in directory order. */
  function MigrationFiles(dir: seq<FileInfo>): (r: seq<string>)
    ensures |r| <= |dir|
    ensures forall x :: x in r <==> exists f :: f in dir && IsMigrationFile(f) && f.name == x
  {
    if dir == [] then []
    else
      var last := dir[|dir| - 1];
      assert forall f :: f in dir <==> f in dir[..|dir| - 1] || f == last;
      MigrationFiles(dir[..|dir| - 1]) + (if IsMigrationFile(last) then [last.name] else [])
  }

  /** A file name (ReadDir gives names without '/') is a migration exactly when it ends in
      ".sql" in any mixture of letter case. */
  lemma IsMigrationFileBySuffix(f: FileInfo)
    requires '/' !in f.name
    ensures IsMigrationFile(f) <==> !f.isDir && |f.name| >= 4 && ToLower(f.name[|f.name| - 4..]) == ".sql"
  {
    var p := f.name;
    if |p| >= 4 && ToLower(p[|p| - 4..]) == ".sql" {
      SqlSuffixIsExt(p);
    }
    if ToLower(Ext(p)) == ".sql" {
      assert |Ext(p)| == 4;
    }
  }

  /** A name without '/' that ends in ".sql", in any letter case, has that suffix as its
      extension. */
  lemma SqlSuffixIsExt(p: string)
    requires '/' !in p && |p| >= 4 && ToLower(p[|p| - 4..]) == ".sql"
    ensures Ext(p) == p[|p| - 4..]
  {
    var k := |p| - 4;
    assert p[k] == '.' by {
      assert ToLower(p[k..])[0] == ToLowerChar(p[k]);
    }
    forall j | k < j < |p| ensures p[j] != '.' {
      assert ToLower(p[k..])[j - k] == ToLowerChar(p[j]);
    }
    var r := Ext(p);
    assert r != "" by {
      assert p[k + 1..] == p[k..][1..];
      assert '/' !in p[k + 1..];
      assert !NoDotInLastElement(p);
    }
    var start := |p| - |r|;
    assert p[start] == '.' by {
      assert r[0] == p[start..][0];
    }
    assert start >= k;
  }

  /** Go's string order on a sequence. */
  predicate Sorted(s: seq<string>) {
    forall i, j :: 0 <= i < j < |s| ==> LessEq(s[i], s[j])
  }

  /** Puts `x` in front of the first name it does not exceed. */
  function Insert(x: string, s: seq<string>): seq<string> {
    if s == [] || LessEq(x, s[0]) then [x] + s else [s[0]] + Insert(x, s[1..])
  }

  lemma {:induction false} InsertPermutes(x: string, s: seq<string>)
    ensures multiset(Insert(x, s)) == multiset(s) + multiset{x}
  {
    if s != [] && !LessEq(x, s[0]) {
      InsertPermutes(x, s[1..]);
      assert s == [s[0]] + s[1..];
    }
  }

  lemma {:induction false} InsertSorted(x: string, s: seq<string>)
    requires Sorted(s)
    ensures Sorted(Insert(x, s))
  {
    if s == [] {
      assert Insert(x, s) == [x];
    } else if LessEq(x, s[0]) {
      forall j | 0 <= j < |s| ensures LessEq(x, s[j]) {
        if j > 0 {
          LessEqTransitive(x, s[0], s[j]);
        }
      }
      SortedCons(x, s);
    } else {
      SortedTail(s);
      InsertSorted(x, s[1..]);
      InsertAboveHead(x, s);
      SortedCons(s[0], Insert(x, s[1..]));
    }
  }

  /** A name placed in front of a sorted sequence none of whose names it exceeds. */
  lemma SortedCons(a: string, t: seq<string>)
    requires Sorted(t) && forall j :: 0 <= j < |t| ==> LessEq(a, t[j])
    ensures Sorted([a] + t)
  {
    var r := [a] + t;
    forall i, j | 0 <= i < j < |r| ensures LessEq(r[i], r[j]) {
      assert r[j] == t[j - 1];
      if i > 0 {
        assert r[i] == t[i - 1];
      }
    }
  }

  /** Inserting a name above the head of a sorted sequence into its tail gives names none
      below the head. */
  lemma InsertAboveHead(x: string, s: seq<string>)
    requires Sorted(s) && s != [] && !LessEq(x, s[0])
    ensures forall j :: 0 <= j < |Insert(x, s[1..])| ==> LessEq(s[0], Insert(x, s[1..])[j])
  {
    var rest := s[1..];
    var ins := Insert(x, rest);
    InsertPermutes(x, rest);
    LessEqTotal(x, s[0]);
    forall j | 0 <= j < |ins| ensures LessEq(s[0], ins[j]) {
      assert ins[j] in multiset(ins);
      if ins[j] != x {
        assert ins[j] in multiset(rest);
        var k :| 0 <= k < |rest| && rest[k] == ins[j];
        assert s[k + 1] == rest[k];
      }
    }
  }

  /** sort.Strings: the names in ascending order. */
  function SortStrings(s: seq<string>): (r: seq<string>)
    ensures multiset(r) == multiset(s)
    ensures Sorted(r)
  {
    if s == [] then []
    else
      var rest := SortStrings(s[1..]);
      InsertPermutes(s[0], rest);
      InsertSorted(s[0], rest);
      assert s == [s[0]] + s[1..];
      Insert(s[0], rest)
  }

  lemma SortedTail(a: seq<string>)
    requires Sorted(a) && a != []
    ensures Sorted(a[1..])
  {
    forall x, y | 0 <= x < y < |a[1..]| ensures LessEq(a[1..][x], a[1..][y]) {
      assert a[1..][x] == a[x + 1] && a[1..][y] == a[y + 1];
    }
  }

  lemma SortedHeadLeast(a: seq<string>, x: string)
    requires Sorted(a) && x in a
    ensures LessEq(a[0], x)
  {
    var i :| 0 <= i < |a| && a[i] == x;
    if i == 0 {
      LessEqReflexive(x);
    }
  }

  lemma SameTails(a: seq<string>, b: seq<string>)
    requires a != [] && b != [] && a[0] == b[0] && multiset(a) == multiset(b)
    ensures multiset(a[1..]) == multiset(b[1..])
  {
    assert a == [a[0]] + a[1..] && b == [b[0]] + b[1..];
    assert multiset(a) == multiset{a[0]} + multiset(a[1..]);
    assert multiset(b) == multiset{b[0]} + multiset(b[1..]);
    assert multiset(a[1..]) == multiset(a) - multiset{a[0]};
    assert multiset(b[1..]) == multiset(b) - multiset{b[0]};
  }

  /** A sequence has one ascending arrangement, so how sort.Strings sorts does not matter. */
  lemma {:induction false} SortedUnique(a: seq<string>, b: seq<string>)
    requires Sorted(a) && Sorted(b) && multiset(a) == multiset(b)
    ensures a == b
  {
    assert |a| == |multiset(a)| == |multiset(b)| == |b|;
    if a != [] {
      assert a[0] in multiset(b) && b[0] in multiset(a);
      SortedHeadLeast(a, b[0]);
      SortedHeadLeast(b, a[0]);
      LessEqAntisymmetric(a[0], b[0]);
      SameTails(a, b);
      SortedTail(a);
      SortedTail(b);
      SortedUnique(a[1..], b[1..]);
      assert a == [a[0]] + a[1..] && b == [b[0]] + b[1..];
    }
  }

  /** db.migrations after lines 256-265: the migration files' names, in ascending order. */
  function Selected(dir: seq<FileInfo>): seq<string> {
    SortStrings(MigrationFiles(dir))
  }

  /** The selection holds exactly the names of the plain ".sql" files, each as often as the
      listing has it, in ascending order; any ascending arrangement of them is this one. */
  lemma SelectedMigrations(dir: seq<FileInfo>, other: seq<string>)
    ensures Sorted(Selected(dir))
    ensures multiset(Selected(dir)) == multiset(MigrationFiles(dir))
    ensures forall x :: x in Selected(dir) <==> exists f :: f in dir && IsMigrationFile(f) && f.name == x
    ensures Sorted(other) && multiset(other) == multiset(MigrationFiles(dir)) ==> other == Selected(dir)
  {
    var s := Selected(dir);
    forall x ensures x in s <==> x in MigrationFiles(dir) {
      assert x in s <==> x in multiset(s);
      assert x in MigrationFiles(dir) <==> x in multiset(MigrationFiles(dir));
    }
    if Sorted(other) && multiset(other) == multiset(MigrationFiles(dir)) {
      SortedUnique(other, s);
    }
  }

  // ---------------------------------------------------------------------------------------------
  // mysqlBool

  /** What database/sql hands to Scan: a byte slice, or a value of some other type. */
  datatype Src = SrcBytes(bytes: Bytes) | SrcOther

  datatype ScanError = UnexpectedType

  /** mysqlBool.Value. */
  function BoolValue(b: bool): Bytes {
    if b then [1] else [0]
  }

  /** mysqlBool.Scan on a variable holding `b`: the variable's new value and the error. */
  function Scan(b: bool, src: Src): (bool, Option<ScanError>) {
    if !src.SrcBytes? then (b, Some(UnexpectedType))
    else if src.bytes == [0] then (false, None)
    else if src.bytes == [1] then (true, None)
    else (b, None)
  }

  /** Scan reads back what Value writes, whatever the variable held; any other byte slice
      leaves the variable alone without an error; anything but a byte slice is an error and
      leaves the variable alone. */
  lemma ScanValue(b: bool, held: bool, other: Bytes)
    ensures Scan(held, SrcBytes(BoolValue(b))) == (b, None)
    ensures other != BoolValue(true) && other != BoolValue(false) ==> Scan(held, SrcBytes(other)) == (held, None)
    ensures Scan(held, SrcOther) == (held, Some(UnexpectedType))
    ensures |BoolValue(b)| == 1 && (BoolValue(b) == BoolValue(held) <==> b == held)
  {
  }

  // ---------------------------------------------------------------------------------------------
  // Cutting a script into statements

  const DelimiterKeyword := "delimiter "

  /** How far past the start of a delimiter the remaining text resumes: one character, as the
      source advances, or the whole delimiter. */
  datatype Advance = OneCharacter | WholeDelimiter

  function Skip(adv: Advance, delim: string): nat {
    if adv == OneCharacter || delim == "" then 1 else |delim|
  }

  /** One turn of the splitting loop. */
  datatype Step =
    | Emit(stmt: string, rest: string)
    | ChangeDelimiter(delim: string, rest: string)
    | Stop
    | Unterminated

  /** One turn on the remaining text `sql` with the current delimiter (lines 287-330). */
  function NextStep(sql: string, delim: string, adv: Advance): (r: Step)
    requires sql != ""
    ensures r.Emit? || r.ChangeDelimiter? ==> |r.rest| < |sql|
  {
    var i := Index(sql, delim);
    var c := Index(sql, DelimiterKeyword);
    if i == -1 && c == -1 then Unterminated
    else if c == -1 || (i != -1 && i < c) then Cut(sql, delim, adv, i)
    else Directive(sql)
  }

  /** Lines 295-310: the statement before the delimiter found at `i`, and the remainder. */
  function Cut(sql: string, delim: string, adv: Advance, i: nat): (r: Step)
    requires OccursAt(sql, delim, i) && i < |sql|
    ensures r.Emit? && |r.rest| < |sql|
  {
    var stmt := if delim == ";" then sql[..i + 1] else sql[..i];
    Emit(stmt, TrimSpace(sql[i + Skip(adv, delim)..]))
  }

  /** Lines 315-330: the first line of the remaining text gives the new delimiter, or, with no
      newline left, the end. */
  function Directive(sql: string): (r: Step)
    ensures r.ChangeDelimiter? || r.Stop?
    ensures r.ChangeDelimiter? ==> |r.rest| < |sql|
  {
    var e := Index(sql, "\n");
    if e == -1 then Stop
    else ChangeDelimiter(NewDelimiter(sql[..e + 1]), TrimSpace(sql[e + 1..]))
  }

  /** Lines 321-323: the line without its first "delimiter " and its line breaks, trimmed. */
  function NewDelimiter(line: string): string {
    TrimSpace(RemoveChar(ReplaceFirst(line, DelimiterKeyword, ""), '\n'))
  }

  /** A new delimiter holds no line break and neither starts nor ends with white space. */
  lemma NewDelimiterSpec(line: string)
    ensures '\n' !in NewDelimiter(line) && Trimmed(NewDelimiter(line))
  {
    var bare := RemoveChar(ReplaceFirst(line, DelimiterKeyword, ""), '\n');
    TrimSpaceSpec(bare);
    assert NewDelimiter(line) == bare[LeadingSpace(bare)..LeadingSpace(bare) + |NewDelimiter(line)|];
  }

  /** Which way a turn goes: it is unterminated when neither the delimiter nor a directive
      occurs, cuts a statement when the delimiter occurs before any directive, and otherwise
      handles the directive. */
  lemma NextStepBranches(sql: string, delim: string, adv: Advance)
    requires sql != ""
    ensures var r, i, c := NextStep(sql, delim, adv), Index(sql, delim), Index(sql, DelimiterKeyword);
      && (r.Unterminated? <==> i == -1 && c == -1)
      && (r.Emit? <==> i != -1 && (c == -1 || i < c))
      && (r.Stop? || r.ChangeDelimiter? <==> c != -1 && (i == -1 || c <= i))
  {
  }

  /** A cut statement ends at the first occurrence of the delimiter; with ";" it keeps the ";",
      with any other delimiter it stops before it; the remainder is the text after the skipped
      characters, trimmed. */
  lemma NextStepEmit(sql: string, delim: string, adv: Advance)
    requires sql != "" && NextStep(sql, delim, adv).Emit?
    ensures var r, i := NextStep(sql, delim, adv), Index(sql, delim);
      && 0 <= i && OccursAt(sql, delim, i) && i + Skip(adv, delim) <= |sql|
      && (forall k :: 0 <= k < i ==> !OccursAt(sql, delim, k))
      && r.stmt == (if delim == ";" then sql[..i + 1] else sql[..i])
      && r.rest == TrimSpace(sql[i + Skip(adv, delim)..])
  {
    IndexFirst(sql, delim);
    NextStepIsCut(sql, delim, adv);
  }

  lemma NextStepIsCut(sql: string, delim: string, adv: Advance)
    requires sql != "" && NextStep(sql, delim, adv).Emit?
    ensures var i := Index(sql, delim);
      0 <= i < |sql| && OccursAt(sql, delim, i) && NextStep(sql, delim, adv) == Cut(sql, delim, adv, i)
  {
  }

  /** A directive with no line break left ends the script; otherwise the new delimiter is its
      line without the keyword and line breaks, trimmed, and the script resumes after the line. */
  lemma NextStepDirective(sql: string, delim: string, adv: Advance)
    requires sql != "" && (NextStep(sql, delim, adv).Stop? || NextStep(sql, delim, adv).ChangeDelimiter?)
    ensures var r, e := NextStep(sql, delim, adv), Index(sql, "\n");
      && (r.Stop? <==> '\n' !in sql)
      && (r.ChangeDelimiter? ==>
            && 0 <= e < |sql| && sql[e] == '\n' && '\n' !in sql[..e]
            && r.delim == NewDelimiter(sql[..e + 1]) && r.rest == TrimSpace(sql[e + 1..]))
  {
    var e := Index(sql, "\n");
    IndexFirst(sql, "\n");
    if e == -1 {
      forall k | 0 <= k < |sql| ensures sql[k] != '\n' {
        assert !OccursAt(sql, "\n", k);
        assert sql[k..k + 1] == [sql[k]];
      }
    } else {
      assert sql[e..e + 1] == "\n";
      forall k | 0 <= k < e ensures sql[k] != '\n' {
        assert !OccursAt(sql, "\n", k);
        assert sql[k..k + 1] == [sql[k]];
      }
    }
  }

  /** A line `delimiter D` at the head of a script switches to `D` trimmed, whatever the current
      delimiter, and the script resumes after that line. */
  lemma DelimiterDirective(d: string, t: string, delim: string, adv: Advance)
    requires '\n' !in d
    ensures NextStep(DelimiterKeyword + d + "\n" + t, delim, adv) == ChangeDelimiter(TrimSpace(d), TrimSpace(t))
  {
    DirectiveLine(d, t);
    NewDelimiterOfLine(d);
  }

  /** In such a text the directive is at 0 and the first line break ends the line. */
  lemma DirectiveLine(d: string, t: string)
    requires '\n' !in d
    ensures var line := DelimiterKeyword + d + "\n";
      var sql, e := line + t, |DelimiterKeyword| + |d|;
      && Index(sql, DelimiterKeyword) == 0 && Index(sql, "\n") == e
      && sql[..e + 1] == line && sql[e + 1..] == t
  {
    var line := DelimiterKeyword + d + "\n";
    var sql := line + t;
    var e := |DelimiterKeyword| + |d|;
    assert Index(sql, DelimiterKeyword) == 0 by {
      assert sql[..|DelimiterKeyword|] == DelimiterKeyword;
      IndexIs(sql, DelimiterKeyword, 0);
    }
    assert Index(sql, "\n") == e by {
      assert sql[..e] == DelimiterKeyword + d;
      assert sql[e] == '\n';
      IndexOfChar(sql, '\n', e);
    }
    assert sql[..e + 1] == line;
    assert sql[e + 1..] == t;
  }

  /** The delimiter a directive line sets is the rest of the line, trimmed. */
  lemma NewDelimiterOfLine(d: string)
    requires '\n' !in d
    ensures NewDelimiter(DelimiterKeyword + d + "\n") == TrimSpace(d)
  {
    var line := DelimiterKeyword + d + "\n";
    assert ReplaceFirst(line, DelimiterKeyword, "") == d + "\n" by {
      assert line[..|DelimiterKeyword|] == DelimiterKeyword;
      IndexIs(line, DelimiterKeyword, 0);
      assert line[|DelimiterKeyword|..] == d + "\n";
    }
    RemoveCharConcat(d, "\n", '\n');
    RemoveCharAbsent(d, '\n');
    assert RemoveChar("\n", '\n') == "";
    assert d + "" == d;
  }

  datatype SplitResult = SplitResult(statements: seq<string>, complete: bool)

  /** The statements the loop cuts from the remaining text, and whether it finished without
      the "unexpected end of migration" error. */
  function Split(sql: string, delim: string, adv: Advance): SplitResult
    decreases |sql|
  {
    if sql == "" then SplitResult([], true)
    else match NextStep(sql, delim, adv)
      case Unterminated => SplitResult([], false)
      case Stop => SplitResult([], true)
      case Emit(stmt, rest) =>
        var r := Split(rest, delim, adv);
        SplitResult([stmt] + r.statements, r.complete)
      case ChangeDelimiter(d, rest) => Split(rest, d, adv)
  }

  /** A text in which neither the delimiter nor a directive occurs is unterminated. */
  lemma SplitUnterminated(sql: string, delim: string, adv: Advance)
    requires sql != "" && Index(sql, delim) == -1 && Index(sql, DelimiterKeyword) == -1
    ensures Split(sql, delim, adv) == SplitResult([], false)
  {
    NextStepBranches(sql, delim, adv);
  }

  /** A turn that cuts a statement puts it in front of the statements of the remainder. */
  lemma SplitEmit(sql: string, delim: string, adv: Advance)
    requires sql != "" && NextStep(sql, delim, adv).Emit?
    ensures var r := NextStep(sql, delim, adv);
      var s := Split(r.rest, delim, adv);
      Split(sql, delim, adv) == SplitResult([r.stmt] + s.statements, s.complete)
  {
  }

  /** Executing the statements of a text whose turn cuts a statement the database refuses
      stops at that statement. */
  lemma ExecRejected(accepts: Verdict, log: seq<string>, sql: string, delim: string, adv: Advance, name: string)
    requires sql != "" && NextStep(sql, delim, adv).Emit? && !accepts(log, NextStep(sql, delim, adv).stmt)
    ensures var s := Split(sql, delim, adv);
      ExecStatements(accepts, log, s.statements, s.complete, name) == (log, Some(StatementFailed(NextStep(sql, delim, adv).stmt)))
  {
    SplitEmit(sql, delim, adv);
  }

  /** Executing the statements of a text whose turn cuts a statement the database accepts
      executes it and goes on with the remainder. */
  lemma ExecAccepted(accepts: Verdict, log: seq<string>, sql: string, delim: string, adv: Advance, name: string)
    requires sql != "" && NextStep(sql, delim, adv).Emit? && accepts(log, NextStep(sql, delim, adv).stmt)
    ensures var r := NextStep(sql, delim, adv);
      var s, t := Split(sql, delim, adv), Split(r.rest, delim, adv);
      ExecStatements(accepts, log, s.statements, s.complete, name) ==
      ExecStatements(accepts, log + [r.stmt], t.statements, t.complete, name)
  {
    var r := NextStep(sql, delim, adv);
    var t := Split(r.rest, delim, adv);
    SplitEmit(sql, delim, adv);
    ExecFirst(accepts, log, r.stmt, t.statements, t.complete, name);
  }

  /** A turn that changes the delimiter goes on with the remainder under the new delimiter. */
  lemma SplitDirective(sql: string, delim: string, adv: Advance)
    requires sql != "" && NextStep(sql, delim, adv).ChangeDelimiter?
    ensures var r := NextStep(sql, delim, adv);
      Split(sql, delim, adv) == Split(r.rest, r.delim, adv)
  {
  }

  /** The script of a migration file: its contents trimmed, cut starting with delimiter ";". */
  function SplitScript(contents: string, adv: Advance): SplitResult {
    Split(TrimSpace(contents), ";", adv)
  }

  ghost predicate NoDirective(s: string) {
    forall k :: !OccursAt(s, DelimiterKeyword, k)
  }

  /** A slice of a string that has no occurrence of `sub` has none either. */
  lemma NoOccurrenceInSlice(s: string, sub: string, a: int, b: int)
    requires 0 <= a <= b <= |s| && forall k :: !OccursAt(s, sub, k)
    ensures forall k :: !OccursAt(s[a..b], sub, k)
  {
    forall k | 0 <= k && k + |sub| <= b - a ensures !OccursAt(s[a..b], sub, k) {
      assert !OccursAt(s, sub, a + k);
      assert s[a..b][k..k + |sub|] == s[a..b][k..][..|sub|];
      assert s[a..b][k..k + |sub|] == s[a + k..a + k + |sub|];
    }
  }

  /** Nor has a suffix of it. */
  lemma NoOccurrenceInSuffix(s: string, t: string, sub: string)
    requires forall k :: !OccursAt(s + t, sub, k)
    ensures forall k :: !OccursAt(t, sub, k)
  {
    NoOccurrenceInSlice(s + t, sub, |s|, |s + t|);
    assert (s + t)[|s|..|s + t|] == t;
  }

  lemma NoOccurrenceAfterTrim(s: string, sub: string, a: int)
    requires 0 <= a <= |s| && forall k :: !OccursAt(s, sub, k)
    ensures forall k :: !OccursAt(TrimSpace(s[a..]), sub, k)
  {
    var u := s[a..];
    assert sub != "" by {
      assert !OccursAt(s, sub, 0);
    }
    NoOccurrenceInSlice(s, sub, a, |s|);
    assert s[a..|s|] == u;
    TrimSpaceSpec(u);
    var r := TrimSpace(u);
    var l := LeadingSpace(u);
    if r != "" {
      NoOccurrenceInSlice(u, sub, l, l + |r|);
    }
  }

  /** Without directives, the delimiter ";" and no ";" left, the script is unterminated. */
  lemma SemicolonUnterminated(sql: string, adv: Advance)
    requires sql != "" && NoDirective(sql) && ';' !in sql
    ensures Split(sql, ";", adv) == SplitResult([], false)
  {
    IndexOfCharFacts(sql, ';');
    NextStepBranches(sql, ";", adv);
  }

  /** Without directives and with delimiter ";", a turn cuts up to and including the first ";". */
  lemma SemicolonCut(sql: string, adv: Advance)
    requires sql != "" && NoDirective(sql) && ';' in sql
    ensures var i := Index(sql, ";");
      && 0 <= i < |sql| && sql[i] == ';' && ';' !in sql[..i]
      && NextStep(sql, ";", adv) == Emit(sql[..i + 1], TrimSpace(sql[i + 1..]))
  {
    IndexOfCharFacts(sql, ';');
    var i := Index(sql, ";");
    assert Index(sql, DelimiterKeyword) == -1;
    assert NextStep(sql, ";", adv) == Cut(sql, ";", adv, i);
  }

  /** The remainder after such a turn is again trimmed and free of directives, and it ends as
      the script does. */
  lemma SemicolonTurn(sql: string, adv: Advance) returns (stmt: string, rest: string)
    requires sql != "" && Trimmed(sql) && NoDirective(sql) && ';' in sql
    ensures NextStep(sql, ";", adv) == Emit(stmt, rest)
    ensures stmt != "" && stmt[|stmt| - 1] == ';' && ';' !in stmt[..|stmt| - 1]
    ensures |rest| < |sql| && Trimmed(rest) && NoDirective(rest)
    ensures rest == "" ==> sql[|sql| - 1] == ';'
    ensures rest != "" ==> rest[|rest| - 1] == sql[|sql| - 1]
  {
    IndexOfCharFacts(sql, ';');
    var i := Index(sql, ";");
    var u := sql[i + 1..];
    stmt, rest := sql[..i + 1], TrimSpace(u);
    assert stmt[..|stmt| - 1] == sql[..i];
    assert NoDirective(rest) by {
      NoOccurrenceAfterTrim(sql, DelimiterKeyword, i + 1);
    }
    assert Trimmed(rest) by {
      TrimSpaceSpec(u);
    }
    assert i + 1 == |sql| || (rest != "" && rest[|rest| - 1] == sql[|sql| - 1]) by {
      if i + 1 < |sql| {
        assert u[|u| - 1] == sql[|sql| - 1];
        TrimSpaceKeepsLast(u);
      }
    }
    assert i + 1 == |sql| ==> rest == "" by {
      if i + 1 == |sql| {
        assert u == "";
      }
    }
    SemicolonCut(sql, adv);
  }

  /** Without directives and with delimiter ";", every statement ends with its one ";", and the
      script is complete exactly when it ends with ";". */
  lemma {:induction false} SemicolonStatements(sql: string, adv: Advance)
    requires Trimmed(sql) && NoDirective(sql)
    ensures forall s :: s in Split(sql, ";", adv).statements ==> s != "" && s[|s| - 1] == ';' && ';' !in s[..|s| - 1]
    ensures Split(sql, ";", adv).complete <==> sql == "" || sql[|sql| - 1] == ';'
    decreases |sql|
  {
    if sql != "" {
      if ';' in sql {
        var stmt, rest := SemicolonTurn(sql, adv);
        SemicolonStatements(rest, adv);
        SplitEmit(sql, ";", adv);
        var r := Split(rest, ";", adv);
        assert Split(sql, ";", adv) == SplitResult([stmt] + r.statements, r.complete);
        assert r.complete <==> sql[|sql| - 1] == ';';
      } else {
        SemicolonUnterminated(sql, adv);
        assert sql[|sql| - 1] in sql;
      }
    }
  }

  /** As written: after a statement ended by a delimiter of two or more characters, the
      remainder starts with the delimiter's characters after the first. */
  lemma OneCharacterKeepsDelimiterTail(sql: string, delim: string)
    requires sql != "" && |delim| >= 2 && Trimmed(delim) && !IsSpace(delim[1])
    requires NextStep(sql, delim, OneCharacter).Emit?
    ensures delim[1..] <= NextStep(sql, delim, OneCharacter).rest
  {
    NextStepEmit(sql, delim, OneCharacter);
    var i := Index(sql, delim);
    var u := sql[i + 1..];
    assert delim[1..] <= u by {
      assert sql[i..i + |delim|] == delim;
      assert u[..|delim| - 1] == delim[1..];
    }
    TrimSpaceKeepsPrefix(u, delim[1..]);
  }

  /** Corrected: after a statement the remainder is what follows the whole delimiter, trimmed,
      and the statement and the delimiter rebuild the text they were cut from. */
  lemma WholeDelimiterResumesAfterIt(sql: string, delim: string)
    requires sql != "" && delim != "" && delim != ";"
    requires NextStep(sql, delim, WholeDelimiter).Emit?
    ensures var r := NextStep(sql, delim, WholeDelimiter);
      && |r.stmt| + |delim| <= |sql|
      && sql == r.stmt + delim + sql[|r.stmt| + |delim|..]
      && r.rest == TrimSpace(sql[|r.stmt| + |delim|..])
      && forall k :: !OccursAt(r.stmt, delim, k)
  {
    NextStepIsCut(sql, delim, WholeDelimiter);
    IndexFirst(sql, delim);
    CutWholeDelimiter(sql, delim, Index(sql, delim));
  }

  lemma CutWholeDelimiter(sql: string, delim: string, i: nat)
    requires delim != "" && delim != ";" && OccursAt(sql, delim, i) && i < |sql|
    requires forall k :: 0 <= k < i ==> !OccursAt(sql, delim, k)
    ensures var r := Cut(sql, delim, WholeDelimiter, i);
      && |r.stmt| + |delim| <= |sql|
      && sql == r.stmt + delim + sql[|r.stmt| + |delim|..]
      && r.rest == TrimSpace(sql[|r.stmt| + |delim|..])
      && forall k :: !OccursAt(r.stmt, delim, k)
  {
    var stmt := sql[..i];
    assert Cut(sql, delim, WholeDelimiter, i) == Emit(stmt, TrimSpace(sql[i + |delim|..]));
    assert sql == stmt + delim + sql[i + |delim|..] by {
      assert sql[i..i + |delim|] == delim;
      assert sql == sql[..i] + sql[i..i + |delim|] + sql[i + |delim|..];
    }
    forall k | 0 <= k && k + |delim| <= i ensures !OccursAt(stmt, delim, k) {
      assert !OccursAt(sql, delim, k);
      assert stmt[k..k + |delim|] == sql[k..k + |delim|];
    }
  }

  /** The two splitters agree wherever the delimiter has at most one character. */
  lemma AdvanceAgreesOnShortDelimiters(sql: string, delim: string)
    requires sql != "" && |delim| <= 1
    ensures NextStep(sql, delim, OneCharacter) == NextStep(sql, delim, WholeDelimiter)
  {
    assert Skip(OneCharacter, delim) == Skip(WholeDelimiter, delim);
  }

  /** The script `delimiter D`, a line break, then a statement ended by `D`, where `D` has two
      or more characters. */
  ghost predicate DirectiveScriptArgs(d: string, stmt: string) {
    && |d| >= 2 && Trimmed(d) && '\n' !in d
    && stmt != "" && Trimmed(stmt)
    && Index(stmt + d, d) == |stmt|
    && NoDirective(stmt + d)
  }

  /** The common first turns of such a script: it is already trimmed, its head is the
      directive, and then the delimiter comes right after the statement. */
  lemma DirectiveScriptHead(d: string, stmt: string, adv: Advance)
    requires DirectiveScriptArgs(d, stmt)
    ensures SplitScript(DelimiterKeyword + d + "\n" + stmt + d, adv) == Split(stmt + d, d, adv)
  {
    var sql := DelimiterKeyword + d + "\n" + stmt + d;
    assert sql[0] == 'd';
    assert sql[|sql| - 1] == d[|d| - 1];
    TrimSpaceOfTrimmed(sql);
    assert TrimSpace(d) == d by {
      TrimSpaceOfTrimmed(d);
    }
    assert TrimSpace(stmt + d) == stmt + d by {
      assert (stmt + d)[0] == stmt[0] && (stmt + d)[|stmt + d| - 1] == d[|d| - 1];
      TrimSpaceOfTrimmed(stmt + d);
    }
    assert sql == DelimiterKeyword + d + "\n" + (stmt + d);
    DelimiterDirective(d, stmt + d, ";", adv);
  }

  /** After the directive, the statement is cut at the delimiter that ends it. */
  lemma DirectiveScriptCut(d: string, stmt: string, adv: Advance)
    requires DirectiveScriptArgs(d, stmt)
    ensures NextStep(stmt + d, d, adv) == Emit(stmt, TrimSpace(d[Skip(adv, d)..]))
  {
    var s := stmt + d;
    NextStepBranches(s, d, adv);
    assert Index(s, DelimiterKeyword) == -1;
    NextStepEmit(s, d, adv);
    assert s[..|stmt|] == stmt;
    assert s[|stmt| + Skip(adv, d)..] == d[Skip(adv, d)..];
  }

  /** What is left of a trimmed delimiter of two or more characters without its first
      character is unterminated under that delimiter. */
  lemma DelimiterTailUnterminated(d: string)
    requires |d| >= 2 && Trimmed(d) && NoDirective(d)
    ensures Split(TrimSpace(d[1..]), d, OneCharacter) == SplitResult([], false)
  {
    var tail := TrimSpace(d[1..]);
    assert tail != "" by {
      var u := d[1..];
      assert u[|u| - 1] == d[|d| - 1];
      TrimSpaceKeepsLast(u);
    }
    assert Index(tail, d) == -1 by {
      assert |tail| < |d|;
    }
    assert Index(tail, DelimiterKeyword) == -1 by {
      NoOccurrenceAfterTrim(d, DelimiterKeyword, 1);
    }
    SplitUnterminated(tail, d, OneCharacter);
  }

  /** As written, such a script fails with "unexpected end of migration" after executing its
      one statement: the remainder is the delimiter without its first character. */
  lemma OneCharacterRejectsDirectiveScript(d: string, stmt: string)
    requires DirectiveScriptArgs(d, stmt)
    ensures SplitScript(DelimiterKeyword + d + "\n" + stmt + d, OneCharacter) == SplitResult([stmt], false)
  {
    var sql := stmt + d;
    assert Split(sql, d, OneCharacter) == SplitResult([stmt], false) by {
      DirectiveScriptCut(d, stmt, OneCharacter);
      SplitEmit(sql, d, OneCharacter);
      NoOccurrenceInSuffix(stmt, d, DelimiterKeyword);
      DelimiterTailUnterminated(d);
    }
    DirectiveScriptHead(d, stmt, OneCharacter);
  }

  /** Corrected, the same script is one complete statement. */
  lemma WholeDelimiterAcceptsDirectiveScript(d: string, stmt: string)
    requires DirectiveScriptArgs(d, stmt)
    ensures SplitScript(DelimiterKeyword + d + "\n" + stmt + d, WholeDelimiter) == SplitResult([stmt], true)
  {
    var sql := stmt + d;
    assert Split(sql, d, WholeDelimiter) == SplitResult([stmt], true) by {
      DirectiveScriptCut(d, stmt, WholeDelimiter);
      SplitEmit(sql, d, WholeDelimiter);
      assert d[|d|..] == "";
    }
    DirectiveScriptHead(d, stmt, WholeDelimiter);
  }

  /** The smallest script of the finding: as written "delimiter $$", "A$$" runs "A" and then
      reports an unexpected end; resuming after the whole delimiter completes it. */
  lemma DollarScript()
    ensures SplitScript("delimiter $$\nA$$", OneCharacter) == SplitResult(["A"], false)
    ensures SplitScript("delimiter $$\nA$$", WholeDelimiter) == SplitResult(["A"], true)
  {
    var d, stmt := "$$", "A";
    assert OccursAt(stmt + d, d, 1) by {
      assert (stmt + d)[1..3] == d;
    }
    assert !OccursAt(stmt + d, d, 0) by {
      assert (stmt + d)[0] == 'A';
    }
    IndexIs(stmt + d, d, 1);
    assert DirectiveScriptArgs(d, stmt);
    assert DelimiterKeyword + d + "\n" + stmt + d == "delimiter $$\nA$$";
    OneCharacterRejectsDirectiveScript(d, stmt);
    WholeDelimiterAcceptsDirectiveScript(d, stmt);
  }

  // ---------------------------------------------------------------------------------------------
  // Running the migrations

  datatype MigrationError =
    | QueryFailed(migration: string)
    | ReadFileFailed(migration: string)
    | UnexpectedEndOfMigration(migration: string)
    | StatementFailed(stmt: string)

  /** `accepts(log, stmt)`: whether the database executes `stmt` without error after the
      statements of `log`. */
  type Verdict = (seq<string>, string) -> bool

  /** Executes a migration's statements in order, stopping at the first one the database
      rejects; a script whose split is incomplete then fails with "unexpected end of
      migration". Answers the new log of executed statements and the error. */
  function ExecStatements(accepts: Verdict, log: seq<string>, stmts: seq<string>, complete: bool, name: string)
    : (r: (seq<string>, Option<MigrationError>))
    decreases |stmts|
  {
    if stmts == [] then (log, if complete then None else Some(UnexpectedEndOfMigration(name)))
    else if !accepts(log, stmts[0]) then (log, Some(StatementFailed(stmts[0])))
    else ExecStatements(accepts, log + [stmts[0]], stmts[1..], complete, name)
  }

  /** Executing appends a prefix of the statements to the log, each accepted after the ones
      before it; no error means every statement ran and the script was complete, the
      unexpected-end error means every statement ran but the script was not, and a failed
      statement is the next one, which the database refused. */
  lemma {:induction false} ExecStatementsSpec(accepts: Verdict, log: seq<string>, stmts: seq<string>, complete: bool, name: string)
    ensures var r := ExecStatements(accepts, log, stmts, complete, name);
      && |log| <= |r.0| && r.0[..|log|] == log && r.0[|log|..] <= stmts
      && (forall j :: |log| <= j < |r.0| ==> accepts(r.0[..j], r.0[j]))
      && (r.1.None? <==> r.0[|log|..] == stmts && complete)
      && (r.1 == Some(UnexpectedEndOfMigration(name)) <==> r.0[|log|..] == stmts && !complete)
      && (r.1.Some? && r.1.value.StatementFailed? ==>
            && |r.0| - |log| < |stmts| && r.1.value.stmt == stmts[|r.0| - |log|] && !accepts(r.0, r.1.value.stmt))
    decreases |stmts|
  {
    if stmts != [] && accepts(log, stmts[0]) {
      var r := ExecStatements(accepts, log + [stmts[0]], stmts[1..], complete, name);
      ExecStatementsSpec(accepts, log + [stmts[0]], stmts[1..], complete, name);
      assert r.0[..|log| + 1][..|log|] == r.0[..|log|];
      assert r.0[|log|..] == [stmts[0]] + r.0[|log| + 1..];
      assert stmts == [stmts[0]] + stmts[1..];
      assert forall j :: |log| <= j < |log| + 1 ==> r.0[..j] == log && r.0[j] == stmts[0];
    }
  }

  /** A statement the database accepts runs first, and the rest follow. */
  lemma ExecFirst(accepts: Verdict, log: seq<string>, stmt: string, stmts: seq<string>, complete: bool, name: string)
    requires accepts(log, stmt)
    ensures ExecStatements(accepts, log, [stmt] + stmts, complete, name) ==
            ExecStatements(accepts, log + [stmt], stmts, complete, name)
  {
    assert ([stmt] + stmts)[1..] == stmts;
  }

  /** How one migration's script is run: from the log and the migration's name and contents,
      the new log and the error. */
  type ScriptRunner = (seq<string>, string, string) -> (seq<string>, Option<MigrationError>)

  /** The source's runner: cut the contents and execute the statements. */
  function Executor(accepts: Verdict, adv: Advance): ScriptRunner {
    (log: seq<string>, name: string, contents: string) =>
      var script := SplitScript(contents, adv);
      ExecStatements(accepts, log, script.statements, script.complete, name)
  }

  /** The names a clean run records, in order: each selected name not yet recorded, once. */
  function Pending(names: seq<string>, applied: seq<string>): (r: seq<string>)
    ensures forall x :: x in r <==> x in names && x !in applied
  {
    if names == [] then []
    else if names[0] in applied then Pending(names[1..], applied)
    else [names[0]] + Pending(names[1..], applied + [names[0]])
  }

  /** Lines 267-337 from the given migration on: look the name up in __Migrations, skip it if
      recorded, else run its script and record it once every statement has run. */
  function RunFrom(run: ScriptRunner, applied: seq<string>, log: seq<string>, names: seq<string>,
                   files: map<string, string>): (seq<string>, seq<string>, Option<MigrationError>)
    decreases |names|
  {
    if names == [] then (applied, log, None)
    else
      var name := names[0];
      var (recorded, err) := Scan(false, SrcBytes(BoolValue(name in applied)));
      if err.Some? then (applied, log, Some(QueryFailed(name)))
      else if recorded then RunFrom(run, applied, log, names[1..], files)
      else if name !in files then (applied, log, Some(ReadFileFailed(name)))
      else
        var (log1, serr) := run(log, name, files[name]);
        if serr.Some? then (applied, log1, serr)
        else RunFrom(run, applied + [name], log1, names[1..], files)
  }

  /** A turn on a recorded migration moves on to the next one. */
  lemma RunFromRecorded(run: ScriptRunner, applied: seq<string>, log: seq<string>, names: seq<string>,
                        files: map<string, string>)
    requires names != [] && names[0] in applied
    ensures RunFrom(run, applied, log, names, files) == RunFrom(run, applied, log, names[1..], files)
  {
    ScanValue(true, false, []);
  }

  /** A turn on a migration that is neither recorded nor readable stops with the read error. */
  lemma RunFromUnreadable(run: ScriptRunner, applied: seq<string>, log: seq<string>, names: seq<string>,
                          files: map<string, string>)
    requires names != [] && names[0] !in applied && names[0] !in files
    ensures RunFrom(run, applied, log, names, files) == (applied, log, Some(ReadFileFailed(names[0])))
  {
    ScanValue(false, false, []);
  }

  /** A turn on a readable migration that is not recorded runs its script, then stops with the
      script's error or records the migration and moves on. */
  lemma RunFromRuns(run: ScriptRunner, applied: seq<string>, log: seq<string>, names: seq<string>,
                    files: map<string, string>)
    requires names != [] && names[0] !in applied && names[0] in files
    ensures var (log1, serr) := run(log, names[0], files[names[0]]);
      RunFrom(run, applied, log, names, files) ==
      if serr.Some? then (applied, log1, serr) else RunFrom(run, applied + [names[0]], log1, names[1..], files)
  {
    ScanValue(false, false, []);
  }

  /** The table only grows, by a prefix of the pending names; a clean run records all of them.
      So a migration is recorded only after its script has run without error, and a recorded
      migration is never run again. */
  lemma {:induction false} RunFromRecords(run: ScriptRunner, applied: seq<string>, log: seq<string>,
                                          names: seq<string>, files: map<string, string>)
    ensures var (applied1, log1, err) := RunFrom(run, applied, log, names, files);
      && |applied| <= |applied1| && applied1[..|applied|] == applied
      && applied1[|applied|..] <= Pending(names, applied)
      && (err.None? ==> applied1 == applied + Pending(names, applied))
    decreases |names|
  {
    if names != [] {
      var name, rest := names[0], names[1..];
      if name in applied {
        RunFromRecorded(run, applied, log, names, files);
        RunFromRecords(run, applied, log, rest, files);
      } else if name !in files {
        RunFromUnreadable(run, applied, log, names, files);
      } else {
        RunFromRuns(run, applied, log, names, files);
        var (log1, serr) := run(log, name, files[name]);
        if serr.None? {
          var next := applied + [name];
          RunFromRecords(run, next, log1, rest, files);
          var applied1 := RunFrom(run, next, log1, rest, files).0;
          assert Pending(names, applied) == [name] + Pending(rest, next);
          assert applied1[..|applied|] == applied1[..|next|][..|applied|];
          assert applied1[|applied|..] == [name] + applied1[|next|..];
        }
      }
    }
  }

  /** With every selected migration recorded, a run executes nothing and changes nothing. */
  lemma {:induction false} RunFromAllApplied(run: ScriptRunner, applied: seq<string>, log: seq<string>,
                                             names: seq<string>, files: map<string, string>)
    requires forall x :: x in names ==> x in applied
    ensures RunFrom(run, applied, log, names, files) == (applied, log, None)
    decreases |names|
  {
    if names != [] {
      ScanValue(true, false, []);
      assert names[0] in applied;
      RunFromAllApplied(run, applied, log, names[1..], files);
    }
  }

  /** Running the migrations again after a clean run executes nothing and records nothing. */
  lemma RunTwice(run: ScriptRunner, applied: seq<string>, log: seq<string>,
                 names: seq<string>, files: map<string, string>)
    requires RunFrom(run, applied, log, names, files).2.None?
    ensures var (applied1, log1, _) := RunFrom(run, applied, log, names, files);
      RunFrom(run, applied1, log1, names, files) == (applied1, log1, None)
  {
    RunFromRecords(run, applied, log, names, files);
    var (applied1, log1, _) := RunFrom(run, applied, log, names, files);
    forall x | x in names ensures x in applied1 {
      if x !in applied {
        assert x in Pending(names, applied);
      }
    }
    RunFromAllApplied(run, applied1, log1, names, files);
  }

  /** The database side of runMigrations. */
  class MigrationDb {
    var migrations: seq<string>
    /** The names in __Migrations, in the order they were inserted. */
    var applied: seq<string>
    /** The statements executed, in order. */
    var log: seq<string>
    const accepts: Verdict
    /** How the splitter resumes after a delimiter: OneCharacter is the source's behaviour. */
    const advance: Advance

    constructor (applied: seq<string>, accepts: Verdict, advance: Advance)
      ensures this.migrations == [] && this.applied == applied && this.log == []
      ensures this.accepts == accepts && this.advance == advance
    {
      this.migrations := [];
      this.applied := applied;
      this.log := [];
      this.accepts := accepts;
      this.advance := advance;
    }

    /** Lines 256-265. */
    method SelectMigrations(dir: seq<FileInfo>)
      modifies this`migrations
      ensures migrations == Selected(dir)
    {
      migrations := [];
      var k := 0;
      while k < |dir|
        invariant 0 <= k <= |dir|
        invariant migrations == MigrationFiles(dir[..k])
      {
        var f := dir[k];
        assert dir[..k + 1][..k] == dir[..k];
        if !(f.isDir || ToLower(Ext(f.name)) != ".sql") {
          migrations := migrations + [f.name];
        }
        k := k + 1;
      }
      assert dir[..|dir|] == dir;
      migrations := SortStrings(migrations);
    }

    /** Lines 283-331: cut the script and execute each statement as it is cut. */
    method ExecScript(name: string, contents: string) returns (err: Option<MigrationError>)
      modifies this`log
      ensures (log, err) == Executor(accepts, advance)(old(log), name, contents)
    {
      var sql := TrimSpace(contents);
      var delim := ";";
      ghost var script := SplitScript(contents, advance);
      ghost var goal := ExecStatements(accepts, log, script.statements, script.complete, name);
      while sql != ""
        invariant var s := Split(sql, delim, advance);
          ExecStatements(accepts, log, s.statements, s.complete, name) == goal
        decreases |sql|
      {
        var step := NextStep(sql, delim, advance);
        match step
        case Unterminated =>
          return Some(UnexpectedEndOfMigration(name));
        case Stop =>
          break;
        case Emit(stmt, rest) =>
          if !accepts(log, stmt) {
            ExecRejected(accepts, log, sql, delim, advance, name);
            return Some(StatementFailed(stmt));
          }
          ExecAccepted(accepts, log, sql, delim, advance, name);
          log := log + [stmt];
          sql := rest;
        case ChangeDelimiter(d, rest) =>
          SplitDirective(sql, delim, advance);
          delim, sql := d, rest;
      }
      err := None;
    }

    /** runMigrations from line 256 on, with the directory listing and the files' contents. */
    method RunMigrations(dir: seq<FileInfo>, files: map<string, string>) returns (err: Option<MigrationError>)
      modifies this
      ensures migrations == Selected(dir)
      ensures (applied, log, err) == RunFrom(Executor(accepts, advance), old(applied), old(log), migrations, files)
    {
      SelectMigrations(dir);
      err := ApplyMigrations(files);
    }

    /** Lines 267-337: each selected migration in turn, skipped when recorded, otherwise read,
        executed and recorded. */
    method ApplyMigrations(files: map<string, string>) returns (err: Option<MigrationError>)
      modifies this`applied, this`log
      ensures (applied, log, err) == RunFrom(Executor(accepts, advance), old(applied), old(log), migrations, files)
    {
      var k := 0;
      while k < |migrations|
        invariant 0 <= k <= |migrations|
        invariant RunFrom(Executor(accepts, advance), applied, log, migrations[k..], files) ==
                  RunFrom(Executor(accepts, advance), old(applied), old(log), migrations, files)
      {
        var migration := migrations[k];
        ghost var names := migrations[k..];
        assert names[0] == migration && names[1..] == migrations[k + 1..];
        var scanned := Scan(false, SrcBytes(BoolValue(migration in applied)));
        ScanValue(migration in applied, false, []);
        var recorded, scanErr := scanned.0, scanned.1;
        if scanErr.Some? {
          return Some(QueryFailed(migration));
        }
        if recorded {
          RunFromRecorded(Executor(accepts, advance), applied, log, names, files);
          k := k + 1;
          continue;
        }
        if migration !in files {
          RunFromUnreadable(Executor(accepts, advance), applied, log, names, files);
          return Some(ReadFileFailed(migration));
        }
        RunFromRuns(Executor(accepts, advance), applied, log, names, files);
        var e := ExecScript(migration, files[migration]);
        if e.Some? {
          return e;
        }
        applied := applied + [migration];
        k := k + 1;
      }
      err := None;
    }
  }
}
