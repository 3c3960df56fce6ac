/** The import synthesiser (src/Importer.ts): formatting an import
    statement, choosing the module specifier, and deciding whether to merge
    a symbol into an existing import or to insert a new one. Editor
    positions are given as the line of each scanned statement; the edit is
    returned instead of applied. */
module Importer {
  import opened Wrappers
  import opened Text
  import opened Symbols
  import opened FileExtensions
  import opened Captures

  /** The formatting and resolution settings (src/Importer.ts:18-22) and
      the importer's `emitSemicolon` flag. */
  datatype Settings = Settings(spacesBetweenBraces: bool, doubleQuotes: bool, preferRelative: bool, emitSemicolon: bool)

  /** The settings' values when the user has set none; `emitSemicolon` is
      not a setting of the importer and is left to the caller. */
  function DefaultSettings(emitSemicolon: bool): Settings {
    Settings(true, false, false, emitSemicolon)
  }

  /** `createImportDefinition(definitions, skipBrakets)`
      (src/Importer.ts:79-94): the bindings as they are, or in braces, with
      a space inside each brace iff `spacesBetweenBraces`. */
  function CreateImportDefinition(st: Settings, definitions: string, skipBrackets: bool): (r: string)
    ensures skipBrackets ==> r == definitions
    ensures !skipBrackets ==> |r| >= 2 && r[0] == '{' && r[|r| - 1] == '}'
    ensures !skipBrackets ==> |r| == |definitions| + (if st.spacesBetweenBraces then 4 else 2)
    ensures !skipBrackets ==> r[1..|r| - 1] == if st.spacesBetweenBraces then " " + definitions + " " else definitions
  {
    if skipBrackets then definitions
    else
      var pad := if st.spacesBetweenBraces then " " else "";
      "{" + pad + definitions + pad + "}"
  }

  /** What the import pattern's group 2 reads back from a definition:
      braces dropped, then the whitespace next to them. */
  function ReadDefinition(def: string): string {
    if |def| >= 2 && def[0] == '{' && def[|def| - 1] == '}' then Trim(def[1..|def| - 1]) else Trim(def)
  }

  /** A trimmed binding list survives formatting, braces or not. */
  lemma DefinitionRoundTrip(st: Settings, definitions: string, skipBrackets: bool)
    requires IsTrimmed(definitions)
    requires skipBrackets ==> |definitions| < 2 || definitions[0] != '{' || definitions[|definitions| - 1] != '}'
    ensures ReadDefinition(CreateImportDefinition(st, definitions, skipBrackets)) == definitions
  {
    TrimmedFixed(definitions);
    var r := CreateImportDefinition(st, definitions, skipBrackets);
    if !skipBrackets {
      if st.spacesBetweenBraces {
        assert r[1..|r| - 1] == " " + definitions + " ";
        TrimPadded(definitions);
      } else {
        assert r[1..|r| - 1] == definitions;
      }
    }
  }

  lemma TrimPadded(d: string)
    requires IsTrimmed(d)
    ensures Trim(" " + d + " ") == d
  {
    var s := " " + d + " ";
    TrimmedFixed(d);
    assert s[1..] == d + " ";
    assert TrimStart(s) == TrimStart(d + " ") by {
      assert LeadCount(s) == 1 + LeadCount(s[1..]);
    }
    TrimEndOne(d);
    if |d| > 0 {
      assert (d + " ")[0] == d[0];
      assert LeadCount(d + " ") == 0;
      assert TrimStart(d + " ") == d + " ";
    } else {
      assert d + " " == " ";
      assert LeadCount(" ") == 1;
    }
  }

  lemma TrimEndOne(d: string)
    requires IsTrimmed(d)
    ensures TrimEnd(d + " ") == d
  {
    var s := d + " ";
    assert s[..|s| - 1] == d;
    TrimmedFixed(d);
    assert KeepCount(s) == KeepCount(d);
  }

  /** The quote characters a specifier may be written between. */
  predicate IsQuote(c: char) {
    c == '"' || c == '\''
  }

  /** `createImportStatement(definition, module, endline)`
      (src/Importer.ts:96-103). */
  function CreateImportStatement(st: Settings, definition: string, moduleName: string, endline: bool): (r: string)
    ensures StartsWith(r, "import " + definition + " from " + [Quote(st)])
    ensures EndsWith(r, [Quote(st)] + (if st.emitSemicolon then ";" else "") + (if endline then "\n" else ""))
    ensures |r| == |"import " + definition + " from "| + |moduleName| + 2
                   + (if st.emitSemicolon then 1 else 0) + (if endline then 1 else 0)
    ensures r[|"import " + definition + " from "| + 1..|"import " + definition + " from "| + 1 + |moduleName|] == moduleName
  {
    var head := "import " + definition + " from " + [Quote(st)];
    var tail := [Quote(st)] + (if st.emitSemicolon then ";" else "") + (if endline then "\n" else "");
    var r := head + moduleName + tail;
    assert r[..|head|] == head;
    assert r[|r| - |tail|..] == tail;
    assert r[|head|..|head| + |moduleName|] == moduleName;
    r
  }

  /** The quote character: double iff `doubleQuotes`. */
  function Quote(st: Settings): char {
    if st.doubleQuotes then '"' else '\''
  }

  /** Length of the quote-free run at the end of `s`. */
  function QuoteFreeRun(s: string): (n: nat)
    ensures n <= |s|
    ensures n < |s| ==> IsQuote(s[|s| - n - 1])
    decreases |s|
  {
    if |s| > 0 && !IsQuote(s[|s| - 1]) then 1 + QuoteFreeRun(s[..|s| - 1]) else 0
  }

  /** A statement without its final newline and then its semicolon. */
  function StripTail(stmt: string): string {
    var t1 := if EndsWith(stmt, "\n") then stmt[..|stmt| - 1] else stmt;
    if EndsWith(t1, ";") then t1[..|t1| - 1] else t1
  }

  /** The specifier the import pattern's `['"]([^"']+)["']` reads at the end
      of a statement, once a final newline and semicolon are set aside. */
  function ReadSpecifier(stmt: string): Option<string> {
    ReadQuoted(StripTail(stmt))
  }

  /** The non-empty quote-free text between the last two quotes that end
      `t`. */
  function ReadQuoted(t: string): Option<string> {
    if |t| < 2 || !IsQuote(t[|t| - 1]) then None
    else
      var inner := t[..|t| - 1];
      var n := QuoteFreeRun(inner);
      if n == 0 || n == |inner| then None else Some(inner[|inner| - n..])
  }

  lemma {:induction false} QuoteFreeRunAfterQuote(a: string, m: string)
    requires |a| > 0 && IsQuote(a[|a| - 1])
    requires forall j | 0 <= j < |m| :: !IsQuote(m[j])
    ensures QuoteFreeRun(a + m) == |m|
    decreases |m|
  {
    var s := a + m;
    if |m| > 0 {
      assert s[..|s| - 1] == a + m[..|m| - 1];
      assert s[|s| - 1] == m[|m| - 1];
      QuoteFreeRunAfterQuote(a, m[..|m| - 1]);
    }
  }

  lemma StripTailOf(t: string, semicolon: bool, newline: bool)
    requires |t| > 0 && IsQuote(t[|t| - 1])
    ensures StripTail(t + (if semicolon then ";" else "") + (if newline then "\n" else "")) == t
  {
    var semi := if semicolon then ";" else "";
    var t1 := t + semi;
    var stmt := t1 + (if newline then "\n" else "");
    if newline {
      assert stmt[..|stmt| - 1] == t1;
    } else {
      assert stmt == t1;
    }
    if semicolon {
      assert t1[..|t1| - 1] == t;
    } else {
      assert t1 == t;
    }
  }

  lemma ReadQuotedOf(head: string, m: string, q: char)
    requires |head| > 0 && IsQuote(head[|head| - 1]) && IsQuote(q) && |m| > 0
    requires forall j | 0 <= j < |m| :: !IsQuote(m[j])
    ensures ReadQuoted(head + m + [q]) == Some(m)
  {
    var t := head + m + [q];
    assert t[..|t| - 1] == head + m;
    QuoteFreeRunAfterQuote(head, m);
    assert (head + m)[|head|..] == m;
  }

  /** The statement written for a module reads back as that module. */
  lemma StatementRoundTrip(st: Settings, definition: string, moduleName: string, endline: bool)
    requires |moduleName| > 0
    requires forall j | 0 <= j < |moduleName| :: !IsQuote(moduleName[j])
    ensures ReadSpecifier(CreateImportStatement(st, definition, moduleName, endline)) == Some(moduleName)
  {
    var q := [Quote(st)];
    var head := "import " + definition + " from " + q;
    var t := head + moduleName + q;
    assert CreateImportStatement(st, definition, moduleName, endline)
      == t + (if st.emitSemicolon then ";" else "") + (if endline then "\n" else "");
    StripTailOf(t, st.emitSemicolon, endline);
    ReadQuotedOf(head, moduleName, Quote(st));
  }

  /** The path separators `[\\/]` matches. */
  const Separators: set<char> := {'/', '\\'}

  /** `resolveRelativeModule` (src/Importer.ts:121-133) given `parts`, the
      output of `path.relative` from the document's directory to the
      symbol's file split at the separators (never empty): `.` put in front
      unless the first segment is `.` or `..`, the extension stripped from
      the last segment, joined with `/`. */
  function RelativeModule(exts: seq<string>, parts: seq<string>): string
    requires |parts| >= 1
  {
    Join("/", Segments(exts, parts))
  }

  /** The segments `resolveRelativeModule` joins, from the segments of the
      relative path. */
  function Segments(exts: seq<string>, parts: seq<string>): seq<string>
    requires |parts| >= 1
  {
    Anchored(parts, RemoveFileExtension(exts, parts[|parts| - 1]))
  }

  /** `parts` with `.` put in front unless it starts with `.` or `..`, and
      its last segment replaced by `last`. */
  function Anchored(parts: seq<string>, last: string): seq<string>
    requires |parts| >= 1
  {
    var anchored := if parts[0] != "." && parts[0] != ".." then ["."] + parts else parts;
    anchored[|anchored| - 1 := last]
  }

  lemma AnchoredShape(parts: seq<string>, last: string)
    requires |parts| >= 1
    ensures var segs := Anchored(parts, last);
      var added := if parts[0] != "." && parts[0] != ".." then 1 else 0;
      && |segs| == |parts| + added
      && (|segs| >= 2 ==> segs[0] == "." || segs[0] == "..")
      && (added == 1 ==> segs[0] == ".")
      && (forall i | 0 <= i < |parts| - 1 :: segs[i + added] == parts[i])
      && segs[|segs| - 1] == last
  {
    var segs := Anchored(parts, last);
    if parts[0] != "." && parts[0] != ".." {
      var anchored := ["."] + parts;
      assert segs[0] == anchored[0];
      forall i | 0 <= i < |parts| - 1 ensures segs[i + 1] == parts[i] {
        assert segs[i + 1] == anchored[i + 1];
      }
    }
  }

  /** The segments of the relative module: `.` or `..` first, then the
      segments of the path in order (after an added `.` when it does not
      start with one), only the last one with its extension stripped. */
  lemma RelativeModuleSegments(exts: seq<string>, parts: seq<string>)
    requires |parts| >= 1
    requires forall x | x in parts :: '/' !in x
    ensures var segs := Split(RelativeModule(exts, parts), {'/'});
      var added := if parts[0] != "." && parts[0] != ".." then 1 else 0;
      && |segs| == |parts| + added
      && (|segs| >= 2 ==> segs[0] == "." || segs[0] == "..")
      && (added == 1 ==> segs[0] == ".")
      && (forall i | 0 <= i < |parts| - 1 :: segs[i + added] == parts[i])
      && segs[|segs| - 1] + LastSuffix(exts, parts[|parts| - 1]) == parts[|parts| - 1]
  {
    SegmentsSplit(exts, parts);
    SegmentsShape(exts, parts);
  }

  lemma SegmentsShape(exts: seq<string>, parts: seq<string>)
    requires |parts| >= 1
    ensures var segs := Segments(exts, parts);
      var added := if parts[0] != "." && parts[0] != ".." then 1 else 0;
      && |segs| == |parts| + added
      && (|segs| >= 2 ==> segs[0] == "." || segs[0] == "..")
      && (added == 1 ==> segs[0] == ".")
      && (forall i | 0 <= i < |parts| - 1 :: segs[i + added] == parts[i])
      && segs[|segs| - 1] + LastSuffix(exts, parts[|parts| - 1]) == parts[|parts| - 1]
  {
    var p := parts[|parts| - 1];
    LastSuffixStrips(exts, p);
    AnchoredShape(parts, RemoveFileExtension(exts, p));
  }

  /** Splitting the joined segments at `/` gives them back. */
  lemma SegmentsSplit(exts: seq<string>, parts: seq<string>)
    requires |parts| >= 1
    requires forall x | x in parts :: '/' !in x
    ensures Split(Join("/", Segments(exts, parts)), {'/'}) == Segments(exts, parts)
  {
    var p := parts[|parts| - 1];
    StrippedSlashFree(exts, p);
    AnchoredSplit(parts, RemoveFileExtension(exts, p));
  }

  lemma AnchoredSplit(parts: seq<string>, last: string)
    requires |parts| >= 1
    requires forall x | x in parts :: '/' !in x
    requires '/' !in last
    ensures Split(Join("/", Anchored(parts, last)), {'/'}) == Anchored(parts, last)
  {
    AnchoredMembers(parts, last);
    var segs := Anchored(parts, last);
    forall i, j | 0 <= i < |segs| && 0 <= j < |segs[i]| ensures segs[i][j] !in {'/'} {
      assert segs[i] in segs;
      assert segs[i][j] in segs[i];
    }
    SplitJoin(segs, {'/'}, '/');
    assert [('/')] == "/";
  }

  /** The segments a path splits into hold no separator. */
  lemma SlashFreeParts(rel: string)
    ensures forall x | x in Split(rel, Separators) :: '/' !in x
  {
    var parts := Split(rel, Separators);
    SplitAvoids(rel, Separators);
    forall x | x in parts ensures '/' !in x {
      var i :| 0 <= i < |parts| && parts[i] == x;
      assert forall j | 0 <= j < |x| :: x[j] == parts[i][j];
    }
  }

  lemma StrippedSlashFree(exts: seq<string>, p: string)
    requires '/' !in p
    ensures '/' !in RemoveFileExtension(exts, p)
  {
    var stripped := RemoveFileExtension(exts, p);
    LastSuffixStrips(exts, p);
    assert forall j | 0 <= j < |stripped| :: stripped[j] == p[j];
  }

  /** Every segment is `.`, a segment of `parts` or `last`. */
  lemma AnchoredMembers(parts: seq<string>, last: string)
    requires |parts| >= 1
    ensures forall x | x in Anchored(parts, last) :: x == "." || x in parts || x == last
  {
    var anchored := if parts[0] != "." && parts[0] != ".." then ["."] + parts else parts;
    var segs := Anchored(parts, last);
    forall x | x in segs ensures x == "." || x in parts || x == last {
      var i :| 0 <= i < |segs| && segs[i] == x;
      if i < |segs| - 1 {
        assert x == anchored[i];
      }
    }
  }

  /** The suffix `removeFileExtension` cuts off: the first matching entry,
      or nothing. */
  function LastSuffix(exts: seq<string>, fileName: string): (r: string)
    decreases |exts|
  {
    if |exts| == 0 then ""
    else if EndsWith(fileName, exts[0]) then exts[0]
    else LastSuffix(exts[1..], fileName)
  }

  lemma {:induction false} LastSuffixStrips(exts: seq<string>, fileName: string)
    ensures RemoveFileExtension(exts, fileName) + LastSuffix(exts, fileName) == fileName
    decreases |exts|
  {
    if |exts| == 0 {
      assert fileName + "" == fileName;
    } else if EndsWith(fileName, exts[0]) {
      assert IsFirstSuffix(exts, fileName, 0);
    } else {
      LastSuffixStrips(exts[1..], fileName);
    }
  }

  /** The relative form of a symbol's module: `path.relative` (the
      parameter `relative`, from the document's directory) fails on a symbol
      with no path. */
  function RelativeFor(exts: seq<string>, sym: Symbol, relative: string -> string): Result<string, string> {
    if sym.path.None? then Failure("path must be a string")
    else Success(RelativeModule(exts, Split(relative(sym.path.value), Separators)))
  }

  /** `resolveModule(document, symbol)` (src/Importer.ts:105-119): the
      symbol's module when it has one, except that with `preferRelative` the
      relative form wins when it is no longer; the relative form when the
      symbol has no module. */
  function ResolveModule(st: Settings, exts: seq<string>, sym: Symbol, relative: string -> string): (r: Result<string, string>)
    ensures !Truthy(sym.moduleName) ==> r == RelativeFor(exts, sym, relative)
    ensures Truthy(sym.moduleName) && !st.preferRelative ==> r == Success(sym.moduleName.value)
    ensures Truthy(sym.moduleName) && st.preferRelative ==>
      var rel := RelativeFor(exts, sym, relative);
      && (rel.Failure? ==> r.Failure?)
      && (rel.Success? ==>
           && r.Success?
           && (r.value == rel.value || r.value == sym.moduleName.value)
           && |r.value| <= |rel.value| && |r.value| <= |sym.moduleName.value|
           && (|rel.value| == |sym.moduleName.value| ==> r.value == rel.value))
  {
    if Truthy(sym.moduleName) then
      if st.preferRelative then
        match RelativeFor(exts, sym, relative)
        case Failure(e) => Failure(e)
        case Success(rel) => if |rel| <= |sym.moduleName.value| then Success(rel) else Success(sym.moduleName.value)
      else Success(sym.moduleName.value)
    else RelativeFor(exts, sym, relative)
  }

  /** One import statement already in the document: its captures and the
      line `positionAt(indexOf(text))` gives it, which is the line of the
      first occurrence of the same text. */
  datatype ImportStatement = ImportStatement(capture: ImportMatch, line: nat)

  /** The edit `importSymbol` applies: replace the text of statement
      `statement` (its position among the scanned statements) found on
      `line`, or insert at column 0 of `line`. */
  datatype Edit = Replace(statement: nat, line: nat, text: string) | Insert(line: nat, text: string)

  /** The name the symbol is imported under: its `* as X` text if it has
      one, otherwise its name. */
  function EffectiveName(sym: Symbol): string {
    if Truthy(sym.asDefinition) then sym.asDefinition.value else sym.name
  }

  /** The bindings with `name` appended unless already present
      (src/Importer.ts:46-51). */
  function Merged(bindings: seq<string>, name: string): (r: seq<string>)
    ensures name in r
    ensures |r| == |bindings| + (if name in bindings then 0 else 1)
    ensures r[..|bindings|] == bindings
  {
    if name in bindings then bindings else bindings + [name]
  }

  /** Merging a name twice is merging it once. */
  lemma MergedIdempotent(bindings: seq<string>, name: string)
    ensures Merged(Merged(bindings, name), name) == Merged(bindings, name)
  {
  }

  /** A statement the symbol may be merged into: same specifier, same
      default-ness (src/Importer.ts:42-44). */
  predicate IsCandidate(m: ImportMatch, moduleName: string, sym: Symbol) {
    m.specifier == moduleName && sym.isDefault == IsDefaultImport(m)
  }

  /** A candidate that binds names and is not skipped: the merge is kept
      unless either side is a default import and the merged list has more
      than one entry (src/Importer.ts:53-54). */
  predicate Accepted(m: ImportMatch, moduleName: string, sym: Symbol) {
    && IsCandidate(m, moduleName, sym)
    && m.bindings.Some?
    && !((sym.isDefault || IsDefaultImport(m)) && |Merged(SplitList(m.bindings.value), EffectiveName(sym))| > 1)
  }

  /** The first accepted statement from position `k` on. */
  function FirstAccepted(stmts: seq<ImportStatement>, moduleName: string, sym: Symbol, k: nat): (r: Option<nat>)
    requires k <= |stmts|
    ensures r.Some? ==> k <= r.value < |stmts| && Accepted(stmts[r.value].capture, moduleName, sym)
    ensures r.Some? ==> forall j | k <= j < r.value :: !Accepted(stmts[j].capture, moduleName, sym)
    ensures r.None? ==> forall j | k <= j < |stmts| :: !Accepted(stmts[j].capture, moduleName, sym)
    decreases |stmts| - k
  {
    if k == |stmts| then None
    else if Accepted(stmts[k].capture, moduleName, sym) then Some(k)
    else FirstAccepted(stmts, moduleName, sym, k + 1)
  }

  /** The statement that replaces an accepted one: its merged bindings,
      braced unless it is a default import, no newline. */
  function ReplaceText(st: Settings, m: ImportMatch, moduleName: string, sym: Symbol): string
    requires m.bindings.Some?
  {
    var merged := Merged(SplitList(m.bindings.value), EffectiveName(sym));
    CreateImportStatement(st, CreateImportDefinition(st, Join(ListSeparator, merged), IsDefaultImport(m)), moduleName, false)
  }

  /** The statement inserted when nothing is accepted: the symbol's name,
      braced unless it is a default, ending with a newline. */
  function InsertText(st: Settings, moduleName: string, sym: Symbol): string {
    CreateImportStatement(st, CreateImportDefinition(st, EffectiveName(sym), sym.isDefault), moduleName, true)
  }

  /** The line after the last scanned statement, or 0 with none. */
  function InsertLine(stmts: seq<ImportStatement>): nat {
    if |stmts| == 0 then 0 else stmts[|stmts| - 1].line + 1
  }

  /** The edit `importSymbol` makes (src/Importer.ts:24-77), with
      statements that bind nothing never taken as merge targets: the first
      accepted statement is replaced by its merged form; with none, a new
      statement goes after the last one. */
  function ImportSymbol(st: Settings, stmts: seq<ImportStatement>, moduleName: string, sym: Symbol): (r: Edit)
    ensures r.Replace? ==>
      && r.statement < |stmts|
      && Accepted(stmts[r.statement].capture, moduleName, sym)
      && (forall j | 0 <= j < r.statement :: !Accepted(stmts[j].capture, moduleName, sym))
      && r.line == stmts[r.statement].line
      && r.text == ReplaceText(st, stmts[r.statement].capture, moduleName, sym)
    ensures r.Insert? <==> forall j | 0 <= j < |stmts| :: !Accepted(stmts[j].capture, moduleName, sym)
    ensures r.Insert? ==> r.line == InsertLine(stmts) && r.text == InsertText(st, moduleName, sym)
  {
    match FirstAccepted(stmts, moduleName, sym, 0)
    case Some(i) => Replace(i, stmts[i].line, ReplaceText(st, stmts[i].capture, moduleName, sym))
    case None => Insert(InsertLine(stmts), InsertText(st, moduleName, sym))
  }

  /** The scan as written: a candidate with no bindings group (a
      side-effect import such as `import "x"`) makes `matches[2].split`
      throw. */
  function ScanAsWritten(stmts: seq<ImportStatement>, moduleName: string, sym: Symbol, k: nat): (r: Result<Option<nat>, string>)
    requires k <= |stmts|
    ensures r.Success? && r.value.Some? ==> k <= r.value.value < |stmts| && Accepted(stmts[r.value.value].capture, moduleName, sym)
    decreases |stmts| - k
  {
    if k == |stmts| then Success(None)
    else
      var m := stmts[k].capture;
      if IsCandidate(m, moduleName, sym) && m.bindings.None? then Failure("TypeError: matches[2] is undefined")
      else if Accepted(m, moduleName, sym) then Success(Some(k))
      else ScanAsWritten(stmts, moduleName, sym, k + 1)
  }

  /** `importSymbol` as written: fails where the scan throws. */
  function ImportSymbolAsWritten(st: Settings, stmts: seq<ImportStatement>, moduleName: string, sym: Symbol): Result<Edit, string> {
    match ScanAsWritten(stmts, moduleName, sym, 0)
    case Failure(e) => Failure(e)
    case Success(Some(i)) => Success(Replace(i, stmts[i].line, ReplaceText(st, stmts[i].capture, moduleName, sym)))
    case Success(None) => Success(Insert(InsertLine(stmts), InsertText(st, moduleName, sym)))
  }

  /** Without a side-effect import among the candidates, the code as
      written and the corrected decision agree. */
  lemma AsWrittenAgrees(st: Settings, stmts: seq<ImportStatement>, moduleName: string, sym: Symbol)
    requires forall j | 0 <= j < |stmts| :: IsCandidate(stmts[j].capture, moduleName, sym) ==> stmts[j].capture.bindings.Some?
    ensures ImportSymbolAsWritten(st, stmts, moduleName, sym) == Success(ImportSymbol(st, stmts, moduleName, sym))
  {
    ScanAgrees(stmts, moduleName, sym, 0);
  }

  lemma {:induction false} ScanAgrees(stmts: seq<ImportStatement>, moduleName: string, sym: Symbol, k: nat)
    requires k <= |stmts|
    requires forall j | k <= j < |stmts| :: IsCandidate(stmts[j].capture, moduleName, sym) ==> stmts[j].capture.bindings.Some?
    ensures ScanAsWritten(stmts, moduleName, sym, k) == Success(FirstAccepted(stmts, moduleName, sym, k))
    decreases |stmts| - k
  {
    if k < |stmts| {
      ScanAgrees(stmts, moduleName, sym, k + 1);
    }
  }

  /** The input that shows the fault: a default symbol of module `lib` in a
      document whose only import is the side-effect import `import "lib"`.
      The code as written throws; the corrected decision inserts a new
      statement after it. */
  lemma SideEffectImportThrows(st: Settings)
    ensures var stmts := [ImportStatement(ImportMatch(None, None, "lib"), 3)];
      var sym := Symbol("Lib", Some("lib"), None, None, true, None);
      && ImportSymbolAsWritten(st, stmts, "lib", sym).Failure?
      && ImportSymbol(st, stmts, "lib", sym) == Insert(4, InsertText(st, "lib", sym))
  {
  }
}
