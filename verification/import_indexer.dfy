/** The workspace scanner (src/ImportIndexer.ts): the settings helpers, the
    alias prefixes read from the TypeScript configuration, the resolution of
    a file's alias module, the turning of declaration and import captures into
    `addSymbol` calls, and the batched pass over the workspace files. Reading
    files and configuration, the file watcher and the timer that yields
    between batches are outside the model: their results are parameters. */
module ImportIndexer {
  import opened Wrappers
  import opened Text
  import opened Symbols
  import opened ImportIndex
  import opened FileExtensions
  import opened Captures

  /** How many files one batch processes before yielding. */
  const BatchSize: nat := 50

  /** `toGlob(p)`: a single pattern as is, several as a brace alternation. */
  function ToGlob(p: seq<string>): (r: string)
    ensures |p| == 1 ==> r == p[0]
    ensures |p| != 1 ==> |r| >= 2 && r[0] == '{' && r[|r| - 1] == '}'
  {
    if |p| == 1 then p[0] else "{" + Join([','], p) + "}"
  }

  /** The alternatives of a brace glob are the patterns it was built from,
      when no pattern holds a comma. */
  lemma ToGlobRoundTrip(p: seq<string>)
    requires |p| >= 2
    requires forall i | 0 <= i < |p| :: ',' !in p[i]
    ensures var g := ToGlob(p); Split(g[1..|g| - 1], Commas) == p
  {
    var g := ToGlob(p);
    assert g[1..|g| - 1] == Join([','], p);
    SplitCommaJoin(p);
  }

  /** A setting that is unset, one string, or a list of strings. */
  datatype ConfigValue = Unset | One(value: string) | Many(values: seq<string>)

  /** `toSA(value)`: the setting as a list of strings. */
  function ToStringArray(v: ConfigValue): (r: seq<string>)
    ensures forall s :: s in r <==> (v.One? && s == v.value) || (v.Many? && s in v.values)
    ensures v.Unset? ==> r == []
    ensures v.One? ==> r == [v.value]
    ensures v.Many? ==> r == v.values
  {
    match v
    case Unset => []
    case One(s) => [s]
    case Many(ss) => ss
  }

  /** A list read back as a setting is read as the same list, and a single
      pattern read as a setting becomes its own glob. */
  lemma ToStringArrayStable(v: ConfigValue)
    ensures ToStringArray(Many(ToStringArray(v))) == ToStringArray(v)
    ensures v.One? ==> ToGlob(ToStringArray(v)) == v.value
  {
  }

  /** The path separators `[\/\\]` matches. */
  const Separators: set<char> := {'/', '\\'}

  /** A file path with every separator written as `/`. */
  function Normalized(path: string): string {
    ReplaceChars(path, Separators, '/')
  }

  /** The alias prefix of one resolved `paths["*"]` entry
      (src/ImportIndexer.ts:66-69): split at the separators, last segment
      emptied, joined with `/`. */
  function AliasPrefix(resolved: string): string {
    var parts := Split(resolved, Separators);
    Join("/", parts[..|parts| - 1] + [""])
  }

  /** The prefix is the normalised path without its last segment, and it
      ends with `/` whenever the path has a separator at all. */
  lemma AliasPrefixShape(resolved: string)
    ensures var parts := Split(resolved, Separators);
      AliasPrefix(resolved) + parts[|parts| - 1] == Normalized(resolved)
    ensures (exists j | 0 <= j < |resolved| :: resolved[j] in Separators) ==> EndsWith(AliasPrefix(resolved), "/")
  {
    var parts := Split(resolved, Separators);
    JoinClearLast("/", parts);
    JoinSplit(resolved, Separators, '/');
    assert [('/')] == "/";
    if |parts| == 1 {
      SplitSingle(resolved, Separators);
      assert forall j | 0 <= j < |resolved| :: resolved[j] == parts[0][j];
    }
  }

  /** The stored alias prefixes (src/ImportIndexer.ts:59-76): for each entry
      of `compilerOptions.paths["*"]`, the prefix of its resolved form, or no
      prefixes when the configuration has none. `resolve` stands for
      `path.resolve` against the workspace root. */
  function ResetPaths(star: Option<seq<string>>, resolve: string -> string): (r: seq<string>)
    ensures star.None? ==> |r| == 0
    ensures star.Some? ==> |r| == |star.value|
    ensures star.Some? ==> forall i | 0 <= i < |r| :: r[i] == AliasPrefix(resolve(star.value[i]))
  {
    match star
    case None => []
    case Some(ps) => seq(|ps|, i requires 0 <= i < |ps| => AliasPrefix(resolve(ps[i])))
  }

  /** The last segment of a resolved path: what its alias prefix drops. */
  function LastSegment(resolved: string): string {
    var parts := Split(resolved, Separators);
    parts[|parts| - 1]
  }

  /** Prefix `i` followed by the last segment of alias `i`, resolved, is
      alias `i` resolved and written with `/` separators. */
  lemma ResetPathsPrefixes(ps: seq<string>, resolve: string -> string)
    ensures |ResetPaths(Some(ps), resolve)| == |ps|
    ensures forall i | 0 <= i < |ps| ::
      ResetPaths(Some(ps), resolve)[i] + LastSegment(resolve(ps[i])) == Normalized(resolve(ps[i]))
  {
    forall i | 0 <= i < |ps|
      ensures ResetPaths(Some(ps), resolve)[i] + LastSegment(resolve(ps[i])) == Normalized(resolve(ps[i]))
    {
      AliasPrefixShape(resolve(ps[i]));
    }
  }

  /** Every stored prefix ends with `/`, since every resolved path has a
      separator. */
  lemma ResetPathsEndWithSlash(star: Option<seq<string>>, resolve: string -> string)
    requires star.Some? ==> forall i | 0 <= i < |star.value| ::
      exists j | 0 <= j < |resolve(star.value[i])| :: resolve(star.value[i])[j] in Separators
    ensures forall i | 0 <= i < |ResetPaths(star, resolve)| :: EndsWith(ResetPaths(star, resolve)[i], "/")
  {
    if star.Some? {
      forall i | 0 <= i < |star.value| ensures EndsWith(ResetPaths(star, resolve)[i], "/") {
        AliasPrefixShape(resolve(star.value[i]));
      }
    }
  }

  /** Prefix `i` is the first in list order that `s` starts with. */
  predicate IsFirstPrefix(paths: seq<string>, s: string, i: int) {
    && 0 <= i < |paths|
    && StartsWith(s, paths[i])
    && forall j | 0 <= j < i :: !StartsWith(s, paths[j])
  }

  /** The module the prefix loop of `processFile` finds for the path `s`
      (src/ImportIndexer.ts:210-220): the rest of `s` after the first prefix
      it starts with, or undefined when it starts with none. */
  function PrefixModule(paths: seq<string>, s: string): (r: Option<string>)
    ensures r.None? <==> forall j | 0 <= j < |paths| :: !StartsWith(s, paths[j])
    ensures forall i | IsFirstPrefix(paths, s, i) :: r.Some? && paths[i] + r.value == s
    decreases |paths|
  {
    if |paths| == 0 then None
    else if StartsWith(s, paths[0]) then
      var m := s[|paths[0]|..];
      assert paths[0] + m == s;
      Some(m)
    else
      var r := PrefixModule(paths[1..], s);
      assert forall i | IsFirstPrefix(paths, s, i) :: IsFirstPrefix(paths[1..], s, i - 1);
      assert forall j | 1 <= j < |paths| :: paths[j] == paths[1..][j - 1];
      r
  }

  /** The alias module of a file: its path normalised to `/`, the extension
      stripped, then looked up among the prefixes. */
  function ModuleOf(paths: seq<string>, exts: seq<string>, fsPath: string): Option<string> {
    PrefixModule(paths, RemoveFileExtension(exts, Normalized(fsPath)))
  }

  /** The `addSymbol` call for one declaration capture
      (src/ImportIndexer.ts:224-231), as a record of its arguments: the
      file's alias module, the raw file path, the captured keyword, default
      iff `default` was captured, no `* as` text. */
  function DeclarationArgs(d: DeclarationMatch, moduleName: Option<string>, fsPath: string): Symbol {
    Symbol(d.name, moduleName, Some(fsPath), d.kind, IsDefaultDeclaration(d), None)
  }

  /** An import is ignored when it binds nothing (a side-effect import) or
      its specifier is relative (holds `./` anywhere) or goes through a
      loader (holds `!`) (src/ImportIndexer.ts:237-242). */
  predicate SkipsImport(m: ImportMatch) {
    !Truthy(m.bindings) || Contains(m.specifier, "./") || Contains(m.specifier, "!")
  }

  /** The `addSymbol` call for one binding `b` of an import
      (src/ImportIndexer.ts:250-258): a `* as X` binding is stored as `X`
      with the whole binding as its `asDefinition`; any other binding as it
      stands. */
  function BindingArgs(m: ImportMatch, b: string): (r: Symbol)
    ensures r.moduleName == Some(m.specifier) && r.path.None? && r.kind.None? && r.isDefault == IsDefaultImport(m)
  {
    match NamespaceAlias(b)
    case Some(x) => Symbol(x, Some(m.specifier), None, None, IsDefaultImport(m), Some(b))
    case None => Symbol(b, Some(m.specifier), None, None, IsDefaultImport(m), None)
  }

  /** The `addSymbol` calls for one import capture: none when it is skipped,
      otherwise one per comma-separated binding, in order. Every call names
      the specifier as module, leaves path and kind undefined and is default
      iff the import has no brace. */
  function ImportArgs(m: ImportMatch): (r: seq<Symbol>)
    ensures |r| == 0 <==> SkipsImport(m)
    ensures forall i | 0 <= i < |r| ::
      && r[i].moduleName == Some(m.specifier)
      && r[i].path.None? && r[i].kind.None?
      && r[i].isDefault == IsDefaultImport(m)
  {
    if SkipsImport(m) then []
    else
      var bs := SplitList(m.bindings.value);
      var r := seq(|bs|, i requires 0 <= i < |bs| => BindingArgs(m, bs[i]));
      assert forall i | 0 <= i < |r| :: r[i] == BindingArgs(m, bs[i]);
      r
  }

  /** An import of plain names written as `a, b, c` yields one call per
      name, in order, each with the name as written and no `asDefinition`. */
  lemma ImportArgsPlain(brace: Option<string>, names: seq<string>, specifier: string)
    requires |names| >= 1
    requires forall i | 0 <= i < |names| :: |names[i]| > 0 && IsTrimmed(names[i]) && ',' !in names[i] && '*' !in names[i]
    requires !Contains(specifier, "./") && !Contains(specifier, "!")
    ensures var m := ImportMatch(brace, Some(Join(ListSeparator, names)), specifier);
      var r := ImportArgs(m);
      |r| == |names| && forall i | 0 <= i < |r| ::
        r[i] == Symbol(names[i], Some(specifier), None, None, brace != Some("{"), None)
  {
    var text := Join(ListSeparator, names);
    assert |text| >= |names[0]|;
    var m := ImportMatch(brace, Some(text), specifier);
    SplitListJoin(names);
    forall i | 0 <= i < |names| ensures NamespaceAlias(names[i]).None? {
      assert forall j | 0 <= j < |names[i]| :: names[i][j] != '*' by {
        forall j | 0 <= j < |names[i]| ensures names[i][j] != '*' {
          assert names[i][j] in names[i];
        }
      }
    }
  }

  /** A namespace import `* as X` yields one call for `X`, default, with the
      binding text as its `asDefinition`. */
  lemma ImportArgsNamespace(x: string, specifier: string)
    requires |x| > 0 && IsTrimmed(x) && ',' !in x
    requires forall j | 0 <= j < |x| :: !IsLineTerminator(x[j])
    requires !Contains(specifier, "./") && !Contains(specifier, "!")
    ensures ImportArgs(ImportMatch(Some(""), Some("* as " + x), specifier))
      == [Symbol(x, Some(specifier), None, None, true, Some("* as " + x))]
  {
    var b := "* as " + x;
    assert b == Join(ListSeparator, [b]);
    assert IsTrimmed(b);
    assert ',' !in b by {
      forall j | 0 <= j < |b| ensures b[j] != ',' {
        if j >= 5 {
          assert b[j] == x[j - 5];
          assert x[j - 5] in x;
        }
      }
    }
    SplitListJoin([b]);
    NamespaceAliasRoundTrip(x);
  }

  /** The `addSymbol` calls `processFile` makes for one file, in order:
      one per declaration capture, then those of each import capture. */
  function FileArgs(moduleName: Option<string>, fsPath: string, decls: seq<DeclarationMatch>,
                    imports: seq<ImportMatch>): seq<Symbol> {
    seq(|decls|, i requires 0 <= i < |decls| => DeclarationArgs(decls[i], moduleName, fsPath)) + ImportsArgs(imports)
  }

  function ImportsArgs(imports: seq<ImportMatch>): (r: seq<Symbol>)
    ensures forall a | a in r :: a.path.None?
    decreases |imports|
  {
    if |imports| == 0 then []
    else
      var head := ImportArgs(imports[0]);
      assert forall a | a in head :: a.path.None?;
      head + ImportsArgs(imports[1..])
  }

  /** One `addSymbol` call with the arguments recorded in `a`. */
  function Add(idx: Index, onDisk: string -> bool, a: Symbol): Index {
    AddSymbol(idx, onDisk, a.name, a.moduleName, a.path, a.kind, a.isDefault, a.asDefinition)
  }

  /** The calls of `args`, in order. */
  function AddAll(idx: Index, onDisk: string -> bool, args: seq<Symbol>): (r: Index)
    ensures Valid(idx) ==> Valid(r)
    decreases |args|
  {
    if |args| == 0 then idx else AddAll(Add(idx, onDisk, args[0]), onDisk, args[1..])
  }

  /** `processFile(data, file, deleteByFile)` (src/ImportIndexer.ts:200-263),
      given the captures of the file's text: with `deleteByFile` the file's
      old records are purged first, then every declaration and import
      capture is added under the file's alias module. */
  function ProcessFile(idx: Index, onDisk: string -> bool, paths: seq<string>, exts: seq<string>,
                       fsPath: string, decls: seq<DeclarationMatch>, imports: seq<ImportMatch>,
                       deleteByFile: bool): (r: Index)
    ensures Valid(idx) ==> Valid(r)
  {
    var start := if deleteByFile then Purged(idx, onDisk, fsPath) else idx;
    AddAll(start, onDisk, FileArgs(ModuleOf(paths, exts, fsPath), fsPath, decls, imports))
  }

  /** The index holds a record of `a`'s (trimmed) name and module. */
  ghost predicate HasRecord(idx: Index, a: Symbol) {
    Trim(a.name) in idx && exists c | c in idx[Trim(a.name)] :: c.moduleName == a.moduleName
  }

  /** The record of a call is in the index after it. */
  lemma AddHas(idx: Index, onDisk: string -> bool, a: Symbol)
    requires |Trim(a.name)| > 0
    ensures HasRecord(Add(idx, onDisk, a), a)
  {
    var r := Add(idx, onDisk, a);
    assert r[Trim(a.name)][0] in r[Trim(a.name)];
  }

  /** When nothing is stale on disk, a later call does not remove a record. */
  lemma AddKeeps(idx: Index, onDisk: string -> bool, a: Symbol, b: Symbol)
    requires forall p :: onDisk(p)
    requires HasRecord(idx, a)
    ensures HasRecord(Add(idx, onDisk, b), a)
  {
    var n := Trim(a.name);
    var r := Add(idx, onDisk, b);
    if Trim(b.name) == n && |n| > 0 {
      if b.moduleName == a.moduleName {
        assert r[n][0] in r[n];
      } else {
        var c :| c in idx[n] && c.moduleName == a.moduleName;
        assert Survives(c, onDisk);
        assert c in r[n][1..];
      }
    }
  }

  lemma {:induction false} AddAllKeeps(idx: Index, onDisk: string -> bool, args: seq<Symbol>, a: Symbol)
    requires forall p :: onDisk(p)
    requires HasRecord(idx, a)
    ensures HasRecord(AddAll(idx, onDisk, args), a)
    decreases |args|
  {
    if |args| > 0 {
      AddKeeps(idx, onDisk, a, args[0]);
      AddAllKeeps(Add(idx, onDisk, args[0]), onDisk, args[1..], a);
    }
  }

  lemma {:induction false} AddAllHas(idx: Index, onDisk: string -> bool, args: seq<Symbol>, i: nat)
    requires forall p :: onDisk(p)
    requires i < |args| && |Trim(args[i].name)| > 0
    ensures HasRecord(AddAll(idx, onDisk, args), args[i])
    decreases |args|
  {
    var next := Add(idx, onDisk, args[0]);
    if i == 0 {
      AddHas(idx, onDisk, args[0]);
      AddAllKeeps(next, onDisk, args[1..], args[0]);
    } else {
      AddAllHas(next, onDisk, args[1..], i - 1);
      assert args[1..][i - 1] == args[i];
    }
  }

  /** With every path present on disk, each call `processFile` makes for a
      non-empty name leaves a record of that name and module. */
  lemma ProcessFileRecordsAll(idx: Index, onDisk: string -> bool, paths: seq<string>, exts: seq<string>,
                              fsPath: string, decls: seq<DeclarationMatch>, imports: seq<ImportMatch>,
                              deleteByFile: bool)
    requires forall p :: onDisk(p)
    ensures var args := FileArgs(ModuleOf(paths, exts, fsPath), fsPath, decls, imports);
      forall a | a in args && |Trim(a.name)| > 0 ::
        HasRecord(ProcessFile(idx, onDisk, paths, exts, fsPath, decls, imports, deleteByFile), a)
  {
    var start := if deleteByFile then Purged(idx, onDisk, fsPath) else idx;
    var args := FileArgs(ModuleOf(paths, exts, fsPath), fsPath, decls, imports);
    forall a | a in args && |Trim(a.name)| > 0
      ensures HasRecord(AddAll(start, onDisk, args), a)
    {
      var i :| 0 <= i < |args| && args[i] == a;
      AddAllHas(start, onDisk, args, i);
    }
  }

  /** A declaration the index did not know under its module is stored with
      exactly the captured facts: the file's alias module, the raw path,
      the captured keyword, default iff `default` was captured. */
  lemma DeclarationRecorded(idx: Index, onDisk: string -> bool, paths: seq<string>, exts: seq<string>,
                            fsPath: string, d: DeclarationMatch)
    requires Valid(idx) && |Trim(d.name)| > 0
    requires forall c | c in Lookup(idx, Trim(d.name)) :: c.moduleName != ModuleOf(paths, exts, fsPath)
    ensures var n := Trim(d.name);
      var r := ProcessFile(idx, onDisk, paths, exts, fsPath, [d], [], false);
      n in r && r[n][0] == Symbol(n, ModuleOf(paths, exts, fsPath), Some(fsPath), d.kind, IsDefaultDeclaration(d), None)
  {
    var m := ModuleOf(paths, exts, fsPath);
    var args := FileArgs(m, fsPath, [d], []);
    assert ImportsArgs([]) == [];
    assert args == [DeclarationArgs(d, m, fsPath)];
    var r1 := Add(idx, onDisk, args[0]);
    assert AddAll(idx, onDisk, args) == AddAll(r1, onDisk, args[1..]);
    assert args[1..] == [];
    assert ProcessFile(idx, onDisk, paths, exts, fsPath, [d], [], false) == r1;
    AddSymbolBackFill(idx, onDisk, d.name, m, Some(fsPath), d.kind, IsDefaultDeclaration(d), None);
  }

  /** Every record with path `p` sits under a name of `names`. */
  ghost predicate PathOnlyUnder(idx: Index, p: string, names: set<string>) {
    forall k, c | k in idx && c in idx[k] && c.path == Some(p) :: k in names
  }

  /** Back-fill takes each field from the new record or from an existing
      one, so the stored path is the new path or an old one. */
  lemma {:induction false} BackFillPathFrom(obj: Symbol, current: seq<Symbol>)
    ensures var r := BackFill(obj, current);
      r.path == obj.path || exists c | c in current :: r.path == c.path
    decreases |current|
  {
    if |current| > 0 {
      var next := if current[0].moduleName == obj.moduleName then Merge(obj, current[0]) else obj;
      BackFillPathFrom(next, current[1..]);
      assert next.path == obj.path || next.path == current[0].path;
      assert forall c | c in current[1..] :: c in current;
    }
  }

  lemma AddPathOnlyUnder(idx: Index, onDisk: string -> bool, a: Symbol, p: string, names: set<string>)
    requires PathOnlyUnder(idx, p, names)
    requires a.path == Some(p) ==> Trim(a.name) in names
    ensures PathOnlyUnder(Add(idx, onDisk, a), p, names)
  {
    var n := Trim(a.name);
    var r := Add(idx, onDisk, a);
    if |n| > 0 {
      var cand := Candidate(a.name, a.moduleName, a.path, a.kind, a.isDefault, a.asDefinition);
      BackFillPathFrom(cand, Lookup(idx, n));
      forall c: Symbol | c in r[n] && c.path == Some(p) ensures n in names {
        if c == r[n][0] {
          if c.path != a.path {
            var c': Symbol :| c' in Lookup(idx, n) && c.path == c'.path;
          }
        } else {
          assert c in r[n][1..];
        }
      }
    }
  }

  lemma {:induction false} AddAllPathOnlyUnder(idx: Index, onDisk: string -> bool, args: seq<Symbol>, p: string, names: set<string>)
    requires PathOnlyUnder(idx, p, names)
    requires forall i | 0 <= i < |args| :: args[i].path == Some(p) ==> Trim(args[i].name) in names
    ensures PathOnlyUnder(AddAll(idx, onDisk, args), p, names)
    decreases |args|
  {
    if |args| > 0 {
      AddPathOnlyUnder(idx, onDisk, args[0], p, names);
      assert forall i | 0 <= i < |args| - 1 :: args[1..][i] == args[i + 1];
      AddAllPathOnlyUnder(Add(idx, onDisk, args[0]), onDisk, args[1..], p, names);
    }
  }

  /** The trimmed names the file declares. */
  function DeclaredNames(decls: seq<DeclarationMatch>): set<string> {
    set d | d in decls :: Trim(d.name)
  }

  /** With `deleteByFile`, a re-scan leaves records of the file's path only
      under names the file still declares: what it no longer declares is
      gone. */
  lemma ProcessFileReplaces(idx: Index, onDisk: string -> bool, paths: seq<string>, exts: seq<string>,
                            fsPath: string, decls: seq<DeclarationMatch>, imports: seq<ImportMatch>)
    requires Valid(idx)
    ensures PathOnlyUnder(ProcessFile(idx, onDisk, paths, exts, fsPath, decls, imports, true), fsPath, DeclaredNames(decls))
  {
    var names := DeclaredNames(decls);
    var start := Purged(idx, onDisk, fsPath);
    var m := ModuleOf(paths, exts, fsPath);
    var declArgs := seq(|decls|, i requires 0 <= i < |decls| => DeclarationArgs(decls[i], m, fsPath));
    var args := FileArgs(m, fsPath, decls, imports);
    forall i | 0 <= i < |args| && args[i].path == Some(fsPath) ensures Trim(args[i].name) in names {
      if i < |declArgs| {
        assert args[i] == DeclarationArgs(decls[i], m, fsPath);
      }
    }
    AddAllPathOnlyUnder(start, onDisk, args, fsPath, names);
  }

  /** A workspace file that is scanned: its path mentions none of
      `typings`, `node_modules`, `jspm_packages` (src/ImportIndexer.ts:152-156). */
  predicate Indexable(fsPath: string) {
    !Contains(fsPath, "typings") && !Contains(fsPath, "node_modules") && !Contains(fsPath, "jspm_packages")
  }

  /** The captures of one file's text. */
  datatype Scan = Scan(decls: seq<DeclarationMatch>, imports: seq<ImportMatch>)

  /** One workspace file: its path and, when it could be read, the captures
      of its text; a read failure is `None`. */
  datatype WorkspaceFile = WorkspaceFile(fsPath: string, contents: Option<Scan>)

  /** The files to scan, in their original order. */
  function FilterIndexable(files: seq<WorkspaceFile>): (r: seq<WorkspaceFile>)
    ensures |r| <= |files|
    ensures forall f :: f in r <==> f in files && Indexable(f.fsPath)
    decreases |files|
  {
    if |files| == 0 then []
    else
      var rest := FilterIndexable(files[1..]);
      assert forall f | f in files[1..] :: f in files;
      assert forall f | f in files :: f == files[0] || f in files[1..];
      if Indexable(files[0].fsPath) then [files[0]] + rest else rest
  }

  /** The filter keeps the order of the files: filtering a concatenation is
      concatenating the filtered parts, and a single file is kept iff it is
      indexable. */
  lemma {:induction false} FilterAppend(a: seq<WorkspaceFile>, b: seq<WorkspaceFile>)
    ensures FilterIndexable(a + b) == FilterIndexable(a) + FilterIndexable(b)
    decreases |a|
  {
    if |a| > 0 {
      assert (a + b)[1..] == a[1..] + b;
      FilterAppend(a[1..], b);
    } else {
      assert a + b == b;
    }
  }

  /** The filter keeps every indexable file as often as it occurs and drops
      every other file. */
  lemma {:induction false} FilterCount(files: seq<WorkspaceFile>, f: WorkspaceFile)
    ensures multiset(FilterIndexable(files))[f] == if Indexable(f.fsPath) then multiset(files)[f] else 0
    decreases |files|
  {
    if |files| > 0 {
      FilterCount(files[1..], f);
      assert files == [files[0]] + files[1..];
      assert multiset(files) == multiset{files[0]} + multiset(files[1..]);
    }
  }

  lemma FilterSingle(f: WorkspaceFile)
    ensures FilterIndexable([f]) == if Indexable(f.fsPath) then [f] else []
  {
  }

  /** The filter keeps the order: a list that has only indexable files
      passes unchanged, and filtering twice is filtering once. */
  lemma {:induction false} FilterKeepsIndexable(files: seq<WorkspaceFile>)
    requires forall i | 0 <= i < |files| :: Indexable(files[i].fsPath)
    ensures FilterIndexable(files) == files
    decreases |files|
  {
    if |files| > 0 {
      FilterKeepsIndexable(files[1..]);
      assert [files[0]] + files[1..] == files;
    }
  }

  lemma FilterIdempotent(files: seq<WorkspaceFile>)
    ensures FilterIndexable(FilterIndexable(files)) == FilterIndexable(files)
  {
    var r := FilterIndexable(files);
    forall i | 0 <= i < |r| ensures Indexable(r[i].fsPath) {
      assert r[i] in r;
    }
    FilterKeepsIndexable(r);
  }

  /** One file of the batch loop: processed when it could be read, skipped
      (the read error is caught) otherwise. */
  function StepFile(idx: Index, onDisk: string -> bool, paths: seq<string>, exts: seq<string>,
                    f: WorkspaceFile, deleteByFile: bool): Index {
    match f.contents
    case None => idx
    case Some(sc) => ProcessFile(idx, onDisk, paths, exts, f.fsPath, sc.decls, sc.imports, deleteByFile)
  }

  /** The index after each file has been stepped through, in order. */
  function ProcessFiles(idx: Index, onDisk: string -> bool, paths: seq<string>, exts: seq<string>,
                        files: seq<WorkspaceFile>, deleteByFile: bool): (r: Index)
    ensures Valid(idx) ==> Valid(r)
    decreases |files|
  {
    if |files| == 0 then idx
    else
      var before := ProcessFiles(idx, onDisk, paths, exts, files[..|files| - 1], deleteByFile);
      StepFile(before, onDisk, paths, exts, files[|files| - 1], deleteByFile)
  }

  function Sum(xs: seq<nat>): nat
    decreases |xs|
  {
    if |xs| == 0 then 0 else Sum(xs[..|xs| - 1]) + xs[|xs| - 1]
  }

  /** Every batch but the last is full. */
  predicate FullBatches(bs: seq<nat>) {
    forall i | 0 <= i < |bs| - 1 :: bs[i] == BatchSize
  }

  lemma BatchesSnoc(bs: seq<nat>, x: nat)
    requires FullBatches(bs) && (|bs| == 0 || bs[|bs| - 1] == BatchSize)
    ensures FullBatches(bs + [x]) && Sum(bs + [x]) == Sum(bs) + x
  {
    var ys := bs + [x];
    assert ys[..|ys| - 1] == bs;
    assert Sum(ys) == Sum(bs) + x;
    forall i | 0 <= i < |ys| - 1
      ensures ys[i] == BatchSize
    {
      assert ys[i] == bs[i];
    }
  }

  /** Processing one more file of the list is one more step. */
  lemma ProcessFilesStep(idx: Index, onDisk: string -> bool, paths: seq<string>, exts: seq<string>,
                         fs: seq<WorkspaceFile>, deleteByFile: bool, i: nat)
    requires i < |fs|
    ensures ProcessFiles(idx, onDisk, paths, exts, fs[..i + 1], deleteByFile)
      == StepFile(ProcessFiles(idx, onDisk, paths, exts, fs[..i], deleteByFile), onDisk, paths, exts, fs[i], deleteByFile)
  {
    assert fs[..i + 1][..i] == fs[..i];
  }

  /** One call of the `next` closure's loop: from file `start` on, at most
      `BatchSize` files, stopping early only at the end of the list. */
  method RunBatch(idx: Index, onDisk: string -> bool, paths: seq<string>, exts: seq<string>,
                  fs: seq<WorkspaceFile>, deleteByFile: bool, start: nat, r0: Index)
    returns (r: Index, fi: nat)
    requires start <= |fs|
    requires r0 == ProcessFiles(idx, onDisk, paths, exts, fs[..start], deleteByFile)
    ensures start <= fi <= |fs| && fi - start <= BatchSize
    ensures fi < |fs| ==> fi - start == BatchSize
    ensures r == ProcessFiles(idx, onDisk, paths, exts, fs[..fi], deleteByFile)
  {
    r := r0;
    fi := start;
    while fi - start < BatchSize && fi < |fs|
      invariant start <= fi <= |fs| && fi - start <= BatchSize
      invariant r == ProcessFiles(idx, onDisk, paths, exts, fs[..fi], deleteByFile)
    {
      ProcessFilesStep(idx, onDisk, paths, exts, fs, deleteByFile, fi);
      r := StepFile(r, onDisk, paths, exts, fs[fi], deleteByFile);
      fi := fi + 1;
    }
  }

  /** `processWorkspaceFiles(files, _, deleteByFile)`
      (src/ImportIndexer.ts:150-197): drops the unscanned paths, then
      processes the rest in list order, each exactly once, in batches of
      `BatchSize` files; `batches` lists how many files each batch handled.
      Every batch but the last is full, and the last one ends with every
      file processed, which is when completion is reported. */
  method ProcessWorkspaceFiles(idx: Index, onDisk: string -> bool, paths: seq<string>, exts: seq<string>,
                               files: seq<WorkspaceFile>, deleteByFile: bool)
    returns (r: Index, batches: seq<nat>)
    ensures r == ProcessFiles(idx, onDisk, paths, exts, FilterIndexable(files), deleteByFile)
    ensures |batches| >= 1
    ensures FullBatches(batches)
    ensures batches[|batches| - 1] <= BatchSize
    ensures |batches| > 1 ==> batches[|batches| - 1] > 0
    ensures Sum(batches) == |FilterIndexable(files)|
  {
    r, batches := RunBatches(idx, onDisk, paths, exts, FilterIndexable(files), deleteByFile);
  }

  /** The batch loop over the files to scan. */
  method RunBatches(idx: Index, onDisk: string -> bool, paths: seq<string>, exts: seq<string>,
                    fs: seq<WorkspaceFile>, deleteByFile: bool)
    returns (r: Index, batches: seq<nat>)
    ensures r == ProcessFiles(idx, onDisk, paths, exts, fs, deleteByFile)
    ensures |batches| >= 1
    ensures FullBatches(batches)
    ensures batches[|batches| - 1] <= BatchSize
    ensures |batches| > 1 ==> batches[|batches| - 1] > 0
    ensures Sum(batches) == |fs|
  {
    var fi := 0;
    r := idx;
    batches := [];
    while fi < |fs| || |batches| == 0
      invariant fi <= |fs|
      invariant r == ProcessFiles(idx, onDisk, paths, exts, fs[..fi], deleteByFile)
      invariant Sum(batches) == fi
      invariant FullBatches(batches)
      invariant |batches| > 0 ==> batches[|batches| - 1] <= BatchSize
      invariant |batches| > 0 && fi < |fs| ==> batches[|batches| - 1] == BatchSize
      invariant |batches| > 1 ==> batches[|batches| - 1] > 0
      decreases |fs| - fi + (if |batches| == 0 then 1 else 0)
    {
      var before := fi;
      r, fi := RunBatch(idx, onDisk, paths, exts, fs, deleteByFile, fi, r);
      BatchesSnoc(batches, fi - before);
      batches := batches + [fi - before];
    }
    assert fs[..fi] == fs;
  }
}
