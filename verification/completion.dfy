/** The symbol completion list of src/TypeScriptImporter.ts: the item kind
    each symbol is shown with, and the filter that offers every indexed
    symbol the current document does not already define or import. */
module Completion {
  import opened Wrappers
  import opened Text
  import opened Symbols
  import opened ImportIndex
  import opened Captures
  import opened ImportIndexer

  datatype CompletionKind = File | Class | Interface | Function | Variable

  /** The kind `SymbolCompletionItem` gives a record (src/TypeScriptImporter.ts:27-36):
      the keyword tests are made in order, so the first one that hits wins. */
  function KindFor(kind: Option<string>): (r: CompletionKind)
    ensures r == File <==> !Truthy(kind)
    ensures r == Class <==> Truthy(kind) && Contains(kind.value, "class")
    ensures r == Interface <==> Truthy(kind) && !Contains(kind.value, "class") && Contains(kind.value, "interface")
    ensures r == Function <==> Truthy(kind) && !Contains(kind.value, "class") && !Contains(kind.value, "interface")
                                && Contains(kind.value, "function")
  {
    if !Truthy(kind) then File
    else if Contains(kind.value, "class") then Class
    else if Contains(kind.value, "interface") then Interface
    else if Contains(kind.value, "function") then Function
    else Variable
  }

  /** Whatever `s` contains, it contains every character of. */
  lemma {:induction false} ContainsChars(s: string, t: string, c: char)
    requires Contains(s, t) && c in t
    ensures c in s
    decreases |s|
  {
    if StartsWith(s, t) {
      var j :| 0 <= j < |t| && t[j] == c;
      assert s[j] == c;
    } else {
      ContainsChars(s[1..], t, c);
    }
  }

  /** A keyword ending in `class`, such as `abstract class`, is listed as a
      class. */
  lemma ClassSuffix(p: string)
    ensures KindFor(Some(p + "class")) == Class
  {
    ContainsSuffix(p, "class");
  }

  /** A keyword starting with `function` that cannot contain `class` or
      `interface`, such as the generator form `function*`, is listed as a
      function. */
  lemma FunctionPrefix(s: string)
    requires StartsWith(s, "function") && 'l' !in s && 'r' !in s
    ensures KindFor(Some(s)) == Function
  {
    if Contains(s, "class") {
      assert "class"[1] == 'l';
      ContainsChars(s, "class", 'l');
    }
    if Contains(s, "interface") {
      assert "interface"[4] == 'r';
      ContainsChars(s, "interface", 'r');
    }
  }

  /** An `abstract class` declaration is listed as a class, and a
      generator `function*` as a function. */
  lemma CompoundKeywords()
    ensures KindFor(Some("abstract class")) == Class
    ensures KindFor(Some("function*")) == Function
  {
    ClassSuffix("abstract ");
    assert "abstract " + "class" == "abstract class";
    FunctionPrefix("function*");
  }

  /** The item for one record: captioned with its name, described by its
      module or else its path, and carrying the record as the argument of
      the import command (src/TypeScriptImporter.ts:21-45). */
  datatype CompletionItem = CompletionItem(caption: string, kind: CompletionKind, detail: Option<string>, symbol: Symbol)

  function ItemFor(m: Symbol): (r: CompletionItem)
    ensures r.caption == m.name && r.symbol == m
    ensures r.detail == (if Truthy(m.moduleName) then m.moduleName else m.path)
    ensures r.kind == KindFor(m.kind)
  {
    CompletionItem(m.name, KindFor(m.kind), Or(m.moduleName, m.path), m)
  }

  /** The per-document index: reset, then the document's captures added
      without deleting by path (src/TypeScriptImporter.ts:192-193). */
  function DocumentIndex(onDisk: string -> bool, paths: seq<string>, exts: seq<string>, docPath: string,
                         decls: seq<DeclarationMatch>, imports: seq<ImportMatch>): (r: Index)
    ensures Valid(r)
  {
    ProcessFile(ResetIndex(), onDisk, paths, exts, docPath, decls, imports, false)
  }

  /** A record is offered when the document index has no record of its
      exact, case-sensitive name. */
  predicate Offered(doc: Index, s: Symbol) {
    |Lookup(doc, s.name)| == 0
  }

  /** The offered records of `xs`, in order. */
  function Keep(xs: seq<Symbol>, doc: Index): (r: seq<Symbol>)
    ensures forall s | s in r :: s in xs && Offered(doc, s)
    decreases |xs|
  {
    if |xs| == 0 then []
    else
      var init := xs[..|xs| - 1];
      var x := xs[|xs| - 1];
      Keep(init, doc) + (if Offered(doc, x) then [x] else [])
  }

  /** Filtering keeps each offered record as often as it occurs and drops
      every other one. */
  lemma {:induction false} KeepCount(xs: seq<Symbol>, doc: Index, s: Symbol)
    ensures multiset(Keep(xs, doc))[s] == if Offered(doc, s) then multiset(xs)[s] else 0
    decreases |xs|
  {
    if |xs| > 0 {
      var init := xs[..|xs| - 1];
      var x := xs[|xs| - 1];
      assert xs == init + [x];
      KeepCount(init, doc, s);
    }
  }

  function Items(ys: seq<Symbol>): (r: seq<CompletionItem>)
    ensures |r| == |ys|
    ensures forall j | 0 <= j < |ys| :: r[j] == ItemFor(ys[j])
  {
    seq(|ys|, j requires 0 <= j < |ys| => ItemFor(ys[j]))
  }

  function SymbolsOf(items: seq<CompletionItem>): seq<Symbol> {
    seq(|items|, j requires 0 <= j < |items| => items[j].symbol)
  }

  /** `provideCompletionItems` outside an import line
      (src/TypeScriptImporter.ts:190-207): every record of the workspace
      index is offered, as its item, exactly as often as it is stored, unless
      the document index knows its name. */
  method ProvideCompletionItems(global: Index, onDisk: string -> bool, paths: seq<string>, exts: seq<string>,
                                docPath: string, decls: seq<DeclarationMatch>, imports: seq<ImportMatch>)
    returns (items: seq<CompletionItem>)
    ensures var doc := DocumentIndex(onDisk, paths, exts, docPath, decls, imports);
      forall it | it in items :: it == ItemFor(it.symbol) && Offered(doc, it.symbol)
    ensures var doc := DocumentIndex(onDisk, paths, exts, docPath, decls, imports);
      forall s :: multiset(SymbolsOf(items))[s] == if Offered(doc, s) then Flatten(global)[s] else 0
  {
    var doc := DocumentIndex(onDisk, paths, exts, docPath, decls, imports);
    var all := AllSymbols(global);
    items := OfferedItems(all, doc);
    OfferedCounts(all, doc, items);
  }

  /** The loop of `provideCompletionItems`: each record, in the order the
      workspace index lists them, becomes an item when the exact lookup of
      its name in the document index finds nothing. */
  method OfferedItems(all: seq<Symbol>, doc: Index) returns (items: seq<CompletionItem>)
    ensures items == Items(Keep(all, doc))
  {
    items := [];
    var i := 0;
    while i < |all|
      invariant i <= |all|
      invariant items == Items(Keep(all[..i], doc))
    {
      var hits := GetSymbols(doc, all[i].name, false, Exact);
      KeepStep(all, doc, i);
      if |hits| == 0 {
        ItemsSnoc(Keep(all[..i], doc), all[i]);
        items := items + [ItemFor(all[i])];
      }
      i := i + 1;
    }
    assert all[..|all|] == all;
  }

  lemma KeepStep(all: seq<Symbol>, doc: Index, i: nat)
    requires i < |all|
    ensures Keep(all[..i + 1], doc) == Keep(all[..i], doc) + (if Offered(doc, all[i]) then [all[i]] else [])
  {
    assert all[..i + 1][..i] == all[..i];
  }

  lemma ItemsSnoc(ys: seq<Symbol>, y: Symbol)
    ensures Items(ys + [y]) == Items(ys) + [ItemFor(y)]
  {
  }

  lemma OfferedCounts(all: seq<Symbol>, doc: Index, items: seq<CompletionItem>)
    requires items == Items(Keep(all, doc))
    ensures forall it | it in items :: it == ItemFor(it.symbol) && Offered(doc, it.symbol)
    ensures forall s :: multiset(SymbolsOf(items))[s] == if Offered(doc, s) then multiset(all)[s] else 0
  {
    var kept := Keep(all, doc);
    assert SymbolsOf(items) == kept;
    forall s
      ensures multiset(SymbolsOf(items))[s] == if Offered(doc, s) then multiset(all)[s] else 0
    {
      KeepCount(all, doc, s);
    }
  }

  /** A call of the document's scan leaves every name it had, whatever the
      disk says. */
  lemma NameKept(idx: Index, onDisk: string -> bool, a: Symbol, k: string)
    requires |Lookup(idx, k)| > 0
    ensures |Lookup(Add(idx, onDisk, a), k)| > 0
  {
  }

  lemma {:induction false} AddAllNamesKept(idx: Index, onDisk: string -> bool, args: seq<Symbol>, k: string)
    requires |Lookup(idx, k)| > 0
    ensures |Lookup(AddAll(idx, onDisk, args), k)| > 0
    decreases |args|
  {
    if |args| > 0 {
      NameKept(idx, onDisk, args[0], k);
      AddAllNamesKept(Add(idx, onDisk, args[0]), onDisk, args[1..], k);
    }
  }

  lemma {:induction false} AddAllNames(idx: Index, onDisk: string -> bool, args: seq<Symbol>, i: nat)
    requires i < |args| && |Trim(args[i].name)| > 0
    ensures |Lookup(AddAll(idx, onDisk, args), Trim(args[i].name))| > 0
    decreases |args|
  {
    var next := Add(idx, onDisk, args[0]);
    if i == 0 {
      AddAllNamesKept(next, onDisk, args[1..], Trim(args[0].name));
    } else {
      assert args[1..][i - 1] == args[i];
      AddAllNames(next, onDisk, args[1..], i - 1);
    }
  }

  /** A name the document declares is never offered: no workspace record of
      that name makes it into the list. */
  lemma DeclaredNotOffered(onDisk: string -> bool, paths: seq<string>, exts: seq<string>, docPath: string,
                           decls: seq<DeclarationMatch>, imports: seq<ImportMatch>, i: nat, s: Symbol)
    requires i < |decls| && |Trim(decls[i].name)| > 0 && s.name == Trim(decls[i].name)
    ensures !Offered(DocumentIndex(onDisk, paths, exts, docPath, decls, imports), s)
  {
    var m := ModuleOf(paths, exts, docPath);
    var args := FileArgs(m, docPath, decls, imports);
    assert args[i] == DeclarationArgs(decls[i], m, docPath);
    AddAllNames(ResetIndex(), onDisk, args, i);
  }
}
