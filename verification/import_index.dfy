/** The symbol index (src/ImportIndex.ts): a map from a symbol name to the
    records known under it, with upsert, targeted and by-path deletion, and
    exact, prefix, suffix and substring lookup. The disk check `exists` is the
    parameter `onDisk`; JavaScript's key iteration order is left open, so the
    methods that scan every key may visit them in any order. */
module ImportIndex {
  import opened Wrappers
  import opened Text
  import opened Symbols

  datatype MatchMode = Exact | Start | End | Any

  /** `matches(value, test, ignoreCase, mode)` (src/ImportIndex.ts:20-39):
      an undefined value is matched as the empty string. */
  function Matches(value: Option<string>, test: string, ignoreCase: bool, mode: MatchMode): bool {
    var v0 := value.GetOr("");
    var v := if ignoreCase then Lower(v0) else v0;
    var t := if ignoreCase then Lower(test) else test;
    match mode
    case Exact => v == t
    case Start => StartsWith(v, t)
    case Any => Contains(v, t)
    case End => EndsWith(v, t)
  }

  /** The modes are ordered by strength: an exact match is also a prefix and
      a suffix match, and either of those is also a substring match. */
  lemma MatchModes(value: Option<string>, test: string, ignoreCase: bool)
    ensures Matches(value, test, ignoreCase, Exact) ==> Matches(value, test, ignoreCase, Start)
    ensures Matches(value, test, ignoreCase, Exact) ==> Matches(value, test, ignoreCase, End)
    ensures Matches(value, test, ignoreCase, Start) ==> Matches(value, test, ignoreCase, Any)
    ensures Matches(value, test, ignoreCase, End) ==> Matches(value, test, ignoreCase, Any)
  {
    var v0 := value.GetOr("");
    var v := if ignoreCase then Lower(v0) else v0;
    var t := if ignoreCase then Lower(test) else test;
    if EndsWith(v, t) {
      assert v == v[..|v| - |t|] + t;
      ContainsSuffix(v[..|v| - |t|], t);
    }
    if v == t {
      assert v[..|t|] == t;
    }
  }

  /** `resetIndex()`: the empty index. */
  function ResetIndex(): (r: Index)
    ensures Valid(r)
    ensures |Flatten(r)| == 0
  {
    map[]
  }

  /** `symbolCount`: the sum of the list lengths, which is the number of
      stored records. */
  method SymbolCount(idx: Index) returns (c: nat)
    ensures c == |Flatten(idx)|
  {
    c := 0;
    var rest := idx;
    while |rest| > 0
      invariant c + |Flatten(rest)| == |Flatten(idx)|
      decreases |rest|
    {
      var k :| k in rest;
      FlattenPick(rest, k);
      c := c + |rest[k]|;
      rest := rest - {k};
    }
  }

  /** The part of the index whose keys match `name`. */
  function Selected(idx: Index, name: string, ignoreCase: bool, mode: MatchMode): (r: Index)
    ensures forall k :: k in r <==> k in idx && Matches(Some(k), name, ignoreCase, mode)
    ensures forall k | k in r :: r[k] == idx[k]
  {
    map k | k in idx && Matches(Some(k), name, ignoreCase, mode) :: idx[k]
  }

  /** Removing a key from the index removes it from the selection. */
  lemma SelectedRemove(idx: Index, k: string, name: string, ignoreCase: bool, mode: MatchMode)
    ensures Selected(idx - {k}, name, ignoreCase, mode) == Selected(idx, name, ignoreCase, mode) - {k}
    ensures !Matches(Some(k), name, ignoreCase, mode) ==> Selected(idx - {k}, name, ignoreCase, mode) == Selected(idx, name, ignoreCase, mode)
  {
    var a := Selected(idx - {k}, name, ignoreCase, mode);
    var b := Selected(idx, name, ignoreCase, mode);
    assert a.Keys == b.Keys - {k};
    assert a == b - {k};
  }

  /** The exact case-sensitive fast path returns the records the key scan
      would collect. */
  lemma FastPathAgrees(idx: Index, name: string)
    ensures multiset(Lookup(idx, name)) == Flatten(Selected(idx, name, false, Exact))
  {
    var sel := Selected(idx, name, false, Exact);
    if name in idx {
      FlattenPick(sel, name);
      assert |sel - {name}| == 0 by {
        assert (sel - {name}).Keys == {};
      }
    } else {
      assert |sel| == 0 by {
        assert sel.Keys == {};
      }
    }
  }

  /** Substring matching against the empty test selects every key, whatever
      the case mode. */
  lemma AnyEmptySelectsAll(idx: Index, ignoreCase: bool)
    ensures Selected(idx, "", ignoreCase, Any) == idx
  {
    forall k | k in idx
      ensures Matches(Some(k), "", ignoreCase, Any)
    {
      var v := if ignoreCase then Lower(k) else k;
      assert StartsWith(v, "");
    }
  }

  /** `getSymbols(name, ignoreCase, mode)`: the records of every key that
      matches `name`; the exact case-sensitive case reads the key directly. */
  method GetSymbols(idx: Index, name: string, ignoreCase: bool, mode: MatchMode) returns (r: seq<Symbol>)
    ensures mode == Exact && !ignoreCase ==> r == Lookup(idx, name)
    ensures multiset(r) == Flatten(Selected(idx, name, ignoreCase, mode))
  {
    if mode == Exact && !ignoreCase {
      FastPathAgrees(idx, name);
      r := Lookup(idx, name);
    } else {
      r := ScanSymbols(idx, name, ignoreCase, mode);
    }
  }

  /** The scanning path of `getSymbols` (src/ImportIndex.ts:82-90): visits
      every key, in any order, appending the list of each matching key. */
  method ScanSymbols(idx: Index, name: string, ignoreCase: bool, mode: MatchMode) returns (r: seq<Symbol>)
    ensures multiset(r) == Flatten(Selected(idx, name, ignoreCase, mode))
  {
    r := [];
    var rest := idx;
    while |rest| > 0
      invariant multiset(r) + Pending(rest, name, ignoreCase, mode) == Pending(idx, name, ignoreCase, mode)
      decreases |rest|
    {
      var k :| k in rest;
      var taken := if Matches(Some(k), name, ignoreCase, mode) then rest[k] else [];
      ScanStep(rest, k, name, ignoreCase, mode);
      assert multiset(r + taken) == multiset(r) + multiset(taken);
      r := r + taken;
      rest := rest - {k};
    }
    PendingEmpty(rest, name, ignoreCase, mode);
  }

  /** The records the scan has still to collect from `rest`. */
  ghost function Pending(rest: Index, name: string, ignoreCase: bool, mode: MatchMode): multiset<Symbol> {
    Flatten(Selected(rest, name, ignoreCase, mode))
  }

  lemma PendingEmpty(rest: Index, name: string, ignoreCase: bool, mode: MatchMode)
    requires |rest| == 0
    ensures Pending(rest, name, ignoreCase, mode) == multiset{}
  {
    assert |Selected(rest, name, ignoreCase, mode)| == 0 by {
      assert Selected(rest, name, ignoreCase, mode).Keys == {};
    }
  }

  /** One key of the scan: its list is collected exactly when it matches. */
  lemma ScanStep(rest: Index, k: string, name: string, ignoreCase: bool, mode: MatchMode)
    requires k in rest
    ensures Pending(rest, name, ignoreCase, mode)
      == multiset(if Matches(Some(k), name, ignoreCase, mode) then rest[k] else [])
         + Pending(rest - {k}, name, ignoreCase, mode)
  {
    var sel := Selected(rest, name, ignoreCase, mode);
    SelectedRemove(rest, k, name, ignoreCase, mode);
    if Matches(Some(k), name, ignoreCase, mode) {
      FlattenPick(sel, k);
    }
  }

  /** `getSymbols("", true, ANY)` returns every stored record, so as many
      records as `symbolCount` counts. */
  method AllSymbols(idx: Index) returns (r: seq<Symbol>)
    ensures multiset(r) == Flatten(idx)
    ensures |r| == |Flatten(idx)|
  {
    r := GetSymbols(idx, "", true, Any);
    AnyEmptySelectsAll(idx, true);
  }

  /** Module order used by `modules.sort()`: defined specifiers in string
      order, `undefined` after all of them. */
  predicate ModuleLess(a: Option<string>, b: Option<string>) {
    match (a, b)
    case (Some(x), Some(y)) => StrLess(x, y)
    case (Some(_), None) => true
    case (None, _) => false
  }

  lemma ModuleLessIrreflexive(a: Option<string>)
    ensures !ModuleLess(a, a)
  {
    if a.Some? {
      StrLessIrreflexive(a.value);
    }
  }

  lemma ModuleLessTransitive(a: Option<string>, b: Option<string>, c: Option<string>)
    requires ModuleLess(a, b) && ModuleLess(b, c)
    ensures ModuleLess(a, c)
  {
    if c.Some? {
      StrLessTransitive(a.value, b.value, c.value);
    }
  }

  lemma ModuleLessTotal(a: Option<string>, b: Option<string>)
    requires a != b
    ensures ModuleLess(a, b) || ModuleLess(b, a)
  {
    if a.Some? && b.Some? {
      StrLessTotal(a.value, b.value);
    }
  }

  /** Sorted with no duplicates. */
  predicate StrictlySorted(s: seq<Option<string>>) {
    forall i, j | 0 <= i < j < |s| :: ModuleLess(s[i], s[j])
  }

  predicate Distinct<T(==)>(s: seq<T>) {
    forall i, j | 0 <= i < j < |s| :: s[i] != s[j]
  }

  /** Inserts `x` into a sorted list. */
  function InsertModule(s: seq<Option<string>>, x: Option<string>): (r: seq<Option<string>>)
    requires StrictlySorted(s)
    ensures StrictlySorted(r)
    ensures forall m :: m in r <==> m in s || m == x
    ensures x !in s ==> |r| == |s| + 1
    decreases |s|
  {
    if |s| == 0 then [x]
    else if x == s[0] then s
    else if ModuleLess(x, s[0]) then
      assert forall j | 0 < j < |s| :: ModuleLess(x, s[j]) by {
        forall j | 0 < j < |s| ensures ModuleLess(x, s[j]) {
          ModuleLessTransitive(x, s[0], s[j]);
        }
      }
      [x] + s
    else
      ModuleLessTotal(x, s[0]);
      var rest := InsertModule(s[1..], x);
      assert forall m | m in rest :: ModuleLess(s[0], m);
      [s[0]] + rest
  }

  /** `modules.sort()` of a list: sorted, with the same elements. */
  function SortModules(xs: seq<Option<string>>): (r: seq<Option<string>>)
    ensures StrictlySorted(r)
    ensures forall m :: m in r <==> m in xs
    ensures Distinct(xs) ==> |r| == |xs|
    decreases |xs|
  {
    if |xs| == 0 then []
    else
      var init := xs[..|xs| - 1];
      assert forall m | m in init :: m in xs;
      assert xs == init + [xs[|xs| - 1]];
      InsertModule(SortModules(init), xs[|xs| - 1])
  }

  /** The modules of stored records that match the filter. */
  ghost function ModulesMatching(idx: Index, name: string, ignoreCase: bool, mode: MatchMode): set<Option<string>> {
    set k, c | k in idx && c in idx[k] && Matches(c.moduleName, name, ignoreCase, mode) :: c.moduleName
  }

  /** The modules of the records of one list that match the filter. */
  ghost function ListModules(l: seq<Symbol>, name: string, ignoreCase: bool, mode: MatchMode): set<Option<string>> {
    set c | c in l && Matches(c.moduleName, name, ignoreCase, mode) :: c.moduleName
  }

  lemma ListModulesIncluded(idx: Index, k: string, name: string, ignoreCase: bool, mode: MatchMode)
    requires k in idx
    ensures ListModules(idx[k], name, ignoreCase, mode) <= ModulesMatching(idx, name, ignoreCase, mode)
  {
  }

  /** The inner loop of `getModules` (src/ImportIndex.ts:101-107): appends
      each matching module of `imports` not yet in `found`. */
  method AddModules(found: seq<Option<string>>, imports: seq<Symbol>, name: string, ignoreCase: bool, mode: MatchMode)
    returns (r: seq<Option<string>>)
    requires Distinct(found)
    ensures Distinct(r)
    ensures forall m | m in found :: m in r
    ensures forall m | m in r :: m in found || m in ListModules(imports, name, ignoreCase, mode)
    ensures forall c | c in imports && Matches(c.moduleName, name, ignoreCase, mode) :: c.moduleName in r
  {
    r := found;
    var i := 0;
    while i < |imports|
      invariant 0 <= i <= |imports|
      invariant Distinct(r)
      invariant forall m | m in found :: m in r
      invariant forall m | m in r :: m in found || m in ListModules(imports, name, ignoreCase, mode)
      invariant forall c | c in imports[..i] && Matches(c.moduleName, name, ignoreCase, mode) :: c.moduleName in r
    {
      var imp := imports[i];
      if Matches(imp.moduleName, name, ignoreCase, mode) && imp.moduleName !in r {
        r := r + [imp.moduleName];
      }
      assert imports[..i + 1] == imports[..i] + [imp];
      i := i + 1;
    }
    assert imports[..i] == imports;
  }

  /** `getModules(name, ignoreCase, mode)` (src/ImportIndex.ts:93-114): every
      module of a stored record that matches the filter, once each, sorted. */
  method GetModules(idx: Index, name: string, ignoreCase: bool, mode: MatchMode) returns (r: seq<Option<string>>)
    ensures StrictlySorted(r)
    ensures forall m :: m in r <==> m in ModulesMatching(idx, name, ignoreCase, mode)
  {
    var found: seq<Option<string>> := [];
    var rest := idx;
    while |rest| > 0
      invariant rest.Keys <= idx.Keys
      invariant forall k | k in rest :: rest[k] == idx[k]
      invariant Distinct(found)
      invariant forall m | m in found :: m in ModulesMatching(idx, name, ignoreCase, mode)
      invariant forall k, c | k in idx && k !in rest && c in idx[k] && Matches(c.moduleName, name, ignoreCase, mode) :: c.moduleName in found
      decreases |rest|
    {
      var k :| k in rest;
      ListModulesIncluded(idx, k, name, ignoreCase, mode);
      found := AddModules(found, rest[k], name, ignoreCase, mode);
      rest := rest - {k};
    }
    r := SortModules(found);
  }

  /** `delete(obj)` (src/ImportIndex.ts:133-154): under `obj.name`, drops
      every record of `obj.module` and every record whose path is gone from
      disk; drops the key once nothing is left. */
  function Delete(idx: Index, onDisk: string -> bool, obj: Symbol): (r: Index)
    ensures forall k | k != obj.name :: (k in r <==> k in idx) && (k in r ==> r[k] == idx[k])
    ensures forall c :: c in Lookup(r, obj.name) <==> c in Lookup(idx, obj.name) && c.moduleName != obj.moduleName && Survives(c, onDisk)
    ensures obj.name in r ==> |r[obj.name]| > 0
    ensures Lookup(r, obj.name) == Prune(Lookup(idx, obj.name), {obj.moduleName}, onDisk)
    ensures Valid(idx) ==> Valid(r)
  {
    var updated := Prune(Lookup(idx, obj.name), {obj.moduleName}, onDisk);
    if |updated| > 0 then idx[obj.name := updated] else idx - {obj.name}
  }

  /** The record `addSymbol` keeps when it meets an existing record `c` of
      the same module: each optional field takes the new value if truthy,
      otherwise the old one; `isDefault` is the disjunction. */
  function Merge(obj: Symbol, c: Symbol): Symbol {
    obj.(path := Or(obj.path, c.path),
         kind := Or(obj.kind, c.kind),
         isDefault := obj.isDefault || c.isDefault,
         asDefinition := Or(obj.asDefinition, c.asDefinition))
  }

  /** The back-fill loop of `addSymbol` (src/ImportIndex.ts:178-189): merges
      the new record with every existing record of its module, in order. */
  function BackFill(obj: Symbol, current: seq<Symbol>): (r: Symbol)
    ensures r.name == obj.name && r.moduleName == obj.moduleName
    ensures Truthy(obj.path) ==> r.path == obj.path
    ensures Truthy(obj.kind) ==> r.kind == obj.kind
    ensures Truthy(obj.asDefinition) ==> r.asDefinition == obj.asDefinition
    ensures obj.isDefault ==> r.isDefault
    ensures forall c | c in current && c.moduleName == obj.moduleName ::
      && (Truthy(c.path) ==> Truthy(r.path))
      && (Truthy(c.kind) ==> Truthy(r.kind))
      && (Truthy(c.asDefinition) ==> Truthy(r.asDefinition))
      && (c.isDefault ==> r.isDefault)
    ensures (forall c | c in current :: c.moduleName != obj.moduleName) ==> r == obj
    decreases |current|
  {
    if |current| == 0 then obj
    else
      var next := if current[0].moduleName == obj.moduleName then Merge(obj, current[0]) else obj;
      BackFill(next, current[1..])
  }

  /** With at most one record per module, back-fill is one merge with the
      record of the same module. */
  lemma {:induction false} BackFillUnique(obj: Symbol, current: seq<Symbol>, j: nat)
    requires UniqueModules(current)
    requires j < |current| && current[j].moduleName == obj.moduleName
    ensures BackFill(obj, current) == Merge(obj, current[j])
    decreases |current|
  {
    if j == 0 {
      assert forall c | c in current[1..] :: c.moduleName != obj.moduleName;
    } else {
      BackFillUnique(obj, current[1..], j - 1);
    }
  }

  /** The record `addSymbol` builds from its arguments, name trimmed. */
  function Candidate(name: string, moduleName: Option<string>, path: Option<string>, kind: Option<string>,
                     isDefault: bool, asDefinition: Option<string>): Symbol {
    Symbol(Trim(name), moduleName, path, kind, isDefault, asDefinition)
  }

  /** `addSymbol(...)` (src/ImportIndex.ts:156-196): a name that trims to
      empty changes nothing; otherwise the list under the trimmed name becomes
      the back-filled new record followed by the old records of other modules
      that survive the disk check. */
  function AddSymbol(idx: Index, onDisk: string -> bool, name: string, moduleName: Option<string>,
                     path: Option<string>, kind: Option<string>, isDefault: bool,
                     asDefinition: Option<string>): (r: Index)
    ensures |Trim(name)| == 0 ==> r == idx
    ensures var n := Trim(name); |n| > 0 ==>
      && n in r && |r[n]| > 0
      && r[n][0] == BackFill(Candidate(name, moduleName, path, kind, isDefault, asDefinition), Lookup(idx, n))
      && (forall i | 1 <= i < |r[n]| :: r[n][i].moduleName != moduleName)
      && (forall c :: c in r[n][1..] <==> c in Lookup(idx, n) && c.moduleName != moduleName && Survives(c, onDisk))
      && r[n][1..] == Prune(Lookup(idx, n), {moduleName}, onDisk)
    ensures forall k | k != Trim(name) :: (k in r <==> k in idx) && (k in r ==> r[k] == idx[k])
    ensures Valid(idx) ==> Valid(r)
  {
    var n := Trim(name);
    if |n| == 0 then idx
    else
      var current := Lookup(idx, n);
      var obj := BackFill(Candidate(name, moduleName, path, kind, isDefault, asDefinition), current);
      var survivors := Prune(current, {moduleName}, onDisk);
      var l := [obj] + survivors;
      assert l[1..] == survivors;
      assert Valid(idx) ==> Valid(idx[n := l]) by {
        if Valid(idx) {
          AddValid(idx, n, obj, survivors);
        }
      }
      idx[n := l]
  }

  /** Putting a new record in front of records of other modules, all under
      the same valid name, keeps the index valid. */
  lemma AddValid(idx: Index, n: string, obj: Symbol, survivors: seq<Symbol>)
    requires Valid(idx) && |n| > 0 && IsTrimmed(n) && obj.name == n
    requires forall c | c in survivors :: c.name == n && c.moduleName != obj.moduleName
    requires UniqueModules(survivors)
    ensures Valid(idx[n := [obj] + survivors])
  {
    var l := [obj] + survivors;
    assert forall i | 1 <= i < |l| :: l[i] == survivors[i - 1];
    assert ValidEntry(n, l);
  }

  /** Back-fill as `addSymbol` performs it on a well-formed index: when a
      record `c` of the same (name, module) exists, each optional field of
      the stored record is the new value if truthy and `c`'s otherwise, and
      `isDefault` never goes from true to false; with no such record, the
      stored record is exactly the new one. */
  lemma AddSymbolBackFill(idx: Index, onDisk: string -> bool, name: string, moduleName: Option<string>,
                          path: Option<string>, kind: Option<string>, isDefault: bool,
                          asDefinition: Option<string>)
    requires Valid(idx) && |Trim(name)| > 0
    ensures var n := Trim(name);
      var r := AddSymbol(idx, onDisk, name, moduleName, path, kind, isDefault, asDefinition);
      && (forall c | c in Lookup(idx, n) && c.moduleName == moduleName ::
           && r[n][0].path == (if Truthy(path) then path else c.path)
           && r[n][0].kind == (if Truthy(kind) then kind else c.kind)
           && r[n][0].asDefinition == (if Truthy(asDefinition) then asDefinition else c.asDefinition)
           && r[n][0].isDefault == (isDefault || c.isDefault))
      && ((forall c | c in Lookup(idx, n) :: c.moduleName != moduleName) ==>
           r[n][0] == Symbol(n, moduleName, path, kind, isDefault, asDefinition))
  {
    var n := Trim(name);
    var current := Lookup(idx, n);
    var obj := Candidate(name, moduleName, path, kind, isDefault, asDefinition);
    forall c | c in current && c.moduleName == moduleName
      ensures BackFill(obj, current) == Merge(obj, c)
    {
      var j :| 0 <= j < |current| && current[j] == c;
      BackFillUnique(obj, current, j);
    }
  }

  /** The modules of the records of `hits` named `k`. */
  function HitModules(hits: set<Symbol>, k: string): set<Option<string>> {
    set c | c in hits && c.name == k :: c.moduleName
  }

  /** The index after `delete` has run once for each record of `hits`, in
      any order: every name hit loses the hit modules and its stale records,
      and disappears if nothing is left. */
  function RemoveRecords(idx: Index, onDisk: string -> bool, hits: set<Symbol>): Index {
    map k | k in idx && (HitModules(hits, k) == {} || |Prune(idx[k], HitModules(hits, k), onDisk)| > 0)
      :: if HitModules(hits, k) == {} then idx[k] else Prune(idx[k], HitModules(hits, k), onDisk)
  }

  lemma HitModulesAdd(hits: set<Symbol>, o: Symbol, k: string)
    ensures HitModules(hits + {o}, k) == if o.name == k then HitModules(hits, k) + {o.moduleName} else HitModules(hits, k)
  {
  }

  /** Deleting one more record from a removal, at a key it does not name. */
  lemma DeleteStepOther(idx: Index, onDisk: string -> bool, hits: set<Symbol>, o: Symbol, k: string)
    requires k != o.name
    ensures var l := Delete(RemoveRecords(idx, onDisk, hits), onDisk, o);
      var r := RemoveRecords(idx, onDisk, hits + {o});
      (k in l <==> k in r) && (k in l ==> l[k] == r[k])
  {
    HitModulesAdd(hits, o, k);
  }

  /** Deleting one more record from a removal, at the key it names. */
  lemma DeleteStepSame(idx: Index, onDisk: string -> bool, hits: set<Symbol>, o: Symbol)
    ensures var l := Delete(RemoveRecords(idx, onDisk, hits), onDisk, o);
      var r := RemoveRecords(idx, onDisk, hits + {o});
      (o.name in l <==> o.name in r) && (o.name in l ==> l[o.name] == r[o.name])
  {
    var k := o.name;
    var a := RemoveRecords(idx, onDisk, hits);
    var m := HitModules(hits, k);
    var m' := m + {o.moduleName};
    HitModulesAdd(hits, o, k);
    var updated := Prune(Lookup(a, k), {o.moduleName}, onDisk);
    if k in idx {
      PruneTwice(idx[k], m, {o.moduleName}, onDisk);
      if m == {} {
        assert Lookup(a, k) == idx[k];
        assert m' == {o.moduleName};
      } else if k in a {
        assert updated == Prune(idx[k], m', onDisk);
      } else {
        assert |Prune(idx[k], m, onDisk)| == 0;
        assert updated == [];
        assert Prune(idx[k], m', onDisk) == [];
      }
    } else {
      assert updated == [];
    }
  }

  /** Deleting one more record from a removal. */
  lemma DeleteStep(idx: Index, onDisk: string -> bool, hits: set<Symbol>, o: Symbol)
    ensures Delete(RemoveRecords(idx, onDisk, hits), onDisk, o) == RemoveRecords(idx, onDisk, hits + {o})
  {
    var l := Delete(RemoveRecords(idx, onDisk, hits), onDisk, o);
    var r := RemoveRecords(idx, onDisk, hits + {o});
    forall k
      ensures (k in l <==> k in r) && (k in l ==> l[k] == r[k])
    {
      if k == o.name {
        DeleteStepSame(idx, onDisk, hits, o);
      } else {
        DeleteStepOther(idx, onDisk, hits, o, k);
      }
    }
    assert l.Keys == r.Keys;
  }

  /** `delete` applied to each record of `ds` in turn. */
  function DeleteAll(idx: Index, onDisk: string -> bool, ds: seq<Symbol>): Index
    decreases |ds|
  {
    if |ds| == 0 then idx
    else Delete(DeleteAll(idx, onDisk, ds[..|ds| - 1]), onDisk, ds[|ds| - 1])
  }

  /** Deleting a list of records, one after another, depends only on which
      records were deleted. */
  lemma {:induction false} DeleteAllRemoves(idx: Index, onDisk: string -> bool, ds: seq<Symbol>)
    ensures DeleteAll(idx, onDisk, ds) == RemoveRecords(idx, onDisk, Elements(ds))
    decreases |ds|
  {
    if |ds| == 0 {
      RemoveNothing(idx, onDisk);
    } else {
      var init := ds[..|ds| - 1];
      DeleteAllRemoves(idx, onDisk, init);
      DeleteStep(idx, onDisk, Elements(init), ds[|ds| - 1]);
      ElementsSnoc(ds);
    }
  }

  /** The records of a list, as a set. */
  function Elements(ds: seq<Symbol>): set<Symbol> {
    set c | c in ds
  }

  /** Removing no record leaves the index as it is. */
  lemma RemoveNothing(idx: Index, onDisk: string -> bool)
    ensures RemoveRecords(idx, onDisk, {}) == idx
  {
    forall k | k in idx ensures HitModules({}, k) == {} {}
  }

  lemma ElementsSnoc(ds: seq<Symbol>)
    requires |ds| > 0
    ensures Elements(ds) == Elements(ds[..|ds| - 1]) + {ds[|ds| - 1]}
  {
    assert ds == ds[..|ds| - 1] + [ds[|ds| - 1]];
  }

  /** The records stored with path `p`. */
  function PathHits(idx: Index, p: string): set<Symbol> {
    set k, c | k in idx && c in idx[k] && c.path == Some(p) :: c
  }

  /** The index after `deleteByPath(p)`, in closed form. */
  function Purged(idx: Index, onDisk: string -> bool, p: string): (r: Index)
    ensures forall k | k in r :: k in idx && forall c | c in r[k] :: c in idx[k]
    ensures Valid(idx) ==> Valid(r)
    ensures Valid(idx) ==> forall k, c | k in r && c in r[k] :: c.path != Some(p)
    ensures Valid(idx) ==> forall k | k in idx && (forall c | c in idx[k] :: c.path != Some(p)) :: k in r && r[k] == idx[k]
    ensures forall k | k in idx && HitModules(PathHits(idx, p), k) != {} ::
      Lookup(r, k) == Prune(idx[k], HitModules(PathHits(idx, p), k), onDisk)
  {
    PurgedClean(idx, onDisk, p);
    PurgedKeeps(idx, onDisk, p);
    RemoveHits(idx, onDisk, PathHits(idx, p));
    RemoveValid(idx, onDisk, PathHits(idx, p));
    RemoveRecords(idx, onDisk, PathHits(idx, p))
  }

  /** Under a name that some removed record has, what remains is the pruned
      list. */
  lemma RemoveHits(idx: Index, onDisk: string -> bool, hits: set<Symbol>)
    ensures forall k | k in idx && HitModules(hits, k) != {} ::
      Lookup(RemoveRecords(idx, onDisk, hits), k) == Prune(idx[k], HitModules(hits, k), onDisk)
  {
    forall k | k in idx && HitModules(hits, k) != {}
      ensures Lookup(RemoveRecords(idx, onDisk, hits), k) == Prune(idx[k], HitModules(hits, k), onDisk)
    {
      var pr := Prune(idx[k], HitModules(hits, k), onDisk);
      if |pr| == 0 {
        assert pr == [];
      }
    }
  }

  /** Deleting by path keeps the other-module records under a hit name: of
      two `A` records, the one with path `p` goes and the one without a path
      stays. */
  lemma PurgedKeepsSibling(onDisk: string -> bool)
    ensures var hit := Symbol("A", Some("m1"), Some("p"), None, false, None);
      var sibling := Symbol("A", Some("m2"), None, None, false, None);
      Purged(map["A" := [hit, sibling]], onDisk, "p") == map["A" := [sibling]]
  {
    var hit := Symbol("A", Some("m1"), Some("p"), None, false, None);
    var sibling := Symbol("A", Some("m2"), None, None, false, None);
    var idx := map["A" := [hit, sibling]];
    SiblingHits(hit, sibling);
    SiblingRemoved(onDisk, hit, sibling);
  }

  lemma SiblingHits(hit: Symbol, sibling: Symbol)
    requires hit == Symbol("A", Some("m1"), Some("p"), None, false, None)
    requires sibling == Symbol("A", Some("m2"), None, None, false, None)
    ensures PathHits(map["A" := [hit, sibling]], "p") == {hit}
    ensures HitModules({hit}, "A") == {Some("m1")}
  {
    var idx := map["A" := [hit, sibling]];
    assert hit in idx["A"];
    forall c | c in PathHits(idx, "p") ensures c == hit {
      assert c in idx["A"];
    }
  }

  lemma SiblingRemoved(onDisk: string -> bool, hit: Symbol, sibling: Symbol)
    requires hit == Symbol("A", Some("m1"), Some("p"), None, false, None)
    requires sibling == Symbol("A", Some("m2"), None, None, false, None)
    requires HitModules({hit}, "A") == {Some("m1")}
    ensures RemoveRecords(map["A" := [hit, sibling]], onDisk, {hit}) == map["A" := [sibling]]
  {
    var idx := map["A" := [hit, sibling]];
    assert Prune([hit, sibling], {Some("m1")}, onDisk) == [sibling];
    var r := RemoveRecords(idx, onDisk, {hit});
    assert r.Keys == {"A"};
  }

  /** Removing records keeps the index well formed. */
  lemma RemoveValid(idx: Index, onDisk: string -> bool, hits: set<Symbol>)
    ensures Valid(idx) ==> Valid(RemoveRecords(idx, onDisk, hits))
  {
    var r := RemoveRecords(idx, onDisk, hits);
    forall k | Valid(idx) && k in r ensures ValidEntry(k, r[k]) {
      assert ValidEntry(k, idx[k]);
      if HitModules(hits, k) != {} {
        assert forall c | c in r[k] :: c in idx[k];
      }
    }
  }

  /** No record with path `p` is left. */
  lemma PurgedClean(idx: Index, onDisk: string -> bool, p: string)
    ensures var r := RemoveRecords(idx, onDisk, PathHits(idx, p));
      Valid(idx) ==> forall k, c | k in r && c in r[k] :: c.path != Some(p)
  {
    var hits := PathHits(idx, p);
    var r := RemoveRecords(idx, onDisk, hits);
    forall k: string, c: Symbol | Valid(idx) && k in r && c in r[k]
      ensures c.path != Some(p)
    {
      assert c in idx[k] && c.name == k;
      assert c.path == Some(p) ==> c in hits;
      assert c.path == Some(p) ==> c.moduleName in HitModules(hits, k);
    }
  }

  /** Names with no record of path `p` are untouched. */
  lemma PurgedKeeps(idx: Index, onDisk: string -> bool, p: string)
    ensures var r := RemoveRecords(idx, onDisk, PathHits(idx, p));
      Valid(idx) ==> forall k | k in idx && (forall c | c in idx[k] :: c.path != Some(p)) :: k in r && r[k] == idx[k]
  {
    var hits := PathHits(idx, p);
    assert Valid(idx) ==> forall k | k in idx && (forall c | c in idx[k] :: c.path != Some(p)) :: HitModules(hits, k) == {};
  }

  /** A second `deleteByPath` with the same path changes nothing. */
  lemma PurgedIdempotent(idx: Index, onDisk: string -> bool, p: string)
    requires Valid(idx)
    ensures Purged(Purged(idx, onDisk, p), onDisk, p) == Purged(idx, onDisk, p)
  {
    var r := Purged(idx, onDisk, p);
    var none: set<Symbol> := {};
    assert PathHits(r, p) == none;
    RemoveNothing(r, onDisk);
  }

  /** The inner collecting loop of `deleteByPath` (src/ImportIndex.ts:124-126). */
  method CollectFromList(toDelete: seq<Symbol>, symbols: seq<Symbol>, p: string) returns (r: seq<Symbol>)
    ensures forall c :: c in r <==> c in toDelete || (c in symbols && c.path == Some(p))
  {
    r := toDelete;
    var i := 0;
    while i < |symbols|
      invariant 0 <= i <= |symbols|
      invariant forall c :: c in r <==> c in toDelete || (c in symbols[..i] && c.path == Some(p))
    {
      if symbols[i].path == Some(p) {
        r := r + [symbols[i]];
      }
      assert symbols[..i + 1] == symbols[..i] + [symbols[i]];
      i := i + 1;
    }
    assert symbols[..i] == symbols;
  }

  /** The first phase of `deleteByPath` (src/ImportIndex.ts:118-127): every
      record with path `p`, keys visited in any order. */
  method CollectByPath(idx: Index, p: string) returns (toDelete: seq<Symbol>)
    ensures Valid(idx) ==> Elements(toDelete) == PathHits(idx, p)
  {
    toDelete := [];
    var rest := idx;
    while |rest| > 0
      invariant rest.Keys <= idx.Keys
      invariant forall k | k in rest :: rest[k] == idx[k]
      invariant Valid(idx) ==> forall c :: c in toDelete <==> Collected(idx, rest, p, c)
      decreases |rest|
    {
      var k :| k in rest;
      var next := CollectFromList(toDelete, rest[k], p);
      if Valid(idx) {
        CollectStep(idx, rest, k, p, toDelete, next);
      }
      toDelete := next;
      rest := rest - {k};
    }
    if Valid(idx) {
      CollectDone(idx, rest, p, toDelete);
    }
  }

  /** Visiting key `k` collects exactly its records with path `p`. */
  lemma CollectStep(idx: Index, rest: Index, k: string, p: string, before: seq<Symbol>, after: seq<Symbol>)
    requires Valid(idx) && k in rest && rest.Keys <= idx.Keys && rest[k] == idx[k]
    requires forall c :: c in before <==> Collected(idx, rest, p, c)
    requires forall c :: c in after <==> c in before || (c in rest[k] && c.path == Some(p))
    ensures forall c :: c in after <==> Collected(idx, rest - {k}, p, c)
  {
    forall c | c in rest[k]
      ensures c.name == k
    {
      assert ValidEntry(k, idx[k]);
    }
  }

  /** Once every key is visited, the collected records are the path's hits. */
  lemma CollectDone(idx: Index, rest: Index, p: string, toDelete: seq<Symbol>)
    requires Valid(idx) && |rest| == 0
    requires forall c :: c in toDelete <==> Collected(idx, rest, p, c)
    ensures Elements(toDelete) == PathHits(idx, p)
  {
    forall c | c in PathHits(idx, p) ensures c in toDelete {
      var k :| k in idx && c in idx[k] && c.path == Some(p);
      assert ValidEntry(k, idx[k]);
      assert c.name == k;
    }
  }

  /** `deleteByPath(p)` (src/ImportIndex.ts:116-131): collects every record
      with path `p`, then deletes each in turn. On a well-formed index the
      result is the closed form `Purged`. */
  method DeleteByPath(idx: Index, onDisk: string -> bool, p: string) returns (r: Index)
    ensures Valid(idx) ==> r == Purged(idx, onDisk, p)
  {
    var toDelete := CollectByPath(idx, p);
    r := idx;
    var j := 0;
    while j < |toDelete|
      invariant 0 <= j <= |toDelete|
      invariant r == DeleteAll(idx, onDisk, toDelete[..j])
    {
      assert toDelete[..j + 1][..j] == toDelete[..j];
      r := Delete(r, onDisk, toDelete[j]);
      j := j + 1;
    }
    assert toDelete[..j] == toDelete;
    DeleteAllRemoves(idx, onDisk, toDelete);
  }

  /** Record `c` has path `p` and sits under a key already visited. */
  ghost predicate Collected(idx: Index, rest: Index, p: string, c: Symbol) {
    c.name in idx && c.name !in rest && c in idx[c.name] && c.path == Some(p)
  }
}
