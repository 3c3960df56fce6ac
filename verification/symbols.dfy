/** The record the index stores, the index itself, and the invariant every
    index operation keeps (src/ImportIndex.ts:6-13, 55). */
module Symbols {
  import opened Wrappers
  import opened Text

  /** One known definition or import source of a name. `moduleName` is the
      module specifier it can be imported from, `path` the file it was
      declared in, `kind` the declaration keyword the scanner captured (the
      source calls it `type`), `asDefinition` the `* as X` text of a
      namespace import. Every optional field may be JavaScript `undefined`. */
  datatype Symbol = Symbol(
    name: string,
    moduleName: Option<string>,
    path: Option<string>,
    kind: Option<string>,
    isDefault: bool,
    asDefinition: Option<string>)

  /** JavaScript truthiness of an optional string: defined and non-empty. */
  predicate Truthy(o: Option<string>) {
    o.Some? && |o.value| > 0
  }

  /** JavaScript `a || b` on optional strings. */
  function Or(a: Option<string>, b: Option<string>): (r: Option<string>)
    ensures Truthy(r) <==> Truthy(a) || Truthy(b)
    ensures Truthy(a) ==> r == a
    ensures !Truthy(a) ==> r == b
  {
    if Truthy(a) then a else b
  }

  /** The index: a symbol name to the records known under it
      (`knownSymbols`). */
  type Index = map<string, seq<Symbol>>

  /** `knownSymbols[name] || []`. */
  function Lookup(idx: Index, name: string): seq<Symbol> {
    if name in idx then idx[name] else []
  }

  /** At most one record per module. */
  predicate UniqueModules(l: seq<Symbol>) {
    forall i, j | 0 <= i < j < |l| :: l[i].moduleName != l[j].moduleName
  }

  /** What the index keeps true of one name: the name is non-empty and
      trimmed, its list is non-empty, holds only records of that name, and
      has at most one record per (name, module). */
  ghost predicate ValidEntry(k: string, l: seq<Symbol>) {
    && |k| > 0
    && IsTrimmed(k)
    && |l| > 0
    && (forall c | c in l :: c.name == k)
    && UniqueModules(l)
  }

  ghost predicate Valid(idx: Index) {
    forall k | k in idx :: ValidEntry(k, idx[k])
  }

  /** A record kept when its name is rewritten: it has no path, or its
      path still exists on disk (src/ImportIndex.ts:146, 191). */
  predicate Survives(c: Symbol, onDisk: string -> bool) {
    !Truthy(c.path) || onDisk(c.path.value)
  }

  /** The records of `l`, in order, whose module is not in `mods` and that
      survive. */
  function Prune(l: seq<Symbol>, mods: set<Option<string>>, onDisk: string -> bool): (r: seq<Symbol>)
    ensures |r| <= |l|
    ensures forall c :: c in r <==> c in l && c.moduleName !in mods && Survives(c, onDisk)
    ensures UniqueModules(l) ==> UniqueModules(r)
    decreases |l|
  {
    if |l| == 0 then []
    else
      var rest := Prune(l[1..], mods, onDisk);
      if l[0].moduleName !in mods && Survives(l[0], onDisk) then
        assert UniqueModules(l) ==> forall c | c in rest :: c.moduleName != l[0].moduleName;
        [l[0]] + rest
      else rest
  }

  /** Pruning keeps the survivors in their order: it distributes over
      concatenation. */
  lemma {:induction false} PruneAppend(a: seq<Symbol>, b: seq<Symbol>, mods: set<Option<string>>, onDisk: string -> bool)
    ensures Prune(a + b, mods, onDisk) == Prune(a, mods, onDisk) + Prune(b, mods, onDisk)
    decreases |a|
  {
    if |a| > 0 {
      assert (a + b)[1..] == a[1..] + b;
      PruneAppend(a[1..], b, mods, onDisk);
    } else {
      assert a + b == b;
    }
  }

  /** A single record is kept iff its module is not pruned and it survives. */
  lemma PruneSingle(c: Symbol, mods: set<Option<string>>, onDisk: string -> bool)
    ensures Prune([c], mods, onDisk) == if c.moduleName !in mods && Survives(c, onDisk) then [c] else []
  {
    assert [c][1..] == [];
  }

  /** Pruning twice prunes by both module sets at once. */
  lemma {:induction false} PruneTwice(l: seq<Symbol>, m1: set<Option<string>>, m2: set<Option<string>>, onDisk: string -> bool)
    ensures Prune(Prune(l, m1, onDisk), m2, onDisk) == Prune(l, m1 + m2, onDisk)
    decreases |l|
  {
    if |l| > 0 {
      PruneTwice(l[1..], m1, m2, onDisk);
      var p := Prune(l, m1, onDisk);
      if l[0].moduleName !in m1 && Survives(l[0], onDisk) {
        assert p[1..] == Prune(l[1..], m1, onDisk);
      }
    }
  }

  /** Every record of the index, as a multiset: the lists concatenated in
      whatever order the keys are visited. */
  ghost function Flatten(idx: Index): multiset<Symbol>
    decreases |idx|
  {
    if |idx| == 0 then multiset{}
    else
      var k :| k in idx;
      multiset(idx[k]) + Flatten(idx - {k})
  }

  /** The multiset of records does not depend on which key is visited first. */
  lemma {:induction false} FlattenPick(idx: Index, k: string)
    requires k in idx
    ensures Flatten(idx) == multiset(idx[k]) + Flatten(idx - {k})
    decreases |idx|
  {
    var k' := FlattenUnfold(idx);
    if k' != k {
      var a := idx - {k'};
      var b := idx - {k};
      assert a[k] == idx[k] && b[k'] == idx[k'];
      FlattenPick(a, k);
      FlattenPick(b, k');
      RemoveBoth(idx, k, k');
      UnionSwap(multiset(idx[k']), multiset(idx[k]), Flatten(a - {k}));
    }
  }

  lemma RemoveBoth(idx: Index, k: string, k': string)
    ensures idx - {k'} - {k} == idx - {k} - {k'}
  {
    assert (idx - {k'} - {k}).Keys == (idx - {k} - {k'}).Keys;
  }

  /** The key `Flatten` visits first. */
  lemma FlattenUnfold(idx: Index) returns (k: string)
    requires |idx| > 0
    ensures k in idx && Flatten(idx) == multiset(idx[k]) + Flatten(idx - {k})
  {
    k :| k in idx && Flatten(idx) == multiset(idx[k]) + Flatten(idx - {k});
  }

  lemma UnionSwap<T>(a: multiset<T>, b: multiset<T>, x: multiset<T>)
    ensures a + (b + x) == b + (a + x)
  {
  }
}
