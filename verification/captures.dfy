/** The capture groups the scanner's regular expressions yield, and what the
    scanner reads out of them (src/ImportIndexer.ts:222-259,
    src/Importer.ts:28-46). The regular expression engine itself is not
    modelled: a match is given as the groups it captured, a group that did
    not take part in the match being `None`. */
module Captures {
  import opened Wrappers
  import opened Text

  /** One match of the declaration pattern: group 2 (the `default` keyword
      and the whitespace after it), group 3 (the declaration keyword, such
      as `class` or `abstract class`) and group 4 (the declared name). */
  datatype DeclarationMatch = DeclarationMatch(defaultKeyword: Option<string>, kind: Option<string>, name: string)

  /** One match of the import pattern: group 1 (the opening brace, possibly
      empty), group 2 (the binding list) and group 3 (the module specifier).
      Groups 1 and 2 are `None` for a side-effect import such as
      `import "x"`. */
  datatype ImportMatch = ImportMatch(openBrace: Option<string>, bindings: Option<string>, specifier: string)

  /** A declaration is a default export iff group 2 captured something. */
  predicate IsDefaultDeclaration(d: DeclarationMatch) {
    d.defaultKeyword.Some? && |d.defaultKeyword.value| > 0
  }

  /** An import binds a default (or namespace) name iff group 1 is not the
      brace; an undefined group 1 is not the brace either. */
  predicate IsDefaultImport(m: ImportMatch) {
    m.openBrace != Some("{")
  }

  /** Length of the first line of `s`: the index of its first line
      terminator, or `|s|` when it has none. */
  function LineLength(s: string): (n: nat)
    ensures n <= |s|
    ensures n < |s| ==> IsLineTerminator(s[n])
    decreases |s|
  {
    if |s| == 0 || IsLineTerminator(s[0]) then 0 else 1 + LineLength(s[1..])
  }

  /** What `.*` matches at the start of `s`: everything up to the first line
      terminator. */
  function FirstLine(s: string): (r: string)
    ensures |r| <= |s|
  {
    s[..LineLength(s)]
  }

  /** No character of the first line is a line terminator. */
  lemma {:induction false} FirstLineHasNoBreak(s: string)
    ensures forall j | 0 <= j < |FirstLine(s)| :: !IsLineTerminator(FirstLine(s)[j])
    decreases |s|
  {
    if |s| > 0 && !IsLineTerminator(s[0]) {
      FirstLineHasNoBreak(s[1..]);
      var r := FirstLine(s);
      forall j | 0 <= j < |r| ensures !IsLineTerminator(r[j]) {
        if j > 0 {
          assert r[j] == FirstLine(s[1..])[j - 1];
        }
      }
    }
  }

  /** A line with no terminator is its own first line. */
  lemma {:induction false} FirstLineWhole(s: string)
    requires forall j | 0 <= j < |s| :: !IsLineTerminator(s[j])
    ensures FirstLine(s) == s
    decreases |s|
  {
    if |s| > 0 {
      FirstLineWhole(s[1..]);
    }
  }

  /** The rest of `\*\s+as\s+(.*)` once the star has matched at the head of
      `t`'s predecessor: each `\s+` takes the whole whitespace run (the text
      after it must start with `a`, or may be anything for the last run), and
      group 1 is the first line of what follows. */
  function AsClause(t: string): (r: Option<string>)
    ensures r.Some? ==> |r.value| == 0 || !IsWhitespace(r.value[0])
    ensures r.Some? ==> forall j | 0 <= j < |r.value| :: !IsLineTerminator(r.value[j])
  {
    var n := LeadCount(t);
    if n == 0 || !StartsWith(t[n..], "as") then None
    else
      var u := t[n + 2..];
      var m := LeadCount(u);
      if m == 0 then None
      else
        FirstLineHasNoBreak(u[m..]);
        Some(FirstLine(u[m..]))
  }

  /** Group 1 of `/\*\s+as\s+(.*)/.exec(b)`: the leftmost star followed by
      `as` between whitespace runs names the alias; `None` when the pattern
      does not occur. */
  function NamespaceAlias(b: string): (r: Option<string>)
    ensures r.Some? ==> |r.value| == 0 || !IsWhitespace(r.value[0])
    ensures r.Some? ==> forall j | 0 <= j < |r.value| :: !IsLineTerminator(r.value[j])
    ensures (forall j | 0 <= j < |b| :: b[j] != '*') ==> r.None?
    decreases |b|
  {
    if |b| == 0 then None
    else if b[0] == '*' && AsClause(b[1..]).Some? then AsClause(b[1..])
    else NamespaceAlias(b[1..])
  }

  /** The alias written as `* as x` is read back as `x`, for an alias on one
      line that does not start with whitespace. */
  lemma NamespaceAliasRoundTrip(x: string)
    requires |x| == 0 || !IsWhitespace(x[0])
    requires forall j | 0 <= j < |x| :: !IsLineTerminator(x[j])
    ensures NamespaceAlias("* as " + x) == Some(x)
  {
    AsClauseOf(x);
    StarHead(" as " + x);
    StarAs(x);
  }

  lemma StarAs(x: string)
    ensures ['*'] + (" as " + x) == "* as " + x
  {
    assert ['*'] + " as " == "* as ";
  }

  lemma StarHead(t: string)
    requires AsClause(t).Some?
    ensures NamespaceAlias(['*'] + t) == AsClause(t)
  {
    assert (['*'] + t)[1..] == t;
  }

  lemma AsClauseOf(x: string)
    requires |x| == 0 || !IsWhitespace(x[0])
    requires forall j | 0 <= j < |x| :: !IsLineTerminator(x[j])
    ensures AsClause(" as " + x) == Some(x)
  {
    var v := "as " + x;
    var t := [' '] + v;
    assert t == " as " + x;
    LeadOne(v);
    assert t[1..] == v;
    assert StartsWith(v, "as");
    var u := [' '] + x;
    assert t[3..] == u;
    LeadOne(x);
    assert u[1..] == x;
    FirstLineWhole(x);
  }

  lemma LeadOne(s: string)
    requires |s| == 0 || !IsWhitespace(s[0])
    ensures LeadCount([' '] + s) == 1
  {
    assert ([' '] + s)[1..] == s;
  }
}
