/** String operations of the JavaScript standard library that the importer
    relies on, with the facts about them the rest of the model needs. */
module Text {

  /** The characters JavaScript's `\s` matches and `String.prototype.trim`
      removes: the WhiteSpace and LineTerminator productions of ECMAScript. */
  predicate IsWhitespace(c: char) {
    || c == ' ' || c == '\t' || c == '\n' || c == '\r'
    || c == '\U{000B}' || c == '\U{000C}' || c == '\U{00A0}' || c == '\U{1680}'
    || ('\U{2000}' <= c <= '\U{200A}')
    || c == '\U{2028}' || c == '\U{2029}' || c == '\U{202F}' || c == '\U{205F}'
    || c == '\U{3000}' || c == '\U{FEFF}'
  }

  /** The characters `.` in a JavaScript regular expression does not match. */
  predicate IsLineTerminator(c: char) {
    c == '\n' || c == '\r' || c == '\U{2028}' || c == '\U{2029}'
  }

  /** No whitespace at either end. */
  predicate IsTrimmed(s: string) {
    |s| == 0 || (!IsWhitespace(s[0]) && !IsWhitespace(s[|s| - 1]))
  }

  /** Length of the leading whitespace run. */
  function LeadCount(s: string): (n: nat)
    ensures n <= |s|
    ensures n < |s| ==> !IsWhitespace(s[n])
    decreases |s|
  {
    if |s| > 0 && IsWhitespace(s[0]) then 1 + LeadCount(s[1..]) else 0
  }

  /** Length of what is left once the trailing whitespace run is cut. */
  function KeepCount(s: string): (n: nat)
    ensures n <= |s|
    ensures n > 0 ==> !IsWhitespace(s[n - 1])
    decreases |s|
  {
    if |s| > 0 && IsWhitespace(s[|s| - 1]) then KeepCount(s[..|s| - 1]) else |s|
  }

  /** `s.trimStart()`: drops the leading whitespace run. */
  function TrimStart(s: string): (r: string)
    ensures |r| <= |s|
    ensures |r| > 0 ==> !IsWhitespace(r[0])
  {
    s[LeadCount(s)..]
  }

  /** `s.trimEnd()`: drops the trailing whitespace run. */
  function TrimEnd(s: string): (r: string)
    ensures |r| <= |s|
    ensures |r| > 0 ==> !IsWhitespace(r[|r| - 1])
  {
    s[..KeepCount(s)]
  }

  /** What `trimStart` drops is whitespace. */
  lemma {:induction false} TrimStartDrops(s: string)
    ensures forall i | 0 <= i < LeadCount(s) :: IsWhitespace(s[i])
    decreases |s|
  {
    if |s| > 0 && IsWhitespace(s[0]) {
      TrimStartDrops(s[1..]);
      forall i | 1 <= i < LeadCount(s) ensures IsWhitespace(s[i]) {
        assert s[i] == s[1..][i - 1];
      }
    }
  }

  /** What `trimEnd` drops is whitespace. */
  lemma {:induction false} TrimEndDrops(s: string)
    ensures forall i | KeepCount(s) <= i < |s| :: IsWhitespace(s[i])
    decreases |s|
  {
    if |s| > 0 && IsWhitespace(s[|s| - 1]) {
      TrimEndDrops(s[..|s| - 1]);
      forall i | KeepCount(s) <= i < |s| - 1 ensures IsWhitespace(s[i]) {
        assert s[i] == s[..|s| - 1][i];
      }
    }
  }

  /** `s.trim()`. */
  function Trim(s: string): (r: string)
    ensures IsTrimmed(r)
    ensures |r| <= |s|
    ensures IsTrimmed(s) ==> r == s
  {
    TrimEnd(TrimStart(s))
  }

  /** The trimmed text is empty exactly when the text is all whitespace. */
  lemma TrimEmpty(s: string)
    ensures |Trim(s)| == 0 <==> forall i | 0 <= i < |s| :: IsWhitespace(s[i])
  {
    var t := TrimStart(s);
    TrimStartDrops(s);
    TrimEndDrops(t);
    if |Trim(s)| == 0 {
      assert |t| == 0;
    } else if |t| > 0 {
      assert s[|s| - |t|] == t[0];
    }
  }

  /** Trimming twice is trimming once. */
  lemma TrimIdempotent(s: string)
    ensures Trim(Trim(s)) == Trim(s)
  {
  }

  predicate StartsWith(s: string, prefix: string) {
    |prefix| <= |s| && s[..|prefix|] == prefix
  }

  predicate EndsWith(s: string, suffix: string) {
    |suffix| <= |s| && s[|s| - |suffix|..] == suffix
  }

  /** `s.indexOf(t) >= 0`. */
  predicate Contains(s: string, t: string)
    decreases |s|
  {
    StartsWith(s, t) || (|s| > 0 && Contains(s[1..], t))
  }

  /** A word contains itself. */
  lemma ContainsSelf(s: string)
    ensures Contains(s, s)
  {
    assert s[..|s|] == s;
  }

  /** `p + t` contains `t`: a string contains each of its suffixes. */
  lemma {:induction false} ContainsSuffix(p: string, t: string)
    ensures Contains(p + t, t)
    decreases |p|
  {
    if |p| == 0 {
      assert p + t == t;
      ContainsSelf(t);
    } else {
      assert (p + t)[1..] == p[1..] + t;
      ContainsSuffix(p[1..], t);
    }
  }

  /** Lower-case mapping of one character (ASCII letters only). */
  function LowerChar(c: char): char {
    if 'A' <= c <= 'Z' then (c as int + 32) as char else c
  }

  /** `s.toLocaleLowerCase()`, restricted to ASCII letters. */
  function Lower(s: string): (r: string)
    ensures |r| == |s|
  {
    seq(|s|, i requires 0 <= i < |s| => LowerChar(s[i]))
  }

  /** `s` with every character of `seps` replaced by `c`. */
  function ReplaceChars(s: string, seps: set<char>, c: char): (r: string)
    ensures |r| == |s|
  {
    seq(|s|, i requires 0 <= i < |s| => if s[i] in seps then c else s[i])
  }

  /** `s.split(re)` for a regular expression `re` that matches exactly one
      character of `seps`: the pieces between separators, in order, empty
      pieces included. */
  function Split(s: string, seps: set<char>): (r: seq<string>)
    ensures |r| >= 1
    decreases |s|
  {
    if |s| == 0 then [""]
    else
      var rest := Split(s[1..], seps);
      if s[0] in seps then [""] + rest
      else [[s[0]] + rest[0]] + rest[1..]
  }

  /** No piece of a split holds a separator. */
  lemma {:induction false} SplitAvoids(s: string, seps: set<char>)
    ensures forall i, j | 0 <= i < |Split(s, seps)| && 0 <= j < |Split(s, seps)[i]| :: Split(s, seps)[i][j] !in seps
    decreases |s|
  {
    if |s| > 0 {
      var rest := Split(s[1..], seps);
      var r := Split(s, seps);
      SplitAvoids(s[1..], seps);
      forall i, j | 0 <= i < |r| && 0 <= j < |r[i]| ensures r[i][j] !in seps {
        if s[0] in seps {
          assert r[i][j] == rest[i - 1][j];
        } else {
          if i == 0 {
            if j > 0 {
              assert r[0][j] == rest[0][j - 1];
            } else {
              assert r[0][0] == s[0];
            }
          } else {
            assert r[i][j] == rest[i][j];
          }
        }
      }
    }
  }

  /** `parts.join(sep)`. */
  function Join(sep: string, parts: seq<string>): string
    decreases |parts|
  {
    if |parts| == 0 then ""
    else if |parts| == 1 then parts[0]
    else parts[0] + sep + Join(sep, parts[1..])
  }

  /** Number of occurrences of `c` in `s`. */
  function Occurrences(s: string, c: char): nat
    decreases |s|
  {
    if |s| == 0 then 0 else (if s[0] == c then 1 else 0) + Occurrences(s[1..], c)
  }

  lemma {:induction false} JoinPrepend(sep: string, x: string, parts: seq<string>)
    requires |parts| >= 1
    ensures Join(sep, [x + parts[0]] + parts[1..]) == x + Join(sep, parts)
  {
    var ps := [x + parts[0]] + parts[1..];
    if |parts| > 1 {
      assert ps[1..] == parts[1..];
    }
  }

  /** Joining the pieces of a split with `c` gives back the text with every
      separator turned into `c`. */
  lemma {:induction false} JoinSplit(s: string, seps: set<char>, c: char)
    ensures Join([c], Split(s, seps)) == ReplaceChars(s, seps, c)
    decreases |s|
  {
    if |s| > 0 {
      var rest := Split(s[1..], seps);
      JoinSplit(s[1..], seps, c);
      assert ReplaceChars(s, seps, c) == [if s[0] in seps then c else s[0]] + ReplaceChars(s[1..], seps, c);
      if s[0] in seps {
        var ps := [""] + rest;
        assert ps[1..] == rest;
      } else {
        JoinPrepend([c], [s[0]], rest);
      }
    }
  }

  /** Splitting text that starts with a separator-free run. */
  lemma {:induction false} SplitPrefix(x: string, rest: string, seps: set<char>)
    requires forall j | 0 <= j < |x| :: x[j] !in seps
    ensures Split(x + rest, seps) == [x + Split(rest, seps)[0]] + Split(rest, seps)[1..]
    decreases |x|
  {
    var S := Split(rest, seps);
    if |x| > 0 {
      assert (x + rest)[0] == x[0];
      assert (x + rest)[1..] == x[1..] + rest;
      SplitPrefix(x[1..], rest, seps);
      var R := Split(x[1..] + rest, seps);
      assert R[0] == x[1..] + S[0] && R[1..] == S[1..];
      assert Split(x + rest, seps) == [[x[0]] + R[0]] + R[1..];
      assert [x[0]] + (x[1..] + S[0]) == x + S[0];
    } else {
      assert x + rest == rest;
      assert x + S[0] == S[0];
      assert [S[0]] + S[1..] == S;
    }
  }

  /** Splitting a join on one of the separators gives back the parts, when no
      part contains a separator. */
  lemma {:induction false} SplitJoin(parts: seq<string>, seps: set<char>, c: char)
    requires |parts| >= 1 && c in seps
    requires forall i, j | 0 <= i < |parts| && 0 <= j < |parts[i]| :: parts[i][j] !in seps
    ensures Split(Join([c], parts), seps) == parts
    decreases |parts|
  {
    if |parts| == 1 {
      SplitPrefix(parts[0], "", seps);
      assert parts[0] + "" == parts[0];
    } else {
      var tail := Join([c], parts[1..]);
      SplitJoin(parts[1..], seps, c);
      assert Join([c], parts) == parts[0] + ([c] + tail);
      SplitPrefix(parts[0], [c] + tail, seps);
      assert ([c] + tail)[0] == c;
      assert ([c] + tail)[1..] == tail;
      assert Split([c] + tail, seps) == [""] + parts[1..];
      assert parts[0] + "" == parts[0];
      assert [parts[0]] + parts[1..] == parts;
    }
  }

  lemma {:induction false} OccurrencesAppend(a: string, b: string, c: char)
    ensures Occurrences(a + b, c) == Occurrences(a, c) + Occurrences(b, c)
    decreases |a|
  {
    if |a| > 0 {
      assert (a + b)[0] == a[0];
      assert (a + b)[1..] == a[1..] + b;
      OccurrencesAppend(a[1..], b, c);
    } else {
      assert a + b == b;
    }
  }

  /** A split on a single separator has one more piece than the text has
      separators. */
  lemma {:induction false} SplitCount(s: string, c: char)
    ensures |Split(s, {c})| == Occurrences(s, c) + 1
    decreases |s|
  {
    if |s| > 0 {
      SplitCount(s[1..], c);
    }
  }

  lemma {:induction false} OccurrencesInWhitespace(s: string, c: char)
    requires !IsWhitespace(c)
    requires forall i | 0 <= i < |s| :: IsWhitespace(s[i])
    ensures Occurrences(s, c) == 0
    decreases |s|
  {
    if |s| > 0 {
      OccurrencesInWhitespace(s[1..], c);
    }
  }

  /** Trimming never removes a non-whitespace character. */
  lemma TrimKeepsOccurrences(s: string, c: char)
    requires !IsWhitespace(c)
    ensures Occurrences(Trim(s), c) == Occurrences(s, c)
  {
    TrimStartKeeps(s, c);
    TrimEndKeeps(TrimStart(s), c);
  }

  lemma TrimStartKeeps(s: string, c: char)
    requires !IsWhitespace(c)
    ensures Occurrences(TrimStart(s), c) == Occurrences(s, c)
  {
    var t := TrimStart(s);
    var lead := s[..|s| - |t|];
    assert s == lead + t;
    TrimStartDrops(s);
    assert forall i | 0 <= i < |lead| :: IsWhitespace(lead[i]);
    OccurrencesAppend(lead, t, c);
    OccurrencesInWhitespace(lead, c);
  }

  lemma TrimEndKeeps(t: string, c: char)
    requires !IsWhitespace(c)
    ensures Occurrences(TrimEnd(t), c) == Occurrences(t, c)
  {
    var r := TrimEnd(t);
    var trail := t[|r|..];
    assert t == r + trail;
    TrimEndDrops(t);
    assert forall i | 0 <= i < |trail| :: IsWhitespace(trail[i]);
    OccurrencesAppend(r, trail, c);
    OccurrencesInWhitespace(trail, c);
  }

  /** A split with no separator in the text is the text itself. */
  lemma {:induction false} SplitSingle(s: string, seps: set<char>)
    ensures |Split(s, seps)| == 1 ==> Split(s, seps)[0] == s
    decreases |s|
  {
    if |s| > 0 {
      SplitSingle(s[1..], seps);
      var rest := Split(s[1..], seps);
      if s[0] !in seps && |rest| == 1 {
        assert [s[0]] + rest[0] == s;
      }
    }
  }

  /** A split piece that is empty only when the text it stands for is. */
  lemma SplitEmpty(s: string, seps: set<char>)
    requires |Split(s, seps)| == 1 && |Split(s, seps)[0]| == 0
    ensures |s| == 0
  {
  }

  /** The first piece of a split begins where the text begins. */
  lemma SplitFirstChar(s: string, seps: set<char>)
    ensures var p := Split(s, seps)[0]; |p| > 0 ==> |s| > 0 && p[0] == s[0]
  {
  }

  /** The last piece of a split ends where the text ends. */
  lemma {:induction false} SplitLastChar(s: string, seps: set<char>)
    ensures var r := Split(s, seps); var p := r[|r| - 1];
      |p| > 0 ==> |s| > 0 && p[|p| - 1] == s[|s| - 1]
    decreases |s|
  {
    if |s| > 0 {
      var rest := Split(s[1..], seps);
      var r := Split(s, seps);
      SplitLastChar(s[1..], seps);
      if s[0] in seps || |rest| > 1 {
        assert r[|r| - 1] == rest[|rest| - 1];
        assert |s| == 1 || s[|s| - 1] == s[1..][|s| - 2];
      } else {
        var p := [s[0]] + rest[0];
        assert r == [p];
        if |rest[0]| == 0 {
          SplitEmpty(s[1..], seps);
        } else {
          assert p[|p| - 1] == rest[0][|rest[0]| - 1];
        }
      }
    }
  }

  /** What `\s*,\s*` leaves of one comma-free piece: the whitespace next to
      a comma goes with the comma, so a piece is trimmed on each side that
      borders a comma and kept as is on a side that is the end of the text. */
  function Tidy(p: string, first: bool, last: bool): (r: string)
    ensures |r| <= |p|
  {
    if first && last then p
    else if first then TrimEnd(p)
    else if last then TrimStart(p)
    else Trim(p)
  }

  /** A piece that starts the text keeps its first character. */
  lemma TidyFirst(p: string, last: bool)
    ensures |Tidy(p, true, last)| > 0 ==> Tidy(p, true, last)[0] == p[0]
  {
  }

  /** A piece that ends the text keeps its last character. */
  lemma TidyLast(p: string, first: bool)
    ensures |Tidy(p, first, true)| > 0 ==> Tidy(p, first, true)[|Tidy(p, first, true)| - 1] == p[|p| - 1]
  {
  }

  /** The whitespace next to a comma is gone. */
  lemma TidyInner(p: string, first: bool, last: bool)
    ensures !first && |Tidy(p, first, last)| > 0 ==> !IsWhitespace(Tidy(p, first, last)[0])
    ensures !last && |Tidy(p, first, last)| > 0 ==>
      !IsWhitespace(Tidy(p, first, last)[|Tidy(p, first, last)| - 1])
  {
  }

  /** Tidying only cuts characters off the ends, so it adds no character. */
  lemma TidyAvoids(p: string, first: bool, last: bool, c: char)
    requires forall j | 0 <= j < |p| :: p[j] != c
    ensures forall j | 0 <= j < |Tidy(p, first, last)| :: Tidy(p, first, last)[j] != c
  {
    var r := Tidy(p, first, last);
    var a := if first then 0 else LeadCount(p);
    forall j | 0 <= j < |r| ensures r[j] != c {
      if !first {
        assert TrimStart(p)[j] == p[a + j];
      }
      assert r[j] == p[a + j];
    }
  }

  /** The separator set of a comma-separated list. */
  const Commas: set<char> := {','}

  /** `s.split(re)` where `re` is the regular expression `\s*,\s*`: the
      comma-separated pieces, the whitespace around each comma absorbed into
      the separator. Whitespace at the very start and end stays. */
  function SplitList(s: string): (r: seq<string>)
    ensures var raw := Split(s, Commas);
      |r| == |raw| && forall i | 0 <= i < |r| :: r[i] == Tidy(raw[i], i == 0, i == |r| - 1)
  {
    var raw := Split(s, Commas);
    seq(|raw|, i requires 0 <= i < |raw| => Tidy(raw[i], i == 0, i == |raw| - 1))
  }

  /** One piece per comma, plus one. */
  lemma SplitListCount(s: string)
    ensures |SplitList(s)| == Occurrences(s, ',') + 1
  {
    SplitCount(s, ',');
    assert {','} == Commas;
  }

  /** No piece holds a comma or the whitespace next to a comma. */
  lemma SplitListShape(s: string)
    ensures var r := SplitList(s);
      && (forall i, j | 0 <= i < |r| && 0 <= j < |r[i]| :: r[i][j] != ',')
      && (forall i | 0 < i < |r| :: |r[i]| > 0 ==> !IsWhitespace(r[i][0]))
      && (forall i | 0 <= i < |r| - 1 :: |r[i]| > 0 ==> !IsWhitespace(r[i][|r[i]| - 1]))
  {
    var r := SplitList(s);
    forall i | 0 <= i < |r|
      ensures forall j | 0 <= j < |r[i]| :: r[i][j] != ','
      ensures i > 0 && |r[i]| > 0 ==> !IsWhitespace(r[i][0])
      ensures i < |r| - 1 && |r[i]| > 0 ==> !IsWhitespace(r[i][|r[i]| - 1])
    {
      PieceShape(s, i);
    }
  }

  lemma PieceShape(s: string, i: nat)
    requires i < |SplitList(s)|
    ensures var p := SplitList(s)[i]; forall j | 0 <= j < |p| :: p[j] != ','
    ensures var p := SplitList(s)[i]; i > 0 && |p| > 0 ==> !IsWhitespace(p[0])
    ensures var p := SplitList(s)[i];
      i < |SplitList(s)| - 1 && |p| > 0 ==> !IsWhitespace(p[|p| - 1])
  {
    var raw := Split(s, Commas);
    var n := |SplitList(s)|;
    assert SplitList(s)[i] == Tidy(raw[i], i == 0, i == n - 1);
    RawPieceAvoids(s, i);
    TidyShape(raw[i], i == 0, i == n - 1);
  }

  lemma RawPieceAvoids(s: string, i: nat)
    requires i < |Split(s, Commas)|
    ensures forall j | 0 <= j < |Split(s, Commas)[i]| :: Split(s, Commas)[i][j] != ','
  {
    SplitAvoids(s, Commas);
  }

  lemma TidyShape(q: string, first: bool, last: bool)
    requires forall j | 0 <= j < |q| :: q[j] != ','
    ensures var p := Tidy(q, first, last); forall j | 0 <= j < |p| :: p[j] != ','
    ensures var p := Tidy(q, first, last); !first && |p| > 0 ==> !IsWhitespace(p[0])
    ensures var p := Tidy(q, first, last); !last && |p| > 0 ==> !IsWhitespace(p[|p| - 1])
  {
    TidyAvoids(q, first, last, ',');
    TidyInner(q, first, last);
  }

  lemma SplitListTrimmed(s: string)
    requires IsTrimmed(s)
    ensures forall i | 0 <= i < |SplitList(s)| :: IsTrimmed(SplitList(s)[i])
  {
    forall i | 0 <= i < |SplitList(s)| ensures IsTrimmed(SplitList(s)[i]) {
      PieceTrimmed(s, i);
    }
  }

  lemma PieceTrimmed(s: string, i: nat)
    requires IsTrimmed(s) && i < |SplitList(s)|
    ensures IsTrimmed(SplitList(s)[i])
  {
    var raw := Split(s, Commas);
    var r := SplitList(s);
    var p := r[i];
    if |p| > 0 {
      if i == 0 {
        assert p == Tidy(raw[0], true, i == |r| - 1);
        TidyFirst(raw[0], i == |r| - 1);
        SplitFirstChar(s, Commas);
      }
      if i == |r| - 1 {
        var q := raw[i];
        assert p == Tidy(q, i == 0, true);
        TidyLast(q, i == 0);
        assert q == raw[|raw| - 1];
        SplitLastChar(s, Commas);
      }
    }
  }

  /** The list separator `join(', ')` writes. */
  const ListSeparator: string := ", "

  /** The raw pieces of a `", "`-join split at its commas. */
  function Spaced(parts: seq<string>): (r: seq<string>)
    ensures |r| == |parts|
  {
    seq(|parts|, i requires 0 <= i < |parts| => if i == 0 then parts[i] else " " + parts[i])
  }

  lemma {:induction false} JoinSpaced(parts: seq<string>)
    ensures Join(ListSeparator, parts) == Join([','], Spaced(parts))
    decreases |parts|
  {
    if |parts| > 1 {
      JoinSpaced(parts[1..]);
      var sp := Spaced(parts);
      var rest := Spaced(parts[1..]);
      assert sp[1..] == [" " + parts[1]] + rest[1..];
      JoinPrepend([','], " ", rest);
      assert [' '] + rest[0] == " " + parts[1];
    }
  }

  /** The raw comma split of a `", "`-join. */
  lemma SplitSpaced(parts: seq<string>)
    requires |parts| >= 1
    requires forall i | 0 <= i < |parts| :: ',' !in parts[i]
    ensures Split(Join(ListSeparator, parts), Commas) == Spaced(parts)
  {
    var sp := Spaced(parts);
    JoinSpaced(parts);
    forall i, j | 0 <= i < |sp| && 0 <= j < |sp[i]|
      ensures sp[i][j] !in Commas
    {
      if i > 0 && j > 0 {
        assert sp[i][j] == parts[i][j - 1];
      }
    }
    SplitJoin(sp, Commas, ',');
  }

  /** Splitting a `", "`-join of trimmed, comma-free items gives the items
      back. */
  lemma SplitListJoin(parts: seq<string>)
    requires |parts| >= 1
    requires forall i | 0 <= i < |parts| :: IsTrimmed(parts[i]) && ',' !in parts[i]
    ensures SplitList(Join(ListSeparator, parts)) == parts
  {
    SplitSpaced(parts);
    var r := SplitList(Join(ListSeparator, parts));
    forall i | 0 <= i < |parts| ensures r[i] == parts[i] {
      TidySpaced(parts, i);
    }
  }

  lemma TidySpaced(parts: seq<string>, i: nat)
    requires i < |parts| && IsTrimmed(parts[i])
    ensures Tidy(Spaced(parts)[i], i == 0, i == |parts| - 1) == parts[i]
  {
    TrimmedFixed(parts[i]);
  }

  lemma TrimmedFixed(p: string)
    requires IsTrimmed(p)
    ensures TrimStart(p) == p && TrimEnd(p) == p
    ensures TrimStart(" " + p) == p && Trim(" " + p) == p
  {
    var q := " " + p;
    assert q[0] == ' ' && IsWhitespace(q[0]);
    assert q[1..] == p;
    assert TrimStart(q) == TrimStart(p);
  }

  /** Splitting a plain comma-join of trimmed, comma-free items gives the
      items back. */
  lemma SplitListJoinComma(parts: seq<string>)
    requires |parts| >= 1
    requires forall i | 0 <= i < |parts| :: IsTrimmed(parts[i]) && ',' !in parts[i]
    ensures SplitList(Join([','], parts)) == parts
  {
    var s := Join([','], parts);
    SplitCommaJoin(parts);
    var r := SplitList(s);
    assert |r| == |parts|;
    forall i | 0 <= i < |parts| ensures r[i] == parts[i] {
      assert r[i] == Tidy(Split(s, Commas)[i], i == 0, i == |r| - 1);
      TidyTrimmed(parts[i], i == 0, i == |parts| - 1);
    }
  }

  lemma SplitCommaJoin(parts: seq<string>)
    requires |parts| >= 1
    requires forall i | 0 <= i < |parts| :: ',' !in parts[i]
    ensures Split(Join([','], parts), Commas) == parts
  {
    forall i, j | 0 <= i < |parts| && 0 <= j < |parts[i]| ensures parts[i][j] !in Commas {
      assert parts[i][j] in parts[i];
    }
    SplitJoin(parts, Commas, ',');
  }

  lemma TidyTrimmed(p: string, first: bool, last: bool)
    requires IsTrimmed(p)
    ensures Tidy(p, first, last) == p
  {
    TrimmedFixed(p);
  }

  /** Joining with the last part emptied gives everything up to and
      including the last separator. */
  lemma {:induction false} JoinClearLast(sep: string, parts: seq<string>)
    requires |parts| >= 1
    ensures Join(sep, parts[..|parts| - 1] + [""]) + parts[|parts| - 1] == Join(sep, parts)
    ensures |parts| >= 2 ==> EndsWith(Join(sep, parts[..|parts| - 1] + [""]), sep)
  {
    var n := |parts|;
    var init := parts[..n - 1];
    if n == 1 {
      assert init + [""] == [""];
      assert "" + parts[0] == parts[0];
    } else {
      JoinSnoc(sep, init, "");
      JoinSnoc(sep, init, parts[n - 1]);
      assert init + [parts[n - 1]] == parts;
      var w := Join(sep, init) + sep;
      assert Join(sep, init) + sep + "" == w;
      assert w[|w| - |sep|..] == sep;
    }
  }

  /** Joining one more part appends the separator and the part. */
  lemma {:induction false} JoinSnoc(sep: string, xs: seq<string>, y: string)
    requires |xs| >= 1
    ensures Join(sep, xs + [y]) == Join(sep, xs) + sep + y
    decreases |xs|
  {
    if |xs| == 1 {
      assert (xs + [y])[1..] == [y];
    } else {
      JoinSnoc(sep, xs[1..], y);
      assert (xs + [y])[1..] == xs[1..] + [y];
    }
  }

  /** JavaScript's default string ordering: lexicographic on characters, a
      proper prefix first. */
  predicate StrLess(a: string, b: string)
    decreases |a|
  {
    |b| > 0 && (|a| == 0 || a[0] < b[0] || (a[0] == b[0] && StrLess(a[1..], b[1..])))
  }

  lemma {:induction false} StrLessIrreflexive(a: string)
    ensures !StrLess(a, a)
    decreases |a|
  {
    if |a| > 0 {
      StrLessIrreflexive(a[1..]);
    }
  }

  lemma {:induction false} StrLessTransitive(a: string, b: string, c: string)
    requires StrLess(a, b) && StrLess(b, c)
    ensures StrLess(a, c)
    decreases |a|
  {
    if |a| > 0 && a[0] == b[0] && b[0] == c[0] {
      StrLessTransitive(a[1..], b[1..], c[1..]);
    }
  }

  lemma {:induction false} StrLessTotal(a: string, b: string)
    requires a != b
    ensures StrLess(a, b) || StrLess(b, a)
    decreases |a|
  {
    if |a| > 0 && |b| > 0 && a[0] == b[0] {
      assert a == [a[0]] + a[1..] && b == [b[0]] + b[1..];
      StrLessTotal(a[1..], b[1..]);
    }
  }
}
