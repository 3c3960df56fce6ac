/** The file-extension list of the importer's settings and the suffix strip
    that turns a file name into a module name
    (src/TypeScriptImporter.ts:80-83, 127-138). */
module FileExtensions {
  import opened Wrappers
  import opened Text

  /** The setting's value when the user has not set it. */
  const DefaultExtensions: string := ".d.ts,.ts,.tsx"

  /** The extension list: the setting (or its default) trimmed and split at
      commas, the whitespace around each comma absorbed. */
  function ParseExtensions(setting: Option<string>): seq<string> {
    SplitList(Trim(setting.GetOr(DefaultExtensions)))
  }

  /** Every entry is trimmed and comma-free, and there is one entry per comma
      of the setting, plus one. */
  lemma ParseExtensionsShape(setting: Option<string>)
    ensures var r := ParseExtensions(setting);
      && |r| == Occurrences(setting.GetOr(DefaultExtensions), ',') + 1
      && (forall i | 0 <= i < |r| :: IsTrimmed(r[i]))
      && (forall i, j | 0 <= i < |r| && 0 <= j < |r[i]| :: r[i][j] != ',')
  {
    var t := Trim(setting.GetOr(DefaultExtensions));
    TrimKeepsOccurrences(setting.GetOr(DefaultExtensions), ',');
    SplitListCount(t);
    SplitListTrimmed(t);
    SplitListShape(t);
  }

  /** With no setting, the list is `.d.ts`, `.ts`, `.tsx`, in that order. */
  lemma DefaultList()
    ensures ParseExtensions(None) == [".d.ts", ".ts", ".tsx"]
  {
    var parts := [".d.ts", ".ts", ".tsx"];
    DefaultIsJoin();
    SplitListJoinComma(parts);
    assert SplitList(DefaultExtensions) == parts;
  }

  lemma DefaultIsJoin()
    ensures Join([','], [".d.ts", ".ts", ".tsx"]) == DefaultExtensions
    ensures Trim(DefaultExtensions) == DefaultExtensions
  {
    TrimmedFixed(DefaultExtensions);
  }

  /** Entry `i` is the first entry in list order that `fileName` ends with. */
  predicate IsFirstSuffix(exts: seq<string>, fileName: string, i: int) {
    && 0 <= i < |exts|
    && EndsWith(fileName, exts[i])
    && forall j | 0 <= j < i :: !EndsWith(fileName, exts[j])
  }

  /** `fileName` ends with none of the entries. */
  predicate NoSuffix(exts: seq<string>, fileName: string) {
    forall j | 0 <= j < |exts| :: !EndsWith(fileName, exts[j])
  }

  /** `removeFileExtension`: cuts off the first entry of the list that the
      name ends with, which need not be the longest; a name that ends with
      none comes back unchanged. */
  function RemoveFileExtension(exts: seq<string>, fileName: string): (r: string)
    ensures NoSuffix(exts, fileName) ==> r == fileName
    ensures forall i | IsFirstSuffix(exts, fileName, i) :: r + exts[i] == fileName
    decreases |exts|
  {
    if |exts| == 0 then fileName
    else if EndsWith(fileName, exts[0]) then
      var r := fileName[..|fileName| - |exts[0]|];
      assert r + exts[0] == fileName;
      r
    else
      var r := RemoveFileExtension(exts[1..], fileName);
      assert forall i | IsFirstSuffix(exts, fileName, i) :: IsFirstSuffix(exts[1..], fileName, i - 1);
      r
  }

  /** Either no entry matches or exactly one entry is the first that does. */
  lemma FirstSuffixCases(exts: seq<string>, fileName: string)
    ensures NoSuffix(exts, fileName) <==> !exists i :: IsFirstSuffix(exts, fileName, i)
    ensures forall i, j | IsFirstSuffix(exts, fileName, i) && IsFirstSuffix(exts, fileName, j) :: i == j
  {
    if !NoSuffix(exts, fileName) {
      var k :| 0 <= k < |exts| && EndsWith(fileName, exts[k]);
      FirstMatchExists(exts, fileName, k);
    }
  }

  lemma {:induction false} FirstMatchExists(exts: seq<string>, fileName: string, k: int)
    requires 0 <= k < |exts| && EndsWith(fileName, exts[k])
    ensures exists i :: IsFirstSuffix(exts, fileName, i)
    decreases k
  {
    if !IsFirstSuffix(exts, fileName, k) {
      var j :| 0 <= j < k && EndsWith(fileName, exts[j]);
      FirstMatchExists(exts, fileName, j);
    }
  }

  /** The first match wins over a longer later one. */
  lemma FirstNotLongest()
    ensures RemoveFileExtension([".ts", ".d.ts"], "index.d.ts") == "index.d"
  {
    var f := "index.d.ts";
    assert EndsWith(f, ".ts");
    assert IsFirstSuffix([".ts", ".d.ts"], f, 0);
    assert f == "index.d" + ".ts";
  }

  /** With the default list, a declaration file loses its whole `.d.ts`. */
  lemma DefaultStripsDeclaration()
    ensures RemoveFileExtension(ParseExtensions(None), "index.d.ts") == "index"
  {
    DefaultList();
    StripDeclaration([".d.ts", ".ts", ".tsx"]);
  }

  lemma StripDeclaration(exts: seq<string>)
    requires |exts| > 0 && exts[0] == ".d.ts"
    ensures RemoveFileExtension(exts, "index.d.ts") == "index"
  {
    var f := "index.d.ts";
    assert EndsWith(f, ".d.ts");
    assert IsFirstSuffix(exts, f, 0);
    assert f == "index" + ".d.ts";
  }
}
