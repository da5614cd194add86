/** The display helpers of a result card.
    - `SearchResultComponent.lang` picks the highlight language from the file
      extension.
    - `SearchResultComponent.url` and `SearchResultsComponent.getURL` build
      the link to the first line of the snippet that mentions the query. */
module ResultView {
  import opened Wrappers
  import opened Strings
  import opened GitlabModel

  // ---------------------------------------------------------------------
  // File extension
  // ---------------------------------------------------------------------

  /** Group 1 of `filename.match(/\.(\w+)$/)`: the run of word characters
      that ends the name, when a dot comes right before it. */
  function Extension(filename: string): (r: Option<string>)
    ensures r.Some? ==> |r.value| > 0 && AllWordChars(r.value) && EndsWith(filename, "." + r.value)
  {
    var n := TrailingWordRun(filename);
    if 0 < n < |filename| && filename[|filename| - n - 1] == '.' then
      var ext := filename[|filename| - n..];
      assert filename[|filename| - |"." + ext|..] == "." + ext;
      Some(ext)
    else None
  }

  /** The regular expression matches exactly when the name ends with a dot
      and a non-empty run of word characters, and that run is the group. */
  lemma ExtensionIffDotWordSuffix(filename: string, ext: string)
    ensures Extension(filename) == Some(ext) <==> |ext| > 0 && AllWordChars(ext) && EndsWith(filename, "." + ext)
  {
    if |ext| > 0 && AllWordChars(ext) && EndsWith(filename, "." + ext) {
      var k := |ext|;
      assert filename[|filename| - k - 1] == '.';
      assert filename[|filename| - k..] == ext;
      TrailingRunExact(filename, k);
    }
  }

  lemma {:induction false} TrailingRunExact(s: string, k: nat)
    requires k < |s| && AllWordChars(s[|s| - k..]) && !IsWordChar(s[|s| - k - 1])
    ensures TrailingWordRun(s) == k
    decreases k
  {
    if k > 0 {
      var init := s[..|s| - 1];
      assert s[|s| - 1] == s[|s| - k..][k - 1];
      assert init[|init| - (k - 1)..] == s[|s| - k..|s| - 1];
      assert s[|s| - k..][..k - 1] == s[|s| - k..|s| - 1];
      assert init[|init| - (k - 1) - 1] == s[|s| - k - 1];
      TrailingRunExact(init, k - 1);
    }
  }

  // ---------------------------------------------------------------------
  // Language lookup
  // ---------------------------------------------------------------------

  /** The own properties of the `extToLang` record. */
  function ExtToLang(ext: string): Option<string> {
    match ext
    case "sh" => Some("bash")
    case "zsh" => Some("bash")
    case "c" => Some("c")
    case "cc" => Some("cpp")
    case "cpp" => Some("cpp")
    case "cxx" => Some("cpp")
    case "h" => Some("cpp")
    case "hh" => Some("cpp")
    case "hpp" => Some("cpp")
    case "hxx" => Some("cpp")
    case "css" => Some("css")
    case "dart" => Some("dart")
    case "dockerfile" => Some("dockerfile")
    case "go" => Some("go")
    case "java" => Some("java")
    case "js" => Some("javascript")
    case "jsx" => Some("javascript")
    case "json" => Some("json")
    case "kt" => Some("kotlin")
    case "ktc" => Some("kotlin")
    case "lua" => Some("lua")
    case "md" => Some("markdown")
    case "php" => Some("php")
    case "proto" => Some("protobuf")
    case "py" => Some("python")
    case "rb" => Some("ruby")
    case "rs" => Some("rust")
    case "scss" => Some("scss")
    case "sql" => Some("sql")
    case "swift" => Some("swift")
    case "ts" => Some("typescript")
    case "tsx" => Some("typescript")
    case "xml" => Some("xml")
    case "html" => Some("xml")
    case "yaml" => Some("yaml")
    case "yml" => Some("yaml")
    case _ => None
  }

  /** The properties a plain object literal inherits from
      `Object.prototype`, which a bracket lookup also finds. */
  const ObjectPrototypeKeys: set<string> := {
    "constructor", "__defineGetter__", "__defineSetter__", "hasOwnProperty",
    "__lookupGetter__", "__lookupSetter__", "isPrototypeOf", "propertyIsEnumerable",
    "toString", "valueOf", "__proto__", "toLocaleString"}

  /** What `extToLang[ext] ?? 'plaintext'` can evaluate to: a language
      name, or an inherited `Object.prototype` member (a function or an
      object), which is not nullish and so is returned as is. */
  datatype LangValue = LangName(name: string) | Inherited(member: string)

  /** `lang()` as written: the bracket lookup also reaches inherited
      members. */
  function LangAsWritten(filename: string): (r: LangValue)
    ensures r.Inherited? ==> r.member in ObjectPrototypeKeys && ExtToLang(r.member).None?
  {
    match Extension(filename)
    case None => LangName("plaintext")
    case Some(e) =>
      var ext := Lower(e);
      match ExtToLang(ext)
      case Some(l) => LangName(l)
      case None => if ext in ObjectPrototypeKeys then Inherited(ext) else LangName("plaintext")
  }

  /** A file named `<base>.constructor` gets the inherited constructor,
      not 'plaintext'. */
  lemma LangAsWrittenConstructor(base: string)
    ensures LangAsWritten(base + ".constructor") == Inherited("constructor")
  {
    ExtensionOfConstructor(base);
    ConstructorIsLowerCase();
    InheritedNamesAreNotOwn();
  }

  /** A file named `<base>.__proto__` gets the inherited prototype object,
      not 'plaintext'. */
  lemma LangAsWrittenProto(base: string)
    ensures LangAsWritten(base + ".__proto__") == Inherited("__proto__")
  {
    ExtensionOfProto(base);
    ProtoIsLowerCase();
    InheritedNamesAreNotOwn();
  }

  lemma ExtensionOfConstructor(base: string)
    ensures Extension(base + ".constructor") == Some("constructor")
  {
    var f := base + ".constructor";
    assert "." + "constructor" == ".constructor";
    assert f[|f| - |".constructor"|..] == ".constructor";
    ExtensionIffDotWordSuffix(f, "constructor");
  }

  lemma ExtensionOfProto(base: string)
    ensures Extension(base + ".__proto__") == Some("__proto__")
  {
    var f := base + ".__proto__";
    assert "." + "__proto__" == ".__proto__";
    assert f[|f| - |".__proto__"|..] == ".__proto__";
    ExtensionIffDotWordSuffix(f, "__proto__");
  }

  lemma ConstructorIsLowerCase()
    ensures Lower("constructor") == "constructor"
  {
    LowerKeepsLowerCase("constructor");
  }

  lemma ProtoIsLowerCase()
    ensures Lower("__proto__") == "__proto__"
  {
    LowerKeepsLowerCase("__proto__");
  }

  lemma InheritedNamesAreNotOwn()
    ensures ExtToLang("constructor").None? && ExtToLang("__proto__").None?
    ensures "constructor" in ObjectPrototypeKeys && "__proto__" in ObjectPrototypeKeys
  {
  }

  predicate HasUpper(s: string) {
    exists i :: 0 <= i < |s| && 'A' <= s[i] <= 'Z'
  }

  lemma LowerHasNoUpper(s: string)
    ensures !HasUpper(Lower(s))
  {
  }

  /** Every inherited name except `constructor` and `__proto__` has an
      upper-case letter. */
  lemma MixedCaseInheritedNames()
    ensures forall k :: k in ObjectPrototypeKeys && k != "constructor" && k != "__proto__" ==> HasUpper(k)
  {
    assert "__defineGetter__"[8] == 'G';
    assert "__defineSetter__"[8] == 'S';
    assert "hasOwnProperty"[3] == 'O';
    assert "__lookupGetter__"[8] == 'G';
    assert "__lookupSetter__"[8] == 'S';
    assert "isPrototypeOf"[2] == 'P';
    assert "propertyIsEnumerable"[8] == 'I';
    assert "toString"[2] == 'S';
    assert "valueOf"[5] == 'O';
    assert "toLocaleString"[2] == 'L';
  }

  /** Because the extension is lower-cased first, `constructor` and
      `__proto__` are the only inherited members the lookup can reach. */
  lemma InheritedOnlyConstructorOrProto(filename: string)
    ensures LangAsWritten(filename).Inherited? ==>
      LangAsWritten(filename).member == "constructor" || LangAsWritten(filename).member == "__proto__"
  {
    match Extension(filename)
    case None =>
    case Some(e) =>
      LowerHasNoUpper(e);
      MixedCaseInheritedNames();
  }

  /** The group of a name built as `base.ext`. */
  lemma ExtensionExample(base: string, ext: string)
    requires |ext| > 0 && AllWordChars(ext)
    ensures Extension(base + "." + ext) == Some(ext)
  {
    var f := base + "." + ext;
    assert f[|f| - |"." + ext|..] == "." + ext;
    ExtensionIffDotWordSuffix(f, ext);
  }

  /** `lang()` with an own-property lookup: 'plaintext' without an
      extension or for an extension that is not a key of the table. */
  function Lang(filename: string): (r: string)
    ensures r == "plaintext" || exists ext :: ExtToLang(ext) == Some(r)
    ensures Extension(filename).None? ==> r == "plaintext"
    ensures Extension(filename).Some? && ExtToLang(Lower(Extension(filename).value)).Some? ==>
              r == ExtToLang(Lower(Extension(filename).value)).value
    ensures Extension(filename).Some? && ExtToLang(Lower(Extension(filename).value)).None? ==> r == "plaintext"
  {
    match Extension(filename)
    case None => "plaintext"
    case Some(e) => ExtToLang(Lower(e)).GetOr("plaintext")
  }

  /** The corrected lookup agrees with the written one wherever that one
      yields a language name, and gives 'plaintext' where it yields an
      inherited member. */
  lemma LangCorrectsInherited(filename: string)
    ensures LangAsWritten(filename).LangName? ==> Lang(filename) == LangAsWritten(filename).name
    ensures LangAsWritten(filename).Inherited? ==> Lang(filename) == "plaintext"
  {
  }

  /** The extension is lower-cased before the lookup. */
  lemma LangLowerCasesExtension(base: string)
    ensures Lang(base + ".PY") == "python"
  {
    ExtensionExample(base, "PY");
    assert base + "." + "PY" == base + ".PY";
    UpperPyLowers();
  }

  lemma UpperPyLowers()
    ensures Lower("PY") == "py" && ExtToLang("py") == Some("python")
  {
  }

  /** A name made of word characters only, such as `Dockerfile`, has no
      dot and so no extension, even when it spells a key. */
  lemma LangNeedsDot(filename: string)
    requires AllWordChars(filename)
    ensures Extension(filename).None?
    ensures Lang(filename) == "plaintext" && LangAsWritten(filename) == LangName("plaintext")
  {
    TrailingRunOfWord(filename);
  }

  /** The corrected lookup ignores inherited members. */
  lemma LangIgnoresInherited(base: string)
    ensures Lang(base + ".constructor") == "plaintext"
    ensures Lang(base + ".__proto__") == "plaintext"
  {
    LangAsWrittenConstructor(base);
    LangAsWrittenProto(base);
    LangCorrectsInherited(base + ".constructor");
    LangCorrectsInherited(base + ".__proto__");
  }

  lemma {:induction false} TrailingRunOfWord(s: string)
    requires AllWordChars(s)
    ensures TrailingWordRun(s) == |s|
    decreases |s|
  {
    if s != [] {
      var init := s[..|s| - 1];
      assert forall i :: 0 <= i < |init| ==> init[i] == s[i];
      TrailingRunOfWord(init);
    }
  }

  // ---------------------------------------------------------------------
  // Deep link
  // ---------------------------------------------------------------------

  /** `line.toLowerCase().includes(query.toLowerCase())`. */
  predicate Mentions(line: string, query: string) {
    Contains(Lower(line), Lower(query))
  }

  /** `lines.findIndex(...)`: the first line that mentions the query, or
      -1. */
  function FindIndex(lines: seq<string>, query: string): (r: int)
    ensures -1 <= r < |lines|
    ensures r >= 0 ==> Mentions(lines[r], query) && forall j :: 0 <= j < r ==> !Mentions(lines[j], query)
    ensures r == -1 <==> forall j :: 0 <= j < |lines| ==> !Mentions(lines[j], query)
  {
    if lines == [] then -1
    else if Mentions(lines[0], query) then 0
    else
      var r := FindIndex(lines[1..], query);
      if r == -1 then -1 else r + 1
  }

  /** The line number of the link: `startline` plus the index of the first
      snippet line that mentions the query, or `startline` when none does. */
  function LineNumber(result: SearchResult, query: string): (n: int)
    ensures n >= result.row.raw.startline
    ensures var lines := Split(result.row.raw.data, "\n"); var k := n - result.row.raw.startline;
      k < |lines| &&
      (k > 0 ==> Mentions(lines[k], query)) &&
      (forall j :: 0 <= j < k ==> !Mentions(lines[j], query)) &&
      (k == 0 && !Mentions(lines[0], query) ==> forall j :: 0 <= j < |lines| ==> !Mentions(lines[j], query))
  {
    var lines := Split(result.row.raw.data, "\n");
    var lineIndex := FindIndex(lines, query);
    result.row.raw.startline + (if lineIndex != -1 then lineIndex else 0)
  }

  /** The link points at the first snippet line that mentions the query,
      whichever line that is. */
  lemma LineNumberFirstMatch(result: SearchResult, query: string, j: nat)
    requires j < |Split(result.row.raw.data, "\n")|
    requires Mentions(Split(result.row.raw.data, "\n")[j], query)
    requires forall i :: 0 <= i < j ==> !Mentions(Split(result.row.raw.data, "\n")[i], query)
    ensures LineNumber(result, query) == result.row.raw.startline + j
  {
  }

  /** With no snippet line mentioning the query, the link points at
      `startline`. */
  lemma LineNumberNoMatch(result: SearchResult, query: string)
    requires forall i :: 0 <= i < |Split(result.row.raw.data, "\n")| ==> !Mentions(Split(result.row.raw.data, "\n")[i], query)
    ensures LineNumber(result, query) == result.row.raw.startline
  {
  }

  /** An empty query is mentioned by every line, so the link points at the
      first line of the snippet. */
  lemma EmptyQueryLinksFirstLine(result: SearchResult)
    ensures LineNumber(result, "") == result.row.raw.startline
  {
    var lines := Split(result.row.raw.data, "\n");
    ContainsEmpty(Lower(lines[0]));
    assert Lower("") == "";
  }

  /** A template literal's rendering of a possibly missing string. */
  function TemplateString(s: Option<string>): string {
    s.GetOr("undefined")
  }

  /** The part of the link before the line number. */
  function UrlPrefix(result: SearchResult): string {
    TemplateString(result.row.projectURL) + "/blob/" + result.row.raw.ref + "/" + result.row.raw.path + "#L"
  }

  /** `url()` / `getURL(result)`:
      `${projectURL}/blob/${ref}/${path}#L${lineNumber}`. */
  function Url(result: SearchResult, query: string): (r: string)
    ensures StartsWith(r, UrlPrefix(result))
  {
    UrlPrefix(result) + IntToString(LineNumber(result, query))
  }

  /** The line number can be read back from the link, after the prefix. */
  lemma UrlCarriesLineNumber(result: SearchResult, query: string)
    ensures ParseIntDecimal(Some(Url(result, query)[|UrlPrefix(result)|..])) == Some(LineNumber(result, query))
  {
    var n := LineNumber(result, query);
    assert Url(result, query)[|UrlPrefix(result)|..] == IntToString(n);
    ParseIntOfIntToString(n);
  }
}
