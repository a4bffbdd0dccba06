/** src/codemods/constants.ts: the table from a (lowercased) ast-grep language name
    to the set of file extensions a codemod for that language targets. */
module CodemodConstants {
  import opened Wrappers
  import opened Strings
  import opened Records

  const JavaScriptExtensions: seq<string> := [".js", ".cjs", ".mjs"]
  const TypeScriptExtensions: seq<string> := JavaScriptExtensions + [".ts", ".mts"]
  const JsxExtensions: seq<string> := [".jsx"]

  /** The values of ast-grep's `Lang` enum used as keys. */
  const LangTypeScript: string := "TypeScript"
  const LangTsx: string := "Tsx"
  const LangJavaScript: string := "JavaScript"

  /** The table as written, before its keys are lowercased. */
  const DeclaredEntries: seq<(string, seq<string>)> := [
    (LangTypeScript, TypeScriptExtensions),
    ("ts", TypeScriptExtensions),
    (LangTsx, JsxExtensions + [".tsx"]),
    ("jsx", JsxExtensions),
    (LangJavaScript, JavaScriptExtensions),
    ("js", JavaScriptExtensions)]

  function SetOf(xs: seq<string>): (r: set<string>)
    ensures forall x :: x in r <==> x in xs
  {
    set x | x in xs
  }

  /** `[key.toLowerCase(), new Set(value)]`. */
  function LowercasedEntry(e: (string, seq<string>)): (string, set<string>) {
    (ToLower(e.0), SetOf(e.1))
  }

  /** `.map(([key, value]) => [key.toLowerCase(), new Set(value)])`. */
  function LowercasedEntries(es: seq<(string, seq<string>)>): (r: seq<(string, set<string>)>)
    ensures |r| == |es|
    ensures forall i :: 0 <= i < |es| ==> r[i] == LowercasedEntry(es[i])
  {
    if es == [] then [] else [LowercasedEntry(es[0])] + LowercasedEntries(es[1..])
  }

  /** `LANG_TO_EXTENSIONS_MAPPING`. */
  const LangToExtensionsMapping: Record<set<string>> := FromEntries(LowercasedEntries(DeclaredEntries))

  /** `LANG_TO_EXTENSIONS_MAPPING[language.toLowerCase()]`, `None` for `undefined`. */
  function ExtensionsFor(language: string): Option<set<string>> {
    Get(LangToExtensionsMapping, ToLower(language))
  }

  const TypeScriptSet: set<string> := {".js", ".cjs", ".mjs", ".ts", ".mts"}
  const TsxSet: set<string> := {".jsx", ".tsx"}
  const JsxSet: set<string> := {".jsx"}
  const JavaScriptSet: set<string> := {".js", ".cjs", ".mjs"}

  // Split out of LowercasedKeys so that each name's characters are checked in a proof of its own.
  lemma LowerTypeScript()
    ensures ToLower(LangTypeScript) == "typescript"
  {
    var r := ToLower(LangTypeScript);
    assert r[0] == LowerChar('T') == 't';
    assert r[4] == LowerChar('S') == 's';
    assert forall i | i in {1, 2, 3, 5, 6, 7, 8, 9} :: r[i] == LangTypeScript[i];
  }

  // Split out of LowercasedKeys so that each name's characters are checked in a proof of its own.
  lemma LowerJavaScript()
    ensures ToLower(LangJavaScript) == "javascript"
  {
    var r := ToLower(LangJavaScript);
    assert r[0] == LowerChar('J') == 'j';
    assert r[4] == LowerChar('S') == 's';
    assert forall i | i in {1, 2, 3, 5, 6, 7, 8, 9} :: r[i] == LangJavaScript[i];
  }

  // Split out of LowercasedKeys so that each name's characters are checked in a proof of its own.
  lemma LowerTsx()
    ensures ToLower(LangTsx) == "tsx"
  {
    var r := ToLower(LangTsx);
    assert r[0] == LowerChar('T') == 't';
    assert r[1] == 's' && r[2] == 'x';
  }

  lemma LowercasedKeys()
    ensures ToLower(LangTypeScript) == "typescript"
    ensures ToLower("ts") == "ts"
    ensures ToLower(LangTsx) == "tsx"
    ensures ToLower("jsx") == "jsx"
    ensures ToLower(LangJavaScript) == "javascript"
    ensures ToLower("js") == "js"
  {
    LowerTypeScript();
    LowerJavaScript();
    LowerTsx();
    ToLowerNoUpper("ts");
    ToLowerNoUpper("jsx");
    ToLowerNoUpper("js");
  }

  /** The table as it is built: the lowercased names with their extension sets. */
  const LoweredTable: seq<(string, set<string>)> := [
    ("typescript", TypeScriptSet), ("ts", TypeScriptSet),
    ("tsx", TsxSet), ("jsx", JsxSet),
    ("javascript", JavaScriptSet), ("js", JavaScriptSet)]

  lemma DeclaredSets()
    ensures SetOf(TypeScriptExtensions) == TypeScriptSet
    ensures SetOf(JsxExtensions + [".tsx"]) == TsxSet
    ensures SetOf(JsxExtensions) == JsxSet
    ensures SetOf(JavaScriptExtensions) == JavaScriptSet
  {
    assert SetOf(TypeScriptExtensions) == TypeScriptSet;
    assert SetOf(JsxExtensions + [".tsx"]) == TsxSet;
    assert SetOf(JsxExtensions) == JsxSet;
  }

  lemma LoweredEntries()
    ensures LowercasedEntries(DeclaredEntries) == LoweredTable
  {
    LowercasedKeys();
    DeclaredSets();
    var lowered := LowercasedEntries(DeclaredEntries);
    forall i | 0 <= i < 6 ensures lowered[i] == LoweredTable[i] {
      assert lowered[i] == LowercasedEntry(DeclaredEntries[i]);
    }
  }

  // Kept apart from MappingContents so that the pairwise key comparison is a proof of its own.
  lemma LoweredTableDistinct()
    ensures KeysDistinct(LoweredTable)
  {
  }

  /** The table lists six entries under the lowercased names, with these extension sets. */
  lemma MappingContents()
    ensures LangToExtensionsMapping == LoweredTable
  {
    LoweredEntries();
    LoweredTableDistinct();
    FromEntriesDistinct(LoweredTable);
  }

  /** The keys are the six lowercased language names, in declaration order. */
  lemma MappingKeys()
    ensures Keys(LangToExtensionsMapping) == ["typescript", "ts", "tsx", "jsx", "javascript", "js"]
  {
    MappingContents();
  }

  lemma MappingDistinct()
    ensures KeysDistinct(LangToExtensionsMapping)
  {
    MappingContents();
    LoweredTableDistinct();
  }

  /** The entry at position `i` of the table is what its key selects. */
  lemma MappingLookup(i: nat)
    requires i < |LangToExtensionsMapping|
    ensures Get(LangToExtensionsMapping, LangToExtensionsMapping[i].0) == Some(LangToExtensionsMapping[i].1)
  {
    MappingDistinct();
    GetDistinct(LangToExtensionsMapping, i);
  }

  /** Looking up a lowercase key of the table. */
  lemma LookupKey(i: nat, key: string, value: set<string>)
    requires i < 6
    requires key == ["typescript", "ts", "tsx", "jsx", "javascript", "js"][i]
    requires value == [TypeScriptSet, TypeScriptSet, TsxSet, JsxSet, JavaScriptSet, JavaScriptSet][i]
    ensures Get(LangToExtensionsMapping, key) == Some(value)
  {
    MappingContents();
    MappingLookup(i);
  }

  /** Looking up a language whose lowercase form is the key at position `i`. */
  lemma LookupLanguage(language: string, i: nat, value: set<string>)
    requires i < 6
    requires ToLower(language) == ["typescript", "ts", "tsx", "jsx", "javascript", "js"][i]
    requires value == [TypeScriptSet, TypeScriptSet, TsxSet, JsxSet, JavaScriptSet, JavaScriptSet][i]
    ensures ExtensionsFor(language) == Some(value)
  {
    LookupKey(i, ToLower(language), value);
  }

  /** `TypeScript` and `ts` select the TypeScript extensions. */
  lemma ExtensionsForTypeScript()
    ensures ExtensionsFor(LangTypeScript) == Some(TypeScriptSet)
    ensures ExtensionsFor("typescript") == Some(TypeScriptSet)
    ensures ExtensionsFor("ts") == Some(TypeScriptSet)
  {
    LowerTypeScript();
    LookupLanguage(LangTypeScript, 0, TypeScriptSet);
    ToLowerIdempotent(LangTypeScript);
    LookupLanguage("typescript", 0, TypeScriptSet);
    ToLowerNoUpper("ts");
    LookupLanguage("ts", 1, TypeScriptSet);
  }

  /** `Tsx` selects `.jsx` and `.tsx`; `jsx` selects `.jsx` alone. */
  lemma ExtensionsForJsx()
    ensures ExtensionsFor(LangTsx) == Some(TsxSet)
    ensures ExtensionsFor("tsx") == Some(TsxSet)
    ensures ExtensionsFor("jsx") == Some(JsxSet)
  {
    LowerTsx();
    LookupLanguage(LangTsx, 2, TsxSet);
    ToLowerIdempotent(LangTsx);
    LookupLanguage("tsx", 2, TsxSet);
    ToLowerNoUpper("jsx");
    LookupLanguage("jsx", 3, JsxSet);
  }

  /** `JavaScript` and `js` select the JavaScript extensions. */
  lemma ExtensionsForJavaScript()
    ensures ExtensionsFor(LangJavaScript) == Some(JavaScriptSet)
    ensures ExtensionsFor("javascript") == Some(JavaScriptSet)
    ensures ExtensionsFor("js") == Some(JavaScriptSet)
  {
    LowerJavaScript();
    LookupLanguage(LangJavaScript, 4, JavaScriptSet);
    ToLowerIdempotent(LangJavaScript);
    LookupLanguage("javascript", 4, JavaScriptSet);
    ToLowerNoUpper("js");
    LookupLanguage("js", 5, JavaScriptSet);
  }

  /** A language outside the table contributes nothing. */
  lemma ExtensionsForUnmapped(language: string)
    requires ToLower(language) !in ["typescript", "ts", "tsx", "jsx", "javascript", "js"]
    ensures ExtensionsFor(language).None?
  {
    MappingKeys();
  }

  /** The lookup does not depend on letter case. */
  lemma ExtensionsForIgnoresCase(language: string)
    ensures ExtensionsFor(ToLower(language)) == ExtensionsFor(language)
  {
    ToLowerIdempotent(language);
  }

  /** The JavaScript extensions are among the TypeScript ones; `.tsx` is not. */
  lemma TypeScriptCoversJavaScript()
    ensures ExtensionsFor("ts").Some? && ExtensionsFor("js").Some?
    ensures ExtensionsFor("js").value <= ExtensionsFor("ts").value
    ensures ".tsx" !in ExtensionsFor("ts").value && ".jsx" !in ExtensionsFor("ts").value
  {
    ToLowerNoUpper("ts");
    LookupLanguage("ts", 1, TypeScriptSet);
    ToLowerNoUpper("js");
    LookupLanguage("js", 5, JavaScriptSet);
  }
}
