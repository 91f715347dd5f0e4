/** The rewriting engine of `FileEditor`: it prefixes calls to global
    functions, global constants and the keywords `true`, `false`, `null`
    with a backslash, by literal `str_replace` passes over the file's text.

    Reflecting the file (its text, namespace and `use` imports), the
    function catalog, `get_defined_constants` and `function_exists` are
    inputs; the result is the text that would be handed to `writeFile`. */
module FileEditor {
  import opened PhpStrings
  import opened PhpArrays

  /** The characters that may precede a call, one substitution pass each, in this order. */
  const Characters: seq<char> := [' ', '(', ',', '!', '[', '=']

  /** One `use` import of the file: the imported name and its alias ("" when there is none). */
  datatype Use = Use(name: string, alias: string)

  /** What reflecting the file yields: its source text, its namespace ("" for
      none) and its `use` imports in order. */
  datatype ReflectedFile = ReflectedFile(source: string, namespace: string, uses: seq<Use>)

  /** The environment the editor consults: the function catalog (an ordered
      array whose keys are the function names and whose values are the
      names), the names of the defined constants in order, and
      `function_exists`. */
  datatype Environment = Environment(functions: seq<Entry>, constants: seq<string>, functionExists: string -> bool)

  // ---------------------------------------------------------------------------
  // The arrays of patterns (array_map over the catalog)

  /** The call patterns for the preceding character `c` (`buildFunctions`). */
  function BuildFunctions(catalog: seq<Entry>, c: char): seq<Entry>
  {
    seq(|catalog|, i requires 0 <= i < |catalog| => Entry(catalog[i].key, [c] + catalog[i].value + "("))
  }

  /** The rooted call patterns for `c` (`buildBackslashedFunctions`). */
  function BuildBackslashedFunctions(catalog: seq<Entry>, c: char): seq<Entry>
  {
    seq(|catalog|, i requires 0 <= i < |catalog| =>
      Entry(catalog[i].key, [c, '\\'] + Ltrim(catalog[i].value, '\\') + "("))
  }

  /** The replacements of the constant pass (`replaceConstants`). */
  function ReplaceConstants(constants: seq<string>): seq<string>
  {
    seq(|constants|, i requires 0 <= i < |constants| => "\\" + constants[i])
  }

  /** `buildFunctions` keeps every catalog key in order and makes each value
      `c + name + "("`, which is never `empty()`. */
  lemma BuildFunctionsShape(catalog: seq<Entry>, c: char)
    ensures var r := BuildFunctions(catalog, c);
      && Keys(r) == Keys(catalog)
      && (forall i :: 0 <= i < |r| ==> r[i].value == [c] + catalog[i].value + "(")
      && NonEmptyValues(r)
  {
    var r := BuildFunctions(catalog, c);
    forall e | e in r ensures !IsEmptyValue(Some(e.value)) {
      var i :| 0 <= i < |r| && r[i] == e;
      assert |e.value| >= 2;
    }
  }

  /** `buildBackslashedFunctions` keeps every catalog key in order and makes
      each value `c + "\" + name + "("` with the name's own leading
      backslashes dropped, so exactly one backslash follows `c`. */
  lemma BuildBackslashedFunctionsShape(catalog: seq<Entry>, c: char)
    ensures var r := BuildBackslashedFunctions(catalog, c);
      && Keys(r) == Keys(catalog)
      && forall i :: 0 <= i < |r| ==>
        && r[i].value == [c, '\\'] + Ltrim(catalog[i].value, '\\') + "("
        && r[i].value[1] == '\\' && r[i].value[2] != '\\'
  {
  }

  /** `replaceConstants` has one entry per constant, in the same order, and
      the i-th is the i-th name behind a backslash. */
  lemma ReplaceConstantsShape(constants: seq<string>)
    ensures var r := ReplaceConstants(constants);
      && |r| == |constants|
      && forall i :: 0 <= i < |r| ==> r[i] == "\\" + constants[i]
  {
  }

  // ---------------------------------------------------------------------------
  // The namespace filter

  /** `sprintf("\\%s\\%s", ltrim(namespace, "\\"), f)`. */
  function QualifiedName(namespace: string, f: string): string
  {
    "\\" + Ltrim(namespace, '\\') + "\\" + f
  }

  /** The keys among `keys` that name a function existing in `namespace`. */
  function ShadowedKeys(namespace: string, keys: seq<string>, functionExists: string -> bool): (r: set<string>)
    ensures forall k :: k in r <==> k in keys && functionExists(QualifiedName(namespace, k))
    decreases |keys|
  {
    if keys == [] then {}
    else
      var last := keys[|keys| - 1];
      var prefix := keys[..|keys| - 1];
      assert keys == prefix + [last];
      assert forall k :: k in keys <==> k in prefix || k == last;
      ShadowedKeys(namespace, prefix, functionExists)
        + (if functionExists(QualifiedName(namespace, last)) then {last} else {})
  }

  /** The patterns left after the namespace filter. */
  function NamespaceFiltered(namespace: string, functions: seq<Entry>, functionExists: string -> bool): seq<Entry>
  {
    if |namespace| > 0 then Without(functions, ShadowedKeys(namespace, Keys(functions), functionExists))
    else functions
  }

  /** Without a namespace the filter keeps everything; with one it keeps
      exactly the entries whose key does not name a function of that
      namespace, with their order and values. */
  lemma NamespaceFilteredSpec(namespace: string, functions: seq<Entry>, functionExists: string -> bool)
    ensures var r := NamespaceFiltered(namespace, functions, functionExists);
      && (|namespace| == 0 ==> r == functions)
      && (|namespace| > 0 ==>
            forall e :: e in r <==> e in functions && !functionExists(QualifiedName(namespace, e.key)))
      && SubArray(r, functions)
  {
    if |namespace| > 0 {
      forall e | e in functions ensures e.key in Keys(functions) {
        var i :| 0 <= i < |functions| && functions[i] == e;
        assert Keys(functions)[i] == e.key;
      }
    } else {
      SubArrayReflexive(functions);
    }
  }

  /** `removeFunctionsExistingInCurrentNamespaceFromBackslashing`: walks the
      keys and unsets every one that names a function of the file's namespace. */
  method RemoveFunctionsExistingInCurrentNamespaceFromBackslashing(
    namespace: string, functions: seq<Entry>, functionExists: string -> bool)
    returns (r: seq<Entry>)
    ensures r == NamespaceFiltered(namespace, functions, functionExists)
  {
    r := functions;
    if |namespace| > 0 {
      r := UnsetShadowed(namespace, functions, functionExists);
    }
  }

  /** The loop over `array_keys($functions)` (a snapshot of the keys). */
  method UnsetShadowed(namespace: string, functions: seq<Entry>, functionExists: string -> bool)
    returns (r: seq<Entry>)
    ensures r == Without(functions, ShadowedKeys(namespace, Keys(functions), functionExists))
  {
    r := functions;
    var keys := Keys(functions);
    WithoutAbsent(functions, {});
    assert ShadowedKeys(namespace, keys[..0], functionExists) == {};
    var i := 0;
    while i < |keys|
      invariant i <= |keys|
      invariant r == Without(functions, ShadowedKeys(namespace, keys[..i], functionExists))
    {
      var name := QualifiedName(namespace, keys[i]);
      ghost var done := ShadowedKeys(namespace, keys[..i], functionExists);
      ShadowedKeysExtend(namespace, keys, i, functionExists);
      if functionExists(name) {
        WithoutWithout(functions, done, {keys[i]});
        r := Unset(r, keys[i]);
        assert ShadowedKeys(namespace, keys[..i + 1], functionExists) == done + {keys[i]};
      } else {
        assert ShadowedKeys(namespace, keys[..i + 1], functionExists) == done;
      }
      i := i + 1;
    }
    assert keys[..|keys|] == keys;
  }

  lemma ShadowedKeysExtend(namespace: string, keys: seq<string>, i: nat, functionExists: string -> bool)
    requires i < |keys|
    ensures ShadowedKeys(namespace, keys[..i + 1], functionExists)
      == ShadowedKeys(namespace, keys[..i], functionExists)
         + (if functionExists(QualifiedName(namespace, keys[i])) then {keys[i]} else {})
  {
    assert keys[..i + 1][..i] == keys[..i];
  }

  // ---------------------------------------------------------------------------
  // The `use` filter

  /** `array_pop(explode("\\", name))`: the last backslash-separated segment. */
  function LastSegment(name: string): (r: string)
    ensures |r| <= |name| && r == name[|name| - |r|..]
    ensures '\\' !in r
    ensures |r| < |name| ==> name[|name| - |r| - 1] == '\\'
  {
    var pieces := Explode("\\", name);
    LastSegmentFacts(name);
    pieces[|pieces| - 1]
  }

  lemma LastSegmentFacts(name: string)
    ensures var pieces := Explode("\\", name); var r := pieces[|pieces| - 1];
      && |r| <= |name| && r == name[|name| - |r|..]
      && '\\' !in r
      && (|r| < |name| ==> name[|name| - |r| - 1] == '\\')
  {
    var pieces := Explode("\\", name);
    var r := pieces[|pieces| - 1];
    ImplodeExplode("\\", name);
    ExplodePiecesFree("\\", name);
    ImplodeLast(pieces);
    forall i | 0 <= i < |r| ensures r[i] != '\\' {
      assert !OccursAt(r, "\\", i);
      assert r[i..i + 1] == [r[i]];
    }
  }

  /** Joining by a backslash ends with the last piece, after a backslash when
      there is more than one piece. */
  lemma {:induction false} ImplodeLast(pieces: seq<string>)
    requires pieces != []
    ensures var s := Implode("\\", pieces); var r := pieces[|pieces| - 1];
      && |r| <= |s| && r == s[|s| - |r|..]
      && (|pieces| > 1 ==> |r| < |s| && s[|s| - |r| - 1] == '\\')
    decreases |pieces|
  {
    if |pieces| > 1 {
      ImplodeLast(pieces[1..]);
      var tail := Implode("\\", pieces[1..]);
      assert Implode("\\", pieces) == (pieces[0] + "\\") + tail;
    }
  }

  /** The keys one `use` import removes: the last segment of an imported
      function's name, and its alias when it has one. An import whose name is
      not a known function removes nothing. */
  function UseKeys(u: Use, functionExists: string -> bool): set<string>
  {
    if !functionExists(u.name) then {}
    else {LastSegment(u.name)} + (if |u.alias| > 0 then {u.alias} else {})
  }

  function ImportedKeys(uses: seq<Use>, functionExists: string -> bool): set<string>
  {
    if uses == [] then {} else UseKeys(uses[0], functionExists) + ImportedKeys(uses[1..], functionExists)
  }

  /** One iteration of the `use` loop: for a known function, unset the key
      equal to its last segment and then the key equal to its alias, each
      only when the looked-up value is not `empty()`. */
  function AfterUse(functions: seq<Entry>, u: Use, functionExists: string -> bool): seq<Entry>
  {
    if !functionExists(u.name) then functions
    else
      var name := LastSegment(u.name);
      var first := if !IsEmptyValue(Get(functions, name)) then Unset(functions, name) else functions;
      if |u.alias| > 0 && !IsEmptyValue(Get(first, u.alias)) then Unset(first, u.alias) else first
  }

  /** The patterns left after the `use` filter: each import in turn. */
  function UsesFiltered(functions: seq<Entry>, uses: seq<Use>, functionExists: string -> bool): seq<Entry>
    decreases |uses|
  {
    if uses == [] then functions
    else UsesFiltered(AfterUse(functions, uses[0], functionExists), uses[1..], functionExists)
  }

  /** The `use` filter only removes entries, keeping the order and the values
      of the rest, and it removes no entry whose key is not imported. */
  lemma {:induction false} UsesFilteredRestricts(functions: seq<Entry>, uses: seq<Use>, functionExists: string -> bool)
    ensures SubArray(UsesFiltered(functions, uses, functionExists), functions)
    ensures forall e :: e in functions && e.key !in ImportedKeys(uses, functionExists) ==>
      e in UsesFiltered(functions, uses, functionExists)
    decreases |uses|
  {
    if uses == [] {
      SubArrayReflexive(functions);
    } else {
      var next := AfterUse(functions, uses[0], functionExists);
      AfterUseRestricts(functions, uses[0], functionExists);
      UsesFilteredRestricts(next, uses[1..], functionExists);
      SubArrayTransitive(UsesFiltered(next, uses[1..], functionExists), next, functions);
    }
  }

  lemma AfterUseRestricts(functions: seq<Entry>, u: Use, functionExists: string -> bool)
    ensures SubArray(AfterUse(functions, u, functionExists), functions)
    ensures forall e :: e in functions && e.key !in UseKeys(u, functionExists) ==> e in AfterUse(functions, u, functionExists)
  {
    WithoutAbsent(functions, {});
    if functionExists(u.name) {
      var name := LastSegment(u.name);
      var removed1: set<string> := if !IsEmptyValue(Get(functions, name)) then {name} else {};
      var first := Without(functions, removed1);
      WithoutAbsent(first, {});
      var removed2: set<string> := if |u.alias| > 0 && !IsEmptyValue(Get(first, u.alias)) then {u.alias} else {};
      WithoutWithout(functions, removed1, removed2);
      assert AfterUse(functions, u, functionExists) == Without(functions, removed1 + removed2);
      assert removed1 + removed2 <= UseKeys(u, functionExists);
    }
  }

  /** The body of the `use` loop for one import. */
  method UnsetImported(functions: seq<Entry>, u: Use, functionExists: string -> bool) returns (r: seq<Entry>)
    ensures r == AfterUse(functions, u, functionExists)
  {
    r := functions;
    if functionExists(u.name) {
      var pieces := Explode("\\", u.name);
      var name := pieces[|pieces| - 1];
      if !IsEmptyValue(Get(r, name)) {
        r := Unset(r, name);
      }
      if |u.alias| > 0 && !IsEmptyValue(Get(r, u.alias)) {
        r := Unset(r, u.alias);
      }
    }
  }

  /** `removeUseFunctionsFromBackslashing`: walks the imports in order and
      unsets the keys each imported function accounts for. */
  method RemoveUseFunctionsFromBackslashing(uses: seq<Use>, functions: seq<Entry>, functionExists: string -> bool)
    returns (r: seq<Entry>)
    ensures r == UsesFiltered(functions, uses, functionExists)
  {
    r := functions;
    var i := 0;
    while i < |uses|
      invariant i <= |uses|
      invariant UsesFiltered(r, uses[i..], functionExists) == UsesFiltered(functions, uses, functionExists)
    {
      r := UnsetImported(r, uses[i], functionExists);
      assert uses[i..][1..] == uses[i + 1..];
      i := i + 1;
    }
  }

  // ---------------------------------------------------------------------------
  // The pipeline

  /** The search array of the pass for `c`: the call patterns after both filters. */
  function SearchPatterns(file: ReflectedFile, env: Environment, c: char): seq<Entry>
  {
    var functions := BuildFunctions(env.functions, c);
    var functions := NamespaceFiltered(file.namespace, functions, env.functionExists);
    UsesFiltered(functions, file.uses, env.functionExists)
  }

  /** One pass of the loop: the filtered patterns are paired by position with
      the rooted patterns of the whole, unfiltered catalog. */
  function ContextPass(source: string, c: char, file: ReflectedFile, env: Environment): string
  {
    StrReplaceArrays(Values(SearchPatterns(file, env, c)), Values(BuildBackslashedFunctions(env.functions, c)), source)
  }

  /** The passes for `chars`, in order. */
  function ContextPasses(source: string, chars: seq<char>, file: ReflectedFile, env: Environment): string
    decreases |chars|
  {
    if chars == [] then source
    else ContextPasses(ContextPass(source, chars[0], file, env), chars[1..], file, env)
  }

  function ConstantPass(source: string, constants: seq<string>): string
  {
    StrReplaceArrays(constants, ReplaceConstants(constants), source)
  }

  const Keywords: seq<string> := ["true", "false", "null"]
  const RootedKeywords: seq<string> := ["\\true", "\\false", "\\null"]

  function KeywordPass(source: string): string
  {
    StrReplaceArrays(Keywords, RootedKeywords, source)
  }

  /** Undoes a backslash put in front of a declared function's name. */
  function DeclarationRepair(source: string): string
  {
    StrReplace("function \\", "function ", source)
  }

  /** Undoes a backslash put in front of a static member's name. */
  function StaticAccessRepair(source: string): string
  {
    StrReplace("::\\", "::", source)
  }

  /** The text written back: the six context passes, then the constant pass,
      the keyword pass, the declaration repair and the static-access repair. */
  function Rewrite(file: ReflectedFile, env: Environment): string
  {
    var source := ContextPasses(file.source, Characters, file, env);
    var source := ConstantPass(source, env.constants);
    var source := KeywordPass(source);
    StaticAccessRepair(DeclarationRepair(source))
  }

  /** One iteration of the loop over the characters: build the patterns,
      filter them, and replace them by the rooted patterns of the whole catalog. */
  method BackslashFunctionsAfter(source: string, c: char, file: ReflectedFile, env: Environment)
    returns (r: string)
    ensures r == ContextPass(source, c, file, env)
  {
    var functions := BuildFunctions(env.functions, c);
    functions := RemoveFunctionsExistingInCurrentNamespaceFromBackslashing(file.namespace, functions, env.functionExists);
    functions := RemoveUseFunctionsFromBackslashing(file.uses, functions, env.functionExists);
    r := StrReplaceArrays(Values(functions), Values(BuildBackslashedFunctions(env.functions, c)), source);
  }

  /** The loop over the characters, one pass each in order. */
  method BackslashFunctions(text: string, file: ReflectedFile, env: Environment) returns (source: string)
    ensures source == ContextPasses(text, Characters, file, env)
  {
    source := text;
    for i := 0 to |Characters|
      invariant ContextPasses(source, Characters[i..], file, env) == ContextPasses(text, Characters, file, env)
    {
      source := BackslashFunctionsAfter(source, Characters[i], file, env);
      assert Characters[i..][1..] == Characters[i + 1..];
    }
    assert Characters[|Characters|..] == [];
  }

  /** `addBackslashesToFunctions`: the text it hands to `writeFile`. */
  method AddBackslashesToFunctions(file: ReflectedFile, env: Environment) returns (written: string)
    ensures written == Rewrite(file, env)
  {
    var source := BackslashFunctions(file.source, file, env);
    source := StrReplaceArrays(env.constants, ReplaceConstants(env.constants), source);
    source := StrReplaceArrays(Keywords, RootedKeywords, source);
    source := StrReplace("function \\", "function ", source);
    source := StrReplace("::\\", "::", source);
    written := source;
  }
}
