/** The substitution pass pairs its two arrays by position. Its search array
    has been through the namespace and `use` filters, but its replacement
    array is built from the whole catalog. Once a filter removes an entry,
    every later search pattern is paired with the rooted pattern of a
    different function.

    This module states that shift for a two-function catalog. It also
    defines the pass the code evidently intends, which builds both arrays
    from the entries that survive the filters, and proves what that pass does. */
module Findings {
  import opened PhpStrings
  import opened PhpArrays
  import opened FileEditor
  import opened FileEditorProperties

  // ---------------------------------------------------------------------------
  // As written

  /** With a single search string, the array form is one scalar replacement
      by the first replacement. */
  lemma SingleSearch(searches: seq<string>, replacements: seq<string>, source: string)
    requires |searches| == 1 && |replacements| >= 1
    ensures StrReplaceArrays(searches, replacements, source) == StrReplace(searches[0], replacements[0], source)
  {
    var pairs := Pairing(searches, replacements);
    assert |pairs| == 1 && pairs[0] == (searches[0], replacements[0]);
    assert pairs[1..] == [];
    assert ApplyInTurn(pairs, source) == ApplyInTurn([], StrReplace(pairs[0].0, pairs[0].1, source));
  }

  /** Removing the first key of a two-entry array keeps the second entry. */
  lemma WithoutFirstOfTwo(a: seq<Entry>, ks: set<string>)
    requires |a| == 2 && a[0].key in ks && a[1].key !in ks
    ensures Without(a, ks) == [a[1]]
  {
    assert a[1..] == [a[1]];
    assert Without(a, ks) == Without([a[1]], ks);
    assert Without([a[1]], ks) == [a[1]] + Without([], ks);
  }

  /** Of two catalog functions, the first existing in the namespace and
      the second not, the namespace filter keeps only the second. */
  lemma ShadowedFirstOfTwo(namespace: string, catalog: seq<Entry>, functionExists: string -> bool)
    requires |catalog| == 2
    requires functionExists(QualifiedName(namespace, catalog[0].key))
    requires !functionExists(QualifiedName(namespace, catalog[1].key))
    ensures ShadowedKeys(namespace, Keys(catalog), functionExists) == {catalog[0].key}
  {
    assert Keys(catalog) == [catalog[0].key, catalog[1].key];
    ShadowedFirstOfTwoKeys(namespace, catalog[0].key, catalog[1].key, functionExists);
  }

  lemma ShadowedFirstOfTwoKeys(namespace: string, first: string, second: string, functionExists: string -> bool)
    requires functionExists(QualifiedName(namespace, first))
    requires !functionExists(QualifiedName(namespace, second))
    ensures ShadowedKeys(namespace, [first, second], functionExists) == {first}
  {
    assert [first, second][..1] == [first];
    assert [first][..0] == [];
    assert ShadowedKeys(namespace, [first], functionExists) == {first};
  }

  /** The search array of that pass holds the second function's pattern only. */
  lemma ShiftedSearchArray(c: char, file: ReflectedFile, env: Environment)
    requires |env.functions| == 2 && |file.namespace| > 0 && file.uses == []
    requires env.functionExists(QualifiedName(file.namespace, env.functions[0].key))
    requires !env.functionExists(QualifiedName(file.namespace, env.functions[1].key))
    ensures Values(SearchPatterns(file, env, c)) == [[c] + env.functions[1].value + "("]
  {
    var built := BuildFunctions(env.functions, c);
    ShadowedFirstOfTwo(file.namespace, built, env.functionExists);
    WithoutFirstOfTwo(built, {built[0].key});
  }

  /** When the first of two catalog functions also exists in the file's
      namespace, the pass rewrites calls to the second function into rooted
      calls to the first. */
  lemma ShiftedPairingRootsWrongFunction(source: string, c: char, file: ReflectedFile, env: Environment)
    requires |env.functions| == 2 && |file.namespace| > 0 && file.uses == []
    requires env.functionExists(QualifiedName(file.namespace, env.functions[0].key))
    requires !env.functionExists(QualifiedName(file.namespace, env.functions[1].key))
    ensures var shadowed, called := env.functions[0].value, env.functions[1].value;
      ContextPass(source, c, file, env)
        == StrReplace([c] + called + "(", [c, '\\'] + Ltrim(shadowed, '\\') + "(", source)
  {
    ShiftedSearchArray(c, file, env);
    SingleSearch(Values(SearchPatterns(file, env, c)), Values(BuildBackslashedFunctions(env.functions, c)), source);
  }

  lemma AppQualifiedNames()
    ensures QualifiedName("App", "count") == "\\App\\count"
    ensures QualifiedName("App", "strlen") != "\\App\\count"
  {
    assert Ltrim("App", '\\') == "App";
    assert |QualifiedName("App", "strlen")| == 11;
  }

  /** The ` ` patterns of the `App` example: the call of `strlen`, and the
      rooted calls of `count` and of `strlen`. */
  lemma StrlenPatterns()
    ensures [' '] + "strlen" + "(" == " strlen("
    ensures [' ', '\\'] + Ltrim("count", '\\') + "(" == " \\count("
    ensures [' ', '\\'] + Ltrim("strlen", '\\') + "(" == " \\strlen("
  {
    assert Ltrim("count", '\\') == "count";
    assert Ltrim("strlen", '\\') == "strlen";
  }

  /** A file in namespace `App` that defines its own `count`, with a catalog
      of `count` then `strlen`: every ` strlen(` becomes ` \count(`. */
  lemma StrlenCallBecomesCountCall(source: string)
    ensures var env := Environment([Entry("count", "count"), Entry("strlen", "strlen")], [], q => q == "\\App\\count");
      ContextPass(source, ' ', ReflectedFile(source, "App", []), env) == StrReplace(" strlen(", " \\count(", source)
  {
    var env := Environment([Entry("count", "count"), Entry("strlen", "strlen")], [], q => q == "\\App\\count");
    AppQualifiedNames();
    ShiftedPairingRootsWrongFunction(source, ' ', ReflectedFile(source, "App", []), env);
    StrlenPatterns();
  }

  // ---------------------------------------------------------------------------
  // As intended

  /** The catalog keys that the filters remove: the functions that exist
      in the file's namespace and the imported ones. */
  function RemovedKeys(file: ReflectedFile, env: Environment): set<string>
  {
    (if |file.namespace| > 0 then ShadowedKeys(file.namespace, Keys(env.functions), env.functionExists) else {})
      + ImportedKeys(file.uses, env.functionExists)
  }

  /** The catalog entries that survive both filters. */
  function Kept(file: ReflectedFile, env: Environment): seq<Entry>
  {
    Without(env.functions, RemovedKeys(file, env))
  }

  /** The pass with both arrays built from the surviving entries, so that
      each search pattern meets the rooted pattern of its own function. */
  function ContextPassByKey(source: string, c: char, file: ReflectedFile, env: Environment): string
  {
    var kept := Kept(file, env);
    StrReplaceArrays(Values(BuildFunctions(kept, c)), Values(BuildBackslashedFunctions(kept, c)), source)
  }

  /** The passes by key for each character of `chars`, in turn. */
  function ContextPassesByKey(source: string, chars: seq<char>, file: ReflectedFile, env: Environment): string
    decreases |chars|
  {
    if chars == [] then source
    else ContextPassesByKey(ContextPassByKey(source, chars[0], file, env), chars[1..], file, env)
  }

  /** The text written back when every pass pairs by key. */
  function RewriteByKey(file: ReflectedFile, env: Environment): string
  {
    var source := ContextPassesByKey(file.source, Characters, file, env);
    var source := ConstantPass(source, env.constants);
    var source := KeywordPass(source);
    StaticAccessRepair(DeclarationRepair(source))
  }

  lemma {:induction false} BuildFunctionsWithout(catalog: seq<Entry>, ks: set<string>, c: char)
    ensures BuildFunctions(Without(catalog, ks), c) == Without(BuildFunctions(catalog, c), ks)
  {
    if catalog != [] {
      BuildFunctionsWithout(catalog[1..], ks, c);
      var built := BuildFunctions(catalog, c);
      assert built[1..] == BuildFunctions(catalog[1..], c);
      assert Without(built, ks) == (if built[0].key in ks then [] else [built[0]]) + Without(built[1..], ks);
      var first := if catalog[0].key in ks then [] else [catalog[0]];
      assert BuildFunctions(first, c) == if built[0].key in ks then [] else [built[0]];
      assert Without(catalog, ks) == first + Without(catalog[1..], ks);
      BuildFunctionsAppend(first, Without(catalog[1..], ks), c);
    }
  }

  lemma BuildFunctionsAppend(p: seq<Entry>, q: seq<Entry>, c: char)
    ensures BuildFunctions(p + q, c) == BuildFunctions(p, c) + BuildFunctions(q, c)
  {
  }

  /** The search array the code builds is already the right one: the
      patterns of the surviving entries, in catalog order. Only its
      replacement array is built from the wrong entries. */
  lemma SearchPatternsAreKeptPatterns(file: ReflectedFile, env: Environment, c: char)
    ensures SearchPatterns(file, env, c) == BuildFunctions(Kept(file, env), c)
  {
    var built := BuildFunctions(env.functions, c);
    BuildFunctionsShape(env.functions, c);
    var shadowed := if |file.namespace| > 0
      then ShadowedKeys(file.namespace, Keys(env.functions), env.functionExists) else {};
    var afterNamespace := Without(built, shadowed);
    if |file.namespace| == 0 {
      WithoutAbsent(built, {});
    }
    assert NamespaceFiltered(file.namespace, built, env.functionExists) == afterNamespace;
    assert NonEmptyValues(afterNamespace);
    UsesFilteredExact(afterNamespace, file.uses, env.functionExists);
    WithoutWithout(built, shadowed, ImportedKeys(file.uses, env.functionExists));
    BuildFunctionsWithout(env.functions, RemovedKeys(file, env), c);
  }

  /** The filtered-out functions are not replaced: a text in which no
      surviving entry's call pattern occurs comes out of the pass as written
      unchanged, whatever calls to removed functions it holds. */
  lemma PassLeavesFilteredCalls(source: string, c: char, file: ReflectedFile, env: Environment)
    requires forall e :: e in Kept(file, env) ==> !Contains(source, [c] + e.value + "(")
    ensures ContextPass(source, c, file, env) == source
  {
    var kept := Kept(file, env);
    SearchPatternsAreKeptPatterns(file, env, c);
    BuildFunctionsShape(kept, c);
    var pairs := Pairing(Values(SearchPatterns(file, env, c)), Values(BuildBackslashedFunctions(env.functions, c)));
    forall k | 0 <= k < |pairs| ensures pairs[k].0 == [] || !Contains(source, pairs[k].0) {
      assert kept[k] in kept;
    }
    ApplyInTurnNoMatch(pairs, source);
  }

  /** The pass as intended roots the call pattern of each surviving entry
      with its own name, in catalog order; the surviving entries are
      exactly the catalog entries whose key no filter removes. */
  lemma ContextPassByKeyRootsOwnName(source: string, c: char, file: ReflectedFile, env: Environment)
    requires NoLeadingBackslash(env.functions)
    ensures forall e :: e in Kept(file, env) <==> e in env.functions && e.key !in RemovedKeys(file, env)
    ensures ContextPassByKey(source, c, file, env)
      == ApplyInTurn(RootingPairs(c, Values(Kept(file, env))), source)
  {
    var kept := Kept(file, env);
    forall i | 0 <= i < |kept| ensures kept[i].value == [] || kept[i].value[0] != '\\' {
      assert kept[i] in env.functions;
      var j :| 0 <= j < |env.functions| && env.functions[j] == kept[i];
    }
    BuiltPatternsPairWithOwnRootedForm(kept, c);
  }

  /** For the two-function catalog above, the intended pass roots calls to
      the second function with the second function's own name. */
  lemma ByKeyRootsCalledFunction(source: string, c: char, file: ReflectedFile, env: Environment)
    requires |env.functions| == 2 && |file.namespace| > 0 && file.uses == []
    requires env.functionExists(QualifiedName(file.namespace, env.functions[0].key))
    requires !env.functionExists(QualifiedName(file.namespace, env.functions[1].key))
    ensures var called := env.functions[1].value;
      ContextPassByKey(source, c, file, env)
        == StrReplace([c] + called + "(", [c, '\\'] + Ltrim(called, '\\') + "(", source)
  {
    ShadowedFirstOfTwo(file.namespace, env.functions, env.functionExists);
    WithoutFirstOfTwo(env.functions, {env.functions[0].key});
    assert Kept(file, env) == [env.functions[1]];
    var kept := Kept(file, env);
    SingleSearch(Values(BuildFunctions(kept, c)), Values(BuildBackslashedFunctions(kept, c)), source);
  }

  /** On the same file, the pass as intended roots `strlen` as itself. */
  lemma StrlenCallRootedByKey(source: string)
    ensures var env := Environment([Entry("count", "count"), Entry("strlen", "strlen")], [], q => q == "\\App\\count");
      ContextPassByKey(source, ' ', ReflectedFile(source, "App", []), env) == StrReplace(" strlen(", " \\strlen(", source)
  {
    var env := Environment([Entry("count", "count"), Entry("strlen", "strlen")], [], q => q == "\\App\\count");
    AppQualifiedNames();
    ByKeyRootsCalledFunction(source, ' ', ReflectedFile(source, "App", []), env);
    StrlenPatterns();
  }

  /** When the filters remove nothing, the code as written and the pass as
      intended agree. */
  lemma ByKeyAgreesWithoutRemovals(source: string, c: char, file: ReflectedFile, env: Environment)
    requires NoLeadingBackslash(env.functions)
    requires |file.namespace| == 0 || ShadowedKeys(file.namespace, Keys(env.functions), env.functionExists) == {}
    requires ImportedKeys(file.uses, env.functionExists) !! KeySet(env.functions)
    ensures ContextPassByKey(source, c, file, env) == ContextPass(source, c, file, env)
  {
    forall e | e in env.functions ensures e.key !in RemovedKeys(file, env) {
      var i :| 0 <= i < |env.functions| && env.functions[i] == e;
    }
    WithoutAbsent(env.functions, RemovedKeys(file, env));
    ContextPassByKeyRootsOwnName(source, c, file, env);
    ContextPassWithoutRemovals(source, c, file, env);
  }

  /** When the filters remove nothing, rewriting with the passes as intended
      gives the same text as the code as written. */
  lemma RewriteByKeyAgreesWithoutRemovals(file: ReflectedFile, env: Environment)
    requires NoLeadingBackslash(env.functions)
    requires |file.namespace| == 0 || ShadowedKeys(file.namespace, Keys(env.functions), env.functionExists) == {}
    requires ImportedKeys(file.uses, env.functionExists) !! KeySet(env.functions)
    ensures RewriteByKey(file, env) == Rewrite(file, env)
  {
    PassesByKeyAgreeWithoutRemovals(file.source, Characters, file, env);
  }

  lemma {:induction false} PassesByKeyAgreeWithoutRemovals(source: string, chars: seq<char>, file: ReflectedFile, env: Environment)
    requires NoLeadingBackslash(env.functions)
    requires |file.namespace| == 0 || ShadowedKeys(file.namespace, Keys(env.functions), env.functionExists) == {}
    requires ImportedKeys(file.uses, env.functionExists) !! KeySet(env.functions)
    ensures ContextPassesByKey(source, chars, file, env) == ContextPasses(source, chars, file, env)
    decreases |chars|
  {
    if chars != [] {
      ByKeyAgreesWithoutRemovals(source, chars[0], file, env);
      PassesByKeyAgreeWithoutRemovals(ContextPass(source, chars[0], file, env), chars[1..], file, env);
    }
  }
}
