/** What the rewriting passes of `FileEditor` do, stated over the model in
    module FileEditor. */
module FileEditorProperties {
  import opened PhpStrings
  import opened PhpArrays
  import opened FileEditor

  /** No catalog name starts with a backslash. */
  predicate NoLeadingBackslash(catalog: seq<Entry>)
  {
    forall i :: 0 <= i < |catalog| ==> catalog[i].value == [] || catalog[i].value[0] != '\\'
  }

  /** Each name's call pattern for `c`, paired with its rooted form. */
  function RootingPairs(c: char, names: seq<string>): seq<(string, string)>
  {
    seq(|names|, i requires 0 <= i < |names| => ([c] + names[i] + "(", [c, '\\'] + names[i] + "("))
  }

  // ---------------------------------------------------------------------------
  // The pass order

  /** The text is produced by the passes for ' ', '(', ',', '!', '[' and '='
      in that order, then the constant pass, the keyword pass, the
      declaration repair and the static-access repair. */
  lemma RewriteInOrder(file: ReflectedFile, env: Environment)
    ensures Rewrite(file, env) ==
      var s := ContextPass(file.source, ' ', file, env);
      var s := ContextPass(s, '(', file, env);
      var s := ContextPass(s, ',', file, env);
      var s := ContextPass(s, '!', file, env);
      var s := ContextPass(s, '[', file, env);
      var s := ContextPass(s, '=', file, env);
      StaticAccessRepair(DeclarationRepair(KeywordPass(ConstantPass(s, env.constants))))
  {
    var cs := Characters;
    assert cs[0] == ' ' && cs[1..][0] == '(' && cs[1..][1..][0] == ',';
    assert cs[1..][1..][1..][0] == '!' && cs[1..][1..][1..][1..][0] == '[';
    assert cs[1..][1..][1..][1..][1..][0] == '=' && cs[1..][1..][1..][1..][1..][1..] == [];
  }

  // ---------------------------------------------------------------------------
  // The arrays of patterns and their positional pairing

  lemma LtrimNoLeading(s: string, c: char)
    requires s == [] || s[0] != c
    ensures Ltrim(s, c) == s
  {
  }

  /** Built from the same catalog, the i-th search pattern is paired with
      the i-th rooted pattern, which is the same name with a backslash after
      the preceding character. */
  lemma BuiltPatternsPairWithOwnRootedForm(catalog: seq<Entry>, c: char)
    requires NoLeadingBackslash(catalog)
    ensures Pairing(Values(BuildFunctions(catalog, c)), Values(BuildBackslashedFunctions(catalog, c)))
      == RootingPairs(c, Values(catalog))
  {
    var searches := Values(BuildFunctions(catalog, c));
    var rooted := Values(BuildBackslashedFunctions(catalog, c));
    var p := Pairing(searches, rooted);
    var q := RootingPairs(c, Values(catalog));
    assert |p| == |q| == |catalog|;
    forall i | 0 <= i < |catalog| ensures p[i] == q[i] {
      var name := catalog[i].value;
      LtrimNoLeading(name, '\\');
      assert searches[i] == [c] + name + "(";
      assert rooted[i] == [c, '\\'] + name + "(";
      assert ReplacementAt(rooted, i) == rooted[i];
    }
  }

  /** When neither filter removes anything, the pass for `c` replaces each
      catalog name's call pattern by its own rooted form, name by name in
      catalog order. */
  lemma ContextPassWithoutRemovals(source: string, c: char, file: ReflectedFile, env: Environment)
    requires NoLeadingBackslash(env.functions)
    requires |file.namespace| == 0 || ShadowedKeys(file.namespace, Keys(env.functions), env.functionExists) == {}
    requires ImportedKeys(file.uses, env.functionExists) !! KeySet(env.functions)
    ensures ContextPass(source, c, file, env) == ApplyInTurn(RootingPairs(c, Values(env.functions)), source)
  {
    var built := BuildFunctions(env.functions, c);
    BuildFunctionsShape(env.functions, c);
    KeySetOfKeys(built, env.functions);
    var afterNamespace := NamespaceFiltered(file.namespace, built, env.functionExists);
    if |file.namespace| > 0 {
      assert ShadowedKeys(file.namespace, Keys(built), env.functionExists) == {};
      WithoutAbsent(built, {});
    }
    assert afterNamespace == built;
    UsesFilteredExact(built, file.uses, env.functionExists);
    forall e | e in built ensures e.key !in ImportedKeys(file.uses, env.functionExists) {
      var i :| 0 <= i < |built| && built[i] == e;
    }
    WithoutAbsent(built, ImportedKeys(file.uses, env.functionExists));
    assert SearchPatterns(file, env, c) == built;
    BuiltPatternsPairWithOwnRootedForm(env.functions, c);
  }

  // ---------------------------------------------------------------------------
  // The `use` filter on the arrays the editor builds

  /** On an array with no `empty()` value, the `unset` guarded by `!empty()`
      removes the key exactly when it is present. */
  lemma GuardedUnset(a: seq<Entry>, k: string)
    requires NonEmptyValues(a)
    ensures (if !IsEmptyValue(Get(a, k)) then Unset(a, k) else a) == Without(a, {k})
    ensures NonEmptyValues(Without(a, {k}))
  {
    if IsEmptyValue(Get(a, k)) {
      WithoutAbsent(a, {k});
    }
  }

  /** On an array with no `empty()` value, one import removes exactly its keys. */
  lemma AfterUseExact(functions: seq<Entry>, u: Use, functionExists: string -> bool)
    requires NonEmptyValues(functions)
    ensures AfterUse(functions, u, functionExists) == Without(functions, UseKeys(u, functionExists))
  {
    if !functionExists(u.name) {
      WithoutAbsent(functions, {});
    } else {
      var name := LastSegment(u.name);
      GuardedUnset(functions, name);
      var first := Without(functions, {name});
      if |u.alias| > 0 {
        GuardedUnset(first, u.alias);
        WithoutWithout(functions, {name}, {u.alias});
      } else {
        assert UseKeys(u, functionExists) == {name};
      }
    }
  }

  /** On an array with no `empty()` value (every array `buildFunctions`
      makes), the `use` filter removes exactly the last segment of every
      import that names a known function, and its alias when it has one,
      keeping the order and the values of the rest. */
  lemma {:induction false} UsesFilteredExact(functions: seq<Entry>, uses: seq<Use>, functionExists: string -> bool)
    requires NonEmptyValues(functions)
    ensures UsesFiltered(functions, uses, functionExists) == Without(functions, ImportedKeys(uses, functionExists))
    decreases |uses|
  {
    if uses == [] {
      WithoutAbsent(functions, {});
    } else {
      var next := AfterUse(functions, uses[0], functionExists);
      AfterUseExact(functions, uses[0], functionExists);
      UsesFilteredExact(next, uses[1..], functionExists);
      WithoutWithout(functions, UseKeys(uses[0], functionExists), ImportedKeys(uses[1..], functionExists));
    }
  }

  // ---------------------------------------------------------------------------
  // The constant pass

  /** The constant pass replaces each constant name by itself behind a
      backslash, name by name in the order of the list. */
  lemma ConstantPassRootsEachName(source: string, constants: seq<string>)
    ensures ConstantPass(source, constants)
      == ApplyInTurn(seq(|constants|, i requires 0 <= i < |constants| => (constants[i], "\\" + constants[i])), source)
  {
    ReplaceConstantsShape(constants);
    assert Pairing(constants, ReplaceConstants(constants))
      == seq(|constants|, i requires 0 <= i < |constants| => (constants[i], "\\" + constants[i]));
  }

  // ---------------------------------------------------------------------------
  // The keyword pass and the two repairs

  /** A text containing none of `true`, `false`, `null`, `function \` and
      `::\` goes through the last three passes unchanged. */
  lemma FinishingPassesKeepPlainText(s: string)
    requires !Contains(s, "true") && !Contains(s, "false") && !Contains(s, "null")
    requires !Contains(s, "function \\") && !Contains(s, "::\\")
    ensures StaticAccessRepair(DeclarationRepair(KeywordPass(s))) == s
  {
    var pairs := Pairing(Keywords, RootedKeywords);
    assert pairs[0].0 == "true" && pairs[1].0 == "false" && pairs[2].0 == "null";
    ApplyInTurnNoMatch(pairs, s);
    StrReplaceNoMatch("function \\", "function ", s);
    StrReplaceNoMatch("::\\", "::", s);
  }

  /** The declaration repair removes one backslash per occurrence of
      `function \` and keeps the text around the occurrences. */
  lemma DeclarationRepairRemovesOneBackslashEach(s: string)
    ensures var pieces := Explode("function \\", s);
      && s == Implode("function \\", pieces)
      && DeclarationRepair(s) == Implode("function ", pieces)
      && |DeclarationRepair(s)| == |s| - (|pieces| - 1)
  {
    StrReplaceSplit("function \\", "function ", s);
  }

  /** The static-access repair removes one backslash per occurrence of `::\`
      and keeps the text around the occurrences. */
  lemma StaticAccessRepairRemovesOneBackslashEach(s: string)
    ensures var pieces := Explode("::\\", s);
      && s == Implode("::\\", pieces)
      && StaticAccessRepair(s) == Implode("::", pieces)
      && |StaticAccessRepair(s)| == |s| - (|pieces| - 1)
  {
    StrReplaceSplit("::\\", "::", s);
  }
}
