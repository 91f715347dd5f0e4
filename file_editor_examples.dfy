/** Worked examples of the model: the keyword pass, the rewrite with an empty
    catalog, and the two ways in which rewriting a rewritten text changes it
    again. */
module FileEditorExamples {
  import opened PhpStrings
  import opened PhpArrays
  import opened FileEditor
  import opened FileEditorProperties

  /** The keyword pass is three scalar replacements, `true`, then `false`,
      then `null`. */
  lemma KeywordPassInTurn(s: string)
    ensures KeywordPass(s)
      == StrReplace("null", "\\null", StrReplace("false", "\\false", StrReplace("true", "\\true", s)))
  {
    var pairs := Pairing(Keywords, RootedKeywords);
    assert pairs == [("true", "\\true"), ("false", "\\false"), ("null", "\\null")];
    assert pairs[1..] == [("false", "\\false"), ("null", "\\null")];
    assert pairs[1..][1..] == [("null", "\\null")];
    assert pairs[1..][1..][1..] == [];
    var s1 := StrReplace("true", "\\true", s);
    var s2 := StrReplace("false", "\\false", s1);
    assert ApplyInTurn(pairs, s) == ApplyInTurn(pairs[1..], s1);
    assert ApplyInTurn(pairs[1..], s1) == ApplyInTurn(pairs[1..][1..], s2);
    assert ApplyInTurn(pairs[1..][1..], s2) == ApplyInTurn([], StrReplace("null", "\\null", s2));
  }

  /** Neither repair touches a text without `f` and `:`. */
  lemma RepairsKeep(s: string)
    requires 'f' !in s && ':' !in s
    ensures StaticAccessRepair(DeclarationRepair(s)) == s
  {
    StrReplaceWithoutCharacter("function \\", "function ", s, 'f');
    StrReplaceWithoutCharacter("::\\", "::", s, ':');
  }

  // ---------------------------------------------------------------------------
  // Rewriting a rewritten text

  /** `true` after a backslash is found and rooted once more. */
  lemma RootedTrueFound()
    ensures StrReplace("true", "\\true", "\\true") == "\\\\true"
  {
    var pre, post := "\\", "";
    assert "\\true" == pre + "true" + post;
    StrReplaceFirstOccurrence("true", "\\true", pre, post);
    assert pre + "\\true" + post == "\\\\true";
  }

  /** A keyword that is already rooted gets a second backslash. */
  lemma KeywordPassRootsRootedKeywordAgain()
    ensures KeywordPass("\\true") == "\\\\true"
  {
    KeywordPassInTurn("\\true");
    RootedTrueFound();
    StrReplaceWithoutCharacter("false", "\\false", "\\\\true", 'f');
    StrReplaceWithoutCharacter("null", "\\null", "\\\\true", 'n');
  }

  /** The `null` inside `is_null` is found. */
  lemma NullInIsNullFound()
    ensures StrReplace("null", "\\null", "\\is_null(") == "\\is_\\null("
  {
    var pre, post := "\\is_", "(";
    assert "\\is_null(" == pre + "null" + post;
    StrReplaceFirstOccurrence("null", "\\null", pre, post);
    assert StrReplace("null", "\\null", post) == post;
    assert pre + "\\null" + post == "\\is_\\null(";
  }

  /** A call to the rooted `is_null` is cut in two: the `null` inside the
      function's name is rooted as if it were the keyword. */
  lemma KeywordPassSplitsIsNull()
    ensures KeywordPass("\\is_null(") == "\\is_\\null("
  {
    KeywordPassInTurn("\\is_null(");
    StrReplaceWithoutCharacter("true", "\\true", "\\is_null(", 't');
    StrReplaceWithoutCharacter("false", "\\false", "\\is_null(", 'f');
    NullInIsNullFound();
  }

  /** With an empty catalog and no constants only the keyword pass and the
      two repairs act. */
  lemma EmptyCatalogRewrite(file: ReflectedFile, functionExists: string -> bool)
    ensures Rewrite(file, Environment([], [], functionExists))
      == StaticAccessRepair(DeclarationRepair(KeywordPass(file.source)))
  {
    var env := Environment([], [], functionExists);
    RewriteInOrder(file, env);
    assert Keys(env.functions) == [];
    forall s: string, c: char ensures ContextPass(s, c, file, env) == s {
      ContextPassWithoutRemovals(s, c, file, env);
      assert RootingPairs(c, Values(env.functions)) == [];
    }
    assert Pairing([], ReplaceConstants([])) == [];
  }

  /** The keyword pass turns `true` into `\true`. */
  lemma KeywordPassRootsTrue()
    ensures KeywordPass("true") == "\\true"
  {
    KeywordPassInTurn("true");
    var pre, post := "", "";
    assert "true" == pre + "true" + post;
    StrReplaceFirstOccurrence("true", "\\true", pre, post);
    assert pre + "\\true" + post == "\\true";
    StrReplaceWithoutCharacter("false", "\\false", "\\true", 'f');
    StrReplaceWithoutCharacter("null", "\\null", "\\true", 'n');
  }

  /** Rewriting `true` gives `\true`. */
  lemma RewriteRootsTrue(functionExists: string -> bool)
    ensures Rewrite(ReflectedFile("true", "", []), Environment([], [], functionExists)) == "\\true"
  {
    EmptyCatalogRewrite(ReflectedFile("true", "", []), functionExists);
    KeywordPassRootsTrue();
    RepairsKeep("\\true");
  }

  /** Rewriting `\true` gives `\\true`. */
  lemma RewriteRootsRootedTrueAgain(functionExists: string -> bool)
    ensures Rewrite(ReflectedFile("\\true", "", []), Environment([], [], functionExists)) == "\\\\true"
  {
    EmptyCatalogRewrite(ReflectedFile("\\true", "", []), functionExists);
    KeywordPassRootsRootedKeywordAgain();
    RepairsKeep("\\\\true");
  }

  /** Rewriting is not idempotent: rewriting the text that rewriting `true`
      produced changes it again. */
  lemma RewriteIsNotIdempotent(functionExists: string -> bool)
    ensures var env := Environment([], [], functionExists);
      var once := Rewrite(ReflectedFile("true", "", []), env);
      Rewrite(ReflectedFile(once, "", []), env) != once
  {
    RewriteRootsTrue(functionExists);
    RewriteRootsRootedTrueAgain(functionExists);
  }
}
