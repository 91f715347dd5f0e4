# FileEditor rewriting engine, modelled in Dafny

`FileEditor::addBackslashesToFunctions` rewrites a PHP file so that calls to
global functions, uses of global constants and the keywords `true`, `false`
and `null` carry a leading backslash (they are "rooted"). It does this
with literal `str_replace` passes over the file's text:

1. For each of the characters ` `, `(`, `,`, `!`, `[`, `=` in turn:
   - build the call patterns `c + name + "("` for the function catalog;
   - drop the functions that also exist in the file's namespace;
   - drop the functions the file imports with `use` (and their aliases);
   - replace the surviving patterns, by position, with the rooted patterns `c + "\" + ltrim(name, "\") + "("` of the whole catalog (see "## Findings").
2. Root every defined constant name.
3. Root `true`, `false` and `null`.
4. Undo the backslash after `function ` and after `::`.

The project models that pipeline and the PHP built-ins it relies on:

- `php_strings.dfy` (module `PhpStrings`) models these built-ins:
  - `str_replace` in its scalar form, scanning left to right for non-overlapping matches and skipping an empty search;
  - `str_replace` in its array form, which pairs searches and replacements by position and uses `""` once the replacements run out;
  - `explode`, `implode` and `ltrim`.
- `php_arrays.dfy` (module `PhpArrays`) models PHP ordered arrays as sequences of key/value entries, with `$a[$k]`, `empty()` and `unset`.
- `file_editor.dfy` (module `FileEditor`) holds the engine:
  - `buildFunctions`, `buildBackslashedFunctions` and `replaceConstants` as functions;
  - the two filters and the pipeline as methods with loops, each proved equal to a specification function;
  - `Rewrite`, which gives the text handed to `writeFile`.
- `file_editor_properties.dfy` (module `FileEditorProperties`) holds the properties of the passes.
- `file_editor_examples.dfy` (module `FileEditorExamples`) holds worked examples of the model. Among them: the rewrite is not idempotent.
- `findings.dfy` (module `Findings`) covers the positional pairing at line 60. It states the pairing as the code writes it, and defines and proves the pass that pairs by key.

The reflected file (its text, namespace and `use` list) and the environment are inputs. The environment is:

- the function catalog;
- the defined constants;
- `function_exists`, as an uninterpreted predicate.

All source paths below are relative to the repository root.

## Model

| member | source | states |
|---|---|---|
| FileEditor.BuildFunctionsShape | src/ForbiddenFunctions/Fixer/FileEditor.php:146-155 | `buildFunctions(c)` keeps every catalog key in order, the i-th value is `c + name + "("`, and no value is `empty()` |
| FileEditor.BuildBackslashedFunctionsShape | src/ForbiddenFunctions/Fixer/FileEditor.php:131-140 | `buildBackslashedFunctions(c)` keeps every key in order, the i-th value is `c + "\" + ltrim(name, "\") + "("`, and exactly one backslash follows `c` even when the name starts with one |
| FileEditor.ReplaceConstantsShape | src/ForbiddenFunctions/Fixer/FileEditor.php:160-168 | `replaceConstants()` has one entry per constant, in order, and the i-th is `"\" + name[i]` |
| FileEditor.ShadowedKeys | src/ForbiddenFunctions/Fixer/FileEditor.php:85-90 | a key is unset exactly when `function_exists("\" + ltrim(ns, "\") + "\" + key)` |
| FileEditor.NamespaceFilteredSpec | src/ForbiddenFunctions/Fixer/FileEditor.php:83-94 | with an empty namespace the array comes back unchanged; otherwise exactly the entries whose key is not a function of the namespace are kept, and the result is a restriction of the input (order and values kept) |
| FileEditor.UnsetShadowed | src/ForbiddenFunctions/Fixer/FileEditor.php:85-91 | the loop over the snapshot of the keys leaves the array without exactly the shadowed keys |
| FileEditor.RemoveFunctionsExistingInCurrentNamespaceFromBackslashing | src/ForbiddenFunctions/Fixer/FileEditor.php:79-95 | the method returns the namespace-filtered array |
| FileEditor.LastSegment | src/ForbiddenFunctions/Fixer/FileEditor.php:111-112 | `array_pop(explode("\", name))` is a suffix of the name without a backslash, preceded by a backslash when it is shorter than the name |
| FileEditor.AfterUseRestricts | src/ForbiddenFunctions/Fixer/FileEditor.php:108-121 | one import only removes entries, and removes none whose key is neither its last segment nor its alias |
| FileEditor.UsesFilteredRestricts | src/ForbiddenFunctions/Fixer/FileEditor.php:107-124 | the `use` filter returns a restriction of its input and keeps every entry whose key no import names |
| FileEditor.UnsetImported | src/ForbiddenFunctions/Fixer/FileEditor.php:108-120 | the body of the `use` loop for one import performs exactly that import's guarded unsets, as `AfterUse` defines them |
| FileEditor.RemoveUseFunctionsFromBackslashing | src/ForbiddenFunctions/Fixer/FileEditor.php:105-125 | the method returns the `use`-filtered array, import by import in order |
| FileEditor.BackslashFunctionsAfter | src/ForbiddenFunctions/Fixer/FileEditor.php:57-60 | one iteration builds, filters and substitutes the patterns for its character, which is the context pass for that character |
| FileEditor.BackslashFunctions | src/ForbiddenFunctions/Fixer/FileEditor.php:56-61 | the loop applies the context passes for ` `, `(`, `,`, `!`, `[`, `=` in that order |
| FileEditor.AddBackslashesToFunctions | src/ForbiddenFunctions/Fixer/FileEditor.php:51-69 | the text handed to `writeFile` is `Rewrite` of the reflected file |
| FileEditorProperties.RewriteInOrder | src/ForbiddenFunctions/Fixer/FileEditor.php:56-66 | the written text comes from the six context passes in character order, then the constant pass, the keyword pass, the `function \` repair and the `::\` repair |
| FileEditorProperties.BuiltPatternsPairWithOwnRootedForm | src/ForbiddenFunctions/Fixer/FileEditor.php:131-155 | built from the same catalog, the two arrays pair each name's call pattern with its own rooted pattern, when no name starts with a backslash |
| FileEditorProperties.ContextPassWithoutRemovals | src/ForbiddenFunctions/Fixer/FileEditor.php:56-61 | when neither filter removes anything, the pass for `c` replaces `c + name + "("` by `c + "\" + name + "("`, name by name in catalog order |
| FileEditorProperties.GuardedUnset | src/ForbiddenFunctions/Fixer/FileEditor.php:114-116 | on an array with no `empty()` value, the guarded `unset` removes the key exactly when it is present |
| FileEditorProperties.AfterUseExact | src/ForbiddenFunctions/Fixer/FileEditor.php:110-120 | on the patterns the editor builds, an import of an unknown function removes nothing, and an import of a known one removes exactly its last segment and its non-empty alias |
| FileEditorProperties.UsesFilteredExact | src/ForbiddenFunctions/Fixer/FileEditor.php:107-124 | on the patterns the editor builds, the `use` filter removes exactly the keys the imports name, keeping order and values of the rest |
| FileEditorProperties.ConstantPassRootsEachName | src/ForbiddenFunctions/Fixer/FileEditor.php:63 | the constant pass replaces each constant name by `"\" + name`, in the order of the list |
| FileEditorProperties.FinishingPassesKeepPlainText | src/ForbiddenFunctions/Fixer/FileEditor.php:64-66 | text with none of `true`, `false`, `null`, `function \`, `::\` goes through the last three passes unchanged |
| FileEditorProperties.DeclarationRepairRemovesOneBackslashEach | src/ForbiddenFunctions/Fixer/FileEditor.php:65 | the repair keeps the text between occurrences of `function \` and removes one backslash per occurrence |
| FileEditorProperties.StaticAccessRepairRemovesOneBackslashEach | src/ForbiddenFunctions/Fixer/FileEditor.php:66 | the repair keeps the text between occurrences of `::\` and removes one backslash per occurrence |
| FileEditorExamples.KeywordPassInTurn | src/ForbiddenFunctions/Fixer/FileEditor.php:64 | the keyword pass roots `true`, then `false`, then `null`, each over the result of the previous |
| FileEditorExamples.RepairsKeep | src/ForbiddenFunctions/Fixer/FileEditor.php:65-66 | text without `f` and `:` goes through both repairs unchanged |
| FileEditorExamples.KeywordPassRootsTrue | src/ForbiddenFunctions/Fixer/FileEditor.php:64 | `true` becomes `\true` |
| FileEditorExamples.KeywordPassRootsRootedKeywordAgain | src/ForbiddenFunctions/Fixer/FileEditor.php:64 | an already rooted `\true` becomes `\\true` |
| FileEditorExamples.KeywordPassSplitsIsNull | src/ForbiddenFunctions/Fixer/FileEditor.php:64 | `\is_null(` becomes `\is_\null(`: the keyword pass also matches inside names |
| FileEditorExamples.EmptyCatalogRewrite | src/ForbiddenFunctions/Fixer/FileEditor.php:56-66 | with an empty catalog and no constants only the keyword pass and the two repairs change the text |
| FileEditorExamples.RewriteRootsTrue | src/ForbiddenFunctions/Fixer/FileEditor.php:51-69 | the whole rewrite turns the text `true` into `\true` |
| FileEditorExamples.RewriteRootsRootedTrueAgain | src/ForbiddenFunctions/Fixer/FileEditor.php:51-69 | the whole rewrite turns the text `\true` into `\\true` |
| FileEditorExamples.RewriteIsNotIdempotent | src/ForbiddenFunctions/Fixer/FileEditor.php:51-69 | rewriting the output of a rewrite can change it again |
| Findings.ShiftedSearchArray | src/ForbiddenFunctions/Fixer/FileEditor.php:57-59 | when the first of two catalog functions exists in the namespace, the search array holds only the second function's pattern |
| Findings.ShiftedPairingRootsWrongFunction | src/ForbiddenFunctions/Fixer/FileEditor.php:56-61 | in that case the pass as written replaces calls to the second function by rooted calls to the first |
| Findings.StrlenCallBecomesCountCall | src/ForbiddenFunctions/Fixer/FileEditor.php:60 | in namespace `App` defining `App\count`, with catalog `count`, `strlen`, the ` ` pass turns every ` strlen(` into ` \count(` |
| Findings.SearchPatternsAreKeptPatterns | src/ForbiddenFunctions/Fixer/FileEditor.php:57-59 | the filtered search array is exactly the patterns of the catalog entries whose key no filter removes, in catalog order |
| Findings.PassLeavesFilteredCalls | src/ForbiddenFunctions/Fixer/FileEditor.php:57-60 | a function dropped by either filter is not replaced: a text in which no surviving entry's call pattern occurs leaves the pass unchanged, whatever calls to dropped functions it holds |
| Findings.ContextPassByKeyRootsOwnName | src/ForbiddenFunctions/Fixer/FileEditor.php:60 | the pass as intended roots each surviving name's call pattern with that same name, and the surviving entries are exactly those whose key no filter removes |
| Findings.ByKeyRootsCalledFunction | src/ForbiddenFunctions/Fixer/FileEditor.php:60 | for the two-function case above, the pass as intended roots calls to the second function as themselves |
| Findings.StrlenCallRootedByKey | src/ForbiddenFunctions/Fixer/FileEditor.php:60 | on the `App` file above, the pass as intended turns ` strlen(` into ` \strlen(` |
| Findings.ByKeyAgreesWithoutRemovals | src/ForbiddenFunctions/Fixer/FileEditor.php:56-61 | when the filters remove nothing, the pass as written and the pass as intended agree |
| Findings.PassesByKeyAgreeWithoutRemovals | src/ForbiddenFunctions/Fixer/FileEditor.php:56-61 | when the filters remove nothing, the loop over the characters gives the same text with the passes as written and as intended |
| Findings.RewriteByKeyAgreesWithoutRemovals | src/ForbiddenFunctions/Fixer/FileEditor.php:56-66 | when the filters remove nothing, the whole rewrite as written and as intended agree |
| PhpStrings.StrReplaceIsImplodeOfExplode | src/ForbiddenFunctions/Fixer/FileEditor.php:65-66 | scalar `str_replace` equals `implode(replace, explode(search, subject))` |
| PhpStrings.StrReplaceSplit | src/ForbiddenFunctions/Fixer/FileEditor.php:65-66 | the subject is its pieces joined by the search, the result is the same pieces joined by the replacement, and no piece contains the search |
| PhpStrings.StrReplaceUnchangedIff | src/ForbiddenFunctions/Fixer/FileEditor.php:65-66 | `str_replace` leaves the subject unchanged if and only if the search is empty, equals the replacement, or does not occur |
| PhpStrings.StrReplaceNoMatch | src/ForbiddenFunctions/Fixer/FileEditor.php:60-66 | a search that does not occur leaves the subject unchanged |
| PhpStrings.StrReplaceFirstOccurrence | src/ForbiddenFunctions/Fixer/FileEditor.php:60-66 | the first occurrence after a prefix free of the search's first character is replaced and the scan resumes after it |
| PhpStrings.ApplyInTurnAppend | src/ForbiddenFunctions/Fixer/FileEditor.php:60-64 | the array form applies its pairs in turn: the pairs of `p + q` act as those of `p` followed by those of `q` |
| PhpStrings.ApplyInTurnNoMatch | src/ForbiddenFunctions/Fixer/FileEditor.php:60-64 | the array form leaves a subject in which no search occurs unchanged |
| PhpStrings.Explode | src/ForbiddenFunctions/Fixer/FileEditor.php:111 | `explode` with a non-empty delimiter always yields at least one piece, so the `array_pop` that follows always finds one |
| PhpStrings.ImplodeExplode | src/ForbiddenFunctions/Fixer/FileEditor.php:111 | joining the pieces of `explode` by the delimiter gives back the string |
| PhpStrings.Ltrim | src/ForbiddenFunctions/Fixer/FileEditor.php:136 | `ltrim(s, c)` is a suffix of `s`, what it drops is all `c`, and it does not start with `c` |
| PhpArrays.Get | src/ForbiddenFunctions/Fixer/FileEditor.php:114 | `$a[$k]` is set exactly when `k` is a key, and then names that entry's value |
| PhpArrays.Without | src/ForbiddenFunctions/Fixer/FileEditor.php:89 | `unset` keeps exactly the entries whose key is not removed, in order |
| PhpArrays.WithoutWithout | src/ForbiddenFunctions/Fixer/FileEditor.php:115-119 | two `unset`s in a row remove the union of their keys |

## Left out

- Reflecting the file (`fromReflectedFileName`, `getSourceContent`, `getNamespace`, `getUses`, lines 53-54, 83, 107) belongs to an external library. Its results are the fields of `ReflectedFile`. A `use` entry without an alias has the alias `""`.
- `writeFile` (line 68) is I/O. The model's result is the text that would be written.
- `function_exists` (lines 88, 110) inspects the running interpreter. It is the uninterpreted predicate `functionExists`. PHP's case-insensitive function lookup is therefore not modelled.
- `get_defined_constants` (line 176) inspects the running interpreter. Its key list is the input `constants`.
- The static `$constants` cache (lines 25, 175-177) is left out; the constant list is passed in directly.
- The class's three collaborator fields are set once in the constructor (lines 37-45) and never updated. The model passes their results as values, so there is no `class`.
- `FunctionRepository::getFunctions` is not part of this model. Its result is the ordered catalog. The model does not force keys to be unique; no lemma needs it.
- PHP casts integer-like string keys to integers. That cast is not modelled, because function names are never integer-like.
- PHP strings are byte strings. The model uses `seq<char>` and no encoding.
- The rewrite of the text `echo count($arr);` is not proved on that literal text. `FileEditorProperties.ContextPassWithoutRemovals` covers only the ` ` pass of it: with `count` in the catalog and no filter removing it, each ` count(` becomes ` \count(`. Nothing is proved about the other five context passes, the constant, keyword and repair passes on that text, or about running the rewrite on its own output.
- Rewriting is not idempotent, and the model follows the code:
  - `FileEditorExamples.RewriteIsNotIdempotent` proves that `true` becomes `\true` and then `\\true`;
  - `FileEditorExamples.KeywordPassSplitsIsNull` shows that `\is_null(` becomes `\is_\null(`.
- `FileEditorProperties.AfterUseExact` and `FileEditorProperties.UsesFilteredExact` require that no value in the array is `empty()`. That holds for every array `buildFunctions` makes. For arbitrary arrays, `FileEditor.UsesFilteredRestricts` states the weaker containment.

## Findings

| source | as written | input that shows it | evidently intended | confidence | as-written member | corrected member |
|---|---|---|---|---|---|---|
| src/ForbiddenFunctions/Fixer/FileEditor.php:60 | the search array has been filtered at lines 58-59, but the replacement array is rebuilt from the whole catalog, and `str_replace` pairs the two by position | a file in namespace `App` that defines `App\count`, with catalog `count`, `strlen`: the text ` strlen($s)` becomes ` \count($s)` | pair each surviving pattern with its own rooted pattern, so ` strlen($s)` becomes ` \strlen($s)` | high; not executed | Findings.ShiftedPairingRootsWrongFunction | Findings.ContextPassByKeyRootsOwnName |

`FileEditor.Rewrite` keeps the pairing as written, because it models the code as it is. `Findings.RewriteByKey` is the same pipeline with the corrected pass. `Findings.RewriteByKeyAgreesWithoutRemovals` proves that the two agree whenever no filter removes anything.
