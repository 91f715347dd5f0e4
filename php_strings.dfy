/** PHP's string built-ins that the rewriter relies on: `str_replace` in its
    scalar and array forms, `explode`, `implode` and `ltrim`. Strings are
    sequences of characters; PHP's byte strings are not distinguished here. */
module PhpStrings {

  /** `x` occurs in `s` starting at index `i`. */
  predicate OccursAt(s: string, x: string, i: nat)
  {
    i + |x| <= |s| && s[i..i + |x|] == x
  }

  /** `x` occurs somewhere in `s`. */
  ghost predicate Contains(s: string, x: string)
  {
    exists i: nat :: OccursAt(s, x, i)
  }

  /** PHP `str_replace(search, replace, subject)` with string arguments: scans
      `subject` from left to right and replaces every non-overlapping
      occurrence of `search`; an empty `search` leaves `subject` as it is. */
  function StrReplace(search: string, replace: string, subject: string): string
    decreases |subject|
  {
    if search == [] || |subject| < |search| then subject
    else if subject[..|search|] == search then replace + StrReplace(search, replace, subject[|search|..])
    else [subject[0]] + StrReplace(search, replace, subject[1..])
  }

  /** PHP `explode(delimiter, s)`: the pieces of `s` between the
      non-overlapping occurrences of `delimiter`, found from left to right.
      PHP refuses an empty delimiter. */
  function Explode(delimiter: string, s: string): (pieces: seq<string>)
    requires delimiter != []
    ensures |pieces| >= 1
    decreases |s|
  {
    if |s| < |delimiter| then [s]
    else if s[..|delimiter|] == delimiter then [""] + Explode(delimiter, s[|delimiter|..])
    else
      var rest := Explode(delimiter, s[1..]);
      [[s[0]] + rest[0]] + rest[1..]
  }

  /** PHP `implode(glue, pieces)`: the pieces joined by `glue`. */
  function Implode(glue: string, pieces: seq<string>): string
  {
    if pieces == [] then ""
    else if |pieces| == 1 then pieces[0]
    else pieces[0] + glue + Implode(glue, pieces[1..])
  }

  /** PHP `ltrim(s, c)` for a one-character list: `s` without its leading run of `c`. */
  function Ltrim(s: string, c: char): (r: string)
    ensures |r| <= |s| && r == s[|s| - |r|..]
    ensures forall i :: 0 <= i < |s| - |r| ==> s[i] == c
    ensures r == [] || r[0] != c
  {
    if s != [] && s[0] == c then Ltrim(s[1..], c) else s
  }

  /** The replacement PHP pairs with the search string at position `i` of
      the search array: the replacement at the same position, or "" once the
      replacement array has run out. */
  function ReplacementAt(replacements: seq<string>, i: nat): string
  {
    if i < |replacements| then replacements[i] else ""
  }

  /** The (search, replacement) pairs of `str_replace` with two arrays. PHP
      walks both arrays by position and ignores their keys. */
  function Pairing(searches: seq<string>, replacements: seq<string>): seq<(string, string)>
  {
    seq(|searches|, i requires 0 <= i < |searches| => (searches[i], ReplacementAt(replacements, i)))
  }

  /** Applies each (search, replacement) pair in turn to the running subject. */
  function ApplyInTurn(pairs: seq<(string, string)>, subject: string): string
    decreases |pairs|
  {
    if pairs == [] then subject
    else ApplyInTurn(pairs[1..], StrReplace(pairs[0].0, pairs[0].1, subject))
  }

  /** PHP `str_replace(searches, replacements, subject)` with two arrays. */
  function StrReplaceArrays(searches: seq<string>, replacements: seq<string>, subject: string): string
  {
    ApplyInTurn(Pairing(searches, replacements), subject)
  }

  // ---------------------------------------------------------------------------
  // Properties of str_replace

  /** A subject in which `search` does not occur comes back unchanged. */
  lemma {:induction false} StrReplaceNoMatch(search: string, replace: string, subject: string)
    requires search == [] || !Contains(subject, search)
    ensures StrReplace(search, replace, subject) == subject
    decreases |subject|
  {
    if search != [] && |subject| >= |search| {
      assert !OccursAt(subject, search, 0);
      forall i: nat | OccursAt(subject[1..], search, i)
        ensures OccursAt(subject, search, i + 1)
      {
        assert subject[1..][i..i + |search|] == subject[i + 1..i + 1 + |search|];
      }
      StrReplaceNoMatch(search, replace, subject[1..]);
    }
  }

  /** A string with a character the subject lacks does not occur in it. */
  lemma AbsentByCharacter(subject: string, search: string, ch: char)
    requires ch in search && ch !in subject
    ensures !Contains(subject, search)
  {
    var j :| 0 <= j < |search| && search[j] == ch;
    forall i: nat | i + |search| <= |subject| ensures !OccursAt(subject, search, i) {
      assert subject[i..i + |search|][j] == subject[i + j] != ch;
    }
  }

  /** A subject lacking one of the search's characters comes back unchanged. */
  lemma StrReplaceWithoutCharacter(search: string, replace: string, subject: string, ch: char)
    requires ch in search && ch !in subject
    ensures StrReplace(search, replace, subject) == subject
  {
    AbsentByCharacter(subject, search, ch);
    StrReplaceNoMatch(search, replace, subject);
  }

  /** No occurrence can start inside a prefix that lacks the search's first
      character, so `str_replace` copies that prefix. */
  lemma {:induction false} StrReplaceSkip(search: string, replace: string, pre: string, post: string)
    requires search != [] && search[0] !in pre
    ensures StrReplace(search, replace, pre + post) == pre + StrReplace(search, replace, post)
    decreases |pre|
  {
    if pre != [] {
      var subject := pre + post;
      assert subject[1..] == pre[1..] + post;
      if |subject| >= |search| {
        assert subject[..|search|][0] == pre[0];
      }
      StrReplaceSkip(search, replace, pre[1..], post);
    } else {
      assert pre + post == post;
    }
  }

  /** The first occurrence after such a prefix is replaced, and the scan
      goes on after it. */
  lemma StrReplaceFirstOccurrence(search: string, replace: string, pre: string, post: string)
    requires search != [] && search[0] !in pre
    ensures StrReplace(search, replace, pre + search + post)
      == pre + replace + StrReplace(search, replace, post)
  {
    assert pre + search + post == pre + (search + post);
    StrReplaceSkip(search, replace, pre, search + post);
    assert (search + post)[..|search|] == search;
    assert (search + post)[|search|..] == post;
    assert StrReplace(search, replace, search + post) == replace + StrReplace(search, replace, post);
    assert pre + replace + StrReplace(search, replace, post) == pre + (replace + StrReplace(search, replace, post));
  }

  /** Replacing a string by itself changes nothing. */
  lemma {:induction false} StrReplaceSelf(search: string, subject: string)
    ensures StrReplace(search, search, subject) == subject
    decreases |subject|
  {
    if search == [] || |subject| < |search| {
    } else if subject[..|search|] == search {
      StrReplaceSelf(search, subject[|search|..]);
      assert subject == subject[..|search|] + subject[|search|..];
    } else {
      StrReplaceSelf(search, subject[1..]);
      assert subject == [subject[0]] + subject[1..];
    }
  }

  lemma ImplodePrepend(glue: string, prefix: string, pieces: seq<string>)
    requires pieces != []
    ensures Implode(glue, [prefix + pieces[0]] + pieces[1..]) == prefix + Implode(glue, pieces)
  {
    var joined := [prefix + pieces[0]] + pieces[1..];
    assert joined[1..] == pieces[1..];
  }

  /** `str_replace` is `implode` of `explode`: the text between the
      occurrences is kept, and each occurrence becomes the replacement. */
  lemma {:induction false} StrReplaceIsImplodeOfExplode(search: string, replace: string, subject: string)
    requires search != []
    ensures StrReplace(search, replace, subject) == Implode(replace, Explode(search, subject))
    decreases |subject|
  {
    if |subject| < |search| {
    } else if subject[..|search|] == search {
      var rest := subject[|search|..];
      StrReplaceIsImplodeOfExplode(search, replace, rest);
      var pieces := [""] + Explode(search, rest);
      assert pieces[1..] == Explode(search, rest);
    } else {
      StrReplaceIsImplodeOfExplode(search, replace, subject[1..]);
      ImplodePrepend(replace, [subject[0]], Explode(search, subject[1..]));
    }
  }

  /** `implode` undoes `explode` with the same delimiter. */
  lemma ImplodeExplode(delimiter: string, s: string)
    requires delimiter != []
    ensures Implode(delimiter, Explode(delimiter, s)) == s
  {
    StrReplaceIsImplodeOfExplode(delimiter, delimiter, s);
    StrReplaceSelf(delimiter, s);
  }

  /** The first piece of `explode` is a prefix of the exploded string. */
  lemma {:induction false} ExplodeFirstIsPrefix(delimiter: string, s: string)
    requires delimiter != []
    ensures Explode(delimiter, s)[0] <= s
    decreases |s|
  {
    if |s| < |delimiter| {
    } else if s[..|delimiter|] == delimiter {
    } else {
      ExplodeFirstIsPrefix(delimiter, s[1..]);
      var first := Explode(delimiter, s[1..])[0];
      assert [s[0]] + first <= [s[0]] + s[1..];
      assert s == [s[0]] + s[1..];
    }
  }

  /** No piece of `explode` contains the delimiter. */
  lemma {:induction false} ExplodePiecesFree(delimiter: string, s: string)
    requires delimiter != []
    ensures forall k :: 0 <= k < |Explode(delimiter, s)| ==> !Contains(Explode(delimiter, s)[k], delimiter)
    decreases |s|
  {
    var pieces := Explode(delimiter, s);
    if |s| < |delimiter| {
      forall i: nat ensures !OccursAt(s, delimiter, i) {}
    } else if s[..|delimiter|] == delimiter {
      ExplodePiecesFree(delimiter, s[|delimiter|..]);
      assert pieces[1..] == Explode(delimiter, s[|delimiter|..]);
      forall i: nat ensures !OccursAt("", delimiter, i) {}
    } else {
      var rest := Explode(delimiter, s[1..]);
      ExplodePiecesFree(delimiter, s[1..]);
      ExplodeFirstIsPrefix(delimiter, s[1..]);
      assert pieces[1..] == rest[1..];
      var first := [s[0]] + rest[0];
      assert first <= s by {
        assert s == [s[0]] + s[1..];
      }
      forall i: nat | 0 < i && OccursAt(first, delimiter, i)
        ensures OccursAt(rest[0], delimiter, i - 1)
      {
        assert first[i..i + |delimiter|] == rest[0][i - 1..i - 1 + |delimiter|];
      }
      assert !OccursAt(first, delimiter, 0) by {
        if |delimiter| <= |first| {
          assert first[..|delimiter|] == s[..|delimiter|];
        }
      }
    }
  }

  /** Joining the same pieces with glues of different lengths changes the
      length by the difference once per glue. */
  lemma {:induction false} ImplodeLengthDifference(x: string, y: string, pieces: seq<string>)
    requires pieces != []
    ensures |Implode(x, pieces)| - |Implode(y, pieces)| == (|pieces| - 1) * (|x| - |y|)
    decreases |pieces|
  {
    if |pieces| > 1 {
      ImplodeLengthDifference(x, y, pieces[1..]);
    }
  }

  /** The decomposition behind `str_replace`: the subject is its pieces joined
      by `search`, the result is the same pieces joined by `replace`, no piece
      contains `search`, and the length changes by the length difference once
      per occurrence. */
  lemma StrReplaceSplit(search: string, replace: string, subject: string)
    requires search != []
    ensures var pieces := Explode(search, subject);
      && subject == Implode(search, pieces)
      && StrReplace(search, replace, subject) == Implode(replace, pieces)
      && (forall k :: 0 <= k < |pieces| ==> !Contains(pieces[k], search))
      && |subject| - |StrReplace(search, replace, subject)| == (|pieces| - 1) * (|search| - |replace|)
  {
    ImplodeExplode(search, subject);
    StrReplaceIsImplodeOfExplode(search, replace, subject);
    ExplodePiecesFree(search, subject);
    ImplodeLengthDifference(search, replace, Explode(search, subject));
  }

  /** A subject in which `search` occurs explodes into at least two pieces. */
  lemma ExplodeSplitsAtOccurrence(delimiter: string, s: string)
    requires delimiter != []
    ensures Contains(s, delimiter) ==> |Explode(delimiter, s)| >= 2
  {
    ImplodeExplode(delimiter, s);
    ExplodePiecesFree(delimiter, s);
  }

  /** Kept apart from StrReplaceChanges: over bare integers this nonlinear
      step is immediate, amid the string facts it is costly for the solver. */
  lemma ProductNonZero(x: int, y: int)
    requires x >= 1 && y != 0
    ensures x * y != 0
  {
  }

  /** A non-empty search that occurs in the subject and differs from its
      replacement always changes the subject. */
  lemma StrReplaceChanges(search: string, replace: string, subject: string)
    requires search != [] && search != replace && Contains(subject, search)
    ensures StrReplace(search, replace, subject) != subject
  {
    StrReplaceSplit(search, replace, subject);
    ExplodeSplitsAtOccurrence(search, subject);
    var pieces := Explode(search, subject);
    var r := StrReplace(search, replace, subject);
    if |search| != |replace| {
      ProductNonZero(|pieces| - 1, |search| - |replace|);
    } else {
      var p := |pieces[0]|;
      var rest := pieces[1..];
      assert subject == pieces[0] + search + Implode(search, rest);
      assert r == pieces[0] + replace + Implode(replace, rest);
      assert subject[p..p + |search|] == search;
      assert r[p..p + |search|] == replace;
    }
  }

  /** `str_replace` leaves its subject unchanged exactly when the search is
      empty, equals the replacement, or does not occur in the subject. */
  lemma StrReplaceUnchangedIff(search: string, replace: string, subject: string)
    ensures StrReplace(search, replace, subject) == subject
            <==> search == [] || search == replace || !Contains(subject, search)
  {
    if search == [] || !Contains(subject, search) {
      StrReplaceNoMatch(search, replace, subject);
    } else if search == replace {
      StrReplaceSelf(search, subject);
    } else {
      StrReplaceChanges(search, replace, subject);
    }
  }

  // ---------------------------------------------------------------------------
  // Properties of the array form

  /** Running the pairs of `p` then those of `q` is running `p + q`. */
  lemma {:induction false} ApplyInTurnAppend(p: seq<(string, string)>, q: seq<(string, string)>, subject: string)
    ensures ApplyInTurn(p + q, subject) == ApplyInTurn(q, ApplyInTurn(p, subject))
    decreases |p|
  {
    if p != [] {
      assert (p + q)[1..] == p[1..] + q;
      ApplyInTurnAppend(p[1..], q, StrReplace(p[0].0, p[0].1, subject));
    } else {
      assert p + q == q;
    }
  }

  /** A subject in which no search string occurs comes back unchanged. */
  lemma {:induction false} ApplyInTurnNoMatch(pairs: seq<(string, string)>, subject: string)
    requires forall k :: 0 <= k < |pairs| ==> pairs[k].0 == [] || !Contains(subject, pairs[k].0)
    ensures ApplyInTurn(pairs, subject) == subject
    decreases |pairs|
  {
    if pairs != [] {
      StrReplaceNoMatch(pairs[0].0, pairs[0].1, subject);
      ApplyInTurnNoMatch(pairs[1..], subject);
    }
  }
}
