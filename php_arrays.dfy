/** PHP's ordered arrays with string keys and string values, as the rewriter
    uses them: insertion-ordered entries, lookup by key (`$a[$k]`),
    `empty()`, `unset()` and `array_keys` / the value order that
    `str_replace` reads. */
module PhpArrays {

  datatype Option<T> = None | Some(value: T)

  /** One `key => value` slot of an ordered PHP array. */
  datatype Entry = Entry(key: string, value: string)

  /** PHP `array_keys`: the keys in order. */
  function Keys(a: seq<Entry>): seq<string>
  {
    seq(|a|, i requires 0 <= i < |a| => a[i].key)
  }

  /** The values in order, as `str_replace` and `array_map` visit them. */
  function Values(a: seq<Entry>): seq<string>
  {
    seq(|a|, i requires 0 <= i < |a| => a[i].value)
  }

  function KeySet(a: seq<Entry>): set<string>
  {
    set i | 0 <= i < |a| :: a[i].key
  }

  /** `$a[$k]`: the value stored under `k`, or null when there is none. */
  function Get(a: seq<Entry>, k: string): (r: Option<string>)
    ensures r.Some? <==> k in KeySet(a)
    ensures r.Some? ==> Entry(k, r.value) in a
  {
    if a == [] then None
    else if a[0].key == k then Some(a[0].value)
    else
      var r := Get(a[1..], k);
      assert KeySet(a) == {a[0].key} + KeySet(a[1..]) by {
        forall x | x in KeySet(a) ensures x in {a[0].key} + KeySet(a[1..]) {
          var i :| 0 <= i < |a| && a[i].key == x;
          if i > 0 { assert a[1..][i - 1].key == x; }
        }
      }
      r
  }

  /** PHP `empty()` of a looked-up value: null, "" and "0" are empty. */
  predicate IsEmptyValue(v: Option<string>)
  {
    v.None? || v.value == "" || v.value == "0"
  }

  /** No stored value is empty in the sense of `empty()`. */
  predicate NonEmptyValues(a: seq<Entry>)
  {
    forall e :: e in a ==> !IsEmptyValue(Some(e.value))
  }

  /** The array without the entries whose key is in `ks`, the order and the
      values of the rest kept. */
  function Without(a: seq<Entry>, ks: set<string>): (r: seq<Entry>)
    ensures forall e :: e in r <==> e in a && e.key !in ks
    ensures |r| <= |a|
  {
    if a == [] then []
    else (if a[0].key in ks then [] else [a[0]]) + Without(a[1..], ks)
  }

  /** PHP `unset($a[$k])`. */
  function Unset(a: seq<Entry>, k: string): seq<Entry>
  {
    Without(a, {k})
  }

  /** `r` is `a` restricted to some of its keys: order and values kept. */
  ghost predicate SubArray(r: seq<Entry>, a: seq<Entry>)
  {
    exists ks :: r == Without(a, ks)
  }

  /** Removing keys in two steps is removing them all at once. */
  lemma {:induction false} WithoutWithout(a: seq<Entry>, ks1: set<string>, ks2: set<string>)
    ensures Without(Without(a, ks1), ks2) == Without(a, ks1 + ks2)
  {
    if a != [] {
      WithoutWithout(a[1..], ks1, ks2);
      var first := if a[0].key in ks1 then [] else [a[0]];
      assert Without(a, ks1) == first + Without(a[1..], ks1);
      WithoutAppend(first, Without(a[1..], ks1), ks2);
    }
  }

  lemma {:induction false} WithoutAppend(a: seq<Entry>, b: seq<Entry>, ks: set<string>)
    ensures Without(a + b, ks) == Without(a, ks) + Without(b, ks)
  {
    if a != [] {
      assert (a + b)[1..] == a[1..] + b;
      WithoutAppend(a[1..], b, ks);
    } else {
      assert a + b == b;
    }
  }

  /** Removing keys the array does not have changes nothing. */
  lemma {:induction false} WithoutAbsent(a: seq<Entry>, ks: set<string>)
    requires forall e :: e in a ==> e.key !in ks
    ensures Without(a, ks) == a
  {
    if a != [] {
      WithoutAbsent(a[1..], ks);
      assert a == [a[0]] + a[1..];
    }
  }

  /** A restriction of a restriction is a restriction. */
  lemma SubArrayTransitive(r: seq<Entry>, b: seq<Entry>, a: seq<Entry>)
    requires SubArray(r, b) && SubArray(b, a)
    ensures SubArray(r, a)
  {
    var ks1 :| b == Without(a, ks1);
    var ks2 :| r == Without(b, ks2);
    WithoutWithout(a, ks1, ks2);
  }

  lemma SubArrayReflexive(a: seq<Entry>)
    ensures SubArray(a, a)
  {
    WithoutAbsent(a, {});
  }

  /** The keys of the remaining entries are the original keys minus `ks`. */
  lemma WithoutKeySet(a: seq<Entry>, ks: set<string>)
    ensures KeySet(Without(a, ks)) == KeySet(a) - ks
  {
    var r := Without(a, ks);
    forall k | k in KeySet(r) ensures k in KeySet(a) - ks {
      var i :| 0 <= i < |r| && r[i].key == k;
      assert r[i] in r;
    }
    forall k | k in KeySet(a) - ks ensures k in KeySet(r) {
      var i :| 0 <= i < |a| && a[i].key == k;
      assert a[i] in a;
      var j :| 0 <= j < |r| && r[j] == a[i];
    }
  }

  /** Arrays with the same keys in the same order have the same key set. */
  lemma KeySetOfKeys(a: seq<Entry>, b: seq<Entry>)
    requires Keys(a) == Keys(b)
    ensures KeySet(a) == KeySet(b)
  {
    forall k | k in KeySet(a) ensures k in KeySet(b) {
      var i :| 0 <= i < |a| && a[i].key == k;
      assert Keys(a)[i] == Keys(b)[i];
    }
    forall k | k in KeySet(b) ensures k in KeySet(a) {
      var i :| 0 <= i < |b| && b[i].key == k;
      assert Keys(a)[i] == Keys(b)[i];
    }
  }
}
