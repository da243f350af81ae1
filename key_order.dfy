/**
 * A total order on strings (lexicographic by character code) and the
 * deterministic listing of a finite key set that the encoder relies on:
 * a Dafny map, unlike a JavaScript object, has no insertion order, so its
 * keys are written out in increasing order.
 */
module KeyOrder {

  /** `a` is lexicographically at most `b`. */
  predicate LexLe(a: string, b: string)
    decreases |a|
  {
    a == [] || (b != [] && (a[0] < b[0] || (a[0] == b[0] && LexLe(a[1..], b[1..]))))
  }

  lemma {:induction false} LemmaLexReflexive(a: string)
    ensures LexLe(a, a)
    decreases |a|
  {
    if a != [] { LemmaLexReflexive(a[1..]); }
  }

  lemma {:induction false} LemmaLexTotal(a: string, b: string)
    ensures LexLe(a, b) || LexLe(b, a)
    decreases |a|
  {
    if a != [] && b != [] && a[0] == b[0] {
      LemmaLexTotal(a[1..], b[1..]);
    }
  }

  lemma {:induction false} LemmaLexAntisymmetric(a: string, b: string)
    requires LexLe(a, b) && LexLe(b, a)
    ensures a == b
    decreases |a|
  {
    if a != [] {
      LemmaLexAntisymmetric(a[1..], b[1..]);
      assert a == [a[0]] + a[1..] && b == [b[0]] + b[1..];
    }
  }

  lemma {:induction false} LemmaLexTransitive(a: string, b: string, c: string)
    requires LexLe(a, b) && LexLe(b, c)
    ensures LexLe(a, c)
    decreases |a|
  {
    if a != [] && a[0] == b[0] && b[0] == c[0] {
      LemmaLexTransitive(a[1..], b[1..], c[1..]);
    }
  }

  /** `k` is the least element of `keys`. */
  predicate IsLeast(k: string, keys: set<string>)
  {
    k in keys && forall j :: j in keys ==> LexLe(k, j)
  }

  lemma {:induction false} LemmaLeastExists(keys: set<string>)
    requires keys != {}
    ensures exists k :: IsLeast(k, keys)
    decreases keys
  {
    var x :| x in keys;
    LemmaLexReflexive(x);
    if keys == {x} {
      assert IsLeast(x, keys);
    } else {
      var rest := keys - {x};
      LemmaLeastExists(rest);
      var y :| IsLeast(y, rest);
      LemmaLexTotal(x, y);
      if LexLe(x, y) {
        forall j | j in keys ensures LexLe(x, j) {
          if j != x { assert j in rest; LemmaLexTransitive(x, y, j); }
        }
        assert IsLeast(x, keys);
      } else {
        assert IsLeast(y, keys);
      }
    }
  }

  lemma LemmaLeastUnique(keys: set<string>, k1: string, k2: string)
    requires IsLeast(k1, keys) && IsLeast(k2, keys)
    ensures k1 == k2
  {
    LemmaLexAntisymmetric(k1, k2);
  }

  /** The least key of a non-empty set. */
  function Least(keys: set<string>): (k: string)
    requires keys != {}
    ensures k in keys
    ensures forall j :: j in keys ==> LexLe(k, j)
  {
    LemmaLeastExists(keys);
    assert forall k1, k2 :: IsLeast(k1, keys) && IsLeast(k2, keys) ==> k1 == k2 by {
      forall k1, k2 | IsLeast(k1, keys) && IsLeast(k2, keys) ensures k1 == k2 {
        LemmaLeastUnique(keys, k1, k2);
      }
    }
    var k :| IsLeast(k, keys); k
  }

  /** The keys of `keys`, each once, in increasing order (LemmaSortedKeysIncreasing). */
  function SortedKeys(keys: set<string>): (ks: seq<string>)
    ensures |ks| == |keys|
    ensures forall k :: k in ks <==> k in keys
    decreases keys
  {
    if keys == {} then []
    else
      var k := Least(keys);
      [k] + SortedKeys(keys - {k})
  }

  lemma {:induction false} LemmaSortedKeysIncreasing(keys: set<string>)
    ensures forall i, j :: 0 <= i < j < |SortedKeys(keys)| ==>
      LexLe(SortedKeys(keys)[i], SortedKeys(keys)[j]) && SortedKeys(keys)[i] != SortedKeys(keys)[j]
    decreases keys
  {
    if keys != {} {
      var k := Least(keys);
      var tail := SortedKeys(keys - {k});
      LemmaSortedKeysIncreasing(keys - {k});
      var ks := SortedKeys(keys);
      assert ks == [k] + tail;
      forall i, j | 0 <= i < j < |ks| ensures LexLe(ks[i], ks[j]) && ks[i] != ks[j] {
        if i == 0 {
          assert ks[j] == tail[j - 1] && ks[j] in keys - {k};
        } else {
          assert ks[i] == tail[i - 1] && ks[j] == tail[j - 1];
        }
      }
    }
  }
}
