/**
 A model of `lookup_fxn` from pydiffmap's utilities: a dictionary is filled in
 a loop from two parallel sequences `x` and `vals`, keyed by the string form of
 each `x[i]`, and a closure that reads the dictionary is returned.

 Python's `str` is modelled as an arbitrary key function `key: T -> K`; it is
 not assumed to be injective, so two inputs may share a key.
 */
module Lookup {

  /** Outcome of calling the returned closure: the stored value, or the
      `KeyError` the dictionary raises for a key it does not hold. */
  datatype Result<V> = Ok(value: V) | KeyError

  /** The set of keys that `x` produces. */
  function KeysOf<T, K(==)>(x: seq<T>, key: T -> K): set<K>
  {
    set i | 0 <= i < |x| :: key(x[i])
  }

  /** The largest index of `x` whose key is `k`, or -1 if there is none. */
  function LastIndexOf<T, K(==)>(x: seq<T>, key: T -> K, k: K): (j: int)
    ensures -1 <= j < |x|
    ensures j == -1 <==> forall i :: 0 <= i < |x| ==> key(x[i]) != k
    ensures 0 <= j ==> key(x[j]) == k && forall i :: j < i < |x| ==> key(x[i]) != k
    decreases |x|
  {
    if |x| == 0 then -1
    else if key(x[|x| - 1]) == k then |x| - 1
    else LastIndexOf(x[..|x| - 1], key, k)
  }

  /** Reference definition of the finished dictionary: it holds exactly the
      keys of `x`, and each key is bound to the value paired with the LAST
      element of `x` that has that key. */
  function TableOf<T, K(==), V>(x: seq<T>, vals: seq<V>, key: T -> K): map<K, V>
    requires |x| <= |vals|
  {
    map k | k in KeysOf(x, key) :: vals[LastIndexOf(x, key, k)]
  }

  /** The returned closure `lf`: look up the key of `xi` in the dictionary. */
  function Lf<T, K(==), V>(table: map<K, V>, key: T -> K, xi: T): Result<V>
  {
    if key(xi) in table then Ok(table[key(xi)]) else KeyError
  }

  /** Extending `x` by one element writes that element's key over whatever
      the shorter prefix had bound it to. */
  lemma TableSnoc<T, K, V>(x: seq<T>, vals: seq<V>, key: T -> K, i: nat)
    requires i < |x| <= |vals|
    ensures TableOf(x[..i + 1], vals, key) == TableOf(x[..i], vals, key)[key(x[i]) := vals[i]]
  {
    var longer, shorter := x[..i + 1], x[..i];
    assert longer[..i] == shorter;
    assert KeysOf(longer, key) == KeysOf(shorter, key) + {key(x[i])} by {
      forall k | k in KeysOf(longer, key) ensures k in KeysOf(shorter, key) + {key(x[i])} {
        var j :| 0 <= j < |longer| && key(longer[j]) == k;
        if j < i { assert shorter[j] == longer[j]; }
      }
      forall k | k in KeysOf(shorter, key) ensures k in KeysOf(longer, key) {
        var j :| 0 <= j < |shorter| && key(shorter[j]) == k;
        assert longer[j] == shorter[j];
      }
      assert longer[i] == x[i];
    }
  }

  /** The loop of `lookup_fxn`: `lookup[str(x[i])] = vals[i]` for each `i`
      in order. The finished dictionary is the reference table. */
  method BuildTable<T, K(==), V>(x: seq<T>, vals: seq<V>, key: T -> K) returns (lookup: map<K, V>)
    requires |x| <= |vals|
    ensures lookup == TableOf(x, vals, key)
  {
    lookup := map[];
    assert x[..0] == [];
    for i := 0 to |x|
      invariant lookup == TableOf(x[..i], vals, key)
    {
      TableSnoc(x, vals, key, i);
      lookup := lookup[key(x[i]) := vals[i]];
    }
    assert x[..|x|] == x;
  }

  /** `lookup_fxn(x, vals)`: build the dictionary, then return the closure
      that reads it. */
  method LookupFxn<T, K(==), V>(x: seq<T>, vals: seq<V>, key: T -> K) returns (lf: T -> Result<V>)
    requires |x| <= |vals|
    ensures forall xi :: lf(xi) == Lf(TableOf(x, vals, key), key, xi)
  {
    var lookup := BuildTable(x, vals, key);
    lf := xi => Lf(lookup, key, xi);
  }

  /** The key set of `x` has at most `|x|` elements. */
  lemma {:induction false} KeysOfSize<T, K>(x: seq<T>, key: T -> K)
    ensures |KeysOf(x, key)| <= |x|
    decreases |x|
  {
    if |x| > 0 {
      var init := x[..|x| - 1];
      var last := key(x[|x| - 1]);
      assert KeysOf(x, key) == KeysOf(init, key) + {last} by {
        forall k | k in KeysOf(x, key) ensures k in KeysOf(init, key) + {last} {
          var j :| 0 <= j < |x| && key(x[j]) == k;
          if j < |x| - 1 { assert init[j] == x[j]; }
        }
        forall k | k in KeysOf(init, key) ensures k in KeysOf(x, key) {
          var j :| 0 <= j < |init| && key(init[j]) == k;
          assert x[j] == init[j];
        }
      }
      KeysOfSize(init, key);
      if last in KeysOf(init, key) {
        assert KeysOf(init, key) + {last} == KeysOf(init, key);
      }
    }
  }

  /** The dictionary's keys are exactly the string forms of the elements of
      `x`, so it has at most `|x|` entries. */
  lemma TableKeys<T, K, V>(x: seq<T>, vals: seq<V>, key: T -> K)
    requires |x| <= |vals|
    ensures forall k :: k in TableOf(x, vals, key) <==> exists i :: 0 <= i < |x| && key(x[i]) == k
    ensures |TableOf(x, vals, key)| <= |x|
  {
    assert TableOf(x, vals, key).Keys == KeysOf(x, key);
    KeysOfSize(x, key);
  }

  /** Last write wins: `lf(x[i])` is the value paired with the last element
      of `x` whose key equals that of `x[i]`, which is at or after `i`. */
  lemma LookupLastWins<T, K, V>(x: seq<T>, vals: seq<V>, key: T -> K, i: nat)
    requires |x| <= |vals|
    requires i < |x|
    ensures var j := LastIndexOf(x, key, key(x[i]));
      && i <= j < |x|
      && key(x[j]) == key(x[i])
      && Lf(TableOf(x, vals, key), key, x[i]) == Ok(vals[j])
  {
    assert key(x[i]) in KeysOf(x, key);
  }

  /** When the keys of `x` are pairwise distinct, `lf(x[i])` is `vals[i]`:
      the documented contract "outputs the corresponding value in vals". */
  lemma LookupDistinct<T, K, V>(x: seq<T>, vals: seq<V>, key: T -> K, i: nat)
    requires |x| <= |vals|
    requires forall a, b :: 0 <= a < b < |x| ==> key(x[a]) != key(x[b])
    requires i < |x|
    ensures Lf(TableOf(x, vals, key), key, x[i]) == Ok(vals[i])
  {
    LookupLastWins(x, vals, key, i);
  }

  /** `lf(xi)` succeeds exactly when the key of `xi` is the key of some element
      of `x`, and raises `KeyError` otherwise. */
  lemma LookupSucceedsIff<T, K, V>(x: seq<T>, vals: seq<V>, key: T -> K, xi: T)
    requires |x| <= |vals|
    ensures Lf(TableOf(x, vals, key), key, xi).Ok? <==> exists i :: 0 <= i < |x| && key(x[i]) == key(xi)
    ensures Lf(TableOf(x, vals, key), key, xi) == KeyError <==> forall i :: 0 <= i < |x| ==> key(x[i]) != key(xi)
  {
    if exists i :: 0 <= i < |x| && key(x[i]) == key(xi) {
      var i :| 0 <= i < |x| && key(x[i]) == key(xi);
      assert key(xi) in KeysOf(x, key);
    }
  }

  /** Inputs with the same string form get the same answer. */
  lemma LookupRespectsKey<T, K, V>(table: map<K, V>, key: T -> K, a: T, b: T)
    requires key(a) == key(b)
    ensures Lf(table, key, a) == Lf(table, key, b)
  {
  }

  /** A table built from `[1, 2, 1]` and `["a", "b", "c"]` with the identity
      as key: the repeated input keeps the later value, and an input that is
      not in `x` raises `KeyError`. */
  lemma DuplicateKeyExample()
    ensures var table := TableOf([1, 2, 1], ["a", "b", "c"], (n: int) => n);
      && Lf(table, (n: int) => n, 1) == Ok("c")
      && Lf(table, (n: int) => n, 2) == Ok("b")
      && Lf(table, (n: int) => n, 3) == KeyError
  {
    var x, vals, key := [1, 2, 1], ["a", "b", "c"], (n: int) => n;
    LookupLastWins(x, vals, key, 0);
    LookupLastWins(x, vals, key, 1);
    LookupSucceedsIff(x, vals, key, 3);
  }

  /** Entries of `vals` beyond `|x|` play no part in the dictionary. */
  lemma TableIgnoresExtraVals<T, K, V>(x: seq<T>, vals: seq<V>, key: T -> K)
    requires |x| <= |vals|
    ensures TableOf(x, vals, key) == TableOf(x, vals[..|x|], key)
  {
  }
}
