/**
 A Python `dict` as the model sees it: an insertion-ordered sequence of
 entries in which no key occurs twice. Assigning to a key that is already
 present overwrites its value in place; assigning to a new key appends an
 entry at the end. A dict comprehension is a left-to-right fold of such
 assignments.
 */
module PyDict {

  datatype Entry<K, V> = Entry(key: K, value: V)

  /** No value occurs twice in `s`. */
  predicate Distinct<K(==)>(s: seq<K>) {
    forall i, j :: 0 <= i < j < |s| ==> s[i] != s[j]
  }

  /** The set of values occurring in `s`. */
  function Elements<K>(s: seq<K>): set<K> {
    set x | x in s
  }

  /** The keys of `d`, in insertion order. */
  function KeysOf<K, V>(d: seq<Entry<K, V>>): (ks: seq<K>)
    ensures |ks| == |d|
    ensures forall i :: 0 <= i < |d| ==> ks[i] == d[i].key
  {
    if d == [] then [] else [d[0].key] + KeysOf(d[1..])
  }

  /**
   A sequence has as many distinct values as it has positions exactly when
   no value repeats; otherwise it has strictly fewer.
   */
  lemma {:induction false} DistinctIffNoCollapse<K>(s: seq<K>)
    ensures |Elements(s)| <= |s|
    ensures |Elements(s)| == |s| <==> Distinct(s)
  {
    if s != [] {
      var p, x := s[..|s| - 1], s[|s| - 1];
      DistinctIffNoCollapse(p);
      assert s == p + [x];
      assert Elements(s) == Elements(p) + {x};
      if x in Elements(p) {
        var i :| 0 <= i < |p| && p[i] == x;
        assert s[i] == s[|s| - 1];
        assert Elements(s) == Elements(p);
      } else if Distinct(p) {
        forall i, j | 0 <= i < j < |s| ensures s[i] != s[j] {
          if j == |s| - 1 {
            assert s[i] in Elements(p);
          } else {
            assert s[i] == p[i] && s[j] == p[j];
          }
        }
      } else {
        var i, j :| 0 <= i < j < |p| && p[i] == p[j];
        assert s[i] == s[j];
      }
    }
  }

  /**
   `d[k] = v`: an existing key keeps its position and takes the new value,
   every other entry is untouched; a new key is appended at the end.
   */
  function Insert<K(==), V>(d: seq<Entry<K, V>>, k: K, v: V): (r: seq<Entry<K, V>>)
    requires Distinct(KeysOf(d))
    ensures Distinct(KeysOf(r))
    ensures Elements(KeysOf(r)) == Elements(KeysOf(d)) + {k}
    ensures k in KeysOf(d) ==> |r| == |d|
    ensures k in KeysOf(d) ==>
      forall i :: 0 <= i < |d| ==> r[i] == (if d[i].key == k then Entry(k, v) else d[i])
    ensures k !in KeysOf(d) ==> r == d + [Entry(k, v)]
  {
    if k in KeysOf(d) then
      var r := seq(|d|, i requires 0 <= i < |d| => if d[i].key == k then Entry(k, v) else d[i]);
      assert KeysOf(r) == KeysOf(d);
      r
    else
      var r := d + [Entry(k, v)];
      assert KeysOf(r) == KeysOf(d) + [k];
      r
  }

  /**
   `{key: v for key in keys}`: a dict with no repeated key whose key set is
   the set of `keys` and whose every value is `v`.
   */
  function FromKeys<K(==), V>(keys: seq<K>, v: V): (d: seq<Entry<K, V>>)
    ensures Distinct(KeysOf(d))
    ensures Elements(KeysOf(d)) == Elements(keys)
    ensures forall i :: 0 <= i < |d| ==> d[i].value == v
    decreases |keys|
  {
    if keys == [] then
      []
    else
      var p := keys[..|keys| - 1];
      assert keys == p + [keys[|keys| - 1]];
      assert Elements(keys) == Elements(p) + {keys[|keys| - 1]};
      Insert(FromKeys(p, v), keys[|keys| - 1], v)
  }

  /**
   The comprehension collapses repeated keys: it has one entry per distinct
   key, so it has as many entries as `keys` has positions exactly when no
   key repeats.
   */
  lemma FromKeysCount<K, V>(keys: seq<K>, v: V)
    ensures |FromKeys(keys, v)| == |Elements(keys)|
    ensures |FromKeys(keys, v)| == |keys| <==> Distinct(keys)
  {
    DistinctIffNoCollapse(KeysOf(FromKeys(keys, v)));
    DistinctIffNoCollapse(keys);
  }

  /** Appending an entry appends its key. */
  lemma KeysOfAppend<K, V>(d: seq<Entry<K, V>>, e: Entry<K, V>)
    ensures KeysOf(d + [e]) == KeysOf(d) + [e.key]
  {
  }

  /** A key that is new to the comprehension so far is appended at its end. */
  lemma FromKeysStep<K, V>(keys: seq<K>, v: V)
    requires keys != []
    requires keys[|keys| - 1] !in KeysOf(FromKeys(keys[..|keys| - 1], v))
    ensures FromKeys(keys, v) == FromKeys(keys[..|keys| - 1], v) + [Entry(keys[|keys| - 1], v)]
  {
  }

  /**
   Over keys that do not repeat, the comprehension keeps the input order:
   its i-th entry is `keys[i]` with value `v`.
   */
  lemma {:induction false} FromKeysOfDistinct<K, V>(keys: seq<K>, v: V)
    requires Distinct(keys)
    ensures KeysOf(FromKeys(keys, v)) == keys
    ensures forall i :: 0 <= i < |keys| ==> FromKeys(keys, v)[i] == Entry(keys[i], v)
    decreases |keys|
  {
    var d := FromKeys(keys, v);
    if keys != [] {
      var p, x := keys[..|keys| - 1], keys[|keys| - 1];
      assert Distinct(p) by {
        forall i, j | 0 <= i < j < |p| ensures p[i] != p[j] {
          assert keys[i] != keys[j];
        }
      }
      FromKeysOfDistinct(p, v);
      assert x !in p by {
        forall i | 0 <= i < |p| ensures p[i] != x {
          assert keys[i] != keys[|keys| - 1];
        }
      }
      FromKeysStep(keys, v);
      KeysOfAppend(FromKeys(p, v), Entry(x, v));
      assert keys == p + [x];
    }
    assert KeysOf(d) == keys;
    forall i | 0 <= i < |keys| ensures d[i] == Entry(keys[i], v) {
      assert d[i].key == KeysOf(d)[i];
    }
  }
}
