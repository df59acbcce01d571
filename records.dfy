/** Cell values and the insertion-ordered dictionaries the pipeline builds its records from. */
module Records {

  /** A cell or field value: Python's `None`, a missing cell as pandas reads it (NaN), or a present value. */
  datatype Value = Null | Missing | Present(text: string)

  datatype Option<T> = None | Some(value: T)

  predicate Distinct<T(==)>(s: seq<T>) {
    forall i, j :: 0 <= i < j < |s| ==> s[i] != s[j]
  }

  lemma DistinctAppend<T>(a: seq<T>, b: seq<T>)
    requires Distinct(a) && Distinct(b)
    requires forall x :: x in b ==> x !in a
    ensures Distinct(a + b)
  {
    forall i, j | 0 <= i < j < |a + b| ensures (a + b)[i] != (a + b)[j] {
      if j >= |a| && i < |a| {
        assert (a + b)[j] == b[j - |a|];
        assert (a + b)[j] in b;
      }
    }
  }

  /** Python's `s.endswith(suffix)`. */
  predicate EndsWith(s: string, suffix: string) {
    |suffix| <= |s| && s[|s| - |suffix|..] == suffix
  }

  lemma EndsWithConcat(x: string, suffix: string)
    ensures EndsWith(x + suffix, suffix)
  {
    assert (x + suffix)[|x|..] == suffix;
  }

  /** The representation of a Python dict: its keys in insertion order and its key-value mapping. */
  datatype DictRep = DictRep(keys: seq<string>, vals: map<string, Value>)

  ghost predicate IsDict(d: DictRep) {
    Distinct(d.keys) && forall k :: k in d.vals <==> k in d.keys
  }

  /** A dict: every key listed once, and the listed keys are exactly the mapped ones. */
  type Dict = d: DictRep | IsDict(d) witness DictRep([], map[])

  /** `d[k] = v`: the key now maps to `v`, every other key is untouched, a new key goes last. */
  function Put(d: Dict, k: string, v: Value): (r: Dict)
    ensures k in r.vals && r.vals[k] == v
    ensures forall c :: c != k ==> (c in r.vals <==> c in d.vals)
    ensures forall c :: c != k && c in d.vals ==> r.vals[c] == d.vals[c]
    ensures k in d.vals ==> r.keys == d.keys
    ensures k !in d.vals ==> r.keys == d.keys + [k]
  {
    if k in d.vals then DictRep(d.keys, d.vals[k := v])
    else
      assert Distinct(d.keys + [k]) by {
        assert forall i :: 0 <= i < |d.keys| ==> d.keys[i] in d.vals;
      }
      DictRep(d.keys + [k], d.vals[k := v])
  }
}
