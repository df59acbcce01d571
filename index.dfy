/**
 * Building a dictionary by assigning `index[key] = value` for each pair in turn:
 * a later pair with the same key overwrites an earlier one.
 */
module Index {

  /** The dictionary left behind by assigning the pairs of `ps` in order. */
  function LastWins<K, V>(ps: seq<(K, V)>): map<K, V>
  {
    if ps == [] then map[] else LastWins(ps[..|ps| - 1])[ps[|ps| - 1].0 := ps[|ps| - 1].1]
  }

  lemma LastWinsSnoc<K, V>(ps: seq<(K, V)>, k: K, v: V)
    ensures LastWins(ps + [(k, v)]) == LastWins(ps)[k := v]
  {
    assert (ps + [(k, v)])[..|ps|] == ps;
  }

  /** One loop step: assigning pair `i` after the pairs before it. */
  lemma LastWinsStep<K, V>(ps: seq<(K, V)>, i: nat)
    requires i < |ps|
    ensures LastWins(ps[..i + 1]) == LastWins(ps[..i])[ps[i].0 := ps[i].1]
  {
    assert ps[..i + 1][..i] == ps[..i];
  }

  /** The keys that occur in the pairs. */
  function KeysOf<K, V>(ps: seq<(K, V)>): set<K> {
    set i | 0 <= i < |ps| :: ps[i].0
  }

  lemma KeysOfSnoc<K, V>(ps: seq<(K, V)>, k: K, v: V)
    ensures KeysOf(ps + [(k, v)]) == KeysOf(ps) + {k}
  {
    var qs := ps + [(k, v)];
    forall x | x in KeysOf(qs) ensures x in KeysOf(ps) + {k} {
      var i :| 0 <= i < |qs| && qs[i].0 == x;
      if i < |ps| { assert ps[i].0 == x; }
    }
    forall x | x in KeysOf(ps) ensures x in KeysOf(qs) {
      var i :| 0 <= i < |ps| && ps[i].0 == x;
      assert qs[i].0 == x;
    }
    assert qs[|ps|].0 == k;
  }

  /** The keys of the dictionary are exactly the keys that occur in the pairs. */
  lemma {:induction false} LastWinsKeys<K, V>(ps: seq<(K, V)>)
    ensures LastWins(ps).Keys == KeysOf(ps)
  {
    if ps != [] {
      var init := ps[..|ps| - 1];
      var last := ps[|ps| - 1];
      LastWinsKeys(init);
      assert ps == init + [(last.0, last.1)];
      KeysOfSnoc(init, last.0, last.1);
    }
  }

  /** A pair that no later pair overrides is what the dictionary holds for its key. */
  lemma {:induction false} LastWinsLast<K, V>(ps: seq<(K, V)>, i: nat)
    requires i < |ps|
    requires forall j :: i < j < |ps| ==> ps[j].0 != ps[i].0
    ensures ps[i].0 in LastWins(ps) && LastWins(ps)[ps[i].0] == ps[i].1
  {
    if i < |ps| - 1 {
      var init := ps[..|ps| - 1];
      LastWinsLast(init, i);
    }
  }

  /** Every stored entry is one of the pairs. */
  lemma {:induction false} LastWinsFrom<K, V>(ps: seq<(K, V)>)
    ensures forall k :: k in LastWins(ps) ==> exists i :: 0 <= i < |ps| && ps[i] == (k, LastWins(ps)[k])
  {
    if ps != [] {
      var init := ps[..|ps| - 1];
      LastWinsFrom(init);
      forall k | k in LastWins(ps) ensures exists i :: 0 <= i < |ps| && ps[i] == (k, LastWins(ps)[k]) {
        if k != ps[|ps| - 1].0 {
          assert k in LastWins(init);
          var i :| 0 <= i < |init| && init[i] == (k, LastWins(init)[k]);
          assert ps[i] == (k, LastWins(ps)[k]);
        } else {
          assert ps[|ps| - 1] == (k, LastWins(ps)[k]);
        }
      }
    }
  }

  /** The dictionary has at most as many entries as there were assignments. */
  lemma {:induction false} LastWinsSize<K, V>(ps: seq<(K, V)>)
    ensures |LastWins(ps)| <= |ps|
  {
    if ps != [] {
      var init := ps[..|ps| - 1];
      LastWinsSize(init);
      var m := LastWins(init);
      var k := ps[|ps| - 1].0;
      assert LastWins(ps).Keys == m.Keys + {k};
    }
  }
}
