/**
 * Python's `dict` as the CSV code uses it: string keys kept in insertion
 * order. Assigning to a key that is already present replaces its value
 * and keeps its position.
 */
module OrderedDicts {

  datatype Dict<V> = Dict(keys: seq<string>, vals: map<string, V>)

  /** No element occurs twice in `s`. */
  predicate Distinct<T(==)>(s: seq<T>)
  {
    forall i, j :: 0 <= i < j < |s| ==> s[i] != s[j]
  }

  /** The key order lists every key of the map exactly once. */
  predicate Valid<V>(d: Dict<V>)
  {
    && Distinct(d.keys)
    && (forall k :: k in d.vals ==> k in d.keys)
    && (forall k :: k in d.keys ==> k in d.vals)
  }

  /** The assignment `d[k] = v`. */
  function Insert<V>(d: Dict<V>, k: string, v: V): (r: Dict<V>)
    requires Valid(d)
    ensures Valid(r)
    ensures r.vals == d.vals[k := v]
    ensures k in d.vals ==> r.keys == d.keys
    ensures k !in d.vals ==> r.keys == d.keys + [k]
  {
    if k in d.vals then Dict(d.keys, d.vals[k := v]) else Dict(d.keys + [k], d.vals[k := v])
  }

  /** The keys of a list of pairs, in list order. */
  function KeysOf<V>(ps: seq<(string, V)>): (ks: seq<string>)
    ensures |ks| == |ps| && forall j :: 0 <= j < |ps| ==> ks[j] == ps[j].0
  {
    seq(|ps|, j requires 0 <= j < |ps| => ps[j].0)
  }

  /** A dict comprehension over `ps`, assigning the pairs left to right. */
  function FromPairs<V>(ps: seq<(string, V)>): (d: Dict<V>)
    ensures Valid(d)
  {
    if ps == [] then Dict([], map[])
    else Insert(FromPairs(ps[..|ps| - 1]), ps[|ps| - 1].0, ps[|ps| - 1].1)
  }

  /** The keys of the dict are exactly the keys that occur in `ps`. */
  lemma {:induction false} FromPairsKeys<V>(ps: seq<(string, V)>, k: string)
    ensures k in FromPairs(ps).vals <==> exists j :: 0 <= j < |ps| && ps[j].0 == k
    decreases |ps|
  {
    if ps != [] {
      var init := ps[..|ps| - 1];
      FromPairsKeys(init, k);
      assert forall j :: 0 <= j < |init| ==> init[j] == ps[j];
    }
  }

  /** A key's value is the one paired with its LAST occurrence in `ps`. */
  lemma {:induction false} FromPairsLast<V>(ps: seq<(string, V)>, j: nat)
    requires j < |ps|
    requires forall j' :: j < j' < |ps| ==> ps[j'].0 != ps[j].0
    ensures ps[j].0 in FromPairs(ps).vals && FromPairs(ps).vals[ps[j].0] == ps[j].1
    decreases |ps|
  {
    if j < |ps| - 1 {
      var init := ps[..|ps| - 1];
      assert forall j' :: j < j' < |init| ==> init[j'] == ps[j'];
      FromPairsLast(init, j);
    }
  }

  /** With distinct keys, the dict keeps every key, in list order. */
  lemma {:induction false} FromPairsDistinct<V>(ps: seq<(string, V)>)
    requires Distinct(KeysOf(ps))
    ensures FromPairs(ps).keys == KeysOf(ps)
    decreases |ps|
  {
    if ps != [] {
      var init := ps[..|ps| - 1];
      assert KeysOf(init) == KeysOf(ps)[..|ps| - 1];
      FromPairsDistinct(init);
      FromPairsKeys(init, ps[|ps| - 1].0);
    }
  }

  /** Position of the first occurrence of `k` in `ks`. */
  function FirstIndex(ks: seq<string>, k: string): (n: nat)
    requires k in ks
    ensures n < |ks| && ks[n] == k && k !in ks[..n]
  {
    if ks[0] == k then 0
    else
      var n := 1 + FirstIndex(ks[1..], k);
      assert ks[..n] == [ks[0]] + ks[1..][..n - 1];
      n
  }

  /** The first occurrence is the only position with no earlier occurrence. */
  lemma FirstIndexUnique(ks: seq<string>, k: string, n: nat)
    requires n < |ks| && ks[n] == k && k !in ks[..n]
    ensures FirstIndex(ks, k) == n
  {
  }

  /** A key occurring in a prefix has the same first position in the whole sequence. */
  lemma FirstIndexPrefix(ks: seq<string>, m: nat, k: string)
    requires m <= |ks| && k in ks[..m]
    ensures k in ks && FirstIndex(ks, k) == FirstIndex(ks[..m], k)
  {
    var n := FirstIndex(ks[..m], k);
    assert ks[..m][..n] == ks[..n];
    assert ks[n] == ks[..m][n];
    FirstIndexUnique(ks, k, n);
  }

  /** A key whose dict position is `a` occurs in `ps`. */
  lemma KeyAtOccurs<V>(ps: seq<(string, V)>, a: nat)
    requires a < |FromPairs(ps).keys|
    ensures FromPairs(ps).keys[a] in KeysOf(ps)
  {
    var x := FromPairs(ps).keys[a];
    FromPairsKeys(ps, x);
    var j :| 0 <= j < |ps| && ps[j].0 == x;
    assert KeysOf(ps)[j] == x;
  }

  /**
   * The dict lists its keys in the order of their FIRST occurrence in `ps`,
   * however often a key is assigned again later.
   */
  lemma {:induction false} FromPairsOrder<V>(ps: seq<(string, V)>, a: nat, b: nat)
    requires a < b < |FromPairs(ps).keys|
    ensures FromPairs(ps).keys[a] in KeysOf(ps) && FromPairs(ps).keys[b] in KeysOf(ps)
    ensures FirstIndex(KeysOf(ps), FromPairs(ps).keys[a]) < FirstIndex(KeysOf(ps), FromPairs(ps).keys[b])
    decreases |ps|
  {
    KeyAtOccurs(ps, a);
    KeyAtOccurs(ps, b);
    var init := ps[..|ps| - 1];
    var last := ps[|ps| - 1].0;
    var d' := FromPairs(init);
    assert FromPairs(ps) == Insert(d', last, ps[|ps| - 1].1);
    var ks := KeysOf(ps);
    assert KeysOf(init) == ks[..|ps| - 1];
    if last in d'.vals || b < |d'.keys| {
      assert b < |d'.keys|;
      OrderInPrefix(init, ps, a, b);
    } else {
      assert a < |d'.keys|;
      KeyAtOccurs(init, a);
      FirstIndexPrefix(ks, |ps| - 1, d'.keys[a]);
      LastNewKey(init, ps, last);
    }
  }

  /** The induction step of FromPairsOrder for two keys already in the dict of `init`. */
  lemma {:induction false} OrderInPrefix<V>(init: seq<(string, V)>, ps: seq<(string, V)>, a: nat, b: nat)
    requires ps != [] && init == ps[..|ps| - 1]
    requires a < b < |FromPairs(init).keys|
    requires FromPairs(ps).keys[..|FromPairs(init).keys|] == FromPairs(init).keys
    ensures FromPairs(ps).keys[a] in KeysOf(ps) && FromPairs(ps).keys[b] in KeysOf(ps)
    ensures FirstIndex(KeysOf(ps), FromPairs(ps).keys[a]) < FirstIndex(KeysOf(ps), FromPairs(ps).keys[b])
    decreases |ps|, 0
  {
    var d', d := FromPairs(init), FromPairs(ps);
    var ks := KeysOf(ps);
    assert KeysOf(init) == ks[..|ps| - 1];
    assert d.keys[a] == d'.keys[a] && d.keys[b] == d'.keys[b];
    FromPairsOrder(init, a, b);
    FirstIndexPrefix(ks, |ps| - 1, d'.keys[a]);
    FirstIndexPrefix(ks, |ps| - 1, d'.keys[b]);
  }

  /** A key new to the dict of `init` first occurs at the last position of `ps`. */
  lemma LastNewKey<V>(init: seq<(string, V)>, ps: seq<(string, V)>, last: string)
    requires ps != [] && init == ps[..|ps| - 1] && last == ps[|ps| - 1].0
    requires last !in FromPairs(init).vals
    ensures last in KeysOf(ps) && FirstIndex(KeysOf(ps), last) == |ps| - 1
  {
    var ks := KeysOf(ps);
    FromPairsKeys(init, last);
    assert ks[..|ps| - 1] == KeysOf(init);
    assert ks[|ps| - 1] == last;
    FirstIndexUnique(ks, last, |ps| - 1);
  }
}
