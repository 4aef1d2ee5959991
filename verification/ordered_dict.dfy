/**
 * A Python `dict` from strings to strings: keys are unique and iteration
 * follows insertion order; assigning to a present key keeps its position.
 */
module OrderedDict {
  import opened Wrappers

  datatype Entry = Entry(key: string, value: string)

  type Dict = seq<Entry>

  ghost predicate UniqueKeys(d: Dict) {
    forall i, j :: 0 <= i < j < |d| ==> d[i].key != d[j].key
  }

  function Keys(d: Dict): set<string> {
    if d == [] then {} else {d[0].key} + Keys(d[1..])
  }

  /** The key at every position is a key of the dict. */
  lemma {:induction false} KeysIndex(d: Dict, i: nat)
    requires i < |d|
    ensures d[i].key in Keys(d)
  {
    if i > 0 {
      KeysIndex(d[1..], i - 1);
    }
  }

  /** Every key of the dict sits at some position. */
  lemma {:induction false} KeysWitness(d: Dict, k: string)
    requires k in Keys(d)
    ensures exists i :: 0 <= i < |d| && d[i].key == k
  {
    if d[0].key != k {
      KeysWitness(d[1..], k);
      var i :| 0 <= i < |d| - 1 && d[1..][i].key == k;
      assert d[i + 1].key == k;
    }
  }

  /** With unique keys, the first key does not occur again. */
  lemma HeadKeyFresh(d: Dict)
    requires d != [] && UniqueKeys(d)
    ensures d[0].key !in Keys(d[1..])
  {
    if d[0].key in Keys(d[1..]) {
      KeysWitness(d[1..], d[0].key);
      assert false;
    }
  }

  /** `d.get(k)` */
  function Get(d: Dict, k: string): (r: Option<string>)
    ensures r.None? <==> k !in Keys(d)
    ensures r.Some? ==> exists i :: 0 <= i < |d| && d[i] == Entry(k, r.value)
  {
    if d == [] then None
    else if d[0].key == k then Some(d[0].value)
    else Get(d[1..], k)
  }

  /** `d[k] = v` */
  function Set(d: Dict, k: string, v: string): (r: Dict)
    ensures Keys(r) == Keys(d) + {k}
    ensures k in Keys(d) ==> |r| == |d|
    ensures k !in Keys(d) ==> r == d + [Entry(k, v)]
    decreases |d|
  {
    if d == [] then [Entry(k, v)]
    else if d[0].key == k then [Entry(k, v)] + d[1..]
    else [d[0]] + Set(d[1..], k, v)
  }

  /** After `d[k] = v`, reading `k` gives `v` and every other key reads as before. */
  lemma {:induction false} GetSet(d: Dict, k: string, v: string, k': string)
    ensures Get(Set(d, k, v), k') == if k' == k then Some(v) else Get(d, k')
    decreases |d|
  {
    if d != [] && d[0].key != k {
      GetSet(d[1..], k, v, k');
    }
  }

  /** Assignment keeps the keys unique. */
  lemma {:induction false} SetKeepsUnique(d: Dict, k: string, v: string)
    requires UniqueKeys(d)
    ensures UniqueKeys(Set(d, k, v))
    decreases |d|
  {
    if d != [] && d[0].key == k {
      var r := Set(d, k, v);
      assert forall j :: 0 < j < |r| ==> r[j] == d[j];
    } else if d != [] {
      var rest := Set(d[1..], k, v);
      assert UniqueKeys(d[1..]) by {
        forall i, j | 0 <= i < j < |d| - 1
          ensures d[1..][i].key != d[1..][j].key
        {
          assert d[1..][i] == d[i + 1] && d[1..][j] == d[j + 1];
        }
      }
      SetKeepsUnique(d[1..], k, v);
      HeadKeyFresh(d);
      forall j | 0 <= j < |rest|
        ensures rest[j].key != d[0].key
      {
        KeysIndex(rest, j);
      }
      var r := Set(d, k, v);
      assert r == [d[0]] + rest;
      forall i, j | 0 <= i < j < |r|
        ensures r[i].key != r[j].key
      {
        assert r[j] == rest[j - 1];
        if i > 0 {
          assert r[i] == rest[i - 1];
        }
      }
    }
  }
}
