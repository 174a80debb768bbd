/**
 * A Python `dict` from strings to strings, which remembers insertion order:
 * the sequence of its keys in the order they were first inserted, and a map
 * from each key to its current value.
 */
module OrderedDict {
  import opened Seqs

  datatype Dict = Dict(keys: seq<string>, vals: map<string, string>)

  type Entry = (string, string)

  /** Every dictionary Python can build: the order lists each key of the map once. */
  ghost predicate Valid(d: Dict) {
    && Distinct(d.keys)
    && (forall k :: k in d.vals <==> k in d.keys)
  }

  const Empty: Dict := Dict([], map[])

  /**
   * `d[k] = v`: the key now holds `v`, no other entry changes, a key already
   * present keeps its position and a new key goes last.
   */
  function Put(d: Dict, k: string, v: string): (r: Dict)
    requires Valid(d)
    ensures Valid(r)
    ensures k in r.vals && r.vals[k] == v
    ensures forall k' :: k' != k ==> (k' in r.vals <==> k' in d.vals)
    ensures forall k' :: k' != k && k' in d.vals ==> r.vals[k'] == d.vals[k']
    ensures |r.keys| >= |d.keys| && r.keys[..|d.keys|] == d.keys
    ensures |r.keys| == if k in d.vals then |d.keys| else |d.keys| + 1
  {
    if k in d.vals then Dict(d.keys, d.vals[k := v])
    else
      assert (d.keys + [k])[..|d.keys|] == d.keys;
      Dict(d.keys + [k], d.vals[k := v])
  }

  /** Two maps with the same keys and the same value under each key are equal. */
  lemma SameMap(m1: map<string, string>, m2: map<string, string>)
    requires forall k :: k in m1 <==> k in m2
    requires forall k :: k in m1 ==> m1[k] == m2[k]
    ensures m1 == m2
  {
  }

  /** A dictionary with one key is determined by that key's value. */
  lemma DictOfOne(d: Dict, k: string, v: string)
    requires Valid(d) && d.keys == [k] && d.vals[k] == v
    ensures d == Dict([k], map[k := v])
  {
    assert d.vals == map[k := v];
  }

  /** A dictionary with two keys is determined by their order and their values. */
  lemma DictOfTwo(d: Dict, k1: string, k2: string, v1: string, v2: string)
    requires Valid(d) && d.keys == [k1, k2] && d.vals[k1] == v1 && d.vals[k2] == v2
    ensures d == Dict([k1, k2], map[k1 := v1, k2 := v2])
  {
    assert d.vals == map[k1 := v1, k2 := v2];
  }

  /** The dictionary built by assigning the entries one after another, starting from `{}`. */
  function PutAll(es: seq<Entry>): (r: Dict)
    ensures Valid(r)
  {
    if |es| == 0 then Empty
    else
      var e := es[|es| - 1];
      Put(PutAll(es[..|es| - 1]), e.0, e.1)
  }

  lemma PutAllAppend(es: seq<Entry>, e: Entry)
    ensures PutAll(es + [e]) == Put(PutAll(es), e.0, e.1)
  {
    assert (es + [e])[..|es|] == es;
  }

  /** The keys of a sequence of entries, repetitions included. */
  function KeysOf(es: seq<Entry>): (ks: seq<string>)
    ensures |ks| == |es| && forall i :: 0 <= i < |es| ==> ks[i] == es[i].0
  {
    seq(|es|, i requires 0 <= i < |es| => es[i].0)
  }

  lemma KeysOfPrefix(es: seq<Entry>)
    requires |es| > 0
    ensures KeysOf(es) == KeysOf(es[..|es| - 1]) + [es[|es| - 1].0]
  {
  }

  /** A key is present exactly when some entry assigns it. */
  lemma {:induction false} PutAllDomain(es: seq<Entry>, k: string)
    ensures k in PutAll(es).vals <==> k in KeysOf(es)
  {
    if |es| > 0 {
      KeysOfPrefix(es);
      PutAllDomain(es[..|es| - 1], k);
    }
  }

  /** No more keys than entries. */
  lemma {:induction false} PutAllSize(es: seq<Entry>)
    ensures |PutAll(es).keys| <= |es|
  {
    if |es| > 0 {
      PutAllSize(es[..|es| - 1]);
    }
  }

  /** Every stored pair is one of the entries. */
  lemma {:induction false} PutAllFrom(es: seq<Entry>, k: string)
    requires k in PutAll(es).vals
    ensures (k, PutAll(es).vals[k]) in es
  {
    var e := es[|es| - 1];
    var pre := es[..|es| - 1];
    if k != e.0 {
      PutAllFrom(pre, k);
      assert (k, PutAll(es).vals[k]) in pre;
      assert forall x :: x in pre ==> x in es;
    }
  }

  /** The last entry for a key decides its value: later assignments overwrite earlier ones. */
  lemma {:induction false} PutAllLastWins(es: seq<Entry>, i: nat)
    requires i < |es|
    requires forall j :: i < j < |es| ==> es[j].0 != es[i].0
    ensures es[i].0 in PutAll(es).vals && PutAll(es).vals[es[i].0] == es[i].1
  {
    if i < |es| - 1 {
      PutAllLastWins(es[..|es| - 1], i);
    }
  }

  /** Entries with distinct keys are stored in their own order. */
  lemma {:induction false} PutAllDistinct(es: seq<Entry>)
    requires Distinct(KeysOf(es))
    ensures PutAll(es).keys == KeysOf(es)
  {
    if |es| > 0 {
      var pre := es[..|es| - 1];
      var ks := KeysOf(es);
      KeysOfPrefix(es);
      assert ks[..|ks| - 1] == KeysOf(pre);
      PutAllDistinct(pre);
      assert ks[|es| - 1] !in KeysOf(pre);
      PutAllDomain(pre, es[|es| - 1].0);
    }
  }

  /** The keys appear in the order of their first assignment. */
  lemma {:induction false} PutAllFirstOrder(es: seq<Entry>, a: nat, b: nat)
    requires a < b < |PutAll(es).keys|
    ensures PutAll(es).keys[a] in KeysOf(es) && PutAll(es).keys[b] in KeysOf(es)
    ensures IndexOf(KeysOf(es), PutAll(es).keys[a]) < IndexOf(KeysOf(es), PutAll(es).keys[b])
  {
    var r := PutAll(es);
    var pre := es[..|es| - 1];
    var e := es[|es| - 1];
    var d := PutAll(pre);
    KeysOfPrefix(es);
    PutAllDomain(es, r.keys[a]);
    PutAllDomain(es, r.keys[b]);
    if b < |d.keys| {
      assert r.keys[a] == d.keys[a] && r.keys[b] == d.keys[b];
      PutAllFirstOrder(pre, a, b);
      IndexOfAppend(KeysOf(pre), e.0, d.keys[a]);
      IndexOfAppend(KeysOf(pre), e.0, d.keys[b]);
    } else {
      // `r.keys[b]` is the key first assigned by the last entry
      assert e.0 !in d.vals && r.keys[b] == e.0;
      PutAllDomain(pre, e.0);
      IndexOfAppendNew(KeysOf(pre), e.0);
      assert r.keys[a] == d.keys[a];
      PutAllDomain(pre, d.keys[a]);
      IndexOfAppend(KeysOf(pre), e.0, d.keys[a]);
    }
  }
}
