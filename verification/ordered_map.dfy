/**
 A JavaScript plain object used as a dictionary, seen as the sequence of its
 own properties in enumeration order. Assigning to a property that exists
 replaces its value in place; assigning to a new property appends it. The
 numeric re-ordering JavaScript applies to integer-like keys is not part of
 this model: every level keeps insertion order.
 */
module OrderedMap {
  import opened Optional

  datatype Entry<K, V> = Entry(key: K, value: V)

  type OMap<K, V> = seq<Entry<K, V>>

  function Keys<K(==), V>(m: OMap<K, V>): (ks: seq<K>)
    ensures |ks| == |m|
    ensures forall i :: 0 <= i < |m| ==> ks[i] == m[i].key
  {
    seq(|m|, i requires 0 <= i < |m| => m[i].key)
  }

  /** No value occurs twice. */
  predicate Distinct<K(==)>(ks: seq<K>) {
    forall i, j :: 0 <= i < j < |ks| ==> ks[i] != ks[j]
  }

  /** Index of the first entry at or after `i` whose key is `k`, or `|m|`. */
  function FindFrom<K(==), V>(m: OMap<K, V>, k: K, i: nat): (j: nat)
    requires i <= |m|
    ensures i <= j <= |m|
    ensures j < |m| ==> m[j].key == k
    ensures forall n :: i <= n < j ==> m[n].key != k
    decreases |m| - i
  {
    if i == |m| || m[i].key == k then i else FindFrom(m, k, i + 1)
  }

  /** Index of the entry for `k`, or `|m|` when there is none. */
  function Find<K(==), V>(m: OMap<K, V>, k: K): (j: nat)
    ensures j <= |m|
    ensures j < |m| <==> k in Keys(m)
    ensures j < |m| ==> m[j].key == k
    ensures forall n :: 0 <= n < j ==> m[n].key != k
  {
    FindFrom(m, k, 0)
  }

  /** Property lookup `m[k]`; `None` stands for `undefined`. */
  function Get<K(==), V>(m: OMap<K, V>, k: K): Option<V> {
    var i := Find(m, k);
    if i < |m| then Some(m[i].value) else None
  }

  /** Property assignment `m[k] = v`. */
  function Put<K(==), V>(m: OMap<K, V>, k: K, v: V): OMap<K, V> {
    var i := Find(m, k);
    if i < |m| then m[i := Entry(k, v)] else m + [Entry(k, v)]
  }

  /** Reading a property known to exist (JavaScript would throw on
      `undefined[...]` otherwise). */
  function At<K(==), V>(m: OMap<K, V>, k: K): V
    requires k in Keys(m)
  {
    m[Find(m, k)].value
  }

  /** A lookup finds something exactly when the key is present. */
  lemma GetDefined<K, V>(m: OMap<K, V>, k: K)
    ensures Get(m, k).Some? <==> k in Keys(m)
  {
  }

  /** Assignment keeps the position of an existing key and appends a new one. */
  lemma PutKeys<K, V>(m: OMap<K, V>, k: K, v: V)
    ensures Keys(Put(m, k, v)) == if k in Keys(m) then Keys(m) else Keys(m) + [k]
  {
    var r := Put(m, k, v);
    if k in Keys(m) {
      assert Keys(r) == Keys(m);
    } else {
      assert Keys(r) == Keys(m) + [k];
    }
  }

  /** Reading back an assigned key gives the assigned value. */
  lemma GetPutSame<K, V>(m: OMap<K, V>, k: K, v: V)
    ensures Get(Put(m, k, v), k) == Some(v)
  {
    var r := Put(m, k, v);
    var i := Find(m, k);
    if i < |m| {
      assert Keys(r) == Keys(m);
      assert Find(r, k) == i;
    } else {
      assert Find(r, k) == |m| by {
        assert Keys(r) == Keys(m) + [k];
        assert r[|m|].key == k;
      }
    }
  }

  /** Assigning one key leaves every other key's value alone. */
  lemma GetPutOther<K, V>(m: OMap<K, V>, k: K, v: V, k': K)
    requires k' != k
    ensures Get(Put(m, k, v), k') == Get(m, k')
  {
    var r := Put(m, k, v);
    var i := Find(m, k);
    var j := Find(m, k');
    var j' := Find(r, k');
    assert forall n :: 0 <= n < |m| ==> r[n].key == m[n].key;
    if j < |m| {
      assert j' == j;
    }
  }

  /** An assigned key is present and reads back the assigned value. */
  lemma AtPut<K, V>(m: OMap<K, V>, k: K, v: V)
    ensures k in Keys(Put(m, k, v))
    ensures At(Put(m, k, v), k) == v
  {
    GetPutSame(m, k, v);
  }

  /** A second assignment to the same key replaces the first. */
  lemma PutPut<K, V>(m: OMap<K, V>, k: K, v: V, w: V)
    ensures Put(Put(m, k, v), k, w) == Put(m, k, w)
  {
    var r := Put(m, k, v);
    var i := Find(m, k);
    if i < |m| {
      assert Keys(r) == Keys(m);
      assert Find(r, k) == i;
    } else {
      assert Keys(r) == Keys(m) + [k];
      assert Find(r, k) == |m|;
    }
  }

  // ---------------------------------------------------------------------------
  // First occurrences

  /** The values of `ks` in order of first occurrence, each once. */
  function Dedup<K(==)>(ks: seq<K>): seq<K>
  {
    if |ks| == 0 then []
    else
      var seen := Dedup(ks[..|ks| - 1]);
      var k := ks[|ks| - 1];
      if k in seen then seen else seen + [k]
  }

  lemma {:induction false} DedupMembers<K>(ks: seq<K>)
    ensures forall k :: k in Dedup(ks) <==> k in ks
    decreases |ks|
  {
    if |ks| > 0 {
      var p := ks[..|ks| - 1];
      DedupMembers(p);
      assert ks == p + [ks[|ks| - 1]];
    }
  }

  /** Each value appears once. */
  lemma {:induction false} DedupDistinct<K>(ks: seq<K>)
    ensures Distinct(Dedup(ks))
    decreases |ks|
  {
    if |ks| > 0 {
      DedupDistinct(ks[..|ks| - 1]);
    }
  }

  /** A sequence without repeats is its own first-occurrence list. */
  lemma {:induction false} DedupOfDistinct<K>(ks: seq<K>)
    requires Distinct(ks)
    ensures Dedup(ks) == ks
    decreases |ks|
  {
    if |ks| > 0 {
      var p := ks[..|ks| - 1];
      DedupOfDistinct(p);
      DedupMembers(p);
      assert ks == p + [ks[|ks| - 1]];
    }
  }

  predicate NonDecreasing(ks: seq<int>) {
    forall i, j :: 0 <= i < j < |ks| ==> ks[i] <= ks[j]
  }

  predicate Increasing(ks: seq<int>) {
    forall i, j :: 0 <= i < j < |ks| ==> ks[i] < ks[j]
  }

  /** Keys that arrive in ascending order (`ORDER BY number`) come out
      strictly ascending. */
  lemma {:induction false} DedupSorted(ks: seq<int>)
    requires NonDecreasing(ks)
    ensures Increasing(Dedup(ks))
    ensures |ks| > 0 ==> |Dedup(ks)| > 0 && Dedup(ks)[|Dedup(ks)| - 1] == ks[|ks| - 1]
    decreases |ks|
  {
    if |ks| > 0 {
      var p := ks[..|ks| - 1];
      DedupSorted(p);
      DedupMembers(p);
    }
  }

  // ---------------------------------------------------------------------------
  // A run of assignments

  /** The object that results from assigning the entries of `es` in order,
      starting from `{}`. */
  function AssignAll<K(==), V>(es: seq<Entry<K, V>>): OMap<K, V>
  {
    if |es| == 0 then []
    else
      var e := es[|es| - 1];
      Put(AssignAll(es[..|es| - 1]), e.key, e.value)
  }

  /** One more assignment at the end. */
  lemma AssignAllSnoc<K, V>(es: seq<Entry<K, V>>, i: nat)
    requires i < |es|
    ensures AssignAll(es[..i + 1]) == Put(AssignAll(es[..i]), es[i].key, es[i].value)
  {
    assert es[..i + 1][..i] == es[..i];
  }

  /** The keys are those assigned, in order of first assignment. */
  lemma {:induction false} AssignAllKeys<K, V>(es: seq<Entry<K, V>>)
    ensures Keys(AssignAll(es)) == Dedup(Keys(es))
    decreases |es|
  {
    if |es| > 0 {
      var p := es[..|es| - 1];
      var e := es[|es| - 1];
      AssignAllKeys(p);
      PutKeys(AssignAll(p), e.key, e.value);
      assert Keys(es)[..|es| - 1] == Keys(p);
    }
  }

  /** No key appears twice. */
  lemma AssignAllDistinct<K, V>(es: seq<Entry<K, V>>)
    ensures Distinct(Keys(AssignAll(es)))
  {
    AssignAllKeys(es);
    DedupDistinct(Keys(es));
  }

  /** A key holds the value of its last assignment. */
  lemma {:induction false} AssignAllLastWins<K, V>(es: seq<Entry<K, V>>, i: nat)
    requires i < |es|
    requires forall j :: i < j < |es| ==> es[j].key != es[i].key
    ensures Get(AssignAll(es), es[i].key) == Some(es[i].value)
    decreases |es|
  {
    var p := es[..|es| - 1];
    var e := es[|es| - 1];
    if i == |es| - 1 {
      GetPutSame(AssignAll(p), e.key, e.value);
    } else {
      assert p[i] == es[i];
      AssignAllLastWins(p, i);
      GetPutOther(AssignAll(p), e.key, e.value, es[i].key);
    }
  }

  /** A key that is never assigned is absent. */
  lemma AssignAllAbsent<K, V>(es: seq<Entry<K, V>>, k: K)
    requires k !in Keys(es)
    ensures Get(AssignAll(es), k) == None
  {
    AssignAllKeys(es);
    DedupMembers(Keys(es));
    GetDefined(AssignAll(es), k);
  }

  // ---------------------------------------------------------------------------
  // Transforming every value

  /** The same keys in the same order, each value passed through `f`. */
  function MapValues<K, V, W>(m: OMap<K, V>, f: V -> W): (r: OMap<K, W>)
    ensures |r| == |m|
    ensures forall i :: 0 <= i < |m| ==> r[i] == Entry(m[i].key, f(m[i].value))
  {
    seq(|m|, i requires 0 <= i < |m| => Entry(m[i].key, f(m[i].value)))
  }

  /** Transforming values after an assignment is assigning the transformed value. */
  lemma MapValuesPut<K, V, W>(m: OMap<K, V>, k: K, v: V, f: V -> W)
    ensures MapValues(Put(m, k, v), f) == Put(MapValues(m, f), k, f(v))
  {
    var n := MapValues(m, f);
    assert Keys(n) == Keys(m);
    assert Find(n, k) == Find(m, k);
  }

  /** Assigning transformed entries gives the transformed object. */
  lemma {:induction false} AssignAllMapValues<K, V, W>(es: seq<Entry<K, V>>, f: V -> W)
    ensures AssignAll(MapValues(es, f)) == MapValues(AssignAll(es), f)
    decreases |es|
  {
    if |es| > 0 {
      var p := es[..|es| - 1];
      var e := es[|es| - 1];
      assert MapValues(es, f)[..|es| - 1] == MapValues(p, f);
      AssignAllMapValues(p, f);
      MapValuesPut(AssignAll(p), e.key, e.value, f);
    }
  }

  /** Assigning distinct keys gives back the entries unchanged. */
  lemma {:induction false} AssignAllOfDistinct<K, V>(es: seq<Entry<K, V>>)
    requires Distinct(Keys(es))
    ensures AssignAll(es) == es
    decreases |es|
  {
    if |es| > 0 {
      var p := es[..|es| - 1];
      var e := es[|es| - 1];
      assert Keys(p) == Keys(es)[..|es| - 1];
      AssignAllOfDistinct(p);
      assert e.key !in Keys(p);
      assert Find(p, e.key) == |p|;
      assert es == p + [e];
    }
  }
}
