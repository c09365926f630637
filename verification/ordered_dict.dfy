/**
 * Python's `dict` with string keys, as the poll command uses it: a sequence of entries kept in
 * insertion order, where assigning to a present key replaces its value in
 * place and assigning to a new key appends an entry.
 */
module OrderedDict {
  import opened Wrappers

  type Dict<V> = seq<(string, V)>

  /** `d.keys()`, in insertion order. */
  function Keys<V>(d: Dict<V>): (ks: seq<string>)
    ensures |ks| == |d|
    ensures forall i :: 0 <= i < |d| ==> ks[i] == d[i].0
  {
    seq(|d|, i requires 0 <= i < |d| => d[i].0)
  }

  predicate Distinct<T(==)>(xs: seq<T>) {
    forall i, j :: 0 <= i < j < |xs| ==> xs[i] != xs[j]
  }

  /** Position of the first occurrence of `k` in `ks`, or `|ks|` when absent. */
  function FirstIndex(ks: seq<string>, k: string): (i: nat)
    ensures i <= |ks|
    ensures forall j :: 0 <= j < i ==> ks[j] != k
    ensures i < |ks| ==> ks[i] == k
  {
    if ks == [] || ks[0] == k then 0 else 1 + FirstIndex(ks[1..], k)
  }

  lemma {:induction false} FirstIndexAppend(ks: seq<string>, k: string, k': string)
    requires k' != k
    ensures FirstIndex(ks + [k], k') == FirstIndex(ks, k') || (FirstIndex(ks, k') == |ks| && FirstIndex(ks + [k], k') == |ks| + 1)
  {
    var i := FirstIndex(ks, k');
    var j := FirstIndex(ks + [k], k');
    assert forall m :: 0 <= m < |ks| ==> (ks + [k])[m] == ks[m];
    if i < |ks| {
      assert j <= i;
      assert j >= i;
    } else {
      assert (ks + [k])[|ks|] == k;
    }
  }

  /** `d.get(k)`: the value stored under `k`, if any. */
  function Get<V>(d: Dict<V>, k: string): (r: Option<V>)
    ensures r.Some? <==> k in Keys(d)
  {
    var i := FirstIndex(Keys(d), k);
    if i < |d| then Some(d[i].1) else None
  }

  /** In a dictionary without repeated keys, `Get` finds the entry at any index. */
  lemma GetAt<V>(d: Dict<V>, i: nat)
    requires Distinct(Keys(d))
    requires i < |d|
    ensures Get(d, d[i].0) == Some(d[i].1)
  {
    var j := FirstIndex(Keys(d), d[i].0);
    assert j <= i;
  }

  /** Python's `d[k] = v`. */
  function Put<V>(d: Dict<V>, k: string, v: V): (r: Dict<V>)
    ensures k in Keys(d) ==> Keys(r) == Keys(d)
    ensures k !in Keys(d) ==> r == d + [(k, v)]
    ensures Get(r, k) == Some(v)
    ensures forall k' :: k' != k ==> Get(r, k') == Get(d, k')
  {
    var i := FirstIndex(Keys(d), k);
    if i < |d| then
      var r := d[i := (k, v)];
      assert Keys(r) == Keys(d);
      r
    else
      var r := d + [(k, v)];
      assert Keys(r) == Keys(d) + [k];
      assert Keys(r)[|d|] == k;
      assert forall m :: 0 <= m < |d| ==> Keys(r)[m] == Keys(d)[m];
      assert FirstIndex(Keys(r), k) == |d|;
      forall k' | k' != k
        ensures Get(r, k') == Get(d, k')
      {
        FirstIndexAppend(Keys(d), k, k');
      }
      r
  }

  /** Assignment never introduces a repeated key. */
  lemma PutDistinct<V>(d: Dict<V>, k: string, v: V)
    requires Distinct(Keys(d))
    ensures Distinct(Keys(Put(d, k, v)))
  {
    if k !in Keys(d) {
      var ks := Keys(Put(d, k, v));
      assert ks == Keys(d) + [k];
    }
  }

  lemma KeysConcat<V>(a: Dict<V>, b: Dict<V>)
    ensures Keys(a + b) == Keys(a) + Keys(b)
  {
  }

  /** Keys of a concatenation are distinct exactly when each side's are and
      the two sides share none. */
  lemma DistinctConcat(xs: seq<string>, ys: seq<string>)
    ensures Distinct(xs + ys) <==> Distinct(xs) && Distinct(ys) && forall m :: 0 <= m < |ys| ==> ys[m] !in xs
  {
    var zs := xs + ys;
    if Distinct(zs) {
      forall i, j | 0 <= i < j < |xs|
        ensures xs[i] != xs[j]
      {
        assert zs[i] == xs[i] && zs[j] == xs[j];
      }
      forall i, j | 0 <= i < j < |ys|
        ensures ys[i] != ys[j]
      {
        assert zs[|xs| + i] == ys[i] && zs[|xs| + j] == ys[j];
      }
      forall m | 0 <= m < |ys|
        ensures ys[m] !in xs
      {
        assert zs[|xs| + m] == ys[m];
        forall i | 0 <= i < |xs|
          ensures xs[i] != ys[m]
        {
          assert zs[i] == xs[i];
        }
      }
    }
    if Distinct(xs) && Distinct(ys) && forall m :: 0 <= m < |ys| ==> ys[m] !in xs {
      forall i, j | 0 <= i < j < |zs|
        ensures zs[i] != zs[j]
      {
        if j < |xs| {
          assert zs[i] == xs[i] && zs[j] == xs[j];
        } else if i >= |xs| {
          assert zs[i] == ys[i - |xs|] && zs[j] == ys[j - |xs|];
        } else {
          assert zs[i] == xs[i] && zs[j] == ys[j - |xs|];
        }
      }
    }
  }
}
