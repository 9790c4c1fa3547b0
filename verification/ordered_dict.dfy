/**
 * A Python `dict` as an association list in insertion order: assigning to an
 * existing key replaces its value in place, a new key goes last, and `pop`
 * removes a key without disturbing the order of the others.
 */
module OrderedDict {
  import opened Optional

  /** Keys are package names. */
  type Dict<V> = seq<(string, V)>

  /** The keys in iteration order (Python's `d.keys()`). */
  function Keys<V>(d: Dict<V>): (ks: seq<string>)
    ensures |ks| == |d|
    ensures forall i :: 0 <= i < |d| ==> ks[i] == d[i].0
  {
    if |d| == 0 then [] else [d[0].0] + Keys(d[1..])
  }

  /** No key appears twice, as in every Python dict. */
  predicate UniqueKeys<V>(d: Dict<V>) {
    forall i, j :: 0 <= i < j < |d| ==> d[i].0 != d[j].0
  }

  /** Python's `d.get(k)`: the value under the first entry with key `k`. */
  function Get<V>(d: Dict<V>, k: string): (r: Option<V>)
    ensures r.None? <==> k !in Keys(d)
  {
    if |d| == 0 then None
    else if d[0].0 == k then Some(d[0].1)
    else Get(d[1..], k)
  }

  /** In a dict without repeated keys, `Get` finds the value of the one entry with that key. */
  lemma {:induction false} GetFindsEntry<V>(d: Dict<V>, i: nat)
    requires UniqueKeys(d) && i < |d|
    ensures Get(d, d[i].0) == Some(d[i].1)
    decreases i
  {
    if i > 0 {
      assert d[0].0 != d[i].0;
      assert d[1..][i - 1] == d[i];
      GetFindsEntry(d[1..], i - 1);
    }
  }

  /**
   * Python's `d[k] = v`: an existing key keeps its place and takes the new
   * value, a new key goes last.
   */
  function Put<V>(d: Dict<V>, k: string, v: V): (r: Dict<V>)
    ensures Keys(r) == if k in Keys(d) then Keys(d) else Keys(d) + [k]
  {
    if |d| == 0 then [(k, v)]
    else if d[0].0 == k then [(k, v)] + d[1..]
    else
      var r := [d[0]] + Put(d[1..], k, v);
      assert Keys(r) == [d[0].0] + Keys(Put(d[1..], k, v));
      r
  }

  /** After `d[k] = v`, looking up `k` gives `v` and every other key is as before. */
  lemma {:induction false} PutGet<V>(d: Dict<V>, k: string, v: V, k': string)
    ensures Get(Put(d, k, v), k') == if k' == k then Some(v) else Get(d, k')
    decreases |d|
  {
    if |d| > 0 && d[0].0 != k {
      PutGet(d[1..], k, v, k');
      assert Put(d, k, v)[1..] == Put(d[1..], k, v);
    }
  }

  /** Assignment never creates a repeated key. */
  lemma PutKeepsKeysUnique<V>(d: Dict<V>, k: string, v: V)
    requires UniqueKeys(d)
    ensures UniqueKeys(Put(d, k, v))
  {
    var r := Put(d, k, v);
    var ks := Keys(r);
    forall i, j | 0 <= i < j < |r|
      ensures r[i].0 != r[j].0
    {
      assert ks[i] == r[i].0 && ks[j] == r[j].0;
      if k in Keys(d) {
        assert ks == Keys(d);
        assert Keys(d)[i] == d[i].0 && Keys(d)[j] == d[j].0;
      } else if j < |d| {
        assert ks[..|d|] == Keys(d);
        assert Keys(d)[i] == d[i].0 && Keys(d)[j] == d[j].0;
      } else {
        assert ks[j] == k;
        assert ks[i] == Keys(d)[i];
      }
    }
  }

  /** The keys `ks` with every `k` taken out, the others in their order. */
  function Without(ks: seq<string>, k: string): (r: seq<string>)
    ensures forall x :: x in r <==> x in ks && x != k
  {
    if |ks| == 0 then []
    else (if ks[0] == k then [] else [ks[0]]) + Without(ks[1..], k)
  }

  lemma {:induction false} WithoutAbsent(ks: seq<string>, k: string)
    requires k !in ks
    ensures Without(ks, k) == ks
    decreases |ks|
  {
    if |ks| > 0 {
      assert k !in ks[1..];
      WithoutAbsent(ks[1..], k);
    }
  }

  /**
   * Python's `d.pop(k)`: the value stored under `k` and the dict without that
   * entry; for a missing key, where Python raises `KeyError`, no value and the
   * dict unchanged.
   */
  function Pop<V>(d: Dict<V>, k: string): (r: (Option<V>, Dict<V>))
    ensures r.0 == Get(d, k)
    ensures k !in Keys(d) ==> r.1 == d
  {
    if |d| == 0 then (None, d)
    else if d[0].0 == k then (Some(d[0].1), d[1..])
    else
      var (v, rest) := Pop(d[1..], k);
      (v, [d[0]] + rest)
  }

  /** Popping leaves the other keys in their order, and with unique keys takes `k` out entirely. */
  lemma {:induction false} PopKeys<V>(d: Dict<V>, k: string)
    requires UniqueKeys(d)
    ensures Keys(Pop(d, k).1) == Without(Keys(d), k)
    decreases |d|
  {
    if |d| > 0 {
      assert Keys(d) == [d[0].0] + Keys(d[1..]);
      if d[0].0 == k {
        assert k !in Keys(d[1..]);
        WithoutAbsent(Keys(d[1..]), k);
      } else {
        PopKeys(d[1..], k);
        assert Keys(Pop(d, k).1) == [d[0].0] + Keys(Pop(d[1..], k).1);
      }
    }
  }

  /** Popping never creates a repeated key. */
  lemma PopKeepsKeysUnique<V>(d: Dict<V>, k: string)
    requires UniqueKeys(d)
    ensures UniqueKeys(Pop(d, k).1)
  {
    var rest := Pop(d, k).1;
    PopKeys(d, k);
    var ks := Keys(rest);
    forall i, j | 0 <= i < j < |rest|
      ensures rest[i].0 != rest[j].0
    {
      WithoutKeepsDistinct(Keys(d), k, i, j);
    }
  }

  /** Taking a key out of a repetition-free key list keeps it repetition-free. */
  lemma {:induction false} WithoutKeepsDistinct(ks: seq<string>, k: string, i: nat, j: nat)
    requires forall a, b :: 0 <= a < b < |ks| ==> ks[a] != ks[b]
    requires i < j < |Without(ks, k)|
    ensures Without(ks, k)[i] != Without(ks, k)[j]
    decreases |ks|
  {
    var w := Without(ks, k);
    var tail := Without(ks[1..], k);
    if ks[0] == k {
      assert w == tail;
      WithoutKeepsDistinct(ks[1..], k, i, j);
    } else {
      assert w == [ks[0]] + tail;
      if i == 0 {
        assert w[j] == tail[j - 1];
        assert tail[j - 1] in ks[1..];
      } else {
        WithoutKeepsDistinct(ks[1..], k, i - 1, j - 1);
      }
    }
  }

  /** After popping `k` from a dict with unique keys, `k` is gone and every other key keeps its value. */
  lemma {:induction false} PopGet<V>(d: Dict<V>, k: string, k': string)
    requires UniqueKeys(d)
    ensures Get(Pop(d, k).1, k') == if k' == k then None else Get(d, k')
    decreases |d|
  {
    if |d| > 0 {
      if d[0].0 == k {
        assert Keys(d) == [k] + Keys(d[1..]);
        if k' == k {
          assert k !in Keys(d[1..]);
        }
      } else {
        PopGet(d[1..], k, k');
        assert Pop(d, k).1[1..] == Pop(d[1..], k).1;
      }
    }
  }
}
