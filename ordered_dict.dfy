/** Python's insertion-ordered `dict` with string keys, as a sequence of
    (key, value) entries, together with the errors the program can raise. */
module OrderedDict {

  /** The exceptions the modelled functions can raise. */
  datatype PyError =
    | ZeroDivisionError      // `x / 0` on a number
    | KeyError(key: string)  // `d[k]` with `k` not a key of `d`
    | EmptyMaxError          // `max` of an empty iterable (a ValueError)

  datatype Result<T> = Ok(value: T) | Err(error: PyError)

  /** A dict: the entries in insertion order. */
  type Dict<V> = seq<(string, V)>

  /** A well-formed dict has no key twice. */
  predicate DistinctKeys<V>(d: Dict<V>)
  {
    forall i, j :: 0 <= i < j < |d| ==> d[i].0 != d[j].0
  }

  /** `list(d)`: the keys in insertion order. */
  function Keys<V>(d: Dict<V>): (ks: seq<string>)
    ensures |ks| == |d|
  {
    seq(|d|, i requires 0 <= i < |d| => d[i].0)
  }

  /** `list(d.values())`. */
  function Values<V>(d: Dict<V>): (vs: seq<V>)
    ensures |vs| == |d|
  {
    seq(|d|, i requires 0 <= i < |d| => d[i].1)
  }

  /** The position of key `k` in `d`. */
  function Find<V>(d: Dict<V>, k: string): (i: nat)
    requires k in Keys(d)
    ensures i < |d| && d[i].0 == k
    ensures forall j :: 0 <= j < i ==> d[j].0 != k
  {
    if d[0].0 == k then 0
    else
      assert k in Keys(d[1..]) by {
        var j :| 0 <= j < |d| && Keys(d)[j] == k;
        assert Keys(d[1..])[j - 1] == k;
      }
      1 + Find(d[1..], k)
  }

  /** `d[k]`. */
  function Get<V>(d: Dict<V>, k: string): V
    requires k in Keys(d)
  {
    d[Find(d, k)].1
  }

  /** `d[k] = v`: an existing key keeps its position, a new key goes last. */
  function Put<V>(d: Dict<V>, k: string, v: V): (r: Dict<V>)
    requires DistinctKeys(d)
    ensures DistinctKeys(r)
    ensures Keys(r) == if k in Keys(d) then Keys(d) else Keys(d) + [k]
    ensures Get(r, k) == v
    ensures forall k' :: k' in Keys(d) && k' != k ==> Get(r, k') == Get(d, k')
  {
    if k in Keys(d) then
      var i := Find(d, k);
      var r := d[i := (k, v)];
      assert Keys(r) == Keys(d);
      assert forall k' :: k' in Keys(d) && k' != k ==> Find(r, k') == Find(d, k') by {
        forall k' | k' in Keys(d) && k' != k
          ensures Find(r, k') == Find(d, k')
        {
          KeyAt(r, Find(d, k'), k');
        }
      }
      KeyAt(r, i, k);
      r
    else
      var r := d + [(k, v)];
      assert DistinctKeys(r) by {
        forall i, j | 0 <= i < j < |r| ensures r[i].0 != r[j].0 {
          if j == |d| { assert Keys(d)[i] == r[i].0; }
        }
      }
      assert Keys(r) == Keys(d) + [k];
      assert forall k' :: k' in Keys(d) ==> Find(r, k') == Find(d, k') by {
        forall k' | k' in Keys(d)
          ensures Find(r, k') == Find(d, k')
        {
          KeyAt(r, Find(d, k'), k');
        }
      }
      KeyAt(r, |d|, k);
      r
  }

  /** Assigning to a new key appends an entry. */
  lemma PutNew<V>(d: Dict<V>, k: string, v: V)
    requires DistinctKeys(d) && k !in Keys(d)
    ensures Put(d, k, v) == d + [(k, v)]
  {
  }

  /** Two dicts with the same keys in the same order are both well formed or neither. */
  lemma SameKeysDistinct<V, W>(a: Dict<V>, b: Dict<W>)
    requires Keys(a) == Keys(b) && DistinctKeys(b)
    ensures DistinctKeys(a)
  {
    forall i, j | 0 <= i < j < |a| ensures a[i].0 != a[j].0 {
      assert Keys(a)[i] == Keys(b)[i] && Keys(a)[j] == Keys(b)[j];
    }
  }

  /** Two dicts with the same keys hold a key at the same position. */
  lemma FindByKeys<V, W>(a: Dict<V>, b: Dict<W>, k: string)
    requires Keys(a) == Keys(b) && k in Keys(a)
    ensures Find(a, k) == Find(b, k)
  {
    var i, j := Find(a, k), Find(b, k);
    assert Keys(a)[i] == k && Keys(b)[j] == k;
    assert Keys(a)[j] == k && Keys(b)[i] == k;
  }

  /** In a well-formed dict an entry's position is the position of its key. */
  lemma KeyAt<V>(d: Dict<V>, i: nat, k: string)
    requires DistinctKeys(d)
    requires i < |d| && d[i].0 == k
    ensures k in Keys(d) && Find(d, k) == i && Get(d, k) == d[i].1
  {
    assert Keys(d)[i] == k;
  }

  /** The distinct elements of `s`, each where it first occurs. */
  function FirstSeen(s: seq<string>): (r: seq<string>)
    ensures forall x :: x in r <==> x in s
    ensures forall i, j :: 0 <= i < j < |r| ==> r[i] != r[j]
  {
    if s == [] then []
    else
      var p := FirstSeen(s[..|s| - 1]);
      var x := s[|s| - 1];
      assert forall y :: y in s <==> y in s[..|s| - 1] || y == x by {
        assert s == s[..|s| - 1] + [x];
      }
      if x in p then p else p + [x]
  }

  /** `a` is `b` with some elements left out, the rest kept in order. */
  predicate Subsequence<T(==)>(a: seq<T>, b: seq<T>)
    decreases |b|
  {
    a == [] || (b != [] && if a[0] == b[0] then Subsequence(a[1..], b[1..]) else Subsequence(a, b[1..]))
  }
}
