/** PHP's ordered arrays, as far as the renderer uses them: lists with
    preserved integer keys and `array_slice`. */
module PhpArray {

  /** One key => value entry of a PHP array. */
  datatype Entry<V> = Entry(key: nat, value: V)

  /** A list as a PHP array: keys 0, 1, 2, ... */
  function Keyed<V>(a: seq<V>): (r: seq<Entry<V>>)
    ensures |r| == |a|
    ensures forall i :: 0 <= i < |r| ==> r[i].key == i && r[i].value == a[i]
  {
    seq(|a|, i requires 0 <= i < |a| => Entry(i, a[i]))
  }

  /** The values of the entries, in order. */
  function Values<V>(es: seq<Entry<V>>): (r: seq<V>)
    ensures |r| == |es|
    ensures forall i :: 0 <= i < |r| ==> r[i] == es[i].value
  {
    seq(|es|, i requires 0 <= i < |es| => es[i].value)
  }

  /** Keys strictly increase along the array. */
  predicate Ascending<V>(es: seq<Entry<V>>)
  {
    forall j, k :: 0 <= j < k < |es| ==> es[j].key < es[k].key
  }

  /** `array_slice($a, $offset, $length, true)` on a list `a`: a negative
      offset counts from the end and is clamped at 0; an offset past the end
      gives nothing; a negative length stops that many elements before the
      end; a length reaching past the end stops at the end. Keys are the
      original indices. */
  function ArraySlice<V>(a: seq<V>, offset: int, length: int): (r: seq<Entry<V>>)
    ensures forall k :: 0 <= k < |r| ==> r[k].key < |a| && r[k].value == a[r[k].key]
    ensures forall k :: 0 <= k < |r| ==> r[k].key == r[0].key + k
    ensures Ascending(r)
    ensures length >= 0 ==> |r| <= length
    ensures offset > |a| ==> r == []
    ensures 0 <= offset && 0 <= length ==>
      |r| == (if offset + length <= |a| then length else if offset <= |a| then |a| - offset else 0)
    ensures 0 <= offset && |r| > 0 ==> r[0].key == offset
    ensures offset < 0 && |r| > 0 ==> r[0].key == (if |a| + offset < 0 then 0 else |a| + offset)
  {
    var n := |a|;
    if offset > n then []
    else
      var start := if offset < 0 then (if n + offset < 0 then 0 else n + offset) else offset;
      var len := if length < 0 then n - start + length else if start + length > n then n - start else length;
      if len <= 0 then []
      else seq(len, k requires 0 <= k < len => Entry(start + k, a[start + k]))
  }

  /** The size of every slice: it starts at `offset`, or `-offset` elements
      before the end for a negative offset (at the first element if that is
      before the start); it stops `length` elements later, at the end, or
      `-length` elements before the end for a negative length. */
  lemma SliceSize<V>(a: seq<V>, offset: int, length: int)
    ensures var r := ArraySlice(a, offset, length);
      var start := if offset >= 0 then offset else if |a| + offset < 0 then 0 else |a| + offset;
      var stop := if length < 0 then |a| + length else if start + length > |a| then |a| else start + length;
      && (offset <= |a| ==> |r| == if stop > start then stop - start else 0)
      && (|r| > 0 ==> r[0].key == start)
  {
  }

  /** A negative offset counts from the end: `array_slice(a, -m, length)`
      with room for them gives the last `m` elements. */
  lemma SliceFromEnd<V>(a: seq<V>, m: int, length: int)
    requires 0 < m <= |a| && m <= length
    ensures Values(ArraySlice(a, -m, length)) == a[|a| - m..]
  {
    var r := ArraySlice(a, -m, length);
    assert |r| == m;
    forall k | 0 <= k < m
      ensures Values(r)[k] == a[|a| - m..][k]
    {
      assert r[k].key == |a| - m + k;
    }
  }

  /** A negative length stops that many elements before the end. */
  lemma SliceStopsBeforeEnd<V>(a: seq<V>, offset: int, m: int)
    requires 0 <= offset && 0 < m && offset + m <= |a|
    ensures Values(ArraySlice(a, offset, -m)) == a[offset..|a| - m]
  {
    var r := ArraySlice(a, offset, -m);
    assert |r| == |a| - m - offset;
    forall k | 0 <= k < |r|
      ensures Values(r)[k] == a[offset..|a| - m][k]
    {
      assert r[k].key == offset + k;
    }
  }
}
