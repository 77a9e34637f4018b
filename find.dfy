/** Searching a sequence for the first element with a given key, as `Array.prototype.findIndex`
    does when its callback compares one field for strict equality. */
module Find {

  /** The key of every element, in order: the field a `findIndex` callback compares. */
  function Keys<T, K>(s: seq<T>, key: T -> K): (keys: seq<K>)
    ensures |keys| == |s|
    ensures forall i :: 0 <= i < |s| ==> keys[i] == key(s[i])
  {
    seq(|s|, i requires 0 <= i < |s| => key(s[i]))
  }

  /** The index of the first occurrence of `k` in `keys`, or -1 when there is none. */
  function IndexOf<K(==)>(keys: seq<K>, k: K): (r: int)
    ensures -1 <= r < |keys|
    ensures r == -1 <==> k !in keys
    ensures 0 <= r ==> keys[r] == k && forall j :: 0 <= j < r ==> keys[j] != k
  {
    if keys == [] then -1
    else if keys[0] == k then 0
    else
      var j := IndexOf(keys[1..], k);
      if j == -1 then -1 else j + 1
  }

  /** The linear scan that computes `IndexOf`. */
  method FindIndex<K(==)>(keys: seq<K>, k: K) returns (r: int)
    ensures r == IndexOf(keys, k)
  {
    r := 0;
    while r < |keys|
      invariant 0 <= r <= |keys|
      invariant forall j :: 0 <= j < r ==> keys[j] != k
    {
      if keys[r] == k {
        return;
      }
      r := r + 1;
    }
    r := -1;
  }

  /** No key occurs twice. */
  predicate Distinct<K(==)>(keys: seq<K>) {
    forall i, j :: 0 <= i < j < |keys| ==> keys[i] != keys[j]
  }
}
