/**
 * A plain JavaScript object used as a dictionary: its own properties in
 * insertion order, each key once. Assigning `obj[key] = value` overwrites
 * an existing property where it stands and appends a new one at the end.
 */
module JsObject {
  import opened Wrappers

  type Props<K, V> = seq<(K, V)>

  /** The keys in order (`Object.keys`). */
  function Keys<K, V>(obj: Props<K, V>): (ks: seq<K>)
    ensures |ks| == |obj| && forall i :: 0 <= i < |obj| ==> ks[i] == obj[i].0
  {
    if obj == [] then [] else [obj[0].0] + Keys(obj[1..])
  }

  /** Every key at most once. */
  predicate DistinctKeys<K(==), V>(obj: Props<K, V>)
  {
    forall i, j :: 0 <= i < j < |obj| ==> obj[i].0 != obj[j].0
  }

  /** Reading `obj[key]`; `None` is `undefined`. */
  function Get<K(==), V>(obj: Props<K, V>, key: K): (v: Option<V>)
    ensures v.Some? <==> key in Keys(obj)
  {
    if obj == [] then None
    else if obj[0].0 == key then Some(obj[0].1)
    else Get(obj[1..], key)
  }

  /** The assignment `obj[key] = value`. */
  function Put<K(==), V>(obj: Props<K, V>, key: K, value: V): (r: Props<K, V>)
    ensures |r| == if key in Keys(obj) then |obj| else |obj| + 1
  {
    if obj == [] then [(key, value)]
    else if obj[0].0 == key then [(key, value)] + obj[1..]
    else [obj[0]] + Put(obj[1..], key, value)
  }

  /** After the assignment `key` reads the new value, and every other key reads what it did. */
  lemma {:induction false} PutGet<K, V>(obj: Props<K, V>, key: K, value: V, k: K)
    ensures Get(Put(obj, key, value), k) == if k == key then Some(value) else Get(obj, k)
  {
    if obj != [] && obj[0].0 != key {
      PutGet(obj[1..], key, value, k);
      assert Put(obj, key, value)[1..] == Put(obj[1..], key, value);
    }
  }

  /** The assignment keeps the key order, appending a key not yet present. */
  lemma {:induction false} PutKeys<K, V>(obj: Props<K, V>, key: K, value: V)
    ensures Keys(Put(obj, key, value)) == if key in Keys(obj) then Keys(obj) else Keys(obj) + [key]
  {
    if obj != [] && obj[0].0 != key {
      PutKeys(obj[1..], key, value);
      assert Put(obj, key, value)[1..] == Put(obj[1..], key, value);
    } else if obj != [] {
      assert Put(obj, key, value)[1..] == obj[1..];
    }
  }

  /** Assigning a key not yet present appends the pair. */
  lemma {:induction false} PutAppends<K, V>(obj: Props<K, V>, key: K, value: V)
    requires key !in Keys(obj)
    ensures Put(obj, key, value) == obj + [(key, value)]
  {
    if obj != [] {
      assert key != Keys(obj)[0];
      assert Keys(obj[1..]) == Keys(obj)[1..];
      PutAppends(obj[1..], key, value);
      assert obj == [obj[0]] + obj[1..];
    }
  }

  /** The assignment never duplicates a key. */
  lemma PutDistinct<K, V>(obj: Props<K, V>, key: K, value: V)
    requires DistinctKeys(obj)
    ensures DistinctKeys(Put(obj, key, value))
  {
    PutKeys(obj, key, value);
    var r := Put(obj, key, value);
    forall i, j | 0 <= i < j < |r| ensures r[i].0 != r[j].0 {
      assert Keys(r)[i] == r[i].0 && Keys(r)[j] == r[j].0;
      if j < |obj| {
        assert Keys(obj)[i] == obj[i].0 && Keys(obj)[j] == obj[j].0;
      }
    }
  }

  /** The object built by assigning `values[i]` under `keys[i]` for i = 0, 1, ... in order. */
  function Assign<K(==), V>(keys: seq<K>, values: seq<V>): Props<K, V>
    requires |keys| == |values|
    decreases |values|
  {
    if values == [] then []
    else
      var n := |values| - 1;
      Put(Assign(keys[..n], values[..n]), keys[n], values[n])
  }

  /** `keys` without repeats, each kept at its first occurrence. */
  function Dedup<K(==)>(keys: seq<K>): seq<K>
  {
    if keys == [] then []
    else
      var d := Dedup(keys[..|keys| - 1]);
      if keys[|keys| - 1] in d then d else d + [keys[|keys| - 1]]
  }

  /** The built object never holds a key twice. */
  lemma {:induction false} AssignDistinct<K, V>(keys: seq<K>, values: seq<V>)
    requires |keys| == |values|
    ensures DistinctKeys(Assign(keys, values))
    decreases |values|
  {
    if values != [] {
      var n := |values| - 1;
      AssignDistinct(keys[..n], values[..n]);
      PutDistinct(Assign(keys[..n], values[..n]), keys[n], values[n]);
    }
  }

  /** The built object lists the keys in order of FIRST assignment. */
  lemma {:induction false} AssignKeys<K, V>(keys: seq<K>, values: seq<V>)
    requires |keys| == |values|
    ensures Keys(Assign(keys, values)) == Dedup(keys)
    decreases |values|
  {
    if values != [] {
      var n := |values| - 1;
      AssignKeys(keys[..n], values[..n]);
      PutKeys(Assign(keys[..n], values[..n]), keys[n], values[n]);
    }
  }

  /** A key never assigned is absent. */
  lemma {:induction false} AssignAbsent<K, V>(keys: seq<K>, values: seq<V>, key: K)
    requires |keys| == |values| && key !in keys
    ensures Get(Assign(keys, values), key) == None
    decreases |values|
  {
    if values != [] {
      var n := |values| - 1;
      assert key !in keys[..n];
      AssignAbsent(keys[..n], values[..n], key);
      PutGet(Assign(keys[..n], values[..n]), keys[n], values[n], key);
    }
  }

  /** The last assignment to a key wins. */
  lemma {:induction false} AssignLast<K, V>(keys: seq<K>, values: seq<V>, i: nat)
    requires |keys| == |values| && i < |values|
    requires forall j :: i < j < |keys| ==> keys[j] != keys[i]
    ensures Get(Assign(keys, values), keys[i]) == Some(values[i])
    decreases |values|
  {
    var n := |values| - 1;
    PutGet(Assign(keys[..n], values[..n]), keys[n], values[n], keys[i]);
    if i < n {
      AssignLast(keys[..n], values[..n], i);
    }
  }

  /** With no key repeated, the object pairs each key with its value, in order. */
  lemma {:induction false} AssignDistinctKeys<K, V>(keys: seq<K>, values: seq<V>)
    requires |keys| == |values|
    requires forall i, j :: 0 <= i < j < |keys| ==> keys[i] != keys[j]
    ensures Assign(keys, values) == seq(|keys|, i requires 0 <= i < |keys| => (keys[i], values[i]))
    decreases |values|
  {
    if values != [] {
      var n := |values| - 1;
      AssignDistinctKeys(keys[..n], values[..n]);
      var prev := Assign(keys[..n], values[..n]);
      assert keys[n] !in Keys(prev) by {
        forall i | 0 <= i < n ensures Keys(prev)[i] != keys[n] {
          assert Keys(prev)[i] == prev[i].0 == keys[i];
        }
      }
      PutAppends(prev, keys[n], values[n]);
    }
  }
}
