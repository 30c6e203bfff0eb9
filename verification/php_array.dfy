/**
 * PHP arrays as ordered maps: a sequence of entries with unique keys.
 * Writing to an existing key keeps its position; writing to a new key
 * appends it. Also the field access the array helpers do on a record.
 */
module PhpArray {
  import opened Wrappers
  import opened PhpValue

  type PArray = seq<Entry>

  function Keys(a: PArray): (ks: seq<Key>)
    ensures |ks| == |a|
    ensures forall i {:trigger ks[i]} :: 0 <= i < |a| ==> ks[i] == a[i].key
  {
    if |a| == 0 then [] else [a[0].key] + Keys(a[1..])
  }

  function Values(a: PArray): (vs: seq<Value>)
    ensures |vs| == |a|
    ensures forall i {:trigger vs[i]} :: 0 <= i < |a| ==> vs[i] == a[i].val
  {
    if |a| == 0 then [] else [a[0].val] + Values(a[1..])
  }

  /** Every PHP array satisfies this. */
  predicate UniqueKeys(a: PArray) {
    forall i, j :: 0 <= i < j < |a| ==> a[i].key != a[j].key
  }

  /** The entry stored under `k`, if any (`array_key_exists` plus read). */
  function Get(a: PArray, k: Key): Option<Value>
  {
    if |a| == 0 then None
    else if a[0].key == k then Some(a[0].val)
    else Get(a[1..], k)
  }

  /** A read finds a value exactly when the key is present. */
  lemma {:induction false} GetKeys(a: PArray, k: Key)
    ensures Get(a, k).Some? <==> k in Keys(a)
  {
    if |a| > 0 {
      GetKeys(a[1..], k);
      assert Keys(a) == [a[0].key] + Keys(a[1..]);
    }
  }

  /** `isset($a[$k])`: the key is present and its value is not null. */
  predicate IsSet(a: PArray, k: Key) {
    Get(a, k).Some? && Get(a, k).value != Null
  }

  /** `$a[$k] = $v`. */
  function Put(a: PArray, k: Key, v: Value): (r: PArray)
    ensures Get(r, k) == Some(v)
    ensures forall k' :: k' != k ==> Get(r, k') == Get(a, k')
  {
    if |a| == 0 then [Entry(k, v)]
    else if a[0].key == k then [Entry(k, v)] + a[1..]
    else [a[0]] + Put(a[1..], k, v)
  }

  /** A write keeps the key order: an existing key stays in place, a new key goes last. */
  lemma {:induction false} PutKeys(a: PArray, k: Key, v: Value)
    ensures Keys(Put(a, k, v)) == if k in Keys(a) then Keys(a) else Keys(a) + [k]
  {
    if |a| > 0 && a[0].key != k {
      PutKeys(a[1..], k, v);
      assert Keys(a) == [a[0].key] + Keys(a[1..]);
      assert Keys(Put(a, k, v)) == [a[0].key] + Keys(Put(a[1..], k, v));
    }
  }

  /** In an array with unique keys, each entry is what a read of its key returns. */
  lemma {:induction false} GetEntry(a: PArray, i: int)
    requires UniqueKeys(a) && 0 <= i < |a|
    ensures Get(a, a[i].key) == Some(a[i].val)
  {
    if i > 0 {
      assert a[0].key != a[i].key;
      assert a[1..][i - 1] == a[i];
      GetEntry(a[1..], i - 1);
    }
  }

  /** A write keeps the keys unique. */
  lemma PutUnique(a: PArray, k: Key, v: Value)
    requires UniqueKeys(a)
    ensures UniqueKeys(Put(a, k, v))
  {
    var r := Put(a, k, v);
    PutKeys(a, k, v);
    assert forall i :: 0 <= i < |r| ==> r[i].key == Keys(r)[i];
    if k !in Keys(a) {
      forall i | 0 <= i < |a|
        ensures a[i].key != k
      {
        assert Keys(a)[i] == a[i].key;
      }
    }
  }

  /** Writing a key the array does not hold appends one entry. */
  lemma {:induction false} PutNew(a: PArray, k: Key, v: Value)
    requires k !in Keys(a)
    ensures Put(a, k, v) == a + [Entry(k, v)]
  {
    if |a| > 0 {
      assert k != a[0].key;
      assert Keys(a) == [a[0].key] + Keys(a[1..]);
      PutNew(a[1..], k, v);
      assert a == [a[0]] + a[1..];
    }
  }

  /** The list `[v0, v1, ...]`: values under the keys 0, 1, ... */
  function ListOf(vs: seq<Value>): (r: PArray)
    ensures |r| == |vs|
    ensures forall i :: 0 <= i < |vs| ==> r[i] == Entry(IntKey(i), vs[i])
  {
    seq(|vs|, i requires 0 <= i < |vs| => Entry(IntKey(i), vs[i]))
  }

  /** `$item[$k]` on a record; a value that is not an array has no fields. */
  function Field(item: Value, k: Key): Option<Value> {
    if item.Arr? then Get(item.entries, k) else None
  }

  /** `isset($item[$k])`. */
  predicate FieldIsSet(item: Value, k: Key) {
    Field(item, k).Some? && Field(item, k).value != Null
  }

  function FieldValue(item: Value, k: Key): Value
    requires FieldIsSet(item, k)
  {
    Field(item, k).value
  }

  /** Values a field can be written into: arrays, and null or false (which become arrays). */
  predicate Writable(item: Value) {
    item.Arr? || item.Null? || item == Bool(false)
  }

  /** `$item[$k] = $v`; writing into true, an integer or a string is an error. */
  function SetField(item: Value, k: Key, v: Value): (r: Result<Value, Error>)
    ensures r.Success? <==> Writable(item)
    ensures r.Success? ==> r.value.Arr?
    ensures r.Success? ==> Field(r.value, k) == Some(v)
    ensures r.Success? ==> forall k' :: k' != k ==> Field(r.value, k') == Field(item, k')
  {
    match item
    case Arr(a) => Success(Arr(Put(a, k, v)))
    case Null => Success(Arr(Put([], k, v)))
    case Bool(b) => if b then Failure(ScalarUsedAsArray) else Success(Arr(Put([], k, v)))
    case _ => Failure(ScalarUsedAsArray)
  }
}
