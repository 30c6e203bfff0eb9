/**
 * Class `ArrayHelper` repeats `index`, `relationSet` and `relationAppendKey`
 * of class `Arr`. Here they are written as the loops of the PHP code, and each
 * method is proved to return exactly what the `Arr` function returns.
 */
module ArrayHelper {
  import opened Wrappers
  import opened PhpValue
  import opened PhpArray
  import Arr

  /** Once the loop of `index` has thrown, later items do not matter. */
  lemma {:induction false} IndexStops(items: seq<Value>, key: Key, i: int)
    requires 0 <= i <= |items| && Arr.IndexItems(items[..i], key).Failure?
    ensures Arr.IndexItems(items, key) == Arr.IndexItems(items[..i], key)
    decreases |items|
  {
    if i < |items| {
      var p := items[..|items| - 1];
      assert p[..i] == items[..i];
      IndexStops(p, key, i);
    } else {
      assert items[..i] == items;
    }
  }

  /** Once the primary loop has thrown, later items do not matter. */
  lemma {:induction false} MapItemsStops(primary: PArray, step: Value -> Result<Value, Error>, i: int)
    requires 0 <= i <= |primary| && Arr.MapItems(primary[..i], step).Failure?
    ensures Arr.MapItems(primary, step) == Arr.MapItems(primary[..i], step)
    decreases |primary|
  {
    if i < |primary| {
      var p := primary[..|primary| - 1];
      assert p[..i] == primary[..i];
      MapItemsStops(p, step, i);
    } else {
      assert primary[..i] == primary;
    }
  }

  /** One more iteration of the primary loop. */
  lemma MapItemsNext(primary: PArray, step: Value -> Result<Value, Error>, i: int, acc: PArray)
    requires 0 <= i < |primary| && Arr.MapItems(primary[..i], step) == Success(acc)
    ensures step(primary[i].val).Success? ==>
      Arr.MapItems(primary[..i + 1], step) == Success(Put(acc, primary[i].key, step(primary[i].val).value))
    ensures step(primary[i].val).Failure? ==>
      Arr.MapItems(primary, step) == Failure(step(primary[i].val).error)
  {
    assert primary[..i + 1][..i] == primary[..i];
    assert primary[..i + 1][i] == primary[i];
    if step(primary[i].val).Failure? {
      MapItemsStops(primary, step, i + 1);
    }
  }

  /** Once the field loop has thrown, later fields do not matter. */
  lemma {:induction false} BackfillStops(item: Value, source: Option<Value>, fields: PArray, isCover: bool, j: int)
    requires 0 <= j <= |fields| && Arr.Backfill(item, source, fields[..j], isCover).Failure?
    ensures Arr.Backfill(item, source, fields, isCover) == Arr.Backfill(item, source, fields[..j], isCover)
    decreases |fields|
  {
    if j < |fields| {
      var p := fields[..|fields| - 1];
      assert p[..j] == fields[..j];
      BackfillStops(item, source, p, isCover, j);
    } else {
      assert fields[..j] == fields;
    }
  }

  /** `ArrayHelper::index`: the same table as `Arr::index`, including the TypeError. */
  method Index(a: PArray, key: Key) returns (r: Result<PArray, Error>)
    ensures r == Arr.Index(a, key)
  {
    var items := Values(a);
    var result: PArray := [];
    var i := 0;
    while i < |items|
      invariant 0 <= i <= |items|
      invariant Arr.IndexItems(items[..i], key) == Success(result)
    {
      var item := items[i];
      assert items[..i + 1][..i] == items[..i];
      if FieldIsSet(item, key) {
        var k := ArrayKey(FieldValue(item, key));
        if k.None? {
          IndexStops(items, key, i + 1);
          return Failure(IllegalOffsetType);
        }
        result := Put(result, k.value, item);
      }
      i := i + 1;
    }
    assert items[..i] == items;
    return Success(result);
  }

  /** The body of the `relationSet` loop for one primary item. */
  method RelateOne(pkItem: Value, idx: PArray, pk: Key, relation: Key) returns (w: Result<Value, Error>)
    ensures w == Arr.RelateItem(pkItem, idx, pk, relation)
  {
    if FieldIsSet(pkItem, pk) {
      var fkKey := ArrayKey(FieldValue(pkItem, pk));
      if fkKey.None? {
        return Failure(IllegalOffsetType);
      }
      if IsSet(idx, fkKey.value) {
        return SetField(pkItem, relation, Get(idx, fkKey.value).value);
      }
    }
    return SetField(pkItem, relation, Arr([]));
  }

  /** `ArrayHelper::relationSet`: the same result as `Arr::relationSet`. */
  method RelationSet(primary: PArray, foreign: PArray, pk: Key, fk: Key, relation: Key)
    returns (r: Result<PArray, Error>)
    ensures r == Arr.RelationSet(primary, foreign, pk, fk, relation)
  {
    if |primary| == 0 {
      return Success([]);
    }
    var indexed := Index(foreign, fk);
    if indexed.Failure? {
      return Failure(indexed.error);
    }
    var idx := indexed.value;
    ghost var step := item => Arr.RelateItem(item, idx, pk, relation);
    var result: PArray := [];
    var i := 0;
    while i < |primary|
      invariant 0 <= i <= |primary|
      invariant Arr.MapItems(primary[..i], step) == Success(result)
    {
      var written := RelateOne(primary[i].val, idx, pk, relation);
      MapItemsNext(primary, step, i, result);
      if written.Failure? {
        return Failure(written.error);
      }
      result := Put(result, primary[i].key, written.value);
      i := i + 1;
    }
    assert primary[..i] == primary;
    return Success(result);
  }

  /**
   * The inner `foreach ($fkKeys ...)` loop of `relationAppendKey`; `source` is
   * the matched foreign item, or None in the branch that only writes defaults.
   */
  method Fill(pkItem: Value, source: Option<Value>, fields: PArray, isCover: bool) returns (w: Result<Value, Error>)
    ensures w == Arr.Backfill(pkItem, source, fields, isCover)
  {
    var item := pkItem;
    var j := 0;
    while j < |fields|
      invariant 0 <= j <= |fields|
      invariant Arr.Backfill(pkItem, source, fields[..j], isCover) == Success(item)
    {
      var fkKey := fields[j].key;
      assert fields[..j + 1][..j] == fields[..j];
      if !FieldIsSet(item, fkKey) || isCover {
        var written;
        if source.Some? && FieldIsSet(source.value, fkKey) {
          written := SetField(item, fkKey, FieldValue(source.value, fkKey));
        } else {
          written := SetField(item, fkKey, fields[j].val);
        }
        if written.Failure? {
          BackfillStops(pkItem, source, fields, isCover, j + 1);
          return Failure(written.error);
        }
        item := written.value;
      }
      j := j + 1;
    }
    assert fields[..j] == fields;
    return Success(item);
  }

  /** The body of the `relationAppendKey` loop for one primary item. */
  method AppendOne(pkItem: Value, idx: PArray, pk: Key, fields: PArray, isCover: bool) returns (w: Result<Value, Error>)
    ensures w == Arr.AppendItem(pkItem, idx, pk, fields, isCover)
  {
    if FieldIsSet(pkItem, pk) {
      var fkKey := ArrayKey(FieldValue(pkItem, pk));
      if fkKey.None? {
        return Failure(IllegalOffsetType);
      }
      if IsSet(idx, fkKey.value) {
        w := Fill(pkItem, Some(Get(idx, fkKey.value).value), fields, isCover);
        return;
      }
    }
    w := Fill(pkItem, None, fields, isCover);
  }

  /** `ArrayHelper::relationAppendKey`: the same result as `Arr::relationAppendKey`. */
  method RelationAppendKey(primary: PArray, foreign: PArray, pk: Key, fk: Key, fields: PArray, isCover: bool)
    returns (r: Result<PArray, Error>)
    ensures r == Arr.RelationAppendKey(primary, foreign, pk, fk, fields, isCover)
  {
    if |primary| == 0 {
      return Success([]);
    }
    var indexed := Index(foreign, fk);
    if indexed.Failure? {
      return Failure(indexed.error);
    }
    var idx := indexed.value;
    ghost var step := item => Arr.AppendItem(item, idx, pk, fields, isCover);
    var result: PArray := [];
    var i := 0;
    while i < |primary|
      invariant 0 <= i <= |primary|
      invariant Arr.MapItems(primary[..i], step) == Success(result)
    {
      var written := AppendOne(primary[i].val, idx, pk, fields, isCover);
      MapItemsNext(primary, step, i, result);
      if written.Failure? {
        return Failure(written.error);
      }
      result := Put(result, primary[i].key, written.value);
      i := i + 1;
    }
    assert primary[..i] == primary;
    return Success(result);
  }
}
