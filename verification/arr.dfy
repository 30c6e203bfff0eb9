/**
 * The record-collection helpers of class `Arr`: `index`, `relationSet`,
 * `relationAppendKey`, `diffBoth`, `count` and `wrap`.
 *
 * Each function that loops over an array is defined by recursion on the
 * prefix of the array, so step n of the PHP `foreach` is the last step of
 * the definition.
 */
module Arr {
  import opened Wrappers
  import opened PhpValue
  import opened PhpArray

  // ------------------------------------------------------------------
  // index
  // ------------------------------------------------------------------

  /** `index` stores the item under `k`: its field `key` is set and normalises to `k`. */
  predicate IndexedUnder(item: Value, key: Key, k: Key) {
    FieldIsSet(item, key) && ArrayKey(FieldValue(item, key)) == Some(k)
  }

  /** The item's field, if set, can be used as an array key (it is not an array). */
  predicate KeyableField(item: Value, key: Key) {
    FieldIsSet(item, key) ==> ArrayKey(FieldValue(item, key)).Some?
  }

  /** `Arr::index` over the items of an array, in iteration order. */
  function IndexItems(items: seq<Value>, key: Key): (r: Result<PArray, Error>)
    ensures r.Success? ==> UniqueKeys(r.value)
  {
    if |items| == 0 then Success([])
    else
      var acc :- IndexItems(items[..|items| - 1], key);
      var item := items[|items| - 1];
      if FieldIsSet(item, key) then
        match ArrayKey(FieldValue(item, key))
        case None => Failure(IllegalOffsetType)
        case Some(k) => PutUnique(acc, k, item); Success(Put(acc, k, item))
      else Success(acc)
  }

  function Index(a: PArray, key: Key): Result<PArray, Error> {
    IndexItems(Values(a), key)
  }

  /** The last item stored under `k`, scanning backwards: the reference for last-write-wins. */
  function LastIndexed(items: seq<Value>, key: Key, k: Key): (r: Option<Value>)
    ensures r.Some? ==> r.value.Arr? && IndexedUnder(r.value, key, k)
  {
    if |items| == 0 then None
    else if IndexedUnder(items[|items| - 1], key, k) then Some(items[|items| - 1])
    else LastIndexed(items[..|items| - 1], key, k)
  }

  /** Item `i` is stored under `k` and no later item is. */
  predicate IsLastIndexed(items: seq<Value>, key: Key, k: Key, i: int) {
    && 0 <= i < |items|
    && IndexedUnder(items[i], key, k)
    && forall j :: i < j < |items| ==> !IndexedUnder(items[j], key, k)
  }

  /** `LastIndexed` finds nothing exactly when no item is stored under `k`. */
  lemma {:induction false} LastIndexedNone(items: seq<Value>, key: Key, k: Key)
    ensures LastIndexed(items, key, k).None? <==>
      forall j :: 0 <= j < |items| ==> !IndexedUnder(items[j], key, k)
  {
    if |items| > 0 {
      var p := items[..|items| - 1];
      LastIndexedNone(p, key, k);
      assert forall j :: 0 <= j < |p| ==> p[j] == items[j];
    }
  }

  /** `LastIndexed` finds the last item stored under `k`. */
  lemma {:induction false} LastIndexedAt(items: seq<Value>, key: Key, k: Key, i: int)
    requires IsLastIndexed(items, key, k, i)
    ensures LastIndexed(items, key, k) == Some(items[i])
  {
    if i < |items| - 1 {
      var p := items[..|items| - 1];
      assert !IndexedUnder(items[|items| - 1], key, k);
      assert p[i] == items[i];
      assert forall j :: i < j < |p| ==> p[j] == items[j];
      LastIndexedAt(p, key, k, i);
    }
  }

  /** `index` fails exactly when some item's set field is an array (a TypeError in PHP 8). */
  lemma {:induction false} IndexSucceeds(items: seq<Value>, key: Key)
    ensures IndexItems(items, key).Success? <==> forall i :: 0 <= i < |items| ==> KeyableField(items[i], key)
  {
    if |items| > 0 {
      var p := items[..|items| - 1];
      IndexSucceeds(p, key);
      assert forall j :: 0 <= j < |p| ==> p[j] == items[j];
    }
  }

  /**
   * Last write wins: the index holds key `k` exactly when some item is stored
   * under `k`, and then holds the last such item. Items whose field is absent or
   * null contribute nothing.
   */
  lemma {:induction false} IndexLastWriteWins(items: seq<Value>, key: Key, k: Key)
    requires IndexItems(items, key).Success?
    ensures Get(IndexItems(items, key).value, k) == LastIndexed(items, key, k)
  {
    if |items| > 0 {
      var p := items[..|items| - 1];
      IndexLastWriteWins(p, key, k);
    }
  }

  // ------------------------------------------------------------------
  // relationSet
  // ------------------------------------------------------------------

  /**
   * The foreign item joined to `item`: the last foreign item whose field `fk`
   * normalises to the same key as `item[pk]`; none when `item[pk]` is not set.
   */
  function ForeignMatch(foreign: seq<Value>, fk: Key, item: Value, pk: Key): Option<Value> {
    if FieldIsSet(item, pk) && ArrayKey(FieldValue(item, pk)).Some? then
      LastIndexed(foreign, fk, ArrayKey(FieldValue(item, pk)).value)
    else None
  }

  /** What `relationSet` stores under the relation name: the match, or `[]`. */
  function Relation(m: Option<Value>): Value {
    if m.Some? then m.value else Arr([])
  }

  /** One iteration of the `relationSet` loop, given the index of the foreign array. */
  function RelateItem(item: Value, idx: PArray, pk: Key, relation: Key): Result<Value, Error> {
    if FieldIsSet(item, pk) then
      match ArrayKey(FieldValue(item, pk))
      case None => Failure(IllegalOffsetType)
      case Some(k) =>
        if IsSet(idx, k) then SetField(item, relation, Get(idx, k).value)
        else SetField(item, relation, Arr([]))
    else SetField(item, relation, Arr([]))
  }

  /**
   * The loop shared by `relationSet` and `relationAppendKey`: each primary item
   * is rewritten by `step` and stored under its own key (`$result[$k] = $pkItem`).
   */
  function MapItems(primary: PArray, step: Value -> Result<Value, Error>): Result<PArray, Error> {
    if |primary| == 0 then Success([])
    else
      var acc :- MapItems(primary[..|primary| - 1], step);
      var e := primary[|primary| - 1];
      var item :- step(e.val);
      Success(Put(acc, e.key, item))
  }

  /** `Arr::relationSet($pkArray, $fkArray, $pk, $fk, $relation)`. */
  function RelationSet(primary: PArray, foreign: PArray, pk: Key, fk: Key, relation: Key): Result<PArray, Error> {
    if |primary| == 0 then Success([])
    else
      var idx :- Index(foreign, fk);
      MapItems(primary, item => RelateItem(item, idx, pk, relation))
  }

  /** `out` is `item` with the relation field set to the joined foreign item or `[]`, and nothing else changed. */
  ghost predicate Related(item: Value, out: Value, foreign: seq<Value>, fk: Key, pk: Key, relation: Key) {
    && out.Arr?
    && Field(out, relation) == Some(Relation(ForeignMatch(foreign, fk, item, pk)))
    && forall k' :: k' != relation ==> Field(out, k') == Field(item, k')
  }

  /** The key of `item[pk]` is looked up in the index; the index answers with the last match. */
  lemma MatchFromIndex(item: Value, foreign: seq<Value>, fk: Key, pk: Key, k: Key)
    requires IndexItems(foreign, fk).Success?
    requires FieldIsSet(item, pk) && ArrayKey(FieldValue(item, pk)) == Some(k)
    ensures IsSet(IndexItems(foreign, fk).value, k) <==> ForeignMatch(foreign, fk, item, pk).Some?
    ensures IsSet(IndexItems(foreign, fk).value, k) ==>
      Get(IndexItems(foreign, fk).value, k).value == ForeignMatch(foreign, fk, item, pk).value
  {
    IndexLastWriteWins(foreign, fk, k);
  }

  /** One loop iteration joins the item, and fails only on a scalar item or an array-valued key. */
  lemma RelateItemJoins(item: Value, foreign: seq<Value>, fk: Key, pk: Key, relation: Key)
    requires IndexItems(foreign, fk).Success?
    ensures var r := RelateItem(item, IndexItems(foreign, fk).value, pk, relation);
      r.Success? <==> Writable(item) && KeyableField(item, pk)
    ensures var r := RelateItem(item, IndexItems(foreign, fk).value, pk, relation);
      r.Success? ==> Related(item, r.value, foreign, fk, pk, relation)
  {
    if FieldIsSet(item, pk) && ArrayKey(FieldValue(item, pk)).Some? {
      MatchFromIndex(item, foreign, fk, pk, ArrayKey(FieldValue(item, pk)).value);
    }
  }

  /** The loop keeps the primary keys in order and applies `step` to each item. */
  lemma {:induction false} MapItemsEach(primary: PArray, step: Value -> Result<Value, Error>)
    requires UniqueKeys(primary)
    ensures MapItems(primary, step).Success? <==>
      forall i :: 0 <= i < |primary| ==> step(primary[i].val).Success?
    ensures var r := MapItems(primary, step);
      r.Success? ==>
        && |r.value| == |primary|
        && forall i :: 0 <= i < |primary| ==>
             r.value[i].key == primary[i].key && step(primary[i].val) == Success(r.value[i].val)
  {
    MapItemsSucceeds(primary, step);
    if |primary| > 0 && MapItems(primary, step).Success? {
      var p := primary[..|primary| - 1];
      var e := primary[|primary| - 1];
      assert UniqueKeys(p);
      MapItemsEach(p, step);
      var acc := MapItems(p, step).value;
      var ri := step(e.val).value;
      assert Keys(acc) == Keys(p);
      assert e.key !in Keys(p) by {
        assert forall i :: 0 <= i < |p| ==> Keys(p)[i] == p[i].key == primary[i].key != e.key;
      }
      PutNew(acc, e.key, ri);
      var r := acc + [Entry(e.key, ri)];
      assert MapItems(primary, step) == Success(r);
      forall i | 0 <= i < |primary|
        ensures r[i].key == primary[i].key && step(primary[i].val) == Success(r[i].val)
      {
        if i < |p| {
          assert r[i] == acc[i] && p[i] == primary[i];
        }
      }
    }
  }

  /** The loop succeeds exactly when every step does. */
  lemma {:induction false} MapItemsSucceeds(primary: PArray, step: Value -> Result<Value, Error>)
    ensures MapItems(primary, step).Success? <==>
      forall i :: 0 <= i < |primary| ==> step(primary[i].val).Success?
  {
    if |primary| > 0 {
      var p := primary[..|primary| - 1];
      MapItemsSucceeds(p, step);
      assert forall i :: 0 <= i < |p| ==> p[i] == primary[i];
      if MapItems(p, step).Failure? {
        var i :| 0 <= i < |p| && !step(p[i].val).Success?;
        assert !step(primary[i].val).Success?;
      }
    }
  }

  /**
   * `relationSet` succeeds on an empty primary array (giving `[]`), and otherwise
   * exactly when no foreign key field and no primary key field is an array and
   * every primary item is an array, null or false.
   */
  lemma RelationSetSucceeds(primary: PArray, foreign: PArray, pk: Key, fk: Key, relation: Key)
    requires UniqueKeys(primary)
    ensures |primary| == 0 ==> RelationSet(primary, foreign, pk, fk, relation) == Success([])
    ensures RelationSet(primary, foreign, pk, fk, relation).Success? <==>
      || |primary| == 0
      || (&& (forall j :: 0 <= j < |foreign| ==> KeyableField(foreign[j].val, fk))
          && (forall i :: 0 <= i < |primary| ==> Writable(primary[i].val) && KeyableField(primary[i].val, pk)))
  {
    var fv := Values(foreign);
    IndexSucceeds(fv, fk);
    assert forall j :: 0 <= j < |foreign| ==> foreign[j].val == fv[j];
    if |primary| > 0 && IndexItems(fv, fk).Success? {
      var idx := IndexItems(fv, fk).value;
      MapItemsEach(primary, item => RelateItem(item, idx, pk, relation));
      forall i | 0 <= i < |primary|
        ensures RelateItem(primary[i].val, idx, pk, relation).Success? <==>
          Writable(primary[i].val) && KeyableField(primary[i].val, pk)
      {
        RelateItemJoins(primary[i].val, fv, fk, pk, relation);
      }
    }
  }

  /**
   * Left outer join: the result has the primary keys in the primary order, and
   * each item is the primary item with the relation field set to the last
   * matching foreign item, or `[]` when the key is unset or unmatched.
   */
  lemma RelationSetJoins(primary: PArray, foreign: PArray, pk: Key, fk: Key, relation: Key)
    requires UniqueKeys(primary)
    requires RelationSet(primary, foreign, pk, fk, relation).Success?
    ensures var r := RelationSet(primary, foreign, pk, fk, relation).value;
      && Keys(r) == Keys(primary)
      && forall i :: 0 <= i < |primary| ==> Related(primary[i].val, r[i].val, Values(foreign), fk, pk, relation)
  {
    if |primary| > 0 {
      var fv := Values(foreign);
      var idx := IndexItems(fv, fk).value;
      MapItemsEach(primary, item => RelateItem(item, idx, pk, relation));
      var r := RelationSet(primary, foreign, pk, fk, relation).value;
      forall i | 0 <= i < |primary|
        ensures Related(primary[i].val, r[i].val, fv, fk, pk, relation)
      {
        RelateItemJoins(primary[i].val, fv, fk, pk, relation);
      }
    }
  }

  // ------------------------------------------------------------------
  // relationAppendKey
  // ------------------------------------------------------------------

  /**
   * The inner `foreach ($fkKeys as $fkKey => $fkKeyValue)` loop. `source` is the
   * matched foreign item (the first branch of the PHP code) or None (the
   * `else` branch, which only writes defaults).
   */
  function Backfill(item: Value, source: Option<Value>, fields: PArray, isCover: bool): Result<Value, Error> {
    if |fields| == 0 then Success(item)
    else
      var cur :- Backfill(item, source, fields[..|fields| - 1], isCover);
      var f := fields[|fields| - 1];
      if !FieldIsSet(cur, f.key) || isCover then
        match source
        case Some(fkItem) =>
          if FieldIsSet(fkItem, f.key) then SetField(cur, f.key, FieldValue(fkItem, f.key))
          else SetField(cur, f.key, f.val)
        case None => SetField(cur, f.key, f.val)
      else Success(cur)
  }

  /** One iteration of the `relationAppendKey` loop, given the index of the foreign array. */
  function AppendItem(item: Value, idx: PArray, pk: Key, fields: PArray, isCover: bool): Result<Value, Error> {
    if FieldIsSet(item, pk) then
      match ArrayKey(FieldValue(item, pk))
      case None => Failure(IllegalOffsetType)
      case Some(k) =>
        if IsSet(idx, k) then Backfill(item, Some(Get(idx, k).value), fields, isCover)
        else Backfill(item, None, fields, isCover)
    else Backfill(item, None, fields, isCover)
  }

  /** `Arr::relationAppendKey($pkArray, $fkArray, $pk, $fk, $fkKeys, $isCover)`. */
  function RelationAppendKey(primary: PArray, foreign: PArray, pk: Key, fk: Key, fields: PArray, isCover: bool)
    : Result<PArray, Error>
  {
    if |primary| == 0 then Success([])
    else
      var idx :- Index(foreign, fk);
      MapItems(primary, item => AppendItem(item, idx, pk, fields, isCover))
  }

  /** The value a back-filled field receives: the matched item's value if set there, else the default. */
  function FillValue(source: Option<Value>, f: Key, default: Value): Value {
    if source.Some? && FieldIsSet(source.value, f) then FieldValue(source.value, f) else default
  }

  /**
   * `out` is `item` back-filled from `source`: a listed field that is unset on
   * the item (or every listed field, when `isCover`) gets the fill value;
   * every other field is unchanged.
   */
  ghost predicate Backfilled(item: Value, out: Value, source: Option<Value>, fields: PArray, isCover: bool) {
    && (forall f :: f !in Keys(fields) ==> Field(out, f) == Field(item, f))
    && (forall j :: 0 <= j < |fields| ==>
          Field(out, fields[j].key) ==
            if isCover || !FieldIsSet(item, fields[j].key) then Some(FillValue(source, fields[j].key, fields[j].val))
            else Field(item, fields[j].key))
  }

  /** The inner loop fails only when it must write into true, an integer or a string. */
  lemma {:induction false} BackfillSucceeds(item: Value, source: Option<Value>, fields: PArray, isCover: bool)
    ensures Backfill(item, source, fields, isCover).Success? <==> Writable(item) || |fields| == 0
    ensures var r := Backfill(item, source, fields, isCover);
      r.Success? && Writable(item) ==> Writable(r.value)
  {
    if |fields| > 0 {
      BackfillSucceeds(item, source, fields[..|fields| - 1], isCover);
    }
  }

  /** The last iteration of the inner loop writes only the last listed field. */
  lemma BackfillLast(item: Value, source: Option<Value>, fields: PArray, isCover: bool)
    requires |fields| > 0
    requires Backfill(item, source, fields, isCover).Success?
    ensures var cur := Backfill(item, source, fields[..|fields| - 1], isCover).value;
      var out := Backfill(item, source, fields, isCover).value;
      var f := fields[|fields| - 1];
      && Field(out, f.key) == (if isCover || !FieldIsSet(cur, f.key) then Some(FillValue(source, f.key, f.val)) else Field(cur, f.key))
      && forall g :: g != f.key ==> Field(out, g) == Field(cur, g)
  {
  }

  /** The inner loop leaves a field it is not given alone. */
  lemma {:induction false} BackfillOthersAt(item: Value, source: Option<Value>, fields: PArray, isCover: bool, g: Key)
    requires Backfill(item, source, fields, isCover).Success?
    requires g !in Keys(fields)
    ensures Field(Backfill(item, source, fields, isCover).value, g) == Field(item, g)
  {
    if |fields| > 0 {
      var p := fields[..|fields| - 1];
      var f := fields[|fields| - 1];
      assert Keys(fields) == Keys(p) + [f.key];
      BackfillOthersAt(item, source, p, isCover, g);
      BackfillLast(item, source, fields, isCover);
    }
  }

  /** The inner loop leaves every field it is not given alone. */
  lemma BackfillOthers(item: Value, source: Option<Value>, fields: PArray, isCover: bool)
    requires Backfill(item, source, fields, isCover).Success?
    ensures var out := Backfill(item, source, fields, isCover).value;
      forall g :: g !in Keys(fields) ==> Field(out, g) == Field(item, g)
  {
    forall g | g !in Keys(fields)
      ensures Field(Backfill(item, source, fields, isCover).value, g) == Field(item, g)
    {
      BackfillOthersAt(item, source, fields, isCover, g);
    }
  }

  /** The inner loop gives each listed field its fill value, unless it is kept. */
  lemma {:induction false} BackfillListed(item: Value, source: Option<Value>, fields: PArray, isCover: bool)
    requires UniqueKeys(fields)
    requires Backfill(item, source, fields, isCover).Success?
    ensures var out := Backfill(item, source, fields, isCover).value;
      forall j :: 0 <= j < |fields| ==>
        Field(out, fields[j].key) ==
          if isCover || !FieldIsSet(item, fields[j].key) then Some(FillValue(source, fields[j].key, fields[j].val))
          else Field(item, fields[j].key)
  {
    if |fields| > 0 {
      var p := fields[..|fields| - 1];
      var f := fields[|fields| - 1];
      assert UniqueKeys(p);
      BackfillListed(item, source, p, isCover);
      BackfillLast(item, source, fields, isCover);
      assert f.key !in Keys(p) by {
        assert forall j :: 0 <= j < |p| ==> Keys(p)[j] == fields[j].key != f.key;
      }
      BackfillOthers(item, source, p, isCover);
      assert forall j :: 0 <= j < |p| ==> p[j] == fields[j];
    }
  }

  /** The inner loop back-fills exactly the listed fields. */
  lemma BackfillFills(item: Value, source: Option<Value>, fields: PArray, isCover: bool)
    requires UniqueKeys(fields)
    requires Backfill(item, source, fields, isCover).Success?
    ensures Backfilled(item, Backfill(item, source, fields, isCover).value, source, fields, isCover)
  {
    BackfillOthers(item, source, fields, isCover);
    BackfillListed(item, source, fields, isCover);
  }

  /** One loop iteration back-fills the item from its join partner, and fails on an array-valued key. */
  lemma AppendItemFromMatch(item: Value, foreign: seq<Value>, fk: Key, pk: Key, fields: PArray, isCover: bool)
    requires IndexItems(foreign, fk).Success?
    ensures AppendItem(item, IndexItems(foreign, fk).value, pk, fields, isCover) ==
      if KeyableField(item, pk) then Backfill(item, ForeignMatch(foreign, fk, item, pk), fields, isCover)
      else Failure(IllegalOffsetType)
  {
    if FieldIsSet(item, pk) && ArrayKey(FieldValue(item, pk)).Some? {
      MatchFromIndex(item, foreign, fk, pk, ArrayKey(FieldValue(item, pk)).value);
    }
  }

  /**
   * `relationAppendKey` succeeds on an empty primary array (giving `[]`), and
   * otherwise exactly when no key field is an array and no primary item that
   * must be written is true, an integer or a string.
   */
  lemma RelationAppendKeySucceeds(primary: PArray, foreign: PArray, pk: Key, fk: Key, fields: PArray, isCover: bool)
    requires UniqueKeys(primary) && UniqueKeys(fields)
    ensures |primary| == 0 ==> RelationAppendKey(primary, foreign, pk, fk, fields, isCover) == Success([])
    ensures RelationAppendKey(primary, foreign, pk, fk, fields, isCover).Success? <==>
      || |primary| == 0
      || (&& (forall j :: 0 <= j < |foreign| ==> KeyableField(foreign[j].val, fk))
          && (forall i :: 0 <= i < |primary| ==>
                KeyableField(primary[i].val, pk) && (Writable(primary[i].val) || |fields| == 0)))
  {
    var fv := Values(foreign);
    IndexSucceeds(fv, fk);
    assert forall j :: 0 <= j < |foreign| ==> foreign[j].val == fv[j];
    if |primary| > 0 && IndexItems(fv, fk).Success? {
      var idx := IndexItems(fv, fk).value;
      MapItemsEach(primary, item => AppendItem(item, idx, pk, fields, isCover));
      forall i | 0 <= i < |primary|
        ensures AppendItem(primary[i].val, idx, pk, fields, isCover).Success? <==>
          KeyableField(primary[i].val, pk) && (Writable(primary[i].val) || |fields| == 0)
      {
        AppendItemFromMatch(primary[i].val, fv, fk, pk, fields, isCover);
        BackfillSucceeds(primary[i].val, ForeignMatch(fv, fk, primary[i].val, pk), fields, isCover);
      }
    }
  }

  /**
   * Left outer join column back-fill: the result has the primary keys in the
   * primary order, and each item is the primary item back-filled from the last
   * matching foreign item (or from defaults only, when unmatched).
   */
  lemma RelationAppendKeyFills(primary: PArray, foreign: PArray, pk: Key, fk: Key, fields: PArray, isCover: bool)
    requires UniqueKeys(primary) && UniqueKeys(fields)
    requires RelationAppendKey(primary, foreign, pk, fk, fields, isCover).Success?
    ensures var r := RelationAppendKey(primary, foreign, pk, fk, fields, isCover).value;
      && Keys(r) == Keys(primary)
      && forall i :: 0 <= i < |primary| ==>
           Backfilled(primary[i].val, r[i].val, ForeignMatch(Values(foreign), fk, primary[i].val, pk), fields, isCover)
  {
    if |primary| > 0 {
      var fv := Values(foreign);
      var idx := IndexItems(fv, fk).value;
      MapItemsEach(primary, item => AppendItem(item, idx, pk, fields, isCover));
      var r := RelationAppendKey(primary, foreign, pk, fk, fields, isCover).value;
      forall i | 0 <= i < |primary|
        ensures Backfilled(primary[i].val, r[i].val, ForeignMatch(fv, fk, primary[i].val, pk), fields, isCover)
      {
        AppendItemFromMatch(primary[i].val, fv, fk, pk, fields, isCover);
        BackfillFills(primary[i].val, ForeignMatch(fv, fk, primary[i].val, pk), fields, isCover);
      }
    }
  }

  /** Without `isCover`, a field already set on a primary item keeps its value. */
  lemma RelationAppendKeyKeepsSetFields(primary: PArray, foreign: PArray, pk: Key, fk: Key, fields: PArray, i: int, f: Key)
    requires UniqueKeys(primary) && UniqueKeys(fields)
    requires RelationAppendKey(primary, foreign, pk, fk, fields, false).Success?
    requires 0 <= i < |primary| && FieldIsSet(primary[i].val, f)
    ensures var r := RelationAppendKey(primary, foreign, pk, fk, fields, false).value;
      i < |r| && Field(r[i].val, f) == Field(primary[i].val, f)
  {
    RelationAppendKeyFills(primary, foreign, pk, fk, fields, false);
    if f in Keys(fields) {
      var j :| 0 <= j < |fields| && fields[j].key == f;
    }
  }

  // ------------------------------------------------------------------
  // count
  // ------------------------------------------------------------------

  /**
   * The values `count` visits: those of each argument in turn. A non-array
   * argument makes `foreach` warn and visit nothing.
   */
  function Elements(args: seq<Value>): seq<Value> {
    if |args| == 0 then []
    else
      var last := args[|args| - 1];
      Elements(args[..|args| - 1]) + (if last.Arr? then Values(last.entries) else [])
  }

  /** The count stored under `k`, or 0. */
  function CountOf(a: PArray, k: Key): int {
    match Get(a, k)
    case Some(Int(c)) => c
    case _ => 0
  }

  /** None of the values is an array, so each can be used as a key. */
  predicate NoArrays(vs: seq<Value>) {
    forall i :: 0 <= i < |vs| ==> !vs[i].Arr?
  }

  /** The counting loop: `$result[$v]++` when set, `$result[$v] = 1` otherwise. */
  function Tally(vs: seq<Value>): Result<PArray, Error> {
    if |vs| == 0 then Success([])
    else
      var acc :- Tally(vs[..|vs| - 1]);
      match ArrayKey(vs[|vs| - 1])
      case None => Failure(IllegalOffsetType)
      case Some(k) =>
        if IsSet(acc, k) then Success(Put(acc, k, Int(CountOf(acc, k) + 1)))
        else Success(Put(acc, k, Int(1)))
  }

  /** `Arr::count(...$args)`. */
  function Count(args: seq<Value>): Result<PArray, Error> {
    if |args| > 0 then Tally(Elements(args)) else Success([])
  }

  /** How many of the values are used as key `k`. */
  function Occurrences(vs: seq<Value>, k: Key): nat {
    if |vs| == 0 then 0
    else Occurrences(vs[..|vs| - 1], k) + (if ArrayKey(vs[|vs| - 1]) == Some(k) then 1 else 0)
  }

  /** The sum of the integer values of an array. */
  function Total(a: PArray): int {
    if |a| == 0 then 0 else (if a[0].val.Int? then a[0].val.i else 0) + Total(a[1..])
  }

  /** Overwriting a count changes the total by the difference. */
  lemma {:induction false} TotalPut(a: PArray, k: Key, n: int)
    ensures Total(Put(a, k, Int(n))) == Total(a) - CountOf(a, k) + n
  {
    if |a| > 0 && a[0].key != k {
      TotalPut(a[1..], k, n);
      assert Put(a, k, Int(n))[1..] == Put(a[1..], k, Int(n));
    }
  }

  /** The counting loop fails exactly when a value is an array. */
  lemma {:induction false} TallySucceeds(vs: seq<Value>)
    ensures Tally(vs).Success? <==> NoArrays(vs)
  {
    if |vs| > 0 {
      var p := vs[..|vs| - 1];
      TallySucceeds(p);
      assert forall i :: 0 <= i < |p| ==> p[i] == vs[i];
    }
  }

  /** Each key maps to the number of values used as that key; no other key is stored. */
  lemma {:induction false} TallyCounts(vs: seq<Value>)
    requires Tally(vs).Success?
    ensures UniqueKeys(Tally(vs).value)
    ensures forall k :: Get(Tally(vs).value, k) == if Occurrences(vs, k) > 0 then Some(Int(Occurrences(vs, k))) else None
  {
    if |vs| > 0 {
      var p := vs[..|vs| - 1];
      var k0 := ArrayKey(vs[|vs| - 1]).value;
      TallyCounts(p);
      var acc := Tally(p).value;
      var n := Occurrences(p, k0) + 1;
      PutUnique(acc, k0, Int(n));
      var t := Put(acc, k0, Int(n));
      assert Tally(vs).value == t;
      forall k
        ensures Get(t, k) == if Occurrences(vs, k) > 0 then Some(Int(Occurrences(vs, k))) else None
      {
        assert Occurrences(vs, k) == Occurrences(p, k) + (if k == k0 then 1 else 0);
      }
    }
  }

  /** The counts add up to the number of values. */
  lemma {:induction false} TallyTotal(vs: seq<Value>)
    requires Tally(vs).Success?
    ensures Total(Tally(vs).value) == |vs|
  {
    if |vs| > 0 {
      var p := vs[..|vs| - 1];
      var k0 := ArrayKey(vs[|vs| - 1]).value;
      TallyTotal(p);
      TallyCounts(p);
      var acc := Tally(p).value;
      var n := Occurrences(p, k0) + 1;
      TotalPut(acc, k0, n);
      assert CountOf(acc, k0) == n - 1;
      assert Tally(vs).value == Put(acc, k0, Int(n));
    }
  }

  /**
   * `count` with no arguments is `[]`; it fails exactly when some element of an
   * array argument is itself an array; otherwise it is a frequency table whose
   * counts add up to the number of elements.
   */
  lemma CountFrequencies(args: seq<Value>)
    ensures |args| == 0 ==> Count(args) == Success([])
    ensures Count(args).Success? <==> NoArrays(Elements(args))
    ensures var es := Elements(args);
      Count(args).Success? ==>
        && UniqueKeys(Count(args).value)
        && (forall k :: CountOf(Count(args).value, k) == Occurrences(es, k))
        && (forall k :: k in Keys(Count(args).value) <==> Occurrences(es, k) > 0)
        && Total(Count(args).value) == |es|
  {
    var es := Elements(args);
    if |args| == 0 {
      assert es == [];
      return;
    }
    TallySucceeds(es);
    assert Count(args) == Tally(es);
    if Tally(es).Success? {
      var t := Tally(es).value;
      TallyCounts(es);
      TallyTotal(es);
      forall k
        ensures CountOf(t, k) == Occurrences(es, k)
        ensures k in Keys(t) <==> Occurrences(es, k) > 0
      {
        GetKeys(t, k);
      }
    }
  }

  // ------------------------------------------------------------------
  // diffBoth
  // ------------------------------------------------------------------

  /** The string forms of an array's values, as `array_diff` compares them. */
  function StringForms(a: PArray): set<string> {
    set i | 0 <= i < |a| :: ToPhpString(a[i].val)
  }

  /** `array_diff($a, $b)`: the entries of `a`, keys kept, whose string form is no value of `b`'s. */
  function ArrayDiff(a: PArray, b: PArray): PArray {
    if |a| == 0 then []
    else
      var e := a[|a| - 1];
      ArrayDiff(a[..|a| - 1], b) + (if ToPhpString(e.val) in StringForms(b) then [] else [e])
  }

  function IntKeyCount(a: PArray): nat {
    if |a| == 0 then 0 else (if a[0].key.IntKey? then 1 else 0) + IntKeyCount(a[1..])
  }

  /**
   * `array_merge` applied to the entries in order: an integer key is renumbered
   * to the next free integer (the number of integer keys so far, since they
   * run from 0), a string key is written in place.
   */
  function MergeAll(es: PArray): PArray {
    if |es| == 0 then []
    else
      var acc := MergeAll(es[..|es| - 1]);
      var e := es[|es| - 1];
      if e.key.IntKey? then Put(acc, IntKey(IntKeyCount(acc)), e.val) else Put(acc, e.key, e.val)
  }

  /** `Arr::diffBoth($a, $b)`. */
  function DiffBoth(a: PArray, b: PArray): PArray {
    MergeAll(ArrayDiff(a, b) + ArrayDiff(b, a))
  }

  /** All keys are integers (a list, or any integer-keyed array). */
  predicate IntKeysOnly(a: PArray) {
    forall i :: 0 <= i < |a| ==> a[i].key.IntKey?
  }

  lemma {:induction false} IntKeyCountAll(a: PArray)
    requires IntKeysOnly(a)
    ensures IntKeyCount(a) == |a|
  {
    if |a| > 0 {
      IntKeyCountAll(a[1..]);
    }
  }

  /** A list has keys 0 .. n-1, so n is the next free integer key. */
  lemma ListOfFresh(vs: seq<Value>)
    ensures IntKeyCount(ListOf(vs)) == |vs|
    ensures IntKey(|vs|) !in Keys(ListOf(vs))
  {
    var l := ListOf(vs);
    IntKeyCountAll(l);
    assert forall i :: 0 <= i < |l| ==> Keys(l)[i] == IntKey(i);
  }

  lemma ListOfSnoc(vs: seq<Value>, v: Value)
    ensures ListOf(vs + [v]) == ListOf(vs) + [Entry(IntKey(|vs|), v)]
  {
  }

  /** Merging integer-keyed entries renumbers them into a list of their values. */
  lemma {:induction false} MergeAllList(es: PArray)
    requires IntKeysOnly(es)
    ensures MergeAll(es) == ListOf(Values(es))
  {
    if |es| > 0 {
      var p := es[..|es| - 1];
      var e := es[|es| - 1];
      MergeAllList(p);
      ListOfFresh(Values(p));
      PutNew(ListOf(Values(p)), IntKey(|p|), e.val);
      assert Values(es) == Values(p) + [e.val] by {
        assert es == p + [e];
      }
      ListOfSnoc(Values(p), e.val);
    }
  }

  /**
   * `array_diff` keeps each entry of its first argument whose string form is
   * not among the second's, as often as it occurs there, and drops the others.
   */
  lemma {:induction false} ArrayDiffCounts(a: PArray, b: PArray)
    ensures forall e :: multiset(ArrayDiff(a, b))[e] == if ToPhpString(e.val) in StringForms(b) then 0 else multiset(a)[e]
  {
    if |a| > 0 {
      var p := a[..|a| - 1];
      var e := a[|a| - 1];
      ArrayDiffCounts(p, b);
      assert a == p + [e];
      assert multiset(a) == multiset(p) + multiset{e};
    }
  }

  /** `array_diff` filters entry by entry: it keeps the order of the first argument. */
  lemma {:induction false} ArrayDiffConcat(x: PArray, y: PArray, b: PArray)
    ensures ArrayDiff(x + y, b) == ArrayDiff(x, b) + ArrayDiff(y, b)
    decreases |y|
  {
    if |y| == 0 {
      assert x + y == x;
    } else {
      var q := y[..|y| - 1];
      var e := y[|y| - 1];
      assert (x + y)[..|x + y| - 1] == x + q;
      assert (x + y)[|x + y| - 1] == e;
      ArrayDiffConcat(x, q, b);
    }
  }

  /** An entry survives `array_diff` exactly when its string form is not among the second argument's. */
  lemma ArrayDiffKeeps(a: PArray, b: PArray)
    ensures forall e :: e in ArrayDiff(a, b) <==> e in a && ToPhpString(e.val) !in StringForms(b)
  {
    ArrayDiffCounts(a, b);
    forall e
      ensures e in ArrayDiff(a, b) <==> e in a && ToPhpString(e.val) !in StringForms(b)
    {
      assert e in ArrayDiff(a, b) <==> multiset(ArrayDiff(a, b))[e] > 0;
      assert e in a <==> multiset(a)[e] > 0;
    }
  }

  /** A value survives `array_diff` exactly when it is a value of the first argument with a string form not among the second's. */
  lemma {:induction false} ArrayDiffValues(a: PArray, b: PArray)
    ensures forall v :: v in Values(ArrayDiff(a, b)) <==> v in Values(a) && ToPhpString(v) !in StringForms(b)
  {
    if |a| > 0 {
      var p := a[..|a| - 1];
      var e := a[|a| - 1];
      ArrayDiffValues(p, b);
      assert a == p + [e];
      assert Values(a) == Values(p) + [e.val];
      var kept := if ToPhpString(e.val) in StringForms(b) then [] else [e];
      assert ArrayDiff(a, b) == ArrayDiff(p, b) + kept;
      assert Values(ArrayDiff(a, b)) == Values(ArrayDiff(p, b)) + Values(kept);
    }
  }

  /** The entries and the values `array_diff` keeps. */
  lemma ArrayDiffEntries(a: PArray, b: PArray)
    ensures forall e :: e in ArrayDiff(a, b) <==> e in a && ToPhpString(e.val) !in StringForms(b)
    ensures forall v :: v in Values(ArrayDiff(a, b)) <==> v in Values(a) && ToPhpString(v) !in StringForms(b)
  {
    ArrayDiffKeeps(a, b);
    ArrayDiffValues(a, b);
  }

  /**
   * For integer-keyed arrays, `diffBoth` is the list of the values of `a` whose
   * string form is not among `b`'s, followed by the values of `b` whose string
   * form is not among `a`'s.
   */
  lemma DiffBothLists(a: PArray, b: PArray)
    requires IntKeysOnly(a) && IntKeysOnly(b)
    ensures DiffBoth(a, b) == ListOf(Values(ArrayDiff(a, b)) + Values(ArrayDiff(b, a)))
  {
    var x, y := ArrayDiff(a, b), ArrayDiff(b, a);
    ArrayDiffIntKeys(a, b);
    ArrayDiffIntKeys(b, a);
    var d := x + y;
    IntKeysOnlyConcat(x, y);
    MergeAllList(d);
    assert Values(d) == Values(x) + Values(y);
  }

  lemma IntKeysOnlyConcat(x: PArray, y: PArray)
    requires IntKeysOnly(x) && IntKeysOnly(y)
    ensures IntKeysOnly(x + y)
  {
    forall i | 0 <= i < |x + y|
      ensures (x + y)[i].key.IntKey?
    {
      if i < |x| {
        assert (x + y)[i] == x[i];
      } else {
        assert (x + y)[i] == y[i - |x|];
      }
    }
  }

  /** `array_diff` of an integer-keyed array is integer-keyed. */
  lemma {:induction false} ArrayDiffIntKeys(a: PArray, b: PArray)
    requires IntKeysOnly(a)
    ensures IntKeysOnly(ArrayDiff(a, b))
  {
    if |a| > 0 {
      var p := a[..|a| - 1];
      assert forall i :: 0 <= i < |p| ==> p[i] == a[i];
      ArrayDiffIntKeys(p, b);
    }
  }

  /** For integer-keyed arrays, `diffBoth` holds the values that one side has and the other lacks. */
  lemma DiffBothMembers(a: PArray, b: PArray)
    requires IntKeysOnly(a) && IntKeysOnly(b)
    ensures forall v :: v in Values(DiffBoth(a, b)) <==>
      || (v in Values(a) && ToPhpString(v) !in StringForms(b))
      || (v in Values(b) && ToPhpString(v) !in StringForms(a))
  {
    DiffBothLists(a, b);
    ArrayDiffEntries(a, b);
    ArrayDiffEntries(b, a);
    var x := Values(ArrayDiff(a, b));
    var y := Values(ArrayDiff(b, a));
    assert Values(ListOf(x + y)) == x + y;
  }

  /** For integer-keyed arrays the two halves hold the same elements whichever argument comes first. */
  lemma DiffBothSymmetric(a: PArray, b: PArray)
    requires IntKeysOnly(a) && IntKeysOnly(b)
    ensures multiset(Values(DiffBoth(a, b))) == multiset(Values(DiffBoth(b, a)))
  {
    DiffBothLists(a, b);
    DiffBothLists(b, a);
    var x := Values(ArrayDiff(a, b));
    var y := Values(ArrayDiff(b, a));
    assert Values(ListOf(x + y)) == x + y;
    assert Values(ListOf(y + x)) == y + x;
  }

  lemma HeadMember<T>(s: seq<T>)
    ensures |s| > 0 ==> s[0] in s
  {
  }

  /** An array differs from itself in nothing. */
  lemma {:induction false} DiffBothSelf(a: PArray)
    ensures DiffBoth(a, a) == []
  {
    ArrayDiffEntries(a, a);
    forall v | v in Values(a)
      ensures ToPhpString(v) in StringForms(a)
    {
      var i :| 0 <= i < |a| && Values(a)[i] == v;
    }
    HeadMember(Values(ArrayDiff(a, a)));
  }

  // ------------------------------------------------------------------
  // wrap
  // ------------------------------------------------------------------

  /** `Arr::wrap($value)`: null is `[]`, an array is itself, anything else is `[$value]`. */
  function Wrap(v: Value): (r: PArray)
    ensures v.Arr? ==> r == v.entries
    ensures v.Null? ==> |r| == 0
    ensures !v.Arr? && !v.Null? ==> Keys(r) == [IntKey(0)] && Values(r) == [v]
  {
    if v.Null? then [] else if v.Arr? then v.entries else [Entry(IntKey(0), v)]
  }

  /** Wrapping what `wrap` returned changes nothing. */
  lemma WrapIdempotent(v: Value)
    ensures Wrap(Arr(Wrap(v))) == Wrap(v)
  {
  }

  // ------------------------------------------------------------------
  // worked examples
  // ------------------------------------------------------------------

  /** The record `{id: id, x: x}`. */
  function Rec(id: int, x: string): Value {
    Arr([Entry(StrKey("id"), Int(id)), Entry(StrKey("x"), Str(x))])
  }

  lemma RecId(id: int, x: string)
    ensures FieldIsSet(Rec(id, x), StrKey("id")) && FieldValue(Rec(id, x), StrKey("id")) == Int(id)
  {
    assert Get(Rec(id, x).entries, StrKey("id")) == Some(Int(id));
  }

  /** Two records with id 1: the later one is indexed, at the position where id 1 first appeared. */
  lemma IndexExample()
    ensures Index(ListOf([Rec(1, "a"), Rec(2, "b"), Rec(1, "c")]), StrKey("id"))
      == Success([Entry(IntKey(1), Rec(1, "c")), Entry(IntKey(2), Rec(2, "b"))])
  {
    var items := [Rec(1, "a"), Rec(2, "b"), Rec(1, "c")];
    var key := StrKey("id");
    RecId(1, "a");
    RecId(2, "b");
    RecId(1, "c");
    assert Values(ListOf(items)) == items;
    assert items[..1][..0] == [];
    assert IndexItems(items[..1], key) == Success([Entry(IntKey(1), Rec(1, "a"))]);
    assert items[..2][..1] == items[..1];
    var r2 := [Entry(IntKey(1), Rec(1, "a")), Entry(IntKey(2), Rec(2, "b"))];
    assert Put([Entry(IntKey(1), Rec(1, "a"))], IntKey(2), Rec(2, "b")) == r2;
    assert IndexItems(items[..2], key) == Success(r2);
    assert items[..3][..2] == items[..2];
    assert Put(r2, IntKey(1), Rec(1, "c")) == [Entry(IntKey(1), Rec(1, "c")), Entry(IntKey(2), Rec(2, "b"))];
    assert items[..3] == items;
  }

  /** Integer 1 and string "1" are the same value to `array_diff`, so nothing is left. */
  lemma DiffBothExample()
    ensures DiffBoth(ListOf([Int(1)]), ListOf([Str("1")])) == []
  {
    var a, b := ListOf([Int(1)]), ListOf([Str("1")]);
    assert ToPhpString(Int(1)) == "1";
    assert ToPhpString(a[0].val) in StringForms(a);
    assert ToPhpString(b[0].val) in StringForms(b);
    assert ArrayDiff(a, b) == [];
    assert ArrayDiff(b, a) == [];
  }
}
