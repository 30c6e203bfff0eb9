/**
 * Class `Enum`: an enumeration declared as class constants, with an optional
 * label table. The constants PHP reads by reflection are given here as an
 * explicit table in declaration order, and the per-class caches are left out:
 * each operation recomputes what the cache would hold.
 */
module Enum {
  import opened Wrappers
  import opened PhpValue
  import opened PhpArray

  /** A class constant: its name and its value. */
  datatype Constant = Constant(name: string, value: Value)

  /** An enum class: its name, its constants in declaration order and what `labels()` returns. */
  datatype EnumClass = EnumClass(name: string, constants: seq<Constant>, labels: PArray)

  /** An enum object: its class, its value and its label (`$label`, possibly still empty). */
  datatype Instance = Instance(cls: EnumClass, value: Value, caption: Value)

  /** A `mixed` argument: a plain value or an enum object. */
  datatype Arg = Plain(v: Value) | Object(obj: Instance)

  /** The default label of `getLabelByValue`. */
  const Unknown: Value := Str("未知")


  // ---------------------------------------------------------------- toArray

  /**
   * The `labelMap` and `array` the loop of `toArray` holds after visiting
   * `cs`: each value gets `$labelMap[$value] ?? $value`, which is written back
   * to `labelMap` as well. An array-valued constant is an illegal key.
   */
  function LabelFold(labels: PArray, cs: seq<Constant>): Result<(PArray, PArray), Error> {
    if |cs| == 0 then Success((labels, []))
    else
      var acc :- LabelFold(labels, cs[..|cs| - 1]);
      var c := cs[|cs| - 1];
      match ArrayKey(c.value)
      case None => Failure(IllegalOffsetType)
      case Some(k) =>
        var caption := if IsSet(acc.0, k) then Get(acc.0, k).value else c.value;
        Success((Put(acc.0, k, caption), Put(acc.1, k, caption)))
  }

  /** `Enum::toArray()`: constant value (as a key) to label. */
  function ToArray(cls: EnumClass): Result<PArray, Error> {
    var acc :- LabelFold(cls.labels, cls.constants);
    Success(acc.1)
  }

  /** Some constant of `cs` has a value that is the key `k`. */
  ghost predicate Declares(cs: seq<Constant>, k: Key) {
    exists i :: 0 <= i < |cs| && ArrayKey(cs[i].value) == Some(k)
  }

  /** The values of the constants of `cs` whose key is `k`, in declaration order. */
  function ValuesUnder(cs: seq<Constant>, k: Key): seq<Value> {
    if |cs| == 0 then []
    else ValuesUnder(cs[..|cs| - 1], k) + (if ArrayKey(cs[|cs| - 1].value) == Some(k) then [cs[|cs| - 1].value] else [])
  }

  /** The first value that is not null, or null when there is none. */
  function FirstSet(vs: seq<Value>): (r: Value)
    ensures r != Null ==> r in vs
  {
    if |vs| == 0 then Null
    else if vs[0] != Null then vs[0]
    else FirstSet(vs[1..])
  }

  lemma {:induction false} FirstSetAppend(vs: seq<Value>, v: Value)
    ensures FirstSet(vs + [v]) == if FirstSet(vs) != Null then FirstSet(vs) else v
  {
    if |vs| > 0 {
      assert (vs + [v])[1..] == vs[1..] + [v];
      FirstSetAppend(vs[1..], v);
    }
  }

  /**
   * The label `toArray` gives the key `k`: the first non-null among the
   * declared label of `k` and the values of the constants under `k`.
   */
  function LabelOf(labels: PArray, cs: seq<Constant>, k: Key): Value {
    FirstSet((if Get(labels, k).Some? then [Get(labels, k).value] else []) + ValuesUnder(cs, k))
  }

  /** `toArray` fails exactly when some constant is an array. */
  lemma {:induction false} LabelFoldSucceeds(labels: PArray, cs: seq<Constant>)
    ensures LabelFold(labels, cs).Success? <==> forall i :: 0 <= i < |cs| ==> !cs[i].value.Arr?
  {
    if |cs| > 0 {
      LabelFoldSucceeds(labels, cs[..|cs| - 1]);
    }
  }

  /** The chain of candidate labels grows by one value at each constant with that key. */
  lemma LabelOfStep(labels: PArray, cs: seq<Constant>, k: Key)
    requires |cs| > 0
    ensures var p, c := cs[..|cs| - 1], cs[|cs| - 1];
      LabelOf(labels, cs, k) ==
        if ArrayKey(c.value) == Some(k) then
          (if LabelOf(labels, p, k) != Null then LabelOf(labels, p, k) else c.value)
        else LabelOf(labels, p, k)
  {
    var p, c := cs[..|cs| - 1], cs[|cs| - 1];
    var head := if Get(labels, k).Some? then [Get(labels, k).value] else [];
    if ArrayKey(c.value) == Some(k) {
      assert head + ValuesUnder(cs, k) == (head + ValuesUnder(p, k)) + [c.value];
      FirstSetAppend(head + ValuesUnder(p, k), c.value);
    } else {
      assert ValuesUnder(cs, k) == ValuesUnder(p, k) + [];
      assert head + ValuesUnder(cs, k) == head + ValuesUnder(p, k);
    }
  }

  /** A key is declared by `cs` when it is declared by all but the last constant, or by the last. */
  lemma DeclaresStep(cs: seq<Constant>, k: Key)
    requires |cs| > 0
    ensures Declares(cs, k) <==> Declares(cs[..|cs| - 1], k) || ArrayKey(cs[|cs| - 1].value) == Some(k)
  {
    var p := cs[..|cs| - 1];
    if Declares(cs, k) && ArrayKey(cs[|cs| - 1].value) != Some(k) {
      var i :| 0 <= i < |cs| && ArrayKey(cs[i].value) == Some(k);
      assert p[i] == cs[i];
    }
    if Declares(p, k) {
      var i :| 0 <= i < |p| && ArrayKey(p[i].value) == Some(k);
      assert cs[i] == p[i];
    }
  }

  /** What the loop state says about one key `k` after visiting `cs`. */
  ghost predicate FoldedAt(labels: PArray, cs: seq<Constant>, lm: PArray, arr: PArray, k: Key) {
    && Get(arr, k) == (if Declares(cs, k) then Some(LabelOf(labels, cs, k)) else None)
    && (IsSet(lm, k) <==> LabelOf(labels, cs, k) != Null)
    && (IsSet(lm, k) ==> Get(lm, k).value == LabelOf(labels, cs, k))
  }

  /** One iteration of the `toArray` loop keeps `FoldedAt` at every key. */
  lemma LabelFoldStep(labels: PArray, cs: seq<Constant>, k: Key)
    requires |cs| > 0 && LabelFold(labels, cs).Success?
    requires var (lm, arr) := LabelFold(labels, cs[..|cs| - 1]).value;
      FoldedAt(labels, cs[..|cs| - 1], lm, arr, k)
    ensures var (lm, arr) := LabelFold(labels, cs).value;
      FoldedAt(labels, cs, lm, arr, k)
  {
    var p, c := cs[..|cs| - 1], cs[|cs| - 1];
    var (lm, arr) := LabelFold(labels, p).value;
    var kc := ArrayKey(c.value).value;
    var caption := if IsSet(lm, kc) then Get(lm, kc).value else c.value;
    assert LabelFold(labels, cs).value == (Put(lm, kc, caption), Put(arr, kc, caption));
    LabelOfStep(labels, cs, k);
    DeclaresStep(cs, k);
  }

  /**
   * After the loop: `array` holds exactly the declared keys, each with its
   * `LabelOf`, and `labelMap` is set at a key exactly when that label is not null.
   */
  lemma {:induction false} LabelFoldSpec(labels: PArray, cs: seq<Constant>)
    requires LabelFold(labels, cs).Success?
    ensures var (lm, arr) := LabelFold(labels, cs).value;
      UniqueKeys(arr) && forall k :: FoldedAt(labels, cs, lm, arr, k)
  {
    if |cs| == 0 {
      forall k
        ensures FoldedAt(labels, cs, labels, [], k)
      {
      }
    } else {
      var p, c := cs[..|cs| - 1], cs[|cs| - 1];
      LabelFoldSpec(labels, p);
      var (lm, arr) := LabelFold(labels, p).value;
      var kc := ArrayKey(c.value).value;
      var caption := if IsSet(lm, kc) then Get(lm, kc).value else c.value;
      assert LabelFold(labels, cs).value.1 == Put(arr, kc, caption);
      PutUnique(arr, kc, caption);
      var (lm', arr') := LabelFold(labels, cs).value;
      forall k
        ensures FoldedAt(labels, cs, lm', arr', k)
      {
        LabelFoldStep(labels, cs, k);
      }
    }
  }

  /** `toArray` maps a key to a label exactly when a constant has that key, and the label is `LabelOf`. */
  lemma ToArrayLabels(cls: EnumClass)
    requires ToArray(cls).Success?
    ensures UniqueKeys(ToArray(cls).value)
    ensures forall k :: Get(ToArray(cls).value, k) ==
                          if Declares(cls.constants, k) then Some(LabelOf(cls.labels, cls.constants, k)) else None
  {
    LabelFoldSpec(cls.labels, cls.constants);
    var (lm, arr) := LabelFold(cls.labels, cls.constants).value;
    assert ToArray(cls).value == arr;
    forall k
      ensures Get(arr, k) == if Declares(cls.constants, k) then Some(LabelOf(cls.labels, cls.constants, k)) else None
    {
      assert FoldedAt(cls.labels, cls.constants, lm, arr, k);
    }
  }

  /** A declared, non-null label wins over the constant's own value. */
  lemma ToArrayDeclaredLabel(cls: EnumClass, i: int)
    requires ToArray(cls).Success?
    requires 0 <= i < |cls.constants| && !cls.constants[i].value.Arr?
    requires var k := ArrayKey(cls.constants[i].value).value;
      Get(cls.labels, k).Some? && Get(cls.labels, k).value != Null
    ensures var k := ArrayKey(cls.constants[i].value).value;
      Get(ToArray(cls).value, k) == Get(cls.labels, k)
  {
    LabelFoldSucceeds(cls.labels, cls.constants);
    ToArrayLabels(cls);
    var k := ArrayKey(cls.constants[i].value).value;
    assert Declares(cls.constants, k);
  }

  /** A constant whose value is unique and unlabelled is its own label. */
  lemma ToArrayUnlabelled(cls: EnumClass, i: int)
    requires ToArray(cls).Success?
    requires 0 <= i < |cls.constants| && !cls.constants[i].value.Arr?
    requires var k := ArrayKey(cls.constants[i].value).value;
      Get(cls.labels, k).None? && ValuesUnder(cls.constants, k) == [cls.constants[i].value]
    ensures Get(ToArray(cls).value, ArrayKey(cls.constants[i].value).value) == Some(cls.constants[i].value)
  {
    LabelFoldSucceeds(cls.labels, cls.constants);
    ToArrayLabels(cls);
    var k := ArrayKey(cls.constants[i].value).value;
    assert Declares(cls.constants, k);
  }

  // ---------------------------------------------------------------- labels of values and instances

  /** `Enum::getLabelByValue($value, $default)`. */
  function GetLabelByValue(cls: EnumClass, value: Value, default: Value): (r: Result<Value, Error>)
    ensures r.Success? <==> ToArray(cls).Success? && !value.Arr?
  {
    var arr :- ToArray(cls);
    match ArrayKey(value)
    case None => Failure(IllegalOffsetType)
    case Some(k) => if IsSet(arr, k) then Success(Get(arr, k).value) else Success(default)
  }

  /** The label of a declared value when it is not null, the default otherwise. */
  lemma GetLabelByValueSpec(cls: EnumClass, value: Value, default: Value)
    requires ToArray(cls).Success? && !value.Arr?
    ensures var k := ArrayKey(value).value;
      var caption := LabelOf(cls.labels, cls.constants, k);
      GetLabelByValue(cls, value, default) ==
        Success(if Declares(cls.constants, k) && caption != Null then caption else default)
  {
    ToArrayLabels(cls);
  }

  /** With the default left as it is, a value no constant normalises to is labelled "未知". */
  lemma GetLabelByValueUnknown(cls: EnumClass, value: Value)
    requires ToArray(cls).Success? && !value.Arr?
    requires forall i :: 0 <= i < |cls.constants| ==> ArrayKey(cls.constants[i].value) != ArrayKey(value)
    ensures GetLabelByValue(cls, value, Unknown) == Success(Unknown)
  {
    GetLabelByValueSpec(cls, value, Unknown);
  }

  /** `$enum->getLabel()`: an empty label is filled from `toArray`; answers the label and the updated object. */
  function GetLabel(inst: Instance): (r: Result<(Value, Instance), Error>)
    ensures !IsEmpty(inst.caption) ==> r == Success((inst.caption, inst))
    ensures r.Success? ==> r.value.0 == r.value.1.caption && r.value.1 == inst.(caption := r.value.0)
  {
    if IsEmpty(inst.caption) then
      var arr :- ToArray(inst.cls);
      match ArrayKey(inst.value)
      case None => Failure(IllegalOffsetType)
      case Some(k) =>
        if IsSet(arr, k) then
          var caption := Get(arr, k).value;
          Success((caption, inst.(caption := caption)))
        else Success((inst.caption, inst))
    else Success((inst.caption, inst))
  }

  /** Asking again answers the same label and leaves the object as it is. */
  lemma GetLabelStable(inst: Instance)
    requires GetLabel(inst).Success?
    ensures var (caption, next) := GetLabel(inst).value;
      GetLabel(next) == Success((caption, next))
  {
  }

  /** An empty label of a valid object becomes what `getLabelByValue` answers, unless that is missing. */
  lemma GetLabelByValueAgrees(inst: Instance)
    requires IsEmpty(inst.caption) && GetLabel(inst).Success?
    ensures GetLabelByValue(inst.cls, inst.value, inst.caption) == Success(GetLabel(inst).value.0)
  {
  }

  // ---------------------------------------------------------------- lookups over the constants table

  /** `in_array($value, $constants, true)`. */
  function InConstants(cs: seq<Constant>, value: Value): (r: bool)
    ensures r <==> exists i :: 0 <= i < |cs| && cs[i].value == value
  {
    if |cs| == 0 then false
    else cs[0].value == value || InConstants(cs[1..], value)
  }

  /** `Enum::isValid($value)`: strictly equal to the value of some constant. */
  function IsValid(cls: EnumClass, value: Value): (r: bool)
    ensures r <==> exists i :: 0 <= i < |cls.constants| && cls.constants[i].value == value
  {
    InConstants(cls.constants, value)
  }

  /** `cs[i]` is the first constant whose value is strictly equal to `value`. */
  ghost predicate FirstWithValue(cs: seq<Constant>, i: int, value: Value) {
    && 0 <= i < |cs|
    && cs[i].value == value
    && forall j :: 0 <= j < i ==> cs[j].value != value
  }

  /** `array_search($value, $constants, true)`: the name of the first constant with that value. */
  function SearchIn(cs: seq<Constant>, value: Value): (r: Option<string>)
    ensures r.Some? ==> exists i :: FirstWithValue(cs, i, value) && cs[i].name == r.value
    ensures r.None? ==> forall i :: 0 <= i < |cs| ==> cs[i].value != value
  {
    if |cs| == 0 then None
    else if cs[0].value == value then
      assert FirstWithValue(cs, 0, value);
      Some(cs[0].name)
    else
      var r := SearchIn(cs[1..], value);
      assert r.Some? ==> exists i :: FirstWithValue(cs, i, value) && cs[i].name == r.value by {
        if r.Some? {
          var i :| FirstWithValue(cs[1..], i, value) && cs[1..][i].name == r.value;
          assert FirstWithValue(cs, i + 1, value);
        }
      }
      r
  }

  /** `Enum::search($value)`; None stands for `false`. */
  function Search(cls: EnumClass, value: Value): Option<string> {
    SearchIn(cls.constants, value)
  }

  /** A value is valid exactly when `search` finds a name for it. */
  lemma SearchIsValid(cls: EnumClass, value: Value)
    ensures Search(cls, value).Some? <==> IsValid(cls, value)
  {
  }

  /** `Enum::keys()`: the constant names in declaration order. */
  function ConstantNames(cls: EnumClass): (r: seq<string>)
    ensures |r| == |cls.constants|
    ensures forall i :: 0 <= i < |r| ==> r[i] == cls.constants[i].name
  {
    seq(|cls.constants|, i requires 0 <= i < |cls.constants| => cls.constants[i].name)
  }

  /** `Enum::isValidKey($key)`: some constant has that name. */
  function IsValidKey(cls: EnumClass, key: string): (r: bool)
    ensures r <==> exists i :: 0 <= i < |cls.constants| && cls.constants[i].name == key
  {
    key in ConstantNames(cls)
  }

  /** The value of the first constant named `name`, if any; with unique names, the only one. */
  function ConstantNamed(cs: seq<Constant>, name: string): (r: Option<Value>)
    ensures r.Some? <==> exists i :: 0 <= i < |cs| && cs[i].name == name
    ensures r.Some? ==> exists i :: 0 <= i < |cs| && cs[i] == Constant(name, r.value)
  {
    if |cs| == 0 then None
    else if cs[0].name == name then Some(cs[0].value)
    else
      var r := ConstantNamed(cs[1..], name);
      assert forall i :: 1 <= i < |cs| ==> cs[i] == cs[1..][i - 1];
      r
  }

  /** The value an array key reads back as. */
  function KeyValue(k: Key): Value {
    match k
    case IntKey(i) => Int(i)
    case StrKey(s) => Str(s)
  }

  /**
   * `Enum::values()`: the keys of `toArray()`, that is the distinct constant
   * values as PHP normalised them into array keys.
   */
  function ValueKeys(cls: EnumClass): (r: Result<seq<Value>, Error>)
    ensures r.Success? <==> ToArray(cls).Success?
    ensures r.Success? ==> |r.value| == |ToArray(cls).value|
  {
    var arr :- ToArray(cls);
    Success(seq(|arr|, i requires 0 <= i < |arr| => KeyValue(arr[i].key)))
  }

  /** `values()` lists a key exactly when some constant's value is that key. */
  lemma ValueKeysSpec(cls: EnumClass)
    requires ToArray(cls).Success?
    ensures forall k :: KeyValue(k) in ValueKeys(cls).value <==> Declares(cls.constants, k)
  {
    ToArrayLabels(cls);
    var arr := ToArray(cls).value;
    var vs := ValueKeys(cls).value;
    forall k
      ensures KeyValue(k) in vs <==> Declares(cls.constants, k)
    {
      GetKeys(arr, k);
      if KeyValue(k) in vs {
        var i :| 0 <= i < |vs| && vs[i] == KeyValue(k);
        assert Keys(arr)[i] == k;
      }
      if Declares(cls.constants, k) {
        var i :| 0 <= i < |arr| && arr[i].key == k;
        assert vs[i] == KeyValue(k);
      }
    }
  }

  // ---------------------------------------------------------------- objects

  /** The value `new static($value)` checks: an object of the same class is unwrapped. */
  function Unwrap(cls: EnumClass, arg: Arg): Arg {
    match arg
    case Object(o) => if o.cls.name == cls.name then Plain(o.value) else arg
    case Plain(_) => arg
  }

  /** `new static($value, $caption)`; an invalid value raises `UnexpectedValueException`. */
  function Construct(cls: EnumClass, arg: Arg, caption: Value): (r: Result<Instance, Error>)
    ensures r.Success? <==> Unwrap(cls, arg).Plain? && IsValid(cls, Unwrap(cls, arg).v)
    ensures r.Failure? ==> r.error == UnexpectedValue
    ensures r.Success? ==> r.value == Instance(cls, Unwrap(cls, arg).v, caption)
  {
    match Unwrap(cls, arg)
    case Plain(v) => if IsValid(cls, v) then Success(Instance(cls, v, caption)) else Failure(UnexpectedValue)
    case Object(_) => Failure(UnexpectedValue)
  }

  /** `$enum->getKey()`. */
  function GetKey(inst: Instance): Option<string> {
    Search(inst.cls, inst.value)
  }

  /** `$enum->equals($variable)`: an enum object of the same class with a strictly equal value. */
  predicate Equals(inst: Instance, other: Arg) {
    && other.Object?
    && inst.value == other.obj.value
    && inst.cls.name == other.obj.cls.name
  }

  /** `equals` is an equivalence on enum objects, blind to labels. */
  lemma EqualsEquivalence(a: Instance, b: Instance, c: Instance)
    ensures Equals(a, Object(a))
    ensures Equals(a, Object(b)) <==> Equals(b, Object(a))
    ensures Equals(a, Object(b)) && Equals(b, Object(c)) ==> Equals(a, Object(c))
    ensures Equals(a, Object(a.(caption := c.caption)))
    ensures !Equals(a, Plain(a.value))
  {
  }

  /** Objects built from the same value, directly or by copying an object, are equal. */
  lemma ConstructEquals(cls: EnumClass, v: Value, l1: Value, l2: Value)
    requires IsValid(cls, v)
    ensures var a := Construct(cls, Plain(v), l1).value;
      && Construct(cls, Object(a), l2).Success?
      && Equals(a, Object(Construct(cls, Object(a), l2).value))
  {
  }

  /** `Enum::NAME()`: the object of the constant named NAME, or `BadMethodCallException`. */
  function CallStatic(cls: EnumClass, name: string): (r: Result<Instance, Error>)
    ensures r.Success? <==> IsValidKey(cls, name)
    ensures r.Failure? ==> r.error == BadMethodCall
    ensures r.Success? ==> r.value.cls == cls && r.value.caption == Str("")
    ensures r.Success? ==> exists i :: 0 <= i < |cls.constants| && cls.constants[i] == Constant(name, r.value.value)
  {
    match ConstantNamed(cls.constants, name)
    case Some(v) => Construct(cls, Plain(v), Str(""))
    case None => Failure(BadMethodCall)
  }

  /** When the values are distinct, the object of NAME reports NAME as its key. */
  lemma CallStaticKey(cls: EnumClass, name: string)
    requires forall i, j :: 0 <= i < j < |cls.constants| ==> cls.constants[i].value != cls.constants[j].value
    requires IsValidKey(cls, name)
    ensures GetKey(CallStatic(cls, name).value) == Some(name)
  {
    var inst := CallStatic(cls, name).value;
    var i :| 0 <= i < |cls.constants| && cls.constants[i] == Constant(name, inst.value);
    var found := GetKey(inst);
    var j :| FirstWithValue(cls.constants, j, inst.value) && cls.constants[j].name == found.value;
    assert i == j;
  }
}
