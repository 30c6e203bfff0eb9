/**
 * PHP values as the array helpers see them: scalars and ordered arrays,
 * the normalisation PHP applies to a value used as an array key, and the
 * `(string)` and `empty()` conversions.
 */
module PhpValue {
  import opened Wrappers
  import Decimal

  /** A PHP array key after normalisation: always an integer or a string. */
  datatype Key = IntKey(i: int) | StrKey(s: string)

  /**
   * A PHP value. Integers are unbounded (the helpers never produce one outside
   * the 64-bit range from in-range inputs); floats and objects are not modelled.
   * An array is an ordered sequence of entries; PHP keeps its keys unique.
   */
  datatype Value =
    | Null
    | Bool(b: bool)
    | Int(i: int)
    | Str(s: string)
    | Arr(entries: seq<Entry>)

  datatype Entry = Entry(key: Key, val: Value)

  /** The exceptions and errors the modelled code can raise. */
  datatype Error =
    | IllegalOffsetType   // TypeError: an array used as an array key
    | ScalarUsedAsArray   // Error: a field written into true, an integer or a string
    | UnexpectedValue     // UnexpectedValueException from an enum constructor
    | BadMethodCall       // BadMethodCallException from an enum's static call

  const PhpIntMin: int := -0x8000_0000_0000_0000
  const PhpIntMax: int := 0x7FFF_FFFF_FFFF_FFFF

  /** A string PHP turns into an integer key: canonical decimal within the 64-bit range. */
  predicate IsIntegerString(s: string) {
    Decimal.IsCanonical(s) && PhpIntMin <= Decimal.CanonicalValue(s) <= PhpIntMax
  }

  /** The key a string becomes when used as an array key ("5" becomes 5, "05" stays a string). */
  function StringKey(s: string): Key {
    if IsIntegerString(s) then IntKey(Decimal.CanonicalValue(s)) else StrKey(s)
  }

  /**
   * The key `$a[$v]` reads or writes: null is "", booleans are 0 and 1,
   * strings are normalised, and an array is not a legal key (None).
   */
  function ArrayKey(v: Value): Option<Key> {
    match v
    case Null => Some(StrKey(""))
    case Bool(b) => Some(IntKey(if b then 1 else 0))
    case Int(i) => Some(IntKey(i))
    case Str(s) => Some(StringKey(s))
    case Arr(_) => None
  }

  /** `(string)$v`; an array converts to "Array" (with a warning). */
  function ToPhpString(v: Value): string {
    match v
    case Null => ""
    case Bool(b) => if b then "1" else ""
    case Int(i) => Decimal.IntToString(i)
    case Str(s) => s
    case Arr(_) => "Array"
  }

  /** PHP's `empty($v)`. */
  predicate IsEmpty(v: Value) {
    match v
    case Null => true
    case Bool(b) => !b
    case Int(i) => i == 0
    case Str(s) => s == "" || s == "0"
    case Arr(a) => |a| == 0
  }

  /** An in-range integer written as a string is the same key as the integer. */
  lemma IntegerStringKey(i: int)
    requires PhpIntMin <= i <= PhpIntMax
    ensures StringKey(Decimal.IntToString(i)) == IntKey(i)
  {
    Decimal.IntToStringRoundTrip(i);
  }

  /** Only the canonical rendering of an integer becomes that integer key. */
  lemma StringKeyInteger(s: string, i: int)
    requires StringKey(s) == IntKey(i)
    ensures s == Decimal.IntToString(i) && PhpIntMin <= i <= PhpIntMax
  {
    Decimal.CanonicalRoundTrip(s);
  }

  /** Strings that PHP keeps as string keys are exactly the non-integer strings. */
  lemma StringKeyString(s: string, t: string)
    requires StringKey(s) == StrKey(t)
    ensures s == t && !IsIntegerString(s)
  {
  }
}
