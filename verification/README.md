# php-utils in Dafny

This project models the core of pgyf/php-utils, a set of PHP static helpers,
as pure Dafny functions over immutable data. It proves what those helpers
promise their callers. The modelled core is:

- the record-collection joins of `Arr`: `index`, `relationSet` and
  `relationAppendKey`;
- the small array helpers of `Arr`: `count`, `diffBoth` and `wrap`;
- the loop-for-loop twin of the three joins in `ArrayHelper`, written as
  Dafny methods with loops and proved to return exactly what the `Arr`
  functions return;
- the case-sensitive string helpers of `Str`: `startsWith`, `endsWith`,
  `replaceFirst`, `replaceLast` and `limit`;
- the base64url alphabet swap of `Str`, which wraps `base64_encode` and
  `base64_decode`;
- the constant-table semantics of the `Enum` base class.

PHP 8 semantics are assumed throughout. The value model is:

- A PHP array is an ordered sequence of key/value entries (`PhpArray`).
  Writing to an existing key replaces it in place; writing to a new key
  appends it.
- Keys are integers or strings. A value used as a key is normalised the way
  PHP does it (`PhpValue.ArrayKey`):
  - a canonical decimal string in the 64-bit range becomes an integer;
  - null becomes `""`;
  - booleans become 0 and 1;
  - an array is an illegal offset, which raises a `TypeError`.
- `isset($a[$k])` means "present and not null", so a field holding null
  counts as absent everywhere.
- Writing a field into `true` or an integer raises an `Error`. Writing one
  into a string is treated the same way (see "Left out" for the string-offset
  case PHP allows). Writing one into null or `false` creates a fresh array.
- Exceptions are the failure side of a `Result`.

The modules are:

| file | module | what it holds |
|---|---|---|
| wrappers.dfy | `Wrappers` | `Option` and `Result` |
| decimal.dfy | `Decimal` | canonical decimal strings, used for PHP's string-to-integer key normalisation |
| php_value.dfy | `PhpValue` | values, keys, errors, key normalisation, `(string)` and `empty()` |
| php_array.dfy | `PhpArray` | ordered arrays: lookup, assignment, list construction, record fields |
| arr.dfy | `Arr` | `Arr.php` as recursive functions over prefixes (mirroring the `foreach` loops), with their properties |
| array_helper.dfy | `ArrayHelper` | `ArrayHelper.php` as imperative loops, each proved equal to its `Arr` counterpart |
| str.dfy | `Str` | `Str.php`, generic over the element type where the helper works on bytes |
| enum.dfy | `Enum` | `Enum.php` over an explicit constants table and label map |

Some modelling choices:

- Field names passed to the joins (`$pk`, `$fk`, `$relation`, the keys of
  `$fkKeys`) are taken as already normalised keys.
- `limit` counts characters (it uses `mb_strlen` and `mb_substr`).
  `startsWith` and `endsWith` compare bytes. Both are stated over sequences.
- `base64_encode` is modelled as the encoder of section 4 of RFC 4648.
  `base64_decode` is modelled as its decoder for well-formed input only.

## Model

| member | source | states |
|---|---|---|
| Arr.Index | src/Arr.php:19-27 | `Arr::index`: the loop of `IndexItems` over the array's values, in iteration order; its properties are the rows below |
| Arr.IndexItems | src/Arr.php:19-27 | the table `index` builds never holds a key twice |
| Arr.LastIndexed | src/Arr.php:21-24 | the reference for last-write-wins, scanning from the end: a found item is an array whose set index field normalises to k |
| Arr.IndexSucceeds | src/Arr.php:21-24 | `index` succeeds exactly when no item's set index field is an array; an item whose field is absent or null is dropped rather than failing |
| Arr.LastIndexedNone | src/Arr.php:22-23 | no item is stored under key k exactly when no item has its index field set to a value that normalises to k |
| Arr.LastIndexedAt | src/Arr.php:21-24 | when item i is the last item whose index field normalises to k, the reference lookup answers item i |
| Arr.IndexLastWriteWins | src/Arr.php:19-27 | the index maps each key to the last item in iteration order whose set field normalises to it, and holds no other key |
| Arr.MatchFromIndex | src/Arr.php:44-45 | looking up `$pkItem[$pk]` in the index finds an entry exactly when some foreign item matches, and that entry is the last matching foreign item |
| Arr.RelateItemJoins | src/Arr.php:44-49 | one join step succeeds exactly when the item is writable and its pk field is not an array; it sets the relation field to the last match or `[]` and changes no other field |
| Arr.RelateItem | src/Arr.php:44-50 | one iteration of the `relationSet` loop: the matched record or `[]` is written under the relation name; an array pk is an illegal offset |
| Arr.MapItems | src/Arr.php:43-51 | the loop shared by both joins: each rewritten item is stored under its own key, and the first failing item ends the loop |
| Arr.RelationSet | src/Arr.php:39-54 | `Arr::relationSet`: `[]` for an empty primary, otherwise the index of the foreign array followed by the loop; its properties are the `RelationSet…` rows |
| Arr.MapItemsEach | src/Arr.php:43-51 | the join loop succeeds exactly when every item's step succeeds; the result has the primary's keys in the same order, and each value is that item's step result |
| Arr.MapItemsSucceeds | src/Arr.php:43-51 | the join loop fails exactly when some item's step fails |
| Arr.RelationSetSucceeds | src/Arr.php:39-54 | an empty primary array gives `[]`; otherwise `relationSet` succeeds exactly when every foreign fk field and every primary pk field is usable as a key and every primary item can take a field |
| Arr.RelationSetJoins | src/Arr.php:39-54 | the result has exactly the primary's keys in order; each item is a left outer join: the relation field holds the last foreign item whose fk matches the item's pk (or `[]`), and no other field changes |
| Arr.Backfill | src/Arr.php:72-88 | the inner `foreach ($fkKeys …)` loop of both branches; the source is the matched record, or none in the unmatched branch (src/Arr.php:84-88) |
| Arr.AppendItem | src/Arr.php:70-88 | one iteration of the `relationAppendKey` loop: back-fill from the matched record, or from the defaults when unmatched |
| Arr.RelationAppendKey | src/Arr.php:65-94 | `Arr::relationAppendKey`: `[]` for an empty primary, otherwise the index of the foreign array followed by the loop; its properties are the `RelationAppendKey…` rows |
| Arr.BackfillSucceeds | src/Arr.php:72-88 | the back-fill loop fails exactly when it has a field to write and the item is true, an integer or a string |
| Arr.BackfillLast | src/Arr.php:73-79 | one back-fill step writes the fill value when the field is unset or `isCover` is given, keeps the field otherwise, and touches no other field |
| Arr.BackfillOthersAt | src/Arr.php:72-88 | a field not listed in `$fkKeys` is left unchanged by the back-fill loop |
| Arr.BackfillOthers | src/Arr.php:72-88 | every field not listed in `$fkKeys` is left unchanged by the back-fill loop |
| Arr.BackfillListed | src/Arr.php:72-88 | each listed field ends with the fill value (the matched item's value if set, else its default) when it was unset or `isCover` is given, and keeps its value otherwise |
| Arr.BackfillFills | src/Arr.php:72-88 | the back-fill loop changes only listed fields, and each as `isCover` and `isset` dictate |
| Arr.AppendItemFromMatch | src/Arr.php:70-88 | a matched item is back-filled from the last matching foreign item and an unmatched item from the defaults; a pk field that is an array is an illegal offset |
| Arr.RelationAppendKeySucceeds | src/Arr.php:65-94 | an empty primary array gives `[]`; otherwise `relationAppendKey` succeeds exactly when all keys are legal and every primary item is writable (or no field is listed) |
| Arr.RelationAppendKeyFills | src/Arr.php:65-94 | the result has exactly the primary's keys in order; each item is back-filled from its last matching foreign item (or from the defaults when unmatched), changing listed fields only |
| Arr.RelationAppendKeyKeepsSetFields | src/Arr.php:73 | without `isCover`, a field already set on a primary item is never changed |
| Arr.Tally | src/Arr.php:135-143 | the counting loop: `$result[$v]++` when set, `$result[$v] = 1` otherwise; an array element is an illegal offset |
| Arr.Count | src/Arr.php:129-147 | `Arr::count(...$args)`: `[]` without arguments, otherwise the counting loop over the elements of every array argument |
| Arr.TotalPut | src/Arr.php:137-141 | overwriting one counter changes the sum of the counters by exactly the difference |
| Arr.TallySucceeds | src/Arr.php:136-142 | the counting loop fails exactly when some element is an array (an illegal key) |
| Arr.TallyCounts | src/Arr.php:136-142 | after the counting loop, each key maps to its number of occurrences, and a key with none is absent |
| Arr.TallyTotal | src/Arr.php:136-142 | the counters of the counting loop sum to the number of elements counted |
| Arr.CountFrequencies | src/Arr.php:129-147 | no arguments give `[]`; otherwise `count` succeeds exactly when no element is an array; each key's counter is its number of occurrences across all arguments; the keys are exactly the occurring values; the counters sum to the total element count |
| Arr.ArrayDiff | src/Arr.php:122 | `array_diff`: the entries of the first array, with their keys, whose string form is no value's of the second |
| Arr.MergeAll | src/Arr.php:122 | `array_merge` of the entries in order: integer keys are renumbered, string keys written in place |
| Arr.DiffBoth | src/Arr.php:120-123 | `Arr::diffBoth`: `array_merge` of the two one-sided differences |
| Arr.MergeAllList | src/Arr.php:122 | `array_merge` of integer-keyed entries renumbers them into a list of their values in order |
| Arr.ArrayDiffCounts | src/Arr.php:122 | each entry of a whose string form is not among b's occurs in `array_diff(a, b)` as often as in a; every other entry does not occur |
| Arr.ArrayDiffConcat | src/Arr.php:122 | `array_diff` filters entry by entry, so it keeps the order of a: the difference of a concatenation is the concatenation of the differences |
| Arr.ArrayDiffKeeps | src/Arr.php:122 | an entry (key and value) is in `array_diff(a, b)` exactly when it is in a and its string form is not among b's |
| Arr.ArrayDiffValues | src/Arr.php:122 | a value occurs in `array_diff(a, b)` exactly when it is a value of a whose string form is not among b's |
| Arr.ArrayDiffEntries | src/Arr.php:122 | an entry is kept exactly when it is in a and its string form is not among b's; a value occurs in the result exactly when it occurs in a with such a string form |
| Arr.DiffBothLists | src/Arr.php:120-123 | for integer-keyed inputs, `diffBoth(a, b)` is the list of the elements of a not in b, followed by the elements of b not in a |
| Arr.DiffBothMembers | src/Arr.php:120-123 | a value is in `diffBoth(a, b)` exactly when it is in one input and its string form is absent from the other |
| Arr.DiffBothSymmetric | src/Arr.php:120-123 | swapping the two inputs yields the same elements with the same multiplicities |
| Arr.DiffBothSelf | src/Arr.php:120-123 | an array differs from itself in nothing |
| Arr.Wrap | src/Arr.php:168-174 | null wraps to `[]`, an array to itself, any other value to the one-element list `[v]` |
| Arr.WrapIdempotent | src/Arr.php:168-174 | wrapping an already wrapped value changes nothing |
| Arr.IndexExample | src/Arr.php:19-27 | indexing three records by `id` where two share `id` 1 keeps the later of the two, at the first one's position |
| Arr.DiffBothExample | src/Arr.php:120-123 | `1` and `"1"` have the same string form, so `diffBoth([1], ["1"])` is empty |
| ArrayHelper.IndexStops | src/ArrayHelper.php:22-26 | once a prefix of the `index` loop has failed, the whole loop fails the same way |
| ArrayHelper.MapItemsStops | src/ArrayHelper.php:44-51 | once a prefix of a join loop has failed, the whole loop fails the same way |
| ArrayHelper.MapItemsNext | src/ArrayHelper.php:44-51 | one more iteration of a join loop stores the item's result under its own key, or ends the loop with its error |
| ArrayHelper.BackfillStops | src/ArrayHelper.php:73-89 | once a prefix of the back-fill loop has failed, the whole loop fails the same way |
| ArrayHelper.Index | src/ArrayHelper.php:20-28 | the `ArrayHelper::index` loop returns exactly what `Arr::index` returns on every input |
| ArrayHelper.RelateOne | src/ArrayHelper.php:45-50 | one iteration of `ArrayHelper::relationSet` computes the same item as the `Arr` version |
| ArrayHelper.RelationSet | src/ArrayHelper.php:40-55 | `ArrayHelper::relationSet` returns exactly what `Arr::relationSet` returns on every input |
| ArrayHelper.Fill | src/ArrayHelper.php:73-89 | the inner back-fill loop computes the same item as the `Arr` version |
| ArrayHelper.AppendOne | src/ArrayHelper.php:71-90 | one iteration of `ArrayHelper::relationAppendKey` computes the same item as the `Arr` version |
| ArrayHelper.RelationAppendKey | src/ArrayHelper.php:66-95 | `ArrayHelper::relationAppendKey` returns exactly what `Arr::relationAppendKey` returns on every input |
| Str.StartsWith | src/Str.php:44-52 | case-sensitive `startsWith` holds exactly when `with` is a prefix of the string; an empty `with` is a prefix of everything |
| Str.EndsWith | src/Str.php:62-74 | case-sensitive `endsWith` is false when the string is shorter than `with`, and otherwise holds exactly when `with` is its suffix |
| Str.EndsWithReverse | src/Str.php:62-74 | `endsWith` is `startsWith` on the reversed strings |
| Str.FindFirst | src/Str.php:144 | `strpos` answers the first position where the needle occurs, or nothing when it does not occur |
| Str.FindLast | src/Str.php:162 | `strrpos` answers the last position where the needle occurs, or nothing when it does not occur |
| Str.EmptyNeedleFound | src/Str.php:162 | an empty needle occurs first at 0 and last at the end of the string, so `strrpos($s, '')` is the string's length |
| Str.Splice | src/Str.php:147 | `substr_replace($s, $r, $p, $n)`: the text before p, then r, then the text after the n replaced characters |
| Str.ReplaceFirst | src/Str.php:138-151 | an empty search or a missing one leaves the subject unchanged; otherwise the text before the first occurrence, then `replace`, then the rest, with length \|subject\| − \|search\| + \|replace\| |
| Str.ReplaceLastAsWritten | src/Str.php:160-169 | as written: no occurrence leaves the subject unchanged; otherwise the last occurrence is spliced out for `replace`, including the empty search "found" at the end |
| Str.ReplaceLast | src/Str.php:160-169 | an empty search or a missing one leaves the subject unchanged; otherwise only the last occurrence is replaced, with length \|subject\| − \|search\| + \|replace\| |
| Str.ReplaceLastEmptySearchAppends | src/Str.php:160-169 | as written, an empty search appends `replace` to the subject, while `replaceFirst` returns the subject |
| Str.ReplaceLastCounterexample | src/Str.php:160-169 | `replaceLast('', 'x', 'ab')` gives `abx` as written, against `ab` as intended |
| Str.ReplaceFirstLastSingle | src/Str.php:138-169 | when the search occurs exactly once, `replaceFirst` and `replaceLast` agree |
| Str.ReplaceFirstSelf | src/Str.php:138-151 | replacing the search by itself returns the subject |
| Str.ReplaceLastSelf | src/Str.php:160-169 | replacing the search by itself returns the subject |
| Str.RTrim | src/Str.php:109 | `rtrim` removes exactly the trailing run of space, tab, newline, carriage return, NUL and vertical tab |
| Str.RightTrimmedUnique | src/Str.php:109 | only one string is a given string right-trimmed |
| Str.RTrimIdempotent | src/Str.php:109 | trimming twice is trimming once |
| Str.KeptLength | src/Str.php:109 | `mb_substr($s, 0, $length)` keeps `min(n, length)` characters, or drops `-length` from the end when the length is negative |
| Str.Limit | src/Str.php:104-112 | a string of at most `length` characters is returned unchanged; a longer one becomes its right-trimmed first `length` characters followed by `suffix` |
| Str.LimitLength | src/Str.php:104-112 | for a non-negative length, a truncated result is at most `length` + \|suffix\| long |
| Str.LimitIdempotent | src/Str.php:104-112 | limiting again without a suffix changes nothing |
| Str.DecodeSextet | src/Str.php:83 | every standard base64 alphabet character decodes to the sextet it encodes |
| Str.SextetRoundTrip | src/Str.php:83 | decoding an encoded sextet gives it back |
| Str.GroupRoundTrip | src/Str.php:83 | splitting three bytes into four sextets and joining them again gives the bytes back |
| Str.Base64Encode | src/Str.php:83 | `base64_encode` output is 4⌈n/3⌉ characters long, each from the standard alphabet or `=` |
| Str.Base64RoundTrip | src/Str.php:93 | decoding an encoded byte string gives it back |
| Str.Strtr | src/Str.php:83 | `strtr` translates character by character, so the result is as long as the input |
| Str.Base64UrlEncode | src/Str.php:82-84 | `base64UrlEncode` output contains no `+` and no `/`: only URL-safe alphabet characters and `=` |
| Str.Translate | src/Str.php:83 | what `strtr` makes of one character: the image of its last position in the `from` list, or the character itself |
| Str.TranslateTwo | src/Str.php:83 | a two-character `strtr` maps each listed character to its partner and leaves others alone |
| Str.SwapBack | src/Str.php:83-93 | on standard base64 text, the decode-side swap of `-_` to `+/` undoes the encode-side swap of `+/` to `-_` |
| Str.Base64Decode | src/Str.php:93 | `base64_decode` on well-formed padded input: groups of four alphabet characters, the last possibly ending in `=` or `==`; anything else is None |
| Str.Base64UrlDecode | src/Str.php:92-94 | `base64UrlDecode`: the swap of `-_` back to `+/`, then decoding |
| Str.Base64UrlRoundTrip | src/Str.php:82-94 | `base64UrlDecode(base64UrlEncode(b))` is b |
| Enum.LabelFoldSucceeds | src/Enum.php:225-228 | the `toArray` loop fails exactly when some constant's value is an array |
| Enum.FirstSetAppend | src/Enum.php:226 | the first non-null candidate of a longer list is that of the shorter list when it has one, else the new candidate |
| Enum.LabelOfStep | src/Enum.php:226 | the label a key receives after one more constant follows the `??` fall-back |
| Enum.DeclaresStep | src/Enum.php:225-228 | a key is declared by the constants so far exactly when it was before or the new constant's value normalises to it |
| Enum.LabelFoldStep | src/Enum.php:225-228 | one iteration of the `toArray` loop keeps both the label map and the result in their specified state at every key |
| Enum.LabelFoldSpec | src/Enum.php:216-231 | after the loop, the result holds each key once; it holds exactly the declared values, each with its label |
| Enum.LabelFold | src/Enum.php:222-228 | the `toArray` loop: each value's label is `$labelMap[$value] ?? $value`, written back to the label map and into the result |
| Enum.ToArray | src/Enum.php:216-231 | `Enum::toArray()`: the result of that loop over the constants table; its properties are the `ToArray…` and `LabelFold…` rows |
| Enum.ToArrayLabels | src/Enum.php:216-231 | `toArray` maps each distinct constant value to its label, falling back, as `??` does, to the first non-null constant value with that key (null when all are null), and holds no other key |
| Enum.ToArrayDeclaredLabel | src/Enum.php:216-231 | a constant value with a non-null label maps to that label |
| Enum.ToArrayUnlabelled | src/Enum.php:216-231 | a constant value without a label, shared by no other constant, maps to itself |
| Enum.GetLabelByValue | src/Enum.php:112-119 | `getLabelByValue` fails exactly when `toArray` fails or the value is an array |
| Enum.GetLabelByValueSpec | src/Enum.php:112-119 | `getLabelByValue` returns the label of a declared value with a non-null label, and the given default for any other value |
| Enum.GetLabelByValueUnknown | src/Enum.php:112-119 | with the default argument `'未知'`, a value that no constant normalises to is labelled `'未知'` |
| Enum.GetLabel | src/Enum.php:96-105 | a non-empty label is returned as it is; otherwise the label found is stored in the object, which is returned with it |
| Enum.GetLabelStable | src/Enum.php:96-105 | asking for the label again gives the same answer and leaves the object unchanged |
| Enum.GetLabelByValueAgrees | src/Enum.php:96-119 | for an object with an empty label, `getLabel` answers what `getLabelByValue` answers with that empty label as the default |
| Enum.InConstants | src/Enum.php:243 | strict `in_array` over the constants holds exactly when some constant's value is strictly equal |
| Enum.IsValid | src/Enum.php:241-244 | `isValid(v)` holds exactly when v is strictly equal to some constant's value |
| Enum.SearchIn | src/Enum.php:272 | strict `array_search` answers the name of the first constant in declaration order whose value is v, and nothing when none is |
| Enum.Search | src/Enum.php:270-273 | `Enum::search($value)`: strict `array_search` over the constants; nothing stands for PHP's `false` |
| Enum.GetKey | src/Enum.php:128-131 | `$enum->getKey()`: `search` of the object's value |
| Enum.SearchIsValid | src/Enum.php:241-273 | `search` finds a name exactly when `isValid` holds |
| Enum.ConstantNames | src/Enum.php:167-170 | `keys()` lists the constant names in declaration order |
| Enum.IsValidKey | src/Enum.php:254-259 | `isValidKey(k)` holds exactly when k is a declared constant name |
| Enum.ConstantNamed | src/Enum.php:287-289 | looking a name up in the constants finds a value exactly when that name is declared, and that constant carries it |
| Enum.ValueKeys | src/Enum.php:179-182 | `values()` fails exactly when `toArray` fails and has one entry per key of `toArray` |
| Enum.ValueKeysSpec | src/Enum.php:179-182 | `values()` holds exactly the declared values as PHP normalised them into keys |
| Enum.Unwrap | src/Enum.php:66-69 | an object of the same class is replaced by its value; anything else is passed on |
| Enum.Construct | src/Enum.php:64-89 | the constructor unwraps an object of the same class; it rejects an invalid value with `UnexpectedValueException`, and otherwise `getValue` returns the given value |
| Enum.Equals | src/Enum.php:153-158 | `equals`: the argument is an enum object of the same class with a strictly equal value |
| Enum.EqualsEquivalence | src/Enum.php:153-158 | `equals` is reflexive, symmetric and transitive on enum objects, ignores labels and is false for a non-object |
| Enum.ConstructEquals | src/Enum.php:64-79 | constructing from an enum object yields an object that `equals` the original |
| Enum.CallStatic | src/Enum.php:285-293 | a declared name yields an object of the class carrying that constant's value and an empty label; an undeclared name raises `BadMethodCallException` |
| Enum.CallStaticKey | src/Enum.php:128-131 | when the constant values are distinct, `getKey` of the object `__callStatic(name)` returns is that name |
| PhpValue.ArrayKey | src/Arr.php:23 | the key `$result[$item[$key]]` writes: null is `""`, booleans 0 and 1, canonical decimal strings in the 64-bit range integers, an array no key at all |
| PhpValue.ToPhpString | src/Arr.php:122 | the `(string)` conversion `array_diff` compares by |
| PhpValue.IsEmpty | src/Enum.php:98 | PHP's `empty()`: null, false, 0, `""`, `"0"` and `[]` |
| PhpArray.Put | src/Arr.php:23 | after `$a[$k] = $v` the key reads `$v`, and every other key reads as before |
| PhpArray.PutKeys | src/Arr.php:50 | assigning to an existing key keeps the key order; assigning to a new key appends it |
| PhpArray.SetField | src/Arr.php:45-48 | writing a field succeeds exactly on null, false and arrays; it sets that field and no other |

## Left out

- `Request.php` reads the request superglobal. It is I/O and is not part of this model.
- `Arr::rand` depends on randomness and is not modelled.
- `Arr::query` is a direct call to `http_build_query` and is not modelled.
- The case-insensitive branches of `startsWith` and `endsWith` are not modelled. So are `title` and `wordsLimit`. They rest on Unicode case folding and PCRE.
- `byteLength` and `length` are not modelled. Strings are sequences and their length is `|s|`.
- `limit` is modelled with its default `UTF-8` encoding only: the `$encoding` argument (src/Str.php:104-107) is dropped, and strings are sequences of characters.
- Default arguments become ordinary parameters: `$relation = 'relation'`, `$isCover = false`, `$suffix = '...'` and `$default = '未知'` are passed explicitly (`Enum.Unknown` holds the last).
- PhpArray.SetField: fails on every string item. PHP 8 writes a single character when a string is assigned at an integer offset (`$item[0] = 'x'`), and only a non-numeric offset raises an error. That case is not modelled.
- Str.Base64Decode: decodes well-formed padded input only. PHP's lenient `base64_decode` also skips characters outside the alphabet and accepts missing padding. That lenient behaviour is not modelled. The round trip is stated on encoder output, where the two agree.
- Enum reflection and the static caches are not modelled. `$cache` and `$cacheLabel` are replaced by the explicit `EnumClass` table, so `toEnumArray` is the constants list itself. Recomputing gives the same answer as a cached value.
- `__toString` and `jsonSerialize` are one-line conversions and are not modelled.
- Subclassing between enum classes is not modelled. `instanceof static` and `static::class` are compared by class name.
- Floats, objects inside arrays and resources are not part of the value model.
- Arr.Tally: counters are unbounded integers. The conversion of `$result[$v]++` to a float past the 64-bit maximum is not modelled.
- Reading a character of a string item by integer offset (`$item[0]` on a string) is not modelled. A field of a non-array item reads as absent.
- Arr.DiffBothLists: states the list shape only for integer-keyed inputs. With string keys, `array_merge` overwrites earlier entries. `Arr.DiffBoth` models that case as written but no lemma describes it.
- Enum.ValueKeys: follows the code, which returns the keys of `toArray()`. The docblock promises enum instances keyed by constant name.
- Arr.IndexSucceeds: `index` is not total under PHP 8. An item whose index field holds an array raises a `TypeError` on that write. The lemma states exactly when it succeeds.
- Enum.CallStaticKey: requires distinct constant values. With duplicates, `getKey` answers the first name declared with that value.

## Findings

| source | as written | input that shows it | evidently intended | confidence | as-written member | corrected member |
|---|---|---|---|---|---|---|
| src/Str.php:160-169 | `replaceLast` has no empty-search guard; under PHP 8 `strrpos($subject, '')` returns the subject's length, so `replace` is appended | `replaceLast('', 'x', 'ab')` returns `'abx'` | an empty search leaves the subject unchanged, as in `replaceFirst` (src/Str.php:140-142) | not executed | Str.ReplaceLastAsWritten, Str.ReplaceLastCounterexample | Str.ReplaceLast |
