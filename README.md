# nullthrows-ts in Dafny

A Dafny model of the four null-assertion helpers of `nullthrows-ts`. They turn possibly-absent data, such as a parsed GraphQL response, into data with no `null` or `undefined` in it, or they throw a descriptive error:

- `nullthrows(value, message?)` rejects `null` and `undefined`. It returns every other value unchanged.
- `nullthrowsObject(object, message?)` rejects an absent object. It then scans the object's own enumerable entries in order and rejects the first one whose value is absent. On success it returns the object itself.
- `nullthrowsObjectMap(object, mapFn, message?)` rejects an absent input. It then applies `mapFn` once and checks the result as `nullthrowsObject` does.
- `nullthrowsArrayObjectMap(array, mapFn, message?)` rejects an absent input and any present input that is not a real array. It then maps the elements in index order: an absent element fails with its index, and every other element goes through `nullthrowsObjectMap`. The first failure is the one thrown.

Every helper is a pure function over JavaScript values:

- `Values.Value` is `Null`, `Undefined` or a present `Data`.
- `Data` is one of:
  - a boolean;
  - a number;
  - a string;
  - a plain object, given as its own enumerable entries in enumeration order;
  - a real array.
- A call either returns (`Ok`) or throws an `Error` whose exact text is kept (`Err(msg)`).
- `mapFn` is a total function `Value -> Value`.
- The optional message is an `Option<string>`. The source tests it for truthiness, so `Some("")` behaves exactly like `None` (`ErrorText.EmptyMessageIsNone`).

Each error text is built in two layers:

- A message-free `ErrorText.Failure` records what was found: an absent value, an absent property with its key, an absent element with its index, or a non-array.
- `ErrorText.Render` turns the failure into the base text.
- `ErrorText.Wrap` applies the caller's message.

Each helper also has a reference definition of its failure:

- for `nullthrows`, the failure `Absent(AbsentKind(value))` written inline in its `ensures`;
- `NullthrowsObject.ObjectFailure`;
- `NullthrowsObjectMap.ObjectMapFailure`;
- `NullthrowsArrayObjectMap.ArrayFailure`.
 Each reference is written independently of the message and of the way errors propagate. Lemmas prove two things for every helper:

- the outcome is decided by its reference failure;
- the thrown text is that failure's text, wrapped by the message exactly once, even when the failure is found two calls deep.

Modules, one per source file plus three shared ones:

| module | models |
|---|---|
| `Values` | JavaScript values, `value == null`, `Object.entries`, the `Ok`/`Err` outcome |
| `Decimal` | the decimal text `${idx}` of an array index, with its parser |
| `ErrorText` | the error stems, the failure kinds, and the `message ? \`${message} (${body})\` : body` rule |
| `Nullthrows` | `src/nullthrows.ts` |
| `NullthrowsObject` | `src/nullthrowsObject.ts` |
| `NullthrowsObjectMap` | `src/nullthrowsObjectMap.ts` |
| `NullthrowsArrayObjectMap` | `src/nullthrowsArrayObjectMap.ts` |

Two consequences of the code that are easy to miss:

- Only a truthy message wraps the error (src/nullthrows.ts:19 and the same test in every helper). An empty message is not wrapped.
- `nullthrowsObjectMap` returns whatever `mapFn` built, once it is checked (src/nullthrowsObjectMap.ts:62). The model's result is `mapFn(obj)`, which is `obj` itself for an identity `mapFn`. The tests' "NOT identity" checks, such as src/__tests__/nullthrowsObjectMap_spec.ts:86, hold only because their `mapFn`s build fresh objects.

## Model

| member | source | states |
|---|---|---|
| Values.IsNullish | src/nullthrows.ts:16 | the loose test `value == null`: true for `null` and `undefined` and for nothing else |
| Values.AbsentKind | src/nullthrows.ts:17 | an absent value is named "undefined" exactly when it is `undefined`, otherwise "null" |
| Values.Entries | src/nullthrowsObject.ts:32 | `Object.entries` of a present value: an object's own entries as given; one entry per array element or string character; none for a boolean or number |
| Values.EntriesIndexed | src/nullthrowsObject.ts:32 | entry k of an array is the decimal text of k paired with element k; entry k of a string is the decimal text of k paired with character k |
| Decimal.NatToString | src/nullthrowsArrayObjectMap.ts:54 | the index text is non-empty, all decimal digits, and has no leading zero |
| Decimal.ParseNatToString | src/nullthrowsArrayObjectMap.ts:54 | reading the rendered index back as a decimal yields the index |
| Decimal.NatToStringInjective | src/nullthrowsArrayObjectMap.ts:54 | two distinct indices are never reported with the same text |
| ErrorText.Render | src/nullthrowsObject.ts:28-35 | the base text of each failure: `Found unexpected "<kind>"`, followed by ` for property: "<key>"` or ` for array index: "<i>"` when there is a locator, or `Found unexpected "non-array"` |
| ErrorText.HasMessage | src/nullthrows.ts:19 | the truthiness test on the message: present and non-empty |
| ErrorText.Wrap | src/nullthrows.ts:19 | with no message or an empty one the text is the body; otherwise it is 3 characters longer than message and body together |
| ErrorText.WrapLayout | src/nullthrows.ts:19 | a wrapped text is the message, then " (", then the body, then ")", each at a fixed position |
| ErrorText.WrapInjective | src/nullthrows.ts:19 | under a given message, the wrapped text determines the body |
| ErrorText.EmptyMessageIsNone | src/nullthrows.ts:19 | an empty message wraps exactly as no message does |
| ErrorText.WrapStartsWithMessage | src/nullthrows.ts:19 | every wrapped text begins with the message |
| ErrorText.UnexpectedTexts | src/nullthrows.ts:18 | the stems for "null", "undefined" and "non-array" are the exact texts the helpers throw |
| Nullthrows.Nullthrows | src/nullthrows.ts:15-22 | succeeds exactly when the value is neither `null` nor `undefined`, and then returns it unchanged; otherwise throws the absence text of its kind, wrapped by the message |
| Nullthrows.NullthrowsBareTexts | src/__tests__/nullthrows_spec.ts:6-11 | `null` throws exactly `Found unexpected "null"` and `undefined` throws exactly `Found unexpected "undefined"` |
| Nullthrows.NullthrowsFalsyValuesPass | src/__tests__/nullthrows_spec.ts:18-51 | `false`, `0`, `""`, `{}` and `[]` are returned unchanged under any message |
| Nullthrows.NullthrowsErrorCarriesMessage | src/nullthrows.ts:16-19 | an absent value always throws, and the text begins with the message |
| Nullthrows.NullthrowsCustomMessage | src/__tests__/nullthrows_spec.ts:12-15 | `null` with message "Error parsing asdfjkl" throws that message followed by the base text in parentheses |
| NullthrowsObject.FirstAbsentUnique | src/nullthrowsObject.ts:32-37 | there is at most one first absent entry |
| NullthrowsObject.FirstAbsentIndex | src/nullthrowsObject.ts:32-37 | finds nothing exactly when every entry is present; otherwise finds the first absent entry in enumeration order |
| NullthrowsObject.CheckEntries | src/nullthrowsObject.ts:32-38 | the `forEach` scan passes exactly when no entry is absent; otherwise it throws the property text of the first absent entry, wrapped by the message |
| NullthrowsObject.NullthrowsObject | src/nullthrowsObject.ts:24-40 | succeeds exactly when the reference failure is none, and then returns the object unchanged; otherwise throws the reference failure's text wrapped once |
| NullthrowsObject.NullthrowsObjectSucceedsIff | src/nullthrowsObject.ts:26-39 | succeeds exactly when the object is present and every top-level value is present, and then returns the object itself |
| NullthrowsObject.NullthrowsObjectAbsent | src/nullthrowsObject.ts:26-29 | an absent object throws the same bare text as `nullthrows`, wrapped by the message |
| NullthrowsObject.FirstAbsentKeyReported | src/nullthrowsObject.ts:32-37 | the thrown text names the kind and key of the first absent entry |
| NullthrowsObject.LaterEntriesIgnored | src/nullthrowsObject.ts:32-37 | appending entries after an absent one does not change the outcome |
| NullthrowsObject.NullthrowsObjectErrorCarriesMessage | src/nullthrowsObject.ts:29-36 | every thrown text begins with the message |
| NullthrowsObject.NestedAbsenceNotChecked | src/__tests__/nullthrowsObject_spec.ts:35-80 | `{foo: {bar: null}}` and `{}` are returned unchanged: only top-level values are checked |
| NullthrowsObject.ArrayElementReportedAsProperty | src/nullthrowsObject.ts:32-37 | an array given to `nullthrowsObject` reports its first absent element as the property named by that element's index |
| NullthrowsObject.PropertyErrorWithMessage | src/__tests__/nullthrowsObject_spec.ts:27-31 | `{foo: true, bar: null}` with message "Error parsing asdfjkl" throws `Error parsing asdfjkl (Found unexpected "null" for property: "bar")` |
| NullthrowsObjectMap.NullthrowsObjectMap | src/nullthrowsObjectMap.ts:54-63 | an absent input has the outcome of `nullthrows`; a present one has the outcome of `nullthrowsObject` on `mapFn(input)`; on success the result is `mapFn(input)` with every top-level value present |
| NullthrowsObjectMap.ObjectMapMatchesFailure | src/nullthrowsObjectMap.ts:60-62 | succeeds exactly when the reference failure is none; otherwise throws its text wrapped once |
| NullthrowsObjectMap.MapFnNotAppliedToAbsent | src/nullthrowsObjectMap.ts:60 | an absent input throws the bare absence text whatever `mapFn` is |
| NullthrowsObjectMap.DroppedPropertiesIgnored | src/__tests__/nullthrowsObjectMap_spec.ts:179-203 | two present inputs that `mapFn` maps alike have the same outcome, so properties it drops play no part |
| NullthrowsObjectMap.EmptyRecordSucceeds | src/__tests__/nullthrowsObjectMap_spec.ts:78-88 | a `mapFn` returning `{}` makes the call return `{}` |
| NullthrowsObjectMap.MappedPropertyError | src/__tests__/nullthrowsObjectMap_spec.ts:62-74 | the first absent property of the mapped record is reported by kind and key, wrapped once |
| NullthrowsObjectMap.ObjectMapErrorCarriesMessage | src/nullthrowsObjectMap.ts:60-62 | every thrown text begins with the message |
| NullthrowsObjectMap.PickRenamedDropsAbsent | src/__tests__/nullthrowsObjectMap_spec.ts:179-203 | `{foo: true, bar: 123, baz: null}` picked and renamed gives `{foozy: true, barzy: 123}` |
| NullthrowsArrayObjectMap.MapFrom | src/nullthrowsArrayObjectMap.ts:51 | when `Array.prototype.map` returns, the result has one entry per element, and entry k is what the callback returned for element k at index k |
| NullthrowsArrayObjectMap.MapFromOkIff | src/nullthrowsArrayObjectMap.ts:51 | the map returns exactly when the callback returns for every element |
| NullthrowsArrayObjectMap.MapFromStopsAt | src/nullthrowsArrayObjectMap.ts:51 | when the callback first throws at index k, the map throws that very error |
| NullthrowsArrayObjectMap.MapFromFailingPrefix | src/nullthrowsArrayObjectMap.ts:51 | once a prefix throws, appended elements are never examined |
| NullthrowsArrayObjectMap.MapElement | src/nullthrowsArrayObjectMap.ts:51-59 | when the per-element callback returns, its value is `mapFn(element)` |
| NullthrowsArrayObjectMap.MapElementOutcome | src/nullthrowsArrayObjectMap.ts:52-58 | an absent element throws its kind and index wrapped by the message; a present one has exactly the outcome of `nullthrowsObjectMap`, with no second wrap |
| NullthrowsArrayObjectMap.NullthrowsArrayObjectMap | src/nullthrowsArrayObjectMap.ts:38-60 | an absent input throws the bare absence text; a present non-array throws the non-array text, both wrapped; on success the input is an array and the result has its length, with entry k equal to `mapFn(element k)` |
| NullthrowsArrayObjectMap.MapFromMatchesFailure | src/nullthrowsArrayObjectMap.ts:51-59 | the element map returns exactly when no element fails in the reference; otherwise it throws the first failing element's reference text wrapped once |
| NullthrowsArrayObjectMap.ArrayMatchesFailure | src/nullthrowsArrayObjectMap.ts:44-59 | succeeds exactly when the reference failure is none; otherwise throws its text wrapped exactly once |
| NullthrowsArrayObjectMap.ArraySucceedsIff | src/nullthrowsArrayObjectMap.ts:44-59 | succeeds exactly when the input is an array whose elements are all present and mapped to records whose top-level values are all present |
| NullthrowsArrayObjectMap.FirstFailingElementReported | src/nullthrowsArrayObjectMap.ts:51-59 | when elements before k pass and element k fails, an absent element k reports its index, and a present one reports the unchanged error of `nullthrowsObjectMap` |
| NullthrowsArrayObjectMap.LaterElementsIgnored | src/nullthrowsArrayObjectMap.ts:51-59 | appending elements to an array that already fails does not change the error |
| NullthrowsArrayObjectMap.ArrayErrorCarriesMessage | src/nullthrowsArrayObjectMap.ts:44-55 | every thrown text begins with the message |
| NullthrowsArrayObjectMap.EmptyArraySucceeds | src/__tests__/nullthrowsArrayObjectMap_spec.ts:119-129 | `[]` gives `[]` for every `mapFn` and message |
| NullthrowsArrayObjectMap.NonArrayRefused | src/nullthrowsArrayObjectMap.ts:46-49 | a string and an object with a `length` property both throw `Found unexpected "non-array"` |
| NullthrowsArrayObjectMap.IndexErrorWithMessage | src/__tests__/nullthrowsArrayObjectMap_spec.ts:94-116 | `[{foo: true, bar: 123}, null]` with message "Error parsing asdfjkl" throws `Error parsing asdfjkl (Found unexpected "null" for array index: "1")` |
| NullthrowsArrayObjectMap.PickRenamedArray | src/__tests__/nullthrowsArrayObjectMap_spec.ts:248-281 | `[{foo: true, bar: 123, baz: null}]` picked and renamed gives `[{foozy: true, barzy: 123}]` |

## Left out

- Reference identity and fresh allocation are not modelled. The model is a value model, so "returns the same object" is stated as equality of values, and "returns a new array" is not expressible.
- TypeScript's compile-time typing is left out: `NonNullableMap`, `NonNullable`, optional `?:` properties, and `ReadonlyArray` returned as `Array`. It has no runtime behaviour.
- The order of `Object.entries` is taken as the order of the entry sequence given. The JavaScript rule that integer-like keys come first is not modelled.
- `Array.isArray` is a tag on the value (`Arr`). Exotic host objects, proxies and subclasses are not modelled.
- Sparse arrays are not modelled. Every array element exists, so the holes that `Array.prototype.map` skips cannot occur.
- Numbers are unbounded integers treated as opaque present values. `NaN` and floating point are not modelled, because no helper inspects a number.
- `mapFn` is a total pure function. Its side effects, and any exception it throws itself, are not modelled.
- Values.Entries: the entries of a string are per character, not per UTF-16 code unit. No helper depends on which characters a string holds.
- The test files, the `chai` assertions and the `idx` helper are not part of this model. Their scenarios are restated as lemmas in the table above.
