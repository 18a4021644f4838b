# Typed attributes of spraypaint models, in Dafny

This project models the typed-attribute layer of the spraypaint model library
and proves properties of the model. It has two parts.

The first part is the **attribute type registry**. This is a mutable table from type names to coercion
strategies. It starts out with `date`, `shortDate` and `hash`. `add` inserts an entry or overwrites it. `get`
fails with `Could not find type '<t>' in the registry!`. Each strategy is a triple of operations:

- `serialize` (the write side);
- `serializeFilter` (query filters);
- `deserialize` (the read side).

The four strategies behave as follows:

- `BaseType` is the identity for all three operations.
- `HashType` sends an object filter as `encodeURIComponent(JSON.stringify(v))`.
- `DateType` serializes with `toISOString`. It parses a string by splitting it on every non-digit and handing
  the runs to `Date.UTC`.
- `ShortDateType` runs that parse, throws the result away and returns `"asdf"`.

The second part is the **Attribute descriptor**. Its constructor copies some of an options record.
`apply(ModelClass)` resolves a string type against the class's registry and installs an enumerable,
configurable accessor on the class's prototype. The accessor's `setter` stores values verbatim in an
instance's attribute map. Its `getter` looks the type up again on every read and passes the stored value
through that strategy's `deserialize`.

The built-ins the strategies call are modelled exactly enough to prove the round trips and the fixtures:

- the ECMA-262 day and time arithmetic (`DayFromYear`, `YearFromTime`, `MonthFromTime`, `MakeDay`,
  `MakeTime`, `MakeDate`, `TimeClip`, `MakeFullYear`, `Date.UTC`);
- the Date Time String Format of `toISOString`;
- `String.prototype.split(/\D/)`;
- ToNumber of digit strings, and ToInt32 (`| 0`);
- `JSON.stringify` over a small value type;
- `encodeURIComponent` with UTF-8 percent-escapes.

Four of them have a partner that inverts them, within the stated range:

- percent-decoding for `encodeURIComponent`;
- JSON string-literal unescaping for `JSON.stringify` on strings;
- the split parse for `toISOString`, for years 100..9999;
- the calendar fields of a time value (`Decompose`) for `MakeDate` of those fields, in both directions.

`split(/\D/)` is undone by rejoining with the separators. Decimal reading is the inverse of zero-padded
writing. ToInt32 has no inverse; its contract pins it down instead.

Files and modules:

| file | module | contents |
|---|---|---|
| `wrappers.dfy` | `Wrappers` | `Option`, `Result`, the thrown errors and their messages |
| `seqs.dfy` | `Seqs` | `FlatMap` over sequences, with its append lemma |
| `js_values.dfy` | `JsValues` | the JavaScript values, `typeof`, ToBoolean |
| `text.dfy` | `Text` | `split(/\D/)`, decimal reading and writing, ToInt32 |
| `dates.dfy` | `Dates` | day/time arithmetic, `Date.UTC`, `toISOString`, the split parse |
| `uri.dfy` | `Uri` | `encodeURIComponent` and percent-decoding |
| `json.dfy` | `Json` | `JSON.stringify` and string-literal unescaping |
| `attribute_type_registry.dfy` | `TypeRegistry` | the strategies and the `Registry` class |
| `fixtures.dfy` | `RegistryFixtures` | the concrete cases of the unit tests |
| `attribute.dfy` | `Attributes` | `Attribute`, `attr`, model classes and instances |

Representations and assumptions:

- A time value is an integer number of milliseconds, and NaN is `None`. An Invalid Date is its own `JsValue`.
- An object value keeps its properties in order, because `JSON.stringify` emits them in that order.
- The prototype of a model class is a map from property keys to accessor descriptors.
- A prototype chain is a sequence of such maps, the nearest one first.
- The source's `getter` reads `context.attributes`. That is the instance's public view of the same
  `_attributes` map the setter writes, so both are one field here.
- In these places the model follows the code rather than what the names suggest:
  - The constructor copies `name` and `type` only when they are *truthy*, not whenever they are given. An
    empty string leaves the default in place.
  - `_typecast` looks up `String(this.type)` in the registry on every read, even when the type is a
    function. It does not use the `typeClass` that `apply` resolved. An untyped attribute therefore looks
    up the key `"undefined"`.
  - The millisecond field of the date parse is split position 6. It is not a fractional-seconds field. For
    `"...-08:00"` it is the offset's hour.

## Model

| member | source | states |
|---|---|---|
| TypeRegistry.Serialize | src/attribute-type-registry.ts:3-29 | BaseType and HashType return the value. The date strategies succeed exactly on a Date with a valid time value and give its ISO string. An Invalid Date is a RangeError. Any other value is a TypeError, of its own kind for undefined and null, which have no properties to read |
| TypeRegistry.SerializeFilter | src/attribute-type-registry.ts:18-23 | for HashType and a value whose typeof is "object", the result is a string of unreserved characters and `%`, and it percent-decodes to the UTF-8 bytes of the value's JSON text. Every other tag or value is returned unchanged |
| TypeRegistry.DateDeserialize | src/attribute-type-registry.ts:31-38 | a non-string comes back as it is. A string becomes a Date exactly when the split parse gives a number, and that number is its valid time value. Otherwise it becomes an Invalid Date |
| TypeRegistry.Deserialize | src/attribute-type-registry.ts:3-47 | identity for BaseType and HashType, the split parse for DateType, and "asdf" for every input under ShortDateType |
| TypeRegistry.DateRoundTrip | src/attribute-type-registry.ts:27-37 | a Date of a year 100..9999 serializes and then deserializes to the same Date |
| TypeRegistry.DateDeserializeKeepsDate | src/attribute-type-registry.ts:31-37 | deserializing a Date, valid or not, gives the same Date |
| TypeRegistry.HashPassesThrough | src/attribute-type-registry.ts:3-15 | HashType's serialize and deserialize are the identity for every value |
| TypeRegistry.HashFilterOfObject | src/attribute-type-registry.ts:18-23 | the filter of a value whose typeof is "object" (null, an object, an array or a date) is exactly `encodeURIComponent` of its JSON text |
| TypeRegistry.Registry.constructor | src/attribute-type-registry.ts:55-61 | a new registry has exactly the keys date, shortDate and hash, mapped to their strategies |
| TypeRegistry.Registry.Add | src/attribute-type-registry.ts:63-65 | the table becomes the old table with the entry set or overwritten. `get` of that name then gives the new strategy, and every other name resolves as before |
| TypeRegistry.Registry.Get | src/attribute-type-registry.ts:67-73 | succeeds exactly for names in the table, with their entry. Otherwise it fails with TypeNotFound of that name. The table is only read |
| Wrappers.Message | src/attribute-type-registry.ts:70 | the message of a missing type is `Could not find type '<t>' in the registry!`, and the name can be read back out of it. The TypeError and RangeError texts are V8's |
| Wrappers.MessageNamesType | src/attribute-type-registry.ts:70 | two missing-type messages are equal only for the same type name |
| JsValues.TypeOf | src/attribute-type-registry.ts:19 | `typeof` is "object" exactly for null, objects, arrays and Dates, "string" exactly for strings and "undefined" exactly for undefined |
| JsValues.Truthy | src/attribute.ts:53-54 | the falsy values are exactly undefined, null, false, 0 and the empty string. Every object is truthy |
| TypeRegistry.MissingTypeMessage | src/attribute-type-registry.ts:67-71 | the failure's message is `Could not find type '<t>' in the registry!` with the missing name |
| TypeRegistry.GetAsWritten | src/attribute-type-registry.ts:67-73 | the property read `all[type]` also finds the members that every object inherits from Object.prototype |
| TypeRegistry.GetAsWrittenFindsToString | src/attribute-type-registry.ts:67-72 | on a new registry the written `get` reports "toString" as found, though it is not in the table |
| TypeRegistry.GetAsWrittenAgrees | src/attribute-type-registry.ts:67-72 | the written and the corrected lookup agree on every name that is not an Object.prototype member |
| RegistryFixtures.HashFilterObject | test/unit/model-attributes.test.ts:206-213 | the filter of {foo: "bar"} is `%7B%22foo%22%3A%22bar%22%7D` |
| RegistryFixtures.HashFilterString | test/unit/model-attributes.test.ts:215-220 | the filter of the string "json" is "json" |
| RegistryFixtures.SerializeDateFixture | test/unit/model-attributes.test.ts:226-233 | Feb 28 2013 12:00 at eight hours behind UTC serializes as `2013-02-28T20:00:00.000Z` |
| RegistryFixtures.DeserializeDateFixture | test/unit/model-attributes.test.ts:238-247 | `"2018-01-06T16:36:00-08:00"` parses to the Date 2018-01-06 16:36:00.008 UTC, whose ISO string is `2018-01-06T16:36:00.008Z` |
| Text.SplitNonDigits | src/attribute-type-registry.ts:33 | `split(/\D/)` gives one more part than there are non-digits, and every part is made of digits |
| Text.SplitRejoin | src/attribute-type-registry.ts:33 | the parts of the split, joined with the non-digits between them, rebuild the input |
| Text.SplitRejoinRuns | src/attribute-type-registry.ts:33 | digit runs joined by non-digit separators split back into exactly those runs |
| Text.DecimalValueOfDigits | src/attribute-type-registry.ts:34 | ToNumber of a zero-padded rendering of n in w digits is n, when n < 10^w |
| Text.ToInt32 | src/attribute-type-registry.ts:34 | `x \| 0` lies in [-2^31, 2^31), is congruent to x modulo 2^32, and is x for 0 <= x < 2^31 |
| Dates.DayFromYearClosedForm | src/attribute-type-registry.ts:34 | counting year by year from 1970 gives the standard's DayFromYear formula with floor divisions |
| Dates.YearFromDayUnique | src/attribute-type-registry.ts:28 | YearFromTime of a day is the only year whose span holds that day |
| Dates.MonthsEqual | src/attribute-type-registry.ts:28 | only one month of a year holds a given day of the year |
| Dates.TimeClip | src/attribute-type-registry.ts:34 | TimeClip gives a number exactly for magnitudes up to 8.64e15 ms, and that number is unchanged |
| Dates.ComposeDecompose | src/attribute-type-registry.ts:28-34 | MakeDate(MakeDay, MakeTime) of the calendar fields of any time value gives the time value back |
| Dates.DecomposeCompose | src/attribute-type-registry.ts:28-34 | the calendar fields of the instant named by fields in their normal ranges are those fields |
| Dates.ComposeValid | src/attribute-type-registry.ts:34 | every date of a year 0..9999, in its normal ranges, lies in the range of time values |
| Dates.DateUTC | src/attribute-type-registry.ts:34 | a NaN argument gives NaN. With every argument a number, the result is a number exactly when the instant of the arguments lies in the time range. Any result is a valid time value: the instant of the arguments, whose calendar fields are those arguments when they are in their normal ranges. A year 0..99 counts as 1900..1999 |
| Dates.IsoString | src/attribute-type-registry.ts:28 | toISOString writes the calendar fields of the time value as YYYY-MM-DDTHH:mm:ss.sssZ, each field zero-padded and the month one-based |
| Dates.ParseBySplit | src/attribute-type-registry.ts:33-34 | a string with fewer than five non-digits parses to NaN, and every number the parse gives is a valid time value |
| Dates.ParseParts | src/attribute-type-registry.ts:34 | a missing position up to 5 gives NaN. Otherwise it is Date.UTC of the positions' numbers, with the month one lower and `b[6] \| 0`: ToInt32 of position 6, or 0 when it is absent |
| Dates.IsoLayout | src/attribute-type-registry.ts:28 | toISOString writes YYYY-MM-DDTHH:mm:ss.sssZ, each field zero-padded and the month one-based |
| Dates.SplitFormat | src/attribute-type-registry.ts:33 | the ISO string of a year 0..9999 splits into its eight digit runs, the last one empty |
| Dates.ParseFormat | src/attribute-type-registry.ts:33-34 | the split parse of such an ISO string is Date.UTC of its fields, read back exactly. The one exception is the year, which goes through MakeFullYear |
| Dates.IsoRoundTrip | src/attribute-type-registry.ts:27-37 | parsing the ISO string of a time value of a year 100..9999 gives the same time value |
| Dates.TwoDigitYearShift | src/attribute-type-registry.ts:34 | for a year 0..99 the round trip fails: the parse gives a later instant or NaN |
| Dates.LaterHours | src/attribute-type-registry.ts:34 | moving the hour field n hours later moves the instant by n hours |
| Uri.EncodeURIComponent | src/attribute-type-registry.ts:20 | the output holds only unreserved characters and the `%` of escapes |
| Uri.DecodeEncode | src/attribute-type-registry.ts:20 | percent-decoding encodeURIComponent's output gives the UTF-8 bytes of the input |
| Uri.EncodeAppend | src/attribute-type-registry.ts:20 | encoding works character by character, so it distributes over concatenation |
| Uri.EncodeUnreserved | src/attribute-type-registry.ts:20 | a string of unreserved characters is left as it is |
| Json.Stringify | src/attribute-type-registry.ts:20 | JSON.stringify gives a text for every value except undefined |
| Json.Quote | src/attribute-type-registry.ts:20 | the literal is between double quotes, has at least the input's length inside, and is the input itself, quoted, when it has nothing to escape |
| Json.UnquoteQuote | src/attribute-type-registry.ts:20 | reading back the string literal QuoteJSONString writes, with Json.Unquote, gives the string |
| Json.EscapePlain | src/attribute-type-registry.ts:20 | a string with no quote, backslash or control character is written without escapes |
| Json.StringifyString | src/attribute-type-registry.ts:20 | a string value's JSON text reads back as the same string |
| Attributes.SettingsOf | src/attribute.ts:40-56 | with no options the defaults apply. Otherwise name and type are taken exactly when truthy, and persist is the boolean of the option unless that option is undefined |
| Attributes.EmptyOptionsAreDefaults | src/attribute.ts:40-56 | options with no truthy name, no type and no persist leave the defaults: no name, no type, persisted |
| Attributes.Attribute.constructor | src/attribute.ts:32-56 | the attribute's name, type and persist are SettingsOf its options. It is not a relationship and has no typeClass |
| Attributes.Attr | src/attribute.ts:14-20 | `attr` builds a fresh Attribute from the options, or from {} when there are none |
| Attributes.AttrWithoutOptions | src/attribute.ts:14-20 | attr() and attr({}) give the same settings as the defaults |
| Attributes.Key | src/attribute.ts:68 | the property key is the name, or "undefined" for an attribute without one |
| Attributes.TypeKey | src/attribute.ts:83 | the registry key of `_typecast` is String(type): the name, the function's source text, or "undefined" |
| Attributes.Attribute.Descriptor | src/attribute.ts:92-106 | the descriptor is enumerable and configurable and forwards to this attribute |
| Attributes.Attribute.Apply | src/attribute.ts:58-69 | an unregistered string type fails with TypeNotFound of that name, and then typeClass and the prototype are unchanged. A registered one sets typeClass to its entry. Apart from that failure, the accessor is installed under the key and the rest of the prototype is unchanged |
| Attributes.Attribute.Setter | src/attribute.ts:72-75 | the value is stored verbatim under the attribute's key. Every other key keeps its presence and value |
| Attributes.Attribute.Getter | src/attribute.ts:78-80 | a read gives the stored value through the deserialize of the strategy registered under the type key at read time, or the stored value itself when none is registered there |
| Attributes.Attribute.Raw | src/attribute.ts:79 | the raw value is the stored value, or undefined for a key never set |
| Attributes.Attribute.Typecast | src/attribute.ts:82-89 | a strategy found under the type key at read time deserializes the value. With none found, the value is returned as it is |
| Attributes.UntypedReadIsRaw | src/attribute.ts:78-89 | with no type, and no type registered as "undefined", a read returns exactly the stored value |
| Attributes.TypedReadDeserializes | src/attribute.ts:78-89 | with a registered string type, a read returns that strategy's deserialize of the stored value |
| Attributes.Resolve | src/attribute.ts:68 | a property lookup through a prototype chain finds a key exactly when some prototype on the chain holds it |
| Attributes.SubclassSeesAccessor | src/attribute.ts:68 | the accessor is defined on the base class's prototype, so a property read on an instance of a subclass, which walks the prototype chain as JavaScript's [[Get]] does, finds that accessor when no nearer prototype defines the key |

## Left out

- `console.log(date)` in ShortDateType.deserialize is output only and is left out. The unused `ApplicationRecord` import is left out too.
- The unused helpers `assertType`, `getType`, `isType` and `isPlainObject` (src/attribute.ts:109-183) are left out. They rely on `Function.prototype.toString` and runtime reflection.
- The compile-time type aliases of src/attribute.ts:4-30 have no behaviour. `Options` follows their shape: `name` is a string or absent, and `type` is a string or a function known by its source text.
- `Object.defineProperty` is modelled as setting an entry of the prototype map. Its TypeError on redefining a non-configurable property cannot arise here, because every accessor it installs is configurable.
- The `owner` field is declared but never assigned in the modelled code, so it is not modelled.
- Code in model.ts, the write-payload serializer and the scope and query layer is not part of this model. That code also does key camelizing, the strict-attribute policy, the own accessor properties that model.ts defines on each instance (the ones `Object.keys` lists), and writing `filter[...]=` query strings.
- TypeRegistry.Registry.Add: the source's `add` accepts any value. The model stores only the four strategies, so registering a falsy value, which `get` then reports as missing, is not modelled. Nor is `add("__proto__", k)`: in the source, `this.all["__proto__"] = k` replaces the prototype of `all` with k, when k is an object, instead of adding an entry. So `get("__proto__")` then finds no own entry, and the written lookup finds k's own and inherited members: after `add("__proto__", new DateType())`, `get("serialize")` returns DateType's serialize method. The model stores `"__proto__"` as an ordinary entry, and TypeRegistry.GetAsWritten keeps Object.prototype as the prototype of `all`.
- Dates: time values are integers. Fractional and non-finite Numbers are not modelled, and neither are the ToIntegerOrInfinity conversions of Date.UTC.
- Text.DecimalValue is exact, whereas ToNumber of a digit string longer than 15 digits rounds to the nearest double.
- Json.IntString writes every integer in plain decimal. JSON.stringify switches to exponent notation from 1e21 upwards.
- `toJSON` methods other than Date's are left out. So are cyclic values, symbols and functions, and `-0`.
- JSON.parse of whole values is left out. Only the string-literal partner, Json.Unquote, is given. It reads the escapes Quote produces and rejects surrogate escapes such as `\uD83D\uDE00`, which JSON.parse joins into one character.
- Strings are sequences of Unicode scalar values. A lone surrogate cannot occur, so the URIError that encodeURIComponent raises for one does not arise. The UTF-16 view does matter to the split of the date parse; see the next line.
- Text.SplitNonDigits: splits on scalar values. JavaScript's `/\D/` has no `u` flag, so it matches single UTF-16 code units. A character outside the Basic Multilingual Plane therefore counts as two separators and adds an empty part: `"1\u{1F600}2".split(/\D/)` is `["1", "", "2"]`, and the model gives `["1", "2"]`. This carries into TypeRegistry.DateDeserialize. After such a character, every later component moves up one position in the source and not in the model. For example, `"2018\u{1F600}01-06T00:00:00"` is 2017-12-01T06:00Z in the source and 2018-01-06T00:00Z in the model.
- Attributes.Attribute.Raw: reads only the keys the setter stored. The source reads `context.attributes[this.name]` on a plain object, so for an unset attribute named after an Object.prototype member, such as "constructor" or "valueOf", it returns the inherited member instead of undefined. This is the same inherited-member read as in the Findings row.
- Attributes.Attribute.Setter: stores under `"__proto__"` like any other key, whereas the source's assignment `privateContext._attributes[this.name] = val` (src/attribute.ts:73) with that name replaces the map's prototype when the value is an object or null, and is ignored otherwise. Either way no own entry is stored.
- JsValues.Obj: can hold a repeated key, which no JavaScript object has. The contracts of Json.Stringify and TypeRegistry.SerializeFilter hold for those values too, so they cover more inputs, not fewer.
- Wrappers.Message: the TypeError and RangeError texts are those of the V8 engine; other engines word them differently.
- Parsing "Feb 28 2013 12:00:00 PST" with the Date constructor is left out. The fixture takes the instant it names: Date.UTC of those fields plus eight hours.
- The current time behind `new Date()` (test/unit/model-attributes.test.ts:252) is not modelled. DateDeserializeKeepsDate covers every Date instead.
- Dates.IsoRoundTrip: holds only for years 100..9999. Date.UTC's MakeFullYear reads years 0..99 as 1900..1999, so their round trip fails, as TwoDigitYearShift shows. Other years render with a sign and six digits, which the split parse does not read back.
- Attributes.Attribute.Apply: uses the corrected lookup of Registry.Get. The written `all[this.type]` read at src/attribute.ts:60 also finds the Object.prototype members, as the Findings row describes.
- Attributes.Attribute.Typecast: uses the same corrected lookup. The written `all[...]` read at src/attribute.ts:83 also finds the Object.prototype members.

## Findings

| source | as written | input that shows it | evidently intended | confidence | as-written member | corrected member |
|---|---|---|---|---|---|---|
| src/attribute-type-registry.ts:67-72 | `get` reads `this.all[type]` on a plain object, so the members inherited from Object.prototype pass the `!found` test. `apply` (src/attribute.ts:60) and `_typecast` (src/attribute.ts:83) read `all` the same way | `get("toString")` on a new registry returns a function instead of throwing | only registered types are found, and any other name fails with `Could not find type '<t>' in the registry!` | not executed; medium | TypeRegistry.GetAsWritten | TypeRegistry.Registry.Get |
