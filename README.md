# dynamic_converter in Dafny

A model of the type-directed converter in `dynamic_converter.hpp`. The converter
turns C++ values into folly::dynamic trees (`to_dynamic`) and trees back into C++
values (`from_dynamic`). It handles strings, integral numbers other than `bool`, floating-point numbers,
`std::vector`, `std::list`, `std::map` and `std::unordered_map` with string keys,
and classes that list their members in a `PROPERTIES` tuple.

- `dynamic.dfy` (module `Dynamic`) models the tree: its seven kinds, and the
  getters the converter uses. `getInt`/`getDouble` are strict. `asInt`/`asDouble`
  coerce; their conversions between kinds are a parameter (`Coercion`).
- `schema.dfy` (module `Schema`) stands in for the trait dispatch. It holds:
  - a closed datatype of the accepted types (`Ty`) and of their values (`Value`);
  - the property list of a class, in tuple order, with each member's initialiser;
  - the value of a default-constructed object (`Default`).
- `converter.dfy` (module `Converter`) holds the encoder and the decoder as
  functions of the whole input.
  - `Mode` picks the overload: the borrowing one (`const folly::dynamic&`) or the
    consuming one (`folly::dynamic&&`).
  - `Revision` picks the code as written, or the code with the two defects below
    corrected.
  - `FromDynamic` is `from_dynamic` as written.
- `converter_loops.dfy` (module `ConverterLoops`) holds the loops each container
  overload runs, as methods. Each is proved equal to the function it implements:
  - `push_back` and `emplace_back`;
  - `output[key] = …`;
  - `emplace`, which keeps an existing key;
  - the property-by-property `for_sequence`.
- `properties.dfy` (module `ConverterProperties`) holds the properties over all
  types and inputs:
  - which trees a consuming decode accepts;
  - what decoding an encoding yields;
  - the round trips;
  - the behaviour of the borrowing struct decode and of numeric decode.
- `demo.dfy` (module `Demo`) holds `Person2`, `Person` and the value `main`
  builds, with the round trip `main` performs and concrete inputs that show the
  two defects.

A decode starts from the object it writes into (`prior`), because the C++ code
decodes into existing objects:
- a sequence decode appends after the elements already there;
- a map decode leaves existing keys alone;
- a struct decode leaves skipped members as they were.

All exceptions are one outcome, `Thrown`. A type the C++ compiler would reject
cannot be written.

## Model

| member | source | states |
|---|---|---|
| Dynamic.GetInt | dynamic_converter.hpp:107-109 | getInt succeeds exactly on an integer payload and returns it |
| Dynamic.GetDouble | dynamic_converter.hpp:91-93 | getDouble succeeds exactly on a double payload and returns it |
| Dynamic.AsInt | dynamic_converter.hpp:104-106 | asInt returns an integer payload unchanged, a boolean as 0 or 1, and fails on null, array and object |
| Dynamic.AsDouble | dynamic_converter.hpp:88-90 | asDouble returns a double payload unchanged and fails on null, array and object |
| Schema.Default | dynamic_converter.hpp:292-297 | a default-constructed object has the type it is built for; every member of a struct holds its initialiser |
| Converter.Encode | dynamic_converter.hpp:64-110 | every value encodes to a tree of the matching kinds (Conforms), at every depth |
| Converter.EncodeItems | dynamic_converter.hpp:113-162 | a vector or list encodes to an array that conforms to the sequence type |
| Converter.EncodeEntries | dynamic_converter.hpp:177-224 | a string-keyed map encodes to an object that conforms to the map type |
| Converter.EncodeMembers | dynamic_converter.hpp:246-265 | a struct encodes to an object whose keys are exactly the property names, holding each member's encoding under its name |
| Converter.Decode | dynamic_converter.hpp:64-110 | a successful decode yields a value of the target type |
| Converter.DecodeItems | dynamic_converter.hpp:131-142 | a successful sequence decode yields a sequence of the element type |
| Converter.DecodeEntries | dynamic_converter.hpp:191-208 | a successful map decode yields a map of the value type |
| Converter.FieldStep | dynamic_converter.hpp:266-287 | one property of a struct decode, when it succeeds, yields a member of the property's type |
| Converter.DecodeMembers | dynamic_converter.hpp:266-287 | a successful struct decode yields a struct of the declared members |
| Converter.DecodeItemsOf | dynamic_converter.hpp:131-142 | when every item decodes to the given element, the sequence decode appends exactly those elements after the prior ones |
| Converter.DecodeEntriesOf | dynamic_converter.hpp:191-208 | when every value decodes to the given entry, the map decode yields those entries with the prior entries taking precedence |
| ConverterProperties.ConsumeStructMembers | dynamic_converter.hpp:277-287 | for every tree, the consuming struct decode succeeds exactly when the tree is an object (or there is no property) and every present key decodes. A member whose key is present is then decoded from that key's tree, and a member whose key is absent keeps its prior value |
| ConverterProperties.FromDynamicStruct | dynamic_converter.hpp:300-304 | from_dynamic through the consuming overload leaves every property with an absent key at its initialiser, and decodes every present key into the initialiser |
| Converter.FromDynamic | dynamic_converter.hpp:292-304 | from_dynamic decodes into a default-constructed object and, on success, yields a value of the type |
| ConverterLoops.EncodeSequence | dynamic_converter.hpp:115-130 | the push_back loop builds an array of the same length holding each element's encoding in order, equal to EncodeItems |
| ConverterLoops.EncodeMap | dynamic_converter.hpp:179-190 | the output[key] loop builds an object with exactly the map's keys, each holding its value's encoding, equal to EncodeEntries |
| ConverterLoops.EncodeStruct | dynamic_converter.hpp:248-256 | the per-property loop builds an object keyed by exactly the property names, each holding the member's encoding, equal to EncodeMembers |
| ConverterLoops.DecodeSequence | dynamic_converter.hpp:131-142 | the emplace_back/back() loop yields exactly DecodeItems: a throw as soon as an item fails, otherwise the prior elements followed by the decoded items |
| ConverterLoops.DecodeMap | dynamic_converter.hpp:191-208 | the emplace loop yields exactly DecodeEntries, whatever order the entries are visited in |
| ConverterLoops.EmplaceKeepsOrder | dynamic_converter.hpp:197 | emplace of a key the map may already hold keeps the map equal to the emplaced entries under the prior ones |
| ConverterLoops.DecodeStruct | dynamic_converter.hpp:266-287 | the per-property loop yields exactly DecodeMembers, in both modes and both revisions |
| ConverterProperties.ConsumeOkIffConforms | dynamic_converter.hpp:58-288 | a consuming decode succeeds if and only if the tree conforms to the type at every depth; absent and extra struct keys are allowed |
| ConverterProperties.ConsumeAcceptsEncoding | dynamic_converter.hpp:58-288 | a consuming decode of any encoding succeeds |
| ConverterProperties.DecodeEncoded | dynamic_converter.hpp:58-288 | decoding the encoding of v into prior succeeds in every mode and revision and yields Merge(prior, v), the reference definition on values |
| ConverterProperties.DecodeEncodedItems | dynamic_converter.hpp:131-142 | decoding an encoded sequence appends the merged elements after the prior ones |
| ConverterProperties.DecodeEncodedEntries | dynamic_converter.hpp:191-208 | decoding an encoded map adds the merged entries under the prior ones |
| ConverterProperties.DecodeEncodedMembers | dynamic_converter.hpp:266-287 | decoding an encoded struct merges member by member, except that the as-written borrowing decode leaves the struct unchanged |
| ConverterProperties.MergeFits | dynamic_converter.hpp:58-288 | when v fits prior, the merge of v into prior is v itself, for the consuming decode and for the corrected decoder |
| ConverterProperties.DefaultSettled | dynamic_converter.hpp:292-297 | with initialisers that hold no container content, a default-constructed object holds none either |
| ConverterProperties.SettledFits | dynamic_converter.hpp:292-297 | every value fits a settled prior object when the initialisers are clean and, for the as-written decoder, the type holds no numbers |
| ConverterProperties.RoundTrip | dynamic_converter.hpp:300-318 | from_dynamic(std::move(to_dynamic(x))) == x for all types without numbers whose initialisers hold no container content |
| ConverterProperties.CorrectedRoundTrip | dynamic_converter.hpp:58-288 | with both defects corrected, decoding an encoding into a default object gives the value back in both modes, numbers included |
| ConverterProperties.BorrowStructIgnoresInput | dynamic_converter.hpp:266-276 | the borrowing struct decode as written succeeds exactly when every property key is present, and then leaves every member unchanged |
| ConverterProperties.ScalarDecode | dynamic_converter.hpp:72-109 | as written, numeric decode leaves the target unchanged; the consuming overload accepts only the exact kind; string decode copies a string payload and throws otherwise |
| ConverterProperties.MapDecodeKeepsEntries | dynamic_converter.hpp:191-208 | after a map decode, every prior key keeps its value and the keys are exactly the prior keys and the object's keys |
| ConverterProperties.SequenceDecodeAppends | dynamic_converter.hpp:131-142 | after a sequence decode the prior elements are a prefix, and the length grew by the number of array items |
| Demo.Person2WellFormed | dynamic_converter.hpp:321-327 | Person2's properties have distinct names and initialisers of their own types |
| Demo.PersonWellFormed | dynamic_converter.hpp:329-336 | Person's properties have distinct names and initialisers of their own types, and main's p is a Person |
| Demo.RelativeFits | dynamic_converter.hpp:344-350 | father and mother keep age and money at their initialisers, so they fit a default Person2 |
| Demo.DemoFits | dynamic_converter.hpp:340-352 | main's p fits a default-constructed Person |
| Demo.DemoRoundTrip | dynamic_converter.hpp:353-360 | main's from_dynamic<Person>(std::move(d)) gives p back, so d2 equals d as first printed (output1) |
| Demo.Person2Decode | dynamic_converter.hpp:277-287 | a Person2 decode whose four property steps give the expected members yields exactly those members |
| Demo.MissingFieldKeepsDefault | dynamic_converter.hpp:277-287 | consuming {"name": "x"} into a Person2 gives name "x" with age, telphones and money at their initialisers |
| Demo.BorrowedNameOnlyThrows | dynamic_converter.hpp:266-276 | as written, the borrowing decode of {"name": "x"} into a Person2 throws at the absent key "age" |
| Demo.BorrowedDecodeDropsInput | dynamic_converter.hpp:266-276 | as written, the borrowing decode of main's document gives a default Person, not p; corrected, it gives p |
| Demo.AgeIsDropped | dynamic_converter.hpp:104-109 | as written, consuming {"age": 30} into a Person2 leaves age at 100; corrected, age becomes 30 |

## Left out

- folly::dynamic itself is not part of this model: its storage, iteration order, JSON printing (`folly::toJson`) and the console output of `main`. The tree is a datatype, and an object's entries are a map.
- asInt of a double or a string, and asDouble of an integer, a boolean or a string, go through folly::to. Those conversions are not modelled; they are the `Coercion` parameter. asInt of a boolean gives 0 or 1.
- Exceptions are not told apart. TypeError, std::out_of_range and conversion errors are all `Thrown`, because which one escapes a map decode depends on iteration order.
- Integer widths are not modelled. Integers are unbounded, so the narrowing of `int64_t` into `int` and overflow are not captured. Doubles are bit patterns that are never computed with.
- A scalar without an initialiser is indeterminate in C++ and is taken as zero here.
- The consuming decode leaves its input valid but unspecified. That moved-from state is not modelled, so output3 of `main` is not modelled.
- Copy and move `to` overloads give the same tree and are one function.
- Map keys are strings only. Key types that are decoded from other kinds are not modelled, and neither is a non-string object key (getString would throw).
- The template machinery is left out: `PropertyImpl`, `property`, the `PROPERTIES` macros, `remove_cvref`, `HAS_PROPERTIES` and `for_sequence`. The schema datatype replaces it.
- `bool` members are not modelled. `bool` is integral, so it takes the integral overloads. But folly stores it as a boolean, not an integer, so `getInt` throws on its own encoding. Modelling this would need a separate kind whose consuming round trip fails.
- Self-referential classes are not expressible. A schema is a finite tree.
- The model follows the code where its behaviour is surprising:
  - The code's struct decode does not overwrite present keys identically in both modes (see Findings).
  - The code's numeric decode does not assign at all (see Findings).
  - Decoding into a map that already holds a key keeps the old value (`emplace`), rather than taking the decoded one.
  - Decoding into a non-empty sequence appends after the existing elements.
- ConverterProperties.RoundTrip: stated only for types without numbers, because with the code as written a number survives the round trip only if it equals its initialiser (Demo.DemoRoundTrip shows such a case).

## Findings

| source | as written | input that shows it | evidently intended | confidence | as-written member | corrected member |
|---|---|---|---|---|---|---|
| dynamic_converter.hpp:88-109 | the integral and floating-point `from` overloads take their target by value (`T output`), so the assignment is lost and the member keeps its old value | consuming {"age": 30} into a Person2 leaves age at 100 | take the target by reference (`T& output`), so the member gets the decoded number | high, not executed | Demo.AgeIsDropped | ConverterProperties.CorrectedRoundTrip |
| dynamic_converter.hpp:271-274 | the borrowing struct `from` returns when the key is present (`count > 0`) and otherwise reads the absent key through const `operator[]` | decoding to_dynamic(p) through a const reference gives a default Person; {"name": "x"} throws | skip only absent keys (`count == 0`), as the consuming overload does | high, not executed | Demo.BorrowedDecodeDropsInput | ConverterProperties.CorrectedRoundTrip |
