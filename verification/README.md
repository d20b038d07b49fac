# json-lite in Dafny

A model of the core of json-lite, a small Java library that turns Java objects into JSON trees and back. It covers both packages of the library: the current `io` package and the older `com` one.

What is modelled:
- **Building a tree.** `Json.toJson` dispatches on the kind of a value and builds a tree of `JsonEntry` nodes: null, boolean, number, string, enum, date family, collection and object nodes. Every node kind has a default name.
- **Changing a tree.** The children of the two container nodes change in place: `addChild` (an object merges same-named object children), `addChildren`, `getChild`, `removeChild`, `isChildPresent`, `childrenSize`, `clone`.
- **Reading a tree back.** `toJavaObject` and `toJavaCollection` read a tree back into Java values. This covers the number-width conversion matrix, string parsing, enum lookup, and the field-by-field filling of a new instance through `@JsonField` reading names. The older `com` package's loop is modelled too, including the shared `JsonFormatInfo` that each `@JsonPattern` is merged into.
- **Rendering.** The compact (`toString`) and indented (`toPrettyString`) forms.
- **Annotation converters.** The three converters turn `@JsonField` / `@JsonPattern` into the descriptors `JsonFieldInfo` / `JsonPatternInfo`, with their precedence rules.
- **Named-profile serializer.** `JsonSerializerImpl` picks a profile by name and walks each dotted field path through getters, building nested objects. `Json.serialize`, `prettySerialize` and `fromSerializer` swallow one exception each.
- **The `com` base class.** `JsonEntry` is modelled as a class with its fields and defaults.

How the model represents Java:
- Java `null` is `Option.None` or the `NNull` value.
- Exceptions are `Result.Err` with a `Fault`: `JsonException`, `NullPointer` or `IndexOutOfBounds`.
- Reflection is replaced by a class declaration. It lists the fields in order with their types, modifiers, getters and annotations. An object is that declaration plus its field values.
- Fixed-width Java integers are unbounded integers. Narrowing casts are written out as two's-complement wrap-around (`Numbers.Narrow`).
- The platform services the library calls but does not define are fields of an `Env` parameter:
  - `Util.toLocale` and `Util.toTimeZone`;
  - the serialization-side pattern converter;
  - date formatting, conversion and parsing.
- The line separator and the tab of the pretty form are parameters.

Modules, one per file:
- `Wrappers`: `Option` and `Result`.
- `JsonText`: tokens, default names, Java `trim`, dot splitting, first-letter case.
- `Numbers`: widths, narrowing, the conversion matrix, integer and decimal text.
- `Descriptors`: `JsonFormatInfo`, `JsonPatternInfo` and `JsonFieldInfo` as classes.
- `Natives`: Java values, classes, annotations and `Env`.
- `Converters`: the annotation converters.
- `Tree`: nodes and the child operations as functions.
- `Construct`: `toJson`.
- `Extract`: `toJavaObject` and `toJavaCollection`.
- `Render`: `toString` and `toPrettyString`.
- `Nodes`: `JsonObject` and `JsonCollection` as classes whose methods update the children in place.
- `Legacy`: the `com` `Json.toJavaObject` loop.
- `Profiles`: the serializer.
- `Entries`: the `com` `JsonEntry` class.

## Model

| member | source | states |
|---|---|---|
| JsonText.DefaultNamesDistinct | src/main/java/io/github/gabrielgp0811/jsonlite/constants/JsonStrings.java:78-128 | there are eleven default node names and no two are equal |
| JsonText.LineSeparator | src/main/java/io/github/gabrielgp0811/jsonlite/constants/JsonStrings.java:68 | the separator is the `line.separator` property when set, otherwise "\n" |
| JsonText.BlankIffAllSpace | src/main/java/io/github/gabrielgp0811/jsonlite/serializer/impl/JsonSerializerImpl.java:74 | `trim().isEmpty()` holds exactly when every character is at most U+0020 |
| JsonText.RawSplitJoin | src/main/java/io/github/gabrielgp0811/jsonlite/serializer/impl/JsonSerializerImpl.java:96-97 | joining the dot-separated pieces with dots gives the string back |
| JsonText.DropTrailingEmpty | src/main/java/io/github/gabrielgp0811/jsonlite/serializer/impl/JsonSerializerImpl.java:96-97 | `split` keeps a prefix of the raw pieces that does not end in an empty piece, and every piece it drops is empty |
| JsonText.SplitDot | src/main/java/io/github/gabrielgp0811/jsonlite/serializer/impl/JsonSerializerImpl.java:96-97 | no piece of `split("[.]")` contains a dot |
| JsonText.SplitDotJoin | src/main/java/io/github/gabrielgp0811/jsonlite/serializer/impl/JsonSerializerImpl.java:96-97 | a path that does not end in a dot splits into pieces that join back to it |
| JsonText.Capitalize | src/main/java/io/github/gabrielgp0811/jsonlite/serializer/impl/JsonSerializerImpl.java:197 | only the first letter is upper-cased; the rest is kept |
| JsonText.Decapitalize | src/main/java/io/github/gabrielgp0811/jsonlite/Json.java:225 | only the first letter is lower-cased; the rest is kept |
| JsonText.DecapitalizeCapitalize | src/main/java/io/github/gabrielgp0811/jsonlite/Json.java:225 | lower-casing undoes upper-casing on a name that starts lower-case |
| Numbers.Narrow | src/main/java/io/github/gabrielgp0811/jsonlite/impl/JsonNumber.java:138-156 | a narrowing cast always yields a value in the target width's range |
| Numbers.NarrowFits | src/main/java/io/github/gabrielgp0811/jsonlite/impl/JsonNumber.java:118-136 | a value already in range survives a cast unchanged |
| Numbers.NarrowResidue | src/main/java/io/github/gabrielgp0811/jsonlite/impl/JsonNumber.java:138-156 | a cast depends only on the value modulo 2^bits |
| Numbers.NarrowIntOffset | src/main/java/io/github/gabrielgp0811/jsonlite/impl/JsonNumber.java:178-196 | `intValue()` moves a value by a multiple of 2^32 |
| Numbers.NarrowThroughInt | src/main/java/io/github/gabrielgp0811/jsonlite/impl/JsonNumber.java:258-264 | casting to int first and then to a narrower width is the same as casting directly |
| Numbers.QuotientTowardZeroBounds | src/main/java/io/github/gabrielgp0811/jsonlite/impl/JsonNumber.java:267-268 | `toBigInteger` truncates toward zero: the result times the divisor lies within one divisor of the value, on the zero side |
| Numbers.IntegerPartExact | src/main/java/io/github/gabrielgp0811/jsonlite/impl/JsonNumber.java:267-268 | a BigDecimal of scale zero or below converts to an integer exactly |
| Numbers.Convert | src/main/java/io/github/gabrielgp0811/jsonlite/impl/JsonNumber.java:118-276 | the result has the requested class; a BigDecimal asked for BigDecimal is itself; an integral value made BigDecimal has scale 0 |
| Numbers.ConvertValid | src/main/java/io/github/gabrielgp0811/jsonlite/impl/JsonNumber.java:118-276 | every conversion yields a value of its class's range |
| Numbers.ConvertSameClass | src/main/java/io/github/gabrielgp0811/jsonlite/impl/JsonNumber.java:118-276 | asking for a number's own class gives the number back |
| Numbers.ConvertIntegral | src/main/java/io/github/gabrielgp0811/jsonlite/impl/JsonNumber.java:118-216 | integral to integral is the two's-complement cast to the target width |
| Numbers.ConvertWidening | src/main/java/io/github/gabrielgp0811/jsonlite/impl/JsonNumber.java:118-216 | a target that holds the value receives it unchanged |
| Numbers.ConvertToDecimal | src/main/java/io/github/gabrielgp0811/jsonlite/impl/JsonNumber.java:133-134 | integral to BigDecimal goes through `intValue()`: exact below long, narrowed to int for a long |
| Numbers.LongToDecimalLosesHighBits | src/main/java/io/github/gabrielgp0811/jsonlite/impl/JsonNumber.java:193-194 | the long 2^32+1 becomes the BigDecimal 1 |
| Numbers.ConvertFromDecimal | src/main/java/io/github/gabrielgp0811/jsonlite/impl/JsonNumber.java:258-268 | BigDecimal to an integral class: the integer part, then narrowed |
| Numbers.NatText | src/main/java/io/github/gabrielgp0811/jsonlite/impl/JsonNumber.java:339 | decimal digits without leading zeros |
| Numbers.NatTextValue | src/main/java/io/github/gabrielgp0811/jsonlite/impl/JsonNumber.java:339 | the printed digits denote the number |
| Numbers.ParseInt | src/main/java/io/github/gabrielgp0811/jsonlite/impl/JsonString.java:122-140 | empty text never parses |
| Numbers.ParseIntText | src/main/java/io/github/gabrielgp0811/jsonlite/impl/JsonString.java:122-140 | parsing the printed form of an integer gives it back |
| Numbers.ParseDigitsText | src/main/java/io/github/gabrielgp0811/jsonlite/impl/JsonString.java:122-140 | a digit run parses to its value, and negated after a minus sign |
| Numbers.ParseIntegral | src/main/java/io/github/gabrielgp0811/jsonlite/impl/JsonString.java:122-140 | `Byte/Short/Integer/Long.valueOf`, `new BigInteger`: succeeds exactly when the text is an integer written in ASCII digits in the width's range, giving that width |
| Numbers.ParseIntegralText | src/main/java/io/github/gabrielgp0811/jsonlite/impl/JsonString.java:122-140 | printed then parsed at its own width gives the number back |
| Numbers.DecimalTextScaleZero | src/main/java/io/github/gabrielgp0811/jsonlite/impl/JsonNumber.java:339 | a BigDecimal of scale zero prints as its integer |
| Numbers.ParseDecimal | src/main/java/io/github/gabrielgp0811/jsonlite/impl/JsonString.java:150-152 | `new BigDecimal(text)` yields a valid BigDecimal when it succeeds |
| Numbers.ParseDecimalOfIntText | src/main/java/io/github/gabrielgp0811/jsonlite/impl/JsonString.java:150-152 | integer text reads as a BigDecimal of scale zero with that value |
| Descriptors.PatternRead | src/main/java/io/github/gabrielgp0811/jsonlite/util/JsonFormatInfo.java:47-52 | reading replaces only a null pattern, by "" |
| Descriptors.PatternReadIdempotent | src/main/java/io/github/gabrielgp0811/jsonlite/util/JsonFormatInfo.java:47-52 | a second read changes nothing more |
| Descriptors.FormatInfo.constructor | src/main/java/io/github/gabrielgp0811/jsonlite/util/JsonFormatInfo.java:29-31 | every part unset |
| Descriptors.FormatInfo.Of | src/main/java/io/github/gabrielgp0811/jsonlite/util/JsonFormatInfo.java:38-42 | each part stored as given |
| Descriptors.FormatInfo.GetPattern | src/main/java/io/github/gabrielgp0811/jsonlite/util/JsonFormatInfo.java:47-52 | returns the pattern, "" for null, and stores "" in the field; nothing else changes |
| Descriptors.FormatInfo.SetPattern | src/main/java/io/github/gabrielgp0811/jsonlite/util/JsonFormatInfo.java:57-59 | only the pattern changes |
| Descriptors.FormatInfo.SetLocale | src/main/java/io/github/gabrielgp0811/jsonlite/util/JsonFormatInfo.java:71-73 | only the locale changes |
| Descriptors.FormatInfo.SetTimezone | src/main/java/io/github/gabrielgp0811/jsonlite/util/JsonFormatInfo.java:85-87 | only the time zone changes |
| Descriptors.PatternInfo.constructor | src/main/java/io/github/gabrielgp0811/jsonlite/util/JsonPatternInfo.java:26-27 | every part unset |
| Descriptors.PatternInfo.Of | src/main/java/io/github/gabrielgp0811/jsonlite/util/JsonPatternInfo.java:29-33 | each part stored as given |
| Descriptors.PatternInfo.GetPattern | src/main/java/io/github/gabrielgp0811/jsonlite/util/JsonPatternInfo.java:35-37 | the stored pattern, null kept (no normalisation) |
| Descriptors.PatternInfo.SetPattern | src/main/java/io/github/gabrielgp0811/jsonlite/util/JsonPatternInfo.java:39-41 | only the pattern changes |
| Descriptors.PatternInfo.SetLocale | src/main/java/io/github/gabrielgp0811/jsonlite/util/JsonPatternInfo.java:47-49 | only the locale changes |
| Descriptors.PatternInfo.SetTimezone | src/main/java/io/github/gabrielgp0811/jsonlite/util/JsonPatternInfo.java:55-57 | only the time zone changes |
| Descriptors.FieldInfo.constructor | src/main/java/io/github/gabrielgp0811/jsonlite/util/JsonFieldInfo.java:17-35 | every part null |
| Descriptors.FieldInfo.All | src/main/java/io/github/gabrielgp0811/jsonlite/util/JsonFieldInfo.java:18-35 | all four parts stored in declaration order |
| Descriptors.FieldInfo.WithNames | src/main/java/io/github/gabrielgp0811/jsonlite/util/JsonFieldInfo.java:50-55 | name, custom names and pattern stored, serializer name "" |
| Descriptors.FieldInfo.Named | src/main/java/io/github/gabrielgp0811/jsonlite/util/JsonFieldInfo.java:41-43 | no custom names, serializer name "" |
| Descriptors.FieldInfo.SetName | src/main/java/io/github/gabrielgp0811/jsonlite/util/JsonFieldInfo.java:20-29 | only the name changes |
| Descriptors.FieldInfo.SetCustomNames | src/main/java/io/github/gabrielgp0811/jsonlite/util/JsonFieldInfo.java:20-31 | only the custom names change |
| Descriptors.FieldInfo.SetSerializerName | src/main/java/io/github/gabrielgp0811/jsonlite/util/JsonFieldInfo.java:20-33 | only the serializer name changes |
| Descriptors.FieldInfo.SetPatternInfo | src/main/java/io/github/gabrielgp0811/jsonlite/util/JsonFieldInfo.java:20-35 | only the pattern descriptor changes |
| Natives.ClassOf | src/main/java/io/github/gabrielgp0811/jsonlite/Json.java:183-229 | the class of a value is the target its kind is read back as (numbers their own numeric class, objects their declaration) |
| Converters.FirstNonBlank | src/main/java/io/github/gabrielgp0811/jsonlite/converter/impl/JsonFieldInfoSerializationConverter.java:33-45 | none exactly when every candidate is blank; otherwise the first non-blank candidate, untrimmed |
| Converters.WriterNamePrecedence | src/main/java/io/github/gabrielgp0811/jsonlite/converter/impl/JsonFieldInfoSerializationConverter.java:33-45 | `customNameSerialization`, else `customName`, else `value`, else none |
| Converters.SerializationDescriptor | src/main/java/io/github/gabrielgp0811/jsonlite/converter/impl/JsonFieldInfoSerializationConverter.java:28-55 | null input or three blank names raise JsonException; otherwise the name is `value`, the single custom name is the winner, and the serializer name and converted pattern are kept |
| Converters.ReaderNames | src/main/java/io/github/gabrielgp0811/jsonlite/converter/impl/JsonFieldInfoDeserializationConverter.java:37-45 | the listed aliases come first, unchanged, followed by at most two more |
| Converters.Present | src/main/java/io/github/gabrielgp0811/jsonlite/converter/impl/JsonFieldInfoDeserializationConverter.java:39-45 | a name is added exactly when it is not blank |
| Converters.ReaderNamesOrder | src/main/java/io/github/gabrielgp0811/jsonlite/converter/impl/JsonFieldInfoDeserializationConverter.java:37-45 | after the aliases come `customName` then `value`, each only if not blank |
| Converters.DeserializationPattern | src/main/java/io/github/gabrielgp0811/jsonlite/converter/impl/JsonPatternInfoDeserializationConverter.java:31-46 | null raises JsonException; otherwise `deserializePattern` unless blank, else `value`, with the locale and time zone looked up |
| Converters.SerializePatternIgnored | src/main/java/io/github/gabrielgp0811/jsonlite/converter/impl/JsonPatternInfoDeserializationConverter.java:36-40 | `serializePattern` never affects reading |
| Converters.OkOrNull | src/main/java/io/github/gabrielgp0811/jsonlite/converter/impl/JsonFieldInfoDeserializationConverter.java:47-52 | a failed conversion becomes null, a successful one its value |
| Converters.DeserializationDescriptor | src/main/java/io/github/gabrielgp0811/jsonlite/converter/impl/JsonFieldInfoDeserializationConverter.java:32-55 | null raises JsonException; otherwise name `value`, the reader names, serializer name "" and the reading pattern, which is never null |
| Converters.ReaderNamesIgnoreSingular | src/main/java/io/github/gabrielgp0811/jsonlite/converter/impl/JsonFieldInfoDeserializationConverter.java:37-45 | `customNameDeserialization` and `customNameSerialization` never become reader names |
| Tree.Children | src/main/java/io/github/gabrielgp0811/jsonlite/impl/JsonString.java:96-97 | a scalar's children are empty |
| Tree.WithChildren | src/main/java/io/github/gabrielgp0811/jsonlite/impl/JsonObject.java:307-311 | only the children change; the kind, the name, the value and the format are kept |
| Tree.IndexOfName | src/main/java/io/github/gabrielgp0811/jsonlite/impl/JsonObject.java:279 | the first child bearing the name, or the length when none |
| Tree.IsChildPresentNamed | src/main/java/io/github/gabrielgp0811/jsonlite/impl/JsonObject.java:220 | true exactly when the name is not null or blank and some child bears it |
| Tree.IsChildPresentAt | src/main/java/io/github/gabrielgp0811/jsonlite/impl/JsonObject.java:256-259 | true exactly when the index is a position in the list |
| Tree.Absorb | src/main/java/io/github/gabrielgp0811/jsonlite/impl/JsonObject.java:221-227 | the merge keeps the existing child an object with its name |
| Tree.InsertAllSnoc | src/main/java/io/github/gabrielgp0811/jsonlite/impl/JsonObject.java:246-253 | adding one more node at the end is one more `addChild` |
| Tree.IndexOfNameAt | src/main/java/io/github/gabrielgp0811/jsonlite/impl/JsonObject.java:279 | a scan that stops at k finds the first position of the name |
| Tree.InsertNew | src/main/java/io/github/gabrielgp0811/jsonlite/impl/JsonObject.java:229-231 | a node whose name is absent, or blank, is appended |
| Tree.InsertExisting | src/main/java/io/github/gabrielgp0811/jsonlite/impl/JsonObject.java:220-228 | when the name exists: the length is kept and every other child is untouched. A non-object child drops the node; an object child absorbs it |
| Tree.InsertMakesPresent | src/main/java/io/github/gabrielgp0811/jsonlite/impl/JsonObject.java:218-235 | after `addChild` the node's name is present |
| Tree.InsertKeepsNames | src/main/java/io/github/gabrielgp0811/jsonlite/impl/JsonObject.java:218-235 | grows by at most one; existing children keep their names and order |
| Tree.InsertWellFormed | src/main/java/io/github/gabrielgp0811/jsonlite/impl/JsonObject.java:218-235 | `addChild` keeps non-blank child names distinct throughout the tree |
| Tree.AppendWellFormed | src/main/java/io/github/gabrielgp0811/jsonlite/impl/JsonObject.java:229-231 | appending a fresh or blank name keeps names distinct |
| Tree.ReplaceWellFormed | src/main/java/io/github/gabrielgp0811/jsonlite/impl/JsonObject.java:221-227 | replacing a child by a same-named one keeps names distinct |
| Tree.AbsorbWellFormed | src/main/java/io/github/gabrielgp0811/jsonlite/impl/JsonObject.java:221-227 | merging into an object child keeps it well formed |
| Tree.InsertAllWellFormed | src/main/java/io/github/gabrielgp0811/jsonlite/impl/JsonObject.java:246-253 | `addChildren` keeps names distinct |
| Tree.InsertAllFresh | src/main/java/io/github/gabrielgp0811/jsonlite/impl/JsonObject.java:483-485 | nodes with new, distinct names are appended in order |
| Tree.AddChild | src/main/java/io/github/gabrielgp0811/jsonlite/impl/JsonCollection.java:135-139 | an object inserts by name, a collection appends, a scalar is unchanged |
| Tree.AddChildren | src/main/java/io/github/gabrielgp0811/jsonlite/impl/JsonCollection.java:150-155 | the name and kind are kept; a scalar is unchanged |
| Tree.AddChildrenIsInsertAll | src/main/java/io/github/gabrielgp0811/jsonlite/impl/JsonObject.java:246-253 | on an object, the children after `addChildren` are the sequential insertions; on a collection, an append |
| Tree.AddChildWellFormed | src/main/java/io/github/gabrielgp0811/jsonlite/impl/JsonObject.java:218-235 | adding a child keeps a well-formed node well formed |
| Tree.GetChildAt | src/main/java/io/github/gabrielgp0811/jsonlite/impl/JsonCollection.java:158-175 | present exactly for a position in the list, and then that child |
| Tree.GetChildNamed | src/main/java/io/github/gabrielgp0811/jsonlite/impl/JsonCollection.java:178-180 | an object gives the first child of the name (null for a null or blank name); a collection gives itself; a scalar gives null |
| Tree.GetAfterAddChild | src/main/java/io/github/gabrielgp0811/jsonlite/impl/JsonObject.java:274-280 | after `addChild` the name is found; a new name finds the added node itself |
| Tree.AddedChildFound | src/main/java/io/github/gabrielgp0811/jsonlite/impl/JsonObject.java:229-231 | a node with a new name is appended and then found at the end |
| Tree.RemoveAt | src/main/java/io/github/gabrielgp0811/jsonlite/impl/JsonObject.java:283-297 | a position inside the list loses exactly that child, the others shift down; any other index keeps the list |
| Tree.WithoutName | src/main/java/io/github/gabrielgp0811/jsonlite/impl/JsonObject.java:300-304 | no remaining child bears the name, and the list never grows |
| Tree.WithoutNameMembers | src/main/java/io/github/gabrielgp0811/jsonlite/impl/JsonObject.java:300-304 | a child remains exactly when it was there and does not bear the name |
| Tree.WithoutNameSnoc | src/main/java/io/github/gabrielgp0811/jsonlite/impl/JsonObject.java:301 | `removeIf` filters each child on its own |
| Tree.WithoutAbsentName | src/main/java/io/github/gabrielgp0811/jsonlite/impl/JsonObject.java:301 | removing an absent name changes nothing |
| Tree.RemoveChildAt | src/main/java/io/github/gabrielgp0811/jsonlite/impl/JsonCollection.java:183-193 | a container drops the child at the index and returns itself; a scalar returns null |
| Tree.RemoveChildNamed | src/main/java/io/github/gabrielgp0811/jsonlite/impl/JsonCollection.java:196-198 | an object drops every child of the name; a collection is unchanged; a scalar returns null |
| Tree.RemoveThenAbsent | src/main/java/io/github/gabrielgp0811/jsonlite/impl/JsonObject.java:300-304 | after removal the name is absent and every other child survives |
| Tree.RemoveAtShifts | src/main/java/io/github/gabrielgp0811/jsonlite/impl/JsonCollection.java:183-193 | after removing a position, that position holds the next child and the size is one less |
| Tree.NodeValue | src/main/java/io/github/gabrielgp0811/jsonlite/impl/JsonObject.java:315-317 | a null node holds null, a string its text, a number its number |
| Tree.Clone | src/main/java/io/github/gabrielgp0811/jsonlite/impl/JsonObject.java:483-485 | the name and kind are kept; a scalar is copied |
| Tree.CloneKeepsChildren | src/main/java/io/github/gabrielgp0811/jsonlite/impl/JsonCollection.java:295-297 | a well-formed clone has the same children and a null value |
| Construct.NameOr | src/main/java/io/github/gabrielgp0811/jsonlite/Json.java:184 | a null or blank name becomes the default, any other is kept |
| Construct.ToJson | src/main/java/io/github/gabrielgp0811/jsonlite/Json.java:180-232 | the node kind follows the value kind, both ways for each of the eight kinds; the name is the given one or the kind's default; the tree is well formed |
| Construct.ObjectMembers | src/main/java/io/github/gabrielgp0811/jsonlite/impl/JsonObject.java:152-210 | a null value has no members; members have distinct names and are well formed |
| Construct.Items | src/main/java/io/github/gabrielgp0811/jsonlite/impl/JsonCollection.java:111-127 | one child per element |
| Construct.MapMembers | src/main/java/io/github/gabrielgp0811/jsonlite/impl/JsonObject.java:157-165 | map entries inserted keep names distinct |
| Construct.MapStep | src/main/java/io/github/gabrielgp0811/jsonlite/impl/JsonObject.java:160-162 | an entry under a non-String key adds nothing; any entry keeps names distinct |
| Construct.FieldWriting | src/main/java/io/github/gabrielgp0811/jsonlite/impl/JsonObject.java:197-208 | no annotation, or a refusing converter: the field's name and the caller's format; otherwise the converter's name and pattern |
| Construct.FieldMembers | src/main/java/io/github/gabrielgp0811/jsonlite/impl/JsonObject.java:167-209 | the field members have distinct names and are well formed |
| Construct.ItemsInOrder | src/main/java/io/github/gabrielgp0811/jsonlite/impl/JsonCollection.java:124-126 | element i is `toJson(null, item i)` |
| Construct.ArrayKeepsOrder | src/main/java/io/github/gabrielgp0811/jsonlite/Json.java:188-196 | an array becomes a collection of the same length, elements in order, valued as a list |
| Construct.ElementsHaveDefaultNames | src/main/java/io/github/gabrielgp0811/jsonlite/impl/JsonCollection.java:125 | each element is named after its kind |
| Construct.MapMembersKeepNames | src/main/java/io/github/gabrielgp0811/jsonlite/impl/JsonObject.java:160-162 | existing members keep their place and name |
| Construct.MapKeysPresent | src/main/java/io/github/gabrielgp0811/jsonlite/impl/JsonObject.java:160-162 | every non-blank String key becomes a member |
| Construct.MapStepMakesPresent | src/main/java/io/github/gabrielgp0811/jsonlite/impl/JsonObject.java:160-162 | an entry under a non-blank String key makes that key a member |
| Construct.UnwrittenFieldsSkipped | src/main/java/io/github/gabrielgp0811/jsonlite/impl/JsonObject.java:169-189 | static, ignored or getter-less fields add nothing |
| Construct.LegacyToJson | src/main/java/com/github/gabrielgp0811/jsonlite/Json.java:182-221 | the older `toJson` names a null or blank root "value", keeps the io kind dispatch for collections and objects, gives a collection one child per element, and builds a well-formed tree |
| Construct.LegacyItems | src/main/java/com/github/gabrielgp0811/jsonlite/impl/JsonCollection.java:110-128 | the com collection builds one well-formed child per element, through the older `toJson` with a null name |
| Construct.LegacyCollection | src/main/java/com/github/gabrielgp0811/jsonlite/impl/JsonCollection.java:100-128 | the com collection node keeps its name and value and holds one well-formed child per element, the com elements |
| Construct.LegacyItemAt | src/main/java/com/github/gabrielgp0811/jsonlite/impl/JsonCollection.java:120-128 | the child at each position is the older `toJson`, with a null name, of the element at that position |
| Construct.LegacyItemsNamedValue | src/main/java/com/github/gabrielgp0811/jsonlite/impl/JsonCollection.java:120-128 | every element of a com collection is named "value", whatever its kind |
| Construct.LegacyAgreesOnScalars | src/main/java/com/github/gabrielgp0811/jsonlite/Json.java:182-221 | outside collections the older `toJson` equals the io one given the same name; with a non-blank name they agree outright |
| Extract.OrNull | src/main/java/io/github/gabrielgp0811/jsonlite/impl/JsonString.java:120-153 | a failed parse reads as null, a successful one as the number |
| Extract.ReadingDescriptor | src/main/java/io/github/gabrielgp0811/jsonlite/impl/JsonObject.java:341-353 | the reading converter's descriptor, a blank name replaced by the field's; no annotation gives the field's name, no aliases, the caller's format |
| Extract.FindChild | src/main/java/io/github/gabrielgp0811/jsonlite/impl/JsonObject.java:355-365 | a position in the list, or its length |
| Extract.Values | src/main/java/io/github/gabrielgp0811/jsonlite/impl/JsonCollection.java:209-211 | the raw value of each child, in order |
| Extract.ToJavaObject | src/main/java/io/github/gabrielgp0811/jsonlite/impl/JsonObject.java:320-323 | a null class reads as null for every node |
| Extract.FirstOrNull | src/main/java/io/github/gabrielgp0811/jsonlite/impl/JsonCollection.java:222 | the first value, or null for none |
| Extract.Elements | src/main/java/io/github/gabrielgp0811/jsonlite/impl/JsonCollection.java:231-232 | one converted value per child |
| Extract.ArrayField | src/main/java/io/github/gabrielgp0811/jsonlite/impl/JsonObject.java:374-383 | a collection child gives an array of its children's raw values; any other gives null |
| Extract.FieldChild | src/main/java/io/github/gabrielgp0811/jsonlite/impl/JsonObject.java:355-365 | a position in the list, or its length |
| Extract.ReadField | src/main/java/io/github/gabrielgp0811/jsonlite/impl/JsonObject.java:364-368 | nothing exactly when no child matches the field |
| Extract.Filled | src/main/java/io/github/gabrielgp0811/jsonlite/impl/JsonObject.java:340-397 | one value per field: the value read from the matched child, or the constructed default when none matches |
| Extract.FilledAt | src/main/java/io/github/gabrielgp0811/jsonlite/impl/JsonObject.java:355-396 | a field is read from the first child matching its names, else keeps its constructed value |
| Extract.MatchedFieldReadFromChild | src/main/java/io/github/gabrielgp0811/jsonlite/impl/JsonObject.java:370-396 | a matched field is read by type: array from raw values, collection or enum raw (null for a child of another kind), otherwise converted with the field's reading format |
| Extract.ObjectReadsFilled | src/main/java/io/github/gabrielgp0811/jsonlite/impl/JsonObject.java:331-399 | an instantiable class gives a new instance holding the filled values |
| Extract.ToJavaCollection | src/main/java/io/github/gabrielgp0811/jsonlite/impl/JsonCollection.java:226-233 | null exactly for a null class; a collection's children converted in order; any other node as a one-element list |
| Extract.ElementsInOrder | src/main/java/io/github/gabrielgp0811/jsonlite/impl/JsonCollection.java:231-232 | element i is child i converted |
| Extract.CollectionGivesFirst | src/main/java/io/github/gabrielgp0811/jsonlite/impl/JsonCollection.java:219-223 | a collection read as one value is its first child converted, or null |
| Extract.CollectionFirstNullThrows | src/main/java/io/github/gabrielgp0811/jsonlite/impl/JsonCollection.java:219-223 | a collection whose first child is null, read as String, throws as written and reads null when corrected |
| Extract.CollectionAsWrittenAgrees | src/main/java/io/github/gabrielgp0811/jsonlite/impl/JsonCollection.java:219-223 | the as-written method throws exactly for a null class or a null first value, and otherwise agrees with the corrected one |
| Extract.ArrayFieldThrows | src/main/java/io/github/gabrielgp0811/jsonlite/impl/JsonObject.java:374-383 | every collection child throws as written; the corrected branch gives an array of the children's raw values |
| Extract.PresentIffIndexed | src/main/java/io/github/gabrielgp0811/jsonlite/impl/JsonObject.java:274-280 | a child bears the name exactly when its first position is inside the list |
| Extract.AliasDecides | src/main/java/io/github/gabrielgp0811/jsonlite/impl/JsonObject.java:357-362 | the first non-blank alias some child bears decides the child |
| Extract.NameDecides | src/main/java/io/github/gabrielgp0811/jsonlite/impl/JsonObject.java:364-365 | with no alias present, the child of the descriptor's name, none if that is blank |
| Extract.ObjectBuiltInGivesNull | src/main/java/io/github/gabrielgp0811/jsonlite/impl/JsonObject.java:325-338 | a built-in or non-instantiable class gives null |
| Extract.ScalarRoundTrip | src/main/java/io/github/gabrielgp0811/jsonlite/impl/JsonBoolean.java:97-111 | a boolean, string, enum, in-range number or non-blank character read back as its own class is itself |
| Extract.NumberRoundTrip | src/main/java/io/github/gabrielgp0811/jsonlite/impl/JsonNumber.java:114-116 | a valid number reads back as itself |
| Extract.CharRoundTrip | src/main/java/io/github/gabrielgp0811/jsonlite/impl/JsonString.java:116-118 | a non-blank character reads back as itself |
| Extract.PlainRoundTrip | src/main/java/io/github/gabrielgp0811/jsonlite/impl/JsonBoolean.java:97-111 | a boolean, string or enum constant reads back as itself |
| Extract.BlankCharReadsNull | src/main/java/io/github/gabrielgp0811/jsonlite/impl/JsonString.java:116-118 | a blank character reads back as null |
| Extract.IntegralTextRoundTrip | src/main/java/io/github/gabrielgp0811/jsonlite/impl/JsonNumber.java:114-116 | a number as String, read back at its width or as BigDecimal, is the same value |
| Extract.IntegralAsText | src/main/java/io/github/gabrielgp0811/jsonlite/impl/JsonNumber.java:114-116 | an integral number read as a String is its decimal text |
| Extract.TextAsIntegral | src/main/java/io/github/gabrielgp0811/jsonlite/impl/JsonString.java:122-140 | the text of an in-range value reads back at its width |
| Extract.TextAsDecimal | src/main/java/io/github/gabrielgp0811/jsonlite/impl/JsonString.java:150-152 | the text of an integer reads back as a BigDecimal of scale zero |
| Extract.EnumMatrix | src/main/java/io/github/gabrielgp0811/jsonlite/impl/JsonEnum.java:97-115 | Integer gives the ordinal, String the name, its own class the constant, any other class null |
| Extract.NullReadsNull | src/main/java/io/github/gabrielgp0811/jsonlite/impl/JsonNull.java:98-114 | the null node reads as null, alone or as a one-element list |
| Extract.CallFormat | src/main/java/io/github/gabrielgp0811/jsonlite/Json.java:552-554 | class-only entry points pass no pattern |
| Extract.JsonToJavaObject | src/main/java/io/github/gabrielgp0811/jsonlite/Json.java:635-641 | null tree or class gives null; otherwise the tree's own conversion |
| Extract.JsonToJavaObjectLike | src/main/java/io/github/gabrielgp0811/jsonlite/Json.java:745-751 | null tree, null object or collection tree give null; otherwise read as the object's class |
| Extract.JsonToJavaCollection | src/main/java/io/github/gabrielgp0811/jsonlite/Json.java:286-301 | none exactly for a null tree or class; a collection's children each read in order; any other tree as one element |
| Extract.JsonToJavaCollectionLike | src/main/java/io/github/gabrielgp0811/jsonlite/Json.java:316-322 | null tree or object gives null; otherwise read as the object's class |
| Render.ScalarText | src/main/java/io/github/gabrielgp0811/jsonlite/impl/JsonString.java:322-346 | text is quoted as is; null prints as `null` |
| Render.Strip | src/main/java/io/github/gabrielgp0811/jsonlite/impl/JsonObject.java:417-453 | removing layout leaves no layout character |
| Render.StripConcat | src/main/java/io/github/gabrielgp0811/jsonlite/impl/JsonObject.java:417-453 | stripping distributes over concatenation |
| Render.StripCongruent | src/main/java/io/github/gabrielgp0811/jsonlite/impl/JsonObject.java:417-453 | texts alike once stripped stay alike when extended |
| Render.StripLayout | src/main/java/io/github/gabrielgp0811/jsonlite/impl/JsonObject.java:421 | pure layout strips to nothing |
| Render.AddLayout | src/main/java/io/github/gabrielgp0811/jsonlite/impl/JsonObject.java:441-447 | layout added on either side disappears |
| Render.IndentIsLayout | src/main/java/io/github/gabrielgp0811/jsonlite/impl/JsonObject.java:421 | a layout tab gives layout indentation |
| Render.PrettyIsCompactWithLayout | src/main/java/io/github/gabrielgp0811/jsonlite/impl/JsonObject.java:417-480 | the pretty form equals the compact form once spaces, tabs and line breaks are removed, for any layout tab and separator |
| Render.KeyLayout | src/main/java/io/github/gabrielgp0811/jsonlite/impl/JsonObject.java:422-426 | the space after a pretty key is layout |
| Render.ObjectLayout | src/main/java/io/github/gabrielgp0811/jsonlite/impl/JsonObject.java:417-480 | for an object, pretty and compact agree once stripped, given that its members do |
| Render.CollectionLayout | src/main/java/io/github/gabrielgp0811/jsonlite/impl/JsonCollection.java:236-292 | for a collection, pretty and compact agree once stripped, given that its elements do |
| Render.ScalarLayout | src/main/java/io/github/gabrielgp0811/jsonlite/impl/JsonNumber.java:296-346 | for a scalar, pretty and compact agree once stripped |
| Render.PrettyItemsIsCompactItems | src/main/java/io/github/gabrielgp0811/jsonlite/impl/JsonCollection.java:250-258 | the children joined by commas, pretty and compact, agree once stripped |
| Render.CloneRendersAlike | src/main/java/io/github/gabrielgp0811/jsonlite/impl/JsonObject.java:434-437 | rendering the clone of a well-formed child gives the same text |
| Nodes.ObjectNode.ToNode | src/main/java/io/github/gabrielgp0811/jsonlite/impl/JsonObject.java:307-311 | the object's fields seen as a node |
| Nodes.ObjectNode.constructor | src/main/java/io/github/gabrielgp0811/jsonlite/impl/JsonObject.java:152-210 | the members are the map's String-keyed entries or the readable fields, names distinct |
| Nodes.ObjectNode.AddChild | src/main/java/io/github/gabrielgp0811/jsonlite/impl/JsonObject.java:218-235 | null changes nothing; otherwise the children become the insertion of the node, keeping names distinct |
| Nodes.ObjectNode.FindName | src/main/java/io/github/gabrielgp0811/jsonlite/impl/JsonObject.java:220-221 | the scan stops at the first child of the name, or at the end when none bears it |
| Nodes.ObjectNode.AddChildren | src/main/java/io/github/gabrielgp0811/jsonlite/impl/JsonObject.java:238-253 | null changes nothing; otherwise the nodes inserted in turn, keeping names distinct |
| Nodes.ObjectNode.ToJavaObject | src/main/java/io/github/gabrielgp0811/jsonlite/impl/JsonObject.java:320-400 | the field loop gives exactly the specified reading of the node |
| Nodes.ObjectNode.FillFields | src/main/java/io/github/gabrielgp0811/jsonlite/impl/JsonObject.java:340-397 | the field loop yields exactly the specified field values |
| Nodes.ObjectNode.ReadFieldAt | src/main/java/io/github/gabrielgp0811/jsonlite/impl/JsonObject.java:341-396 | one field takes the value read from its matching child, or keeps its constructed value |
| Nodes.ObjectNode.GetChildAt | src/main/java/io/github/gabrielgp0811/jsonlite/impl/JsonObject.java:256-271 | present exactly for a position in the list, and then that child |
| Nodes.ObjectNode.GetChildNamed | src/main/java/io/github/gabrielgp0811/jsonlite/impl/JsonObject.java:274-280 | present exactly for a non-blank name some child bears, and then the first such child |
| Nodes.ObjectNode.RemoveChildAt | src/main/java/io/github/gabrielgp0811/jsonlite/impl/JsonObject.java:283-297 | the children lose the one at the index (none outside the list), keeping names distinct |
| Nodes.ObjectNode.RemoveChildNamed | src/main/java/io/github/gabrielgp0811/jsonlite/impl/JsonObject.java:300-304 | every child of the name is dropped, none for null |
| Nodes.RemoveAtKeepsValid | src/main/java/io/github/gabrielgp0811/jsonlite/impl/JsonObject.java:283-297 | removing the child at any index keeps names distinct and children well formed |
| Nodes.WithoutNameKeepsValid | src/main/java/io/github/gabrielgp0811/jsonlite/impl/JsonObject.java:300-304 | removing by name keeps names distinct and children well formed |
| Nodes.WithoutNameDistinct | src/main/java/io/github/gabrielgp0811/jsonlite/impl/JsonObject.java:300-304 | removing by name keeps names distinct |
| Nodes.WithoutNameWellFormed | src/main/java/io/github/gabrielgp0811/jsonlite/impl/JsonObject.java:300-304 | removing by name keeps every remaining child well formed |
| Nodes.ConsDistinct | src/main/java/io/github/gabrielgp0811/jsonlite/impl/JsonObject.java:229-231 | a node in front of a list that avoids its name keeps names distinct |
| Nodes.CollectionNode.ToNode | src/main/java/io/github/gabrielgp0811/jsonlite/impl/JsonCollection.java:201-206 | the collection's fields seen as a node |
| Nodes.CollectionNode.constructor | src/main/java/io/github/gabrielgp0811/jsonlite/impl/JsonCollection.java:101-127 | one child per element in order, none for null |
| Nodes.CollectionNode.AddChild | src/main/java/io/github/gabrielgp0811/jsonlite/impl/JsonCollection.java:135-139 | the node is appended unchecked |
| Nodes.CollectionNode.AddChildren | src/main/java/io/github/gabrielgp0811/jsonlite/impl/JsonCollection.java:142-155 | null changes nothing; otherwise every node appended in order |
| Nodes.CollectionNode.GetChildAt | src/main/java/io/github/gabrielgp0811/jsonlite/impl/JsonCollection.java:158-175 | present exactly for a position in the list, and then that child |
| Nodes.CollectionNode.RemoveChildAt | src/main/java/io/github/gabrielgp0811/jsonlite/impl/JsonCollection.java:183-193 | the child at the index is dropped; any other index changes nothing |
| Legacy.AnnotationPattern | src/main/java/com/github/gabrielgp0811/jsonlite/Json.java:675-679 | `deserializePattern` trimmed, else `value` trimmed, else none; never blank |
| Legacy.Merged | src/main/java/com/github/gabrielgp0811/jsonlite/Json.java:669-686 | a set pattern, locale or time zone is kept; a blank pattern takes the annotation's; a null locale or time zone is looked up |
| Legacy.MergedIdempotent | src/main/java/com/github/gabrielgp0811/jsonlite/Json.java:669-686 | merging the same annotation twice changes nothing more |
| Legacy.MergedSettled | src/main/java/com/github/gabrielgp0811/jsonlite/Json.java:669-686 | a fully set descriptor ignores every annotation |
| Legacy.Merge | src/main/java/com/github/gabrielgp0811/jsonlite/Json.java:673-685 | the descriptor object ends holding the merge |
| Legacy.FieldFormat | src/main/java/com/github/gabrielgp0811/jsonlite/Json.java:667-686 | an annotated scalar field merges into the carried descriptor (a fresh one in place of null); otherwise it is as carried |
| Legacy.LegacyField | src/main/java/com/github/gabrielgp0811/jsonlite/Json.java:637-689 | nothing exactly when no child bears the field's name; a scalar field is converted with its descriptor |
| Legacy.Fresh | src/main/java/com/github/gabrielgp0811/jsonlite/Json.java:628-632 | the instance's constructed field values |
| Legacy.Assigned | src/main/java/com/github/gabrielgp0811/jsonlite/Json.java:636-692 | one value per field after each turn |
| Legacy.AssignedAt | src/main/java/com/github/gabrielgp0811/jsonlite/Json.java:636-692 | after i turns, earlier fields hold their read values and later ones their constructed ones |
| Legacy.AssignedStep | src/main/java/com/github/gabrielgp0811/jsonlite/Json.java:636-692 | one turn brings its own field, still as constructed, to its final value and leaves every other field alone |
| Legacy.LegacyFilled | src/main/java/com/github/gabrielgp0811/jsonlite/Json.java:636-692 | every field holds its read value, or its constructed one when skipped |
| Legacy.LegacyToJavaObject | src/main/java/com/github/gabrielgp0811/jsonlite/Json.java:622-695 | null tree or class gives null; an instantiable class gives the filled instance |
| Legacy.ToJavaObject | src/main/java/com/github/gabrielgp0811/jsonlite/Json.java:622-695 | the loop returns the specified instance; a non-null descriptor ends holding every merge in order, and is untouched otherwise |
| Legacy.FillFields | src/main/java/com/github/gabrielgp0811/jsonlite/Json.java:636-692 | the loop fills the specified values and carries the descriptor |
| Legacy.ReadField | src/main/java/com/github/gabrielgp0811/jsonlite/Json.java:637-689 | one turn reads the specified value and merges into the descriptor |
| Legacy.FieldDescriptor | src/main/java/com/github/gabrielgp0811/jsonlite/Json.java:667-686 | the field reads with the specified descriptor; a non-null call descriptor ends holding it |
| Legacy.NullDescriptorFieldsIndependent | src/main/java/com/github/gabrielgp0811/jsonlite/Json.java:670-671 | with a null descriptor each field merges into its own fresh one |
| Legacy.NullNeverCarried | src/main/java/com/github/gabrielgp0811/jsonlite/Json.java:670-671 | a null call descriptor is never carried between fields |
| Legacy.CarriedPatternSticks | src/main/java/com/github/gabrielgp0811/jsonlite/Json.java:675-679 | once the shared descriptor holds a non-blank pattern, later fields cannot change it |
| Legacy.SharedDescriptorKeepsEarlierPattern | src/main/java/com/github/gabrielgp0811/jsonlite/Json.java:667-688 | a field is read with the pattern an earlier field left in the shared descriptor |
| Legacy.LookupIgnoresAliases | src/main/java/com/github/gabrielgp0811/jsonlite/Json.java:637 | fields are looked up only by declared name; `@JsonField` plays no part |
| Profiles.GetterName | src/main/java/io/github/gabrielgp0811/jsonlite/serializer/impl/JsonSerializerImpl.java:196-198 | "get" then the name with its first letter upper-cased |
| Profiles.GetterNameRoundTrip | src/main/java/io/github/gabrielgp0811/jsonlite/serializer/impl/JsonSerializerImpl.java:196-198 | the property name is recovered from its getter name |
| Profiles.FieldIndex | src/main/java/io/github/gabrielgp0811/jsonlite/serializer/impl/JsonSerializerImpl.java:182 | the first declared field of the name, or the count |
| Profiles.GetValue | src/main/java/io/github/gabrielgp0811/jsonlite/serializer/impl/JsonSerializerImpl.java:180-190 | null object throws NullPointerException; a field with a getter gives its value; otherwise null |
| Profiles.MissingGetterReadsNull | src/main/java/io/github/gabrielgp0811/jsonlite/serializer/impl/JsonSerializerImpl.java:185-189 | a missing field or getter reads as null |
| Profiles.ProfileIndex | src/main/java/io/github/gabrielgp0811/jsonlite/serializer/impl/JsonSerializerImpl.java:46-48 | the first profile of the name, or the count |
| Profiles.Padded | src/main/java/io/github/gabrielgp0811/jsonlite/serializer/impl/JsonSerializerImpl.java:102-106 | the longer length; the path's leading pieces come first, then the custom pieces |
| Profiles.Fill | src/main/java/io/github/gabrielgp0811/jsonlite/serializer/impl/JsonSerializerImpl.java:108-116 | throws IndexOutOfBounds exactly when a blank piece has no path piece at its index; otherwise the length is kept |
| Profiles.Align | src/main/java/io/github/gabrielgp0811/jsonlite/serializer/impl/JsonSerializerImpl.java:95-116 | throws IndexOutOfBounds exactly when a blank custom piece lies past the path; otherwise as long as both |
| Profiles.PadFront | src/main/java/io/github/gabrielgp0811/jsonlite/serializer/impl/JsonSerializerImpl.java:102-106 | the padding loop computes `Padded` |
| Profiles.FillBlanks | src/main/java/io/github/gabrielgp0811/jsonlite/serializer/impl/JsonSerializerImpl.java:108-116 | the filling loop computes `Fill` |
| Profiles.AlignNames | src/main/java/io/github/gabrielgp0811/jsonlite/serializer/impl/JsonSerializerImpl.java:99-116 | the two loops compute `Align` |
| Profiles.AlignPadsFront | src/main/java/io/github/gabrielgp0811/jsonlite/serializer/impl/JsonSerializerImpl.java:102-106 | a shorter custom path is padded with the leading path pieces |
| Profiles.AlignKeepsCustoms | src/main/java/io/github/gabrielgp0811/jsonlite/serializer/impl/JsonSerializerImpl.java:108-116 | each custom piece is kept unless blank, when the path piece replaces it |
| Profiles.AlignSelf | src/main/java/io/github/gabrielgp0811/jsonlite/serializer/impl/JsonSerializerImpl.java:95-116 | a path aligned with itself is unchanged |
| Profiles.AlignSingle | src/main/java/io/github/gabrielgp0811/jsonlite/serializer/impl/JsonSerializerImpl.java:95-116 | a single non-blank custom name is used as is |
| Profiles.AlignIdempotent | src/main/java/io/github/gabrielgp0811/jsonlite/serializer/impl/JsonSerializerImpl.java:95-116 | aligning twice is aligning once |
| Profiles.Serialize | src/main/java/io/github/gabrielgp0811/jsonlite/serializer/impl/JsonSerializerImpl.java:40-61 | a missing name or null object gives null; JsonException exactly when a profile list has no match; an unmatched single profile gives null; a result is a well-formed object named "object" |
| Profiles.Output | src/main/java/io/github/gabrielgp0811/jsonlite/serializer/impl/JsonSerializerImpl.java:49 | a profile's result passed on unchanged |
| Profiles.SerializeWith | src/main/java/io/github/gabrielgp0811/jsonlite/serializer/impl/JsonSerializerImpl.java:68-87 | never JsonException; a well-formed object named "object" |
| Profiles.ProfileMembers | src/main/java/io/github/gabrielgp0811/jsonlite/serializer/impl/JsonSerializerImpl.java:73-84 | members keep distinct names; never JsonException |
| Profiles.MemberStep | src/main/java/io/github/gabrielgp0811/jsonlite/serializer/impl/JsonSerializerImpl.java:74-84 | a field with a blank `value` leaves the children as they are; otherwise names stay distinct, and JsonException never escapes |
| Profiles.FieldJson | src/main/java/io/github/gabrielgp0811/jsonlite/serializer/impl/JsonSerializerImpl.java:95-119 | never JsonException; results are well formed |
| Profiles.Holder | src/main/java/io/github/gabrielgp0811/jsonlite/serializer/impl/JsonSerializerImpl.java:134 | an empty object of the name |
| Profiles.SerializedHolder | src/main/java/io/github/gabrielgp0811/jsonlite/serializer/impl/JsonSerializerImpl.java:152-162 | never JsonException; an ok result is a well-formed object of the custom name |
| Profiles.Build | src/main/java/io/github/gabrielgp0811/jsonlite/serializer/impl/JsonSerializerImpl.java:129-173 | no path throws IndexOutOfBounds; a null object throws NullPointerException; never JsonException. A result is well formed, named by a non-blank custom piece, and an object when nested or serialized |
| Profiles.FromSerializer | src/main/java/io/github/gabrielgp0811/jsonlite/Json.java:1084-1093 | JsonException swallowed; a result is an object named "object" |
| Profiles.JsonSerialize | src/main/java/io/github/gabrielgp0811/jsonlite/Json.java:1037-1044 | only IndexOutOfBounds escapes; a text comes from a serializer result |
| Profiles.JsonPrettySerialize | src/main/java/io/github/gabrielgp0811/jsonlite/Json.java:1067-1074 | only IndexOutOfBounds escapes |
| Profiles.PrettySerializeIsSerialize | src/main/java/io/github/gabrielgp0811/jsonlite/Json.java:1054-1074 | pretty and compact serialization fail, return null and succeed together, and agree once layout is stripped |
| Profiles.FirstMatchingProfileUsed | src/main/java/io/github/gabrielgp0811/jsonlite/serializer/impl/JsonSerializerImpl.java:45-51 | the first profile of the name is the one applied |
| Profiles.SingleProfileUsed | src/main/java/io/github/gabrielgp0811/jsonlite/serializer/impl/JsonSerializerImpl.java:53-58 | a matching single profile is applied |
| Profiles.MissingProfileGivesNull | src/main/java/io/github/gabrielgp0811/jsonlite/Json.java:1084-1093 | an unknown profile name gives null from `fromSerializer` and `serialize` |
| Profiles.ConverterAcceptsNamedFields | src/main/java/io/github/gabrielgp0811/jsonlite/serializer/impl/JsonSerializerImpl.java:74-82 | a field with a non-blank `value` always converts |
| Profiles.BlankFieldSkipped | src/main/java/io/github/gabrielgp0811/jsonlite/serializer/impl/JsonSerializerImpl.java:74 | removing a blank-named field does not change the result |
| Profiles.NullLeafDropped | src/main/java/io/github/gabrielgp0811/jsonlite/serializer/impl/JsonSerializerImpl.java:165-172 | a plain field whose value is null adds nothing |
| Profiles.DottedPathNests | src/main/java/io/github/gabrielgp0811/jsonlite/serializer/impl/JsonSerializerImpl.java:133-148 | `a.b` named `x.y` becomes an object `x` holding the leaf `y` |
| Profiles.NullIntermediateThrows | src/main/java/io/github/gabrielgp0811/jsonlite/serializer/impl/JsonSerializerImpl.java:147 | a null in the middle of a path throws NullPointerException |
| Profiles.ExtraCustomsIgnored | src/main/java/io/github/gabrielgp0811/jsonlite/serializer/impl/JsonSerializerImpl.java:129-173 | custom pieces past the path play no part |
| Entries.KeyPresent | src/main/java/com/github/gabrielgp0811/jsonlite/JsonEntry.java:370 | throws NullPointerException only with a null key; true only if a child has the key; without null keys, exactly key membership |
| Entries.KeyFoundBeforeNull | src/main/java/com/github/gabrielgp0811/jsonlite/JsonEntry.java:370 | a key found before any null key answers true |
| Entries.Entry.constructor | src/main/java/com/github/gabrielgp0811/jsonlite/JsonEntry.java:46-86 | every field at its declared default, tab "\t" |
| Entries.Entry.Of | src/main/java/com/github/gabrielgp0811/jsonlite/JsonEntry.java:138-142 | name, value and format stored; flags, level and tab default |
| Entries.Entry.WithFormat | src/main/java/com/github/gabrielgp0811/jsonlite/JsonEntry.java:129-131 | the pattern kept, locale and time zone looked up |
| Entries.Entry.GetKey | src/main/java/com/github/gabrielgp0811/jsonlite/JsonEntry.java:151-154 | the key is the name |
| Entries.Entry.SetValue | src/main/java/com/github/gabrielgp0811/jsonlite/JsonEntry.java:161-166 | stores and returns the value; nothing else changes |
| Entries.Entry.ChildrenSize | src/main/java/com/github/gabrielgp0811/jsonlite/JsonEntry.java:344-352 | 0 for null children, otherwise their count |
| Entries.Entry.IsChildPresentAt | src/main/java/com/github/gabrielgp0811/jsonlite/JsonEntry.java:384-392 | true exactly for a position in the list |
| Entries.Entry.IsChildPresentNamed | src/main/java/com/github/gabrielgp0811/jsonlite/JsonEntry.java:362-374 | false for a null or blank name or null children; true only if present; without null keys, exactly presence |
| Entries.Entry.ToPrettyString | src/main/java/com/github/gabrielgp0811/jsonlite/JsonEntry.java:532-537 | a non-null tab replaces the stored one, a null tab keeps it; the text uses the stored tab |
| Entries.TabPersists | src/main/java/com/github/gabrielgp0811/jsonlite/JsonEntry.java:532-537 | a tab given once is used again by a later call without one |

## Left out

- **Values and platform**
  - Floating point: `float`, `double` and their conversions are not modelled. The number classes are byte, short, int, long, BigInteger and BigDecimal.
  - Dates: formatting, parsing and conversion of `Date`, `LocalDate`, `LocalDateTime` and `LocalTime` (`JsonDate` and the others) are calls into `Env`. Their `SimpleDateFormat` and `DateTimeFormatter` behaviour is not modelled.
  - `Util.toLocale`, `Util.toTimeZone`, `Util.getIndentTab` and the serialization-side pattern converter are not part of this model. The first two and the converter are `Env` functions; indentation is the tab repeated once per level.
  - `JsonText.Capitalize`: `toUpperCase` / `toLowerCase` of the first character are modelled for ASCII letters only.
- **Reflection and I/O**
  - Reflection is replaced by a class declaration. Getter invocation exceptions, `setAccessible`, static-field detection beyond a flag, and `Util.setValue` are assumed to behave as described there.
  - `Json.fromJson` and the string-taking entry points that parse JSON text are not modelled: parsing is not part of this model.
- **Structure**
  - Cyclic object graphs cannot be expressed: values are finite trees.
  - The children of every container are a sequence. Java's `Collection` identity, `equals` and aliasing between nodes are not modelled.
  - `JsonCollection.removeChild(index)` removes by `equals`; the model removes by position.
- `Nodes.CollectionNode.AddChild`: the Java method also accepts `null` and appends it. Nodes here are never null, so that case is not modelled.
- `Entries.Entry.ToPrettyString`: the concrete kind's `toPrettyString()` is passed in as a function of the tab.
- `Entries.Entry.IsChildPresentNamed`: the children are abstracted to their keys, as returned by the concrete kind's `getChildren`. The `com` child kinds, other than the `JsonEntry` base, are built with the `io` rules.
- `Render.ScalarText`: strings are written between quotes without escaping, as the source does. Enum and date text come from `toString` and from `Env`.
- Render: `JsonStrings.LINE_SEPARATOR` is the `sep` parameter of `Render.Pretty`.
- `Extract.ToJavaObject`: only the corrected collection reading is modelled. See Findings; the as-written one is `Extract.CollectionToJavaObjectAsWritten`.
- `Legacy.LegacyToJavaObject`: a built-in target (`TString`, `TCollection`, `TMap`, `TTemporal` and the others) gives null. The `com` code (src/main/java/com/github/gabrielgp0811/jsonlite/Json.java:622-632) has no built-in guard: it calls `newInstance()` on any class, so `String` gives "" and `ArrayList`, `HashMap` or `Date` give a fresh instance whose JDK-internal declared fields it then writes. Only classes without an accessible no-argument constructor (the number wrappers, `Boolean`, enums, arrays, interfaces) give null there. JDK classes have no declaration in this model.
- `Legacy.ToJavaObject`: the same restriction to declared classes as `Legacy.LegacyToJavaObject`, which it is proved equal to.
- `Construct.LegacyToJson`: an object or map node takes its members from the io `JsonObject` rules (`Construct.ObjectMembers`), because the com `JsonObject` is not part of this model. Only the root name and the collection elements follow the com rules.
- `Construct.ToJson`: a class name is never empty here. An anonymous class has an empty simple name, for which io `Json.toJson` (src/main/java/io/github/gabrielgp0811/jsonlite/Json.java:223-225) throws StringIndexOutOfBoundsException; that exception is not modelled.
- `Numbers.ParseInt`: only ASCII digits '0'-'9' are digits. Java's `Integer.parseInt` and the other parsers also accept every Unicode decimal digit (`Character.digit`).
- `Numbers.ParseIntegral`: the same ASCII-only digits as `Numbers.ParseInt`, for `Byte`, `Short`, `Long` and `BigInteger` too.
- `JsonText.Decapitalize`: `toLowerCase` of the first character is modelled for ASCII letters only, as for `JsonText.Capitalize`.
- `Legacy.LegacyField`: the `com` array branch uses the corrected `Extract.ArrayField`. See Findings.
- `Profiles.GetValue`: reflection's `getDeclaredField` is the declared field list. An `is` getter is not used, as in the source.
- `toJavaCollection()` and `toJavaObject()` without a class, for scalars: these return the raw value (`Tree.NodeValue`).

## Findings

| source | as written | input that shows it | evidently intended | confidence | as-written member | corrected member |
|---|---|---|---|---|---|---|
| src/main/java/io/github/gabrielgp0811/jsonlite/impl/JsonCollection.java:219-223 | `findFirst()` on the converted list | a collection whose first child is a null node, read as String: `Optional.of(null)` throws NullPointerException (a null class also throws, on the null list) | the first converted child, or null | high (not executed) | Extract.CollectionFirstNullThrows | Extract.CollectionAsWrittenAgrees |
| src/main/java/io/github/gabrielgp0811/jsonlite/impl/JsonObject.java:374-383 | `fieldType.getComponentType()` taken twice, then `Array.newInstance` | any one-dimensional array field matched by a collection child: the second `getComponentType()` is null, so `Array.newInstance` throws NullPointerException | an array of the children's raw values | high (not executed) | Extract.ArrayFieldThrows | Extract.ArrayField |
| src/main/java/com/github/gabrielgp0811/jsonlite/Json.java:648-656 | the same double `getComponentType()` in the older package | an array field whose child is a collection | an array of the children's raw values | high (not executed) | Extract.ArrayFieldThrows | Legacy.LegacyField |
