# Fragment — a verified model

`Fragment` is the storage unit of the linked-data-store persistence API. A
document is flattened into leaves, and each leaf value is cut into chunks. A
data fragment is one chunk: its coordinates (namespace, entity, id, version
timestamp, JSON path), its value type, the byte offset of the chunk and its
bytes. A streaming-control fragment carries only a control code. It ends a
result stream and says whether a limit cut the stream short (code 41) or every
result was sent (code 42).

This project models the class `no.ssb.lds.api.persistence.Fragment`:

- `computeIndexUnawarePath` rewrites every `[digits]` in a path to `[]`. It
  appends one list entry per bracket pair: `null` for `[]`, otherwise the
  number. It is modelled as a method with the source's find-and-copy loop.
  The method is proved against a reference definition, and lemmas then prove
  what the operation promises as a whole.
- `truncate`, `isLimited` / `isNotLimited`, `deleteMarker`, `samePathAs`,
  `equals` and `compareTo` are functions over an immutable `Fragment`
  datatype. A Java `null` is `None`. A thrown exception is a `Failure`.
- The constants `TRUNCATED_VALUE_LENGTH`, `LIMITED_CODE`, `NOT_LIMITED_CODE`
  and `DONE_NOT_LIMITED` are modelled as well.

Files:

- `java_types.dfy` (module `JavaTypes`): the Java value types the class uses.
  This means `byte`/`short`/`int`/`long` with two's-complement wrap-around,
  the narrowing cast to `int`, `Long.compare`, `String.compareTo` and
  `Arrays.compare(byte[], byte[])`.
- `path_index.dfy` (module `PathIndex`): the pattern `\[([0-9]*)\]`, the
  reference definitions `Unaware`, `Indices` and `IndicesUntilOverflow`,
  `Matcher.find`, the caller's list as a class, and the method
  `ComputeIndexUnawarePath`.
- `path_lex.dfy` (module `PathLex`): a path read as the tokens that
  successive `find` calls cut it into. It proves the following:
  - the returned path is the input with every match emptied;
  - the entries follow the groups in order;
  - putting the groups back restores the input;
  - spelling the entries back into the brackets restores the input when no
    index has a leading zero, and leading zeros are lost otherwise;
  - the operation is idempotent.
- `fragment.dfy` (module `Fragments`): the record, the constants and the
  operations.
- `fragment_order.dfy` (module `FragmentOrder`): the comparator laws of
  `compareTo`, the equivalence laws of `equals` and `samePathAs`, how those
  relate to each other, and the offset-cast defect (see Findings).

Facts about the code that the model keeps:

- Value bytes compare as signed Java bytes, because `compareTo` ends with
  `Arrays.compare(byte[], byte[])` (Fragment.java:285).
- `samePathAs` (Fragment.java:125-134) compares namespace, entity, id,
  timestamp and path, and nothing else.
- `compareTo` returns `0` for some pairs of distinct fragments:
  - two data fragments that differ only in their control fields;
  - two control fragments with the same code (Fragment.java:249-250);
  - as written, two chunks whose offsets differ by a multiple of 2^32
    (Fragment.java:281-283).
- Offsets may be any `long`. Nothing in the class keeps them non-negative.
- `computeIndexUnawarePath` loses leading zeros, because `Integer.valueOf`
  drops them (Fragment.java:37). Paths that differ only in leading zeros of an
  index give the same path and the same entries. For example, `a[01]` and
  `a[1]` both give `a[]` and the single entry `1`. When no index has a leading
  zero, the returned path and the entries together give back the input.

## Model

| member | source | states |
|---|---|---|
| PathIndex.DigitsEndIsMaximal | src/main/java/no/ssb/lds/api/persistence/Fragment.java:25 | the group `[0-9]*` of a match is the longest run of digits after the `[`: every character in it is a digit and the character after it is not |
| PathIndex.Find | src/main/java/no/ssb/lds/api/persistence/Fragment.java:31 | `Matcher.find` returns the leftmost match at or after the previous end, with its end; no position skipped over starts a match; when it reports none, no position left starts one |
| PathIndex.IndexList.Add | src/main/java/no/ssb/lds/api/persistence/Fragment.java:34-38 | `List.add` appends exactly one element and keeps the earlier ones |
| PathIndex.SkipText | src/main/java/no/ssb/lds/api/persistence/Fragment.java:32 | the characters between two matches are copied verbatim and add no entry, and the overflow check is unaffected by them |
| PathIndex.StepOverMatch | src/main/java/no/ssb/lds/api/persistence/Fragment.java:32-39 | one loop iteration appends the text before the match and `[]`, appends the match's entry, and the call throws here exactly when this group exceeds `Integer.MAX_VALUE` |
| PathIndex.AfterLastMatch | src/main/java/no/ssb/lds/api/persistence/Fragment.java:41 | after the last match the rest of the path is copied unchanged and nothing more is appended |
| PathIndex.ComputeIndexUnawarePath | src/main/java/no/ssb/lds/api/persistence/Fragment.java:27-43 | when every group fits in an `int`: returns the path with every match emptied, and the list gains one entry per match in order. Otherwise it throws `NumberFormatException`, and the list has gained exactly the entries of the matches before the first group that does not fit |
| PathIndex.UntilOverflowIsPrefix | src/main/java/no/ssb/lds/api/persistence/Fragment.java:34-38 | the entries appended before a throw are a strict prefix of all entries; when no group overflows, they are all of them |
| PathIndex.NoMatchUnchanged | src/main/java/no/ssb/lds/api/persistence/Fragment.java:27-43 | a path without any `[digits]` is returned unchanged, appends nothing and never throws |
| PathLex.RenderLex | src/main/java/no/ssb/lds/api/persistence/Fragment.java:29-31 | the successive matches and the characters between them cover the path exactly, in order and without overlap |
| PathLex.LexWellFormed | src/main/java/no/ssb/lds/api/persistence/Fragment.java:25 | every match found has a digit-only group, and no `[` left outside a match is followed by digits and `]` |
| PathLex.LexRender | src/main/java/no/ssb/lds/api/persistence/Fragment.java:25-31 | any well-formed sequence of characters and bracket groups, spelled out, is cut by the matcher back into exactly that sequence |
| PathLex.UnawareIsBlankedTokens | src/main/java/no/ssb/lds/api/persistence/Fragment.java:32-33 | the returned path is the token sequence of the input with every bracket group emptied |
| PathLex.IndicesFollowGroups | src/main/java/no/ssb/lds/api/persistence/Fragment.java:34-38 | entry k is `null` when the k-th group is empty, otherwise the decimal value of the k-th group |
| PathLex.AllFitFollowsGroups | src/main/java/no/ssb/lds/api/persistence/Fragment.java:37 | the call succeeds exactly when every group's value is at most `Integer.MAX_VALUE` |
| PathLex.BlankIdempotent | src/main/java/no/ssb/lds/api/persistence/Fragment.java:33 | emptying the groups twice is emptying them once |
| PathLex.FillBlank | src/main/java/no/ssb/lds/api/persistence/Fragment.java:32-37 | putting the groups back into the emptied brackets, in order, restores the tokens |
| PathLex.UnawareTokens | src/main/java/no/ssb/lds/api/persistence/Fragment.java:27-43 | the matcher cuts the returned path into the input's tokens with every bracket group emptied, so the output has as many matches as the input |
| PathLex.Idempotent | src/main/java/no/ssb/lds/api/persistence/Fragment.java:27-43 | applied to its own output, the operation returns that output unchanged, appends one `null` per bracket pair of the input, and never throws |
| PathLex.GroupsRestorePath | src/main/java/no/ssb/lds/api/persistence/Fragment.java:27-43 | filling the input's groups back into the brackets of the output, left to right, gives the input: only the groups are lost |
| PathLex.Spell | src/main/java/no/ssb/lds/api/persistence/Fragment.java:37 | the digit group an entry stands for: empty for `null`, otherwise the number in decimal as `Integer.toString` writes it |
| PathLex.SpellGroups | src/main/java/no/ssb/lds/api/persistence/Fragment.java:34-38 | spelling the entries of digit groups without leading zeros gives back exactly those groups |
| PathLex.IndicesRestorePath | src/main/java/no/ssb/lds/api/persistence/Fragment.java:27-43 | when no group of the input has a leading zero, spelling the appended entries into the brackets of the returned path, left to right, gives the input: the caller's two results determine the input |
| PathLex.LeadingZeroPath | src/main/java/no/ssb/lds/api/persistence/Fragment.java:37 | `a[01]` gives `a[]`, the single entry `1`, and no throw |
| PathLex.PlainIndexPath | src/main/java/no/ssb/lds/api/persistence/Fragment.java:37 | `a[1]` gives `a[]`, the single entry `1`, and no throw |
| PathLex.LeadingZeroCollision | src/main/java/no/ssb/lds/api/persistence/Fragment.java:27-43 | two different paths, `a[01]` and `a[1]`, give the same returned path and the same entries, and neither throws: leading zeros of an index are lost |
| JavaTypes.WrapLong | src/main/java/no/ssb/lds/api/persistence/Fragment.java:281 | a `long` subtraction yields the exact difference modulo 2^64, and the exact difference whenever it is in range |
| JavaTypes.ToInt32 | src/main/java/no/ssb/lds/api/persistence/Fragment.java:283 | `(int)` keeps the value modulo 2^32 and is the identity on values in `int` range |
| JavaTypes.LongCompare | src/main/java/no/ssb/lds/api/persistence/Fragment.java:281-284 | the corrected offset step: -1, 0 or 1, negative exactly when the first offset is smaller and zero exactly when they are equal |
| JavaTypes.StringCompareToFacts | src/main/java/no/ssb/lds/api/persistence/Fragment.java:257-276 | `String.compareTo` is antisymmetric and transitive, and is zero exactly for equal strings |
| JavaTypes.LexComparePrefix | src/main/java/no/ssb/lds/api/persistence/Fragment.java:285 | a proper prefix sorts before the longer sequence |
| JavaTypes.ByteArrayCompareFacts | src/main/java/no/ssb/lds/api/persistence/Fragment.java:285 | `Arrays.compare` of byte arrays, with `null` first, is antisymmetric and transitive, and is zero exactly for equal arrays |
| Fragments.Truncate | src/main/java/no/ssb/lds/api/persistence/Fragment.java:45-50 | the result is a prefix of the value of length `min(length, 100)` |
| PathIndex.MatchAt | src/main/java/no/ssb/lds/api/persistence/Fragment.java:25 | a match of `\[([0-9]*)\]` starts at a position: a `[`, the longest run of ASCII digits after it, then `]` |
| PathIndex.Unaware | src/main/java/no/ssb/lds/api/persistence/Fragment.java:27-43 | the path the operation returns when it does not throw: every match replaced by `[]`, every other character copied in order |
| PathIndex.Indices | src/main/java/no/ssb/lds/api/persistence/Fragment.java:34-38 | the entries the operation appends, one per match left to right: `null` for an empty group, otherwise the group's decimal value |
| PathIndex.IndicesUntilOverflow | src/main/java/no/ssb/lds/api/persistence/Fragment.java:34-38 | the entries appended before `Integer.valueOf` throws on the first group above `Integer.MAX_VALUE` |
| PathIndex.DecimalValue | src/main/java/no/ssb/lds/api/persistence/Fragment.java:37 | the number `Integer.valueOf` reads from a digit group before its range check, leading zeros allowed |
| PathIndex.GroupFits | src/main/java/no/ssb/lds/api/persistence/Fragment.java:37 | `Integer.valueOf` accepts the group: its value is at most `Integer.MAX_VALUE`; otherwise it throws `NumberFormatException` |
| PathIndex.Decimal | src/main/java/no/ssb/lds/api/persistence/Fragment.java:37 | `Integer.toString` of a non-negative number: its decimal digits without a leading zero |
| PathIndex.ValueOfDecimal | src/main/java/no/ssb/lds/api/persistence/Fragment.java:37 | what `Integer.toString` writes is a canonical digit string, and `Integer.valueOf` reads it back as the same number |
| PathIndex.DecimalOfValue | src/main/java/no/ssb/lds/api/persistence/Fragment.java:37 | a digit string that is `0` or has no leading zero is exactly what `Integer.toString` writes for its value: `Integer.valueOf` loses nothing else |
| JavaTypes.StringCompareTo | src/main/java/no/ssb/lds/api/persistence/Fragment.java:257 | `String.compareTo`: the difference of the first differing characters, otherwise the difference of the lengths |
| JavaTypes.ByteArrayCompare | src/main/java/no/ssb/lds/api/persistence/Fragment.java:285 | `Arrays.compare(byte[], byte[])`: `null` sorts first, then the first differing signed bytes decide, then the lengths |
| Fragments.IsLimited | src/main/java/no/ssb/lds/api/persistence/Fragment.java:105-110 | `isLimited`: throws `IllegalStateException` on a data fragment, otherwise whether the code is `LIMITED_CODE` |
| Fragments.IsNotLimited | src/main/java/no/ssb/lds/api/persistence/Fragment.java:118-123 | `isNotLimited`: throws `IllegalStateException` on a data fragment, otherwise whether the code is `NOT_LIMITED_CODE` |
| Fragments.DONE_NOT_LIMITED | src/main/java/no/ssb/lds/api/persistence/Fragment.java:23 | the end-of-stream sentinel: a control fragment with code `NOT_LIMITED_CODE`, all other fields `null` or zero |
| Fragments.SamePathAs | src/main/java/no/ssb/lds/api/persistence/Fragment.java:125-134 | `samePathAs`: true for the same fragment, false for `null`, otherwise null-safe equality of namespace, entity, id, timestamp and path |
| Fragments.DeleteMarker | src/main/java/no/ssb/lds/api/persistence/Fragment.java:168-170 | `deleteMarker`: the type is `DELETED`, null-safe |
| Fragments.Equals | src/main/java/no/ssb/lds/api/persistence/Fragment.java:224-235 | `equals`: true for the same fragment, false for `null`, otherwise equality of offset, the five path fields and the value bytes |
| Fragments.CompareToAsWritten | src/main/java/no/ssb/lds/api/persistence/Fragment.java:245-286 | `compareTo` as written: `0` for the same fragment; control against control by code difference; control after data with `Integer.MAX_VALUE`/`Integer.MIN_VALUE`; then namespace, entity, id, timestamp, path and type, each throwing on `null`, the first nonzero result returned; then `(int)` of the `long` offset difference, then the value bytes |
| Fragments.CompareTo | src/main/java/no/ssb/lds/api/persistence/Fragment.java:245-286 | the same chain with the offsets compared by `Long.compare`; its laws are the FragmentOrder lemmas below |
| Fragments.DataFragment | src/main/java/no/ssb/lds/api/persistence/Fragment.java:64-75 | the eight-argument constructor: a data fragment (control flag false, code 0) with the given coordinates, type, offset and value |
| Fragments.CompareStrings | src/main/java/no/ssb/lds/api/persistence/Fragment.java:257-276 | one `String` step of the chain (namespace, entity, id, path): `NullPointerException` when either field is `null`, otherwise `String.compareTo` |
| Fragments.CompareTimestamps | src/main/java/no/ssb/lds/api/persistence/Fragment.java:269 | the timestamp step: `NullPointerException` on `null`, otherwise -1/0/1 in the order of `ZonedDateTime.compareTo` (only the sign is modelled) |
| Fragments.FragmentType.Ordinal | src/main/java/no/ssb/lds/api/persistence/Fragment.java:277 | the ordinal of each constant, in declaration order |
| Fragments.CompareTypes | src/main/java/no/ssb/lds/api/persistence/Fragment.java:277 | the type step: `NullPointerException` on `null`, otherwise `Enum.compareTo`, the difference of the ordinals |
| Fragments.OffsetAndValueAsWritten | src/main/java/no/ssb/lds/api/persistence/Fragment.java:281-285 | the offset and value steps as written: the `long` difference of the offsets, wrapped to 64 bits; if nonzero, narrowed to `int` by `(int)`; if zero, `Arrays.compare` of the values |
| Fragments.OffsetAndValue | src/main/java/no/ssb/lds/api/persistence/Fragment.java:281-285 | the corrected offset and value steps: `Long.compare` of the offsets, and `Arrays.compare` of the values when they are equal |
| FragmentOrder.TruncateIdempotent | src/main/java/no/ssb/lds/api/persistence/Fragment.java:45-50 | truncating twice is truncating once; a value of at most 100 characters is returned unchanged |
| FragmentOrder.ControlPredicates | src/main/java/no/ssb/lds/api/persistence/Fragment.java:105-123 | both predicates throw `IllegalStateException` exactly on data fragments; no control fragment is both limited and not limited |
| FragmentOrder.DoneNotLimitedFacts | src/main/java/no/ssb/lds/api/persistence/Fragment.java:20-23 | the `DONE_NOT_LIMITED` sentinel reports not-limited, not limited, and sorts after every data fragment with `Integer.MAX_VALUE` |
| FragmentOrder.DeleteMarkerOnlyDeleted | src/main/java/no/ssb/lds/api/persistence/Fragment.java:168-170 | a fragment is a delete marker exactly when its type is `DELETED`; an untyped fragment is not one |
| FragmentOrder.SamePathAsEquivalence | src/main/java/no/ssb/lds/api/persistence/Fragment.java:125-134 | `samePathAs` is reflexive, symmetric and transitive, and false for `null` |
| FragmentOrder.SamePathAsIgnoresPayload | src/main/java/no/ssb/lds/api/persistence/Fragment.java:125-134 | `samePathAs` does not depend on the control fields, the type, the offset or the value of the receiver |
| FragmentOrder.EqualsEquivalence | src/main/java/no/ssb/lds/api/persistence/Fragment.java:224-235 | `equals` is reflexive, symmetric and transitive, and false for `null` |
| FragmentOrder.EqualsIgnoresKindAndType | src/main/java/no/ssb/lds/api/persistence/Fragment.java:224-235 | `equals` does not depend on the control flag, the control code or the fragment type |
| FragmentOrder.EqualsImpliesSamePath | src/main/java/no/ssb/lds/api/persistence/Fragment.java:228-233 | equal fragments always have the same path |
| FragmentOrder.StringFieldFacts | src/main/java/no/ssb/lds/api/persistence/Fragment.java:257-260 | one string step of the chain is antisymmetric and transitive, including when it throws on `null`, and is zero exactly for equal non-null fields |
| FragmentOrder.TimestampFieldFacts | src/main/java/no/ssb/lds/api/persistence/Fragment.java:269-272 | the timestamp step obeys the same laws |
| FragmentOrder.OrdinalInjective | src/main/java/no/ssb/lds/api/persistence/Fragment.java:277 | different enum constants have different ordinals |
| FragmentOrder.TypeFieldFacts | src/main/java/no/ssb/lds/api/persistence/Fragment.java:277-280 | the fragment-type step obeys the same laws |
| FragmentOrder.TailFacts | src/main/java/no/ssb/lds/api/persistence/Fragment.java:281-285 | the corrected offset-then-value step is antisymmetric and transitive, and is zero exactly for equal offsets and values |
| FragmentOrder.AndThenOpposite | src/main/java/no/ssb/lds/api/persistence/Fragment.java:256-280 | a step that returns a non-zero result or goes on to the next step keeps antisymmetry |
| FragmentOrder.AndThenTransitive | src/main/java/no/ssb/lds/api/persistence/Fragment.java:256-280 | such a step keeps transitivity |
| FragmentOrder.AndThenSandwich | src/main/java/no/ssb/lds/api/persistence/Fragment.java:256-280 | when a field ties the outer pair, the middle element ties on it too, and the next steps are not-after |
| FragmentOrder.KeyFieldsOpposite | src/main/java/no/ssb/lds/api/persistence/Fragment.java:256-285 | the data-fragment comparison is antisymmetric, and one direction throws exactly when the other does |
| FragmentOrder.KeyFieldsTransitive | src/main/java/no/ssb/lds/api/persistence/Fragment.java:256-285 | the data-fragment comparison is transitive |
| FragmentOrder.KeyFieldsZero | src/main/java/no/ssb/lds/api/persistence/Fragment.java:256-285 | the data-fragment comparison is zero exactly when all compared fields are set and equal |
| FragmentOrder.ControlOrdering | src/main/java/no/ssb/lds/api/persistence/Fragment.java:246-255 | a fragment compares zero with itself; a control fragment is `Integer.MAX_VALUE` after a data fragment and `Integer.MIN_VALUE` the other way; two control fragments compare by the sign of the code difference |
| FragmentOrder.CompareToThrows | src/main/java/no/ssb/lds/api/persistence/Fragment.java:256-257 | no exception when every data side has all key fields set; `NullPointerException` when two distinct data fragments have a `null` namespace on either side |
| FragmentOrder.CompareToAntisymmetric | src/main/java/no/ssb/lds/api/persistence/Fragment.java:245-286 | `sgn(a.compareTo(b)) == -sgn(b.compareTo(a))`, and one throws exactly when the other does |
| FragmentOrder.CompareToZero | src/main/java/no/ssb/lds/api/persistence/Fragment.java:245-286 | zero exactly for the same fragment, two control fragments of equal code, or two data fragments equal on every compared field |
| FragmentOrder.DataTransitive | src/main/java/no/ssb/lds/api/persistence/Fragment.java:256-286 | transitivity over three data fragments |
| FragmentOrder.CompareToTransitive | src/main/java/no/ssb/lds/api/persistence/Fragment.java:245-286 | over any three fragments, before-before is before, and a tie on either side carries the other comparison over |
| FragmentOrder.SamePathContiguous | src/main/java/no/ssb/lds/api/persistence/Fragment.java:256-276 | in the order, a fragment lying between two fragments of one leaf belongs to that leaf, so a leaf's chunks are contiguous |
| FragmentOrder.CompareZeroImpliesEquals | src/main/java/no/ssb/lds/api/persistence/Fragment.java:228-234 | two data fragments that compare zero are `equals` |
| FragmentOrder.EqualsInconsistentWithCompareTo | src/main/java/no/ssb/lds/api/persistence/Fragment.java:224-235 | `equals` may hold where `compareTo` is non-zero: for data fragments that differ only in type, and for the two sentinels, which also answer `isNotLimited` differently |
| FragmentOrder.AsWrittenAgreesWhenOffsetsClose | src/main/java/no/ssb/lds/api/persistence/Fragment.java:281-285 | when the offsets differ by a value that fits in an `int`, the comparison as written throws exactly when the corrected one does, and has the same sign |
| FragmentOrder.AsWrittenAntisymmetricWhenOffsetsClose | src/main/java/no/ssb/lds/api/persistence/Fragment.java:281-285 | within that range, the comparison as written is antisymmetric |
| FragmentOrder.AsWrittenTransitiveWhenOffsetsClose | src/main/java/no/ssb/lds/api/persistence/Fragment.java:281-285 | when every two of three fragments have offsets less than 2^31 apart, the comparison as written obeys the comparator laws: before and before give before, and when one pair ties, the other two comparisons both throw or have the same sign |
| FragmentOrder.ChunksCompareByOffset | src/main/java/no/ssb/lds/api/persistence/Fragment.java:256-285 | two data fragments with their key fields set, the same path coordinates (`samePathAs`) and the same type, at different offsets, are ordered by the offset step alone and never reach the values: corrected, by `Long.compare` of the offsets; as written, by `(int)` of their `long` difference |
| FragmentOrder.OffsetCastOverflows | src/main/java/no/ssb/lds/api/persistence/Fragment.java:281-283 | offsets 2^31 apart in either direction make the step as written return `Integer.MIN_VALUE` |
| FragmentOrder.OffsetCastVanishes | src/main/java/no/ssb/lds/api/persistence/Fragment.java:281-283 | offsets 2^32 apart make the step as written return `0`, whatever the values, without comparing them |
| FragmentOrder.OffsetCastBreaksAntisymmetry | src/main/java/no/ssb/lds/api/persistence/Fragment.java:281-283 | as written, the chunks at 0 and at 2^31 each sort before the other; corrected, they are ordered |
| FragmentOrder.OffsetCastHidesDifference | src/main/java/no/ssb/lds/api/persistence/Fragment.java:281-285 | as written, the distinct chunks at 0 and 2^32 compare zero; corrected, they are ordered |

## Left out

- `truncatedValue` and `throwRuntimeExceptionIfError` (Fragment.java:172-207) are not modelled. They decode UTF-8 through `CharsetDecoder` into a fixed buffer, and the JDK decoder is not part of this model.
- `toString` and `hashCode` are not modelled. They format text and mix hash codes, and nothing in the class relies on them.
- The getters and `isStreamingControl` are not modelled separately. They are the datatype's field selectors.
- Object identity (`this == o`) is modelled as value equality. Two distinct but field-equal objects with a `null` key field therefore compare `0` in the model, where Java throws `NullPointerException`.
- `compareTo(null)` and `samePathAs`/`equals` receiving something that is not a `Fragment` are not modelled. `compareTo` takes a fragment, `equals` takes an optional fragment, and the class test in `equals` always passes.
- JavaTypes.StringCompareTo: a character here is a Unicode scalar value, where Java compares UTF-16 code units. A character outside the Basic Multilingual Plane is one character here and two code units (a surrogate pair) in Java, so on strings containing one the model's sign can differ from Java's (U+1F600 sorts after U+FFFF here, before it in Java). On strings of Basic Multilingual Plane characters the two agree. A Java `String` may also hold an unpaired surrogate code unit, which a Dafny string of Unicode scalar values cannot contain; such strings are not modelled.
- Fragments.Truncate: for the same reason, it counts Unicode scalar values where `String.length()` and `substring` count code units. A string with characters outside the Basic Multilingual Plane is cut at a different place, or not cut at all, where Java cuts it. A Java `String` may also hold an unpaired surrogate code unit, which a Dafny string of Unicode scalar values cannot contain; such strings are not modelled.
- `ZonedDateTime` is abstracted to an `int`: its rank in the total order of `ZonedDateTime.compareTo` (instant, then local date-time, then zone id), which is consistent with `ZonedDateTime.equals`. Two timestamps at one instant in different zones are therefore different values here too. The timestamp step returns -1/0/1, so of its result only the sign is modelled.
- The ordinals of `FragmentType` are taken to follow the declaration order STRING, NUMBER, BOOLEAN, NULL, EMBEDDED_ARRAY, EMBEDDED_OBJECT, DELETED. FragmentType.java is not part of this model.
- The reactive persistence interfaces, the specification types, the initializer, the module descriptor and the tests lie outside the class and are not part of this model.
- `null` arguments of the static methods are not modelled; the parameters are values. In Java, `truncate(null)` throws `NullPointerException` at Fragment.java:46 and `computeIndexUnawarePath(null, list)` throws at :29. `computeIndexUnawarePath(path, null)` throws only at the first match (:35/:37) and returns normally for a path without matches.
- The `StringBuilder` of `computeIndexUnawarePath` is a `string` variable. `Integer.valueOf` is its decimal value plus the range check; leading zeros and values above `Integer.MAX_VALUE` are handled as `Integer.valueOf` handles them.
- Fragments.CompareTo is the corrected comparison (offsets by `Long.compare`). The ordering lemmas are about it. The comparison as written is Fragments.CompareToAsWritten, and it is related to the corrected one lemma by lemma in FragmentOrder.

## Findings

| source | as written | input that shows it | evidently intended | confidence | as-written member | corrected member |
|---|---|---|---|---|---|---|
| src/main/java/no/ssb/lds/api/persistence/Fragment.java:281-283 | `long l = offset - o.offset; if (l != 0) return (int) l;` narrows the offset difference to 32 bits | two chunks of one leaf at offsets 0 and 2^31: each compares before the other (`Integer.MIN_VALUE` both ways); offsets 0 and 2^32: they compare `0` although the offsets differ | order by `Long.compare(offset, o.offset)`, which is antisymmetric and transitive and zero only for equal offsets | not executed | FragmentOrder.OffsetCastBreaksAntisymmetry, FragmentOrder.OffsetCastHidesDifference | Fragments.CompareTo, with FragmentOrder.CompareToAntisymmetric and FragmentOrder.CompareToTransitive |
