/** What `Fragment`'s methods promise, proved about module Fragments:
    `compareTo` is a total order on fragments whose key fields are set (once
    its offset step is corrected), keeps the fragments of one path
    together, and relates to `equals` and `samePathAs` as stated below. */
module FragmentOrder {
  import opened JavaTypes
  import opened Fragments

  /** The six fields `compareTo` dereferences before the offset are non-null. */
  predicate KeyFieldsPresent(f: Fragment)
  {
    f.namespace.Some? && f.entity.Some? && f.id.Some? &&
    f.timestamp.Some? && f.path.Some? && f.fragmentType.Some?
  }

  /** The eight fields `compareTo` compares on data fragments are equal. */
  predicate SameOrderFields(a: Fragment, b: Fragment)
  {
    a.namespace == b.namespace && a.entity == b.entity && a.id == b.id &&
    a.timestamp == b.timestamp && a.path == b.path && a.fragmentType == b.fragmentType &&
    a.offset == b.offset && a.value == b.value
  }

  /** Outcomes of `x.compareTo(y)` and `y.compareTo(x)`: both throw, or both
      return, with opposite signs. */
  predicate Opposite(r: Result<int, FragmentError>, r': Result<int, FragmentError>)
  {
    (r.Failure? && r'.Failure?) ||
    (r.Success? && r'.Success? && Sign(r.value) == -Sign(r'.value))
  }

  /** `x.compareTo(y)` returned a negative number. */
  predicate Before(r: Result<int, FragmentError>)
  {
    r.Success? && r.value < 0
  }

  /** `x.compareTo(y)` returned zero or a negative number. */
  predicate NotAfter(r: Result<int, FragmentError>)
  {
    r.Success? && r.value <= 0
  }

  /** Two outcomes that both throw, or both return with the same sign. */
  predicate SameOutcome(r: Result<int, FragmentError>, r': Result<int, FragmentError>)
  {
    (r.Failure? && r'.Failure?) ||
    (r.Success? && r'.Success? && Sign(r.value) == Sign(r'.value))
  }

  /** The comparator laws for the outcomes on `(x, y)`, `(y, z)` and `(x, z)`:
      `<` is transitive, and an `x` equal to `y` compares with `z` as `y`
      does (and symmetrically). */
  predicate Transitive3(xy: Result<int, FragmentError>, yz: Result<int, FragmentError>, xz: Result<int, FragmentError>)
  {
    (Before(xy) && Before(yz) ==> Before(xz)) &&
    (xy == Success(0) ==> xz == yz) &&
    (yz == Success(0) ==> xz == xy)
  }

  // The comparison of one field.

  lemma StringFieldFacts(x: Option<string>, y: Option<string>, z: Option<string>)
    ensures Opposite(CompareStrings(x, y), CompareStrings(y, x))
    ensures Transitive3(CompareStrings(x, y), CompareStrings(y, z), CompareStrings(x, z))
    ensures CompareStrings(x, y) == Success(0) <==> x.Some? && x == y
  {
    if x.Some? && y.Some? && z.Some? {
      StringCompareToFacts(x.value, y.value, z.value);
    } else if x.Some? && y.Some? {
      StringCompareToFacts(x.value, y.value, x.value);
    }
  }

  lemma TimestampFieldFacts(x: Option<Timestamp>, y: Option<Timestamp>, z: Option<Timestamp>)
    ensures Opposite(CompareTimestamps(x, y), CompareTimestamps(y, x))
    ensures Transitive3(CompareTimestamps(x, y), CompareTimestamps(y, z), CompareTimestamps(x, z))
    ensures CompareTimestamps(x, y) == Success(0) <==> x.Some? && x == y
  {
  }

  lemma OrdinalInjective(s: FragmentType, t: FragmentType)
    ensures s.Ordinal() == t.Ordinal() <==> s == t
  {
  }

  lemma TypeFieldFacts(x: Option<FragmentType>, y: Option<FragmentType>, z: Option<FragmentType>)
    ensures Opposite(CompareTypes(x, y), CompareTypes(y, x))
    ensures Transitive3(CompareTypes(x, y), CompareTypes(y, z), CompareTypes(x, z))
    ensures CompareTypes(x, y) == Success(0) <==> x.Some? && x == y
  {
    if x.Some? && y.Some? {
      OrdinalInjective(x.value, y.value);
    }
    if x.Some? && z.Some? {
      OrdinalInjective(x.value, z.value);
    }
    if y.Some? && z.Some? {
      OrdinalInjective(y.value, z.value);
    }
  }

  lemma TailFacts(a: Fragment, b: Fragment, c: Fragment)
    ensures Opposite(Success(OffsetAndValue(a, b)), Success(OffsetAndValue(b, a)))
    ensures Transitive3(Success(OffsetAndValue(a, b)), Success(OffsetAndValue(b, c)), Success(OffsetAndValue(a, c)))
    ensures OffsetAndValue(a, b) == 0 <==> a.offset == b.offset && a.value == b.value
  {
    ByteArrayCompareFacts(a.value, b.value, c.value);
    ByteArrayCompareFacts(a.value, c.value, c.value);
    ByteArrayCompareFacts(b.value, c.value, c.value);
  }

  // The chain of fields.

  lemma AndThenOpposite(c: Result<int, FragmentError>, c': Result<int, FragmentError>,
                        n: Result<int, FragmentError>, n': Result<int, FragmentError>)
    requires Opposite(c, c') && Opposite(n, n')
    ensures Opposite(AndThen(c, n), AndThen(c', n'))
  {
  }

  lemma AndThenTransitive(xy: Result<int, FragmentError>, yz: Result<int, FragmentError>, xz: Result<int, FragmentError>,
                          nxy: Result<int, FragmentError>, nyz: Result<int, FragmentError>, nxz: Result<int, FragmentError>)
    requires Transitive3(xy, yz, xz) && Transitive3(nxy, nyz, nxz)
    ensures Transitive3(AndThen(xy, nxy), AndThen(yz, nyz), AndThen(xz, nxz))
  {
  }

  /** When `x` and `z` agree on a field and `x <= y <= z`, `y` agrees with
      both on that field, and `x <= y <= z` holds for the remaining fields. */
  lemma AndThenSandwich(xy: Result<int, FragmentError>, yz: Result<int, FragmentError>, xz: Result<int, FragmentError>,
                        nxy: Result<int, FragmentError>, nyz: Result<int, FragmentError>)
    requires Transitive3(xy, yz, xz) && xz == Success(0)
    requires NotAfter(AndThen(xy, nxy)) && NotAfter(AndThen(yz, nyz))
    ensures xy == Success(0) && yz == Success(0) && NotAfter(nxy) && NotAfter(nyz)
  {
  }

  lemma KeyFieldsOpposite(a: Fragment, b: Fragment)
    ensures Opposite(CompareKeyFields(a, b, OffsetAndValue(a, b)), CompareKeyFields(b, a, OffsetAndValue(b, a)))
  {
    StringFieldFacts(a.namespace, b.namespace, b.namespace);
    StringFieldFacts(a.entity, b.entity, b.entity);
    StringFieldFacts(a.id, b.id, b.id);
    TimestampFieldFacts(a.timestamp, b.timestamp, b.timestamp);
    StringFieldFacts(a.path, b.path, b.path);
    TypeFieldFacts(a.fragmentType, b.fragmentType, b.fragmentType);
    TailFacts(a, b, b);
    var tab, tba := Success(OffsetAndValue(a, b)), Success(OffsetAndValue(b, a));
    var r5, r5' := AndThen(CompareTypes(a.fragmentType, b.fragmentType), tab), AndThen(CompareTypes(b.fragmentType, a.fragmentType), tba);
    AndThenOpposite(CompareTypes(a.fragmentType, b.fragmentType), CompareTypes(b.fragmentType, a.fragmentType), tab, tba);
    var r4, r4' := AndThen(CompareStrings(a.path, b.path), r5), AndThen(CompareStrings(b.path, a.path), r5');
    AndThenOpposite(CompareStrings(a.path, b.path), CompareStrings(b.path, a.path), r5, r5');
    var r3, r3' := AndThen(CompareTimestamps(a.timestamp, b.timestamp), r4), AndThen(CompareTimestamps(b.timestamp, a.timestamp), r4');
    AndThenOpposite(CompareTimestamps(a.timestamp, b.timestamp), CompareTimestamps(b.timestamp, a.timestamp), r4, r4');
    var r2, r2' := AndThen(CompareStrings(a.id, b.id), r3), AndThen(CompareStrings(b.id, a.id), r3');
    AndThenOpposite(CompareStrings(a.id, b.id), CompareStrings(b.id, a.id), r3, r3');
    var r1, r1' := AndThen(CompareStrings(a.entity, b.entity), r2), AndThen(CompareStrings(b.entity, a.entity), r2');
    AndThenOpposite(CompareStrings(a.entity, b.entity), CompareStrings(b.entity, a.entity), r2, r2');
    AndThenOpposite(CompareStrings(a.namespace, b.namespace), CompareStrings(b.namespace, a.namespace), r1, r1');
  }

  lemma KeyFieldsTransitive(a: Fragment, b: Fragment, c: Fragment)
    ensures Transitive3(CompareKeyFields(a, b, OffsetAndValue(a, b)),
                        CompareKeyFields(b, c, OffsetAndValue(b, c)),
                        CompareKeyFields(a, c, OffsetAndValue(a, c)))
  {
    StringFieldFacts(a.namespace, b.namespace, c.namespace);
    StringFieldFacts(a.entity, b.entity, c.entity);
    StringFieldFacts(a.id, b.id, c.id);
    TimestampFieldFacts(a.timestamp, b.timestamp, c.timestamp);
    StringFieldFacts(a.path, b.path, c.path);
    TypeFieldFacts(a.fragmentType, b.fragmentType, c.fragmentType);
    TailFacts(a, b, c);
    var tab, tbc, tac := Success(OffsetAndValue(a, b)), Success(OffsetAndValue(b, c)), Success(OffsetAndValue(a, c));
    AndThenTransitive(CompareTypes(a.fragmentType, b.fragmentType), CompareTypes(b.fragmentType, c.fragmentType),
                      CompareTypes(a.fragmentType, c.fragmentType), tab, tbc, tac);
    var r5ab := AndThen(CompareTypes(a.fragmentType, b.fragmentType), tab);
    var r5bc := AndThen(CompareTypes(b.fragmentType, c.fragmentType), tbc);
    var r5ac := AndThen(CompareTypes(a.fragmentType, c.fragmentType), tac);
    AndThenTransitive(CompareStrings(a.path, b.path), CompareStrings(b.path, c.path), CompareStrings(a.path, c.path), r5ab, r5bc, r5ac);
    var r4ab := AndThen(CompareStrings(a.path, b.path), r5ab);
    var r4bc := AndThen(CompareStrings(b.path, c.path), r5bc);
    var r4ac := AndThen(CompareStrings(a.path, c.path), r5ac);
    AndThenTransitive(CompareTimestamps(a.timestamp, b.timestamp), CompareTimestamps(b.timestamp, c.timestamp),
                      CompareTimestamps(a.timestamp, c.timestamp), r4ab, r4bc, r4ac);
    var r3ab := AndThen(CompareTimestamps(a.timestamp, b.timestamp), r4ab);
    var r3bc := AndThen(CompareTimestamps(b.timestamp, c.timestamp), r4bc);
    var r3ac := AndThen(CompareTimestamps(a.timestamp, c.timestamp), r4ac);
    AndThenTransitive(CompareStrings(a.id, b.id), CompareStrings(b.id, c.id), CompareStrings(a.id, c.id), r3ab, r3bc, r3ac);
    var r2ab := AndThen(CompareStrings(a.id, b.id), r3ab);
    var r2bc := AndThen(CompareStrings(b.id, c.id), r3bc);
    var r2ac := AndThen(CompareStrings(a.id, c.id), r3ac);
    AndThenTransitive(CompareStrings(a.entity, b.entity), CompareStrings(b.entity, c.entity), CompareStrings(a.entity, c.entity), r2ab, r2bc, r2ac);
    var r1ab := AndThen(CompareStrings(a.entity, b.entity), r2ab);
    var r1bc := AndThen(CompareStrings(b.entity, c.entity), r2bc);
    var r1ac := AndThen(CompareStrings(a.entity, c.entity), r2ac);
    AndThenTransitive(CompareStrings(a.namespace, b.namespace), CompareStrings(b.namespace, c.namespace),
                      CompareStrings(a.namespace, c.namespace), r1ab, r1bc, r1ac);
  }

  lemma KeyFieldsZero(a: Fragment, b: Fragment)
    ensures CompareKeyFields(a, b, OffsetAndValue(a, b)) == Success(0) <==> KeyFieldsPresent(a) && SameOrderFields(a, b)
  {
    StringFieldFacts(a.namespace, b.namespace, b.namespace);
    StringFieldFacts(a.entity, b.entity, b.entity);
    StringFieldFacts(a.id, b.id, b.id);
    TimestampFieldFacts(a.timestamp, b.timestamp, b.timestamp);
    StringFieldFacts(a.path, b.path, b.path);
    TypeFieldFacts(a.fragmentType, b.fragmentType, b.fragmentType);
    TailFacts(a, b, b);
  }

  // compareTo as a total order.

  /** A control fragment sorts after every data fragment; two control
      fragments compare by the sign of the difference of their codes; a
      fragment is equal to itself. The same holds as written. */
  lemma ControlOrdering(a: Fragment, b: Fragment)
    ensures CompareTo(a, a) == Success(0) && CompareToAsWritten(a, a) == Success(0)
    ensures a.streamingControl && !b.streamingControl ==>
      CompareTo(a, b) == Success(INT_MAX) && CompareTo(b, a) == Success(INT_MIN) &&
      CompareToAsWritten(a, b) == Success(INT_MAX) && CompareToAsWritten(b, a) == Success(INT_MIN)
    ensures a.streamingControl && b.streamingControl ==>
      CompareTo(a, b).Success? && Sign(CompareTo(a, b).value) == Sign(a.controlCode - b.controlCode) &&
      CompareToAsWritten(a, b) == CompareTo(a, b)
  {
  }

  /** `compareTo` never throws when each side is a control fragment or has
      all its key fields set, and throws when two distinct data fragments
      differ at a field that is null. */
  lemma CompareToThrows(a: Fragment, b: Fragment)
    ensures (a.streamingControl || KeyFieldsPresent(a)) && (b.streamingControl || KeyFieldsPresent(b)) ==>
      CompareTo(a, b).Success? && CompareToAsWritten(a, b).Success?
    ensures a != b && !a.streamingControl && !b.streamingControl && (a.namespace.None? || b.namespace.None?) ==>
      CompareTo(a, b) == Failure(NullPointerException) && CompareToAsWritten(a, b) == Failure(NullPointerException)
  {
  }

  /** `sign(a.compareTo(b)) == -sign(b.compareTo(a))`, and one throws exactly
      when the other does. */
  lemma CompareToAntisymmetric(a: Fragment, b: Fragment)
    ensures Opposite(CompareTo(a, b), CompareTo(b, a))
  {
    KeyFieldsOpposite(a, b);
  }

  /** Zero exactly for the same fragment, two control fragments with equal
      codes, or two data fragments equal on every compared field. */
  lemma CompareToZero(a: Fragment, b: Fragment)
    ensures CompareTo(a, b) == Success(0) <==>
      a == b ||
      (a.streamingControl && b.streamingControl && a.controlCode == b.controlCode) ||
      (!a.streamingControl && !b.streamingControl && KeyFieldsPresent(a) && SameOrderFields(a, b))
  {
    KeyFieldsZero(a, b);
  }

  lemma DataTransitive(a: Fragment, b: Fragment, c: Fragment)
    requires !a.streamingControl && !b.streamingControl && !c.streamingControl
    ensures Transitive3(CompareTo(a, b), CompareTo(b, c), CompareTo(a, c))
  {
    KeyFieldsTransitive(a, b, c);
    if a == b || b == c || a == c {
      KeyFieldsZero(a, b);
      KeyFieldsZero(b, c);
      KeyFieldsZero(b, a);
      KeyFieldsZero(c, b);
      KeyFieldsOpposite(a, b);
      KeyFieldsOpposite(b, c);
    }
  }

  /** The comparator laws over any three fragments. */
  lemma CompareToTransitive(a: Fragment, b: Fragment, c: Fragment)
    ensures Transitive3(CompareTo(a, b), CompareTo(b, c), CompareTo(a, c))
  {
    if !a.streamingControl && !b.streamingControl && !c.streamingControl {
      DataTransitive(a, b, c);
    } else {
      CompareToZero(a, b);
      CompareToZero(b, c);
      CompareToAntisymmetric(a, b);
    }
  }

  /** Fragments of one path are contiguous in the order: a fragment between
      two fragments of the same path has that path. */
  lemma SamePathContiguous(a: Fragment, b: Fragment, c: Fragment)
    requires !a.streamingControl && !b.streamingControl && !c.streamingControl
    requires KeyFieldsPresent(a) && KeyFieldsPresent(b) && KeyFieldsPresent(c)
    requires NotAfter(CompareTo(a, b)) && NotAfter(CompareTo(b, c))
    requires SamePathAs(a, Some(c))
    ensures SamePathAs(a, Some(b)) && SamePathAs(b, Some(c))
  {
    if a != b && b != c {
      StringFieldFacts(a.namespace, b.namespace, c.namespace);
      StringFieldFacts(a.entity, b.entity, c.entity);
      StringFieldFacts(a.id, b.id, c.id);
      TimestampFieldFacts(a.timestamp, b.timestamp, c.timestamp);
      StringFieldFacts(a.path, b.path, c.path);
      var r5ab := AndThen(CompareTypes(a.fragmentType, b.fragmentType), Success(OffsetAndValue(a, b)));
      var r5bc := AndThen(CompareTypes(b.fragmentType, c.fragmentType), Success(OffsetAndValue(b, c)));
      var r4ab := AndThen(CompareStrings(a.path, b.path), r5ab);
      var r4bc := AndThen(CompareStrings(b.path, c.path), r5bc);
      var r3ab := AndThen(CompareTimestamps(a.timestamp, b.timestamp), r4ab);
      var r3bc := AndThen(CompareTimestamps(b.timestamp, c.timestamp), r4bc);
      var r2ab := AndThen(CompareStrings(a.id, b.id), r3ab);
      var r2bc := AndThen(CompareStrings(b.id, c.id), r3bc);
      var r1ab := AndThen(CompareStrings(a.entity, b.entity), r2ab);
      var r1bc := AndThen(CompareStrings(b.entity, c.entity), r2bc);
      AndThenSandwich(CompareStrings(a.namespace, b.namespace), CompareStrings(b.namespace, c.namespace),
                      CompareStrings(a.namespace, c.namespace), r1ab, r1bc);
      AndThenSandwich(CompareStrings(a.entity, b.entity), CompareStrings(b.entity, c.entity),
                      CompareStrings(a.entity, c.entity), r2ab, r2bc);
      AndThenSandwich(CompareStrings(a.id, b.id), CompareStrings(b.id, c.id), CompareStrings(a.id, c.id), r3ab, r3bc);
      AndThenSandwich(CompareTimestamps(a.timestamp, b.timestamp), CompareTimestamps(b.timestamp, c.timestamp),
                      CompareTimestamps(a.timestamp, c.timestamp), r4ab, r4bc);
      AndThenSandwich(CompareStrings(a.path, b.path), CompareStrings(b.path, c.path), CompareStrings(a.path, c.path), r5ab, r5bc);
    }
  }

  // compareTo as written.

  /** When the offsets differ by an amount that fits in an `int`, the source's
      comparison has the sign of the corrected one. */
  lemma AsWrittenAgreesWhenOffsetsClose(a: Fragment, b: Fragment)
    requires INT_MIN <= a.offset - b.offset <= INT_MAX
    ensures CompareToAsWritten(a, b).Success? <==> CompareTo(a, b).Success?
    ensures CompareTo(a, b).Success? ==> Sign(CompareToAsWritten(a, b).value) == Sign(CompareTo(a, b).value)
  {
    assert Sign(OffsetAndValueAsWritten(a, b)) == Sign(OffsetAndValue(a, b));
  }

  /** Hence antisymmetric as written when the offsets differ by less than 2^31. */
  lemma AsWrittenAntisymmetricWhenOffsetsClose(a: Fragment, b: Fragment)
    requires -INT_MAX <= a.offset - b.offset <= INT_MAX
    ensures Opposite(CompareToAsWritten(a, b), CompareToAsWritten(b, a))
  {
    AsWrittenAgreesWhenOffsetsClose(a, b);
    AsWrittenAgreesWhenOffsetsClose(b, a);
    CompareToAntisymmetric(a, b);
  }

  /** Transitive as written when every two of the three offsets differ by
      less than 2^31: before and before give before, and a tie on either
      side leaves the other comparison's outcome and sign unchanged. */
  lemma AsWrittenTransitiveWhenOffsetsClose(a: Fragment, b: Fragment, c: Fragment)
    requires -INT_MAX <= a.offset - b.offset <= INT_MAX
    requires -INT_MAX <= b.offset - c.offset <= INT_MAX
    requires -INT_MAX <= a.offset - c.offset <= INT_MAX
    ensures Before(CompareToAsWritten(a, b)) && Before(CompareToAsWritten(b, c)) ==> Before(CompareToAsWritten(a, c))
    ensures CompareToAsWritten(a, b) == Success(0) ==> SameOutcome(CompareToAsWritten(a, c), CompareToAsWritten(b, c))
    ensures CompareToAsWritten(b, c) == Success(0) ==> SameOutcome(CompareToAsWritten(a, c), CompareToAsWritten(a, b))
  {
    AsWrittenAgreesWhenOffsetsClose(a, b);
    AsWrittenAgreesWhenOffsetsClose(b, c);
    AsWrittenAgreesWhenOffsetsClose(a, c);
    CompareToTransitive(a, b, c);
  }

  /** The chunk at offset `offset` of one leaf. */
  function Chunk(offset: Long): Fragment
  {
    DataFragment(Some("ns"), Some("Person"), Some("1"), Some(0), Some("$.name"), Some(STRING), offset, Some([]))
  }

  /** A nonzero `long` difference of two `long` values does not wrap to zero. */
  lemma WrapLongNonzero(x: Long, y: Long)
    requires x != y
    ensures WrapLong(x - y) != 0
  {
    var d := x - y;
    assert -0x1_0000_0000_0000_0000 < d < 0x1_0000_0000_0000_0000 && d != 0;
  }

  /** Two chunks of one leaf, that is two data fragments with their key
      fields set, the same path coordinates and the same type, at different
      offsets, are ordered by the offset step alone and never reach the
      value comparison: by `Long.compare` when corrected, by the narrowed
      `long` difference as written. */
  lemma ChunksCompareByOffset(a: Fragment, b: Fragment)
    requires !a.streamingControl && !b.streamingControl
    requires KeyFieldsPresent(a) && KeyFieldsPresent(b)
    requires SamePathAs(a, Some(b)) && a.fragmentType == b.fragmentType && a.offset != b.offset
    ensures CompareTo(a, b) == Success(OffsetAndValue(a, b))
    ensures CompareToAsWritten(a, b) == Success(OffsetAndValueAsWritten(a, b))
    ensures CompareTo(a, b) == Success(LongCompare(a.offset, b.offset))
    ensures CompareToAsWritten(a, b) == Success(ToInt32(WrapLong(a.offset - b.offset)))
  {
    StringFieldFacts(a.namespace, b.namespace, b.namespace);
    StringFieldFacts(a.entity, b.entity, b.entity);
    StringFieldFacts(a.id, b.id, b.id);
    TimestampFieldFacts(a.timestamp, b.timestamp, b.timestamp);
    StringFieldFacts(a.path, b.path, b.path);
    TypeFieldFacts(a.fragmentType, b.fragmentType, b.fragmentType);
    WrapLongNonzero(a.offset, b.offset);
  }

  /** As written, the offset step turns an offset difference of 2^31 either
      way into `Integer.MIN_VALUE` ... */
  lemma OffsetCastOverflows(a: Fragment, b: Fragment)
    requires a.offset - b.offset == 0x8000_0000 || a.offset - b.offset == -0x8000_0000
    ensures OffsetAndValueAsWritten(a, b) == INT_MIN
  {
  }

  /** ... and an offset difference of 2^32 into zero. */
  lemma OffsetCastVanishes(a: Fragment, b: Fragment)
    requires a.offset - b.offset == 0x1_0000_0000
    ensures OffsetAndValueAsWritten(a, b) == 0
  {
  }

  /** As written, the chunk at offset 2^31 sorts before the chunk at offset 0
      and the chunk at offset 0 sorts before it, while the corrected
      comparison puts offset 0 first. */
  lemma OffsetCastBreaksAntisymmetry()
    ensures Before(CompareToAsWritten(Chunk(0x8000_0000), Chunk(0)))
    ensures Before(CompareToAsWritten(Chunk(0), Chunk(0x8000_0000)))
    ensures CompareTo(Chunk(0), Chunk(0x8000_0000)) == Success(-1)
    ensures CompareTo(Chunk(0x8000_0000), Chunk(0)) == Success(1)
  {
    ChunksCompareByOffset(Chunk(0x8000_0000), Chunk(0));
    ChunksCompareByOffset(Chunk(0), Chunk(0x8000_0000));
    OffsetCastOverflows(Chunk(0x8000_0000), Chunk(0));
    OffsetCastOverflows(Chunk(0), Chunk(0x8000_0000));
  }

  /** As written, the chunks at offsets 2^32 and 0 compare equal although
      they differ; the corrected comparison puts offset 0 first. */
  lemma OffsetCastHidesDifference()
    ensures Chunk(0x1_0000_0000) != Chunk(0)
    ensures CompareToAsWritten(Chunk(0x1_0000_0000), Chunk(0)) == Success(0)
    ensures CompareTo(Chunk(0x1_0000_0000), Chunk(0)) == Success(1)
  {
    ChunksCompareByOffset(Chunk(0x1_0000_0000), Chunk(0));
    OffsetCastVanishes(Chunk(0x1_0000_0000), Chunk(0));
  }

  // samePathAs and equals.

  /** `samePathAs` is an equivalence on fragments and false for `null`. */
  lemma SamePathAsEquivalence(a: Fragment, b: Fragment, c: Fragment)
    ensures SamePathAs(a, Some(a)) && !SamePathAs(a, None)
    ensures SamePathAs(a, Some(b)) ==> SamePathAs(b, Some(a))
    ensures SamePathAs(a, Some(b)) && SamePathAs(b, Some(c)) ==> SamePathAs(a, Some(c))
  {
  }

  /** `samePathAs` does not look at the kind, code, type, offset or value. */
  lemma SamePathAsIgnoresPayload(a: Fragment, b: Fragment, control: bool, code: Short,
                                 t: Option<FragmentType>, offset: Long, value: Option<seq<Byte>>)
    ensures SamePathAs(a.(streamingControl := control, controlCode := code, fragmentType := t, offset := offset, value := value), Some(b))
      == SamePathAs(a, Some(b))
  {
  }

  /** `equals` is an equivalence on fragments and false for `null`. */
  lemma EqualsEquivalence(a: Fragment, b: Fragment, c: Fragment)
    ensures Equals(a, Some(a)) && !Equals(a, None)
    ensures Equals(a, Some(b)) ==> Equals(b, Some(a))
    ensures Equals(a, Some(b)) && Equals(b, Some(c)) ==> Equals(a, Some(c))
  {
  }

  /** `equals` does not look at the kind, code or type. */
  lemma EqualsIgnoresKindAndType(a: Fragment, b: Fragment, control: bool, code: Short, t: Option<FragmentType>)
    ensures Equals(a.(streamingControl := control, controlCode := code, fragmentType := t), Some(b)) == Equals(a, Some(b))
  {
  }

  lemma EqualsImpliesSamePath(a: Fragment, o: Option<Fragment>)
    ensures Equals(a, o) ==> SamePathAs(a, o)
  {
  }

  /** Two data fragments that `compareTo` finds equal are `equals`. */
  lemma CompareZeroImpliesEquals(a: Fragment, b: Fragment)
    requires !a.streamingControl && !b.streamingControl
    ensures CompareTo(a, b) == Success(0) ==> Equals(a, Some(b))
  {
    CompareToZero(a, b);
  }

  /** The converse fails: `equals` ignores the type, which `compareTo` orders
      by, and it takes the two sentinels for equal. */
  lemma EqualsInconsistentWithCompareTo()
    ensures Equals(Chunk(0), Some(Chunk(0).(fragmentType := Some(DELETED))))
    ensures Before(CompareTo(Chunk(0), Chunk(0).(fragmentType := Some(DELETED))))
    ensures Equals(DONE_NOT_LIMITED, Some(DONE_NOT_LIMITED.(controlCode := LIMITED_CODE)))
    ensures CompareTo(DONE_NOT_LIMITED, DONE_NOT_LIMITED.(controlCode := LIMITED_CODE)) == Success(1)
    ensures IsNotLimited(DONE_NOT_LIMITED) != IsNotLimited(DONE_NOT_LIMITED.(controlCode := LIMITED_CODE))
  {
    var s := Some("ns");
    StringFieldFacts(s, s, s);
    StringFieldFacts(Some("Person"), Some("Person"), Some("Person"));
    StringFieldFacts(Some("1"), Some("1"), Some("1"));
    StringFieldFacts(Some("$.name"), Some("$.name"), Some("$.name"));
  }

  // Streaming control, deleteMarker and truncate.

  /** `isLimited` and `isNotLimited` throw exactly on data fragments; on a
      control fragment at most one holds. */
  lemma ControlPredicates(f: Fragment)
    ensures IsLimited(f) == Failure(IllegalStateException) <==> !f.streamingControl
    ensures IsNotLimited(f) == Failure(IllegalStateException) <==> !f.streamingControl
    ensures f.streamingControl ==> !(IsLimited(f) == Success(true) && IsNotLimited(f) == Success(true))
  {
  }

  /** `DONE_NOT_LIMITED` is a control fragment that is not limited and sorts
      after every data fragment. */
  lemma DoneNotLimitedFacts(f: Fragment)
    ensures IsNotLimited(DONE_NOT_LIMITED) == Success(true) && IsLimited(DONE_NOT_LIMITED) == Success(false)
    ensures !f.streamingControl ==> CompareTo(DONE_NOT_LIMITED, f) == Success(INT_MAX)
  {
  }

  /** Only the `DELETED` type marks a deletion; a null type does not. */
  lemma DeleteMarkerOnlyDeleted(f: Fragment)
    ensures DeleteMarker(f) <==> f.fragmentType.Some? && f.fragmentType.value == DELETED
    ensures f.fragmentType.None? ==> !DeleteMarker(f)
  {
  }

  lemma TruncateIdempotent(v: string)
    ensures Truncate(Truncate(v)) == Truncate(v)
    ensures |v| <= TRUNCATED_VALUE_LENGTH ==> Truncate(v) == v
  {
  }
}
