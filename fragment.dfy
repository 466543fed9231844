/** `Fragment`, the storage unit of the flattened-document store: one chunk
    of the value at one path of one version of one document, or a
    streaming-control sentinel that ends a result stream. The record is
    immutable, so it is a datatype; its methods are functions over it. */
module Fragments {
  import opened JavaTypes

  /** Length bound of `truncate`. */
  const TRUNCATED_VALUE_LENGTH: nat := 100

  /** Control code of the sentinel that ends a stream cut off by a limit. */
  const LIMITED_CODE: Short := 41
  /** Control code of the sentinel that ends a complete stream. */
  const NOT_LIMITED_CODE: Short := 42

  /** The value type of a leaf; the enum's constants in declaration order. */
  datatype FragmentType = STRING | NUMBER | BOOLEAN | NULL | EMBEDDED_ARRAY | EMBEDDED_OBJECT | DELETED
  {
    /** `Enum.ordinal()`. */
    function Ordinal(): nat
    {
      match this
      case STRING => 0
      case NUMBER => 1
      case BOOLEAN => 2
      case NULL => 3
      case EMBEDDED_ARRAY => 4
      case EMBEDDED_OBJECT => 5
      case DELETED => 6
    }
  }

  /** A `ZonedDateTime` version timestamp, as its rank in the total order of
      `ZonedDateTime.compareTo` (instant, then local date-time, then zone),
      which is consistent with `ZonedDateTime.equals`. */
  type Timestamp = int

  /** Java exceptions the operations of `Fragment` can throw. */
  datatype FragmentError = NullPointerException | IllegalStateException

  /** The ten final fields; `None` is `null`. */
  datatype Fragment = Fragment(
    streamingControl: bool,
    controlCode: Short,
    namespace: Option<string>,
    entity: Option<string>,
    id: Option<string>,
    timestamp: Option<Timestamp>,
    path: Option<string>,
    fragmentType: Option<FragmentType>,
    offset: Long,
    value: Option<seq<Byte>>)

  /** The eight-argument constructor, which builds a data fragment. */
  function DataFragment(namespace: Option<string>, entity: Option<string>, id: Option<string>,
                        timestamp: Option<Timestamp>, path: Option<string>, fragmentType: Option<FragmentType>,
                        offset: Long, value: Option<seq<Byte>>): Fragment
  {
    Fragment(false, 0, namespace, entity, id, timestamp, path, fragmentType, offset, value)
  }

  /** The sentinel that ends a stream all of whose results were sent. */
  const DONE_NOT_LIMITED: Fragment := Fragment(true, NOT_LIMITED_CODE, None, None, None, None, None, None, 0, None)

  /** `truncate`: the first `TRUNCATED_VALUE_LENGTH` characters, or the whole value. */
  function Truncate(v: string): (r: string)
    ensures |r| == if |v| <= TRUNCATED_VALUE_LENGTH then |v| else TRUNCATED_VALUE_LENGTH
    ensures r == v[..|r|]
  {
    if |v| <= TRUNCATED_VALUE_LENGTH then v else v[..TRUNCATED_VALUE_LENGTH]
  }

  /** `isLimited`: only a streaming-control fragment can answer. */
  function IsLimited(f: Fragment): Result<bool, FragmentError>
  {
    if !f.streamingControl then Failure(IllegalStateException)
    else Success(f.controlCode == LIMITED_CODE)
  }

  /** `isNotLimited`: only a streaming-control fragment can answer. */
  function IsNotLimited(f: Fragment): Result<bool, FragmentError>
  {
    if !f.streamingControl then Failure(IllegalStateException)
    else Success(f.controlCode == NOT_LIMITED_CODE)
  }

  /** `deleteMarker`: the fragment is the tombstone of a deleted document;
      a `null` type is not. */
  predicate DeleteMarker(f: Fragment)
  {
    Some(DELETED) == f.fragmentType
  }

  /** `samePathAs`. Value equality stands for the reference test `this == o`. */
  predicate SamePathAs(f: Fragment, o: Option<Fragment>)
  {
    if o == Some(f) then true
    else if o.None? then false
    else
      f.namespace == o.value.namespace &&
      f.entity == o.value.entity &&
      f.id == o.value.id &&
      f.timestamp == o.value.timestamp &&
      f.path == o.value.path
  }

  /** `equals`. `Objects.equals` and `Arrays.equals` are equality of the
      possibly-null values. */
  predicate Equals(f: Fragment, o: Option<Fragment>)
  {
    if o == Some(f) then true
    else if o.None? then false
    else
      f.offset == o.value.offset &&
      f.namespace == o.value.namespace &&
      f.entity == o.value.entity &&
      f.id == o.value.id &&
      f.timestamp == o.value.timestamp &&
      f.path == o.value.path &&
      f.value == o.value.value
  }

  // compareTo

  /** `x.compareTo(y)` on two `String` fields; `null` on either side throws. */
  function CompareStrings(x: Option<string>, y: Option<string>): Result<int, FragmentError>
  {
    if x.Some? && y.Some? then Success(StringCompareTo(x.value, y.value))
    else Failure(NullPointerException)
  }

  /** `ZonedDateTime.compareTo`, chronological. */
  function CompareTimestamps(x: Option<Timestamp>, y: Option<Timestamp>): Result<int, FragmentError>
  {
    if x.Some? && y.Some? then Success(LongCompare(x.value, y.value))
    else Failure(NullPointerException)
  }

  /** `Enum.compareTo`: the difference of the ordinals. */
  function CompareTypes(x: Option<FragmentType>, y: Option<FragmentType>): Result<int, FragmentError>
  {
    if x.Some? && y.Some? then Success(x.value.Ordinal() - y.value.Ordinal())
    else Failure(NullPointerException)
  }

  /** One step of the comparison chain: a throw or a non-zero result is
      returned, zero goes on to the next field. */
  function AndThen(c: Result<int, FragmentError>, next: Result<int, FragmentError>): Result<int, FragmentError>
  {
    if c.Failure? || c.value != 0 then c else next
  }

  /** The comparison of two data fragments over namespace, entity, id,
      timestamp, path and fragment type in that order, `tail` deciding when
      all six are equal. */
  function CompareKeyFields(a: Fragment, b: Fragment, tail: int): Result<int, FragmentError>
  {
    AndThen(CompareStrings(a.namespace, b.namespace),
    AndThen(CompareStrings(a.entity, b.entity),
    AndThen(CompareStrings(a.id, b.id),
    AndThen(CompareTimestamps(a.timestamp, b.timestamp),
    AndThen(CompareStrings(a.path, b.path),
    AndThen(CompareTypes(a.fragmentType, b.fragmentType),
    Success(tail)))))))
  }

  /** `compareTo` with `tail` as the result of its offset and value steps:
      the same fragment is equal to itself, control fragments sort after
      data fragments and among themselves by control code. */
  function CompareWithTail(a: Fragment, b: Fragment, tail: int): Result<int, FragmentError>
  {
    if a == b then Success(0)
    else if a.streamingControl && b.streamingControl then Success(a.controlCode - b.controlCode)
    else if a.streamingControl then Success(INT_MAX)
    else if b.streamingControl then Success(INT_MIN)
    else CompareKeyFields(a, b, tail)
  }

  /** The offset and value steps as the source writes them: the `long`
      difference of the offsets, when not zero, cast to `int`; otherwise
      `Arrays.compare` of the values. */
  function OffsetAndValueAsWritten(a: Fragment, b: Fragment): int
  {
    var l := WrapLong(a.offset - b.offset);
    if l != 0 then ToInt32(l) else ByteArrayCompare(a.value, b.value)
  }

  /** The offset and value steps with the offsets compared by `Long.compare`. */
  function OffsetAndValue(a: Fragment, b: Fragment): int
  {
    var c := LongCompare(a.offset, b.offset);
    if c != 0 then c else ByteArrayCompare(a.value, b.value)
  }

  /** `compareTo` exactly as written. */
  function CompareToAsWritten(a: Fragment, b: Fragment): Result<int, FragmentError>
  {
    CompareWithTail(a, b, OffsetAndValueAsWritten(a, b))
  }

  /** `compareTo` with the offset step corrected. */
  function CompareTo(a: Fragment, b: Fragment): Result<int, FragmentError>
  {
    CompareWithTail(a, b, OffsetAndValue(a, b))
  }
}
