/** `Fragment.computeIndexUnawarePath`: replaces every array index `[n]` or
    `[]` of a document path by `[]` and appends the indices, in order, to a
    caller-supplied list (`null` for `[]`).

    The results are defined here on the path itself, reading it from a
    position onwards: one match of the regular expression `\[([0-9]*)\]` or
    one character outside every match at a time, in the order in which
    successive `Matcher.find` calls meet them. The method is proved against
    these definitions; module PathLex views the same path as a sequence of
    tokens and proves the structural properties. */
module PathIndex {
  import opened JavaTypes

  predicate IsDigit(c: char)
  {
    '0' <= c <= '9'
  }

  /** End of the longest run of ASCII digits of `s` that starts at `i`. */
  function DigitsEnd(s: string, i: nat): (j: nat)
    requires i <= |s|
    ensures i <= j <= |s|
    decreases |s| - i
  {
    if i < |s| && IsDigit(s[i]) then DigitsEnd(s, i + 1) else i
  }

  /** The run is all digits and cannot be extended. */
  lemma {:induction false} DigitsEndIsMaximal(s: string, i: nat)
    requires i <= |s|
    ensures forall k :: i <= k < DigitsEnd(s, i) ==> IsDigit(s[k])
    ensures DigitsEnd(s, i) < |s| ==> !IsDigit(s[DigitsEnd(s, i)])
    decreases |s| - i
  {
    if i < |s| && IsDigit(s[i]) {
      DigitsEndIsMaximal(s, i + 1);
    }
  }

  /** `]` follows the run of digits that starts at `i`. */
  predicate ClosesAt(s: string, i: nat)
    requires i <= |s|
  {
    DigitsEnd(s, i) < |s| && s[DigitsEnd(s, i)] == ']'
  }

  /** The pattern `\[([0-9]*)\]` matches at position `i`. The greedy
      `[0-9]*` can only be followed by `]` if it took the whole run of
      digits, so backtracking finds no other match starting at `i`. */
  predicate MatchAt(s: string, i: nat)
    requires i <= |s|
  {
    i < |s| && s[i] == '[' && ClosesAt(s, i + 1)
  }

  /** The position just after the match at `i`. */
  function MatchEnd(s: string, i: nat): (e: nat)
    requires i <= |s| && MatchAt(s, i)
    ensures i + 2 <= e <= |s|
  {
    DigitsEnd(s, i + 1) + 1
  }

  /** The digit group of the match at `i`. */
  function GroupAt(s: string, i: nat): string
    requires i <= |s| && MatchAt(s, i)
  {
    s[i + 1..MatchEnd(s, i) - 1]
  }

  /** What computeIndexUnawarePath returns for the path from `p` on: every
      match replaced by `[]`, every other character kept. */
  function UnawareFrom(s: string, p: nat): string
    requires p <= |s|
    decreases |s| - p
  {
    if p == |s| then []
    else if MatchAt(s, p) then "[]" + UnawareFrom(s, MatchEnd(s, p))
    else [s[p]] + UnawareFrom(s, p + 1)
  }

  function Unaware(path: string): string
  {
    UnawareFrom(path, 0)
  }

  function DigitValue(c: char): nat
  {
    if IsDigit(c) then c as int - '0' as int else 0
  }

  /** Value of a string of decimal digits (leading zeros allowed), as
      `Integer.valueOf` computes it before its range check. */
  function DecimalValue(d: string): nat
  {
    if d == [] then 0
    else 10 * DecimalValue(d[..|d| - 1]) + DigitValue(d[|d| - 1])
  }

  /** The character of a digit value. */
  function DigitChar(v: nat): char
    requires v < 10
  {
    ('0' as int + v) as char
  }

  /** `Integer.toString` of a non-negative number: its decimal digits,
      without a leading zero. */
  function Decimal(n: nat): string
    decreases n
  {
    if n < 10 then [DigitChar(n)] else Decimal(n / 10) + [DigitChar(n % 10)]
  }

  /** A digit string as `Integer.toString` writes one: `0`, or no leading zero. */
  predicate Canonical(d: string)
  {
    d == "0" || (d != [] && d[0] != '0')
  }

  lemma {:induction false} LeadingDigitPositive(d: string)
    requires d != [] && d[0] != '0'
    requires forall k :: 0 <= k < |d| ==> IsDigit(d[k])
    ensures DecimalValue(d) >= 1
    decreases |d|
  {
    if |d| > 1 {
      LeadingDigitPositive(d[..|d| - 1]);
    }
  }

  /** Reading back what `Integer.toString` writes gives the number. */
  lemma {:induction false} ValueOfDecimal(n: nat)
    ensures Canonical(Decimal(n))
    ensures forall k :: 0 <= k < |Decimal(n)| ==> IsDigit(Decimal(n)[k])
    ensures DecimalValue(Decimal(n)) == n
    decreases n
  {
    if n >= 10 {
      ValueOfDecimal(n / 10);
      var x := Decimal(n / 10);
      assert Decimal(n)[..|Decimal(n)| - 1] == x;
    }
  }

  /** Writing out the value of a canonical digit string gives that string:
      only leading zeros are lost by `Integer.valueOf`. */
  lemma {:induction false} DecimalOfValue(d: string)
    requires Canonical(d)
    requires forall k :: 0 <= k < |d| ==> IsDigit(d[k])
    ensures Decimal(DecimalValue(d)) == d
    decreases |d|
  {
    var p := d[..|d| - 1];
    var c := d[|d| - 1];
    assert DigitChar(DigitValue(c)) == c;
    if |d| == 1 {
      assert d == [c];
    } else {
      assert p[0] == d[0];
      LeadingDigitPositive(p);
      DecimalOfValue(p);
      var v := DecimalValue(p);
      assert DecimalValue(d) == 10 * v + DigitValue(c);
      assert DecimalValue(d) / 10 == v && DecimalValue(d) % 10 == DigitValue(c);
      assert d == p + [c];
    }
  }

  /** The list entry for a digit group: `null` for `[]`, else the number. */
  function IndexOf(d: string): Option<int>
  {
    if d == [] then None else Some(DecimalValue(d))
  }

  /** `Integer.valueOf` accepts the group: its value is at most `Integer.MAX_VALUE`. */
  predicate GroupFits(d: string)
  {
    DecimalValue(d) <= INT_MAX
  }

  /** One entry per match from `p` on, left to right. */
  function IndicesFrom(s: string, p: nat): seq<Option<int>>
    requires p <= |s|
    decreases |s| - p
  {
    if p == |s| then []
    else if MatchAt(s, p) then [IndexOf(GroupAt(s, p))] + IndicesFrom(s, MatchEnd(s, p))
    else IndicesFrom(s, p + 1)
  }

  function Indices(path: string): seq<Option<int>>
  {
    IndicesFrom(path, 0)
  }

  /** Every digit group from `p` on fits in an `int`. */
  predicate AllFitFrom(s: string, p: nat)
    requires p <= |s|
    decreases |s| - p
  {
    if p == |s| then true
    else if MatchAt(s, p) then GroupFits(GroupAt(s, p)) && AllFitFrom(s, MatchEnd(s, p))
    else AllFitFrom(s, p + 1)
  }

  predicate AllFit(path: string)
  {
    AllFitFrom(path, 0)
  }

  /** The entries appended before `Integer.valueOf` throws on the first digit
      group that does not fit: all of them when none fails. */
  function UntilOverflowFrom(s: string, p: nat): seq<Option<int>>
    requires p <= |s|
    decreases |s| - p
  {
    if p == |s| then []
    else if MatchAt(s, p) then
      if GroupFits(GroupAt(s, p)) then [IndexOf(GroupAt(s, p))] + UntilOverflowFrom(s, MatchEnd(s, p))
      else []
    else UntilOverflowFrom(s, p + 1)
  }

  function IndicesUntilOverflow(path: string): seq<Option<int>>
  {
    UntilOverflowFrom(path, 0)
  }

  /** When every group fits, all entries are appended; otherwise exactly those
      of the matches before the first group that does not fit. */
  lemma {:induction false} UntilOverflowIsPrefix(s: string, p: nat)
    requires p <= |s|
    ensures AllFitFrom(s, p) ==> UntilOverflowFrom(s, p) == IndicesFrom(s, p)
    ensures !AllFitFrom(s, p) ==>
      |UntilOverflowFrom(s, p)| < |IndicesFrom(s, p)| &&
      UntilOverflowFrom(s, p) == IndicesFrom(s, p)[..|UntilOverflowFrom(s, p)|]
    decreases |s| - p
  {
    if p < |s| {
      if MatchAt(s, p) {
        UntilOverflowIsPrefix(s, MatchEnd(s, p));
      } else {
        UntilOverflowIsPrefix(s, p + 1);
      }
    }
  }

  /** Between two matches, the characters are copied ... */
  lemma SkipOneChar(s: string, from: nat, start: nat)
    requires from < start <= |s| && !MatchAt(s, from)
    requires UnawareFrom(s, from + 1) == s[from + 1..start] + UnawareFrom(s, start)
    ensures UnawareFrom(s, from) == s[from..start] + UnawareFrom(s, start)
  {
    var rest := UnawareFrom(s, start);
    assert UnawareFrom(s, from) == [s[from]] + UnawareFrom(s, from + 1);
    assert s[from..start] == [s[from]] + s[from + 1..start];
    assert [s[from]] + (s[from + 1..start] + rest) == ([s[from]] + s[from + 1..start]) + rest;
  }

  lemma {:induction false} SkipUnaware(s: string, from: nat, start: nat)
    requires from <= start <= |s|
    requires forall k :: from <= k < start ==> !MatchAt(s, k)
    ensures UnawareFrom(s, from) == s[from..start] + UnawareFrom(s, start)
    decreases start - from
  {
    if from < start {
      SkipUnaware(s, from + 1, start);
      SkipOneChar(s, from, start);
    } else {
      assert s[from..start] == [];
    }
  }

  /** ... and add no entry. */
  lemma {:induction false} SkipIndices(s: string, from: nat, start: nat)
    requires from <= start <= |s|
    requires forall k :: from <= k < start ==> !MatchAt(s, k)
    ensures IndicesFrom(s, from) == IndicesFrom(s, start)
    decreases start - from
  {
    if from < start {
      SkipIndices(s, from + 1, start);
    }
  }

  lemma {:induction false} SkipUntilOverflow(s: string, from: nat, start: nat)
    requires from <= start <= |s|
    requires forall k :: from <= k < start ==> !MatchAt(s, k)
    ensures UntilOverflowFrom(s, from) == UntilOverflowFrom(s, start)
    decreases start - from
  {
    if from < start {
      SkipUntilOverflow(s, from + 1, start);
    }
  }

  lemma {:induction false} SkipAllFit(s: string, from: nat, start: nat)
    requires from <= start <= |s|
    requires forall k :: from <= k < start ==> !MatchAt(s, k)
    ensures AllFitFrom(s, from) <==> AllFitFrom(s, start)
    decreases start - from
  {
    if from < start {
      SkipAllFit(s, from + 1, start);
    }
  }

  lemma SkipText(s: string, from: nat, start: nat)
    requires from <= start <= |s|
    requires forall k :: from <= k < start ==> !MatchAt(s, k)
    ensures UnawareFrom(s, from) == s[from..start] + UnawareFrom(s, start)
    ensures IndicesFrom(s, from) == IndicesFrom(s, start)
    ensures UntilOverflowFrom(s, from) == UntilOverflowFrom(s, start)
    ensures AllFitFrom(s, from) <==> AllFitFrom(s, start)
  {
    SkipUnaware(s, from, start);
    SkipIndices(s, from, start);
    SkipUntilOverflow(s, from, start);
    SkipAllFit(s, from, start);
  }

  /** Every path without a match is returned unchanged and adds no entry. */
  lemma NoMatchUnchanged(path: string)
    requires forall k :: 0 <= k < |path| ==> !MatchAt(path, k)
    ensures Unaware(path) == path && Indices(path) == [] && AllFit(path)
  {
    SkipText(path, 0, |path|);
    assert path[0..|path|] == path;
  }

  /** The caller's `List<Integer>`, which computeIndexUnawarePath only
      appends to; `None` is a `null` element. */
  class IndexList {
    var items: seq<Option<int>>

    constructor ()
      ensures items == []
    {
      items := [];
    }

    /** `List.add`. */
    method Add(x: Option<int>)
      modifies this
      ensures items == old(items) + [x]
    {
      items := items + [x];
    }
  }

  datatype PathError = NumberFormatException

  /** One iteration of the loop of computeIndexUnawarePath: the text before
      the match is copied, the match becomes `[]` and adds its entry. */
  lemma StepOverMatch(path: string, prevEnd: nat, start: nat, end: nat, sb: string, added: seq<Option<int>>)
    requires prevEnd <= start < end <= |path| && MatchAt(path, start) && end == MatchEnd(path, start)
    requires forall k :: prevEnd <= k < start ==> !MatchAt(path, k)
    ensures sb + UnawareFrom(path, prevEnd) == (sb + path[prevEnd..start] + "[]") + UnawareFrom(path, end)
    ensures added + IndicesFrom(path, prevEnd) == (added + [IndexOf(path[start + 1..end - 1])]) + IndicesFrom(path, end)
    ensures GroupFits(path[start + 1..end - 1]) ==>
      added + UntilOverflowFrom(path, prevEnd) == (added + [IndexOf(path[start + 1..end - 1])]) + UntilOverflowFrom(path, end)
    ensures !GroupFits(path[start + 1..end - 1]) ==> added + UntilOverflowFrom(path, prevEnd) == added
    ensures AllFitFrom(path, prevEnd) <==> GroupFits(path[start + 1..end - 1]) && AllFitFrom(path, end)
  {
    StepText(path, prevEnd, start, end, sb);
    StepEntries(path, prevEnd, start, end, added);
  }

  lemma StepText(path: string, prevEnd: nat, start: nat, end: nat, sb: string)
    requires prevEnd <= start < end <= |path| && MatchAt(path, start) && end == MatchEnd(path, start)
    requires forall k :: prevEnd <= k < start ==> !MatchAt(path, k)
    ensures sb + UnawareFrom(path, prevEnd) == (sb + path[prevEnd..start] + "[]") + UnawareFrom(path, end)
  {
    SkipUnaware(path, prevEnd, start);
    var x := path[prevEnd..start];
    var y := UnawareFrom(path, end);
    assert UnawareFrom(path, start) == "[]" + y;
    assert sb + (x + ("[]" + y)) == (sb + x + "[]") + y;
  }

  lemma StepEntries(path: string, prevEnd: nat, start: nat, end: nat, added: seq<Option<int>>)
    requires prevEnd <= start < end <= |path| && MatchAt(path, start) && end == MatchEnd(path, start)
    requires forall k :: prevEnd <= k < start ==> !MatchAt(path, k)
    ensures added + IndicesFrom(path, prevEnd) == (added + [IndexOf(path[start + 1..end - 1])]) + IndicesFrom(path, end)
    ensures GroupFits(path[start + 1..end - 1]) ==>
      added + UntilOverflowFrom(path, prevEnd) == (added + [IndexOf(path[start + 1..end - 1])]) + UntilOverflowFrom(path, end)
    ensures !GroupFits(path[start + 1..end - 1]) ==> added + UntilOverflowFrom(path, prevEnd) == added
    ensures AllFitFrom(path, prevEnd) <==> GroupFits(path[start + 1..end - 1]) && AllFitFrom(path, end)
  {
    SkipIndices(path, prevEnd, start);
    SkipUntilOverflow(path, prevEnd, start);
    SkipAllFit(path, prevEnd, start);
    assert GroupAt(path, start) == path[start + 1..end - 1];
  }

  /** After the last match, the rest of the path is copied and adds no entry. */
  lemma AfterLastMatch(path: string, prevEnd: nat)
    requires prevEnd <= |path|
    requires forall k :: prevEnd <= k < |path| ==> !MatchAt(path, k)
    ensures UnawareFrom(path, prevEnd) == path[prevEnd..]
    ensures IndicesFrom(path, prevEnd) == [] && UntilOverflowFrom(path, prevEnd) == []
    ensures AllFitFrom(path, prevEnd)
  {
    SkipText(path, prevEnd, |path|);
    assert path[prevEnd..|path|] + UnawareFrom(path, |path|) == path[prevEnd..];
  }

  /** `Matcher.find` from position `from`: the leftmost match starting at or
      after `from`, with its start and end, or none. */
  method Find(path: string, from: nat) returns (found: bool, start: nat, end: nat)
    requires from <= |path|
    ensures found ==> from <= start < end <= |path| && MatchAt(path, start) && end == MatchEnd(path, start)
    ensures found ==> forall k :: from <= k < start ==> !MatchAt(path, k)
    ensures !found ==> forall k :: from <= k < |path| ==> !MatchAt(path, k)
  {
    var i := from;
    while i < |path|
      invariant from <= i <= |path|
      invariant forall k :: from <= k < i ==> !MatchAt(path, k)
    {
      if MatchAt(path, i) {
        return true, i, MatchEnd(path, i);
      }
      i := i + 1;
    }
    return false, 0, 0;
  }

  /** `computeIndexUnawarePath`. Returns the index-unaware path and appends
      one entry per match to `indices`; throws `NumberFormatException` when a
      digit group exceeds `Integer.MAX_VALUE`, after the entries of the
      earlier matches have been appended. */
  method ComputeIndexUnawarePath(path: string, indices: IndexList) returns (r: Result<string, PathError>)
    modifies indices
    ensures AllFit(path) ==>
      r == Success(Unaware(path)) && indices.items == old(indices.items) + Indices(path)
    ensures !AllFit(path) ==>
      r == Failure(NumberFormatException) &&
      indices.items == old(indices.items) + IndicesUntilOverflow(path)
  {
    var sb: string := "";
    var prevEnd: nat := 0;
    ghost var added: seq<Option<int>> := [];
    var found, start, end := Find(path, prevEnd);
    while found
      invariant prevEnd <= |path|
      invariant Unaware(path) == sb + UnawareFrom(path, prevEnd)
      invariant Indices(path) == added + IndicesFrom(path, prevEnd)
      invariant IndicesUntilOverflow(path) == added + UntilOverflowFrom(path, prevEnd)
      invariant AllFit(path) <==> AllFitFrom(path, prevEnd)
      invariant indices.items == old(indices.items) + added
      invariant found ==> prevEnd <= start < end <= |path| && MatchAt(path, start) && end == MatchEnd(path, start)
      invariant found ==> forall k :: prevEnd <= k < start ==> !MatchAt(path, k)
      invariant !found ==> forall k :: prevEnd <= k < |path| ==> !MatchAt(path, k)
      decreases |path| - prevEnd
    {
      var group := path[start + 1..end - 1];
      StepOverMatch(path, prevEnd, start, end, sb, added);
      sb := sb + path[prevEnd..start] + "[]";
      if group == [] {
        indices.Add(None);
      } else {
        if !GroupFits(group) {
          return Failure(NumberFormatException);
        }
        indices.Add(Some(DecimalValue(group)));
      }
      added := added + [IndexOf(group)];
      prevEnd := end;
      found, start, end := Find(path, prevEnd);
    }
    AfterLastMatch(path, prevEnd);
    sb := sb + path[prevEnd..];
    return Success(sb);
  }
}
