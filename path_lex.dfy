/** The structure behind computeIndexUnawarePath: a path read as the
    sequence of tokens that successive `Matcher.find` calls cut it into (a
    character outside every match, or one match `[digits]` of
    `\[([0-9]*)\]`). The lemmas here connect the definitions of module
    PathIndex to that token view and prove what the operation promises as a
    whole: the text outside the matches is kept verbatim and in order, there
    is one index entry per match, and the operation is idempotent. */
module PathLex {
  import opened JavaTypes
  import opened PathIndex

  datatype Token = Text(c: char) | Bracket(digits: string)

  /** The tokens of `s` from position `p` on. */
  function LexFrom(s: string, p: nat): seq<Token>
    requires p <= |s|
    decreases |s| - p
  {
    if p == |s| then []
    else if MatchAt(s, p) then [Bracket(GroupAt(s, p))] + LexFrom(s, MatchEnd(s, p))
    else [Text(s[p])] + LexFrom(s, p + 1)
  }

  function Lex(s: string): seq<Token>
  {
    LexFrom(s, 0)
  }

  function RenderToken(t: Token): string
  {
    match t
    case Text(c) => [c]
    case Bracket(d) => "[" + d + "]"
  }

  /** The string a token sequence spells. */
  function Render(ts: seq<Token>): string
  {
    if ts == [] then [] else RenderToken(ts[0]) + Render(ts[1..])
  }

  /** Every bracket emptied, as computeIndexUnawarePath writes it. */
  function Blank(ts: seq<Token>): (r: seq<Token>)
    ensures |r| == |ts|
  {
    if ts == [] then []
    else if ts[0].Bracket? then [Bracket("")] + Blank(ts[1..])
    else [ts[0]] + Blank(ts[1..])
  }

  /** The digit groups of the brackets, left to right. */
  function Groups(ts: seq<Token>): seq<string>
  {
    if ts == [] then []
    else if ts[0].Bracket? then [ts[0].digits] + Groups(ts[1..])
    else Groups(ts[1..])
  }

  /** Puts the groups `gs` back into successive brackets of `ts`. */
  function Fill(ts: seq<Token>, gs: seq<string>): seq<Token>
  {
    if ts == [] then []
    else if ts[0].Bracket? && gs != [] then [Bracket(gs[0])] + Fill(ts[1..], gs[1..])
    else [ts[0]] + Fill(ts[1..], gs)
  }

  predicate AllDigits(d: string)
  {
    forall k :: 0 <= k < |d| ==> IsDigit(d[k])
  }

  /** The tokens spell digits followed by `]`. */
  predicate ClosesAfter(ts: seq<Token>)
  {
    ts != [] &&
    (ts[0] == Text(']') || (ts[0].Text? && IsDigit(ts[0].c) && ClosesAfter(ts[1..])))
  }

  /** The token sequences the lexer can produce: brackets hold digits only,
      and a `[` kept as text is not the start of a match. */
  predicate WellFormed(ts: seq<Token>)
  {
    ts == [] ||
    ((match ts[0]
      case Text(c) => c == '[' ==> !ClosesAfter(ts[1..])
      case Bracket(d) => AllDigits(d)) &&
     WellFormed(ts[1..]))
  }

  // Matching only looks forward: two strings whose suffixes agree are cut
  // into the same tokens there.

  /** `s` from `i` on and `t` from `j` on are the same characters. */
  predicate SameSuffix(s: string, i: nat, t: string, j: nat)
  {
    i <= |s| && j <= |t| && |s| - i == |t| - j &&
    forall k :: i <= k < |s| ==> s[k] == t[k - i + j]
  }

  lemma {:induction false} DigitsEndShift(s: string, i: nat, t: string, j: nat)
    requires SameSuffix(s, i, t, j)
    ensures DigitsEnd(s, i) - i == DigitsEnd(t, j) - j
    decreases |s| - i
  {
    if i < |s| {
      assert s[i] == t[j];
      DigitsEndShift(s, i + 1, t, j + 1);
    }
  }

  lemma ClosesAtShift(s: string, i: nat, t: string, j: nat)
    requires SameSuffix(s, i, t, j)
    ensures ClosesAt(s, i) <==> ClosesAt(t, j)
  {
    DigitsEndShift(s, i, t, j);
  }

  lemma MatchAtShift(s: string, i: nat, t: string, j: nat)
    requires SameSuffix(s, i, t, j)
    ensures MatchAt(s, i) <==> MatchAt(t, j)
    ensures MatchAt(s, i) ==>
      MatchEnd(s, i) - i == MatchEnd(t, j) - j && GroupAt(s, i) == GroupAt(t, j) &&
      SameSuffix(s, MatchEnd(s, i), t, MatchEnd(t, j))
  {
    if i < |s| {
      assert s[i] == t[j];
      ClosesAtShift(s, i + 1, t, j + 1);
      if MatchAt(s, i) {
        DigitsEndShift(s, i + 1, t, j + 1);
        assert GroupAt(s, i) == GroupAt(t, j);
      }
    }
  }

  lemma ConcatSuffix(x: string, r: string)
    ensures SameSuffix(x + r, |x|, r, 0)
  {
  }

  lemma LexFromText(s: string, i: nat)
    requires i < |s| && !MatchAt(s, i)
    ensures LexFrom(s, i) == [Text(s[i])] + LexFrom(s, i + 1)
  {
  }

  lemma LexFromMatch(s: string, i: nat)
    requires i < |s| && MatchAt(s, i)
    ensures LexFrom(s, i) == [Bracket(GroupAt(s, i))] + LexFrom(s, MatchEnd(s, i))
  {
  }

  lemma SameSuffixNext(s: string, i: nat, t: string, j: nat)
    requires SameSuffix(s, i, t, j) && i < |s|
    ensures j < |t| && s[i] == t[j] && SameSuffix(s, i + 1, t, j + 1)
  {
    assert s[i] == t[i - i + j];
  }

  lemma LexShiftMatch(s: string, i: nat, t: string, j: nat)
    requires i < |s| && j < |t| && MatchAt(s, i) && MatchAt(t, j) && GroupAt(s, i) == GroupAt(t, j)
    requires LexFrom(s, MatchEnd(s, i)) == LexFrom(t, MatchEnd(t, j))
    ensures LexFrom(s, i) == LexFrom(t, j)
  {
    LexFromMatch(s, i);
    LexFromMatch(t, j);
  }

  lemma LexShiftText(s: string, i: nat, t: string, j: nat)
    requires i < |s| && j < |t| && !MatchAt(s, i) && !MatchAt(t, j) && s[i] == t[j]
    requires LexFrom(s, i + 1) == LexFrom(t, j + 1)
    ensures LexFrom(s, i) == LexFrom(t, j)
  {
    LexFromText(s, i);
    LexFromText(t, j);
  }

  lemma {:induction false} LexShift(s: string, i: nat, t: string, j: nat)
    requires SameSuffix(s, i, t, j)
    ensures LexFrom(s, i) == LexFrom(t, j)
    decreases |s| - i
  {
    if i < |s| {
      MatchAtShift(s, i, t, j);
      SameSuffixNext(s, i, t, j);
      if MatchAt(s, i) {
        LexShift(s, MatchEnd(s, i), t, MatchEnd(t, j));
        LexShiftMatch(s, i, t, j);
      } else {
        LexShift(s, i + 1, t, j + 1);
        LexShiftText(s, i, t, j);
      }
    }
  }

  /** A run of digits from `i` to `j` that cannot be extended is the one
      DigitsEnd finds. */
  lemma {:induction false} DigitsEndAt(s: string, i: nat, j: nat)
    requires i <= j <= |s|
    requires forall k :: i <= k < j ==> IsDigit(s[k])
    requires j < |s| ==> !IsDigit(s[j])
    ensures DigitsEnd(s, i) == j
    decreases j - i
  {
    if i < j {
      DigitsEndAt(s, i + 1, j);
    }
  }

  // Rendering and lexing are inverse.

  lemma RenderCons(t: Token, ts: seq<Token>)
    ensures Render([t] + ts) == RenderToken(t) + Render(ts)
  {
    assert ([t] + ts)[1..] == ts;
  }

  /** A match spans `[`, its group and `]`. */
  lemma SplitAtMatch(s: string, p: nat)
    requires p < |s| && MatchAt(s, p)
    ensures s[p..] == "[" + GroupAt(s, p) + "]" + s[MatchEnd(s, p)..]
  {
    var e := MatchEnd(s, p);
    assert s[p..] == s[p..e] + s[e..];
    assert s[p..e] == "[" + s[p + 1..e - 1] + "]";
  }

  lemma RenderLexMatch(s: string, p: nat)
    requires p < |s| && MatchAt(s, p)
    requires Render(LexFrom(s, MatchEnd(s, p))) == s[MatchEnd(s, p)..]
    ensures Render(LexFrom(s, p)) == s[p..]
  {
    LexFromMatch(s, p);
    RenderCons(Bracket(GroupAt(s, p)), LexFrom(s, MatchEnd(s, p)));
    SplitAtMatch(s, p);
  }

  lemma RenderLexText(s: string, p: nat)
    requires p < |s| && !MatchAt(s, p)
    requires Render(LexFrom(s, p + 1)) == s[p + 1..]
    ensures Render(LexFrom(s, p)) == s[p..]
  {
    LexFromText(s, p);
    RenderCons(Text(s[p]), LexFrom(s, p + 1));
    assert s[p..] == [s[p]] + s[p + 1..];
  }

  lemma {:induction false} RenderLex(s: string, p: nat)
    requires p <= |s|
    ensures Render(LexFrom(s, p)) == s[p..]
    decreases |s| - p
  {
    if p < |s| {
      if MatchAt(s, p) {
        RenderLex(s, MatchEnd(s, p));
        RenderLexMatch(s, p);
      } else {
        RenderLex(s, p + 1);
        RenderLexText(s, p);
      }
    }
  }

  lemma {:induction false} ClosesAfterRender(ts: seq<Token>)
    ensures ClosesAfter(ts) <==> ClosesAt(Render(ts), 0)
    decreases |ts|
  {
    if ts != [] {
      var u := Render(ts);
      var r := Render(ts[1..]);
      assert u == RenderToken(ts[0]) + r;
      match ts[0]
      case Text(c) =>
        if c != ']' && IsDigit(c) {
          ClosesAfterRender(ts[1..]);
          DigitsEndShift(u, 1, r, 0);
        }
      case Bracket(d) =>
    }
  }

  lemma ClosesAfterLex(s: string, i: nat)
    requires i <= |s|
    ensures ClosesAfter(LexFrom(s, i)) <==> ClosesAt(s, i)
  {
    ClosesAfterRender(LexFrom(s, i));
    RenderLex(s, i);
    ClosesAtShift(s, i, s[i..], 0);
  }

  /** The lexer produces only well-formed token sequences. */
  lemma {:induction false} LexWellFormed(s: string, p: nat)
    requires p <= |s|
    ensures WellFormed(LexFrom(s, p))
    decreases |s| - p
  {
    if p < |s| {
      var ts := LexFrom(s, p);
      if MatchAt(s, p) {
        LexWellFormed(s, MatchEnd(s, p));
        DigitsEndIsMaximal(s, p + 1);
        assert ts[1..] == LexFrom(s, MatchEnd(s, p));
      } else {
        LexWellFormed(s, p + 1);
        ClosesAfterLex(s, p + 1);
        assert ts[1..] == LexFrom(s, p + 1);
      }
    }
  }

  /** A character outside every match, followed by tokens that lex back. */
  lemma LexRenderText(ts: seq<Token>)
    requires ts != [] && ts[0].Text?
    requires ts[0].c != '[' || !ClosesAfter(ts[1..])
    requires Lex(Render(ts[1..])) == ts[1..]
    ensures Lex(Render(ts)) == ts
  {
    var r := Render(ts[1..]);
    var u := [ts[0].c] + r;
    assert Render(ts) == u;
    ConcatSuffix([ts[0].c], r);
    LexShift(u, 1, r, 0);
    if ts[0].c == '[' {
      ClosesAtShift(u, 1, r, 0);
      ClosesAfterRender(ts[1..]);
    }
    assert !MatchAt(u, 0);
    LexFromText(u, 0);
    assert ts == [ts[0]] + ts[1..];
  }

  /** `[digits]` at the start of a string is a match of exactly that group. */
  lemma BracketMatches(d: string, r: string)
    requires AllDigits(d)
    ensures MatchAt("[" + d + "]" + r, 0)
    ensures MatchEnd("[" + d + "]" + r, 0) == |d| + 2
    ensures GroupAt("[" + d + "]" + r, 0) == d
  {
    var u := "[" + d + "]" + r;
    DigitsEndAt(u, 1, 1 + |d|);
    assert u[1 + |d|] == ']';
    assert u[1..1 + |d|] == d;
  }

  /** A bracket of digits, followed by tokens that lex back. */
  lemma LexRenderBracket(ts: seq<Token>)
    requires ts != [] && ts[0].Bracket? && AllDigits(ts[0].digits)
    requires Lex(Render(ts[1..])) == ts[1..]
    ensures Lex(Render(ts)) == ts
  {
    var d := ts[0].digits;
    var r := Render(ts[1..]);
    var x := "[" + d + "]";
    var u := x + r;
    assert Render(ts) == u;
    BracketMatches(d, r);
    ConcatSuffix(x, r);
    LexShift(u, |x|, r, 0);
    LexFromMatch(u, 0);
    assert ts == [ts[0]] + ts[1..];
  }

  lemma LexRenderStep(ts: seq<Token>)
    requires ts != [] && WellFormed(ts)
    requires Lex(Render(ts[1..])) == ts[1..]
    ensures Lex(Render(ts)) == ts
  {
    if ts[0].Text? {
      LexRenderText(ts);
    } else {
      LexRenderBracket(ts);
    }
  }

  lemma {:induction false} LexRender(ts: seq<Token>)
    requires WellFormed(ts)
    ensures Lex(Render(ts)) == ts
    decreases |ts|
  {
    if ts != [] {
      LexRender(ts[1..]);
      LexRenderStep(ts);
    }
  }

  // Blanking the brackets.

  lemma {:induction false} BlankClosesAfter(ts: seq<Token>)
    ensures ClosesAfter(Blank(ts)) <==> ClosesAfter(ts)
    decreases |ts|
  {
    if ts != [] {
      BlankClosesAfter(ts[1..]);
      assert Blank(ts)[1..] == Blank(ts[1..]);
    }
  }

  lemma {:induction false} BlankWellFormed(ts: seq<Token>)
    requires WellFormed(ts)
    ensures WellFormed(Blank(ts))
    decreases |ts|
  {
    if ts != [] {
      BlankWellFormed(ts[1..]);
      BlankClosesAfter(ts[1..]);
      assert Blank(ts)[1..] == Blank(ts[1..]);
    }
  }

  lemma {:induction false} BlankIdempotent(ts: seq<Token>)
    ensures Blank(Blank(ts)) == Blank(ts)
    decreases |ts|
  {
    if ts != [] {
      BlankIdempotent(ts[1..]);
      assert Blank(ts)[1..] == Blank(ts[1..]);
    }
  }

  /** Blanking keeps the number of brackets and empties each group. */
  lemma {:induction false} GroupsOfBlank(ts: seq<Token>)
    ensures |Groups(Blank(ts))| == |Groups(ts)|
    ensures forall k :: 0 <= k < |Groups(Blank(ts))| ==> Groups(Blank(ts))[k] == ""
    decreases |ts|
  {
    if ts != [] {
      GroupsOfBlank(ts[1..]);
      assert Blank(ts)[1..] == Blank(ts[1..]);
    }
  }

  /** Putting the groups back into the blanked brackets restores the tokens. */
  lemma {:induction false} FillBlank(ts: seq<Token>)
    ensures Fill(Blank(ts), Groups(ts)) == ts
    decreases |ts|
  {
    if ts != [] {
      FillBlank(ts[1..]);
      assert Blank(ts)[1..] == Blank(ts[1..]);
      if ts[0].Bracket? {
        assert Groups(ts)[1..] == Groups(ts[1..]);
      }
      assert ts == [ts[0]] + ts[1..];
    }
  }

  // The definitions of PathIndex in terms of the tokens.

  lemma BlankCons(t: Token, ts: seq<Token>)
    ensures Blank([t] + ts) == [if t.Bracket? then Bracket("") else t] + Blank(ts)
  {
    assert ([t] + ts)[1..] == ts;
  }

  lemma GroupsCons(t: Token, ts: seq<Token>)
    ensures Groups([t] + ts) == (if t.Bracket? then [t.digits] else []) + Groups(ts)
  {
    assert ([t] + ts)[1..] == ts;
  }

  lemma UnawareMatch(s: string, p: nat)
    requires p < |s| && MatchAt(s, p)
    requires UnawareFrom(s, MatchEnd(s, p)) == Render(Blank(LexFrom(s, MatchEnd(s, p))))
    ensures UnawareFrom(s, p) == Render(Blank(LexFrom(s, p)))
  {
    var rest := LexFrom(s, MatchEnd(s, p));
    LexFromMatch(s, p);
    BlankCons(Bracket(GroupAt(s, p)), rest);
    RenderCons(Bracket(""), Blank(rest));
  }

  lemma UnawareText(s: string, p: nat)
    requires p < |s| && !MatchAt(s, p)
    requires UnawareFrom(s, p + 1) == Render(Blank(LexFrom(s, p + 1)))
    ensures UnawareFrom(s, p) == Render(Blank(LexFrom(s, p)))
  {
    var rest := LexFrom(s, p + 1);
    LexFromText(s, p);
    BlankCons(Text(s[p]), rest);
    RenderCons(Text(s[p]), Blank(rest));
  }

  /** The returned path is the token sequence with every bracket blanked. */
  lemma {:induction false} UnawareIsBlankedTokens(s: string, p: nat)
    requires p <= |s|
    ensures UnawareFrom(s, p) == Render(Blank(LexFrom(s, p)))
    decreases |s| - p
  {
    if p < |s| {
      if MatchAt(s, p) {
        UnawareIsBlankedTokens(s, MatchEnd(s, p));
        UnawareMatch(s, p);
      } else {
        UnawareIsBlankedTokens(s, p + 1);
        UnawareText(s, p);
      }
    }
  }

  /** The index entry of each group, in order. */
  function EntriesOf(gs: seq<string>): (r: seq<Option<int>>)
    ensures |r| == |gs|
    ensures forall k :: 0 <= k < |gs| ==> r[k] == IndexOf(gs[k])
  {
    seq(|gs|, k requires 0 <= k < |gs| => IndexOf(gs[k]))
  }

  lemma IndicesMatch(s: string, p: nat)
    requires p < |s| && MatchAt(s, p)
    requires IndicesFrom(s, MatchEnd(s, p)) == EntriesOf(Groups(LexFrom(s, MatchEnd(s, p))))
    ensures IndicesFrom(s, p) == EntriesOf(Groups(LexFrom(s, p)))
  {
    var rest := LexFrom(s, MatchEnd(s, p));
    LexFromMatch(s, p);
    GroupsCons(Bracket(GroupAt(s, p)), rest);
    assert EntriesOf([GroupAt(s, p)] + Groups(rest)) == [IndexOf(GroupAt(s, p))] + EntriesOf(Groups(rest));
  }

  lemma IndicesText(s: string, p: nat)
    requires p < |s| && !MatchAt(s, p)
    requires IndicesFrom(s, p + 1) == EntriesOf(Groups(LexFrom(s, p + 1)))
    ensures IndicesFrom(s, p) == EntriesOf(Groups(LexFrom(s, p)))
  {
    LexFromText(s, p);
    GroupsCons(Text(s[p]), LexFrom(s, p + 1));
  }

  /** One entry per bracket, in order: `null` for `[]`, the value otherwise. */
  lemma {:induction false} IndicesFollowGroups(s: string, p: nat)
    requires p <= |s|
    ensures IndicesFrom(s, p) == EntriesOf(Groups(LexFrom(s, p)))
    decreases |s| - p
  {
    if p < |s| {
      if MatchAt(s, p) {
        IndicesFollowGroups(s, MatchEnd(s, p));
        IndicesMatch(s, p);
      } else {
        IndicesFollowGroups(s, p + 1);
        IndicesText(s, p);
      }
    }
  }

  predicate AllGroupsFit(gs: seq<string>)
  {
    forall k :: 0 <= k < |gs| ==> GroupFits(gs[k])
  }

  lemma AllGroupsFitCons(g: string, gs: seq<string>)
    ensures AllGroupsFit([g] + gs) <==> GroupFits(g) && AllGroupsFit(gs)
  {
    var all := [g] + gs;
    assert all[0] == g;
    assert forall k :: 1 <= k < |all| ==> all[k] == gs[k - 1];
    if GroupFits(g) && AllGroupsFit(gs) {
      forall k | 0 <= k < |all| ensures GroupFits(all[k]) {
        if k > 0 {
          assert GroupFits(gs[k - 1]);
        }
      }
    }
    if AllGroupsFit(all) {
      forall k | 0 <= k < |gs| ensures GroupFits(gs[k]) {
        assert all[k + 1] == gs[k];
      }
    }
  }

  lemma AllFitMatch(s: string, p: nat)
    requires p < |s| && MatchAt(s, p)
    requires AllFitFrom(s, MatchEnd(s, p)) <==> AllGroupsFit(Groups(LexFrom(s, MatchEnd(s, p))))
    ensures AllFitFrom(s, p) <==> AllGroupsFit(Groups(LexFrom(s, p)))
  {
    var gs := Groups(LexFrom(s, MatchEnd(s, p)));
    var g := GroupAt(s, p);
    LexFromMatch(s, p);
    GroupsCons(Bracket(g), LexFrom(s, MatchEnd(s, p)));
    AllGroupsFitCons(g, gs);
  }

  lemma AllFitText(s: string, p: nat)
    requires p < |s| && !MatchAt(s, p)
    requires AllFitFrom(s, p + 1) <==> AllGroupsFit(Groups(LexFrom(s, p + 1)))
    ensures AllFitFrom(s, p) <==> AllGroupsFit(Groups(LexFrom(s, p)))
  {
    LexFromText(s, p);
    GroupsCons(Text(s[p]), LexFrom(s, p + 1));
  }

  /** No exception is thrown exactly when every group fits in an `int`. */
  lemma {:induction false} AllFitFollowsGroups(s: string, p: nat)
    requires p <= |s|
    ensures AllFitFrom(s, p) <==> AllGroupsFit(Groups(LexFrom(s, p)))
    decreases |s| - p
  {
    if p < |s| {
      if MatchAt(s, p) {
        AllFitFollowsGroups(s, MatchEnd(s, p));
        AllFitMatch(s, p);
      } else {
        AllFitFollowsGroups(s, p + 1);
        AllFitText(s, p);
      }
    }
  }

  // What computeIndexUnawarePath promises as a whole.

  /** The returned path lexes to the original tokens with every bracket
      blanked: the text outside the matches is kept verbatim and in order,
      and every match becomes `[]`. */
  lemma UnawareTokens(path: string)
    ensures Lex(Unaware(path)) == Blank(Lex(path))
  {
    UnawareIsBlankedTokens(path, 0);
    LexWellFormed(path, 0);
    BlankWellFormed(Lex(path));
    LexRender(Blank(Lex(path)));
  }

  /** Running the operation on its own output returns the same path, appends
      one `null` per bracket pair and never throws. */
  lemma Idempotent(path: string)
    ensures Unaware(Unaware(path)) == Unaware(path)
    ensures |Indices(Unaware(path))| == |Indices(path)|
    ensures forall k :: 0 <= k < |Indices(Unaware(path))| ==> Indices(Unaware(path))[k] == None
    ensures AllFit(Unaware(path))
  {
    var u := Unaware(path);
    UnawareTokens(path);
    UnawareIsBlankedTokens(path, 0);
    UnawareIsBlankedTokens(u, 0);
    BlankIdempotent(Lex(path));
    IndicesFollowGroups(path, 0);
    IndicesFollowGroups(u, 0);
    GroupsOfBlank(Lex(path));
    AllFitFollowsGroups(u, 0);
    assert IndexOf("") == None && GroupFits("");
  }

  /** Putting the digit groups back into the brackets of the returned path,
      in order, gives the original path: nothing but the groups is lost. */
  lemma GroupsRestorePath(path: string)
    ensures Render(Fill(Lex(Unaware(path)), Groups(Lex(path)))) == path
  {
    UnawareTokens(path);
    FillBlank(Lex(path));
    RenderLex(path, 0);
  }
  // What the caller receives: the path and the `Integer` entries.

  /** The digit group a list entry stands for: empty for `null`, otherwise
      the number as `Integer.toString` writes it. */
  function Spell(e: Option<int>): string
  {
    match e
    case None => ""
    case Some(n) => if n < 0 then "-" + Decimal(-n) else Decimal(n)
  }

  function SpellAll(es: seq<Option<int>>): (r: seq<string>)
    ensures |r| == |es|
    ensures forall k :: 0 <= k < |es| ==> r[k] == Spell(es[k])
  {
    seq(|es|, k requires 0 <= k < |es| => Spell(es[k]))
  }

  /** A group `Integer.valueOf` reads without losing characters: empty, `0`,
      or without a leading zero. */
  predicate NoLeadingZero(d: string)
  {
    d == [] || Canonical(d)
  }

  lemma {:induction false} GroupsAreDigits(ts: seq<Token>)
    requires WellFormed(ts)
    ensures forall k :: 0 <= k < |Groups(ts)| ==> AllDigits(Groups(ts)[k])
    decreases |ts|
  {
    if ts != [] {
      GroupsAreDigits(ts[1..]);
    }
  }

  /** Spelling the entries of digit groups without leading zeros gives the groups. */
  lemma SpellGroups(gs: seq<string>)
    requires forall k :: 0 <= k < |gs| ==> AllDigits(gs[k]) && NoLeadingZero(gs[k])
    ensures SpellAll(EntriesOf(gs)) == gs
  {
    forall k | 0 <= k < |gs|
      ensures SpellAll(EntriesOf(gs))[k] == gs[k]
    {
      if gs[k] != [] {
        DecimalOfValue(gs[k]);
      }
    }
  }

  /** When no group has a leading zero, the returned path and the entries
      together determine the input: spelling the entries into the brackets,
      left to right, gives it back. */
  lemma IndicesRestorePath(path: string)
    requires forall k :: 0 <= k < |Groups(Lex(path))| ==> NoLeadingZero(Groups(Lex(path))[k])
    ensures Render(Fill(Lex(Unaware(path)), SpellAll(Indices(path)))) == path
  {
    LexWellFormed(path, 0);
    GroupsAreDigits(Lex(path));
    IndicesFollowGroups(path, 0);
    SpellGroups(Groups(Lex(path)));
    GroupsRestorePath(path);
  }

  /** The path `a[01]`: one match whose group is `01`. */
  lemma LeadingZeroPath()
    ensures Unaware("a[01]") == "a[]" && Indices("a[01]") == [Some(1)] && AllFit("a[01]")
  {
    var s := "a[01]";
    DigitsEndAt(s, 2, 4);
    assert MatchAt(s, 1) && MatchEnd(s, 1) == 5 && GroupAt(s, 1) == "01";
    assert !MatchAt(s, 0);
    assert DecimalValue("01") == 1;
  }

  /** The path `a[1]`: one match whose group is `1`. */
  lemma PlainIndexPath()
    ensures Unaware("a[1]") == "a[]" && Indices("a[1]") == [Some(1)] && AllFit("a[1]")
  {
    var t := "a[1]";
    DigitsEndAt(t, 2, 3);
    assert MatchAt(t, 1) && MatchEnd(t, 1) == 4 && GroupAt(t, 1) == "1";
    assert !MatchAt(t, 0);
    assert DecimalValue("1") == 1;
  }

  /** Leading zeros are lost: two different paths give the same returned path
      and the same entries, and neither call throws. */
  lemma LeadingZeroCollision()
    ensures "a[01]" != "a[1]"
    ensures Unaware("a[01]") == Unaware("a[1]") && Indices("a[01]") == Indices("a[1]")
    ensures AllFit("a[01]") && AllFit("a[1]")
  {
    LeadingZeroPath();
    PlainIndexPath();
    assert "a[01]"[3] != "a[1]"[3];
  }
}
