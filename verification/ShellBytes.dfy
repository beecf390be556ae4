/** What the tokenizer does with each byte and operator, by byte values: the laws
    of this module name no operator table, escape or expansion test of the
    scanner. */
module ShellBytes {
  import opened Bytes
  import opened ShellTokenizer

  // ----- operators -----

  /** The documented operators: `;` `;;` `&` `&&` `|` `||` `|&` `(` `)`, line feed
      and carriage return separate; `>` `>>` `>|` `<>` `&>` `&>>` write; `>&` `<&`
      duplicate; `<` `<<` `<<-` `<<<` read. */
  predicate Listed(t: bytes) {
    Separates(t) || Writes(t) || Duplicates(t) || Reads(t)
  }

  predicate Separates(t: bytes) {
    || t == [59] || t == [59, 59] || t == [38] || t == [38, 38] || t == [124] || t == [124, 124] || t == [124, 38]
    || t == [40] || t == [41] || t == [10] || t == [13]
  }

  predicate Writes(t: bytes) {
    t == [62] || t == [62, 62] || t == [62, 124] || t == [60, 62] || t == [38, 62] || t == [38, 62, 62]
  }

  predicate Duplicates(t: bytes) {
    t == [62, 38] || t == [60, 38]
  }

  predicate Reads(t: bytes) {
    t == [60] || t == [60, 60] || t == [60, 60, 45] || t == [60, 60, 60]
  }

  /** t is written in s at i. */
  predicate Written(s: bytes, i: nat, t: bytes) {
    i + |t| <= |s| && forall k :: 0 <= k < |t| ==> s[i + k] == t[k]
  }

  function KindOf(t: bytes): Kind {
    if Writes(t) then RedirWrite else if Duplicates(t) then RedirDup else if Reads(t) then RedirRead else Separator
  }

  /** The operator at i is the longest of the list that is written there. */
  ghost predicate Longest(s: bytes, i: nat, t: bytes) {
    Listed(t) && Written(s, i, t) && forall u :: Listed(u) && Written(s, i, u) ==> |u| <= |t|
  }

  lemma OperatorIsListed(s: bytes, i: nat)
    requires i < |s| && StartsOperator(s[i])
    ensures var op := MatchOperator(s, i); Listed(op.text) && op.kind == KindOf(op.text)
  {
  }

  lemma NoLonger(s: bytes, i: nat, u: bytes)
    requires Listed(u) && Written(s, i, u)
    ensures i < |s| && StartsOperator(s[i]) && |u| <= |MatchOperator(s, i).text|
  {
    assert s[i + 0] == u[0] && (|u| > 1 ==> s[i + 1] == u[1]) && (|u| > 2 ==> s[i + 2] == u[2]);
  }

  lemma SameText(s: bytes, i: nat, t: bytes, u: bytes)
    requires Written(s, i, t) && Written(s, i, u) && |t| == |u|
    ensures t == u
  {
    forall k | 0 <= k < |t|
      ensures t[k] == u[k]
    {
      assert s[i + k] == t[k];
    }
  }

  lemma MatchesLongest(s: bytes, i: nat, t: bytes)
    requires Longest(s, i, t)
    ensures i < |s| && StartsOperator(s[i]) && MatchOperator(s, i) == Operator(KindOf(t), t)
  {
    hide Listed, KindOf;
    NoLonger(s, i, t);
    OperatorIsListed(s, i);
    hide MatchOperator;
    SameText(s, i, t, MatchOperator(s, i).text);
  }

  /** Operators are read longest first, with the kind the list gives them. */
  lemma OperatorsAreLongest(s: bytes, i: nat, t: bytes)
    requires Longest(s, i, t)
    ensures i + |t| <= |s| && Tokens(s, i) == [Operator(KindOf(t), t)] + Tokens(s, i + |t|)
  {
    hide Longest;
    MatchesLongest(s, i, t);
    hide MatchOperator, KindOf;
    NotBlank(s[i]);
  }

  lemma NotBlank(c: byte)
    ensures StartsOperator(c) ==> !IsBlankByte(c)
  {
  }

  /** Spaces and tabs end a word and are no token. */
  lemma BlanksAreSkipped(s: bytes, i: nat)
    requires i < |s| && (s[i] == 32 || s[i] == 9)
    ensures Tokens(s, i) == Tokens(s, i + 1)
  {
    hide WordFrom, MatchOperator;
  }

  // ----- words -----

  /** A byte that means only itself: no blank, operator, quote, backslash or dollar. */
  predicate Ordinary(c: byte) {
    && c != 32 && c != 9 && c != 10 && c != 13 && c != 59 && c != 38 && c != 124 && c != 40 && c != 41 && c != 60
    && c != 62 && c != 39 && c != 34 && c != 96 && c != 92 && c != 36
  }

  /** t is one word of this value. */
  predicate IsWord(t: bytes, value: bytes, unresolved: bool) {
    Tokenize(t) == [Word(value, t, unresolved)]
  }

  lemma SegmentIsWord(g: Segment)
    requires WellFormed(g)
    ensures IsWord(Render(g), Literal(g), IsExpansion(g))
  {
    hide Tokenize, WordFrom, Render, Literal, IsExpansion, WellFormed;
    var raw := Render(g);
    OneSegment(g);
    AtIsSliceOf(raw);
    AdjacentPiecesAreOneWord(raw, 0, [g]);
    SingleWord(raw);
  }

  lemma OneSegment(g: Segment)
    requires WellFormed(g)
    ensures RenderAll([g]) == Render(g) && Literals([g]) == Literal(g) && (SomeExpansion([g]) <==> IsExpansion(g))
    ensures WellSpelled([g]) && WordCloses([g], Render(g), |Render(g)|)
  {
    hide Render, Literal, IsExpansion, WellFormed;
    assert [g][1..] == [];
    assert Render(g) + RenderAll([]) == Render(g) && Literal(g) + Literals([]) == Literal(g);
  }

  lemma AtIsSliceOf(raw: bytes)
    ensures At(raw, 0, raw)
  {
    assert raw[0..|raw|] == raw;
  }

  /** Single quotes keep everything. */
  lemma SingleQuotesAreLiteral(v: bytes)
    requires 39 !in v
    ensures IsWord([39] + v + [39], v, false)
  {
    hide IsWord;
    SegmentIsWord(Single(v));
  }

  /** After a backslash every byte is itself, and a line feed is nothing. */
  lemma BackslashIsLiteral(c: byte)
    ensures IsWord([92, c], if c == 10 then [] else [c], false)
  {
    hide IsWord;
    SegmentIsWord(Escaped(c));
  }

  /** Bytes that mean only themselves make a word that is its text, up to where
      the word ends; digits right before a redirection are its descriptor. */
  lemma OrdinaryBytesAreAWord(s: bytes, i: nat, e: nat)
    requires i < e <= |s| && (forall k :: i <= k < e ==> Ordinary(s[k]))
    requires e < |s| ==> s[e] in {32, 9, 10, 13, 59, 38, 124, 40, 41, 60, 62}
    ensures var descriptor := (forall k :: i <= k < e ==> 48 <= s[k] <= 57)
                              && e < |s| && (s[e] == 60 || s[e] == 62 || (s[e] == 38 && e + 1 < |s| && s[e + 1] == 62));
            Tokens(s, i) == (if descriptor then [] else [Word(s[i..e], s[i..e], false)]) + Tokens(s, e)
  {
    hide Tokens, WordFrom, MatchOperator, NextPiece, AllDigits, StartsRedirection;
    OrdinaryRun(s, i, e);
    WordIsRead(s, i, e, WordFrom(s, i));
    RedirectionIs(s, e);
    DigitsAre(s, i, e);
  }

  lemma RedirectionIs(s: bytes, e: nat)
    ensures StartsRedirection(s, e) <==>
              e < |s| && (s[e] == 60 || s[e] == 62 || (s[e] == 38 && e + 1 < |s| && s[e + 1] == 62))
  {
  }

  lemma DigitsAre(s: bytes, i: nat, e: nat)
    requires i < e <= |s|
    ensures AllDigits(s[i..e]) <==> forall k :: i <= k < e ==> 48 <= s[k] <= 57
  {
    var t := s[i..e];
    assert forall k :: i <= k < e ==> s[k] == t[k - i];
    assert forall k :: 0 <= k < |t| ==> t[k] == s[i + k];
  }

  lemma {:induction false} OrdinaryRun(s: bytes, i: nat, e: nat)
    requires i <= e <= |s| && (forall k :: i <= k < e ==> Ordinary(s[k])) && (e < |s| ==> EndsWord(s[e]))
    ensures WordFrom(s, i) == Piece(e, s[i..e], false) && (i < e ==> !EndsWord(s[i]))
    decreases e - i
  {
    if i == e {
      EndOfWord(s, i);
      assert s[i..e] == [];
    } else {
      hide WordFrom;
      OrdinaryStep(s, i);
      WordStep(s, i);
      OrdinaryRun(s, i + 1, e);
      assert [s[i]] + s[i + 1..e] == s[i..e];
    }
  }

  lemma OrdinaryStep(s: bytes, i: nat)
    requires i < |s| && Ordinary(s[i])
    ensures !EndsWord(s[i]) && NextPiece(s, i) == Piece(i + 1, [s[i]], false)
  {
  }

  // ----- double quotes -----

  /** Between double quotes everything but 34, 36, 92 and 96 is itself. */
  lemma DoubleQuotesAreLiteral(v: bytes)
    requires 34 !in v && 36 !in v && 92 !in v && 96 !in v
    ensures IsWord([34] + v + [34], v, false)
  {
    hide IsWord;
    var ps := Chars(v);
    CharsSpell(v);
    SegmentIsWord(Double(ps));
    assert [34] + (v + [34]) == [34] + v + [34];
  }

  function Chars(v: bytes): seq<Quotable> {
    if v == [] then [] else [Char(v[0])] + Chars(v[1..])
  }

  lemma {:induction false} CharsSpell(v: bytes)
    requires 34 !in v && 36 !in v && 92 !in v && 96 !in v
    ensures InsideText(Chars(v)) == v && InsideValue(Chars(v)) == v && !InsideExpands(Chars(v)) && InsideWell(Chars(v))
    decreases |v|
  {
    if v != [] {
      var ps := Chars(v);
      assert ps[0] == Char(v[0]) && ps[1..] == Chars(v[1..]);
      CharsSpell(v[1..]);
      hide Chars, InsideText, InsideValue, InsideExpands, InsideWell, Expandable;
      CharFirst(v[0], Chars(v[1..]));
      assert [v[0]] + v[1..] == v && ps == [Char(v[0])] + Chars(v[1..]);
    }
  }

  lemma CharFirst(c: byte, more: seq<Quotable>)
    requires c != 34 && c != 36 && c != 92 && c != 96 && InsideWell(more)
    ensures var ps := [Char(c)] + more;
            && InsideText(ps) == [c] + InsideText(more) && InsideValue(ps) == [c] + InsideValue(more)
            && (InsideExpands(ps) <==> InsideExpands(more)) && InsideWell(ps)
  {
    hide Expandable;
    assert ([Char(c)] + more)[1..] == more;
  }

  /** A backslash between them takes effect before 34, 36, 92 and 96 alone, and
      before a line feed, which it removes; elsewhere it stays. */
  lemma DoubleQuotedBackslash(c: byte)
    ensures c == 34 || c == 36 || c == 92 || c == 96 ==> IsWord([34, 92, c, 34], [c], false)
    ensures c == 10 ==> IsWord([34, 92, c, 34], [], false)
    ensures c != 34 && c != 36 && c != 92 && c != 96 && c != 10 ==> IsWord([34, 92, c, 34], [92, c], false)
  {
    hide IsWord, WellFormed;
    if c == 34 || c == 36 || c == 92 || c == 96 {
      OneInside(Char(c));
      SegmentIsWord(Double([Char(c)]));
      assert [34] + ([92, c] + [34]) == [34, 92, c, 34];
    } else if c == 10 {
      OneInside(Continuation);
      SegmentIsWord(Double([Continuation]));
      assert [34] + ([92, c] + [34]) == [34, 92, c, 34];
    } else {
      TwoInside(c);
      SegmentIsWord(Double([LoneBackslash, Char(c)]));
      assert [34] + ([92, c] + [34]) == [34, 92, c, 34];
    }
  }

  lemma OneInside(p: Quotable)
    requires MayFollowInside(p, 34) && (p.Within? ==> Expandable(p.x))
    ensures WellFormed(Double([p])) && InsideText([p]) == SpellInside(p) && InsideValue([p]) == QuotedText(p)
    ensures InsideExpands([p]) <==> p.Within?
  {
    hide Expandable, MayFollowInside;
    assert [p][1..] == [];
    assert SpellInside(p) + InsideText([]) == SpellInside(p) && QuotedText(p) + InsideValue([]) == QuotedText(p);
    assert InsideWell([]) && !InsideExpands([]);
  }

  lemma TwoInside(c: byte)
    requires c != 34 && c != 36 && c != 92 && c != 96 && c != 10
    ensures WellFormed(Double([LoneBackslash, Char(c)]))
    ensures InsideText([LoneBackslash, Char(c)]) == [92, c] && InsideValue([LoneBackslash, Char(c)]) == [92, c]
    ensures !InsideExpands([LoneBackslash, Char(c)])
  {
    var ps := [LoneBackslash, Char(c)];
    assert ps[1..] == [Char(c)];
    OneInside(Char(c));
    assert [92] + [c] == [92, c];
  }

  // ----- expansions -----

  /** An expansion adds no text and leaves the word unresolved, between double
      quotes as well. */
  lemma ExpansionIsWord(x: Expansion)
    requires Expandable(x)
    ensures IsWord(Spell(x), [], true) && IsWord([34] + Spell(x) + [34], [], true)
  {
    hide IsWord, Expandable, WellFormed, Spell;
    CanStand(x);
    SegmentIsWord(Expand(x));
    OneInside(Within(x));
    SegmentIsWord(Double([Within(x)]));
    assert [34] + (Spell(x) + [34]) == [34] + Spell(x) + [34];
  }

  lemma CanStand(x: Expansion)
    requires Expandable(x)
    ensures WellFormed(Expand(x)) && MayFollowInside(Within(x), 34)
  {
    hide Expandable;
  }

  /** `$name`: a letter or underscore, then digits too. */
  lemma NamesExpand(v: bytes)
    requires v != [] && !(48 <= v[0] <= 57)
    requires forall k :: 0 <= k < |v| ==> v[k] == 95 || 65 <= v[k] <= 90 || 97 <= v[k] <= 122 || 48 <= v[k] <= 57
    ensures IsWord([36] + v, [], true) && IsWord([34] + ([36] + v) + [34], [], true)
  {
    hide IsWord;
    ExpansionIsWord(Name(v));
  }

  /** `$@` `$*` `$#` `$?` `$!` `$-` `$$` and `$0` to `$9` are expansions; before a
      byte that starts none of these, a name or a bracket, a dollar is itself. */
  lemma DollarAndOneByte(c: byte)
    ensures c in {64, 42, 35, 63, 33, 45, 36} || 48 <= c <= 57 ==>
              IsWord([36, c], [], true) && IsWord([34] + [36, c] + [34], [], true)
    ensures Ordinary(c) && c != 123 && c !in {64, 42, 35, 63, 33, 45, 36, 95} && !(48 <= c <= 57)
            && !(65 <= c <= 90) && !(97 <= c <= 122) ==>
              IsWord([36, c], [36, c], false) && IsWord([34, 36, c, 34], [36, c], false)
  {
    hide IsWord;
    if c in {64, 42, 35, 63, 33, 45, 36} || 48 <= c <= 57 {
      ExpansionIsWord(Special(c));
    }
    if Ordinary(c) && c != 123 && c !in {64, 42, 35, 63, 33, 45, 36, 95} && !(48 <= c <= 57)
       && !(65 <= c <= 90) && !(97 <= c <= 122) {
      DollarStays(c);
      DollarStaysInside(c);
    }
  }

  lemma DollarStays(c: byte)
    requires Ordinary(c) && !Expands(c)
    ensures IsWord([36, c], [36, c], false)
  {
    hide Tokenize, WordFrom;
    var raw, gs := [36, c], [ShellTokenizer.Segment.Dollar, Bare(c)];
    assert gs[1..] == [Bare(c)];
    OneSegment(Bare(c));
    assert RenderAll(gs) == raw && Literals(gs) == raw && !SomeExpansion(gs) && WellSpelled(gs);
    AtIsSliceOf(raw);
    AdjacentPiecesAreOneWord(raw, 0, gs);
    SingleWord(raw);
  }

  lemma DollarStaysInside(c: byte)
    requires Ordinary(c) && !Expands(c)
    ensures IsWord([34, 36, c, 34], [36, c], false)
  {
    hide IsWord;
    var ps := [LoneDollar, Char(c)];
    assert ps[1..] == [Char(c)];
    OneInside(Char(c));
    assert InsideText(ps) == [36] + [c] && InsideValue(ps) == [36] + [c] && !InsideExpands(ps) && InsideWell(ps);
    SegmentIsWord(Double(ps));
    assert [36] + [c] == [36, c] && [34] + ([36, c] + [34]) == [34, 36, c, 34];
  }

  /** A dollar at the end of the word is itself. */
  lemma LastDollarStays()
    ensures IsWord([36], [36], false) && IsWord([34, 36, 34], [36], false)
  {
    hide IsWord;
    SegmentIsWord(ShellTokenizer.Segment.Dollar);
    OneInside(LoneDollar);
    SegmentIsWord(Double([LoneDollar]));
    assert [34] + ([36] + [34]) == [34, 36, 34];
  }

  /** A byte that no bracket, quote or backslash is. */
  predicate Inert(v: bytes) {
    40 !in v && 41 !in v && 123 !in v && 125 !in v && 39 !in v && 34 !in v && 96 !in v && 92 !in v
  }

  function Plains(v: bytes): seq<Inner> {
    if v == [] then [] else [Plain(v[0])] + Plains(v[1..])
  }

  lemma {:induction false} PlainsSpell(v: bytes, open: byte, close: byte)
    requires Inert(v) && Brackets(open, close)
    ensures SpellBody(Plains(v), open, close) == v && BodyWell(Plains(v), open, close)
    decreases |v|
  {
    if v != [] {
      PlainsSpell(v[1..], open, close);
      var ps := Plains(v);
      assert ps[0] == Plain(v[0]) && ps[1..] == Plains(v[1..]);
      assert [v[0]] + v[1..] == v;
    }
  }

  /** `$(..)` and `${..}` go to their own closing bracket. */
  lemma BracketsExpand(v: bytes)
    requires Inert(v)
    ensures IsWord([36, 40] + (v + [41]), [], true) && IsWord([34] + ([36, 40] + (v + [41])) + [34], [], true)
    ensures IsWord([36, 123] + (v + [125]), [], true) && IsWord([34] + ([36, 123] + (v + [125])) + [34], [], true)
  {
    hide IsWord, Inert;
    PlainsSpell(v, 40, 41);
    PlainsSpell(v, 123, 125);
    ExpansionIsWord(Subst(Plains(v)));
    ExpansionIsWord(Param(Plains(v)));
  }

  /** What stands in them may hold brackets of the same kind, quotes around a
      closing one, and a closing one after a backslash. */
  lemma BracketsNest(v: bytes, w: bytes)
    requires Inert(v) && Inert(w)
    ensures IsWord([36, 40] + (v + ([40] + (w + [41])) + [41]), [], true)
    ensures IsWord([36, 123] + (v + ([123] + (w + [125])) + [125]), [], true)
    ensures IsWord([36, 40] + (v + [39, 41, 39] + [41]), [], true)
    ensures IsWord([36, 40] + (v + [34, 41, 34] + [41]), [], true)
    ensures IsWord([36, 40] + (v + [96, 41, 96] + [41]), [], true)
    ensures IsWord([36, 40] + (v + [92, 41] + [41]), [], true)
    ensures IsWord([36, 123] + (v + [92, 125] + [125]), [], true)
  {
    hide IsWord, Inert;
    PlainsSpell(w, 40, 41);
    PlainsSpell(w, 123, 125);
    EndsWith(v, Nested(Plains(w)), 40, 41);
    EndsWith(v, Nested(Plains(w)), 123, 125);
    EndsWith(v, InSingle([41]), 40, 41);
    EndsWith(v, InDouble([41]), 40, 41);
    EndsWith(v, InBackquotes([41]), 40, 41);
    EndsWith(v, Slashed(41), 40, 41);
    EndsWith(v, Slashed(125), 123, 125);
    assert [39] + ([41] + [39]) == [39, 41, 39] && [34] + ([41] + [34]) == [34, 41, 34] && [96] + ([41] + [96]) == [96, 41, 96];
  }

  lemma EndsWith(v: bytes, p: Inner, open: byte, close: byte)
    requires Inert(v) && Brackets(open, close) && InnerWell(p, open, close)
    ensures IsWord([36, open] + (v + SpellInner(p, open, close) + [close]), [], true)
  {
    hide IsWord, Inert, InnerWell, SpellInner;
    PlainsThen(v, p, open, close);
    ExpansionIsWord(if open == 40 then Subst(Plains(v) + [p]) else Param(Plains(v) + [p]));
  }

  lemma {:induction false} PlainsThen(v: bytes, p: Inner, open: byte, close: byte)
    requires Inert(v) && Brackets(open, close) && InnerWell(p, open, close)
    ensures SpellBody(Plains(v) + [p], open, close) == v + SpellInner(p, open, close)
    ensures BodyWell(Plains(v) + [p], open, close)
    decreases |v|
  {
    hide InnerWell, SpellInner;
    var ps := Plains(v) + [p];
    if v == [] {
      assert ps == [p] && ps[1..] == [];
      assert SpellBody([], open, close) == [] && SpellInner(p, open, close) + [] == SpellInner(p, open, close);
      assert v + SpellInner(p, open, close) == SpellInner(p, open, close);
    } else {
      PlainsThen(v[1..], p, open, close);
      assert ps[0] == Plain(v[0]) && ps[1..] == Plains(v[1..]) + [p];
      PlainAlone(v[0], v, open, close);
      assert v + SpellInner(p, open, close) == [v[0]] + (v[1..] + SpellInner(p, open, close));
    }
  }

  lemma PlainAlone(c: byte, v: bytes, open: byte, close: byte)
    requires Inert(v) && c in v && Brackets(open, close)
    ensures InnerWell(Plain(c), open, close) && SpellInner(Plain(c), open, close) == [c]
  {
  }

  /** Backquotes, `$'..'` and `$".."` go to their own closing byte, past one that
      a backslash escapes. */
  lemma QuotedExpansions(v: bytes)
    requires 92 !in v
    ensures 96 !in v ==> IsWord([96] + (v + [96]), [], true) && IsWord([34] + ([96] + (v + [96])) + [34], [], true)
    ensures 39 !in v ==> IsWord([36, 39] + (v + [39]), [], true)
    ensures 34 !in v ==> IsWord([36, 34] + (v + [34]), [], true)
    ensures 96 !in v ==> IsWord([96] + (v + [92, 96] + [96]), [], true)
    ensures 39 !in v ==> IsWord([36, 39] + (v + [92, 39] + [39]), [], true)
    ensures 34 !in v ==> IsWord([36, 34] + (v + [92, 34] + [34]), [], true)
  {
    hide IsWord;
    if 96 !in v {
      EscapedTail(v, 96);
      ExpansionIsWord(Backquoted(v));
      ExpansionIsWord(Backquoted(v + [92, 96]));
    }
    if 39 !in v {
      EscapedTail(v, 39);
      SegmentIsWord(AnsiC(v));
      SegmentIsWord(AnsiC(v + [92, 39]));
    }
    if 34 !in v {
      EscapedTail(v, 34);
      SegmentIsWord(Localized(v));
      SegmentIsWord(Localized(v + [92, 34]));
    }
  }

  lemma {:induction false} EscapedTail(v: bytes, q: byte)
    requires q !in v && 92 !in v && q != 92
    ensures EscapedText(v, q) && EscapedText(v + [92, q], q)
    decreases |v|
  {
    if v == [] {
      assert v + [92, q] == [92, q] && EscapedText([], q);
    } else {
      EscapedTail(v[1..], q);
      assert (v + [92, q])[1..] == v[1..] + [92, q];
    }
  }

  // ----- what never closes -----

  lemma PieceToTheEnd(raw: bytes, p: Piece)
    requires raw != [] && !EndsWord(raw[0]) && NextPiece(raw, 0) == p && p.next >= |raw|
    ensures IsWord(raw, p.text, p.expands)
  {
    hide NextPiece, Tokenize;
    WordStep(raw, 0);
    assert WordFrom(raw, p.next) == Piece(p.next, [], false);
    assert p.text + [] == p.text;
    SingleWord(raw);
  }

  lemma {:induction false} SingleRuns(s: bytes, j: nat)
    requires j <= |s| && forall k :: j <= k < |s| ==> s[k] != 39
    ensures SingleClose(s, j) == |s|
    decreases |s| - j
  {
    if j < |s| {
      SingleRuns(s, j + 1);
    }
  }

  lemma {:induction false} EscapedRuns(s: bytes, j: nat, q: byte)
    requires j <= |s| && forall k :: j <= k < |s| ==> s[k] != q && s[k] != 92
    ensures SkipEscaped(s, j, q) == |s|
    decreases |s| - j
  {
    if j < |s| {
      EscapedRuns(s, j + 1, q);
    }
  }

  lemma {:induction false} NestedRuns(s: bytes, i: nat, open: byte, close: byte)
    requires i <= |s| && Inert(s[i..]) && Brackets(open, close)
    ensures SkipNested(s, i, open, close, 1) == |s|
    decreases |s| - i
  {
    if i < |s| {
      assert s[i] in s[i..] && s[i + 1..] == s[i..][1..];
      NestedRuns(s, i + 1, open, close);
    }
  }

  lemma {:induction false} DoubleRuns(s: bytes, j: nat)
    requires j <= |s| && forall k :: j <= k < |s| ==> s[k] != 34 && s[k] != 36 && s[k] != 92 && s[k] != 96
    ensures DoubleInside(s, j) == Piece(|s|, s[j..], false)
    decreases |s| - j
  {
    if j < |s| {
      DoubleRuns(s, j + 1);
      assert [s[j]] + s[j + 1..] == s[j..];
    }
  }

  /** Quotes and expansions that never close take everything to the end, and a
      last backslash is dropped. */
  lemma UnclosedGoesToTheEnd(v: bytes)
    ensures 39 !in v ==> IsWord([39] + v, v, false)
    ensures 34 !in v && 36 !in v && 92 !in v && 96 !in v ==> IsWord([34] + v, v, false)
    ensures 96 !in v && 92 !in v ==> IsWord([96] + v, [], true)
    ensures 39 !in v && 92 !in v ==> IsWord([36, 39] + v, [], true)
    ensures 34 !in v && 92 !in v ==> IsWord([36, 34] + v, [], true)
    ensures Inert(v) ==> IsWord([36, 40] + v, [], true) && IsWord([36, 123] + v, [], true)
    ensures IsWord([92], [], false)
  {
    hide IsWord, Inert;
    if 39 !in v {
      UnclosedSingle(v);
    }
    if 34 !in v && 36 !in v && 92 !in v && 96 !in v {
      UnclosedDouble(v);
    }
    UnclosedSpans(v);
    if Inert(v) {
      UnclosedBrackets(v);
    }
    PieceToTheEnd([92], Piece(1, [], false));
  }

  lemma UnclosedSingle(v: bytes)
    requires 39 !in v
    ensures IsWord([39] + v, v, false)
  {
    hide IsWord;
    var s := [39] + v;
    assert s[1..] == v;
    SingleRuns(s, 1);
    PieceToTheEnd(s, Piece(|s|, v, false));
  }

  lemma UnclosedDouble(v: bytes)
    requires 34 !in v && 36 !in v && 92 !in v && 96 !in v
    ensures IsWord([34] + v, v, false)
  {
    hide IsWord;
    var s := [34] + v;
    assert s[1..] == v;
    DoubleRuns(s, 1);
    PieceToTheEnd(s, Piece(|s|, v, false));
  }

  lemma UnclosedSpans(v: bytes)
    ensures 96 !in v && 92 !in v ==> IsWord([96] + v, [], true)
    ensures 39 !in v && 92 !in v ==> IsWord([36, 39] + v, [], true)
    ensures 34 !in v && 92 !in v ==> IsWord([36, 34] + v, [], true)
  {
    hide IsWord;
    if 96 !in v && 92 !in v {
      EscapedRuns([96] + v, 1, 96);
      PieceToTheEnd([96] + v, Piece(|v| + 1, [], true));
    }
    if 39 !in v && 92 !in v {
      EscapedRuns([36, 39] + v, 2, 39);
      PieceToTheEnd([36, 39] + v, Piece(|v| + 2, [], true));
    }
    if 34 !in v && 92 !in v {
      EscapedRuns([36, 34] + v, 2, 34);
      PieceToTheEnd([36, 34] + v, Piece(|v| + 2, [], true));
    }
  }

  lemma UnclosedBrackets(v: bytes)
    requires Inert(v)
    ensures IsWord([36, 40] + v, [], true) && IsWord([36, 123] + v, [], true)
  {
    hide IsWord, Inert;
    assert ([36, 40] + v)[2..] == v && ([36, 123] + v)[2..] == v;
    NestedRuns([36, 40] + v, 2, 40, 41);
    NestedRuns([36, 123] + v, 2, 123, 125);
    PieceToTheEnd([36, 40] + v, Piece(|v| + 2, [], true));
    PieceToTheEnd([36, 123] + v, Piece(|v| + 2, [], true));
  }
}
