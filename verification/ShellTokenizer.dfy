/** tokenizeShell (pkg/engine/shell_tokenize.go): a quote-aware lexer for the
    POSIX shell language, sections 2.2, 2.3 and 2.7. */
module ShellTokenizer {
  import opened Bytes

  const SPACE: byte := 32
  const TAB: byte := 9
  const QUOTE: byte := 39
  const DQUOTE: byte := 34
  const BACKTICK: byte := 96
  const BACKSLASH: byte := 92
  const DOLLAR: byte := 36
  const LPAREN: byte := 40
  const RPAREN: byte := 41
  const LBRACE: byte := 123
  const RBRACE: byte := 125
  const AMP: byte := 38
  const PIPE: byte := 124
  const SEMI: byte := 59
  const LESS: byte := 60
  const MORE: byte := 62
  const DASH: byte := 45

  datatype Kind = Separator | RedirWrite | RedirDup | RedirRead

  /** `raw` is the word's source text; `unresolved` says that it held an expansion
      nobody evaluated. */
  datatype Token = Word(value: bytes, raw: bytes, unresolved: bool) | Operator(kind: Kind, text: bytes)

  predicate IsBlankByte(c: byte) {
    c == SPACE || c == TAB
  }

  predicate StartsOperator(c: byte) {
    c == LF || c == CR || c == SEMI || c == AMP || c == PIPE || c == LPAREN || c == RPAREN || c == LESS || c == MORE
  }

  predicate EndsWord(c: byte) {
    IsBlankByte(c) || StartsOperator(c)
  }

  /** The byte at i, or NUL past the end. */
  function ByteAt(s: bytes, i: nat): byte {
    if i < |s| then s[i] else 0
  }

  /** matchShellOperator: the longest operator at i. */
  function MatchOperator(s: bytes, i: nat): (op: Token)
    requires i < |s| && StartsOperator(s[i])
    ensures op.Operator? && 1 <= |op.text| <= 3 && i + |op.text| <= |s|
    ensures forall k :: 0 <= k < |op.text| ==> s[i + k] == op.text[k]
  {
    OperatorOf(s[i], ByteAt(s, i + 1), ByteAt(s, i + 2))
  }

  /** The operator that starts with c, d, e. */
  function OperatorOf(c: byte, d: byte, e: byte): (op: Token)
    requires StartsOperator(c)
    ensures op.Operator? && 1 <= |op.text| <= 3 && op.text[0] == c
    ensures |op.text| >= 2 ==> op.text[1] == d && d != 0
    ensures |op.text| == 3 ==> op.text[2] == e && e != 0
  {
    if c == SEMI then
      if d == SEMI then Operator(Separator, [SEMI, SEMI]) else Operator(Separator, [SEMI])
    else if c == AMP then
      if d == AMP then Operator(Separator, [AMP, AMP])
      else if d == MORE then
        if e == MORE then Operator(RedirWrite, [AMP, MORE, MORE]) else Operator(RedirWrite, [AMP, MORE])
      else Operator(Separator, [AMP])
    else if c == PIPE then
      if d == PIPE then Operator(Separator, [PIPE, PIPE])
      else if d == AMP then Operator(Separator, [PIPE, AMP])
      else Operator(Separator, [PIPE])
    else if c == MORE then
      if d == MORE then Operator(RedirWrite, [MORE, MORE])
      else if d == PIPE then Operator(RedirWrite, [MORE, PIPE])
      else if d == AMP then Operator(RedirDup, [MORE, AMP])
      else Operator(RedirWrite, [MORE])
    else if c == LESS then
      if d == LESS then
        if e == LESS then Operator(RedirRead, [LESS, LESS, LESS])
        else if e == DASH then Operator(RedirRead, [LESS, LESS, DASH])
        else Operator(RedirRead, [LESS, LESS])
      else if d == AMP then Operator(RedirDup, [LESS, AMP])
      else if d == MORE then Operator(RedirWrite, [LESS, MORE])
      else Operator(RedirRead, [LESS])
    else Operator(Separator, [c])
  }

  // ----- spans that are skipped -----

  /** The single quote that ends a quoted span, or the end of s. */
  function SingleClose(s: bytes, j: nat): (k: nat)
    requires j <= |s|
    ensures j <= k <= |s|
    decreases |s| - j
  {
    if j == |s| || s[j] == QUOTE then j else SingleClose(s, j + 1)
  }

  lemma {:induction false} CloseIsFirst(s: bytes, j: nat)
    requires j <= |s|
    ensures var k := SingleClose(s, j); (k < |s| ==> s[k] == QUOTE) && forall m :: j <= m < k ==> s[m] != QUOTE
    decreases |s| - j
  {
    if j < |s| && s[j] != QUOTE {
      CloseIsFirst(s, j + 1);
    }
  }

  /** skipSingleQuoteRaw, from the opening quote. */
  function SkipSingle(s: bytes, i: nat): (k: nat)
    requires i < |s|
    ensures i < k <= |s|
  {
    var k := SingleClose(s, i + 1);
    if k < |s| then k + 1 else k
  }

  /** The common loop of skipDollarSingleQuote, skipDoubleQuoteRaw and
      skipBacktick, after the opening byte. */
  function SkipEscaped(s: bytes, j: nat, q: byte): (k: nat)
    requires j <= |s|
    ensures j <= k <= |s|
    decreases |s| - j
  {
    if j == |s| then j
    else if s[j] == BACKSLASH && j + 1 < |s| then SkipEscaped(s, j + 2, q)
    else if s[j] == q then j + 1
    else SkipEscaped(s, j + 1, q)
  }

  /** Over a quoted region, an escaped byte, or one byte; a trailing backslash goes
      one past the end. */
  function Jump(s: bytes, i: nat): (k: nat)
    requires i < |s|
    ensures i < k <= |s| + 1
  {
    var c := s[i];
    if c == QUOTE then SkipSingle(s, i)
    else if c == DQUOTE then SkipEscaped(s, i + 1, DQUOTE)
    else if c == BACKTICK then SkipEscaped(s, i + 1, BACKTICK)
    else if c == BACKSLASH then i + 2
    else i + 1
  }

  function Deepen(c: byte, open: byte, close: byte, depth: int): int {
    if c == open then depth + 1 else if c == close then depth - 1 else depth
  }

  /** skipCommandSubst and skipParamExpansion, by their brackets. */
  function SkipNested(s: bytes, i: nat, open: byte, close: byte, depth: int): (k: nat)
    requires i <= |s| + 1
    ensures i <= k <= |s| + 1 && (i < |s| ==> i < k)
    decreases |s| + 1 - i
  {
    if i >= |s| then i
    else if s[i] == close && depth == 1 then i + 1
    else SkipNested(s, Jump(s, i), open, close, Deepen(s[i], open, close, depth))
  }

  predicate IsNameStart(c: byte) {
    c == 95 || 65 <= c <= 90 || 97 <= c <= 122
  }

  predicate IsDigit(c: byte) {
    48 <= c <= 57
  }

  predicate IsNameChar(c: byte) {
    IsNameStart(c) || IsDigit(c)
  }

  /** $@ $* $# $? $! $- $$ $0..$9 */
  predicate IsSpecialParam(c: byte) {
    c == 64 || c == 42 || c == 35 || c == 63 || c == 33 || c == DASH || c == DOLLAR || IsDigit(c)
  }

  function NameEnd(s: bytes, j: nat): (k: nat)
    requires j <= |s|
    ensures j <= k <= |s|
    decreases |s| - j
  {
    if j < |s| && IsNameChar(s[j]) then NameEnd(s, j + 1) else j
  }

  /** A part of a word: where it ends (one past the end of s at most), the text it
      adds, and whether it is an expansion. */
  datatype Piece = Piece(next: nat, text: bytes, expands: bool)

  /** consumeDollar. */
  function ConsumeDollar(s: bytes, i: nat): (p: Piece)
    requires i < |s|
    ensures i < p.next <= |s| + 1
  {
    if i + 1 >= |s| then Piece(i + 1, [DOLLAR], false)
    else
      var c := s[i + 1];
      if c == LPAREN then Piece(SkipNested(s, i + 1, LPAREN, RPAREN, 0), [], true)
      else if c == LBRACE then Piece(SkipNested(s, i + 1, LBRACE, RBRACE, 0), [], true)
      else if IsNameStart(c) then Piece(NameEnd(s, i + 2), [], true)
      else if IsSpecialParam(c) then Piece(i + 2, [], true)
      else Piece(i + 1, [DOLLAR], false)
  }

  /** isDquoteEscape. */
  predicate IsDquoteEscape(c: byte) {
    c == DOLLAR || c == BACKTICK || c == DQUOTE || c == BACKSLASH || c == LF
  }

  function Join(p: Piece, q: Piece): Piece {
    Piece(q.next, p.text + q.text, p.expands || q.expands)
  }

  /** One step inside double quotes. */
  function DoubleStep(s: bytes, j: nat): (p: Piece)
    requires j < |s|
    ensures j < p.next <= |s| + 1
  {
    if s[j] == BACKSLASH && j + 1 < |s| && IsDquoteEscape(s[j + 1]) then
      Piece(j + 2, if s[j + 1] == LF then [] else [s[j + 1]], false)
    else if s[j] == DOLLAR then ConsumeDollar(s, j)
    else if s[j] == BACKTICK then Piece(SkipEscaped(s, j + 1, BACKTICK), [], true)
    else Piece(j + 1, [s[j]], false)
  }

  /** The inside of double quotes from j, up to the closing one. */
  function DoubleInside(s: bytes, j: nat): (p: Piece)
    requires j <= |s| + 1
    ensures j <= p.next <= |s| + 1
    decreases |s| + 1 - j
  {
    if j >= |s| || s[j] == DQUOTE then Piece(j, [], false)
    else
      var p := DoubleStep(s, j);
      Join(p, DoubleInside(s, p.next))
  }

  /** The next part of a word at i. */
  function NextPiece(s: bytes, i: nat): (p: Piece)
    requires i < |s|
    ensures i < p.next <= |s| + 1
  {
    var c := s[i];
    if c == QUOTE then
      var k := SingleClose(s, i + 1);
      Piece(if k < |s| then k + 1 else k, s[i + 1..k], false)
    else if c == DQUOTE then
      var p := DoubleInside(s, i + 1);
      p.(next := if p.next < |s| then p.next + 1 else p.next)
    else if c == BACKTICK then Piece(SkipEscaped(s, i + 1, BACKTICK), [], true)
    else if c == DOLLAR then
      if i + 1 < |s| && s[i + 1] == QUOTE then Piece(SkipEscaped(s, i + 2, QUOTE), [], true)
      else if i + 1 < |s| && s[i + 1] == DQUOTE then Piece(SkipEscaped(s, i + 2, DQUOTE), [], true)
      else ConsumeDollar(s, i)
    else if c == BACKSLASH then
      if i + 1 < |s| then Piece(i + 2, if s[i + 1] == LF then [] else [s[i + 1]], false)
      else Piece(i + 1, [], false)
    else Piece(i + 1, [c], false)
  }

  /** The rest of a word from i: its pieces, up to a blank, an operator or the end. */
  function WordFrom(s: bytes, i: nat): (p: Piece)
    requires i <= |s| + 1
    ensures i <= p.next <= |s| + 1
    ensures i < |s| && !EndsWord(s[i]) ==> i < p.next
    decreases |s| + 1 - i
  {
    if i >= |s| || EndsWord(s[i]) then Piece(i, [], false)
    else
      var p := NextPiece(s, i);
      Join(p, WordFrom(s, p.next))
  }

  predicate AllDigits(s: bytes) {
    s != [] && forall k :: 0 <= k < |s| ==> IsDigit(s[k])
  }

  predicate StartsRedirection(s: bytes, i: nat) {
    i < |s| && StartsOperator(s[i]) && MatchOperator(s, i).kind != Separator
  }

  function Min(a: nat, b: nat): nat {
    if a < b then a else b
  }

  /** The token of a word that began at `start`: none when it is the descriptor
      number of the redirection after it. */
  function WordToken(s: bytes, start: nat, w: Piece): seq<Token>
    requires start <= |s| && start <= w.next
  {
    var raw := s[start..Min(w.next, |s|)];
    if StartsRedirection(s, w.next) && raw == w.text && AllDigits(w.text) then []
    else [Word(w.text, raw, w.expands)]
  }

  /** tokenizeShell from i on, with no word begun. */
  function Tokens(s: bytes, i: nat): seq<Token>
    requires i <= |s| + 1
    decreases |s| + 1 - i
  {
    if i >= |s| then []
    else if IsBlankByte(s[i]) then Tokens(s, i + 1)
    else if StartsOperator(s[i]) then
      var op := MatchOperator(s, i);
      [op] + Tokens(s, i + |op.text|)
    else
      var w := WordFrom(s, i);
      WordToken(s, i, w) + Tokens(s, w.next)
  }

  function Tokenize(cmd: bytes): seq<Token> {
    Tokens(cmd, 0)
  }

  // ----- text at a place -----

  predicate At(s: bytes, i: nat, t: bytes) {
    i + |t| <= |s| && s[i..i + |t|] == t
  }

  lemma AtParts(s: bytes, i: nat, a: bytes, b: bytes)
    requires At(s, i, a + b)
    ensures At(s, i, a) && At(s, i + |a|, b)
  {
    assert s[i..i + |a|] == (a + b)[..|a|] == a;
    assert s[i + |a|..i + |a| + |b|] == (a + b)[|a|..] == b;
  }

  lemma AtByte(s: bytes, i: nat, t: bytes)
    requires At(s, i, t)
    ensures forall k :: 0 <= k < |t| ==> s[i + k] == t[k]
  {
    forall k | 0 <= k < |t|
      ensures s[i + k] == t[k]
    {
      assert s[i..i + |t|][k] == s[i + k];
    }
  }

  lemma AtInRange(s: bytes, i: nat, t: bytes)
    requires At(s, i, t)
    ensures i + |t| <= |s|
  {
  }

  lemma {:induction false} CloseFound(s: bytes, j: nat, k: nat)
    requires j <= k < |s| && s[k] == QUOTE && forall m :: j <= m < k ==> s[m] != QUOTE
    ensures SingleClose(s, j) == k
    decreases k - j
  {
    if j < k {
      CloseFound(s, j + 1, k);
    }
  }

  /** A span between single quotes is one piece, all of it literal. */
  lemma SinglePiece(s: bytes, i: nat, v: bytes)
    requires At(s, i, [QUOTE] + v + [QUOTE]) && forall m :: 0 <= m < |v| ==> v[m] != QUOTE
    ensures NextPiece(s, i) == Piece(i + |v| + 2, v, false)
  {
    var t := [QUOTE] + v + [QUOTE];
    AtByte(s, i, t);
    assert s[i + 0] == t[0] == QUOTE && s[i + (|v| + 1)] == t[|v| + 1] == QUOTE;
    forall m | 0 <= m < |v|
      ensures s[i + 1 + m] == v[m]
    {
      assert s[i + (m + 1)] == t[m + 1] == v[m];
    }
    assert forall m :: i + 1 <= m < i + 1 + |v| ==> s[m] == v[m - i - 1];
    CloseFound(s, i + 1, i + 1 + |v|);
    assert s[i + 1..i + 1 + |v|] == v;
  }

  lemma WordStep(s: bytes, i: nat)
    requires i < |s| && !EndsWord(s[i])
    ensures WordFrom(s, i) == Join(NextPiece(s, i), WordFrom(s, NextPiece(s, i).next))
  {
  }

  lemma EndOfWord(s: bytes, i: nat)
    requires WordStops(s, i)
    ensures WordFrom(s, i) == Piece(i, [], false)
  {
  }

  // ----- words made of pieces -----

  /** What may stand in the brackets of an expansion: bytes, escaped bytes, quoted
      regions, and brackets of the same kind around more of it. */
  datatype Inner =
    | Plain(c: byte)
    | Slashed(c: byte)
    | InSingle(v: bytes)
    | InDouble(v: bytes)
    | InBackquotes(v: bytes)
    | Nested(inside: seq<Inner>)

  datatype Expansion = Name(v: bytes) | Special(c: byte) | Param(inside: seq<Inner>) | Subst(inside: seq<Inner>) | Backquoted(v: bytes)

  /** What may stand between double quotes: a byte, escaped where it has to be, a
      backslash or a dollar sign that stays one, a line continuation, and the
      expansions. */
  datatype Quotable = Char(c: byte) | LoneBackslash | LoneDollar | Continuation | Within(x: Expansion)

  /** The ways to write a part of a word: as it stands, after a backslash, as a
      dollar sign that stays one, between single or double quotes, in the $'..' and
      $".." forms, or as an expansion. */
  datatype Segment =
    | Bare(c: byte)
    | Escaped(c: byte)
    | Dollar
    | Single(v: bytes)
    | Double(inside: seq<Quotable>)
    | AnsiC(v: bytes)
    | Localized(v: bytes)
    | Expand(x: Expansion)

  predicate NeedsEscape(c: byte) {
    c == DOLLAR || c == BACKTICK || c == DQUOTE || c == BACKSLASH
  }

  function SpellInner(p: Inner, open: byte, close: byte): (t: bytes)
    ensures t != []
    decreases p
  {
    match p
    case Plain(c) => [c]
    case Slashed(c) => [BACKSLASH, c]
    case InSingle(v) => [QUOTE] + (v + [QUOTE])
    case InDouble(v) => [DQUOTE] + (v + [DQUOTE])
    case InBackquotes(v) => [BACKTICK] + (v + [BACKTICK])
    case Nested(ps) => [open] + (SpellBody(ps, open, close) + [close])
  }

  function SpellBody(ps: seq<Inner>, open: byte, close: byte): bytes
    decreases ps
  {
    if ps == [] then [] else SpellInner(ps[0], open, close) + SpellBody(ps[1..], open, close)
  }

  function Spell(x: Expansion): (t: bytes)
    ensures t != [] && (t[0] == DOLLAR || t[0] == BACKTICK)
  {
    match x
    case Name(v) => [DOLLAR] + v
    case Special(c) => [DOLLAR, c]
    case Param(ps) => [DOLLAR, LBRACE] + (SpellBody(ps, LBRACE, RBRACE) + [RBRACE])
    case Subst(ps) => [DOLLAR, LPAREN] + (SpellBody(ps, LPAREN, RPAREN) + [RPAREN])
    case Backquoted(v) => [BACKTICK] + (v + [BACKTICK])
  }

  function SpellInside(p: Quotable): (t: bytes)
    ensures t != []
  {
    match p
    case Char(c) => if NeedsEscape(c) then [BACKSLASH, c] else [c]
    case LoneBackslash => [BACKSLASH]
    case LoneDollar => [DOLLAR]
    case Continuation => [BACKSLASH, LF]
    case Within(x) => Spell(x)
  }

  function QuotedText(p: Quotable): bytes {
    match p
    case Char(c) => [c]
    case LoneBackslash => [BACKSLASH]
    case LoneDollar => [DOLLAR]
    case _ => []
  }

  function InsideText(ps: seq<Quotable>): bytes {
    if ps == [] then [] else SpellInside(ps[0]) + InsideText(ps[1..])
  }

  function InsideValue(ps: seq<Quotable>): bytes {
    if ps == [] then [] else QuotedText(ps[0]) + InsideValue(ps[1..])
  }

  predicate InsideExpands(ps: seq<Quotable>) {
    ps != [] && (ps[0].Within? || InsideExpands(ps[1..]))
  }

  function Render(g: Segment): (t: bytes)
    ensures t != []
  {
    match g
    case Bare(c) => [c]
    case Escaped(c) => [BACKSLASH, c]
    case Dollar => [DOLLAR]
    case Single(v) => [QUOTE] + v + [QUOTE]
    case Double(ps) => [DQUOTE] + (InsideText(ps) + [DQUOTE])
    case AnsiC(v) => [DOLLAR, QUOTE] + (v + [QUOTE])
    case Localized(v) => [DOLLAR, DQUOTE] + (v + [DQUOTE])
    case Expand(x) => Spell(x)
  }

  predicate IsExpansion(g: Segment) {
    g.AnsiC? || g.Localized? || g.Expand? || (g.Double? && InsideExpands(g.inside))
  }

  /** The literal text it adds to the word; an escaped line feed adds none. */
  function Literal(g: Segment): bytes {
    match g
    case Bare(c) => [c]
    case Escaped(c) => if c == LF then [] else [c]
    case Dollar => [DOLLAR]
    case Single(v) => v
    case Double(ps) => InsideValue(ps)
    case _ => []
  }

  /** Each q in v, and the last byte, comes after a backslash of its own, or is none. */
  predicate EscapedText(v: bytes, q: byte) {
    v == []
    || (if v[0] == BACKSLASH then |v| > 1 && EscapedText(v[2..], q) else v[0] != q && EscapedText(v[1..], q))
  }

  predicate InnerWell(p: Inner, open: byte, close: byte)
    decreases p
  {
    match p
    case Plain(c) => c != QUOTE && c != DQUOTE && c != BACKTICK && c != BACKSLASH && c != open && c != close
    case Slashed(_) => true
    case InSingle(v) => QUOTE !in v
    case InDouble(v) => EscapedText(v, DQUOTE)
    case InBackquotes(v) => EscapedText(v, BACKTICK)
    case Nested(ps) => BodyWell(ps, open, close)
  }

  predicate BodyWell(ps: seq<Inner>, open: byte, close: byte)
    decreases ps
  {
    ps == [] || (InnerWell(ps[0], open, close) && BodyWell(ps[1..], open, close))
  }

  predicate Expandable(x: Expansion) {
    match x
    case Name(v) => v != [] && IsNameStart(v[0]) && forall k :: 0 <= k < |v| ==> IsNameChar(v[k])
    case Special(c) => IsSpecialParam(c)
    case Param(ps) => BodyWell(ps, LBRACE, RBRACE)
    case Subst(ps) => BodyWell(ps, LPAREN, RPAREN)
    case Backquoted(v) => EscapedText(v, BACKTICK)
  }

  /** A dollar sign before it begins an expansion. */
  predicate Expands(c: byte) {
    c == LPAREN || c == LBRACE || IsNameStart(c) || IsSpecialParam(c)
  }

  /** The byte is not drawn into the piece before it. */
  predicate MayFollowInside(p: Quotable, c: byte) {
    match p
    case Within(x) => x.Name? ==> !IsNameChar(c)
    case LoneDollar => !Expands(c)
    case LoneBackslash => !IsDquoteEscape(c)
    case _ => true
  }

  predicate InsideWell(ps: seq<Quotable>) {
    ps == []
    || (InsideWell(ps[1..]) && (ps[0].Within? ==> Expandable(ps[0].x))
        && MayFollowInside(ps[0], if |ps| > 1 then SpellInside(ps[1])[0] else DQUOTE))
  }

  predicate WellFormed(g: Segment) {
    match g
    case Bare(c) => !EndsWord(c) && !NeedsEscape(c) && c != QUOTE
    case Escaped(_) => true
    case Dollar => true
    case Single(v) => QUOTE !in v
    case Double(ps) => InsideWell(ps)
    case AnsiC(v) => EscapedText(v, QUOTE)
    case Localized(v) => EscapedText(v, DQUOTE)
    case Expand(x) => Expandable(x)
  }

  /** The byte is not drawn into the piece before it. */
  predicate MayFollow(g: Segment, c: byte) {
    match g
    case Expand(x) => x.Name? ==> !IsNameChar(c)
    case Dollar => !Expands(c) && c != QUOTE && c != DQUOTE
    case _ => true
  }

  predicate WellSpelled(gs: seq<Segment>) {
    gs == [] || (WellSpelled(gs[1..]) && WellFormed(gs[0]) && (|gs| > 1 ==> MayFollow(gs[0], Render(gs[1])[0])))
  }

  /** What comes at e leaves a piece before it as it is. */
  predicate Stops(g: Segment, s: bytes, e: nat) {
    e < |s| ==> MayFollow(g, s[e])
  }

  predicate NameStops(s: bytes, e: nat) {
    e < |s| ==> !IsNameChar(s[e])
  }

  lemma AtTail(s: bytes, j: nat, v: bytes, q: bytes)
    requires v != [] && At(s, j, v + q)
    ensures s[j] == v[0] && At(s, j + 1, v[1..] + q)
  {
    assert v + q == [v[0]] + (v[1..] + q);
    AtParts(s, j, [v[0]], v[1..] + q);
    AtByte(s, j, [v[0]]);
  }

  lemma AtFirst(s: bytes, j: nat, t: bytes)
    requires At(s, j, t) && t != []
    ensures j < |s| && s[j] == t[0]
  {
    AtByte(s, j, t);
    assert s[j + 0] == t[0];
  }

  lemma {:induction false} EscapedSpan(s: bytes, j: nat, v: bytes, q: byte)
    requires At(s, j, v + [q]) && EscapedText(v, q) && q != BACKSLASH
    ensures SkipEscaped(s, j, q) == j + |v| + 1
    decreases |v|
  {
    if v == [] {
      AtFirst(s, j, v + [q]);
    } else {
      AtTail(s, j, v, [q]);
      if v[0] == BACKSLASH {
        AtTail(s, j + 1, v[1..], [q]);
        assert v[1..][1..] == v[2..];
        EscapedSpan(s, j + 2, v[2..], q);
      } else {
        EscapedSpan(s, j + 1, v[1..], q);
      }
    }
  }

  /** A quoted region, escaped byte or byte in brackets is one jump. */
  lemma InnerJump(s: bytes, j: nat, p: Inner, open: byte, close: byte)
    requires !p.Nested? && InnerWell(p, open, close) && At(s, j, SpellInner(p, open, close))
    ensures j < |s| && s[j] == SpellInner(p, open, close)[0] && Jump(s, j) == j + |SpellInner(p, open, close)|
  {
    var t := SpellInner(p, open, close);
    AtFirst(s, j, t);
    AtInRange(s, j, t);
    if p.InSingle? {
      QuotedJump(s, j, p.v);
    } else if p.InDouble? || p.InBackquotes? {
      hide SkipEscaped, At;
      var q := if p.InDouble? then DQUOTE else BACKTICK;
      AtParts(s, j, [q], p.v + [q]);
      EscapedSpan(s, j + 1, p.v, q);
    }
  }

  lemma QuotedJump(s: bytes, j: nat, v: bytes)
    requires At(s, j, [QUOTE] + (v + [QUOTE])) && QUOTE !in v
    ensures j < |s| && SkipSingle(s, j) == j + |v| + 2
  {
    var t := [QUOTE] + (v + [QUOTE]);
    AtByte(s, j, t);
    AtInRange(s, j, t);
    forall m | j + 1 <= m < j + 1 + |v|
      ensures s[m] != QUOTE
    {
      assert s[j + (m - j)] == t[m - j] == v[m - j - 1];
    }
    assert s[j + (|v| + 1)] == t[|v| + 1] == QUOTE;
    CloseFound(s, j + 1, j + 1 + |v|);
  }

  predicate Brackets(open: byte, close: byte) {
    (open == LBRACE && close == RBRACE) || (open == LPAREN && close == RPAREN)
  }

  lemma NestedUnfold(s: bytes, i: nat, open: byte, close: byte, depth: int)
    requires i < |s| && !(s[i] == close && depth == 1)
    ensures SkipNested(s, i, open, close, depth) == SkipNested(s, Jump(s, i), open, close, Deepen(s[i], open, close, depth))
  {
  }

  lemma BracketJump(s: bytes, i: nat, open: byte, close: byte)
    requires Brackets(open, close) && i < |s| && (s[i] == open || s[i] == close)
    ensures Jump(s, i) == i + 1 && open != close
  {
  }

  lemma QuotesAreNoBrackets(p: Inner, open: byte, close: byte)
    requires Brackets(open, close) && InnerWell(p, open, close) && !p.Nested?
    ensures var c := SpellInner(p, open, close)[0]; c != open && c != close
  {
  }

  lemma NestedIs(p: Inner, open: byte, close: byte)
    requires p.Nested?
    ensures SpellInner(p, open, close) == [open] + (SpellBody(p.inside, open, close) + [close])
    ensures InnerWell(p, open, close) ==> BodyWell(p.inside, open, close)
  {
  }

  lemma BodyUnfold(ps: seq<Inner>, open: byte, close: byte)
    ensures ps != [] ==> SpellBody(ps, open, close) == SpellInner(ps[0], open, close) + SpellBody(ps[1..], open, close)
    ensures ps != [] && BodyWell(ps, open, close) ==> InnerWell(ps[0], open, close) && BodyWell(ps[1..], open, close)
    ensures ps == [] ==> SpellBody(ps, open, close) == []
  {
    hide SpellInner, InnerWell;
  }

  /** What stands in brackets is passed at the depth it has. */
  lemma {:induction false} InnerSpan(s: bytes, j: nat, p: Inner, open: byte, close: byte, depth: int)
    requires Brackets(open, close) && InnerWell(p, open, close) && At(s, j, SpellInner(p, open, close)) && depth >= 1
    ensures var k := j + |SpellInner(p, open, close)|;
            k <= |s| && SkipNested(s, j, open, close, depth) == SkipNested(s, k, open, close, depth)
    decreases p, 0
  {
    hide *;
    AtInRange(s, j, SpellInner(p, open, close));
    if p.Nested? {
      NestedIs(p, open, close);
      NestedSpan(s, j, p.inside, open, close, depth);
    } else {
      InnerJump(s, j, p, open, close);
      QuotesAreNoBrackets(p, open, close);
      NestedUnfold(s, j, open, close, depth);
      NotDeeper(s[j], open, close, depth);
    }
  }

  lemma NotDeeper(c: byte, open: byte, close: byte, depth: int)
    requires c != open && c != close
    ensures Deepen(c, open, close, depth) == depth
  {
  }

  /** Brackets of the same kind, as a whole. */
  lemma {:induction false} NestedSpan(s: bytes, j: nat, ps: seq<Inner>, open: byte, close: byte, depth: int)
    requires Brackets(open, close) && BodyWell(ps, open, close) && At(s, j, [open] + (SpellBody(ps, open, close) + [close])) && depth >= 1
    ensures var k := j + |[open] + (SpellBody(ps, open, close) + [close])|;
            k <= |s| && SkipNested(s, j, open, close, depth) == SkipNested(s, k, open, close, depth)
    decreases ps, 1
  {
    hide *;
    var body := SpellBody(ps, open, close);
    NestedAt(s, j, body, open, close);
    var k := j + 1 + |body|;
    BracketJump(s, j, open, close);
    BracketJump(s, k, open, close);
    NestedUnfold(s, j, open, close, depth);
    NestedUnfold(s, k, open, close, depth + 1);
    Deeper(open, close, depth);
    BodySpan(s, j + 1, ps, open, close, depth + 1);
  }

  lemma Deeper(open: byte, close: byte, depth: int)
    requires open != close
    ensures Deepen(open, open, close, depth) == depth + 1 && Deepen(close, open, close, depth + 1) == depth
  {
  }

  lemma NestedAt(s: bytes, j: nat, body: bytes, open: byte, close: byte)
    requires At(s, j, [open] + (body + [close]))
    ensures j < |s| && s[j] == open && At(s, j + 1, body) && j + 1 + |body| < |s| && s[j + 1 + |body|] == close
  {
    AtParts(s, j, [open], body + [close]);
    AtFirst(s, j, [open]);
    AtParts(s, j + 1, body, [close]);
    AtFirst(s, j + 1 + |body|, [close]);
  }

  lemma {:induction false} BodySpan(s: bytes, j: nat, ps: seq<Inner>, open: byte, close: byte, depth: int)
    requires Brackets(open, close) && BodyWell(ps, open, close) && At(s, j, SpellBody(ps, open, close)) && depth >= 1
    ensures var k := j + |SpellBody(ps, open, close)|;
            k <= |s| && SkipNested(s, j, open, close, depth) == SkipNested(s, k, open, close, depth)
    decreases ps, 0
  {
    hide *;
    AtInRange(s, j, SpellBody(ps, open, close));
    BodyUnfold(ps, open, close);
    if ps != [] {
      AtParts(s, j, SpellInner(ps[0], open, close), SpellBody(ps[1..], open, close));
      InnerSpan(s, j, ps[0], open, close, depth);
      BodySpan(s, j + |SpellInner(ps[0], open, close)|, ps[1..], open, close, depth);
    }
  }

  lemma {:induction false} NameSpan(s: bytes, j: nat, k: nat)
    requires j <= k <= |s| && (forall m :: j <= m < k ==> IsNameChar(s[m])) && NameStops(s, k)
    ensures NameEnd(s, j) == k
    decreases k - j
  {
    if j < k {
      NameSpan(s, j + 1, k);
    }
  }

  /** From its opening bracket an expansion is skipped to its own closing one. */
  lemma BracketsSpan(s: bytes, i: nat, ps: seq<Inner>, open: byte, close: byte)
    requires Brackets(open, close) && BodyWell(ps, open, close) && At(s, i, [open] + (SpellBody(ps, open, close) + [close]))
    ensures SkipNested(s, i, open, close, 0) == i + |SpellBody(ps, open, close)| + 2
  {
    var body := SpellBody(ps, open, close);
    NestedAt(s, i, body, open, close);
    BracketJump(s, i, open, close);
    hide Jump, At, SpellBody, BodyWell;
    NestedUnfold(s, i, open, close, 0);
    BodySpan(s, i + 1, ps, open, close, 1);
  }

  /** What is read from a dollar sign or backquote. */
  function Expanded(s: bytes, i: nat): (p: Piece)
    requires i < |s|
  {
    if s[i] == BACKTICK then Piece(SkipEscaped(s, i + 1, BACKTICK), [], true) else ConsumeDollar(s, i)
  }

  lemma BracketedExpands(s: bytes, i: nat, x: Expansion)
    requires (x.Param? || x.Subst?) && Expandable(x) && At(s, i, Spell(x))
    ensures i + 1 < |s| && s[i] == DOLLAR && Expanded(s, i) == Piece(i + |Spell(x)|, [], true)
  {
    hide SkipNested, SpellBody, BodyWell;
    var open, close := if x.Param? then LBRACE else LPAREN, if x.Param? then RBRACE else RPAREN;
    var bracketed := [open] + (SpellBody(x.inside, open, close) + [close]);
    assert Spell(x) == [DOLLAR] + bracketed;
    AtParts(s, i, [DOLLAR], bracketed);
    AtFirst(s, i, [DOLLAR]);
    AtFirst(s, i + 1, bracketed);
    BracketsSpan(s, i + 1, x.inside, open, close);
  }

  lemma BackquotedExpands(s: bytes, i: nat, x: Expansion)
    requires x.Backquoted? && Expandable(x) && At(s, i, Spell(x))
    ensures i < |s| && s[i] == BACKTICK && Expanded(s, i) == Piece(i + |Spell(x)|, [], true)
  {
    hide SkipEscaped;
    AtParts(s, i, [BACKTICK], x.v + [BACKTICK]);
    AtFirst(s, i, [BACKTICK]);
    EscapedSpan(s, i + 1, x.v, BACKTICK);
  }

  lemma NameExpands(s: bytes, i: nat, x: Expansion)
    requires (x.Name? || x.Special?) && Expandable(x) && At(s, i, Spell(x)) && (x.Name? ==> NameStops(s, i + |Spell(x)|))
    ensures i + 1 < |s| && s[i] == DOLLAR && s[i + 1] != QUOTE && s[i + 1] != DQUOTE && Expanded(s, i) == Piece(i + |Spell(x)|, [], true)
  {
    AtByte(s, i, Spell(x));
    AtInRange(s, i, Spell(x));
    assert s[i + 0] == DOLLAR && s[i + 1] == Spell(x)[1];
    if x.Name? {
      forall m | i + 2 <= m < i + 1 + |x.v|
        ensures IsNameChar(s[m])
      {
        assert s[i + (m - i)] == Spell(x)[m - i] == x.v[m - i - 1];
      }
      NameSpan(s, i + 2, i + 1 + |x.v|);
    }
  }

  lemma ExpansionIsRead(s: bytes, i: nat, x: Expansion)
    requires Expandable(x) && At(s, i, Spell(x)) && (x.Name? ==> NameStops(s, i + |Spell(x)|))
    ensures i < |s| && Expanded(s, i) == Piece(i + |Spell(x)|, [], true)
    ensures s[i] == BACKTICK || (s[i] == DOLLAR && i + 1 < |s| && s[i + 1] != QUOTE && s[i + 1] != DQUOTE)
  {
    hide Expanded, BodyWell, NameStops;
    match x
    case Name(_) => NameExpands(s, i, x);
    case Special(_) => NameExpands(s, i, x);
    case Param(_) => SecondByte(s, i, x); BracketedExpands(s, i, x);
    case Subst(_) => SecondByte(s, i, x); BracketedExpands(s, i, x);
    case Backquoted(_) => BackquotedExpands(s, i, x);
  }

  lemma SecondByte(s: bytes, i: nat, x: Expansion)
    requires (x.Param? || x.Subst?) && At(s, i, Spell(x))
    ensures i + 1 < |s| && s[i + 1] != QUOTE && s[i + 1] != DQUOTE
  {
    AtByte(s, i, Spell(x));
    assert s[i + 1] == Spell(x)[1];
  }

  // ----- between double quotes -----

  lemma InsideUnfold(ps: seq<Quotable>)
    requires ps != []
    ensures InsideText(ps) == SpellInside(ps[0]) + InsideText(ps[1..])
    ensures InsideValue(ps) == QuotedText(ps[0]) + InsideValue(ps[1..])
    ensures InsideExpands(ps) <==> ps[0].Within? || InsideExpands(ps[1..])
    ensures InsideWell(ps) ==> InsideWell(ps[1..]) && (ps[0].Within? ==> Expandable(ps[0].x))
    ensures InsideWell(ps) ==> MayFollowInside(ps[0], if |ps| > 1 then SpellInside(ps[1])[0] else DQUOTE)
  {
  }

  lemma DoubleCharIs(s: bytes, j: nat, p: Quotable)
    requires !p.Within? && At(s, j, SpellInside(p)) && j + |SpellInside(p)| < |s| && MayFollowInside(p, s[j + |SpellInside(p)|])
    ensures s[j] != DQUOTE && DoubleStep(s, j) == Piece(j + |SpellInside(p)|, QuotedText(p), false)
  {
    AtByte(s, j, SpellInside(p));
    assert s[j + 0] == SpellInside(p)[0] && (|SpellInside(p)| > 1 ==> s[j + 1] == SpellInside(p)[1]);
  }

  lemma DoubleExpansionIs(s: bytes, j: nat, x: Expansion)
    requires Expandable(x) && At(s, j, Spell(x)) && (x.Name? ==> NameStops(s, j + |Spell(x)|))
    ensures j < |s| && s[j] != DQUOTE && DoubleStep(s, j) == Piece(j + |Spell(x)|, [], true)
  {
    hide Expandable, ConsumeDollar, SkipEscaped;
    ExpansionIsRead(s, j, x);
  }

  lemma DoubleUnfold(s: bytes, j: nat)
    requires j < |s| && s[j] != DQUOTE
    ensures DoubleInside(s, j) == Join(DoubleStep(s, j), DoubleInside(s, DoubleStep(s, j).next))
  {
  }

  lemma DoubleEnds(s: bytes, j: nat)
    requires j < |s| && s[j] == DQUOTE
    ensures DoubleInside(s, j) == Piece(j, [], false)
  {
  }

  lemma {:induction false} DoubleSpan(s: bytes, j: nat, ps: seq<Quotable>)
    requires InsideWell(ps) && At(s, j, InsideText(ps) + [DQUOTE])
    ensures DoubleInside(s, j) == Piece(j + |InsideText(ps)|, InsideValue(ps), InsideExpands(ps))
    decreases |ps|
  {
    hide InsideText, InsideValue, InsideExpands, InsideWell, DoubleInside, DoubleStep, SpellInside, QuotedText, At;
    if ps == [] {
      NothingInside(s, j);
    } else {
      InsideUnfold(ps);
      DoubleHead(s, j, ps);
      DoubleSpan(s, j + |SpellInside(ps[0])|, ps[1..]);
      DoubleUnfold(s, j);
    }
  }

  lemma NothingInside(s: bytes, j: nat)
    requires At(s, j, InsideText([]) + [DQUOTE])
    ensures j < |s| && DoubleInside(s, j) == Piece(j + |InsideText([])|, InsideValue([]), InsideExpands([]))
  {
    AtFirst(s, j, InsideText([]) + [DQUOTE]);
    DoubleEnds(s, j);
  }

  lemma DoubleHead(s: bytes, j: nat, ps: seq<Quotable>)
    requires ps != [] && InsideWell(ps) && At(s, j, InsideText(ps) + [DQUOTE])
    ensures j < |s| && s[j] != DQUOTE && At(s, j + |SpellInside(ps[0])|, InsideText(ps[1..]) + [DQUOTE])
    ensures DoubleStep(s, j) == Piece(j + |SpellInside(ps[0])|, QuotedText(ps[0]), ps[0].Within?)
  {
    hide *;
    InsideUnfold(ps);
    var t, rest := SpellInside(ps[0]), InsideText(ps[1..]) + [DQUOTE];
    assert InsideText(ps) + [DQUOTE] == t + rest;
    AtParts(s, j, t, rest);
    AtFirst(s, j + |t|, rest);
    AtFirst(s, j, t);
    AfterInside(s, j + |t|, ps);
    if ps[0].Within? {
      SpellWithin(s, j + |t|, ps[0].x);
      DoubleExpansionIs(s, j, ps[0].x);
    } else {
      DoubleCharIs(s, j, ps[0]);
    }
  }

  lemma SpellWithin(s: bytes, k: nat, x: Expansion)
    ensures SpellInside(Within(x)) == Spell(x) && QuotedText(Within(x)) == []
    ensures k < |s| && MayFollowInside(Within(x), s[k]) && x.Name? ==> NameStops(s, k)
  {
  }

  lemma AfterInside(s: bytes, k: nat, ps: seq<Quotable>)
    requires ps != [] && InsideWell(ps) && k < |s| && s[k] == (InsideText(ps[1..]) + [DQUOTE])[0]
    ensures MayFollowInside(ps[0], s[k])
  {
    hide MayFollowInside, SpellInside;
    InsideUnfold(ps);
    if |ps| > 1 {
      InsideUnfold(ps[1..]);
    }
  }

  // ----- each way of writing is one piece -----

  /** One of the pieces with its whole meaning. */
  ghost predicate IsPiece(s: bytes, i: nat, g: Segment) {
    i < |s| && !EndsWord(s[i]) && NextPiece(s, i) == Piece(i + |Render(g)|, Literal(g), IsExpansion(g))
  }

  lemma ByteIsPiece(s: bytes, i: nat, g: Segment)
    requires (g.Bare? || g.Escaped? || g.Dollar?) && WellFormed(g) && At(s, i, Render(g)) && Stops(g, s, i + |Render(g)|)
    ensures IsPiece(s, i, g)
  {
    AtByte(s, i, Render(g));
    assert s[i + 0] == Render(g)[0] && (g.Escaped? ==> s[i + 1] == g.c);
  }

  lemma SingleIsPiece(s: bytes, i: nat, g: Segment)
    requires g.Single? && WellFormed(g) && At(s, i, Render(g))
    ensures IsPiece(s, i, g)
  {
    hide NextPiece;
    AtFirst(s, i, Render(g));
    SinglePiece(s, i, g.v);
  }

  lemma DoubleAt(s: bytes, i: nat, text: bytes)
    requires At(s, i, [DQUOTE] + (text + [DQUOTE]))
    ensures i < |s| && s[i] == DQUOTE && At(s, i + 1, text + [DQUOTE]) && i + 1 + |text| < |s|
  {
    AtParts(s, i, [DQUOTE], text + [DQUOTE]);
    AtFirst(s, i, [DQUOTE]);
    AtInRange(s, i + 1, text + [DQUOTE]);
  }

  lemma DoubleIsPiece(s: bytes, i: nat, g: Segment)
    requires g.Double? && WellFormed(g) && At(s, i, Render(g))
    ensures IsPiece(s, i, g)
  {
    hide DoubleInside, InsideText, InsideValue, InsideExpands, InsideWell, At;
    DoubleAt(s, i, InsideText(g.inside));
    DoubleSpan(s, i + 1, g.inside);
  }

  lemma DollarQuotedIsPiece(s: bytes, i: nat, g: Segment)
    requires (g.AnsiC? || g.Localized?) && WellFormed(g) && At(s, i, Render(g))
    ensures IsPiece(s, i, g)
  {
    hide SkipEscaped, ConsumeDollar;
    var q := if g.AnsiC? then QUOTE else DQUOTE;
    AtParts(s, i, [DOLLAR, q], g.v + [q]);
    AtByte(s, i, [DOLLAR, q]);
    assert s[i + 0] == DOLLAR && s[i + 1] == q;
    EscapedSpan(s, i + 2, g.v, q);
  }

  lemma ExpansionIsPiece(s: bytes, i: nat, g: Segment)
    requires g.Expand? && WellFormed(g) && At(s, i, Render(g)) && Stops(g, s, i + |Render(g)|)
    ensures IsPiece(s, i, g)
  {
    hide ConsumeDollar, SkipEscaped, Expandable;
    ExpansionIsRead(s, i, g.x);
  }

  lemma SegmentIsPiece(s: bytes, i: nat, g: Segment)
    requires WellFormed(g) && At(s, i, Render(g)) && Stops(g, s, i + |Render(g)|)
    ensures IsPiece(s, i, g)
  {
    hide *;
    match g
    case Bare(_) => ByteIsPiece(s, i, g);
    case Escaped(_) => ByteIsPiece(s, i, g);
    case Dollar => ByteIsPiece(s, i, g);
    case Single(_) => SingleIsPiece(s, i, g);
    case Double(_) => DoubleIsPiece(s, i, g);
    case AnsiC(_) => DollarQuotedIsPiece(s, i, g);
    case Localized(_) => DollarQuotedIsPiece(s, i, g);
    case Expand(_) => ExpansionIsPiece(s, i, g);
  }

  function RenderAll(gs: seq<Segment>): bytes {
    if gs == [] then [] else Render(gs[0]) + RenderAll(gs[1..])
  }

  function Literals(gs: seq<Segment>): bytes {
    if gs == [] then [] else Literal(gs[0]) + Literals(gs[1..])
  }

  predicate SomeExpansion(gs: seq<Segment>) {
    gs != [] && (IsExpansion(gs[0]) || SomeExpansion(gs[1..]))
  }

  predicate WordStops(s: bytes, e: nat) {
    e == |s| || (e < |s| && EndsWord(s[e]))
  }

  /** The word ends at e, and a dollar sign at its end stays one. */
  predicate WordCloses(gs: seq<Segment>, s: bytes, e: nat) {
    WordStops(s, e) && (gs != [] && gs[|gs| - 1].Dollar? && e < |s| ==> s[e] != LPAREN)
  }

  lemma CloseStops(g: Segment, s: bytes, e: nat)
    requires WordCloses([g], s, e)
    ensures Stops(g, s, e)
  {
    assert [g][0] == g;
  }

  /** What follows the first segment is not drawn into it. */
  lemma FirstIsOver(s: bytes, i: nat, gs: seq<Segment>)
    requires gs != [] && WellSpelled(gs) && At(s, i, RenderAll(gs)) && WordCloses(gs, s, i + |RenderAll(gs)|)
    ensures At(s, i, Render(gs[0])) && At(s, i + |Render(gs[0])|, RenderAll(gs[1..]))
    ensures Stops(gs[0], s, i + |Render(gs[0])|) && WordCloses(gs[1..], s, i + |RenderAll(gs)|)
  {
    hide At, Render, WellFormed, MayFollow, EndsWord;
    AtParts(s, i, Render(gs[0]), RenderAll(gs[1..]));
    if |gs| > 1 {
      assert RenderAll(gs[1..]) == Render(gs[1]) + RenderAll(gs[1..][1..]);
      AtFirst(s, i + |Render(gs[0])|, RenderAll(gs[1..]));
    } else {
      CloseStops(gs[0], s, i + |RenderAll(gs)|);
    }
  }

  /** Pieces written next to each other are one word: its value is their literal
      text joined, and it is unresolved exactly when one of them is an expansion. */
  lemma {:induction false} AdjacentPiecesAreOneWord(s: bytes, i: nat, gs: seq<Segment>)
    requires WellSpelled(gs) && At(s, i, RenderAll(gs)) && WordCloses(gs, s, i + |RenderAll(gs)|)
    ensures WordFrom(s, i) == Piece(i + |RenderAll(gs)|, Literals(gs), SomeExpansion(gs))
    ensures gs != [] ==> i < |s| && !EndsWord(s[i])
    decreases |gs|
  {
    hide WordFrom, At, Render, Literal, IsExpansion, WellFormed, NextPiece, EndsWord, WordStops, Stops, MayFollow;
    if gs == [] {
      EndOfWord(s, i);
    } else {
      FirstIsOver(s, i, gs);
      SegmentIsPiece(s, i, gs[0]);
      WordStep(s, i);
      AdjacentPiecesAreOneWord(s, i + |Render(gs[0])|, gs[1..]);
    }
  }

  // ----- whole commands -----

  /** A command: words spelled from pieces, operators, and blanks. */
  datatype Item = Spelled(gs: seq<Segment>) | Control(op: Token) | Gap(c: byte)

  function Write(item: Item): bytes {
    match item
    case Spelled(gs) => RenderAll(gs)
    case Control(op) => if op.Operator? then op.text else []
    case Gap(c) => [c]
  }

  function WriteAll(items: seq<Item>): bytes {
    if items == [] then [] else Write(items[0]) + WriteAll(items[1..])
  }

  /** The operator that text begins with, when that is all of op. */
  predicate Matches(op: Token, text: bytes) {
    text != [] && StartsOperator(text[0]) && MatchOperator(text, 0) == op
  }

  /** The item is one of its kind, and what follows is not drawn into it. */
  predicate Stands(item: Item, rest: bytes) {
    match item
    case Spelled(gs) => gs != [] && WellSpelled(gs) && WordCloses(gs, rest, 0)
    case Control(op) => op.Operator? && op.text != [] && Matches(op, op.text + rest)
    case Gap(c) => IsBlankByte(c)
  }

  predicate AllStand(items: seq<Item>, rest: bytes) {
    items == [] || (Stands(items[0], WriteAll(items[1..]) + rest) && AllStand(items[1..], rest))
  }

  /** Digits, nothing of them quoted, right before a redirection. */
  predicate IsDescriptor(gs: seq<Segment>, rest: bytes) {
    StartsRedirection(rest, 0) && RenderAll(gs) == Literals(gs) && AllDigits(Literals(gs))
  }

  /** The tokens an item stands for, given what follows it. */
  function Meant(item: Item, rest: bytes): seq<Token> {
    match item
    case Spelled(gs) => if IsDescriptor(gs, rest) then [] else [Word(Literals(gs), RenderAll(gs), SomeExpansion(gs))]
    case Control(op) => [op]
    case Gap(_) => []
  }

  function MeantAll(items: seq<Item>, rest: bytes): seq<Token> {
    if items == [] then [] else Meant(items[0], WriteAll(items[1..]) + rest) + MeantAll(items[1..], rest)
  }

  /** The text from i on, cut in two. */
  lemma Upto(s: bytes, i: nat, a: bytes, b: bytes)
    requires i <= |s| && s[i..] == a + b
    ensures At(s, i, a) && s[i + |a|..] == b
    ensures a == [] || s[i] == a[0]
    ensures b != [] ==> s[i + |a|] == b[0]
  {
    assert s[i..i + |a|] == s[i..][..|a|] == a;
    assert s[i + |a|..] == s[i..][|a|..] == b;
    assert a != [] ==> s[i..][0] == a[0];
    assert b != [] ==> s[i + |a|..][0] == b[0];
  }

  /** An operator is matched by what follows it, wherever it stands. */
  lemma SameOperator(s: bytes, i: nat)
    requires i < |s| && StartsOperator(s[i])
    ensures MatchOperator(s[i..], 0) == MatchOperator(s, i)
  {
    assert forall k :: 0 <= k < |s| - i ==> s[i..][k] == s[i + k];
    assert ByteAt(s[i..], 1) == ByteAt(s, i + 1) && ByteAt(s[i..], 2) == ByteAt(s, i + 2);
  }

  lemma SameRedirection(s: bytes, i: nat)
    requires i <= |s|
    ensures StartsRedirection(s[i..], 0) <==> StartsRedirection(s, i)
    ensures forall gs :: WordCloses(gs, s[i..], 0) <==> WordCloses(gs, s, i)
  {
    hide MatchOperator;
    if i < |s| {
      assert s[i..][0] == s[i];
      if StartsOperator(s[i]) {
        SameOperator(s, i);
      }
    }
  }

  lemma WordIsRead(s: bytes, i: nat, e: nat, w: Piece)
    requires i < e <= |s| && !EndsWord(s[i]) && w == WordFrom(s, i) && w.next == e
    ensures Tokens(s, i) == (if StartsRedirection(s, e) && s[i..e] == w.text && AllDigits(w.text) then [] else [Word(w.text, s[i..e], w.expands)]) + Tokens(s, e)
  {
    hide MatchOperator, WordFrom, AllDigits, StartsRedirection;
  }

  lemma SpelledHead(s: bytes, i: nat, gs: seq<Segment>, rest: bytes)
    requires i <= |s| && s[i..] == RenderAll(gs) + rest && Stands(Spelled(gs), rest)
    ensures i + |RenderAll(gs)| <= |s|
    ensures Tokens(s, i) == Meant(Spelled(gs), rest) + Tokens(s, i + |RenderAll(gs)|)
  {
    hide Tokens, WordFrom, Literals, SomeExpansion, RenderAll, EndsWord, At, StartsRedirection, AllDigits,
         WellSpelled, WordCloses;
    var e := i + |RenderAll(gs)|;
    Upto(s, i, RenderAll(gs), rest);
    AtIsSlice(s, i, RenderAll(gs));
    SameRedirection(s, e);
    AdjacentPiecesAreOneWord(s, i, gs);
    RenderedIsLong(gs);
    WordIsRead(s, i, e, WordFrom(s, i));
  }

  lemma RenderedIsLong(gs: seq<Segment>)
    requires gs != []
    ensures |RenderAll(gs)| > 0
  {
    hide Render;
  }

  lemma AtIsSlice(s: bytes, i: nat, t: bytes)
    requires At(s, i, t)
    ensures i + |t| <= |s| && s[i..i + |t|] == t
  {
  }

  lemma OperatorHead(s: bytes, i: nat, op: Token, rest: bytes)
    requires i <= |s| && op.Operator? && s[i..] == op.text + rest && Stands(Control(op), rest)
    ensures i + |op.text| <= |s| && Tokens(s, i) == [op] + Tokens(s, i + |op.text|)
  {
    hide MatchOperator, WordFrom;
    Upto(s, i, op.text, rest);
    SameOperator(s, i);
  }

  lemma ItemHead(s: bytes, i: nat, item: Item, rest: bytes)
    requires i <= |s| && s[i..] == Write(item) + rest && Stands(item, rest)
    ensures i + |Write(item)| <= |s| && Tokens(s, i) == Meant(item, rest) + Tokens(s, i + |Write(item)|)
  {
    hide MatchOperator, RenderAll, Literals, SomeExpansion, WellSpelled, WordStops, IsDescriptor, Tokens, Matches;
    match item
    case Spelled(gs) => SpelledHead(s, i, gs, rest);
    case Control(op) => OperatorHead(s, i, op, rest);
    case Gap(c) => GapHead(s, i, c, rest);
  }

  lemma GapHead(s: bytes, i: nat, c: byte, rest: bytes)
    requires i <= |s| && s[i..] == [c] + rest && IsBlankByte(c)
    ensures i < |s| && Tokens(s, i) == [] + Tokens(s, i + 1)
  {
    hide MatchOperator, WordFrom;
    Upto(s, i, [c], rest);
    assert [] + Tokens(s, i + 1) == Tokens(s, i + 1);
  }

  lemma ItemsUnfold(items: seq<Item>, rest: bytes)
    requires items != [] && AllStand(items, rest)
    ensures var more := WriteAll(items[1..]) + rest;
            && WriteAll(items) == Write(items[0]) + WriteAll(items[1..]) && WriteAll(items) + rest == Write(items[0]) + more
            && Stands(items[0], more) && AllStand(items[1..], rest)
            && MeantAll(items, rest) == Meant(items[0], more) + MeantAll(items[1..], rest)
  {
    hide Stands, Write, Meant;
    assert Write(items[0]) + WriteAll(items[1..]) + rest == Write(items[0]) + (WriteAll(items[1..]) + rest);
  }

  lemma NoItems(s: bytes, i: nat, rest: bytes)
    requires i <= |s|
    ensures WriteAll([]) == [] && MeantAll([], rest) == [] && [] + Tokens(s, i) == Tokens(s, i)
  {
    hide Tokens;
  }

  /** Any command so written is read as it was meant, wherever it stands and
      whatever follows it. */
  lemma {:induction false} CommandReadsBack(s: bytes, i: nat, items: seq<Item>, rest: bytes)
    requires i <= |s| && s[i..] == WriteAll(items) + rest && AllStand(items, rest)
    ensures i + |WriteAll(items)| <= |s|
    ensures Tokens(s, i) == MeantAll(items, rest) + Tokens(s, i + |WriteAll(items)|)
    decreases |items|
  {
    hide *;
    if items == [] {
      NoItems(s, i, rest);
    } else {
      ItemsUnfold(items, rest);
      var t, more := Write(items[0]), WriteAll(items[1..]) + rest;
      Upto(s, i, t, more);
      ItemHead(s, i, items[0], more);
      CommandReadsBack(s, i + |t|, items[1..], rest);
      Cons(Meant(items[0], more), MeantAll(items[1..], rest), Tokens(s, i + |WriteAll(items)|));
    }
  }

  lemma Cons(t: seq<Token>, ts: seq<Token>, more: seq<Token>)
    ensures t + (ts + more) == t + ts + more
  {
  }

  lemma RedirectionCloses(gs: seq<Segment>, op: Token, rest: bytes)
    requires op.Operator? && op.kind != Separator && op.text != [] && Matches(op, op.text + rest)
    ensures WordCloses(gs, op.text + rest, 0)
  {
  }

  /** A word right before a redirection, with no blank between, is the descriptor
      number of the operator, and no word, exactly when it is digits and nothing of
      it was quoted. */
  lemma DescriptorBinds(s: bytes, i: nat, gs: seq<Segment>, op: Token, rest: bytes)
    requires i <= |s| && op.Operator? && op.kind != Separator && s[i..] == RenderAll(gs) + (op.text + rest)
    requires gs != [] && WellSpelled(gs) && op.text != [] && Matches(op, op.text + rest)
    ensures var e := i + |RenderAll(gs)|;
            && e + |op.text| <= |s|
            && Tokens(s, i) ==
               (if RenderAll(gs) == Literals(gs) && AllDigits(Literals(gs)) then [op] else [Word(Literals(gs), RenderAll(gs), SomeExpansion(gs)), op])
               + Tokens(s, e + |op.text|)
  {
    hide Tokens, WordFrom, Literals, SomeExpansion, RenderAll, MatchOperator, AllDigits, WellSpelled;
    var e := i + |RenderAll(gs)|;
    Upto(s, i, RenderAll(gs), op.text + rest);
    RedirectionCloses(gs, op, rest);
    SpelledHead(s, i, gs, op.text + rest);
    OperatorHead(s, e, op, rest);
    Cons(Meant(Spelled(gs), op.text + rest), [op], Tokens(s, e + |op.text|));
    assert [] + [op] == [op];
  }

  // ----- printing and reading back -----

  predicate InTable(op: Token) {
    op.Operator? && op.text != [] && Matches(op, op.text)
  }

  /** A space where the text of an operator ends changes nothing. */
  lemma OperatorReadsBack(op: Token, rest: bytes)
    requires InTable(op)
    ensures Matches(op, op.text + ([SPACE] + rest))
  {
    var n, t := |op.text|, op.text + ([SPACE] + rest);
    assert forall k :: 0 <= k < n ==> t[k] == op.text[k];
    assert t[n] == SPACE;
    NextBytes(op.text[0], ByteAt(op.text, 1), ByteAt(op.text, 2), ByteAt(t, 1), ByteAt(t, 2));
  }

  lemma NextBytes(c: byte, d: byte, e: byte, d': byte, e': byte)
    requires StartsOperator(c)
    requires var n := |OperatorOf(c, d, e).text|;
             && (n == 1 ==> d == e == 0 && d' == SPACE)
             && (n == 2 ==> d' == d && e == 0 && e' == SPACE)
             && (n == 3 ==> d' == d && e' == e)
    ensures OperatorOf(c, d', e') == OperatorOf(c, d, e)
  {
  }

  /** v between single quotes, each quote in it as '\''. */
  function QuotedPieces(v: bytes): (gs: seq<Segment>)
    ensures gs != []
    decreases |v|
  {
    var k := SingleClose(v, 0);
    if k == |v| then [Single(v)] else [Single(v[..k]), Escaped(QUOTE)] + QuotedPieces(v[k + 1..])
  }

  lemma {:induction false} QuotedMeans(v: bytes)
    ensures WellSpelled(QuotedPieces(v)) && Literals(QuotedPieces(v)) == v && !SomeExpansion(QuotedPieces(v))
    decreases |v|
  {
    hide Literals, SomeExpansion, SingleClose, WellSpelled;
    var k := SingleClose(v, 0);
    CloseIsFirst(v, 0);
    if k == |v| {
      OneQuoted(v);
    } else {
      QuotedMeans(v[k + 1..]);
      TwoMore(v[..k], QuotedPieces(v[k + 1..]));
      assert v == v[..k] + ([QUOTE] + v[k + 1..]);
    }
  }

  lemma OneQuoted(v: bytes)
    requires QUOTE !in v
    ensures Literals([Single(v)]) == v && !SomeExpansion([Single(v)]) && WellSpelled([Single(v)])
  {
    assert [Single(v)][1..] == [];
    assert Literals([Single(v)]) == v + Literals([]);
  }

  lemma TwoMore(v: bytes, more: seq<Segment>)
    requires QUOTE !in v
    ensures var gs := [Single(v), Escaped(QUOTE)] + more;
            && Literals(gs) == v + ([QUOTE] + Literals(more))
            && (SomeExpansion(gs) ==> SomeExpansion(more))
            && (WellSpelled(more) ==> WellSpelled(gs))
  {
    var tail := [Escaped(QUOTE)] + more;
    assert [Single(v), Escaped(QUOTE)] + more == [Single(v)] + tail;
    hide Literals, SomeExpansion, WellSpelled;
    OneMore(Escaped(QUOTE), more);
    OneMore(Single(v), tail);
  }

  lemma OneMore(g: Segment, more: seq<Segment>)
    requires WellFormed(g) && forall c :: MayFollow(g, c)
    ensures var gs := [g] + more;
            && Literals(gs) == Literal(g) + Literals(more)
            && (SomeExpansion(gs) <==> IsExpansion(g) || SomeExpansion(more))
            && (WellSpelled(more) ==> WellSpelled(gs))
  {
    hide Literal, IsExpansion, WellFormed, Render;
    assert ([g] + more)[1..] == more;
  }

  /** Tokens a command can be printed from: operators of the table, and words with
      nothing left to expand, whose raw text is their quoted form. */
  predicate Printable(t: Token) {
    match t
    case Word(value, raw, unresolved) => raw == RenderAll(QuotedPieces(value)) && !unresolved
    case Operator(_, _) => InTable(t)
  }

  function ItemOf(t: Token): Item {
    if t.Word? then Spelled(QuotedPieces(t.value)) else Control(t)
  }

  /** Each token followed by a space. */
  function Items(ts: seq<Token>): (items: seq<Item>) {
    if ts == [] then [] else [ItemOf(ts[0]), Gap(SPACE)] + Items(ts[1..])
  }

  lemma PrintedStands(t: Token, rest: bytes)
    requires Printable(t)
    ensures Stands(ItemOf(t), [SPACE] + rest) && Meant(ItemOf(t), [SPACE] + rest) == [t]
  {
    hide QuotedPieces, Literals, SomeExpansion, RenderAll, MatchOperator, WellSpelled, AllDigits;
    assert ([SPACE] + rest)[0] == SPACE;
    if t.Word? {
      QuotedMeans(t.value);
    } else {
      OperatorReadsBack(t, rest);
    }
  }

  lemma {:induction false} ItemsMean(ts: seq<Token>)
    requires forall k :: 0 <= k < |ts| ==> Printable(ts[k])
    ensures MeantAll(Items(ts), []) == ts && AllStand(Items(ts), [])
    decreases |ts|
  {
    if ts != [] {
      hide Printable, ItemOf, WriteAll, AllStand, MeantAll;
      ItemsMean(ts[1..]);
      PrintedMore(ts[0], Items(ts[1..]));
      assert [ts[0]] + ts[1..] == ts;
    }
  }

  lemma PrintedMore(t: Token, items: seq<Item>)
    requires Printable(t) && AllStand(items, [])
    ensures var all := [ItemOf(t), Gap(SPACE)] + items; AllStand(all, []) && MeantAll(all, []) == [t] + MeantAll(items, [])
  {
    hide Printable, ItemOf, Stands, Meant;
    var all, gapped, text := [ItemOf(t), Gap(SPACE)] + items, [Gap(SPACE)] + items, WriteAll(items) + [];
    assert all[0] == ItemOf(t) && all[1..] == gapped && gapped[0] == Gap(SPACE) && gapped[1..] == items;
    assert WriteAll(gapped) + [] == [SPACE] + text;
    PrintedStands(t, text);
    GapStands(text);
    assert MeantAll(gapped, []) == [] + MeantAll(items, []) == MeantAll(items, []);
  }

  lemma GapStands(rest: bytes)
    ensures Stands(Gap(SPACE), rest) && Meant(Gap(SPACE), rest) == []
  {
  }

  /** Print every word single-quoted and every operator as it is, each followed by
      a space, and tokenize: the same tokens, no word unresolved. */
  lemma RoundTrip(ts: seq<Token>)
    requires forall k :: 0 <= k < |ts| ==> Printable(ts[k])
    ensures Tokenize(WriteAll(Items(ts))) == ts
  {
    hide WriteAll, Printable, Tokens, AllStand, MeantAll;
    var s := WriteAll(Items(ts));
    ItemsMean(ts);
    assert s[0..] == s + [];
    CommandReadsBack(s, 0, Items(ts), []);
    TokensAtEnd(s);
    assert ts + [] == ts;
  }

  lemma TokensAtEnd(s: bytes)
    ensures Tokens(s, |s|) == []
  {
  }

  // ----- words are context-free -----

  /** s[a..e], and a position in it. */
  predicate Window(s: bytes, a: nat, e: nat, j: nat) {
    a + j <= e <= |s|
  }

  lemma {:induction false} SingleWindow(s: bytes, a: nat, e: nat, j: nat)
    requires Window(s, a, e, j) && SingleClose(s, a + j) <= e
    ensures a + SingleClose(s[a..e], j) == SingleClose(s, a + j)
    decreases e - j
  {
    if a + j < e && s[a + j] != QUOTE {
      SingleWindow(s, a, e, j + 1);
    }
  }

  lemma {:induction false} EscapedWindow(s: bytes, a: nat, e: nat, j: nat, q: byte)
    requires Window(s, a, e, j) && SkipEscaped(s, a + j, q) <= e
    ensures a + SkipEscaped(s[a..e], j, q) == SkipEscaped(s, a + j, q)
    decreases e - j
  {
    if a + j < e {
      if s[a + j] == BACKSLASH && a + j + 1 < |s| {
        EscapedWindow(s, a, e, j + 2, q);
      } else if s[a + j] != q {
        EscapedWindow(s, a, e, j + 1, q);
      }
    }
  }

  lemma {:induction false} NameWindow(s: bytes, a: nat, e: nat, j: nat)
    requires Window(s, a, e, j) && NameEnd(s, a + j) <= e
    ensures a + NameEnd(s[a..e], j) == NameEnd(s, a + j)
    decreases e - j
  {
    if a + j < e && IsNameChar(s[a + j]) {
      NameWindow(s, a, e, j + 1);
    }
  }

  /** A span that ends inside the window, or at the end of everything. */
  predicate Inside(s: bytes, e: nat, next: nat) {
    next <= e || e == |s|
  }

  lemma SkipSingleWindow(s: bytes, a: nat, e: nat, j: nat)
    requires Window(s, a, e, j) && a + j < e && SkipSingle(s, a + j) <= e
    ensures a + SkipSingle(s[a..e], j) == SkipSingle(s, a + j)
  {
    SingleWindow(s, a, e, j + 1);
  }

  lemma JumpWindow(s: bytes, a: nat, e: nat, j: nat)
    requires Window(s, a, e, j) && a + j < e && Inside(s, e, Jump(s, a + j))
    ensures a + Jump(s[a..e], j) == Jump(s, a + j)
  {
    hide SkipEscaped, SkipSingle;
    var c := s[a + j];
    assert s[a..e][j] == c;
    if c == QUOTE {
      SkipSingleWindow(s, a, e, j);
    } else if c == DQUOTE || c == BACKTICK {
      EscapedWindow(s, a, e, j + 1, c);
    }
  }

  lemma {:induction false} NestedWindow(s: bytes, a: nat, e: nat, j: nat, open: byte, close: byte, depth: int)
    requires a <= e <= |s| && j <= e - a + 1 && Inside(s, e, SkipNested(s, a + j, open, close, depth))
    ensures a + SkipNested(s[a..e], j, open, close, depth) == SkipNested(s, a + j, open, close, depth)
    decreases e + 1 - j
  {
    hide Jump, Deepen;
    if a + j < e {
      assert s[a..e][j] == s[a + j];
      if !(s[a + j] == close && depth == 1) {
        JumpWindow(s, a, e, j);
        NestedWindow(s, a, e, Jump(s, a + j) - a, open, close, Deepen(s[a + j], open, close, depth));
      }
    }
  }

  function Moved(p: Piece, a: nat): Piece {
    p.(next := p.next + a)
  }

  lemma DollarWindow(s: bytes, a: nat, e: nat, j: nat)
    requires Window(s, a, e, j) && a + j < e && Inside(s, e, ConsumeDollar(s, a + j).next)
    ensures Moved(ConsumeDollar(s[a..e], j), a) == ConsumeDollar(s, a + j)
  {
    hide SkipNested, NameEnd;
    var i := a + j;
    if i + 1 < e {
      var c := s[i + 1];
      if c == LPAREN {
        NestedWindow(s, a, e, j + 1, LPAREN, RPAREN, 0);
      } else if c == LBRACE {
        NestedWindow(s, a, e, j + 1, LBRACE, RBRACE, 0);
      } else if IsNameStart(c) {
        NameWindow(s, a, e, j + 2);
      }
    }
  }

  lemma DoubleStepWindow(s: bytes, a: nat, e: nat, j: nat)
    requires Window(s, a, e, j) && a + j < e && Inside(s, e, DoubleStep(s, a + j).next)
    requires a + j + 1 < e || e == |s|
    ensures Moved(DoubleStep(s[a..e], j), a) == DoubleStep(s, a + j)
  {
    hide SkipEscaped, ConsumeDollar;
    var i := a + j;
    if i + 1 < e {
      assert s[a..e][j + 1] == s[i + 1];
    }
    if s[i] == DOLLAR {
      DollarWindow(s, a, e, j);
    } else if s[i] == BACKTICK {
      EscapedWindow(s, a, e, j + 1, BACKTICK);
    }
  }

  /** A double-quoted inside whose closing quote is in the window too. */
  lemma {:induction false} DoubleWindow(s: bytes, a: nat, e: nat, j: nat)
    requires a <= e <= |s| && j <= e - a + 1 && (DoubleInside(s, a + j).next < e || e == |s|)
    ensures Moved(DoubleInside(s[a..e], j), a) == DoubleInside(s, a + j)
    decreases e + 1 - j
  {
    hide DoubleStep;
    if a + j < e && s[a + j] != DQUOTE {
      var p := DoubleStep(s, a + j);
      DoubleStepWindow(s, a, e, j);
      DoubleWindow(s, a, e, p.next - a);
    }
  }

  lemma SubSlice(s: bytes, a: nat, e: nat, x: nat, y: nat)
    requires a <= e <= |s| && x <= y <= e - a
    ensures s[a..e][x..y] == s[a + x..a + y]
  {
    forall k | 0 <= k < y - x
      ensures s[a..e][x..y][k] == s[a + x..a + y][k]
    {
      assert s[a..e][x + k] == s[a + x + k];
    }
  }

  lemma PieceWindow(s: bytes, a: nat, e: nat, j: nat)
    requires Window(s, a, e, j) && a + j < e && Inside(s, e, NextPiece(s, a + j).next)
    ensures Moved(NextPiece(s[a..e], j), a) == NextPiece(s, a + j)
  {
    hide SkipEscaped, ConsumeDollar, DoubleInside, SingleClose;
    var i, c := a + j, s[a + j];
    assert s[a..e][j] == c && (i + 1 < e ==> s[a..e][j + 1] == s[i + 1]);
    if c == QUOTE {
      SingleWindow(s, a, e, j + 1);
      SubSlice(s, a, e, j + 1, SingleClose(s, i + 1) - a);
    } else if c == DQUOTE {
      DoubleWindow(s, a, e, j + 1);
    } else if c == BACKTICK {
      EscapedWindow(s, a, e, j + 1, BACKTICK);
    } else if c == DOLLAR {
      if i + 1 < e && (s[i + 1] == QUOTE || s[i + 1] == DQUOTE) {
        EscapedWindow(s, a, e, j + 2, s[i + 1]);
      } else {
        DollarWindow(s, a, e, j);
      }
    }
  }

  /** The pieces of a word do not depend on what surrounds the word. */
  lemma {:induction false} WordWindow(s: bytes, a: nat, j: nat, e: nat)
    requires a <= |s| && j <= |s| - a + 1 && a + j <= e + 1 && e == Min(WordFrom(s, a + j).next, |s|) && a <= e
    ensures Moved(WordFrom(s[a..e], j), a) == WordFrom(s, a + j)
    decreases |s| + 1 - j
  {
    hide NextPiece, EndsWord;
    var i := a + j;
    if i < |s| && !EndsWord(s[i]) {
      PieceWindow(s, a, e, j);
      WordWindow(s, a, NextPiece(s, i).next - a, e);
    }
  }

  /** The raw text of any word of any command, tokenized on its own, is that word:
      quoting, escapes and expansions need no context. */
  lemma {:induction false} RawIsItsWord(s: bytes, i: nat, k: nat)
    requires i <= |s| + 1 && k < |Tokens(s, i)| && Tokens(s, i)[k].Word?
    ensures Tokenize(Tokens(s, i)[k].raw) == [Tokens(s, i)[k]]
    decreases |s| + 1 - i
  {
    hide WordFrom, MatchOperator, EndsWord;
    if IsBlankByte(s[i]) {
      RawIsItsWord(s, i + 1, k);
    } else if StartsOperator(s[i]) {
      RawIsItsWord(s, i + |MatchOperator(s, i).text|, k - 1);
    } else {
      var w := WordFrom(s, i);
      var t := WordToken(s, i, w);
      StartsWord(s, i);
      if k < |t| {
        RawWord(s, i, w);
      } else {
        RawIsItsWord(s, w.next, k - |t|);
      }
    }
  }

  lemma StartsWord(s: bytes, i: nat)
    requires i < |s| && !IsBlankByte(s[i]) && !StartsOperator(s[i])
    ensures !EndsWord(s[i])
  {
  }

  lemma RawWord(s: bytes, i: nat, w: Piece)
    requires i < |s| && !EndsWord(s[i]) && w == WordFrom(s, i)
    ensures var raw := s[i..Min(w.next, |s|)]; Tokenize(raw) == [Word(w.text, raw, w.expands)]
  {
    var e := Min(w.next, |s|);
    WordWindow(s, i, 0, e);
    hide WordFrom;
    SingleWord(s[i..e]);
  }

  lemma SingleWord(raw: bytes)
    requires raw != [] && !EndsWord(raw[0]) && WordFrom(raw, 0).next >= |raw|
    ensures Tokenize(raw) == [Word(WordFrom(raw, 0).text, raw, WordFrom(raw, 0).expands)]
  {
    hide WordFrom, MatchOperator;
    var w := WordFrom(raw, 0);
    assert raw[0..|raw|] == raw && Min(w.next, |raw|) == |raw|;
    assert Tokens(raw, w.next) == [];
  }

  // ----- the loops -----

  method SkipSingleAt(s: bytes, i: nat) returns (k: nat)
    requires i < |s|
    ensures k == SkipSingle(s, i)
  {
    k := i + 1;
    while k < |s| && s[k] != QUOTE
      invariant i < k <= |s| && SingleClose(s, k) == SingleClose(s, i + 1)
    {
      k := k + 1;
    }
    if k < |s| {
      k := k + 1;
    }
  }

  method SkipEscapedAt(s: bytes, j: nat, q: byte) returns (k: nat)
    requires j <= |s|
    ensures k == SkipEscaped(s, j, q)
  {
    k := j;
    while k < |s|
      invariant j <= k <= |s| && SkipEscaped(s, k, q) == SkipEscaped(s, j, q)
    {
      if s[k] == BACKSLASH && k + 1 < |s| {
        k := k + 2;
      } else if s[k] == q {
        return k + 1;
      } else {
        k := k + 1;
      }
    }
  }

  method SkipNestedAt(s: bytes, i: nat, open: byte, close: byte) returns (k: nat)
    requires i <= |s| && open != QUOTE && open != DQUOTE && open != BACKTICK && open != BACKSLASH
    requires close != QUOTE && close != DQUOTE && close != BACKTICK && close != BACKSLASH && close != open
    ensures k == SkipNested(s, i, open, close, 0)
  {
    k := i;
    var depth := 0;
    while k < |s|
      invariant i <= k <= |s| + 1 && SkipNested(s, k, open, close, depth) == SkipNested(s, i, open, close, 0)
      decreases |s| + 1 - k
    {
      var c := s[k];
      if c == QUOTE {
        k := SkipSingleAt(s, k);
      } else if c == DQUOTE || c == BACKTICK {
        k := SkipEscapedAt(s, k + 1, c);
      } else if c == BACKSLASH {
        k := k + 2;
      } else {
        if c == open {
          depth := depth + 1;
        } else if c == close {
          depth := depth - 1;
          if depth == 0 {
            return k + 1;
          }
        }
        k := k + 1;
      }
    }
  }

  method ConsumeDollarAt(s: bytes, i: nat) returns (next: nat, isExpansion: bool, literalDollar: bool)
    requires i < |s| && s[i] == DOLLAR
    ensures ConsumeDollar(s, i) == Piece(next, if literalDollar then [DOLLAR] else [], isExpansion)
  {
    if i + 1 >= |s| {
      return i + 1, false, true;
    }
    var c := s[i + 1];
    if c == LPAREN {
      next := SkipNestedAt(s, i + 1, LPAREN, RPAREN);
      return next, true, false;
    }
    if c == LBRACE {
      next := SkipNestedAt(s, i + 1, LBRACE, RBRACE);
      return next, true, false;
    }
    if IsNameStart(c) {
      next := i + 2;
      while next < |s| && IsNameChar(s[next])
        invariant i + 2 <= next <= |s| && NameEnd(s, next) == NameEnd(s, i + 2)
      {
        next := next + 1;
      }
      return next, true, false;
    }
    if IsSpecialParam(c) {
      return i + 2, true, false;
    }
    return i + 1, false, true;
  }

  /** The double-quote branch: from the opening quote to past the closing one. */
  method ReadDouble(s: bytes, i: nat, wb0: bytes, unresolved0: bool) returns (k: nat, wb: bytes, unresolved: bool)
    requires i < |s| && s[i] == DQUOTE
    ensures var p := NextPiece(s, i); k == p.next && wb == wb0 + p.text && unresolved == (unresolved0 || p.expands)
  {
    hide SkipEscaped, ConsumeDollar;
    k, wb, unresolved := i + 1, wb0, unresolved0;
    ghost var whole := DoubleInside(s, i + 1);
    JoinNothing(wb, whole);
    while k < |s| && s[k] != DQUOTE
      invariant i < k <= |s| + 1
      invariant Join(Piece(k, wb, unresolved), DoubleInside(s, k)) == Join(Piece(i + 1, wb0, unresolved0), whole)
      decreases |s| + 1 - k
    {
      JoinAssociates(Piece(k, wb, unresolved), DoubleStep(s, k), DoubleInside(s, DoubleStep(s, k).next));
      k, wb, unresolved := ReadDoubleStep(s, k, wb, unresolved);
    }
    assert wb + [] == wb;
    if k < |s| {
      k := k + 1;
    }
  }

  lemma JoinNothing(wb: bytes, p: Piece)
    ensures wb + [] == wb
  {
  }

  lemma JoinAssociates(p: Piece, q: Piece, r: Piece)
    ensures Join(p, Join(q, r)) == Join(Join(p, q), r)
  {
    assert p.text + (q.text + r.text) == p.text + q.text + r.text;
  }

  method ReadDoubleStep(s: bytes, i: nat, wb0: bytes, unresolved0: bool) returns (k: nat, wb: bytes, unresolved: bool)
    requires i < |s|
    ensures Piece(k, wb, unresolved) == Join(Piece(i, wb0, unresolved0), DoubleStep(s, i))
  {
    hide SkipEscaped, ConsumeDollar;
    k, wb, unresolved := i, wb0, unresolved0;
    assert wb + [] == wb;
    if s[i] == BACKSLASH && i + 1 < |s| && IsDquoteEscape(s[i + 1]) {
      if s[i + 1] != LF {
        wb := wb + [s[i + 1]];
      }
      k := i + 2;
    } else if s[i] == DOLLAR {
      var isExpansion, literal;
      k, isExpansion, literal := ConsumeDollarAt(s, i);
      if literal {
        wb := wb + [DOLLAR];
      }
      unresolved := unresolved || isExpansion;
    } else if s[i] == BACKTICK {
      unresolved := true;
      k := SkipEscapedAt(s, i + 1, BACKTICK);
    } else {
      wb := wb + [s[i]];
      k := i + 1;
    }
  }

  /** One pass of the main loop on a byte that is part of a word. */
  method ReadPiece(s: bytes, i: nat, wb0: bytes, unresolved0: bool) returns (k: nat, wb: bytes, unresolved: bool)
    requires i < |s|
    ensures Piece(k, wb, unresolved) == Join(Piece(i, wb0, unresolved0), NextPiece(s, i))
  {
    hide SkipEscaped, ConsumeDollar, DoubleInside;
    k, wb, unresolved := i, wb0, unresolved0;
    assert wb + [] == wb;
    var c := s[i];
    if c == QUOTE {
      k, wb := ReadSingle(s, i, wb);
    } else if c == DQUOTE {
      k, wb, unresolved := ReadDouble(s, i, wb, unresolved);
    } else if c == BACKTICK {
      unresolved := true;
      k := SkipEscapedAt(s, i + 1, BACKTICK);
    } else if c == DOLLAR {
      if i + 1 < |s| && (s[i + 1] == QUOTE || s[i + 1] == DQUOTE) {
        unresolved := true;
        k := SkipEscapedAt(s, i + 2, s[i + 1]);
      } else {
        var isExpansion, literal;
        k, isExpansion, literal := ConsumeDollarAt(s, i);
        if literal {
          wb := wb + [DOLLAR];
        }
        unresolved := unresolved || isExpansion;
      }
    } else if c == BACKSLASH {
      if i + 1 < |s| {
        if s[i + 1] != LF {
          wb := wb + [s[i + 1]];
        }
        k := i + 2;
      } else {
        k := i + 1;
      }
    } else {
      wb := wb + [c];
      k := i + 1;
    }
  }

  /** The single-quote branch. */
  method ReadSingle(s: bytes, i: nat, wb0: bytes) returns (k: nat, wb: bytes)
    requires i < |s| && s[i] == QUOTE
    ensures var p := NextPiece(s, i); k == p.next && wb == wb0 + p.text
  {
    k, wb := i + 1, wb0;
    while k < |s| && s[k] != QUOTE
      invariant i < k <= |s| && SingleClose(s, k) == SingleClose(s, i + 1)
      invariant wb == wb0 + s[i + 1..k]
    {
      assert s[i + 1..k + 1] == s[i + 1..k] + [s[k]];
      wb := wb + [s[k]];
      k := k + 1;
    }
    if k < |s| {
      k := k + 1;
    }
  }

  /** The word in progress. */
  datatype Progress = Between | InWord(start: nat, text: bytes, unresolved: bool)

  /** What is still to come at i, word in progress included. */
  function Pending(s: bytes, w: Progress, i: nat): seq<Token>
    requires i <= |s| + 1 && (w.InWord? ==> w.start <= i && w.start <= |s|)
  {
    match w
    case Between => Tokens(s, i)
    case InWord(start, text, unresolved) =>
      var whole := Join(Piece(i, text, unresolved), WordFrom(s, i));
      WordToken(s, start, whole) + Tokens(s, whole.next)
  }

  lemma BeginWord(s: bytes, i: nat)
    requires i < |s| && !EndsWord(s[i])
    ensures Pending(s, Between, i) == Pending(s, InWord(i, [], false), i)
  {
    hide WordFrom;
    assert [] + WordFrom(s, i).text == WordFrom(s, i).text;
  }

  lemma MoveOn(s: bytes, w: Progress, i: nat, p: Piece)
    requires i < |s| && !EndsWord(s[i]) && w.InWord? && w.start <= i
    requires p == Join(Piece(i, w.text, w.unresolved), NextPiece(s, i))
    ensures Pending(s, w, i) == Pending(s, InWord(w.start, p.text, p.expands), p.next)
  {
    hide NextPiece;
    WordStep(s, i);
    JoinAssociates(Piece(i, w.text, w.unresolved), NextPiece(s, i), WordFrom(s, NextPiece(s, i).next));
  }

  lemma EndWord(s: bytes, w: Progress, i: nat)
    requires i <= |s| + 1 && (i >= |s| || EndsWord(s[i])) && w.InWord? && w.start <= i && w.start <= |s|
    ensures Pending(s, w, i) == WordToken(s, w.start, Piece(i, w.text, w.unresolved)) + Tokens(s, i)
  {
    assert w.text + [] == w.text;
  }

  lemma AfterOperator(s: bytes, i: nat)
    requires i < |s| && StartsOperator(s[i])
    ensures Tokens(s, i) == [MatchOperator(s, i)] + Tokens(s, i + |MatchOperator(s, i).text|)
  {
    hide MatchOperator;
  }

  /** tokenizeShell. */
  method TokenizeShell(cmd: bytes) returns (toks: seq<Token>)
    ensures toks == Tokenize(cmd)
  {
    hide Pending, Tokens, NextPiece, WordFrom, WordToken, MatchOperator;
    toks := [];
    var w, i := Between, 0;
    StartOf(cmd);
    while i < |cmd|
      invariant i <= |cmd| + 1 && (w.InWord? ==> w.start <= i && w.start <= |cmd|)
      invariant toks + Pending(cmd, w, i) == Tokenize(cmd)
      decreases |cmd| + 1 - i
    {
      var c := cmd[i];
      if IsBlankByte(c) {
        var t := Flush(cmd, w, i);
        BlankStep(cmd, w, i, t, toks);
        toks, w, i := toks + t, Between, i + 1;
      } else if StartsOperator(c) {
        var op := MatchOperator(cmd, i);
        var t := [];
        if !(op.kind != Separator && w.InWord? && w.text != [] && cmd[w.start..i] == w.text && AllDigits(w.text)) {
          t := Flush(cmd, w, i);
        }
        OperatorStep(cmd, w, i, t, toks);
        toks, w, i := toks + t + [op], Between, i + |op.text|;
      } else {
        if w.Between? {
          BeginWord(cmd, i);
          w := InWord(i, [], false);
        }
        var k, text, unresolved := ReadPiece(cmd, i, w.text, w.unresolved);
        MoveOn(cmd, w, i, Piece(k, text, unresolved));
        w, i := InWord(w.start, text, unresolved), k;
      }
    }
    var t := Flush(cmd, w, Min(i, |cmd|));
    LastWord(cmd, w, i, t);
    toks := toks + t;
  }

  method Flush(cmd: bytes, w: Progress, end: nat) returns (t: seq<Token>)
    requires w.InWord? ==> w.start <= end <= |cmd|
    ensures t == if w.Between? then [] else [Word(w.text, cmd[w.start..end], w.unresolved)]
  {
    return if w.Between? then [] else [Word(w.text, cmd[w.start..end], w.unresolved)];
  }

  lemma StartOf(cmd: bytes)
    ensures [] + Pending(cmd, Between, 0) == Tokenize(cmd)
  {
    hide Tokens;
  }

  lemma BlankStep(cmd: bytes, w: Progress, i: nat, t: seq<Token>, toks: seq<Token>)
    requires i < |cmd| && IsBlankByte(cmd[i]) && (w.InWord? ==> w.start <= i)
    requires t == if w.Between? then [] else [Word(w.text, cmd[w.start..i], w.unresolved)]
    ensures toks + Pending(cmd, w, i) == toks + t + Pending(cmd, Between, i + 1)
  {
    if w.InWord? {
      EndWord(cmd, w, i);
    }
    hide WordFrom;
    assert Tokens(cmd, i) == Tokens(cmd, i + 1);
    AppendAssociates(toks, t, Tokens(cmd, i + 1));
  }

  lemma AppendAssociates(a: seq<Token>, b: seq<Token>, d: seq<Token>)
    ensures a + b + d == a + (b + d) && [] + d == d
  {
  }

  lemma WordBeforeOperator(cmd: bytes, w: Progress, i: nat)
    requires i < |cmd| && StartsOperator(cmd[i]) && w.InWord? && w.start <= i
    ensures WordToken(cmd, w.start, Piece(i, w.text, w.unresolved)) ==
            if MatchOperator(cmd, i).kind != Separator && w.text != [] && cmd[w.start..i] == w.text && AllDigits(w.text) then []
            else [Word(w.text, cmd[w.start..i], w.unresolved)]
  {
    hide MatchOperator;
  }

  lemma OperatorStep(cmd: bytes, w: Progress, i: nat, t: seq<Token>, toks: seq<Token>)
    requires i < |cmd| && StartsOperator(cmd[i]) && (w.InWord? ==> w.start <= i)
    requires t == if w.Between? then []
                  else if MatchOperator(cmd, i).kind != Separator && w.text != [] && cmd[w.start..i] == w.text && AllDigits(w.text) then []
                  else [Word(w.text, cmd[w.start..i], w.unresolved)]
    ensures var op := MatchOperator(cmd, i);
            toks + Pending(cmd, w, i) == toks + t + [op] + Pending(cmd, Between, i + |op.text|)
  {
    hide *;
    var op := MatchOperator(cmd, i);
    PendingAtOperator(cmd, w, i, t);
    AfterOperator(cmd, i);
    PendingBetween(cmd, i + |op.text|);
    Chain(toks, t, op, Tokens(cmd, i + |op.text|));
  }

  lemma Chain(toks: seq<Token>, t: seq<Token>, op: Token, more: seq<Token>)
    ensures toks + (t + ([op] + more)) == toks + t + [op] + more
  {
  }

  lemma PendingBetween(cmd: bytes, i: nat)
    requires i <= |cmd| + 1
    ensures Pending(cmd, Between, i) == Tokens(cmd, i)
  {
    hide Tokens;
  }

  lemma PendingAtOperator(cmd: bytes, w: Progress, i: nat, t: seq<Token>)
    requires i < |cmd| && StartsOperator(cmd[i]) && (w.InWord? ==> w.start <= i)
    requires t == if w.Between? then []
                  else if MatchOperator(cmd, i).kind != Separator && w.text != [] && cmd[w.start..i] == w.text && AllDigits(w.text) then []
                  else [Word(w.text, cmd[w.start..i], w.unresolved)]
    ensures Pending(cmd, w, i) == t + Tokens(cmd, i)
  {
    hide WordFrom, MatchOperator, Tokens, WordToken;
    if w.InWord? {
      EndWord(cmd, w, i);
      WordBeforeOperator(cmd, w, i);
    } else {
      assert [] + Tokens(cmd, i) == Tokens(cmd, i);
    }
  }

  lemma LastWord(cmd: bytes, w: Progress, i: nat, t: seq<Token>)
    requires |cmd| <= i <= |cmd| + 1 && (w.InWord? ==> w.start <= |cmd|)
    requires t == if w.Between? then [] else [Word(w.text, cmd[w.start..Min(i, |cmd|)], w.unresolved)]
    ensures Pending(cmd, w, i) == t
  {
    if w.InWord? {
      EndWord(cmd, w, i);
    }
  }
}
