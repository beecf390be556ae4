/** sqlSkeleton and splitSQLStatements (pkg/engine/reversibility.go): blank what
    is inside literals and comments, then split on the semicolons left. */
module SqlSkeleton {
  import opened Bytes

  const SPACE: byte := 32
  const QUOTE: byte := 39
  const DQUOTE: byte := 34
  const BACKTICK: byte := 96
  const LBRACKET: byte := 91
  const RBRACKET: byte := 93
  const BACKSLASH: byte := 92
  const DASH: byte := 45
  const HASH: byte := 35
  const SLASH: byte := 47
  const STAR: byte := 42
  const DOLLAR: byte := 36
  const SEMICOLON: byte := 59
  const UNDERSCORE: byte := 95

  predicate IsAlpha(x: byte) {
    x == UNDERSCORE || 65 <= x <= 90 || 97 <= x <= 122
  }

  predicate IsTagByte(x: byte) {
    IsAlpha(x) || 48 <= x <= 57
  }

  /** One step of the scan, relative to its first byte: how far it goes, and which
      part of it is blanked. */
  datatype Token = Token(len: nat, from: nat, to: nat)

  function LineEnd(s: bytes, j: nat): (e: nat)
    requires j <= |s|
    ensures j <= e <= |s| && (e < |s| ==> s[e] == LF) && forall k :: j <= k < e ==> s[k] != LF
    decreases |s| - j
  {
    if j == |s| || s[j] == LF then j else LineEnd(s, j + 1)
  }

  predicate OpensComment(s: bytes, j: nat) {
    j + 1 < |s| && s[j] == SLASH && s[j + 1] == STAR
  }

  predicate ClosesComment(s: bytes, j: nat) {
    j + 1 < |s| && s[j] == STAR && s[j + 1] == SLASH
  }

  /** Past the end of the block comment, which nests. */
  function CommentEnd(s: bytes, j: nat, depth: nat): (e: nat)
    requires j <= |s|
    ensures j <= e <= |s|
    decreases |s| - j
  {
    if j == |s| || depth == 0 then j
    else if OpensComment(s, j) then CommentEnd(s, j + 2, depth + 1)
    else if ClosesComment(s, j) then CommentEnd(s, j + 2, depth - 1)
    else CommentEnd(s, j + 1, depth)
  }

  /** The closing delimiter of a quoted span; a doubled one is content, and so is
      a byte after a backslash where those escape. */
  function CloseAt(s: bytes, q: byte, j: nat, escapes: bool): (r: Option<nat>)
    requires j <= |s|
    ensures r.Some? ==> j <= r.value < |s| && s[r.value] == q && (r.value + 1 < |s| ==> s[r.value + 1] != q)
    decreases |s| - j
  {
    if j == |s| then None
    else if escapes && s[j] == BACKSLASH && j + 1 < |s| then CloseAt(s, q, j + 2, escapes)
    else if s[j] == q then
      if j + 1 < |s| && s[j + 1] == q then CloseAt(s, q, j + 2, escapes) else Some(j)
    else CloseAt(s, q, j + 1, escapes)
  }

  function TagEnd(s: bytes, j: nat): (e: nat)
    requires j <= |s|
    ensures j <= e <= |s| && (forall k :: j <= k < e ==> IsTagByte(s[k])) && (e < |s| ==> !IsTagByte(s[e]))
    decreases |s| - j
  {
    if j < |s| && IsTagByte(s[j]) then TagEnd(s, j + 1) else j
  }

  /** dollarOpen: the length of the `$tag$` that s starts with. */
  function DollarOpen(s: bytes): (r: Option<nat>)
    ensures r.Some? ==> 2 <= r.value <= |s| && s[0] == DOLLAR && s[r.value - 1] == DOLLAR
                        && forall k :: 1 <= k < r.value - 1 ==> IsTagByte(s[k])
  {
    if s == [] || s[0] != DOLLAR then None
    else if |s| > 1 && s[1] != DOLLAR && !IsAlpha(s[1]) then None
    else
      var j := TagEnd(s, 1);
      if j < |s| && s[j] == DOLLAR then Some(j + 1) else None
  }

  predicate OccursAt(s: bytes, seq_: bytes, j: nat) {
    j + |seq_| <= |s| && s[j..j + |seq_|] == seq_
  }

  function FindAt(s: bytes, seq_: bytes, j: nat): (r: Option<nat>)
    ensures r.Some? ==> j <= r.value && OccursAt(s, seq_, r.value)
    decreases |s| - j
  {
    if j + |seq_| > |s| then None
    else if OccursAt(s, seq_, j) then Some(j)
    else if j < |s| then FindAt(s, seq_, j + 1)
    else None
  }

  predicate OpensQuote(c: byte) {
    c == QUOTE || c == DQUOTE || c == BACKTICK || c == LBRACKET
  }

  function Closer(c: byte): byte {
    if c == LBRACKET then RBRACKET else c
  }

  predicate Escapes(c: byte) {
    c == QUOTE || c == DQUOTE
  }

  function QuotedToken(s: bytes): (t: Token)
    requires s != []
    ensures 1 <= t.len <= |s| && t.from <= t.to <= t.len
  {
    match CloseAt(s, Closer(s[0]), 1, Escapes(s[0]))
    case None => Token(|s|, 1, |s|)
    case Some(k) => Token(k + 1, 1, k)
  }

  function DollarToken(s: bytes, tag: nat): (t: Token)
    requires 1 <= tag <= |s|
    ensures 1 <= t.len <= |s| && t.from <= t.to <= t.len
  {
    match FindAt(s, s[..tag], tag)
    case None => Token(|s|, tag, |s|)
    case Some(j) => Token(j + tag, tag, j)
  }

  function NextToken(s: bytes): (t: Token)
    requires s != []
    ensures 1 <= t.len <= |s| && t.from <= t.to <= t.len
  {
    var c := s[0];
    if c == DASH && |s| > 1 && s[1] == DASH then Token(LineEnd(s, 2), 0, LineEnd(s, 2))
    else if c == HASH then Token(LineEnd(s, 1), 0, LineEnd(s, 1))
    else if OpensComment(s, 0) then Token(CommentEnd(s, 2, 1), 0, CommentEnd(s, 2, 1))
    else if OpensQuote(c) then QuotedToken(s)
    else if DollarOpen(s).Some? then DollarToken(s, DollarOpen(s).value)
    else Token(1, 0, 0)
  }

  /** Spaces over [from, to), line feeds left where they are. */
  function Blanked(s: bytes, from: nat, to: nat): (r: bytes)
    ensures |r| == |s|
  {
    seq(|s|, k requires 0 <= k < |s| => if from <= k < to && s[k] != LF then SPACE else s[k])
  }

  function Skeleton(s: bytes): (r: bytes)
    ensures |r| == |s|
    decreases |s|
  {
    if s == [] then []
    else
      var t := NextToken(s);
      Blanked(s[..t.len], t.from, t.to) + Skeleton(s[t.len..])
  }

  // ----- what the skeleton keeps -----

  /** o is s with some bytes other than line feeds turned to spaces. */
  predicate Covers(o: bytes, s: bytes) {
    |o| == |s| && forall k :: 0 <= k < |s| ==> o[k] == s[k] || (o[k] == SPACE && s[k] != LF)
  }

  lemma {:induction false} SkeletonCovers(s: bytes)
    ensures Covers(Skeleton(s), s)
    decreases |s|
  {
    if s != [] {
      hide Skeleton, NextToken;
      var t := NextToken(s);
      UnfoldSkeleton(s, t);
      SkeletonCovers(s[t.len..]);
      CoversJoin(Blanked(s[..t.len], t.from, t.to), s[..t.len], Skeleton(s[t.len..]), s[t.len..]);
      assert s == s[..t.len] + s[t.len..];
    }
  }

  lemma CoversJoin(o1: bytes, s1: bytes, o2: bytes, s2: bytes)
    requires Covers(o1, s1) && Covers(o2, s2)
    ensures Covers(o1 + o2, s1 + s2)
  {
  }

  // ----- a token depends only on its own bytes -----

  lemma {:induction false} CloseLocal(s: bytes, q: byte, j: nat, escapes: bool, p: nat)
    requires j <= p <= |s| && CloseAt(s, q, j, escapes).Some? && CloseAt(s, q, j, escapes).value < p
    ensures CloseAt(s[..p], q, j, escapes) == CloseAt(s, q, j, escapes)
    decreases |s| - j
  {
    if escapes && s[j] == BACKSLASH && j + 1 < |s| {
      CloseLocal(s, q, j + 2, escapes, p);
    } else if s[j] == q {
      if j + 1 < |s| && s[j + 1] == q {
        CloseLocal(s, q, j + 2, escapes, p);
      }
    } else {
      CloseLocal(s, q, j + 1, escapes, p);
    }
  }

  lemma {:induction false} LineLocal(s: bytes, j: nat, p: nat)
    requires j <= p <= |s| && LineEnd(s, j) <= p
    ensures LineEnd(s[..p], j) == LineEnd(s, j)
    decreases |s| - j
  {
    if j < |s| && s[j] != LF {
      LineLocal(s, j + 1, p);
    }
  }

  lemma {:induction false} CommentLocal(s: bytes, j: nat, depth: nat, p: nat)
    requires j <= p <= |s| && CommentEnd(s, j, depth) <= p
    ensures CommentEnd(s[..p], j, depth) == CommentEnd(s, j, depth)
    decreases |s| - j
  {
    if j < |s| && depth > 0 {
      if OpensComment(s, j) {
        CommentLocal(s, j + 2, depth + 1, p);
      } else if ClosesComment(s, j) {
        CommentLocal(s, j + 2, depth - 1, p);
      } else {
        CommentLocal(s, j + 1, depth, p);
      }
    }
  }

  lemma {:induction false} TagLocal(s: bytes, j: nat, p: nat)
    requires j <= p <= |s|
    ensures TagEnd(s[..p], j) == if TagEnd(s, j) <= p then TagEnd(s, j) else p
    decreases |s| - j
  {
    if j < |s| && IsTagByte(s[j]) && j < p {
      TagLocal(s, j + 1, p);
    }
  }

  lemma DollarLocal(s: bytes, p: nat)
    requires 1 <= p <= |s|
    ensures DollarOpen(s).None? ==> DollarOpen(s[..p]).None?
    ensures DollarOpen(s).Some? && DollarOpen(s).value <= p ==> DollarOpen(s[..p]) == DollarOpen(s)
  {
    TagLocal(s, 1, p);
  }

  lemma {:induction false} FindLocal(s: bytes, tag: bytes, j: nat, p: nat)
    requires p <= |s| && tag != [] && FindAt(s, tag, j).Some? && FindAt(s, tag, j).value + |tag| <= p
    ensures FindAt(s[..p], tag, j) == FindAt(s, tag, j)
    decreases |s| - j
  {
    assert s[..p][j..j + |tag|] == s[j..j + |tag|];
    if !OccursAt(s, tag, j) {
      FindLocal(s, tag, j + 1, p);
    }
  }

  lemma TokenLocal(s: bytes, p: nat)
    requires s != [] && NextToken(s).len <= p <= |s|
    ensures NextToken(s[..p]) == NextToken(s)
  {
    if p == |s| {
      assert s[..p] == s;
    } else {
      var c := s[0];
      if c == DASH && |s| > 1 && s[1] == DASH {
        LineLocal(s, 2, p);
      } else if c == HASH {
        LineLocal(s, 1, p);
      } else if OpensComment(s, 0) {
        CommentLocal(s, 2, 1, p);
      } else if OpensQuote(c) {
        CloseLocal(s, Closer(c), 1, Escapes(c), p);
      } else if DollarOpen(s).Some? {
        DollarLocal(s, p);
        var tag := DollarOpen(s).value;
        FindLocal(s, s[..tag], tag, p);
        assert s[..p][..tag] == s[..tag];
      } else {
        DollarLocal(s, p);
      }
    }
  }

  /** The scan of s stops at p. */
  predicate Boundary(s: bytes, p: int)
    decreases |s|
  {
    p == 0 || (s != [] && NextToken(s).len <= p <= |s| && Boundary(s[NextToken(s).len..], p - NextToken(s).len))
  }

  /** The skeleton is compositional at every place where the scan stops. */
  lemma {:induction false} SkeletonSplits(s: bytes, p: nat)
    requires Boundary(s, p) && p <= |s|
    ensures Skeleton(s[..p]) == Skeleton(s)[..p] && Skeleton(s[p..]) == Skeleton(s)[p..]
    decreases |s|
  {
    if p == 0 {
      assert s[..0] == [] && s[0..] == s;
    } else {
      var t := NextToken(s);
      TokenLocal(s, p);
      var rest := s[t.len..];
      SkeletonSplits(rest, p - t.len);
      hide NextToken, Boundary;
      Slices(s, t.len, p);
      UnfoldSkeleton(s, t);
      UnfoldSkeleton(s[..p], t);
      SliceOfSum(Blanked(s[..t.len], t.from, t.to), Skeleton(rest), p);
    }
  }

  lemma UnfoldSkeleton(s: bytes, t: Token)
    requires s != [] && t == NextToken(s)
    ensures Skeleton(s) == Blanked(s[..t.len], t.from, t.to) + Skeleton(s[t.len..])
  {
    hide NextToken;
  }

  lemma Slices(s: bytes, n: nat, p: nat)
    requires n <= p <= |s|
    ensures s[..p][..n] == s[..n] && s[..p][n..] == s[n..][..p - n] && s[n..][p - n..] == s[p..]
  {
  }

  lemma SliceOfSum(a: bytes, b: bytes, p: nat)
    requires |a| <= p <= |a| + |b|
    ensures (a + b)[..p] == a + b[..p - |a|] && (a + b)[p..] == b[p - |a|..]
  {
  }

  // ----- idempotence -----

  predicate BlankByte(x: byte) {
    x == SPACE || x == LF
  }

  predicate AllBlank(s: bytes, j: nat, k: nat) {
    forall m :: j <= m < k && m < |s| ==> BlankByte(s[m])
  }

  lemma HeadAndTail(t: bytes, r: bytes)
    requires t != []
    ensures (t + r)[..1] == t[..1] && (t + r)[1..] == t[1..] + r && t[..1] + (t[1..] + r) == t + r
  {
  }

  lemma BlankedNothing(s: bytes)
    ensures Blanked(s, 0, 0) == s
  {
  }

  lemma BlankStep(o: bytes)
    requires o != [] && BlankByte(o[0])
    ensures NextToken(o) == Token(1, 0, 0)
  {
  }

  lemma {:induction false} BlankRun(t: bytes, r: bytes)
    requires AllBlank(t, 0, |t|)
    ensures Skeleton(t + r) == t + Skeleton(r)
    decreases |t|
  {
    if t == [] {
      assert t + r == r;
    } else {
      hide Skeleton, NextToken, Blanked;
      var o := t + r;
      BlankStep(o);
      BlankRun(t[1..], r);
      HeadAndTail(t, r);
      HeadAndTail(t, Skeleton(r));
      UnfoldSkeleton(o, Token(1, 0, 0));
      BlankedNothing(t[..1]);
    }
  }

  lemma {:induction false} CloseOverBlanks(o: bytes, q: byte, j: nat, escapes: bool, k: nat)
    requires j <= k <= |o| && AllBlank(o, j, k) && !BlankByte(q) && q != BACKSLASH
    requires k < |o| ==> o[k] == q && (k + 1 < |o| ==> o[k + 1] != q)
    ensures CloseAt(o, q, j, escapes) == if k < |o| then Some(k) else None
    decreases k - j
  {
    if j < k {
      assert BlankByte(o[j]);
      CloseOverBlanks(o, q, j + 1, escapes, k);
    }
  }

  lemma {:induction false} FindOverBlanks(o: bytes, tag: bytes, j: nat, k: nat)
    requires j <= k <= |o| && AllBlank(o, j, k) && tag != [] && !BlankByte(tag[0])
    requires k < |o| ==> OccursAt(o, tag, k)
    ensures FindAt(o, tag, j) == if k < |o| then Some(k) else None
    decreases k - j
  {
    if j < k {
      assert BlankByte(o[j]);
      assert OccursAt(o, tag, j) ==> o[j..j + |tag|][0] == tag[0];
      FindOverBlanks(o, tag, j + 1, k);
    }
  }

  lemma {:induction false} TagSurvives(o: bytes, s: bytes, j: nat)
    requires Covers(o, s) && j <= |s|
    ensures TagEnd(o, j) <= TagEnd(s, j)
    ensures TagEnd(o, j) < TagEnd(s, j) ==> o[TagEnd(o, j)] == SPACE
    decreases |s| - j
  {
    if j < |s| && IsTagByte(o[j]) {
      TagSurvives(o, s, j + 1);
    }
  }

  /** Blanking cannot create an opener. */
  lemma NoNewDollar(o: bytes, s: bytes)
    requires Covers(o, s) && s != []
    ensures DollarOpen(o).Some? ==> DollarOpen(s) == DollarOpen(o)
  {
    if DollarOpen(o).Some? {
      TagSurvives(o, s, 1);
    }
  }

  /** The scan of the skeleton takes the step the scan of the original took. */
  lemma SameToken(o: bytes, s: bytes, t: Token)
    requires s != [] && t == NextToken(s) && t.from > 0 && Covers(o, s)
    requires o[..t.len] == Blanked(s[..t.len], t.from, t.to)
    ensures NextToken(o) == t
  {
    var c := s[0];
    assert forall k :: 0 <= k < t.len ==> o[k] == o[..t.len][k];
    assert AllBlank(o, t.from, t.to);
    if OpensQuote(c) {
      var q := Closer(c);
      CloseOverBlanks(o, q, 1, Escapes(c), t.to);
    } else {
      SameDollar(o, s, t);
    }
  }

  lemma SameDollar(o: bytes, s: bytes, t: Token)
    requires DollarOpen(s).Some? && t == DollarToken(s, DollarOpen(s).value) && Covers(o, s)
    requires o[..t.len] == Blanked(s[..t.len], t.from, t.to)
    ensures DollarOpen(o) == DollarOpen(s) && DollarToken(o, DollarOpen(s).value) == t
  {
    var tag := DollarOpen(s).value;
    DollarLocal(s, tag);
    hide DollarOpen, FindAt, Covers;
    SpanKept(o, s, t);
    assert o[..tag] == s[..tag];
    TagOpens(o, tag);
    if t.to < |s| {
      assert OccursAt(o, s[..tag], t.to) by {
        SameBytes(o, s, t.to, t.to + tag);
      }
    }
    FirstIsDollar(s);
    FindOverBlanks(o, s[..tag], tag, t.to);
  }

  lemma SameBytes(o: bytes, s: bytes, a: nat, z: nat)
    requires a <= z <= |o| == |s| && forall k :: a <= k < z ==> o[k] == s[k]
    ensures o[a..z] == s[a..z]
  {
  }

  lemma FirstIsDollar(s: bytes)
    ensures DollarOpen(s).Some? ==> s != [] && s[0] == DOLLAR
  {
  }

  lemma SpanKept(o: bytes, s: bytes, t: Token)
    requires t.from <= t.to <= t.len <= |s| && |o| == |s| && o[..t.len] == Blanked(s[..t.len], t.from, t.to)
    ensures AllBlank(o, t.from, t.to)
    ensures forall k :: 0 <= k < t.from || t.to <= k < t.len ==> o[k] == s[k]
  {
    assert forall k :: 0 <= k < t.len ==> o[k] == o[..t.len][k];
  }

  lemma TagOpens(o: bytes, tag: nat)
    requires 2 <= tag <= |o| && DollarOpen(o[..tag]) == Some(tag)
    ensures DollarOpen(o) == Some(tag)
  {
    TagLocal(o, 1, tag);
  }

  lemma BlankedTwice(s: bytes, from: nat, to: nat)
    ensures Blanked(Blanked(s, from, to), from, to) == Blanked(s, from, to)
  {
  }

  /** Skeletons are fixed points. */
  lemma {:induction false} SkeletonIdempotent(s: bytes)
    ensures Skeleton(Skeleton(s)) == Skeleton(s)
    decreases |s|
  {
    if s != [] {
      var t := NextToken(s);
      var head, rest := Blanked(s[..t.len], t.from, t.to), Skeleton(s[t.len..]);
      SkeletonIdempotent(s[t.len..]);
      SkeletonCovers(s);
      var o := head + rest;
      assert o == Skeleton(s);
      assert o[..t.len] == head && o[t.len..] == rest;
      if t.from > 0 {
        SameToken(o, s, t);
        BlankedTwice(s[..t.len], t.from, t.to);
      } else if t.to > 0 {
        BlankRun(head, rest);
      } else {
        PlainStays(o, s);
      }
    }
  }

  lemma PlainStays(o: bytes, s: bytes)
    requires s != [] && Covers(o, s) && o[0] == s[0] && NextToken(s) == Token(1, 0, 0)
    ensures NextToken(o) == Token(1, 0, 0) && Blanked(o[..1], 0, 0) == o[..1]
  {
    NoNewDollar(o, s);
  }

  // ----- what the skeleton means -----

  /** The inside of a block comment, which may hold whole comments. */
  datatype Body = Done | Byte(c: byte, more: Body) | Inner(body: Body, more: Body)

  /** What stands between quotes: a byte, a doubled closing delimiter, or a byte
      after a backslash. */
  datatype Item = Lit(c: byte) | Twice | Backslashed(c: byte)

  /** SQL text by its parts: a byte of code, a quoted literal or identifier, a
      comment to the end of its line, a block comment, a dollar-quoted body, and
      what never closes: a literal, perhaps up to a backslash with nothing after
      it, comments opened inside each other, and a dollar-quoted body. */
  datatype Part =
    | Code(c: byte)
    | Quoted(open: byte, content: seq<Item>)
    | OpenQuote(open: byte, content: seq<Item>, backslash: bool)
    | LineComment(hash: bool, v: bytes)
    | Block(body: Body)
    | OpenBlock(bodies: seq<Body>)
    | Dollar(tag: bytes, v: bytes)
    | OpenDollar(tag: bytes, v: bytes)

  function ItemText(i: Item, q: byte): bytes {
    match i
    case Lit(c) => [c]
    case Twice => [q, q]
    case Backslashed(c) => [BACKSLASH, c]
  }

  function Content(v: seq<Item>, q: byte): bytes {
    if v == [] then [] else ItemText(v[0], q) + Content(v[1..], q)
  }

  predicate Contained(v: seq<Item>, q: byte, escapes: bool) {
    forall k :: 0 <= k < |v| ==>
      match v[k]
      case Lit(c) => c != q && (escapes ==> c != BACKSLASH)
      case Twice => true
      case Backslashed(_) => escapes
  }

  function BodyText(b: Body): bytes {
    match b
    case Done => []
    case Byte(c, more) => [c] + BodyText(more)
    case Inner(body, more) => [SLASH, STAR] + BodyText(body) + [STAR, SLASH] + BodyText(more)
  }

  function OpenText(bodies: seq<Body>): bytes {
    if bodies == [] then [] else [SLASH, STAR] + BodyText(bodies[0]) + OpenText(bodies[1..])
  }

  function TagText(tag: bytes): bytes {
    [DOLLAR] + tag + [DOLLAR]
  }

  function Trailing(backslash: bool): bytes {
    if backslash then [BACKSLASH] else []
  }

  function Text(p: Part): bytes {
    match p
    case Code(c) => [c]
    case Quoted(open, v) => [open] + Content(v, Closer(open)) + [Closer(open)]
    case OpenQuote(open, v, backslash) => [open] + Content(v, Closer(open)) + Trailing(backslash)
    case LineComment(hash, v) => (if hash then [HASH] else [DASH, DASH]) + v
    case Block(body) => [SLASH, STAR] + BodyText(body) + [STAR, SLASH]
    case OpenBlock(bodies) => OpenText(bodies)
    case Dollar(tag, v) => TagText(tag) + v + TagText(tag)
    case OpenDollar(tag, v) => TagText(tag) + v
  }

  function Spaces(v: bytes): bytes {
    Blanked(v, 0, |v|)
  }

  /** What is left of a part: code, and the delimiters of quotes. */
  function Shown(p: Part): bytes {
    match p
    case Code(c) => [c]
    case Quoted(open, v) => [open] + Spaces(Content(v, Closer(open))) + [Closer(open)]
    case OpenQuote(open, v, backslash) => [open] + Spaces(Content(v, Closer(open)) + Trailing(backslash))
    case LineComment(_, _) => Spaces(Text(p))
    case Block(_) => Spaces(Text(p))
    case OpenBlock(_) => Spaces(Text(p))
    case Dollar(tag, v) => TagText(tag) + Spaces(v) + TagText(tag)
    case OpenDollar(tag, v) => TagText(tag) + Spaces(v)
  }

  /** c and the byte after it neither open nor close a comment. */
  predicate Apart(c: byte, next: bytes) {
    next != [] ==> !(c == SLASH && next[0] == STAR) && !(c == STAR && next[0] == SLASH)
  }

  /** No byte of the body opens or closes a comment together with the next one,
      when the body is followed by `after`. */
  predicate BodyStands(b: Body, after: bytes) {
    match b
    case Done => true
    case Byte(c, more) =>
      Apart(c, BodyText(more) + after) && BodyStands(more, after)
    case Inner(body, more) => BodyStands(body, [STAR, SLASH] + BodyText(more) + after) && BodyStands(more, after)
  }

  predicate BodiesStand(bodies: seq<Body>) {
    bodies == [] || (BodyStands(bodies[0], OpenText(bodies[1..])) && BodiesStand(bodies[1..]))
  }

  predicate IsTag(tag: bytes) {
    (tag == [] || IsAlpha(tag[0])) && forall k :: 0 <= k < |tag| ==> IsTagByte(tag[k])
  }

  /** t does not begin anywhere in the first n bytes of s. */
  predicate AbsentBefore(s: bytes, t: bytes, n: nat) {
    forall m :: 0 <= m < n ==> !OccursAt(s, t, m)
  }

  /** The part is one of its kind, and what follows is not drawn into it. */
  predicate Stands(p: Part, rest: bytes) {
    match p
    case Code(c) =>
      && !OpensQuote(c) && c != HASH
      && (c == DASH ==> rest == [] || rest[0] != DASH)
      && (c == SLASH ==> rest == [] || rest[0] != STAR)
      && (c == DOLLAR ==> DollarOpen([c] + rest).None?)
    case Quoted(open, v) => OpensQuote(open) && Contained(v, Closer(open), Escapes(open)) && (rest == [] || rest[0] != Closer(open))
    case OpenQuote(open, v, backslash) => OpensQuote(open) && Contained(v, Closer(open), Escapes(open)) && (backslash ==> Escapes(open)) && rest == []
    case LineComment(_, v) => LF !in v && (rest == [] || rest[0] == LF)
    case Block(body) => BodyStands(body, [STAR, SLASH] + rest)
    case OpenBlock(bodies) => bodies != [] && BodiesStand(bodies) && rest == []
    case Dollar(tag, v) => IsTag(tag) && AbsentBefore(v + TagText(tag), TagText(tag), |v|)
    case OpenDollar(tag, v) => IsTag(tag) && AbsentBefore(v, TagText(tag), |v|) && rest == []
  }

  function TextAll(ps: seq<Part>): bytes {
    if ps == [] then [] else Text(ps[0]) + TextAll(ps[1..])
  }

  function ShownAll(ps: seq<Part>): bytes {
    if ps == [] then [] else Shown(ps[0]) + ShownAll(ps[1..])
  }

  predicate AllStand(ps: seq<Part>) {
    ps == [] || (Stands(ps[0], TextAll(ps[1..])) && AllStand(ps[1..]))
  }

  /** Content is read over, to the byte after it. */
  lemma {:induction false} ContentPasses(s: bytes, q: byte, j: nat, escapes: bool, v: seq<Item>)
    requires q != BACKSLASH && Contained(v, q, escapes)
    requires j + |Content(v, q)| <= |s| && s[j..j + |Content(v, q)|] == Content(v, q)
    ensures CloseAt(s, q, j, escapes) == CloseAt(s, q, j + |Content(v, q)|, escapes)
    decreases |v|
  {
    hide CloseAt, Content;
    ContentUnfold(v, q);
    if v != [] {
      var t := ItemText(v[0], q);
      PartsAt(s, j, t, Content(v[1..], q));
      ItemPasses(s, q, j, escapes, v[0]);
      ContentPasses(s, q, j + |t|, escapes, v[1..]);
    }
  }

  lemma ContentUnfold(v: seq<Item>, q: byte)
    ensures Content(v, q) == if v == [] then [] else ItemText(v[0], q) + Content(v[1..], q)
  {
  }

  lemma ItemPasses(s: bytes, q: byte, j: nat, escapes: bool, i: Item)
    requires q != BACKSLASH && Contained([i], q, escapes)
    requires j + |ItemText(i, q)| <= |s| && s[j..j + |ItemText(i, q)|] == ItemText(i, q)
    ensures CloseAt(s, q, j, escapes) == CloseAt(s, q, j + |ItemText(i, q)|, escapes)
  {
    var t := s[j..j + |ItemText(i, q)|];
    assert t[0] == s[j] && (|t| == 2 ==> t[1] == s[j + 1]);
    assert [i][0] == i;
  }

  lemma Suffix(s: bytes, j: nat, a: bytes, b: bytes)
    requires j <= |s| && s[j..] == a + b
    ensures j + |a| <= |s| && s[j + |a|..] == b && s[j..j + |a|] == a
  {
    assert s[j + |a|..] == s[j..][|a|..];
    assert s[j..j + |a|] == s[j..][..|a|];
  }

  lemma PartsAt(s: bytes, j: nat, a: bytes, b: bytes)
    requires j + |a| + |b| <= |s| && s[j..j + |a| + |b|] == a + b
    ensures s[j..j + |a|] == a && s[j + |a|..j + |a| + |b|] == b
  {
    assert (a + b)[..|a|] == a && (a + b)[|a|..] == b;
  }

  lemma OpenerPasses(s: bytes, j: nat, depth: nat)
    requires depth > 0 && j + 2 <= |s|
    ensures s[j..j + 2] == [SLASH, STAR] ==> CommentEnd(s, j, depth) == CommentEnd(s, j + 2, depth + 1)
    ensures s[j..j + 2] == [STAR, SLASH] ==> CommentEnd(s, j, depth) == CommentEnd(s, j + 2, depth - 1)
  {
    var two := s[j..j + 2];
    assert two[0] == s[j] && two[1] == s[j + 1];
  }

  lemma BytePasses(s: bytes, j: nat, depth: nat, c: byte, next: bytes)
    requires depth > 0 && j <= |s| && s[j..] == [c] + next
    requires Apart(c, next)
    ensures CommentEnd(s, j, depth) == CommentEnd(s, j + 1, depth)
  {
    assert s[j] == s[j..][0] && (next != [] ==> s[j + 1] == s[j..][1]);
  }

  lemma BodyUnfold(b: Body, after: bytes)
    ensures BodyText(b) == match b
                           case Done => []
                           case Byte(c, more) => [c] + BodyText(more)
                           case Inner(body, more) => [SLASH, STAR] + BodyText(body) + [STAR, SLASH] + BodyText(more)
    ensures b.Done? ==> BodyStands(b, after)
    ensures b.Byte? ==> (BodyStands(b, after) <==> Apart(b.c, BodyText(b.more) + after) && BodyStands(b.more, after))
    ensures b.Inner? ==>
              (BodyStands(b, after) <==> BodyStands(b.body, [STAR, SLASH] + BodyText(b.more) + after) && BodyStands(b.more, after))
  {
  }

  lemma InnerAt(s: bytes, j: nat, t: bytes, more: bytes, after: bytes)
    requires j <= |s| && s[j..] == [SLASH, STAR] + t + [STAR, SLASH] + more + after
    ensures j + 4 + |t| <= |s| && s[j..j + 2] == [SLASH, STAR] && s[j + 2..] == t + ([STAR, SLASH] + more + after)
    ensures s[j + 2 + |t|..j + 4 + |t|] == [STAR, SLASH] && s[j + 4 + |t|..] == more + after
  {
    assert s[j..] == [SLASH, STAR] + (t + ([STAR, SLASH] + more + after));
    Suffix(s, j, [SLASH, STAR], t + ([STAR, SLASH] + more + after));
    Suffix(s, j + 2, t, [STAR, SLASH] + more + after);
    assert s[j + 2 + |t|..] == [STAR, SLASH] + (more + after);
    Suffix(s, j + 2 + |t|, [STAR, SLASH], more + after);
  }

  /** A balanced body leaves the nesting depth where it was. */
  lemma {:induction false} BodyPasses(s: bytes, j: nat, depth: nat, b: Body, after: bytes)
    requires depth > 0 && j <= |s| && s[j..] == BodyText(b) + after && BodyStands(b, after)
    ensures j + |BodyText(b)| <= |s| && CommentEnd(s, j, depth) == CommentEnd(s, j + |BodyText(b)|, depth)
    decreases b
  {
    hide CommentEnd, BodyStands, BodyText;
    BodyUnfold(b, after);
    match b
    case Done =>
    case Byte(c, more) =>
      assert s[j..] == [c] + (BodyText(more) + after);
      Suffix(s, j, [c], BodyText(more) + after);
      BytePasses(s, j, depth, c, BodyText(more) + after);
      BodyPasses(s, j + 1, depth, more, after);
    case Inner(body, more) =>
      var n := |BodyText(body)|;
      InnerAt(s, j, BodyText(body), BodyText(more), after);
      OpenerPasses(s, j, depth);
      BodyPasses(s, j + 2, depth + 1, body, [STAR, SLASH] + BodyText(more) + after);
      OpenerPasses(s, j + 2 + n, depth + 1);
      BodyPasses(s, j + 4 + n, depth, more, after);
  }

  lemma OpenUnfold(bodies: seq<Body>)
    requires bodies != []
    ensures OpenText(bodies) == [SLASH, STAR] + (BodyText(bodies[0]) + OpenText(bodies[1..]))
  {
  }

  lemma OpenParts(bodies: seq<Body>)
    requires bodies != [] && BodiesStand(bodies)
    ensures BodyStands(bodies[0], OpenText(bodies[1..])) && BodiesStand(bodies[1..])
  {
  }

  lemma CommentEndsThere(s: bytes, depth: nat)
    ensures CommentEnd(s, |s|, depth) == |s|
  {
  }

  /** Comments opened and not closed run to the end. */
  lemma {:induction false} OpenPasses(s: bytes, j: nat, depth: nat, bodies: seq<Body>)
    requires depth > 0 && j <= |s| && s[j..] == OpenText(bodies) && BodiesStand(bodies)
    ensures CommentEnd(s, j, depth) == |s|
    decreases |bodies|
  {
    hide CommentEnd, BodyStands, BodyText;
    if bodies == [] {
      CommentEndsThere(s, depth);
    } else {
      hide OpenText, BodiesStand;
      var b, more := bodies[0], OpenText(bodies[1..]);
      OpenUnfold(bodies);
      OpenParts(bodies);
      Suffix(s, j, [SLASH, STAR], BodyText(b) + more);
      OpenerPasses(s, j, depth);
      BodyPasses(s, j + 2, depth + 1, b, more);
      Suffix(s, j + 2, BodyText(b), more);
      OpenPasses(s, j + 2 + |BodyText(b)|, depth + 1, bodies[1..]);
    }
  }

  lemma {:induction false} FirstOccurrence(s: bytes, tag: bytes, j: nat, k: nat)
    requires j <= k && (forall m :: j <= m < k ==> !OccursAt(s, tag, m)) && OccursAt(s, tag, k)
    ensures FindAt(s, tag, j) == Some(k)
    decreases k - j
  {
    if j < k {
      FirstOccurrence(s, tag, j + 1, k);
    }
  }

  lemma {:induction false} NoOccurrence(s: bytes, tag: bytes, j: nat)
    requires forall m :: j <= m <= |s| ==> !OccursAt(s, tag, m)
    ensures FindAt(s, tag, j) == None
    decreases |s| - j
  {
    if j < |s| {
      NoOccurrence(s, tag, j + 1);
    }
  }

  lemma {:induction false} FindIsFirst(s: bytes, tag: bytes, j: nat)
    ensures match FindAt(s, tag, j)
            case Some(k) => forall m :: j <= m < k ==> !OccursAt(s, tag, m)
            case None => forall m :: j <= m ==> !OccursAt(s, tag, m)
    decreases |s| - j
  {
    if j + |tag| <= |s| && !OccursAt(s, tag, j) && j < |s| {
      FindIsFirst(s, tag, j + 1);
    }
  }

  lemma SliceOfSlice(s: bytes, a: nat, b: nat, m: nat, n: nat)
    requires a <= b <= |s| && m + n <= b - a
    ensures s[a..b][m..m + n] == s[a + m..a + m + n]
  {
    var x, y := s[a..b][m..m + n], s[a + m..a + m + n];
    forall k | 0 <= k < n
      ensures x[k] == y[k]
    {
      assert s[a..b][m + k] == s[a + (m + k)];
    }
  }

  /** What occurs in a part of s occurs in s, at the place the part has. */
  lemma OccursWithin(s: bytes, a: nat, b: nat, tag: bytes, m: nat)
    requires a <= b <= |s| && m + |tag| <= b - a
    ensures OccursAt(s[a..b], tag, m) <==> OccursAt(s, tag, a + m)
  {
    SliceOfSlice(s, a, b, m, |tag|);
  }

  lemma {:induction false} TagEndIs(s: bytes, j: nat, k: nat)
    requires j <= k < |s| && (forall m :: j <= m < k ==> IsTagByte(s[m])) && !IsTagByte(s[k])
    ensures TagEnd(s, j) == k
    decreases k - j
  {
    if j < k {
      TagEndIs(s, j + 1, k);
    }
  }

  lemma {:induction false} LineEndIs(s: bytes, j: nat, k: nat)
    requires j <= k <= |s| && (forall m :: j <= m < k ==> s[m] != LF) && (k < |s| ==> s[k] == LF)
    ensures LineEnd(s, j) == k
    decreases k - j
  {
    if j < k {
      LineEndIs(s, j + 1, k);
    }
  }

  lemma QuotedShown(p: Part, rest: bytes)
    requires p.Quoted? && Stands(p, rest)
    ensures var s, n := Text(p) + rest, |Content(p.content, Closer(p.open))|;
            NextToken(s) == Token(n + 2, 1, n + 1)
  {
    hide CloseAt, Content, DollarOpen;
    var s, q := Text(p) + rest, Closer(p.open);
    QuotedCloses(p.open, p.content, q, rest);
    assert s[0] == p.open;
  }

  lemma OpenQuoteShown(p: Part, rest: bytes)
    requires p.OpenQuote? && Stands(p, rest)
    ensures NextToken(Text(p) + rest) == Token(|Text(p)|, 1, |Text(p)|)
  {
    hide CloseAt, Content, DollarOpen;
    var s, q, d := Text(p) + rest, Closer(p.open), Content(p.content, Closer(p.open));
    assert s == Text(p) && s[0] == p.open && s[1..1 + |d|] == d;
    ContentPasses(s, q, 1, Escapes(p.open), p.content);
    NothingLeft(s, q, Escapes(p.open));
    if p.backslash {
      assert s[1 + |d|] == BACKSLASH && 2 + |d| == |s|;
      BackslashLeft(s, q, Escapes(p.open));
    }
  }

  lemma BackslashLeft(s: bytes, q: byte, escapes: bool)
    requires s != [] && s[|s| - 1] == BACKSLASH && q != BACKSLASH
    ensures CloseAt(s, q, |s| - 1, escapes) == None
  {
  }

  lemma NothingLeft(s: bytes, q: byte, escapes: bool)
    ensures CloseAt(s, q, |s|, escapes) == None
  {
  }

  lemma QuotedCloses(open: byte, v: seq<Item>, q: byte, rest: bytes)
    requires OpensQuote(open) && q == Closer(open) && Contained(v, q, Escapes(open)) && (rest == [] || rest[0] != q)
    ensures CloseAt([open] + Content(v, q) + [q] + rest, q, 1, Escapes(open)) == Some(1 + |Content(v, q)|)
  {
    hide CloseAt, Content;
    var d := Content(v, q);
    var s := [open] + d + [q] + rest;
    assert s[1..1 + |d|] == d && s[1 + |d|] == q;
    assert |d| + 2 < |s| ==> s[|d| + 2] == rest[0];
    ContentPasses(s, q, 1, Escapes(open), v);
    ClosesHere(s, q, 1 + |d|, Escapes(open));
  }

  lemma ClosesHere(s: bytes, q: byte, j: nat, escapes: bool)
    requires j < |s| && s[j] == q && q != BACKSLASH && (j + 1 < |s| ==> s[j + 1] != q)
    ensures CloseAt(s, q, j, escapes) == Some(j)
  {
  }

  lemma LineShown(p: Part, rest: bytes)
    requires p.LineComment? && Stands(p, rest)
    ensures NextToken(Text(p) + rest) == Token(|Text(p)|, 0, |Text(p)|)
  {
    var s, n := Text(p) + rest, if p.hash then 1 else 2;
    assert forall m :: n <= m < n + |p.v| ==> s[m] == p.v[m - n];
    assert |Text(p)| < |s| ==> s[|Text(p)|] == rest[0];
    LineEndIs(s, n, |Text(p)|);
  }

  lemma BlockShown(p: Part, rest: bytes)
    requires p.Block? && Stands(p, rest)
    ensures NextToken(Text(p) + rest) == Token(|Text(p)|, 0, |Text(p)|)
  {
    hide BodyText, BodyStands, CommentEnd;
    var s, t := Text(p) + rest, BodyText(p.body);
    assert s == [SLASH, STAR] + (t + ([STAR, SLASH] + rest)) && s[0..] == s;
    Suffix(s, 0, [SLASH, STAR], t + ([STAR, SLASH] + rest));
    Suffix(s, 2, t, [STAR, SLASH] + rest);
    Suffix(s, 2 + |t|, [STAR, SLASH], rest);
    BodyPasses(s, 2, 1, p.body, [STAR, SLASH] + rest);
    OpenerPasses(s, 2 + |t|, 1);
    DepthZero(s, 4 + |t|);
    assert s[0] == SLASH && s[1] == STAR;
  }

  lemma DepthZero(s: bytes, j: nat)
    requires j <= |s|
    ensures CommentEnd(s, j, 0) == j
  {
  }

  lemma OpenBlockShown(p: Part, rest: bytes)
    requires p.OpenBlock? && Stands(p, rest)
    ensures NextToken(Text(p) + rest) == Token(|Text(p)|, 0, |Text(p)|)
  {
    OpenParts(p.bodies);
    OpenUnfold(p.bodies);
    hide BodyText, BodyStands, CommentEnd, OpenText, BodiesStand, NextToken, Stands;
    var s, t, more := Text(p) + rest, BodyText(p.bodies[0]), OpenText(p.bodies[1..]);
    assert s == Text(p) && s[0..] == s;
    Suffix(s, 0, [SLASH, STAR], t + more);
    BodyPasses(s, 2, 1, p.bodies[0], more);
    Suffix(s, 2, t, more);
    OpenPasses(s, 2 + |t|, 1, p.bodies[1..]);
    CommentNext(s);
  }

  lemma CommentNext(s: bytes)
    requires |s| >= 2 && s[0..0 + |[SLASH, STAR]|] == [SLASH, STAR]
    ensures NextToken(s) == Token(CommentEnd(s, 2, 1), 0, CommentEnd(s, 2, 1))
  {
    hide CommentEnd;
    assert s[0] == s[0..2][0] && s[1] == s[0..2][1];
  }

  lemma DollarShown(p: Part, rest: bytes)
    requires p.Dollar? && Stands(p, rest)
    ensures var s, n := Text(p) + rest, |p.tag| + 2;
            NextToken(s) == Token(n + |p.v| + n, n, n + |p.v|)
  {
    hide FindAt, DollarOpen, NextToken, OccursAt;
    var s, tag, n := Text(p) + rest, TagText(p.tag), |p.tag| + 2;
    assert s == tag + (p.v + tag + rest);
    TagOpened(p.tag, p.v + tag + rest);
    assert s[..n] == tag;
    DollarNext(s, n);
    BodyFound(tag, p.v, rest);
  }

  lemma DollarNext(s: bytes, n: nat)
    requires DollarOpen(s) == Some(n)
    ensures NextToken(s) == DollarToken(s, n)
  {
    hide FindAt, DollarToken;
    FirstIsDollar(s);
  }

  lemma OpenDollarShown(p: Part, rest: bytes)
    requires p.OpenDollar? && Stands(p, rest)
    ensures NextToken(Text(p) + rest) == Token(|Text(p)|, |p.tag| + 2, |Text(p)|)
  {
    hide FindAt, DollarOpen, NextToken, OccursAt;
    var s, tag, n := Text(p) + rest, TagText(p.tag), |p.tag| + 2;
    assert s == tag + p.v;
    TagOpened(p.tag, p.v);
    assert s[..n] == tag;
    DollarNext(s, n);
    forall m | n <= m <= |s|
      ensures !OccursAt(s, tag, m)
    {
      if m + n <= |s| {
        assert s[n..|s|] == p.v;
        OccursWithin(s, n, |s|, tag, m - n);
      } else {
        TooFar(s, tag, m);
      }
    }
    NoOccurrence(s, tag, n);
  }

  lemma TooFar(s: bytes, tag: bytes, m: nat)
    requires m + |tag| > |s|
    ensures !OccursAt(s, tag, m)
  {
  }

  lemma BodyFound(tag: bytes, v: bytes, rest: bytes)
    requires AbsentBefore(v + tag, tag, |v|)
    ensures FindAt(tag + v + tag + rest, tag, |tag|) == Some(|tag| + |v|)
  {
    hide FindAt, OccursAt;
    var s, n := tag + v + tag + rest, |tag|;
    CloserOccurs(tag, v, rest);
    assert s[n..n + |v| + n] == v + tag;
    forall m | n <= m < n + |v|
      ensures !OccursAt(s, tag, m)
    {
      OccursWithin(s, n, n + |v| + n, tag, m - n);
    }
    FirstOccurrence(s, tag, n, n + |v|);
  }

  lemma CloserOccurs(tag: bytes, v: bytes, rest: bytes)
    ensures OccursAt(tag + v + tag + rest, tag, |tag| + |v|)
  {
    var s := tag + v + tag + rest;
    assert s[|tag| + |v|..|tag| + |v| + |tag|] == tag;
  }

  lemma TagOpened(tag: bytes, rest: bytes)
    requires (tag == [] || IsAlpha(tag[0])) && forall k :: 0 <= k < |tag| ==> IsTagByte(tag[k])
    ensures DollarOpen(TagText(tag) + rest) == Some(|tag| + 2)
  {
    var s, n := TagText(tag) + rest, |tag| + 2;
    assert forall m :: 1 <= m < n - 1 ==> s[m] == tag[m - 1];
    assert s[0] == DOLLAR && s[n - 1] == DOLLAR;
    TagEndIs(s, 1, n - 1);
  }

  lemma CodeShown(p: Part, rest: bytes)
    requires p.Code? && Stands(p, rest)
    ensures NextToken(Text(p) + rest) == Token(1, 0, 0)
  {
    var s := [p.c] + rest;
    assert s[0] == p.c && (rest != [] ==> s[1] == rest[0]);
  }

  lemma BlankedMiddle(a: bytes, v: bytes, b: bytes)
    ensures Blanked(a + v + b, |a|, |a| + |v|) == a + Spaces(v) + b
  {
  }

  lemma CodePart(p: Part, rest: bytes)
    requires p.Code? && Stands(p, rest)
    ensures Skeleton(Text(p) + rest) == Shown(p) + Skeleton(rest)
  {
    hide Skeleton, NextToken, Stands, Blanked;
    CodeShown(p, rest);
    StepIsShown(Text(p) + rest, Text(p), rest, 0, 0);
    BlankedNothing([p.c]);
  }

  lemma QuotedPart(p: Part, rest: bytes)
    requires p.Quoted? && Stands(p, rest)
    ensures Skeleton(Text(p) + rest) == Shown(p) + Skeleton(rest)
  {
    hide Skeleton, NextToken, Stands, Blanked, Content, Spaces;
    QuotedShown(p, rest);
    StepIsShown(Text(p) + rest, Text(p), rest, 1, |Text(p)| - 1);
    BlankedMiddle([p.open], Content(p.content, Closer(p.open)), [Closer(p.open)]);
  }

  lemma OpenQuotePart(p: Part, rest: bytes)
    requires p.OpenQuote? && Stands(p, rest)
    ensures Skeleton(Text(p) + rest) == Shown(p) + Skeleton(rest)
  {
    hide Skeleton, NextToken, Stands, Blanked, Content, Spaces, Trailing;
    OpenQuoteShown(p, rest);
    var v := Content(p.content, Closer(p.open)) + Trailing(p.backslash);
    StepIsShown(Text(p) + rest, Text(p), rest, 1, |Text(p)|);
    BlankedMiddle([p.open], v, []);
    assert [p.open] + v + [] == Text(p);
    assert [p.open] + Spaces(v) + [] == Shown(p);
  }

  lemma CommentPart(p: Part, rest: bytes)
    requires (p.LineComment? || p.Block? || p.OpenBlock?) && Stands(p, rest)
    ensures Skeleton(Text(p) + rest) == Shown(p) + Skeleton(rest)
  {
    hide Skeleton, NextToken, Blanked, BodyText, OpenText, BodyStands, BodiesStand;
    if p.Block? {
      BlockShown(p, rest);
    } else if p.OpenBlock? {
      OpenUnfold(p.bodies);
      OpenBlockShown(p, rest);
    } else {
      LineShown(p, rest);
    }
    StepIsShown(Text(p) + rest, Text(p), rest, 0, |Text(p)|);
  }

  lemma DollarPart(p: Part, rest: bytes)
    requires p.Dollar? && Stands(p, rest)
    ensures Skeleton(Text(p) + rest) == Shown(p) + Skeleton(rest)
  {
    hide Skeleton, NextToken, Stands, Blanked, Spaces;
    DollarShown(p, rest);
    StepIsShown(Text(p) + rest, Text(p), rest, |p.tag| + 2, |p.tag| + 2 + |p.v|);
    BlankedMiddle(TagText(p.tag), p.v, TagText(p.tag));
  }

  lemma OpenDollarPart(p: Part, rest: bytes)
    requires p.OpenDollar? && Stands(p, rest)
    ensures Skeleton(Text(p) + rest) == Shown(p) + Skeleton(rest)
  {
    hide Skeleton, NextToken, Stands, Blanked, Spaces;
    OpenDollarShown(p, rest);
    StepIsShown(Text(p) + rest, Text(p), rest, |p.tag| + 2, |Text(p)|);
    BlankedMiddle(TagText(p.tag), p.v, []);
    assert TagText(p.tag) + p.v + [] == Text(p) && TagText(p.tag) + Spaces(p.v) + [] == Shown(p);
  }

  /** One part is one step of the scan, and is shown as it should be. */
  lemma PartIsShown(p: Part, rest: bytes)
    requires Stands(p, rest)
    ensures Skeleton(Text(p) + rest) == Shown(p) + Skeleton(rest)
  {
    hide *;
    match p
    case Code(_) => CodePart(p, rest);
    case Quoted(_, _) => QuotedPart(p, rest);
    case OpenQuote(_, _, _) => OpenQuotePart(p, rest);
    case LineComment(_, _) => CommentPart(p, rest);
    case Block(_) => CommentPart(p, rest);
    case OpenBlock(_) => CommentPart(p, rest);
    case Dollar(_, _) => DollarPart(p, rest);
    case OpenDollar(_, _) => OpenDollarPart(p, rest);
  }

  lemma StepIsShown(s: bytes, t: bytes, rest: bytes, from: nat, to: nat)
    requires t != [] && s == t + rest && NextToken(s) == Token(|t|, from, to)
    ensures Skeleton(s) == Blanked(t, from, to) + Skeleton(rest)
  {
    hide NextToken, Skeleton;
    UnfoldSkeleton(s, Token(|t|, from, to));
    assert s[..|t|] == t && s[|t|..] == rest;
  }

  /** The skeleton of SQL text is its code and delimiters with every literal,
      quoted identifier and comment, however nested, turned to blanks. */
  lemma {:induction false} SkeletonMeans(ps: seq<Part>)
    requires AllStand(ps)
    ensures Skeleton(TextAll(ps)) == ShownAll(ps)
    decreases |ps|
  {
    if ps != [] {
      hide Skeleton, Text, Shown, Stands;
      PartIsShown(ps[0], TextAll(ps[1..]));
      SkeletonMeans(ps[1..]);
    }
  }

  // ----- every byte string is such text -----

  /** What CloseAt reads over. */
  lemma {:induction false} ContentOf(s: bytes, q: byte, j: nat, escapes: bool) returns (v: seq<Item>, backslash: bool)
    requires j <= |s| && q != BACKSLASH
    ensures Contained(v, q, escapes) && (backslash ==> escapes)
    ensures match CloseAt(s, q, j, escapes)
            case Some(k) => s[j..k] == Content(v, q) && !backslash
            case None => s[j..] == Content(v, q) + Trailing(backslash)
    decreases |s| - j
  {
    hide CloseAt, Content, ItemText, Contained;
    NothingContained(q, escapes);
    NothingLeft(s, q, escapes);
    if j == |s| {
      v, backslash := [], false;
    } else if s[j] == q && !(j + 1 < |s| && s[j + 1] == q) {
      v, backslash := [], false;
      ClosesHere(s, q, j, escapes);
    } else if escapes && s[j] == BACKSLASH && j + 1 == |s| {
      v, backslash := [], true;
      assert s[j..] == [BACKSLASH];
      BackslashLeft(s, q, escapes);
    } else {
      var i := ItemAt(s, q, j, escapes);
      var n := |ItemText(i, q)|;
      ItemPasses(s, q, j, escapes, i);
      v, backslash := ContentOf(s, q, j + n, escapes);
      ContentGrows(s, q, j, n, CloseAt(s, q, j, escapes), i, v, backslash);
      MoreContained(i, v, q, escapes);
      v := [i] + v;
    }
  }

  lemma NothingContained(q: byte, escapes: bool)
    ensures Contained([], q, escapes) && Content([], q) == []
  {
  }

  lemma MoreContained(i: Item, v: seq<Item>, q: byte, escapes: bool)
    requires Contained([i], q, escapes) && Contained(v, q, escapes)
    ensures Contained([i] + v, q, escapes)
  {
    assert [i][0] == i;
  }

  lemma ItemAt(s: bytes, q: byte, j: nat, escapes: bool) returns (i: Item)
    requires j < |s| && q != BACKSLASH
    requires s[j] == q ==> j + 1 < |s| && s[j + 1] == q
    requires escapes && s[j] == BACKSLASH ==> j + 1 < |s|
    ensures Contained([i], q, escapes) && 0 < |ItemText(i, q)| && j + |ItemText(i, q)| <= |s| && s[j..j + |ItemText(i, q)|] == ItemText(i, q)
  {
    i := if escapes && s[j] == BACKSLASH then Backslashed(s[j + 1]) else if s[j] == q then Twice else Lit(s[j]);
    assert j + 1 < |s| ==> s[j..j + 2] == [s[j], s[j + 1]];
    assert s[j..j + 1] == [s[j]];
  }

  lemma ContentGrows(s: bytes, q: byte, j: nat, n: nat, r: Option<nat>, i: Item, v: seq<Item>, backslash: bool)
    requires j + n <= |s| && s[j..j + n] == ItemText(i, q) && (r.Some? ==> j + n <= r.value <= |s|)
    requires match r
             case Some(k) => s[j + n..k] == Content(v, q)
             case None => s[j + n..] == Content(v, q) + Trailing(backslash)
    ensures match r
            case Some(k) => s[j..k] == Content([i] + v, q)
            case None => s[j..] == Content([i] + v, q) + Trailing(backslash)
  {
    hide ItemText, Content;
    ContentUnfold([i] + v, q);
    assert ([i] + v)[1..] == v;
    match r
    case Some(k) => assert s[j..k] == s[j..j + n] + s[j + n..k];
    case None => assert s[j..] == s[j..j + n] + s[j + n..];
  }

  /** b is the inside of a comment from j on: up to what closes it, or to the end
      through the comments opened inside it. */
  predicate BodyFrom(s: bytes, j: nat, b: Body, nested: seq<Body>, close: Option<nat>) {
    j <= |s|
    && match close
       case Some(e) => j <= e && ClosesComment(s, e) && s[j..] == BodyText(b) + s[e..] && BodyStands(b, s[e..])
       case None => s[j..] == BodyText(b) + OpenText(nested) && BodyStands(b, OpenText(nested)) && BodiesStand(nested)
  }

  lemma {:induction false} BodyOf(s: bytes, j: nat) returns (b: Body, nested: seq<Body>, close: Option<nat>)
    requires j <= |s|
    ensures BodyFrom(s, j, b, nested, close) && (close.Some? ==> j <= close.value <= |s| - 2)
    decreases |s| - j
  {
    hide BodyFrom;
    if j == |s| || ClosesComment(s, j) {
      b, nested, close := Done, [], if j == |s| then None else Some(j);
      NothingFrom(s, j);
    } else if OpensComment(s, j) {
      b, nested, close := BodyOf(s, j + 2);
      if close.Some? {
        var inner, unused, e := b, nested, close.value;
        b, nested, close := BodyOf(s, e + 2);
        InnerFrom(s, j, e, inner, unused, b, nested, close);
        b := Inner(inner, b);
      } else {
        OpenFrom(s, j, b, nested);
        b, nested := Done, [b] + nested;
      }
    } else {
      b, nested, close := BodyOf(s, j + 1);
      ByteFrom(s, j, b, nested, close);
      b := Byte(s[j], b);
    }
  }

  lemma NothingStands(after: bytes)
    ensures BodyText(Done) + after == after && BodyStands(Done, after) && OpenText([]) == [] && BodiesStand([])
  {
  }

  lemma NothingFrom(s: bytes, j: nat)
    requires j == |s| || ClosesComment(s, j)
    ensures BodyFrom(s, j, Done, [], if j == |s| then None else Some(j))
  {
    NothingStands(s[j..]);
    NothingStands([]);
    hide BodyText, BodyStands, OpenText, BodiesStand;
  }

  lemma OpenFrom(s: bytes, j: nat, b: Body, nested: seq<Body>)
    requires OpensComment(s, j) && BodyFrom(s, j + 2, b, nested, None)
    ensures BodyFrom(s, j, Done, [b] + nested, None)
  {
    hide BodyText, BodyStands, OpenText, BodiesStand;
    assert s[j..] == [SLASH, STAR] + s[j + 2..];
    OpenGrows(b, nested);
    NothingStands(OpenText([b] + nested));
  }

  lemma InnerFrom(s: bytes, j: nat, e: nat, inner: Body, unused: seq<Body>, more: Body, nested: seq<Body>, close: Option<nat>)
    requires OpensComment(s, j) && e + 2 <= |s| && BodyFrom(s, j + 2, inner, unused, Some(e)) && BodyFrom(s, e + 2, more, nested, close)
    ensures BodyFrom(s, j, Inner(inner, more), nested, close)
  {
    hide BodyText, BodyStands, OpenText, BodiesStand;
    assert s[j..] == [SLASH, STAR] + s[j + 2..];
    assert s[e..] == [STAR, SLASH] + s[e + 2..];
    InnerStands(s, j, e, inner, more, if close.Some? then s[close.value..] else OpenText(nested));
  }

  lemma ByteFrom(s: bytes, j: nat, more: Body, nested: seq<Body>, close: Option<nat>)
    requires j < |s| && !OpensComment(s, j) && !ClosesComment(s, j) && BodyFrom(s, j + 1, more, nested, close)
    ensures BodyFrom(s, j, Byte(s[j], more), nested, close)
  {
    hide BodyText, BodyStands, OpenText, BodiesStand;
    ByteStands(s, j, more, if close.Some? then s[close.value..] else OpenText(nested));
  }

  lemma OpenGrows(b: Body, nested: seq<Body>)
    requires BodyStands(b, OpenText(nested)) && BodiesStand(nested)
    ensures BodiesStand([b] + nested) && OpenText([b] + nested) == [SLASH, STAR] + (BodyText(b) + OpenText(nested))
  {
    assert ([b] + nested)[1..] == nested && ([b] + nested)[0] == b;
    hide BodyText, BodyStands;
    OpenUnfold([b] + nested);
  }

  lemma InnerStands(s: bytes, j: nat, e: nat, inner: Body, more: Body, after: bytes)
    requires j + 2 <= e <= |s| - 2 && s[j..] == [SLASH, STAR] + s[j + 2..] && s[j + 2..] == BodyText(inner) + s[e..]
    requires s[e..] == [STAR, SLASH] + s[e + 2..] && s[e + 2..] == BodyText(more) + after
    requires BodyStands(inner, s[e..]) && BodyStands(more, after)
    ensures s[j..] == BodyText(Inner(inner, more)) + after && BodyStands(Inner(inner, more), after)
  {
    hide BodyText, BodyStands;
    BodyUnfold(Inner(inner, more), after);
    assert s[e..] == [STAR, SLASH] + BodyText(more) + after;
  }

  lemma ByteStands(s: bytes, j: nat, more: Body, after: bytes)
    requires j < |s| && !OpensComment(s, j) && !ClosesComment(s, j) && s[j + 1..] == BodyText(more) + after && BodyStands(more, after)
    ensures s[j..] == BodyText(Byte(s[j], more)) + after && BodyStands(Byte(s[j], more), after)
  {
    hide BodyText, BodyStands;
    BodyUnfold(Byte(s[j], more), after);
    assert s[j..] == [s[j]] + s[j + 1..];
    assert j + 1 < |s| ==> s[j + 1..][0] == s[j + 1];
  }

  lemma QuotePart(s: bytes) returns (p: Part, rest: bytes)
    requires s != [] && OpensQuote(s[0])
    ensures Text(p) != [] && s == Text(p) + rest && Stands(p, rest)
  {
    var q := Closer(s[0]);
    var v, backslash := ContentOf(s, q, 1, Escapes(s[0]));
    var r := CloseAt(s, q, 1, Escapes(s[0]));
    hide CloseAt, Content, Contained, Text, Stands;
    if r.Some? {
      QuoteCloses(s, v, r.value);
      p, rest := Quoted(s[0], v), s[r.value + 1..];
    } else {
      QuoteRuns(s, v, backslash);
      p, rest := OpenQuote(s[0], v, backslash), [];
    }
  }

  lemma QuoteCloses(s: bytes, v: seq<Item>, k: nat)
    requires s != [] && OpensQuote(s[0]) && 1 <= k < |s| && s[1..k] == Content(v, Closer(s[0])) && Contained(v, Closer(s[0]), Escapes(s[0]))
    requires s[k] == Closer(s[0]) && (k + 1 < |s| ==> s[k + 1] != Closer(s[0]))
    ensures var p := Quoted(s[0], v); Text(p) != [] && s == Text(p) + s[k + 1..] && Stands(p, s[k + 1..])
  {
    hide Content, Contained;
    assert s == [s[0]] + s[1..k] + [s[k]] + s[k + 1..];
  }

  lemma QuoteRuns(s: bytes, v: seq<Item>, backslash: bool)
    requires s != [] && OpensQuote(s[0]) && s[1..] == Content(v, Closer(s[0])) + Trailing(backslash)
    requires Contained(v, Closer(s[0]), Escapes(s[0])) && (backslash ==> Escapes(s[0]))
    ensures var p := OpenQuote(s[0], v, backslash); Text(p) != [] && s == Text(p) + [] && Stands(p, [])
  {
    hide Content, Contained, Trailing;
    assert s == [s[0]] + s[1..];
  }

  lemma LinePart(s: bytes) returns (p: Part, rest: bytes)
    requires s != [] && (s[0] == HASH || (|s| > 1 && s[0] == DASH && s[1] == DASH))
    ensures Text(p) != [] && s == Text(p) + rest && Stands(p, rest)
  {
    var n := if s[0] == HASH then 1 else 2;
    var e := LineEnd(s, n);
    p, rest := LineComment(s[0] == HASH, s[n..e]), s[e..];
    assert s == s[..n] + s[n..e] + s[e..];
    assert s[..n] == if s[0] == HASH then [HASH] else [DASH, DASH];
  }

  lemma BlockPart(s: bytes) returns (p: Part, rest: bytes)
    requires OpensComment(s, 0)
    ensures Text(p) != [] && s == Text(p) + rest && Stands(p, rest)
  {
    hide BodyText, BodyStands;
    var b, nested, close := BodyOf(s, 2);
    assert s == [SLASH, STAR] + s[2..];
    if close.Some? {
      var e := close.value;
      p, rest := Block(b), s[e + 2..];
      assert s[e..] == [STAR, SLASH] + s[e + 2..];
    } else {
      OpenGrows(b, nested);
      p, rest := OpenBlock([b] + nested), [];
      assert Text(p) + [] == Text(p) == s;
    }
  }

  lemma TagOf(s: bytes)
    requires DollarOpen(s).Some?
    ensures var n := DollarOpen(s).value; IsTag(s[1..n - 1]) && TagText(s[1..n - 1]) == s[..n]
  {
    var n := DollarOpen(s).value;
    assert |s[1..n - 1]| > 0 ==> s[1..n - 1][0] == s[1];
    assert forall k :: 1 <= k < n - 1 ==> s[1..n - 1][k - 1] == s[k];
    assert n == 2 || s[1] != DOLLAR;
  }

  lemma DollarParts(s: bytes) returns (p: Part, rest: bytes)
    requires DollarOpen(s).Some?
    ensures Text(p) != [] && s == Text(p) + rest && Stands(p, rest)
  {
    var n := DollarOpen(s).value;
    var tag := s[1..n - 1];
    TagOf(s);
    FindIsFirst(s, s[..n], n);
    var r := FindAt(s, s[..n], n);
    hide FindAt, DollarOpen, OccursAt, IsTag;
    if r.Some? {
      p, rest := Dollar(tag, s[n..r.value]), s[r.value + n..];
      DollarCloses(s, tag, n, r.value);
    } else {
      p, rest := OpenDollar(tag, s[n..]), [];
      DollarRuns(s, tag, n);
    }
  }

  lemma DollarCloses(s: bytes, tag: bytes, n: nat, k: nat)
    requires n == |tag| + 2 && n <= k && k + n <= |s| && TagText(tag) == s[..n] && IsTag(tag)
    requires OccursAt(s, s[..n], k) && forall m :: n <= m < k ==> !OccursAt(s, s[..n], m)
    ensures var p := Dollar(tag, s[n..k]); s == Text(p) + s[k + n..] && Stands(p, s[k + n..])
  {
    var t, v := s[..n], s[n..k];
    assert s[k..k + n] == t;
    assert s == t + v + t + s[k + n..];
    assert v + t == s[n..k + n];
    hide OccursAt, TagText;
    forall m | 0 <= m < k - n
      ensures !OccursAt(v + t, t, m)
    {
      OccursWithin(s, n, k + n, t, m);
    }
  }

  lemma DollarRuns(s: bytes, tag: bytes, n: nat)
    requires n == |tag| + 2 && n <= |s| && TagText(tag) == s[..n] && IsTag(tag)
    requires forall m :: n <= m ==> !OccursAt(s, s[..n], m)
    ensures var p := OpenDollar(tag, s[n..]); s == Text(p) + [] && Stands(p, [])
  {
    var t, v := s[..n], s[n..];
    assert s == t + v + [] && s[n..|s|] == v;
    hide OccursAt, TagText;
    forall m | 0 <= m < |v|
      ensures !OccursAt(v, t, m)
    {
      if m + n <= |v| {
        OccursWithin(s, n, |s|, t, m);
      } else {
        TooFar(v, t, m);
      }
    }
  }

  lemma FirstPart(s: bytes) returns (p: Part, rest: bytes)
    requires s != []
    ensures Text(p) != [] && s == Text(p) + rest && Stands(p, rest)
  {
    hide Text, DollarOpen, Stands;
    if s[0] == HASH || (|s| > 1 && s[0] == DASH && s[1] == DASH) {
      p, rest := LinePart(s);
    } else if OpensComment(s, 0) {
      p, rest := BlockPart(s);
    } else if OpensQuote(s[0]) {
      p, rest := QuotePart(s);
    } else if DollarOpen(s).Some? {
      p, rest := DollarParts(s);
    } else {
      p, rest := Code(s[0]), s[1..];
      CodeStands(s);
    }
  }

  lemma CodeStands(s: bytes)
    requires s != [] && s[0] != HASH && !OpensQuote(s[0]) && !OpensComment(s, 0) && DollarOpen(s).None?
    requires |s| > 1 ==> s[0] != DASH || s[1] != DASH
    ensures Stands(Code(s[0]), s[1..]) && s == Text(Code(s[0])) + s[1..] && Text(Code(s[0])) != []
  {
    hide DollarOpen;
    assert [s[0]] + s[1..] == s;
  }

  /** Every byte string is SQL text by these parts, and its skeleton what is shown
      of them. */
  lemma {:induction false} EveryTextDecomposes(s: bytes) returns (ps: seq<Part>)
    ensures AllStand(ps) && TextAll(ps) == s && Skeleton(s) == ShownAll(ps)
    decreases |s|
  {
    if s == [] {
      ps := [];
    } else {
      hide Text, Stands, Skeleton, Shown;
      var p, rest := FirstPart(s);
      ps := EveryTextDecomposes(rest);
      assert ([p] + ps)[1..] == ps;
      PartIsShown(p, rest);
      ps := [p] + ps;
    }
  }

  // ----- statements -----

  function FirstSemicolon(sk: bytes, i: nat): (k: nat)
    requires i <= |sk|
    ensures i <= k <= |sk| && (k < |sk| ==> sk[k] == SEMICOLON) && forall m :: i <= m < k ==> sk[m] != SEMICOLON
    decreases |sk| - i
  {
    if i == |sk| || sk[i] == SEMICOLON then i else FirstSemicolon(sk, i + 1)
  }

  /** s cut wherever sk has a semicolon. */
  function Cut(s: bytes, sk: bytes): (pieces: seq<bytes>)
    requires |s| == |sk|
    ensures |pieces| > 0
    decreases |s|
  {
    var k := FirstSemicolon(sk, 0);
    if k == |sk| then [s] else [s[..k]] + Cut(s[k + 1..], sk[k + 1..])
  }

  /** splitSQLStatements; `blank` is strings.TrimSpace(x) == "". */
  function Statements(s: bytes, blank: bytes -> bool): seq<bytes> {
    var pieces := Cut(s, Skeleton(s));
    if blank(pieces[|pieces| - 1]) then pieces[..|pieces| - 1] else pieces
  }

  /** A semicolon left in the skeleton is one the scan saw as code. */
  lemma {:induction false} SemicolonIsCode(s: bytes, k: nat)
    requires k < |s| && Skeleton(s)[k] == SEMICOLON
    ensures Boundary(s, k) && Boundary(s, k + 1)
    decreases |s|
  {
    hide Skeleton, NextToken, Blanked;
    var t := NextToken(s);
    UnfoldSkeleton(s, t);
    if k >= t.len {
      SemicolonIsCode(s[t.len..], k - t.len);
    } else {
      SemicolonStep(s, t, k);
    }
  }

  lemma SemicolonStep(s: bytes, t: Token, k: nat)
    requires s != [] && t == NextToken(s) && k < t.len && Blanked(s[..t.len], t.from, t.to)[k] == SEMICOLON
    ensures k == 0 && t.len == 1
  {
    if DollarOpen(s).Some? {
      DollarEdges(s, DollarOpen(s).value);
    }
  }

  lemma DollarEdges(s: bytes, tag: nat)
    requires DollarOpen(s) == Some(tag)
    ensures var t := DollarToken(s, tag);
            forall k :: 0 <= k < t.from || t.to <= k < t.len ==> IsTagByte(s[k]) || s[k] == DOLLAR
  {
    var t := DollarToken(s, tag);
    forall k | t.to <= k < t.len
      ensures IsTagByte(s[k]) || s[k] == DOLLAR
    {
      assert s[t.to..t.to + tag][k - t.to] == s[..tag][k - t.to];
    }
  }

  function Skeletons(pieces: seq<bytes>): seq<bytes> {
    if pieces == [] then [] else [Skeleton(pieces[0])] + Skeletons(pieces[1..])
  }

  /** The skeleton distributes over splitting: the skeletons of the pieces are the
      pieces of the skeleton. */
  lemma {:induction false} SkeletonOfPieces(s: bytes)
    ensures Skeletons(Cut(s, Skeleton(s))) == Cut(Skeleton(s), Skeleton(s))
    decreases |s|
  {
    var sk := Skeleton(s);
    var k := FirstSemicolon(sk, 0);
    if k < |sk| {
      SemicolonIsCode(s, k);
      SkeletonSplits(s, k);
      SkeletonSplits(s, k + 1);
      SkeletonOfPieces(s[k + 1..]);
      var more := Cut(s[k + 1..], sk[k + 1..]);
      assert ([s[..k]] + more)[1..] == more;
    } else {
      assert Skeletons([s]) == [sk] + Skeletons([]);
    }
  }

  lemma FirstCut(s: bytes, sk: bytes, k: nat)
    requires |s| == |sk| && k == FirstSemicolon(sk, 0)
    ensures Cut(s, sk) == if k == |sk| then [s] else [s[..k]] + Cut(s[k + 1..], sk[k + 1..])
    ensures FirstSemicolon(sk[..k], 0) == k
  {
  }

  /** A piece has no semicolon of its own left. */
  lemma {:induction false} PieceIsWhole(s: bytes, i: nat)
    requires i < |Cut(s, Skeleton(s))|
    ensures var p := Cut(s, Skeleton(s))[i]; Cut(p, Skeleton(p)) == [p]
    decreases |s|
  {
    hide Cut, Skeleton, Boundary;
    var sk := Skeleton(s);
    var k := FirstSemicolon(sk, 0);
    FirstCut(s, sk, k);
    if k < |sk| {
      SemicolonIsCode(s, k);
      SkeletonSplits(s, k);
      SkeletonSplits(s, k + 1);
      if i > 0 {
        PieceIsWhole(s[k + 1..], i - 1);
      } else {
        FirstCut(s[..k], sk[..k], k);
      }
    }
  }

  /** Every statement splits into just itself, unless it is blank. */
  lemma StatementsAreWhole(s: bytes, blank: bytes -> bool, i: nat)
    requires i < |Statements(s, blank)|
    ensures var p := Statements(s, blank)[i]; Statements(p, blank) == if blank(p) then [] else [p]
  {
    PieceIsWhole(s, i);
  }

  function Rejoin(pieces: seq<bytes>): bytes
    requires pieces != []
  {
    if |pieces| == 1 then pieces[0] else pieces[0] + [SEMICOLON] + Rejoin(pieces[1..])
  }

  /** Nothing but the semicolons is lost: with the last piece, blank or not, the
      statements rejoin to the original. */
  lemma {:induction false} StatementsRejoin(s: bytes, sk: bytes)
    requires Covers(sk, s)
    ensures Rejoin(Cut(s, sk)) == s
    decreases |s|
  {
    var k := FirstSemicolon(sk, 0);
    if k < |sk| {
      StatementsRejoin(s[k + 1..], sk[k + 1..]);
      var more := Cut(s[k + 1..], sk[k + 1..]);
      assert ([s[..k]] + more)[1..] == more;
      assert s == s[..k] + [SEMICOLON] + s[k + 1..];
    }
  }

  // ----- the index loops -----

  lemma {:induction false} LineShift(b: bytes, i: nat, j: nat)
    requires i + j <= |b|
    ensures LineEnd(b, i + j) == i + LineEnd(b[i..], j)
    decreases |b| - j
  {
    if i + j < |b| && b[i + j] != LF {
      LineShift(b, i, j + 1);
    }
  }

  lemma {:induction false} CommentShift(b: bytes, i: nat, j: nat, depth: nat)
    requires i + j <= |b|
    ensures CommentEnd(b, i + j, depth) == i + CommentEnd(b[i..], j, depth)
    decreases |b| - j
  {
    if i + j < |b| && depth > 0 {
      if OpensComment(b, i + j) {
        CommentShift(b, i, j + 2, depth + 1);
      } else if ClosesComment(b, i + j) {
        CommentShift(b, i, j + 2, depth - 1);
      } else {
        CommentShift(b, i, j + 1, depth);
      }
    }
  }

  function Shifted(i: nat, r: Option<nat>): Option<nat> {
    if r.Some? then Some(i + r.value) else None
  }

  lemma {:induction false} CloseShift(b: bytes, q: byte, i: nat, j: nat, escapes: bool)
    requires i + j <= |b|
    ensures CloseAt(b, q, i + j, escapes) == Shifted(i, CloseAt(b[i..], q, j, escapes))
    decreases |b| - j
  {
    if i + j < |b| {
      if escapes && b[i + j] == BACKSLASH && i + j + 1 < |b| {
        CloseShift(b, q, i, j + 2, escapes);
      } else if b[i + j] == q {
        if i + j + 1 < |b| && b[i + j + 1] == q {
          CloseShift(b, q, i, j + 2, escapes);
        }
      } else {
        CloseShift(b, q, i, j + 1, escapes);
      }
    }
  }

  lemma {:induction false} FindShift(b: bytes, tag: bytes, i: nat, j: nat)
    requires i + j <= |b|
    ensures FindAt(b, tag, i + j) == Shifted(i, FindAt(b[i..], tag, j))
    decreases |b| - j
  {
    if i + j + |tag| <= |b| {
      assert b[i..][j..j + |tag|] == b[i + j..i + j + |tag|];
      if i + j < |b| {
        FindShift(b, tag, i, j + 1);
      }
    }
  }

  lemma {:induction false} TagShift(b: bytes, i: nat, j: nat)
    requires i + j <= |b|
    ensures TagEnd(b, i + j) == i + TagEnd(b[i..], j)
    decreases |b| - j
  {
    if i + j < |b| && IsTagByte(b[i + j]) {
      TagShift(b, i, j + 1);
    }
  }

  /** dollarOpen at i: the tag's length with both dollars, or 0. */
  method DollarOpenAt(b: bytes, i: nat) returns (tag: nat)
    requires i < |b|
    ensures i + tag <= |b|
    ensures DollarOpen(b[i..]) == if tag > 0 then Some(tag) else None
  {
    if b[i] != DOLLAR {
      return 0;
    }
    var j := i + 1;
    if j < |b| && !(b[j] == DOLLAR || IsAlpha(b[j])) {
      return 0;
    }
    TagShift(b, i, 1);
    while j < |b| && IsTagByte(b[j])
      invariant i < j <= |b| && TagEnd(b, j) == TagEnd(b, i + 1)
    {
      j := j + 1;
    }
    if j < |b| && b[j] == DOLLAR {
      return j + 1 - i;
    }
    return 0;
  }

  /** The end of a line comment. */
  method SkipLine(b: bytes, from: nat) returns (j: nat)
    requires from <= |b|
    ensures j == LineEnd(b, from)
  {
    j := from;
    while j < |b| && b[j] != LF
      invariant from <= j <= |b| && LineEnd(b, j) == LineEnd(b, from)
    {
      j := j + 1;
    }
  }

  method SkipComment(b: bytes, from: nat) returns (j: nat)
    requires from <= |b|
    ensures j == CommentEnd(b, from, 1)
  {
    j := from;
    var depth := 1;
    while j < |b| && depth > 0
      invariant from <= j <= |b| && depth >= 0 && CommentEnd(b, j, depth) == CommentEnd(b, from, 1)
      decreases |b| - j
    {
      if j + 1 < |b| && b[j] == SLASH && b[j + 1] == STAR {
        depth, j := depth + 1, j + 2;
      } else if j + 1 < |b| && b[j] == STAR && b[j + 1] == SLASH {
        depth, j := depth - 1, j + 2;
      } else {
        j := j + 1;
      }
    }
  }

  /** Past the end of a quoted span, and where its closing delimiter stands. */
  method SkipQuoted(b: bytes, from: nat, q: byte, escapes: bool) returns (j: nat, close: Option<nat>)
    requires from <= |b|
    ensures close == CloseAt(b, q, from, escapes) && j == if close.Some? then close.value + 1 else |b|
  {
    j := from;
    while j < |b|
      invariant from <= j <= |b| && CloseAt(b, q, j, escapes) == CloseAt(b, q, from, escapes)
      decreases |b| - j
    {
      if escapes && b[j] == BACKSLASH && j + 1 < |b| {
        j := j + 2;
      } else if b[j] == q {
        if j + 1 < |b| && b[j + 1] == q {
          j := j + 2;
        } else {
          return j + 1, Some(j);
        }
      } else {
        j := j + 1;
      }
    }
    close := None;
  }

  method FindTag(b: bytes, tag: bytes, start: nat) returns (r: Option<nat>)
    requires start <= |b|
    ensures r == FindAt(b, tag, start)
  {
    var j := start;
    while j + |tag| <= |b| && !OccursAt(b, tag, j)
      invariant start <= j <= |b| && FindAt(b, tag, j) == FindAt(b, tag, start)
      decreases |b| - j
    {
      if j == |b| {
        return None;
      }
      j := j + 1;
    }
    return if j + |tag| <= |b| then Some(j) else None;
  }

  /** One pass of the scan at i: where it goes next, and what to blank. */
  method Advance(b: bytes, i: nat) returns (next: nat, from: nat, to: nat)
    requires i < |b|
    ensures var t := NextToken(b[i..]); next == i + t.len && from == i + t.from && to == i + t.to
  {
    var c := b[i];
    assert b[i..][0] == c && |b[i..]| == |b| - i;
    if c == DASH && i + 1 < |b| && b[i + 1] == DASH {
      LineShift(b, i, 2);
      next := SkipLine(b, i + 2);
      return next, i, next;
    }
    if c == HASH {
      LineShift(b, i, 1);
      next := SkipLine(b, i + 1);
      return next, i, next;
    }
    if c == SLASH && i + 1 < |b| && b[i + 1] == STAR {
      CommentShift(b, i, 2, 1);
      next := SkipComment(b, i + 2);
      return next, i, next;
    }
    if OpensQuote(c) {
      next, from, to := AdvanceQuoted(b, i);
      return;
    }
    if c == DOLLAR {
      var tag := DollarOpenAt(b, i);
      if tag > 0 {
        next, from, to := AdvanceDollar(b, i, tag);
        return;
      }
    }
    return i + 1, i, i;
  }

  method AdvanceQuoted(b: bytes, i: nat) returns (next: nat, from: nat, to: nat)
    requires i < |b|
    ensures var t := QuotedToken(b[i..]); next == i + t.len && from == i + t.from && to == i + t.to
  {
    var q, escapes := Closer(b[i]), Escapes(b[i]);
    CloseShift(b, q, i, 1, escapes);
    var j, close := SkipQuoted(b, i + 1, q, escapes);
    return j, i + 1, if close.Some? then close.value else |b|;
  }

  method AdvanceDollar(b: bytes, i: nat, tag: nat) returns (next: nat, from: nat, to: nat)
    requires i + tag <= |b| && tag > 0
    ensures var t := DollarToken(b[i..], tag); next == i + t.len && from == i + t.from && to == i + t.to
  {
    var seq_ := b[i..][..tag];
    FindShift(b, seq_, i, tag);
    var j := FindTag(b, seq_, i + tag);
    if j.None? {
      return |b|, i + tag, |b|;
    }
    return j.value + tag, i + tag, j.value;
  }

  method BlankOut(b: bytes, out: array<byte>, a: nat, z: nat)
    requires a <= z <= |b| == out.Length
    modifies out
    ensures forall k :: 0 <= k < |b| ==> out[k] == if a <= k < z && b[k] != LF then SPACE else old(out[k])
  {
    var k := a;
    while k < z
      invariant a <= k <= z
      invariant forall m :: 0 <= m < |b| ==> out[m] == if a <= m < k && b[m] != LF then SPACE else old(out[m])
    {
      if b[k] != LF {
        out[k] := SPACE;
      }
      k := k + 1;
    }
  }

  /** How far the output is done: the scan has reached i. */
  ghost predicate DoneTo(b: bytes, out: bytes, i: nat) {
    && i <= |b| == |out| && out[i..] == b[i..] && out[..i] + Skeleton(b[i..]) == Skeleton(b)
  }

  lemma Rewritten(b: bytes, before: bytes, after: bytes, i: nat, t: Token)
    requires i + t.len <= |b| == |before| == |after| && t.from <= t.to <= t.len && before[i..] == b[i..]
    requires forall k :: 0 <= k < |b| ==> after[k] == if i + t.from <= k < i + t.to && b[k] != LF then SPACE else before[k]
    ensures after[..i + t.len] == before[..i] + Blanked(b[i..][..t.len], t.from, t.to)
    ensures after[i + t.len..] == b[i + t.len..]
  {
    assert forall k :: i <= k < |b| ==> before[k] == before[i..][k - i] && b[k] == b[i..][k - i];
  }

  lemma DoneStep(b: bytes, before: bytes, after: bytes, i: nat, t: Token)
    requires DoneTo(b, before, i) && i < |b| && t == NextToken(b[i..]) && |after| == |b|
    requires forall k :: 0 <= k < |b| ==> after[k] == if i + t.from <= k < i + t.to && b[k] != LF then SPACE else before[k]
    ensures DoneTo(b, after, i + t.len)
  {
    hide Skeleton, NextToken, Blanked;
    var s := b[i..];
    UnfoldSkeleton(s, t);
    Rewritten(b, before, after, i, t);
    assert s[t.len..] == b[i + t.len..];
    Associates(before[..i], Blanked(s[..t.len], t.from, t.to), Skeleton(b[i + t.len..]));
  }

  lemma Associates(a: bytes, b: bytes, d: bytes)
    ensures a + b + d == a + (b + d)
  {
  }

  /** sqlSkeleton. */
  method SqlSkeleton(sql: bytes) returns (skeleton: bytes)
    ensures skeleton == Skeleton(sql)
  {
    hide Skeleton, NextToken;
    var out := new byte[|sql|](k requires 0 <= k < |sql| => sql[k]);
    var i := 0;
    assert out[..] == sql && sql[0..] == sql && out[..0] == [];
    while i < |sql|
      invariant i <= |sql| && DoneTo(sql, out[..], i)
    {
      ghost var t, before := NextToken(sql[i..]), out[..];
      var next, from, to := Advance(sql, i);
      BlankOut(sql, out, from, to);
      DoneStep(sql, before, out[..], i, t);
      i := next;
    }
    SkeletonOfNothing();
    assert sql[i..] == [] && out[..] == out[..i];
    return out[..];
  }

  lemma SkeletonOfNothing()
    ensures Skeleton([]) == []
  {
  }

  /** splitSQLStatements. */
  method SplitStatements(sql: bytes, blank: bytes -> bool) returns (out: seq<bytes>)
    ensures out == Statements(sql, blank)
  {
    hide Skeleton, Cut;
    var sk := SqlSkeleton(sql);
    out := [];
    var start, i := 0, 0;
    assert sql[0..] == sql && sk[0..] == sk;
    while i < |sk|
      invariant start <= i <= |sk| == |sql|
      invariant out + Cut(sql[start..], sk[start..]) == Cut(sql, sk)
      invariant forall m :: start <= m < i ==> sk[m] != SEMICOLON
    {
      if sk[i] == SEMICOLON {
        CutHere(sql, sk, start, i);
        Regroup(out, [sql[start..i]], Cut(sql[i + 1..], sk[i + 1..]));
        out := out + [sql[start..i]];
        start := i + 1;
      }
      i := i + 1;
    }
    NoMoreCuts(sql[start..], sk[start..]);
    if !blank(sql[start..]) {
      out := out + [sql[start..]];
    }
  }

  lemma Regroup(a: seq<bytes>, b: seq<bytes>, d: seq<bytes>)
    ensures a + b + d == a + (b + d)
  {
  }

  lemma NoMoreCuts(s: bytes, sk: bytes)
    requires |s| == |sk| && forall m :: 0 <= m < |sk| ==> sk[m] != SEMICOLON
    ensures Cut(s, sk) == [s]
  {
  }

  lemma CutHere(s: bytes, sk: bytes, start: nat, i: nat)
    requires start <= i < |sk| == |s| && sk[i] == SEMICOLON && forall m :: start <= m < i ==> sk[m] != SEMICOLON
    ensures Cut(s[start..], sk[start..]) == [s[start..i]] + Cut(s[i + 1..], sk[i + 1..])
  {
    hide Cut;
    var k := FirstSemicolon(sk[start..], 0);
    assert sk[start..][i - start] == SEMICOLON;
    assert k == i - start;
    FirstCut(s[start..], sk[start..], k);
    Slices(s, start, i);
    assert s[start..][k + 1..] == s[i + 1..] && sk[start..][k + 1..] == sk[i + 1..] && s[start..][..k] == s[start..i];
  }
}
