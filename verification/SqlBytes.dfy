/** What the skeleton does with each delimiter, byte value by byte value: the
    laws of this module name no delimiter, tag letter or escape of the scanner. */
module SqlBytes {
  import opened Bytes
  import opened SqlSkeleton

  /** Spaces in place of v, line feeds left. */
  function Spaced(v: bytes): bytes {
    seq(|v|, k requires 0 <= k < |v| => if v[k] == 10 then 10 else 32)
  }

  /** v stays inside a span closed by `close`: every such byte in it is doubled,
      and where a backslash escapes, it takes the next byte with it. */
  predicate Inside(v: bytes, close: byte, backslash: bool)
    decreases |v|
  {
    if v == [] then true
    else if backslash && v[0] == 92 then |v| >= 2 && Inside(v[2..], close, backslash)
    else if v[0] == close then |v| >= 2 && v[1] == close && Inside(v[2..], close, backslash)
    else Inside(v[1..], close, backslash)
  }

  lemma SpacedIsSpaces(v: bytes)
    ensures Spaces(v) == Spaced(v)
  {
  }

  lemma {:induction false} InsideCloses(s: bytes, close: byte, j: nat, backslash: bool, v: bytes)
    requires Inside(v, close, backslash) && close != 92 && j + |v| <= |s| && s[j..j + |v|] == v
    ensures CloseAt(s, close, j, backslash) == CloseAt(s, close, j + |v|, backslash)
    decreases |v|
  {
    hide CloseAt;
    if v != [] {
      var n := if (backslash && v[0] == 92) || v[0] == close then 2 else 1;
      assert v[n..] == s[j + n..j + n + |v[n..]|];
      ByteInside(s, close, j, backslash, v, n);
      InsideCloses(s, close, j + n, backslash, v[n..]);
    }
  }

  lemma ByteInside(s: bytes, close: byte, j: nat, backslash: bool, v: bytes, n: nat)
    requires v != [] && Inside(v, close, backslash) && close != 92 && j + |v| <= |s| && s[j..j + |v|] == v
    requires n == if (backslash && v[0] == 92) || v[0] == close then 2 else 1
    ensures n <= |v| && Inside(v[n..], close, backslash)
    ensures CloseAt(s, close, j, backslash) == CloseAt(s, close, j + n, backslash)
  {
    assert s[j] == v[0] && (|v| > 1 ==> s[j + 1] == v[1]);
  }

  lemma QuoteNext(s: bytes, open: byte, close: byte)
    requires s != [] && s[0] == open
    requires (open == close && (open == 39 || open == 34 || open == 96)) || (open == 91 && close == 93)
    ensures NextToken(s) == match CloseAt(s, close, 1, open == 39 || open == 34)
                            case None => Token(|s|, 1, |s|)
                            case Some(k) => Token(k + 1, 1, k)
  {
    hide CloseAt, DollarOpen;
  }

  /** Strings, quoted, backtick and bracket identifiers keep their delimiters and
      lose what is between them: bytes 39, 34 and 96 close themselves, 93 closes
      91, and a backslash escapes after 39 and 34 only. */
  lemma QuotedIsBlanked(open: byte, close: byte, v: bytes, rest: bytes)
    requires (open == close && (open == 39 || open == 34 || open == 96)) || (open == 91 && close == 93)
    requires Inside(v, close, open == 39 || open == 34) && (rest == [] || rest[0] != close)
    ensures Skeleton([open] + v + [close] + rest) == [open] + Spaced(v) + [close] + Skeleton(rest)
  {
    hide Skeleton, NextToken, CloseAt, Blanked;
    var t, backslash := [open] + v + [close], open == 39 || open == 34;
    var s := t + rest;
    assert s[1..1 + |v|] == v && s[1 + |v|] == close && (|v| + 2 < |s| ==> s[|v| + 2] == rest[0]);
    InsideCloses(s, close, 1, backslash, v);
    ClosesHere(s, close, 1 + |v|, backslash);
    QuoteNext(s, open, close);
    StepIsShown(s, t, rest, 1, 1 + |v|);
    BlankedMiddle([open], v, [close]);
    SpacedIsSpaces(v);
  }

  /** One that never closes takes everything to the end, a last backslash included. */
  lemma UnclosedQuoteIsBlanked(open: byte, close: byte, v: bytes, last: bytes)
    requires (open == close && (open == 39 || open == 34 || open == 96)) || (open == 91 && close == 93)
    requires Inside(v, close, open == 39 || open == 34)
    requires last == [] || (last == [92] && (open == 39 || open == 34))
    ensures Skeleton([open] + v + last) == [open] + Spaced(v + last)
  {
    hide Skeleton, NextToken, CloseAt, Blanked;
    var backslash := open == 39 || open == 34;
    var s := [open] + v + last;
    assert s[1..1 + |v|] == v && (last == [92] ==> s[|s| - 1] == 92);
    InsideCloses(s, close, 1, backslash, v);
    NothingLeft(s, close, backslash);
    BackslashIsLast(s, close, backslash);
    QuoteNext(s, open, close);
    assert s + [] == s && [open] + (v + last) + [] == s;
    StepIsShown(s, s, [], 1, |s|);
    BlankedMiddle([open], v + last, []);
    SpacedIsSpaces(v + last);
    SkeletonOfNothing();
  }

  lemma BackslashIsLast(s: bytes, close: byte, backslash: bool)
    requires s != [] && close != 92
    ensures s[|s| - 1] == 92 ==> CloseAt(s, close, |s| - 1, backslash) == None
  {
    if s[|s| - 1] == 92 {
      BackslashLeft(s, close, backslash);
    }
  }

  lemma {:induction false} PlainIsInside(v: bytes, close: byte, backslash: bool)
    requires close !in v && (backslash ==> 92 !in v)
    ensures Inside(v, close, backslash)
    decreases |v|
  {
    if v != [] {
      PlainIsInside(v[1..], close, backslash);
    }
  }

  /** The plain case of each quote. */
  lemma PlainLiterals(v: bytes, rest: bytes)
    ensures 39 !in v && 92 !in v && (rest == [] || rest[0] != 39) ==>
              Skeleton([39] + v + [39] + rest) == [39] + Spaced(v) + [39] + Skeleton(rest)
    ensures 34 !in v && 92 !in v && (rest == [] || rest[0] != 34) ==>
              Skeleton([34] + v + [34] + rest) == [34] + Spaced(v) + [34] + Skeleton(rest)
    ensures 96 !in v && (rest == [] || rest[0] != 96) ==>
              Skeleton([96] + v + [96] + rest) == [96] + Spaced(v) + [96] + Skeleton(rest)
    ensures 93 !in v && (rest == [] || rest[0] != 93) ==>
              Skeleton([91] + v + [93] + rest) == [91] + Spaced(v) + [93] + Skeleton(rest)
  {
    hide Skeleton, Inside, Spaced;
    if 39 !in v && 92 !in v && (rest == [] || rest[0] != 39) {
      PlainIsInside(v, 39, true);
      QuotedIsBlanked(39, 39, v, rest);
    }
    if 34 !in v && 92 !in v && (rest == [] || rest[0] != 34) {
      PlainIsInside(v, 34, true);
      QuotedIsBlanked(34, 34, v, rest);
    }
    if 96 !in v && (rest == [] || rest[0] != 96) {
      PlainIsInside(v, 96, false);
      QuotedIsBlanked(96, 96, v, rest);
    }
    if 93 !in v && (rest == [] || rest[0] != 93) {
      PlainIsInside(v, 93, false);
      QuotedIsBlanked(91, 93, v, rest);
    }
  }

  /** A delimiter doubled is content for every quote; one after a backslash is
      content after 39 and 34, and closes after 96 and 91. */
  lemma EscapedDelimiters(v: bytes, rest: bytes)
    requires 39 !in v && 34 !in v && 96 !in v && 93 !in v && 92 !in v
    requires rest == [] || (rest[0] != 39 && rest[0] != 34 && rest[0] != 96 && rest[0] != 93)
    ensures Skeleton([39] + (v + [39, 39]) + [39] + rest) == [39] + Spaced(v + [39, 39]) + [39] + Skeleton(rest)
    ensures Skeleton([34] + (v + [34, 34]) + [34] + rest) == [34] + Spaced(v + [34, 34]) + [34] + Skeleton(rest)
    ensures Skeleton([96] + (v + [96, 96]) + [96] + rest) == [96] + Spaced(v + [96, 96]) + [96] + Skeleton(rest)
    ensures Skeleton([91] + (v + [93, 93]) + [93] + rest) == [91] + Spaced(v + [93, 93]) + [93] + Skeleton(rest)
    ensures Skeleton([39] + (v + [92, 39]) + [39] + rest) == [39] + Spaced(v + [92, 39]) + [39] + Skeleton(rest)
    ensures Skeleton([34] + (v + [92, 34]) + [34] + rest) == [34] + Spaced(v + [92, 34]) + [34] + Skeleton(rest)
    ensures Skeleton([96] + (v + [92]) + [96] + rest) == [96] + Spaced(v + [92]) + [96] + Skeleton(rest)
    ensures Skeleton([91] + (v + [92]) + [93] + rest) == [91] + Spaced(v + [92]) + [93] + Skeleton(rest)
  {
    hide Skeleton, Inside, Spaced;
    TailInside(v, 39, true);
    TailInside(v, 34, true);
    TailInside(v, 96, false);
    TailInside(v, 93, false);
    QuotedIsBlanked(39, 39, v + [39, 39], rest);
    QuotedIsBlanked(34, 34, v + [34, 34], rest);
    QuotedIsBlanked(96, 96, v + [96, 96], rest);
    QuotedIsBlanked(91, 93, v + [93, 93], rest);
    QuotedIsBlanked(39, 39, v + [92, 39], rest);
    QuotedIsBlanked(34, 34, v + [92, 34], rest);
    QuotedIsBlanked(96, 96, v + [92], rest);
    QuotedIsBlanked(91, 93, v + [92], rest);
  }

  lemma {:induction false} TailInside(v: bytes, close: byte, backslash: bool)
    requires close !in v && 92 !in v && close != 92
    ensures Inside(v + [close, close], close, backslash)
    ensures if backslash then Inside(v + [92, close], close, backslash) else Inside(v + [92], close, backslash)
    decreases |v|
  {
    if v == [] {
      assert v + [close, close] == [close, close] && v + [92, close] == [92, close] && v + [92] == [92];
      assert Inside([], close, backslash);
    } else {
      assert (v + [close, close])[1..] == v[1..] + [close, close];
      assert (v + [92, close])[1..] == v[1..] + [92, close];
      assert (v + [92])[1..] == v[1..] + [92];
      TailInside(v[1..], close, backslash);
    }
  }

  /** `--` and `#` comments go to the end of their line. */
  lemma LineCommentIsBlanked(v: bytes, rest: bytes)
    requires 10 !in v && (rest == [] || rest[0] == 10)
    ensures Skeleton([45, 45] + v + rest) == Spaced([45, 45] + v) + Skeleton(rest)
    ensures Skeleton([35] + v + rest) == Spaced([35] + v) + Skeleton(rest)
  {
    hide Skeleton, Spaced, Spaces;
    PartIsShown(LineComment(false, v), rest);
    PartIsShown(LineComment(true, v), rest);
    SpacedIsSpaces([45, 45] + v);
    SpacedIsSpaces([35] + v);
  }

  /** v with balanced comments in it: depth says how many are open after it, and
      no byte of it pairs with the next. */
  predicate Comments(v: bytes, depth: nat)
    decreases |v|
  {
    if depth == 0 then v == []
    else if v == [] then false
    else if |v| >= 2 && v[0] == 47 && v[1] == 42 then Comments(v[2..], depth + 1)
    else if |v| >= 2 && v[0] == 42 && v[1] == 47 then Comments(v[2..], depth - 1)
    else Comments(v[1..], depth)
  }

  lemma {:induction false} CommentsEnd(s: bytes, j: nat, v: bytes, rest: bytes, depth: nat)
    requires Comments(v, depth) && j <= |s| && s[j..] == v + rest
    ensures CommentEnd(s, j, depth) == j + |v|
    decreases |v|
  {
    if depth > 0 {
      assert s[j..][0] == s[j] && (|v| > 1 ==> s[j..][1] == s[j + 1]);
      LastIsNotAlone(v, depth);
      var n := if (v[0] == 47 && v[1] == 42) || (v[0] == 42 && v[1] == 47) then 2 else 1;
      assert s[j + n..] == s[j..][n..] == v[n..] + rest;
      var d := if n == 1 then depth else if v[0] == 47 then depth + 1 else depth - 1;
      CommentsEnd(s, j + n, v[n..], rest, d);
    }
  }

  lemma LastIsNotAlone(v: bytes, depth: nat)
    requires Comments(v, depth) && depth > 0
    ensures |v| >= 2
  {
  }

  /** A block comment, from 47 42 to the 42 47 that closes it, goes with the
      comments inside it. */
  lemma BlockCommentIsBlanked(v: bytes, rest: bytes)
    requires Comments(v, 1)
    ensures Skeleton([47, 42] + v + rest) == Spaced([47, 42] + v) + Skeleton(rest)
  {
    hide Skeleton, NextToken, Blanked, CommentEnd, Comments;
    var t := [47, 42] + v;
    var s := t + rest;
    assert s[2..] == v + rest && s[0..0 + |[SLASH, STAR]|] == [SLASH, STAR];
    CommentsEnd(s, 2, v, rest, 1);
    CommentNext(s);
    StepIsShown(s, t, rest, 0, |t|);
    SpacedIsSpaces(t);
  }

  /** v leaves a comment open to its end. */
  predicate StaysOpen(v: bytes, depth: nat)
    decreases |v|
  {
    if depth == 0 then false
    else if v == [] then true
    else if |v| >= 2 && v[0] == 47 && v[1] == 42 then StaysOpen(v[2..], depth + 1)
    else if |v| >= 2 && v[0] == 42 && v[1] == 47 then StaysOpen(v[2..], depth - 1)
    else StaysOpen(v[1..], depth)
  }

  lemma {:induction false} NeverEnds(s: bytes, j: nat, depth: nat)
    requires j <= |s| && StaysOpen(s[j..], depth)
    ensures CommentEnd(s, j, depth) == |s|
    decreases |s| - j
  {
    var v := s[j..];
    if v != [] {
      assert v[0] == s[j] && (|v| > 1 ==> v[1] == s[j + 1]);
      var two := |v| >= 2 && ((v[0] == 47 && v[1] == 42) || (v[0] == 42 && v[1] == 47));
      var n := if two then 2 else 1;
      assert s[j + n..] == v[n..];
      NeverEnds(s, j + n, if n == 1 then depth else if v[0] == 47 then depth + 1 else depth - 1);
    }
  }

  /** One that never closes takes everything to the end. */
  lemma UnclosedCommentIsBlanked(v: bytes)
    requires StaysOpen(v, 1)
    ensures Skeleton([47, 42] + v) == Spaced([47, 42] + v)
  {
    hide Skeleton, NextToken, Blanked, CommentEnd, StaysOpen;
    var t := [47, 42] + v;
    assert t[2..] == v && t[0..0 + |[SLASH, STAR]|] == [SLASH, STAR] && t + [] == t;
    NeverEnds(t, 2, 1);
    CommentNext(t);
    StepIsShown(t, t, [], 0, |t|);
    SpacedIsSpaces(t);
    SkeletonOfNothing();
  }

  /** The tag of a dollar quote, by its ranges: letters and the underscore, then
      digits too. */
  predicate TagLetters(tag: bytes) {
    forall k :: 0 <= k < |tag| ==>
      tag[k] == 95 || 65 <= tag[k] <= 90 || 97 <= tag[k] <= 122 || (k > 0 && 48 <= tag[k] <= 57)
  }

  /** t is written in s at m. */
  predicate Written(s: bytes, t: bytes, m: nat) {
    m + |t| <= |s| && forall k :: 0 <= k < |t| ==> s[m + k] == t[k]
  }

  lemma WrittenOccurs(s: bytes, t: bytes, n: nat)
    requires forall m :: 0 <= m < n ==> !Written(s, t, m)
    ensures AbsentBefore(s, t, n)
  {
    forall m | 0 <= m < n
      ensures !OccursAt(s, t, m)
    {
      OccursIsWritten(s, t, m);
    }
  }

  lemma OccursIsWritten(s: bytes, t: bytes, m: nat)
    ensures OccursAt(s, t, m) ==> Written(s, t, m)
  {
    if OccursAt(s, t, m) {
      var u := s[m..m + |t|];
      assert u == t && forall k :: 0 <= k < |t| ==> s[m + k] == u[k];
    }
  }

  /** A dollar quote keeps both its tags; its body goes, up to the first
      occurrence of the whole tag. */
  lemma DollarQuoteIsBlanked(tag: bytes, v: bytes, rest: bytes)
    requires TagLetters(tag)
    requires forall m :: 0 <= m < |v| ==> !Written(v + [36] + tag + [36], [36] + tag + [36], m)
    ensures Skeleton([36] + tag + [36] + v + [36] + tag + [36] + rest)
         == [36] + tag + [36] + Spaced(v) + [36] + tag + [36] + Skeleton(rest)
  {
    hide Skeleton, Spaced, Spaces;
    var p := Dollar(tag, v);
    assert v + [36] + tag + [36] == v + TagText(tag);
    WrittenOccurs(v + [36] + tag + [36], [36] + tag + [36], |v|);
    PartIsShown(p, rest);
    SpacedIsSpaces(v);
    assert [36] + tag + [36] + v + [36] + tag + [36] + rest == Text(p) + rest;
    assert [36] + tag + [36] + Spaced(v) + [36] + tag + [36] + Skeleton(rest) == Shown(p) + Skeleton(rest);
  }

  /** One whose tag never comes back takes everything to the end. */
  lemma UnclosedDollarIsBlanked(tag: bytes, v: bytes)
    requires TagLetters(tag) && forall m :: 0 <= m < |v| ==> !Written(v, [36] + tag + [36], m)
    ensures Skeleton([36] + tag + [36] + v) == [36] + tag + [36] + Spaced(v)
  {
    hide Skeleton, Spaced, Spaces;
    var p := OpenDollar(tag, v);
    WrittenOccurs(v, [36] + tag + [36], |v|);
    PartIsShown(p, []);
    SpacedIsSpaces(v);
    SkeletonOfNothing();
    assert [36] + tag + [36] + v == Text(p) + [];
    assert [36] + tag + [36] + Spaced(v) == Shown(p) + [];
  }

  lemma OpensByTag(rest: bytes)
    requires DollarOpen([36] + rest).Some?
    ensures var n := DollarOpen([36] + rest).value - 2; n < |rest| && rest[n] == 36 && TagLetters(rest[..n])
  {
    var s := [36] + rest;
    var n := DollarOpen(s).value - 2;
    assert rest[n] == s[n + 1];
    assert forall k :: 0 <= k < n ==> rest[k] == s[k + 1];
  }

  /** A dollar that no tag and second dollar follow is code: `$1` is a parameter. */
  lemma LoneDollarIsCode(rest: bytes)
    requires forall n :: 0 <= n < |rest| && rest[n] == 36 ==> !TagLetters(rest[..n])
    ensures Skeleton([36] + rest) == [36] + Skeleton(rest)
  {
    hide *;
    if DollarOpen([36] + rest).Some? {
      OpensByTag(rest);
    }
    LoneCode(rest);
  }

  lemma LoneCode(rest: bytes)
    requires DollarOpen([36] + rest).None?
    ensures Skeleton([36] + rest) == [36] + Skeleton(rest)
  {
    hide Skeleton, DollarOpen;
    PartIsShown(Code(36), rest);
  }

  /** Every other byte is code and stays: 45 and 47 unless they open a comment. */
  lemma OtherBytesAreCode(x: byte, rest: bytes)
    requires x != 39 && x != 34 && x != 96 && x != 91 && x != 35 && x != 36
    requires rest != [] ==> !(x == 45 && rest[0] == 45) && !(x == 47 && rest[0] == 42)
    ensures Skeleton([x] + rest) == [x] + Skeleton(rest)
  {
    hide Skeleton;
    PartIsShown(Code(x), rest);
  }

  // ----- statements -----

  /** Statements are cut at byte 59 where the skeleton still has it, and nowhere
      else; only a last piece that is blank is left out. */
  lemma StatementsAreCutAtCode(v: bytes, rest: bytes, blank: bytes -> bool)
    requires 59 !in Skeleton(v)
    ensures Statements(v, blank) == if blank(v) then [] else [v]
    ensures Skeleton(v + [59] + rest) == Skeleton(v) + [59] + Skeleton(rest) ==>
              Statements(v + [59] + rest, blank) == [v] + Statements(rest, blank)
  {
    hide Skeleton, Cut;
    NoMoreCuts(v, Skeleton(v));
    var s, sk := v + [59] + rest, Skeleton(v) + [59] + Skeleton(rest);
    if Skeleton(s) == sk {
      FirstAt(sk, |v|);
      FirstCut(s, sk, |v|);
      assert s[..|v|] == v && s[|v| + 1..] == rest && sk[|v| + 1..] == Skeleton(rest);
      var more := Cut(rest, Skeleton(rest));
      assert Cut(s, sk) == [v] + more;
      assert ([v] + more)[..|more|] == [v] + more[..|more| - 1];
    }
  }

  /** A semicolon between quotes cuts nothing. */
  lemma LiteralSemicolons(v: bytes, rest: bytes, blank: bytes -> bool)
    requires 39 !in v && 92 !in v && 59 !in Skeleton(rest) && (rest == [] || rest[0] != 39)
    ensures var s := [39] + v + [39] + rest; Statements(s, blank) == if blank(s) then [] else [s]
  {
    hide Skeleton, Statements;
    PlainLiterals(v, rest);
    assert 59 !in Spaced(v);
    StatementsAreCutAtCode([39] + v + [39] + rest, [], blank);
  }

  lemma FirstAt(sk: bytes, k: nat)
    requires k < |sk| && sk[k] == 59 && forall m :: 0 <= m < k ==> sk[m] != 59
    ensures FirstSemicolon(sk, 0) == k
  {
  }
}
