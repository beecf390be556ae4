/** How an accepted log stream behaves when bytes are added to it or cut off. */
module LogStream {
  import opened Bytes
  import opened Traces
  import opened ChainVerifier
  import opened ChainTheory

  /** The history an accepted stream holds. */
  function History(c: Codec, stream: bytes): seq<Trace> {
    if Genesis(c, stream).Running? then Genesis(c, stream).recs else []
  }

  predicate Intact(c: Codec, stream: bytes) {
    Genesis(c, stream).Running?
  }

  lemma IntactScan(c: Codec, stream: bytes)
    requires Intact(c, stream)
    ensures Genesis(c, stream) == ScanOf(History(c, stream)) && IsChain(History(c, stream))
  {
    FoldIsChain(c, Lines(stream));
  }

  lemma GenesisSplit(c: Codec, a: bytes, b: bytes)
    requires Terminated(a)
    ensures Genesis(c, a + b) == Fold(c, false, None, Genesis(c, a), Lines(b))
  {
    hide Lines, Fold;
    LinesSplit(a, b);
    FoldConcat(c, false, None, START, Lines(a), Lines(b));
  }

  lemma GenesisFragment(c: Codec, a: bytes, p: bytes)
    requires Terminated(a) && Unbroken(p)
    ensures Genesis(c, a + p) == if p == [] then Genesis(c, a) else Step(c, false, None, Genesis(c, a), DropCR(p))
  {
    hide *;
    GenesisSplit(c, a, p);
    LastLine(p);
    if p == [] {
      assert a + p == a;
    } else {
      FoldOne(c, false, None, Genesis(c, a), DropCR(p));
    }
  }

  lemma GenesisClose(c: Codec, s: bytes)
    ensures Genesis(c, s + [LF]) == Genesis(c, s)
  {
    LinesCloseTail(s);
    hide Lines;
    FoldConcat(c, false, None, START, Lines(s), [[]]);
    FoldOne(c, false, None, Genesis(c, s), []);
  }

  lemma {:induction false} FoldGrows(c: Codec, s: Scan, lines: seq<bytes>)
    requires Fold(c, false, None, s, lines).Running?
    ensures s.Running? && IsPrefix(s.recs, Fold(c, false, None, s, lines).recs)
    decreases |lines|
  {
    if lines != [] {
      var s1 := Step(c, false, None, s, lines[0]);
      FoldGrows(c, s1, lines[1..]);
      if s.Running? {
        assert IsPrefix(s.recs, s1.recs);
        PrefixTransitive(s.recs, s1.recs, Fold(c, false, None, s, lines).recs);
      }
    }
  }

  /** The writer's append: a separator when one is due, the record, a line feed. */
  lemma AppendRecord(c: Codec, s: bytes, sep: bytes, m: bytes, t: Trace)
    requires c.Lawful() && Intact(c, s)
    requires sep == [LF] || (sep == [] && Terminated(s))
    requires c.Encodes(m, t) && |m| <= MAX_RECORD_BYTES && Follows(History(c, s), t)
    ensures Genesis(c, s + sep) == Genesis(c, s) && Terminated(s + sep)
    ensures Genesis(c, s + sep + m) == ScanOf(History(c, s) + [t])
    ensures Genesis(c, s + sep + m + [LF]) == ScanOf(History(c, s) + [t])
    ensures IsChain(History(c, s) + [t])
  {
    var h := History(c, s);
    IntactScan(c, s);
    ChainSnoc(h, t);
    StepOnChain(h, t);
    if sep == [] {
      assert s + sep == s;
    } else {
      GenesisClose(c, s);
    }
    assert DropCR(m) == m;
    GenesisFragment(c, s + sep, m);
    GenesisClose(c, s + sep + m);
  }

  /** A record cut anywhere inside is never accepted. */
  lemma TornRecordIsRejected(c: Codec, s: bytes, m: bytes, t: Trace, k: nat)
    requires c.Lawful() && Terminated(s) && c.Encodes(m, t) && 0 < k < |m|
    ensures !Intact(c, s + m[..k])
  {
    var p := m[..k];
    assert DropCR(p) == p;
    assert Unbroken(p);
    GenesisFragment(c, s, p);
  }

  lemma StepCut(c: Codec, s: Scan, p: bytes, q: bytes)
    requires c.Lawful() && p != [] && Step(c, false, None, s, DropCR(p + q)).Running?
    ensures var cut := Step(c, false, None, s, DropCR(p));
            cut == Failed || cut == s || cut == Step(c, false, None, s, DropCR(p + q))
  {
    c.DropCRIsIgnored(p);
    c.DropCRIsIgnored(p + q);
    if DropCR(p) != [] && Step(c, false, None, s, DropCR(p)).Running? {
      assert p + q != [CR];
      assert c.unmarshal(p).Some?;
    }
  }

  lemma LinesUnfold(rest: bytes)
    requires rest != []
    ensures var i := FirstLF(rest);
            Lines(rest) == [DropCR(rest[..i])] + (if i < |rest| then Lines(rest[i + 1..]) else [])
  {
    assert rest[..|rest|] == rest;
  }

  /** The line of a longer stream that starts where a cut stream's fragment does. */
  lemma FragmentOf(p: bytes, rest: bytes)
    requires Unbroken(p) && p != [] && IsPrefix(p, rest)
    ensures var i := FirstLF(rest);
            && |p| <= i && rest[..i] == p + rest[|p|..i]
            && Lines(rest) == [DropCR(rest[..i])] + (if i < |rest| then Lines(rest[i + 1..]) else [])
  {
    hide Lines, FirstLF;
    LinesUnfold(rest);
    FragmentPrefix(p, rest, FirstLF(rest));
  }

  lemma FragmentPrefix(p: bytes, rest: bytes, i: nat)
    requires Unbroken(p) && IsPrefix(p, rest) && i <= |rest| && (i < |rest| ==> rest[i] == LF)
    ensures |p| <= i && rest[..i] == p + rest[|p|..i]
  {
    assert forall k :: 0 <= k < |p| ==> p[k] == rest[k];
  }

  /** Cutting an accepted stream anywhere gives a stream that is either rejected
      or accepted with a prefix of the history, and with every record whose line
      feed survived the cut. */
  lemma CutStream(c: Codec, x: bytes, s: bytes)
    requires c.Lawful() && Intact(c, s) && IsPrefix(x, s)
    ensures Intact(c, x) ==> IsPrefix(History(c, x), History(c, s)) && IsPrefix(History(c, x[..TailStart(x)]), History(c, x))
    ensures Intact(c, x[..TailStart(x)])
    ensures IsPrefix(History(c, x[..TailStart(x)]), History(c, s))
  {
    hide Lines, Fold, FirstLF, TailStart, Codec.Lawful;
    var i := TailStart(x);
    var a, p := x[..i], x[i..];
    var rest := s[i..];
    assert s == a + rest && x == a + p;
    GenesisSplit(c, a, rest);
    FoldGrows(c, Genesis(c, a), Lines(rest));
    if p != [] {
      CutFragment(c, a, p, rest);
    } else {
      assert x == a;
    }
    GenesisSplit(c, a, p);
    if Intact(c, x) {
      FoldGrows(c, Genesis(c, a), Lines(p));
    }
  }

  lemma CutFragment(c: Codec, a: bytes, p: bytes, rest: bytes)
    requires c.Lawful() && Terminated(a) && Unbroken(p) && p != [] && IsPrefix(p, rest)
    requires Intact(c, a + rest)
    ensures Intact(c, a + p) ==> IsPrefix(History(c, a + p), History(c, a + rest))
  {
    hide Lines, Fold, Step, FirstLF;
    FragmentOf(p, rest);
    var i := FirstLF(rest);
    var line := DropCR(rest[..i]);
    var more := if i < |rest| then Lines(rest[i + 1..]) else [];
    GenesisSplit(c, a, rest);
    FoldConcat(c, false, None, Genesis(c, a), [line], more);
    FoldOne(c, false, None, Genesis(c, a), line);
    GenesisFragment(c, a, p);
    FoldGrows(c, Genesis(c, a), Lines(rest));
    FoldGrows(c, Step(c, false, None, Genesis(c, a), line), more);
    StepCut(c, Genesis(c, a), p, rest[|p|..i]);
  }

  // ----- one file of a rotation set, read on its own -----

  /** The scan of one file: None when a line is no record, otherwise its last record if any. */
  function ScanFile(c: Codec, lines: seq<bytes>): Option<Option<Trace>> {
    if lines == [] then Some(None)
    else
      var l := lines[|lines| - 1];
      match ScanFile(c, lines[..|lines| - 1])
      case None => None
      case Some(last) =>
        if |l| > MAX_RECORD_BYTES then None
        else if l == [] then Some(last)
        else match c.unmarshal(l)
          case None => None
          case Some(t) => Some(Some(t))
  }

  lemma ScanClosed(c: Codec, s: bytes)
    ensures ScanFile(c, Lines(s + [LF])) == ScanFile(c, Lines(s))
  {
    LinesCloseTail(s);
    if Terminated(s) {
      var lines := Lines(s) + [[]];
      assert lines[..|lines| - 1] == Lines(s);
    }
  }

  lemma ScanNothing(c: Codec)
    ensures ScanFile(c, Lines([])) == Some(None)
  {
  }

  lemma ScanTorn(c: Codec, a: bytes, m: bytes, t: Trace, k: nat)
    requires c.Lawful() && Terminated(a) && ScanFile(c, Lines(a)).Some? && c.Encodes(m, t) && |m| <= MAX_RECORD_BYTES && k <= |m|
    ensures ScanFile(c, Lines(a + m[..k])).Some? <==> k == 0 || k == |m|
  {
    var p := m[..k];
    assert DropCR(p) == p && Unbroken(p);
    LinesSplit(a, p);
    LastLine(p);
    if p == [] {
      assert a + p == a;
    } else {
      var lines := Lines(a) + [p];
      assert lines[..|lines| - 1] == Lines(a);
      assert k == |m| ==> p == m;
    }
  }

  /** What a file looks like after j bytes of an append: readable unless the
      record itself was torn. */
  lemma ScanCut(c: Codec, a: bytes, sep: bytes, m: bytes, t: Trace, j: nat)
    requires c.Lawful() && ScanFile(c, Lines(a)).Some? && c.Encodes(m, t) && |m| <= MAX_RECORD_BYTES
    requires sep == [LF] || (sep == [] && Terminated(a))
    requires j <= |sep| + |m| + 1
    ensures ScanFile(c, Lines(a + (sep + m + [LF])[..j])).Some? <==> !(|sep| < j < |sep| + |m|)
  {
    hide Codec.Lawful, ScanFile, Lines;
    var x := a + (sep + m + [LF])[..j];
    ScanClosed(c, a);
    var base := a + sep;
    assert sep == [] ==> base == a;
    if j <= |sep| {
      assert j == 0 ==> x == a;
      assert j == |sep| ==> x == base;
    } else if j <= |sep| + |m| {
      assert x == base + m[..j - |sep|];
      ScanTorn(c, base, m, t, j - |sep|);
    } else {
      assert m[..|m|] == m;
      assert x == base + m + [LF];
      ScanTorn(c, base, m, t, |m|);
      ScanClosed(c, base + m);
    }
  }

}
