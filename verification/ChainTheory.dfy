/** What an accepted genesis stream is, independently of the scan loop: facts
    the writer, recovery, the hook and the pruner all rest on. */
module ChainTheory {
  import opened Bytes
  import opened Traces
  import opened ChainVerifier

  function Rank(t: Trace): nat {
    var r := VersionRank(EffectiveVersion(t));
    if r.Some? then r.value else 0
  }

  function TailOf(rs: seq<Trace>): Hash {
    if rs == [] then NoHash else rs[|rs| - 1].hash
  }

  /** t may follow rs: it carries its own canonical hash, links to the last
      record, and does not use an older hash schema. */
  predicate Follows(rs: seq<Trace>, t: Trace) {
    && TraceHash(t) == Some(t.hash)
    && t.prev == TailOf(rs)
    && (rs != [] ==> Rank(rs[|rs| - 1]) <= Rank(t))
  }

  predicate IsChain(rs: seq<Trace>) {
    rs == [] || (IsChain(rs[..|rs| - 1]) && Follows(rs[..|rs| - 1], rs[|rs| - 1]))
  }

  /** The records of a list of lines, when each nonblank line is one. */
  function Parse(c: Codec, lines: seq<bytes>): Option<seq<Trace>> {
    if lines == [] then Some([])
    else
      var l := lines[|lines| - 1];
      match Parse(c, lines[..|lines| - 1])
      case None => None
      case Some(rs) =>
        if l == [] then Some(rs)
        else if |l| > MAX_RECORD_BYTES || c.isCheckpoint(l) != Some(false) then None
        else match c.unmarshal(l)
          case None => None
          case Some(t) => Some(rs + [t])
  }

  function Genesis(c: Codec, stream: bytes): Scan {
    Replay(c, false, None, stream)
  }

  lemma ChainSnoc(rs: seq<Trace>, t: Trace)
    ensures IsChain(rs + [t]) <==> IsChain(rs) && Follows(rs, t)
  {
    assert (rs + [t])[..|rs|] == rs;
  }

  function ScanOf(rs: seq<Trace>): Scan {
    Running(TailOf(rs), if rs == [] then 0 else Rank(rs[|rs| - 1]), rs, None)
  }

  lemma StepOnChain(rs: seq<Trace>, t: Trace)
    requires IsChain(rs)
    ensures StepRecord(ScanOf(rs), t) == if IsChain(rs + [t]) then ScanOf(rs + [t]) else Failed
  {
    ChainSnoc(rs, t);
  }

  function ScanOfParsed(parsed: Option<seq<Trace>>): Scan {
    if parsed.Some? && IsChain(parsed.value) then ScanOf(parsed.value) else Failed
  }

  lemma ParseSnoc(c: Codec, lines: seq<bytes>, l: bytes)
    ensures ScanOfParsed(Parse(c, lines + [l])) == Step(c, false, None, ScanOfParsed(Parse(c, lines)), l)
  {
    assert (lines + [l])[..|lines|] == lines;
    var parsed := Parse(c, lines);
    if parsed.Some? && c.unmarshal(l).Some? {
      var rs, t := parsed.value, c.unmarshal(l).value;
      ChainSnoc(rs, t);
      if IsChain(rs) {
        StepOnChain(rs, t);
      }
    }
  }

  /** The scan accepts exactly the chains, and keeps their tail. */
  lemma {:induction false} FoldIsChain(c: Codec, lines: seq<bytes>)
    ensures Fold(c, false, None, START, lines) == ScanOfParsed(Parse(c, lines))
    decreases |lines|
  {
    if lines == [] {
      assert ScanOf([]) == START;
    } else {
      hide *;
      var n := |lines| - 1;
      FoldIsChain(c, lines[..n]);
      assert lines[..n + 1] == lines && lines == lines[..n] + [lines[n]];
      FoldSnoc(c, false, None, START, lines, n);
      ParseSnoc(c, lines[..n], lines[n]);
    }
  }

  /** VerifyChainFromReader accepts a stream if and only if its nonblank lines are
      records within the size limit that form a chain from a genesis record. */
  lemma AcceptedIffChain(c: Codec, stream: bytes)
    ensures Genesis(c, stream).Running? <==> Parse(c, Lines(stream)).Some? && IsChain(Parse(c, Lines(stream)).value)
    ensures Genesis(c, stream).Running? ==>
            var rs := Parse(c, Lines(stream)).value;
            && Genesis(c, stream).recs == rs && Genesis(c, stream).prev == TailOf(rs)
            && Genesis(c, stream).cp.None? && Genesis(c, stream).rank <= 2
  {
    FoldIsChain(c, Lines(stream));
  }

  /** An accepted chain is a run of v1 records followed by a run of v2 records. */
  lemma {:induction false} OldSchemaFirst(rs: seq<Trace>) returns (k: nat)
    requires IsChain(rs)
    ensures k <= |rs|
    ensures forall i :: 0 <= i < k ==> EffectiveVersion(rs[i]) == VERSION_1
    ensures forall i :: k <= i < |rs| ==> EffectiveVersion(rs[i]) == VERSION_2
    decreases |rs|
  {
    if rs == [] {
      k := 0;
    } else {
      var n := |rs| - 1;
      assert rs == rs[..n] + [rs[n]];
      ChainSnoc(rs[..n], rs[n]);
      k := OldSchemaFirst(rs[..n]);
      if EffectiveVersion(rs[n]) == VERSION_1 {
        assert k == n;
        k := n + 1;
      }
    }
  }

  lemma ChainTail(rs: seq<Trace>)
    requires IsChain(rs)
    ensures rs == [] <==> TailOf(rs) == NoHash
    ensures rs != [] ==> Project(rs[|rs| - 1]).Some? && TailOf(rs) == Sha256(Project(rs[|rs| - 1]).value)
  {
  }

  lemma SameTailStep(a: seq<Trace>, b: seq<Trace>)
    requires IsChain(a) && IsChain(b) && TailOf(a) == TailOf(b) && a != []
    ensures b != [] && TraceHash(a[|a| - 1]).Some? && TraceHash(a[|a| - 1]) == TraceHash(b[|b| - 1])
    ensures IsChain(a[..|a| - 1]) && IsChain(b[..|b| - 1]) && TailOf(a[..|a| - 1]) == TailOf(b[..|b| - 1])
  {
    ChainTail(a);
    ChainTail(b);
    HashCovers(a[|a| - 1], b[|b| - 1]);
  }

  lemma NoTail(a: seq<Trace>, b: seq<Trace>)
    requires a == [] && IsChain(b) && TailOf(a) == TailOf(b)
    ensures b == []
  {
    ChainTail(b);
  }

  /** Two records say the same: the call and its outcome, the link, the provenance
      and the version. */
  predicate Agree(a: Trace, b: Trace) {
    && a.core == b.core && a.prev == b.prev && a.applied == b.applied
    && a.engineVersion == b.engineVersion && a.policySetHash == b.policySetHash && a.schemaVersion == b.schemaVersion
    && (a.canonicalVersion == "v2" <==> b.canonicalVersion == "v2")
  }

  lemma HashesAgree(a: Trace, b: Trace)
    requires TraceHash(a).Some? && TraceHash(a) == TraceHash(b)
    ensures Agree(a, b)
  {
    hide TraceHash;
    HashCovers(a, b);
  }

  /** Tamper evidence: chains with the same tail hash have the same length, and
      their records agree, one by one, on the call and its outcome, the link, the
      provenance and the version. */
  lemma {:induction false} SameTailSameHistory(a: seq<Trace>, b: seq<Trace>)
    requires IsChain(a) && IsChain(b) && TailOf(a) == TailOf(b)
    ensures |a| == |b| && forall i :: 0 <= i < |a| ==> Agree(a[i], b[i])
    decreases |a|
  {
    hide *;
    if a == [] {
      NoTail(a, b);
    } else {
      SameTailStep(a, b);
      var m := |a| - 1;
      SameTailSameHistory(a[..m], b[..|b| - 1]);
      HashesAgree(a[m], b[m]);
      assert |b| == m + 1;
      forall i | 0 <= i < |a|
        ensures Agree(a[i], b[i])
      {
        assert i < m ==> a[..m][i] == a[i] && b[..m][i] == b[i];
      }
    }
  }

  /** Two accepted unpruned streams that report the same tail hold the same
      history, whatever bytes they hold it in. */
  lemma TamperEvidence(c: Codec, x: bytes, y: bytes)
    requires Genesis(c, x).Running? && Genesis(c, y).Running? && Genesis(c, x).prev == Genesis(c, y).prev
    ensures var a, b := Genesis(c, x).recs, Genesis(c, y).recs;
            |a| == |b| && forall i :: 0 <= i < |a| ==> Agree(a[i], b[i])
  {
    AcceptedIffChain(c, x);
    AcceptedIffChain(c, y);
    SameTailSameHistory(Genesis(c, x).recs, Genesis(c, y).recs);
  }

  /** The i-th record carries its own hash and that of the one before. */
  predicate Chained(rs: seq<Trace>, i: nat)
    requires i < |rs|
  {
    && TraceHash(rs[i]) == Some(rs[i].hash)
    && rs[i].prev == (if i == 0 then NoHash else rs[i - 1].hash)
    && (i > 0 && rs[i - 1].canonicalVersion == "v2" ==> rs[i].canonicalVersion == "v2")
  }

  /** A chain, record by record: each carries its own hash and that of the one before,
      the first carries none, and no v1 record comes after a v2 one. */
  lemma {:induction false} ChainByLinks(rs: seq<Trace>)
    ensures IsChain(rs) <==> forall i :: 0 <= i < |rs| ==> Chained(rs, i)
    decreases |rs|
  {
    if rs != [] {
      var n := |rs| - 1;
      ChainByLinks(rs[..n]);
      hide Chained, Follows;
      forall i | 0 <= i < n
        ensures Chained(rs[..n], i) == Chained(rs, i)
      {
        ChainedInFront(rs, n, i);
      }
      if IsChain(rs[..n]) {
        LastLink(rs);
      }
    }
  }

  lemma ChainedInFront(rs: seq<Trace>, n: nat, i: nat)
    requires i < n <= |rs|
    ensures Chained(rs[..n], i) == Chained(rs, i)
  {
    hide TraceHash;
  }

  lemma LastLink(rs: seq<Trace>)
    requires rs != [] && IsChain(rs[..|rs| - 1])
    ensures Follows(rs[..|rs| - 1], rs[|rs| - 1]) <==> Chained(rs, |rs| - 1)
  {
    hide TraceHash;
    LinkMeans(rs, |rs| - 1);
  }

  lemma LinkMeans(rs: seq<Trace>, n: nat)
    requires n < |rs| && (n > 0 ==> TraceHash(rs[n - 1]).Some?)
    ensures Follows(rs[..n], rs[n]) <==>
            && TraceHash(rs[n]) == Some(rs[n].hash)
            && rs[n].prev == (if n == 0 then NoHash else rs[n - 1].hash)
            && (n > 0 && rs[n - 1].canonicalVersion == "v2" ==> rs[n].canonicalVersion == "v2")
  {
    hide ValidProvenance;
  }

  /** How many hashes are nested in one. */
  function Depth(h: Hash): nat {
    match h
    case Sha256(V1(_, prev)) => 1 + Depth(prev)
    case Sha256(V2(_, prev, _, _, _, _)) => 1 + Depth(prev)
    case _ => 0
  }

  lemma {:induction false} ChainDepth(rs: seq<Trace>)
    requires IsChain(rs)
    ensures Depth(TailOf(rs)) == |rs|
    decreases |rs|
  {
    if rs != [] {
      ChainDepth(rs[..|rs| - 1]);
    }
  }

  /** No record occurs twice in a chain. */
  lemma {:induction false} ChainIsDistinct(rs: seq<Trace>, i: nat, j: nat)
    requires IsChain(rs) && i < j < |rs|
    ensures rs[i] != rs[j]
    decreases |rs|
  {
    hide Follows, Depth;
    var n := |rs| - 1;
    if j < n {
      ChainIsDistinct(rs[..n], i, j);
    } else {
      ChainDepth(rs);
      ChainPrefix(rs, i + 1);
      ChainDepth(rs[..i + 1]);
    }
  }

  lemma {:induction false} ChainPrefix(rs: seq<Trace>, n: nat)
    requires IsChain(rs) && n <= |rs|
    ensures IsChain(rs[..n])
    decreases |rs|
  {
    if n < |rs| {
      ChainPrefix(rs[..|rs| - 1], n);
      assert rs[..|rs| - 1][..n] == rs[..n];
    } else {
      assert rs[..n] == rs;
    }
  }

  lemma {:induction false} ParseConcat(c: Codec, a: seq<bytes>, b: seq<bytes>)
    ensures Parse(c, a + b) == if Parse(c, a).Some? && Parse(c, b).Some? then Some(Parse(c, a).value + Parse(c, b).value) else None
    decreases |b|
  {
    if b == [] {
      assert a + b == a;
      NoRecordsToAdd(Parse(c, a));
    } else {
      var n := |b| - 1;
      ParseConcat(c, a, b[..n]);
      assert (a + b)[..|a| + n] == a + b[..n] && (a + b)[|a| + n] == b[n];
      var pa, pb, t := Parse(c, a), Parse(c, b[..n]), c.unmarshal(b[n]);
      if pa.Some? && pb.Some? && t.Some? {
        assert pa.value + (pb.value + [t.value]) == pa.value + pb.value + [t.value];
      }
    }
  }

  /** One line: nothing when it is blank, and otherwise one record, when it is a JSON
      object of at most 4 MiB that is no checkpoint. */
  lemma ParseOne(c: Codec, l: bytes)
    ensures Parse(c, []) == Some([])
    ensures Parse(c, [l]) ==
            if l == [] then Some([])
            else if |l| <= 4_194_304 && c.isCheckpoint(l) == Some(false) && c.unmarshal(l).Some? then Some([c.unmarshal(l).value])
            else None
  {
    assert [l][..0] == [];
    var t := c.unmarshal(l);
    assert t.Some? ==> [] + [t.value] == [t.value];
  }

  lemma NoRecordsToAdd(parsed: Option<seq<Trace>>)
    ensures parsed.Some? ==> parsed.value + [] == parsed.value
  {
  }

  /** In a chain, two parts that both hold records cannot change places. */
  lemma PartsDoNotSwap(r: seq<Trace>, a: seq<Trace>, b: seq<Trace>)
    requires IsChain(r + a + b) && a != [] && b != []
    ensures !IsChain(r + b + a)
  {
    hide Follows, Depth;
    if IsChain(r + b + a) {
      LinkedAt(r + a + b, |r + a|);
      LinkedAt(r + b + a, |r|);
      assert (r + a + b)[..|r + a|] == r + a && (r + a + b)[|r + a|] == b[0];
      assert (r + b + a)[..|r|] == r && (r + b + a)[|r|] == b[0];
      ChainDepth(r + a);
      ChainDepth(r);
      assert false;
    }
  }

  lemma LinkedAt(rs: seq<Trace>, i: nat)
    requires IsChain(rs) && i < |rs|
    ensures IsChain(rs[..i]) && rs[i].prev == TailOf(rs[..i])
  {
    hide TraceHash, Rank;
    ChainPrefix(rs, i);
    ChainPrefix(rs, i + 1);
    assert rs[..i + 1][..i] == rs[..i];
  }
}
