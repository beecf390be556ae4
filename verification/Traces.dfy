/** Decision traces, their canonical projections and hashes, and the JSON codec
    as far as the audit log depends on it. */
module Traces {
  import opened Bytes

  /** SHA-256 is idealised: Sha256 is injective by construction and never equal
      to the empty hash that marks a genesis record. A stored trace_hash field
      may also hold any other text. */
  datatype Hash = NoHash | Sha256(of: Projection) | Foreign(text: string)

  /** The fields hashed by both canonical encoders. Everything a v1 or v2
      projection covers beyond the named ones is the opaque `content`. */
  datatype Core = Core(traceID: string, timestamp: Option<int>, envelopeID: string,
                       action: Action, content: bytes)

  datatype Action = Allowed | Denied | Escalated | Flagged | AllowedShadow

  datatype Projection =
    | V1(core: Core, prev: Hash)
    | V2(core: Core, prev: Hash, applied: bytes, engineVersion: string,
         policySetHash: string, schemaVersion: string)

  /** `applied` stands for the v2-only provenance (applied rule results and
      citation, amount status), `unhashed` for the fields no projection covers. */
  datatype Trace = Trace(core: Core, applied: bytes, unhashed: bytes,
                         engineVersion: string, policySetHash: string, schemaVersion: string,
                         canonicalVersion: string, prev: Hash, hash: Hash)

  const VERSION_1 := "v1"
  const VERSION_2 := "v2"

  function EffectiveVersion(t: Trace): string {
    if t.canonicalVersion == "" then VERSION_1 else t.canonicalVersion
  }

  function VersionRank(version: string): Option<nat> {
    if version == VERSION_1 then Some(1)
    else if version == VERSION_2 then Some(2)
    else None
  }

  predicate IsHexDigit(c: char) {
    '0' <= c <= '9' || 'a' <= c <= 'f'
  }

  /** sha256:<64 lowercase hex>. */
  predicate WellFormedDigest(s: string) {
    |s| == 71 && s[..7] == "sha256:" && forall k :: 7 <= k < 71 ==> IsHexDigit(s[k])
  }

  /** Nothing is left by strings.TrimSpace. */
  predicate BlankText(s: string) {
    forall k :: 0 <= k < |s| ==> IsSpace(s[k] as int)
  }

  /** unicode.IsSpace. */
  predicate IsSpace(c: int) {
    || 9 <= c <= 13 || c == 0x20 || c == 0x85 || c == 0xA0 || c == 0x1680 || 0x2000 <= c <= 0x200A
    || c == 0x2028 || c == 0x2029 || c == 0x202F || c == 0x205F || c == 0x3000
  }

  predicate ValidProvenance(engineVersion: string, policySetHash: string) {
    !BlankText(engineVersion) && WellFormedDigest(policySetHash)
  }

  /** CanonicalTraceBytes on the trace with its own hash cleared; None is its
      error return. */
  function Project(t: Trace): Option<Projection> {
    var version := EffectiveVersion(t);
    if version == VERSION_1 then
      if t.applied != [] || t.engineVersion != "" || t.policySetHash != "" || t.schemaVersion != "" then None
      else Some(V1(t.core, t.prev))
    else if version == VERSION_2 then
      if t.schemaVersion != VERSION_2 || !ValidProvenance(t.engineVersion, t.policySetHash) then None
      else Some(V2(t.core, t.prev, t.applied, t.engineVersion, t.policySetHash, t.schemaVersion))
    else None
  }

  /** ComputeCanonicalTraceHash. */
  function TraceHash(t: Trace): Option<Hash> {
    match Project(t)
    case None => None
    case Some(p) => Some(Sha256(p))
  }

  /** Which records have a hash at all: v1 ones without any v2 provenance, and v2 ones
      with a nonblank engine version and a digest of the policy set. */
  lemma HashedRecords(t: Trace)
    ensures TraceHash(t).Some? <==>
            || ((t.canonicalVersion == "" || t.canonicalVersion == "v1")
                && t.applied == [] && t.engineVersion == "" && t.policySetHash == "" && t.schemaVersion == "")
            || (t.canonicalVersion == "v2" && t.schemaVersion == "v2"
                && (exists k :: 0 <= k < |t.engineVersion| && !IsSpace(t.engineVersion[k] as int))
                && |t.policySetHash| == 71 && t.policySetHash[..7] == "sha256:"
                && forall k :: 7 <= k < 71 ==> '0' <= t.policySetHash[k] <= '9' || 'a' <= t.policySetHash[k] <= 'f')
    ensures IsSpace(' ' as int) && IsSpace('\t' as int) && IsSpace('\n' as int) && IsSpace('\r' as int)
    ensures forall c :: 33 <= c <= 126 ==> !IsSpace(c)
  {
  }

  /** A hash covers who asked for what, the outcome, the link, the provenance and
      the version: records with the same hash agree on all of them. */
  lemma HashCovers(a: Trace, b: Trace)
    requires TraceHash(a).Some? && TraceHash(a) == TraceHash(b)
    ensures a.core == b.core && a.prev == b.prev && a.applied == b.applied
    ensures a.engineVersion == b.engineVersion && a.policySetHash == b.policySetHash && a.schemaVersion == b.schemaVersion
    ensures a.canonicalVersion == "v2" <==> b.canonicalVersion == "v2"
  {
  }

  /** What a prune checkpoint says: a prefix of removedCount records ending in
      lastRemovedHash was cut, and retainedCount records up to retainedTail follow. */
  datatype Checkpoint = Checkpoint(removedCount: int, lastRemovedIndex: int, lastRemovedHash: Hash,
                                   lastRemovedTimestamp: Option<int>, boundaryVersion: string,
                                   cutoff: Option<int>, retainedCount: int, retainedTail: Hash)

  /** The checkpoint checksum, idealised like Hash. */
  datatype Checksum = ChecksumOf(of: StoredCheckpoint) | NoChecksum | OtherText(text: string)

  datatype StoredCheckpoint = StoredCheckpoint(recordType: string, version: int, body: Checkpoint, checksum: Checksum)

  /** PruneCheckpoint.Hash: the checksum field itself is cleared first. */
  function ChecksumFor(s: StoredCheckpoint): Checksum {
    ChecksumOf(s.(checksum := NoChecksum))
  }

  predicate ValidCheckpointHash(h: Hash) {
    h.Sha256? || (h.Foreign? && WellFormedDigest(h.text))
  }

  /** The checks of ParsePruneCheckpoint after decoding. */
  predicate ValidCheckpoint(s: StoredCheckpoint) {
    var c := s.body;
    && s.recordType == "prune_checkpoint" && s.version == 1
    && c.removedCount > 0 && c.lastRemovedIndex == c.removedCount && c.retainedCount >= 0
    && c.lastRemovedTimestamp.Some? && c.cutoff.Some? && c.lastRemovedTimestamp.value < c.cutoff.value
    && VersionRank(c.boundaryVersion).Some?
    && ValidCheckpointHash(c.lastRemovedHash) && ValidCheckpointHash(c.retainedTail)
    && s.checksum == ChecksumFor(s)
    && (c.retainedCount == 0 ==> c.retainedTail == c.lastRemovedHash)
  }

  const MAX_RECORD_BYTES: nat := 4 * 1024 * 1024

  /** encoding/json on one line: each field is the corresponding call, with None
      for its error. */
  datatype Codec = Codec(marshal: Trace -> Option<bytes>,
                         unmarshal: bytes -> Option<Trace>,
                         isCheckpoint: bytes -> Option<bool>,
                         marshalCheckpoint: StoredCheckpoint -> Option<bytes>,
                         decodeCheckpoint: bytes -> Option<StoredCheckpoint>)
  {
    /** JSON text is unaffected by a carriage return or line feed around it, and
        nothing at all is not JSON. */
    ghost predicate WhitespaceIsIgnored() {
      && unmarshal([]) == None && isCheckpoint([]) == None
      && (forall l: bytes :: unmarshal(l + [CR]) == unmarshal(l) && unmarshal([CR] + l) == unmarshal(l))
      && (forall l: bytes :: unmarshal(l + [LF]) == unmarshal(l))
      && (forall l: bytes :: isCheckpoint(l + [LF]) == isCheckpoint(l) && isCheckpoint(l + [CR]) == isCheckpoint(l)
                          && isCheckpoint([CR] + l) == isCheckpoint(l))
    }

    /** A JSON object is self-delimiting: text that parses and still parses after
        being extended on one side has only been padded with white space. */
    ghost predicate ObjectsDelimitThemselves() {
      && (forall p: bytes, q: bytes :: unmarshal(p).Some? && unmarshal(p + q).Some? ==> unmarshal(p) == unmarshal(p + q))
      && (forall p: bytes, q: bytes :: unmarshal(q).Some? && unmarshal(p + q).Some? ==> unmarshal(q) == unmarshal(p + q))
    }

    ghost predicate RecordsRoundTrip() {
      forall t: Trace :: marshal(t).Some? ==> Encodes(marshal(t).value, t)
    }

    /** What is assumed of the bytes a record is marshalled to. */
    ghost predicate Encodes(m: bytes, t: Trace) {
      && m != []
      && LF !in m && CR !in m
      && unmarshal(m) == Some(t)
      && isCheckpoint(m) == Some(false)
      && forall k :: 0 <= k < |m| ==> unmarshal(m[..k]) == None
    }

    ghost predicate CheckpointsRoundTrip() {
      && (forall s: StoredCheckpoint :: marshalCheckpoint(s).Some? ==> EncodesCheckpoint(marshalCheckpoint(s).value, s))
      && (forall l: bytes :: decodeCheckpoint(l + [CR]) == decodeCheckpoint(l) && decodeCheckpoint(l + [LF]) == decodeCheckpoint(l))
    }

    ghost predicate EncodesCheckpoint(m: bytes, s: StoredCheckpoint) {
      && m != []
      && LF !in m && CR !in m
      && decodeCheckpoint(m) == Some(s)
      && (s.recordType == "prune_checkpoint" ==> isCheckpoint(m) == Some(true))
    }

    ghost predicate Lawful() {
      && WhitespaceIsIgnored()
      && ObjectsDelimitThemselves()
      && RecordsRoundTrip()
      && CheckpointsRoundTrip()
    }

    /** ParsePruneCheckpoint. */
    function ParseCheckpoint(raw: bytes): Option<StoredCheckpoint> {
      match decodeCheckpoint(raw)
      case None => None
      case Some(s) => if ValidCheckpoint(s) then Some(s) else None
    }

    lemma DropCRIsIgnored(l: bytes)
      requires Lawful()
      ensures unmarshal(DropCR(l)) == unmarshal(l)
      ensures isCheckpoint(DropCR(l)) == isCheckpoint(l)
      ensures decodeCheckpoint(DropCR(l)) == decodeCheckpoint(l)
    {
      if DropCR(l) != l {
        assert l == DropCR(l) + [CR];
      }
    }

    /** MarshalTraceRecord: the writer enforces the verifier's record ceiling. */
    function MarshalRecord(t: Trace): Option<bytes> {
      match marshal(t)
      case None => None
      case Some(m) => if |m| > MAX_RECORD_BYTES then None else Some(m)
    }
  }

  // ----- the laws can be met -----

  /** Text without the white space the laws are about. */
  function Trim(l: bytes): bytes
    decreases |l|
  {
    if l == [] then []
    else if l[|l| - 1] == CR || l[|l| - 1] == LF then Trim(l[..|l| - 1])
    else if l[0] == CR then Trim(l[1..])
    else l
  }

  lemma TrimEnd(l: bytes, b: byte)
    requires b == CR || b == LF
    ensures Trim(l + [b]) == Trim(l)
  {
    assert (l + [b])[..|l|] == l;
  }

  lemma {:induction false} TrimFront(l: bytes)
    ensures Trim([CR] + l) == Trim(l)
    decreases |l|
  {
    var s := [CR] + l;
    if l == [] {
      assert s[..0] == [];
    } else if l[|l| - 1] == CR || l[|l| - 1] == LF {
      assert s[..|s| - 1] == [CR] + l[..|l| - 1];
      TrimFront(l[..|l| - 1]);
    } else {
      assert s[1..] == l;
    }
  }

  lemma {:induction false} TrimKeeps(l: bytes, b: byte)
    requires b in l && b != CR && b != LF
    ensures b in Trim(l)
    decreases |l|
  {
    var n := |l| - 1;
    if l[n] == CR || l[n] == LF {
      assert l == l[..n] + [l[n]];
      TrimKeeps(l[..n], b);
    } else if l[0] == CR {
      assert l == [l[0]] + l[1..];
      TrimKeeps(l[1..], b);
    }
  }

  lemma {:induction false} TrimTakes(l: bytes, b: byte)
    requires b in Trim(l)
    ensures b in l
    decreases |l|
  {
    if l[|l| - 1] == CR || l[|l| - 1] == LF {
      TrimTakes(l[..|l| - 1], b);
    } else if l[0] == CR {
      TrimTakes(l[1..], b);
    }
  }

  function PositionOf(ts: seq<Trace>, t: Trace): (i: nat)
    requires t in ts
    ensures i < |ts| && ts[i] == t
  {
    if ts[0] == t then 0 else 1 + PositionOf(ts[1..], t)
  }

  const FIRST_CODE: byte := 32
  const CHECKPOINT_CODE: byte := 255

  function Coded(ts: seq<Trace>, l: bytes): Option<Trace> {
    var x := Trim(l);
    if |x| == 1 && 32 <= x[0] as int < 32 + |ts| then Some(ts[x[0] as int - 32]) else None
  }

  /** A toy codec: the i-th trace is one byte, and so is the checkpoint. */
  function ToyCodec(ts: seq<Trace>, cp: StoredCheckpoint): Codec
    requires |ts| <= 200
  {
    Codec(t => if t in ts then Some([FIRST_CODE + PositionOf(ts, t) as byte]) else None,
          l => Coded(ts, l),
          l => if Trim(l) == [CHECKPOINT_CODE] then Some(true) else if Coded(ts, l).Some? then Some(false) else None,
          s => if s == cp then Some([CHECKPOINT_CODE]) else None,
          l => if Trim(l) == [CHECKPOINT_CODE] then Some(cp) else None)
  }

  lemma CodedOnce(ts: seq<Trace>, p: bytes, q: bytes)
    requires |ts| <= 200 && Coded(ts, p).Some? && Coded(ts, q).Some?
    requires forall b: byte :: b in p ==> b in q
    ensures Coded(ts, p) == Coded(ts, q)
  {
    var b := Trim(p)[0];
    TrimTakes(p, b);
    TrimKeeps(q, b);
  }

  lemma ToyTrims(ts: seq<Trace>, cp: StoredCheckpoint, l: bytes, m: bytes)
    requires |ts| <= 200 && Trim(l) == Trim(m)
    ensures var c := ToyCodec(ts, cp);
            c.unmarshal(l) == c.unmarshal(m) && c.isCheckpoint(l) == c.isCheckpoint(m) && c.decodeCheckpoint(l) == c.decodeCheckpoint(m)
  {
  }

  lemma ToyIgnoresWhitespace(ts: seq<Trace>, cp: StoredCheckpoint)
    requires |ts| <= 200
    ensures ToyCodec(ts, cp).WhitespaceIsIgnored()
  {
    var c := ToyCodec(ts, cp);
    assert c.unmarshal([]) == None && c.isCheckpoint([]) == None;
    hide Trim, Coded, ToyCodec;
    forall l: bytes
      ensures c.unmarshal(l + [CR]) == c.unmarshal(l) && c.unmarshal([CR] + l) == c.unmarshal(l) && c.unmarshal(l + [LF]) == c.unmarshal(l)
      ensures c.isCheckpoint(l + [LF]) == c.isCheckpoint(l) && c.isCheckpoint(l + [CR]) == c.isCheckpoint(l) && c.isCheckpoint([CR] + l) == c.isCheckpoint(l)
    {
      TrimEnd(l, CR);
      TrimEnd(l, LF);
      TrimFront(l);
      ToyTrims(ts, cp, l + [CR], l);
      ToyTrims(ts, cp, l + [LF], l);
      ToyTrims(ts, cp, [CR] + l, l);
    }
  }

  lemma ToyDelimits(ts: seq<Trace>, cp: StoredCheckpoint)
    requires |ts| <= 200
    ensures ToyCodec(ts, cp).ObjectsDelimitThemselves()
  {
    hide Trim, Coded;
    forall p: bytes, q: bytes | Coded(ts, p + q).Some?
      ensures Coded(ts, p).Some? ==> Coded(ts, p) == Coded(ts, p + q)
      ensures Coded(ts, q).Some? ==> Coded(ts, q) == Coded(ts, p + q)
    {
      if Coded(ts, p).Some? {
        CodedOnce(ts, p, p + q);
      }
      if Coded(ts, q).Some? {
        CodedOnce(ts, q, p + q);
      }
    }
  }

  lemma ToyRoundTrips(ts: seq<Trace>, cp: StoredCheckpoint)
    requires |ts| <= 200
    ensures ToyCodec(ts, cp).RecordsRoundTrip()
  {
    var c := ToyCodec(ts, cp);
    forall t: Trace | c.marshal(t).Some?
      ensures c.Encodes(c.marshal(t).value, t)
    {
      assert c.marshal(t).value[..0] == [];
    }
  }

  lemma ToyCheckpoints(ts: seq<Trace>, cp: StoredCheckpoint)
    requires |ts| <= 200
    ensures ToyCodec(ts, cp).CheckpointsRoundTrip()
  {
    var c := ToyCodec(ts, cp);
    assert Trim([CHECKPOINT_CODE]) == [CHECKPOINT_CODE];
    assert forall s: StoredCheckpoint :: c.marshalCheckpoint(s).Some? ==> c.EncodesCheckpoint(c.marshalCheckpoint(s).value, s);
    hide Trim, Coded, ToyCodec, Codec.EncodesCheckpoint;
    forall l: bytes
      ensures c.decodeCheckpoint(l + [CR]) == c.decodeCheckpoint(l) && c.decodeCheckpoint(l + [LF]) == c.decodeCheckpoint(l)
    {
      TrimEnd(l, CR);
      TrimEnd(l, LF);
      ToyTrims(ts, cp, l + [CR], l);
      ToyTrims(ts, cp, l + [LF], l);
    }
  }

  /** The laws assumed of encoding/json are consistent, whichever traces and
      checkpoint have to be encoded. */
  lemma LawfulCodecExists(ts: seq<Trace>, cp: StoredCheckpoint)
    requires |ts| <= 200
    ensures var c := ToyCodec(ts, cp);
            c.Lawful() && (forall t :: t in ts ==> c.marshal(t).Some?) && c.marshalCheckpoint(cp).Some?
  {
    ToyIgnoresWhitespace(ts, cp);
    ToyDelimits(ts, cp);
    ToyRoundTrips(ts, cp);
    ToyCheckpoints(ts, cp);
    hide Trim, Coded, Codec.WhitespaceIsIgnored, Codec.ObjectsDelimitThemselves, Codec.RecordsRoundTrip,
         Codec.CheckpointsRoundTrip;
  }
}
