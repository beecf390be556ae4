/** The audit log over its whole life: starts, appends under every fault,
    process deaths and machine crashes at any point, and restarts on whatever
    they left. */
module AuditSystem {
  import opened Bytes
  import opened Traces
  import opened ChainVerifier
  import opened ChainTheory
  import opened LogStream
  import opened AuditDisk
  import opened AuditWriter
  import opened AuditSafety
  import opened AuditRecovery

  // ----- streams between two bounds -----

  lemma TerminatedKeeps(c: Codec, b: bytes, x: bytes)
    requires Terminated(b) && IsPrefix(b, x) && Intact(c, x)
    ensures Intact(c, b) && IsPrefix(History(c, b), History(c, x))
  {
    assert x == b + x[|b|..];
    GenesisSplit(c, b, x[|b|..]);
    FoldGrows(c, Genesis(c, b), Lines(x[|b|..]));
  }

  lemma AnchoredKeeps(c: Codec, b: bytes, x: bytes, hi: bytes)
    requires IsPrefix(b, x) && IsPrefix(x, hi) && Anchored(b, hi)
    requires Intact(c, b) && Intact(c, x)
    ensures IsPrefix(History(c, b), History(c, x))
    ensures Anchored(b, x)
  {
    if Terminated(b) {
      TerminatedKeeps(c, b, x);
    } else if b != x {
      var closed := b + [LF];
      assert closed == hi[..|closed|];
      assert x == hi[..|x|];
      assert closed == x[..|closed|];
      TerminatedKeeps(c, closed, x);
      GenesisClose(c, b);
    }
  }

  lemma {:induction false} LineFeedsAreIntact(c: Codec, s: bytes)
    requires White(s) && CR !in s
    ensures Intact(c, s) && History(c, s) == []
    decreases |s|
  {
    if s != [] {
      var n := |s| - 1;
      assert s == s[..n] + [s[n]];
      GenesisClose(c, s[..n]);
      LineFeedsAreIntact(c, s[..n]);
    }
  }

  /** An accepted stream on the way from lo to a roof keeps lo's history. */
  lemma StandsBetween(c: Codec, lo: bytes, x: bytes, roof: bytes)
    requires c.Lawful() && Intact(c, lo) && Stands(c, lo, roof) && IsPrefix(lo, x) && IsPrefix(x, roof) && Intact(c, x)
    ensures Stands(c, lo, x) && IsPrefix(History(c, lo), History(c, x)) && IsPrefix(History(c, x), History(c, roof))
  {
    hide Codec.Lawful, Genesis, History;
    AnchoredKeeps(c, lo, x, roof);
    CutStream(c, x, roof);
    assert forall i :: 0 <= i < |x| ==> x[i] == roof[i];
  }

  lemma StandsHistory(c: Codec, lo: bytes, s: bytes)
    requires c.Lawful() && Intact(c, lo) && Stands(c, lo, s)
    ensures IsPrefix(History(c, lo), History(c, s))
  {
    hide Codec.Lawful, Genesis;
    PrefixIntro(s, []);
    StandsBetween(c, lo, s, s);
  }

  // ----- what a crash leaves -----

  /** The store after a crash keeps the floor, and nothing can come back any more. */
  lemma CrashFit(cfg: Config, floor: bytes, lo: bytes, d: Disk, left: Disk)
    requires StoreFit(cfg, floor, lo, d) && CrashTo(d, left)
    ensures StoreFit(cfg, floor, floor, left) && left.older == []
    ensures (forall i :: 0 <= i < |d.older| ==> left != Restored(d.older[i])) ==> StoreFit(cfg, lo, lo, left)
  {
    hide Stands, FilesOk, RotatedData, Roofed, Sized, Intact;
    if i :| 0 <= i < |d.older| && left == Restored(d.older[i]) {
      LayoutCrash(cfg, floor, lo, d, i);
    } else {
      DirectoryKeptCrash(cfg, floor, lo, d, left);
      SelfFloor(cfg.codec, floor, lo);
      StoreLower(cfg, floor, lo, floor, lo, left);
    }
  }

  lemma LayoutCrash(cfg: Config, floor: bytes, lo: bytes, d: Disk, i: nat)
    requires StoreFit(cfg, floor, lo, d) && i < |d.older|
    ensures StoreFit(cfg, floor, floor, Restored(d.older[i]))
  {
    hide FilesOk, RotatedData, Intact, Sized, Anchored, FileFit;
    var l := d.older[i];
    assert Stands(cfg.codec, floor, floor) by {
      SelfFloor(cfg.codec, floor, lo);
    }
    if l.active.Some? {
      CleanFit(cfg, floor, RotatedData(l.rotated), l.active.value);
    } else {
      assert RotatedData(l.rotated) + [] == RotatedData(l.rotated);
    }
  }

  lemma SelfFloor(c: Codec, floor: bytes, lo: bytes)
    requires Stands(c, floor, lo) && Intact(c, floor)
    ensures Stands(c, floor, floor)
  {
    assert forall i :: 0 <= i < |floor| ==> floor[i] == lo[i];
  }

  lemma DirectoryKeptCrash(cfg: Config, floor: bytes, lo: bytes, d: Disk, left: Disk)
    requires StoreFit(cfg, floor, lo, d) && CrashTo(d, left)
    requires forall i :: 0 <= i < |d.older| ==> left != Restored(d.older[i])
    ensures StoreFit(cfg, lo, lo, left) && left.older == []
  {
    hide FilesOk, RotatedData, Intact, Sized, Anchored, Roofed;
    SelfStands(cfg.codec, floor, lo);
    if d.active.Some? {
      var f, x := d.active.value, left.active.value.data;
      var base := RotatedData(d.rotated);
      var i := TopOf(f, x);
      RoofOfPart(cfg, lo, base, x, Tops(f)[i]);
      PrefixConcat(base, f.durable, x);
      PrefixTransitive(lo, base + f.durable, base + x);
      assert Tops(Clean(x)) == [x];
    }
  }

  lemma TopOf(f: File, x: bytes) returns (i: nat)
    requires Leaves(f, x)
    ensures i < |Tops(f)| && IsPrefix(x, Tops(f)[i])
  {
    var p :| p in Tops(f) && IsPrefix(x, p);
    i :| 0 <= i < |Tops(f)| && Tops(f)[i] == p;
  }

  // ----- startup on a fit store -----

  /** What readers see of the active file is part of an acceptable file. */
  lemma VisibleRoof(cfg: Config, floor: bytes, lo: bytes, d: Disk) returns (roof: bytes)
    requires StoreFit(cfg, floor, lo, d)
    ensures Stands(cfg.codec, lo, roof) && IsPrefix(lo, Stream(d)) && IsPrefix(Stream(d), roof)
    ensures d.active.Some? ==> Sized(cfg, d.active.value.data)
  {
    hide FilesOk, RotatedData, OlderFit;
    var base := RotatedData(d.rotated);
    match d.active
    case None =>
      assert base + [] == base;
      roof := base;
    case Some(f) =>
      assert Tops(f)[|Tops(f)| - 1] == f.data;
      var r :| IsRoof(cfg, lo, base, f.data, r);
      SizedPrefix(cfg, f.data, r);
      PrefixConcat(base, f.data, r);
      PrefixConcat(base, f.durable, f.data);
      PrefixTransitive(lo, base + f.durable, base + f.data);
      roof := base + r;
  }

  /** Startup on any store that is fit, whatever of it is confirmed: it refuses, or
      a writer is ready, on the stream it found. */
  lemma OpenFit(cfg: Config, floor: bytes, lo: bytes, d: Disk)
    requires cfg.codec.Lawful() && StoreFit(cfg, floor, lo, d) && Intact(cfg.codec, lo) && Open(cfg.codec, d).Opened?
    ensures var w := Open(cfg.codec, d).writer;
            Ready(cfg, floor, lo, w) && Stream(w.disk) == Stream(d) && w.appendSeq == 0
  {
    hide Codec.Lawful, Genesis, RotatedData, StoreFit, Stream, Sized, ScanFile;
    var c, s := cfg.codec, Stream(d);
    var roof := VisibleRoof(cfg, floor, lo, d);
    OpenResumesVerifiedTail(c, d);
    assert forall i :: 0 <= i < |s| ==> s[i] == roof[i];
    if White(s) {
      LineFeedsAreIntact(c, s);
    }
    StandsBetween(c, lo, s, roof);
    CreatedFit(cfg, floor, lo, d);
    OpenedIsSettled(cfg, floor, lo, d);
  }

  lemma OpenedIsSettled(cfg: Config, floor: bytes, lo: bytes, d: Disk)
    requires StoreFit(cfg, floor, lo, d) && Open(cfg.codec, d).Opened? && (d.active.Some? ==> Sized(cfg, d.active.value.data))
    ensures var w := Open(cfg.codec, d).writer;
            && w.disk == Created(d) && Settled(w.disk) && FileOk(cfg, w.disk.active.value.data)
            && !w.poisoned && w.handle == OnActive && w.appendSeq == 0
  {
    EmptyIsSized(cfg);
    hide ScanFile, Sized, RotatedData, Stream, OlderFit, Roofed, Stands, FilesOk;
  }

  // ----- the system -----

  /** History variables: every crash keeps `floor`, and `synced` too unless it sets
      the directory back; `acked` and `exposed` are the records acknowledged behind
      a barrier, those of `exposed` while the directory was not confirmed; `said`
      is the stream at the last acknowledgement or start, of use until a crash. */
  datatype System = System(disk: Disk, proc: Option<Writer>, acked: seq<Trace>, exposed: seq<Trace>,
                           floor: bytes, synced: bytes, said: bytes, crashed: bool)

  datatype LogAction =
    | Start
    | DoAppend(t: Trace, forceDurable: bool, faults: Faults)
    | Die
    | DieInAppend(t: Trace, forceDurable: bool, faults: Faults, at: nat)
    | Crash(left: Disk)
    | CrashInAppend(t: Trace, forceDurable: bool, faults: Faults, at: nat, left: Disk)

  function AppendBy(cfg: Config, s: System, t: Trace, forceDurable: bool, f: Faults): AppendOut
    requires s.proc.Some? && !s.proc.value.poisoned ==> s.proc.value.disk.active.Some?
    requires s.proc.Some?
  {
    Append(cfg, s.proc.value, t, forceDurable, f)
  }

  predicate Up(s: System) {
    s.proc.Some? && !s.proc.value.poisoned && s.proc.value.disk.active.Some?
  }

  predicate Poisoned(s: System) {
    s.proc.Some? && s.proc.value.poisoned
  }

  ghost predicate Enabled(cfg: Config, s: System, a: LogAction) {
    match a
    case Start => s.proc.None? && Open(cfg.codec, s.disk).Opened?
    case DoAppend(_, _, f) => (Up(s) && StatAnswers(s.proc.value.disk, f.rotation)) || Poisoned(s)
    case Die => s.proc.Some?
    case DieInAppend(t, force, f, at) => Up(s) && StatAnswers(s.proc.value.disk, f.rotation) && at < |AppendBy(cfg, s, t, force, f).steps|
    case Crash(left) => CrashTo(s.disk, left)
    case CrashInAppend(t, force, f, at, left) =>
      && Up(s) && StatAnswers(s.proc.value.disk, f.rotation)
      && at < |AppendBy(cfg, s, t, force, f).steps| && CrashTo(AppendBy(cfg, s, t, force, f).steps[at], left)
  }

  /** Once no older directory can come back, what the files guarantee is safe. */
  function Confirm(s: System): System {
    if s.disk.older == [] then s.(floor := s.synced, acked := s.acked + s.exposed, exposed := []) else s
  }

  /** The acknowledgement of an append. */
  ghost function Acknowledge(cfg: Config, s: System, out: AppendOut, forceDurable: bool): System {
    var stream := Stream(out.writer.disk);
    var durably := out.result.Appended? && MustSync(cfg, out.writer.appendSeq, forceDurable);
    s.(disk := out.writer.disk, proc := Some(out.writer),
       synced := if durably then stream else s.synced,
       exposed := if durably then s.exposed + [out.record] else s.exposed,
       said := if out.result.Appended? then stream else s.said)
  }

  function Dead(s: System, left: Disk): System {
    Confirm(s.(disk := left, proc := None))
  }

  function Crashed(s: System, left: Disk): System {
    s.(disk := left, proc := None, exposed := [], synced := s.floor, crashed := true)
  }

  ghost function Next(cfg: Config, s: System, a: LogAction): System
    requires Enabled(cfg, s, a)
  {
    match a
    case Start =>
      var w := Open(cfg.codec, s.disk).writer;
      s.(disk := w.disk, proc := Some(w), said := Stream(w.disk), crashed := false)
    case DoAppend(t, force, f) => Confirm(Acknowledge(cfg, s, AppendBy(cfg, s, t, force, f), force))
    case Die => Dead(s, s.disk)
    case DieInAppend(t, force, f, at) => Dead(s, AppendBy(cfg, s, t, force, f).steps[at])
    case Crash(left) => Crashed(s, left)
    case CrashInAppend(t, force, f, at, left) => Crashed(Dead(s, AppendBy(cfg, s, t, force, f).steps[at]), left)
  }

  // ----- the invariant -----

  /** The history variables fit together. */
  ghost predicate Ledgered(c: Codec, s: System) {
    && Intact(c, s.floor) && Stands(c, s.floor, s.synced)
    && IsSubsequence(s.acked, History(c, s.floor))
    && IsSubsequence(s.acked + s.exposed, History(c, s.synced))
  }

  predicate Confirmed(s: System) {
    s.disk.older == [] ==> s.exposed == [] && s.floor == s.synced
  }

  /** Without a crash, readers see what was acknowledged and at most part of one
      record more. */
  ghost predicate SaidPlusOne(c: Codec, s: System, cap: bytes) {
    && Stands(c, s.said, cap) && IsPrefix(s.said, Stream(s.disk)) && IsPrefix(Stream(s.disk), cap)
    && |History(c, cap)| <= |History(c, s.said)| + 1
  }

  ghost predicate SystemInv(cfg: Config, s: System) {
    Consistent(cfg, s) && Confirmed(s)
  }

  ghost predicate Consistent(cfg: Config, s: System) {
    var c := cfg.codec;
    && Ledgered(c, s) && StoreFit(cfg, s.floor, s.synced, s.disk)
    && (s.proc.Some? ==> s.proc.value.disk == s.disk && (Up(s) || Poisoned(s)))
    && (Up(s) ==> Ready(cfg, s.floor, s.synced, s.proc.value) && s.said == Stream(s.disk) && !s.crashed)
    && (!s.crashed ==> Intact(c, s.said) && exists cap :: SaidPlusOne(c, s, cap))
  }

  // ----- the invariant is kept -----

  lemma ConfirmKeeps(cfg: Config, s: System)
    requires Consistent(cfg, s)
    ensures SystemInv(cfg, Confirm(s))
  {
    hide RotatedData, FileFit, FilesOk, OlderFit, Genesis, IsSubsequence, Healthy, FileOk;
    if s.disk.older == [] {
      var c := cfg.codec;
      SelfStands(c, s.floor, s.synced);
      StandsHasNoCR(c, s.floor, s.synced);
      ConfirmedFit(cfg, s.floor, s.synced, s.disk);
      assert s.disk.(older := []) == s.disk;
      assert s.acked + s.exposed + [] == s.acked + s.exposed;
      if !s.crashed {
        var cap :| SaidPlusOne(c, s, cap);
        SameSaid(c, s, Confirm(s), cap);
      }
    }
  }

  lemma StandsHasNoCR(c: Codec, lo: bytes, s: bytes)
    requires Stands(c, lo, s)
    ensures CR !in s && Intact(c, s)
  {
  }

  lemma SaidNow(c: Codec, s: System)
    requires s.said == Stream(s.disk) && Intact(c, s.said) && CR !in s.said
    ensures SaidPlusOne(c, s, s.said)
  {
  }

  lemma StartKeepsInv(cfg: Config, s: System)
    requires cfg.codec.Lawful() && SystemInv(cfg, s) && Enabled(cfg, s, Start)
    ensures SystemInv(cfg, Next(cfg, s, Start)) && Up(Next(cfg, s, Start))
  {
    hide Codec.Lawful, Genesis, RotatedData, Open, StoreFit, IsSubsequence, Stands, Stream, FileOk, SaidPlusOne;
    var c, s' := cfg.codec, Next(cfg, s, Start);
    StandsHasNoCR(c, s.floor, s.synced);
    OpenFit(cfg, s.floor, s.synced, s.disk);
    CreatedOlder(c, s.disk);
    StandsHasNoCR(c, s.synced, s'.said);
    SaidNow(c, s');
  }

  lemma CreatedOlder(c: Codec, d: Disk)
    requires Open(c, d).Opened?
    ensures var w := Open(c, d).writer; w.disk.older == [] ==> d.older == []
  {
    hide RotatedData, Intact;
  }

  /** A state of the store in the middle of an append, or at the end of one. */
  lemma MidAppend(cfg: Config, s: System, t: Trace, forceDurable: bool, f: Faults, d: Disk)
    requires cfg.codec.Lawful() && SystemInv(cfg, s) && Up(s) && StatAnswers(s.proc.value.disk, f.rotation)
    requires d in AppendBy(cfg, s, t, forceDurable, f).steps
    ensures StoreFit(cfg, s.floor, s.synced, d)
    ensures Reaches(cfg, s.proc.value, t) && SaidPlusOne(cfg.codec, s.(disk := d), s.said + Chunk(cfg, s.proc.value, t))
  {
    hide Codec.Lawful, Append, Stamped, Chunk, RotatedData, StoreFit, Stream, Genesis, FileOk, Stands, StatAnswers,
         IsSubsequence;
    var w := s.proc.value;
    AppendFit(cfg, s.floor, s.synced, w, t, forceDurable, f);
    StandsHasNoCR(cfg.codec, s.synced, Stream(w.disk));
    StandsItself(cfg.codec, Stream(w.disk));
    ChunkStands(cfg, Stream(w.disk), w, t);
  }

  lemma DeadKeepsInv(cfg: Config, s: System, d: Disk, cap: bytes)
    requires SystemInv(cfg, s) && StoreFit(cfg, s.floor, s.synced, d)
    requires !s.crashed ==> SaidPlusOne(cfg.codec, s.(disk := d), cap)
    ensures SystemInv(cfg, Dead(s, d))
  {
    hide StoreFit, Genesis, IsSubsequence, SaidPlusOne, Stands, Ready;
    if !s.crashed {
      SameSaid(cfg.codec, s.(disk := d), s.(disk := d, proc := None), cap);
    }
    ConfirmKeeps(cfg, s.(disk := d, proc := None));
  }

  lemma SameSaid(c: Codec, s: System, s': System, cap: bytes)
    requires s.disk == s'.disk && s.said == s'.said && SaidPlusOne(c, s, cap)
    ensures SaidPlusOne(c, s', cap)
  {
  }

  lemma CrashKeepsInv(cfg: Config, s: System, left: Disk)
    requires SystemInv(cfg, s) && CrashTo(s.disk, left)
    ensures SystemInv(cfg, Crashed(s, left))
  {
    hide StoreFit, Genesis, CrashTo, Stands, Ready, Intact;
    CrashFit(cfg, s.floor, s.synced, s.disk, left);
    SelfFloor(cfg.codec, s.floor, s.synced);
    assert s.acked + [] == s.acked;
  }

  lemma PoisonedChangesNothing(cfg: Config, s: System, t: Trace, forceDurable: bool, f: Faults)
    requires SystemInv(cfg, s) && Poisoned(s)
    ensures Acknowledge(cfg, s, AppendBy(cfg, s, t, forceDurable, f), forceDurable) == s
    ensures !AppendBy(cfg, s, t, forceDurable, f).result.Appended? && AppendBy(cfg, s, t, forceDurable, f).steps == []
  {
    hide StoreFit, Ledgered, SaidPlusOne, Ready, Stream;
  }

  lemma PoisoningKeepsInv(cfg: Config, s: System, t: Trace, forceDurable: bool, f: Faults)
    requires cfg.codec.Lawful() && SystemInv(cfg, s) && Enabled(cfg, s, DoAppend(t, forceDurable, f)) && Up(s)
    requires AppendBy(cfg, s, t, forceDurable, f).writer.poisoned
    ensures Consistent(cfg, Acknowledge(cfg, s, AppendBy(cfg, s, t, forceDurable, f), forceDurable))
  {
    hide Codec.Lawful, Append, Stamped, Chunk, RotatedData, StoreFit, Stream, Genesis, FileOk, Stands, StatAnswers,
         IsSubsequence, SaidPlusOne, Healthy;
    var out := AppendBy(cfg, s, t, forceDurable, f);
    ReadySettled(cfg, s.floor, s.synced, s.proc.value);
    AppendFit(cfg, s.floor, s.synced, s.proc.value, t, forceDurable, f);
    AppendKeepsHealthy(cfg, s.proc.value, t, forceDurable, f);
    MidAppend(cfg, s, t, forceDurable, f, out.writer.disk);
    SameSaid(cfg.codec, s.(disk := out.writer.disk), Acknowledge(cfg, s, out, forceDurable), s.said + Chunk(cfg, s.proc.value, t));
  }

  /** An append that ends unpoisoned. */
  lemma AppendKeepsInv(cfg: Config, s: System, t: Trace, forceDurable: bool, f: Faults)
    requires cfg.codec.Lawful() && SystemInv(cfg, s) && Enabled(cfg, s, DoAppend(t, forceDurable, f)) && Up(s)
    requires !AppendBy(cfg, s, t, forceDurable, f).writer.poisoned
    ensures Consistent(cfg, Acknowledge(cfg, s, AppendBy(cfg, s, t, forceDurable, f), forceDurable))
  {
    hide Codec.Lawful, Append, Stamped, Chunk, RotatedData, StoreFit, Stream, Genesis, FileOk, Stands, StatAnswers,
         IsSubsequence, SaidPlusOne, Healthy, Outcome, Ledgered, MustSync;
    var w, out := s.proc.value, AppendBy(cfg, s, t, forceDurable, f);
    ReadySettled(cfg, s.floor, s.synced, w);
    AppendFit(cfg, s.floor, s.synced, w, t, forceDurable, f);
    AppendKeepsHealthy(cfg, w, t, forceDurable, f);
    ReadySettled(cfg, s.floor, s.synced, out.writer);
    StandsHasNoCR(cfg.codec, s.synced, Stream(out.writer.disk));
    OutcomeFacts(cfg, w, t, forceDurable, out);
    var s' := Acknowledge(cfg, s, out, forceDurable);
    SaidNow(cfg.codec, s');
    if out.result.Appended? && MustSync(cfg, out.writer.appendSeq, forceDurable) {
      DurableAck(cfg, s, out);
      SameLedger(cfg.codec, s.(synced := Stream(out.writer.disk), exposed := s.exposed + [out.record]), s');
    } else {
      SameLedger(cfg.codec, s, s');
    }
  }

  lemma SameLedger(c: Codec, s: System, s': System)
    requires Ledgered(c, s) && s'.floor == s.floor && s'.synced == s.synced && s'.acked == s.acked && s'.exposed == s.exposed
    ensures Ledgered(c, s')
  {
  }

  lemma OutcomeFacts(cfg: Config, w: Writer, t: Trace, forceDurable: bool, out: AppendOut)
    requires Outcome(cfg, w, t, forceDurable, out) && !out.writer.poisoned
    ensures !out.result.Appended? ==> Stream(out.writer.disk) == Stream(w.disk)
    ensures out.result.Appended? ==> History(cfg.codec, Stream(out.writer.disk)) == History(cfg.codec, Stream(w.disk)) + [out.record]
    ensures out.result.Appended? && MustSync(cfg, out.writer.appendSeq, forceDurable) ==> SyncedActive(out.writer.disk)
  {
    hide Stream, History, Stamped, MustSync, Healthy, DurableStream;
  }

  /** A durable acknowledgement: the stream itself is now what the files keep. */
  lemma DurableAck(cfg: Config, s: System, out: AppendOut)
    requires cfg.codec.Lawful() && SystemInv(cfg, s) && Up(s) && Ready(cfg, s.floor, s.synced, out.writer) && SyncedActive(out.writer.disk)
    requires History(cfg.codec, Stream(out.writer.disk)) == History(cfg.codec, Stream(s.disk)) + [out.record]
    ensures var stream := Stream(out.writer.disk);
            && Ready(cfg, s.floor, stream, out.writer)
            && Ledgered(cfg.codec, s.(synced := stream, exposed := s.exposed + [out.record]))
  {
    hide Codec.Lawful, RotatedData, StoreFit, Stream, Genesis, FileOk, Healthy, IsSubsequence;
    var c, stream := cfg.codec, Stream(out.writer.disk);
    SyncedFit(cfg, s.floor, s.synced, out.writer.disk);
    StandsTransitive(c, s.floor, s.synced, stream);
    StandsHistory(c, s.synced, Stream(s.disk));
    SubsequenceGrows(s.acked + s.exposed, History(c, s.synced), History(c, Stream(s.disk)));
    SubsequenceSnoc(s.acked + s.exposed, History(c, Stream(s.disk)), out.record);
    assert s.acked + (s.exposed + [out.record]) == s.acked + s.exposed + [out.record];
  }

  /** Every step of the system keeps the invariant. */
  lemma StepKeepsInv(cfg: Config, s: System, a: LogAction)
    requires cfg.codec.Lawful() && SystemInv(cfg, s) && Enabled(cfg, s, a)
    ensures SystemInv(cfg, Next(cfg, s, a))
  {
    hide SystemInv, Codec.Lawful, Append, Dead, Crashed, Confirm, Acknowledge, StatAnswers, CrashTo, Open;
    match a
    case Start => StartKeepsInv(cfg, s);
    case DoAppend(t, force, f) =>
      var out := AppendBy(cfg, s, t, force, f);
      if Poisoned(s) {
        PoisonedChangesNothing(cfg, s, t, force, f);
        InvIsConsistent(cfg, s);
      } else if out.writer.poisoned {
        PoisoningKeepsInv(cfg, s, t, force, f);
      } else {
        AppendKeepsInv(cfg, s, t, force, f);
      }
      ConfirmKeeps(cfg, Acknowledge(cfg, s, out, force));
    case Die => DieKeepsInv(cfg, s);
    case DieInAppend(t, force, f, at) =>
      MidDeath(cfg, s, t, force, f, at);
    case Crash(left) => CrashKeepsInv(cfg, s, left);
    case CrashInAppend(t, force, f, at, left) =>
      var d := AppendBy(cfg, s, t, force, f).steps[at];
      MidDeath(cfg, s, t, force, f, at);
      DeadDisk(s, d);
      CrashKeepsInv(cfg, Dead(s, d), left);
  }

  lemma InvIsConsistent(cfg: Config, s: System)
    requires SystemInv(cfg, s)
    ensures Consistent(cfg, s)
  {
  }

  lemma DeadDisk(s: System, d: Disk)
    ensures Dead(s, d).disk == d
  {
  }

  lemma DieKeepsInv(cfg: Config, s: System)
    requires SystemInv(cfg, s)
    ensures SystemInv(cfg, Dead(s, s.disk))
  {
    hide StoreFit, Ledgered, Ready, SaidPlusOne;
    if s.crashed {
      DeadKeepsInv(cfg, s, s.disk, []);
    } else {
      var cap :| SaidPlusOne(cfg.codec, s, cap);
      SameSaid(cfg.codec, s, s.(disk := s.disk), cap);
      DeadKeepsInv(cfg, s, s.disk, cap);
    }
  }

  lemma MidDeath(cfg: Config, s: System, t: Trace, forceDurable: bool, f: Faults, at: nat)
    requires cfg.codec.Lawful() && SystemInv(cfg, s) && Enabled(cfg, s, DieInAppend(t, forceDurable, f, at))
    ensures SystemInv(cfg, Dead(s, AppendBy(cfg, s, t, forceDurable, f).steps[at]))
  {
    hide SystemInv, Codec.Lawful, Append, Dead, StatAnswers, SaidPlusOne, StoreFit;
    var d := AppendBy(cfg, s, t, forceDurable, f).steps[at];
    MidAppend(cfg, s, t, forceDurable, f, d);
    DeadKeepsInv(cfg, s, d, s.said + Chunk(cfg, s.proc.value, t));
  }

  // ----- every run -----

  /** Where a run may begin: an accepted log, or none, with nothing unconfirmed. */
  ghost predicate CleanStore(cfg: Config, d: Disk) {
    && d.older == [] && Numbered(d.rotated.Keys) && FilesOk(cfg, d.rotated)
    && Intact(cfg.codec, Stream(d)) && CR !in Stream(d)
    && (d.active.Some? ==> SyncedActive(d) && FileOk(cfg, d.active.value.data))
  }

  ghost function Begin(d: Disk): System {
    System(d, None, [], [], Stream(d), Stream(d), Stream(d), false)
  }

  lemma BeginInv(cfg: Config, d: Disk)
    requires CleanStore(cfg, d)
    ensures SystemInv(cfg, Begin(d))
  {
    hide RotatedData, ScanFile, Genesis, FilesOk;
    var s := Stream(d);
    StandsItself(cfg.codec, s);
    if d.active.Some? {
      StreamParts(d);
      CleanFit(cfg, s, RotatedData(d.rotated), d.active.value.data);
    } else {
      assert RotatedData(d.rotated) + [] == RotatedData(d.rotated);
    }
    SaidNow(cfg.codec, Begin(d));
  }

  ghost predicate IsRun(cfg: Config, states: seq<System>, actions: seq<LogAction>) {
    && |states| == |actions| + 1
    && CleanStore(cfg, states[0].disk) && states[0] == Begin(states[0].disk)
    && forall i :: 0 <= i < |actions| ==> Enabled(cfg, states[i], actions[i]) && states[i + 1] == Next(cfg, states[i], actions[i])
  }

  lemma {:induction false} RunKeepsInv(cfg: Config, states: seq<System>, actions: seq<LogAction>, i: nat)
    requires cfg.codec.Lawful() && IsRun(cfg, states, actions) && i < |states|
    ensures SystemInv(cfg, states[i])
  {
    hide SystemInv, Codec.Lawful, Enabled, Next, Begin;
    if i == 0 {
      BeginInv(cfg, states[0].disk);
    } else {
      RunKeepsInv(cfg, states, actions, i - 1);
      StepKeepsInv(cfg, states[i - 1], actions[i - 1]);
    }
  }

  /** Over any number of process lifetimes with any faults, deaths, crashes and
      restarts: whenever a writer is up, the rotation set verifies, its tail is
      lastHash, the siblings are numbered 1..k, every file has its size, and
      every record acknowledged behind a barrier since the last crash, or earlier
      and confirmed, is in the chain, in order. */
  lemma EveryRunIsSafe(cfg: Config, states: seq<System>, actions: seq<LogAction>, i: nat)
    requires cfg.codec.Lawful() && IsRun(cfg, states, actions) && i < |states| && Up(states[i])
    ensures var s, c := states[i], cfg.codec;
            && Intact(c, Stream(s.disk))
            && s.proc.value.disk == s.disk && s.proc.value.lastHash == TailOf(History(c, Stream(s.disk)))
            && Numbered(s.disk.rotated.Keys)
            && FilesOk(cfg, s.disk.rotated) && s.disk.active.Some? && FileOk(cfg, s.disk.active.value.data)
            && IsSubsequence(s.acked + s.exposed, History(c, Stream(s.disk)))
  {
    RunKeepsInv(cfg, states, actions, i);
    AckedInHistory(cfg, states[i]);
  }

  lemma SingleLine(s: bytes)
    requires FirstLF(s) + 1 >= |s|
    ensures |Lines(s)| == if s == [] then 0 else 1
  {
    var i := FirstLF(s);
    if i < |s| {
      assert s[i + 1..] == [];
    }
  }

  /** A file that is not below the rotation size is one line, or a line feed and
      one line: it holds one record at most. */
  lemma LargeFileIsOneRecord(cfg: Config, data: bytes)
    requires FileOk(cfg, data) && 0 < cfg.rotateBytes <= |data|
    ensures |Lines(data)| == 1 || (|Lines(data)| == 2 && Lines(data)[0] == [])
  {
    hide ScanFile, FirstLF, Lines;
    var s := if data[0] == LF then data[1..] else data;
    SingleLine(s);
    if data[0] == LF {
      assert data == [] + [LF] + s;
      LineThenRest([], s);
    }
  }

  lemma UpIsReady(cfg: Config, s: System)
    requires SystemInv(cfg, s) && Up(s)
    ensures Ready(cfg, s.floor, s.synced, s.proc.value) && Healthy(cfg.codec, s.proc.value) && Intact(cfg.codec, Stream(s.disk))
    ensures s.said == Stream(s.disk) && s.proc.value.disk == s.disk
  {
  }

  lemma InvIsConfirmed(cfg: Config, s: System)
    requires SystemInv(cfg, s)
    ensures Confirmed(s)
  {
  }

  lemma AckedInHistory(cfg: Config, s: System)
    requires cfg.codec.Lawful() && SystemInv(cfg, s) && Up(s)
    ensures IsSubsequence(s.acked + s.exposed, History(cfg.codec, Stream(s.disk)))
    ensures IsPrefix(History(cfg.codec, s.floor), History(cfg.codec, Stream(s.disk)))
  {
    hide Codec.Lawful, RotatedData, StoreFit, Stream, Genesis, FileOk, Healthy, IsSubsequence;
    var c := cfg.codec;
    StandsHistory(c, s.synced, Stream(s.disk));
    StandsHistory(c, s.floor, s.synced);
    PrefixTransitive(History(c, s.floor), History(c, s.synced), History(c, Stream(s.disk)));
    SubsequenceGrows(s.acked + s.exposed, History(c, s.synced), History(c, Stream(s.disk)));
  }

  /** Whatever death, of the process or in the middle of an append, left the store:
      a start that no crash preceded resumes on everything that had been
      acknowledged, and at most the one record in flight. */
  lemma RestartLosesNothing(cfg: Config, s: System)
    requires cfg.codec.Lawful() && SystemInv(cfg, s) && !s.crashed && Enabled(cfg, s, Start)
    ensures var s', c := Next(cfg, s, Start), cfg.codec;
            && Up(s') && Ready(cfg, s'.floor, s'.synced, s'.proc.value)
            && IsPrefix(History(c, s.said), History(c, Stream(s'.disk)))
            && |History(c, Stream(s'.disk))| <= |History(c, s.said)| + 1
  {
    hide Codec.Lawful, RotatedData, StoreFit, Genesis, FileOk, Open, IsSubsequence, Stands, Stream, History;
    StartKeepsInv(cfg, s);
    var c, s' := cfg.codec, Next(cfg, s, Start);
    StandsHasNoCR(c, s.floor, s.synced);
    OpenFit(cfg, s.floor, s.synced, s.disk);
    StandsHasNoCR(c, s.synced, Stream(s'.disk));
    var cap :| SaidPlusOne(c, s, cap);
    StandsBetween(c, s.said, Stream(s.disk), cap);
  }

  /** After a crash, whichever directory and contents it left: what was confirmed
      is in the chain that a start resumes. */
  lemma AckedAfterCrash(cfg: Config, s: System, left: Disk, i: nat)
    requires cfg.codec.Lawful() && SystemInv(cfg, s) && CrashTo(s.disk, left) && Open(cfg.codec, left).Opened? && i < |s.acked|
    ensures s.acked[i] in History(cfg.codec, Stream(left))
  {
    hide Codec.Lawful, SystemInv, CrashTo, Open, RotatedData, Genesis, Up, Stream, History, IsSubsequence;
    var down := Next(cfg, s, Crash(left));
    CrashKeepsInv(cfg, s, left);
    StartKeepsInv(cfg, down);
    StartStream(cfg, down);
    AckedInHistory(cfg, Next(cfg, down, Start));
    assert down.acked + [] == down.acked;
    SubsequenceContains(down.acked, History(cfg.codec, Stream(left)), s.acked[i]);
  }

  lemma StartStream(cfg: Config, s: System)
    requires cfg.codec.Lawful() && SystemInv(cfg, s) && Enabled(cfg, s, Start)
    ensures Stream(Next(cfg, s, Start).disk) == Stream(s.disk) && Next(cfg, s, Start).acked == s.acked && Next(cfg, s, Start).exposed == s.exposed
  {
    hide Codec.Lawful, StoreFit, RotatedData;
    CreatedStream(s.disk);
  }

  lemma CreatedStream(d: Disk)
    ensures Stream(Created(d)) == Stream(d)
  {
  }

  lemma AckedInChain(cfg: Config, s: System, i: nat)
    requires cfg.codec.Lawful() && SystemInv(cfg, s) && Up(s) && i < |s.acked|
    ensures s.acked[i] in History(cfg.codec, Stream(s.disk))
  {
    hide SystemInv, Codec.Lawful, IsSubsequence, Stream, History;
    AckedInHistory(cfg, s);
    assert (s.acked + s.exposed)[i] == s.acked[i];
    SubsequenceContains(s.acked + s.exposed, History(cfg.codec, Stream(s.disk)), s.acked[i]);
  }

  /** A poisoned writer touches nothing, whoever appends and with whatever faults,
      until its process ends: what it left is there for the operator to see. */
  lemma {:induction false} PoisonEndsTheLog(cfg: Config, states: seq<System>, actions: seq<LogAction>, i: nat, j: nat)
    requires cfg.codec.Lawful() && IsRun(cfg, states, actions) && i <= j < |states| && Poisoned(states[i])
    requires forall k :: i <= k < j ==> actions[k].DoAppend?
    ensures states[j] == states[i]
    decreases j
  {
    hide Codec.Lawful, Next, Enabled, Begin, SystemInv, CleanStore;
    if i < j {
      PoisonEndsTheLog(cfg, states, actions, i, j - 1);
      RunKeepsInv(cfg, states, actions, j - 1);
      PoisonedStep(cfg, states[j - 1], actions[j - 1]);
    }
  }

  lemma PoisonedStep(cfg: Config, s: System, a: LogAction)
    requires SystemInv(cfg, s) && Poisoned(s) && a.DoAppend? && Enabled(cfg, s, a)
    ensures Next(cfg, s, a) == s
  {
    hide Append, StoreFit, Ledgered, SaidPlusOne, Ready, Acknowledge;
    PoisonedChangesNothing(cfg, s, a.t, a.forceDurable, a.faults);
    assert s.acked + [] == s.acked;
  }
}
