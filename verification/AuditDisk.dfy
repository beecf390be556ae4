/** The audit directory as a fault-injected store: an active file, numbered
    rotated siblings, and what of them would survive a crash. */
module AuditDisk {
  import opened Bytes

  /** `data` is what readers see. Since the last barrier of the file, `durable` has
      been in it throughout, and `past` are contents that were cut off again. */
  datatype File = File(data: bytes, durable: bytes, past: seq<bytes>)

  /** The directory as it once was; its files are no longer written to. */
  datatype Layout = Layout(active: Option<bytes>, rotated: map<int, bytes>)

  /** `older` are the directories since the last directory barrier: a crash may
      bring any of them back. Rotated files are synced before they get their name. */
  datatype Disk = Disk(active: Option<File>, rotated: map<int, bytes>, older: seq<Layout>)

  function Clean(data: bytes): File {
    File(data, data, [])
  }

  const EMPTY_FILE := Clean([])

  function Clamp(n: nat, lo: nat, hi: nat): (r: nat)
    requires lo <= hi
    ensures lo <= r <= hi
  {
    if n < lo then lo else if n > hi then hi else n
  }

  /** A barrier that fails guarantees nothing, and takes nothing back. */
  function SyncFile(f: File, ok: bool): File {
    if ok then Clean(f.data) else f
  }

  function Write(f: File, more: bytes): File {
    f.(data := f.data + more)
  }

  /** Truncate never cuts below the requested size; it may report success having
      cut too little. What was cut off may still come back. */
  function Truncate(f: File, size: nat, newLen: nat): File {
    if size <= |f.data| then File(f.data[..Clamp(newLen, size, |f.data|)], f.durable, f.past + [f.data]) else f
  }

  /** The contents a file had since its last barrier, up to cuts at the end. */
  function Tops(f: File): seq<bytes> {
    f.past + [f.data]
  }

  /** A crash leaves some part of one of them, and at least what is durable. */
  ghost predicate Leaves(f: File, x: bytes) {
    IsPrefix(f.durable, x) && exists p :: p in Tops(f) && IsPrefix(x, p)
  }

  function Restored(l: Layout): Disk {
    Disk(if l.active.Some? then Some(Clean(l.active.value)) else None, l.rotated, [])
  }

  /** What a machine crash may leave: a directory since the last directory barrier,
      with its files cut as their last barriers allow. */
  ghost predicate CrashTo(d: Disk, after: Disk) {
    || (exists i :: 0 <= i < |d.older| && after == Restored(d.older[i]))
    || (after.rotated == d.rotated && after.older == []
        && match d.active
           case None => after.active == None
           case Some(f) => after.active.Some? && after.active.value == Clean(after.active.value.data) && Leaves(f, after.active.value.data))
  }

  // ----- the rotation set -----

  predicate IsMax(m: int, s: set<int>) {
    m in s && forall x :: x in s ==> x <= m
  }

  lemma NonemptyHasElement(s: set<int>)
    requires s != {}
    ensures exists x :: x in s
  {
    assert (forall x :: x !in s) ==> s == {};
  }

  lemma MaxExists(s: set<int>)
    requires s != {}
    ensures exists m :: IsMax(m, s)
  {
    NonemptyHasElement(s);
    var x :| x in s;
    var fewer := s - {x};
    assert forall y :: y in s <==> y in fewer || y == x;
    if fewer == {} {
      assert IsMax(x, s);
    } else {
      MaxExists(fewer);
      var m :| IsMax(m, fewer);
      assert IsMax(if x > m then x else m, s);
    }
  }

  ghost function MaxOf(s: set<int>): (m: int)
    requires s != {}
    ensures IsMax(m, s)
  {
    MaxExists(s);
    var m :| IsMax(m, s);
    m
  }

  /** The rotated files concatenated in ascending numeric order. */
  ghost function RotatedData(rotated: map<int, bytes>): bytes
    decreases |rotated|
  {
    if rotated.Keys == {} then []
    else
      var m := MaxOf(rotated.Keys);
      RotatedData(rotated - {m}) + rotated[m]
  }

  /** The concatenation RotationSetOldestFirst prescribes: rotated siblings by
      ascending number, the active file last. */
  ghost function Stream(d: Disk): bytes {
    RotatedData(d.rotated) + (if d.active.Some? then d.active.value.data else [])
  }

  ghost function LayoutStream(l: Layout): bytes {
    RotatedData(l.rotated) + (if l.active.Some? then l.active.value else [])
  }

  /** What the file barriers so far guarantee, as long as the directory is the
      current one. */
  ghost function DurableStream(d: Disk): bytes {
    RotatedData(d.rotated) + (if d.active.Some? then d.active.value.durable else [])
  }

  function FirstFreeFrom(keys: set<int>, i: int): (idx: int)
    ensures i <= idx && idx !in keys
    ensures forall j :: i <= j < idx ==> j in keys
    decreases |set k | k in keys && k >= i|
  {
    if i !in keys then i
    else
      assert (set k | k in keys && k >= i) == (set k | k in keys && k >= i + 1) + {i};
      FirstFreeFrom(keys, i + 1)
  }

  /** The index a rotation renames to. */
  function FirstFree(keys: set<int>): int {
    FirstFreeFrom(keys, 1)
  }

  /** The indices in use are exactly 1..k. */
  ghost predicate Numbered(keys: set<int>) {
    forall x :: x in keys <==> 1 <= x <= |keys|
  }

  /** A numbered set grows by its first free index to a numbered set. */
  lemma NumberedGrows(keys: set<int>)
    requires Numbered(keys)
    ensures FirstFree(keys) == |keys| + 1 && Numbered(keys + {FirstFree(keys)})
    ensures forall x :: x in keys ==> x < FirstFree(keys)
  {
    var idx := FirstFree(keys);
    assert idx > |keys|;
    assert idx > |keys| + 1 ==> |keys| + 1 in keys;
    assert |keys + {idx}| == |keys| + 1;
  }

  /** No positive index below one in use is free. */
  ghost predicate Contiguous(keys: set<int>) {
    forall x :: x in keys && x > 1 ==> x - 1 in keys
  }

  /** Renaming to the first free index keeps numeric order the append order if
      and only if no index has been skipped. */
  lemma {:induction false} FirstFreeIsNewest(keys: set<int>)
    ensures Contiguous(keys) <==> forall x :: x in keys ==> x < FirstFree(keys)
    ensures Contiguous(keys) ==> Contiguous(keys + {FirstFree(keys)})
  {
    var idx := FirstFree(keys);
    if Contiguous(keys) {
      forall x | x in keys
        ensures x < idx
      {
        if x >= idx {
          DownTo(keys, x, idx);
        }
      }
    }
  }

  lemma {:induction false} DownTo(keys: set<int>, x: int, idx: int)
    requires Contiguous(keys) && x in keys && 1 <= idx <= x
    ensures idx in keys
    decreases x
  {
    if idx < x {
      DownTo(keys, x - 1, idx);
    }
  }

  lemma RotatedAdd(rotated: map<int, bytes>, k: int, data: bytes)
    requires forall x :: x in rotated ==> x < k
    ensures RotatedData(rotated[k := data]) == RotatedData(rotated) + data
  {
    var more := rotated[k := data];
    assert k in more;
    assert MaxOf(more.Keys) == k;
    assert more - {k} == rotated;
  }

  /** A member of the rotation set. */
  datatype Path = Sibling(idx: int) | ActivePath

  /** sort.Slice on the siblings found. */
  method SortSiblings(siblings: set<int>) returns (sorted: seq<int>)
    ensures forall i, j :: 0 <= i < j < |sorted| ==> sorted[i] < sorted[j]
    ensures forall x :: x in sorted <==> x in siblings
  {
    sorted := [];
    var rest := siblings;
    while rest != {}
      invariant rest <= siblings
      invariant forall x :: x in sorted <==> x in siblings && x !in rest
      invariant forall i, j :: 0 <= i < j < |sorted| ==> sorted[i] < sorted[j]
      decreases |rest|
    {
      NonemptyHasElement(rest);
      var e :| e in rest;
      var at := 0;
      while at < |sorted| && sorted[at] < e
        invariant at <= |sorted|
        invariant forall i :: 0 <= i < at ==> sorted[i] < e
      {
        at := at + 1;
      }
      assert e !in sorted;
      assert forall i :: at <= i < |sorted| ==> e < sorted[i];
      var grown := sorted[..at] + [e] + sorted[at..];
      assert forall x :: x in grown <==> x in sorted || x == e;
      sorted := grown;
      rest := rest - {e};
    }
  }

  /** The siblings by ascending number, the active file last, nothing else. */
  ghost predicate OldestFirst(paths: seq<Path>, siblings: set<int>, activeExists: bool) {
    && (ActivePath in paths <==> activeExists)
    && (forall x :: Sibling(x) in paths <==> x in siblings)
    && (forall i, j :: 0 <= i < j < |paths| ==>
          paths[i].Sibling? && (paths[j].Sibling? ==> paths[i].idx < paths[j].idx))
  }

  /** RotationSetOldestFirst, with its error exactly when there is no file at all. */
  method RotationSetOldestFirst(siblings: set<int>, activeExists: bool) returns (paths: Option<seq<Path>>)
    ensures paths.None? <==> siblings == {} && !activeExists
    ensures paths.Some? ==> OldestFirst(paths.value, siblings, activeExists)
  {
    var sorted := SortSiblings(siblings);
    var out := seq(|sorted|, i requires 0 <= i < |sorted| => Sibling(sorted[i]));
    assert forall x :: x in sorted ==> Sibling(x) in out by {
      forall x | x in sorted
        ensures Sibling(x) in out
      {
        var i :| 0 <= i < |sorted| && sorted[i] == x;
        assert out[i] == Sibling(x);
      }
    }
    if activeExists {
      out := out + [ActivePath];
    }
    if |out| == 0 {
      assert forall x :: x !in siblings;
      return None;
    }
    if !activeExists {
      assert sorted[0] in sorted;
    }
    return Some(out);
  }

  /** What a reader finds behind a path; nothing behind one that is gone. */
  function FileData(d: Disk, p: Path): bytes {
    match p
    case ActivePath => if d.active.Some? then d.active.value.data else []
    case Sibling(idx) => if idx in d.rotated then d.rotated[idx] else []
  }

  function ConcatPaths(d: Disk, paths: seq<Path>): bytes {
    if paths == [] then [] else ConcatPaths(d, paths[..|paths| - 1]) + FileData(d, paths[|paths| - 1])
  }

  lemma ActiveIsLast(paths: seq<Path>, siblings: set<int>) returns (front: seq<Path>)
    requires OldestFirst(paths, siblings, true)
    ensures paths == front + [ActivePath] && OldestFirst(front, siblings, false)
  {
    var i :| 0 <= i < |paths| && paths[i] == ActivePath;
    front := paths[..i];
    var last := paths[|paths| - 1];
    assert !paths[i].Sibling? && i == |paths| - 1;
    assert paths == front + [ActivePath];
    forall x
      ensures Sibling(x) in front <==> x in siblings
    {
      assert Sibling(x) in paths <==> Sibling(x) in front;
    }
    assert forall k :: 0 <= k < |front| ==> front[k] == paths[k] && front[k] != ActivePath;
  }

  /** Reading the rotation set in that order reads the logical stream. */
  lemma OrderReadsStream(d: Disk, paths: seq<Path>)
    requires OldestFirst(paths, d.rotated.Keys, d.active.Some?)
    ensures ConcatPaths(d, paths) == Stream(d)
  {
    if d.active.Some? {
      var front := ActiveIsLast(paths, d.rotated.Keys);
      assert paths[..|paths| - 1] == front;
      SiblingsRead(d, d.rotated, front);
    } else {
      SiblingsRead(d, d.rotated, paths);
      assert RotatedData(d.rotated) + [] == RotatedData(d.rotated);
    }
  }

  lemma {:induction false} SiblingsRead(d: Disk, rotated: map<int, bytes>, paths: seq<Path>)
    requires forall k :: k in rotated ==> k in d.rotated && d.rotated[k] == rotated[k]
    requires OldestFirst(paths, rotated.Keys, false)
    ensures ConcatPaths(d, paths) == RotatedData(rotated)
    decreases |paths|
  {
    hide OldestFirst;
    if paths == [] {
      NoSiblings(paths, rotated.Keys);
    } else {
      var m := NewestIsLast(rotated, paths);
      SiblingsRead(d, rotated - {m}, paths[..|paths| - 1]);
    }
  }

  lemma NoSiblings(paths: seq<Path>, siblings: set<int>)
    requires OldestFirst(paths, siblings, false) && paths == []
    ensures siblings == {}
  {
    assert forall x :: x in siblings ==> Sibling(x) in paths;
    assert forall x :: x !in siblings;
  }

  lemma NewestIsLast(rotated: map<int, bytes>, paths: seq<Path>) returns (m: int)
    requires OldestFirst(paths, rotated.Keys, false) && paths != []
    ensures paths[|paths| - 1] == Sibling(m) && IsMax(m, rotated.Keys) && OldestFirst(paths[..|paths| - 1], (rotated - {m}).Keys, false)
  {
    var n := |paths| - 1;
    var front, last := paths[..n], paths[n];
    assert paths == front + [last];
    assert last in paths && last.Sibling?;
    m := last.idx;
    forall x | x in rotated.Keys
      ensures x <= m
    {
      var i :| 0 <= i < |paths| && paths[i] == Sibling(x);
    }
    assert forall x :: Sibling(x) in front <==> x in (rotated - {m}).Keys;
  }

  lemma LastIsMax(rotated: map<int, bytes>, front: seq<int>, last: int)
    requires forall i :: 0 <= i < |front| ==> front[i] < last
    requires forall x :: x in front + [last] <==> x in rotated
    ensures rotated.Keys != {} && MaxOf(rotated.Keys) == last
    ensures forall x :: x in front <==> x in rotated - {last}
  {
    var order := front + [last];
    assert order[|front|] == last;
    assert forall x :: x in order <==> x in front || x == last;
    assert last in rotated.Keys;
    assert IsMax(last, rotated.Keys);
  }
}
