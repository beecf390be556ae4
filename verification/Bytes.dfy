/** Bytes, and the line splitting of Go's bufio.ScanLines that every reader of
    the audit log shares. */
module Bytes {

  newtype byte = x: int | 0 <= x < 256

  type bytes = seq<byte>

  datatype Option<+T> = None | Some(value: T)

  const LF: byte := 10
  const CR: byte := 13

  /** Position of the first LF, or |s| when there is none. */
  function FirstLF(s: bytes): (i: nat)
    ensures i <= |s|
    ensures i < |s| ==> s[i] == LF
    ensures forall k :: 0 <= k < i ==> s[k] != LF
  {
    if s == [] then 0
    else if s[0] == LF then 0
    else
      var i := 1 + FirstLF(s[1..]);
      assert forall k :: 1 <= k < i ==> s[k] == s[1..][k - 1];
      i
  }

  predicate Unbroken(s: bytes) {
    forall k :: 0 <= k < |s| ==> s[k] != LF
  }

  /** ScanLines drops one carriage return before the line feed. */
  function DropCR(l: bytes): bytes {
    if l != [] && l[|l| - 1] == CR then l[..|l| - 1] else l
  }

  /** The tokens bufio.ScanLines produces: an unterminated tail is a line too,
      an empty tail is not. */
  function Lines(s: bytes): seq<bytes>
    decreases |s|
  {
    if s == [] then []
    else
      var i := FirstLF(s);
      if i < |s| then [DropCR(s[..i])] + Lines(s[i + 1..]) else [DropCR(s)]
  }

  /** Whether a new record may follow directly: nothing is left unterminated. */
  predicate Terminated(s: bytes) {
    s == [] || s[|s| - 1] == LF
  }

  predicate IsPrefix<T(==)>(a: seq<T>, b: seq<T>) {
    |a| <= |b| && a == b[..|a|]
  }

  lemma LineThenRest(l: bytes, rest: bytes)
    requires Unbroken(l)
    ensures FirstLF(l + [LF] + rest) == |l|
    ensures Lines(l + [LF] + rest) == [DropCR(l)] + Lines(rest)
  {
    var s := l + [LF] + rest;
    assert s[..|l|] == l && s[|l| + 1..] == rest && s[|l|] == LF;
    assert forall k :: 0 <= k < |l| ==> s[k] == l[k];
  }

  lemma LastLine(l: bytes)
    requires Unbroken(l)
    ensures Lines(l) == if l == [] then [] else [DropCR(l)]
  {
  }

  /** What a line is: the bytes up to a line feed or the end of a stream that is not
      empty, less one carriage return. */
  lemma LinesMean(l: bytes, rest: bytes)
    requires 10 !in l
    ensures var line := if l != [] && l[|l| - 1] == 13 then l[..|l| - 1] else l;
            && Lines(l + [10] + rest) == [line] + Lines(rest) && Lines(l) == if l == [] then [] else [line]
  {
    LineThenRest(l, rest);
    LastLine(l);
  }

  /** A nonempty terminated stream is its first line and a terminated rest. */
  lemma FirstLineOf(a: bytes) returns (l: bytes, rest: bytes)
    requires Terminated(a) && a != []
    ensures a == l + [LF] + rest && Unbroken(l) && Terminated(rest)
  {
    var i := FirstLF(a);
    l, rest := a[..i], a[i + 1..];
  }

  lemma LinesSplitStep(l: bytes, rest: bytes, b: bytes)
    requires Unbroken(l) && Lines(rest + b) == Lines(rest) + Lines(b)
    ensures Lines(l + [LF] + rest + b) == Lines(l + [LF] + rest) + Lines(b)
  {
    hide Lines;
    LineThenRest(l, rest);
    LineThenRest(l, rest + b);
    assert l + [LF] + rest + b == l + [LF] + (rest + b);
  }

  /** Lines of a stream cut after a line feed split at that cut. */
  lemma {:induction false} LinesSplit(a: bytes, b: bytes)
    requires Terminated(a)
    ensures Lines(a + b) == Lines(a) + Lines(b)
    decreases |a|
  {
    if a == [] {
      assert a + b == b;
    } else {
      var l, rest := FirstLineOf(a);
      LinesSplit(rest, b);
      LinesSplitStep(l, rest, b);
    }
  }

  /** Every stream is a terminated part followed by one unterminated fragment. */
  function TailStart(s: bytes): (i: nat)
    ensures i <= |s|
    ensures Terminated(s[..i])
    ensures Unbroken(s[i..])
  {
    if s == [] then 0
    else if s[|s| - 1] == LF then |s|
    else
      var t := s[..|s| - 1];
      var i := TailStart(t);
      assert s[..i] == t[..i];
      assert s[i..] == t[i..] + [s[|s| - 1]];
      i
  }

  /** A line feed added to any stream adds at most a blank line. */
  lemma LinesCloseTail(s: bytes)
    ensures Lines(s + [LF]) == if Terminated(s) then Lines(s) + [[]] else Lines(s)
  {
    hide Lines, FirstLF, TailStart;
    var i := TailStart(s);
    var a, p := s[..i], s[i..];
    assert s == a + p;
    LinesSplit(a, p);
    assert s + [LF] == a + (p + [LF] + []);
    LinesSplit(a, p + [LF] + []);
    LineThenRest(p, []);
    LastLine(p);
    LastLine([]);
    assert Terminated(s) <==> p == [];
  }

  lemma PrefixTransitive<T>(a: seq<T>, b: seq<T>, c: seq<T>)
    requires IsPrefix(a, b) && IsPrefix(b, c)
    ensures IsPrefix(a, c)
  {
    assert c[..|a|] == c[..|b|][..|a|];
  }

  lemma PrefixConcat<T>(r: seq<T>, a: seq<T>, b: seq<T>)
    requires IsPrefix(a, b)
    ensures IsPrefix(r + a, r + b)
  {
    assert (r + b)[..|r + a|] == r + b[..|a|];
  }

  predicate IsSubsequence<T(==)>(a: seq<T>, b: seq<T>) {
    a == [] || (b != [] && ((a[|a| - 1] == b[|b| - 1] && IsSubsequence(a[..|a| - 1], b[..|b| - 1])) || IsSubsequence(a, b[..|b| - 1])))
  }

  lemma {:induction false} SubsequenceGrows<T>(a: seq<T>, b: seq<T>, c: seq<T>)
    requires IsSubsequence(a, b) && IsPrefix(b, c)
    ensures IsSubsequence(a, c)
    decreases |c|
  {
    if b == c {
    } else {
      var n := |c| - 1;
      assert c[..n][..|b|] == c[..|b|];
      SubsequenceGrows(a, b, c[..n]);
    }
  }

  lemma {:induction false} SubsequenceContains<T>(a: seq<T>, b: seq<T>, t: T)
    requires IsSubsequence(a, b) && t in a
    ensures t in b
    decreases |b|
  {
    var n := |b| - 1;
    if a[|a| - 1] == b[n] && IsSubsequence(a[..|a| - 1], b[..n]) {
      assert a == a[..|a| - 1] + [a[|a| - 1]];
      if t != b[n] {
        SubsequenceContains(a[..|a| - 1], b[..n], t);
      }
    } else {
      SubsequenceContains(a, b[..n], t);
    }
  }

  lemma SubsequenceSnoc<T>(a: seq<T>, b: seq<T>, t: T)
    requires IsSubsequence(a, b)
    ensures IsSubsequence(a + [t], b + [t])
  {
    assert (a + [t])[..|a|] == a && (b + [t])[..|b|] == b;
  }
}
