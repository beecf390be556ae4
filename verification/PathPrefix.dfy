/** matchPathPrefix (pkg/engine/path_classify.go): how a path and a policy prefix
    are brought into one form and compared, and the cap on `**` that policy
    validation puts on prefixes (pkg/engine/validate.go). */
module PathPrefix {
  import opened PathMatch

  const MAX_DEEP_GLOBS := 2

  // ----- strings and components -----

  function FirstSlash(s: string): (k: nat)
    ensures k <= |s| && (k < |s| ==> s[k] == '/') && forall m :: 0 <= m < k ==> s[m] != '/'
  {
    if s == "" || s[0] == '/' then 0 else 1 + FirstSlash(s[1..])
  }

  /** strings.Split(s, "/"). */
  function Split(s: string): (parts: Parts)
    ensures parts != []
    decreases |s|
  {
    var k := FirstSlash(s);
    if k == |s| then [s] else [s[..k]] + Split(s[k + 1..])
  }

  predicate HasPrefix(s: string, prefix: string) {
    |prefix| <= |s| && s[..|prefix|] == prefix
  }

  predicate HasWildcard(s: string) {
    '*' in s
  }

  /** The path is the prefix itself or lies below it. */
  predicate AtOrBelow(path: string, prefix: string) {
    path == prefix || HasPrefix(path, prefix + "/")
  }

  /** The comparison in matchPathPrefix, once both sides are in their final form. */
  predicate MatchPrepared(path: string, prefix: string) {
    if !HasWildcard(prefix) then LiteralPrefix(path, prefix)
    else Matches(Split(TrimSlash(prefix)), Split(path), 0)
  }

  predicate LiteralPrefix(path: string, prefix: string) {
    path == prefix || (HasPrefix(path, prefix) && ((prefix != "" && prefix[|prefix| - 1] == '/') || |path| == |prefix| || path[|prefix|] == '/'))
  }

  function TrimSlash(s: string): string {
    if s != "" && s[|s| - 1] == '/' then s[..|s| - 1] else s
  }

  lemma PlainParts(s: string)
    requires !HasWildcard(s)
    ensures forall k :: 0 <= k < |Split(s)| ==> !HasWildcard(Split(s)[k])
    decreases |s|
  {
    var k := FirstSlash(s);
    if k < |s| {
      PlainParts(s[k + 1..]);
    }
  }

  predicate FrontOf(p: Parts, x: Parts) {
    |p| <= |x| && x[..|p|] == p
  }

  lemma PlainFits(p: Parts, x: Parts)
    requires forall k :: 0 <= k < |p| ==> !HasWildcard(p[k])
    ensures Matches(p, x, 0) <==> FrontOf(p, x)
  {
    assert HasWildcard(STAR) && HasWildcard(DEEP) by {
      assert STAR[0] == '*' && DEEP[0] == '*';
    }
    ShallowMatches(p, x, 0);
    assert FrontOf(p, x) ==> forall k :: 0 <= k < |p| ==> x[k] == x[..|p|][k];
  }

  lemma FirstSlashIs(s: string, k: nat)
    requires k <= |s| && (k < |s| ==> s[k] == '/') && forall m :: 0 <= m < k ==> s[m] != '/'
    ensures FirstSlash(s) == k
  {
  }

  /** Comparing component by component is comparing strings up to a slash. */
  lemma {:induction false} SplitFront(q: string, path: string)
    ensures FrontOf(Split(q), Split(path)) <==> AtOrBelow(path, q)
    decreases |q|
  {
    var j, k := FirstSlash(q), FirstSlash(path);
    if j == |q| {
      SingleFront(q, path);
    } else if k == |path| {
      LongerThanOne(q, path);
    } else {
      hide HasPrefix, AtOrBelow, FirstSlash, FrontOf;
      SplitFront(q[j + 1..], path[k + 1..]);
      FrontCons(q[..j], Split(q[j + 1..]), path[..k], Split(path[k + 1..]));
      BelowCons(q, path, j, k);
    }
  }

  lemma LongerThanOne(q: string, path: string)
    requires FirstSlash(q) < |q| && FirstSlash(path) == |path|
    ensures !FrontOf(Split(q), Split(path)) && !AtOrBelow(path, q)
  {
    if HasPrefix(path, q + "/") {
      BelowHasSlash(q, path);
    }
  }

  lemma BelowHasSlash(q: string, path: string)
    requires HasPrefix(path, q + "/")
    ensures FirstSlash(path) == FirstSlash(q)
  {
    assert forall m :: 0 <= m <= |q| ==> path[m] == path[..|q| + 1][m] == (q + "/")[m];
    FirstSlashIs(path, FirstSlash(q));
  }

  lemma SingleFront(q: string, path: string)
    requires FirstSlash(q) == |q|
    ensures FrontOf(Split(q), Split(path)) <==> AtOrBelow(path, q)
  {
    var k := FirstSlash(path);
    assert Split(path)[0] == path[..k];
    if HasPrefix(path, q + "/") {
      assert forall m :: 0 <= m <= |q| ==> path[m] == path[..|q| + 1][m] == (q + "/")[m];
      FirstSlashIs(path, |q|);
    }
    if k < |path| && path[..k] == q {
      assert path[..k + 1] == q + "/";
    }
  }

  lemma FrontCons(a: string, p: Parts, b: string, x: Parts)
    ensures FrontOf([a] + p, [b] + x) <==> a == b && FrontOf(p, x)
  {
    if |p| <= |x| {
      assert ([b] + x)[..|p| + 1] == [b] + x[..|p|];
      assert [b] + x[..|p|] == [a] + p ==> b == ([a] + p)[0] && x[..|p|] == ([a] + p)[1..];
    }
  }

  lemma BelowCons(q: string, path: string, j: nat, k: nat)
    requires j == FirstSlash(q) < |q| && k == FirstSlash(path) < |path|
    ensures AtOrBelow(path, q) <==> q[..j] == path[..k] && AtOrBelow(path[k + 1..], q[j + 1..])
  {
    hide HasPrefix, FirstSlash;
    if HasPrefix(path, q + "/") {
      BelowHasSlash(q, path);
    }
    SameCut(q, path, j, k);
    if j == k {
      PrefixCons(q, path, j);
    }
  }

  lemma SameCut(q: string, path: string, j: nat, k: nat)
    requires j < |q| && k < |path| && q[j] == path[k] == '/'
    ensures path == q && j == k <==> q[..j] == path[..k] && q[j + 1..] == path[k + 1..]
  {
    if q[..j] == path[..k] && q[j + 1..] == path[k + 1..] {
      assert q == q[..j] + [q[j]] + q[j + 1..] && path == path[..k] + [path[k]] + path[k + 1..];
    }
  }

  lemma PrefixCons(q: string, path: string, j: nat)
    requires j < |q| && j < |path| && q[j] == path[j]
    ensures HasPrefix(path, q + "/") <==> q[..j] == path[..j] && HasPrefix(path[j + 1..], q[j + 1..] + "/")
  {
    var n := |q| + 1;
    assert (q + "/")[..j] == q[..j] && (q + "/")[j + 1..] == q[j + 1..] + "/";
    if n <= |path| {
      assert path[..n][..j] == path[..j] && path[..n][j + 1..] == path[j + 1..][..n - j - 1];
      CutAt(path[..n], q + "/", j);
    }
  }

  lemma CutAt(a: string, b: string, j: nat)
    requires |a| == |b| && j < |a| && a[j] == b[j]
    ensures a == b <==> a[..j] == b[..j] && a[j + 1..] == b[j + 1..]
  {
    if a[..j] == b[..j] && a[j + 1..] == b[j + 1..] {
      assert a == a[..j] + [a[j]] + a[j + 1..] && b == b[..j] + [b[j]] + b[j + 1..];
    }
  }

  lemma LiteralIsBelow(path: string, q: string)
    ensures AtOrBelow(path, q) <==> path == q || (HasPrefix(path, q) && |path| > |q| && path[|q|] == '/')
  {
    if HasPrefix(path, q) && |path| > |q| {
      assert path[..|q| + 1] == path[..|q|] + [path[|q|]];
      assert path[..|q| + 1] == q + "/" <==> path[|q|] == '/';
    }
    if HasPrefix(path, q + "/") {
      assert path[..|q|] == path[..|q| + 1][..|q|] == q;
      assert path[|q|] == path[..|q| + 1][|q|];
    }
  }

  predicate EndsInSlash(s: string) {
    s != "" && s[|s| - 1] == '/'
  }

  /** For a literal prefix the string comparison is the component-wise match, less
      the directory itself when the prefix ends in a slash. */
  lemma FastPathAgrees(path: string, prefix: string)
    requires !HasWildcard(prefix)
    ensures MatchPrepared(path, prefix) <==>
            Matches(Split(TrimSlash(prefix)), Split(path), 0) && !(EndsInSlash(prefix) && path == TrimSlash(prefix))
  {
    var q := TrimSlash(prefix);
    assert !HasWildcard(q);
    PlainParts(q);
    PlainFits(Split(q), Split(path));
    SplitFront(q, path);
    LiteralIsBelow(path, q);
    assert EndsInSlash(prefix) ==> prefix == q + "/";
    assert HasPrefix(path, prefix) && |path| == |prefix| ==> path == prefix;
  }

  // ----- preparing the operands -----

  /** strings.ReplaceAll(s, `\`, "/"). */
  function ForwardSlashes(s: string): (r: string)
    ensures |r| == |s|
  {
    seq(|s|, i requires 0 <= i < |s| => if s[i] == '\\' then '/' else s[i])
  }

  predicate IsLetter(c: char) {
    'A' <= c <= 'Z' || 'a' <= c <= 'z'
  }

  /** isWindowsDriveLetterPath. */
  predicate DrivePath(s: string) {
    |s| >= 3 && IsLetter(s[0]) && s[1] == ':' && (s[2] == '\\' || s[2] == '/')
  }

  /** A drive-letter path, or a UNC path. */
  predicate WindowsShaped(s: string) {
    || DrivePath(s)
    || (|s| >= 2 && s[0] == '\\' && s[1] == '\\')
  }

  /** normalizeIfWindowsPath. */
  function Normalize(s: string): (r: string)
    ensures |r| == |s|
  {
    if WindowsShaped(s) then ForwardSlashes(s) else s
  }

  /** What the components of a rooted path come to: empty ones and dots are
      dropped, two dots take back the one before. */
  function Resolve(parts: Parts, kept: Parts): Parts {
    if parts == [] then kept
    else if parts[0] == "" || parts[0] == "." then Resolve(parts[1..], kept)
    else if parts[0] == ".." then Resolve(parts[1..], if kept == [] then [] else kept[..|kept| - 1])
    else Resolve(parts[1..], kept + [parts[0]])
  }

  function JoinSlash(parts: Parts): string {
    if parts == [] then "" else if |parts| == 1 then parts[0] else parts[0] + "/" + JoinSlash(parts[1..])
  }

  /** path.Clean of a path that begins with a slash. */
  function CleanRooted(s: string): string {
    "/" + JoinSlash(Resolve(Split(s), []))
  }

  predicate Rooted(s: string) {
    s != "" && s[0] == '/'
  }

  /** The prefix as it is compared. */
  function Prepared(prefix: string): string {
    var n := Normalize(prefix);
    if Rooted(n) then CleanRooted(n) else n
  }

  /** matchPathPrefix. */
  predicate MatchPathPrefix(path: string, prefix: string) {
    MatchPrepared(Normalize(path), Prepared(prefix))
  }

  /** The components that matchSegments gets. */
  function MatchedParts(prefix: string): Parts {
    Split(TrimSlash(Prepared(prefix)))
  }

  // ----- a slash at the end -----

  lemma SplitCons(a: string, b: string)
    requires '/' !in a
    ensures Split(a + "/" + b) == [a] + Split(b)
  {
    var s := a + "/" + b;
    FirstSlashIs(s, |a|);
    assert s[..|a|] == a && s[|a| + 1..] == b;
  }

  lemma {:induction false} SplitAtEnd(s: string)
    ensures Split(s + "/") == Split(s) + [""]
    decreases |s|
  {
    hide Split;
    var k := FirstSlash(s);
    if k == |s| {
      OneAtEnd(s);
    } else {
      var a, b := s[..k], s[k + 1..];
      assert '/' !in a;
      hide FirstSlash;
      assert s == a + "/" + b && s + "/" == a + "/" + (b + "/");
      SplitCons(a, b);
      SplitCons(a, b + "/");
      SplitAtEnd(b);
    }
  }

  lemma OneAtEnd(s: string)
    requires '/' !in s
    ensures Split(s + "/") == Split(s) + [""]
  {
    SplitCons(s, "");
    SplitAlone(s);
    SplitAlone("");
    hide Split, FirstSlash;
    assert s + "/" + "" == s + "/";
  }

  lemma SplitAlone(s: string)
    requires '/' !in s
    ensures Split(s) == [s]
  {
    FirstSlashIs(s, |s|);
  }

  lemma {:induction false} ResolveDropsBlank(parts: Parts, kept: Parts)
    ensures Resolve(parts + [""], kept) == Resolve(parts, kept)
    decreases |parts|
  {
    if parts != [] {
      assert (parts + [""])[1..] == parts[1..] + [""];
      ResolveDropsBlank(parts[1..], if parts[0] == "" || parts[0] == "." then kept
                                    else if parts[0] == ".." then if kept == [] then [] else kept[..|kept| - 1]
                                    else kept + [parts[0]]);
    } else {
      assert [""][1..] == [];
    }
  }

  predicate PlainComponent(part: string) {
    part != "" && '/' !in part
  }

  lemma {:induction false} SplitHasNoSlash(s: string)
    ensures forall i :: 0 <= i < |Split(s)| ==> '/' !in Split(s)[i]
    decreases |s|
  {
    var k := FirstSlash(s);
    if k < |s| {
      SplitHasNoSlash(s[k + 1..]);
    }
  }

  lemma {:induction false} ResolvedIsPlain(parts: Parts, kept: Parts)
    requires (forall i :: 0 <= i < |parts| ==> '/' !in parts[i]) && forall i :: 0 <= i < |kept| ==> PlainComponent(kept[i])
    ensures forall i :: 0 <= i < |Resolve(parts, kept)| ==> PlainComponent(Resolve(parts, kept)[i])
    decreases |parts|
  {
    if parts != [] {
      ResolvedIsPlain(parts[1..], if parts[0] == "" || parts[0] == "." then kept
                                  else if parts[0] == ".." then if kept == [] then [] else kept[..|kept| - 1]
                                  else kept + [parts[0]]);
    }
  }

  lemma {:induction false} JoinEnds(parts: Parts)
    requires parts != [] && forall i :: 0 <= i < |parts| ==> PlainComponent(parts[i])
    ensures JoinSlash(parts) != "" && !EndsInSlash(JoinSlash(parts)) && Split(JoinSlash(parts)) == parts
    decreases |parts|
  {
    var s := JoinSlash(parts);
    if |parts| == 1 {
      assert PlainComponent(parts[0]);
      FirstSlashIs(s, |s|);
    } else {
      var rest := JoinSlash(parts[1..]);
      JoinEnds(parts[1..]);
      assert PlainComponent(parts[0]);
      hide Split, JoinSlash;
      SplitCons(parts[0], rest);
      assert s == parts[0] + "/" + rest && s[|s| - 1] == rest[|rest| - 1];
      assert parts == [parts[0]] + parts[1..];
    }
  }

  /** A cleaned prefix is the root, or its components and nothing else. */
  lemma CleanedParts(n: string)
    requires Rooted(n)
    ensures var kept := Resolve(Split(n), []);
            if kept == [] then CleanRooted(n) == "/" else !EndsInSlash(CleanRooted(n)) && Split(CleanRooted(n)) == [""] + kept
  {
    var kept := Resolve(Split(n), []);
    SplitHasNoSlash(n);
    ResolvedIsPlain(Split(n), []);
    if kept != [] {
      JoinEnds(kept);
      var s := CleanRooted(n);
      FirstSlashIs(s, 0);
      assert s[..0] == "" && s[1..] == JoinSlash(kept);
    }
  }

  lemma NormalizeAtEnd(q: string)
    ensures Normalize(q + "/") == Normalize(q) + "/"
  {
    assert WindowsShaped(q + "/") && !WindowsShaped(q) ==> |q| == 2 && ForwardSlashes(q) == q;
    assert ForwardSlashes(q + "/") == ForwardSlashes(q) + "/";
  }

  /** A slash written at the end of a prefix changes nothing when the prefix is
      absolute, since cleaning drops it, or holds a wildcard. A relative or
      drive-letter prefix keeps it, and then no longer covers the directory itself.
      One that already ends in a slash asks for two of them in the path. */
  lemma TrailingSlash(path: string, q: string)
    ensures var p, n := Normalize(path), Normalize(q);
            MatchPathPrefix(path, q + "/") <==>
            if Rooted(n) then MatchPathPrefix(path, q)
            else if !EndsInSlash(n) then MatchPathPrefix(path, q) && (HasWildcard(n) || p != n)
            else if HasWildcard(n) then Matches(Split(TrimSlash(n)) + [""], Split(p), 0)
            else HasPrefix(p, n + "/")
  {
    var n := Normalize(q);
    NormalizeAtEnd(q);
    if Rooted(n) {
      SplitAtEnd(n);
      ResolveDropsBlank(Split(n), []);
      assert Rooted(n + "/") && CleanRooted(n + "/") == CleanRooted(n);
    } else {
      if n == "" {
        RootIsClean();
      }
      RelativeSlash(Normalize(path), n);
    }
  }

  lemma RootIsClean()
    ensures CleanRooted("/") == "/"
  {
    RootSplit();
    assert ["", ""][1..] == [""] && [""][1..] == [];
  }

  lemma RootSplit()
    ensures Split("/") == ["", ""]
  {
    FirstSlashIs("/", 0);
    assert "/"[1..] == "" && "/"[..0] == "" && Split("") == [""];
  }

  lemma RelativeSlash(p: string, n: string)
    ensures n != "" ==> Rooted(n + "/") == Rooted(n)
    ensures MatchPrepared(p, n + "/") <==>
            if !EndsInSlash(n) then MatchPrepared(p, n) && (HasWildcard(n) || p != n)
            else if HasWildcard(n) then Matches(Split(TrimSlash(n)) + [""], Split(p), 0)
            else HasPrefix(p, n + "/")
  {
    assert TrimSlash(n + "/") == n;
    assert HasWildcard(n + "/") <==> HasWildcard(n);
    if EndsInSlash(n) {
      SplitAtEnd(TrimSlash(n));
      assert n == TrimSlash(n) + "/";
    } else if !HasWildcard(n) {
      FastPathAgrees(p, n + "/");
      FastPathAgrees(p, n);
    }
  }

  /** A Windows drive prefix is the case in point. */
  lemma DriveDirectoryIsNotCovered()
    ensures MatchPathPrefix("C:/a", "C:/a") && MatchPathPrefix("C:\\a", "C:/a")
    ensures !MatchPathPrefix("C:/a", "C:/a/") && !MatchPathPrefix("C:\\a", "C:\\a\\")
  {
    assert Normalize("C:\\a") == "C:/a" && Normalize("C:/a") == "C:/a";
    assert Normalize("C:/a/") == "C:/a/" && Normalize("C:\\a\\") == "C:/a/";
    assert |"C:/a"| == 4 && |"C:/a/"| == 5;
  }

  // ----- the cap that validation puts on `**` -----

  lemma {:induction false} DeepConcat(a: Parts, b: Parts)
    ensures DeepCount(a + b) == DeepCount(a) + DeepCount(b)
    decreases |a|
  {
    if a == [] {
      assert a + b == b;
    } else {
      assert (a + b)[1..] == a[1..] + b;
      DeepConcat(a[1..], b);
    }
  }

  lemma {:induction false} ResolveAddsNoDeep(parts: Parts, kept: Parts)
    ensures DeepCount(Resolve(parts, kept)) <= DeepCount(kept) + DeepCount(parts)
    decreases |parts|
  {
    if parts != [] {
      if parts[0] == "" || parts[0] == "." {
        ResolveAddsNoDeep(parts[1..], kept);
      } else if parts[0] == ".." {
        var fewer := if kept == [] then [] else kept[..|kept| - 1];
        ResolveAddsNoDeep(parts[1..], fewer);
        if kept != [] {
          assert kept == fewer + [kept[|kept| - 1]];
          DeepConcat(fewer, [kept[|kept| - 1]]);
        }
      } else {
        ResolveAddsNoDeep(parts[1..], kept + [parts[0]]);
        DeepConcat(kept, [parts[0]]);
        assert [parts[0]][1..] == [];
      }
    }
  }

  lemma TrimAddsNoDeep(s: string)
    ensures DeepCount(Split(TrimSlash(s))) == DeepCount(Split(s))
  {
    if EndsInSlash(s) {
      var q := TrimSlash(s);
      assert s == q + "/";
      SplitAtEnd(q);
      DeepConcat(Split(q), [""]);
      assert [""][1..] == [];
    }
  }

  /** Preparing a prefix adds no `**` to those the slashes of its normal form
      separate. */
  lemma PreparedAddsNoDeep(prefix: string)
    ensures DeepCount(MatchedParts(prefix)) <= DeepCount(Split(Normalize(prefix)))
  {
    var n := Normalize(prefix);
    TrimAddsNoDeep(Prepared(prefix));
    if Rooted(n) {
      CleanedParts(n);
      var kept := Resolve(Split(n), []);
      ResolveAddsNoDeep(Split(n), []);
      if kept == [] {
        RootParts();
      } else {
        assert ([""] + kept)[1..] == kept;
      }
    }
  }

  lemma RootParts()
    ensures DeepCount(Split("/")) == 0
  {
    RootSplit();
    assert ["", ""][1..] == [""] && [""][1..] == [];
  }

  /** Of a prefix that is not absolute, it takes none away either. */
  lemma RelativeKeepsDeep(prefix: string)
    requires !Rooted(Normalize(prefix))
    ensures DeepCount(MatchedParts(prefix)) == DeepCount(Split(Normalize(prefix)))
  {
    TrimAddsNoDeep(Prepared(prefix));
  }

  /** A prefix with at most two `**` in its normal form costs at most (n + 2)^2
      calls against n components. */
  lemma ValidatedIsQuadratic(prefix: string, x: Parts)
    requires DeepCount(Split(Normalize(prefix))) <= MAX_DEEP_GLOBS
    ensures Calls(MatchedParts(prefix), x, 0) <= (|x| + 2) * (|x| + 2)
  {
    PreparedAddsNoDeep(prefix);
    var p := MatchedParts(prefix);
    assert p[0..] == p;
    CallsBound(p, x, 0);
    PowerOf(|x| + 2, DeepCount(p));
  }

  lemma PowerOf(n: nat, d: nat)
    requires n > 0 && d <= 2
    ensures Power(n, d) <= n * n
  {
    assert Power(n, 0) == 1 && Power(n, 1) == n * 1 && Power(n, 2) == n * Power(n, 1);
    Products(1, n, 1, n);
    Products(1, n, n, n);
  }

  /** d times `**` and a last component z, between separators. */
  function DeepPath(separator: char, d: nat): string {
    if d == 0 then "z" else "**" + [separator] + DeepPath(separator, d - 1)
  }

  lemma {:induction false} DeepPathParts(d: nat)
    ensures Split(DeepPath('/', d)) == Deeps(d, "z") && DeepCount(Deeps(d, "z")) == d
    decreases d
  {
    hide Split, DeepCount;
    if d == 0 {
      SplitAlone("z");
      OneDeep("z", []);
    } else {
      var s := DeepPath('/', d - 1);
      DeepPathParts(d - 1);
      SplitCons(DEEP, s);
      assert DeepPath('/', d) == DEEP + "/" + s;
      OneDeep(DEEP, Deeps(d - 1, "z"));
    }
  }

  lemma OneDeep(a: string, rest: Parts)
    ensures DeepCount([a] + rest) == (if a == DEEP then 1 else 0) + DeepCount(rest) && DeepCount([]) == 0
    ensures rest == [] ==> [a] + rest == [a]
  {
    assert ([a] + rest)[1..] == rest;
  }

  lemma {:induction false} DeepPathTurns(d: nat)
    ensures ForwardSlashes(DeepPath('\\', d)) == DeepPath('/', d) && '/' !in DeepPath('\\', d)
    ensures !EndsInSlash(DeepPath('/', d)) && DeepPath('/', d) != ""
    decreases d
  {
    if d > 0 {
      DeepPathTurns(d - 1);
      assert ForwardSlashes("**\\" + DeepPath('\\', d - 1)) == "**/" + DeepPath('/', d - 1);
    }
  }

  /** A drive path with d times `**`, written with backslashes. */
  function Hidden(d: nat): string {
    "C:\\" + DeepPath('\\', d)
  }

  lemma HiddenParts(d: nat)
    ensures DrivePath(Hidden(d)) && DeepCount(Split(Hidden(d))) == 0
    ensures MatchedParts(Hidden(d)) == ["C:"] + Deeps(d, "z")
    ensures DeepCount(Split(Normalize(Hidden(d)))) == d
  {
    DeepPathParts(d);
    DeepPathTurns(d);
    var s, b := DeepPath('/', d), DeepPath('\\', d);
    hide DeepPath, Deeps, Split, DeepCount;
    OnePart(Hidden(d));
    var n := "C:/" + s;
    assert ForwardSlashes(Hidden(d)) == n;
    assert Normalize(Hidden(d)) == n && !Rooted(n) && n[|n| - 1] == s[|s| - 1];
    SplitCons("C:", s);
    assert n == "C:" + "/" + s;
    DeepCons("C:", s);
  }

  lemma DeepCons(a: string, b: string)
    requires '/' !in a
    ensures DeepCount(Split(a + "/" + b)) == (if a == DEEP then 1 else 0) + DeepCount(Split(b))
  {
    hide Split;
    SplitCons(a, b);
    assert ([a] + Split(b))[1..] == Split(b);
  }

  lemma OnePart(s: string)
    requires '/' !in s && s != DEEP
    ensures DeepCount(Split(s)) == 0
  {
    FirstSlashIs(s, |s|);
    assert [s][1..] == [];
  }

  /** Written with backslashes, a drive path hides any number of `**` from the cap.
      Against n components that begin with its drive and do not hold z, it makes
      as many calls as there are ways to choose d of n + d + 1, which from three
      `**` on is more than the cap allows for. */
  lemma BackslashesHideFromTheCap(d: nat, x: Parts)
    requires d > 0 && x != [] && x[0] == "C:" && "z" !in x
    ensures DeepCount(Split(Hidden(d))) == 0 && DeepCount(MatchedParts(Hidden(d))) == d
    ensures Calls(MatchedParts(Hidden(d)), x, 0) == Choose(|x| + d + 1, d)
    ensures d > MAX_DEEP_GLOBS ==> Calls(MatchedParts(Hidden(d)), x, 0) > (|x| + 2) * (|x| + 2)
  {
    hide Hidden, Split, Deeps, DeepCount, Choose, Calls, MatchedParts, Normalize;
    HiddenParts(d);
    DeepPathParts(d);
    DeepOfDrive(d);
    DeepsCost(d, "z", x);
    DriveFirst(d, x);
    if d > MAX_DEEP_GLOBS {
      ThreeExceedTheSquare(|x|, d);
    }
  }

  lemma DeepOfDrive(d: nat)
    ensures DeepCount(["C:"] + Deeps(d, "z")) == DeepCount(Deeps(d, "z"))
  {
    assert (["C:"] + Deeps(d, "z"))[1..] == Deeps(d, "z");
  }

  lemma DriveFirst(d: nat, x: Parts)
    requires d > 0 && x != [] && x[0] == "C:"
    ensures Calls(["C:"] + Deeps(d, "z"), x, 0) == Calls(Deeps(d, "z"), x, 0)
  {
    var p := ["C:"] + Deeps(d, "z");
    assert Component(p[0], x[0]);
    assert p[1] == DEEP && p[2..] == Deeps(d, "z")[1..] && |p| == |Deeps(d, "z")| + 1;
  }

  /** Every drive prefix with d times `**` in its normal form keeps to (n + 2)^2
      calls on every path. */
  ghost predicate DrivesAreQuadratic(d: nat) {
    forall prefix: string, x: Parts ::
      DrivePath(prefix) && DeepCount(Split(prefix)) <= MAX_DEEP_GLOBS && DeepCount(Split(Normalize(prefix))) == d ==>
        Calls(MatchedParts(prefix), x, 0) <= (|x| + 2) * (|x| + 2)
  }

  /** Of the drive prefixes that validation accepts, exactly those numbers of `**`
      in the normal form are safe that the cap was meant to allow. */
  lemma QuadraticExactlyUpToTheCap(d: nat)
    ensures DrivesAreQuadratic(d) <==> d <= MAX_DEEP_GLOBS
  {
    if d <= MAX_DEEP_GLOBS {
      forall prefix: string, x: Parts | DeepCount(Split(Normalize(prefix))) == d
        ensures Calls(MatchedParts(prefix), x, 0) <= (|x| + 2) * (|x| + 2)
      {
        ValidatedIsQuadratic(prefix, x);
      }
    } else {
      HiddenParts(d);
      BackslashesHideFromTheCap(d, ["C:"]);
    }
  }

  /** The number of `**` is how often that component stands in the list. */
  lemma {:induction false} DeepCountIs(p: Parts)
    ensures DeepCount(p) == multiset(p)["**"]
    decreases |p|
  {
    if p != [] {
      DeepCountIs(p[1..]);
      assert p == [p[0]] + p[1..];
    }
  }

  /** capWildcardCount. */
  method CapWildcardCount(prefix: string) returns (ok: bool)
    ensures ok <==> DeepCount(Split(prefix)) <= MAX_DEEP_GLOBS
    ensures ok <==> multiset(Split(prefix))["**"] <= 2
  {
    DeepCountIs(Split(prefix));
    var segments := Split(prefix);
    var count, k := 0, 0;
    assert segments[0..] == segments;
    while k < |segments|
      invariant k <= |segments| && count + DeepCount(segments[k..]) == DeepCount(segments)
    {
      DeepCountFrom(segments, k);
      if segments[k] == DEEP {
        count := count + 1;
      }
      k := k + 1;
    }
    return count <= MAX_DEEP_GLOBS;
  }
}
