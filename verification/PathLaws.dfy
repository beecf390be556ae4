/** Path matching in plain terms: these laws name no component test, splitting,
    cleaning or counting function without saying what it does. */
module PathLaws {
  import opened PathMatch
  import opened PathPrefix

  // ----- components -----

  /** A pattern without `**` matches when each of its components does, in place:
      `*` any that is not empty, every other exactly itself. */
  lemma MatchesInPlace(p: Parts, x: Parts)
    requires "**" !in p
    ensures Matches(p, x, 0) <==>
              |p| <= |x| && forall k :: 0 <= k < |p| ==> if p[k] == "*" then x[k] != "" else x[k] == p[k]
  {
    hide Matches;
    ShallowMatches(p, x, 0);
  }

  /** With one, what comes before it matches in place and what comes after it the
      rest of the path from anywhere on, the front included. */
  lemma MatchesAroundDeep(head: Parts, tail: Parts, x: Parts)
    requires "**" !in head
    ensures Matches(head + ["**"] + tail, x, 0) <==> Matches(head, x, 0) && exists k :: 0 <= k <= |x| && Matches(tail, x[k..], 0)
  {
    hide Matches;
    ShallowMatches(head, x, 0);
    MatchesAfter(head, tail, x, 0);
  }

  /** What is documented differs in one thing: from where the head ends. */
  lemma DocumentedAroundDeep(head: Parts, tail: Parts, x: Parts)
    requires "**" !in head
    ensures Documented(head, x) <==>
              |head| <= |x| && forall k :: 0 <= k < |head| ==> if head[k] == "*" then x[k] != "" else x[k] == head[k]
    ensures Documented(head + ["**"] + tail, x) <==>
              Documented(head, x) && exists k :: |head| <= k <= |x| && Documented(tail, x[k..])
  {
    hide Documented;
    ShallowDocumented(head, x);
    DocumentedAfter(head, tail, x);
  }

  // ----- strings -----

  function WithSlashes(parts: Parts): string
    requires parts != []
  {
    if |parts| == 1 then parts[0] else parts[0] + "/" + WithSlashes(parts[1..])
  }

  /** Splitting gives the pieces between the slashes, empty ones included. */
  lemma {:induction false} SplitIsBetweenSlashes(s: string)
    ensures WithSlashes(Split(s)) == s && forall k :: 0 <= k < |Split(s)| ==> '/' !in Split(s)[k]
    decreases |s|
  {
    SplitHasNoSlash(s);
    var k := FirstSlash(s);
    if k < |s| {
      SplitIsBetweenSlashes(s[k + 1..]);
      var more := Split(s[k + 1..]);
      assert ([s[..k]] + more)[1..] == more;
      assert s[..k] + "/" + s[k + 1..] == s;
    }
  }

  /** A prefix without wildcards, in its final form, covers the path that it is
      and every path that goes on after it with a slash; one that ends in a slash
      already needs no other. */
  lemma LiteralCovers(path: string, prefix: string)
    requires '*' !in prefix
    ensures MatchPrepared(path, prefix) <==>
              && |prefix| <= |path| && path[..|prefix|] == prefix
              && (|path| == |prefix| || path[|prefix|] == '/' || (prefix != "" && prefix[|prefix| - 1] == '/'))
  {
    assert HasPrefix(path, prefix) && |path| == |prefix| ==> path == prefix;
  }

  /** One with a wildcard is matched component by component, less a last slash. */
  lemma WildcardCovers(path: string, prefix: string)
    requires '*' in prefix
    ensures prefix[|prefix| - 1] != '/' ==> (MatchPrepared(path, prefix) <==> Matches(Split(prefix), Split(path), 0))
    ensures prefix[|prefix| - 1] == '/' ==>
              (MatchPrepared(path, prefix) <==> Matches(Split(prefix[..|prefix| - 1]), Split(path), 0))
  {
    hide Matches, Split;
  }

  // ----- Windows paths -----

  /** Backslashes count as slashes in a path that starts with a drive letter, a
      colon and either slash, or with two backslashes; in any other they are
      ordinary. */
  lemma NormalForm(s: string)
    ensures var shaped := (|s| >= 3 && ('A' <= s[0] <= 'Z' || 'a' <= s[0] <= 'z') && s[1] == ':' && (s[2] == '\\' || s[2] == '/'))
                          || (|s| >= 2 && s[0] == '\\' && s[1] == '\\');
            && |Normalize(s)| == |s|
            && forall k :: 0 <= k < |s| ==> Normalize(s)[k] == if shaped && s[k] == '\\' then '/' else s[k]
  {
  }

  /** The path is compared in that form, the prefix cleaned as well when it is
      then absolute. */
  lemma OperandsArePrepared(path: string, prefix: string)
    ensures var n := Normalize(prefix);
            MatchPathPrefix(path, prefix) <==>
            MatchPrepared(Normalize(path), if |n| > 0 && n[0] == '/' then CleanRooted(n) else n)
  {
    hide Normalize, CleanRooted, MatchPrepared;
  }

  // ----- cleaning -----

  predicate StartsAfresh(r: string) {
    r == "" || r[0] == '/'
  }

  lemma {:induction false} SplitJoin(a: string, b: string)
    ensures Split(a + "/" + b) == Split(a) + Split(b)
    decreases |a|
  {
    hide Split;
    SplitAt(a);
    var k := FirstSlash(a);
    if k == |a| {
      SplitCons(a, b);
    } else {
      var c, d := a[..k], a[k + 1..];
      assert '/' !in c;
      hide FirstSlash;
      assert a == c + "/" + d && a + "/" + b == c + "/" + (d + "/" + b);
      SplitCons(c, d + "/" + b);
      SplitJoin(d, b);
      assert [c] + (Split(d) + Split(b)) == [c] + Split(d) + Split(b);
    }
  }

  lemma SplitAt(a: string)
    ensures var k := FirstSlash(a); Split(a) == if k == |a| then [a] else [a[..k]] + Split(a[k + 1..])
  {
    hide FirstSlash;
  }

  /** l, a slash, one component, and r. */
  lemma SplitAround(l: string, c: string, r: string)
    requires '/' !in c && StartsAfresh(r)
    ensures Split(l + "/" + c + r) == Split(l) + [c] + (if r == "" then [] else Split(r[1..]))
    ensures Split(l + r) == Split(l) + (if r == "" then [] else Split(r[1..]))
  {
    hide Split;
    SplitAlone(c);
    if r == "" {
      assert l + "/" + c + r == l + "/" + c && l + r == l;
      SplitJoin(l, c);
    } else {
      var d := r[1..];
      assert r == "/" + d && l + "/" + c + r == l + "/" + (c + "/" + d) && l + r == l + "/" + d;
      SplitJoin(l, c + "/" + d);
      SplitCons(c, d);
      SplitJoin(l, d);
    }
  }

  lemma {:induction false} ResolveJoin(a: Parts, b: Parts, kept: Parts)
    ensures Resolve(a + b, kept) == Resolve(b, Resolve(a, kept))
    decreases |a|
  {
    if a == [] {
      assert a + b == b;
    } else {
      assert (a + b)[1..] == a[1..] + b;
      ResolveJoin(a[1..], b, if a[0] == "" || a[0] == "." then kept
                             else if a[0] == ".." then if kept == [] then [] else kept[..|kept| - 1]
                             else kept + [a[0]]);
    }
  }

  lemma ResolveOne(c: string, kept: Parts)
    ensures Resolve([c], kept) == if c == "" || c == "." then kept
                                  else if c == ".." then if kept == [] then [] else kept[..|kept| - 1]
                                  else kept + [c]
  {
    assert [c][1..] == [];
  }

  /** Components that come to nothing can go. */
  lemma CleanSkips(l: string, c: string, r: string)
    requires (c == "" || c == ".") && StartsAfresh(r)
    ensures CleanRooted(l + "/" + c + r) == CleanRooted(l + r)
  {
    hide Split, Resolve, JoinSlash;
    SplitAround(l, c, r);
    var more := if r == "" then [] else Split(r[1..]);
    ResolveJoin(Split(l) + [c], more, []);
    ResolveJoin(Split(l), [c], []);
    ResolveOne(c, Resolve(Split(l), []));
    ResolveJoin(Split(l), more, []);
  }

  /** Cleaning drops an empty component and a dot, takes a component back with two
      dots, and drops those at the root; a path of other components it keeps. */
  lemma CleaningIs(l: string, c: string, r: string)
    requires StartsAfresh(r)
    ensures CleanRooted(l + "/" + r) == CleanRooted(l + r)
    ensures CleanRooted(l + "/." + r) == CleanRooted(l + r)
    ensures CleanRooted("/.." + r) == CleanRooted(r)
    ensures '/' !in c && c != "" && c != "." && c != ".." ==> CleanRooted(l + "/" + c + "/.." + r) == CleanRooted(l + r)
  {
    hide CleanRooted;
    CleanSkips(l, "", r);
    assert l + "/" + "" + r == l + "/" + r;
    CleanSkips(l, ".", r);
    assert l + "/" + "." + r == l + "/." + r;
    CleanAtRoot(r);
    if '/' !in c && c != "" && c != "." && c != ".." {
      CleanTakesBack(l, c, r);
    }
  }

  lemma CleanAtRoot(r: string)
    requires StartsAfresh(r)
    ensures CleanRooted("/.." + r) == CleanRooted(r)
  {
    hide Split, Resolve, JoinSlash;
    var more := if r == "" then [] else Split(r[1..]);
    SplitAround("", "..", r);
    SplitAlone("");
    assert "" + "/" + ".." + r == "/.." + r && "" + r == r;
    ResolveJoin([""] + [".."], more, []);
    ResolveJoin([""], [".."], []);
    ResolveOne("", []);
    ResolveOne("..", []);
    ResolveJoin([""], more, []);
  }

  lemma CleanTakesBack(l: string, c: string, r: string)
    requires StartsAfresh(r) && '/' !in c && c != "" && c != "." && c != ".."
    ensures CleanRooted(l + "/" + c + "/.." + r) == CleanRooted(l + r)
  {
    hide Split, Resolve, JoinSlash;
    var more, kept := if r == "" then [] else Split(r[1..]), Resolve(Split(l), []);
    SplitAround(l + "/" + c, "..", r);
    assert l + "/" + c + "/" + ".." + r == l + "/" + c + "/.." + r;
    SplitJoin(l, c);
    SplitAlone(c);
    SplitAround(l, c, r);
    ResolveJoin(Split(l) + [c] + [".."], more, []);
    ResolveJoin(Split(l) + [c], [".."], []);
    ResolveJoin(Split(l), [c], []);
    ResolveOne(c, kept);
    ResolveOne("..", kept + [c]);
    assert (kept + [c])[..|kept|] == kept;
    ResolveJoin(Split(l), more, []);
  }

  predicate Settled(parts: Parts) {
    forall k :: 0 <= k < |parts| ==> parts[k] != "" && parts[k] != "." && parts[k] != ".." && '/' !in parts[k]
  }

  lemma {:induction false} ResolveKeeps(parts: Parts, kept: Parts)
    requires Settled(parts)
    ensures Resolve(parts, kept) == kept + parts
    decreases |parts|
  {
    if parts != [] {
      ResolveKeeps(parts[1..], kept + [parts[0]]);
      assert kept + [parts[0]] + parts[1..] == kept + parts;
    }
  }

  /** Such a path stays as it is, and the bare root too. */
  lemma CleanIsKept(parts: Parts)
    requires Settled(parts)
    ensures parts != [] ==> CleanRooted("/" + WithSlashes(parts)) == "/" + WithSlashes(parts)
    ensures CleanRooted("/") == "/"
  {
    RootIsClean();
    if parts != [] {
      hide Resolve, Split;
      JoinIsWithSlashes(parts);
      forall k | 0 <= k < |parts|
        ensures PlainComponent(parts[k])
      {
        assert parts[k] != "";
      }
      JoinEnds(parts);
      var s := "/" + JoinSlash(parts);
      SplitCons("", JoinSlash(parts));
      assert "" + "/" + JoinSlash(parts) == s;
      ResolveJoin([""], parts, []);
      ResolveOne("", []);
      ResolveKeeps(parts, []);
      assert [] + parts == parts;
    }
  }

  lemma {:induction false} JoinIsWithSlashes(parts: Parts)
    requires parts != []
    ensures JoinSlash(parts) == WithSlashes(parts)
    decreases |parts|
  {
    if |parts| > 1 {
      JoinIsWithSlashes(parts[1..]);
    }
  }
}
