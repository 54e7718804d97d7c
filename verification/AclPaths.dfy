/** Which grant covers a path: the ancestor walk and the scan it replaces. */
module AclPaths {
  import opened Tilings

  /** A permission set, one bit each. */
  type Perms = bv3

  const READ: Perms := 1
  const WRITE: Perms := 2
  const PROPOSE: Perms := 4
  const NONE: Perms := 0

  /** A grant as stored. */
  datatype Grant = Grant(prefix: string, perms: Perms)

  // ----- scope roots

  function TrimStart(s: string, drop: char -> bool): string {
    if s != "" && drop(s[0]) then TrimStart(s[1..], drop) else s
  }

  function TrimEnd(s: string, drop: char -> bool): string {
    if s != "" && drop(s[|s|-1]) then TrimEnd(s[..|s|-1], drop) else s
  }

  predicate IsSlash(c: char) { c == '/' }

  /** Some component between slashes is "..". */
  predicate ClimbsOut(s: string) {
    exists i: nat | i < |s| :: DotDotAt(s, i)
  }

  predicate DotDotAt(s: string, i: nat) {
    && i + 2 <= |s| && s[i] == '.' && s[i + 1] == '.'
    && (i == 0 || s[i - 1] == '/') && (i + 2 == |s| || s[i + 2] == '/')
  }

  /** The root a prefix is read as; `None` when it is refused. */
  function ScopeRoot(isSpace: char -> bool, prefix: string): Option<string> {
    var trimmed := TrimEnd(TrimStart(prefix, isSpace), isSpace);
    if trimmed != "" && trimmed[0] != '/' then None
    else
      var root := TrimEnd(trimmed, IsSlash);
      if ClimbsOut(root) || '\0' in root then None else Some(root)
  }

  /** A root covers itself and what continues it after a slash; the empty one covers
      everything. */
  predicate Covers(root: string, path: string) {
    root == "" || path == root || (root < path && path[|root|] == '/')
  }

  // ----- roots and coverage, told by the components between slashes

  ghost function Parts(s: string): (r: seq<string>)
    ensures r != []
  {
    if s == "" then [""]
    else
      var rest := Parts(s[1..]);
      if s[0] == '/' then [""] + rest else [[s[0]] + rest[0]] + rest[1..]
  }

  /** A root covers the paths that begin with its components. */
  lemma {:induction false} CoversByParts(root: string, path: string)
    requires root != "" || path == "" || path[0] == '/'
    ensures Covers(root, path) <==> Parts(root) <= Parts(path)
    decreases |root|
  {
    if root == "" {
      assert Parts(root) == [""];
    } else if path != "" && root[0] == path[0] && root[1..] != "" {
      CoversByParts(root[1..], path[1..]);
      CoversTail(root, path);
      PartsTail(root, path);
    } else {
      CoversShort(root, path);
      PartsShort(root, path);
    }
  }

  lemma CoversTail(root: string, path: string)
    requires root != "" && path != "" && root[0] == path[0] && root[1..] != ""
    ensures Covers(root, path) <==> Covers(root[1..], path[1..])
  {
    assert root == [root[0]] + root[1..] && path == [path[0]] + path[1..];
    if root < path {
      assert path[1..][..|root| - 1] == path[..|root|][1..];
    }
    if root[1..] < path[1..] {
      assert path[..|root|] == [path[0]] + path[1..][..|root| - 1];
    }
  }

  lemma PartsTail(root: string, path: string)
    requires root != "" && path != "" && root[0] == path[0]
    ensures Parts(root) <= Parts(path) <==> Parts(root[1..]) <= Parts(path[1..])
  {
    var a, b := Parts(root[1..]), Parts(path[1..]);
    if root[0] == '/' {
      assert Parts(root)[1..] == a && Parts(path)[1..] == b;
      assert a <= b ==> [""] + a <= [""] + b;
    } else {
      HeadsApart(root[0], a, b);
    }
  }

  lemma HeadsApart(c: char, a: seq<string>, b: seq<string>)
    requires a != [] && b != []
    ensures [[c] + a[0]] + a[1..] <= [[c] + b[0]] + b[1..] <==> a <= b
  {
    var x, y := [[c] + a[0]] + a[1..], [[c] + b[0]] + b[1..];
    if x <= y {
      assert x[0] == y[0] && ([c] + a[0])[1..] == a[0] && ([c] + b[0])[1..] == b[0];
      forall i | 0 <= i < |a| ensures a[i] == b[i] {
        if i > 0 {
          assert x[i] == a[i] && y[i] == b[i];
        }
      }
    }
    if a <= b {
      forall i | 0 <= i < |x| ensures x[i] == y[i] {
        if i > 0 {
          assert a[i] == b[i];
        }
      }
    }
  }

  lemma CoversShort(root: string, path: string)
    requires root != "" && (path == "" || root[0] != path[0] || |root| == 1)
    ensures Covers(root, path) <==> path != "" && root[0] == path[0] && (|path| == 1 || path[1] == '/')
  {
    if path != "" && root[0] == path[0] && |root| == 1 {
      assert root == path[..1];
    }
  }

  lemma PartsShort(root: string, path: string)
    requires root != "" && (path == "" || root[0] != path[0] || |root| == 1)
    ensures Parts(root) <= Parts(path) <==> path != "" && root[0] == path[0] && (|path| == 1 || path[1] == '/')
  {
    hide Parts;
    if path == "" || root[0] != path[0] {
      PartsApart(root, path);
    } else {
      assert root[1..] == "";
      PartsTail(root, path);
      NoParts();
      FirstPart(path[1..]);
    }
  }

  lemma NoParts()
    ensures Parts("") == [""]
  {
  }

  lemma PartsApart(root: string, path: string)
    requires root != "" && (path == "" || root[0] != path[0])
    ensures !(Parts(root) <= Parts(path))
  {
    FirstPart(root);
    FirstPart(path);
    if root[0] == '/' {
      assert Parts(root) == [""] + Parts(root[1..]);
    }
    var sameFirst := Parts(root)[0] == Parts(path)[0];
  }

  /** The first component reaches to the first slash, or to the end. */
  lemma {:induction false} FirstPart(s: string)
    ensures var p := Parts(s)[0];
      p <= s && '/' !in p && (|p| < |s| ==> s[|p|] == '/')
    ensures [""] <= Parts(s) <==> s == "" || s[0] == '/'
    decreases |s|
  {
    if s != "" && s[0] != '/' {
      FirstPart(s[1..]);
      assert s == [s[0]] + s[1..];
    }
  }

  /** The components after the first that are "..", by position and in the list. */
  ghost predicate LaterDots(s: string) {
    exists i: nat | 0 < i < |s| :: DotDotAt(s, i)
  }

  lemma {:induction false} LaterDotsByParts(s: string)
    ensures LaterDots(s) <==> ".." in Parts(s)[1..]
    ensures Parts(s)[0] == ".." <==> s != "" && DotDotAt(s, 0)
    decreases |s|
  {
    if s == "" {
    } else {
      LaterDotsByParts(s[1..]);
      FirstDots(s);
      DotsShift(s);
      var rest := Parts(s[1..]);
      if s[0] == '/' {
        assert Parts(s)[1..] == rest && rest == [rest[0]] + rest[1..];
        assert s[1..] == "" ==> rest == [""];
      } else {
        assert Parts(s)[1..] == rest[1..];
      }
    }
  }

  /** Whether the first component is "..". */
  lemma FirstDots(s: string)
    requires s != ""
    ensures Parts(s)[0] == ".." <==> DotDotAt(s, 0)
  {
    hide Parts;
    FirstPart(s);
    var p := Parts(s)[0];
    if DotDotAt(s, 0) {
      assert |p| >= 2;
      NoSlashIn(p, s, 2);
      assert p == [s[0], s[1]];
    }
  }

  lemma NoSlashIn(p: string, s: string, i: nat)
    requires p <= s && '/' !in p && (i < |s| ==> s[i] == '/')
    ensures |p| <= i || i >= |s|
  {
    if i < |p| {
      var c := p[i];
    }
  }

  lemma DotsShift(s: string)
    requires s != ""
    ensures LaterDots(s) <==> LaterDots(s[1..]) || (s[0] == '/' && s[1..] != "" && DotDotAt(s[1..], 0))
  {
    var t := s[1..];
    forall i: nat | 0 < i < |t| ensures DotDotAt(s, i + 1) <==> DotDotAt(t, i) {
    }
    assert t != "" ==> (DotDotAt(s, 1) <==> s[0] == '/' && DotDotAt(t, 0));
    if i: nat :| 0 < i < |s| && DotDotAt(s, i) {
      if i > 1 {
        assert DotDotAt(t, i - 1);
      }
    }
    if i: nat :| 0 < i < |t| && DotDotAt(t, i) {
      assert DotDotAt(s, i + 1);
    }
  }

  lemma ClimbsOutByParts(s: string)
    ensures ClimbsOut(s) <==> ".." in Parts(s)
  {
    LaterDotsByParts(s);
    assert Parts(s) == [Parts(s)[0]] + Parts(s)[1..];
    if s != "" && DotDotAt(s, 0) {
      assert ClimbsOut(s);
    }
    if i: nat :| i < |s| && DotDotAt(s, i) {
      assert i == 0 || LaterDots(s);
    }
    if LaterDots(s) {
      var i: nat :| 0 < i < |s| && DotDotAt(s, i);
      assert ClimbsOut(s);
    }
  }

  /** Slashes at the end add empty components only, and no other character. */
  lemma {:induction false} TrailingSlashes(s: string)
    ensures ".." in Parts(TrimEnd(s, IsSlash)) <==> ".." in Parts(s)
    ensures '\0' in TrimEnd(s, IsSlash) <==> '\0' in s
    decreases |s|
  {
    if s != "" && s[|s|-1] == '/' {
      TrailingSlashes(s[..|s|-1]);
      assert s == s[..|s|-1] + "/";
      OneMoreSlash(s[..|s|-1]);
    }
  }

  lemma {:induction false} OneMoreSlash(s: string)
    ensures Parts(s + "/") == Parts(s) + [""]
    decreases |s|
  {
    if s == "" {
      assert ("" + "/")[1..] == "";
    } else {
      assert (s + "/")[1..] == s[1..] + "/";
      OneMoreSlash(s[1..]);
    }
  }

  /** A prefix is accepted exactly when, without the spaces around it, it is empty or begins
      with a slash, no component of it is "..", and it holds no NUL. */
  lemma AcceptedIff(isSpace: char -> bool, prefix: string)
    ensures var trimmed := TrimEnd(TrimStart(prefix, isSpace), isSpace);
      ScopeRoot(isSpace, prefix).Some?
      <==> (trimmed == "" || trimmed[0] == '/') && ".." !in Parts(trimmed) && '\0' !in trimmed
  {
    hide ClimbsOut, Parts, TrimStart, TrimEnd;
    var trimmed := TrimEnd(TrimStart(prefix, isSpace), isSpace);
    ClimbsOutByParts(TrimEnd(trimmed, IsSlash));
    TrailingSlashes(trimmed);
  }

  // ----- the scan: every grant tried, the longest root kept, a later one on a tie

  datatype Match = Match(root: string, perms: Perms)

  function Scan(isSpace: char -> bool, grants: seq<Grant>, path: string): Option<Match> {
    if grants == [] then None
    else
      var last := grants[|grants|-1];
      var best := Scan(isSpace, grants[..|grants|-1], path);
      var root := ScopeRoot(isSpace, last.prefix);
      if root.Some? && Covers(root.value, path) && (best.None? || |root.value| >= |best.value.root|)
      then Some(Match(root.value, last.perms)) else best
  }

  ghost predicate Grants(isSpace: char -> bool, grants: seq<Grant>, path: string, i: nat)
    requires i < |grants|
  {
    var root := ScopeRoot(isSpace, grants[i].prefix);
    root.Some? && Covers(root.value, path)
  }

  /** The scan finds nothing exactly when no grant covers the path. What it finds is a
      covering grant's: no covering grant has a longer root, and none with the same root
      was made later. */
  lemma {:induction false} ScanFindsLongest(isSpace: char -> bool, grants: seq<Grant>, path: string)
    returns (at: nat)
    ensures Scan(isSpace, grants, path).None? <==> forall i | 0 <= i < |grants| :: !Grants(isSpace, grants, path, i)
    ensures Scan(isSpace, grants, path).Some? ==>
      var best := Scan(isSpace, grants, path).value;
      && at < |grants| && Grants(isSpace, grants, path, at)
      && ScopeRoot(isSpace, grants[at].prefix) == Some(best.root) && grants[at].perms == best.perms
      && forall i | 0 <= i < |grants| && Grants(isSpace, grants, path, i) ::
           var root := ScopeRoot(isSpace, grants[i].prefix).value;
           |root| < |best.root| || (root == best.root && i <= at)
    decreases |grants|
  {
    hide ScopeRoot, Covers;
    at := 0;
    if grants != [] {
      var n, init := |grants| - 1, grants[..|grants|-1];
      at := ScanFindsLongest(isSpace, init, path);
      assert forall i | 0 <= i < n :: Grants(isSpace, grants, path, i) <==> Grants(isSpace, init, path, i);
      var earlier := Scan(isSpace, init, path);
      if Grants(isSpace, grants, path, n) {
        var root := ScopeRoot(isSpace, grants[n].prefix).value;
        if earlier.None? || |root| >= |earlier.value.root| {
          at := n;
          if earlier.Some? && |root| == |earlier.value.root| {
            SameLengthSameRoot(root, earlier.value.root, path);
          }
        }
      }
    }
  }

  // ----- the index and the walk

  /** The grants by root; those that cannot be read are dropped. */
  function ByRoot(isSpace: char -> bool, grants: seq<Grant>): map<string, Perms> {
    if grants == [] then map[]
    else
      var last := grants[|grants|-1];
      var rest := ByRoot(isSpace, grants[..|grants|-1]);
      var root := ScopeRoot(isSpace, last.prefix);
      if root.Some? then rest[root.value := last.perms] else rest
  }

  ghost predicate Wins(byRoot: map<string, Perms>, path: string, root: string) {
    && root in byRoot && Covers(root, path)
    && forall other | other in byRoot && Covers(other, path) :: |other| <= |root|
  }

  ghost function Matched(byRoot: map<string, Perms>, path: string): Option<Perms> {
    if exists root :: Wins(byRoot, path, root)
    then
      var root :| Wins(byRoot, path, root);
      Some(byRoot[root])
    else None
  }

  function LastSlash(s: string): (r: Option<nat>)
    ensures r.Some? ==> r.value < |s| && s[r.value] == '/' && forall k | r.value < k < |s| :: s[k] != '/'
    ensures r.None? ==> forall k | 0 <= k < |s| :: s[k] != '/'
  {
    if s == "" then None
    else if s[|s|-1] == '/' then Some(|s|-1)
    else LastSlash(s[..|s|-1])
  }

  lemma CoversPrefix(root: string, path: string)
    requires Covers(root, path)
    ensures root <= path
  {
  }

  /** Two covering roots of one length are one root. */
  lemma SameLengthSameRoot(a: string, b: string, path: string)
    requires Covers(a, path) && Covers(b, path) && |a| == |b|
    ensures a == b
  {
    CoversPrefix(a, path);
    CoversPrefix(b, path);
    assert a == path[..|a|] && b == path[..|b|];
  }

  lemma WinnerIsMatched(byRoot: map<string, Perms>, path: string, root: string)
    requires Wins(byRoot, path, root)
    ensures Matched(byRoot, path) == Some(byRoot[root])
  {
    forall w | Wins(byRoot, path, w) ensures w == root {
      SameLengthSameRoot(w, root, path);
    }
  }

  lemma NothingMatched(byRoot: map<string, Perms>, path: string)
    requires forall other | other in byRoot :: !Covers(other, path)
    ensures Matched(byRoot, path) == None
  {
  }

  /** The permissions of the longest root covering `path`, found by trying the path and
      what is left of it at each slash, then the empty root. */
  method PermsAt(byRoot: map<string, Perms>, path: string) returns (r: Option<Perms>)
    ensures r == Matched(byRoot, path)
  {
    hide Matched;
    if |byRoot| == 0 {
      NothingMatched(byRoot, path);
      return None;
    }
    var next := Some(path);
    while next.Some?
      invariant next.Some? ==> Covers(next.value, path)
      invariant forall root | root in byRoot && Covers(root, path) :: next.Some? && |root| <= |next.value|
      decreases if next.Some? then |next.value| + 1 else 0
    {
      var current := next.value;
      if current in byRoot {
        WinnerIsMatched(byRoot, path, current);
        return Some(byRoot[current]);
      }
      CoversPrefix(current, path);
      forall root | root in byRoot && Covers(root, path)
        ensures |root| < |current| && (root == "" || current[|root|] == '/')
      {
        if |root| == |current| {
          SameLengthSameRoot(root, current, path);
        }
      }
      var cut := LastSlash(current);
      if cut.Some? {
        next := Some(current[..cut.value]);
      } else if current != "" {
        next := Some("");
      } else {
        next := None;
      }
    }
    NothingMatched(byRoot, path);
    r := None;
  }

  // ----- the walk agrees with the scan

  lemma {:induction false} ScanWins(isSpace: char -> bool, grants: seq<Grant>, path: string)
    ensures var best := Scan(isSpace, grants, path);
            var byRoot := ByRoot(isSpace, grants);
            if best.Some? then Wins(byRoot, path, best.value.root) && byRoot[best.value.root] == best.value.perms
            else forall other | other in byRoot :: !Covers(other, path)
    decreases |grants|
  {
    hide ScopeRoot, Covers;
    if grants == [] {
    } else {
      var last := grants[|grants|-1];
      ScanWins(isSpace, grants[..|grants|-1], path);
      var best := Scan(isSpace, grants[..|grants|-1], path);
      var root := ScopeRoot(isSpace, last.prefix);
      if root.Some? && best.Some? && root.value == best.value.root {
        assert Covers(root.value, path);
      }
    }
  }

  /** For every path and every list of grants the indexed walk answers what the scan
      over all of them does. */
  lemma WalkIsScan(isSpace: char -> bool, grants: seq<Grant>, path: string)
    ensures Matched(ByRoot(isSpace, grants), path)
         == if Scan(isSpace, grants, path).Some? then Some(Scan(isSpace, grants, path).value.perms) else None
  {
    hide Matched, Wins;
    ScanWins(isSpace, grants, path);
    if Scan(isSpace, grants, path).Some? {
      WinnerIsMatched(ByRoot(isSpace, grants), path, Scan(isSpace, grants, path).value.root);
    } else {
      NothingMatched(ByRoot(isSpace, grants), path);
    }
  }

  // ----- roots read back

  lemma {:induction false} TrimEndStops(s: string, drop: char -> bool)
    ensures TrimEnd(s, drop) <= s
    ensures TrimEnd(s, drop) == "" || !drop(TrimEnd(s, drop)[|TrimEnd(s, drop)|-1])
    decreases |s|
  {
    if s != "" && drop(s[|s|-1]) {
      TrimEndStops(s[..|s|-1], drop);
    }
  }

  lemma RootShape(isSpace: char -> bool, prefix: string)
    requires ScopeRoot(isSpace, prefix).Some?
    ensures var root := ScopeRoot(isSpace, prefix).value;
            root == "" || (root[0] == '/' && root[|root|-1] != '/')
  {
    hide ClimbsOut, TrimEnd, TrimStart;
    TrimEndStops(TrimEnd(TrimStart(prefix, isSpace), isSpace), IsSlash);
  }

  /** A root is written to the store and read again when grants are loaded. It reads back
      as itself exactly when no space ends it: "/a /" is stored as "/a " and then covers
      what "/a" does. */
  lemma RootReadsBackIff(isSpace: char -> bool, prefix: string)
    requires !isSpace('/') && ScopeRoot(isSpace, prefix).Some?
    ensures var root := ScopeRoot(isSpace, prefix).value;
            ScopeRoot(isSpace, root) == Some(root) <==> root == "" || !isSpace(root[|root|-1])
  {
    hide ClimbsOut, TrimEnd;
    var root := ScopeRoot(isSpace, prefix).value;
    RootShape(isSpace, prefix);
    assert TrimStart(root, isSpace) == root;
    TrimEndStops(root, isSpace);
    var trimmed := TrimEnd(root, isSpace);
    TrimEndStops(trimmed, IsSlash);
    if root == "" || !isSpace(root[|root|-1]) {
      TrimEndKeeps(root, isSpace);
      TrimEndKeeps(root, IsSlash);
    }
  }

  lemma TrimEndKeeps(s: string, drop: char -> bool)
    requires s == "" || !drop(s[|s|-1])
    ensures TrimEnd(s, drop) == s
  {
  }

  lemma SpaceBeforeSlashIsLost()
    ensures ScopeRoot(c => c == ' ', "/a /") == Some("/a ")
    ensures ScopeRoot(c => c == ' ', "/a ") == Some("/a")
  {
    hide ClimbsOut;
    var isSpace := (c: char) => c == ' ';
    assert TrimStart("/a /", isSpace) == "/a /" && TrimEnd("/a /", isSpace) == "/a /";
    assert "/a /"[..3] == "/a " && "/a "[..2] == "/a";
    assert TrimEnd("/a ", IsSlash) == "/a ";
    assert TrimStart("/a ", isSpace) == "/a ";
    assert TrimEnd("/a ", isSpace) == TrimEnd("/a", isSpace) == "/a";
    assert !ClimbsOut("/a ") && !ClimbsOut("/a") by { NoDots("/a "); NoDots("/a"); }
  }

  lemma NoDots(s: string)
    requires '.' !in s
    ensures !ClimbsOut(s)
  {
  }
}
