/** Which paths the file manager serves: `resolvePath`, `hasSubpath`, the allow and deny
    lists, and the filter on directory listings. The program tests paths as strings;
    the tests are proved to be tests on path components. */
module PathPolicy {
  import opened Wrappers

  // ---------- Clean absolute paths ----------

  predicate IsComponent(c: string) {
    c != "" && c != "." && c != ".." && '/' !in c
  }

  ghost predicate AreComponents(cs: seq<string>) {
    forall i :: 0 <= i < |cs| ==> IsComponent(cs[i])
  }

  function Body(cs: seq<string>): string {
    if cs == [] then "" else "/" + cs[0] + Body(cs[1..])
  }

  /** The clean absolute path with these components. */
  function Render(cs: seq<string>): string {
    if cs == [] then "/" else Body(cs)
  }

  /** The position of the last separator. */
  function LastSlash(s: string): (i: nat)
    requires s != "" && s[0] == '/'
    ensures i < |s| && s[i] == '/'
  {
    if s[|s| - 1] == '/' then |s| - 1 else LastSlash(s[..|s| - 1])
  }

  /** `filepath.Dir`, `filepath.Base` and `filepath.Join`, on clean absolute paths. */
  function Dir(s: string): (d: string)
    requires s != "" && s[0] == '/'
    ensures d != "" && d[0] == '/' && |d| <= |s| && (s != "/" ==> |d| < |s|)
  {
    var i := LastSlash(s);
    if i == 0 then "/" else s[..i]
  }

  function Base(s: string): string
    requires s != "" && s[0] == '/'
  {
    if s == "/" then "/" else s[LastSlash(s) + 1..]
  }

  function Join(dir: string, name: string): string {
    if dir == "/" then "/" + name else dir + "/" + name
  }

  /** The components of a path, read off from its end. */
  function Components(s: string): seq<string>
    requires s != "" && s[0] == '/'
    decreases |s|
  {
    if s == "/" then [] else Components(Dir(s)) + [Base(s)]
  }

  ghost predicate IsClean(s: string) {
    s != "" && s[0] == '/' && AreComponents(Components(s)) && s == Render(Components(s))
  }

  lemma {:induction false} BodyAppend(cs: seq<string>, c: string)
    ensures Body(cs + [c]) == Body(cs) + "/" + c
  {
    if cs == [] {
      assert [c][1..] == [];
    } else {
      BodyAppend(cs[1..], c);
      assert (cs + [c])[0] == cs[0] && (cs + [c])[1..] == cs[1..] + [c];
    }
  }

  lemma {:induction false} LastSlashBefore(front: string, name: string)
    requires '/' !in name && (front == "" || front[0] == '/')
    ensures LastSlash(front + "/" + name) == |front|
    decreases |name|
  {
    var s := front + "/" + name;
    if name != "" {
      LastSlashBefore(front, name[..|name| - 1]);
      assert s[..|s| - 1] == front + "/" + name[..|name| - 1];
    }
  }

  /** Taking off and putting on the last component. */
  lemma LastComponent(cs: seq<string>, c: string)
    requires IsComponent(c) && AreComponents(cs)
    ensures var s := Render(cs + [c]);
            && s != "" && s[0] == '/' && s != "/" && Dir(s) == Render(cs) && Base(s) == c && s == Join(Render(cs), c)
  {
    var front := Body(cs);
    var s := front + "/" + c;
    BodyAppend(cs, c);
    BodyIsLong(cs);
    LastSlashBefore(front, c);
    assert s[..|front|] == front && s[|front| + 1..] == c;
    assert |s| > 1;
  }

  lemma BodyIsLong(cs: seq<string>)
    requires AreComponents(cs)
    ensures Body(cs) == "" <==> cs == []
    ensures cs != [] ==> |Body(cs)| > 1 && Body(cs)[0] == '/'
  {
    if cs != [] {
      assert Body(cs) == "/" + cs[0] + Body(cs[1..]);
    }
  }

  /** Components and clean paths correspond one to one. */
  lemma {:induction false} ComponentsOfRender(cs: seq<string>)
    requires AreComponents(cs)
    ensures IsClean(Render(cs)) && Components(Render(cs)) == cs
    decreases |cs|
  {
    if cs != [] {
      var front, c := cs[..|cs| - 1], cs[|cs| - 1];
      assert cs == front + [c];
      ComponentsOfRender(front);
      LastComponent(front, c);
      assert Components(Render(cs)) == Components(Render(front)) + [c];
    }
  }

  // ---------- hasSubpath ----------

  /** The test at the end of `hasSubpath`, on two resolved paths. */
  predicate StringTest(path: string, base: string) {
    path == base || base == "/" || (base <= path && |path| > |base| && path[|base|] == '/')
  }

  lemma {:induction false} PrefixOfBody(bs: seq<string>, ps: seq<string>)
    requires AreComponents(bs) && AreComponents(ps)
    ensures Body(bs) + "/" <= Body(ps) <==> bs < ps
    decreases |bs|
  {
    if bs == [] {
    } else if ps == [] {
    } else {
      var b, p := bs[0], ps[0];
      PrefixOfBody(bs[1..], ps[1..]);
      if b == p {
        assert Body(bs) + "/" == ("/" + b) + (Body(bs[1..]) + "/");
        PrefixAfter("/" + b, Body(bs[1..]) + "/", Body(ps[1..]));
        assert bs < ps <==> bs[1..] < ps[1..];
      } else {
        DifferentHeads(b, p, Body(bs[1..]) + "/", Body(ps[1..]));
        assert Body(bs) + "/" == "/" + b + (Body(bs[1..]) + "/");
      }
    }
  }

  lemma PrefixAfter(front: string, a: string, b: string)
    ensures front + a <= front + b <==> a <= b
  {
    if front + a <= front + b {
      assert forall i :: 0 <= i < |a| ==> a[i] == (front + a)[|front| + i] == (front + b)[|front| + i];
    }
  }

  /** Components that differ are told apart before the separator behind them. */
  lemma DifferentHeads(b: string, p: string, bRest: string, pRest: string)
    requires '/' !in b && '/' !in p && b != p
    requires bRest != "" && bRest[0] == '/' && (pRest == "" || pRest[0] == '/')
    ensures !("/" + b + bRest <= "/" + p + pRest)
  {
    var x, y := "/" + b + bRest, "/" + p + pRest;
    if |b| < |p| {
      assert x[1 + |b|] == '/' && y[1 + |b|] == p[|b|];
    } else if |b| > |p| {
      assert x[1 + |p|] == b[|p|];
      assert pRest == "" || y[1 + |p|] == '/';
    } else {
      var i :| 0 <= i < |b| && b[i] != p[i];
      assert x[1 + i] == b[i] && y[1 + i] == p[i];
    }
  }

  /** On clean absolute paths the string test says that the base's components are a
      prefix of the path's. */
  lemma SubpathIsPrefix(path: string, base: string)
    requires IsClean(path) && IsClean(base)
    ensures StringTest(path, base) <==> Components(base) <= Components(path)
  {
    TestOfRendered(Components(path), Components(base));
  }

  lemma TestOfRendered(ps: seq<string>, bs: seq<string>)
    requires AreComponents(ps) && AreComponents(bs)
    ensures StringTest(Render(ps), Render(bs)) <==> bs <= ps
  {
    PrefixOfBody(bs, ps);
    BodyIsLong(bs);
    BodyIsLong(ps);
    if bs != [] {
      ComponentsOfRender(bs);
      ComponentsOfRender(ps);
      PrefixThenSeparator(Body(bs), Render(ps));
      assert ps == [] ==> !(Body(bs) + "/" <= Render(ps));
      assert bs <= ps <==> bs == ps || bs < ps;
    }
  }

  lemma PrefixThenSeparator(base: string, path: string)
    ensures base <= path && |path| > |base| && path[|base|] == '/' <==> base + "/" <= path
  {
    if base + "/" <= path {
      assert (base + "/")[|base|] == path[|base|];
      assert forall i :: 0 <= i < |base| ==> (base + "/")[i] == base[i];
    }
  }

  /** Being a subpath is a partial order. */
  lemma SubpathIsPartialOrder(a: string, b: string, c: string)
    requires IsClean(a) && IsClean(b) && IsClean(c)
    ensures StringTest(a, a)
    ensures StringTest(a, b) && StringTest(b, a) ==> a == b
    ensures StringTest(a, b) && StringTest(b, c) ==> StringTest(a, c)
  {
    SubpathIsPrefix(a, b);
    SubpathIsPrefix(b, a);
    SubpathIsPrefix(b, c);
    SubpathIsPrefix(a, c);
  }

  // ---------- resolvePath ----------

  /** The file system as the server sees it: absolute paths, the evaluation of symbolic
      links, which fails for what does not exist, and the entries of listings, with
      whether they are directories. The entry of a link is not one, wherever it leads. */
  datatype FileSystem = FileSystem(
    abs: string -> Option<string>,
    evalSymlinks: string -> Option<string>,
    entryAt: string -> Option<bool>)

  ghost predicate GivesCleanPaths(fs: FileSystem) {
    && (forall p :: fs.abs(p).Some? ==> IsClean(fs.abs(p).value))
    && (forall p :: fs.evalSymlinks(p).Some? ==> IsClean(fs.evalSymlinks(p).value))
  }

  /** The longest prefix that exists, with the other components put behind it. */
  function ResolveComponents(fs: FileSystem, cs: seq<string>): Option<string> {
    var here := fs.evalSymlinks(Render(cs));
    if here.Some? || cs == [] then here
    else match ResolveComponents(fs, cs[..|cs| - 1])
         case None => None
         case Some(dir) => Some(Join(dir, cs[|cs| - 1]))
  }

  function Resolve(fs: FileSystem, path: string): Option<string> {
    match fs.abs(path)
    case None => None
    case Some(p) => if p != "" && p[0] == '/' then ResolveComponents(fs, Components(p)) else None
  }

  /** A directory with the names from k to m put behind it. */
  function JoinAll(dir: string, names: seq<string>, k: nat, m: nat): string
    requires k <= m <= |names|
    decreases m
  {
    if m == k then dir else Join(JoinAll(dir, names, k, m - 1), names[m - 1])
  }

  /** What resolution finds when exactly the prefix of length k is the longest to exist. */
  lemma {:induction false} ResolvesAt(fs: FileSystem, cs: seq<string>, k: nat, m: nat)
    requires k <= m <= |cs| && At(fs, cs, k).Some?
    requires forall j :: k < j <= m ==> At(fs, cs, j).None?
    ensures ResolveComponents(fs, cs[..m]) == Some(JoinAll(At(fs, cs, k).value, cs, k, m))
    decreases m
  {
    if k < m {
      ResolvesAt(fs, cs, k, m - 1);
      ResolveStep(fs, cs, m);
    }
  }

  lemma {:induction false} ResolvesNowhere(fs: FileSystem, cs: seq<string>, m: nat)
    requires m <= |cs| && forall j :: 0 <= j <= m ==> At(fs, cs, j).None?
    ensures ResolveComponents(fs, cs[..m]) == None
    decreases m
  {
    if m > 0 {
      ResolvesNowhere(fs, cs, m - 1);
      ResolveStep(fs, cs, m);
    }
  }

  function At(fs: FileSystem, cs: seq<string>, k: nat): Option<string>
    requires k <= |cs|
  {
    fs.evalSymlinks(Render(cs[..k]))
  }

  lemma ResolveStep(fs: FileSystem, cs: seq<string>, m: nat)
    requires 0 < m <= |cs| && At(fs, cs, m).None?
    ensures var dir := ResolveComponents(fs, cs[..m - 1]);
            ResolveComponents(fs, cs[..m]) == if dir.None? then None else Some(Join(dir.value, cs[m - 1]))
  {
    assert cs[..m][..m - 1] == cs[..m - 1];
  }

  /** `resolvePath`: walks up until something exists, then rejoins what is missing. */
  method ResolvePath(fs: FileSystem, path: string) returns (r: Option<string>)
    requires GivesCleanPaths(fs)
    ensures r == Resolve(fs, path)
  {
    var abs := fs.abs(path);
    if abs.None? {
      return None;
    }
    var resolved := fs.evalSymlinks(abs.value);
    if resolved.Some? {
      return resolved;
    }
    r := WalkUp(fs, abs.value);
  }

  /** The walk from a clean path that does not exist. */
  method WalkUp(fs: FileSystem, absPath: string) returns (r: Option<string>)
    requires IsClean(absPath) && fs.evalSymlinks(absPath).None?
    ensures r == ResolveComponents(fs, Components(absPath))
  {
    ghost var cs := Components(absPath);
    assert cs[..|cs|] == cs;
    var missing: seq<string> := [];
    var current := absPath;
    ghost var k: nat := |cs|;
    while true
      invariant WalkedTo(fs, cs, k, missing) && At(fs, cs, k).None?
      invariant current == Render(cs[..k])
      decreases k
    {
      WalkStep(fs, cs, k, missing, current);
      if current == Dir(current) {
        return None;
      }
      missing := missing + [Base(current)];
      current := Dir(current);
      k := k - 1;
      var resolved := fs.evalSymlinks(current);
      if resolved.Some? {
        r := RejoinMissing(fs, cs, k, resolved.value, missing);
        return;
      }
    }
  }

  /** The walk has passed the prefixes longer than k: none exists, and their last names
      were noted on the way. */
  ghost predicate WalkedTo(fs: FileSystem, cs: seq<string>, k: nat, missing: seq<string>) {
    && |missing| + k == |cs|
    && (forall i :: 0 <= i < |missing| ==> missing[i] == cs[|cs| - 1 - i])
    && (forall j :: k < j <= |cs| ==> At(fs, cs, j).None?)
  }

  lemma WalkStep(fs: FileSystem, cs: seq<string>, k: nat, missing: seq<string>, current: string)
    requires AreComponents(cs) && WalkedTo(fs, cs, k, missing) && At(fs, cs, k).None?
    requires current == Render(cs[..k])
    ensures current != "" && current[0] == '/'
    ensures current == Dir(current) ==> k == 0 && ResolveComponents(fs, cs) == None
    ensures current != Dir(current) ==>
              k > 0 && Dir(current) == Render(cs[..k - 1]) && WalkedTo(fs, cs, k - 1, missing + [Base(current)])
  {
    OnlyRootStays(cs, k);
    if k > 0 {
      StepUp(cs, k);
    } else {
      ResolvesNowhere(fs, cs, |cs|);
      assert cs[..|cs|] == cs;
    }
  }

  lemma StepUp(cs: seq<string>, k: nat)
    requires 0 < k <= |cs| && AreComponents(cs)
    ensures var s := Render(cs[..k]);
            && s != "" && s[0] == '/' && s != "/" && Dir(s) == Render(cs[..k - 1]) && Base(s) == cs[k - 1] && Dir(s) != s
  {
    assert cs[..k] == cs[..k - 1] + [cs[k - 1]];
    LastComponent(cs[..k - 1], cs[k - 1]);
  }

  lemma OnlyRootStays(cs: seq<string>, k: nat)
    requires k <= |cs| && AreComponents(cs)
    ensures var s := Render(cs[..k]);
            s != "" && s[0] == '/' && (Dir(s) == s <==> k == 0)
  {
    if k > 0 {
      StepUp(cs, k);
    } else {
      assert LastSlash("/") == 0;
    }
  }

  /** The loop that puts the missing components back, the last one found first. */
  method RejoinMissing(ghost fs: FileSystem, ghost cs: seq<string>, ghost k: nat, dir: string, missing: seq<string>) returns (r: Option<string>)
    requires WalkedTo(fs, cs, k, missing) && At(fs, cs, k) == Some(dir)
    ensures r == ResolveComponents(fs, cs)
  {
    var resolved := dir;
    var i := |missing|;
    while i > 0
      invariant 0 <= i <= |missing|
      invariant resolved == JoinAll(dir, cs, k, |cs| - i)
    {
      i := i - 1;
      resolved := Join(resolved, missing[i]);
    }
    ResolvesAt(fs, cs, k, |cs|);
    assert cs[..|cs|] == cs;
    r := Some(resolved);
  }

  /** Resolving gives a clean path: the components of the longest existing prefix, as
      evaluated, then the missing ones in their order. */
  lemma {:induction false} ResolvedIsClean(fs: FileSystem, cs: seq<string>) returns (k: nat)
    requires GivesCleanPaths(fs) && AreComponents(cs) && ResolveComponents(fs, cs).Some?
    ensures k <= |cs| && At(fs, cs, k).Some?
    ensures forall j :: k < j <= |cs| ==> At(fs, cs, j).None?
    ensures var r := ResolveComponents(fs, cs).value;
            IsClean(r) && Components(r) == Components(At(fs, cs, k).value) + cs[k..]
  {
    assert cs[..|cs|] == cs;
    k := LongestExisting(fs, cs, |cs|);
    ResolvesAt(fs, cs, k, |cs|);
    var ds := Components(At(fs, cs, k).value);
    JoinedIsRendered(ds, cs, k, |cs|);
    assert cs[k..|cs|] == cs[k..];
    ComponentsOfRender(ds + cs[k..]);
  }

  lemma {:induction false} LongestExisting(fs: FileSystem, cs: seq<string>, m: nat) returns (k: nat)
    requires m <= |cs| && ResolveComponents(fs, cs[..m]).Some?
    ensures k <= m && At(fs, cs, k).Some? && forall j :: k < j <= m ==> At(fs, cs, j).None?
    decreases m
  {
    if At(fs, cs, m).Some? {
      k := m;
    } else {
      ResolveStep(fs, cs, m);
      k := LongestExisting(fs, cs, m - 1);
    }
  }

  lemma {:induction false} JoinedIsRendered(ds: seq<string>, cs: seq<string>, k: nat, m: nat)
    requires AreComponents(ds) && AreComponents(cs) && k <= m <= |cs|
    ensures JoinAll(Render(ds), cs, k, m) == Render(ds + cs[k..m])
    decreases m
  {
    if m == k {
      assert ds + cs[k..m] == ds;
    } else {
      JoinedIsRendered(ds, cs, k, m - 1);
      JoinIsRendered(ds + cs[k..m - 1], cs[m - 1]);
      OneMore(ds, cs, k, m);
    }
  }

  lemma JoinIsRendered(cs: seq<string>, c: string)
    requires AreComponents(cs) && IsComponent(c)
    ensures Join(Render(cs), c) == Render(cs + [c])
  {
    LastComponent(cs, c);
  }

  lemma OneMore(ds: seq<string>, cs: seq<string>, k: nat, m: nat)
    requires k < m <= |cs|
    ensures ds + cs[k..m] == ds + cs[k..m - 1] + [cs[m - 1]]
  {
  }

  // ---------- Allow and deny lists ----------

  /** `hasSubpath`, true only without an error. */
  predicate HasSubpath(fs: FileSystem, path: string, base: string) {
    var p, b := Resolve(fs, path), Resolve(fs, base);
    p.Some? && b.Some? && StringTest(p.value, b.value)
  }

  datatype Policy = Policy(allowed: seq<string>, denied: seq<string>, fs: FileSystem) {

    predicate Under(path: string, base: string) {
      HasSubpath(fs, path, base)
    }

    predicate IsDenied(path: string) {
      exists d <- denied :: Under(path, d)
    }

    predicate IsPathAllowed(path: string) {
      !IsDenied(path) && (allowed == [] || exists a <- allowed :: Under(path, a))
    }

    predicate IsPathListable(path: string) {
      IsPathAllowed(path) || (!IsDenied(path) && exists a <- allowed :: Under(a, path))
    }

    /** What the filter of `listDir` does with an entry. */
    predicate Keeps(f: FileInfo) {
      !IsDenied(f.path) && exists a <- allowed :: Under(f.path, a) || (f.isDir && Under(a, f.path))
    }
  }

  datatype FileInfo = FileInfo(name: string, path: string, isDir: bool)

  /** The filter keeps a directory if it may be listed and a file if it may be read,
      exactly if there is an allow list, or the entry is denied anyway. */
  lemma FilterMatchesPolicyExactly(policy: Policy, f: FileInfo)
    ensures (policy.Keeps(f) <==> if f.isDir then policy.IsPathListable(f.path) else policy.IsPathAllowed(f.path))
       <==> (policy.allowed != [] || policy.IsDenied(f.path))
  {
    if policy.allowed != [] {
      if a :| a in policy.allowed && (policy.Under(f.path, a) || (f.isDir && policy.Under(a, f.path))) {
        assert policy.Under(f.path, a) || policy.Under(a, f.path);
      }
    }
  }

  /** Without an allow list, which is how the setting ALL reaches the program, every path
      that is not denied may be listed, and every listing comes out empty. */
  lemma WithoutAllowListNothingIsShown(policy: Policy, f: FileInfo)
    requires policy.allowed == []
    ensures !policy.Keeps(f)
    ensures policy.IsPathListable(f.path) <==> !policy.IsDenied(f.path)
  {
    assert forall a :: a !in policy.allowed;
  }

  /** The components of one path begin with those of another, once both are resolved. */
  ghost predicate LiesIn(fs: FileSystem, path: string, base: string) {
    var p, b := Resolve(fs, path), Resolve(fs, base);
    && p.Some? && b.Some? && IsClean(p.value) && IsClean(b.value)
    && Components(b.value) <= Components(p.value)
  }

  lemma UnderMeansIn(policy: Policy, path: string, base: string)
    requires GivesCleanPaths(policy.fs)
    ensures policy.Under(path, base) <==> LiesIn(policy.fs, path, base)
  {
    if Resolve(policy.fs, path).Some? && Resolve(policy.fs, base).Some? {
      UnderIsPrefix(policy, path, base);
    }
  }

  ghost predicate LiesInSome(fs: FileSystem, path: string, bases: seq<string>) {
    exists b <- bases :: LiesIn(fs, path, b)
  }

  ghost predicate HoldsSome(fs: FileSystem, dir: string, paths: seq<string>) {
    exists p <- paths :: LiesIn(fs, p, dir)
  }

  /** A path is allowed exactly if it lies in no denied directory, and in an allowed one if
      there are any. */
  lemma PathIsAllowedExactly(policy: Policy, path: string)
    requires GivesCleanPaths(policy.fs)
    ensures policy.IsPathAllowed(path) <==>
              && !LiesInSome(policy.fs, path, policy.denied)
              && (policy.allowed == [] || LiesInSome(policy.fs, path, policy.allowed))
  {
    SomeMeansIn(policy, path);
  }

  /** It may be listed exactly if it is allowed, or something allowed lies in it and it lies
      in no denied directory. */
  lemma PathIsListableExactly(policy: Policy, path: string)
    requires GivesCleanPaths(policy.fs)
    ensures policy.IsPathListable(path) <==>
              && !LiesInSome(policy.fs, path, policy.denied)
              && (|| policy.allowed == []
                  || LiesInSome(policy.fs, path, policy.allowed)
                  || HoldsSome(policy.fs, path, policy.allowed))
  {
    SomeMeansIn(policy, path);
  }

  /** A listing shows an entry exactly if it lies in an allowed directory, or is one itself
      that something allowed lies in, and it lies in no denied one. */
  lemma EntryIsKeptExactly(policy: Policy, f: FileInfo)
    requires GivesCleanPaths(policy.fs)
    ensures policy.Keeps(f) <==>
              && !LiesInSome(policy.fs, f.path, policy.denied)
              && (LiesInSome(policy.fs, f.path, policy.allowed) || (f.isDir && HoldsSome(policy.fs, f.path, policy.allowed)))
  {
    SomeMeansIn(policy, f.path);
  }

  lemma SomeMeansIn(policy: Policy, path: string)
    requires GivesCleanPaths(policy.fs)
    ensures forall b :: policy.Under(path, b) <==> LiesIn(policy.fs, path, b)
    ensures forall p :: policy.Under(p, path) <==> LiesIn(policy.fs, p, path)
  {
    forall b
      ensures policy.Under(path, b) <==> LiesIn(policy.fs, path, b)
      ensures policy.Under(b, path) <==> LiesIn(policy.fs, b, path)
    {
      UnderMeansIn(policy, path, b);
      UnderMeansIn(policy, b, path);
    }
  }

  /** What lies in an allowed directory is allowed, unless it is denied; what lies in a
      denied one is denied. */
  lemma PolicyIsInherited(policy: Policy, dir: string, path: string)
    requires GivesCleanPaths(policy.fs) && LiesIn(policy.fs, path, dir)
    ensures policy.IsPathAllowed(dir) && !LiesInSome(policy.fs, path, policy.denied) ==> policy.IsPathAllowed(path)
    ensures LiesInSome(policy.fs, dir, policy.denied) ==> !policy.IsPathListable(path)
  {
    PathIsAllowedExactly(policy, dir);
    PathIsAllowedExactly(policy, path);
    PathIsListableExactly(policy, path);
    assert forall b :: LiesIn(policy.fs, dir, b) ==> LiesIn(policy.fs, path, b);
  }

  // ---------- Reaching an allowed path from the root ----------

  lemma UnderIsPrefix(policy: Policy, path: string, base: string)
    requires GivesCleanPaths(policy.fs)
    requires Resolve(policy.fs, path).Some? && Resolve(policy.fs, base).Some?
    ensures var p, b := Resolve(policy.fs, path).value, Resolve(policy.fs, base).value;
            && IsClean(p) && IsClean(b)
            && (policy.Under(path, base) <==> Components(b) <= Components(p))
  {
    ResolveIsClean(policy.fs, path);
    ResolveIsClean(policy.fs, base);
    SubpathIsPrefix(Resolve(policy.fs, path).value, Resolve(policy.fs, base).value);
  }

  lemma ResolveIsClean(fs: FileSystem, path: string)
    requires GivesCleanPaths(fs) && Resolve(fs, path).Some?
    ensures IsClean(Resolve(fs, path).value)
  {
    var _ := ResolvedIsClean(fs, Components(fs.abs(path).value));
  }

  lemma UnderIsTransitive(policy: Policy, a: string, b: string, c: string)
    requires GivesCleanPaths(policy.fs) && policy.Under(a, b) && policy.Under(b, c)
    ensures policy.Under(a, c)
  {
    UnderIsPrefix(policy, a, b);
    UnderIsPrefix(policy, b, c);
    UnderIsPrefix(policy, a, c);
  }

  /** Two directories above one path: one is above the other. */
  lemma AboveIsLinear(policy: Policy, path: string, a: string, b: string)
    requires GivesCleanPaths(policy.fs) && policy.Under(path, a) && policy.Under(path, b)
    ensures policy.Under(a, b) || policy.Under(b, a)
  {
    UnderIsPrefix(policy, path, a);
    UnderIsPrefix(policy, path, b);
    UnderIsPrefix(policy, a, b);
    UnderIsPrefix(policy, b, a);
  }

  /** A directory on the way to an allowed path may be listed, and is shown in the
      listing of its own parent. */
  lemma AncestorIsListable(policy: Policy, path: string, here: string, name: string)
    requires GivesCleanPaths(policy.fs) && policy.Under(path, here)
    requires policy.allowed != [] && policy.IsPathAllowed(path)
    ensures policy.IsPathListable(here) && policy.Keeps(FileInfo(name, here, true))
  {
    forall d | d in policy.denied && policy.Under(here, d)
      ensures policy.Under(path, d)
    {
      UnderIsTransitive(policy, path, here, d);
    }
    assert !policy.IsDenied(here);
    var a :| a in policy.allowed && policy.Under(path, a);
    AboveIsLinear(policy, path, a, here);
  }

  /** No symbolic link leads out of the directories above this path. */
  ghost predicate StaysBelow(fs: FileSystem, cs: seq<string>) {
    AreComponents(cs) && forall k :: 0 <= k <= |cs| ==> HasSubpath(fs, Render(cs), Render(cs[..k]))
  }

  /** The first k components may be listed, and the next one is in that listing and kept
      there. */
  predicate CanStep(policy: Policy, cs: seq<string>, k: nat)
    requires k < |cs|
  {
    var path := Join(Render(cs[..k]), cs[k]);
    && policy.IsPathListable(Render(cs[..k]))
    && policy.fs.entryAt(path).Some?
    && policy.Keeps(FileInfo(cs[k], path, policy.fs.entryAt(path).value))
  }

  /** The way from the root down to a path is open. */
  predicate CanBeReached(policy: Policy, cs: seq<string>) {
    forall k :: 0 <= k < |cs| ==> CanStep(policy, cs, k)
  }

  /** The entry of the first k components, where a listing on the way has it. It is a
      directory, or a link to the very end of the way. */
  predicate IsWayMark(fs: FileSystem, cs: seq<string>, k: nat)
    requires k <= |cs|
  {
    var here := Render(cs[..k]);
    && fs.entryAt(here).Some?
    && (k < |cs| ==> fs.entryAt(here).value || Resolve(fs, here) == Resolve(fs, Render(cs)))
  }

  /** Nothing on the way leads out of the directories above it, and all of it can be seen
      in the listings. */
  ghost predicate IsOpenWay(fs: FileSystem, cs: seq<string>) {
    StaysBelow(fs, cs) && forall k :: 0 < k <= |cs| ==> IsWayMark(fs, cs, k)
  }

  /** Whatever is allowed can be reached along an open way: every directory from the root
      down to it may be listed, and the next step is in the listing. */
  lemma AllowedPathIsReachable(policy: Policy, cs: seq<string>)
    requires GivesCleanPaths(policy.fs) && IsOpenWay(policy.fs, cs)
    requires policy.allowed != [] && policy.IsPathAllowed(Render(cs))
    ensures CanBeReached(policy, cs)
  {
    forall k | 0 <= k < |cs|
      ensures CanStep(policy, cs, k)
    {
      StepIsOpen(policy, cs, k);
    }
  }

  lemma StepIsOpen(policy: Policy, cs: seq<string>, k: nat)
    requires GivesCleanPaths(policy.fs) && IsOpenWay(policy.fs, cs) && k < |cs|
    requires policy.allowed != [] && policy.IsPathAllowed(Render(cs))
    ensures CanStep(policy, cs, k)
  {
    assert policy.Under(Render(cs), Render(cs[..k])) && policy.Under(Render(cs), Render(cs[..k + 1]));
    AncestorIsListable(policy, Render(cs), Render(cs[..k]), cs[k]);
    StepDown(cs, k);
    WayMarkIsKept(policy, cs, k + 1);
  }

  /** A directory is kept as it is above an allowed path, a link as it is allowed itself. */
  lemma WayMarkIsKept(policy: Policy, cs: seq<string>, k: nat)
    requires GivesCleanPaths(policy.fs) && 0 < k <= |cs| && IsWayMark(policy.fs, cs, k)
    requires policy.Under(Render(cs), Render(cs[..k]))
    requires policy.allowed != [] && policy.IsPathAllowed(Render(cs))
    ensures policy.Keeps(FileInfo(cs[k - 1], Render(cs[..k]), policy.fs.entryAt(Render(cs[..k])).value))
  {
    var path, here := Render(cs), Render(cs[..k]);
    assert cs[..|cs|] == cs;
    AncestorIsListable(policy, path, here, cs[k - 1]);
    if !policy.fs.entryAt(here).value {
      SameResolvedIsAllowed(policy, path, here);
      AllowedIsKept(policy, FileInfo(cs[k - 1], here, false));
    }
  }

  lemma SameResolvedIsAllowed(policy: Policy, path: string, other: string)
    requires Resolve(policy.fs, path) == Resolve(policy.fs, other) && policy.IsPathAllowed(path)
    ensures policy.IsPathAllowed(other)
  {
    assert forall d :: policy.Under(path, d) <==> policy.Under(other, d);
  }

  /** Where a link leads out of one of the directories above a path, some allow list bars
      the way: the one that holds the path alone, and denies that directory. */
  lemma WayIsBarred(fs: FileSystem, cs: seq<string>, k: nat) returns (policy: Policy)
    requires AreComponents(cs) && Resolve(fs, Render(cs)).Some? && k < |cs|
    requires !HasSubpath(fs, Render(cs), Render(cs[..k]))
    ensures policy.fs == fs && policy.allowed != [] && policy.IsPathAllowed(Render(cs))
    ensures !policy.IsPathListable(Render(cs[..k]))
  {
    var path, here := Render(cs), Render(cs[..k]);
    policy := Policy([path], [here], fs);
    assert policy.allowed[0] == path && policy.denied[0] == here;
    assert policy.Under(path, path);
    assert policy.allowed == [path] && !policy.Under(path, here);
    assert Resolve(fs, here).Some? ==> policy.Under(here, policy.denied[0]);
    assert Resolve(fs, here).None? ==> !policy.Under(here, path);
  }

  /** Where a part of the way is missing, or a link stands for a directory on it, the allow
      list that holds the path alone bars the way. */
  lemma EntryIsDropped(fs: FileSystem, cs: seq<string>, k: nat) returns (policy: Policy)
    requires GivesCleanPaths(fs) && AreComponents(cs) && Resolve(fs, Render(cs)).Some? && 0 < k <= |cs|
    requires HasSubpath(fs, Render(cs), Render(cs[..k])) && !IsWayMark(fs, cs, k)
    ensures policy.fs == fs && policy.allowed != [] && policy.IsPathAllowed(Render(cs))
    ensures !CanStep(policy, cs, k - 1)
  {
    var path, here := Render(cs), Render(cs[..k]);
    policy := AllowingOnly(fs, path);
    StepDown(cs, k - 1);
    if fs.entryAt(here).Some? {
      NotUnderEachOther(policy, path, here);
      LinkIsDropped(policy, path, FileInfo(cs[k - 1], here, false));
    }
  }

  lemma AllowingOnly(fs: FileSystem, path: string) returns (policy: Policy)
    requires Resolve(fs, path).Some?
    ensures policy == Policy([path], [], fs) && policy.IsPathAllowed(path)
  {
    policy := Policy([path], [], fs);
    assert policy.allowed[0] == path && policy.Under(path, path);
  }

  lemma LinkIsDropped(policy: Policy, path: string, f: FileInfo)
    requires policy.allowed == [path] && !f.isDir && !policy.Under(f.path, path)
    ensures !policy.Keeps(f)
  {
    assert forall a :: a in policy.allowed ==> a == path;
  }

  /** Two paths that are under each other resolve alike. */
  lemma NotUnderEachOther(policy: Policy, a: string, b: string)
    requires GivesCleanPaths(policy.fs) && policy.Under(a, b) && Resolve(policy.fs, a) != Resolve(policy.fs, b)
    ensures !policy.Under(b, a)
  {
    ResolveIsClean(policy.fs, a);
    ResolveIsClean(policy.fs, b);
    SubpathIsPartialOrder(Resolve(policy.fs, a).value, Resolve(policy.fs, b).value, Resolve(policy.fs, a).value);
  }

  /** A path can be reached under every policy that allows it by a list exactly if the way
      to it is open. */
  lemma ReachableExactly(fs: FileSystem, cs: seq<string>)
    requires GivesCleanPaths(fs) && AreComponents(cs) && Resolve(fs, Render(cs)).Some?
    ensures IsOpenWay(fs, cs) <==>
              forall policy: Policy :: policy.fs == fs && policy.allowed != [] && policy.IsPathAllowed(Render(cs))
                ==> CanBeReached(policy, cs)
  {
    if IsOpenWay(fs, cs) {
      forall policy: Policy | policy.fs == fs && policy.allowed != [] && policy.IsPathAllowed(Render(cs))
        ensures CanBeReached(policy, cs)
      {
        AllowedPathIsReachable(policy, cs);
      }
    } else {
      var policy := ClosedWay(fs, cs);
    }
  }

  lemma ClosedWay(fs: FileSystem, cs: seq<string>) returns (policy: Policy)
    requires GivesCleanPaths(fs) && AreComponents(cs) && Resolve(fs, Render(cs)).Some? && !IsOpenWay(fs, cs)
    ensures policy.fs == fs && policy.allowed != [] && policy.IsPathAllowed(Render(cs)) && !CanBeReached(policy, cs)
  {
    assert cs[..|cs|] == cs;
    if k :| 0 <= k <= |cs| && !HasSubpath(fs, Render(cs), Render(cs[..k])) {
      policy := WayIsBarred(fs, cs, k);
      assert !CanStep(policy, cs, k);
    } else {
      var k :| 0 < k <= |cs| && !IsWayMark(fs, cs, k);
      policy := EntryIsDropped(fs, cs, k);
    }
  }

  /** Everything on the way is a directory, so that the browser can go there. */
  ghost predicate AreDirectories(fs: FileSystem, cs: seq<string>) {
    forall k :: 0 < k < |cs| ==> fs.entryAt(Render(cs[..k])) == Some(true)
  }

  /** The browser opens the entries of directories only. */
  predicate CanBeClicked(policy: Policy, cs: seq<string>) {
    CanBeReached(policy, cs) && forall k :: 0 < k < |cs| ==> policy.fs.entryAt(Render(cs[..k])) == Some(true)
  }

  /** The way to a path can be clicked from the root down, under every policy that allows
      the path by a list, exactly if nothing leads out of the directories above it, all of
      which are directories themselves, and the path is in the listing of the last. */
  lemma ClickableExactly(fs: FileSystem, cs: seq<string>)
    requires GivesCleanPaths(fs) && AreComponents(cs) && cs != [] && Resolve(fs, Render(cs)).Some?
    ensures StaysBelow(fs, cs) && AreDirectories(fs, cs) && fs.entryAt(Render(cs)).Some? <==>
              forall policy: Policy :: policy.fs == fs && policy.allowed != [] && policy.IsPathAllowed(Render(cs))
                ==> CanBeClicked(policy, cs)
  {
    ReachableExactly(fs, cs);
    OpenDirectories(fs, cs);
    var policy := AllowingOnly(fs, Render(cs));
  }

  lemma OpenDirectories(fs: FileSystem, cs: seq<string>)
    requires AreComponents(cs) && cs != []
    ensures AreDirectories(fs, cs) ==>
              (IsOpenWay(fs, cs) <==> StaysBelow(fs, cs) && fs.entryAt(Render(cs)).Some?)
  {
    assert cs[..|cs|] == cs;
    if AreDirectories(fs, cs) && fs.entryAt(Render(cs)).Some? {
      assert forall k :: 0 < k <= |cs| ==> IsWayMark(fs, cs, k);
    }
    assert IsOpenWay(fs, cs) ==> IsWayMark(fs, cs, |cs|);
  }

  /** The path of an entry is the path of its directory with the name behind it. */
  lemma StepDown(cs: seq<string>, k: nat)
    requires AreComponents(cs) && k < |cs|
    ensures Join(Render(cs[..k]), cs[k]) == Render(cs[..k + 1])
  {
    assert cs[..k + 1] == cs[..k] + [cs[k]];
    LastComponent(cs[..k], cs[k]);
  }

  lemma AllowedIsKept(policy: Policy, f: FileInfo)
    requires policy.allowed != [] && policy.IsPathAllowed(f.path)
    ensures policy.Keeps(f)
  {
    FilterMatchesPolicyExactly(policy, f);
  }

  /** Where no link and no missing part lies on the way, nothing leads out. */
  lemma PlainPathStaysBelow(fs: FileSystem, cs: seq<string>)
    requires GivesCleanPaths(fs) && AreComponents(cs)
    requires forall k :: 0 <= k <= |cs| ==> Resolve(fs, Render(cs[..k])) == Some(Render(cs[..k]))
    ensures StaysBelow(fs, cs)
  {
    assert cs[..|cs|] == cs;
    forall k | 0 <= k <= |cs|
      ensures HasSubpath(fs, Render(cs), Render(cs[..k]))
    {
      assert Resolve(fs, Render(cs[..k])) == Some(Render(cs[..k]));
      assert Resolve(fs, Render(cs[..|cs|])) == Some(Render(cs));
      TestOfRendered(cs, cs[..k]);
    }
  }

  lemma PlainPathIsOpen(fs: FileSystem, cs: seq<string>)
    requires GivesCleanPaths(fs) && AreComponents(cs)
    requires forall k :: 0 <= k <= |cs| ==> Resolve(fs, Render(cs[..k])) == Some(Render(cs[..k]))
    requires fs.entryAt(Render(cs)).Some? && AreDirectories(fs, cs)
    ensures IsOpenWay(fs, cs)
  {
    PlainPathStaysBelow(fs, cs);
    assert cs[..|cs|] == cs;
  }

  // ---------- Disks with a link ----------

  /** A disk of directories, files and links, each under its path. */
  datatype Disk = Disk(directories: set<string>, files: set<string>, links: map<string, string>) {

    function Target(p: string): Option<string> {
      if p in links then Some(links[p]) else if p in directories + files then Some(p) else None
    }

    function Seen(): FileSystem {
      FileSystem(
        p => if Target(p).Some? then Some(p) else None,
        p => Target(p),
        p => if Target(p).Some? then Some(p !in links && p in directories) else None)
    }

    ghost predicate Valid() {
      && (forall p :: p in directories + files ==> IsClean(p))
      && (forall p :: p in links ==> IsClean(p) && IsClean(links[p]))
    }
  }

  lemma DiskGivesCleanPaths(disk: Disk)
    requires disk.Valid()
    ensures GivesCleanPaths(disk.Seen())
  {
  }

  lemma DiskResolves(disk: Disk, p: string)
    requires disk.Valid() && disk.Target(p).Some?
    ensures Resolve(disk.Seen(), p) == disk.Target(p)
  {
    ExistingResolves(disk.Seen(), p, disk.Target(p).value);
  }

  /** A clean path that exists resolves to what it evaluates to. */
  lemma ExistingResolves(fs: FileSystem, path: string, target: string)
    requires IsClean(path) && fs.abs(path) == Some(path) && fs.evalSymlinks(path) == Some(target)
    ensures Resolve(fs, path) == Some(target)
  {
  }

  lemma RenderIsClean(cs: seq<string>)
    requires AreComponents(cs)
    ensures IsClean(Render(cs))
  {
    ComponentsOfRender(cs);
  }

  lemma RenderIsInjective(a: seq<string>, b: seq<string>)
    requires AreComponents(a) && AreComponents(b) && a != b
    ensures Render(a) != Render(b)
  {
    ComponentsOfRender(a);
    ComponentsOfRender(b);
  }

  // Two directories /a and /b, and a link /a/l to the second, under whatever names.

  function LinkAway(a: string, b: string, l: string): Disk {
    TwoDirectories(Render([]), Render([a]), Render([b]), Render([a, l]))
  }

  function TwoDirectories(root: string, dir: string, other: string, link: string): Disk {
    Disk({root, dir, other}, {}, map[link := other])
  }

  lemma TwoDirectoriesAreValid(root: string, dir: string, other: string, link: string)
    requires IsClean(root) && IsClean(dir) && IsClean(other) && IsClean(link)
    ensures TwoDirectories(root, dir, other, link).Valid()
  {
  }

  lemma LinkAwayIsValid(a: string, b: string, l: string)
    requires IsComponent(a) && IsComponent(b) && IsComponent(l)
    ensures LinkAway(a, b, l).Valid()
  {
    RenderIsClean([]);
    RenderIsClean([a]);
    RenderIsClean([b]);
    RenderIsClean([a, l]);
    TwoDirectoriesAreValid(Render([]), Render([a]), Render([b]), Render([a, l]));
  }

  lemma LinkAwayResolves(a: string, b: string, l: string)
    requires IsComponent(a) && IsComponent(b) && IsComponent(l)
    ensures var fs := LinkAway(a, b, l).Seen();
            && Resolve(fs, Render([a])) == Some(Render([a])) && Resolve(fs, Render([b])) == Some(Render([b]))
            && Resolve(fs, Render([a, l])) == Some(Render([b]))
  {
    var disk := LinkAway(a, b, l);
    LinkAwayIsValid(a, b, l);
    RenderIsInjective([a], [a, l]);
    RenderIsInjective([b], [a, l]);
    DiskResolves(disk, Render([a]));
    DiskResolves(disk, Render([b]));
    DiskResolves(disk, Render([a, l]));
  }

  /** Where a link leads away the way can be barred: the link is allowed, as it leads into
      the allowed directory, and the directory that holds it is not listable. */
  lemma LinkCannotBeReached(a: string, b: string, l: string)
    requires IsComponent(a) && IsComponent(b) && IsComponent(l) && a != b
    ensures var fs := LinkAway(a, b, l).Seen();
            var policy := Policy([Render([b])], [], fs);
            && GivesCleanPaths(fs)
            && policy.IsPathAllowed(Render([a, l]))
            && !policy.IsPathListable(Render([a])) && !CanBeReached(policy, [a, l])
            && !StaysBelow(fs, [a, l])
  {
    var fs := LinkAway(a, b, l).Seen();
    var policy := Policy([Render([b])], [], fs);
    LinkAwayIsValid(a, b, l);
    DiskGivesCleanPaths(LinkAway(a, b, l));
    LinkAwayResolves(a, b, l);
    TestOfRendered([a], [b]);
    TestOfRendered([b], [a]);
    TestOfRendered([b], [b]);
    assert policy.Under(Render([a, l]), policy.allowed[0]);
    NotListable(policy, Render([a]), Render([b]));
    SecondStepIsClosed(policy, a, l);
  }

  lemma SecondStepIsClosed(policy: Policy, a: string, l: string)
    requires !policy.IsPathListable(Render([a])) && !HasSubpath(policy.fs, Render([a, l]), Render([a]))
    ensures !CanBeReached(policy, [a, l]) && !StaysBelow(policy.fs, [a, l])
  {
    var cs := [a, l];
    assert cs[..1] == [a];
    assert !CanStep(policy, cs, 1);
  }

  lemma NotListable(policy: Policy, path: string, allowed: string)
    requires policy.allowed == [allowed] && !policy.Under(path, allowed) && !policy.Under(allowed, path)
    ensures !policy.IsPathListable(path)
  {
    assert forall p :: p in policy.allowed ==> p == allowed;
  }

  // A file /a/x/f, and a link /a/l to its directory beside that, under whatever names.

  function LinkBeside(a: string, x: string, l: string, f: string): Disk {
    DiskWithLink(Render([]), Render([a]), Render([a, x]), Render([a, x, f]), Render([a, l]), Render([a, l, f]))
  }

  function DiskWithLink(root: string, dir: string, inner: string, file: string, link: string, through: string): Disk {
    Disk({root, dir, inner}, {file}, map[link := inner, through := file])
  }

  lemma LinkBesideIsValid(a: string, x: string, l: string, f: string)
    requires IsComponent(a) && IsComponent(x) && IsComponent(l) && IsComponent(f)
    ensures LinkBeside(a, x, l, f).Valid()
  {
    RenderIsClean([]);
    RenderIsClean([a]);
    RenderIsClean([a, x]);
    RenderIsClean([a, x, f]);
    RenderIsClean([a, l]);
    RenderIsClean([a, l, f]);
    DiskWithLinkIsValid(Render([]), Render([a]), Render([a, x]), Render([a, x, f]), Render([a, l]), Render([a, l, f]));
  }

  lemma DiskWithLinkIsValid(root: string, dir: string, inner: string, file: string, link: string, through: string)
    requires IsClean(root) && IsClean(dir) && IsClean(inner) && IsClean(file) && IsClean(link) && IsClean(through)
    ensures DiskWithLink(root, dir, inner, file, link, through).Valid()
  {
  }

  /** What is no link there resolves to itself. */
  lemma BesideResolves(a: string, x: string, l: string, f: string, cs: seq<string>)
    requires IsComponent(a) && IsComponent(x) && IsComponent(l) && IsComponent(f) && x != l
    requires cs == [] || cs == [a] || cs == [a, x, f]
    ensures Resolve(LinkBeside(a, x, l, f).Seen(), Render(cs)) == Some(Render(cs))
  {
    LinkBesideIsValid(a, x, l, f);
    NoLink(a, x, l, f, cs);
    DiskResolves(LinkBeside(a, x, l, f), Render(cs));
  }

  lemma NoLink(a: string, x: string, l: string, f: string, cs: seq<string>)
    requires IsComponent(a) && IsComponent(x) && IsComponent(l) && IsComponent(f) && x != l
    requires cs == [] || cs == [a] || cs == [a, x, f]
    ensures Render(cs) !in LinkBeside(a, x, l, f).links
    ensures LinkBeside(a, x, l, f).Target(Render(cs)) == Some(Render(cs))
  {
    assert cs == [a, x, f] ==> cs[1] != [a, l, f][1];
    RenderIsInjective(cs, [a, l]);
    RenderIsInjective(cs, [a, l, f]);
  }

  lemma BesideFollows(a: string, x: string, l: string, f: string)
    requires IsComponent(a) && IsComponent(x) && IsComponent(l) && IsComponent(f)
    ensures var fs := LinkBeside(a, x, l, f).Seen();
            && Resolve(fs, Render([a, l])) == Some(Render([a, x]))
            && Resolve(fs, Render([a, l, f])) == Some(Render([a, x, f]))
            && fs.entryAt(Render([a, l])) == Some(false)
  {
    var disk := LinkBeside(a, x, l, f);
    LinkBesideIsValid(a, x, l, f);
    RenderIsInjective([a, l], [a, l, f]);
    DiskResolves(disk, Render([a, l]));
    DiskResolves(disk, Render([a, l, f]));
  }

  lemma UnderByTarget(fs: FileSystem, path: string, base: string, ps: seq<string>, bs: seq<string>)
    requires Resolve(fs, path) == Some(Render(ps)) && Resolve(fs, base) == Some(Render(bs))
    requires AreComponents(ps) && AreComponents(bs) && bs <= ps
    ensures HasSubpath(fs, path, base)
  {
    TestOfRendered(ps, bs);
  }

  /** Along this way only its second step is a link, to a directory beside it. */
  ghost predicate IsSideWay(fs: FileSystem, a: string, x: string, l: string, f: string) {
    && Resolve(fs, Render([])) == Some(Render([])) && Resolve(fs, Render([a])) == Some(Render([a]))
    && Resolve(fs, Render([a, l])) == Some(Render([a, x])) && fs.entryAt(Render([a, l])) == Some(false)
    && Resolve(fs, Render([a, l, f])) == Resolve(fs, Render([a, x, f])) == Some(Render([a, x, f]))
  }

  lemma BesideIsSideWay(a: string, x: string, l: string, f: string)
    requires IsComponent(a) && IsComponent(x) && IsComponent(l) && IsComponent(f) && x != l
    ensures IsSideWay(LinkBeside(a, x, l, f).Seen(), a, x, l, f)
  {
    BesideFollows(a, x, l, f);
    BesideResolves(a, x, l, f, []);
    BesideResolves(a, x, l, f, [a]);
    BesideResolves(a, x, l, f, [a, x, f]);
  }

  lemma SideWayStaysBelow(fs: FileSystem, a: string, x: string, l: string, f: string)
    requires IsComponent(a) && IsComponent(x) && IsComponent(l) && IsComponent(f)
    requires IsSideWay(fs, a, x, l, f)
    ensures StaysBelow(fs, [a, l, f])
  {
    var path, target := Render([a, l, f]), [a, x, f];
    UnderByTarget(fs, path, Render([]), target, []);
    UnderByTarget(fs, path, Render([a]), target, [a]);
    UnderByTarget(fs, path, Render([a, l]), target, [a, x]);
    UnderByTarget(fs, path, path, target, target);
    PrefixesOfThree(fs, a, l, f);
  }

  lemma PrefixesOfThree(fs: FileSystem, p: string, q: string, r: string)
    requires AreComponents([p, q, r])
    requires HasSubpath(fs, Render([p, q, r]), Render([])) && HasSubpath(fs, Render([p, q, r]), Render([p]))
    requires HasSubpath(fs, Render([p, q, r]), Render([p, q])) && HasSubpath(fs, Render([p, q, r]), Render([p, q, r]))
    ensures StaysBelow(fs, [p, q, r])
  {
    var cs := [p, q, r];
    forall k | 0 <= k <= |cs|
      ensures HasSubpath(fs, Render(cs), Render(cs[..k]))
    {
      assert cs[..k] == if k == 0 then [] else if k == 1 then [p] else if k == 2 then [p, q] else cs;
    }
  }

  /** A link on the way that leads nowhere else bars it all the same, where the target is
      allowed as a file: the entry of the link is no directory, and not allowed itself. */
  lemma LinkOnTheWayIsDropped(a: string, x: string, l: string, f: string)
    requires IsComponent(a) && IsComponent(x) && IsComponent(l) && IsComponent(f) && x != l
    ensures var fs := LinkBeside(a, x, l, f).Seen();
            var policy := Policy([Render([a, x, f])], [], fs);
            && GivesCleanPaths(fs) && policy.IsPathAllowed(Render([a, l, f])) && StaysBelow(fs, [a, l, f])
            && !policy.Keeps(FileInfo(l, Render([a, l]), false)) && !CanBeReached(policy, [a, l, f])
  {
    var fs := LinkBeside(a, x, l, f).Seen();
    LinkBesideIsValid(a, x, l, f);
    DiskGivesCleanPaths(LinkBeside(a, x, l, f));
    BesideIsSideWay(a, x, l, f);
    SideWayStaysBelow(fs, a, x, l, f);
    SideWayIsClosed(Policy([Render([a, x, f])], [], fs), a, x, l, f);
  }

  lemma SideWayIsClosed(policy: Policy, a: string, x: string, l: string, f: string)
    requires IsComponent(a) && IsComponent(x) && IsComponent(l) && IsComponent(f)
    requires policy.allowed == [Render([a, x, f])] && policy.denied == [] && IsSideWay(policy.fs, a, x, l, f)
    ensures policy.IsPathAllowed(Render([a, l, f])) && !policy.Keeps(FileInfo(l, Render([a, l]), false))
    ensures !CanBeReached(policy, [a, l, f])
  {
    TargetIsAllowed(policy, [a, l, f], [a, l], [a, x, f], [a, x], l);
    StepIsClosed(policy, [a, l, f], 1, [a], [a, l]);
  }

  /** With a file as the only one allowed, a link to it is allowed, and the entry of a link
      to its directory is dropped. */
  lemma TargetIsAllowed(policy: Policy, link: seq<string>, above: seq<string>, file: seq<string>, dir: seq<string>, name: string)
    requires policy.allowed == [Render(file)] && policy.denied == [] && AreComponents(file) && dir < file
    requires Resolve(policy.fs, Render(file)) == Resolve(policy.fs, Render(link)) == Some(Render(file))
    requires Resolve(policy.fs, Render(above)) == Some(Render(dir))
    ensures policy.IsPathAllowed(Render(link)) && !policy.Keeps(FileInfo(name, Render(above), false))
  {
    assert policy.Under(Render(link), policy.allowed[0]);
    assert AreComponents(dir) by { assert forall i :: 0 <= i < |dir| ==> dir[i] == file[i]; }
    TestOfRendered(dir, file);
    LinkIsDropped(policy, Render(file), FileInfo(name, Render(above), false));
  }

  lemma StepIsClosed(policy: Policy, cs: seq<string>, k: nat, here: seq<string>, next: seq<string>)
    requires AreComponents(cs) && k < |cs| && here == cs[..k] && next == cs[..k + 1]
    requires policy.fs.entryAt(Render(next)) == Some(false) && !policy.Keeps(FileInfo(cs[k], Render(next), false))
    ensures !CanBeReached(policy, cs)
  {
    StepDown(cs, k);
    assert !CanStep(policy, cs, k);
  }
}
