/** The depth-first walk over the libraries that a program needs, as `ldd` reports them
    for a foreign root: a list of the names seen so far, and a search path that grows on
    the way down and is restored on the way up. */
module DependencyWalk {
  import opened Wrappers
  import opened Sets

  /** What `readelf` says of a file. */
  datatype Elf = Elf(rpaths: seq<string>, needed: seq<string>)

  /** The disk, and where to look. Libraries have names from a finite set. */
  datatype Target = Target(
    root: string,
    sysroot: string,
    searchPath: seq<string>,
    isFile: string -> bool,
    readelf: string -> Elf,
    universe: set<string>)

  ghost predicate IsFinite(t: Target) {
    forall file, n :: n in t.readelf(file).needed ==> n in t.universe
  }

  datatype Origin = ViaRpath | ViaRoot | ViaSysroot

  /** A line of the report. */
  datatype Line = Found(needed: string, path: string, origin: Origin) | NotFound(needed: string)

  function BaseOf(t: Target, origin: Origin): string {
    if origin == ViaSysroot then t.sysroot else t.root
  }

  // ---------- Looking for a library ----------

  /** The first directory from the k-th on that holds the library. */
  function FirstDir(t: Target, base: string, dirs: seq<string>, needed: string, k: nat): Option<string>
    decreases |dirs| - k
  {
    if k >= |dirs| then None
    else if t.isFile(base + dirs[k] + "/" + needed) then Some(dirs[k] + "/" + needed)
    else FirstDir(t, base, dirs, needed, k + 1)
  }

  function DirsOf(t: Target, rpath: seq<string>, origin: Origin): seq<string> {
    if origin == ViaRpath then rpath else t.searchPath
  }

  const ORIGINS: seq<Origin> := [ViaRpath, ViaRoot, ViaSysroot]

  function LookFrom(t: Target, rpath: seq<string>, needed: string, k: nat): Line
    decreases |ORIGINS| - k
  {
    if k >= |ORIGINS| then NotFound(needed)
    else
      match FirstDir(t, BaseOf(t, ORIGINS[k]), DirsOf(t, rpath, ORIGINS[k]), needed, 0)
      case Some(path) => Found(needed, path, ORIGINS[k])
      case None => LookFrom(t, rpath, needed, k + 1)
  }

  /** The line for a library: the RPATH directories of the root come first, then the search
      path of the root, then that of the sysroot. */
  function Look(t: Target, rpath: seq<string>, needed: string): Line {
    LookFrom(t, rpath, needed, 0)
  }

  /** A library is found in the first directory that holds it. */
  lemma {:induction false} FirstDirIsFirst(t: Target, base: string, dirs: seq<string>, needed: string, k: nat, i: nat)
    requires k <= i <= |dirs| && forall j :: k <= j < i ==> !t.isFile(base + dirs[j] + "/" + needed)
    requires i < |dirs| ==> t.isFile(base + dirs[i] + "/" + needed)
    ensures FirstDir(t, base, dirs, needed, k) == if i < |dirs| then Some(dirs[i] + "/" + needed) else None
    decreases i - k
  {
    if k < i {
      FirstDirIsFirst(t, base, dirs, needed, k + 1, i);
    }
  }

  /** The file behind a line, if there is one. */
  function ElfOf(t: Target, line: Line): Elf {
    match line
    case Found(_, path, origin) => t.readelf(BaseOf(t, origin) + path)
    case NotFound(_) => Elf([], [])
  }

  /** The file of a library in a directory of a file system root. */
  function FileIn(base: string, dir: string, needed: string): string {
    base + dir + "/" + needed
  }

  /** The first of these directories to hold the library is the i-th. */
  ghost predicate IsFirstIn(t: Target, base: string, dirs: seq<string>, needed: string, i: nat) {
    && i < |dirs| && t.isFile(FileIn(base, dirs[i], needed))
    && forall j :: 0 <= j < i ==> !t.isFile(FileIn(base, dirs[j], needed))
  }

  ghost predicate IsNowhereIn(t: Target, base: string, dirs: seq<string>, needed: string) {
    forall j :: 0 <= j < |dirs| ==> !t.isFile(FileIn(base, dirs[j], needed))
  }

  /** What was found in a directory, and the file that is walked then. */
  ghost predicate Finds(t: Target, rpath: seq<string>, needed: string, base: string, dir: string, origin: Origin) {
    var line := Look(t, rpath, needed);
    && line == Found(needed, dir + "/" + needed, origin)
    && ElfOf(t, line) == t.readelf(FileIn(base, dir, needed))
  }

  lemma FileInPath(base: string, dir: string, needed: string)
    ensures base + (dir + "/" + needed) == FileIn(base, dir, needed)
  {
  }

  /** A directory on the RPATH decides, within the root. */
  lemma RpathComesFirst(t: Target, rpath: seq<string>, needed: string, i: nat)
    requires IsFirstIn(t, t.root, rpath, needed, i)
    ensures Finds(t, rpath, needed, t.root, rpath[i], ViaRpath)
  {
    FirstDirIsFirst(t, t.root, rpath, needed, 0, i);
    FileInPath(t.root, rpath[i], needed);
  }

  /** If none has the library, the search path decides, within the root. */
  lemma RootComesNext(t: Target, rpath: seq<string>, needed: string, i: nat)
    requires IsNowhereIn(t, t.root, rpath, needed) && IsFirstIn(t, t.root, t.searchPath, needed, i)
    ensures Finds(t, rpath, needed, t.root, t.searchPath[i], ViaRoot)
  {
    FirstDirIsFirst(t, t.root, rpath, needed, 0, |rpath|);
    FirstDirIsFirst(t, t.root, t.searchPath, needed, 0, i);
    FileInPath(t.root, t.searchPath[i], needed);
    assert Look(t, rpath, needed) == LookFrom(t, rpath, needed, 1);
  }

  /** If the root has it in none of these, the search path decides, within the sysroot. */
  lemma SysrootComesLast(t: Target, rpath: seq<string>, needed: string, i: nat)
    requires IsNowhereIn(t, t.root, rpath, needed) && IsNowhereIn(t, t.root, t.searchPath, needed)
    requires IsFirstIn(t, t.sysroot, t.searchPath, needed, i)
    ensures Finds(t, rpath, needed, t.sysroot, t.searchPath[i], ViaSysroot)
  {
    FirstDirIsFirst(t, t.root, rpath, needed, 0, |rpath|);
    FirstDirIsFirst(t, t.root, t.searchPath, needed, 0, |t.searchPath|);
    FirstDirIsFirst(t, t.sysroot, t.searchPath, needed, 0, i);
    FileInPath(t.sysroot, t.searchPath[i], needed);
    assert Look(t, rpath, needed) == LookFrom(t, rpath, needed, 1) == LookFrom(t, rpath, needed, 2);
  }

  /** A library is reported as missing exactly if none of these directories has it; then
      nothing is walked for it. */
  lemma MissingExactly(t: Target, rpath: seq<string>, needed: string)
    ensures Look(t, rpath, needed) == NotFound(needed) <==>
              && IsNowhereIn(t, t.root, rpath, needed) && IsNowhereIn(t, t.root, t.searchPath, needed)
              && IsNowhereIn(t, t.sysroot, t.searchPath, needed)
    ensures ElfOf(t, NotFound(needed)) == Elf([], [])
  {
    if !IsNowhereIn(t, t.root, rpath, needed) {
      var i := FirstIn(t, t.root, rpath, needed);
      RpathComesFirst(t, rpath, needed, i);
    } else if !IsNowhereIn(t, t.root, t.searchPath, needed) {
      var i := FirstIn(t, t.root, t.searchPath, needed);
      RootComesNext(t, rpath, needed, i);
    } else if !IsNowhereIn(t, t.sysroot, t.searchPath, needed) {
      var i := FirstIn(t, t.sysroot, t.searchPath, needed);
      SysrootComesLast(t, rpath, needed, i);
    } else {
      NowhereIsMissing(t, rpath, needed);
    }
  }

  lemma NowhereIsMissing(t: Target, rpath: seq<string>, needed: string)
    requires IsNowhereIn(t, t.root, rpath, needed) && IsNowhereIn(t, t.root, t.searchPath, needed)
    requires IsNowhereIn(t, t.sysroot, t.searchPath, needed)
    ensures Look(t, rpath, needed) == NotFound(needed)
  {
    FirstDirIsFirst(t, t.root, rpath, needed, 0, |rpath|);
    FirstDirIsFirst(t, t.root, t.searchPath, needed, 0, |t.searchPath|);
    FirstDirIsFirst(t, t.sysroot, t.searchPath, needed, 0, |t.searchPath|);
    assert LookFrom(t, rpath, needed, 1) == LookFrom(t, rpath, needed, 2) == NotFound(needed);
  }

  lemma FirstIn(t: Target, base: string, dirs: seq<string>, needed: string) returns (i: nat)
    requires !IsNowhereIn(t, base, dirs, needed)
    ensures IsFirstIn(t, base, dirs, needed, i)
  {
    i := 0;
    while !t.isFile(FileIn(base, dirs[i], needed))
      invariant i < |dirs| && forall j :: 0 <= j < i ==> !t.isFile(FileIn(base, dirs[j], needed))
      decreases |dirs| - i
    {
      i := i + 1;
    }
  }

  // ---------- The walk ----------

  datatype Walk = Walk(neededList: seq<string>, report: seq<Line>)

  ghost function Left(t: Target, w: Walk): set<string> {
    t.universe - set n | n in w.neededList
  }

  /** A name enters the list, and its line the report. */
  function Enter(t: Target, w: Walk, rpath: seq<string>, n: string): Walk {
    Walk(w.neededList + [n], w.report + [Look(t, rpath, n)])
  }

  ghost predicate AreNames(t: Target, names: seq<string>) {
    IsFinite(t) && forall n :: n in names ==> n in t.universe
  }

  /** The names from the k-th on: each new one is reported, and what its file needs is
      walked with the longer search path before the next name. */
  ghost function Handle(t: Target, w: Walk, rpath: seq<string>, names: seq<string>, k: nat): (r: Walk)
    requires AreNames(t, names)
    ensures w.neededList <= r.neededList && w.report <= r.report
    decreases |Left(t, w)|, |names| - k
  {
    if k >= |names| then w
    else if names[k] in w.neededList then Handle(t, w, rpath, names, k + 1)
    else
      var entered := Enter(t, w, rpath, names[k]);
      var elf := ElfOf(t, Look(t, rpath, names[k]));
      Shrinks(t, w, rpath, names[k]);
      var below := Handle(t, entered, rpath + elf.rpaths, elf.needed, 0);
      StaysSmall(t, entered, below);
      Handle(t, below, rpath, names, k + 1)
  }

  lemma Shrinks(t: Target, w: Walk, rpath: seq<string>, n: string)
    requires n in t.universe && n !in w.neededList
    ensures |Left(t, Enter(t, w, rpath, n))| < |Left(t, w)|
  {
    assert Left(t, Enter(t, w, rpath, n)) == Left(t, w) - {n};
  }

  lemma StaysSmall(t: Target, w: Walk, r: Walk)
    requires w.neededList <= r.neededList
    ensures |Left(t, r)| <= |Left(t, w)|
  {
    assert forall n :: n in w.neededList ==> n in r.neededList;
    SmallerSet(Left(t, r), Left(t, w));
  }

  /** A new name: what is entered, what its file says, and the walk below it. */
  lemma NewName(t: Target, w: Walk, rpath: seq<string>, names: seq<string>, k: nat)
    returns (entered: Walk, elf: Elf, below: Walk, r: Walk)
    requires AreNames(t, names) && k < |names| && names[k] !in w.neededList
    ensures entered == Enter(t, w, rpath, names[k]) && elf == ElfOf(t, Look(t, rpath, names[k])) && AreNames(t, elf.needed)
    ensures below == Handle(t, entered, rpath + elf.rpaths, elf.needed, 0)
    ensures r == Handle(t, below, rpath, names, k + 1) == Handle(t, w, rpath, names, k)
    ensures |Left(t, entered)| < |Left(t, w)| && |Left(t, below)| < |Left(t, w)|
    ensures below.neededList <= r.neededList && below.report <= r.report
    ensures entered.neededList <= below.neededList && entered.report <= below.report
  {
    entered, elf := Enter(t, w, rpath, names[k]), ElfOf(t, Look(t, rpath, names[k]));
    Shrinks(t, w, rpath, names[k]);
    below := Handle(t, entered, rpath + elf.rpaths, elf.needed, 0);
    StaysSmall(t, entered, below);
    r := Handle(t, below, rpath, names, k + 1);
  }

  // ---------- One line for each name ----------

  /** The report holds a line for every name on the list, in the same order, and no name
      is on the list twice. */
  ghost predicate IsTidy(w: Walk) {
    && |w.report| == |w.neededList|
    && (forall i :: 0 <= i < |w.report| ==> w.report[i].needed == w.neededList[i])
    && (forall i, j :: 0 <= i < j < |w.neededList| ==> w.neededList[i] != w.neededList[j])
  }

  lemma {:induction false} LookNames(t: Target, rpath: seq<string>, needed: string, k: nat)
    ensures LookFrom(t, rpath, needed, k).needed == needed
    decreases |ORIGINS| - k
  {
    if k < |ORIGINS| && FirstDir(t, BaseOf(t, ORIGINS[k]), DirsOf(t, rpath, ORIGINS[k]), needed, 0).None? {
      LookNames(t, rpath, needed, k + 1);
    }
  }

  lemma EnterIsTidy(t: Target, w: Walk, rpath: seq<string>, n: string)
    requires IsTidy(w) && n !in w.neededList
    ensures IsTidy(Enter(t, w, rpath, n))
  {
    LookNames(t, rpath, n, 0);
  }

  lemma {:induction false} HandleIsTidy(t: Target, w: Walk, rpath: seq<string>, names: seq<string>, k: nat)
    requires AreNames(t, names) && IsTidy(w)
    ensures IsTidy(Handle(t, w, rpath, names, k))
    decreases |Left(t, w)|, |names| - k
  {
    if k < |names| {
      if names[k] in w.neededList {
        HandleIsTidy(t, w, rpath, names, k + 1);
      } else {
        var entered, elf, below, _ := NewName(t, w, rpath, names, k);
        EnterIsTidy(t, w, rpath, names[k]);
        HandleIsTidy(t, entered, rpath + elf.rpaths, elf.needed, 0);
        HandleIsTidy(t, below, rpath, names, k + 1);
      }
    }
  }

  // ---------- Nothing is left out ----------

  /** What the files behind the lines from the n-th on need is on the list. */
  ghost predicate IsClosed(t: Target, w: Walk, n: nat) {
    forall i, m :: n <= i < |w.report| && m in ElfOf(t, w.report[i]).needed ==> m in w.neededList
  }

  ghost predicate AreListed(w: Walk, names: seq<string>, k: nat) {
    forall i :: k <= i < |names| ==> names[i] in w.neededList
  }

  lemma ClosedSoFar(t: Target, w: Walk, below: Walk, r: Walk, n: nat)
    requires w.report <= below.report <= r.report && below.neededList <= r.neededList
    requires IsClosed(t, below, |w.report|) && IsClosed(t, r, |below.report|) && n == |w.report|
    ensures IsClosed(t, r, n)
  {
    forall i, m | n <= i < |r.report| && m in ElfOf(t, r.report[i]).needed
      ensures m in r.neededList
    {
      if i < |below.report| {
        assert r.report[i] == below.report[i];
        assert m in below.neededList;
      }
    }
  }

  /** On the way out, all names are on the list, and the list is closed under need. */
  lemma {:induction false} NothingIsLeftOut(t: Target, w: Walk, rpath: seq<string>, names: seq<string>, k: nat)
    requires AreNames(t, names)
    ensures var r := Handle(t, w, rpath, names, k);
            AreListed(r, names, k) && IsClosed(t, r, |w.report|)
    decreases |Left(t, w)|, |names| - k
  {
    if k < |names| {
      if names[k] in w.neededList {
        NothingIsLeftOut(t, w, rpath, names, k + 1);
      } else {
        var entered, elf, below, r := NewName(t, w, rpath, names, k);
        NothingIsLeftOut(t, entered, rpath + elf.rpaths, elf.needed, 0);
        EnteredIsClosed(t, w, rpath, names[k], below);
        NothingIsLeftOut(t, below, rpath, names, k + 1);
        ClosedSoFar(t, w, below, r, |w.report|);
      }
    }
  }

  lemma EnteredIsClosed(t: Target, w: Walk, rpath: seq<string>, n: string, below: Walk)
    requires var entered, needed := Enter(t, w, rpath, n), ElfOf(t, Look(t, rpath, n)).needed;
             && entered.report <= below.report && entered.neededList <= below.neededList
             && IsClosed(t, below, |entered.report|)
             && AreListed(below, needed, 0)
    ensures IsClosed(t, below, |w.report|) && n in below.neededList
  {
    var entered, needed := Enter(t, w, rpath, n), ElfOf(t, Look(t, rpath, n)).needed;
    assert entered.neededList[|w.neededList|] == n == below.neededList[|w.neededList|];
    forall i, m | |w.report| <= i < |below.report| && m in ElfOf(t, below.report[i]).needed
      ensures m in below.neededList
    {
      if i == |w.report| {
        assert below.report[i] == entered.report[i] == Look(t, rpath, n);
        var j :| 0 <= j < |needed| && needed[j] == m;
      }
    }
  }

  // ---------- Nothing is added, and every library is looked up rightly ----------

  /** From the n-th line on: the i-th name is needed along a chain of files that starts
      with the given names, this is the search path along the chain, and the line is what
      looking there gives. */
  ghost predicate IsReached(t: Target, r: Walk, n: nat, rpath: seq<string>, names: seq<string>, i: nat, path: seq<string>)
    decreases i
  {
    && n <= i < |r.neededList| && i < |r.report|
    && r.report[i] == Look(t, path, r.neededList[i])
    && ((r.neededList[i] in names && path == rpath)
        || exists j, above :: 0 <= j < i && IsReached(t, r, n, rpath, names, j, above) && IsBelow(t, r, j, above, i, path))
  }

  /** The file behind the j-th line needs the i-th name, and extends the search path. */
  predicate IsBelow(t: Target, r: Walk, j: nat, above: seq<string>, i: nat, path: seq<string>) {
    && j < |r.report| && i < |r.neededList|
    && r.neededList[i] in ElfOf(t, r.report[j]).needed
    && path == above + ElfOf(t, r.report[j]).rpaths
  }

  lemma {:induction false} ReachedLater(t: Target, w: Walk, r: Walk, n: nat, rpath: seq<string>, names: seq<string>, i: nat, path: seq<string>)
    requires w.neededList <= r.neededList && w.report <= r.report && IsReached(t, w, n, rpath, names, i, path)
    ensures IsReached(t, r, n, rpath, names, i, path)
    decreases i
  {
    if !(w.neededList[i] in names && path == rpath) {
      var j, above :| 0 <= j < i && IsReached(t, w, n, rpath, names, j, above) && IsBelow(t, w, j, above, i, path);
      ReachedLater(t, w, r, n, rpath, names, j, above);
      assert IsBelow(t, r, j, above, i, path);
    }
  }

  lemma {:induction false} ReachedFromFurtherOn(t: Target, r: Walk, n: nat, m: nat, rpath: seq<string>, names: seq<string>, i: nat, path: seq<string>)
    requires m <= n && IsReached(t, r, n, rpath, names, i, path)
    ensures IsReached(t, r, m, rpath, names, i, path)
    decreases i
  {
    if !(r.neededList[i] in names && path == rpath) {
      var j, above :| 0 <= j < i && IsReached(t, r, n, rpath, names, j, above) && IsBelow(t, r, j, above, i, path);
      ReachedFromFurtherOn(t, r, n, m, rpath, names, j, above);
    }
  }

  /** What is reached from a file that is reached itself. */
  lemma {:induction false} ReachedThrough(t: Target, r: Walk, n: nat, rpath: seq<string>, names: seq<string>, elf: Elf, i: nat, path: seq<string>)
    requires n < |r.report| && IsReached(t, r, n, rpath, names, n, rpath) && elf == ElfOf(t, r.report[n])
    requires IsReached(t, r, n + 1, rpath + elf.rpaths, elf.needed, i, path)
    ensures IsReached(t, r, n, rpath, names, i, path)
    decreases i
  {
    if r.neededList[i] in elf.needed && path == rpath + elf.rpaths {
      assert IsBelow(t, r, n, rpath, i, path);
    } else {
      var j, above :| 0 <= j < i && IsReached(t, r, n + 1, rpath + elf.rpaths, elf.needed, j, above) && IsBelow(t, r, j, above, i, path);
      ReachedThrough(t, r, n, rpath, names, elf, j, above);
    }
  }

  /** Nothing is added: every new name is needed along such a chain, and its line is the
      result of looking along the RPATHs of that chain. */
  lemma {:induction false} NothingIsAdded(t: Target, w: Walk, rpath: seq<string>, names: seq<string>, k: nat, i: nat) returns (path: seq<string>)
    requires AreNames(t, names) && |w.report| == |w.neededList| <= i < |Handle(t, w, rpath, names, k).neededList|
    ensures IsReached(t, Handle(t, w, rpath, names, k), |w.neededList|, rpath, names, i, path)
    decreases |Left(t, w)|, |names| - k
  {
    if names[k] in w.neededList {
      path := NothingIsAdded(t, w, rpath, names, k + 1, i);
    } else {
      var entered, elf, below, r := NewName(t, w, rpath, names, k);
      var n := |w.neededList|;
      assert IsReached(t, entered, n, rpath, names, n, rpath);
      ReachedLater(t, entered, below, n, rpath, names, n, rpath);
      if i == n {
        path := rpath;
        ReachedLater(t, below, r, n, rpath, names, n, rpath);
      } else if i < |below.neededList| {
        path := NothingIsAdded(t, entered, rpath + elf.rpaths, elf.needed, 0, i);
        ReachedThrough(t, below, n, rpath, names, elf, i, path);
        ReachedLater(t, below, r, n, rpath, names, i, path);
      } else {
        SameLength(t, entered, rpath + elf.rpaths, elf.needed, 0);
        path := NothingIsAdded(t, below, rpath, names, k + 1, i);
        ReachedFromFurtherOn(t, r, |below.neededList|, n, rpath, names, i, path);
      }
    }
  }

  lemma {:induction false} SameLength(t: Target, w: Walk, rpath: seq<string>, names: seq<string>, k: nat)
    requires AreNames(t, names) && |w.report| == |w.neededList|
    ensures var r := Handle(t, w, rpath, names, k); |r.report| == |r.neededList|
    decreases |Left(t, w)|, |names| - k
  {
    if k < |names| {
      if names[k] in w.neededList {
        SameLength(t, w, rpath, names, k + 1);
      } else {
        var entered, elf, below, _ := NewName(t, w, rpath, names, k);
        SameLength(t, entered, rpath + elf.rpaths, elf.needed, 0);
        SameLength(t, below, rpath, names, k + 1);
      }
    }
  }

  // ---------- The whole walk ----------

  /** The walk of a program. */
  ghost function WalkOf(t: Target, file: string): Walk
    requires IsFinite(t)
  {
    Handle(t, Walk([], []), t.readelf(file).rpaths, t.readelf(file).needed, 0)
  }

  ghost predicate IsClosedSet(t: Target, w: Walk, names: seq<string>, all: set<string>) {
    && (forall n :: n in names ==> n in all)
    && (forall i, m :: 0 <= i < |w.report| && i < |w.neededList| && w.neededList[i] in all && m in ElfOf(t, w.report[i]).needed
          ==> m in all)
  }

  lemma {:induction false} ReachedIsInClosedSet(t: Target, w: Walk, rpath: seq<string>, names: seq<string>, i: nat, path: seq<string>, all: set<string>)
    requires IsReached(t, w, 0, rpath, names, i, path) && IsClosedSet(t, w, names, all)
    ensures w.neededList[i] in all
    decreases i
  {
    if w.neededList[i] !in names {
      var j, above :| 0 <= j < i && IsReached(t, w, 0, rpath, names, j, above) && IsBelow(t, w, j, above, i, path);
      ReachedIsInClosedSet(t, w, rpath, names, j, above, all);
    }
  }

  /** The names listed for a program, each once, are the least set that holds what the
      program needs and what the file of each of its names needs. */
  lemma ListIsLeastClosedSet(t: Target, file: string, all: set<string>)
    requires IsFinite(t)
    ensures var w, names := WalkOf(t, file), t.readelf(file).needed;
            && IsTidy(w)
            && IsClosedSet(t, w, names, set n | n in w.neededList)
            && (IsClosedSet(t, w, names, all) ==> forall n :: n in w.neededList ==> n in all)
  {
    var elf := t.readelf(file);
    var empty, w := Walk([], []), WalkOf(t, file);
    HandleIsTidy(t, empty, elf.rpaths, elf.needed, 0);
    NothingIsLeftOut(t, empty, elf.rpaths, elf.needed, 0);
    if IsClosedSet(t, w, elf.needed, all) {
      forall i | 0 <= i < |w.neededList|
        ensures w.neededList[i] in all
      {
        var path := NothingIsAdded(t, empty, elf.rpaths, elf.needed, 0, i);
        ReachedIsInClosedSet(t, w, elf.rpaths, elf.needed, i, path, all);
      }
    }
  }

  // ---------- The script ----------

  class Ldd {
    const target: Target
    var neededList: seq<string>
    var searchRpath: seq<string>
    var report: seq<Line>

    ghost function View(): Walk
      reads this
    {
      Walk(neededList, report)
    }

    constructor (target: Target)
      ensures this.target == target && View() == Walk([], []) && searchRpath == []
    {
      this.target, neededList, searchRpath, report := target, [], [], [];
    }

    method Search(needed: string) returns (line: Line)
      ensures line == Look(target, searchRpath, needed)
    {
      for k := 0 to |ORIGINS|
        invariant Look(target, searchRpath, needed) == LookFrom(target, searchRpath, needed, k)
      {
        var base := BaseOf(target, ORIGINS[k]);
        var dirs := if ORIGINS[k] == ViaRpath then searchRpath else target.searchPath;
        for i := 0 to |dirs|
          invariant forall j :: 0 <= j < i ==> !target.isFile(base + dirs[j] + "/" + needed)
        {
          if target.isFile(base + dirs[i] + "/" + needed) {
            FirstDirIsFirst(target, base, dirs, needed, 0, i);
            return Found(needed, dirs[i] + "/" + needed, ORIGINS[k]);
          }
        }
        FirstDirIsFirst(target, base, dirs, needed, 0, |dirs|);
      }
      return NotFound(needed);
    }

    /** Reports a name that was just put on the list, and walks its file. */
    method FindNeeded(needed: string, ghost w: Walk)
      requires IsFinite(target) && View() == Walk(w.neededList + [needed], w.report)
      modifies this`neededList, this`searchRpath, this`report
      ensures searchRpath == old(searchRpath)
      ensures var elf := ElfOf(target, Look(target, searchRpath, needed));
              View() == Handle(target, Enter(target, w, searchRpath, needed), searchRpath + elf.rpaths, elf.needed, 0)
      decreases |Left(target, View())|, 2
    {
      var line := Search(needed);
      report := report + [line];
      if line.Found? {
        ProcessFile(BaseOf(target, line.origin) + line.path);
      }
    }

    /** Walks what a file needs; the search path is restored at the end. */
    method ProcessFile(file: string)
      requires IsFinite(target)
      modifies this`neededList, this`searchRpath, this`report
      ensures searchRpath == old(searchRpath)
      ensures var elf := target.readelf(file);
              View() == Handle(target, old(View()), searchRpath + elf.rpaths, elf.needed, 0)
      decreases |Left(target, View())|, 1
    {
      var saveSearchRpath := searchRpath;
      var elf := target.readelf(file);
      searchRpath := searchRpath + elf.rpaths;
      ghost var all := Handle(target, old(View()), searchRpath, elf.needed, 0);
      for k := 0 to |elf.needed|
        invariant searchRpath == saveSearchRpath + elf.rpaths
        invariant old(View()).neededList <= neededList
        invariant all == Handle(target, View(), searchRpath, elf.needed, k)
      {
        StaysSmall(target, old(View()), View());
        HandleName(elf.needed, k);
      }
      searchRpath := saveSearchRpath;
    }

    /** One turn of that loop. */
    method HandleName(needed: seq<string>, k: nat)
      requires AreNames(target, needed) && k < |needed|
      modifies this`neededList, this`searchRpath, this`report
      ensures searchRpath == old(searchRpath) && old(neededList) <= neededList
      ensures Handle(target, View(), searchRpath, needed, k + 1) == Handle(target, old(View()), searchRpath, needed, k)
      decreases |Left(target, View())|, 0
    {
      var n := needed[k];
      var found := IsKnown(n);
      if !found {
        ghost var w := View();
        var _, _, _, _ := NewName(target, w, searchRpath, needed, k);
        neededList := neededList + [n];
        assert Left(target, View()) == Left(target, w) - {n};
        FindNeeded(n, w);
      }
    }

    method IsKnown(n: string) returns (found: bool)
      ensures found <==> n in neededList
    {
      found := false;
      for i := 0 to |neededList|
        invariant n !in neededList[..i]
      {
        if n == neededList[i] {
          return true;
        }
      }
    }
  }
}
