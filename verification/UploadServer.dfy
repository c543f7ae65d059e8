/** Uploads on the side of the file manager server: a small table of pending uploads,
    driven by messages, expiry and disconnects. Each message handler is one step; a run
    is any sequence of steps of any number of connections. */
module UploadServer {
  import opened Wrappers
  import opened Sets

  const MAX_PATH_LENGTH: nat := 4096
  const MAX_FILE_UPLOAD_SIZE: nat := 4 * 1024 * 1024 * 1024
  const MAX_UPLOAD_BLOCK_DATA_SIZE: nat := 5 * 1024 * 1024
  const MAX_PENDING_UPLOADS: nat := 5
  const VALIDITY_TIME: nat := 10_000_000_000

  /** The path policy, and the place on the disk that a path names: different paths may
      name one place. */
  datatype Config = Config(allowed: string -> bool, place: string -> string)

  /** An entry of the table. Its file is open: `handle` numbers the files opened so far. */
  datatype Pending = Pending(conn: nat, path: string, size: nat, received: nat, handle: nat, expiresAt: int)

  datatype State = State(
    table: map<string, Pending>,
    files: map<string, Data>,
    created: nat,
    closed: multiset<nat>,
    running: set<nat>,
    connections: nat,
    now: int)

  /** `fault` is the error that creating or writing the file ends with, if any. */
  datatype Step =
    | Connect
    | Upload(conn: nat, path: string, size: Option<nat>, fault: Option<string>)
    | Block(conn: nat, path: string, content: Data, fault: Option<string>)
    | Cancel(conn: nat, path: string)
    | Disconnect(conn: nat)
    | Sweep(path: string)
    | Wait(time: nat)

  datatype Reply = Done | Refused(message: string) | NoReply

  /** What a step does to the table and the disk. */
  datatype Effect =
    | Nothing
    | Creates(conn: nat, path: string, size: nat)
    | Appends(path: string, content: Data)
    | Finishes(path: string, content: Data)
    | Drops(paths: set<string>)

  datatype Verdict = Verdict(effect: Effect, reply: Reply)

  // ---------- The table and the disk ----------

  /** A lookup sees no expired entry, even while the table still holds it. */
  function Find(s: State, path: string): Option<Pending> {
    if path in s.table && s.now <= s.table[path].expiresAt then Some(s.table[path]) else None
  }

  /** The transfers that a connection may act on. */
  predicate IsOwn(s: State, conn: nat, path: string) {
    Find(s, path).Some? && s.table[path].conn == conn
  }

  function Places(cf: Config, paths: set<string>): set<string> {
    set p | p in paths :: cf.place(p)
  }

  function Handles(s: State, paths: set<string>): set<nat> {
    set p | p in paths && p in s.table :: s.table[p].handle
  }

  /** Entries leave the table unfinished: files are closed and removed. */
  function Drop(cf: Config, s: State, paths: set<string>): State {
    s.(table := s.table - paths,
       files := s.files - Places(cf, paths),
       closed := s.closed + multiset(Handles(s, paths)))
  }

  /** An entry leaves the table complete: its file is closed and stays. */
  function Finish(s: State, path: string): State
    requires path in s.table
  {
    s.(table := s.table - {path}, closed := s.closed + multiset{s.table[path].handle})
  }

  /** A new empty file; the file of an empty upload is closed at once. */
  function Create(cf: Config, s: State, conn: nat, path: string, size: nat): State {
    var files := s.files[cf.place(path) := []];
    if size == 0 then s.(files := files, created := s.created + 1, closed := s.closed + multiset{s.created})
    else
      s.(table := s.table[path := Pending(conn, path, size, 0, s.created, s.now + VALIDITY_TIME)],
         files := files, created := s.created + 1)
  }

  function Renew(s: State, path: string): State
    requires path in s.table
  {
    s.(table := s.table[path := s.table[path].(expiresAt := s.now + VALIDITY_TIME)])
  }

  function Append(cf: Config, s: State, path: string, content: Data): State
    requires path in s.table && cf.place(path) in s.files
  {
    var e := s.table[path];
    s.(table := s.table[path := e.(received := e.received + |content|)],
       files := s.files[cf.place(path) := s.files[cf.place(path)] + content])
  }

  // ---------- The handlers ----------

  function PathError(path: string): Option<string> {
    if path == "" then Some("path missing")
    else if |path| > MAX_PATH_LENGTH then Some("path too long")
    else None
  }

  function UploadError(cf: Config, s: State, path: string, size: Option<nat>): Option<string> {
    if PathError(path).Some? then PathError(path)
    else if size.None? then Some("size missing")
    else if size.value > MAX_FILE_UPLOAD_SIZE then Some("size too big")
    else if !cf.allowed(path) then Some("no such file or directory")
    else if |s.table| >= MAX_PENDING_UPLOADS then Some("too much transfers in progress")
    else if Find(s, path).Some? then Some("upload in progress")
    else if cf.place(path) in s.files then Some("file already exists")
    else None
  }

  function OnUpload(cf: Config, s: State, conn: nat, path: string, size: Option<nat>, fault: Option<string>): Verdict {
    var error := UploadError(cf, s, path, size);
    if error.Some? then Verdict(Nothing, Refused(error.value))
    else if fault.Some? then Verdict(Nothing, Refused(fault.value))
    else if size.None? then Verdict(Nothing, Refused("size missing"))
    else Verdict(Creates(conn, path, size.value), Done)
  }

  function BlockError(s: State, conn: nat, path: string, content: Data): Option<string> {
    if PathError(path).Some? then PathError(path)
    else if content == [] then Some("data missing")
    else if |content| > MAX_UPLOAD_BLOCK_DATA_SIZE then Some("data too big")
    else if !IsOwn(s, conn, path) then Some("transfer not found")
    else None
  }

  function OnBlock(s: State, conn: nat, path: string, content: Data, fault: Option<string>): Verdict {
    var error := BlockError(s, conn, path, content);
    if error.Some? then Verdict(Nothing, Refused(error.value))
    else if path !in s.table then Verdict(Nothing, Refused("transfer not found"))
    else Receive(s.table[path], path, content, fault)
  }

  function Receive(e: Pending, path: string, content: Data, fault: Option<string>): Verdict {
    if e.received + |content| > e.size then Verdict(Drops({path}), Refused("too much data received"))
    else if fault.Some? then Verdict(Drops({path}), Refused(fault.value))
    else if e.received + |content| == e.size then Verdict(Finishes(path, content), Done)
    else Verdict(Appends(path, content), Done)
  }

  function OnCancel(s: State, conn: nat, path: string): Verdict {
    var error := PathError(path);
    if error.Some? then Verdict(Nothing, Refused(error.value))
    else if !IsOwn(s, conn, path) then Verdict(Nothing, Refused("transfer not found"))
    else Verdict(Drops({path}), Done)
  }

  /** The clean-up when a message loop ends; it does not see expired entries. */
  function OwnTransfers(s: State, conn: nat): set<string> {
    set p | p in s.table && IsOwn(s, conn, p)
  }

  /** The table discards an expired entry. */
  function OnSweep(s: State, path: string): Effect {
    if path in s.table && Find(s, path).None? then Drops({path}) else Nothing
  }

  predicate IsHeard(s: State, step: Step) {
    (step.Upload? || step.Block? || step.Cancel? || step.Disconnect?) ==> step.conn in s.running
  }

  /** Nothing is heard from a connection whose loop does not run. */
  function Decide(cf: Config, s: State, step: Step): Verdict {
    if !IsHeard(s, step) then Verdict(Nothing, NoReply)
    else match step
      case Upload(conn, path, size, fault) => OnUpload(cf, s, conn, path, size, fault)
      case Block(conn, path, content, fault) => OnBlock(s, conn, path, content, fault)
      case Cancel(conn, path) => OnCancel(s, conn, path)
      case Disconnect(conn) => Verdict(Drops(OwnTransfers(s, conn)), NoReply)
      case Sweep(path) => Verdict(OnSweep(s, path), NoReply)
      case Connect => Verdict(Nothing, NoReply)
      case Wait(_) => Verdict(Nothing, NoReply)
  }

  function Perform(cf: Config, s: State, effect: Effect): State {
    match effect
    case Nothing => s
    case Creates(conn, path, size) => Create(cf, s, conn, path, size)
    case Appends(path, content) => if IsStored(cf, s, path) then Append(cf, Renew(s, path), path, content) else s
    case Finishes(path, content) =>
      if IsStored(cf, s, path) then Finish(Append(cf, Renew(s, path), path, content), path) else s
    case Drops(paths) => Drop(cf, s, paths)
  }

  predicate IsStored(cf: Config, s: State, path: string) {
    path in s.table && cf.place(path) in s.files
  }

  /** The connections and the clock. */
  function Advance(s: State, step: Step): State {
    match step
    case Connect => s.(running := s.running + {s.connections}, connections := s.connections + 1)
    case Disconnect(conn) => s.(running := s.running - {conn})
    case Wait(time) => s.(now := s.now + time)
    case _ => s
  }

  /** One step of the server. */
  function Apply(cf: Config, s: State, step: Step): State {
    Advance(Perform(cf, s, Decide(cf, s, step).effect), step)
  }

  function Run(cf: Config, s: State, steps: seq<Step>): State
    decreases |steps|
  {
    if steps == [] then s else Apply(cf, Run(cf, s, steps[..|steps| - 1]), steps[|steps| - 1])
  }

  // ---------- What every step keeps ----------

  /** The file of a pending upload is there, as long as what was received, and short of
      what was announced; its owner is still connected, unless the upload has expired. */
  ghost predicate EntryHolds(cf: Config, s: State, path: string, e: Pending) {
    && e.path == path && PathError(path).None?
    && e.received < e.size <= MAX_FILE_UPLOAD_SIZE
    && cf.place(path) in s.files && |s.files[cf.place(path)]| == e.received
    && e.expiresAt <= s.now + VALIDITY_TIME
    && e.conn < s.connections
    && (e.conn in s.running || e.expiresAt < s.now)
  }

  ghost predicate IsOpen(s: State, h: nat) {
    exists p :: p in s.table && s.table[p].handle == h
  }

  /** Every file ever opened is either open in the table or was closed exactly once. */
  ghost predicate HandleHolds(s: State, h: nat) {
    s.closed[h] == if h < s.created && !IsOpen(s, h) then 1 else 0
  }

  ghost predicate HandlesHold(s: State) {
    && (forall p :: p in s.table ==> s.table[p].handle < s.created)
    && (forall h :: HandleHolds(s, h))
  }

  ghost predicate EntriesHold(cf: Config, s: State) {
    forall p :: p in s.table ==> EntryHolds(cf, s, p, s.table[p])
  }

  ghost predicate AreSeparate(cf: Config, table: map<string, Pending>) {
    forall p, q :: p in table && q in table && p != q ==>
      cf.place(p) != cf.place(q) && table[p].handle != table[q].handle
  }

  ghost predicate ConnectionsHold(s: State) {
    forall c :: c in s.running ==> c < s.connections
  }

  ghost predicate Holds(cf: Config, s: State) {
    && |s.table| <= MAX_PENDING_UPLOADS
    && EntriesHold(cf, s)
    && AreSeparate(cf, s.table)
    && HandlesHold(s)
    && ConnectionsHold(s)
  }

  /** What dropping closes is what it takes from the table. */
  lemma DropCloses(cf: Config, s: State, paths: set<string>, h: nat)
    requires AreSeparate(cf, s.table) && paths <= s.table.Keys
    ensures var t := Drop(cf, s, paths);
            && (IsOpen(s, h) <==> IsOpen(t, h) || h in Handles(s, paths))
            && !(IsOpen(t, h) && h in Handles(s, paths))
  {
    var t := Drop(cf, s, paths);
    if IsOpen(s, h) {
      var p :| p in s.table && s.table[p].handle == h;
      assert p in paths || (p in t.table && t.table[p].handle == h);
    }
    if IsOpen(t, h) {
      var p :| p in t.table && t.table[p].handle == h;
      assert p in s.table && s.table[p].handle == h;
      assert forall q :: q in paths ==> s.table[q].handle != h;
    }
  }

  lemma DropKeepsHandles(cf: Config, s: State, paths: set<string>)
    requires AreSeparate(cf, s.table) && HandlesHold(s) && paths <= s.table.Keys
    ensures HandlesHold(Drop(cf, s, paths))
  {
    var t := Drop(cf, s, paths);
    forall h
      ensures HandleHolds(t, h)
    {
      assert HandleHolds(s, h);
      DropCloses(cf, s, paths, h);
    }
  }

  /** What a transfer is about besides its progress. */
  predicate IsSameTransfer(a: Pending, b: Pending) {
    a.conn == b.conn && a.path == b.path && a.size == b.size && a.handle == b.handle
  }

  predicate HaveSameTransfers(a: map<string, Pending>, b: map<string, Pending>) {
    a.Keys == b.Keys && forall p :: p in a ==> IsSameTransfer(a[p], b[p])
  }

  lemma SameTransfersKeep(cf: Config, s: State, t: State)
    requires HandlesHold(s) && AreSeparate(cf, s.table) && |s.table| <= MAX_PENDING_UPLOADS
    requires HaveSameTransfers(s.table, t.table) && t.closed == s.closed && t.created == s.created
    ensures HandlesHold(t) && AreSeparate(cf, t.table) && |t.table| <= MAX_PENDING_UPLOADS
  {
    SmallerMap(t.table, s.table);
    assert forall p :: p in t.table ==> IsSameTransfer(s.table[p], t.table[p]);
    forall h
      ensures HandleHolds(t, h)
    {
      assert HandleHolds(s, h);
      assert IsOpen(t, h) <==> IsOpen(s, h);
    }
  }

  lemma DropKeeps(cf: Config, s: State, paths: set<string>)
    requires Holds(cf, s) && paths <= s.table.Keys
    ensures Holds(cf, Drop(cf, s, paths))
  {
    SmallerMap(Drop(cf, s, paths).table, s.table);
    DropKeepsHandles(cf, s, paths);
    DropKeepsEntries(cf, s, paths);
  }

  lemma DropKeepsEntries(cf: Config, s: State, paths: set<string>)
    requires EntriesHold(cf, s) && AreSeparate(cf, s.table) && paths <= s.table.Keys
    ensures EntriesHold(cf, Drop(cf, s, paths))
  {
    var t := Drop(cf, s, paths);
    forall p | p in t.table
      ensures EntryHolds(cf, t, p, t.table[p])
    {
      assert EntryHolds(cf, s, p, s.table[p]);
      assert forall q :: q in paths ==> cf.place(q) != cf.place(p);
    }
  }

  /** A block changes the file of its own entry only. */
  lemma BlockKeepsOthers(cf: Config, s: State, path: string, content: Data)
    requires EntriesHold(cf, s) && AreSeparate(cf, s.table) && path in s.table && cf.place(path) in s.files
    ensures var t := Append(cf, Renew(s, path), path, content);
            forall p :: p in s.table && p != path ==> p in t.table && t.table[p] == s.table[p] && EntryHolds(cf, t, p, t.table[p])
  {
    forall p | p in s.table && p != path
      ensures EntryHolds(cf, Append(cf, Renew(s, path), path, content), p, s.table[p])
    {
      assert EntryHolds(cf, s, p, s.table[p]);
    }
  }

  lemma AppendKeeps(cf: Config, s: State, path: string, content: Data)
    requires Holds(cf, s) && path in s.table && cf.place(path) in s.files
    requires s.table[path].conn in s.running
    requires s.table[path].received + |content| < s.table[path].size
    ensures Holds(cf, Append(cf, Renew(s, path), path, content))
  {
    var t := Append(cf, Renew(s, path), path, content);
    BlockKeepsOthers(cf, s, path, content);
    assert EntryHolds(cf, s, path, s.table[path]);
    assert EntryHolds(cf, t, path, t.table[path]);
    assert t.table.Keys == s.table.Keys;
    SameTransfersKeep(cf, s, t);
  }

  lemma FinishKeeps(cf: Config, s: State, path: string, content: Data)
    requires Holds(cf, s) && path in s.table && cf.place(path) in s.files
    ensures Holds(cf, Finish(Append(cf, Renew(s, path), path, content), path))
  {
    FinishKeepsEntries(cf, s, path, content);
    FinishKeepsHandles(cf, s, Finish(Append(cf, Renew(s, path), path, content), path), path);
  }

  lemma FinishKeepsEntries(cf: Config, s: State, path: string, content: Data)
    requires EntriesHold(cf, s) && AreSeparate(cf, s.table) && path in s.table && cf.place(path) in s.files
    ensures EntriesHold(cf, Finish(Append(cf, Renew(s, path), path, content), path))
  {
    var a := Append(cf, Renew(s, path), path, content);
    var t := Finish(a, path);
    BlockKeepsOthers(cf, s, path, content);
    forall p | p in t.table
      ensures EntryHolds(cf, t, p, t.table[p])
    {
      assert EntryHolds(cf, a, p, a.table[p]);
    }
  }

  lemma FinishKeepsHandles(cf: Config, s: State, t: State, path: string)
    requires HandlesHold(s) && AreSeparate(cf, s.table) && |s.table| <= MAX_PENDING_UPLOADS && path in s.table
    requires t.table == s.table - {path} && t.created == s.created
    requires t.closed == s.closed + multiset{s.table[path].handle}
    ensures HandlesHold(t) && AreSeparate(cf, t.table) && |t.table| <= MAX_PENDING_UPLOADS
  {
    var d := Drop(cf, s, {path});
    DropKeepsHandles(cf, s, {path});
    SmallerMap(d.table, s.table);
    OneHandle(s, path);
    SameHandlesHold(d, t);
  }

  lemma OneHandle(s: State, path: string)
    requires path in s.table
    ensures multiset(Handles(s, {path})) == multiset{s.table[path].handle}
  {
    assert Handles(s, {path}) == {s.table[path].handle};
  }

  lemma SameHandlesHold(s: State, t: State)
    requires HandlesHold(s) && t.table == s.table && t.closed == s.closed && t.created == s.created
    ensures HandlesHold(t)
  {
    forall h
      ensures HandleHolds(t, h)
    {
      assert HandleHolds(s, h);
      assert IsOpen(t, h) <==> IsOpen(s, h);
    }
  }

  lemma CreateKeeps(cf: Config, s: State, conn: nat, path: string, size: nat)
    requires Holds(cf, s) && UploadError(cf, s, path, Some(size)).None? && conn in s.running
    ensures Holds(cf, Create(cf, s, conn, path, size))
  {
    OccupiedPlaces(cf, s);
    assert path !in s.table;
    CreateKeepsEntries(cf, s, conn, path, size);
    CreateKeepsHandles(cf, s, conn, path, size);
    assert size > 0 ==> Create(cf, s, conn, path, size).table[path].handle == s.created;
  }

  /** The file of a pending upload is in the way of any other upload to its place. */
  lemma OccupiedPlaces(cf: Config, s: State)
    requires EntriesHold(cf, s)
    ensures forall p :: p in s.table ==> cf.place(p) in s.files
  {
    forall p | p in s.table
      ensures cf.place(p) in s.files
    {
      assert EntryHolds(cf, s, p, s.table[p]);
    }
  }

  lemma CreateKeepsEntries(cf: Config, s: State, conn: nat, path: string, size: nat)
    requires EntriesHold(cf, s) && UploadError(cf, s, path, Some(size)).None?
    requires conn in s.running && ConnectionsHold(s)
    ensures EntriesHold(cf, Create(cf, s, conn, path, size))
  {
    var t := Create(cf, s, conn, path, size);
    forall p | p in t.table
      ensures EntryHolds(cf, t, p, t.table[p])
    {
      if p in s.table {
        assert EntryHolds(cf, s, p, s.table[p]);
      }
    }
  }

  lemma CreateKeepsHandles(cf: Config, s: State, conn: nat, path: string, size: nat)
    requires HandlesHold(s) && path !in s.table
    ensures HandlesHold(Create(cf, s, conn, path, size))
  {
    var t := Create(cf, s, conn, path, size);
    forall h
      ensures HandleHolds(t, h)
    {
      assert HandleHolds(s, h);
      if size > 0 {
        assert t.table[path].handle == s.created;
        assert forall p :: p in s.table ==> t.table[p] == s.table[p];
        assert IsOpen(t, h) <==> IsOpen(s, h) || h == s.created;
      }
    }
  }

  /** What the handlers have checked before they act. */
  ghost predicate IsSound(cf: Config, s: State, effect: Effect) {
    match effect
    case Nothing => true
    case Creates(conn, path, size) => UploadError(cf, s, path, Some(size)).None? && conn in s.running
    case Appends(path, content) =>
      && IsStored(cf, s, path) && s.table[path].conn in s.running
      && s.table[path].received + |content| < s.table[path].size
    case Finishes(path, content) =>
      IsStored(cf, s, path) && s.table[path].received + |content| == s.table[path].size
    case Drops(paths) => paths <= s.table.Keys
  }

  lemma DecisionIsSound(cf: Config, s: State, step: Step)
    requires EntriesHold(cf, s)
    ensures IsSound(cf, s, Decide(cf, s, step).effect)
  {
    if step.Block? && step.path in s.table {
      assert EntryHolds(cf, s, step.path, s.table[step.path]);
    }
  }

  lemma PerformKeeps(cf: Config, s: State, effect: Effect)
    requires Holds(cf, s) && IsSound(cf, s, effect)
    ensures Holds(cf, Perform(cf, s, effect))
  {
    match effect
    case Nothing =>
    case Creates(conn, path, size) => CreateKeeps(cf, s, conn, path, size);
    case Appends(path, content) => AppendKeeps(cf, s, path, content);
    case Finishes(path, content) => FinishKeeps(cf, s, path, content);
    case Drops(paths) => DropKeeps(cf, s, paths);
  }

  lemma AdvanceKeeps(cf: Config, s: State, step: Step)
    requires Holds(cf, s)
    requires step.Disconnect? ==> IsLeft(s, step.conn)
    ensures Holds(cf, Advance(s, step))
  {
    AdvanceKeepsEntries(cf, s, step);
    SameHandlesHold(s, Advance(s, step));
  }

  lemma AdvanceKeepsEntries(cf: Config, s: State, step: Step)
    requires EntriesHold(cf, s)
    requires step.Disconnect? ==> IsLeft(s, step.conn)
    ensures EntriesHold(cf, Advance(s, step))
  {
    var t := Advance(s, step);
    forall p | p in t.table
      ensures EntryHolds(cf, t, p, t.table[p])
    {
      assert EntryHolds(cf, s, p, s.table[p]);
    }
  }

  /** What a connection leaves behind has expired. */
  ghost predicate IsLeft(s: State, conn: nat) {
    forall p :: p in s.table && s.table[p].conn == conn ==> s.table[p].expiresAt < s.now
  }

  lemma HangUpLeavesExpired(cf: Config, s: State, step: Step)
    requires EntriesHold(cf, s)
    ensures step.Disconnect? ==> IsLeft(Perform(cf, s, Decide(cf, s, step).effect), step.conn)
  {
    if step.Disconnect? {
      var t := Perform(cf, s, Decide(cf, s, step).effect);
      forall p | p in t.table && t.table[p].conn == step.conn
        ensures t.table[p].expiresAt < t.now
      {
        assert EntryHolds(cf, s, p, s.table[p]);
      }
    }
  }

  /** Every step of any connection keeps the table, the disk and the handles in order. */
  lemma StepKeeps(cf: Config, s: State, step: Step)
    requires Holds(cf, s)
    ensures Holds(cf, Apply(cf, s, step))
  {
    var effect := Decide(cf, s, step).effect;
    DecisionIsSound(cf, s, step);
    PerformKeeps(cf, s, effect);
    HangUpLeavesExpired(cf, s, step);
    AdvanceKeeps(cf, Perform(cf, s, effect), step);
  }

  lemma {:induction false} RunKeeps(cf: Config, s: State, steps: seq<Step>)
    requires Holds(cf, s)
    ensures Holds(cf, Run(cf, s, steps))
    decreases |steps|
  {
    if steps != [] {
      RunKeeps(cf, s, steps[..|steps| - 1]);
      StepKeeps(cf, Run(cf, s, steps[..|steps| - 1]), steps[|steps| - 1]);
    }
  }
}
