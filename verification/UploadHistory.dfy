/** What runs of the upload server mean to its clients: which bytes end up on the disk,
    how a transfer can end, and who can touch it. */
module UploadHistory {
  import opened Wrappers
  import opened UploadServer

  // ---------- How a transfer can end ----------

  /** A transfer leaves the table complete or without a trace; its file is closed then,
      and was not closed before. */
  lemma EndsCompleteOrClean(cf: Config, s: State, step: Step, path: string)
    requires Holds(cf, s) && path in s.table && path !in Apply(cf, s, step).table
    ensures var t, e, x := Apply(cf, s, step), s.table[path], cf.place(path);
            && x in s.files
            && s.closed[e.handle] == 0 && t.closed[e.handle] == 1
            && if step.Block? && Decide(cf, s, step).reply == Done
               then step.path == path && x in t.files && t.files[x] == s.files[x] + step.content && |t.files[x]| == e.size
               else x !in t.files
  {
    var effect := Decide(cf, s, step).effect;
    DecisionIsSound(cf, s, step);
    LeavingIsEnding(cf, s, effect, path);
    ClosedOnEnding(cf, s, effect, path);
    FileOnEnding(cf, s, effect, path);
    FinishIsDoneBlock(cf, s, step);
  }

  lemma FinishIsDoneBlock(cf: Config, s: State, step: Step)
    ensures var verdict := Decide(cf, s, step);
            && (verdict.effect.Finishes? ==>
                  step.Block? && verdict.reply == Done && verdict.effect == Finishes(step.path, step.content))
            && (verdict.effect.Drops? ==> !(step.Block? && verdict.reply == Done))
  {
  }

  lemma FileOnEnding(cf: Config, s: State, effect: Effect, path: string)
    requires Holds(cf, s) && path in s.table && IsSound(cf, s, effect)
    requires (effect.Finishes? && effect.path == path) || (effect.Drops? && path in effect.paths)
    ensures var t, x := Perform(cf, s, effect), cf.place(path);
            && x in s.files
            && if effect.Finishes?
               then x in t.files && t.files[x] == s.files[x] + effect.content && |t.files[x]| == s.table[path].size
               else x !in t.files
  {
    assert EntryHolds(cf, s, path, s.table[path]);
  }

  lemma LeavingIsEnding(cf: Config, s: State, effect: Effect, path: string)
    requires path in s.table && path !in Perform(cf, s, effect).table
    ensures (effect.Finishes? && effect.path == path) || (effect.Drops? && path in effect.paths)
  {
  }

  lemma ClosedOnEnding(cf: Config, s: State, effect: Effect, path: string)
    requires Holds(cf, s) && path in s.table && IsSound(cf, s, effect)
    requires (effect.Finishes? && effect.path == path) || (effect.Drops? && path in effect.paths)
    ensures s.closed[s.table[path].handle] == 0 && Perform(cf, s, effect).closed[s.table[path].handle] == 1
  {
    var e := s.table[path];
    assert HandleHolds(s, e.handle) && IsOpen(s, e.handle);
    if effect.Drops? {
      assert e.handle in Handles(s, effect.paths);
    }
  }

  /** Once nothing is pending, every file that was ever opened was closed, once. */
  lemma AllClosedOnce(cf: Config, s: State, steps: seq<Step>, h: nat)
    requires Holds(cf, s) && Run(cf, s, steps).table == map[]
    ensures Run(cf, s, steps).closed[h] == if h < Run(cf, s, steps).created then 1 else 0
  {
    RunKeeps(cf, s, steps);
    assert HandleHolds(Run(cf, s, steps), h);
  }

  // ---------- Who can touch a file ----------

  predicate IsBy(step: Step, conn: nat) {
    (step.Upload? || step.Block? || step.Cancel? || step.Disconnect?) && step.conn == conn
  }

  /** The entry that an effect is about. */
  predicate IsAbout(effect: Effect, path: string) {
    match effect
    case Nothing => false
    case Creates(_, p, _) => p == path
    case Appends(p, _) => p == path
    case Finishes(p, _) => p == path
    case Drops(paths) => path in paths
  }

  /** An effect reaches no entry and no file but those it is about. */
  lemma ElsewhereUntouched(cf: Config, s: State, effect: Effect, path: string)
    requires Holds(cf, s) && IsSound(cf, s, effect) && path in s.table && !IsAbout(effect, path)
    ensures var t, x := Perform(cf, s, effect), cf.place(path);
            && path in t.table && t.table[path] == s.table[path]
            && x in s.files && x in t.files && t.files[x] == s.files[x]
  {
    OccupiedPlaces(cf, s);
    if effect.Drops? {
      assert forall q :: q in effect.paths ==> cf.place(q) != cf.place(path);
    }
  }

  /** As long as a transfer has not expired, only its own connection touches it. */
  lemma OnlyOwnerTouches(cf: Config, s: State, step: Step, path: string)
    requires Holds(cf, s) && Find(s, path).Some? && !IsBy(step, s.table[path].conn)
    ensures var t, x := Apply(cf, s, step), cf.place(path);
            && path in t.table && t.table[path] == s.table[path]
            && x in s.files && x in t.files && t.files[x] == s.files[x]
  {
    var effect := Decide(cf, s, step).effect;
    DecisionIsSound(cf, s, step);
    OthersAreNotAbout(cf, s, step, path);
    ElsewhereUntouched(cf, s, effect, path);
  }

  lemma OthersAreNotAbout(cf: Config, s: State, step: Step, path: string)
    requires Find(s, path).Some? && !IsBy(step, s.table[path].conn)
    ensures !IsAbout(Decide(cf, s, step).effect, path)
  {
  }

  // ---------- Finished files ----------

  /** No pending upload writes to this place. */
  ghost predicate IsSettled(cf: Config, s: State, place: string) {
    place in s.files && forall p :: p in s.table ==> cf.place(p) != place
  }

  lemma SettledEffectStays(cf: Config, s: State, effect: Effect, place: string)
    requires Holds(cf, s) && IsSettled(cf, s, place) && IsSound(cf, s, effect)
    ensures IsSettled(cf, Perform(cf, s, effect), place) && Perform(cf, s, effect).files[place] == s.files[place]
  {
  }

  lemma SettledStepStays(cf: Config, s: State, step: Step, place: string)
    requires Holds(cf, s) && IsSettled(cf, s, place)
    ensures IsSettled(cf, Apply(cf, s, step), place) && Apply(cf, s, step).files[place] == s.files[place]
  {
    DecisionIsSound(cf, s, step);
    SettledEffectStays(cf, s, Decide(cf, s, step).effect, place);
  }

  /** A file that no pending upload writes to, such as one that was there before or was
      completed, is never changed or removed by any later run. */
  lemma {:induction false} SettledFileStays(cf: Config, s: State, steps: seq<Step>, place: string)
    requires Holds(cf, s) && IsSettled(cf, s, place)
    ensures IsSettled(cf, Run(cf, s, steps), place) && Run(cf, s, steps).files[place] == s.files[place]
    decreases |steps|
  {
    if steps != [] {
      var front := steps[..|steps| - 1];
      SettledFileStays(cf, s, front, place);
      RunKeeps(cf, s, front);
      SettledStepStays(cf, Run(cf, s, front), steps[|steps| - 1], place);
    }
  }

  // ---------- What clients know ----------

  /** What a client knows of a transfer: who announced it, with which size, the blocks
      accepted since, put together, when the last of its requests was accepted, and
      whether it has come to an end. */
  datatype Sent = Sent(conn: nat, size: nat, data: Data, since: int, over: bool)

  /** The transfer was not idle for too long. */
  predicate IsLive(told: Option<Sent>, now: int) {
    told.Some? && !told.value.over && now <= told.value.since + 10_000_000_000
  }

  predicate IsSendable(content: Data) {
    0 < |content| <= 5_242_880
  }

  function WithBlock(told: Sent, content: Data, now: int): Sent {
    var data := told.data + content;
    Sent(told.conn, told.size, data, now, |data| == told.size)
  }

  /** A block that its client could send ends the transfer if it is not accepted. */
  function NoteBlock(told: Sent, content: Data, reply: Reply, now: int): Sent {
    if reply == Done then WithBlock(told, content, now)
    else if IsSendable(content) then told.(over := true)
    else told
  }

  function NoteEnd(told: Sent): Sent {
    told.(over := true)
  }

  /** What is known after a step at some time, by the message and its reply alone. */
  function Note(told: Option<Sent>, path: string, now: int, step: Step, reply: Reply): Option<Sent> {
    match step
    case Upload(conn, p, size, _) =>
      if p == path && reply == Done && size.Some? then Some(Sent(conn, size.value, [], now, size.value == 0)) else told
    case Block(conn, p, content, _) =>
      if p == path && IsLive(told, now) && told.value.conn == conn then Some(NoteBlock(told.value, content, reply, now)) else told
    case Cancel(_, p) => if p == path && reply == Done && told.Some? then Some(NoteEnd(told.value)) else told
    case Disconnect(conn) => if IsLive(told, now) && told.value.conn == conn then Some(NoteEnd(told.value)) else told
    case _ => told
  }

  /** The client's view after a run. */
  function Told(cf: Config, s: State, steps: seq<Step>, path: string): Option<Sent>
    decreases |steps|
  {
    if steps == [] then None
    else
      var front, last := steps[..|steps| - 1], steps[|steps| - 1];
      var t := Run(cf, s, front);
      Note(Told(cf, s, front, path), path, t.now, last, Decide(cf, t, last).reply)
  }

  /** The server's entry is the transfer that the client knows, and its file what the client
      sent; it expires when the client has been silent for too long. */
  ghost predicate IsEntryOf(cf: Config, s: State, path: string, told: Sent) {
    && path in s.table && cf.place(path) in s.files
    && s.table[path].conn == told.conn && s.table[path].size == told.size
    && s.files[cf.place(path)] == told.data && s.table[path].received == |told.data|
    && s.table[path].expiresAt == told.since + VALIDITY_TIME && !told.over
  }

  /** Every entry is of a transfer that its client knows, and every transfer that is not
      over and was not silent for too long has its entry. */
  ghost predicate IsAsTold(cf: Config, s: State, path: string, told: Option<Sent>) {
    && (path in s.table ==> told.Some? && IsEntryOf(cf, s, path, told.value))
    && (IsLive(told, s.now) ==> path in s.table)
  }

  lemma UploadIsAsTold(cf: Config, s: State, step: Step, path: string, told: Option<Sent>)
    requires Holds(cf, s) && IsAsTold(cf, s, path, told) && step.Upload? && step.path == path
    ensures IsAsTold(cf, Apply(cf, s, step), path, Note(told, path, s.now, step, Decide(cf, s, step).reply))
  {
    OccupiedPlaces(cf, s);
  }

  /** What a block does to its own entry. */
  lemma BlockIsDecided(cf: Config, s: State, step: Step)
    requires Holds(cf, s) && step.Block? && step.path in s.table
    ensures var e, verdict := s.table[step.path], Decide(cf, s, step);
            && IsStored(cf, s, step.path) && e.received < e.size && |s.files[cf.place(step.path)]| == e.received
            && if !IsSendable(step.content) || e.conn != step.conn || s.now > e.expiresAt
               then verdict.effect == Nothing && verdict.reply != Done
               else verdict == Receive(e, step.path, step.content, step.fault)
  {
    assert EntryHolds(cf, s, step.path, s.table[step.path]);
  }

  lemma BlockIsAsTold(cf: Config, s: State, step: Step, path: string, told: Option<Sent>)
    requires Holds(cf, s) && IsAsTold(cf, s, path, told) && step.Block? && step.path == path
    ensures IsAsTold(cf, Apply(cf, s, step), path, Note(told, path, s.now, step, Decide(cf, s, step).reply))
  {
    if path in s.table {
      BlockIsDecided(cf, s, step);
      ReceivedIsAsTold(cf, s, path, told.value, Decide(cf, s, step).effect);
    }
  }

  lemma ReceivedIsAsTold(cf: Config, s: State, path: string, told: Sent, effect: Effect)
    requires IsEntryOf(cf, s, path, told)
    ensures effect.Appends? && effect.path == path && |told.data| + |effect.content| != told.size ==>
              IsEntryOf(cf, Perform(cf, s, effect), path, WithBlock(told, effect.content, s.now))
    ensures effect.Finishes? && effect.path == path ==> path !in Perform(cf, s, effect).table
    ensures effect.Drops? && path in effect.paths ==> path !in Perform(cf, s, effect).table
  {
  }

  lemma EndIsAsTold(cf: Config, s: State, step: Step, path: string, told: Option<Sent>)
    requires Holds(cf, s) && IsAsTold(cf, s, path, told)
    requires IsAbout(Decide(cf, s, step).effect, path) && !step.Upload? && !step.Block?
    ensures IsAsTold(cf, Apply(cf, s, step), path, Note(told, path, s.now, step, Decide(cf, s, step).reply))
  {
    assert EntryHolds(cf, s, path, s.table[path]);
  }

  lemma ElsewhereIsAsTold(cf: Config, s: State, step: Step, path: string, told: Option<Sent>)
    requires Holds(cf, s) && IsAsTold(cf, s, path, told) && !IsAbout(Decide(cf, s, step).effect, path)
    requires (step.Upload? || step.Block?) ==> step.path != path
    ensures IsAsTold(cf, Apply(cf, s, step), path, Note(told, path, s.now, step, Decide(cf, s, step).reply))
  {
    if path in s.table {
      DecisionIsSound(cf, s, step);
      ElsewhereUntouched(cf, s, Decide(cf, s, step).effect, path);
      OthersNoteNothing(cf, s, step, path, told);
    } else {
      NothingIsNoted(cf, s, step, path, told);
    }
  }

  lemma OthersNoteNothing(cf: Config, s: State, step: Step, path: string, told: Option<Sent>)
    requires Holds(cf, s) && IsAsTold(cf, s, path, told) && path in s.table && !IsAbout(Decide(cf, s, step).effect, path)
    requires (step.Upload? || step.Block?) ==> step.path != path
    ensures Note(told, path, s.now, step, Decide(cf, s, step).reply) == told
  {
    assert EntryHolds(cf, s, path, s.table[path]);
  }

  lemma NothingIsNoted(cf: Config, s: State, step: Step, path: string, told: Option<Sent>)
    requires !IsLive(told, s.now) && path !in s.table && (step.Upload? ==> step.path != path)
    ensures path !in Apply(cf, s, step).table
    ensures !IsLive(Note(told, path, s.now, step, Decide(cf, s, step).reply), Apply(cf, s, step).now)
  {
  }

  lemma OthersAreAboutOthers(cf: Config, s: State, step: Step, path: string)
    requires IsAbout(Decide(cf, s, step).effect, path)
    ensures (step.Upload? || step.Block?) ==> step.path == path
  {
  }

  lemma StepIsAsTold(cf: Config, s: State, step: Step, path: string, told: Option<Sent>)
    requires Holds(cf, s) && IsAsTold(cf, s, path, told)
    ensures IsAsTold(cf, Apply(cf, s, step), path, Note(told, path, s.now, step, Decide(cf, s, step).reply))
  {
    if step.Upload? && step.path == path {
      UploadIsAsTold(cf, s, step, path, told);
    } else if step.Block? && step.path == path {
      BlockIsAsTold(cf, s, step, path, told);
    } else if IsAbout(Decide(cf, s, step).effect, path) {
      OthersAreAboutOthers(cf, s, step, path);
      EndIsAsTold(cf, s, step, path, told);
    } else {
      ElsewhereIsAsTold(cf, s, step, path, told);
    }
  }

  /** In every run, the entries of the server are the transfers that the clients know: the
      file of a pending upload holds exactly the blocks that were accepted since it was
      announced, in order, and it expires if it is idle for the validity time. */
  lemma {:induction false} PendingFileHoldsBlocks(cf: Config, s: State, steps: seq<Step>, path: string)
    requires Holds(cf, s) && s.table == map[]
    ensures IsAsTold(cf, Run(cf, s, steps), path, Told(cf, s, steps, path))
    decreases |steps|
  {
    if steps != [] {
      var front := steps[..|steps| - 1];
      PendingFileHoldsBlocks(cf, s, front, path);
      RunKeeps(cf, s, front);
      StepIsAsTold(cf, Run(cf, s, front), steps[|steps| - 1], path, Told(cf, s, front, path));
    }
  }

  /** The transfer is the connection's, and was not idle for too long. */
  predicate MayAct(told: Option<Sent>, conn: nat, now: int) {
    IsLive(told, now) && told.value.conn == conn
  }

  /** After every run a block is accepted exactly if it is not empty and not too large, of a
      transfer of its connection whose last accepted request is not too long ago, fits what
      was announced, and can be written. */
  lemma BlockIsAcceptedExactly(cf: Config, s: State, steps: seq<Step>, step: Step)
    requires Holds(cf, s) && s.table == map[] && step.Block?
    ensures var t, told := Run(cf, s, steps), Told(cf, s, steps, step.path);
            Decide(cf, t, step).reply == Done <==>
              && IsSendable(step.content) && MayAct(told, step.conn, t.now)
              && |told.value.data| + |step.content| <= told.value.size && step.fault.None?
  {
    RunKeeps(cf, s, steps);
    PendingFileHoldsBlocks(cf, s, steps, step.path);
    var t := Run(cf, s, steps);
    if step.path in t.table {
      BlockIsDecided(cf, t, step);
    }
  }

  /** A cancellation is accepted exactly from the connection of a transfer whose last
      accepted request is not too long ago. */
  lemma CancelIsAcceptedExactly(cf: Config, s: State, steps: seq<Step>, step: Step)
    requires Holds(cf, s) && s.table == map[] && step.Cancel?
    ensures var t, told := Run(cf, s, steps), Told(cf, s, steps, step.path);
            Decide(cf, t, step).reply == Done <==> MayAct(told, step.conn, t.now)
  {
    RunKeeps(cf, s, steps);
    PendingFileHoldsBlocks(cf, s, steps, step.path);
    var t := Run(cf, s, steps);
    if step.path in t.table {
      CancelEnds(cf, t, step);
    }
  }

  /** After a cancellation that is accepted neither entry nor file is there; another one
      changes nothing. */
  lemma CancelEnds(cf: Config, s: State, step: Step)
    requires Holds(cf, s) && step.Cancel?
    ensures Decide(cf, s, step).reply == Done <==> IsOwn(s, step.conn, step.path)
    ensures var t := Apply(cf, s, step);
            if Decide(cf, s, step).reply == Done then step.path !in t.table && cf.place(step.path) !in t.files else t == s
  {
    if step.path in s.table {
      assert EntryHolds(cf, s, step.path, s.table[step.path]);
    }
  }

  /** A transfer in use does not expire: after each block that is accepted the transfer, if
      it is not complete, has the whole validity time again. */
  lemma BlockRenews(cf: Config, s: State, step: Step)
    requires Holds(cf, s) && step.Block? && Decide(cf, s, step).reply == Done
    ensures var t := Apply(cf, s, step);
            step.path in t.table ==> t.table[step.path].expiresAt == t.now + VALIDITY_TIME == s.now + VALIDITY_TIME
  {
    BlockIsDecided(cf, s, step);
  }

  /** Whoever does not own a transfer learns nothing of it: block and cancellation are
      answered as if there were none, and change nothing. */
  lemma StrangersLearnNothing(cf: Config, s: State, step: Step)
    requires (step.Block? || step.Cancel?) && !(step.path in s.table && s.table[step.path].conn == step.conn)
    ensures Decide(cf, s, step) == Decide(cf, s.(table := s.table - {step.path}), step)
    ensures Apply(cf, s, step) == s && Decide(cf, s, step).reply != Done
  {
  }

  /** The block that completes a transfer leaves the announced number of bytes: all blocks
      accepted since the announcement. It can come from the announcing connection only. */
  lemma FinishedFileHoldsBlocks(cf: Config, s: State, steps: seq<Step>, step: Step)
    requires Holds(cf, s) && s.table == map[] && step.Block?
    requires Decide(cf, Run(cf, s, steps), step).reply == Done
    requires step.path !in Apply(cf, Run(cf, s, steps), step).table
    ensures var t, x, told := Apply(cf, Run(cf, s, steps), step), cf.place(step.path), Told(cf, s, steps, step.path);
            && told.Some? && step.conn == told.value.conn
            && x in t.files && t.files[x] == told.value.data + step.content && |t.files[x]| == told.value.size
            && IsSettled(cf, t, x)
  {
    RunKeeps(cf, s, steps);
    PendingFileHoldsBlocks(cf, s, steps, step.path);
    FinishSettles(cf, Run(cf, s, steps), step);
  }

  lemma FinishSettles(cf: Config, s: State, step: Step)
    requires Holds(cf, s) && step.Block? && Decide(cf, s, step).reply == Done
    requires step.path !in Apply(cf, s, step).table
    ensures var t, x := Apply(cf, s, step), cf.place(step.path);
            && step.path in s.table && step.conn == s.table[step.path].conn && x in s.files
            && x in t.files && t.files[x] == s.files[x] + step.content && |t.files[x]| == s.table[step.path].size
            && IsSettled(cf, t, x)
  {
    BlockIsDecided(cf, s, step);
    FinishedIsSettled(cf, s, step.path, step.content);
  }

  lemma FinishedIsSettled(cf: Config, s: State, path: string, content: Data)
    requires Holds(cf, s) && IsStored(cf, s, path)
    ensures var t, x := Perform(cf, s, Finishes(path, content)), cf.place(path);
            x in t.files && t.files[x] == s.files[x] + content && IsSettled(cf, t, x)
  {
  }

  // ---------- Admission ----------

  /** An upload is admitted exactly if the request is well formed, there is room, nothing
      is in its place and the file can be created. Looking for a pending upload of the
      same path adds nothing: its file is in the way. */
  lemma UploadIsAdmittedExactly(cf: Config, s: State, step: Step)
    requires Holds(cf, s) && step.Upload? && step.conn in s.running
    ensures Decide(cf, s, step).reply == Done <==>
              && 0 < |step.path| <= 4096
              && step.size.Some? && step.size.value <= 4_294_967_296
              && cf.allowed(step.path)
              && |s.table| < 5
              && cf.place(step.path) !in s.files
              && step.fault.None?
  {
    OccupiedPlaces(cf, s);
  }

  /** An expired upload is not visible to anyone, yet it is in the way of a new one to
      its place until the table discards it. */
  lemma ExpiredUploadIsInTheWay(cf: Config, s: State, step: Step, path: string)
    requires Holds(cf, s) && path in s.table && Find(s, path).None?
    requires step.Upload? && cf.place(step.path) == cf.place(path)
    ensures Decide(cf, s, step).reply != Done
    ensures cf.place(step.path) !in Apply(cf, s, Sweep(path)).files
  {
    OccupiedPlaces(cf, s);
  }

  // ---------- Entries without a connection ----------

  /** When a connection ends, none of its entries is left if and only if none of them had
      expired. */
  lemma NothingIsLeftExactly(cf: Config, s: State, conn: nat)
    requires conn in s.running
    ensures (forall p :: p in Apply(cf, s, Disconnect(conn)).table ==> Apply(cf, s, Disconnect(conn)).table[p].conn != conn)
            <==> forall p :: p in s.table && s.table[p].conn == conn ==> Find(s, p).Some?
  {
    var t := Apply(cf, s, Disconnect(conn));
    assert t.table == s.table - OwnTransfers(s, conn);
    forall p | p in s.table && s.table[p].conn == conn
      ensures p in t.table <==> Find(s, p).None?
    {
    }
  }

  /** The owner of every entry still runs. */
  ghost predicate OwnersRun(s: State) {
    forall p :: p in s.table ==> s.table[p].conn in s.running
  }

  /** A step keeps all owners running if and only if it is not the end of a connection
      that has an expired entry. */
  lemma OwnersStayExactly(cf: Config, s: State, step: Step)
    requires Holds(cf, s) && OwnersRun(s)
    ensures OwnersRun(Apply(cf, s, step)) <==>
              !(step.Disconnect? && step.conn in s.running
                && exists p :: p in s.table && s.table[p].conn == step.conn && Find(s, p).None?)
  {
    if step.Disconnect? {
      if step.conn in s.running {
        NothingIsLeftExactly(cf, s, step.conn);
      }
      OthersKeepRunning(cf, s, step.conn);
    } else {
      DecisionIsSound(cf, s, step);
    }
  }

  lemma OthersKeepRunning(cf: Config, s: State, conn: nat)
    requires OwnersRun(s)
    ensures OwnersRun(Apply(cf, s, Disconnect(conn))) <==>
              forall p :: p in Apply(cf, s, Disconnect(conn)).table ==> Apply(cf, s, Disconnect(conn)).table[p].conn != conn
  {
    var t := Apply(cf, s, Disconnect(conn));
    assert forall p :: p in t.table ==> p in s.table && t.table[p] == s.table[p];
  }

  const EMPTY: State := State(map[], map[], 0, multiset{}, {}, 0, 0)

  lemma EmptyHolds(cf: Config)
    ensures Holds(cf, EMPTY)
  {
    assert forall h :: HandleHolds(EMPTY, h);
  }

  /** What holds after every run of a server that starts empty: everything is in order, a
      pending file holds the blocks its client was told to be accepted, and once nothing
      is pending every file that was opened was closed once. */
  lemma RunFromEmpty(cf: Config, steps: seq<Step>, path: string, h: nat)
    ensures var s := Run(cf, EMPTY, steps);
            && Holds(cf, s)
            && IsAsTold(cf, s, path, Told(cf, EMPTY, steps, path))
            && (s.table == map[] ==> s.closed[h] == if h < s.created then 1 else 0)
  {
    EmptyHolds(cf);
    RunKeeps(cf, EMPTY, steps);
    PendingFileHoldsBlocks(cf, EMPTY, steps, path);
    if Run(cf, EMPTY, steps).table == map[] {
      AllClosedOnce(cf, EMPTY, steps, h);
    }
  }

  const ANNOUNCEMENT: Step := Upload(0, "/f", Some(1), None)

  /** A run in which an upload expires just before its connection ends: its entry is still
      there, and its owner is not. */
  lemma OwnerCanBeGone(cf: Config)
    requires cf.allowed("/f")
    ensures var t := Run(cf, EMPTY, [Connect, ANNOUNCEMENT, Wait(VALIDITY_TIME + 1), Disconnect(0)]);
            "/f" in t.table && t.table["/f"].conn == 0 && !OwnersRun(t)
  {
    var one, two := [Connect], [Connect, ANNOUNCEMENT];
    var three := [Connect, ANNOUNCEMENT, Wait(VALIDITY_TIME + 1)];
    assert [] + [Connect] == one && one + [ANNOUNCEMENT] == two && two + [Wait(VALIDITY_TIME + 1)] == three;
    assert three + [Disconnect(0)] == [Connect, ANNOUNCEMENT, Wait(VALIDITY_TIME + 1), Disconnect(0)];
    RunOneMore(cf, [], Connect);
    RunOneMore(cf, one, ANNOUNCEMENT);
    RunOneMore(cf, two, Wait(VALIDITY_TIME + 1));
    RunOneMore(cf, three, Disconnect(0));
    AnnouncementIsTaken(cf, Apply(cf, EMPTY, Connect));
    ExpiredIsLeft(cf, Create(cf, Apply(cf, EMPTY, Connect), 0, "/f", 1));
  }

  lemma AnnouncementIsTaken(cf: Config, s: State)
    requires cf.allowed("/f") && s.table == map[] && s.files == map[] && 0 in s.running
    ensures Apply(cf, s, ANNOUNCEMENT) == Create(cf, s, 0, "/f", 1)
  {
    assert UploadError(cf, s, "/f", Some(1)).None?;
  }

  lemma ExpiredIsLeft(cf: Config, s: State)
    requires "/f" in s.table && s.table["/f"].conn == 0 && s.table["/f"].expiresAt == s.now + VALIDITY_TIME
    ensures var t := Apply(cf, Apply(cf, s, Wait(VALIDITY_TIME + 1)), Disconnect(0));
            "/f" in t.table && t.table["/f"].conn == 0 && !OwnersRun(t)
  {
    var u := Apply(cf, s, Wait(VALIDITY_TIME + 1));
    assert Find(u, "/f").None?;
    assert "/f" in Apply(cf, u, Disconnect(0)).table;
  }

  lemma RunOneMore(cf: Config, steps: seq<Step>, step: Step)
    ensures Run(cf, EMPTY, steps + [step]) == Apply(cf, Run(cf, EMPTY, steps), step)
  {
    assert (steps + [step])[..|steps|] == steps;
  }
}
