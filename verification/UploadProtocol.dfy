/** Client and server together: two queues, any number of other connections, and time
    that passes. What holds in every run in which the client neither cancels nor
    disconnects and is not silent for too long. */
module UploadProtocol {
  import opened Wrappers
  import opened UploadServer
  import opened UploadHistory
  import opened UploadClient
  import ProgressBar
  import Iteration
  import Paths = PathPolicy

  // ---------- What the server answers ----------

  /** The upload of this connection to this path is pending, and has stored `data` so far. */
  ghost predicate IsArriving(cf: Config, s: State, conn: nat, path: string, size: nat, data: Data) {
    && PathError(path).None? && IsOwn(s, conn, path)
    && s.table[path].size == size && |data| < size
    && cf.place(path) in s.files && s.files[cf.place(path)] == data
  }

  /** This file is stored, and nobody writes to it any more. */
  ghost predicate IsStoredAs(cf: Config, s: State, path: string, data: Data) {
    IsSettled(cf, s, cf.place(path)) && s.files[cf.place(path)] == data
  }

  lemma AnnounceIsAnswered(cf: Config, s: State, conn: nat, path: string, size: nat, fault: Option<string>)
    requires Holds(cf, s) && conn in s.running
    ensures var step := Upload(conn, path, Some(size), fault);
            var t, reply := Apply(cf, s, step), Decide(cf, s, step).reply;
            && reply != NoReply && conn in t.running
            && (reply == Done && size == 0 ==> IsStoredAs(cf, t, path, []))
            && (reply == Done && size > 0 ==> IsArriving(cf, t, conn, path, size, []))
  {
    if UploadError(cf, s, path, Some(size)).None? && fault.None? {
      CreatedIsArriving(cf, s, conn, path, size);
    }
  }

  lemma CreatedIsArriving(cf: Config, s: State, conn: nat, path: string, size: nat)
    requires EntriesHold(cf, s) && UploadError(cf, s, path, Some(size)).None?
    ensures var t := Create(cf, s, conn, path, size);
            && (size == 0 ==> IsStoredAs(cf, t, path, []))
            && (size > 0 ==> IsArriving(cf, t, conn, path, size, []))
  {
    OccupiedPlaces(cf, s);
  }

  lemma BlockIsAnswered(cf: Config, s: State, conn: nat, path: string, size: nat, data: Data,
                        content: Data, fault: Option<string>)
    requires Holds(cf, s) && conn in s.running && IsArriving(cf, s, conn, path, size, data)
    requires 0 < |content| <= MAX_UPLOAD_BLOCK_DATA_SIZE && |data| + |content| <= size
    ensures var step := Block(conn, path, content, fault);
            var t, reply := Apply(cf, s, step), Decide(cf, s, step).reply;
            && reply != NoReply && conn in t.running && (reply == Done <==> fault.None?)
            && (reply == Done && |data| + |content| == size ==> IsStoredAs(cf, t, path, data + content))
            && (reply == Done && |data| + |content| < size ==> IsArriving(cf, t, conn, path, size, data + content))
  {
    assert EntryHolds(cf, s, path, s.table[path]);
    var step := Block(conn, path, content, fault);
    if Decide(cf, s, step).reply == Done && |data| + |content| == size {
      FinishSettles(cf, s, step);
    }
  }

  lemma OtherStepKeeps(cf: Config, s: State, conn: nat, step: Step, path: string, size: nat, data: Data)
    requires Holds(cf, s) && IsArriving(cf, s, conn, path, size, data) && !IsBy(step, conn)
    requires step.Wait? ==> s.now + step.time <= s.table[path].expiresAt
    ensures IsArriving(cf, Apply(cf, s, step), conn, path, size, data)
    ensures Apply(cf, s, step).table[path] == s.table[path]
  {
    OnlyOwnerTouches(cf, s, step, path);
    StepTakesTime(cf, s, step);
  }

  lemma StepTakesTime(cf: Config, s: State, step: Step)
    ensures Apply(cf, s, step).now == if step.Wait? then s.now + step.time else s.now
  {
  }

  lemma StoredStays(cf: Config, s: State, step: Step, path: string, data: Data)
    requires Holds(cf, s) && IsStoredAs(cf, s, path, data)
    ensures IsStoredAs(cf, Apply(cf, s, step), path, data)
  {
    SettledStepStays(cf, s, step, cf.place(path));
  }

  // ---------- The two parties ----------

  datatype Answer = Answer(isAnnounce: bool, ok: bool)

  datatype System = System(client: Client, server: State, toServer: seq<Request>, toClient: seq<Answer>)

  /** What can happen next: the server takes a request, the client takes an answer, the
      file reader has loaded a block, or something happens elsewhere. */
  datatype Event =
    | ServerTakes(fault: Option<string>)
    | ClientTakes
    | ReaderLoads
    | Elsewhere(step: Step)

  function StepOf(conn: nat, r: Request, fault: Option<string>): Step {
    match r
    case Announce(path, size) => Upload(conn, path, Some(size), fault)
    case Send(path, content) => Block(conn, path, content, fault)
  }

  function TakeRequest(cf: Config, conn: nat, sys: System, fault: Option<string>): System
    requires sys.toServer != []
  {
    var request := sys.toServer[0];
    var step := StepOf(conn, request, fault);
    var reply := Decide(cf, sys.server, step).reply;
    sys.(server := Apply(cf, sys.server, step),
         toServer := sys.toServer[1..],
         toClient := sys.toClient + if reply == NoReply then [] else [Answer(request.Announce?, reply == Done)])
  }

  function TakeAnswer(sys: System): System
    requires sys.toClient != []
  {
    var turn := OnAnswer(sys.client, sys.toClient[0].isAnnounce, sys.toClient[0].ok);
    sys.(client := turn.client, toServer := sys.toServer + turn.sent, toClient := sys.toClient[1..])
  }

  function Load(sys: System): System {
    var turn := OnLoaded(sys.client);
    sys.(client := turn.client, toServer := sys.toServer + turn.sent)
  }

  function Next(cf: Config, conn: nat, sys: System, e: Event): System {
    match e
    case ServerTakes(fault) => if sys.toServer == [] then sys else TakeRequest(cf, conn, sys, fault)
    case ClientTakes => if sys.toClient == [] then sys else TakeAnswer(sys)
    case ReaderLoads => Load(sys)
    case Elsewhere(step) => sys.(server := Apply(cf, sys.server, step))
  }

  function RunOf(cf: Config, conn: nat, sys: System, events: seq<Event>): System
    decreases |events|
  {
    if events == [] then sys else RunOf(cf, conn, Next(cf, conn, sys, events[0]), events[1..])
  }

  /** The user selects files, on a connection that is up. */
  function Initial(server: State, destDir: string, files: seq<File>): System {
    var client := Begin(destDir, files);
    System(client, server, Prepare(client), [])
  }

  /** As far as the client can tell, the server holds a part of the current file. */
  predicate HasPart(sys: System) {
    var c := sys.client;
    && c.phase == Running && c.filesProcessed < |c.files|
    && (sys.toServer != [] ==> sys.toServer[0].Send?)
    && (sys.toClient != [] ==>
          && sys.toClient[0].ok
          && if sys.toClient[0].isAnnounce then c.files[c.filesProcessed].data != [] else c.cur < c.tot)
  }

  /** A step of somebody else, or of time. As long as the server holds a part of a file, no
      more time passes since it took a request than the validity time. */
  predicate IsQuietStep(conn: nat, sys: System, step: Step, since: int) {
    && !IsBy(step, conn)
    && (step.Wait? && HasPart(sys) ==> sys.server.now + step.time <= since + VALIDITY_TIME)
  }

  /** When the server took a request last. */
  function Since(sys: System, e: Event, since: int): int {
    if e.ServerTakes? && sys.toServer != [] then sys.server.now else since
  }

  ghost predicate IsQuietRun(cf: Config, conn: nat, sys: System, events: seq<Event>, since: int)
    decreases |events|
  {
    events != [] ==>
      && (events[0].Elsewhere? ==> IsQuietStep(conn, sys, events[0].step, since))
      && IsQuietRun(cf, conn, Next(cf, conn, sys, events[0]), events[1..], Since(sys, events[0], since))
  }

  // ---------- The stages of a file ----------

  ghost predicate FileIsStored(cf: Config, s: State, c: Client, i: nat)
    requires i < |c.files|
  {
    IsStoredAs(cf, s, PathOf(c, i), c.files[i].data)
  }

  ghost predicate ProcessedAreStored(cf: Config, s: State, c: Client)
    requires c.filesProcessed <= |c.files|
  {
    forall i :: 0 <= i < c.filesProcessed ==> FileIsStored(cf, s, c, i)
  }

  /** The server has a part of the current file. */
  ghost predicate PartIsStored(cf: Config, conn: nat, s: State, c: Client, n: nat)
    requires c.filesProcessed < |c.files|
  {
    var data := c.files[c.filesProcessed].data;
    n < |data| && IsArriving(cf, s, conn, PathOf(c, c.filesProcessed), |data|, data[..n])
  }

  /** The file is announced. */
  ghost predicate AtAnnounce(sys: System)
    requires sys.client.filesProcessed < |sys.client.files|
  {
    && sys.toServer == Prepare(sys.client) && sys.toClient == []
    && sys.client.reader.None? && sys.client.cur == sys.client.tot
  }

  /** The announcement is answered. */
  ghost predicate AtAdmission(cf: Config, conn: nat, sys: System)
    requires sys.client.filesProcessed < |sys.client.files|
  {
    && sys.toServer == [] && |sys.toClient| == 1 && sys.toClient[0].isAnnounce
    && sys.client.reader.None? && sys.client.cur == sys.client.tot
    && (sys.toClient[0].ok ==>
          if sys.client.files[sys.client.filesProcessed].data == [] then FileIsStored(cf, sys.server, sys.client, sys.client.filesProcessed)
          else PartIsStored(cf, conn, sys.server, sys.client, 0))
  }

  /** A block is read. */
  ghost predicate AtReading(cf: Config, conn: nat, sys: System)
    requires sys.client.filesProcessed < |sys.client.files|
  {
    && sys.toServer == [] && sys.toClient == []
    && sys.client.reader.Some? && sys.client.reader.value.reading
    && PartIsStored(cf, conn, sys.server, sys.client, sys.client.reader.value.filePos)
  }

  /** A block is read, and counted by the client. */
  ghost predicate IsCounted(c: Client)
    requires c.filesProcessed < |c.files|
  {
    && c.reader.Some? && !c.reader.value.reading
    && 0 < c.cur == c.reader.value.filePos <= c.tot == |c.files[c.filesProcessed].data|
  }

  /** A block is on its way. */
  ghost predicate AtSending(cf: Config, conn: nat, sys: System, first: nat)
    requires sys.client.filesProcessed < |sys.client.files|
  {
    var i := sys.client.filesProcessed;
    && IsCounted(sys.client) && sys.toClient == []
    && first < sys.client.cur <= first + BLOCK_SIZE
    && sys.toServer == [Send(PathOf(sys.client, i), sys.client.files[i].data[first..sys.client.cur])]
    && PartIsStored(cf, conn, sys.server, sys.client, first)
  }

  /** The block is answered. */
  ghost predicate AtAcknowledgement(cf: Config, conn: nat, sys: System)
    requires sys.client.filesProcessed < |sys.client.files|
  {
    && IsCounted(sys.client)
    && sys.toServer == [] && |sys.toClient| == 1 && !sys.toClient[0].isAnnounce
    && (sys.toClient[0].ok ==>
          if sys.client.cur == sys.client.tot then FileIsStored(cf, sys.server, sys.client, sys.client.filesProcessed)
          else PartIsStored(cf, conn, sys.server, sys.client, sys.client.cur))
  }

  ghost predicate IsUnderWay(cf: Config, conn: nat, sys: System) {
    && sys.client.filesProcessed < |sys.client.files|
    && sys.client.shown < 100
    && (|| AtAnnounce(sys)
        || AtAdmission(cf, conn, sys)
        || AtReading(cf, conn, sys)
        || (exists first :: AtSending(cf, conn, sys, first))
        || AtAcknowledgement(cf, conn, sys))
  }

  ghost predicate IsOver(sys: System) {
    && sys.toServer == [] && sys.toClient == [] && sys.client.reader.None?
    && (sys.client.phase == Finished ==> sys.client.shown == 100 && sys.client.filesProcessed == |sys.client.files|)
    && (sys.client.phase == Failed ==> sys.client.shown < 100 && sys.client.filesProcessed < |sys.client.files|)
  }

  /** What holds in every run: the files processed are stored as they are, the server is
      in order, and the current file is at one of its stages. */
  ghost predicate IsInOrder(cf: Config, conn: nat, sys: System) {
    && Holds(cf, sys.server) && conn in sys.server.running
    && sys.client.filesProcessed <= |sys.client.files|
    && ProcessedAreStored(cf, sys.server, sys.client)
    && if sys.client.phase == Running then IsUnderWay(cf, conn, sys) else IsOver(sys)
  }

  // ---------- Every event keeps the order ----------

  lemma ProcessedStay(cf: Config, s: State, c: Client, step: Step)
    requires Holds(cf, s) && c.filesProcessed <= |c.files| && ProcessedAreStored(cf, s, c)
    ensures ProcessedAreStored(cf, Apply(cf, s, step), c)
  {
    forall i | 0 <= i < c.filesProcessed
      ensures FileIsStored(cf, Apply(cf, s, step), c, i)
    {
      assert FileIsStored(cf, s, c, i);
      StoredStays(cf, s, step, PathOf(c, i), c.files[i].data);
    }
  }

  lemma AnnouncementTaken(cf: Config, conn: nat, sys: System, fault: Option<string>)
    requires IsInOrder(cf, conn, sys) && sys.client.phase == Running && AtAnnounce(sys)
    ensures IsInOrder(cf, conn, TakeRequest(cf, conn, sys, fault))
  {
    var c := sys.client;
    var path, data := PathOf(c, c.filesProcessed), c.files[c.filesProcessed].data;
    var step := Upload(conn, path, Some(|data|), fault);
    AnnounceIsAnswered(cf, sys.server, conn, path, |data|, fault);
    StepKeeps(cf, sys.server, step);
    ProcessedStay(cf, sys.server, c, step);
    assert data[..0] == [];
    assert AtAdmission(cf, conn, TakeRequest(cf, conn, sys, fault));
  }

  /** The server accepts every block unless writing it fails. */
  lemma BlockTaken(cf: Config, conn: nat, sys: System, first: nat, fault: Option<string>)
    requires IsInOrder(cf, conn, sys) && sys.client.phase == Running && AtSending(cf, conn, sys, first)
    ensures IsInOrder(cf, conn, TakeRequest(cf, conn, sys, fault))
    ensures TakeRequest(cf, conn, sys, fault).toClient == [Answer(false, fault.None?)]
  {
    var c := sys.client;
    var path, data := PathOf(c, c.filesProcessed), c.files[c.filesProcessed].data;
    var step := Block(conn, path, data[first..c.cur], fault);
    BlockIsStored(cf, conn, sys.server, c, first, fault);
    StepKeeps(cf, sys.server, step);
    ProcessedStay(cf, sys.server, c, step);
    assert AtAcknowledgement(cf, conn, TakeRequest(cf, conn, sys, fault));
  }

  lemma BlockIsStored(cf: Config, conn: nat, s: State, c: Client, first: nat, fault: Option<string>)
    requires Holds(cf, s) && conn in s.running && c.filesProcessed < |c.files| && IsCounted(c)
    requires first < c.cur <= first + BLOCK_SIZE && PartIsStored(cf, conn, s, c, first)
    ensures var step := Block(conn, PathOf(c, c.filesProcessed), c.files[c.filesProcessed].data[first..c.cur], fault);
            var t, reply := Apply(cf, s, step), Decide(cf, s, step).reply;
            && reply != NoReply && conn in t.running && (reply == Done <==> fault.None?)
            && (reply == Done ==>
                  if c.cur == c.tot then FileIsStored(cf, t, c, c.filesProcessed) else PartIsStored(cf, conn, t, c, c.cur))
  {
    var data := c.files[c.filesProcessed].data;
    BlockIsAnswered(cf, s, conn, PathOf(c, c.filesProcessed), |data|, data[..first], data[first..c.cur], fault);
    assert data[..first] + data[first..c.cur] == data[..c.cur];
    assert c.cur == |data| ==> data[..c.cur] == data;
  }

  lemma ServerKeeps(cf: Config, conn: nat, sys: System, fault: Option<string>)
    requires IsInOrder(cf, conn, sys) && sys.toServer != []
    ensures IsInOrder(cf, conn, TakeRequest(cf, conn, sys, fault))
  {
    if AtAnnounce(sys) {
      AnnouncementTaken(cf, conn, sys, fault);
    } else {
      var first :| AtSending(cf, conn, sys, first);
      BlockTaken(cf, conn, sys, first, fault);
    }
  }

  lemma OneMoreIsStored(cf: Config, s: State, c: Client, d: Client)
    requires c.filesProcessed < |c.files| && ProcessedAreStored(cf, s, c) && FileIsStored(cf, s, c, c.filesProcessed)
    requires d.files == c.files && d.destDir == c.destDir && d.filesProcessed == c.filesProcessed + 1
    ensures ProcessedAreStored(cf, s, d)
  {
    forall i | 0 <= i < d.filesProcessed
      ensures FileIsStored(cf, s, d, i)
    {
      assert FileIsStored(cf, s, c, i) && PathOf(d, i) == PathOf(c, i);
    }
  }

  /** The current file is stored, and the client learns of it. */
  lemma FileIsDone(cf: Config, conn: nat, sys: System, turn: Turn)
    requires IsInOrder(cf, conn, sys) && sys.client.phase == Running && sys.toServer == []
    requires sys.client.cur == sys.client.tot && FileIsStored(cf, sys.server, sys.client, sys.client.filesProcessed)
    requires turn == AdvanceUpload(sys.client)
    ensures IsInOrder(cf, conn, sys.(client := turn.client, toServer := turn.sent, toClient := []))
  {
    var c, d := sys.client, turn.client;
    FullExactlyAtTheEnd(c);
    OneMoreIsStored(cf, sys.server, c, d);
    if d.phase == Running {
      assert AtAnnounce(sys.(client := d, toServer := turn.sent, toClient := []));
    }
  }

  /** What is stored does not depend on the reader or the bar. */
  lemma StoredAlike(cf: Config, s: State, c: Client, d: Client)
    requires c.filesProcessed <= |c.files| && ProcessedAreStored(cf, s, c)
    requires d.destDir == c.destDir && d.files == c.files && d.filesProcessed == c.filesProcessed
    ensures ProcessedAreStored(cf, s, d)
  {
    forall i | 0 <= i < d.filesProcessed
      ensures FileIsStored(cf, s, d, i)
    {
      assert FileIsStored(cf, s, c, i) && PathOf(d, i) == PathOf(c, i);
    }
  }

  lemma AdmissionTaken(cf: Config, conn: nat, sys: System)
    requires IsInOrder(cf, conn, sys) && sys.client.phase == Running && AtAdmission(cf, conn, sys)
    requires sys.toClient[0].ok
    ensures IsInOrder(cf, conn, TakeAnswer(sys))
  {
    var c, next := sys.client, TakeAnswer(sys);
    if c.files[c.filesProcessed].data == [] {
      FileIsDone(cf, conn, sys, AdvanceUpload(c));
      assert next == sys.(client := AdvanceUpload(c).client, toServer := AdvanceUpload(c).sent, toClient := []);
    } else {
      StoredAlike(cf, sys.server, c, next.client);
      assert PathOf(next.client, c.filesProcessed) == PathOf(c, c.filesProcessed);
      assert AtReading(cf, conn, next);
    }
  }

  lemma AcknowledgementTaken(cf: Config, conn: nat, sys: System)
    requires IsInOrder(cf, conn, sys) && sys.client.phase == Running && AtAcknowledgement(cf, conn, sys)
    requires sys.toClient[0].ok
    ensures IsInOrder(cf, conn, TakeAnswer(sys))
  {
    var c, next := sys.client, TakeAnswer(sys);
    if c.cur == c.tot {
      FileIsDone(cf, conn, sys, AdvanceUpload(c));
      assert next == sys.(client := AdvanceUpload(c).client, toServer := AdvanceUpload(c).sent, toClient := []);
    } else {
      FullExactlyAtTheEnd(c);
      StoredAlike(cf, sys.server, c, next.client);
      assert PathOf(next.client, c.filesProcessed) == PathOf(c, c.filesProcessed);
      assert AtReading(cf, conn, next);
    }
  }

  lemma RefusalTaken(cf: Config, conn: nat, sys: System)
    requires IsInOrder(cf, conn, sys) && sys.toClient != [] && !sys.toClient[0].ok
    ensures IsInOrder(cf, conn, TakeAnswer(sys))
  {
    StoredAlike(cf, sys.server, sys.client, TakeAnswer(sys).client);
  }

  lemma ClientKeeps(cf: Config, conn: nat, sys: System)
    requires IsInOrder(cf, conn, sys) && sys.toClient != []
    ensures IsInOrder(cf, conn, TakeAnswer(sys))
  {
    if !sys.toClient[0].ok {
      RefusalTaken(cf, conn, sys);
    } else if AtAdmission(cf, conn, sys) {
      AdmissionTaken(cf, conn, sys);
    } else {
      AcknowledgementTaken(cf, conn, sys);
    }
  }

  lemma LoadKeeps(cf: Config, conn: nat, sys: System)
    requires IsInOrder(cf, conn, sys)
    ensures IsInOrder(cf, conn, Load(sys))
  {
    var c := sys.client;
    if c.reader.Some? && c.reader.value.reading {
      var next := Load(sys);
      StoredAlike(cf, sys.server, c, next.client);
      assert PathOf(next.client, c.filesProcessed) == PathOf(c, c.filesProcessed);
      assert AtSending(cf, conn, next, c.reader.value.filePos);
    } else {
      assert Load(sys) == sys;
    }
  }

  /** The part of the current file has the whole validity time since the server took a
      request last. */
  ghost predicate HasTime(sys: System, since: int) {
    HasPart(sys) ==>
      var path := PathOf(sys.client, sys.client.filesProcessed);
      path in sys.server.table && sys.server.table[path].expiresAt == since + VALIDITY_TIME
  }

  lemma ElsewhereKeeps(cf: Config, conn: nat, sys: System, step: Step, since: int)
    requires IsInOrder(cf, conn, sys) && HasTime(sys, since) && IsQuietStep(conn, sys, step, since)
    ensures IsInOrder(cf, conn, sys.(server := Apply(cf, sys.server, step)))
  {
    StepKeeps(cf, sys.server, step);
    StaysConnected(cf, sys.server, conn, step);
    ProcessedStay(cf, sys.server, sys.client, step);
    if sys.client.phase == Running {
      CurrentStays(cf, conn, sys, step, since);
    }
  }

  lemma StaysConnected(cf: Config, s: State, conn: nat, step: Step)
    requires conn in s.running && !IsBy(step, conn)
    ensures conn in Apply(cf, s, step).running
  {
  }

  lemma CurrentStays(cf: Config, conn: nat, sys: System, step: Step, since: int)
    requires IsInOrder(cf, conn, sys) && sys.client.phase == Running
    requires HasTime(sys, since) && IsQuietStep(conn, sys, step, since)
    ensures IsUnderWay(cf, conn, sys.(server := Apply(cf, sys.server, step)))
  {
    var c, s, t := sys.client, sys.server, Apply(cf, sys.server, step);
    var next := sys.(server := t);
    if FileIsStored(cf, s, c, c.filesProcessed) {
      StoredStays(cf, s, step, PathOf(c, c.filesProcessed), c.files[c.filesProcessed].data);
    }
    if HasPart(sys) {
      PartStays(cf, conn, sys, step, since);
    }
    if first :| AtSending(cf, conn, sys, first) {
      assert AtSending(cf, conn, next, first);
    }
  }

  lemma PartStays(cf: Config, conn: nat, sys: System, step: Step, since: int)
    requires Holds(cf, sys.server) && HasPart(sys) && HasTime(sys, since) && IsQuietStep(conn, sys, step, since)
    ensures var c := sys.client;
            forall n :: 0 <= n < |c.files[c.filesProcessed].data| && PartIsStored(cf, conn, sys.server, c, n) ==>
              PartIsStored(cf, conn, Apply(cf, sys.server, step), c, n)
  {
    var c := sys.client;
    var data := c.files[c.filesProcessed].data;
    forall n | 0 <= n < |data| && PartIsStored(cf, conn, sys.server, c, n)
      ensures PartIsStored(cf, conn, Apply(cf, sys.server, step), c, n)
    {
      OtherStepKeeps(cf, sys.server, conn, step, PathOf(c, c.filesProcessed), |data|, data[..n]);
    }
  }

  /** Every event keeps the two parties in order. */
  lemma EventKeeps(cf: Config, conn: nat, sys: System, e: Event, since: int)
    requires IsInOrder(cf, conn, sys)
    requires e.Elsewhere? ==> HasTime(sys, since) && IsQuietStep(conn, sys, e.step, since)
    ensures IsInOrder(cf, conn, Next(cf, conn, sys, e))
  {
    match e
    case ServerTakes(fault) => if sys.toServer != [] { ServerKeeps(cf, conn, sys, fault); }
    case ClientTakes => if sys.toClient != [] { ClientKeeps(cf, conn, sys); }
    case ReaderLoads => LoadKeeps(cf, conn, sys);
    case Elsewhere(step) => ElsewhereKeeps(cf, conn, sys, step, since);
  }

  // ---------- Every request gives new time ----------

  lemma RequestGivesTime(cf: Config, conn: nat, sys: System, fault: Option<string>)
    requires IsInOrder(cf, conn, sys) && sys.toServer != []
    ensures HasTime(TakeRequest(cf, conn, sys, fault), sys.server.now)
  {
    if AtAnnounce(sys) {
      AnnouncementGivesTime(cf, conn, sys, fault);
    } else {
      var first :| AtSending(cf, conn, sys, first);
      BlockGivesTime(cf, conn, sys, first, fault);
    }
  }

  lemma AnnouncementGivesTime(cf: Config, conn: nat, sys: System, fault: Option<string>)
    requires IsInOrder(cf, conn, sys) && sys.client.phase == Running && AtAnnounce(sys)
    ensures HasTime(TakeRequest(cf, conn, sys, fault), sys.server.now)
  {
    var c := sys.client;
    AnnounceStartsTime(cf, sys.server, conn, PathOf(c, c.filesProcessed), |c.files[c.filesProcessed].data|, fault);
  }

  lemma AnnounceStartsTime(cf: Config, s: State, conn: nat, path: string, size: nat, fault: Option<string>)
    requires conn in s.running
    ensures var step := Upload(conn, path, Some(size), fault);
            var t := Apply(cf, s, step);
            Decide(cf, s, step).reply == Done && size > 0 ==>
              path in t.table && t.table[path].expiresAt == s.now + VALIDITY_TIME
  {
  }

  lemma BlockGivesTime(cf: Config, conn: nat, sys: System, first: nat, fault: Option<string>)
    requires IsInOrder(cf, conn, sys) && sys.client.phase == Running && AtSending(cf, conn, sys, first)
    ensures HasTime(TakeRequest(cf, conn, sys, fault), sys.server.now)
  {
    var c := sys.client;
    var step := Block(conn, PathOf(c, c.filesProcessed), c.files[c.filesProcessed].data[first..c.cur], fault);
    BlockIsStored(cf, conn, sys.server, c, first, fault);
    if Decide(cf, sys.server, step).reply == Done {
      BlockRenews(cf, sys.server, step);
    }
  }

  lemma AnswerKeepsTime(cf: Config, conn: nat, sys: System, since: int)
    requires IsInOrder(cf, conn, sys) && sys.toClient != [] && HasTime(sys, since)
    ensures HasTime(TakeAnswer(sys), since)
  {
    var next := TakeAnswer(sys);
    if HasPart(next) {
      assert HasPart(sys) && PathOf(next.client, next.client.filesProcessed) == PathOf(sys.client, sys.client.filesProcessed);
    }
  }

  lemma LoadKeepsTime(cf: Config, conn: nat, sys: System, since: int)
    requires IsInOrder(cf, conn, sys) && HasTime(sys, since)
    ensures HasTime(Load(sys), since)
  {
    if HasPart(Load(sys)) {
      assert HasPart(sys) && PathOf(Load(sys).client, sys.client.filesProcessed) == PathOf(sys.client, sys.client.filesProcessed);
    }
  }

  lemma ElsewhereKeepsTime(cf: Config, conn: nat, sys: System, step: Step, since: int)
    requires IsInOrder(cf, conn, sys) && HasTime(sys, since) && IsQuietStep(conn, sys, step, since)
    ensures HasTime(sys.(server := Apply(cf, sys.server, step)), since)
  {
    if HasPart(sys) {
      PartIsOwn(cf, conn, sys);
      OnlyOwnerTouches(cf, sys.server, step, PathOf(sys.client, sys.client.filesProcessed));
    }
  }

  /** What the client can tell is what the server holds. */
  lemma PartIsOwn(cf: Config, conn: nat, sys: System)
    requires IsInOrder(cf, conn, sys) && HasPart(sys)
    ensures IsOwn(sys.server, conn, PathOf(sys.client, sys.client.filesProcessed))
  {
  }

  lemma EventKeepsTime(cf: Config, conn: nat, sys: System, e: Event, since: int)
    requires IsInOrder(cf, conn, sys) && HasTime(sys, since)
    requires e.Elsewhere? ==> IsQuietStep(conn, sys, e.step, since)
    ensures HasTime(Next(cf, conn, sys, e), Since(sys, e, since))
  {
    match e
    case ServerTakes(fault) => if sys.toServer != [] { RequestGivesTime(cf, conn, sys, fault); }
    case ClientTakes => if sys.toClient != [] { AnswerKeepsTime(cf, conn, sys, since); }
    case ReaderLoads => LoadKeepsTime(cf, conn, sys, since);
    case Elsewhere(step) => ElsewhereKeepsTime(cf, conn, sys, step, since);
  }

  lemma {:induction false} RunKeepsOrder(cf: Config, conn: nat, sys: System, events: seq<Event>, since: int)
    requires IsInOrder(cf, conn, sys) && HasTime(sys, since) && IsQuietRun(cf, conn, sys, events, since)
    ensures IsInOrder(cf, conn, RunOf(cf, conn, sys, events))
    decreases |events|
  {
    if events != [] {
      EventKeeps(cf, conn, sys, events[0], since);
      EventKeepsTime(cf, conn, sys, events[0], since);
      RunKeepsOrder(cf, conn, Next(cf, conn, sys, events[0]), events[1..], Since(sys, events[0], since));
    }
  }

  // ---------- What this means ----------

  lemma StartIsInOrder(cf: Config, conn: nat, server: State, destDir: string, files: seq<File>)
    requires Holds(cf, server) && conn in server.running && files != []
    ensures IsInOrder(cf, conn, Initial(server, destDir, files)) && HasTime(Initial(server, destDir, files), server.now)
  {
    assert AtAnnounce(Initial(server, destDir, files));
  }

  /** A quiet run from the moment the user has selected some files. */
  ghost predicate IsUpload(cf: Config, conn: nat, server: State, destDir: string, files: seq<File>, events: seq<Event>) {
    && Holds(cf, server) && conn in server.running && files != []
    && IsQuietRun(cf, conn, Initial(server, destDir, files), events, server.now)
  }

  lemma UploadIsInOrder(cf: Config, conn: nat, server: State, destDir: string, files: seq<File>, events: seq<Event>)
    requires IsUpload(cf, conn, server, destDir, files, events)
    ensures IsInOrder(cf, conn, RunOf(cf, conn, Initial(server, destDir, files), events))
  {
    StartIsInOrder(cf, conn, server, destDir, files);
    RunKeepsOrder(cf, conn, Initial(server, destDir, files), events, server.now);
  }

  /** At most one request is unanswered, and the server has as much of the current file as
      the client has read whenever none is. */
  lemma OneRequestAtATime(cf: Config, conn: nat, server: State, destDir: string, files: seq<File>, events: seq<Event>)
    requires IsUpload(cf, conn, server, destDir, files, events)
    ensures var end := RunOf(cf, conn, Initial(server, destDir, files), events);
            && |end.toServer| + |end.toClient| <= 1
            && (end.client.phase == Running && end.toServer == [] && end.toClient == [] ==> IsInStep(conn, end))
  {
    UploadIsInOrder(cf, conn, server, destDir, files, events);
    var end := RunOf(cf, conn, Initial(server, destDir, files), events);
    if end.client.phase == Running && end.toServer == [] && end.toClient == [] {
      var path := PathOf(end.client, end.client.filesProcessed);
      assert EntryHolds(cf, end.server, path, end.server.table[path]);
    }
  }

  /** The server has received what the client has read. */
  ghost predicate IsInStep(conn: nat, sys: System) {
    var i := sys.client.filesProcessed;
    && i < |sys.client.files| && sys.client.reader.Some?
    && IsOwn(sys.server, conn, PathOf(sys.client, i))
    && sys.server.table[PathOf(sys.client, i)].received == sys.client.reader.value.filePos
  }

  /** The files are stored under their names in the directory with these components. */
  ghost predicate AreStoredIn(cf: Config, s: State, cs: seq<string>, files: seq<File>) {
    forall i :: 0 <= i < |files| && Paths.IsComponent(files[i].name) ==>
      IsStoredAs(cf, s, Paths.Render(cs + [files[i].name]), files[i].data)
  }

  ghost predicate AreStored(cf: Config, s: State, destDir: string, files: seq<File>) {
    && (forall i :: 0 <= i < |files| ==> IsStoredAs(cf, s, JoinPath(destDir, files[i].name), files[i].data))
    && (forall cs :: IsDirectory(destDir, cs) ==> AreStoredIn(cf, s, cs, files))
  }

  lemma ProcessedAreInDirectory(cf: Config, s: State, c: Client)
    requires c.filesProcessed == |c.files| && ProcessedAreStored(cf, s, c)
    ensures AreStored(cf, s, c.destDir, c.files)
  {
    forall i | 0 <= i < |c.files|
      ensures IsStoredAs(cf, s, JoinPath(c.destDir, c.files[i].name), c.files[i].data)
    {
      assert FileIsStored(cf, s, c, i);
    }
    forall cs | IsDirectory(c.destDir, cs)
      ensures AreStoredIn(cf, s, cs, c.files)
    {
      forall i | 0 <= i < |c.files| && Paths.IsComponent(c.files[i].name)
        ensures IsStoredAs(cf, s, Paths.Render(cs + [c.files[i].name]), c.files[i].data)
      {
        JoinPathIsInside(c.destDir, cs, c.files[i].name);
      }
    }
  }

  /** The bar is full exactly when the upload is finished; then every file that the user
      selected is stored in the directory that was open, byte for byte, the empty ones
      included. */
  lemma FullMeansStored(cf: Config, conn: nat, server: State, destDir: string, files: seq<File>, events: seq<Event>)
    requires IsUpload(cf, conn, server, destDir, files, events)
    ensures var end := RunOf(cf, conn, Initial(server, destDir, files), events);
            && (end.client.shown == 100 <==> end.client.phase == Finished)
            && (end.client.shown == 100 <==> end.client.filesProcessed == |end.client.files|)
            && (end.client.shown == 100 ==> AreStored(cf, end.server, destDir, files))
  {
    UploadIsInOrder(cf, conn, server, destDir, files, events);
    FilesAreKept(cf, conn, Initial(server, destDir, files), events);
    var end := RunOf(cf, conn, Initial(server, destDir, files), events);
    if end.client.shown == 100 {
      ProcessedAreInDirectory(cf, end.server, end.client);
    }
  }

  /** The selection does not change in a run. */
  lemma {:induction false} FilesAreKept(cf: Config, conn: nat, sys: System, events: seq<Event>)
    ensures var end := RunOf(cf, conn, sys, events);
            end.client.files == sys.client.files && end.client.destDir == sys.client.destDir
    decreases |events|
  {
    if events != [] {
      FilesAreKept(cf, conn, Next(cf, conn, sys, events[0]), events[1..]);
    }
  }

  // ---------- Every upload ends ----------

  /** A bound on the events that are left for the files from i on. */
  function Weight(files: seq<File>, i: nat): nat
    decreases |files| - i
  {
    if i >= |files| then 0 else 5 * (|files[i].data| + 1) + Weight(files, i + 1)
  }

  function Spent(sys: System): int {
    match sys.client.reader
    case None => if sys.toServer != [] then 0 else 1
    case Some(r) =>
      if r.reading then 5 * r.filePos + 2
      else 5 * (r.filePos - 1) + if sys.toServer != [] then 3 else 4
  }

  function Work(sys: System): int {
    if sys.client.phase != Running then 0 else Weight(sys.client.files, sys.client.filesProcessed) - Spent(sys)
  }

  /** The events that can happen to the transfer itself. */
  predicate IsDue(sys: System, e: Event) {
    match e
    case ServerTakes(_) => sys.toServer != []
    case ClientTakes => sys.toClient != []
    case ReaderLoads => sys.client.reader.Some? && sys.client.reader.value.reading
    case Elsewhere(_) => false
  }

  /** As long as the upload runs, something is due. */
  lemma SomethingIsDue(cf: Config, conn: nat, sys: System) returns (e: Event)
    requires IsInOrder(cf, conn, sys) && sys.client.phase == Running
    ensures IsDue(sys, e) && Work(sys) > 0
  {
    e := if sys.toServer != [] then ServerTakes(None) else if sys.toClient != [] then ClientTakes else ReaderLoads;
  }

  lemma RequestTakenIsProgress(cf: Config, conn: nat, sys: System, fault: Option<string>)
    requires IsInOrder(cf, conn, sys) && sys.toServer != []
    ensures Work(TakeRequest(cf, conn, sys, fault)) < Work(sys)
  {
    assert |sys.toServer| == 1;
  }

  lemma AnswerTakenIsProgress(cf: Config, conn: nat, sys: System)
    requires IsInOrder(cf, conn, sys) && sys.toClient != []
    ensures Work(TakeAnswer(sys)) < Work(sys)
  {
    var _ := SomethingIsDue(cf, conn, sys);
    var c, next := sys.client, TakeAnswer(sys);
    if sys.toClient[0].ok && next.client.phase == Running {
      assert next.client.files == c.files && c.cur <= c.tot;
      WeightStep(c.files, c.filesProcessed);
    }
  }

  lemma WeightStep(files: seq<File>, i: nat)
    requires i < |files|
    ensures Weight(files, i) == 5 * (|files[i].data| + 1) + Weight(files, i + 1)
  {
  }

  lemma LoadIsProgress(cf: Config, conn: nat, sys: System)
    requires IsInOrder(cf, conn, sys) && IsDue(sys, ReaderLoads)
    ensures Work(Load(sys)) < Work(sys)
  {
  }

  lemma DueEventIsProgress(cf: Config, conn: nat, sys: System, e: Event)
    requires IsInOrder(cf, conn, sys) && IsDue(sys, e)
    ensures Work(Next(cf, conn, sys, e)) < Work(sys)
  {
    match e
    case ServerTakes(fault) => RequestTakenIsProgress(cf, conn, sys, fault);
    case ClientTakes => AnswerTakenIsProgress(cf, conn, sys);
    case ReaderLoads => LoadIsProgress(cf, conn, sys);
  }

  /** How many events of the transfer happen in a run. */
  function DueCount(cf: Config, conn: nat, sys: System, events: seq<Event>): nat
    decreases |events|
  {
    if events == [] then 0
    else (if IsDue(sys, events[0]) then 1 else 0) + DueCount(cf, conn, Next(cf, conn, sys, events[0]), events[1..])
  }

  lemma WorkIsNotNegative(cf: Config, conn: nat, sys: System)
    requires IsInOrder(cf, conn, sys)
    ensures Work(sys) >= 0
  {
    if sys.client.phase == Running {
      var _ := SomethingIsDue(cf, conn, sys);
    }
  }

  lemma OtherEventIsNeutral(cf: Config, conn: nat, sys: System, e: Event)
    requires !IsDue(sys, e)
    ensures Work(Next(cf, conn, sys, e)) == Work(sys)
  {
  }

  lemma {:induction false} WorkIsDone(cf: Config, conn: nat, sys: System, events: seq<Event>, since: int)
    requires IsInOrder(cf, conn, sys) && HasTime(sys, since) && IsQuietRun(cf, conn, sys, events, since)
    ensures DueCount(cf, conn, sys, events) + Work(RunOf(cf, conn, sys, events)) <= Work(sys)
    ensures Work(RunOf(cf, conn, sys, events)) >= 0
    decreases |events|
  {
    if events == [] {
      WorkIsNotNegative(cf, conn, sys);
    } else {
      var e := events[0];
      if IsDue(sys, e) {
        DueEventIsProgress(cf, conn, sys, e);
      } else {
        OtherEventIsNeutral(cf, conn, sys, e);
      }
      EventKeeps(cf, conn, sys, e, since);
      EventKeepsTime(cf, conn, sys, e, since);
      WorkIsDone(cf, conn, Next(cf, conn, sys, e), events[1..], Since(sys, e, since));
    }
  }

  /** Every upload ends: no run holds more events of the transfer than this, however much
      happens elsewhere, and until the end one is due. */
  lemma UploadEnds(cf: Config, conn: nat, server: State, destDir: string, files: seq<File>, events: seq<Event>)
    requires IsUpload(cf, conn, server, destDir, files, events)
    ensures var start := Initial(server, destDir, files);
            && DueCount(cf, conn, start, events) <= Weight(files, 0)
            && (RunOf(cf, conn, start, events).client.phase == Running ==> exists e :: IsDue(RunOf(cf, conn, start, events), e))
  {
    var start := Initial(server, destDir, files);
    StartIsInOrder(cf, conn, server, destDir, files);
    WorkIsDone(cf, conn, start, events, server.now);
    UploadIsInOrder(cf, conn, server, destDir, files, events);
    if RunOf(cf, conn, start, events).client.phase == Running {
      var e := SomethingIsDue(cf, conn, RunOf(cf, conn, start, events));
    }
  }

  // ---------- The progress bar in a run ----------

  /** In a quiet run the client only ever takes its next turn, or fails. */
  lemma ClientTakesTurn(cf: Config, conn: nat, sys: System, e: Event)
    requires IsInOrder(cf, conn, sys)
    ensures var c, d := sys.client, Next(cf, conn, sys, e).client;
            d == c || d == ProgressBar.Turned(c) || d == c.(reader := None, phase := Failed)
  {
  }

  lemma {:induction false} FailedStaysFailed(cf: Config, conn: nat, sys: System, events: seq<Event>)
    requires sys.client.phase != Running && sys.client.reader.None?
    ensures RunOf(cf, conn, sys, events).client == sys.client
    decreases |events|
  {
    if events != [] {
      FailedStaysFailed(cf, conn, Next(cf, conn, sys, events[0]), events[1..]);
    }
  }

  /** The client has taken so many turns since it was `first`, or has failed. */
  ghost predicate HasTurned(c: Client, first: Client, turns: nat) {
    c.phase == Failed || c == ProgressBar.After(first, turns)
  }

  /** The client of a run that has not failed is where the turns of its files take it. */
  lemma {:induction false} ClientFollowsTurns(cf: Config, conn: nat, sys: System, events: seq<Event>, since: int, first: Client, n: nat)
    returns (m: nat)
    requires IsInOrder(cf, conn, sys) && HasTime(sys, since) && IsQuietRun(cf, conn, sys, events, since)
    requires sys.client == ProgressBar.After(first, n)
    ensures n <= m && HasTurned(RunOf(cf, conn, sys, events).client, first, m)
    decreases |events|
  {
    m := n;
    if events != [] {
      var next := Next(cf, conn, sys, events[0]);
      var same := next.client == sys.client;
      ClientTakesTurn(cf, conn, sys, events[0]);
      EventKeeps(cf, conn, sys, events[0], since);
      EventKeepsTime(cf, conn, sys, events[0], since);
      ProgressBar.OneTurnMore(first, n);
      if same || next.client == ProgressBar.Turned(sys.client) {
        m := ClientFollowsTurns(cf, conn, next, events[1..], Since(sys, events[0], since), first, if same then n else n + 1);
      } else {
        FailedStaysFailed(cf, conn, next, events[1..]);
      }
    }
  }

  /** If the first block of every file keeps up, the bar goes back in no event of any run. */
  lemma BarNeverGoesBack(cf: Config, conn: nat, server: State, destDir: string, files: seq<File>, events: seq<Event>, e: Event)
    requires IsUpload(cf, conn, server, destDir, files, events) && ProgressBar.AllKeepUp(files)
    ensures var end := RunOf(cf, conn, Initial(server, destDir, files), events);
            end.client.shown <= Next(cf, conn, end, e).client.shown
  {
    var start, first := Initial(server, destDir, files), Begin(destDir, files);
    var end := RunOf(cf, conn, start, events);
    StartIsInOrder(cf, conn, server, destDir, files);
    UploadIsInOrder(cf, conn, server, destDir, files, events);
    var m := ClientFollowsTurns(cf, conn, start, events, server.now, first, 0);
    ClientTakesTurn(cf, conn, end, e);
    ProgressBar.NeverGoesBackExactly(destDir, files);
    ProgressBar.OneTurnMore(first, m);
  }

  /** The client after each event of a run. */
  function Clients(cf: Config, conn: nat, sys: System, events: seq<Event>): (cs: seq<Client>)
    ensures |cs| == |events| + 1
    decreases |events|
  {
    [sys.client] + if events == [] then [] else Clients(cf, conn, Next(cf, conn, sys, events[0]), events[1..])
  }

  lemma {:induction false} LastClient(cf: Config, conn: nat, sys: System, events: seq<Event>)
    ensures Clients(cf, conn, sys, events)[|events|] == RunOf(cf, conn, sys, events).client
    decreases |events|
  {
    if events != [] {
      LastClient(cf, conn, Next(cf, conn, sys, events[0]), events[1..]);
    }
  }

  /** In a run that finishes each event leaves the client or takes its next turn. */
  lemma {:induction false} FinishedRunTurns(cf: Config, conn: nat, sys: System, events: seq<Event>, since: int)
    requires IsInOrder(cf, conn, sys) && HasTime(sys, since) && IsQuietRun(cf, conn, sys, events, since)
    requires RunOf(cf, conn, sys, events).client.phase == Finished
    ensures Iteration.IsStepping(ProgressBar.Turned, Clients(cf, conn, sys, events))
    decreases |events|
  {
    if events != [] {
      var next := Next(cf, conn, sys, events[0]);
      ClientTakesTurn(cf, conn, sys, events[0]);
      EventKeeps(cf, conn, sys, events[0], since);
      EventKeepsTime(cf, conn, sys, events[0], since);
      if next.client != sys.client && next.client != ProgressBar.Turned(sys.client) {
        FailedStaysFailed(cf, conn, next, events[1..]);
      }
      FinishedRunTurns(cf, conn, next, events[1..], Since(sys, events[0], since));
      Iteration.SteppingFromFront(ProgressBar.Turned, sys.client, Clients(cf, conn, next, events[1..]));
    }
  }

  lemma FinishedHasNoReader(cf: Config, conn: nat, sys: System)
    requires IsInOrder(cf, conn, sys) && sys.client.phase == Finished
    ensures sys.client.reader.None?
  {
  }

  /** In an upload that finishes, the bar goes back at some event if and only if the first
      block of some file does not keep up. */
  lemma BarGoesBackExactly(cf: Config, conn: nat, server: State, destDir: string, files: seq<File>, events: seq<Event>)
    requires IsUpload(cf, conn, server, destDir, files, events)
    requires RunOf(cf, conn, Initial(server, destDir, files), events).client.phase == Finished
    ensures var cs := Clients(cf, conn, Initial(server, destDir, files), events);
            ProgressBar.AllKeepUp(files) <==> forall j :: 0 <= j < |events| ==> cs[j].shown <= cs[j + 1].shown
  {
    var start := Initial(server, destDir, files);
    StartIsInOrder(cf, conn, server, destDir, files);
    FinishedRunTurns(cf, conn, start, events, server.now);
    LastClient(cf, conn, start, events);
    UploadIsInOrder(cf, conn, server, destDir, files, events);
    FinishedHasNoReader(cf, conn, RunOf(cf, conn, start, events));
    ProgressBar.PausedRunGoesBackExactly(destDir, files, Clients(cf, conn, start, events));
  }

  /** A selection without files: nothing is ever sent, so no answer ends the upload, and
      the client refuses any other upload from then on. */
  lemma {:induction false} EmptySelectionNeverEnds(cf: Config, conn: nat, server: State, destDir: string, events: seq<Event>)
    ensures RunOf(cf, conn, Initial(server, destDir, []), events).client == Begin(destDir, [])
    decreases |events|
  {
    if events != [] {
      var sys := Initial(server, destDir, []);
      var next := Next(cf, conn, sys, events[0]);
      assert next == Initial(next.server, destDir, []);
      EmptySelectionNeverEnds(cf, conn, next.server, destDir, events[1..]);
    }
  }
}
