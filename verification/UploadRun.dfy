/** A whole upload, with the classes of both sides: the browser's active upload and the
    server's file manager, and what travels between them. */
module UploadRun {
  import opened Wrappers
  import opened UploadServer
  import opened UploadHandlers
  import opened UploadClient
  import opened UploadSender
  import opened UploadProtocol

  /** What the protocol is about, with the requests that the server has yet to take. */
  ghost function SystemOf(upload: ActiveUpload, manager: FileManager, taken: nat, toClient: seq<Answer>): System
    reads upload, upload.fileReader, manager, manager.disk, manager.Contexts()
    requires taken <= |upload.sent|
  {
    System(upload.State(), manager.State(), upload.sent[taken..], toClient)
  }

  lemma TakingTheFirst(cf: Config, conn: nat, sys: System, fault: Option<string>, reply: Reply)
    requires sys.toServer != [] && reply == Decide(cf, sys.server, StepOf(conn, sys.toServer[0], fault)).reply
    ensures TakeRequest(cf, conn, sys, fault)
         == System(sys.client, Apply(cf, sys.server, StepOf(conn, sys.toServer[0], fault)), sys.toServer[1..],
                   sys.toClient + AnswersTo(sys.toServer[0], reply))
  {
  }

  function AnswersTo(request: Request, reply: Reply): seq<Answer> {
    if reply == NoReply then [] else [Answer(request.Announce?, reply == Done)]
  }

  /** The server takes the request that was sent first. */
  method ServerTurn(upload: ActiveUpload, manager: FileManager, conn: nat, taken: nat, toClient: seq<Answer>,
                    fault: Option<string>, ghost sys: System)
    returns (answers: seq<Answer>)
    requires taken < |upload.sent| && manager.Valid() && Holds(manager.config, manager.State())
    requires sys == SystemOf(upload, manager, taken, toClient)
    requires upload.sent[taken].Announce? ==> upload.sent[taken].size < 0x1_0000_0000_0000_0000
    modifies manager, manager.Contexts(), manager.disk
    ensures manager.Valid() && fresh(manager.Contexts() - old(manager.Contexts()))
    ensures SystemOf(upload, manager, taken + 1, answers) == TakeRequest(manager.config, conn, sys, fault)
  {
    var request := upload.sent[taken];
    assert sys.toServer[0] == request && sys.toServer[1..] == upload.sent[taken + 1..];
    var reply := manager.Serve(StepOf(conn, request, fault));
    TakingTheFirst(manager.config, conn, sys, fault, reply);
    answers := toClient + AnswersTo(request, reply);
  }

  /** The browser takes the answer that came first. */
  method AnswerTurn(upload: ActiveUpload, manager: FileManager, taken: nat, toClient: seq<Answer>, ghost sys: System)
    requires taken <= |upload.sent| && toClient != [] && upload.Valid()
    requires sys == SystemOf(upload, manager, taken, toClient)
    modifies upload, upload.fileReader
    ensures upload.Valid() && old(upload.sent) <= upload.sent
    ensures upload.fileReader == old(upload.fileReader) || upload.fileReader == null || fresh(upload.fileReader)
    ensures SystemOf(upload, manager, taken, toClient[1..]) == TakeAnswer(sys)
  {
    ghost var before := upload.sent;
    upload.OnMessage(toClient[0].isAnnounce, toClient[0].ok);
    assert upload.sent[taken..] == before[taken..] + OnAnswer(sys.client, toClient[0].isAnnounce, toClient[0].ok).sent;
  }

  /** The file reader has loaded a block. */
  method LoadTurn(upload: ActiveUpload, manager: FileManager, taken: nat, toClient: seq<Answer>, ghost sys: System)
    requires taken <= |upload.sent| && upload.Valid() && upload.fileReader != null && upload.fileReader.reading
    requires sys == SystemOf(upload, manager, taken, toClient)
    modifies upload, upload.fileReader
    ensures upload.Valid() && old(upload.sent) <= upload.sent && upload.fileReader == old(upload.fileReader)
    ensures SystemOf(upload, manager, taken, toClient) == Load(sys)
  {
    ghost var before := upload.sent;
    upload.OnBlock();
    assert upload.sent[taken..] == before[taken..] + OnLoaded(sys.client).sent;
  }

  ghost predicate AreSendable(files: seq<File>) {
    forall i :: 0 <= i < |files| ==> |files[i].data| < 0x1_0000_0000_0000_0000
  }

  /** What a turn relies on: the server is in order, what it is sent can be sent, and a
      block is read when nothing is on its way. */
  ghost predicate IsReady(cf: Config, sys: System) {
    && Holds(cf, sys.server)
    && (sys.toServer != [] && sys.toServer[0].Announce? ==> sys.toServer[0].size < 0x1_0000_0000_0000_0000)
    && (sys.toServer == [] && sys.toClient == [] ==> sys.client.reader.Some? && sys.client.reader.value.reading)
  }

  lemma RunningIsReady(cf: Config, conn: nat, sys: System)
    requires IsInOrder(cf, conn, sys) && sys.client.phase == Running && AreSendable(sys.client.files)
    ensures IsReady(cf, sys)
  {
  }

  /** What an event that is due does: the order is kept, the selection too, and there is
      less to do. */
  lemma TurnIsProgress(cf: Config, conn: nat, sys: System, e: Event)
    requires IsInOrder(cf, conn, sys) && sys.client.phase == Running && IsDue(sys, e)
    ensures var next := Next(cf, conn, sys, e);
            && IsInOrder(cf, conn, next) && 0 <= Work(next) < Work(sys)
            && next.client.files == sys.client.files && next.client.destDir == sys.client.destDir
  {
    EventKeeps(cf, conn, sys, e, 0);
    DueEventIsProgress(cf, conn, sys, e);
    WorkIsNotNegative(cf, conn, Next(cf, conn, sys, e));
    FilesAreKept(cf, conn, sys, [e]);
    assert [e][1..] == [];
  }

  /** One turn of either side, whichever is due. */
  method Turn(upload: ActiveUpload, manager: FileManager, conn: nat, taken: nat, toClient: seq<Answer>,
              fault: Option<string>, ghost sys: System)
    returns (taken': nat, toClient': seq<Answer>, ghost e: Event)
    requires taken <= |upload.sent| && upload.Valid() && manager.Valid()
    requires sys == SystemOf(upload, manager, taken, toClient)
    requires IsReady(manager.config, sys)
    modifies upload, upload.fileReader, manager, manager.Contexts(), manager.disk
    ensures upload.Valid() && manager.Valid() && fresh(manager.Contexts() - old(manager.Contexts()))
    ensures upload.fileReader == old(upload.fileReader) || upload.fileReader == null || fresh(upload.fileReader)
    ensures taken' <= |upload.sent| && IsDue(sys, e)
    ensures SystemOf(upload, manager, taken', toClient') == Next(manager.config, conn, sys, e)
  {
    taken', toClient' := taken, toClient;
    if taken < |upload.sent| {
      e := ServerTakes(fault);
      assert sys.toServer[0] == upload.sent[taken];
      toClient' := ServerTurn(upload, manager, conn, taken, toClient, fault, sys);
      taken' := taken + 1;
    } else if toClient != [] {
      e := ClientTakes;
      AnswerTurn(upload, manager, taken, toClient, sys);
      toClient' := toClient[1..];
    } else {
      e := ReaderLoads;
      LoadTurn(upload, manager, taken, toClient, sys);
    }
  }

  /** One turn keeps the two sides in order, and there is less to do. */
  method OrderlyTurn(upload: ActiveUpload, manager: FileManager, conn: nat, taken: nat, toClient: seq<Answer>, ghost sys: System)
    returns (taken': nat, toClient': seq<Answer>, ghost next: System)
    requires taken <= |upload.sent| && upload.Valid() && manager.Valid()
    requires sys == SystemOf(upload, manager, taken, toClient)
    requires IsInOrder(manager.config, conn, sys) && upload.phase == Running && AreSendable(upload.files)
    modifies upload, upload.fileReader, manager, manager.Contexts(), manager.disk
    ensures upload.Valid() && manager.Valid() && fresh(manager.Contexts() - old(manager.Contexts()))
    ensures upload.fileReader == old(upload.fileReader) || upload.fileReader == null || fresh(upload.fileReader)
    ensures taken' <= |upload.sent| && next == SystemOf(upload, manager, taken', toClient')
    ensures IsInOrder(manager.config, conn, next) && 0 <= Work(next) < Work(sys)
    ensures next.client.files == sys.client.files && next.client.destDir == sys.client.destDir
  {
    var fault: Option<string> := *;
    ghost var e;
    RunningIsReady(manager.config, conn, sys);
    taken', toClient', e := Turn(upload, manager, conn, taken, toClient, fault, sys);
    TurnIsProgress(manager.config, conn, sys, e);
    next := Next(manager.config, conn, sys, e);
  }

  /** The user uploads some files, and the disk of the server may fail at any time: the
      upload comes to its end, and if the bar is full then, all files are stored in the
      directory that was open. */
  method UploadFiles(manager: FileManager, conn: nat, destDir: string, files: seq<File>) returns (upload: ActiveUpload)
    requires manager.Valid() && Holds(manager.config, manager.State()) && conn in manager.running
    requires files != [] && AreSendable(files)
    modifies manager, manager.Contexts(), manager.disk
    ensures manager.Valid() && Holds(manager.config, manager.State())
    ensures upload.phase != Running && (upload.shown == 100 <==> upload.phase == Finished)
    ensures upload.shown == 100 ==> AreStored(manager.config, manager.State(), destDir, files)
  {
    StartIsInOrder(manager.config, conn, manager.State(), destDir, files);
    upload := new ActiveUpload(destDir, files);
    ghost var sys := Initial(manager.State(), destDir, files);
    assert upload.sent[0..] == upload.sent;
    WorkIsNotNegative(manager.config, conn, sys);
    sys := TakeTurns(upload, manager, conn, 0, [], sys);
    OverMeansStored(manager.config, conn, sys, destDir, files);
  }

  /** Turns are taken until the upload is over. */
  method TakeTurns(upload: ActiveUpload, manager: FileManager, conn: nat, taken: nat, toClient: seq<Answer>, ghost sys: System)
    returns (ghost end: System)
    requires taken <= |upload.sent| && upload.Valid() && manager.Valid()
    requires sys == SystemOf(upload, manager, taken, toClient)
    requires IsInOrder(manager.config, conn, sys) && AreSendable(upload.files) && Work(sys) >= 0
    modifies upload, upload.fileReader, manager, manager.Contexts(), manager.disk
    ensures manager.Valid() && IsInOrder(manager.config, conn, end) && end.client.phase != Running
    ensures end.client == upload.State() && end.server == manager.State()
    ensures end.client.files == sys.client.files && end.client.destDir == sys.client.destDir
    decreases Work(sys)
  {
    end := sys;
    if upload.phase == Running {
      var taken', toClient', next := OrderlyTurn(upload, manager, conn, taken, toClient, sys);
      end := TakeTurns(upload, manager, conn, taken', toClient', next);
    }
  }

  lemma OverMeansStored(cf: Config, conn: nat, sys: System, destDir: string, files: seq<File>)
    requires IsInOrder(cf, conn, sys) && sys.client.files == files && sys.client.destDir == destDir
    requires sys.client.phase != Running
    ensures sys.client.shown == 100 <==> sys.client.phase == Finished
    ensures sys.client.shown == 100 ==> AreStored(cf, sys.server, destDir, files)
  {
    if sys.client.shown == 100 {
      ProcessedAreInDirectory(cf, sys.server, sys.client);
    }
  }
}
