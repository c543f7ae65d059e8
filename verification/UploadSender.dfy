/** The file reader and the active upload of the client, updating their fields in place.
    Each method is proved to take the turn that `UploadClient` specifies. */
module UploadSender {
  import opened Wrappers
  import opened UploadClient

  class FileReaderModule {
    const file: File
    var filePos: nat
    var reading: bool

    ghost function View(): Reader
      reads this
    {
      Reader(filePos, reading)
    }

    constructor (file: File)
      ensures this.file == file && View() == Reader(0, false)
    {
      this.file, filePos, reading := file, 0, false;
    }

    /** Starts a read, unless the end has been reached. */
    method RequestNextBlock()
      modifies this
      ensures View() == UploadClient.RequestNextBlock(old(View()), |file.data|)
    {
      if filePos < |file.data| {
        reading := true;
      }
    }

    /** The read that was started has come to its end. */
    method OnLoadEnd() returns (block: Data)
      requires reading && filePos <= |file.data|
      modifies this
      ensures View() == Reader(Min(old(filePos) + BLOCK_SIZE, |file.data|), false)
      ensures block == file.data[old(filePos)..filePos]
    {
      var first := filePos;
      var last := first + BLOCK_SIZE;
      if last > |file.data| {
        last := |file.data|;
      }
      block := file.data[first..last];
      filePos := filePos + |block|;
      reading := false;
    }
  }

  class ActiveUpload {
    const destDir: string
    const files: seq<File>
    var filesProcessed: nat
    var fileReader: FileReaderModule?
    var cur: nat
    var tot: nat
    var shown: nat
    var phase: Phase
    var sent: seq<Request>

    ghost function State(): Client
      reads this, fileReader
    {
      Client(destDir, files, filesProcessed, if fileReader == null then None else Some(fileReader.View()),
             cur, tot, shown, phase)
    }

    /** The reader reads the current file. */
    ghost predicate Valid()
      reads this, fileReader
    {
      fileReader != null ==>
        && filesProcessed < |files| && fileReader.file == files[filesProcessed]
        && fileReader.filePos <= |fileReader.file.data|
    }

    /** The fields and the socket are as after this turn. */
    twostate predicate HasTaken(turn: Turn)
      reads this, fileReader
    {
      State() == turn.client && sent == old(sent) + turn.sent
    }

    constructor (destDir: string, files: seq<File>)
      ensures Valid() && State() == Begin(destDir, files) && sent == UploadClient.Prepare(State())
    {
      this.destDir, this.files, filesProcessed, fileReader := destDir, files, 0, null;
      cur, tot, shown, phase, sent := 0, 0, 0, Running, [];
      new;
      Prepare();
    }

    method Prepare()
      requires Valid()
      modifies this`sent
      ensures Valid() && State() == old(State()) && sent == old(sent) + UploadClient.Prepare(State())
    {
      if filesProcessed < |files| {
        sent := sent + [Announce(JoinPath(destDir, files[filesProcessed].name), |files[filesProcessed].data|)];
      }
    }

    method Start()
      requires Valid() && filesProcessed < |files|
      modifies this, fileReader
      ensures Valid() && HasTaken(StartUpload(old(State())))
      ensures fileReader == old(fileReader) || fileReader == null || fresh(fileReader)
    {
      if fileReader != null {
        return;
      }
      if |files[filesProcessed].data| == 0 {
        AdvanceUpload();
        return;
      }
      fileReader := new FileReaderModule(files[filesProcessed]);
      fileReader.RequestNextBlock();
    }

    method OnBlock()
      requires Valid() && fileReader != null && fileReader.reading
      modifies this`cur, this`tot, this`sent, fileReader
      ensures Valid() && HasTaken(OnLoaded(old(State())))
      ensures fileReader == old(fileReader)
    {
      var blob := fileReader.OnLoadEnd();
      cur := fileReader.filePos;
      tot := |fileReader.file.data|;
      sent := sent + [Send(JoinPath(destDir, files[filesProcessed].name), blob)];
    }

    /** Moves on to the next block or the next file, and returns the progress. */
    method Advance() returns (progress: nat)
      requires Valid() && filesProcessed < |files|
      modifies this`filesProcessed, this`fileReader, this`sent, fileReader
      ensures var turn := UploadClient.AdvanceUpload(old(State()));
              && Show(State(), progress) == turn.client && sent == old(sent) + turn.sent
              && (progress != 100 ==> Valid())
              && (fileReader == old(fileReader) || fileReader == null)
    {
      progress := Percentage((filesProcessed + 1) * Max(cur, 1), Max(tot, 1) * |files|);
      var fileCompleted := cur == tot;
      if fileCompleted {
        filesProcessed := filesProcessed + 1;
        var allFilesCompleted := filesProcessed == |files|;
        if !allFilesCompleted {
          fileReader := null;
          Prepare();
        } else {
          return 100;
        }
      } else if fileReader != null {
        fileReader.RequestNextBlock();
      }
    }

    method Terminate(end: Phase)
      modifies this`fileReader, this`phase
      ensures fileReader == null && phase == end
    {
      fileReader := null;
      phase := end;
    }

    method AdvanceUpload()
      requires Valid() && filesProcessed < |files|
      modifies this, fileReader
      ensures Valid() && HasTaken(UploadClient.AdvanceUpload(old(State())))
      ensures fileReader == old(fileReader) || fileReader == null
    {
      var progress := Advance();
      shown := progress;
      if progress == 100 {
        Terminate(Finished);
      }
    }

    /** The answer to a request has arrived. */
    method OnMessage(isAnnounce: bool, ok: bool)
      requires Valid()
      modifies this, fileReader
      ensures Valid() && HasTaken(OnAnswer(old(State()), isAnnounce, ok))
      ensures fileReader == old(fileReader) || fileReader == null || fresh(fileReader)
    {
      if phase != Running || filesProcessed >= |files| {
        return;
      }
      if !ok {
        Terminate(Failed);
      } else if isAnnounce {
        Start();
      } else {
        AdvanceUpload();
      }
    }
  }
}
