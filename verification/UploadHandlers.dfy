/** The handlers of the upload messages, updating the table, the contexts and the disk in
    place. Each is proved to take the step that `UploadServer` specifies. */
module UploadHandlers {
  import opened Wrappers
  import opened UploadServer

  newtype uint64 = x: int | 0 <= x < 0x1_0000_0000_0000_0000

  /** The operating system: files by place, and the file handles given out and closed. */
  class Disk {
    var files: map<string, Data>
    var created: nat
    var closed: multiset<nat>

    constructor (files: map<string, Data>)
      ensures this.files == files && created == 0 && closed == multiset{}
    {
      this.files, created, closed := files, 0, multiset{};
    }

    method Create(place: string) returns (file: nat)
      modifies this
      ensures files == old(files)[place := []] && file == old(created)
      ensures created == old(created) + 1 && closed == old(closed)
    {
      files := files[place := []];
      file := created;
      created := created + 1;
    }

    method Write(place: string, content: Data)
      requires place in files
      modifies this
      ensures files == old(files)[place := old(files[place]) + content]
      ensures created == old(created) && closed == old(closed)
    {
      files := files[place := files[place] + content];
    }

    method Close(file: nat)
      modifies this
      ensures closed == old(closed) + multiset{file}
      ensures files == old(files) && created == old(created)
    {
      closed := closed + multiset{file};
    }

    method Remove(place: string)
      modifies this
      ensures files == old(files) - {place}
      ensures closed == old(closed) && created == old(created)
    {
      files := files - {place};
    }
  }

  class UploadFileContext {
    const connId: nat
    const path: string
    const fileSize: uint64
    var fd: Option<nat>
    var bytesReceived: uint64

    constructor (connId: nat, path: string, fileSize: uint64, fd: nat)
      ensures this.connId == connId && this.path == path && this.fileSize == fileSize
      ensures this.fd == Some(fd) && bytesReceived == 0
    {
      this.connId, this.path, this.fileSize, this.fd, bytesReceived := connId, path, fileSize, Some(fd), 0;
    }

    /** Closes the file; a second call does nothing. */
    method Cleanup(config: Config, disk: Disk, removeFile: bool)
      modifies this`fd, disk
      ensures fd == None && disk.created == old(disk.created)
      ensures disk.closed == old(disk.closed) + if old(fd).Some? then multiset{old(fd).value} else multiset{}
      ensures disk.files == if old(fd).Some? && removeFile then old(disk.files) - {config.place(path)} else old(disk.files)
    {
      if fd.Some? {
        disk.Close(fd.value);
        fd := None;
        if removeFile {
          disk.Remove(config.place(path));
        }
      }
    }
  }

  datatype Entry = Entry(context: UploadFileContext, expiresAt: int)

  class FileManager {
    const config: Config
    const disk: Disk
    var pendingUploads: map<string, Entry>
    var running: set<nat>
    var connections: nat
    var now: int

    ghost function Contexts(): set<UploadFileContext>
      reads this
    {
      set p | p in pendingUploads :: pendingUploads[p].context
    }

    ghost function View(e: Entry): Pending
      reads e.context
    {
      Pending(e.context.connId, e.context.path, e.context.fileSize as nat, e.context.bytesReceived as nat,
              if e.context.fd.Some? then e.context.fd.value else 0, e.expiresAt)
    }

    ghost function Table(): map<string, Pending>
      reads this, Contexts()
    {
      map p | p in pendingUploads :: View(pendingUploads[p])
    }

    /** The state that the specification is about. */
    ghost function State(): State
      reads this, disk, Contexts()
    {
      UploadServer.State(Table(), disk.files, disk.created, disk.closed, running, connections, now)
    }

    /** Each context is filed under its own path. */
    ghost predicate IsFiled()
      reads this
    {
      forall p :: p in pendingUploads ==> pendingUploads[p].context.path == p
    }

    ghost predicate IsOpened()
      reads this, Contexts()
    {
      forall p :: p in pendingUploads ==> pendingUploads[p].context.fd.Some?
    }

    ghost predicate Valid()
      reads this, Contexts()
    {
      IsFiled() && IsOpened()
    }

    constructor (config: Config, disk: Disk)
      requires disk.created == 0 && disk.closed == multiset{}
      ensures Valid() && Holds(config, State()) && this.config == config && this.disk == disk && pendingUploads == map[]
    {
      this.config, this.disk, pendingUploads, running, connections, now := config, disk, map[], {}, 0, 0;
      new;
      assert forall h :: HandleHolds(State(), h);
    }

    // ---------- The table of the library ----------

    method Peek(path: string) returns (context: Option<UploadFileContext>)
      ensures context.Some? <==> Find(State(), path).Some?
      ensures context.Some? ==> context.value == pendingUploads[path].context
    {
      if path in pendingUploads && now <= pendingUploads[path].expiresAt {
        context := Some(pendingUploads[path].context);
      } else {
        context := None;
      }
    }

    method Len() returns (n: nat)
      ensures n == |State().table|
    {
      n := |pendingUploads|;
      assert pendingUploads.Keys == Table().Keys;
      assert |pendingUploads| == |pendingUploads.Keys| && |Table()| == |Table().Keys|;
    }

    /** Adding under a key that is present renews the entry and drops nothing. */
    method Add(path: string, context: UploadFileContext)
      requires Valid() && context.path == path && context.fd.Some?
      modifies this`pendingUploads
      ensures Valid() && pendingUploads == old(pendingUploads)[path := Entry(context, now + VALIDITY_TIME)]
      ensures Table() == old(Table())[path := View(Entry(context, now + VALIDITY_TIME))]
      ensures Contexts() <= old(Contexts()) + {context}
    {
      pendingUploads := pendingUploads[path := Entry(context, now + VALIDITY_TIME)];
    }

    /** Removing calls the clean-up on the entry. */
    method Remove(path: string)
      requires IsFiled() && path in pendingUploads
      modifies this`pendingUploads, pendingUploads[path].context`fd, disk
      ensures IsFiled() && pendingUploads == old(pendingUploads) - {path}
      ensures Table() == old(Table()) - {path}
      ensures old(IsOpened()) ==> IsOpened()
      ensures old(pendingUploads[path].context.fd.Some?) ==> State() == Drop(config, old(State()), {path})
      ensures old(pendingUploads[path].context.fd.None?) ==> disk.files == old(disk.files) && disk.closed == old(disk.closed)
      ensures disk.created == old(disk.created)
    {
      var context := pendingUploads[path].context;
      pendingUploads := pendingUploads - {path};
      context.Cleanup(config, disk, true);
      assert Handles(old(State()), {path}) == {old(State()).table[path].handle};
      assert Places(config, {path}) == {config.place(path)};
    }

    // ---------- The messages ----------

    method Upload(conn: nat, path: string, size: Option<uint64>, fault: Option<string>) returns (reply: Reply)
      requires Valid() && EntriesHold(config, State())
      modifies this`pendingUploads, disk
      ensures Valid() && fresh(Contexts() - old(Contexts()))
      ensures var verdict := OnUpload(config, old(State()), conn, path, SizeOf(size), fault);
              reply == verdict.reply && State() == Perform(config, old(State()), verdict.effect)
    {
      var error := CheckUpload(path, size);
      if error.Some? {
        return Refused(error.value);
      } else if fault.Some? {
        return Refused(fault.value);
      }
      OccupiedPlaces(config, State());
      CreateFile(conn, path, size.value);
      return Done;
    }

    method CheckUpload(path: string, size: Option<uint64>) returns (error: Option<string>)
      ensures error == UploadError(config, State(), path, SizeOf(size))
    {
      if |path| == 0 {
        return Some("path missing");
      } else if |path| > MAX_PATH_LENGTH {
        return Some("path too long");
      } else if size.None? {
        return Some("size missing");
      } else if size.value as nat > MAX_FILE_UPLOAD_SIZE {
        return Some("size too big");
      } else if !config.allowed(path) {
        return Some("no such file or directory");
      }
      var length := Len();
      var pending := Peek(path);
      if length >= MAX_PENDING_UPLOADS {
        return Some("too much transfers in progress");
      } else if pending.Some? {
        return Some("upload in progress");
      } else if config.place(path) in disk.files {
        return Some("file already exists");
      }
      return None;
    }

    method CreateFile(conn: nat, path: string, size: uint64)
      requires Valid() && path !in pendingUploads
      modifies this`pendingUploads, disk
      ensures Valid() && fresh(Contexts() - old(Contexts()))
      ensures State() == Create(config, old(State()), conn, path, size as nat)
    {
      if size == 0 {
        CreateEmpty(path);
      } else {
        CreatePending(conn, path, size);
      }
    }

    method CreateEmpty(path: string)
      modifies disk
      ensures Table() == old(Table())
      ensures State() == Create(config, old(State()), 0, path, 0)
    {
      var file := disk.Create(config.place(path));
      disk.Close(file);
    }

    method CreatePending(conn: nat, path: string, size: uint64)
      requires Valid() && path !in pendingUploads && size > 0
      modifies this`pendingUploads, disk
      ensures Valid() && fresh(Contexts() - old(Contexts()))
      ensures State() == Create(config, old(State()), conn, path, size as nat)
    {
      var file := disk.Create(config.place(path));
      AddUpload(conn, path, size, file);
    }

    method AddUpload(conn: nat, path: string, size: uint64, file: nat)
      requires Valid() && path !in pendingUploads
      modifies this`pendingUploads
      ensures Valid() && fresh(Contexts() - old(Contexts()))
      ensures Table() == old(Table())[path := Pending(conn, path, size as nat, 0, file, now + VALIDITY_TIME)]
    {
      var context := new UploadFileContext(conn, path, size, file);
      assert Table() == old(Table());
      Add(path, context);
    }

    method CancelUpload(conn: nat, path: string) returns (reply: Reply)
      requires Valid()
      modifies this`pendingUploads, Contexts(), disk
      ensures Valid() && Contexts() <= old(Contexts())
      ensures var verdict := OnCancel(old(State()), conn, path);
              reply == verdict.reply && State() == Perform(config, old(State()), verdict.effect)
    {
      if |path| == 0 {
        return Refused("path missing");
      } else if |path| > MAX_PATH_LENGTH {
        return Refused("path too long");
      }
      var pending := Peek(path);
      if pending.None? || pending.value.connId != conn {
        return Refused("transfer not found");
      }
      Remove(path);
      return Done;
    }

    /** The background task of the library discards an expired entry. */
    method DeleteExpired(path: string)
      requires Valid()
      modifies this`pendingUploads, Contexts(), disk
      ensures Valid() && Contexts() <= old(Contexts())
      ensures State() == Perform(config, old(State()), OnSweep(old(State()), path))
    {
      var pending := Peek(path);
      if path in pendingUploads && pending.None? {
        Remove(path);
      }
    }

    /** Adding the entry of a transfer once more renews it. */
    method RenewUpload(path: string, context: UploadFileContext)
      requires Valid() && path in pendingUploads && pendingUploads[path].context == context
      modifies this`pendingUploads
      ensures Valid() && Contexts() == old(Contexts()) && path in pendingUploads && pendingUploads[path].context == context
      ensures State() == Renew(old(State()), path)
    {
      Add(path, context);
      assert forall p :: p in old(pendingUploads) ==> p in pendingUploads && pendingUploads[p].context == old(pendingUploads[p].context);
    }

    /** Writes a block to the open file. */
    method WriteBlock(path: string, context: UploadFileContext, content: Data)
      requires Valid() && IsStored(config, State(), path) && pendingUploads[path].context == context
      requires context.bytesReceived as nat + |content| <= context.fileSize as nat
      modifies disk, context`bytesReceived
      ensures Valid() && State() == Append(config, old(State()), path, content)
    {
      disk.Write(config.place(path), content);
      context.bytesReceived := context.bytesReceived + |content| as uint64;
      assert forall p :: p in pendingUploads && p != path ==> pendingUploads[p].context != context;
      assert Table() == old(Table())[path := View(pendingUploads[path])];
    }

    method UploadBlock(conn: nat, path: string, content: Data, fault: Option<string>) returns (reply: Reply)
      requires Valid() && EntriesHold(config, State())
      modifies this`pendingUploads, Contexts(), disk
      ensures Valid() && Contexts() <= old(Contexts())
      ensures var verdict := OnBlock(old(State()), conn, path, content, fault);
              reply == verdict.reply && State() == Perform(config, old(State()), verdict.effect)
    {
      var error, pending := CheckBlock(conn, path, content);
      if error.Some? {
        return Refused(error.value);
      }
      assert EntryHolds(config, State(), path, State().table[path]);
      reply := ReceiveBlock(State(), State().table[path], path, pending.value, content, fault);
    }

    /** Removes the entry that was renewed in the state `s`. */
    method Abandon(ghost s: State, path: string)
      requires Valid() && path in pendingUploads && path in s.table && State() == Renew(s, path)
      modifies this`pendingUploads, pendingUploads[path].context`fd, disk
      ensures Valid() && Contexts() <= old(Contexts())
      ensures State() == Drop(config, s, {path})
    {
      Remove(path);
      DropForgetsRenewal(config, s, path);
    }

    /** A block for this context, whose entry is `e` in the state `s`. */
    method ReceiveBlock(ghost s: State, ghost e: Pending, path: string, context: UploadFileContext, content: Data, fault: Option<string>)
      returns (reply: Reply)
      requires Valid() && s == State() && IsStored(config, s, path) && pendingUploads[path].context == context
      requires e == s.table[path] && e.received + |content| < 0x1_0000_0000_0000_0000
      modifies this`pendingUploads, context, disk
      ensures Valid() && Contexts() <= old(Contexts())
      ensures var verdict := Receive(e, path, content, fault);
              reply == verdict.reply && State() == Perform(config, s, verdict.effect)
    {
      RenewUpload(path, context);
      var error := if context.bytesReceived + |content| as uint64 > context.fileSize
                   then Some("too much data received") else fault;
      if error.Some? {
        Abandon(s, path);
        reply := Refused(error.value);
      } else {
        StoreBlock(path, context, content);
        StoringIsReceiving(config, s, path, content);
        reply := Done;
      }
    }

    method StoreBlock(path: string, context: UploadFileContext, content: Data)
      requires Valid() && IsStored(config, State(), path) && pendingUploads[path].context == context
      requires context.bytesReceived as nat + |content| <= context.fileSize as nat
      modifies this`pendingUploads, context, disk
      ensures Valid() && Contexts() <= old(Contexts())
      ensures State() == Stored(config, old(State()), path, content)
    {
      WriteBlock(path, context, content);
      var complete := context.bytesReceived == context.fileSize;
      if complete {
        CompleteUpload(path, context);
      }
    }

    method CheckBlock(conn: nat, path: string, content: Data)
      returns (error: Option<string>, pending: Option<UploadFileContext>)
      ensures error == BlockError(State(), conn, path, content)
      ensures error.None? ==> path in pendingUploads && pending == Some(pendingUploads[path].context)
    {
      pending := None;
      if |path| == 0 {
        return Some("path missing"), None;
      } else if |path| > MAX_PATH_LENGTH {
        return Some("path too long"), None;
      } else if |content| == 0 {
        return Some("data missing"), None;
      } else if |content| > MAX_UPLOAD_BLOCK_DATA_SIZE {
        return Some("data too big"), None;
      }
      pending := Peek(path);
      if pending.None? || pending.value.connId != conn {
        return Some("transfer not found"), None;
      }
      return None, pending;
    }

    /** Closes the file of a complete upload first, so that its removal from the table
        keeps the file. */
    method CompleteUpload(path: string, context: UploadFileContext)
      requires Valid() && path in pendingUploads && pendingUploads[path].context == context
      modifies this`pendingUploads, context`fd, disk
      ensures Valid() && Contexts() <= old(Contexts())
      ensures State() == Finish(old(State()), path)
    {
      context.Cleanup(config, disk, false);
      Remove(path);
      assert Table() == old(Table()) - {path};
    }

    // ---------- Connections and the clock ----------

    method Connect() returns (conn: nat)
      modifies this`running, this`connections
      ensures conn == old(connections) && State() == Advance(old(State()), Step.Connect)
    {
      conn := connections;
      running := running + {conn};
      connections := connections + 1;
    }

    method Wait(time: nat)
      modifies this`now
      ensures State() == Advance(old(State()), Step.Wait(time))
    {
      now := now + time;
    }

    /** The message loop of a connection ends. */
    method Disconnect(conn: nat)
      requires Valid() && AreSeparate(config, State().table)
      modifies this`pendingUploads, this`running, Contexts(), disk
      ensures Valid() && Contexts() <= old(Contexts())
      ensures State() == Advance(Drop(config, old(State()), OwnTransfers(old(State()), conn)), Step.Disconnect(conn))
    {
      ghost var own := OwnTransfers(State(), conn);
      RemoveOwnTransfers(own, conn);
      HangUp(conn);
    }

    /** Goes through the keys in any order. */
    method RemoveOwnTransfers(ghost own: set<string>, conn: nat)
      requires Valid() && AreSeparate(config, State().table) && own == OwnTransfers(State(), conn)
      modifies this`pendingUploads, Contexts(), disk
      ensures Valid() && Contexts() <= old(Contexts())
      ensures State() == Drop(config, old(State()), own)
    {
      var keys := Keys();
      assert own - keys == {};
      DropNone(config, State());
      RemoveOwnAmong(State(), own, keys, conn);
    }

    /** The loop over the keys, begun in the state `s`. */
    method RemoveOwnAmong(ghost s: State, ghost own: set<string>, among: set<string>, conn: nat)
      requires Valid() && AreSeparate(config, s.table) && own == OwnTransfers(s, conn)
      requires State() == Drop(config, s, own - among)
      modifies this`pendingUploads, Contexts(), disk
      ensures Valid() && Contexts() <= old(Contexts())
      ensures State() == Drop(config, s, own)
    {
      var keys := among;
      while keys != {}
        invariant Valid() && Contexts() <= old(Contexts())
        invariant State() == Drop(config, s, own - keys)
        decreases keys
      {
        var key :| key in keys;
        RemoveOwn(s, own, keys, key, conn);
        keys := keys - {key};
      }
      assert own - {} == own;
    }

    method HangUp(conn: nat)
      modifies this`running
      ensures State() == Advance(old(State()), Step.Disconnect(conn))
    {
      running := running - {conn};
    }

    /** The keys of the entries that have not expired. */
    method Keys() returns (keys: set<string>)
      ensures keys == set p | p in pendingUploads && Find(State(), p).Some?
    {
      keys := set p | p in pendingUploads && now <= pendingUploads[p].expiresAt;
    }

    /** One turn of the clean-up that began in the state `s`. */
    method RemoveOwn(ghost s: State, ghost own: set<string>, ghost keys: set<string>, key: string, conn: nat)
      requires Valid() && AreSeparate(config, s.table) && key in keys && own == OwnTransfers(s, conn)
      requires State() == Drop(config, s, own - keys)
      modifies this`pendingUploads, Contexts(), disk
      ensures Valid() && Contexts() <= old(Contexts())
      ensures State() == Drop(config, s, own - (keys - {key}))
    {
      LeaveOut(own, keys, key);
      OwnIsLeft(config, s, own, keys, key, conn);
      var pending := Peek(key);
      if pending.Some? && pending.value.connId == conn {
        Remove(key);
        DropOneMore(config, s, own - keys, key);
      }
    }

    // ---------- The message loop ----------

    /** Handles one message, or lets one event of the environment happen. */
    method Serve(step: Step) returns (reply: Reply)
      requires Valid() && Holds(config, State())
      requires step.Upload? && step.size.Some? ==> step.size.value < 0x1_0000_0000_0000_0000
      modifies this`pendingUploads, this`running, this`connections, this`now, Contexts(), disk
      ensures Valid() && fresh(Contexts() - old(Contexts()))
      ensures State() == Apply(config, old(State()), step) && Holds(config, State())
      ensures reply == Decide(config, old(State()), step).reply
    {
      StepKeeps(config, State(), step);
      reply := Handle(step);
    }

    method Handle(step: Step) returns (reply: Reply)
      requires Valid() && EntriesHold(config, State()) && AreSeparate(config, State().table)
      requires step.Upload? && step.size.Some? ==> step.size.value < 0x1_0000_0000_0000_0000
      modifies this`pendingUploads, this`running, this`connections, this`now, Contexts(), disk
      ensures Valid() && fresh(Contexts() - old(Contexts()))
      ensures State() == Apply(config, old(State()), step)
      ensures reply == Decide(config, old(State()), step).reply
    {
      reply := NoReply;
      match step
      case Connect =>
        var _ := Connect();
      case Wait(time) => Wait(time);
      case Sweep(path) => DeleteExpired(path);
      case Disconnect(conn) =>
        if conn in running {
          Disconnect(conn);
        }
      case _ =>
        if step.conn in running {
          reply := HandleMessage(step);
        }
    }

    method HandleMessage(step: Step) returns (reply: Reply)
      requires Valid() && EntriesHold(config, State())
      requires (step.Upload? || step.Block? || step.Cancel?) && step.conn in running
      requires step.Upload? && step.size.Some? ==> step.size.value < 0x1_0000_0000_0000_0000
      modifies this`pendingUploads, Contexts(), disk
      ensures Valid() && fresh(Contexts() - old(Contexts()))
      ensures var verdict := Decide(config, old(State()), step);
              reply == verdict.reply && State() == Perform(config, old(State()), verdict.effect)
    {
      match step
      case Upload(conn, path, size, fault) =>
        reply := Upload(conn, path, if size.Some? then Some(size.value as uint64) else None, fault);
      case Block(conn, path, content, fault) => reply := UploadBlock(conn, path, content, fault);
      case Cancel(conn, path) => reply := CancelUpload(conn, path);
    }
  }

  /** Storing a block in a renewed entry is what is specified for a block that is taken. */
  lemma StoringIsReceiving(config: Config, s: UploadServer.State, path: string, content: Data)
    requires IsStored(config, s, path) && s.table[path].received + |content| <= s.table[path].size
    ensures var verdict := Receive(s.table[path], path, content, None);
            && verdict.reply == Done
            && Perform(config, s, verdict.effect) == Stored(config, Renew(s, path), path, content)
  {
  }

  function Stored(config: Config, s: UploadServer.State, path: string, content: Data): UploadServer.State
    requires IsStored(config, s, path)
  {
    var t := Append(config, s, path, content);
    if t.table[path].received == t.table[path].size then Finish(t, path) else t
  }

  lemma DropNone(config: Config, s: UploadServer.State)
    ensures Drop(config, s, {}) == s
  {
  }

  /** What is left to be removed is what was the connection's at first. */
  lemma OwnIsLeft(config: Config, s: UploadServer.State, own: set<string>, keys: set<string>, key: string, conn: nat)
    requires own == OwnTransfers(s, conn) && key in keys
    ensures IsOwn(Drop(config, s, own - keys), conn, key) <==> key in own
  {
  }

  lemma LeaveOut(own: set<string>, keys: set<string>, key: string)
    requires key in keys
    ensures own - (keys - {key}) == if key in own then own - keys + {key} else own - keys
  {
  }

  lemma DropOneMore(config: Config, s: UploadServer.State, paths: set<string>, path: string)
    requires AreSeparate(config, s.table) && paths <= s.table.Keys && path in s.table && path !in paths
    ensures Drop(config, Drop(config, s, paths), {path}) == Drop(config, s, paths + {path})
  {
    OneMoreClosed(config, s, paths, path);
    OneMorePlace(config, s.files, paths, path);
    OneMoreEntry(s.table, paths, path);
  }

  lemma OneMoreEntry(table: map<string, Pending>, paths: set<string>, path: string)
    ensures table - paths - {path} == table - (paths + {path})
  {
  }

  lemma OneMoreClosed(config: Config, s: UploadServer.State, paths: set<string>, path: string)
    requires AreSeparate(config, s.table) && paths <= s.table.Keys && path in s.table && path !in paths
    ensures Drop(config, Drop(config, s, paths), {path}).closed == Drop(config, s, paths + {path}).closed
  {
    OneMoreHandle(config, s, paths, path);
  }

  lemma OneMorePlace(config: Config, files: map<string, Data>, paths: set<string>, path: string)
    ensures files - Places(config, paths) - Places(config, {path}) == files - Places(config, paths + {path})
  {
    assert Places(config, paths + {path}) == Places(config, paths) + Places(config, {path});
  }

  lemma OneMoreHandle(config: Config, s: UploadServer.State, paths: set<string>, path: string)
    requires AreSeparate(config, s.table) && paths <= s.table.Keys && path in s.table && path !in paths
    ensures multiset(Handles(s, paths + {path})) == multiset(Handles(s, paths)) + multiset{s.table[path].handle}
    ensures Handles(Drop(config, s, paths), {path}) == {s.table[path].handle}
  {
    var h := s.table[path].handle;
    assert Handles(s, paths + {path}) == Handles(s, paths) + {h};
    assert h !in Handles(s, paths);
  }

  lemma DropForgetsRenewal(config: Config, s: UploadServer.State, path: string)
    requires path in s.table
    ensures Drop(config, Renew(s, path), {path}) == Drop(config, s, {path})
  {
  }

  function SizeOf(size: Option<uint64>): Option<nat> {
    if size.Some? then Some(size.value as nat) else None
  }
}
