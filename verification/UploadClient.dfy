/** Uploads on the side of the file manager client: one file after the other, each in
    blocks, a block at a time. */
module UploadClient {
  import opened Wrappers
  import Paths = PathPolicy

  const BLOCK_SIZE: nat := 512 * 1024

  datatype File = File(name: string, data: Data)

  datatype Request =
    | Announce(path: string, size: nat)
    | Send(path: string, content: Data)

  /** The reader of the current file: how far it has read, and whether a read is under way. */
  datatype Reader = Reader(filePos: nat, reading: bool)

  datatype Phase = Running | Finished | Failed

  /** `cur` and `tot` are the progress of the file that was read last; `shown` is what the
      progress bar shows. */
  datatype Client = Client(
    destDir: string,
    files: seq<File>,
    filesProcessed: nat,
    reader: Option<Reader>,
    cur: nat,
    tot: nat,
    shown: nat,
    phase: Phase)

  /** A client after an event, with the requests it sent. */
  datatype Turn = Turn(client: Client, sent: seq<Request>)

  // ---------- Paths ----------

  function StripSlashes(dir: string): string {
    if dir != "" && dir[|dir| - 1] == '/' then StripSlashes(dir[..|dir| - 1]) else dir
  }

  function JoinPath(dir: string, name: string): string {
    if dir == "" || dir == "/" then "/" + name else StripSlashes(dir) + "/" + name
  }

  function PathOf(c: Client, i: nat): string
    requires i < |c.files|
  {
    JoinPath(c.destDir, c.files[i].name)
  }

  // ---------- Where a file goes ----------

  function Slashes(n: nat): string {
    if n == 0 then "" else Slashes(n - 1) + "/"
  }

  /** The directory with these components, however many separators are behind it. The empty
      string stands for the root. */
  ghost predicate IsDirectory(dir: string, cs: seq<string>) {
    && Paths.AreComponents(cs)
    && (if dir == "" then cs == [] else exists n: nat :: dir == Paths.Render(cs) + Slashes(n))
  }

  /** A file goes into the directory that is open, under its name. */
  lemma JoinPathIsInside(dir: string, cs: seq<string>, name: string)
    requires IsDirectory(dir, cs) && Paths.IsComponent(name)
    ensures JoinPath(dir, name) == Paths.Render(cs + [name])
  {
    Paths.BodyAppend(cs, name);
    if dir != "" {
      var n: nat :| dir == Paths.Render(cs) + Slashes(n);
      StripsToBody(cs, n);
    }
  }

  /** Without the separators behind it the root is empty, and any other directory clean. */
  lemma StripsToBody(cs: seq<string>, n: nat)
    requires Paths.AreComponents(cs)
    ensures StripSlashes(Paths.Render(cs) + Slashes(n)) == Paths.Body(cs)
    ensures Paths.Render(cs) + Slashes(n) == "/" ==> cs == []
  {
    if cs == [] {
      OneSlashMore(n);
      StripsAll("", n + 1);
      assert "" + Slashes(n + 1) == "/" + Slashes(n);
    } else {
      EndsInName(cs);
      StripsAll(Paths.Body(cs), n);
      Paths.BodyIsLong(cs);
    }
  }

  lemma {:induction false} OneSlashMore(n: nat)
    ensures "/" + Slashes(n) == Slashes(n + 1)
  {
    if n > 0 {
      OneSlashMore(n - 1);
    }
  }

  lemma {:induction false} StripsAll(front: string, n: nat)
    requires front != "" ==> front[|front| - 1] != '/'
    ensures StripSlashes(front + Slashes(n)) == front
  {
    var dir := front + Slashes(n);
    if n == 0 {
      assert dir == front;
    } else {
      assert dir[..|dir| - 1] == front + Slashes(n - 1);
      StripsAll(front, n - 1);
    }
  }

  lemma {:induction false} EndsInName(cs: seq<string>)
    requires Paths.AreComponents(cs) && cs != []
    ensures var body := Paths.Body(cs);
            body != "" && body[|body| - 1] != '/'
  {
    var front, c := cs[..|cs| - 1], cs[|cs| - 1];
    assert cs == front + [c];
    Paths.BodyAppend(front, c);
    assert c[|c| - 1] != '/';
  }

  // ---------- What the client does ----------

  function Min(a: nat, b: nat): nat {
    if a < b then a else b
  }

  function Max(a: nat, b: nat): nat {
    if a > b then a else b
  }

  /** The upload of some files, before its first step. */
  function Begin(destDir: string, files: seq<File>): Client {
    Client(destDir, files, 0, None, 0, 0, 0, Running)
  }

  function Prepare(c: Client): seq<Request> {
    if c.filesProcessed < |c.files|
    then [Announce(PathOf(c, c.filesProcessed), |c.files[c.filesProcessed].data|)] else []
  }

  /** The percentage after an acknowledgement, rounded down. */
  function Progress(c: Client): nat
    requires c.files != []
  {
    Percentage((c.filesProcessed + 1) * Max(c.cur, 1), Max(c.tot, 1) * |c.files|)
  }

  function Percentage(part: nat, whole: nat): nat {
    if whole == 0 then 0 else part * 100 / whole
  }

  function RequestNextBlock(r: Reader, size: nat): Reader {
    if r.filePos < size then r.(reading := true) else r
  }

  /** The current file was created, or a block of it was stored. */
  function AdvanceUpload(c: Client): Turn
    requires c.filesProcessed < |c.files|
  {
    if c.cur != c.tot then
      var size := |c.files[c.filesProcessed].data|;
      var d := c.(reader := if c.reader.Some? then Some(RequestNextBlock(c.reader.value, size)) else None);
      Turn(Show(d, Progress(c)), [])
    else if c.filesProcessed + 1 < |c.files| then
      var d := c.(filesProcessed := c.filesProcessed + 1, reader := None);
      Turn(Show(d, Progress(c)), Prepare(d))
    else
      Turn(Show(c.(filesProcessed := c.filesProcessed + 1), 100), [])
  }

  /** The upload ends as soon as the bar is full. */
  function Show(c: Client, progress: nat): Client {
    if progress == 100 then c.(shown := progress, reader := None, phase := Finished) else c.(shown := progress)
  }

  function StartUpload(c: Client): Turn
    requires c.filesProcessed < |c.files|
  {
    var size := |c.files[c.filesProcessed].data|;
    if c.reader.Some? then Turn(c, [])
    else if size == 0 then AdvanceUpload(c)
    else Turn(c.(reader := Some(RequestNextBlock(Reader(0, false), size))), [])
  }

  /** The answer to a request arrives. */
  function OnAnswer(c: Client, isAnnounce: bool, ok: bool): Turn {
    if c.phase != Running || c.filesProcessed >= |c.files| then Turn(c, [])
    else if !ok then Turn(c.(reader := None, phase := Failed), [])
    else if isAnnounce then StartUpload(c)
    else AdvanceUpload(c)
  }

  /** The file reader has loaded a block. */
  function OnLoaded(c: Client): Turn {
    if c.reader.None? || !c.reader.value.reading || c.filesProcessed >= |c.files| then Turn(c, [])
    else
      var file := c.files[c.filesProcessed];
      var first := Min(c.reader.value.filePos, |file.data|);
      var last := Min(first + BLOCK_SIZE, |file.data|);
      Turn(c.(reader := Some(Reader(last, false)), cur := last, tot := |file.data|),
           [Send(PathOf(c, c.filesProcessed), file.data[first..last])])
  }

  // ---------- The progress bar ----------

  /** Where the client stands when an acknowledgement arrives. */
  predicate IsAcknowledged(c: Client) {
    && c.filesProcessed < |c.files|
    && c.cur <= c.tot
    && (c.cur < c.tot ==> c.cur > 0)
  }

  lemma BelowHundred(part: nat, whole: nat)
    requires part < whole
    ensures Percentage(part, whole) < 100
  {
    var q := part * 100 / whole;
    assert part * 100 == whole * q + part * 100 % whole;
    assert q >= 100 ==> whole * q >= whole * 100;
  }

  lemma ShareIsSmall(n: nat, total: nat, cur: nat, tot: nat)
    requires 1 <= n <= total && 1 <= cur <= tot && (n < total || cur < tot)
    ensures n * cur < tot * total
  {
    assert n * cur <= n * tot;
    assert n * tot <= total * tot;
    assert cur < tot ==> n * cur < n * tot;
    assert n < total ==> n * tot < total * tot;
  }

  /** The bar is full exactly when the last file is acknowledged as a whole, which ends
      the upload. */
  lemma FullExactlyAtTheEnd(c: Client)
    requires IsAcknowledged(c) && c.phase == Running
    ensures var d := AdvanceUpload(c).client;
            && (d.shown == 100 <==> c.cur == c.tot && c.filesProcessed + 1 == |c.files|)
            && d.shown <= 100
            && (d.phase == Finished <==> d.shown == 100)
            && (d.phase == Running <==> d.shown < 100)
  {
    if c.cur < c.tot || c.filesProcessed + 1 < |c.files| {
      ShareIsSmall(c.filesProcessed + 1, |c.files|, Max(c.cur, 1), Max(c.tot, 1));
      BelowHundred((c.filesProcessed + 1) * Max(c.cur, 1), Max(c.tot, 1) * |c.files|);
    }
  }
}
