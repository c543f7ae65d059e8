/** What the progress bar of an upload shows over a whole run in which every request is
    acknowledged: a run of the client from its beginning, turn by turn. */
module ProgressBar {
  import opened Wrappers
  import opened Arithmetic
  import opened UploadClient
  import opened Iteration

  /** The next turn of the client: an answer arrives, or a block is loaded. */
  function Turned(c: Client): Client {
    match c.reader
    case None => OnAnswer(c, true, true).client
    case Some(r) => if r.reading then OnLoaded(c).client else OnAnswer(c, false, true).client
  }

  function After(c: Client, turns: nat): Client {
    Iterate(Turned, c, turns)
  }

  // ---------- Where the client is ----------

  /** In front of a file, with a block to read from `pos` on, or with that block sent. */
  datatype Spot = AtFile(i: nat) | Reading(i: nat, pos: nat) | Sending(i: nat, pos: nat)

  function Size(files: seq<File>, i: nat): nat
    requires i < |files|
  {
    |files[i].data|
  }

  /** How far a block that begins at `pos` reaches. */
  function BlockEnd(files: seq<File>, i: nat, pos: nat): nat
    requires i < |files|
  {
    Min(pos + BLOCK_SIZE, Size(files, i))
  }

  predicate IsSpot(files: seq<File>, spot: Spot) {
    match spot
    case AtFile(i) => i <= |files|
    case Reading(i, pos) => i < |files| && pos < Size(files, i)
    case Sending(i, pos) => i < |files| && pos < Size(files, i)
  }

  function NextSpot(files: seq<File>, spot: Spot): Spot
    requires IsSpot(files, spot)
  {
    match spot
    case AtFile(i) =>
      if i == |files| then spot else if Size(files, i) == 0 then AtFile(i + 1) else Reading(i, 0)
    case Reading(i, pos) => Sending(i, pos)
    case Sending(i, pos) =>
      if BlockEnd(files, i, pos) < Size(files, i) then Reading(i, BlockEnd(files, i, pos)) else AtFile(i + 1)
  }

  function SpotAfter(files: seq<File>, turns: nat): (spot: Spot)
    ensures IsSpot(files, spot)
  {
    if turns == 0 then AtFile(0) else NextSpot(files, SpotAfter(files, turns - 1))
  }

  /** The progress object still holds the size of the last file that was read. */
  function Stale(files: seq<File>, i: nat): nat
    requires i <= |files|
  {
    if i == 0 then 0 else if Size(files, i - 1) > 0 then Size(files, i - 1) else Stale(files, i - 1)
  }

  /** What the bar shows when `pos` bytes of a file are acknowledged. */
  function ShownAt(files: seq<File>, i: nat, pos: nat): nat
    requires i < |files|
  {
    if pos == 0 then Percentage(i, |files|) else ShareOf(files, i, pos)
  }

  /** The share of the files so far, times that of the bytes of the current one. */
  function ShareOf(files: seq<File>, i: nat, bytes: nat): nat
    requires i < |files|
  {
    Percentage((i + 1) * bytes, Size(files, i) * |files|)
  }

  function ShownOf(files: seq<File>, spot: Spot): nat
    requires IsSpot(files, spot)
  {
    if spot.AtFile? then Percentage(spot.i, |files|) else ShownAt(files, spot.i, spot.pos)
  }

  /** The client at a spot. */
  function ClientAt(dir: string, files: seq<File>, spot: Spot): Client
    requires IsSpot(files, spot)
  {
    match spot
    case AtFile(i) =>
      Client(dir, files, i, None, Stale(files, i), Stale(files, i), ShownOf(files, spot),
             if i < |files| then Running else Finished)
    case Reading(i, pos) =>
      Client(dir, files, i, Some(Reader(pos, true)), if pos == 0 then Stale(files, i) else pos,
             if pos == 0 then Stale(files, i) else Size(files, i), ShownOf(files, spot), Running)
    case Sending(i, pos) =>
      Client(dir, files, i, Some(Reader(BlockEnd(files, i, pos), false)), BlockEnd(files, i, pos), Size(files, i),
             ShownOf(files, spot), Running)
  }

  // ---------- Percentages ----------

  lemma PercentageGrows(a: nat, b: nat, whole: nat)
    requires a <= b
    ensures Percentage(a, whole) <= Percentage(b, whole)
  {
    if whole > 0 {
      QuotientGrows(a * 100, b * 100, whole);
    }
  }

  /** A common factor makes no difference. */
  lemma PercentageCancels(part: nat, x: nat, whole: nat)
    requires x > 0
    ensures Percentage(part * x, x * whole) == Percentage(part, whole)
  {
    if whole > 0 {
      var q, r := part * 100 / whole, part * 100 % whole;
      assert part * 100 == whole * q + r;
      Scaled(part * 100, whole, q, r, x);
      assert part * x * 100 == x * (part * 100);
    } else {
      assert x * whole == 0;
    }
  }

  lemma Scaled(a: nat, d: nat, q: nat, r: nat, x: nat)
    requires a == d * q + r && r < d && x > 0
    ensures x * d > 0 && (x * a) / (x * d) == q
  {
    assert x * a == x * d * q + x * r;
    assert x * r < x * d;
    assert x * d * q == q * (x * d);
    DivisionIs(x * a, x * d, q, x * r);
  }

  lemma Whole(n: nat)
    requires n > 0
    ensures Percentage(n, n) == 100
  {
    DivisionIs(n * 100, n, 100, 0);
  }

  // ---------- Turn by turn ----------

  /** A file is done: the bar shows the share of the files so far, and 100 at the end. */
  lemma FileDone(dir: string, files: seq<File>, i: nat, c: Client)
    requires i < |files| && c.phase == Running && c.destDir == dir && c.files == files && c.filesProcessed == i
    requires c.cur == c.tot == Stale(files, i + 1)
    ensures AdvanceUpload(c).client == ClientAt(dir, files, AtFile(i + 1))
  {
    var x := Max(c.tot, 1);
    FullExactlyAtTheEnd(c);
    PercentageCancels(i + 1, x, |files|);
    assert Progress(c) == Percentage(i + 1, |files|);
    Whole(|files|);
  }

  lemma BlockDone(dir: string, files: seq<File>, i: nat, pos: nat)
    requires IsSpot(files, Sending(i, pos)) && BlockEnd(files, i, pos) < Size(files, i)
    ensures AdvanceUpload(ClientAt(dir, files, Sending(i, pos))).client
         == ClientAt(dir, files, Reading(i, BlockEnd(files, i, pos)))
  {
    var c := ClientAt(dir, files, Sending(i, pos));
    FullExactlyAtTheEnd(c);
    assert Progress(c) == ShownAt(files, i, BlockEnd(files, i, pos));
  }

  /** Each turn takes the client from its spot to the next one. */
  lemma TurnGoesToNextSpot(dir: string, files: seq<File>, spot: Spot)
    requires IsSpot(files, spot)
    ensures Turned(ClientAt(dir, files, spot)) == ClientAt(dir, files, NextSpot(files, spot))
  {
    var c := ClientAt(dir, files, spot);
    match spot
    case AtFile(i) =>
      if i < |files| && Size(files, i) == 0 {
        FileDone(dir, files, i, c);
      }
    case Reading(i, pos) =>
    case Sending(i, pos) =>
      if BlockEnd(files, i, pos) < Size(files, i) {
        BlockDone(dir, files, i, pos);
      } else {
        FileDone(dir, files, i, c);
      }
  }

  /** The whole run is known: after any number of turns the client is at the spot that the
      sizes of the files alone determine. */
  lemma {:induction false} RunGoesFromSpotToSpot(dir: string, files: seq<File>, turns: nat)
    requires files != []
    ensures After(Begin(dir, files), turns) == ClientAt(dir, files, SpotAfter(files, turns))
  {
    if turns == 0 {
      BeginsAtFirstFile(dir, files);
    } else {
      RunGoesFromSpotToSpot(dir, files, turns - 1);
      OneTurnOn(dir, files, After(Begin(dir, files), turns - 1), SpotAfter(files, turns - 1));
      assert After(Begin(dir, files), turns) == Turned(After(Begin(dir, files), turns - 1));
      assert SpotAfter(files, turns) == NextSpot(files, SpotAfter(files, turns - 1));
    }
  }

  lemma OneTurnOn(dir: string, files: seq<File>, c: Client, spot: Spot)
    requires IsSpot(files, spot) && c == ClientAt(dir, files, spot)
    ensures Turned(c) == ClientAt(dir, files, NextSpot(files, spot))
  {
    TurnGoesToNextSpot(dir, files, spot);
  }

  lemma BeginsAtFirstFile(dir: string, files: seq<File>)
    requires files != []
    ensures Begin(dir, files) == ClientAt(dir, files, AtFile(0))
  {
    DivisionIs(0, |files|, 0, 0);
  }

  // ---------- When the bar goes back ----------

  /** The share of the first block of a file, taken times the files so far, is not less
      than the share of the files before it. */
  predicate FirstBlockKeepsUp(files: seq<File>, i: nat)
    requires i < |files|
  {
    Percentage(i, |files|) <= ShareOf(files, i, Min(BLOCK_SIZE, Size(files, i)))
  }

  predicate AllKeepUp(files: seq<File>) {
    forall i :: 1 <= i < |files| && Size(files, i) > 0 ==> FirstBlockKeepsUp(files, i)
  }

  lemma ShareGrows(files: seq<File>, i: nat, a: nat, b: nat)
    requires i < |files| && a <= b
    ensures ShareOf(files, i, a) <= ShareOf(files, i, b)
  {
    assert (i + 1) * a <= (i + 1) * b;
    PercentageGrows((i + 1) * a, (i + 1) * b, Size(files, i) * |files|);
  }

  lemma WholeShare(files: seq<File>, i: nat)
    requires i < |files| && Size(files, i) > 0
    ensures ShareOf(files, i, Size(files, i)) == Percentage(i + 1, |files|)
  {
    PercentageCancels(i + 1, Size(files, i), |files|);
  }

  /** The bar goes back in a turn exactly if it is the one that acknowledges the first
      block of a file that does not keep up. It never goes back within a file. */
  lemma GoesBackExactly(files: seq<File>, spot: Spot)
    requires IsSpot(files, spot)
    ensures ShownOf(files, NextSpot(files, spot)) < ShownOf(files, spot)
            <==> FallsAt(files, spot)
  {
    match spot
    case AtFile(i) =>
      PercentageGrows(i, i + 1, |files|);
    case Reading(i, pos) =>
    case Sending(i, pos) =>
      WholeShare(files, i);
      ShareGrows(files, i, pos, BlockEnd(files, i, pos));
  }

  /** Every file has its turn. */
  lemma {:induction false} FileIsReached(files: seq<File>, i: nat) returns (turns: nat)
    requires i <= |files|
    ensures SpotAfter(files, turns) == AtFile(i)
  {
    turns := 0;
    if i > 0 {
      turns := FileIsReached(files, i - 1);
      if Size(files, i - 1) == 0 {
        turns := turns + 1;
      } else {
        turns := EndIsReached(files, turns + 1, i - 1, 0);
      }
    }
  }

  lemma {:induction false} EndIsReached(files: seq<File>, before: nat, i: nat, pos: nat) returns (turns: nat)
    requires IsSpot(files, Reading(i, pos)) && SpotAfter(files, before) == Reading(i, pos)
    ensures SpotAfter(files, turns) == AtFile(i + 1)
    decreases Size(files, i) - pos
  {
    assert SpotAfter(files, before + 1) == Sending(i, pos);
    turns := before + 2;
    if BlockEnd(files, i, pos) < Size(files, i) {
      turns := EndIsReached(files, turns, i, BlockEnd(files, i, pos));
    }
  }

  ghost predicate NeverGoesBack(dir: string, files: seq<File>) {
    forall turns: nat :: After(Begin(dir, files), turns).shown <= After(Begin(dir, files), turns + 1).shown
  }

  /** The bar never goes back in a whole upload exactly if the first block of every file
      keeps up. For the first file, and for one of a single block, it always does. */
  lemma NeverGoesBackExactly(dir: string, files: seq<File>)
    requires files != []
    ensures NeverGoesBack(dir, files) <==> AllKeepUp(files)
  {
    if i :| 1 <= i < |files| && Size(files, i) > 0 && !FirstBlockKeepsUp(files, i) {
      var turns := FirstBlockIsSent(files, i);
      TurnInRun(dir, files, turns);
    } else {
      forall turns: nat
        ensures After(Begin(dir, files), turns).shown <= After(Begin(dir, files), turns + 1).shown
      {
        TurnInRun(dir, files, turns);
        OthersKeepUp(files, SpotAfter(files, turns));
      }
    }
  }

  lemma FirstBlockIsSent(files: seq<File>, i: nat) returns (turns: nat)
    requires i < |files| && Size(files, i) > 0
    ensures SpotAfter(files, turns) == Sending(i, 0)
  {
    turns := FileIsReached(files, i);
    assert SpotAfter(files, turns + 1) == Reading(i, 0);
    turns := turns + 2;
  }

  lemma OthersKeepUp(files: seq<File>, spot: Spot)
    requires IsSpot(files, spot)
    requires AllKeepUp(files)
    ensures !FallsAt(files, spot)
  {
    if spot.Sending? && spot.i == 0 {
      DivisionIs(0, |files|, 0, 0);
    }
  }

  lemma TurnInRun(dir: string, files: seq<File>, turns: nat)
    requires files != []
    ensures After(Begin(dir, files), turns + 1).shown < After(Begin(dir, files), turns).shown
            <==> FallsAt(files, SpotAfter(files, turns))
  {
    RunGoesFromSpotToSpot(dir, files, turns);
    RunGoesFromSpotToSpot(dir, files, turns + 1);
    GoesBackExactly(files, SpotAfter(files, turns));
  }

  predicate FallsAt(files: seq<File>, spot: Spot)
    requires IsSpot(files, spot)
  {
    spot.Sending? && spot.pos == 0 && !FirstBlockKeepsUp(files, spot.i)
  }

  /** The bar does go back: with a file of 1000 bytes and one of ten megabytes it shows 50
      when the first is done, and 5 when one block of the second is. */
  lemma BarGoesBack(dir: string, files: seq<File>)
    requires |files| == 2 && Size(files, 0) == 1000 && Size(files, 1) == 10 * 1024 * 1024
    ensures After(Begin(dir, files), 3).shown == 50 && After(Begin(dir, files), 6).shown == 5
    ensures !NeverGoesBack(dir, files)
  {
    TwoFiles(files);
    RunGoesFromSpotToSpot(dir, files, 3);
    RunGoesFromSpotToSpot(dir, files, 6);
    NeverGoesBackExactly(dir, files);
  }

  lemma TwoFiles(files: seq<File>)
    requires |files| == 2 && Size(files, 0) == 1000 && Size(files, 1) == 10 * 1024 * 1024
    ensures SpotAfter(files, 3) == AtFile(1) && ShownOf(files, AtFile(1)) == 50
    ensures SpotAfter(files, 6) == Reading(1, BLOCK_SIZE) && ShownOf(files, Reading(1, BLOCK_SIZE)) == 5
    ensures !FirstBlockKeepsUp(files, 1)
  {
    assert SpotAfter(files, 1) == Reading(0, 0) && SpotAfter(files, 2) == Sending(0, 0);
    assert SpotAfter(files, 3) == AtFile(1) && SpotAfter(files, 4) == Reading(1, 0);
    assert SpotAfter(files, 5) == Sending(1, 0) && SpotAfter(files, 6) == Reading(1, BLOCK_SIZE);
    assert Percentage(1, 2) == 50;
    assert Percentage(2 * BLOCK_SIZE, 10 * 1024 * 1024 * 2) == 5;
  }

  // ---------- Runs with pauses ----------

  lemma NoTurnIsTaken(c: Client)
    requires c.phase != Running && c.reader.None?
    ensures Turned(c) == c
  {
  }

  lemma OneTurnMore(first: Client, turns: nat)
    ensures After(first, turns + 1) == Turned(After(first, turns))
  {
  }

  /** In a run with pauses that is over, the bar goes back if and only if the first block
      of some file does not keep up. */
  lemma PausedRunGoesBackExactly(dir: string, files: seq<File>, cs: seq<Client>)
    requires files != [] && cs != [] && IsStepping(Turned, cs) && cs[0] == Begin(dir, files)
    requires cs[|cs| - 1].phase != Running && cs[|cs| - 1].reader.None?
    ensures AllKeepUp(files)
            <==> forall j :: 0 <= j < |cs| - 1 ==> cs[j].shown <= cs[j + 1].shown
  {
    if i :| 1 <= i < |files| && Size(files, i) > 0 && !FirstBlockKeepsUp(files, i) {
      var m := FirstBlockIsSent(files, i);
      TurnInRun(dir, files, m);
      NoTurnIsTaken(cs[|cs| - 1]);
      var j := RunPassesStep(Turned, cs, 0, 0, m);
    } else {
      NeverGoesBackExactly(dir, files);
      forall j | 0 <= j < |cs| - 1
        ensures cs[j].shown <= cs[j + 1].shown
      {
        var n := ElementIsIterate(Turned, cs, j);
        StepNeverGoesBack(dir, files, n);
      }
    }
  }

  lemma StepNeverGoesBack(dir: string, files: seq<File>, n: nat)
    requires NeverGoesBack(dir, files)
    ensures After(Begin(dir, files), n).shown <= Turned(After(Begin(dir, files), n)).shown
  {
    OneTurnMore(Begin(dir, files), n);
  }
}
