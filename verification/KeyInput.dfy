/** The on-screen keyboard of the noVNC page: `keyInput` turns a change of an input field
    into backspaces and typed characters. */
module KeyInput {
  import opened Wrappers

  /** A key sent to the remote side. `NoKey` is what is looked up for a position
      behind the end of the text. */
  datatype Key = Backspace | Typed(c: char) | NoKey

  const DEFAULT_LENGTH: nat := 100

  /** What the field is reset to: `new Array(n).join("_")` joins with n - 1 underscores. */
  const RESET_TEXT: string := Underscores(DEFAULT_LENGTH - 1)

  function Underscores(n: nat): string {
    seq(n, _ => '_')
  }

  function CharAt(s: string, i: nat): Option<char> {
    if i < |s| then Some(s[i]) else None
  }

  function KeyAt(s: string, i: nat): Key {
    if i < |s| then Typed(s[i]) else NoKey
  }

  function Min(a: nat, b: nat): nat {
    if a < b then a else b
  }

  /** The first of the positions i, i+1, ... below `end` where the texts differ, or `end`. */
  function Difference(a: string, b: string, i: nat, end: nat): (d: nat)
    requires i <= end
    ensures i <= d <= end
    decreases end - i
  {
    if i == end || CharAt(a, i) != CharAt(b, i) then i else Difference(a, b, i + 1, end)
  }

  lemma {:induction false} DifferenceIsFirst(a: string, b: string, i: nat, end: nat)
    requires i <= end
    ensures var d := Difference(a, b, i, end);
            && (forall j :: i <= j < d ==> CharAt(a, j) == CharAt(b, j))
            && (d < end ==> CharAt(a, d) != CharAt(b, d))
    decreases end - i
  {
    if i < end && CharAt(a, i) == CharAt(b, i) {
      DifferenceIsFirst(a, b, i + 1, end);
    }
  }

  function Backspaces(n: nat): seq<Key> {
    seq(n, _ => Backspace)
  }

  /** The keys for the positions from..until of the text. */
  function Typing(s: string, from: nat, until: nat): (keys: seq<Key>)
    requires from <= until
    ensures |keys| == until - from
    decreases until
  {
    if from == until then [] else Typing(s, from, until - 1) + [KeyAt(s, until - 1)]
  }

  lemma {:induction false} TypingAt(s: string, from: nat, until: nat)
    requires from <= until
    ensures forall k :: 0 <= k < until - from ==> Typing(s, from, until)[k] == KeyAt(s, from + k)
    decreases until
  {
    if from < until {
      TypingAt(s, from, until - 1);
    }
  }

  /** The keys that an event sends: back to the first difference, then the rest. */
  function Script(oldValue: string, newValue: string, newLen: nat): seq<Key> {
    var d := Difference(newValue, oldValue, 0, Min(|oldValue|, newLen));
    Backspaces(|oldValue| - d) + Typing(newValue, d, newLen)
  }

  // ---------- The event handler ----------

  /** The input field, the text remembered of it ("" before the first reset), and the
      keys sent so far. */
  class Keyboard {
    var field: string
    var lastInput: string
    var sent: seq<Key>

    /** The remembered text is the field's, and there is something to delete. */
    ghost predicate Valid()
      reads this
    {
      lastInput != "" && field == lastInput
    }

    /** The page resets the field when it starts. */
    constructor ()
      ensures Valid() && field == RESET_TEXT && sent == []
    {
      field, lastInput, sent := RESET_TEXT, RESET_TEXT, [];
    }

    method Reset()
      modifies this`field, this`lastInput
      ensures Valid() && field == RESET_TEXT
    {
      field := RESET_TEXT;
      lastInput := field;
    }

    /** How much to delete and how much to type. */
    static method Compare(oldValue: string, newValue: string, newLen: nat) returns (inputs: int, backspaces: nat)
      ensures var d := Difference(newValue, oldValue, 0, Min(|oldValue|, newLen));
              && backspaces == |oldValue| - d
              && (if inputs > 0 then newLen - inputs else newLen) == d
    {
      var oldLen := |oldValue|;
      inputs := newLen - oldLen;
      backspaces := if inputs < 0 then -inputs else 0;
      var i := 0;
      var end := Min(oldLen, newLen);
      while i < end
        invariant i <= end
        invariant Difference(newValue, oldValue, 0, end) == Difference(newValue, oldValue, i, end)
        invariant inputs == newLen - oldLen && backspaces == if inputs < 0 then -inputs else 0
      {
        if CharAt(newValue, i) != CharAt(oldValue, i) {
          inputs := newLen - i;
          backspaces := oldLen - i;
          break;
        }
        i := i + 1;
      }
    }

    method SendBackspaces(backspaces: nat)
      modifies this`sent
      ensures sent == old(sent) + Backspaces(backspaces)
    {
      for i := 0 to backspaces
        invariant sent == old(sent) + Backspaces(i)
      {
        sent := sent + [Backspace];
      }
    }

    method SendTyping(newValue: string, newLen: nat, inputs: int)
      requires inputs <= newLen
      modifies this`sent
      ensures sent == old(sent) + Typing(newValue, if inputs > 0 then newLen - inputs else newLen, newLen)
    {
      var i := newLen - inputs;
      while i < newLen
        invariant inputs > 0 ==> newLen - inputs <= i <= newLen
        invariant inputs <= 0 ==> i == newLen - inputs && sent == old(sent)
        invariant inputs > 0 ==> sent == old(sent) + Typing(newValue, newLen - inputs, i)
      {
        sent := sent + [KeyAt(newValue, i)];
        i := i + 1;
      }
    }

    /** The keys of one event: what is deleted, then what is typed. */
    method SendScript(oldValue: string, newValue: string, newLen: nat)
      modifies this`sent
      ensures sent == old(sent) + Script(oldValue, newValue, newLen)
    {
      var inputs, backspaces := Compare(oldValue, newValue, newLen);
      SendBackspaces(backspaces);
      SendTyping(newValue, newLen, inputs);
    }

    /** `keyInput`, called when the field holds a new value. */
    method Input(selectionStart: Option<nat>)
      modifies this
      ensures sent == old(sent) + Script(Remembered(old(lastInput)), old(field), LengthOf(old(field), selectionStart))
      ensures (field, lastInput) == Left(old(lastInput), old(field), selectionStart)
    {
      var newValue := field;
      if lastInput == "" {
        Reset();
      }
      var oldValue := lastInput;
      var newLen := LengthOf(newValue, selectionStart);
      SendScript(oldValue, newValue, newLen);
      if newLen > 2 * DEFAULT_LENGTH {
        Reset();
      } else if newLen < 1 {
        Reset();
      } else {
        lastInput := newValue;
      }
    }

    /** The user changes the field in any way, with the caret inside the text. */
    method Edit(newValue: string, caret: Option<nat>)
      requires Valid() && (caret.Some? ==> caret.value <= |newValue|)
      modifies this
      ensures Valid() && field == Settled(newValue)
      ensures sent == old(sent) + Script(old(lastInput), newValue, |newValue|)
    {
      field := newValue;
      Input(caret);
    }

    /** A run of changes, with the caret inside the text. */
    method Edits(values: seq<string>)
      requires Valid()
      modifies this
      ensures Valid() && field == LastText(old(field), values)
      ensures sent == old(sent) + RunKeys(old(field), values)
    {
      for i := 0 to |values|
        invariant Valid()
        invariant LastText(old(field), values) == LastText(field, values[i..])
        invariant old(sent) + RunKeys(old(field), values) == sent + RunKeys(field, values[i..])
      {
        RunStep(field, values, i, sent);
        Edit(values[i], None);
      }
    }
  }

  /** The length that an event goes by: the caret may be behind the end of the text. */
  function LengthOf(newValue: string, selectionStart: Option<nat>): nat {
    if selectionStart.Some? && selectionStart.value > |newValue| then selectionStart.value else |newValue|
  }

  /** The text that an event compares with. */
  function Remembered(lastInput: string): string {
    if lastInput == "" then RESET_TEXT else lastInput
  }

  /** A text of this length is replaced by the underscores. */
  predicate Overflows(newLen: nat) {
    newLen < 1 || newLen > 2 * DEFAULT_LENGTH
  }

  function Settled(newValue: string): string {
    if Overflows(|newValue|) then RESET_TEXT else newValue
  }

  /** The keys of a whole run of events, each from the text that the one before left. */
  function RunKeys(first: string, values: seq<string>): seq<Key>
    decreases |values|
  {
    if values == [] then []
    else Script(first, values[0], |values[0]|) + RunKeys(Settled(values[0]), values[1..])
  }

  function LastText(first: string, values: seq<string>): string
    decreases |values|
  {
    if values == [] then first else LastText(Settled(values[0]), values[1..])
  }

  lemma RunStep(first: string, values: seq<string>, i: nat, sent: seq<Key>)
    requires i < |values|
    ensures LastText(first, values[i..]) == LastText(Settled(values[i]), values[i + 1..])
    ensures sent + RunKeys(first, values[i..])
         == sent + Script(first, values[i], |values[i]|) + RunKeys(Settled(values[i]), values[i + 1..])
  {
    assert values[i..][0] == values[i] && values[i..][1..] == values[i + 1..];
  }

  // ---------- Field and remembered text ----------

  /** What an event makes of field and remembered text. */
  function Left(lastInput: string, newValue: string, selectionStart: Option<nat>): (string, string) {
    if Overflows(LengthOf(newValue, selectionStart)) then (RESET_TEXT, RESET_TEXT)
    else (if lastInput == "" then RESET_TEXT else newValue, newValue)
  }

  /** After an event the field is the remembered text, unless nothing was remembered
      before it: then the field is reset and the new value remembered. */
  lemma LeavesTextsEqualExactly(lastInput: string, newValue: string, selectionStart: Option<nat>)
    ensures var (field, remembered) := Left(lastInput, newValue, selectionStart);
            field == remembered <==>
              lastInput != "" || Overflows(LengthOf(newValue, selectionStart)) || newValue == RESET_TEXT
  {
  }

  /** An event whose text, or caret, is within 1 and 200 characters leaves the text as it is if
      something was remembered; any other leaves 99 underscores. */
  lemma FieldIsResetExactly(lastInput: string, newValue: string, selectionStart: Option<nat>)
    requires newValue != RESET_TEXT && lastInput != ""
    ensures var field := Left(lastInput, newValue, selectionStart).0;
            var n := if selectionStart.Some? && selectionStart.value > |newValue| then selectionStart.value else |newValue|;
            && (field == newValue <==> 1 <= n <= 200)
            && (field != newValue ==> |field| == 99 && forall k :: 0 <= k < 99 ==> field[k] == '_')
  {
  }

  /** After an event nothing is remembered if and only if the text is empty and the caret
      is taken to be behind it. */
  lemma ForgetsExactly(lastInput: string, newValue: string, selectionStart: Option<nat>)
    ensures Left(lastInput, newValue, selectionStart).1 == "" <==>
              newValue == "" && !Overflows(LengthOf(newValue, selectionStart))
  {
    assert |RESET_TEXT| > 0;
  }

  /** Two events that part the texts: one with a caret behind an empty text, and the next
      one. The field shows the underscores, and the letter is remembered. */
  method PartingRun() returns (k: Keyboard)
    ensures fresh(k) && k.field == RESET_TEXT && k.lastInput == "a"
  {
    k := new Keyboard();
    k.field := "";
    k.Input(Some(1));
    k.field := "a";
    k.Input(None);
  }

  // ---------- What the remote side sees ----------

  function Press(text: string, key: Key): string {
    match key
    case Backspace => if text == "" then "" else text[..|text| - 1]
    case Typed(c) => text + [c]
    case NoKey => text
  }

  /** A text after the keys have been typed behind it. */
  function Type(text: string, keys: seq<Key>): string
    decreases |keys|
  {
    if keys == [] then text else Type(Press(text, keys[0]), keys[1..])
  }

  lemma {:induction false} TypeInTurn(text: string, a: seq<Key>, b: seq<Key>)
    ensures Type(text, a + b) == Type(Type(text, a), b)
    decreases |a|
  {
    if a == [] {
      assert a + b == b;
    } else {
      assert (a + b)[0] == a[0] && (a + b)[1..] == a[1..] + b;
      TypeInTurn(Press(text, a[0]), a[1..], b);
    }
  }

  /** A text without its last n characters, as far as it has them. */
  function Trimmed(text: string, n: nat): string {
    if n <= |text| then text[..|text| - n] else ""
  }

  lemma {:induction false} BackspacesTrim(text: string, n: nat)
    ensures Type(text, Backspaces(n)) == Trimmed(text, n)
    decreases n
  {
    if n == 0 {
      assert text[..|text|] == text;
    } else {
      var shorter := Press(text, Backspace);
      assert Backspaces(n)[1..] == Backspaces(n - 1);
      BackspacesTrim(shorter, n - 1);
      assert Trimmed(shorter, n - 1) == Trimmed(text, n);
    }
  }

  lemma {:induction false} TypingAppends(text: string, s: string, from: nat, until: nat)
    requires from <= until <= |s|
    ensures Type(text, Typing(s, from, until)) == text + s[from..until]
    decreases until
  {
    if from < until {
      TypingAppends(text, s, from, until - 1);
      TypeInTurn(text, Typing(s, from, until - 1), [KeyAt(s, until - 1)]);
      var typed := text + s[from..until - 1];
      assert Type(typed, [Typed(s[until - 1])]) == typed + [s[until - 1]] by { assert [Typed(s[until - 1])][1..] == []; }
      assert s[from..until - 1] + [s[until - 1]] == s[from..until];
    }
  }

  /** With the caret inside the text, the keys of an event delete from any text as much
      as the old value has behind the first difference, and type the rest of the new. */
  lemma ScriptOnAnyText(text: string, oldValue: string, newValue: string)
    ensures var d := Difference(newValue, oldValue, 0, Min(|oldValue|, |newValue|));
            Type(text, Script(oldValue, newValue, |newValue|)) == Trimmed(text, |oldValue| - d) + newValue[d..]
  {
    var d := Difference(newValue, oldValue, 0, Min(|oldValue|, |newValue|));
    var n, typing := |oldValue| - d, Typing(newValue, d, |newValue|);
    BackspacesTrim(text, n);
    TypeInTurn(text, Backspaces(n), typing);
    TypingAppends(Trimmed(text, n), newValue, d, |newValue|);
    assert newValue[d..|newValue|] == newValue[d..];
  }

  /** Whatever first part of the old value the remote side has never seen, as long as the
      new value keeps it, the keys turn the rest of the old value into that of the new. */
  lemma ScriptEdits(base: string, oldValue: string, newValue: string, k: nat)
    requires k <= |oldValue| && k <= |newValue| && oldValue[..k] == newValue[..k]
    ensures Type(base + oldValue[k..], Script(oldValue, newValue, |newValue|)) == base + newValue[k..]
  {
    var d := Difference(newValue, oldValue, 0, Min(|oldValue|, |newValue|));
    DifferenceIsFirst(newValue, oldValue, 0, Min(|oldValue|, |newValue|));
    KeptPrefix(oldValue, newValue, k, d);
    ScriptOnAnyText(base + oldValue[k..], oldValue, newValue);
    Rejoined(base, oldValue, newValue, k, d);
  }

  lemma KeptPrefix(a: string, b: string, k: nat, d: nat)
    requires k <= |a| && k <= |b| && a[..k] == b[..k] && d <= |a| && d <= |b|
    requires forall j :: 0 <= j < d ==> CharAt(b, j) == CharAt(a, j)
    requires d < |a| && d < |b| ==> CharAt(b, d) != CharAt(a, d)
    ensures a[..d] == b[..d] && k <= d
  {
    forall j | 0 <= j < d
      ensures a[j] == b[j]
    {
      assert CharAt(b, j) == CharAt(a, j);
    }
    assert forall j :: 0 <= j < k ==> a[..k][j] == a[j] && b[..k][j] == b[j];
  }

  lemma Rejoined(base: string, oldValue: string, newValue: string, k: nat, d: nat)
    requires k <= d <= |oldValue| && d <= |newValue| && oldValue[..d] == newValue[..d]
    ensures Trimmed(base + oldValue[k..], |oldValue| - d) + newValue[d..] == base + newValue[k..]
  {
    assert Trimmed(base + oldValue[k..], |oldValue| - d) == base + oldValue[k..d];
    assert oldValue[k..d] == oldValue[..d][k..] == newValue[..d][k..] == newValue[k..d];
    assert newValue[k..d] + newValue[d..] == newValue[k..];
    assert base + newValue[k..d] + newValue[d..] == base + (newValue[k..d] + newValue[d..]);
  }

  function DeletedBy(keys: seq<Key>): nat {
    if keys == [] then 0 else (if keys[0].Backspace? then 1 else 0) + DeletedBy(keys[1..])
  }

  lemma {:induction false} DeletedByParts(n: nat, typed: seq<Key>)
    requires forall k :: 0 <= k < |typed| ==> !typed[k].Backspace?
    ensures DeletedBy(Backspaces(n) + typed) == n
    decreases n, |typed|
  {
    var keys := Backspaces(n) + typed;
    if n > 0 {
      assert keys[1..] == Backspaces(n - 1) + typed;
      DeletedByParts(n - 1, typed);
    } else if typed != [] {
      assert keys == typed && Backspaces(0) + typed[1..] == typed[1..];
      DeletedByParts(0, typed[1..]);
    }
  }

  /** No edit that deletes from the end and then types needs fewer backspaces. */
  lemma FewestBackspaces(oldValue: string, newValue: string, deleted: nat, typed: string)
    requires deleted <= |oldValue| && oldValue[..|oldValue| - deleted] + typed == newValue
    ensures DeletedBy(Script(oldValue, newValue, |newValue|)) <= deleted
  {
    var end := Min(|oldValue|, |newValue|);
    var d := Difference(newValue, oldValue, 0, end);
    var typing := Typing(newValue, d, |newValue|);
    DifferenceIsFirst(newValue, oldValue, 0, end);
    TypingAt(newValue, d, |newValue|);
    DeletedByParts(|oldValue| - d, typing);
    var kept := |oldValue| - deleted;
    assert forall j :: 0 <= j < kept ==> newValue[j] == oldValue[..kept][j];
  }

  /** A caret behind the end of the text makes the handler send a key that is none, and
      only then. */
  lemma StrayKeyExactly(oldValue: string, newValue: string, newLen: nat)
    requires |newValue| <= newLen
    ensures NoKey in Script(oldValue, newValue, newLen) <==> |newValue| < newLen
  {
    var d := Difference(newValue, oldValue, 0, Min(|oldValue|, newLen));
    var typing := Typing(newValue, d, newLen);
    DifferenceIsFirst(newValue, oldValue, 0, Min(|oldValue|, newLen));
    TypingAt(newValue, d, newLen);
    if |newValue| < newLen {
      assert d <= |newValue| || CharAt(newValue, |newValue|) == CharAt(oldValue, |newValue|);
      assert typing[|newValue| - d] == KeyAt(newValue, |newValue|) == NoKey;
      assert NoKey in typing;
    }
  }

  /** What the remote side keeps of a value that is given up for new underscores. */
  function GivenUp(newValue: string): string {
    if Overflows(|newValue|) && |RESET_TEXT| <= |newValue| then newValue[|RESET_TEXT|..] else ""
  }

  /** What a run has typed for good. */
  function Committed(values: seq<string>): string
    decreases |values|
  {
    if values == [] then "" else GivenUp(values[0]) + Committed(values[1..])
  }

  ghost predicate AreBehindUnderscores(values: seq<string>) {
    forall i :: 0 <= i < |values| ==> RESET_TEXT <= values[i]
  }

  lemma GivenUpAndSettled(newValue: string)
    requires RESET_TEXT <= newValue
    ensures RESET_TEXT <= Settled(newValue)
    ensures newValue[|RESET_TEXT|..] == GivenUp(newValue) + Settled(newValue)[|RESET_TEXT|..]
  {
  }

  lemma EventMirrors(base: string, first: string, next: string)
    requires RESET_TEXT <= first && RESET_TEXT <= next
    ensures RESET_TEXT <= Settled(next)
    ensures Type(base + first[|RESET_TEXT|..], Script(first, next, |next|))
         == base + GivenUp(next) + Settled(next)[|RESET_TEXT|..]
  {
    var k := |RESET_TEXT|;
    assert first[..k] == RESET_TEXT == next[..k];
    ScriptEdits(base, first, next, k);
    GivenUpAndSettled(next);
    assert base + (GivenUp(next) + Settled(next)[k..]) == base + GivenUp(next) + Settled(next)[k..];
  }

  /** Over every run of events that leave the underscores alone, resets included, the
      remote side sees exactly what was typed behind them. */
  lemma {:induction false} RunMirrors(base: string, first: string, values: seq<string>)
    requires RESET_TEXT <= first && AreBehindUnderscores(values)
    ensures RESET_TEXT <= LastText(first, values)
    ensures Type(base + first[|RESET_TEXT|..], RunKeys(first, values))
         == base + Committed(values) + LastText(first, values)[|RESET_TEXT|..]
    decreases |values|
  {
    if values == [] {
      assert base + "" == base;
    } else {
      var next, rest := values[0], values[1..];
      EventMirrors(base, first, next);
      TypeRun(base + first[|RESET_TEXT|..], first, values);
      RunMirrors(base + GivenUp(next), Settled(next), rest);
      CommittedStep(base, values);
    }
  }

  lemma TypeRun(text: string, first: string, values: seq<string>)
    requires values != []
    ensures Type(text, RunKeys(first, values))
         == Type(Type(text, Script(first, values[0], |values[0]|)), RunKeys(Settled(values[0]), values[1..]))
  {
    TypeInTurn(text, Script(first, values[0], |values[0]|), RunKeys(Settled(values[0]), values[1..]));
  }

  lemma CommittedStep(base: string, values: seq<string>)
    requires values != []
    ensures base + GivenUp(values[0]) + Committed(values[1..]) == base + Committed(values)
  {
  }

  // ---------- Deleting into the underscores ----------

  /** The first m characters of a text are kept by every value. */
  ghost predicate IsKept(first: string, values: seq<string>, m: nat) {
    m <= |first| && forall i :: 0 <= i < |values| ==> first[..m] <= values[i]
  }

  /** How much of the first k characters of a text every value keeps. */
  ghost function LongestKept(first: string, values: seq<string>, k: nat): nat {
    if k == 0 || IsKept(first, values, k) then k else LongestKept(first, values, k - 1)
  }

  ghost predicate IsLongestKept(first: string, values: seq<string>, k: nat, m: nat) {
    && m <= k && IsKept(first, values, m)
    && forall j :: m < j <= k ==> !IsKept(first, values, j)
  }

  lemma {:induction false} LongestKeptIs(first: string, values: seq<string>, k: nat)
    ensures IsLongestKept(first, values, k, LongestKept(first, values, k))
  {
    if k > 0 {
      LongestKeptIs(first, values, k - 1);
    }
  }

  /** Up to the first difference two texts share their characters. */
  function Shared(first: string, next: string): nat {
    Difference(next, first, 0, Min(|first|, |next|))
  }

  lemma SharedIsWithin(first: string, next: string)
    ensures Shared(first, next) <= |first| && Shared(first, next) <= |next|
  {
  }

  /** A value keeps what it shares up to the first difference. */
  lemma KeptByOne(first: string, next: string, m: nat)
    requires m <= |first|
    ensures first[..m] <= next <==> m <= Shared(first, next)
  {
    var d := Shared(first, next);
    DifferenceIsFirst(next, first, 0, Min(|first|, |next|));
    SharedIsWithin(first, next);
    SharedIsPrefix(first, next, d);
    if first[..m] <= next {
      assert first[..m] == next[..m];
      KeptPrefix(first, next, m, d);
    }
    if m <= d {
      assert first[..m] == first[..d][..m] == next[..d][..m] == next[..m];
    }
  }

  lemma SharedIsPrefix(a: string, b: string, d: nat)
    requires d <= |a| && d <= |b| && forall j :: 0 <= j < d ==> CharAt(b, j) == CharAt(a, j)
    ensures a[..d] == b[..d]
  {
    forall j | 0 <= j < d
      ensures a[j] == b[j]
    {
      assert CharAt(b, j) == CharAt(a, j);
    }
  }

  lemma KeptInTurn(first: string, values: seq<string>, m: nat)
    requires values != [] && m <= |first|
    ensures var d := Shared(first, values[0]);
            IsKept(first, values, m) <==> m <= d && IsKept(values[0], values[1..], m)
  {
    var next, rest := values[0], values[1..];
    KeptByOne(first, next, m);
    if first[..m] <= next {
      assert first[..m] == next[..m];
      assert IsKept(next, rest, m) ==> forall i :: 0 < i < |values| ==> rest[i - 1] == values[i];
    }
  }

  lemma LongestKeptInTurn(first: string, values: seq<string>, k: nat, m: nat)
    requires values != [] && k <= |first| && IsLongestKept(first, values, k, m)
    ensures var d := Shared(first, values[0]);
            IsLongestKept(values[0], values[1..], Min(k, d), m)
  {
    KeptInTurn(first, values, m);
    var d := Shared(first, values[0]);
    forall j | m < j <= Min(k, d)
      ensures !IsKept(values[0], values[1..], j)
    {
      KeptInTurn(first, values, j);
    }
  }

  function Last(first: string, values: seq<string>): string {
    if values == [] then first else values[|values| - 1]
  }

  /** No value but the last is replaced by the underscores. */
  ghost predicate AreKeptInField(values: seq<string>) {
    forall i :: 0 <= i < |values| - 1 ==> !Overflows(|values[i]|)
  }

  /** If the remote side has not seen the first k characters of the field, an event lets it
      see those behind what is shared, and deletes as many of what it holds. */
  lemma EventReaches(base: string, first: string, next: string, k: nat, seen: nat)
    requires k <= |first| && seen == Min(k, Shared(first, next))
    ensures seen <= |next|
    ensures Type(base + first[k..], Script(first, next, |next|)) == Trimmed(base, k - seen) + next[seen..]
  {
    SharedIsWithin(first, next);
    if k <= Shared(first, next) {
      KeptByOne(first, next, k);
      assert first[..k] == next[..k];
      ScriptEdits(base, first, next, k);
      assert Trimmed(base, 0) == base;
    } else {
      DeepEventReaches(base, first, next, k);
    }
  }

  lemma DeepEventReaches(base: string, first: string, next: string, k: nat)
    requires Shared(first, next) < k <= |first| && Shared(first, next) <= |next|
    ensures var d := Shared(first, next);
            Type(base + first[k..], Script(first, next, |next|)) == Trimmed(base, k - d) + next[d..]
  {
    ScriptOnAnyText(base + first[k..], first, next);
    TrimmedBeyond(base, first[k..], |first| - Shared(first, next));
  }

  lemma TrimmedBeyond(base: string, rest: string, n: nat)
    requires |rest| <= n
    ensures Trimmed(base + rest, n) == Trimmed(base, n - |rest|)
  {
  }

  lemma TrimmedTwice(base: string, a: nat, b: nat)
    ensures Trimmed(Trimmed(base, a), b) == Trimmed(base, a + b)
  {
  }

  /** Over every run up to the next reset, whatever is deleted and typed: what the remote
      side holds in front loses as many characters as the values have given up of those
      that it never saw, and the rest of the last value follows. */
  lemma RunReaches(base: string, first: string, values: seq<string>, k: nat)
    requires k <= |first| && AreKeptInField(values)
    ensures var m := LongestKept(first, values, k);
            m <= k && m <= |Last(first, values)|
            && Type(base + first[k..], RunKeys(first, values)) == Trimmed(base, k - m) + Last(first, values)[m..]
  {
    LongestKeptIs(first, values, k);
    RunReachesTo(base, first, values, k, LongestKept(first, values, k));
  }

  lemma RestOfRun(first: string, values: seq<string>)
    requires values != [] && AreKeptInField(values)
    ensures AreKeptInField(values[1..]) && Last(values[0], values[1..]) == Last(first, values)
    ensures RunKeys(Settled(values[0]), values[1..]) == RunKeys(values[0], values[1..])
  {
    assert forall i :: 0 < i < |values| ==> values[1..][i - 1] == values[i];
  }

  lemma {:induction false} RunReachesTo(base: string, first: string, values: seq<string>, k: nat, m: nat)
    requires k <= |first| && AreKeptInField(values) && IsLongestKept(first, values, k, m)
    ensures m <= |Last(first, values)|
    ensures Type(base + first[k..], RunKeys(first, values)) == Trimmed(base, k - m) + Last(first, values)[m..]
    decreases |values|
  {
    if values == [] {
      assert m == k by { assert IsKept(first, values, k); }
      assert Trimmed(base, 0) == base;
    } else {
      var next, rest := values[0], values[1..];
      var seen := Min(k, Shared(first, next));
      EventReaches(base, first, next, k, seen);
      TypeRun(base + first[k..], first, values);
      LongestKeptInTurn(first, values, k, m);
      RestOfRun(first, values);
      RunReachesTo(Trimmed(base, k - seen), next, rest, seen, m);
      TrimmedTwice(base, k - seen, seen - m);
    }
  }

  /** From the start of the page on: whatever is typed behind the underscores appears on
      the remote side behind what was there, and every underscore that is deleted on the
      way takes one character of that. */
  method TypingRun(values: seq<string>, ghost remote: string) returns (k: Keyboard)
    ensures fresh(k) && k.Valid() && k.field == LastText(RESET_TEXT, values)
    ensures AreBehindUnderscores(values) ==>
              RESET_TEXT <= k.field && Type(remote, k.sent) == remote + Committed(values) + k.field[|RESET_TEXT|..]
    ensures AreKeptInField(values) ==>
              var m := LongestKept(RESET_TEXT, values, |RESET_TEXT|);
              && m <= |RESET_TEXT| && m <= |Last(RESET_TEXT, values)|
              && Type(remote, k.sent) == Trimmed(remote, |RESET_TEXT| - m) + Last(RESET_TEXT, values)[m..]
  {
    k := new Keyboard();
    ghost var keys := RunKeys(k.field, values);
    assert [] + keys == keys;
    assert remote + k.field[|RESET_TEXT|..] == remote;
    if AreBehindUnderscores(values) {
      RunMirrors(remote, k.field, values);
    }
    if AreKeptInField(values) {
      RunReaches(remote, k.field, values, |RESET_TEXT|);
    }
    k.Edits(values);
  }
}
