/** The description column of the help text: `format_description` of cxxopts.
    The loop moves iterators forwards and backwards over the text; it is proved
    against `Lines`, a greedy line breaker that only ever looks ahead. */
module HelpWrapping {

  datatype HelpOption = HelpOption(
    description: string,
    hasDefault: bool,
    defaultValue: string,
    isBoolean: bool)

  function Spaces(n: nat): (s: string) {
    seq(n, _ => ' ')
  }

  predicate IsBlank(c: char) {
    c == ' ' || c == '\t'
  }

  predicate AllBlank(s: string) {
    forall k :: 0 <= k < |s| ==> IsBlank(s[k])
  }

  /** The description followed by the note that shows the default value. */
  function WithDefaultNote(o: HelpOption): string {
    if o.hasDefault && (!o.isBoolean || o.defaultValue != "false") then
      if o.defaultValue != "" then o.description + " (default: " + o.defaultValue + ")"
      else o.description + " (default: \"\")"
    else o.description
  }

  predicate IsNoted(o: HelpOption) {
    o.hasDefault && !(o.isBoolean && o.defaultValue == "false")
  }

  /** The note follows the description, exactly for options with a default other than that
      of a switch that is off. */
  lemma NoteIsAddedExactly(o: HelpOption)
    ensures o.description <= WithDefaultNote(o)
    ensures WithDefaultNote(o) != o.description <==> IsNoted(o)
    ensures IsNoted(o) && o.defaultValue != "" ==> WithDefaultNote(o) == o.description + (" (default: " + o.defaultValue + ")")
  {
  }

  /** The notes of two options are alike exactly if their defaults are; only an empty
      default and one of two quotes look the same. */
  lemma NoteTellsDefaultExactly(a: HelpOption, b: HelpOption)
    requires a.description == b.description && IsNoted(a) && IsNoted(b)
    ensures WithDefaultNote(a) == WithDefaultNote(b) <==> ShownDefault(a) == ShownDefault(b)
  {
    NoteIs(a);
    NoteIs(b);
    SameMiddle(a.description + " (default: ", ShownDefault(a), ShownDefault(b), ")");
  }

  function ShownDefault(o: HelpOption): string {
    if o.defaultValue == "" then "\"\"" else o.defaultValue
  }

  lemma NoteIs(o: HelpOption)
    requires IsNoted(o)
    ensures WithDefaultNote(o) == o.description + " (default: " + ShownDefault(o) + ")"
  {
    if o.defaultValue == "" {
      assert " (default: " + "\"\"" + ")" == " (default: \"\")";
      assert o.description + (" (default: " + "\"\"" + ")") == o.description + " (default: " + "\"\"" + ")";
    }
  }

  lemma SameMiddle(front: string, a: string, b: string, back: string)
    ensures front + a + back == front + b + back <==> a == b
  {
    var x, y := front + a + back, front + b + back;
    if x == y {
      assert |a| == |b|;
      assert a == x[|front|..|front| + |a|] && b == y[|front|..|front| + |b|];
    }
  }

  // ---------- Tab expansion ----------

  /** The number of characters of `s` after its last newline, starting at column `col`. */
  function Column(s: string, col: nat): nat {
    if s == "" then col
    else if s[0] == '\n' then Column(s[1..], 0)
    else Column(s[1..], col + 1)
  }

  function NextColumn(c: char, col: nat): nat {
    if c == '\n' then 0 else if c == '\t' then col + (8 - col % 8) else col + 1
  }

  /** What a character is replaced by at column `col`. */
  function Printed(c: char, col: nat): string {
    if c == '\t' then Spaces(8 - col % 8) else [c]
  }

  /** `s`, printed from column `col`, with each tab replaced by blanks. */
  function Expanded(s: string, col: nat): string {
    if s == "" then "" else Printed(s[0], col) + Expanded(s[1..], NextColumn(s[0], col))
  }

  lemma {:induction false} ColumnOfSpaces(n: nat, rest: string, col: nat)
    ensures Column(Spaces(n) + rest, col) == Column(rest, col + n)
    decreases n
  {
    if n == 0 {
      assert Spaces(0) + rest == rest;
    } else {
      assert (Spaces(n) + rest)[1..] == Spaces(n - 1) + rest;
      ColumnOfSpaces(n - 1, rest, col + 1);
    }
  }

  lemma ColumnOfPrinted(c: char, rest: string, col: nat)
    ensures Column(Printed(c, col) + rest, col) == Column(rest, NextColumn(c, col))
  {
    if c == '\t' {
      ColumnOfSpaces(8 - col % 8, rest, col);
    } else {
      assert ([c] + rest)[1..] == rest;
    }
  }

  /** Tab stops: whatever precedes a tab, the text that follows it is printed at
      the next multiple of eight columns, between one and eight columns further. */
  lemma {:induction false} TabStops(s: string, col: nat)
    ensures '\t' !in Expanded(s, col)
    ensures var before := Column(Expanded(s, col), col);
            var after := Column(Expanded(s + "\t", col), col);
            after % 8 == 0 && before < after <= before + 8
    decreases |s|
  {
    if s == "" {
      assert "\t"[1..] == "";
      ColumnOfPrinted('\t', "", col);
    } else {
      var rest, next := s[1..], NextColumn(s[0], col);
      assert (s + "\t")[1..] == rest + "\t";
      TabStops(rest, next);
      ColumnOfPrinted(s[0], Expanded(rest, next), col);
      ColumnOfPrinted(s[0], Expanded(rest + "\t", next), col);
    }
  }

  method ExpandTabs(desc: string) returns (desc2: string)
    ensures desc2 == Expanded(desc, 0)
  {
    desc2 := "";
    var size := 0;
    for c := 0 to |desc|
      invariant size >= 0
      invariant Expanded(desc, 0) == desc2 + Expanded(desc[c..], size)
    {
      ExpandedFrom(desc2, desc, c, size);
      desc2, size := ExpandChar(desc2, size, desc[c]);
    }
    assert desc[|desc|..] == "";
  }

  /** The loop body: one character, and the column behind it. */
  method ExpandChar(before: string, col: nat, c: char) returns (desc2: string, size: nat)
    ensures desc2 == before + Printed(c, col) && size == NextColumn(c, col)
  {
    desc2, size := before, col;
    if c == '\n' {
      desc2 := desc2 + [c];
      size := 0;
    } else if c == '\t' {
      var skip := 8 - size % 8;
      desc2 := desc2 + Spaces(skip);
      size := size + skip;
    } else {
      desc2 := desc2 + [c];
      size := size + 1;
    }
  }

  lemma ExpandedFrom(before: string, desc: string, c: nat, col: nat)
    requires c < |desc|
    ensures before + Expanded(desc[c..], col) == before + Printed(desc[c], col) + Expanded(desc[c + 1..], NextColumn(desc[c], col))
  {
    assert desc[c..][0] == desc[c] && desc[c..][1..] == desc[c + 1..];
  }

  // ---------- Where lines break ----------

  /** The first newline at or behind `from`, or the end of the text. */
  function NextNewline(t: string, from: nat): (k: nat)
    requires from <= |t|
    ensures from <= k <= |t|
    ensures forall j :: from <= j < k ==> t[j] != '\n'
    ensures k < |t| ==> t[k] == '\n'
    decreases |t| - from
  {
    if from == |t| || t[from] == '\n' then from else NextNewline(t, from + 1)
  }

  /** The first position at or behind `from` that holds no newline. */
  function BehindNewlines(t: string, from: nat): (k: nat)
    requires from <= |t|
    ensures from <= k <= |t|
    ensures forall j :: from <= j < k ==> t[j] == '\n'
    ensures k < |t| ==> t[k] != '\n'
    decreases |t| - from
  {
    if from == |t| || t[from] != '\n' then from else BehindNewlines(t, from + 1)
  }

  /** The position behind the last blank of t[from..until], or `from` without one. */
  function BehindBlank(t: string, from: nat, until: nat): (k: nat)
    requires from <= until <= |t|
    ensures from <= k <= until
    ensures k > from ==> IsBlank(t[k - 1])
    ensures forall j :: k <= j < until ==> !IsBlank(t[j])
    decreases until
  {
    if from == until then from
    else if IsBlank(t[until - 1]) then until
    else BehindBlank(t, from, until - 1)
  }

  /** What follows `start` does not fit on one line. */
  predicate Breaks(t: string, start: nat, width: nat)
    requires start <= |t|
  {
    NextNewline(t, start) < |t| || |t| - start > width
  }

  /** Where the line that begins at `start` ends: behind the newlines when there is
      one within reach, else behind the last blank that fits, else at the width. */
  function LineEnd(t: string, start: nat, width: nat): (end: nat)
    requires start <= |t| && Breaks(t, start, width)
    ensures start <= end <= |t|
    ensures width > 0 ==> start < end
  {
    var k := NextNewline(t, start);
    if k - start <= width then BehindNewlines(t, k)
    else
      var b := BehindBlank(t, start, start + width);
      if b > start then b else start + width
  }

  /** A width of zero still prints one character a line, except on the first. */
  function Width(allowed: nat, broken: bool): nat {
    if broken && allowed == 0 then 1 else allowed
  }

  /** The text from `start` on, cut into lines that each hold as much as they can. */
  function Lines(t: string, start: nat, allowed: nat, broken: bool): (ls: seq<string>)
    requires start <= |t|
    ensures |ls| >= 1
    decreases |t| - start, if broken then 0 else 1
  {
    if !Breaks(t, start, Width(allowed, broken)) then [t[start..]]
    else
      var end := LineEnd(t, start, Width(allowed, broken));
      [t[start..end]] + Lines(t, end, allowed, true)
  }

  function Joined(ls: seq<string>): string {
    if ls == [] then "" else ls[0] + Joined(ls[1..])
  }

  /** The lines are the text: nothing is lost, doubled or moved. */
  lemma {:induction false} LinesJoinToText(t: string, start: nat, allowed: nat, broken: bool)
    requires start <= |t|
    ensures Joined(Lines(t, start, allowed, broken)) == t[start..]
    decreases |t| - start, if broken then 0 else 1
  {
    var ls := Lines(t, start, allowed, broken);
    if Breaks(t, start, Width(allowed, broken)) {
      var end := LineEnd(t, start, Width(allowed, broken));
      LinesJoinToText(t, end, allowed, true);
      assert ls[1..] == Lines(t, end, allowed, true);
      assert t[start..end] + t[end..] == t[start..];
    } else {
      assert ls[1..] == [];
    }
  }

  /** Visible text of at most `width` characters, then any number of newlines. */
  predicate IsLine(s: string, width: nat) {
    var k := NextNewline(s, 0);
    k <= width && BehindNewlines(s, k) == |s|
  }

  /** No line holds more than the allowed number of characters, whatever the text
      and the width. */
  lemma {:induction false} LinesFit(t: string, start: nat, allowed: nat, broken: bool, i: nat)
    requires start <= |t| && i < |Lines(t, start, allowed, broken)|
    ensures IsLine(Lines(t, start, allowed, broken)[i], if allowed == 0 then 1 else allowed)
    decreases |t| - start, if broken then 0 else 1
  {
    var width := Width(allowed, broken);
    var end := if Breaks(t, start, width) then LineEnd(t, start, width) else |t|;
    if i > 0 {
      LinesFit(t, end, allowed, true, i - 1);
    } else {
      var s := t[start..end];
      assert forall j :: 0 <= j < |s| ==> s[j] == t[start + j];
      assert t[start..] == t[start..|t|];
      var k := NextNewline(t, start);
      if k < end { assert s[k - start] == '\n'; }
    }
  }

  /** A line that is cut for want of room ends behind the last blank that fits;
      it is cut inside a word only if that word fills the line. */
  lemma CutIsGreedy(t: string, start: nat, width: nat, blank: nat)
    requires start <= |t| && Breaks(t, start, width) && NextNewline(t, start) - start > width
    requires start <= blank < start + width && IsBlank(t[blank])
    ensures var end := LineEnd(t, start, width);
            blank < end <= start + width && IsBlank(t[end - 1])
  {
    assert BehindBlank(t, start, start + width) > blank;
  }

  // ---------- The printed form ----------

  /** What is printed of the last line. The blank that was added behind the text is
      dropped, and a line that counts as blank is dropped whole. The first
      character of a line that follows a break takes no part in that test. */
  function LastLine(s: string, broken: bool): string {
    if AllBlank(if broken && s != "" then s[1..] else s) then "" else s[..|s| - 1]
  }

  function Rendered(ls: seq<string>, indent: nat, broken: bool): string
    requires |ls| > 0
  {
    if |ls| == 1 then LastLine(ls[0], broken)
    else ls[0] + LineFeed(ls[0]) + Spaces(indent) + Rendered(ls[1..], indent, true)
  }

  function LineFeed(line: string): string {
    if line != "" && line[|line| - 1] == '\n' then "" else "\n"
  }

  /** What the loop still has to print when a line begins at `start`. */
  function Remaining(t: string, start: nat, indent: nat, allowed: nat, broken: bool): string
    requires start < |t|
    decreases |t| - start, if broken then 0 else 1
  {
    if !Breaks(t, start, Width(allowed, broken)) then LastLine(t[start..], broken)
    else
      var end := LineEnd(t, start, Width(allowed, broken));
      t[start..end] + LineFeed(t[start..end]) + Spaces(indent)
      + if end < |t| then Remaining(t, end, indent, allowed, true) else ""
  }

  lemma {:induction false} RemainingRendersLines(t: string, start: nat, indent: nat, allowed: nat, broken: bool)
    requires start < |t|
    ensures Remaining(t, start, indent, allowed, broken)
         == Rendered(Lines(t, start, allowed, broken), indent, broken)
    decreases |t| - start, if broken then 0 else 1
  {
    if Breaks(t, start, Width(allowed, broken)) {
      var end := LineEnd(t, start, Width(allowed, broken));
      assert Lines(t, start, allowed, broken)[1..] == Lines(t, end, allowed, true);
      if end < |t| {
        RemainingRendersLines(t, end, indent, allowed, true);
      } else {
        assert t[end..] == "";
      }
    }
  }

  /** The description column, as a specification. */
  function Formatted(text: string, indent: nat, allowed: nat): string {
    Rendered(Lines(text + " ", 0, allowed, false), indent, false)
  }

  /** Where the loop has stopped, looking ahead would have put the end of the line. */
  lemma LineEndIsFound(t: string, start: nat, at: nat, width: nat)
    requires start <= at < |t| && at - start <= width
    requires forall k :: start <= k < at ==> t[k] != '\n'
    requires t[at] != '\n' ==> at - start == width
    ensures Breaks(t, start, width)
    ensures t[at] == '\n' ==> LineEnd(t, start, width) == BehindNewlines(t, at)
    ensures t[at] != '\n' ==> var b := BehindBlank(t, start, at);
                              LineEnd(t, start, width) == if b > start then b else at
  {
    var k := NextNewline(t, start);
  }

  /** The body of `if (appendNewLine)`: prints one line and indents the next. */
  method AppendLine(printed: string, desc: string, startLine: nat, current: nat, previous: nat, indent: nat)
    returns (result: string)
    requires startLine <= current <= |desc| && previous < |desc|
    requires if desc[previous] == '\n' then startLine <= previous == current - 1
             else startLine == current || desc[current - 1] != '\n'
    ensures var piece := desc[startLine..current];
            result == printed + (piece + LineFeed(piece) + Spaces(indent))
  {
    ghost var piece := desc[startLine..current];
    assert piece != "" ==> piece[|piece| - 1] == desc[current - 1];
    result := printed + desc[startLine..current];
    var lastSpace := current;
    if desc[previous] != '\n' {
      result := result + "\n";
    }
    result := result + Spaces(indent);
    if desc[previous] != '\n' {
      result := result + desc[lastSpace..current];
    }
  }

  /** What the loop knows when it looks at `current`, on the line begun at `startLine`. */
  ghost predicate Scanning(desc: string, allowed: nat, startLine: nat, current: nat, previous: nat,
                           lastSpace: nat, onlyWhiteSpace: bool, broken: bool)
  {
    && startLine <= lastSpace <= current <= |desc| && startLine < |desc|
    && current - startLine <= Width(allowed, broken)
    && (if current == startLine then !broken && current == 0 && previous == 0 else previous == current - 1)
    && (forall k :: startLine <= k < current ==> desc[k] != '\n')
    && lastSpace == (if current == startLine then startLine else BehindBlank(desc, startLine, previous))
    && (onlyWhiteSpace <==> forall k :: startLine + (if broken then 1 else 0) <= k < current ==> IsBlank(desc[k]))
  }

  /** The first half of the loop body: decides whether the line ends here, and where. */
  method LookAt(desc: string, allowed: nat, startLine: nat, at: nat, previousChar: nat, lastSpace0: nat,
                size: nat, onlyWhiteSpace0: bool, ghost broken: bool)
    returns (current: nat, previous: nat, lastSpace: nat, onlyWhiteSpace: bool, appendNewLine: bool)
    requires |desc| > 0 && desc[|desc| - 1] != '\n' && at < |desc| && size == at - startLine
    requires Scanning(desc, allowed, startLine, at, previousChar, lastSpace0, onlyWhiteSpace0, broken)
    ensures startLine <= current < |desc| && desc[current] != '\n'
    ensures appendNewLine ==> Breaks(desc, startLine, Width(allowed, broken))
                              && LineEnd(desc, startLine, Width(allowed, broken)) == current
    ensures appendNewLine ==> previous < |desc|
    ensures appendNewLine ==> if desc[previous] == '\n' then startLine <= previous == current - 1
                              else startLine == current || desc[current - 1] != '\n'
    ensures !appendNewLine ==> current == at && Scanning(desc, allowed, startLine, at + 1, at, lastSpace, onlyWhiteSpace, broken)
  {
    current, previous, lastSpace, onlyWhiteSpace := at, previousChar, lastSpace0, onlyWhiteSpace0;
    appendNewLine := false;
    if desc[previous] == ' ' || desc[previous] == '\t' {
      lastSpace := current;
    }
    assert lastSpace == BehindBlank(desc, startLine, at);
    if desc[current] != ' ' && desc[current] != '\t' {
      onlyWhiteSpace := false;
    }
    while desc[current] == '\n'
      invariant at <= current < |desc|
      invariant BehindNewlines(desc, at) == BehindNewlines(desc, current)
      invariant appendNewLine <==> current > at
      invariant if current == at then previous == previousChar else previous == current - 1 && desc[previous] == '\n'
      decreases |desc| - current
    {
      previous := current;
      current := current + 1;
      appendNewLine := true;
    }
    if appendNewLine || size >= allowed {
      LineEndIsFound(desc, startLine, at, Width(allowed, broken));
    }
    if !appendNewLine && size >= allowed {
      if lastSpace != startLine {
        current := lastSpace;
        previous := current;
      }
      appendNewLine := true;
    }
  }

  lemma LineIsPrinted(printed: string, desc: string, startLine: nat, current: nat, indent: nat, allowed: nat, broken: bool)
    requires startLine <= current < |desc| && Breaks(desc, startLine, Width(allowed, broken))
    requires LineEnd(desc, startLine, Width(allowed, broken)) == current
    ensures printed + Remaining(desc, startLine, indent, allowed, broken)
         == printed + (desc[startLine..current] + LineFeed(desc[startLine..current]) + Spaces(indent))
            + Remaining(desc, current, indent, allowed, true)
  {
    var line := desc[startLine..current] + LineFeed(desc[startLine..current]) + Spaces(indent);
    var rest := Remaining(desc, current, indent, allowed, true);
    assert printed + line + rest == printed + (line + rest);
  }

  lemma RestIsPrinted(desc: string, startLine: nat, indent: nat, allowed: nat,
                      previous: nat, lastSpace: nat, onlyWhiteSpace: bool, broken: bool)
    requires Scanning(desc, allowed, startLine, |desc|, previous, lastSpace, onlyWhiteSpace, broken)
    ensures Remaining(desc, startLine, indent, allowed, broken)
         == if onlyWhiteSpace then "" else desc[startLine..previous]
  {
    var rest := desc[startLine..];
    assert rest[..|rest| - 1] == desc[startLine..previous];
    var from := startLine + if broken then 1 else 0;
    assert (if broken then rest[1..] else rest) == desc[from..];
    BlankFrom(desc, from);
    assert !Breaks(desc, startLine, Width(allowed, broken));
  }

  lemma BlankFrom(s: string, from: nat)
    requires from <= |s|
    ensures AllBlank(s[from..]) <==> forall k :: from <= k < |s| ==> IsBlank(s[k])
  {
    if AllBlank(s[from..]) {
      forall k | from <= k < |s|
        ensures IsBlank(s[k])
      {
        assert s[k] == s[from..][k - from];
      }
    }
  }

  /** The wrapping loop. `current` runs ahead, and goes back to `lastSpace` when
      the line is full; the loop still ends, because then `startLine` has moved. */
  method Wrap(desc: string, indent: nat, allowed: nat) returns (result: string)
    requires |desc| > 0 && desc[|desc| - 1] != '\n'
    ensures result == Rendered(Lines(desc, 0, allowed, false), indent, false)
  {
    RemainingRendersLines(desc, 0, indent, allowed, false);
    ghost var goal := Remaining(desc, 0, indent, allowed, false);
    result := "";
    var current, previous, startLine, lastSpace, size := 0, 0, 0, 0, 0;
    var onlyWhiteSpace := true;
    ghost var broken := false;
    while current != |desc|
      invariant Scanning(desc, allowed, startLine, current, previous, lastSpace, onlyWhiteSpace, broken)
      invariant size == current - startLine
      invariant goal == result + Remaining(desc, startLine, indent, allowed, broken)
      decreases |desc| - startLine, |desc| - current
    {
      var appendNewLine;
      current, previous, lastSpace, onlyWhiteSpace, appendNewLine :=
        LookAt(desc, allowed, startLine, current, previous, lastSpace, size, onlyWhiteSpace, broken);
      if appendNewLine {
        LineIsPrinted(result, desc, startLine, current, indent, allowed, broken);
        result := AppendLine(result, desc, startLine, current, previous, indent);
        startLine := current;
        lastSpace := current;
        onlyWhiteSpace := true;
        size := 0;
        broken := true;
      }
      previous := current;
      current := current + 1;
      size := size + 1;
    }
    RestIsPrinted(desc, startLine, indent, allowed, previous, lastSpace, onlyWhiteSpace, broken);
    if !onlyWhiteSpace {
      result := result + desc[startLine..previous];
    }
  }

  /** `format_description`: the default note, the tabs, then the wrapping. */
  method FormatDescription(o: HelpOption, start: nat, allowed: nat, tabExpansion: bool) returns (result: string)
    ensures result == Formatted(Description(o, tabExpansion), start, allowed)
  {
    var desc := WithDefaultNote(o);
    if tabExpansion {
      desc := ExpandTabs(desc);
    }
    result := Wrap(desc + " ", start, allowed);
  }

  function Description(o: HelpOption, tabExpansion: bool): string {
    if tabExpansion then Expanded(WithDefaultNote(o), 0) else WithDefaultNote(o)
  }

  // ---------- What the reader of the help text sees ----------

  /** The description characters that are printed, without breaks and indentation. */
  function Shown(ls: seq<string>): string
    requires |ls| > 0
  {
    Joined(ls[..|ls| - 1]) + LastLine(ls[|ls| - 1], |ls| > 1)
  }

  lemma {:induction false} JoinedSplit(ls: seq<string>)
    requires |ls| > 0
    ensures Joined(ls) == Joined(ls[..|ls| - 1]) + ls[|ls| - 1]
  {
    if |ls| > 1 {
      JoinedSplit(ls[1..]);
      assert ls[..|ls| - 1][1..] == ls[1..][..|ls| - 2];
    } else {
      assert ls[1..] == [] && ls[..0] == [];
    }
  }

  lemma LastStays(first: string, rest: seq<string>)
    requires |rest| > 0
    ensures var ls := [first] + rest; ls[|ls| - 1] == rest[|rest| - 1]
  {
  }

  /** Where the last line starts: no newline follows, and there is text behind it. */
  lemma {:induction false} LastLineStart(t: string, start: nat, allowed: nat, broken: bool) returns (k: nat)
    requires start < |t| && t[|t| - 1] != '\n'
    ensures start <= k < |t| && forall j :: k <= j < |t| ==> t[j] != '\n'
    ensures var ls := Lines(t, start, allowed, broken); ls[|ls| - 1] == t[k..]
    decreases |t| - start, if broken then 0 else 1
  {
    k := start;
    if Breaks(t, start, Width(allowed, broken)) {
      var end := LineEnd(t, start, Width(allowed, broken));
      k := LastLineStart(t, end, allowed, true);
      var rest := Lines(t, end, allowed, true);
      LastStays(t[start..end], rest);
    } else {
      NothingBreaks(t, start, Width(allowed, broken));
    }
  }

  lemma NothingBreaks(t: string, start: nat, width: nat)
    requires start <= |t| && !Breaks(t, start, width)
    ensures forall j :: start <= j < |t| ==> t[j] != '\n'
  {
    assert NextNewline(t, start) == |t|;
  }

  /** Exactly when the whole description is printed. It is not when the last line
      counts as blank: after a break that is also the case for a single visible
      character, which the printed help then lacks. */
  lemma ShownExactly(text: string, allowed: nat)
    ensures var ls := Lines(text + " ", 0, allowed, false);
            var last := ls[|ls| - 1];
            && last != ""
            && (Shown(ls) == text <==>
                 |last| == 1 || !AllBlank(if |ls| > 1 then last[1..] else last))
            && (Shown(ls) != text ==> Shown(ls) + last == text + " ")
  {
    var t := text + " ";
    var ls := Lines(t, 0, allowed, false);
    var last := ls[|ls| - 1];
    var k := LastLineStart(t, 0, allowed, false);
    LinesJoinToText(t, 0, allowed, false);
    JoinedSplit(ls);
    var front := Joined(ls[..|ls| - 1]);
    assert t[0..] == t;
    BlankBehind(text, front, last);
  }

  lemma BlankBehind(text: string, front: string, last: string)
    requires text + " " == front + last && last != ""
    ensures last[|last| - 1] == ' ' && text == front + last[..|last| - 1]
  {
    assert (text + " ")[|text|] == (front + last)[|text|] == last[|last| - 1];
    assert text == (text + " ")[..|text|] == (front + last)[..|text|];
    assert (front + last)[..|text|] == front + last[..|last| - 1];
  }

  /** A description whose last word has one letter, and that wraps before it. */
  lemma LastLetterIsLost()
    ensures Formatted("Delay by n s", 20, 11) == "Delay by n \n" + Spaces(20)
  {
    var t := "Delay by n s ";
    assert t == "Delay by n s" + " ";
    assert NextNewline(t, 0) == |t|;
    assert t[10] == ' ' && LineEnd(t, 0, 11) == 11;
    assert t[0..11] == "Delay by n " && t[11..] == "s ";
    assert Lines(t, 11, 11, true) == ["s "];
    assert Lines(t, 0, 11, false) == ["Delay by n "] + ["s "];
    assert AllBlank("s "[1..]);
    assert Rendered(["s "], 20, true) == "";
    assert ["Delay by n ", "s "][1..] == ["s "];
  }

  /** Printing `s` from column `col` never passes column `limit`. */
  predicate Within(s: string, col: nat, limit: nat) {
    if s == "" then true
    else if s[0] == '\n' then Within(s[1..], 0, limit)
    else col < limit && Within(s[1..], col + 1, limit)
  }

  lemma {:induction false} WithinConcat(a: string, b: string, col: nat, limit: nat)
    ensures Within(a + b, col, limit) <==> Within(a, col, limit) && Within(b, Column(a, col), limit)
    ensures Column(a + b, col) == Column(b, Column(a, col))
    decreases |a|
  {
    if a == "" {
      assert a + b == b;
    } else {
      assert (a + b)[1..] == a[1..] + b;
      WithinConcat(a[1..], b, if a[0] == '\n' then 0 else col + 1, limit);
    }
  }

  lemma {:induction false} LineWithin(s: string, from: nat, col: nat, limit: nat)
    requires from <= |s| && BehindNewlines(s, NextNewline(s, from)) == |s|
    requires col + (NextNewline(s, from) - from) <= limit
    ensures Within(s[from..], col, limit)
    ensures LineFeed(s) == "" && from < |s| ==> Column(s[from..], col) == 0
    decreases |s| - from
  {
    if from < |s| {
      assert s[from..][1..] == s[from + 1..];
      if s[from] == '\n' {
        LineWithin(s, from + 1, 0, limit);
      } else {
        LineWithin(s, from + 1, col + 1, limit);
      }
    }
  }

  lemma {:induction false} SpacesWithin(n: nat, col: nat, limit: nat)
    requires col + n <= limit
    ensures Within(Spaces(n), col, limit) && Column(Spaces(n), col) == col + n
    decreases n
  {
    if n > 0 {
      assert Spaces(n)[1..] == Spaces(n - 1);
      SpacesWithin(n - 1, col + 1, limit);
    }
  }

  lemma {:induction false} RenderedWithin(ls: seq<string>, indent: nat, width: nat, broken: bool)
    requires |ls| > 0 && width > 0
    requires forall i :: 0 <= i < |ls| ==> IsLine(ls[i], width)
    requires NextNewline(ls[|ls| - 1], 0) == |ls[|ls| - 1]|
    ensures Within(Rendered(ls, indent, broken), indent, indent + width)
    decreases |ls|
  {
    var limit, s := indent + width, ls[0];
    LineWithin(s, 0, indent, limit);
    assert s[0..] == s;
    if |ls| == 1 {
      if s != "" {
        assert s[..|s| - 1] + s[|s| - 1..] == s;
        WithinConcat(s[..|s| - 1], s[|s| - 1..], indent, limit);
      }
    } else {
      var rest := Rendered(ls[1..], indent, true);
      RenderedWithin(ls[1..], indent, width, true);
      WithinConcat(s + LineFeed(s) + Spaces(indent), rest, indent, limit);
      WithinConcat(s + LineFeed(s), Spaces(indent), indent, limit);
      WithinConcat(s, LineFeed(s), indent, limit);
      SpacesWithin(indent, 0, limit);
    }
  }

  /** The printed text stays inside its width: no output line has more than
      `indent + allowed` characters, a tab that was not expanded counted as one. */
  lemma ColumnWithin(text: string, indent: nat, allowed: nat)
    ensures Within(Formatted(text, indent, allowed), indent, indent + if allowed == 0 then 1 else allowed)
  {
    var ls := Lines(text + " ", 0, allowed, false);
    forall i | 0 <= i < |ls|
      ensures IsLine(ls[i], Width(allowed, true))
    {
      LinesFit(text + " ", 0, allowed, false, i);
    }
    var k := LastLineStart(text + " ", 0, allowed, false);
    RenderedWithin(ls, indent, Width(allowed, true), false);
  }
}
