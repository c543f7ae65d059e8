/** What a reader of the help text sees: that every line is as long as it can be, and that
    breaks and indentation change nothing else. */
module HelpPrinting {
  import opened HelpWrapping

  // ---------- Every line is as long as it can be ----------

  /** The line t[from..end] was cut for want of room: more than a width of text was left, the
      cut is as far back as the last blank within the width, and without one at the width. */
  ghost predicate IsCutLate(t: string, from: nat, end: nat, width: nat) {
    && from <= end <= from + width < |t|
    && (forall j :: end <= j < from + width ==> !IsBlank(t[j]))
    && (end < from + width ==> from < end && IsBlank(t[end - 1]))
  }

  ghost predicate IsGreedy(t: string, from: nat, line: string, width: nat) {
    (line != "" && line[|line| - 1] == '\n') || IsCutLate(t, from, from + |line|, width)
  }

  /** Every line but the last ends in a newline of the text or was cut as late as possible. */
  lemma {:induction false} LinesAreGreedy(t: string, start: nat, allowed: nat, broken: bool, i: nat)
    requires start <= |t| && i + 1 < |Lines(t, start, allowed, broken)|
    ensures var ls := Lines(t, start, allowed, broken);
            IsGreedy(t, start + |Joined(ls[..i])|, ls[i], if allowed == 0 && (broken || i > 0) then 1 else allowed)
    decreases |t| - start, if broken then 0 else 1
  {
    var end, rest := LinesInTurn(t, start, allowed, broken);
    if i == 0 {
      NoLineJoined(Lines(t, start, allowed, broken));
      FirstIsGreedy(t, start, Width(allowed, broken));
    } else {
      LinesAreGreedy(t, end, allowed, true, i - 1);
      LengthInTurn(Lines(t, start, allowed, broken), rest, i);
    }
  }

  lemma NoLineJoined(ls: seq<string>)
    ensures Joined(ls[..0]) == ""
  {
  }

  lemma LinesInTurn(t: string, start: nat, allowed: nat, broken: bool) returns (end: nat, rest: seq<string>)
    requires start <= |t| && |Lines(t, start, allowed, broken)| > 1
    ensures Breaks(t, start, Width(allowed, broken)) && start <= end <= |t| && (broken ==> start < end)
    ensures end == LineEnd(t, start, Width(allowed, broken)) && rest == Lines(t, end, allowed, true)
    ensures rest == Lines(t, start, allowed, broken)[1..]
    ensures Lines(t, start, allowed, broken)[0] == t[start..end] && |t[start..end]| == end - start
  {
    end := LineEnd(t, start, Width(allowed, broken));
    rest := Lines(t, end, allowed, true);
  }

  lemma LengthInTurn(ls: seq<string>, rest: seq<string>, i: nat)
    requires 0 < i < |ls| && rest == ls[1..]
    ensures |Joined(ls[..i])| == |ls[0]| + |Joined(rest[..i - 1])| && ls[i] == rest[i - 1]
  {
    assert ls[..i][0] == ls[0] && ls[..i][1..] == rest[..i - 1];
  }

  lemma FirstIsGreedy(t: string, start: nat, width: nat)
    requires start <= |t| && Breaks(t, start, width)
    ensures IsGreedy(t, start, t[start..LineEnd(t, start, width)], width)
  {
    var end := LineEnd(t, start, width);
    var line := t[start..end];
    if start < end {
      assert line[|line| - 1] == t[end - 1];
    }
  }

  // ---------- What is printed ----------

  /** What can be seen of a text. */
  function Ink(s: string): string {
    if s == "" then "" else InkOf(s[0]) + Ink(s[1..])
  }

  function InkOf(c: char): string {
    if IsBlank(c) || c == '\n' then "" else [c]
  }

  lemma Regroup(a: string, b: string, c: string)
    ensures a + b + c == a + (b + c)
  {
  }

  lemma InkStep(c: char, s: string)
    ensures Ink([c] + s) == InkOf(c) + Ink(s)
  {
    assert ([c] + s)[1..] == s;
  }

  lemma {:induction false} InkInParts(a: string, b: string)
    ensures Ink(a + b) == Ink(a) + Ink(b)
  {
    if a == "" {
      assert a + b == b;
    } else {
      InkInParts(a[1..], b);
      assert a + b == [a[0]] + (a[1..] + b);
      InkStep(a[0], a[1..] + b);
      Regroup(InkOf(a[0]), Ink(a[1..]), Ink(b));
    }
  }

  lemma {:induction false} SpacesHaveNoInk(n: nat)
    ensures Ink(Spaces(n)) == ""
  {
    if n > 0 {
      assert Spaces(n)[1..] == Spaces(n - 1);
      SpacesHaveNoInk(n - 1);
    }
  }

  /** Expanding tabs keeps all that can be seen, and every text without tabs. */
  lemma {:induction false} ExpandedKeepsText(s: string, col: nat)
    ensures Ink(Expanded(s, col)) == Ink(s)
    ensures '\t' !in s ==> Expanded(s, col) == s
    decreases |s|
  {
    if s != "" {
      ExpandedKeepsText(s[1..], NextColumn(s[0], col));
      InkInParts(Printed(s[0], col), Expanded(s[1..], NextColumn(s[0], col)));
      PrintedKeepsCharacter(s[0], col);
    }
  }

  lemma PrintedKeepsCharacter(c: char, col: nat)
    ensures Ink(Printed(c, col)) == InkOf(c)
  {
    SpacesHaveNoInk(8 - col % 8);
    assert [c][1..] == "";
  }

  /** The parts of a list of lines: the first, those in between, and the last. */
  lemma FrontAndRest(ls: seq<string>)
    requires |ls| > 1
    ensures var front := ls[..|ls| - 1];
            && front != [] && front[0] == ls[0] && front[1..] == ls[1..][..|ls[1..]| - 1]
            && ls[1..][|ls[1..]| - 1] == ls[|ls| - 1]
  {
  }

  lemma NoInkBehind(a: string, b: string)
    requires Ink(b) == ""
    ensures Ink(a + b) == Ink(a)
  {
    InkInParts(a, b);
  }

  lemma LineFeedHasNoInk(line: string)
    ensures Ink(LineFeed(line)) == ""
  {
    assert "\n"[1..] == "";
  }

  lemma InkOfLine(line: string, indent: nat, rest: string)
    ensures Ink(line + LineFeed(line) + Spaces(indent) + rest) == Ink(line) + Ink(rest)
  {
    var feed, blanks := LineFeed(line), Spaces(indent);
    SpacesHaveNoInk(indent);
    LineFeedHasNoInk(line);
    NoInkBehind(line, feed);
    NoInkBehind(line + feed, blanks);
    InkInParts(line + feed + blanks, rest);
  }

  lemma {:induction false} RenderedKeepsInk(ls: seq<string>, indent: nat, broken: bool)
    requires |ls| > 0
    ensures Ink(Rendered(ls, indent, broken)) == Ink(Joined(ls[..|ls| - 1])) + Ink(LastLine(ls[|ls| - 1], broken || |ls| > 1))
  {
    if |ls| == 1 {
      assert ls[..0] == [];
    } else {
      FrontAndRest(ls);
      RenderedKeepsInk(ls[1..], indent, true);
      InkOfLine(ls[0], indent, Rendered(ls[1..], indent, true));
      InkOfJoined(ls[..|ls| - 1]);
      Regroup(Ink(ls[0]), Ink(Joined(ls[1..][..|ls[1..]| - 1])), Ink(LastLine(ls[|ls| - 1], true)));
    }
  }

  lemma InkOfJoined(ls: seq<string>)
    requires ls != []
    ensures Ink(Joined(ls)) == Ink(ls[0]) + Ink(Joined(ls[1..]))
  {
    InkInParts(ls[0], Joined(ls[1..]));
  }

  /** Breaks and indentation add nothing that can be seen, and take nothing away. */
  lemma PrintedKeepsInk(text: string, indent: nat, allowed: nat)
    ensures Ink(Formatted(text, indent, allowed)) == Ink(Shown(Lines(text + " ", 0, allowed, false)))
  {
    var ls := Lines(text + " ", 0, allowed, false);
    RenderedKeepsInk(ls, indent, false);
    InkInParts(Joined(ls[..|ls| - 1]), LastLine(ls[|ls| - 1], |ls| > 1));
  }

  function Newlines(s: string): nat {
    if s == "" then 0 else (if s[0] == '\n' then 1 else 0) + Newlines(s[1..])
  }

  lemma {:induction false} NewlinesInParts(a: string, b: string)
    ensures Newlines(a + b) == Newlines(a) + Newlines(b)
  {
    if a == "" {
      assert a + b == b;
    } else {
      NewlinesInParts(a[1..], b);
      assert (a + b)[0] == a[0] && (a + b)[1..] == a[1..] + b;
    }
  }

  lemma {:induction false} NoNewlines(s: string)
    requires '\n' !in s
    ensures Newlines(s) == 0
  {
    if s != "" {
      NoNewlines(s[1..]);
    }
  }

  /** The lines that bring no newline of their own. */
  function Cuts(ls: seq<string>): nat {
    if ls == [] then 0
    else (if ls[0] != "" && ls[0][|ls[0]| - 1] == '\n' then 0 else 1) + Cuts(ls[1..])
  }

  lemma NewlinesOfLine(line: string, indent: nat, rest: string)
    ensures Newlines(line + LineFeed(line) + Spaces(indent) + rest) == Newlines(line) + Newlines(LineFeed(line)) + Newlines(rest)
  {
    NoNewlines(Spaces(indent));
    NewlinesInParts(line + LineFeed(line) + Spaces(indent), rest);
    NewlinesInParts(line + LineFeed(line), Spaces(indent));
    NewlinesInParts(line, LineFeed(line));
  }

  lemma {:induction false} RenderedNewlines(ls: seq<string>, indent: nat, broken: bool)
    requires |ls| > 0 && '\n' !in ls[|ls| - 1]
    ensures Newlines(Rendered(ls, indent, broken)) == Newlines(Joined(ls)) + Cuts(ls[..|ls| - 1])
  {
    if |ls| == 1 {
      assert ls[1..] == [];
      assert Joined(ls) == ls[0];
      NoNewlines(ls[0]);
      NoNewlines(LastLine(ls[0], broken));
    } else {
      FrontAndRest(ls);
      RenderedNewlines(ls[1..], indent, true);
      NewlinesOfLine(ls[0], indent, Rendered(ls[1..], indent, true));
      NewlinesInParts(ls[0], Joined(ls[1..]));
      assert Newlines(LineFeed(ls[0])) == Cuts([ls[0]]);
      CutsInTurn(ls[..|ls| - 1]);
    }
  }

  lemma CutsInTurn(ls: seq<string>)
    requires ls != []
    ensures Cuts(ls) == Cuts([ls[0]]) + Cuts(ls[1..])
  {
    assert [ls[0]][1..] == [];
  }

  /** A newline is printed for each newline of the text, and for each line that was cut. */
  lemma NewlinesAreCounted(text: string, indent: nat, allowed: nat)
    ensures var ls := Lines(text + " ", 0, allowed, false);
            Newlines(Formatted(text, indent, allowed)) == Newlines(text) + Cuts(ls[..|ls| - 1])
  {
    var ls := LinesOf(text, allowed);
    RenderedNewlines(ls, indent, false);
    NewlinesInParts(text, " ");
    NoNewlines(" ");
  }

  /** The lines of a text, with the blank that is added. */
  lemma LinesOf(text: string, allowed: nat) returns (ls: seq<string>)
    ensures ls == Lines(text + " ", 0, allowed, false)
    ensures '\n' !in ls[|ls| - 1] && Joined(ls) == text + " "
    ensures forall i :: 0 <= i < |ls| ==> IsLine(ls[i], if allowed == 0 then 1 else allowed)
  {
    var t := text + " ";
    ls := Lines(t, 0, allowed, false);
    var k := LastLineStart(t, 0, allowed, false);
    LinesJoinToText(t, 0, allowed, false);
    assert t[0..] == t;
    forall i | 0 <= i < |ls|
      ensures IsLine(ls[i], if allowed == 0 then 1 else allowed)
    {
      LinesFit(t, 0, allowed, false, i);
    }
  }

  /** Whatever is printed behind a newline starts with the indentation. */
  predicate IsIndented(s: string, indent: nat) {
    s == ""
    || ((s[0] == '\n' && |s| > 1 && s[1] != '\n' ==> Spaces(indent) <= s[1..]) && IsIndented(s[1..], indent))
  }

  lemma {:induction false} IndentedWithoutNewlines(s: string, rest: string, indent: nat)
    requires '\n' !in s && IsIndented(rest, indent)
    ensures IsIndented(s + rest, indent)
  {
    if s == "" {
      assert s + rest == rest;
    } else {
      IndentedWithoutNewlines(s[1..], rest, indent);
      assert (s + rest)[1..] == s[1..] + rest;
    }
  }

  /** A line with its newlines, in front of an indented text. */
  lemma {:induction false} IndentedBehind(line: string, rest: string, indent: nat)
    requires line != "" ==> line[|line| - 1] == '\n'
    requires forall j, k :: 0 <= j < k < |line| && line[j] == '\n' ==> line[k] == '\n'
    requires Spaces(indent) <= rest && IsIndented(rest, indent)
    ensures IsIndented(line + rest, indent)
  {
    if line == "" {
      assert line + rest == rest;
    } else {
      IndentedBehind(line[1..], rest, indent);
      assert (line + rest)[1..] == line[1..] + rest;
      if |line| > 1 && line[0] == '\n' {
        assert (line + rest)[1] == line[1] == '\n';
      }
    }
  }

  lemma NewlinesAtEnd(s: string, width: nat)
    requires IsLine(s, width)
    ensures forall j, k :: 0 <= j < k < |s| && s[j] == '\n' ==> s[k] == '\n'
  {
    var n := NextNewline(s, 0);
  }

  lemma {:induction false} RenderedIsIndented(ls: seq<string>, indent: nat, width: nat, broken: bool)
    requires |ls| > 0 && '\n' !in ls[|ls| - 1]
    requires forall i :: 0 <= i < |ls| ==> IsLine(ls[i], width)
    ensures IsIndented(Rendered(ls, indent, broken), indent)
  {
    if |ls| == 1 {
      var last := LastLine(ls[0], broken);
      IndentedWithoutNewlines(last, "", indent);
      assert last + "" == last;
    } else {
      FrontAndRest(ls);
      RenderedIsIndented(ls[1..], indent, width, true);
      LineIsIndented(ls[0], indent, width, Rendered(ls[1..], indent, true));
    }
  }

  lemma LineIsIndented(line: string, indent: nat, width: nat, rest: string)
    requires IsLine(line, width) && IsIndented(rest, indent)
    ensures IsIndented(line + LineFeed(line) + Spaces(indent) + rest, indent)
  {
    IndentedWithoutNewlines(Spaces(indent), rest, indent);
    NewlinesAtEnd(line, width);
    IndentedBehind(line + LineFeed(line), Spaces(indent) + rest, indent);
    assert line + LineFeed(line) + (Spaces(indent) + rest) == line + LineFeed(line) + Spaces(indent) + rest;
  }

  /** Every output line that is not empty, from the second on, starts with the indentation. */
  lemma PrintedIsIndented(text: string, indent: nat, allowed: nat)
    ensures IsIndented(Formatted(text, indent, allowed), indent)
  {
    var ls := LinesOf(text, allowed);
    RenderedIsIndented(ls, indent, if allowed == 0 then 1 else allowed, false);
  }
}
