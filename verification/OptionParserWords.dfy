/** What each kind of word on a command line means: the option whose entry it leaves, with
    which text, and the errors. Together with the laws on spellings these say what every
    word in front of the marker does. */
module OptionParserWords {
  import opened Wrappers
  import opened OptionParser
  import opened OptionParserProperties

  // ---------- Which words are options ----------

  lemma LongToken(word: string, k: nat)
    requires |word| >= 4 && word[..2] == "--" && IsAlnum(word[2]) && k == NameEnd(word, 3) && k > 3
    ensures IsLongName(word[2..k]) && word[..k] == "--" + word[2..k]
  {
    assert word[..k] == word[..2] + word[2..k];
    assert forall i :: 3 <= i < k ==> word[2..k][i - 2] == word[i];
  }

  /** A word is a long option exactly if it is a name behind two dashes, with a text on one
      line behind an equals sign or none. */
  lemma LongExactly(word: string, name: string, setValue: bool, value: string)
    ensures ParseArgument(word) == Long(name, setValue, value) <==>
              && IsLongName(name)
              && if setValue then OnOneLine(value) && word == "--" + name + "=" + value else value == "" && word == "--" + name
  {
    if ParseArgument(word) == Long(name, setValue, value) {
      var k := NameEnd(word, 3);
      LongToken(word, k);
      assert word == word[..k] + word[k..];
      if setValue {
        assert word[k..] == "=" + word[k + 1..];
      }
    } else if IsLongName(name) && OnOneLine(value) {
      LongWords(name, value);
    }
  }

  /** A word is a group of letters exactly if they follow one dash, on one line. */
  lemma GroupExactly(word: string, letters: string)
    ensures ParseArgument(word) == Group(letters) <==>
              letters != "" && IsAlnum(letters[0]) && OnOneLine(letters) && word == "-" + letters
  {
    if ParseArgument(word) == Group(letters) {
      assert word == "-" + word[1..] && word[1..] == [word[1]] + word[2..];
    } else if letters != "" && IsAlnum(letters[0]) && OnOneLine(letters) && word == "-" + letters {
      ShortWord(letters);
    }
  }

  // ---------- What an option leaves ----------

  /** Reading these words leaves one entry, and then comes down to reading the rest. */
  ghost predicate Leaves(cfg: Config, words: seq<string>, p: Progress, e: Entry, rest: seq<string>) {
    SameMeaning(ReadFront(cfg, words, p), ReadFront(cfg, rest, p.(log := p.log + [e])))
  }

  /** The text is the value of the option, or an error. */
  ghost predicate Gives(cfg: Config, words: seq<string>, p: Progress, option: Details, text: string, rest: seq<string>) {
    if option.accepts(text) then Leaves(cfg, words, p, Entry(option, text, false), rest)
    else ReadFront(cfg, words, p) == Failure(IncorrectArgumentType(text))
  }

  lemma UsedLeaves(cfg: Config, words: seq<string>, p: Progress, use: Use, e: Entry, rest: seq<string>)
    requires ReadFront(cfg, words, p) == ReadFront(cfg, rest, p.Used(use, p.next))
    requires use.Entries() == [e] && use.LeftOver() == []
    ensures Leaves(cfg, words, p, e, rest)
  {
    AlikeReadAlike(cfg, rest, p.Used(use, p.next), p.(log := p.log + [e]));
  }

  /** An option without text behind it takes its implicit value if it has one, and the next
      word otherwise, which must be there. */
  ghost predicate ReadsValue(cfg: Config, word: string, p: Progress, option: Details, name: string, rest: seq<string>) {
    if option.hasImplicit then Gives(cfg, [word] + rest, p, option, option.implicitValue, rest)
    else if rest == [] then ReadFront(cfg, [word] + rest, p) == Failure(MissingArgument(name))
    else Gives(cfg, [word] + rest, p, option, rest[0], rest[1..])
  }

  lemma OneUse(cfg: Config, words: seq<string>, p: Progress, use: Use)
    requires words != [] && words[0] != "--" && ReadWord(cfg, words, p.log, p.next) == Success((use, p.next))
    ensures |use.Words()| <= |words|
    ensures ReadFront(cfg, words, p) == ReadFront(cfg, words[|use.Words()|..], p.Used(use, p.next))
  {
  }

  lemma OneError(cfg: Config, words: seq<string>, p: Progress, error: Error)
    requires words != [] && words[0] != "--" && ReadWord(cfg, words, p.log, p.next) == Failure(error)
    ensures ReadFront(cfg, words, p) == Failure(error)
  {
  }

  /** `--name=text` gives that text to the option. */
  lemma LongWithText(cfg: Config, name: string, text: string, rest: seq<string>, p: Progress)
    requires cfg.tokenise == ParseArgument && IsLongName(name) && OnOneLine(text) && name in cfg.options
    ensures Gives(cfg, ["--" + name + "=" + text] + rest, p, cfg.options[name], text, rest)
  {
    LongWords(name, text);
    var word, option := "--" + name + "=" + text, cfg.options[name];
    var words := [word] + rest;
    assert words[1..] == rest;
    if option.accepts(text) {
      var e := Entry(option, text, false);
      OneUse(cfg, words, p, Flag(word, [e], []));
      UsedLeaves(cfg, words, p, Flag(word, [e], []), e, rest);
    } else {
      OneError(cfg, words, p, IncorrectArgumentType(text));
    }
  }

  /** `--name` reads the implicit value or the next word. */
  lemma LongAlone(cfg: Config, name: string, rest: seq<string>, p: Progress)
    requires cfg.tokenise == ParseArgument && IsLongName(name) && name in cfg.options
    ensures ReadsValue(cfg, "--" + name, p, cfg.options[name], name, rest)
  {
    LongWords(name, "");
    var word, option := "--" + name, cfg.options[name];
    var words := [word] + rest;
    assert words[1..] == rest;
    if option.hasImplicit {
      if option.accepts(option.implicitValue) {
        var e := Entry(option, option.implicitValue, false);
        OneUse(cfg, words, p, Flag(word, [e], []));
        UsedLeaves(cfg, words, p, Flag(word, [e], []), e, rest);
      } else {
        OneError(cfg, words, p, IncorrectArgumentType(option.implicitValue));
      }
    } else if rest == [] {
      OneError(cfg, words, p, MissingArgument(name));
    } else {
      LongTakesNext(cfg, word, name, rest, p);
    }
  }

  lemma LongTakesNext(cfg: Config, word: string, name: string, rest: seq<string>, p: Progress)
    requires cfg.tokenise(word) == Long(name, false, "") && word != "--" && rest != []
    requires name in cfg.options && !cfg.options[name].hasImplicit
    ensures Gives(cfg, [word] + rest, p, cfg.options[name], rest[0], rest[1..])
  {
    var words, option := [word] + rest, cfg.options[name];
    assert words[1] == rest[0] && words[2..] == rest[1..];
    if option.accepts(rest[0]) {
      var e := Entry(option, rest[0], false);
      OneUse(cfg, words, p, FlagWithValue(word, rest[0], [e], []));
      UsedLeaves(cfg, words, p, FlagWithValue(word, rest[0], [e], []), e, rest[1..]);
    } else {
      OneError(cfg, words, p, IncorrectArgumentType(rest[0]));
    }
  }

  /** `-c` reads the implicit value or the next word. */
  lemma ShortAlone(cfg: Config, c: char, rest: seq<string>, p: Progress)
    requires cfg.tokenise == ParseArgument && IsAlnum(c) && [c] in cfg.options
    ensures ReadsValue(cfg, "-" + [c], p, cfg.options[[c]], [c], rest)
  {
    ShortWord([c]);
    var word, option := "-" + [c], cfg.options[[c]];
    var words := [word] + rest;
    assert words[1..] == rest;
    var last := LastOfWord(option, [c], Following(words, 0));
    LastLetter(cfg, c, Following(words, 0));
    if last.Failure? {
      OneError(cfg, words, p, last.error);
    } else if last.value.1 {
      OneUse(cfg, words, p, FlagWithValue(word, rest[0], [last.value.0], []));
      assert words[2..] == rest[1..];
      UsedLeaves(cfg, words, p, FlagWithValue(word, rest[0], [last.value.0], []), last.value.0, rest[1..]);
    } else {
      OneUse(cfg, words, p, Flag(word, [last.value.0], []));
      UsedLeaves(cfg, words, p, Flag(word, [last.value.0], []), last.value.0, rest);
    }
  }

  lemma LastLetter(cfg: Config, c: char, next: Option<string>)
    requires [c] in cfg.options
    ensures ReadGroup(cfg, [c], 0, next, NO_LETTERS)
         == match LastOfWord(cfg.options[[c]], [c], next)
            case Success(last) => Success(GroupUse([last.0], [], last.1))
            case Failure(error) => Failure(error)
  {
    var last := LastOfWord(cfg.options[[c]], [c], next);
    if last.Success? {
      var use := GroupUse([last.value.0], [], last.value.1);
      assert Join(NO_LETTERS, use) == use;
      assert ReadLetter(cfg, [c], 0, next) == Success((use, true));
    }
  }

  /** The short and the long name of an option mean the same. */
  lemma ShortAndLong(cfg: Config, c: char, name: string, rest: seq<string>, p: Progress)
    requires cfg.tokenise == ParseArgument && IsAlnum(c) && IsLongName(name)
    requires [c] in cfg.options && name in cfg.options && cfg.options[[c]] == cfg.options[name]
    requires cfg.options[name].hasImplicit || rest != []
    ensures SameMeaning(ReadFront(cfg, ["-" + [c]] + rest, p), ReadFront(cfg, ["--" + name] + rest, p))
  {
    ShortAlone(cfg, c, rest, p);
    LongAlone(cfg, name, rest, p);
  }

  /** A long option that does not exist is an error, or left over as it stands. */
  lemma UnknownLong(cfg: Config, word: string, name: string, setValue: bool, text: string, rest: seq<string>, p: Progress)
    requires cfg.tokenise(word) == Long(name, setValue, text) && word != "--" && name !in cfg.options
    ensures ReadFront(cfg, [word] + rest, p)
         == if cfg.allowUnrecognised then ReadFront(cfg, rest, p.Used(Unmatched(word), p.next)) else Failure(NoSuchOption(name))
  {
    assert ([word] + rest)[1..] == rest;
  }

  lemma StrayIsRead(cfg: Config, c: char, letters: string, next: Option<string>)
    requires [c] !in cfg.options
    ensures ReadGroup(cfg, [c] + letters, 0, next, NO_LETTERS)
         == if !cfg.allowUnrecognised then Failure(NoSuchOption([c]))
            else ReadGroup(cfg, letters, 0, next, GroupUse([], ["-" + [c]], false))
  {
    var all := [c] + letters;
    assert all[0] == c;
    if cfg.allowUnrecognised {
      var stray := GroupUse([], ["-" + [c]], false);
      assert ReadLetter(cfg, all, 0, next) == Success((stray, false));
      assert Join(NO_LETTERS, stray) == stray;
      GroupShifts(cfg, c, letters, 0, next, stray);
    }
  }

  /** So is a letter that is no option. */
  lemma UnknownLetterIsAnError(cfg: Config, c: char, letters: string, rest: seq<string>, p: Progress)
    requires cfg.tokenise == ParseArgument && IsAlnum(c) && [c] !in cfg.options && OnOneLine([c] + letters)
    requires !cfg.allowUnrecognised
    ensures ReadFront(cfg, ["-" + ([c] + letters)] + rest, p) == Failure(NoSuchOption([c]))
  {
    ShortWord([c] + letters);
    GroupReads(cfg, [c] + letters, rest, p);
    StrayIsRead(cfg, c, letters, Following(["-" + ([c] + letters)] + rest, 0));
  }

  /** If that is allowed it is left over, with a dash of its own. */
  lemma UnknownLetterAlone(cfg: Config, c: char, rest: seq<string>, p: Progress)
    requires cfg.tokenise == ParseArgument && IsAlnum(c) && [c] !in cfg.options && cfg.allowUnrecognised
    ensures SameMeaning(ReadFront(cfg, ["-" + [c]] + rest, p), ReadFront(cfg, rest, p.Used(Unmatched("-" + [c]), p.next)))
  {
    var words := ["-" + [c]] + rest;
    var g := GroupUse([], ["-" + [c]], false);
    ShortWord([c]);
    GroupReads(cfg, [c], rest, p);
    assert [c] + "" == [c];
    StrayIsRead(cfg, c, "", Following(words, 0));
    assert rest[0..] == rest;
    AlikeReadAlike(cfg, rest, p.Used(WordUse(words, g), p.next), p.Used(Unmatched("-" + [c]), p.next));
  }

  /** The letters behind it are read as if they stood alone. */
  lemma UnknownLetterInFront(cfg: Config, c: char, letters: string, rest: seq<string>, p: Progress)
    requires cfg.tokenise == ParseArgument && IsAlnum(c) && [c] !in cfg.options && cfg.allowUnrecognised
    requires letters != "" && IsAlnum(letters[0]) && OnOneLine(letters)
    ensures SameMeaning(ReadFront(cfg, ["-" + ([c] + letters)] + rest, p),
                        ReadFront(cfg, ["-" + letters] + rest, p.Used(Unmatched("-" + [c]), p.next)))
  {
    var stray := GroupUse([], ["-" + [c]], false);
    var one, two := ["-" + ([c] + letters)] + rest, ["-" + letters] + rest;
    assert Following(one, 0) == Following(two, 0);
    assert Join(stray, NO_LETTERS) == stray;
    StrayIsRead(cfg, c, letters, Following(one, 0));
    GroupBehind(cfg, letters, 0, Following(one, 0), stray, NO_LETTERS);
    SplitRest(cfg, one, two, c, letters, rest, p, p.Used(Unmatched("-" + [c]), p.next), stray);
  }

  // ---------- Words that are no options ----------

  /** The positional option that is due from the next-th on: the first that is a container
      or was not given yet. */
  ghost predicate IsTaker(cfg: Config, log: seq<Entry>, next: nat, i: nat) {
    && next <= i < |cfg.positional|
    && (forall j :: next <= j <= i ==> cfg.positional[j] in cfg.options)
    && (forall j :: next <= j < i ==> IsTaken(cfg.options[cfg.positional[j]], log))
    && !IsTaken(cfg.options[cfg.positional[i]], log)
  }

  ghost predicate WasGiven(log: seq<Entry>, hash: nat) {
    exists k :: 0 <= k < |log| && !log[k].isDefault && log[k].option.hash == hash
  }

  ghost predicate IsTaken(option: Details, log: seq<Entry>) {
    !option.isContainer && WasGiven(log, option.hash)
  }

  ghost predicate NoneIsDue(cfg: Config, log: seq<Entry>, next: nat) {
    forall j :: next <= j < |cfg.positional| ==>
      cfg.positional[j] in cfg.options && IsTaken(cfg.options[cfg.positional[j]], log)
  }

  lemma {:induction false} CountIsPositive(log: seq<Entry>, hash: nat)
    ensures Record(log, hash).count > 0 <==> WasGiven(log, hash)
  {
    if log != [] {
      var front := log[..|log| - 1];
      CountIsPositive(front, hash);
      assert forall k :: 0 <= k < |front| ==> front[k] == log[k];
    }
  }

  lemma {:induction false} TakerIs(cfg: Config, log: seq<Entry>, next: nat, i: nat)
    requires IsTaker(cfg, log, next, i)
    ensures Taker(cfg, log, next) == Success(Some(i))
    decreases i - next
  {
    CountIsPositive(log, cfg.options[cfg.positional[next]].hash);
    if next < i {
      TakerIs(cfg, log, next + 1, i);
    }
  }

  lemma {:induction false} TakerIsNone(cfg: Config, log: seq<Entry>, next: nat)
    requires NoneIsDue(cfg, log, next)
    ensures Taker(cfg, log, next) == Success(None)
    decreases |cfg.positional| - next
  {
    if next < |cfg.positional| {
      CountIsPositive(log, cfg.options[cfg.positional[next]].hash);
      TakerIsNone(cfg, log, next + 1);
    }
  }

  /** The next option that is due when this one has taken a word. */
  function Behind(cfg: Config, i: nat): nat
    requires i < |cfg.positional| && cfg.positional[i] in cfg.options
  {
    if cfg.options[cfg.positional[i]].isContainer then i else i + 1
  }

  lemma OfferIs(cfg: Config, word: string, log: seq<Entry>, next: nat, i: nat)
    requires IsTaker(cfg, log, next, i)
    ensures var option := cfg.options[cfg.positional[i]];
            Offer(cfg, word, log, next)
            == if option.accepts(word) then Success((Value(word, option), Behind(cfg, i))) else Failure(IncorrectArgumentType(word))
  {
    TakerIs(cfg, log, next, i);
  }

  /** A word that is no option and does not look like one is the value of the positional
      option that is due. */
  lemma FreeWordIsTaken(cfg: Config, word: string, rest: seq<string>, p: Progress, i: nat)
    requires cfg.tokenise(word) == NotAFlag && word != "--" && IsTaker(cfg, p.log, p.next, i)
    requires (|word| >= 2 && word[0] == '-') ==> cfg.allowUnrecognised
    ensures var option := cfg.options[cfg.positional[i]];
            if option.accepts(word) then
              SameMeaning(ReadFront(cfg, [word] + rest, p),
                          ReadFront(cfg, rest, p.(log := p.log + [Entry(option, word, false)], next := Behind(cfg, i))))
            else ReadFront(cfg, [word] + rest, p) == Failure(IncorrectArgumentType(word))
  {
    OfferIs(cfg, word, p.log, p.next, i);
    var option := cfg.options[cfg.positional[i]];
    assert ([word] + rest)[1..] == rest;
    if option.accepts(word) {
      AlikeReadAlike(cfg, rest, p.Used(Value(word, option), Behind(cfg, i)),
                     p.(log := p.log + [Entry(option, word, false)], next := Behind(cfg, i)));
    }
  }

  /** With none due it is left over; one that looks like an option is an error. */
  lemma FreeWordIsLeftOver(cfg: Config, word: string, rest: seq<string>, p: Progress)
    requires cfg.tokenise(word) == NotAFlag && word != "--" && NoneIsDue(cfg, p.log, p.next)
    ensures ReadFront(cfg, [word] + rest, p)
         == if |word| >= 2 && word[0] == '-' && !cfg.allowUnrecognised then Failure(InvalidSyntax(word))
            else ReadFront(cfg, rest, p.Used(Unmatched(word), |cfg.positional|))
  {
    TakerIsNone(cfg, p.log, p.next);
    assert ([word] + rest)[1..] == rest;
  }

  /** Behind the marker every word is taken by the option that is due, whatever it looks
      like. */
  lemma RestWordIsTaken(cfg: Config, word: string, rest: seq<string>, p: Progress, i: nat)
    requires IsTaker(cfg, p.log, p.next, i)
    ensures var option := cfg.options[cfg.positional[i]];
            ReadRest(cfg, [word] + rest, p)
            == if option.accepts(word) then ReadRest(cfg, rest, p.Used(Value(word, option), Behind(cfg, i)))
               else Failure(IncorrectArgumentType(word))
  {
    OfferIs(cfg, word, p.log, p.next, i);
    assert ([word] + rest)[1..] == rest;
  }

  // ---------- The list of keys and values ----------

  lemma {:induction false} KeyValuesAreEntries(log: seq<Entry>)
    ensures |KeyValues(log, false)| == |Givens(log)|
    ensures forall i :: 0 <= i < |Givens(log)| ==>
              KeyValues(log, false)[i] == KeyValue(Givens(log)[i].option.EssentialName(), Givens(log)[i].text)
  {
    if log != [] {
      KeyValuesAreEntries(log[..|log| - 1]);
    }
  }

  /** The texts that an option was given, or received as its default, in order. */
  function TextsOf(log: seq<Entry>, hash: nat): seq<string> {
    if log == [] then []
    else (if log[0].option.hash == hash then [log[0].text] else []) + TextsOf(log[1..], hash)
  }

  lemma {:induction false} TextsOfAppended(log: seq<Entry>, e: Entry, hash: nat)
    ensures TextsOf(log + [e], hash) == TextsOf(log, hash) + if e.option.hash == hash then [e.text] else []
  {
    if log != [] {
      assert (log + [e])[1..] == log[1..] + [e];
      TextsOfAppended(log[1..], e, hash);
    }
  }

  lemma {:induction false} RecordHoldsTexts(log: seq<Entry>, hash: nat)
    ensures Record(log, hash).texts == TextsOf(log, hash)
  {
    if log != [] {
      var front := log[..|log| - 1];
      RecordHoldsTexts(front, hash);
      TextsOfAppended(front, log[|log| - 1], hash);
      assert front + [log[|log| - 1]] == log;
    }
  }
}
