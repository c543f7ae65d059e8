/** What the option parser promises over all command lines: every word is used once,
    every option gets its default at most once whatever the order of the walk over
    the option map, and different spellings of the same options mean the same. */
module OptionParserProperties {
  import opened Wrappers
  import opened OptionParser

  // ---------- Every word is used exactly once ----------

  /** The entries that stem from the command line rather than from defaults. */
  function Givens(log: seq<Entry>): seq<Entry> {
    if log == [] then []
    else Givens(log[..|log| - 1]) + if log[|log| - 1].isDefault then [] else [log[|log| - 1]]
  }

  lemma {:induction false} GivensOfSum(a: seq<Entry>, b: seq<Entry>)
    ensures Givens(a + b) == Givens(a) + Givens(b)
    decreases |b|
  {
    if b == [] {
      assert a + b == a;
    } else {
      GivensOfSum(a, b[..|b| - 1]);
      assert (a + b)[..|a + b| - 1] == a + b[..|b| - 1];
    }
  }

  /** Entries for options of the map that are not defaults. */
  ghost predicate FromWords(entries: seq<Entry>, options: OptionMap) {
    forall i :: 0 <= i < |entries| ==> !entries[i].isDefault && IsOption(options, entries[i].option)
  }

  lemma {:induction false} GivensFromWords(entries: seq<Entry>, options: OptionMap)
    requires FromWords(entries, options)
    ensures Givens(entries) == entries
  {
    if entries != [] {
      GivensFromWords(entries[..|entries| - 1], options);
    }
  }

  /** How a word may be used when unrecognised options are not allowed: an option
      word leaves entries behind and nothing else, and a word taken as the value
      of an option is the text of the last of these entries. */
  predicate UsedOnce(use: Use) {
    match use
    case Value(_, _) => true
    case Unmatched(_) => true
    case Marker => true
    case Flag(_, entries, strays) => strays == [] && |entries| > 0
    case FlagWithValue(_, value, entries, strays) =>
      strays == [] && |entries| > 0 && entries[|entries| - 1].text == value
  }

  ghost predicate AllEntriesGiven(log: seq<Entry>) {
    forall i :: 0 <= i < |log| ==> !log[i].isDefault
  }

  predicate AllUsedOnce(t: Trace) {
    t.Nothing? || (AllUsedOnce(t.before) && UsedOnce(t.use))
  }

  /** The words so far are those of the uses made of them. */
  ghost predicate Accounted(cfg: Config, words: seq<string>, p: Progress) {
    AllWords(p.uses) == words && (!cfg.allowUnrecognised ==> AllUsedOnce(p.uses))
  }

  /** The log holds the entries of these uses, and defaults. */
  ghost predicate Logged(cfg: Config, p: Progress) {
    AllEntries(p.uses) == Givens(p.log) && LogOf(p.log, cfg.options)
  }

  lemma LetterIsEntry(cfg: Config, s: string, i: nat, next: Option<string>)
    requires i < |s| && ReadLetter(cfg, s, i, next).Success?
    ensures FromWords(ReadLetter(cfg, s, i, next).value.0.entries, cfg.options)
  {
    if [s[i]] in cfg.options {
      assert IsOption(cfg.options, cfg.options[[s[i]]]);
    }
  }

  lemma {:induction false} LettersAreEntries(cfg: Config, s: string, i: nat, next: Option<string>, done: GroupUse)
    requires i <= |s| && !done.takesNext && FromWords(done.entries, cfg.options)
    requires ReadGroup(cfg, s, i, next, done).Success?
    ensures FromWords(ReadGroup(cfg, s, i, next, done).value.entries, cfg.options)
    decreases |s| - i
  {
    if i < |s| {
      LetterIsEntry(cfg, s, i, next);
      var (use, stop) := ReadLetter(cfg, s, i, next).value;
      if !stop { LettersAreEntries(cfg, s, i + 1, next, Join(done, use)); }
    }
  }

  lemma OfferIsUsedOnce(cfg: Config, word: string, log: seq<Entry>, next: nat)
    requires Offer(cfg, word, log, next).Success?
    ensures var use := Offer(cfg, word, log, next).value.0;
            FromWords(use.Entries(), cfg.options) && UsedOnce(use)
  {
    var taker := Taker(cfg, log, next).value;
    if taker.Some? {
      assert IsOption(cfg.options, cfg.options[cfg.positional[taker.value]]);
    }
  }

  lemma LongIsUsedOnce(cfg: Config, word: string, name: string, setValue: bool, value: string, next: Option<string>)
    requires ReadLong(cfg, word, name, setValue, value, next).Success?
    ensures var use := ReadLong(cfg, word, name, setValue, value, next).value;
            FromWords(use.Entries(), cfg.options) && (!cfg.allowUnrecognised ==> UsedOnce(use))
  {
    if name in cfg.options {
      assert IsOption(cfg.options, cfg.options[name]);
    }
  }

  lemma WordIsUsedOnce(cfg: Config, words: seq<string>, log: seq<Entry>, next: nat, use: Use, next': nat)
    requires SplitsWords(cfg.tokenise)
    requires words != [] && ReadWord(cfg, words, log, next) == Success((use, next'))
    ensures FromWords(use.Entries(), cfg.options) && (!cfg.allowUnrecognised ==> UsedOnce(use))
  {
    match cfg.tokenise(words[0])
    case Group(letters) =>
      LettersAreEntries(cfg, letters, 0, Following(words, 0), NO_LETTERS);
    case Long(name, setValue, value) =>
      LongIsUsedOnce(cfg, words[0], name, setValue, value, Following(words, 0));
    case NotAFlag =>
      OfferIsUsedOnce(cfg, words[0], log, next);
  }

  lemma LogGrows(log: seq<Entry>, entries: seq<Entry>, options: OptionMap)
    requires LogOf(log, options) && FromWords(entries, options)
    ensures LogOf(log + entries, options) && Givens(log + entries) == Givens(log) + entries
    ensures AllEntriesGiven(log) ==> AllEntriesGiven(log + entries)
  {
    GivensOfSum(log, entries);
    GivensFromWords(entries, options);
  }

  lemma LogOne(cfg: Config, p: Progress, use: Use, next: nat)
    requires Logged(cfg, p) && FromWords(use.Entries(), cfg.options)
    ensures Logged(cfg, p.Used(use, next))
    ensures AllEntriesGiven(p.log) ==> AllEntriesGiven(p.Used(use, next).log)
  {
    LogGrows(p.log, use.Entries(), cfg.options);
  }

  /** The first word in front of the marker: what it is used for, and that reading the
      words behind it gives the same result. */
  lemma ReadOne(cfg: Config, words: seq<string>, p: Progress, r: (Progress, seq<string>)) returns (use: Use, next: nat)
    requires SplitsWords(cfg.tokenise)
    requires words != [] && words[0] != "--" && ReadFront(cfg, words, p) == Success(r)
    ensures 1 <= |use.Words()| && use.Words() <= words
    ensures FromWords(use.Entries(), cfg.options) && (!cfg.allowUnrecognised ==> UsedOnce(use))
    ensures ReadFront(cfg, words[|use.Words()|..], p.Used(use, next)) == Success(r)
  {
    var read := ReadWord(cfg, words, p.log, p.next).value;
    use, next := read.0, read.1;
    WordIsUsedOnce(cfg, words, p.log, p.next, use, next);
  }

  lemma Prefixed(before: seq<string>, words: seq<string>, first: seq<string>)
    requires first <= words
    ensures (before + first) + words[|first|..] == before + words
  {
  }

  /** Reading the front accounts for all words but the ones it leaves behind. */
  lemma {:induction false} FrontIsAccounted(cfg: Config, before: seq<string>, words: seq<string>, p: Progress,
                                            r: (Progress, seq<string>))
    returns (used: seq<string>)
    requires SplitsWords(cfg.tokenise) && Accounted(cfg, before, p) && ReadFront(cfg, words, p) == Success(r)
    ensures used + r.1 == before + words && Accounted(cfg, used, r.0)
    decreases |words|
  {
    if words == [] {
      used := before;
    } else if words[0] == "--" {
      used := before + ["--"];
      Prefixed(before, words, ["--"]);
    } else {
      var use, next := ReadOne(cfg, words, p, r);
      Prefixed(before, words, use.Words());
      used := FrontIsAccounted(cfg, before + use.Words(), words[|use.Words()|..], p.Used(use, next), r);
    }
  }

  /** Reading the front logs the entries of its words, and no defaults. */
  lemma {:induction false} FrontIsLogged(cfg: Config, words: seq<string>, p: Progress, r: (Progress, seq<string>))
    requires SplitsWords(cfg.tokenise) && Logged(cfg, p) && ReadFront(cfg, words, p) == Success(r)
    ensures Logged(cfg, r.0) && (AllEntriesGiven(p.log) ==> AllEntriesGiven(r.0.log))
    decreases |words|
  {
    if words != [] && words[0] == "--" {
      LogOne(cfg, p, Marker, p.next);
    } else if words != [] {
      var use, next := ReadOne(cfg, words, p, r);
      LogOne(cfg, p, use, next);
      FrontIsLogged(cfg, words[|use.Words()|..], p.Used(use, next), r);
    }
  }

  /** The same for the words behind the marker. */
  lemma {:induction false} RestIsAccounted(cfg: Config, before: seq<string>, words: seq<string>, p: Progress, after: Progress)
    requires Accounted(cfg, before, p) && Logged(cfg, p) && ReadRest(cfg, words, p) == Success(after)
    ensures Accounted(cfg, before + words, after) && Logged(cfg, after)
    decreases |words|
  {
    if words == [] {
      assert before + words == before;
    } else {
      OfferIsUsedOnce(cfg, words[0], p.log, p.next);
      var r := Offer(cfg, words[0], p.log, p.next).value;
      LogOne(cfg, p, r.0, r.1);
      Prefixed(before, words, r.0.Words());
      RestIsAccounted(cfg, before + r.0.Words(), words[1..], p.Used(r.0, r.1), after);
    }
  }

  lemma {:induction false} DefaultsAreAccounted(cfg: Config, order: seq<string>, log: seq<Entry>)
    requires forall n <- order :: n in cfg.options
    requires LogOf(log, cfg.options) && ReadDefaults(cfg.options, order, log).Success?
    ensures var after := ReadDefaults(cfg.options, order, log).value;
            Givens(after) == Givens(log) && LogOf(after, cfg.options)
    decreases |order|
  {
    if order != [] {
      var option := cfg.options[order[0]];
      if Lacks(option, log) {
        assert IsOption(cfg.options, option);
        var e := Entry(option, option.defaultValue, true);
        GivensOfSum(log, [e]);
        assert Givens([e]) == [];
        DefaultsAreAccounted(cfg, order[1..], log + [e]);
      } else {
        DefaultsAreAccounted(cfg, order[1..], log);
      }
    }
  }

  /** Every word of a command line that parses is used exactly once, in order: as an
      option, as the value of one, for a positional option, as the marker, or not
      at all; the entries of the options are those of the words, and the count kept
      for an option is the number of its entries in the key/value list. */
  lemma EveryWordIsUsedOnce(cfg: Config, order: seq<string>, words: seq<string>)
    requires SplitsWords(cfg.tokenise)
    requires WellFormed(cfg.options) && WalkOrder(cfg.options, order)
    requires Meaning(cfg, order, words).Success?
    ensures var p := Meaning(cfg, order, words).value;
            && AllWords(p.uses) == words
            && AllEntries(p.uses) == Givens(p.log)
            && (!cfg.allowUnrecognised ==> AllUsedOnce(p.uses))
            && forall n :: n in cfg.options ==>
                 var option := cfg.options[n];
                 Record(p.log, option.hash).count == KeyCount(KeyValues(p.log, false), option.EssentialName())
  {
    var (front, behind) := ReadFront(cfg, words, NOTHING_READ).value;
    var used := FrontIsAccounted(cfg, [], words, NOTHING_READ, (front, behind));
    FrontIsLogged(cfg, words, NOTHING_READ, (front, behind));
    DefaultsAreAccounted(cfg, order, front.log);
    var log := ReadDefaults(cfg.options, order, front.log).value;
    var p := Meaning(cfg, order, words).value;
    RestIsAccounted(cfg, used, behind, front.(log := log), p);
    assert used + behind == words;
    forall n | n in cfg.options
      ensures Record(p.log, cfg.options[n].hash).count
           == KeyCount(KeyValues(p.log, false), cfg.options[n].EssentialName())
    {
      CountsAreEntries(cfg.options, p.log, n);
    }
  }

  // ---------- Defaults ----------

  /** The walk passes the option with this hash. */
  ghost predicate Passes(options: OptionMap, order: seq<string>, hash: nat)
    requires forall n <- order :: n in options
  {
    exists m :: m in order && options[m].hash == hash
  }

  /** What a walk does to one option: it receives its default if it has one, was not
      given and is passed, once however often it is passed; else nothing changes. */
  lemma {:induction false} WalkGivesDefault(options: OptionMap, order: seq<string>, log: seq<Entry>, name: string)
    requires WellFormed(options) && name in options && forall n <- order :: n in options
    requires ReadDefaults(options, order, log).Success?
    ensures var option := options[name];
            var after := ReadDefaults(options, order, log).value;
            var before := Record(log, option.hash);
            var receives := Lacks(option, log) && Passes(options, order, option.hash);
            && Record(after, option.hash)
               == (if receives then before.(isDefault := true, texts := before.texts + [option.defaultValue]) else before)
            && KeyCount(KeyValues(after, true), option.EssentialName())
               == KeyCount(KeyValues(log, true), option.EssentialName()) + if receives then 1 else 0
    decreases |order|
  {
    if order != [] {
      var first, option, rest := options[order[0]], options[name], order[1..];
      PassesFirst(options, order, option.hash);
      if Lacks(first, log) {
        var e := Entry(first, first.defaultValue, true);
        RecordAppended(log, e);
        KeyCountOfAppended(KeyValues(log, true), KeyValue(first.EssentialName(), e.text), option.EssentialName());
        EssentialNameIdentifies(options, order[0], name);
        WalkGivesDefault(options, rest, log + [e], name);
      } else {
        WalkGivesDefault(options, rest, log, name);
      }
    }
  }

  lemma PassesFirst(options: OptionMap, order: seq<string>, hash: nat)
    requires order != [] && forall n <- order :: n in options
    ensures Passes(options, order, hash) <==> options[order[0]].hash == hash || Passes(options, order[1..], hash)
  {
    if options[order[0]].hash == hash { assert order[0] in order; }
  }

  /** A walk fails exactly when an option that is to receive its default cannot parse it. */
  lemma {:induction false} WalkSucceeds(options: OptionMap, order: seq<string>, log: seq<Entry>)
    requires WellFormed(options) && forall n <- order :: n in options
    ensures ReadDefaults(options, order, log).Success? <==>
            forall n :: n in order && Lacks(options[n], log) ==> options[n].accepts(options[n].defaultValue)
    decreases |order|
  {
    if order != [] {
      var first, rest := options[order[0]], order[1..];
      assert order[0] in order && forall n :: n in order <==> n == order[0] || n in rest;
      if Lacks(first, log) {
        var e := Entry(first, first.defaultValue, true);
        RecordAppended(log, e);
        WalkSucceeds(options, rest, log + [e]);
        assert forall n :: n in rest ==>
          (Lacks(options[n], log + [e]) <==> Lacks(options[n], log) && options[n].hash != first.hash);
        assert forall n :: n in rest && options[n].hash == first.hash ==> options[n] == first;
      } else {
        WalkSucceeds(options, rest, log);
      }
    }
  }

  lemma {:induction false} WalkLeavesOthers(options: OptionMap, order: seq<string>, log: seq<Entry>, hash: nat)
    requires forall n <- order :: n in options && options[n].hash != hash
    requires ReadDefaults(options, order, log).Success?
    ensures Record(ReadDefaults(options, order, log).value, hash) == Record(log, hash)
    decreases |order|
  {
    if order != [] {
      var first := options[order[0]];
      assert order[0] in order;
      if Lacks(first, log) {
        var e := Entry(first, first.defaultValue, true);
        RecordAppended(log, e);
        WalkLeavesOthers(options, order[1..], log + [e], hash);
      } else {
        WalkLeavesOthers(options, order[1..], log, hash);
      }
    }
  }

  ghost predicate SameRecords(a: seq<Entry>, b: seq<Entry>) {
    forall hash :: Record(a, hash) == Record(b, hash)
  }

  lemma WalksAgree(options: OptionMap, order: seq<string>, other: seq<string>, log: seq<Entry>)
    requires WellFormed(options) && WalkOrder(options, order) && WalkOrder(options, other)
    ensures var a, b := ReadDefaults(options, order, log), ReadDefaults(options, other, log);
            (a.Success? <==> b.Success?) && (a.Success? ==> SameRecords(a.value, b.value))
  {
    WalkSucceeds(options, order, log);
    WalkSucceeds(options, other, log);
    var a, b := ReadDefaults(options, order, log), ReadDefaults(options, other, log);
    if a.Success? {
      forall hash
        ensures Record(a.value, hash) == Record(b.value, hash)
      {
        if n :| n in options && options[n].hash == hash {
          WalkGivesDefault(options, order, log, n);
          WalkGivesDefault(options, other, log, n);
          assert n in order && n in other;
        } else {
          WalkLeavesOthers(options, order, log, hash);
          WalkLeavesOthers(options, other, log, hash);
        }
      }
    }
  }

  lemma {:induction false} TakerAgrees(cfg: Config, a: seq<Entry>, b: seq<Entry>, next: nat)
    requires SameRecords(a, b)
    ensures Taker(cfg, a, next) == Taker(cfg, b, next)
    decreases |cfg.positional| - next
  {
    if next < |cfg.positional| {
      TakerAgrees(cfg, a, b, next + 1);
    }
  }

  lemma {:induction false} RestAgrees(cfg: Config, words: seq<string>, p: Progress, q: Progress)
    requires p.next == q.next && p.uses == q.uses && SameRecords(p.log, q.log)
    ensures var a, b := ReadRest(cfg, words, p), ReadRest(cfg, words, q);
            && (a.Success? <==> b.Success?)
            && (a.Success? ==>
                  a.value.next == b.value.next && a.value.uses == b.value.uses && SameRecords(a.value.log, b.value.log))
            && (a.Failure? ==> a.error == b.error)
    decreases |words|
  {
    if words != [] {
      TakerAgrees(cfg, p.log, q.log, p.next);
      var offer := Offer(cfg, words[0], p.log, p.next);
      if offer.Success? {
        var (use, next) := offer.value;
        EntriesAgree(p.log, q.log, use);
        RestAgrees(cfg, words[1..], p.Used(use, next), q.Used(use, next));
        RestOne(cfg, words, p, use, next);
        RestOne(cfg, words, q, use, next);
      }
    }
  }

  lemma RestOne(cfg: Config, words: seq<string>, p: Progress, use: Use, next: nat)
    requires words != [] && Offer(cfg, words[0], p.log, p.next) == Success((use, next))
    ensures ReadRest(cfg, words, p) == ReadRest(cfg, words[1..], p.Used(use, next))
  {
  }

  lemma EntriesAgree(a: seq<Entry>, b: seq<Entry>, use: Use)
    requires SameRecords(a, b) && (use.Value? || use.Unmatched?)
    ensures SameRecords(a + use.Entries(), b + use.Entries())
  {
    match use
    case Value(word, option) =>
      RecordAppended(a, Entry(option, word, false));
      RecordAppended(b, Entry(option, word, false));
    case Unmatched(_) =>
      assert a + [] == a && b + [] == b;
  }

  /** The order in which the option map is walked does not matter: two orders give the
      same unmatched words, and for every option the same count, default and value. */
  lemma WalkOrderIsIrrelevant(cfg: Config, order: seq<string>, other: seq<string>, words: seq<string>)
    requires WellFormed(cfg.options) && WalkOrder(cfg.options, order) && WalkOrder(cfg.options, other)
    ensures var a, b := Meaning(cfg, order, words), Meaning(cfg, other, words);
            && (a.Success? <==> b.Success?)
            && (a.Success? ==> a.value.uses == b.value.uses && SameRecords(a.value.log, b.value.log))
  {
    var front := ReadFront(cfg, words, NOTHING_READ);
    if front.Success? {
      var (p, behind) := front.value;
      WalksAgree(cfg.options, order, other, p.log);
      var a, b := ReadDefaults(cfg.options, order, p.log), ReadDefaults(cfg.options, other, p.log);
      if a.Success? {
        RestAgrees(cfg, behind, p.(log := a.value), p.(log := b.value));
      }
    }
  }

  lemma {:induction false} NoDefaultsYet(log: seq<Entry>, hash: nat, key: string)
    requires AllEntriesGiven(log)
    ensures !Record(log, hash).isDefault && KeyCount(KeyValues(log, true), key) == 0
  {
    if log != [] {
      NoDefaultsYet(log[..|log| - 1], hash, key);
    }
  }

  lemma {:induction false} RestKeepsDefaults(cfg: Config, words: seq<string>, p: Progress, hash: nat)
    requires ReadRest(cfg, words, p).Success?
    ensures var after := ReadRest(cfg, words, p).value.log;
            Record(after, hash).isDefault == Record(p.log, hash).isDefault && KeyValues(after, true) == KeyValues(p.log, true)
    decreases |words|
  {
    if words != [] {
      var (use, next) := Offer(cfg, words[0], p.log, p.next).value;
      assert p.log + [] == p.log;
      if use.Value? { RecordAppended(p.log, Entry(use.option, use.word, false)); }
      RestKeepsDefaults(cfg, words[1..], p.Used(use, next), hash);
    }
  }

  /** Every option that has a default and is not given in front of the marker receives
      it exactly once, under whatever number of names it is in the map; no other
      option receives one. */
  lemma DefaultsAreGivenOnce(cfg: Config, order: seq<string>, words: seq<string>, name: string)
    requires SplitsWords(cfg.tokenise)
    requires WellFormed(cfg.options) && WalkOrder(cfg.options, order) && name in cfg.options
    requires Meaning(cfg, order, words).Success?
    ensures var option := cfg.options[name];
            var front := ReadFront(cfg, words, NOTHING_READ).value.0;
            var log := Meaning(cfg, order, words).value.log;
            var receives := option.hasDefault && Record(front.log, option.hash).count == 0;
            && Record(log, option.hash).isDefault == receives
            && KeyCount(KeyValues(log, true), option.EssentialName()) == if receives then 1 else 0
  {
    var option := cfg.options[name];
    var (front, behind) := ReadFront(cfg, words, NOTHING_READ).value;
    FrontIsLogged(cfg, words, NOTHING_READ, (front, behind));
    NoDefaultsYet(front.log, option.hash, option.EssentialName());
    WalkGivesDefault(cfg.options, order, front.log, name);
    assert name in order;
    var log := ReadDefaults(cfg.options, order, front.log).value;
    RestKeepsDefaults(cfg, behind, front.(log := log), option.hash);
  }

  /** A value behind the marker does not replace the default: the option ends up with
      both, the default first. */
  lemma LateValueFollowsDefault(cfg: Config, order: seq<string>, word: string)
    requires WellFormed(cfg.options) && WalkOrder(cfg.options, order)
    requires |cfg.positional| == 1 && cfg.positional[0] in cfg.options
    requires var o := cfg.options[cfg.positional[0]]; o.hasDefault && o.isContainer && o.accepts(word)
    requires Meaning(cfg, order, ["--", word]).Success?
    ensures var o := cfg.options[cfg.positional[0]];
            Record(Meaning(cfg, order, ["--", word]).value.log, o.hash) == Stored(1, true, [o.defaultValue, word])
  {
    var name := cfg.positional[0];
    var o := cfg.options[name];
    var front := ReadFront(cfg, ["--", word], NOTHING_READ).value;
    var walk := ReadDefaults(cfg.options, order, front.0.log);
    LateValueIsTaken(cfg, word, walk.value);
    DefaultComesFirst(cfg.options, order, name);
    RecordAppended(walk.value, Entry(o, word, false));
  }

  lemma DefaultComesFirst(options: OptionMap, order: seq<string>, name: string)
    requires WellFormed(options) && WalkOrder(options, order) && name in options && options[name].hasDefault
    requires ReadDefaults(options, order, []).Success?
    ensures var o := options[name];
            Record(ReadDefaults(options, order, []).value, o.hash) == Stored(0, true, [o.defaultValue])
  {
    WalkGivesDefault(options, order, [], name);
    assert name in order;
    assert [] + [options[name].defaultValue] == [options[name].defaultValue];
  }

  lemma LateValueIsTaken(cfg: Config, word: string, log: seq<Entry>)
    requires |cfg.positional| == 1 && cfg.positional[0] in cfg.options
    requires var o := cfg.options[cfg.positional[0]]; o.isContainer && o.accepts(word)
    ensures var front := ReadFront(cfg, ["--", word], NOTHING_READ);
            && front.Success? && front.value.0.log == []
            && ReadRest(cfg, front.value.1, front.value.0.(log := log)).Success?
            && ReadRest(cfg, front.value.1, front.value.0.(log := log)).value.log
               == log + [Entry(cfg.options[cfg.positional[0]], word, false)]
  {
    var p := NOTHING_READ.Used(Marker, 0);
    assert ["--", word][1..] == [word];
    assert [word][1..] == [];
    assert ReadFront(cfg, ["--", word], NOTHING_READ) == Success((p, [word]));
    assert Offer(cfg, word, log, 0) == Success((Value(word, cfg.options[cfg.positional[0]]), 0));
  }

  // ---------- Spellings that mean the same ----------

  /** Two readings that leave the same entries, the same unmatched words and the same
      words to read, whatever the use they made of single words. */
  ghost predicate SameMeaning(a: Result<(Progress, seq<string>), Error>, b: Result<(Progress, seq<string>), Error>) {
    match (a, b)
    case (Success((p, rest)), Success((q, rest'))) => Alike(p, q) && rest == rest'
    case (Failure(e), Failure(f)) => e == f
    case _ => false
  }

  ghost predicate Alike(p: Progress, q: Progress) {
    p.next == q.next && p.log == q.log && AllLeftOver(p.uses) == AllLeftOver(q.uses)
  }

  lemma {:induction false} AlikeReadAlike(cfg: Config, words: seq<string>, p: Progress, q: Progress)
    requires Alike(p, q)
    ensures SameMeaning(ReadFront(cfg, words, p), ReadFront(cfg, words, q))
    decreases |words|
  {
    if words != [] && words[0] != "--" {
      var read := ReadWord(cfg, words, p.log, p.next);
      if read.Success? {
        var (use, next) := read.value;
        AlikeReadAlike(cfg, words[|use.Words()|..], p.Used(use, next), q.Used(use, next));
      }
    }
  }

  predicate IsLongName(name: string) {
    |name| >= 2 && IsAlnum(name[0]) && forall i :: 0 <= i < |name| ==> IsNameChar(name[i])
  }

  lemma NameEndOf(word: string, from: nat, k: nat)
    requires from <= k <= |word| && (forall i :: from <= i < k ==> IsNameChar(word[i]))
    requires k < |word| ==> !IsNameChar(word[k])
    ensures NameEnd(word, from) == k
  {
    assert forall i :: from <= i < k ==> IsNameChar(word[i]);
  }

  lemma LongWords(name: string, value: string)
    requires IsLongName(name) && OnOneLine(value)
    ensures ParseArgument("--" + name) == Long(name, false, "")
    ensures ParseArgument("--" + name + "=" + value) == Long(name, true, value)
  {
    var bare, full := "--" + name, "--" + name + "=" + value;
    var k := |name| + 2;
    assert bare[..2] == "--" && bare[2..k] == name;
    assert full[..2] == "--" && full[2..k] == name && full[k] == '=' && full[k + 1..] == value;
    assert forall i :: 3 <= i < k ==> bare[i] == name[i - 2] && full[i] == name[i - 2];
    NameEndOf(bare, 3, k);
    NameEndOf(full, 3, k);
  }

  /** Two spellings whose first words leave the same behind. */
  lemma SameAfterStep(cfg: Config, one: seq<string>, two: seq<string>, rest: seq<string>, p: Progress, q: Progress,
                      a: Use, b: Use)
    requires q.next == p.next
    requires ReadFront(cfg, one, p) == ReadFront(cfg, rest, p.Used(a, p.next))
    requires ReadFront(cfg, two, q) == ReadFront(cfg, rest, q.Used(b, q.next))
    requires p.log + a.Entries() == q.log + b.Entries()
    requires AllLeftOver(p.uses) + a.LeftOver() == AllLeftOver(q.uses) + b.LeftOver()
    ensures SameMeaning(ReadFront(cfg, one, p), ReadFront(cfg, two, q))
  {
    AlikeReadAlike(cfg, rest, p.Used(a, p.next), q.Used(b, q.next));
  }

  lemma LongReads(cfg: Config, word: string, name: string, setValue: bool, value: string, rest: seq<string>, p: Progress)
    requires word != "--" && cfg.tokenise(word) == Long(name, setValue, if setValue then value else "")
    requires name in cfg.options && !cfg.options[name].hasImplicit
    ensures var words := [word] + if setValue then rest else [value] + rest;
            match Given(cfg.options[name], value)
            case Success(e) =>
              var use := if setValue then Flag(word, [e], []) else FlagWithValue(word, value, [e], []);
              ReadFront(cfg, words, p) == ReadFront(cfg, rest, p.Used(use, p.next))
            case Failure(error) => ReadFront(cfg, words, p) == Failure(error)
  {
    var words := [word] + if setValue then rest else [value] + rest;
    assert !setValue ==> words[1] == value && words[2..] == rest;
    assert setValue ==> words[1..] == rest;
  }

  /** `--name=value` means the same as `--name value`, for an option that takes its
      value from the next word. */
  lemma EqualsSign(cfg: Config, name: string, value: string, rest: seq<string>, p: Progress)
    requires cfg.tokenise == ParseArgument
    requires IsLongName(name) && OnOneLine(value)
    requires name in cfg.options && !cfg.options[name].hasImplicit
    ensures SameMeaning(ReadFront(cfg, ["--" + name + "=" + value] + rest, p),
                        ReadFront(cfg, ["--" + name] + ([value] + rest), p))
  {
    LongWords(name, value);
    var one, two := "--" + name + "=" + value, "--" + name;
    LongReads(cfg, one, name, true, value, rest, p);
    LongReads(cfg, two, name, false, value, rest, p);
    var given := Given(cfg.options[name], value);
    if given.Success? {
      SameAfterStep(cfg, [one] + rest, [two] + ([value] + rest), rest, p, p,
                    Flag(one, [given.value], []), FlagWithValue(two, value, [given.value], []));
    }
  }

  lemma ShortWord(letters: string)
    requires letters != "" && IsAlnum(letters[0]) && OnOneLine(letters)
    ensures ParseArgument("-" + letters) == Group(letters) && "-" + letters != "--"
  {
    var word := "-" + letters;
    assert word[0] == '-' && word[1..] == letters && word[2..] == letters[1..] && word[1] == letters[0];
  }

  /** Reading a group comes down to reading its letters. */
  lemma GroupReads(cfg: Config, letters: string, tail: seq<string>, p: Progress)
    requires cfg.tokenise("-" + letters) == Group(letters) && "-" + letters != "--"
    ensures var words := ["-" + letters] + tail;
            match ReadGroup(cfg, letters, 0, Following(words, 0), NO_LETTERS)
            case Success(g) =>
              (g.takesNext ==> |tail| > 0)
              && ReadFront(cfg, words, p) == ReadFront(cfg, tail[if g.takesNext then 1 else 0..], p.Used(WordUse(words, g), p.next))
            case Failure(error) => ReadFront(cfg, words, p) == Failure(error)
  {
    var words := ["-" + letters] + tail;
    var g := ReadGroup(cfg, letters, 0, Following(words, 0), NO_LETTERS);
    if g.Success? {
      GroupIsUse(cfg, words, letters, g.value, p);
      assert words[1..] == tail && tail[0..] == tail;
      assert |tail| > 0 ==> words[2..] == tail[1..];
    }
  }

  lemma GroupIsUse(cfg: Config, words: seq<string>, letters: string, g: GroupUse, p: Progress)
    requires words != [] && words[0] != "--" && cfg.tokenise(words[0]) == Group(letters)
    requires ReadGroup(cfg, letters, 0, Following(words, 0), NO_LETTERS) == Success(g)
    ensures g.takesNext ==> |words| > 1
    ensures ReadFront(cfg, words, p) == ReadFront(cfg, words[if g.takesNext then 2 else 1..], p.Used(WordUse(words, g), p.next))
  {
  }

  function WordUse(words: seq<string>, g: GroupUse): Use
    requires words != []
  {
    if g.takesNext then FlagWithValue(words[0], if |words| > 1 then words[1] else "", g.entries, g.strays)
    else Flag(words[0], g.entries, g.strays)
  }

  lemma OneLetter(cfg: Config, letters: string, next: Option<string>, value: string)
    requires letters != "" && [letters[0]] in cfg.options && !cfg.options[[letters[0]]].hasImplicit
    requires if |letters| == 1 then next == Some(value) else letters[1..] == value
    ensures ReadGroup(cfg, letters, 0, next, NO_LETTERS)
         == match Given(cfg.options[[letters[0]]], value)
            case Success(e) => Success(GroupUse([e], [], |letters| == 1))
            case Failure(error) => Failure(error)
  {
    var given := Given(cfg.options[[letters[0]]], value);
    if given.Success? {
      var use := GroupUse([given.value], [], |letters| == 1);
      assert ReadLetter(cfg, letters, 0, next) == Success((use, true));
      assert Join(NO_LETTERS, use) == use;
    }
  }

  /** `-xvalue` means the same as `-x value`, for such an option. */
  lemma AttachedValue(cfg: Config, c: char, value: string, rest: seq<string>, p: Progress)
    requires cfg.tokenise == ParseArgument
    requires IsAlnum(c) && OnOneLine(value) && value != ""
    requires [c] in cfg.options && !cfg.options[[c]].hasImplicit
    ensures SameMeaning(ReadFront(cfg, ["-" + ([c] + value)] + rest, p),
                        ReadFront(cfg, ["-" + [c]] + ([value] + rest), p))
  {
    var letters := [c] + value;
    var one, two := ["-" + letters] + rest, ["-" + [c]] + ([value] + rest);
    assert letters[1..] == value;
    ShortWord(letters);
    ShortWord([c]);
    OneLetter(cfg, letters, Following(one, 0), value);
    OneLetter(cfg, [c], Following(two, 0), value);
    GroupReads(cfg, letters, rest, p);
    GroupReads(cfg, [c], [value] + rest, p);
    var given := Given(cfg.options[[c]], value);
    assert rest[0..] == rest && ([value] + rest)[1..] == rest;
    if given.Success? {
      SameUse(cfg, one, two, rest, p, given.value);
    }
  }

  /** One word with its value, or two: the same entry. */
  lemma SameUse(cfg: Config, one: seq<string>, two: seq<string>, rest: seq<string>, p: Progress, e: Entry)
    requires one != [] && two != []
    requires ReadFront(cfg, one, p) == ReadFront(cfg, rest, p.Used(WordUse(one, GroupUse([e], [], false)), p.next))
    requires ReadFront(cfg, two, p) == ReadFront(cfg, rest, p.Used(WordUse(two, GroupUse([e], [], true)), p.next))
    ensures SameMeaning(ReadFront(cfg, one, p), ReadFront(cfg, two, p))
  {
    SameAfterStep(cfg, one, two, rest, p, p, WordUse(one, GroupUse([e], [], false)), WordUse(two, GroupUse([e], [], true)));
  }

  lemma {:induction false} GroupShifts(cfg: Config, c: char, s: string, i: nat, next: Option<string>, done: GroupUse)
    requires i <= |s| && !done.takesNext
    ensures ReadGroup(cfg, [c] + s, i + 1, next, done) == ReadGroup(cfg, s, i, next, done)
    decreases |s| - i
  {
    if i < |s| {
      assert ([c] + s)[i + 1] == s[i] && ([c] + s)[i + 2..] == s[i + 1..];
      var read := ReadLetter(cfg, s, i, next);
      if read.Success? && !read.value.1 {
        GroupShifts(cfg, c, s, i + 1, next, Join(done, read.value.0));
      }
    }
  }

  /** What was read in front of a group stays in front of it. */
  lemma {:induction false} GroupBehind(cfg: Config, s: string, i: nat, next: Option<string>, first: GroupUse, done: GroupUse)
    requires i <= |s| && !done.takesNext && !first.takesNext
    ensures var a := ReadGroup(cfg, s, i, next, Join(first, done));
            var b := ReadGroup(cfg, s, i, next, done);
            if b.Success? then a == Success(Join(first, b.value)) else a == b
    decreases |s| - i
  {
    if i < |s| {
      var read := ReadLetter(cfg, s, i, next);
      if read.Success? {
        JoinInTurn(first, done, read.value.0);
        if !read.value.1 { GroupBehind(cfg, s, i + 1, next, first, Join(done, read.value.0)); }
      }
    }
  }

  lemma JoinInTurn(a: GroupUse, b: GroupUse, c: GroupUse)
    ensures Join(Join(a, b), c) == Join(a, Join(b, c))
  {
    assert a.entries + b.entries + c.entries == a.entries + (b.entries + c.entries);
    assert a.strays + b.strays + c.strays == a.strays + (b.strays + c.strays);
  }

  /** The group that starts with a letter that needs no value. */
  lemma SplitLetters(cfg: Config, c: char, letters: string, next: Option<string>, e: Entry)
    requires letters != "" && [c] in cfg.options && cfg.options[[c]].hasImplicit
    requires Given(cfg.options[[c]], cfg.options[[c]].implicitValue) == Success(e)
    ensures var first := GroupUse([e], [], false);
            && ReadGroup(cfg, [c], 0, Some("-" + letters), NO_LETTERS) == Success(first)
            && ReadGroup(cfg, [c] + letters, 0, next, NO_LETTERS)
               == match ReadGroup(cfg, letters, 0, next, NO_LETTERS)
                  case Success(g) => Success(Join(first, g))
                  case Failure(error) => Failure(error)
  {
    var all, first := [c] + letters, GroupUse([e], [], false);
    assert all[0] == c && [c][0] == c;
    assert Join(NO_LETTERS, first) == first && Join(first, NO_LETTERS) == first;
    assert ReadLetter(cfg, all, 0, next) == Success((first, false));
    assert ReadLetter(cfg, [c], 0, Some("-" + letters)) == Success((first, true));
    GroupShifts(cfg, c, letters, 0, next, first);
    GroupBehind(cfg, letters, 0, next, first, NO_LETTERS);
  }

  /** `-xyz` means the same as `-x -yz`, for an option `x` with an implicit value. */
  lemma SplitGroup(cfg: Config, c: char, letters: string, rest: seq<string>, p: Progress)
    requires cfg.tokenise == ParseArgument
    requires IsAlnum(c) && letters != "" && IsAlnum(letters[0]) && OnOneLine(letters)
    requires [c] in cfg.options && cfg.options[[c]].hasImplicit && cfg.options[[c]].accepts(cfg.options[[c]].implicitValue)
    ensures SameMeaning(ReadFront(cfg, ["-" + ([c] + letters)] + rest, p),
                        ReadFront(cfg, ["-" + [c]] + (["-" + letters] + rest), p))
  {
    var e := Entry(cfg.options[[c]], cfg.options[[c]].implicitValue, false);
    var one, then_ := ["-" + ([c] + letters)] + rest, ["-" + letters] + rest;
    var two := ["-" + [c]] + then_;
    assert Following(one, 0) == Following(then_, 0) && Following(two, 0) == Some("-" + letters);
    SplitLetters(cfg, c, letters, Following(one, 0), e);
    ShortWord([c]);
    GroupReads(cfg, [c], then_, p);
    assert then_[0..] == then_;
    var q := p.Used(WordUse(two, GroupUse([e], [], false)), p.next);
    SplitRest(cfg, one, then_, c, letters, rest, p, q, GroupUse([e], [], false));
  }

  lemma SplitUses(one: seq<string>, two: seq<string>, first: GroupUse, g: GroupUse, log: seq<Entry>, left: seq<string>)
    requires one != [] && two != []
    ensures var a, b := WordUse(one, Join(first, g)), WordUse(two, g);
            && log + a.Entries() == (log + first.entries) + b.Entries()
            && left + a.LeftOver() == (left + first.strays) + b.LeftOver()
  {
    assert log + (first.entries + g.entries) == (log + first.entries) + g.entries;
    assert left + (first.strays + g.strays) == (left + first.strays) + g.strays;
  }

  /** The rest of a group whose first letter was read before. */
  lemma SplitRest(cfg: Config, one: seq<string>, then_: seq<string>, c: char, letters: string, rest: seq<string>,
                  p: Progress, q: Progress, first: GroupUse)
    requires cfg.tokenise == ParseArgument
    requires IsAlnum(c) && letters != "" && IsAlnum(letters[0]) && OnOneLine(letters)
    requires one == ["-" + ([c] + letters)] + rest && then_ == ["-" + letters] + rest
    requires q.next == p.next && q.log == p.log + first.entries && AllLeftOver(q.uses) == AllLeftOver(p.uses) + first.strays
    requires ReadGroup(cfg, [c] + letters, 0, Following(one, 0), NO_LETTERS)
          == match ReadGroup(cfg, letters, 0, Following(then_, 0), NO_LETTERS)
             case Success(g) => Success(Join(first, g))
             case Failure(error) => Failure(error)
    ensures SameMeaning(ReadFront(cfg, one, p), ReadFront(cfg, then_, q))
  {
    ShortWord([c] + letters);
    ShortWord(letters);
    GroupReads(cfg, [c] + letters, rest, p);
    GroupReads(cfg, letters, rest, q);
    var g := ReadGroup(cfg, letters, 0, Following(then_, 0), NO_LETTERS);
    if g.Success? {
      SplitUses(one, then_, first, g.value, p.log, AllLeftOver(p.uses));
      SameAfterStep(cfg, one, then_, rest[if g.value.takesNext then 1 else 0..], p, q,
                    WordUse(one, Join(first, g.value)), WordUse(then_, g.value));
    }
  }
}
