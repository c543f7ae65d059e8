/** The command line parser of cxxopts: `OptionParser::parse` and what it calls. */
module OptionParser {
  import opened Wrappers

  /** `OptionDetails` with its `Value`; `accepts` says which texts the value's own
      parser takes. The hash identifies the option. */
  datatype Details = Details(
    hash: nat,
    shortName: string,
    longNames: seq<string>,
    hasDefault: bool,
    defaultValue: string,
    hasImplicit: bool,
    implicitValue: string,
    isContainer: bool,
    accepts: string -> bool)
  {
    function EssentialName(): string {
      if longNames == [] then shortName else longNames[0]
    }

    predicate HasName(n: string) {
      n != "" && (n == shortName || n in longNames)
    }
  }

  type OptionMap = map<string, Details>

  /** Every name leads to one option, and to the same option as its other names. */
  ghost predicate WellFormed(options: OptionMap) {
    && (forall n :: n in options ==> options[n].HasName(n) && options[n].EssentialName() != "")
    && (forall n, m :: n in options && options[n].HasName(m) ==> m in options && options[m] == options[n])
    && (forall n, m :: n in options && m in options && options[n].hash == options[m].hash ==> options[n] == options[m])
  }

  /** The table after the given names have been added for one option. */
  function WithNames(options: OptionMap, names: seq<string>, details: Details): OptionMap {
    if names == [] then options
    else WithNames(options, names[..|names| - 1], details)[names[|names| - 1] := details]
  }

  /** An option's names in the order in which they are added. */
  function NameList(details: Details): seq<string> {
    (if details.shortName == "" then [] else [details.shortName]) + details.longNames
  }

  ghost predicate AllNew(options: OptionMap, names: seq<string>) {
    && (forall k :: 0 <= k < |names| ==> names[k] !in options)
    && (forall i, j :: 0 <= i < j < |names| ==> names[i] != names[j])
  }

  lemma {:induction false} WithNamesLookup(options: OptionMap, names: seq<string>, details: Details, n: string)
    ensures n in WithNames(options, names, details) <==> n in options || n in names
    ensures n in WithNames(options, names, details) ==>
              WithNames(options, names, details)[n] == if n in names then details else options[n]
  {
    if names != [] {
      var front := names[..|names| - 1];
      WithNamesLookup(options, front, details, n);
      assert n in names <==> n in front || n == names[|names| - 1];
    }
  }

  lemma NameListIsNames(details: Details)
    requires "" !in details.longNames
    ensures forall n :: n in NameList(details) <==> details.HasName(n)
  {
  }

  /** An option with a name and a hash of its own. */
  ghost predicate IsProper(options: OptionMap, details: Details) {
    && "" !in details.longNames && details.EssentialName() != ""
    && forall n :: n in options ==> options[n].hash != details.hash
  }

  lemma WithNamesWellFormed(options: OptionMap, details: Details)
    requires WellFormed(options) && AllNew(options, NameList(details)) && IsProper(options, details)
    ensures WellFormed(WithNames(options, NameList(details), details))
  {
    var names := NameList(details);
    var table := WithNames(options, names, details);
    NameListIsNames(details);
    forall n
      ensures n in table <==> n in options || n in names
      ensures n in table ==> table[n] == if n in names then details else options[n]
    {
      WithNamesLookup(options, names, details, n);
    }
    forall n, m | n in table && table[n].HasName(m)
      ensures m in table && table[m] == table[n]
    {
      if n !in names { OtherName(options, names, n, m); }
    }
  }

  lemma OtherName(options: OptionMap, names: seq<string>, n: string, m: string)
    requires WellFormed(options) && AllNew(options, names) && n in options && options[n].HasName(m)
    ensures m in options && options[m] == options[n] && m !in names
  {
  }

  /** The table of options while it is being filled. */
  class Options {
    var options: OptionMap

    constructor ()
      ensures options == map[] && WellFormed(options)
    {
      options := map[];
    }

    /** `add_one_option`: one more name; an existing one is an error. */
    method AddOneOption(name: string, details: Details) returns (ok: bool)
      modifies this
      ensures ok <==> name !in old(options)
      ensures options == if ok then old(options)[name := details] else old(options)
    {
      ok := name !in options;
      if ok {
        options := options[name := details];
      }
    }

    /** The names of one option, one after the other, until one is taken. The names in
        front of that one stay entered. */
    method AddNames(names: seq<string>, details: Details) returns (ok: bool, ghost entered: nat)
      modifies this
      ensures ok <==> AllNew(old(options), names)
      ensures entered <= |names| && options == WithNames(old(options), names[..entered], details)
      ensures ok ==> entered == |names| && options == WithNames(old(options), names, details)
      ensures !ok ==> entered < |names| && AllNew(old(options), names[..entered]) && names[entered] in options
    {
      ghost var before := options;
      entered := 0;
      for n := 0 to |names|
        invariant entered == n && AllNew(before, names[..n])
        invariant options == WithNames(before, names[..n], details)
      {
        ghost var front := names[..n];
        assert names[..n + 1] == front + [names[n]] && names[..n + 1][..n] == front;
        WithNamesLookup(before, front, details, names[n]);
        ok := AddOneOption(names[n], details);
        if !ok {
          assert names[n] in before || names[n] in front;
          return;
        }
        entered := n + 1;
      }
      assert names[..|names|] == names;
      ok := true;
    }

    /** `add_option` succeeds exactly if all names of the option are new. */
    method AddOption(details: Details) returns (ok: bool, ghost entered: nat)
      modifies this
      ensures ok <==> AllNew(old(options), NameList(details))
      ensures entered <= |NameList(details)| && options == WithNames(old(options), NameList(details)[..entered], details)
      ensures ok ==> options == WithNames(old(options), NameList(details), details)
      ensures !ok ==>
                && entered < |NameList(details)| && AllNew(old(options), NameList(details)[..entered])
                && NameList(details)[entered] in options
      ensures ok && WellFormed(old(options)) && IsProper(old(options), details) ==> WellFormed(options)
    {
      ok, entered := AddNames(NameList(details), details);
      if ok && WellFormed(old(options)) && IsProper(old(options), details) {
        WithNamesWellFormed(old(options), details);
      }
    }
  }

  /** What a parser is made with. `tokenise` is `ParseArgument` below; nothing about the
      parser depends on more of it than `SplitsWords`. */
  datatype Config = Config(
    options: OptionMap,
    positional: seq<string>,
    allowUnrecognised: bool,
    tokenise: string -> Token)

  datatype Error =
    | MissingArgument(name: string)
    | NoSuchOption(name: string)
    | InvalidSyntax(word: string)
    | IncorrectArgumentType(text: string)

  datatype KeyValue = KeyValue(key: string, value: string)

  // ---------- Tokens ----------

  datatype Token =
    | NotAFlag
    | Long(name: string, setValue: bool, value: string)
    | Group(letters: string)

  predicate IsAlnum(c: char) {
    '0' <= c <= '9' || 'a' <= c <= 'z' || 'A' <= c <= 'Z'
  }

  predicate IsNameChar(c: char) {
    IsAlnum(c) || c == '-' || c == '_' || c == '.'
  }

  predicate OnOneLine(s: string) {
    '\n' !in s && '\r' !in s
  }

  /** Where the run of name characters that covers `from` ends. */
  function NameEnd(s: string, from: nat): (k: nat)
    requires from <= |s|
    ensures from <= k <= |s|
    ensures forall j :: from <= j < k ==> IsNameChar(s[j])
    ensures k < |s| ==> !IsNameChar(s[k])
    decreases |s| - from
  {
    if from == |s| || !IsNameChar(s[from]) then from else NameEnd(s, from + 1)
  }

  /** The regular expression `--(name)(=(value))?|-(letters)`. */
  function ParseArgument(word: string): Token {
    if |word| >= 4 && word[..2] == "--" && IsAlnum(word[2]) then
      var k := NameEnd(word, 3);
      if k == 3 then NotAFlag
      else if k == |word| then Long(word[2..k], false, "")
      else if word[k] == '=' && OnOneLine(word[k + 1..]) then Long(word[2..k], true, word[k + 1..])
      else NotAFlag
    else if |word| >= 2 && word[0] == '-' && IsAlnum(word[1]) && OnOneLine(word[2..]) then Group(word[1..])
    else NotAFlag
  }

  /** A word that is matched has a name, or letters, in it. */
  ghost predicate SplitsWords(tokenise: string -> Token) {
    forall word :: match tokenise(word)
                   case NotAFlag => true
                   case Long(name, _, _) => name != ""
                   case Group(letters) => letters != ""
  }

  lemma ParseArgumentSplitsWords()
    ensures SplitsWords(ParseArgument)
  {
    forall word
      ensures match ParseArgument(word)
              case NotAFlag => true
              case Long(name, _, _) => name != ""
              case Group(letters) => letters != ""
    {
      if |word| >= 4 { assert |word[2..NameEnd(word, 3)]| > 0; }
    }
  }

  // ---------- What a parse records ----------

  datatype Entry = Entry(option: Details, text: string, isDefault: bool)

  /** `OptionValue`: how often the option was given, whether it got its default,
      and the texts its value has parsed, in order. */
  datatype Stored = Stored(count: nat, isDefault: bool, texts: seq<string>)

  const NOTHING_STORED := Stored(0, false, [])

  /** What the entries of a log leave behind for the option with this hash. */
  function Record(log: seq<Entry>, hash: nat): Stored {
    if log == [] then NOTHING_STORED
    else
      var before := Record(log[..|log| - 1], hash);
      var e := log[|log| - 1];
      if e.option.hash != hash then before
      else if e.isDefault then before.(isDefault := true, texts := before.texts + [e.text])
      else before.(count := before.count + 1, texts := before.texts + [e.text])
  }

  function KeyValues(log: seq<Entry>, defaults: bool): seq<KeyValue> {
    if log == [] then []
    else
      var before := KeyValues(log[..|log| - 1], defaults);
      var e := log[|log| - 1];
      if e.isDefault == defaults then before + [KeyValue(e.option.EssentialName(), e.text)] else before
  }

  function KeyCount(kvs: seq<KeyValue>, key: string): nat {
    if kvs == [] then 0
    else KeyCount(kvs[..|kvs| - 1], key) + if kvs[|kvs| - 1].key == key then 1 else 0
  }

  ghost predicate IsOption(options: OptionMap, option: Details) {
    exists n :: n in options && options[n] == option
  }

  /** The log speaks of options of the map only. */
  ghost predicate LogOf(log: seq<Entry>, options: OptionMap) {
    forall i :: 0 <= i < |log| ==> IsOption(options, log[i].option)
  }

  /** Within a well-formed map, the essential name identifies the option. */
  lemma EssentialNameIdentifies(options: OptionMap, n: string, m: string)
    requires WellFormed(options) && n in options && m in options
    ensures options[n].EssentialName() == options[m].EssentialName() <==> options[n].hash == options[m].hash
  {
    var a, b := options[n].EssentialName(), options[m].EssentialName();
    assert options[n].HasName(a) && options[m].HasName(b);
    assert options[a] == options[n] && options[b] == options[m];
  }

  /** An option's count is the number of its entries in the key/value list, and its
      default flag tells whether it is in the list of defaults. */
  lemma {:induction false} CountsAreEntries(options: OptionMap, log: seq<Entry>, name: string)
    requires WellFormed(options) && LogOf(log, options) && name in options
    ensures var option := options[name];
            && Record(log, option.hash).count == KeyCount(KeyValues(log, false), option.EssentialName())
            && (Record(log, option.hash).isDefault <==> KeyCount(KeyValues(log, true), option.EssentialName()) > 0)
  {
    if log != [] {
      var front, e := log[..|log| - 1], log[|log| - 1];
      CountsAreEntries(options, front, name);
      SameNameSameHash(options, e.option, name);
      var kvs := KeyValues(front, e.isDefault);
      KeyCountOfAppended(kvs, KeyValue(e.option.EssentialName(), e.text), options[name].EssentialName());
    }
  }

  lemma SameNameSameHash(options: OptionMap, option: Details, name: string)
    requires WellFormed(options) && IsOption(options, option) && name in options
    ensures option.EssentialName() == options[name].EssentialName() <==> option.hash == options[name].hash
  {
    var n :| n in options && options[n] == option;
    EssentialNameIdentifies(options, n, name);
  }

  lemma KeyCountOfAppended(kvs: seq<KeyValue>, kv: KeyValue, key: string)
    ensures KeyCount(kvs + [kv], key) == KeyCount(kvs, key) + if kv.key == key then 1 else 0
  {
    assert (kvs + [kv])[..|kvs|] == kvs;
  }

  // ---------- How the words of a command line are used ----------

  datatype Use =
    | Value(word: string, option: Details)                              // taken by a positional option
    | Unmatched(word: string)
    | Marker                                                            // the word `--`
    | Flag(word: string, entries: seq<Entry>, strays: seq<string>)       // complete in itself
    | FlagWithValue(word: string, value: string, entries: seq<Entry>, strays: seq<string>)
  {
    function Words(): seq<string> {
      match this
      case Value(w, _) => [w]
      case Unmatched(w) => [w]
      case Marker => ["--"]
      case Flag(w, _, _) => [w]
      case FlagWithValue(w, v, _, _) => [w, v]
    }

    function Entries(): seq<Entry> {
      match this
      case Value(w, option) => [Entry(option, w, false)]
      case Unmatched(_) => []
      case Marker => []
      case Flag(_, es, _) => es
      case FlagWithValue(_, _, es, _) => es
    }

    /** What the use adds to the list of unmatched arguments. */
    function LeftOver(): seq<string> {
      match this
      case Value(_, _) => []
      case Unmatched(w) => [w]
      case Marker => []
      case Flag(_, _, strays) => strays
      case FlagWithValue(_, _, _, strays) => strays
    }
  }

  /** The uses made of the words so far, the latest last. */
  datatype Trace = Nothing | Then(before: Trace, use: Use)

  function AllWords(t: Trace): seq<string> {
    if t.Nothing? then [] else AllWords(t.before) + t.use.Words()
  }

  function AllEntries(t: Trace): seq<Entry> {
    if t.Nothing? then [] else AllEntries(t.before) + t.use.Entries()
  }

  function AllLeftOver(t: Trace): seq<string> {
    if t.Nothing? then [] else AllLeftOver(t.before) + t.use.LeftOver()
  }

  // ---------- The grammar of command lines ----------

  function Given(option: Details, text: string): Result<Entry, Error> {
    if option.accepts(text) then Success(Entry(option, text, false)) else Failure(IncorrectArgumentType(text))
  }

  /** The value of an option that ends its word: its implicit value, or the next word. */
  function LastOfWord(option: Details, name: string, next: Option<string>): (r: Result<(Entry, bool), Error>)
    ensures r.Success? && r.value.1 ==> next.Some? && r.value.0.text == next.value
  {
    if option.hasImplicit then
      var e :- Given(option, option.implicitValue);
      Success((e, false))
    else if next.None? then Failure(MissingArgument(name))
    else
      var e :- Given(option, next.value);
      Success((e, true))
  }

  datatype GroupUse = GroupUse(entries: seq<Entry>, strays: seq<string>, takesNext: bool)

  /** Letter `i` of a word such as `-xvf`, and whether it ends the word. */
  function ReadLetter(cfg: Config, s: string, i: nat, next: Option<string>): (r: Result<(GroupUse, bool), Error>)
    requires i < |s|
    ensures r.Success? && r.value.0.takesNext ==>
              r.value.1 && next.Some? && r.value.0.entries != []
              && r.value.0.entries[|r.value.0.entries| - 1].text == next.value
    ensures r.Success? && !cfg.allowUnrecognised ==> r.value.0.strays == [] && r.value.0.entries != []
  {
    var name := [s[i]];
    if name !in cfg.options then
      if cfg.allowUnrecognised then Success((GroupUse([], ["-" + name], false), false))
      else Failure(NoSuchOption(name))
    else
      var option := cfg.options[name];
      if i + 1 == |s| then
        var last :- LastOfWord(option, name, next);
        Success((GroupUse([last.0], [], last.1), true))
      else if option.hasImplicit then
        var e :- Given(option, option.implicitValue);
        Success((GroupUse([e], [], false), false))
      else
        var e :- Given(option, s[i + 1..]);
        Success((GroupUse([e], [], false), true))
  }

  function Join(a: GroupUse, b: GroupUse): GroupUse {
    GroupUse(a.entries + b.entries, a.strays + b.strays, b.takesNext)
  }

  const NO_LETTERS := GroupUse([], [], false)

  /** A group of short options, from its letter `i` on; `done` is the part before. */
  function ReadGroup(cfg: Config, s: string, i: nat, next: Option<string>, done: GroupUse): (r: Result<GroupUse, Error>)
    requires i <= |s| && !done.takesNext
    ensures r.Success? && r.value.takesNext ==>
              next.Some? && r.value.entries != []
              && r.value.entries[|r.value.entries| - 1].text == next.value
    ensures r.Success? && !cfg.allowUnrecognised && done.strays == [] ==>
              r.value.strays == [] && (i < |s| || done.entries != [] ==> r.value.entries != [])
    decreases |s| - i
  {
    if i == |s| then Success(done)
    else
      var (use, stop) :- ReadLetter(cfg, s, i, next);
      if stop then Success(Join(done, use))
      else ReadGroup(cfg, s, i + 1, next, Join(done, use))
  }

  /** Which positional option takes the next word, if one is left. */
  function Taker(cfg: Config, log: seq<Entry>, next: nat): (r: Result<Option<nat>, Error>)
    ensures r.Success? && r.value.Some? ==>
              next <= r.value.value < |cfg.positional| && cfg.positional[r.value.value] in cfg.options
    decreases |cfg.positional| - next
  {
    if next >= |cfg.positional| then Success(None)
    else if cfg.positional[next] !in cfg.options then Failure(NoSuchOption(cfg.positional[next]))
    else
      var option := cfg.options[cfg.positional[next]];
      if option.isContainer || Record(log, option.hash).count == 0 then Success(Some(next))
      else Taker(cfg, log, next + 1)
  }

  /** One word offered to the positional options. */
  function Offer(cfg: Config, word: string, log: seq<Entry>, next: nat): (r: Result<(Use, nat), Error>)
    ensures r.Success? ==> r.value.1 <= |cfg.positional|
  {
    var taker :- Taker(cfg, log, next);
    match taker
    case None => Success((Unmatched(word), |cfg.positional|))
    case Some(i) =>
      var option := cfg.options[cfg.positional[i]];
      var e :- Given(option, word);
      Success((Value(word, option), if option.isContainer then i else i + 1))
  }

  /** The word behind the current one. */
  function Following(words: seq<string>, current: nat): Option<string> {
    if current + 1 < |words| then Some(words[current + 1]) else None
  }

  /** A word that is not a flag: an error if it looks like one, else a value. */
  function ReadFree(cfg: Config, word: string, log: seq<Entry>, next: nat): (r: Result<(Use, nat), Error>)
    ensures r.Success? ==> r.value.1 <= |cfg.positional| && r.value.0.Words() == [word]
  {
    if |word| >= 2 && word[0] == '-' && !cfg.allowUnrecognised then Failure(InvalidSyntax(word))
    else Offer(cfg, word, log, next)
  }

  function ReadLetters(cfg: Config, word: string, letters: string, following: Option<string>): (r: Result<Use, Error>)
    ensures r.Success? ==> r.value.Words() == [word] || (following.Some? && r.value.Words() == [word, following.value])
  {
    var g :- ReadGroup(cfg, letters, 0, following, NO_LETTERS);
    Success(if g.takesNext then FlagWithValue(word, following.value, g.entries, g.strays)
            else Flag(word, g.entries, g.strays))
  }

  function ReadLong(cfg: Config, word: string, name: string, setValue: bool, value: string, following: Option<string>)
    : (r: Result<Use, Error>)
    ensures r.Success? ==> r.value.Words() == [word] || (following.Some? && r.value.Words() == [word, following.value])
  {
    if name !in cfg.options then
      if cfg.allowUnrecognised then Success(Unmatched(word)) else Failure(NoSuchOption(name))
    else if setValue then
      var e :- Given(cfg.options[name], value);
      Success(Flag(word, [e], []))
    else
      var last :- LastOfWord(cfg.options[name], name, following);
      Success(if last.1 then FlagWithValue(word, following.value, [last.0], []) else Flag(word, [last.0], []))
  }

  /** One word, or two when an option takes the next word as its value. */
  function ReadWord(cfg: Config, words: seq<string>, log: seq<Entry>, next: nat): (r: Result<(Use, nat), Error>)
    requires |words| > 0
    ensures r.Success? && next <= |cfg.positional| ==> r.value.1 <= |cfg.positional|
    ensures r.Success? ==> 1 <= |r.value.0.Words()| <= |words| && r.value.0.Words() <= words
  {
    var word := words[0];
    var following := Following(words, 0);
    match cfg.tokenise(word)
    case NotAFlag => ReadFree(cfg, word, log, next)
    case Group(letters) =>
      var use :- ReadLetters(cfg, word, letters, following);
      Success((use, next))
    case Long(name, setValue, value) =>
      var use :- ReadLong(cfg, word, name, setValue, value, following);
      Success((use, next))
  }

  /** How far a parse has come: the position in the positional list, the entries
      recorded, and the use made of the words so far. */
  datatype Progress = Progress(next: nat, log: seq<Entry>, uses: Trace) {
    function Used(use: Use, next': nat): Progress {
      Progress(next', log + use.Entries(), Then(uses, use))
    }
  }

  const NOTHING_READ := Progress(0, [], Nothing)

  /** The words up to and including the marker `--`, and the words behind it. */
  function ReadFront(cfg: Config, words: seq<string>, p: Progress): (r: Result<(Progress, seq<string>), Error>)
    ensures r.Success? && p.next <= |cfg.positional| ==> r.value.0.next <= |cfg.positional|
    decreases |words|
  {
    if words == [] then Success((p, []))
    else if words[0] == "--" then Success((p.Used(Marker, p.next), words[1..]))
    else
      var (use, next') :- ReadWord(cfg, words, p.log, p.next);
      ReadFront(cfg, words[|use.Words()|..], p.Used(use, next'))
  }

  /** The words behind the marker: all of them are offered to the positional options. */
  function ReadRest(cfg: Config, words: seq<string>, p: Progress): Result<Progress, Error>
    decreases |words|
  {
    if words == [] then Success(p)
    else
      var (use, next') :- Offer(cfg, words[0], p.log, p.next);
      ReadRest(cfg, words[1..], p.Used(use, next'))
  }

  /** An option that is to receive its default: it has one, and was not given. */
  predicate Lacks(option: Details, log: seq<Entry>) {
    var store := Record(log, option.hash);
    option.hasDefault && store.count == 0 && !store.isDefault
  }

  /** The log after a walk over the option map, in any order, that hands out defaults. */
  function ReadDefaults(options: OptionMap, order: seq<string>, log: seq<Entry>): Result<seq<Entry>, Error>
    requires forall n <- order :: n in options
  {
    if order == [] then Success(log)
    else
      var option := options[order[0]];
      if !Lacks(option, log) then ReadDefaults(options, order[1..], log)
      else if !option.accepts(option.defaultValue) then Failure(IncorrectArgumentType(option.defaultValue))
      else ReadDefaults(options, order[1..], log + [Entry(option, option.defaultValue, true)])
  }

  /** An order in which the option map can be walked. */
  ghost predicate WalkOrder(options: OptionMap, order: seq<string>) {
    && (forall n :: n in order <==> n in options)
    && |order| == |options|
  }

  /** The meaning of a whole command line (without the program's own name). */
  function Meaning(cfg: Config, order: seq<string>, words: seq<string>): Result<Progress, Error>
    requires forall n <- order :: n in cfg.options
  {
    var (front, behind) :- ReadFront(cfg, words, NOTHING_READ);
    var log :- ReadDefaults(cfg.options, order, front.log);
    ReadRest(cfg, behind, front.(log := log))
  }

  // ---------- The parser object ----------

  function Lookup(parsed: map<nat, Stored>, hash: nat): Stored {
    if hash in parsed then parsed[hash] else NOTHING_STORED
  }

  lemma RecordAppended(log: seq<Entry>, e: Entry)
    ensures forall hash :: Record(log + [e], hash) ==
              var before := Record(log, hash);
              if e.option.hash != hash then before
              else if e.isDefault then before.(isDefault := true, texts := before.texts + [e.text])
              else before.(count := before.count + 1, texts := before.texts + [e.text])
    ensures forall d :: KeyValues(log + [e], d) ==
              KeyValues(log, d) + if e.isDefault == d then [KeyValue(e.option.EssentialName(), e.text)] else []
  {
    assert (log + [e])[..|log|] == log;
  }

  /** The names of the options in a walk lead to these options. */
  ghost predicate NamesClosed(options: OptionMap, order: seq<string>) {
    forall j :: 0 <= j < |order| ==>
      && order[j] in options
      && (order[j] == options[order[j]].shortName || order[j] in options[order[j]].longNames)
      && forall m :: m == options[order[j]].shortName || m in options[order[j]].longNames ==>
           m == "" || (m in options && options[m].hash == options[order[j]].hash)
  }

  lemma WalkIsClosed(options: OptionMap, order: seq<string>)
    requires WellFormed(options) && WalkOrder(options, order)
    ensures NamesClosed(options, order)
  {
    forall j | 0 <= j < |order|
      ensures order[j] in options
      ensures var option := options[order[j]];
              && (order[j] == option.shortName || order[j] in option.longNames)
              && forall m :: m == option.shortName || m in option.longNames ==>
                   m == "" || (m in options && options[m].hash == option.hash)
    {
      assert order[j] in order;
      var option := options[order[j]];
      assert option.HasName(order[j]);
      forall m | m == option.shortName || m in option.longNames
        ensures m == "" || (m in options && options[m].hash == option.hash)
      {
        assert m != "" ==> option.HasName(m);
      }
    }
  }

  /** One word further into the command line. */
  lemma FrontStep(cfg: Config, argv: seq<string>, current: nat, p: Progress)
    returns (read: Result<(Use, nat), Error>, behind: seq<string>, after: Progress)
    requires current < |argv| && argv[current] != "--" && p.next <= |cfg.positional|
    ensures read == ReadWord(cfg, argv[current..], p.log, p.next)
    ensures read.Failure? ==> ReadFront(cfg, argv[current..], p) == Failure(read.error)
    ensures read.Success? ==>
              var use := read.value.0;
              && 1 <= |use.Words()| <= |argv| - current
              && after.next == read.value.1 <= |cfg.positional|
              && after.log == p.log + use.Entries()
              && AllLeftOver(after.uses) == AllLeftOver(p.uses) + use.LeftOver()
              && behind == argv[current + |use.Words()|..]
              && ReadFront(cfg, argv[current..], p) == ReadFront(cfg, behind, after)
  {
    var words := argv[current..];
    read, after, behind := ReadWord(cfg, words, p.log, p.next), p, [];
    if read.Success? {
      after := p.Used(read.value.0, read.value.1);
      behind := argv[current + |read.value.0.Words()|..];
      assert words[|read.value.0.Words()|..] == behind;
    }
  }

  /** The end of the words, or the marker, ends the front. */
  lemma FrontEnds(cfg: Config, argv: seq<string>, current: nat, p: Progress)
    requires current <= |argv| && p.next <= |cfg.positional|
    requires current < |argv| ==> argv[current] == "--"
    ensures var r := ReadFront(cfg, argv[current..], p);
            && r.Success? && r.value.0.next == p.next && r.value.0.log == p.log
            && AllLeftOver(r.value.0.uses) == AllLeftOver(p.uses)
            && r.value.1 == argv[if current < |argv| then current + 1 else current..]
  {
    if current < |argv| {
      assert argv[current..][1..] == argv[current + 1..];
    }
  }

  /** One word further behind the marker. A word that no positional option takes
      ends the walk through their list. */
  lemma RestStep(cfg: Config, argv: seq<string>, current: nat, p: Progress) returns (read: Result<(Use, nat), Error>)
    requires current < |argv| && p.next <= |cfg.positional|
    ensures read == Offer(cfg, argv[current], p.log, p.next)
    ensures read.Failure? ==> ReadRest(cfg, argv[current..], p) == Failure(read.error)
    ensures read.Success? ==>
              var use, next := read.value.0, read.value.1;
              if use.Value? then
                && next <= |cfg.positional| && use.LeftOver() == []
                && ReadRest(cfg, argv[current..], p) == ReadRest(cfg, argv[current + 1..], p.Used(use, next))
                && AllLeftOver(p.Used(use, next).uses) == AllLeftOver(p.uses)
              else
                && next == |cfg.positional| && use.Entries() == []
                && ReadRest(cfg, argv[current..], p) == ReadRest(cfg, argv[current..], p.(next := next))
  {
    var words := argv[current..];
    read := Offer(cfg, words[0], p.log, p.next);
    if read.Success? {
      assert words[1..] == argv[current + 1..];
    }
  }

  class Parser {
    const cfg: Config
    var parsed: map<nat, Stored>
    var sequential: seq<KeyValue>
    var defaults: seq<KeyValue>
    var keys: map<string, nat>
    ghost var log: seq<Entry>

    /** The parser's state is what the entries so far leave behind. */
    ghost predicate Valid()
      reads this
    {
      && (forall hash :: Lookup(parsed, hash) == Record(log, hash))
      && sequential == KeyValues(log, false)
      && defaults == KeyValues(log, true)
    }

    constructor (cfg: Config)
      ensures Valid() && log == [] && this.cfg == cfg && keys == map[]
    {
      this.cfg := cfg;
      parsed, sequential, defaults, keys := map[], [], [], map[];
      log := [];
    }

    /** `parse_option`: one more value for an option. */
    method ParseOption(option: Details, arg: string) returns (r: Result<(), Error>)
      requires Valid()
      modifies this`parsed, this`sequential, this`log
      ensures Valid()
      ensures match Given(option, arg)
              case Success(e) => r.Success? && log == old(log) + [e]
              case Failure(error) => r == Failure(error)
    {
      var store := Lookup(parsed, option.hash);
      if !option.accepts(arg) {
        return Failure(IncorrectArgumentType(arg));
      }
      RecordAppended(log, Entry(option, arg, false));
      parsed := parsed[option.hash := store.(count := store.count + 1, texts := store.texts + [arg])];
      sequential := sequential + [KeyValue(option.EssentialName(), arg)];
      log := log + [Entry(option, arg, false)];
      return Success(());
    }

    /** `parse_default`. */
    method ParseDefault(option: Details) returns (r: Result<(), Error>)
      requires Valid()
      modifies this`parsed, this`defaults, this`log
      ensures Valid()
      ensures if option.accepts(option.defaultValue)
              then r.Success? && log == old(log) + [Entry(option, option.defaultValue, true)]
              else r == Failure(IncorrectArgumentType(option.defaultValue))
    {
      var store := Lookup(parsed, option.hash);
      if !option.accepts(option.defaultValue) {
        return Failure(IncorrectArgumentType(option.defaultValue));
      }
      RecordAppended(log, Entry(option, option.defaultValue, true));
      parsed := parsed[option.hash := store.(isDefault := true, texts := store.texts + [option.defaultValue])];
      defaults := defaults + [KeyValue(option.EssentialName(), option.defaultValue)];
      log := log + [Entry(option, option.defaultValue, true)];
      return Success(());
    }

    /** `checked_parse_arg`: `current` moves when the next word is the value. */
    method CheckedParseArg(argv: seq<string>, current: nat, option: Details, name: string)
      returns (r: Result<nat, Error>)
      requires Valid() && current < |argv|
      modifies this`parsed, this`sequential, this`log
      ensures Valid()
      ensures match LastOfWord(option, name, Following(argv, current))
              case Success(last) => r == Success(if last.1 then current + 1 else current) && log == old(log) + [last.0]
              case Failure(error) => r == Failure(error)
    {
      if current + 1 >= |argv| {
        if option.hasImplicit {
          var _ :- ParseOption(option, option.implicitValue);
          return Success(current);
        } else {
          return Failure(MissingArgument(name));
        }
      } else {
        if option.hasImplicit {
          var _ :- ParseOption(option, option.implicitValue);
          return Success(current);
        } else {
          var _ :- ParseOption(option, argv[current + 1]);
          return Success(current + 1);
        }
      }
    }

    /** `consume_positional`: whether the word was taken, and the new position in
        the positional list. */
    method ConsumePositional(a: string, start: nat) returns (r: Result<(bool, nat), Error>)
      requires Valid() && start <= |cfg.positional|
      modifies this`parsed, this`sequential, this`log
      ensures Valid()
      ensures match Offer(cfg, a, old(log), start)
              case Success((use, next)) =>
                r == Success((use.Value?, next)) && log == old(log) + use.Entries()
              case Failure(error) => r == Failure(error)
    {
      var next := start;
      while next != |cfg.positional|
        invariant next <= |cfg.positional|
        invariant Valid() && log == old(log)
        invariant Taker(cfg, log, start) == Taker(cfg, log, next)
        decreases |cfg.positional| - next
      {
        if cfg.positional[next] in cfg.options {
          var option := cfg.options[cfg.positional[next]];
          if !option.isContainer {
            var result := Lookup(parsed, option.hash);
            parsed := parsed[option.hash := result];
            if result.count == 0 {
              var _ :- ParseOption(option, a);
              return Success((true, next + 1));
            }
            next := next + 1;
            continue;
          }
          var _ :- ParseOption(option, a);
          return Success((true, next));
        }
        return Failure(NoSuchOption(cfg.positional[next]));
      }
      return Success((false, next));
    }

    /** One turn of the loop over the letters of a group. */
    method ParseLetter(argv: seq<string>, current: nat, s: string, i: nat, unmatched: seq<string>)
      returns (r: Result<(nat, bool, seq<string>), Error>)
      requires Valid() && current < |argv| && i < |s|
      modifies this`parsed, this`sequential, this`log
      ensures Valid()
      ensures match ReadLetter(cfg, s, i, Following(argv, current))
              case Success((use, stop)) =>
                && r.Success? && r.value.0 == (if use.takesNext then current + 1 else current)
                && r.value.1 == stop && r.value.2 == unmatched + use.strays
                && log == old(log) + use.entries
              case Failure(error) => r == Failure(error)
    {
      var name := [s[i]];
      if name !in cfg.options {
        if cfg.allowUnrecognised {
          return Success((current, false, unmatched + ["-" + name]));
        }
        return Failure(NoSuchOption(name));
      }
      assert unmatched + [] == unmatched;
      var option := cfg.options[name];
      if i + 1 == |s| {
        var at :- CheckedParseArg(argv, current, option, name);
        return Success((at, true, unmatched));
      } else if option.hasImplicit {
        var _ :- ParseOption(option, option.implicitValue);
        return Success((current, false, unmatched));
      } else {
        var _ :- ParseOption(option, s[i + 1..]);
        return Success((current, true, unmatched));
      }
    }

    /** A turn of that loop, as progress in reading the group. */
    method GroupTurn(argv: seq<string>, current: nat, s: string, i: nat, left: seq<string>,
                     ghost base: seq<Entry>, ghost unmatched: seq<string>, ghost done: GroupUse)
      returns (r: Result<(nat, bool, seq<string>), Error>, ghost after: GroupUse)
      requires Valid() && current < |argv| && i < |s| && !done.takesNext
      requires log == base + done.entries && left == unmatched + done.strays
      modifies this`parsed, this`sequential, this`log
      ensures Valid()
      ensures var whole := ReadGroup(cfg, s, i, Following(argv, current), done);
              if r.Failure? then whole == Failure(r.error)
              else
                && log == base + after.entries && r.value.2 == unmatched + after.strays
                && r.value.0 == (if after.takesNext then current + 1 else current)
                && if r.value.1 then whole == Success(after)
                   else !after.takesNext && whole == ReadGroup(cfg, s, i + 1, Following(argv, current), after)
    {
      after := done;
      ghost var use := ReadLetter(cfg, s, i, Following(argv, current));
      r := ParseLetter(argv, current, s, i, left);
      if r.Success? {
        after := Join(done, use.value.0);
      }
    }

    /** The loop over the letters of a group of short options. */
    method ParseGroup(argv: seq<string>, current: nat, s: string, unmatched: seq<string>)
      returns (r: Result<(nat, seq<string>), Error>)
      requires Valid() && current < |argv|
      modifies this`parsed, this`sequential, this`log
      ensures Valid()
      ensures match ReadGroup(cfg, s, 0, Following(argv, current), NO_LETTERS)
              case Success(g) =>
                && r.Success? && r.value.0 == (if g.takesNext then current + 1 else current)
                && r.value.1 == unmatched + g.strays
                && log == old(log) + g.entries
              case Failure(error) => r == Failure(error)
    {
      var left, i := unmatched, 0;
      ghost var base, done := log, NO_LETTERS;
      while i != |s|
        invariant i <= |s| && !done.takesNext
        invariant Valid() && log == base + done.entries && left == unmatched + done.strays
        invariant ReadGroup(cfg, s, 0, Following(argv, current), NO_LETTERS) == ReadGroup(cfg, s, i, Following(argv, current), done)
        decreases |s| - i
      {
        var turn;
        turn, done := GroupTurn(argv, current, s, i, left, base, unmatched, done);
        if turn.Failure? {
          return Failure(turn.error);
        }
        left := turn.value.2;
        if turn.value.1 {
          return Success((turn.value.0, left));
        }
        i := i + 1;
      }
      return Success((current, left));
    }

    /** A group of short options as one word. */
    method ParseLetters(argv: seq<string>, current: nat, letters: string, unmatched: seq<string>)
      returns (r: Result<(nat, seq<string>), Error>)
      requires Valid() && current < |argv|
      modifies this`parsed, this`sequential, this`log
      ensures Valid()
      ensures match ReadLetters(cfg, argv[current], letters, Following(argv, current))
              case Success(use) =>
                && r.Success? && r.value.0 == current + |use.Words()| && r.value.1 == unmatched + use.LeftOver()
                && log == old(log) + use.Entries()
              case Failure(error) => r == Failure(error)
    {
      var group :- ParseGroup(argv, current, letters, unmatched);
      return Success((group.0 + 1, group.1));
    }

    /** A long option, with or without `=value`. */
    method ParseLong(argv: seq<string>, current: nat, name: string, setValue: bool, value: string, unmatched: seq<string>)
      returns (r: Result<(nat, seq<string>), Error>)
      requires Valid() && current < |argv|
      modifies this`parsed, this`sequential, this`log
      ensures Valid()
      ensures match ReadLong(cfg, argv[current], name, setValue, value,
                             Following(argv, current))
              case Success(use) =>
                && r.Success? && r.value.0 == current + |use.Words()| && r.value.1 == unmatched + use.LeftOver()
                && log == old(log) + use.Entries()
              case Failure(error) => r == Failure(error)
    {
      if name !in cfg.options {
        if cfg.allowUnrecognised {
          return Success((current + 1, unmatched + [argv[current]]));
        }
        return Failure(NoSuchOption(name));
      }
      assert unmatched + [] == unmatched;
      var option := cfg.options[name];
      if setValue {
        var _ :- ParseOption(option, value);
        return Success((current + 1, unmatched));
      } else {
        var at :- CheckedParseArg(argv, current, option, name);
        return Success((at + 1, unmatched));
      }
    }

    /** A word that is not a flag. */
    method ParseFree(word: string, next: nat, unmatched: seq<string>) returns (r: Result<(nat, seq<string>), Error>)
      requires Valid() && next <= |cfg.positional|
      modifies this`parsed, this`sequential, this`log
      ensures Valid()
      ensures match ReadFree(cfg, word, old(log), next)
              case Success((use, next')) =>
                && r.Success? && r.value.0 == next' && r.value.1 == unmatched + use.LeftOver()
                && log == old(log) + use.Entries()
              case Failure(error) => r == Failure(error)
    {
      if |word| >= 2 && word[0] == '-' {
        if !cfg.allowUnrecognised {
          return Failure(InvalidSyntax(word));
        }
      }
      assert unmatched + [] == unmatched;
      var taken :- ConsumePositional(word, next);
      return Success((taken.1, if taken.0 then unmatched else unmatched + [word]));
    }

    /** One word of the command line, and the value it may take from the next. */
    method ParseWord(argv: seq<string>, current: nat, next: nat, unmatched: seq<string>, ghost read: Result<(Use, nat), Error>)
      returns (r: Result<(nat, nat, seq<string>), Error>)
      requires Valid() && 1 <= current < |argv| && next <= |cfg.positional|
      requires read == ReadWord(cfg, argv[current..], log, next)
      modifies this`parsed, this`sequential, this`log
      ensures Valid()
      ensures match read
              case Success((use, next')) =>
                && r.Success? && r.value.0 == current + |use.Words()| && r.value.1 == next'
                && r.value.2 == unmatched + use.LeftOver()
                && log == old(log) + use.Entries()
              case Failure(error) => r == Failure(error)
    {
      assert Following(argv[current..], 0) == Following(argv, current);
      match cfg.tokenise(argv[current])
      case NotAFlag =>
        var free :- ParseFree(argv[current], next, unmatched);
        return Success((current + 1, free.0, free.1));
      case Group(letters) =>
        var group :- ParseLetters(argv, current, letters, unmatched);
        return Success((group.0, next, group.1));
      case Long(name, setValue, value) =>
        var long :- ParseLong(argv, current, name, setValue, value, unmatched);
        return Success((long.0, next, long.1));
    }

    /** The walk over the option map that gives every option its default. */
    method ApplyDefaults(order: seq<string>) returns (r: Result<(), Error>)
      requires Valid() && forall n <- order :: n in cfg.options
      modifies this`parsed, this`defaults, this`log
      ensures Valid()
      ensures match ReadDefaults(cfg.options, order, old(log))
              case Success(after) => r.Success? && log == after
              case Failure(error) => r == Failure(error)
    {
      for i := 0 to |order|
        invariant Valid()
        invariant ReadDefaults(cfg.options, order, old(log)) == ReadDefaults(cfg.options, order[i..], log)
      {
        var option := cfg.options[order[i]];
        var store := Lookup(parsed, option.hash);
        parsed := parsed[option.hash := store];
        assert order[i..][1..] == order[i + 1..];
        if option.hasDefault {
          if store.count == 0 && !store.isDefault {
            var _ :- ParseDefault(option);
          }
        }
      }
      return Success(());
    }

    /** No name but the names of options leads anywhere (the empty name is the short
        name of an option that has none). */
    ghost predicate KeysSound()
      reads this
    {
      forall n :: n in keys ==> n == "" || (n in cfg.options && keys[n] == cfg.options[n].hash)
    }

    /** All names of an option lead to one record. */
    ghost predicate NamesResolved()
      reads this
    {
      KeysSound() && forall n :: n in cfg.options ==> n in keys && cfg.options[n].hash in parsed
    }

    /** The names of one option, in `finalise_aliases`. */
    method AliasOption(detail: Details)
      requires Valid() && KeysSound()
      requires forall m :: m == detail.shortName || m in detail.longNames ==>
                 m == "" || (m in cfg.options && cfg.options[m].hash == detail.hash)
      modifies this`keys, this`parsed
      ensures Valid() && KeysSound()
      ensures old(keys).Keys <= keys.Keys && detail.shortName in keys && forall m :: m in detail.longNames ==> m in keys
      ensures parsed.Keys == old(parsed).Keys + {detail.hash}
    {
      keys := keys[detail.shortName := detail.hash];
      for k := 0 to |detail.longNames|
        invariant Valid() && KeysSound() && parsed == old(parsed)
        invariant old(keys).Keys <= keys.Keys && detail.shortName in keys
        invariant forall j :: 0 <= j < k ==> detail.longNames[j] in keys
      {
        keys := keys[detail.longNames[k] := detail.hash];
      }
      parsed := parsed[detail.hash := Lookup(parsed, detail.hash)];
    }

    /** `finalise_aliases`: afterwards all names of an option lead to its record. */
    method FinaliseAliases(order: seq<string>)
      requires Valid() && keys == map[] && NamesClosed(cfg.options, order)
      modifies this`keys, this`parsed
      ensures Valid() && KeysSound()
      ensures forall j :: 0 <= j < |order| ==> order[j] in keys && cfg.options[order[j]].hash in parsed
    {
      for i := 0 to |order|
        invariant Valid() && KeysSound()
        invariant forall j :: 0 <= j < i ==> order[j] in keys && cfg.options[order[j]].hash in parsed
      {
        AliasOption(cfg.options[order[i]]);
      }
    }

    /** One turn of the main loop. */
    method FrontTurn(argv: seq<string>, current: nat, next: nat, unmatched: seq<string>, ghost p: Progress)
      returns (r: Result<(nat, nat, seq<string>), Error>, ghost after: Progress)
      requires Valid() && 1 <= current < |argv| && argv[current] != "--"
      requires log == p.log && unmatched == AllLeftOver(p.uses) && next == p.next <= |cfg.positional|
      modifies this`parsed, this`sequential, this`log
      ensures Valid()
      ensures r.Failure? ==> ReadFront(cfg, argv[current..], p) == Failure(r.error)
      ensures r.Success? ==>
                && current < r.value.0 <= |argv|
                && log == after.log && r.value.2 == AllLeftOver(after.uses) && r.value.1 == after.next <= |cfg.positional|
                && ReadFront(cfg, argv[current..], p) == ReadFront(cfg, argv[r.value.0..], after)
    {
      ghost var read, behind;
      read, behind, after := FrontStep(cfg, argv, current, p);
      r := ParseWord(argv, current, next, unmatched, read);
      assert r.Success? ==> argv[r.value.0..] == behind;
    }

    /** The main loop of `parse`, up to the marker. */
    method ParseFront(argv: seq<string>) returns (r: Result<(nat, nat, seq<string>), Error>)
      requires Valid() && log == [] && |argv| > 0
      modifies this`parsed, this`sequential, this`log
      ensures Valid()
      ensures match ReadFront(cfg, argv[1..], NOTHING_READ)
              case Success(f) =>
                && r.Success? && r.value.0 <= |argv| && argv[r.value.0..] == f.1 && r.value.1 == f.0.next
                && r.value.2 == AllLeftOver(f.0.uses) && log == f.0.log
              case Failure(error) => r == Failure(error)
    {
      var current: nat, next: nat := 1, 0;
      var unmatched: seq<string> := [];
      ghost var p := NOTHING_READ;
      while current != |argv| && argv[current] != "--"
        invariant 1 <= current <= |argv| && next == p.next <= |cfg.positional|
        invariant Valid() && log == p.log && unmatched == AllLeftOver(p.uses)
        invariant ReadFront(cfg, argv[1..], NOTHING_READ) == ReadFront(cfg, argv[current..], p)
        decreases |argv| - current
      {
        var turn;
        turn, p := FrontTurn(argv, current, next, unmatched, p);
        if turn.Failure? {
          return turn;
        }
        current, next, unmatched := turn.value.0, turn.value.1, turn.value.2;
      }
      FrontEnds(cfg, argv, current, p);
      if current != |argv| {
        current := current + 1;
      }
      return Success((current, next, unmatched));
    }

    /** One turn of the loop behind the marker: whether the word was taken. */
    method RestTurn(argv: seq<string>, current: nat, next: nat, ghost p: Progress)
      returns (r: Result<(bool, nat), Error>, ghost after: Progress)
      requires Valid() && current < |argv| && log == p.log && next == p.next <= |cfg.positional|
      modifies this`parsed, this`sequential, this`log
      ensures Valid()
      ensures r.Failure? ==> ReadRest(cfg, argv[current..], p) == Failure(r.error)
      ensures r.Success? ==>
                && log == after.log && r.value.1 == after.next <= |cfg.positional|
                && AllLeftOver(after.uses) == AllLeftOver(p.uses)
                && (!r.value.0 ==> after.next == |cfg.positional|)
                && ReadRest(cfg, argv[current..], p) == ReadRest(cfg, argv[if r.value.0 then current + 1 else current..], after)
    {
      after := p;
      ghost var read := RestStep(cfg, argv, current, p);
      r := ConsumePositional(argv[current], next);
      if r.Success? {
        after := if r.value.0 then p.Used(read.value.0, r.value.1) else p.(next := r.value.1);
      }
    }

    /** Offers the words behind the marker until the positional list is used up. */
    method OfferRest(argv: seq<string>, start: nat, ghost p0: Progress, nextPositional: nat)
      returns (r: Result<nat, Error>, ghost p: Progress)
      requires Valid() && start <= |argv| && nextPositional == p0.next <= |cfg.positional| && log == p0.log
      modifies this`parsed, this`sequential, this`log
      ensures Valid()
      ensures r.Failure? ==> ReadRest(cfg, argv[start..], p0) == Failure(r.error)
      ensures r.Success? ==>
                && start <= r.value <= |argv| && log == p.log && AllLeftOver(p.uses) == AllLeftOver(p0.uses)
                && p.next <= |cfg.positional| && (r.value < |argv| ==> p.next == |cfg.positional|)
                && ReadRest(cfg, argv[start..], p0) == ReadRest(cfg, argv[r.value..], p)
    {
      var current: nat, next: nat := start, nextPositional;
      p := p0;
      while current < |argv|
        invariant start <= current <= |argv| && next == p.next <= |cfg.positional|
        invariant Valid() && log == p.log && AllLeftOver(p.uses) == AllLeftOver(p0.uses)
        invariant ReadRest(cfg, argv[start..], p0) == ReadRest(cfg, argv[current..], p)
      {
        var turn;
        turn, p := RestTurn(argv, current, next, p);
        if turn.Failure? {
          return Failure(turn.error), p;
        }
        next := turn.value.1;
        if !turn.value.0 {
          break;
        }
        current := current + 1;
      }
      return Success(current), p;
    }

    /** The words that no positional option took. */
    static method CollectRest(argv: seq<string>, start: nat, left: seq<string>) returns (unmatched: seq<string>)
      requires start <= |argv|
      ensures unmatched == left + argv[start..]
    {
      unmatched := left;
      var current := start;
      while current != |argv|
        invariant start <= current <= |argv|
        invariant unmatched + argv[current..] == left + argv[start..]
      {
        unmatched := unmatched + [argv[current]];
        current := current + 1;
      }
      assert argv[|argv|..] == [];
    }

    /** The words behind the marker. */
    method ParseRest(argv: seq<string>, start: nat, left: seq<string>, ghost p0: Progress, nextPositional: nat)
      returns (r: Result<seq<string>, Error>)
      requires Valid() && start <= |argv| && nextPositional == p0.next <= |cfg.positional|
      requires log == p0.log && left == AllLeftOver(p0.uses)
      modifies this`parsed, this`sequential, this`log
      ensures Valid()
      ensures match ReadRest(cfg, argv[start..], p0)
              case Success(p) => r.Success? && r.value == AllLeftOver(p.uses) && log == p.log
              case Failure(error) => r == Failure(error)
    {
      var offered;
      ghost var p;
      offered, p := OfferRest(argv, start, p0, nextPositional);
      if offered.Failure? {
        return Failure(offered.error);
      }
      RestUnmatched(cfg, argv[offered.value..], p);
      var unmatched := CollectRest(argv, offered.value, left);
      return Success(unmatched);
    }

    /** Everything in `parse` before `finalise_aliases`. */
    method ParseWords(argv: seq<string>, order: seq<string>) returns (r: Result<seq<string>, Error>)
      requires Valid() && log == [] && |argv| > 0 && forall n <- order :: n in cfg.options
      modifies this`parsed, this`sequential, this`defaults, this`log
      ensures Valid()
      ensures match Meaning(cfg, order, argv[1..])
              case Success(p) => r.Success? && r.value == AllLeftOver(p.uses) && log == p.log
              case Failure(error) => r == Failure(error)
    {
      var front :- ParseFront(argv);
      ghost var p := ReadFront(cfg, argv[1..], NOTHING_READ).value.0;
      var _ :- ApplyDefaults(order);
      r := ParseRest(argv, front.0, front.2, p.(log := log), front.1);
    }

    /** `OptionParser::parse`. On success the result is the list of unmatched arguments. */
    method Parse(argv: seq<string>, order: seq<string>) returns (r: Result<seq<string>, Error>)
      requires Valid() && log == [] && keys == map[] && |argv| > 0
      requires WellFormed(cfg.options) && WalkOrder(cfg.options, order)
      modifies this
      ensures Valid()
      ensures match Meaning(cfg, order, argv[1..])
              case Success(p) => r.Success? && r.value == AllLeftOver(p.uses) && log == p.log && NamesResolved()
              case Failure(error) => r == Failure(error)
    {
      WalkIsClosed(cfg.options, order);
      r := ParseWords(argv, order);
      if r.Success? {
        FinaliseAliases(order);
      }
    }
  }

  /** Once the positional options are used up, every further word is unmatched. */
  lemma {:induction false} RestUnmatched(cfg: Config, words: seq<string>, p: Progress)
    requires p.next <= |cfg.positional| && (words != [] ==> p.next == |cfg.positional|)
    ensures var r := ReadRest(cfg, words, p);
            r.Success? && AllLeftOver(r.value.uses) == AllLeftOver(p.uses) + words && r.value.log == p.log
    decreases |words|
  {
    if words != [] {
      assert p.log + [] == p.log;
      RestUnmatched(cfg, words[1..], p.Used(Unmatched(words[0]), p.next));
    }
  }
}
