/** The token store of the web authentication service: a bounded map with expiry and
    garbage collection. The specification is a ledger that is never collected. */
module TokenStore {
  import opened Sets

  type Token = string

  /** A clock that never goes back; any amount of time may pass between readings. */
  class Clock {
    var now: int

    method Read() returns (t: int)
      modifies this
      ensures t == now >= old(now)
    {
      t :| t >= now;
      now := t;
    }
  }

  /** The entries that a clean-up at this time leaves alone. */
  function Unexpired(entries: map<Token, int>, now: int): map<Token, int> {
    map t | t in entries && now <= entries[t] :: entries[t]
  }

  /** `entries` is the ledger, except for expired tokens that were collected. */
  ghost predicate Collected(entries: map<Token, int>, ledger: map<Token, int>, now: int) {
    && (forall t :: t in entries ==> t in ledger && entries[t] == ledger[t])
    && (forall t :: t in ledger && now <= ledger[t] ==> t in entries)
  }

  /** A collected map and its ledger have the same unexpired tokens, now and later. */
  lemma SameUnexpired(entries: map<Token, int>, ledger: map<Token, int>, now: int, later: int)
    requires Collected(entries, ledger, now) && now <= later
    ensures Unexpired(entries, later) == Unexpired(ledger, later)
  {
  }

  lemma FewerUnexpiredLater(entries: map<Token, int>, now: int, later: int)
    requires now <= later
    ensures |Unexpired(entries, later)| <= |Unexpired(entries, now)|
  {
    SmallerMap(Unexpired(entries, later), Unexpired(entries, now));
  }

  class Store {
    var tokens: map<Token, int>
    const maxTokens: nat
    const clock: Clock
    /** For every token saved and not removed, when it expires. */
    ghost var ledger: map<Token, int>

    ghost predicate Valid()
      reads this, clock
    {
      |tokens| <= maxTokens && Collected(tokens, ledger, clock.now)
    }

    constructor (maxTokens: nat, clock: Clock)
      ensures Valid() && ledger == map[] && this.maxTokens == maxTokens && this.clock == clock
    {
      this.maxTokens := maxTokens;
      this.clock := clock;
      tokens, ledger := map[], map[];
    }

    /** `CleanupTokens`. The clock is read anew for every token. */
    method CleanupTokens()
      requires Valid()
      modifies this`tokens, clock
      ensures Valid() && clock.now >= old(clock.now)
      ensures Unexpired(old(tokens), clock.now).Keys <= tokens.Keys <= Unexpired(old(tokens), old(clock.now)).Keys
    {
      var todo := tokens.Keys;
      while todo != {}
        invariant Valid() && clock.now >= old(clock.now) && todo <= tokens.Keys <= old(tokens).Keys
        invariant forall t :: t in tokens ==> tokens[t] == old(tokens)[t]
        invariant forall t :: t in old(tokens) && clock.now <= old(tokens)[t] ==> t in tokens
        invariant forall t :: t in tokens && t !in todo ==> old(clock.now) <= tokens[t]
        decreases todo
      {
        var token :| token in todo;
        ghost var before := tokens;
        var expiration := tokens[token];
        todo := todo - {token};
        var now := clock.Read();
        if now > expiration {
          tokens := tokens - {token};
          SmallerMap(tokens, before);
        }
      }
    }

    /** `SaveToken`. A full store is cleaned up once before it gives up. */
    method SaveToken(token: Token, validity: int) returns (ok: bool)
      requires Valid()
      modifies this`tokens, this`ledger, clock
      ensures Valid() && clock.now >= old(clock.now)
      ensures ledger == if ok then old(ledger)[token := clock.now + validity] else old(ledger)
      // It fails if the store is full of unexpired tokens when the clean-up is over,
      // and only if it was when it began.
      ensures |Unexpired(old(ledger), clock.now)| >= maxTokens ==> !ok
      ensures !ok ==> |Unexpired(old(ledger), old(clock.now))| >= maxTokens
    {
      SameUnexpired(tokens, ledger, clock.now, clock.now);
      SmallerMap(Unexpired(tokens, clock.now), tokens);
      if |tokens| == maxTokens {
        CleanupTokens();
        SmallerMap(tokens, Unexpired(old(tokens), old(clock.now)));
        SameUnexpired(tokens, ledger, clock.now, clock.now);
        SmallerMap(Unexpired(tokens, clock.now), tokens);
        if |tokens| == maxTokens {
          return false;
        }
      }
      FewerUnexpiredThan(clock.now);
      Insert(token, validity);
      return true;
    }

    lemma FewerUnexpiredThan(now: int)
      requires Valid() && |tokens| < maxTokens && now == clock.now
      ensures forall later :: now <= later ==> |Unexpired(ledger, later)| < maxTokens
    {
      SameUnexpired(tokens, ledger, now, now);
      SmallerMap(Unexpired(tokens, now), tokens);
      forall later | now <= later
        ensures |Unexpired(ledger, later)| < maxTokens
      {
        FewerUnexpiredLater(ledger, now, later);
      }
    }

    /** Stores a token, for which there is room. */
    method Insert(token: Token, validity: int)
      requires Valid() && |tokens| < maxTokens
      modifies this`tokens, this`ledger, clock
      ensures Valid() && clock.now >= old(clock.now)
      ensures ledger == old(ledger)[token := clock.now + validity]
    {
      var now := clock.Read();
      GrowsByOne(tokens, token, now + validity);
      tokens := tokens[token := now + validity];
      ledger := ledger[token := now + validity];
    }

    static lemma GrowsByOne(m: map<Token, int>, t: Token, v: int)
      ensures |m[t := v]| <= |m| + 1
    {
      if t in m {
        assert m[t := v].Keys == m.Keys;
      } else {
        assert m[t := v].Keys == m.Keys + {t};
      }
    }

    /** `ValidateToken`: true exactly for a token that was saved less than its validity
        ago and not removed since. */
    method ValidateToken(token: Token) returns (valid: bool)
      requires Valid()
      modifies clock
      ensures Valid() && clock.now >= old(clock.now)
      ensures valid <==> token != "" && token in ledger && clock.now < ledger[token]
    {
      var now := clock.Read();
      if token != "" {
        if token in tokens && now < tokens[token] {
          return true;
        }
      }
      return false;
    }

    /** `RemoveToken`. */
    method RemoveToken(token: Token) returns (found: bool)
      requires Valid()
      modifies this`tokens, this`ledger
      ensures Valid()
      ensures ledger == if token == "" then old(ledger) else old(ledger) - {token}
      ensures found ==> token != "" && token in old(ledger)
      ensures token != "" && token in old(ledger) && clock.now <= old(ledger)[token] ==> found
    {
      if token != "" {
        ghost var before := tokens;
        ledger := ledger - {token};
        if token in tokens {
          tokens := tokens - {token};
          SmallerMap(tokens, before);
          return true;
        }
      }
      return false;
    }
  }

  // ---------- Clean-ups cannot be observed ----------

  datatype Op =
    | Save(token: Token, validity: int)
    | Validate(token: Token)
    | Remove(token: Token)
    | Cleanup

  /** An operation at a time. */
  datatype Timed = Timed(now: int, op: Op)

  /** What the service does, one operation at one time, and what the caller learns. */
  function Step(tokens: map<Token, int>, max: nat, e: Timed): (map<Token, int>, bool) {
    match e.op
    case Save(t, validity) =>
      var cleaned := if |tokens| == max then Unexpired(tokens, e.now) else tokens;
      if |cleaned| == max then (cleaned, false) else (cleaned[t := e.now + validity], true)
    case Validate(t) => (tokens, t != "" && t in tokens && e.now < tokens[t])
    case Remove(t) => if t != "" && t in tokens then (tokens - {t}, true) else (tokens, false)
    case Cleanup => (Unexpired(tokens, e.now), true)
  }

  /** The same without any collection: the store is full when it has that many tokens
      that have not expired. */
  function LedgerStep(ledger: map<Token, int>, max: nat, e: Timed): (map<Token, int>, bool) {
    match e.op
    case Save(t, validity) =>
      if |Unexpired(ledger, e.now)| >= max then (ledger, false) else (ledger[t := e.now + validity], true)
    case Validate(t) => (ledger, t != "" && t in ledger && e.now < ledger[t])
    case Remove(t) => if t != "" && t in ledger then (ledger - {t}, true) else (ledger, false)
    case Cleanup => (ledger, true)
  }

  function Run(tokens: map<Token, int>, max: nat, es: seq<Timed>): (map<Token, int>, seq<bool>) {
    if es == [] then (tokens, [])
    else
      var (front, answers) := Run(tokens, max, es[..|es| - 1]);
      var (after, answer) := Step(front, max, es[|es| - 1]);
      (after, answers + [answer])
  }

  function LedgerRun(ledger: map<Token, int>, max: nat, es: seq<Timed>): (map<Token, int>, seq<bool>) {
    if es == [] then (ledger, [])
    else
      var (front, answers) := LedgerRun(ledger, max, es[..|es| - 1]);
      var (after, answer) := LedgerStep(front, max, es[|es| - 1]);
      (after, answers + [answer])
  }

  ghost predicate ClockRuns(es: seq<Timed>) {
    forall i, j :: 0 <= i < j < |es| ==> es[i].now <= es[j].now
  }

  /** The one answer that collection can change: whether an expired token was found
      when it was removed. */
  predicate Tells(ledger: map<Token, int>, e: Timed) {
    e.op.Remove? && e.op.token != "" && e.op.token in ledger ==> e.now <= ledger[e.op.token]
  }

  /** A removal answers alike whatever was collected before it, if and only if its token
      has not expired. */
  lemma RemovalTellsExactly(ledger: map<Token, int>, max: nat, e: Timed)
    requires e.op.Remove?
    ensures Tells(ledger, e) <==>
              forall tokens :: Collected(tokens, ledger, e.now) ==> Step(tokens, max, e).1 == LedgerStep(ledger, max, e).1
  {
    var cleaned := Unexpired(ledger, e.now);
    assert Collected(cleaned, ledger, e.now);
  }

  lemma SavesAgree(tokens: map<Token, int>, ledger: map<Token, int>, max: nat, before: int, e: Timed)
    requires Collected(tokens, ledger, before) && before <= e.now && |tokens| <= max && e.op.Save?
    ensures var (tokens', answer) := Step(tokens, max, e);
            var (ledger', expected) := LedgerStep(ledger, max, e);
            Collected(tokens', ledger', e.now) && |tokens'| <= max && answer == expected
  {
    SameUnexpired(tokens, ledger, before, e.now);
    SmallerMap(Unexpired(tokens, e.now), tokens);
    var cleaned := if |tokens| == max then Unexpired(tokens, e.now) else tokens;
    Store.GrowsByOne(cleaned, e.op.token, e.now + e.op.validity);
  }

  lemma StepsAgree(tokens: map<Token, int>, ledger: map<Token, int>, max: nat, before: int, e: Timed)
    requires Collected(tokens, ledger, before) && before <= e.now && |tokens| <= max
    ensures var (tokens', answer) := Step(tokens, max, e);
            var (ledger', expected) := LedgerStep(ledger, max, e);
            && Collected(tokens', ledger', e.now) && |tokens'| <= max
            && (Tells(ledger, e) ==> answer == expected)
  {
    match e.op
    case Save(_, _) =>
      SavesAgree(tokens, ledger, max, before, e);
    case Remove(t) =>
      SmallerMap(tokens - {t}, tokens);
    case Validate(_) =>
    case Cleanup =>
      SmallerMap(Unexpired(tokens, e.now), tokens);
  }

  /** Over every run, with clean-ups anywhere in it, the store never holds more than the
      maximum and answers as the ledger does: a token is valid exactly from when it is
      saved until it expires or is removed, and saving fails exactly when the maximum of
      unexpired tokens exists. */
  lemma {:induction false} CleanupIsInvisible(max: nat, es: seq<Timed>)
    requires ClockRuns(es)
    ensures var (tokens, answers) := Run(map[], max, es);
            var (ledger, expected) := LedgerRun(map[], max, es);
            && |tokens| <= max
            && (es != [] ==> Collected(tokens, ledger, es[|es| - 1].now))
            && AnswersAgree(max, es, answers, expected)
  {
    if es != [] {
      var front, e := es[..|es| - 1], es[|es| - 1];
      CleanupIsInvisible(max, front);
      var (tokens, answers) := Run(map[], max, front);
      var (ledger, expected) := LedgerRun(map[], max, front);
      StepsAgree(tokens, ledger, max, if front == [] then e.now else front[|front| - 1].now, e);
      AnswersStillAgree(max, es, answers, expected);
    }
  }

  /** The answers are the expected ones, wherever the ledger tells what to answer. */
  ghost predicate AnswersAgree(max: nat, es: seq<Timed>, answers: seq<bool>, expected: seq<bool>) {
    && |answers| == |expected| == |es|
    && forall i :: 0 <= i < |es| && Tells(LedgerRun(map[], max, es[..i]).0, es[i]) ==> answers[i] == expected[i]
  }

  lemma AnswersStillAgree(max: nat, es: seq<Timed>, answers: seq<bool>, expected: seq<bool>)
    requires es != [] && AnswersAgree(max, es[..|es| - 1], answers, expected)
    ensures forall i :: 0 <= i < |es| - 1 && Tells(LedgerRun(map[], max, es[..i]).0, es[i]) ==> answers[i] == expected[i]
  {
    var front := es[..|es| - 1];
    assert forall i :: 0 <= i < |front| ==> front[..i] == es[..i] && front[i] == es[i];
  }

  function WithoutCleanups(es: seq<Timed>): seq<Timed> {
    if es == [] then []
    else
      var front, e := WithoutCleanups(es[..|es| - 1]), es[|es| - 1];
      if e.op.Cleanup? then front else front + [e]
  }

  /** The ledger is the same with and without the clean-ups of a run. */
  lemma {:induction false} LedgerIgnoresCleanups(max: nat, es: seq<Timed>)
    ensures LedgerRun(map[], max, es).0 == LedgerRun(map[], max, WithoutCleanups(es)).0
  {
    if es != [] {
      var front, e := es[..|es| - 1], es[|es| - 1];
      LedgerIgnoresCleanups(max, front);
      if !e.op.Cleanup? {
        var fewer := WithoutCleanups(front);
        var all := WithoutCleanups(es);
        assert all == fewer + [e] && all[..|all| - 1] == fewer && all[|all| - 1] == e;
      }
    }
  }

  lemma {:induction false} ClockRunsWithoutCleanups(es: seq<Timed>)
    requires ClockRuns(es)
    ensures ClockRuns(WithoutCleanups(es))
    ensures WithoutCleanups(es) != [] ==>
              es != [] && WithoutCleanups(es)[|WithoutCleanups(es)| - 1].now <= es[|es| - 1].now
  {
    if es != [] {
      ClockRunsWithoutCleanups(es[..|es| - 1]);
    }
  }

  /** Where an event of a run is in the run without its clean-ups. */
  lemma {:induction false} PlaceWithoutCleanups(es: seq<Timed>, i: nat)
    requires i < |es| && !es[i].op.Cleanup?
    ensures var few, j := WithoutCleanups(es), |WithoutCleanups(es[..i])|;
            j < |few| && few[j] == es[i] && few[..j] == WithoutCleanups(es[..i])
  {
    var front := es[..|es| - 1];
    if i < |front| {
      PlaceWithoutCleanups(front, i);
      assert front[..i] == es[..i];
    } else {
      assert front == es[..i];
    }
  }

  /** A run with clean-ups gives the answers of the same run without them, wherever no
      expired token is removed. */
  lemma AnswersWithoutCleanups(max: nat, es: seq<Timed>, i: nat)
    requires ClockRuns(es) && i < |es| && !es[i].op.Cleanup? && Tells(LedgerRun(map[], max, es[..i]).0, es[i])
    ensures var few, j := WithoutCleanups(es), |WithoutCleanups(es[..i])|;
            && i < |Run(map[], max, es).1| && j < |Run(map[], max, few).1|
            && Run(map[], max, es).1[i] == Run(map[], max, few).1[j]
  {
    var few, j := WithoutCleanups(es), |WithoutCleanups(es[..i])|;
    PlaceWithoutCleanups(es, i);
    ClockRunsWithoutCleanups(es);
    LedgerIgnoresCleanups(max, es[..i]);
    CleanupIsInvisible(max, es);
    CleanupIsInvisible(max, few);
    LedgerAnswer(max, es, i);
    LedgerAnswer(max, few, j);
  }

  lemma {:induction false} LedgerAnswer(max: nat, es: seq<Timed>, i: nat)
    requires i < |es|
    ensures |LedgerRun(map[], max, es).1| == |es|
    ensures LedgerRun(map[], max, es).1[i] == LedgerStep(LedgerRun(map[], max, es[..i]).0, max, es[i]).1
  {
    AnswerPerEvent(max, es);
    var front := es[..|es| - 1];
    AnswerPerEvent(max, front);
    if i < |front| {
      LedgerAnswer(max, front, i);
      assert front[..i] == es[..i];
    } else {
      assert front == es[..i];
    }
  }

  /** Event `i` of the run is a save of the token that was accepted, and the token was
      neither saved again nor removed since. */
  ghost predicate SavedLast(max: nat, es: seq<Timed>, token: Token, i: nat) {
    && i < |es| == |LedgerRun(map[], max, es).1|
    && es[i].op.Save? && es[i].op.token == token && LedgerRun(map[], max, es).1[i]
    && forall j :: i < j < |es| ==>
         && (es[j].op.Save? && es[j].op.token == token ==> !LedgerRun(map[], max, es).1[j])
         && (es[j].op.Remove? && es[j].op.token == token ==> token == "")
  }

  lemma {:induction false} AnswerPerEvent(max: nat, es: seq<Timed>)
    ensures |LedgerRun(map[], max, es).1| == |es|
  {
    if es != [] { AnswerPerEvent(max, es[..|es| - 1]); }
  }

  lemma SavedLastInFront(max: nat, es: seq<Timed>, token: Token, i: nat)
    requires es != [] && i < |es| - 1
    ensures var e := es[|es| - 1];
            SavedLast(max, es, token, i) <==>
              && SavedLast(max, es[..|es| - 1], token, i)
              && (e.op.Save? && e.op.token == token ==> !LedgerStep(LedgerRun(map[], max, es[..|es| - 1]).0, max, e).1)
              && (e.op.Remove? && e.op.token == token ==> token == "")
  {
    var front := es[..|es| - 1];
    AnswerPerEvent(max, es);
    AnswerPerEvent(max, front);
    var all, some := LedgerRun(map[], max, es).1, LedgerRun(map[], max, front).1;
    assert forall j :: 0 <= j < |front| ==> front[j] == es[j] && some[j] == all[j];
  }

  /** What the ledger says: a token is in it exactly if it was saved and neither saved
      again nor removed since, and then expires its validity after it was saved. */
  lemma {:induction false} LedgerMeaning(max: nat, es: seq<Timed>, token: Token)
    ensures var ledger := LedgerRun(map[], max, es).0;
            && (token in ledger ==> exists i: nat :: SavedLast(max, es, token, i))
            && forall i: nat :: SavedLast(max, es, token, i) ==> token in ledger && ledger[token] == es[i].now + es[i].op.validity
  {
    if es != [] {
      var front, e := es[..|es| - 1], es[|es| - 1];
      var n := |front|;
      LedgerMeaning(max, front, token);
      AnswerPerEvent(max, es);
      AnswerPerEvent(max, front);
      var before, ledger := LedgerRun(map[], max, front).0, LedgerRun(map[], max, es).0;
      if token in ledger && !SavedLast(max, es, token, n) {
        assert token in before;
        var i: nat :| SavedLast(max, front, token, i);
        SavedLastInFront(max, es, token, i);
        assert SavedLast(max, es, token, i);
      }
      forall i: nat | SavedLast(max, es, token, i)
        ensures token in ledger && ledger[token] == es[i].now + es[i].op.validity
      {
        if i < n { SavedLastInFront(max, es, token, i); }
      }
    }
  }

  /** The token was saved before the k-th event, not removed since, and is to expire then. */
  ghost predicate ExpiresAt(max: nat, es: seq<Timed>, k: nat, token: Token, at: int) {
    k <= |es| && exists i: nat :: SavedLast(max, es[..k], token, i) && at == es[i].now + es[i].op.validity
  }

  lemma LedgerExpires(max: nat, es: seq<Timed>, k: nat, token: Token, at: int)
    requires k <= |es|
    ensures ExpiresAt(max, es, k, token, at) <==>
              token in LedgerRun(map[], max, es[..k]).0 && LedgerRun(map[], max, es[..k]).0[token] == at
  {
    LedgerMeaning(max, es[..k], token);
  }

  /** The token is there, and has time left. */
  ghost predicate IsAlive(max: nat, es: seq<Timed>, k: nat, token: Token, least: int) {
    exists at :: ExpiresAt(max, es, k, token, at) && least <= at
  }

  lemma AliveInLedger(max: nat, es: seq<Timed>, k: nat, token: Token, least: int)
    requires k <= |es|
    ensures IsAlive(max, es, k, token, least) <==>
              token in LedgerRun(map[], max, es[..k]).0 && least <= LedgerRun(map[], max, es[..k]).0[token]
  {
    var ledger := LedgerRun(map[], max, es[..k]).0;
    if at :| ExpiresAt(max, es, k, token, at) && least <= at {
      LedgerExpires(max, es, k, token, at);
    }
    if token in ledger {
      LedgerExpires(max, es, k, token, ledger[token]);
    }
  }

  /** What the answers of a run mean, with clean-ups anywhere: a token is valid exactly from
      when it is saved until it expires or is removed. */
  lemma ValidatesExactly(max: nat, es: seq<Timed>, k: nat)
    requires ClockRuns(es) && k < |es| && es[k].op.Validate?
    ensures k < |Run(map[], max, es).1|
    ensures Run(map[], max, es).1[k] <==>
              es[k].op.token != "" && IsAlive(max, es, k, es[k].op.token, es[k].now + 1)
  {
    CleanupIsInvisible(max, es);
    LedgerAnswer(max, es, k);
    AliveInLedger(max, es, k, es[k].op.token, es[k].now + 1);
  }

  /** A token that has not expired is found when it is removed, and one that is not there
      is not. */
  lemma RemovesExactly(max: nat, es: seq<Timed>, k: nat)
    requires ClockRuns(es) && k < |es| && es[k].op.Remove? && es[k].op.token != ""
    ensures k < |Run(map[], max, es).1|
    ensures IsAlive(max, es, k, es[k].op.token, es[k].now) ==> Run(map[], max, es).1[k]
    ensures Run(map[], max, es).1[k] ==> exists least :: IsAlive(max, es, k, es[k].op.token, least)
  {
    CleanupIsInvisible(max, es);
    LedgerAnswer(max, es, k);
    var ledger := LedgerRun(map[], max, es[..k]).0;
    AliveInLedger(max, es, k, es[k].op.token, es[k].now);
    if es[k].op.token in ledger {
      AliveInLedger(max, es, k, es[k].op.token, ledger[es[k].op.token]);
    }
  }

  /** A token is saved exactly if fewer than the maximum are there that have not expired. */
  lemma SavesExactly(max: nat, es: seq<Timed>, k: nat) returns (alive: set<Token>)
    requires ClockRuns(es) && k < |es| && es[k].op.Save?
    ensures k < |Run(map[], max, es).1|
    ensures forall t :: t in alive <==> IsAlive(max, es, k, t, es[k].now)
    ensures Run(map[], max, es).1[k] <==> |alive| < max
  {
    CleanupIsInvisible(max, es);
    LedgerAnswer(max, es, k);
    var ledger := LedgerRun(map[], max, es[..k]).0;
    alive := Unexpired(ledger, es[k].now).Keys;
    assert |Unexpired(ledger, es[k].now)| == |alive|;
    forall t
      ensures t in alive <==> IsAlive(max, es, k, t, es[k].now)
    {
      AliveInLedger(max, es, k, t, es[k].now);
    }
  }

  /** The exception is real: an expired token is found by a removal if no clean-up
      came first, and not found if one did. */
  lemma RemovalTellsExpiredTokens()
    ensures Run(map[], 1, [Timed(0, Save("a", 5)), Timed(9, Remove("a"))]).1 == [true, true]
    ensures Run(map[], 1, [Timed(0, Save("a", 5)), Timed(9, Cleanup), Timed(9, Remove("a"))]).1 == [true, true, false]
  {
    FirstToken("a", 5);
    RunOneMore(1, [Timed(0, Save("a", 5))], Timed(9, Remove("a")));
    RunOneMore(1, [Timed(0, Save("a", 5))], Timed(9, Cleanup));
    RunOneMore(1, [Timed(0, Save("a", 5)), Timed(9, Cleanup)], Timed(9, Remove("a")));
    assert "a" !in Unexpired(map["a" := 5], 9);
  }

  lemma RunOneMore(max: nat, es: seq<Timed>, e: Timed)
    ensures Run(map[], max, es + [e]).0 == Step(Run(map[], max, es).0, max, e).0
    ensures Run(map[], max, es + [e]).1 == Run(map[], max, es).1 + [Step(Run(map[], max, es).0, max, e).1]
  {
    assert (es + [e])[..|es|] == es;
  }

  lemma FirstToken(t: Token, validity: int)
    ensures Run(map[], 1, [Timed(0, Save(t, validity))]) == (map[t := validity], [true])
  {
    var none: map<Token, int> := map[];
    var save := Timed(0, Save(t, validity));
    assert |none| == |none.Keys| == 0;
    assert Step(none, 1, save) == (none[t := 0 + validity], true);
    RunOneMore(1, [], save);
    assert [] + [save] == [save];
    assert Run(none, 1, []).1 + [true] == [true];
  }

  /** A token is neither valid nor collectable at exactly one moment, when it expires. */
  lemma ExpiringExactly(tokens: map<Token, int>, max: nat, now: int, t: Token)
    requires t in tokens && t != ""
    ensures !Step(tokens, max, Timed(now, Validate(t))).1 && t in Step(tokens, max, Timed(now, Cleanup)).0
            <==> now == tokens[t]
  {
  }

  /** At the very moment a token expires it is no longer valid and still takes a place. */
  lemma ExpiringTokenTakesAPlace()
    ensures Run(map[], 1, [Timed(0, Save("a", 9)), Timed(9, Validate("a")), Timed(9, Save("b", 60))]).1 == [true, false, false]
  {
    FirstToken("a", 9);
    RunOneMore(1, [Timed(0, Save("a", 9))], Timed(9, Validate("a")));
    RunOneMore(1, [Timed(0, Save("a", 9)), Timed(9, Validate("a"))], Timed(9, Save("b", 60)));
    var m: map<Token, int> := map["a" := 9];
    assert Unexpired(m, 9) == m;
    assert m.Keys == {"a"};
    assert |m| == |m.Keys| == 1;
  }
}
