/** Per-account watchlists with a change log, and syncing a stale copy from the log alone. */
module Watchlist {
  import opened OrderTypes

  datatype Change = Change(at: nat, symbol: string, wasAdded: bool, device: Option<string>)

  datatype Account = Account(symbols: set<string>, changeLog: seq<Change>, lastModified: nat)

  const NewAccount := Account({}, [], 0)

  /** What a client does with one change. */
  function Applied(symbols: set<string>, c: Change): set<string> {
    if c.wasAdded then symbols + {c.symbol} else symbols - {c.symbol}
  }

  function AppliedAll(symbols: set<string>, changes: seq<Change>): set<string> {
    if changes == [] then symbols
    else Applied(AppliedAll(symbols, changes[..|changes| - 1]), changes[|changes| - 1])
  }

  /** The symbol set the log stands for. */
  function SetOf(log: seq<Change>): set<string> {
    AppliedAll({}, log)
  }

  function LastStamp(log: seq<Change>): nat {
    if log == [] then 0 else log[|log| - 1].at
  }

  /** Strictly after the stamp, oldest first. */
  function Since(log: seq<Change>, stamp: nat): seq<Change> {
    if log == [] then []
    else Since(log[..|log| - 1], stamp) + (if log[|log| - 1].at > stamp then [log[|log| - 1]] else [])
  }

  /** Every logged change really changed the set. */
  ghost predicate Effective(log: seq<Change>) {
    forall i :: 0 <= i < |log| ==> (log[i].wasAdded <==> log[i].symbol !in SetOf(log[..i]))
  }

  ghost predicate AccountInv(a: Account) {
    a.symbols == SetOf(a.changeLog) && Effective(a.changeLog) && a.lastModified == LastStamp(a.changeLog)
  }

  lemma EffectiveSnoc(log: seq<Change>, c: Change)
    requires Effective(log) && (c.wasAdded <==> c.symbol !in SetOf(log))
    ensures Effective(log + [c]) && SetOf(log + [c]) == Applied(SetOf(log), c)
  {
    var all := log + [c];
    assert all[..|log|] == log;
    forall i | 0 <= i < |all| ensures all[i].wasAdded <==> all[i].symbol !in SetOf(all[..i]) {
      if i < |log| { assert all[..i] == log[..i]; }
    }
  }

  lemma Recorded(a: Account, c: Change)
    requires AccountInv(a) && (c.wasAdded <==> c.symbol !in a.symbols)
    ensures AccountInv(Account(Applied(a.symbols, c), a.changeLog + [c], c.at))
  {
    hide Effective, SetOf;
    EffectiveSnoc(a.changeLog, c);
  }

  function AccountOf(accounts: map<string, Account>, id: string): Account {
    if id in accounts then accounts[id] else NewAccount
  }

  class WatchlistStore {
    var accounts: map<string, Account>

    ghost predicate Valid()
      reads this
    {
      forall id :: id in accounts ==> AccountInv(accounts[id])
    }

    constructor ()
      ensures Valid() && forall id :: AccountOf(accounts, id) == NewAccount
    {
      accounts := map[];
    }

    method AddSymbol(id: string, symbol: string, device: Option<string>, now: nat) returns (wasAdded: bool)
      requires Valid()
      modifies this
      ensures Valid()
      ensures wasAdded == (symbol !in AccountOf(old(accounts), id).symbols)
      ensures AccountOf(accounts, id).symbols == AccountOf(old(accounts), id).symbols + {symbol}
      ensures AccountOf(accounts, id).changeLog == AccountOf(old(accounts), id).changeLog
        + (if wasAdded then [Change(now, symbol, true, device)] else [])
      ensures forall other :: other != id ==> AccountOf(accounts, other) == AccountOf(old(accounts), other)
    {
      hide AccountInv;
      NewAccountIsFine();
      var a := AccountOf(accounts, id);
      wasAdded := symbol !in a.symbols;
      if wasAdded {
        Recorded(a, Change(now, symbol, true, device));
        a := Account(a.symbols + {symbol}, a.changeLog + [Change(now, symbol, true, device)], now);
      }
      accounts := accounts[id := a];
    }

    method RemoveSymbol(id: string, symbol: string, device: Option<string>, now: nat) returns (wasRemoved: bool)
      requires Valid()
      modifies this
      ensures Valid()
      ensures wasRemoved == (symbol in AccountOf(old(accounts), id).symbols)
      ensures AccountOf(accounts, id).symbols == AccountOf(old(accounts), id).symbols - {symbol}
      ensures AccountOf(accounts, id).changeLog == AccountOf(old(accounts), id).changeLog
        + (if wasRemoved then [Change(now, symbol, false, device)] else [])
      ensures forall other :: other != id ==> AccountOf(accounts, other) == AccountOf(old(accounts), other)
    {
      hide AccountInv;
      if id !in accounts { return false; }
      var a := accounts[id];
      wasRemoved := symbol in a.symbols;
      if wasRemoved {
        Recorded(a, Change(now, symbol, false, device));
        a := Account(a.symbols - {symbol}, a.changeLog + [Change(now, symbol, false, device)], now);
        accounts := accounts[id := a];
      }
    }

    method LastModifiedForAccount(id: string) returns (stamp: nat)
      requires Valid()
      ensures stamp == LastStamp(AccountOf(accounts, id).changeLog)
    {
      if id !in accounts { return 0; }
      return accounts[id].lastModified;
    }

    method ChangesForAccountSince(id: string, stamp: nat) returns (changes: seq<Change>)
      requires Valid()
      ensures IsDelta(changes, AccountOf(accounts, id).changeLog, stamp)
      ensures changes == Since(AccountOf(accounts, id).changeLog, stamp)
    {
      hide PicksOut, Since, AccountInv;
      var log := AccountOf(accounts, id).changeLog;
      ghost var positions: seq<nat> := [];
      changes := [];
      NothingPicked(log, stamp);
      for i := 0 to |log|
        invariant changes == Since(log[..i], stamp)
        invariant PicksOut(positions, changes, log[..i], stamp)
      {
        assert log[..i + 1] == log[..i] + [log[i]];
        SinceSnoc(log[..i], log[i], stamp);
        PickNext(positions, changes, log[..i], log[i], stamp);
        if log[i].at > stamp {
          changes, positions := changes + [log[i]], positions + [i];
        }
      }
      assert log[..|log|] == log;
    }
  }

  /** At these positions of the log, in this order, stand the changes: all that are later than the stamp. */
  ghost predicate PicksOut(positions: seq<nat>, changes: seq<Change>, log: seq<Change>, stamp: nat) {
    && |positions| == |changes|
    && (forall k :: 0 <= k < |positions| ==>
          positions[k] < |log| && changes[k] == log[positions[k]] && log[positions[k]].at > stamp)
    && (forall j, k :: 0 <= j < k < |positions| ==> positions[j] < positions[k])
    && (forall i: nat :: i < |log| && log[i].at > stamp ==> i in positions)
  }

  /** Every change later than the stamp, once, oldest first, and nothing else. */
  ghost predicate IsDelta(changes: seq<Change>, log: seq<Change>, stamp: nat) {
    exists positions :: PicksOut(positions, changes, log, stamp)
  }

  lemma NothingPicked(log: seq<Change>, stamp: nat)
    ensures Since(log[..0], stamp) == [] && PicksOut([], [], log[..0], stamp)
  {
  }

  lemma PickNext(positions: seq<nat>, changes: seq<Change>, log: seq<Change>, c: Change, stamp: nat)
    requires PicksOut(positions, changes, log, stamp)
    ensures if c.at > stamp then PicksOut(positions + [|log|], changes + [c], log + [c], stamp)
            else PicksOut(positions, changes, log + [c], stamp)
  {
    if c.at > stamp {
      PickLast(positions, changes, log, c, stamp);
    } else {
      assert forall i: nat :: i < |log| ==> (log + [c])[i] == log[i];
    }
  }

  lemma PickLast(positions: seq<nat>, changes: seq<Change>, log: seq<Change>, c: Change, stamp: nat)
    requires PicksOut(positions, changes, log, stamp) && c.at > stamp
    ensures PicksOut(positions + [|log|], changes + [c], log + [c], stamp)
  {
    var all, after := log + [c], positions + [|log|];
    assert forall i: nat :: i < |log| ==> all[i] == log[i];
    forall i: nat | i < |all| && all[i].at > stamp ensures i in after {
      if i < |log| { assert i in positions; } else { assert after[|positions|] == i; }
    }
  }

  lemma SinceSnoc(log: seq<Change>, c: Change, stamp: nat)
    ensures Since(log + [c], stamp) == Since(log, stamp) + (if c.at > stamp then [c] else [])
  {
    assert (log + [c])[..|log|] == log;
  }

  lemma NewAccountIsFine()
    ensures AccountInv(NewAccount)
  {
  }

  // ----- syncing -----

  predicate NeverBack(log: seq<Change>) {
    forall i, j :: 0 <= i <= j < |log| ==> log[i].at <= log[j].at
  }

  predicate StrictlyLater(log: seq<Change>) {
    (forall i, j :: 0 <= i < j < |log| ==> log[i].at < log[j].at) && (log != [] ==> log[0].at > 0)
  }

  lemma {:induction false} AppliedAllSplits(symbols: set<string>, a: seq<Change>, b: seq<Change>)
    ensures AppliedAll(symbols, a + b) == AppliedAll(AppliedAll(symbols, a), b)
  {
    if b == [] {
      assert a + b == a;
    } else {
      var before := b[..|b| - 1];
      AppliedAllSplits(symbols, a, before);
      assert (a + b)[..|a + b| - 1] == a + before;
    }
  }

  lemma Associate(a: seq<Change>, b: seq<Change>, c: seq<Change>)
    ensures (a + b) + c == a + (b + c)
  {
  }

  lemma {:induction false} SinceSplits(a: seq<Change>, b: seq<Change>, stamp: nat)
    ensures Since(a + b, stamp) == Since(a, stamp) + Since(b, stamp)
  {
    hide Since;
    if b == [] {
      SinceNone(b, stamp);
      assert a + b == a && Since(a, stamp) + [] == Since(a, stamp);
    } else {
      var before, c := b[..|b| - 1], b[|b| - 1];
      SinceSplits(a, before, stamp);
      assert b == before + [c] && a + b == (a + before) + [c];
      SinceSnoc(before, c, stamp);
      SinceSnoc(a + before, c, stamp);
      Associate(Since(a, stamp), Since(before, stamp), if c.at > stamp then [c] else []);
    }
  }

  lemma {:induction false} SinceNone(log: seq<Change>, stamp: nat)
    requires forall i :: 0 <= i < |log| ==> log[i].at <= stamp
    ensures Since(log, stamp) == []
  {
    if log != [] { SinceNone(log[..|log| - 1], stamp); }
  }

  lemma {:induction false} SinceAll(log: seq<Change>, stamp: nat)
    ensures Since(log, stamp) == log <==> forall i :: 0 <= i < |log| ==> log[i].at > stamp
    ensures |Since(log, stamp)| <= |log|
  {
    if log != [] {
      var before, c := log[..|log| - 1], log[|log| - 1];
      assert log == before + [c];
      SinceAll(before, stamp);
      if Since(log, stamp) == log {
        assert Since(before, stamp) == before;
      }
    }
  }

  /**
   A client that stopped at the moment of `n` changes, with clocks that never go back: it is sent
   exactly the changes after that moment, unless the next change carries the same stamp.
   */
  lemma DeltaIsCompleteIffLaterStamped(log: seq<Change>, n: nat)
    requires n <= |log| && NeverBack(log)
    ensures Since(log, LastStamp(log[..n])) == log[n..] <==> n == |log| || log[n].at > LastStamp(log[..n])
  {
    hide Since;
    var before, after, stamp := log[..n], log[n..], LastStamp(log[..n]);
    assert log == before + after;
    SinceSplits(before, after, stamp);
    SinceNone(before, stamp);
    SinceAll(after, stamp);
    if n < |log| { assert after[0] == log[n]; }
  }

  /** A complete delta brings the symbol set of that moment up to date. */
  lemma CompleteDeltaSyncs(log: seq<Change>, n: nat)
    requires n <= |log| && NeverBack(log)
    requires n == |log| || log[n].at > LastStamp(log[..n])
    ensures AppliedAll(SetOf(log[..n]), Since(log, LastStamp(log[..n]))) == SetOf(log)
  {
    hide Since, LastStamp, AppliedAll, NeverBack;
    DeltaIsCompleteIffLaterStamped(log, n);
    AppliedAllSplits({}, log[..n], log[n..]);
    assert log == log[..n] + log[n..];
  }

  /** With strictly increasing stamps the sync works from every earlier moment. */
  lemma SyncFromAnyMoment(log: seq<Change>, n: nat)
    requires n <= |log| && StrictlyLater(log)
    ensures AppliedAll(SetOf(log[..n]), Since(log, LastStamp(log[..n]))) == SetOf(log)
  {
    CompleteDeltaSyncs(log, n);
  }

  /** Two changes in one millisecond: a client that synced between them never hears of the second. */
  lemma TiedStampsLoseChanges(stamp: nat)
    ensures var log := [Change(stamp, "A", true, None), Change(stamp, "B", true, None)];
      Effective(log)
      && AppliedAll(SetOf(log[..1]), Since(log, LastStamp(log[..1]))) != SetOf(log)
  {
    var a, b := Change(stamp, "A", true, None), Change(stamp, "B", true, None);
    var log := [a, b];
    assert log == [a] + [b] && [a] == [] + [a] && log[..1] == [a];
    EffectiveSnoc([], a);
    EffectiveSnoc([a], b);
    SinceNone(log, stamp);
    assert "B" in SetOf(log) && "B" !in SetOf([a]);
  }

  // ----- alternation -----

  function ChangesOf(log: seq<Change>, symbol: string): seq<Change> {
    if log == [] then []
    else ChangesOf(log[..|log| - 1], symbol) + (if log[|log| - 1].symbol == symbol then [log[|log| - 1]] else [])
  }

  /** Each symbol is added, removed, added, ... and is on the list exactly after an odd number of changes. */
  lemma {:induction false} ChangesAlternate(log: seq<Change>, symbol: string)
    requires Effective(log)
    ensures forall k :: 0 <= k < |ChangesOf(log, symbol)| ==> (ChangesOf(log, symbol)[k].wasAdded <==> k % 2 == 0)
    ensures symbol in SetOf(log) <==> |ChangesOf(log, symbol)| % 2 == 1
  {
    if log != [] {
      var before, c := log[..|log| - 1], log[|log| - 1];
      forall i | 0 <= i < |before| ensures before[i].wasAdded <==> before[i].symbol !in SetOf(before[..i]) {
        assert before[..i] == log[..i];
      }
      ChangesAlternate(before, symbol);
      assert c.wasAdded <==> c.symbol !in SetOf(before);
    }
  }

  // ----- when a delta with ties still brings the set up to date -----

  /** The last change of a symbol decides about it; without one it stays as it was. */
  lemma {:induction false} LastChangeDecides(symbols: set<string>, changes: seq<Change>, symbol: string)
    ensures var own := ChangesOf(changes, symbol);
      symbol in AppliedAll(symbols, changes) <==> if own == [] then symbol in symbols else own[|own| - 1].wasAdded
  {
    if changes != [] { LastChangeDecides(symbols, changes[..|changes| - 1], symbol); }
  }

  lemma {:induction false} ChangesOfSplits(a: seq<Change>, b: seq<Change>, symbol: string)
    ensures ChangesOf(a + b, symbol) == ChangesOf(a, symbol) + ChangesOf(b, symbol)
  {
    if b == [] {
      assert a + b == a;
    } else {
      var before, last := b[..|b| - 1], b[|b| - 1];
      ChangesOfSplits(a, before, symbol);
      assert (a + b)[..|a + b| - 1] == a + before && (a + b)[|a + b| - 1] == last;
    }
  }

  lemma PrefixIsEffective(log: seq<Change>, n: nat)
    requires Effective(log) && n <= |log|
    ensures Effective(log[..n])
  {
    forall i | 0 <= i < n ensures log[..n][i].wasAdded <==> log[..n][i].symbol !in SetOf(log[..n][..i]) {
      assert log[..n][..i] == log[..i];
    }
  }

  /** The first change from number `n` on that is stamped later. */
  function FirstLater(log: seq<Change>, n: nat, stamp: nat): (m: nat)
    requires n <= |log|
    ensures n <= m <= |log| && (forall i :: n <= i < m ==> log[i].at <= stamp) && (m < |log| ==> log[m].at > stamp)
    decreases |log| - n
  {
    if n == |log| || log[n].at > stamp then n else FirstLater(log, n + 1, stamp)
  }

  /** Every symbol that the delivered changes do not mention has changed an even number of times before them. */
  ghost predicate TiesCancelOut(log: seq<Change>, n: nat, m: nat)
    requires n <= m <= |log|
  {
    forall symbol :: ChangesOf(log[m..], symbol) == [] ==> |ChangesOf(log[n..m], symbol)| % 2 == 0
  }

  lemma TiedDelta(log: seq<Change>, n: nat, m: nat, stamp: nat)
    requires n <= m <= |log| && NeverBack(log) && stamp == LastStamp(log[..n]) && m == FirstLater(log, n, stamp)
    ensures Since(log, stamp) == log[m..]
  {
    hide Since;
    assert log == log[..m] + log[m..];
    SinceSplits(log[..m], log[m..], stamp);
    SinceNone(log[..m], stamp);
    SinceAll(log[m..], stamp);
  }

  lemma SymbolSyncsIff(log: seq<Change>, n: nat, m: nat, symbol: string)
    requires n <= m <= |log| && Effective(log)
    ensures (symbol in AppliedAll(SetOf(log[..n]), log[m..]) <==> symbol in SetOf(log))
       <==> (ChangesOf(log[m..], symbol) == [] ==> |ChangesOf(log[n..m], symbol)| % 2 == 0)
  {
    hide AppliedAll, ChangesOf, Effective;
    assert log == log[..m] + log[m..] && log[..m] == log[..n] + log[n..m];
    AppliedAllSplits({}, log[..m], log[m..]);
    LastChangeDecides(SetOf(log[..n]), log[m..], symbol);
    LastChangeDecides(SetOf(log[..m]), log[m..], symbol);
    PrefixIsEffective(log, n);
    PrefixIsEffective(log, m);
    ChangesAlternate(log[..n], symbol);
    ChangesAlternate(log[..m], symbol);
    ChangesOfSplits(log[..n], log[n..m], symbol);
  }

  /**
   Clocks that never go back, any ties: a client that stopped at the moment of `n` changes ends up
   with the current set if and only if the changes it is not sent cancel out for every symbol that
   the delivered ones do not mention.
   */
  lemma SetSyncsIffTiesCancelOut(log: seq<Change>, n: nat)
    requires n <= |log| && NeverBack(log) && Effective(log)
    ensures var stamp := LastStamp(log[..n]);
      AppliedAll(SetOf(log[..n]), Since(log, stamp)) == SetOf(log) <==> TiesCancelOut(log, n, FirstLater(log, n, stamp))
  {
    hide AppliedAll, ChangesOf, Effective, Since, NeverBack;
    var stamp := LastStamp(log[..n]);
    var m := FirstLater(log, n, stamp);
    TiedDelta(log, n, m, stamp);
    var synced, current := AppliedAll(SetOf(log[..n]), log[m..]), SetOf(log);
    forall symbol
      ensures (symbol in synced <==> symbol in current)
         <==> (ChangesOf(log[m..], symbol) == [] ==> |ChangesOf(log[n..m], symbol)| % 2 == 0)
    {
      SymbolSyncsIff(log, n, m, symbol);
    }
  }
}
