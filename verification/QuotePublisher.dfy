/** Top-of-book quotes: derived from each full depth publish, numbered per instrument, fanned out. */
module QuotePublisher {
  import opened OrderTypes

  datatype Delta = Delta(isBid: bool, price: int, quantity: nat)

  datatype L1Quote = L1Quote(
    bestBid: Option<int>, bestBidQuantity: nat, bestAsk: Option<int>, bestAskQuantity: nat, lastTrade: Option<int>)

  const EmptyQuote := L1Quote(None, 0, None, 0, None)

  datatype Update = Update(symbol: string, seqNumber: nat, quote: L1Quote)

  /** The price to beat on one side; a later bid replaces an equal one, a later ask does not. */
  function BestDelta(isBid: bool, deltas: seq<Delta>): Option<Delta> {
    if deltas == [] then None
    else
      var before, d := BestDelta(isBid, deltas[..|deltas| - 1]), deltas[|deltas| - 1];
      if d.isBid != isBid || d.quantity == 0 then before
      else if before.None? then Some(d)
      else if isBid then (if d.price >= before.value.price then Some(d) else before)
      else (if d.price < before.value.price then Some(d) else before)
  }

  predicate Carries(isBid: bool, d: Delta) {
    d.isBid == isBid && d.quantity > 0
  }

  /** Level `i` is the one to quote: no better price on its side, the last of equal bids, the first of equal asks. */
  ghost predicate IsBestAt(isBid: bool, deltas: seq<Delta>, i: nat) {
    && i < |deltas| && Carries(isBid, deltas[i])
    && forall j :: 0 <= j < |deltas| && Carries(isBid, deltas[j]) && j != i ==>
        var p, q := deltas[i].price, deltas[j].price;
        if isBid then q < p || (q == p && j < i) else p < q || (q == p && i < j)
  }

  /** One side of a quote: the best level, or nothing when no level of the side carries quantity. */
  ghost predicate Quotes(isBid: bool, deltas: seq<Delta>, price: Option<int>, quantity: nat) {
    if price.None? then quantity == 0 && forall j :: 0 <= j < |deltas| ==> !Carries(isBid, deltas[j])
    else exists i: nat :: IsBestAt(isBid, deltas, i) && price.value == deltas[i].price && quantity == deltas[i].quantity
  }

  lemma {:induction false} BestDeltaIsBest(isBid: bool, deltas: seq<Delta>) returns (i: nat)
    ensures BestDelta(isBid, deltas).None? ==> forall j :: 0 <= j < |deltas| ==> !Carries(isBid, deltas[j])
    ensures BestDelta(isBid, deltas).Some? ==> IsBestAt(isBid, deltas, i) && BestDelta(isBid, deltas).value == deltas[i]
  {
    i := 0;
    if deltas != [] {
      var n := |deltas| - 1;
      var before := BestDelta(isBid, deltas[..n]);
      i := BestDeltaIsBest(isBid, deltas[..n]);
      assert forall j :: 0 <= j < n ==> deltas[..n][j] == deltas[j];
      var d := deltas[n];
      if Carries(isBid, d)
          && (before.None? || (if isBid then d.price >= before.value.price else d.price < before.value.price)) {
        i := n;
      }
    }
  }

  lemma QuoteShowsTheBest(deltas: seq<Delta>, latestTrade: Option<int>, previous: L1Quote)
    ensures var q := QuoteOf(deltas, latestTrade, previous);
      Quotes(true, deltas, q.bestBid, q.bestBidQuantity) && Quotes(false, deltas, q.bestAsk, q.bestAskQuantity)
  {
    var i := BestDeltaIsBest(true, deltas);
    var k := BestDeltaIsBest(false, deltas);
  }

  function QuoteOf(deltas: seq<Delta>, latestTrade: Option<int>, previous: L1Quote): L1Quote {
    var bid, ask := BestDelta(true, deltas), BestDelta(false, deltas);
    L1Quote(
      if bid.Some? then Some(bid.value.price) else None, if bid.Some? then bid.value.quantity else 0,
      if ask.Some? then Some(ask.value.price) else None, if ask.Some? then ask.value.quantity else 0,
      if latestTrade.Some? then latestTrade else previous.lastTrade)
  }

  // ----- the publisher as the history of its updates -----

  /** How many updates for `symbol`, which is also the number of the newest one. */
  function Count(log: seq<Update>, symbol: string): nat {
    if log == [] then 0
    else Count(log[..|log| - 1], symbol) + (if log[|log| - 1].symbol == symbol then 1 else 0)
  }

  function Latest(log: seq<Update>, symbol: string): Option<Update> {
    if log == [] then None
    else if log[|log| - 1].symbol == symbol then Some(log[|log| - 1])
    else Latest(log[..|log| - 1], symbol)
  }

  /** Every update carries the number of updates for its instrument up to and including itself. */
  ghost predicate Numbered(log: seq<Update>) {
    forall i :: 0 <= i < |log| ==> log[i].seqNumber == Count(log[..i], log[i].symbol) + 1
  }

  lemma CountSnoc(log: seq<Update>, u: Update, symbol: string)
    ensures Count(log + [u], symbol) == Count(log, symbol) + (if u.symbol == symbol then 1 else 0)
    ensures Latest(log + [u], symbol) == if u.symbol == symbol then Some(u) else Latest(log, symbol)
  {
    assert (log + [u])[..|log|] == log;
  }

  lemma {:induction false} LatestIsNewest(log: seq<Update>, symbol: string)
    requires Numbered(log)
    ensures Latest(log, symbol).Some? <==> Count(log, symbol) > 0
    ensures Latest(log, symbol).Some? ==>
      Latest(log, symbol).value.symbol == symbol && Latest(log, symbol).value.seqNumber == Count(log, symbol)
  {
    if log != [] {
      var before := log[..|log| - 1];
      forall i | 0 <= i < |before| ensures before[i].seqNumber == Count(before[..i], before[i].symbol) + 1 {
        assert before[..i] == log[..i];
      }
      LatestIsNewest(before, symbol);
    }
  }

  /** What the two maps hold for one instrument. */
  ghost predicate TracksOne(quotes: map<string, L1Quote>, numbers: map<string, nat>, log: seq<Update>, symbol: string) {
    && (symbol in quotes <==> Count(log, symbol) > 0)
    && (symbol in numbers <==> Count(log, symbol) > 0)
    && (symbol in quotes && symbol in numbers ==>
          && numbers[symbol] == Count(log, symbol)
          && Latest(log, symbol) == Some(Update(symbol, Count(log, symbol), quotes[symbol])))
  }

  ghost predicate Tracks(quotes: map<string, L1Quote>, numbers: map<string, nat>, log: seq<Update>) {
    forall symbol {:trigger TracksOne(quotes, numbers, log, symbol)} :: TracksOne(quotes, numbers, log, symbol)
  }

  lemma TracksSnoc(quotes: map<string, L1Quote>, numbers: map<string, nat>, log: seq<Update>, u: Update)
    requires Tracks(quotes, numbers, log) && u.seqNumber == Count(log, u.symbol) + 1
    ensures Tracks(quotes[u.symbol := u.quote], numbers[u.symbol := u.seqNumber], log + [u])
  {
    var quotes', numbers', log' := quotes[u.symbol := u.quote], numbers[u.symbol := u.seqNumber], log + [u];
    forall symbol ensures TracksOne(quotes', numbers', log', symbol) {
      assert TracksOne(quotes, numbers, log, symbol);
      CountSnoc(log, u, symbol);
    }
  }

  lemma TracksAt(quotes: map<string, L1Quote>, numbers: map<string, nat>, log: seq<Update>, symbol: string)
    requires Tracks(quotes, numbers, log)
    ensures TracksOne(quotes, numbers, log, symbol)
  {
  }

  class L1QuotePublisher {
    var currentQuotes: map<string, L1Quote>
    var lastSequenceNumbers: map<string, nat>
    /** Everything the registered sinks have been given, oldest first. */
    var delivered: seq<Update>

    /** The two maps are what the history of updates says they are. */
    ghost predicate Valid()
      reads this
    {
      Numbered(delivered) && Tracks(currentQuotes, lastSequenceNumbers, delivered)
    }

    constructor ()
      ensures Valid() && delivered == []
    {
      currentQuotes, lastSequenceNumbers, delivered := map[], map[], [];
    }

    method ApplyDepthPublish(symbol: string, deltas: seq<Delta>, latestTrade: Option<int>) returns (u: Update)
      requires Valid()
      modifies this
      ensures Valid() && delivered == old(delivered) + [u]
      ensures u.symbol == symbol && u.seqNumber == Count(old(delivered), symbol) + 1
      ensures Quotes(true, deltas, u.quote.bestBid, u.quote.bestBidQuantity)
      ensures Quotes(false, deltas, u.quote.bestAsk, u.quote.bestAskQuantity)
      ensures u.quote.lastTrade == if latestTrade.Some? then latestTrade
        else match Latest(old(delivered), symbol) case Some(p) => p.quote.lastTrade case None => None
    {
      hide Count, Latest, Numbered, Tracks, Quotes, BestDelta;
      LatestIsNewest(delivered, symbol);
      TracksAt(currentQuotes, lastSequenceNumbers, delivered, symbol);
      var previous := if symbol in currentQuotes then currentQuotes[symbol] else EmptyQuote;
      var quote := QuoteOf(deltas, latestTrade, previous);
      QuoteShowsTheBest(deltas, latestTrade, previous);
      var number := if symbol in lastSequenceNumbers then lastSequenceNumbers[symbol] + 1 else 1;
      u := Update(symbol, number, quote);
      NumberedSnoc(delivered, u);
      TracksSnoc(currentQuotes, lastSequenceNumbers, delivered, u);
      currentQuotes := currentQuotes[symbol := quote];
      lastSequenceNumbers := lastSequenceNumbers[symbol := number];
      delivered := delivered + [u];
    }

    method CurrentSnapshotForInstrument(symbol: string) returns (snapshot: Option<Update>)
      requires Valid()
      ensures snapshot == Latest(delivered, symbol)
    {
      LatestIsNewest(delivered, symbol);
      TracksAt(currentQuotes, lastSequenceNumbers, delivered, symbol);
      if symbol !in currentQuotes || symbol !in lastSequenceNumbers { return None; }
      return Some(Update(symbol, lastSequenceNumbers[symbol], currentQuotes[symbol]));
    }

    /** One snapshot for every instrument ever published, each its newest update, sorted by symbol. */
    method CurrentSnapshotsForAllInstruments() returns (snapshots: seq<Update>)
      requires Valid()
      ensures IsFullSnapshot(delivered, snapshots)
    {
      hide Count, Latest, Tracks, Before;
      snapshots := [];
      var left := currentQuotes.Keys;
      while left != {}
        invariant left <= currentQuotes.Keys
        invariant forall i :: 0 <= i < |snapshots| ==>
          snapshots[i].symbol !in left && Latest(delivered, snapshots[i].symbol) == Some(snapshots[i])
        invariant forall i, t :: 0 <= i < |snapshots| && t in left ==> Before(snapshots[i].symbol, t)
        invariant forall i, j :: 0 <= i < j < |snapshots| ==>
          snapshots[i].symbol != snapshots[j].symbol && Before(snapshots[i].symbol, snapshots[j].symbol)
        invariant forall s :: s in currentQuotes && s !in left ==> Mentions(snapshots, s)
      {
        var s := LeastOf(left);
        TracksAt(currentQuotes, lastSequenceNumbers, delivered, s);
        left := left - {s};
        var snapshot := Update(s, lastSequenceNumbers[s], currentQuotes[s]);
        MentionsSnoc(snapshots, snapshot);
        snapshots := snapshots + [snapshot];
      }
      forall s | Count(delivered, s) > 0 ensures Mentions(snapshots, s) {
        TracksAt(currentQuotes, lastSequenceNumbers, delivered, s);
      }
    }
  }

  // ----- symbols in order -----

  /** Alphabetical order of symbols. */
  predicate Before(a: string, b: string) {
    b != [] && (a == [] || a[0] < b[0] || (a[0] == b[0] && Before(a[1..], b[1..])))
  }

  lemma {:induction false} BeforeIsTotal(a: string, b: string)
    ensures a == b || Before(a, b) || Before(b, a)
  {
    if a != [] && b != [] && a[0] == b[0] {
      BeforeIsTotal(a[1..], b[1..]);
      assert a == [a[0]] + a[1..] && b == [b[0]] + b[1..];
    }
  }

  lemma {:induction false} BeforeIsTransitive(a: string, b: string, c: string)
    requires Before(a, b) && Before(b, c)
    ensures Before(a, c)
  {
    if a != [] && a[0] == b[0] == c[0] { BeforeIsTransitive(a[1..], b[1..], c[1..]); }
  }

  method LeastOf(symbols: set<string>) returns (s: string)
    requires symbols != {}
    ensures s in symbols && forall t :: t in symbols && t != s ==> Before(s, t)
  {
    hide Before;
    SomeSymbol(symbols);
    s :| s in symbols;
    var left := symbols - {s};
    while left != {}
      invariant left <= symbols && s in symbols && s !in left
      invariant forall t :: t in symbols && t !in left && t != s ==> Before(s, t)
    {
      SomeSymbol(left);
      var t :| t in left;
      left := left - {t};
      BeforeIsTotal(s, t);
      if Before(t, s) {
        forall u | u in symbols && u !in left && u != t ensures Before(t, u) {
          if u != s { BeforeIsTransitive(t, s, u); }
        }
        s := t;
      }
    }
  }

  predicate Mentions(updates: seq<Update>, symbol: string) {
    exists i :: 0 <= i < |updates| && updates[i].symbol == symbol
  }

  lemma MentionsSnoc(updates: seq<Update>, u: Update)
    ensures Mentions(updates + [u], u.symbol)
    ensures forall symbol :: Mentions(updates, symbol) ==> Mentions(updates + [u], symbol)
  {
    assert (updates + [u])[|updates|] == u;
    forall symbol | Mentions(updates, symbol) ensures Mentions(updates + [u], symbol) {
      var i :| 0 <= i < |updates| && updates[i].symbol == symbol;
      assert (updates + [u])[i].symbol == symbol;
    }
  }

  /** Each published instrument once, with its newest update, in alphabetical order. */
  ghost predicate IsFullSnapshot(log: seq<Update>, snapshots: seq<Update>) {
    && (forall i :: 0 <= i < |snapshots| ==> Latest(log, snapshots[i].symbol) == Some(snapshots[i]))
    && (forall i, j :: 0 <= i < j < |snapshots| ==>
          snapshots[i].symbol != snapshots[j].symbol && Before(snapshots[i].symbol, snapshots[j].symbol))
    && (forall s :: Count(log, s) > 0 ==> Mentions(snapshots, s))
  }

  lemma SomeSymbol(symbols: set<string>)
    ensures symbols == {} || exists s :: s in symbols
  {
    if !exists s :: s in symbols { assert symbols == {}; }
  }

  lemma NumberedSnoc(log: seq<Update>, u: Update)
    requires Numbered(log) && u.seqNumber == Count(log, u.symbol) + 1
    ensures Numbered(log + [u])
  {
    forall i | 0 <= i < |log + [u]|
      ensures (log + [u])[i].seqNumber == Count((log + [u])[..i], (log + [u])[i].symbol) + 1
    {
      if i < |log| { assert (log + [u])[..i] == log[..i]; } else { assert (log + [u])[..i] == log; }
    }
  }
}
