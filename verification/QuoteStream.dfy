/**
 One client of the quote feed: a receiver cursor over a broadcast that retains only its newest
 updates, snapshots read under the publisher's lock, and the messages sent so far.
 */
module QuoteStream {
  import opened OrderTypes
  import opened QuotePublisher

  datatype Message = Snapshot(update: Update) | DeltaOf(update: Update)

  datatype Phase =
    | SubscribedOnly                    // subscribed, initial snapshots not read yet
    | Waiting                           // in the event loop
    | MustSnapshotAll                   // lagged, or asked to resync everything
    | MustSnapshotOne(symbol: string)   // asked to resync one instrument
    | Sending(left: seq<Update>)        // snapshots read, being sent one by one

  /** `log` is every update broadcast since the publisher started. */
  datatype State = State(log: seq<Update>, cursor: nat, phase: Phase, sent: seq<Message>)

  datatype Action =
    | Publish(update: Update)                // the ingestion thread
    | ReadAll(snapshots: seq<Update>)        // under the lock
    | ReadOne
    | SendNext
    | Receive
    | ResyncAll
    | ResyncOne(symbol: string)

  ghost predicate Enabled(s: State, a: Action) {
    match a
    case Publish(u) => u.seqNumber == Count(s.log, u.symbol) + 1
    case ReadAll(snapshots) =>
      (s.phase.SubscribedOnly? || s.phase.MustSnapshotAll?) && IsFullSnapshot(s.log, snapshots)
    case ReadOne => s.phase.MustSnapshotOne?
    case SendNext => s.phase.Sending?
    case Receive => s.phase.Waiting?
    case ResyncAll => s.phase.Waiting?
    case ResyncOne(_) => s.phase.Waiting?
  }

  function Subscribe(log: seq<Update>): State {
    State(log, |log|, SubscribedOnly, [])
  }

  predicate Lagged(s: State, capacity: nat) {
    s.cursor + capacity < |s.log|
  }

  function Step(s: State, a: Action, capacity: nat): State {
    match a
    case Publish(u) => s.(log := s.log + [u])
    case ReadAll(snapshots) => s.(phase := Sending(snapshots))
    case ReadOne =>
      if !s.phase.MustSnapshotOne? then s
      else
        var snapshot := Latest(s.log, s.phase.symbol);
        s.(phase := Sending(if snapshot.Some? then [snapshot.value] else []))
    case SendNext =>
      if !s.phase.Sending? then s
      else if s.phase.left == [] then s.(phase := Waiting)
      else s.(phase := Sending(s.phase.left[1..]), sent := s.sent + [Snapshot(s.phase.left[0])])
    case Receive =>
      if Lagged(s, capacity) then s.(cursor := |s.log| - capacity, phase := MustSnapshotAll)
      else if s.cursor < |s.log| then s.(cursor := s.cursor + 1, sent := s.sent + [DeltaOf(s.log[s.cursor])])
      else s
    case ResyncAll => s.(phase := MustSnapshotAll)
    case ResyncOne(symbol) => s.(phase := MustSnapshotOne(symbol))
  }

  // ----- what the client has been told -----

  function LastMessage(sent: seq<Message>, symbol: string): Option<Message> {
    if sent == [] then None
    else if sent[|sent| - 1].update.symbol == symbol then Some(sent[|sent| - 1])
    else LastMessage(sent[..|sent| - 1], symbol)
  }

  function LastTold(sent: seq<Message>, symbol: string): Option<Update> {
    match LastMessage(sent, symbol)
    case Some(m) => Some(m.update)
    case None => None
  }

  /** The number the client saw last for an instrument, which is what it compares the next one with. */
  function LastNumber(sent: seq<Message>, symbol: string): nat {
    match LastTold(sent, symbol)
    case Some(u) => u.seqNumber
    case None => 0
  }

  function AsSnapshots(updates: seq<Update>): (messages: seq<Message>)
    ensures |messages| == |updates|
  {
    seq(|updates|, i requires 0 <= i < |updates| => Snapshot(updates[i]))
  }

  /** Sent, and read but still to be sent. */
  function Told(s: State): seq<Message> {
    if s.phase.Sending? then s.sent + AsSnapshots(s.phase.left) else s.sent
  }

  predicate SnapshotsDue(s: State) {
    s.phase.SubscribedOnly? || s.phase.MustSnapshotAll?
  }

  ghost predicate OnItsWay(s: State, symbol: string) {
    exists j :: s.cursor <= j < |s.log| && s.log[j].symbol == symbol
  }

  /** The newest update of an instrument has been told last, or is still ahead of the cursor. */
  ghost predicate UpToDate(s: State, symbol: string) {
    OnItsWay(s, symbol) || LastTold(Told(s), symbol) == Latest(s.log, symbol)
  }

  /** All numbers up to the cursor have been reached. */
  ghost predicate Reached(s: State, symbol: string)
    requires s.cursor <= |s.log|
  {
    Count(s.log[..s.cursor], symbol) <= LastNumber(Told(s), symbol)
  }

  /** No delta goes beyond one more than the number seen last for its instrument. */
  ghost predicate NoGap(sent: seq<Message>) {
    forall p :: 0 <= p < |sent| && sent[p].DeltaOf? ==>
      sent[p].update.seqNumber <= LastNumber(sent[..p], sent[p].update.symbol) + 1
  }

  ghost predicate StreamInv(s: State) {
    && Numbered(s.log) && s.cursor <= |s.log|
    && NoGap(s.sent)
    && (SnapshotsDue(s) || forall symbol :: Count(s.log, symbol) > 0 ==> UpToDate(s, symbol) && Reached(s, symbol))
  }

  // ----- small facts -----

  lemma ToldSnoc(sent: seq<Message>, m: Message, symbol: string)
    ensures LastTold(sent + [m], symbol) == if m.update.symbol == symbol then Some(m.update) else LastTold(sent, symbol)
    ensures LastNumber(sent + [m], symbol)
         == if m.update.symbol == symbol then m.update.seqNumber else LastNumber(sent, symbol)
  {
    assert (sent + [m])[..|sent|] == sent;
  }

  /** Snapshots told about other instruments change nothing; the one told about this one counts. */
  lemma {:induction false} ToldSnapshots(sent: seq<Message>, updates: seq<Update>, symbol: string)
    requires forall i, j :: 0 <= i < j < |updates| ==> updates[i].symbol != updates[j].symbol
    ensures (forall i :: 0 <= i < |updates| ==> updates[i].symbol != symbol) ==>
      && LastTold(sent + AsSnapshots(updates), symbol) == LastTold(sent, symbol)
      && LastNumber(sent + AsSnapshots(updates), symbol) == LastNumber(sent, symbol)
    ensures forall i :: 0 <= i < |updates| && updates[i].symbol == symbol ==>
      && LastTold(sent + AsSnapshots(updates), symbol) == Some(updates[i])
      && LastNumber(sent + AsSnapshots(updates), symbol) == updates[i].seqNumber
  {
    if updates == [] {
      assert sent + AsSnapshots(updates) == sent;
    } else {
      var before, u := updates[..|updates| - 1], updates[|updates| - 1];
      ToldSnapshots(sent, before, symbol);
      assert sent + AsSnapshots(updates) == (sent + AsSnapshots(before)) + [Snapshot(u)];
      ToldSnoc(sent + AsSnapshots(before), Snapshot(u), symbol);
      forall i | 0 <= i < |updates| && updates[i].symbol == symbol
        ensures LastTold(sent + AsSnapshots(updates), symbol) == Some(updates[i])
        ensures LastNumber(sent + AsSnapshots(updates), symbol) == updates[i].seqNumber
      {
        if i < |before| { assert updates[i] == before[i]; }
      }
    }
  }

  lemma {:induction false} CountGrows(log: seq<Update>, n: nat, symbol: string)
    requires n <= |log|
    ensures Count(log[..n], symbol) <= Count(log, symbol)
  {
    if n < |log| {
      CountGrows(log[..|log| - 1], n, symbol);
      assert log[..|log| - 1][..n] == log[..n];
    } else {
      assert log[..n] == log;
    }
  }

  lemma CountStep(log: seq<Update>, n: nat, symbol: string)
    requires n < |log|
    ensures Count(log[..n + 1], symbol) == Count(log[..n], symbol) + (if log[n].symbol == symbol then 1 else 0)
  {
    assert log[..n + 1] == log[..n] + [log[n]];
    CountSnoc(log[..n], log[n], symbol);
  }

  lemma {:induction false} LatestAt(log: seq<Update>, j: nat, symbol: string)
    requires j < |log| && log[j].symbol == symbol
    requires forall i :: j < i < |log| ==> log[i].symbol != symbol
    ensures Latest(log, symbol) == Some(log[j])
  {
    if j < |log| - 1 { LatestAt(log[..|log| - 1], j, symbol); }
  }

  lemma NoGapSnoc(sent: seq<Message>, m: Message)
    requires NoGap(sent)
    requires m.DeltaOf? ==> m.update.seqNumber <= LastNumber(sent, m.update.symbol) + 1
    ensures NoGap(sent + [m])
  {
    var all := sent + [m];
    forall p | 0 <= p < |all| && all[p].DeltaOf?
      ensures all[p].update.seqNumber <= LastNumber(all[..p], all[p].update.symbol) + 1
    {
      if p < |sent| { assert all[..p] == sent[..p]; } else { assert all[..p] == sent; }
    }
  }

  // ----- every step -----

  lemma PublishKeeps(s: State, u: Update)
    requires StreamInv(s) && Enabled(s, Publish(u))
    ensures StreamInv(s.(log := s.log + [u]))
  {
    var s' := s.(log := s.log + [u]);
    NumberedSnoc(s.log, u);
    forall symbol | !SnapshotsDue(s) && Count(s'.log, symbol) > 0 ensures UpToDate(s', symbol) && Reached(s', symbol) {
      CountSnoc(s.log, u, symbol);
      assert s'.log[..s.cursor] == s.log[..s.cursor];
      CountGrows(s.log, s.cursor, symbol);
      assert s'.log[|s.log|] == u;
      if u.symbol != symbol && OnItsWay(s, symbol) {
        var j :| s.cursor <= j < |s.log| && s.log[j].symbol == symbol;
        assert s'.log[j].symbol == symbol;
      }
    }
  }

  lemma ReadAllKeeps(s: State, snapshots: seq<Update>)
    requires StreamInv(s) && Enabled(s, ReadAll(snapshots))
    ensures StreamInv(s.(phase := Sending(snapshots)))
  {
    var s' := s.(phase := Sending(snapshots));
    forall symbol | Count(s.log, symbol) > 0 ensures UpToDate(s', symbol) && Reached(s', symbol) {
      var i :| 0 <= i < |snapshots| && snapshots[i].symbol == symbol;
      ToldSnapshots(s.sent, snapshots, symbol);
      LatestIsNewest(s.log, symbol);
      CountGrows(s.log, s.cursor, symbol);
    }
  }

  lemma ReadOneKeeps(s: State)
    requires StreamInv(s) && Enabled(s, ReadOne)
    ensures StreamInv(Step(s, ReadOne, 0))
  {
    hide NoGap, Numbered, UpToDate, Reached;
    var s' := Step(s, ReadOne, 0);
    forall symbol | Count(s.log, symbol) > 0 ensures UpToDate(s', symbol) && Reached(s', symbol) {
      ReadOneTells(s, symbol);
    }
  }

  lemma ReadOneTells(s: State, symbol: string)
    requires StreamInv(s) && Enabled(s, ReadOne) && Count(s.log, symbol) > 0
    ensures UpToDate(Step(s, ReadOne, 0), symbol) && Reached(Step(s, ReadOne, 0), symbol)
  {
    hide NoGap, Numbered, LastMessage, Count, Latest;
    var s' := Step(s, ReadOne, 0);
    LatestIsNewest(s.log, s.phase.symbol);
    ToldSnapshots(s.sent, s'.phase.left, symbol);
    CountGrows(s.log, s.cursor, symbol);
    assert UpToDate(s, symbol) && Reached(s, symbol);
    if OnItsWay(s, symbol) { assert OnItsWay(s', symbol); }
  }

  lemma SendNextKeeps(s: State)
    requires StreamInv(s) && Enabled(s, SendNext)
    ensures StreamInv(Step(s, SendNext, 0))
  {
    var s' := Step(s, SendNext, 0);
    assert Told(s') == Told(s);
    if s.phase.left != [] { NoGapSnoc(s.sent, Snapshot(s.phase.left[0])); }
    forall symbol | Count(s.log, symbol) > 0 ensures UpToDate(s', symbol) && Reached(s', symbol) {
      assert UpToDate(s, symbol) && Reached(s, symbol);
      if OnItsWay(s, symbol) { assert OnItsWay(s', symbol); }
    }
  }

  lemma DeltaKeeps(s: State)
    requires StreamInv(s) && s.phase.Waiting? && s.cursor < |s.log|
    ensures StreamInv(s.(cursor := s.cursor + 1, sent := s.sent + [DeltaOf(s.log[s.cursor])]))
  {
    var u := s.log[s.cursor];
    var s' := s.(cursor := s.cursor + 1, sent := s.sent + [DeltaOf(u)]);
    CountStep(s.log, s.cursor, u.symbol);
    CountGrows(s.log, s.cursor + 1, u.symbol);
    assert Reached(s, u.symbol);
    NoGapSnoc(s.sent, DeltaOf(u));
    forall symbol | Count(s.log, symbol) > 0 ensures UpToDate(s', symbol) && Reached(s', symbol) {
      ToldSnoc(s.sent, DeltaOf(u), symbol);
      CountStep(s.log, s.cursor, symbol);
      assert UpToDate(s, symbol) && Reached(s, symbol);
      DeltaUpToDate(s, symbol);
    }
  }

  lemma DeltaUpToDate(s: State, symbol: string)
    requires s.phase.Waiting? && s.cursor < |s.log| && UpToDate(s, symbol)
    ensures UpToDate(s.(cursor := s.cursor + 1, sent := s.sent + [DeltaOf(s.log[s.cursor])]), symbol)
  {
    var u := s.log[s.cursor];
    var s' := s.(cursor := s.cursor + 1, sent := s.sent + [DeltaOf(u)]);
    ToldSnoc(s.sent, DeltaOf(u), symbol);
    if u.symbol != symbol && OnItsWay(s, symbol) {
      var j :| s.cursor <= j < |s.log| && s.log[j].symbol == symbol;
      assert s'.log[j].symbol == symbol && s'.cursor <= j;
    } else if u.symbol == symbol && !OnItsWay(s', symbol) {
      LatestAt(s.log, s.cursor, symbol);
    }
  }

  lemma LagKeeps(s: State, capacity: nat)
    requires StreamInv(s) && Lagged(s, capacity)
    ensures StreamInv(s.(cursor := |s.log| - capacity, phase := MustSnapshotAll))
  {
  }

  lemma StepKeepsStreamInv(s: State, a: Action, capacity: nat)
    requires StreamInv(s) && Enabled(s, a)
    ensures StreamInv(Step(s, a, capacity))
  {
    match a
    case Publish(u) => PublishKeeps(s, u);
    case ReadAll(snapshots) => ReadAllKeeps(s, snapshots);
    case ReadOne => ReadOneKeeps(s);
    case SendNext => SendNextKeeps(s);
    case Receive =>
      if Lagged(s, capacity) { LagKeeps(s, capacity); }
      else if s.cursor < |s.log| { DeltaKeeps(s); }
    case ResyncAll =>
    case ResyncOne(symbol) =>
      var s' := Step(s, a, capacity);
      forall other | Count(s.log, other) > 0 ensures UpToDate(s', other) && Reached(s', other) {
        assert UpToDate(s, other) && Reached(s, other);
        if OnItsWay(s, other) { assert OnItsWay(s', other); }
      }
  }

  // ----- every run of one connection -----

  ghost predicate Feasible(log: seq<Update>, actions: seq<Action>, capacity: nat)
    requires Numbered(log)
    decreases |actions|, 0
  {
    actions == [] ||
    var before := actions[..|actions| - 1];
    Feasible(log, before, capacity) && Enabled(After(log, before, capacity), actions[|actions| - 1])
  }

  ghost function After(log: seq<Update>, actions: seq<Action>, capacity: nat): (s: State)
    requires Numbered(log) && Feasible(log, actions, capacity)
    ensures StreamInv(s)
    decreases |actions|, 1
  {
    if actions == [] then Subscribe(log)
    else
      var before := After(log, actions[..|actions| - 1], capacity);
      StepKeepsStreamInv(before, actions[|actions| - 1], capacity);
      Step(before, actions[|actions| - 1], capacity)
  }

  /** Nothing more to send: in the event loop, with the receiver at the end of the broadcast. */
  predicate Drained(s: State) {
    s.phase.Waiting? && s.cursor == |s.log|
  }

  /**
   However publishing, lagging and resyncing interleave: a drained client has been told last, for
   each instrument, the publisher's current quote with its current sequence number.
   */
  lemma DrainedClientsAreCurrent(log: seq<Update>, actions: seq<Action>, capacity: nat, symbol: string)
    requires Numbered(log) && Feasible(log, actions, capacity)
    ensures var s := After(log, actions, capacity);
      Drained(s) && Count(s.log, symbol) > 0 ==>
        && LastTold(s.sent, symbol) == Latest(s.log, symbol)
        && Latest(s.log, symbol).Some? && Latest(s.log, symbol).value.seqNumber == Count(s.log, symbol)
  {
    var s := After(log, actions, capacity);
    LatestIsNewest(s.log, symbol);
    if Drained(s) && Count(s.log, symbol) > 0 { assert UpToDate(s, symbol); }
  }

  /** No delta ever skips past the number the client saw last, plus one; lag included. */
  lemma DeltasLeaveNoGap(log: seq<Update>, actions: seq<Action>, capacity: nat, p: nat)
    requires Numbered(log) && Feasible(log, actions, capacity)
    requires p < |After(log, actions, capacity).sent| && After(log, actions, capacity).sent[p].DeltaOf?
    ensures var sent := After(log, actions, capacity).sent;
      sent[p].update.seqNumber <= LastNumber(sent[..p], sent[p].update.symbol) + 1
  {
  }

  // ----- connections that never lag -----

  /** The updates sent as deltas, in order. */
  function DeltasIn(sent: seq<Message>): seq<Update> {
    if sent == [] then []
    else DeltasIn(sent[..|sent| - 1]) + (if sent[|sent| - 1].DeltaOf? then [sent[|sent| - 1].update] else [])
  }

  lemma DeltasInSnoc(sent: seq<Message>, m: Message)
    ensures DeltasIn(sent + [m]) == DeltasIn(sent) + (if m.DeltaOf? then [m.update] else [])
  {
    assert (sent + [m])[..|sent|] == sent;
  }

  /** No receive ever finds that the broadcast has dropped something the client was still to get. */
  ghost predicate NeverLags(log: seq<Update>, actions: seq<Action>, capacity: nat)
    requires Numbered(log) && Feasible(log, actions, capacity)
    decreases |actions|
  {
    actions == [] ||
    var before := actions[..|actions| - 1];
    && NeverLags(log, before, capacity)
    && (actions[|actions| - 1].Receive? ==> !Lagged(After(log, before, capacity), capacity))
  }

  /** The deltas sent are those of the broadcast from the subscription up to the cursor. */
  ghost predicate FollowsTheLog(log: seq<Update>, s: State) {
    log <= s.log && |log| <= s.cursor <= |s.log| && DeltasIn(s.sent) == s.log[|log|..s.cursor]
  }

  lemma StepFollowsTheLog(log: seq<Update>, s: State, a: Action, capacity: nat)
    requires FollowsTheLog(log, s) && Enabled(s, a) && (a.Receive? ==> !Lagged(s, capacity))
    ensures FollowsTheLog(log, Step(s, a, capacity))
  {
    hide DeltasIn;
    match a {
      case Publish(u) => assert (s.log + [u])[|log|..s.cursor] == s.log[|log|..s.cursor];
      case SendNext =>
        if s.phase.left != [] { DeltasInSnoc(s.sent, Snapshot(s.phase.left[0])); }
      case Receive =>
        if s.cursor < |s.log| {
          DeltasInSnoc(s.sent, DeltaOf(s.log[s.cursor]));
          assert s.log[|log|..s.cursor + 1] == s.log[|log|..s.cursor] + [s.log[s.cursor]];
        }
      case _ =>
    }
  }

  /**
   Without lag, whatever is resynced, the client gets every update since it subscribed as a delta, once and in
   order.
   */
  lemma {:induction false} DeltasAreTheBroadcast(log: seq<Update>, actions: seq<Action>, capacity: nat)
    requires Numbered(log) && Feasible(log, actions, capacity) && NeverLags(log, actions, capacity)
    ensures FollowsTheLog(log, After(log, actions, capacity))
    decreases |actions|
  {
    hide FollowsTheLog, Step, Enabled;
    if actions == [] {
      NothingSentYet(log);
    } else {
      var before, a := actions[..|actions| - 1], actions[|actions| - 1];
      DeltasAreTheBroadcast(log, before, capacity);
      StepFollowsTheLog(log, After(log, before, capacity), a, capacity);
    }
  }

  lemma NothingSentYet(log: seq<Update>)
    ensures FollowsTheLog(log, Subscribe(log))
  {
  }

  /** Two updates of one instrument with none between them have consecutive numbers. */
  lemma {:induction false} NextNumber(log: seq<Update>, i: nat, j: nat)
    requires Numbered(log) && i < j < |log| && log[i].symbol == log[j].symbol
    requires forall k :: i < k < j ==> log[k].symbol != log[i].symbol
    ensures log[j].seqNumber == log[i].seqNumber + 1
  {
    CountStep(log, i, log[i].symbol);
    CountUnchanged(log, i + 1, j, log[i].symbol);
  }

  lemma {:induction false} CountUnchanged(log: seq<Update>, i: nat, j: nat, symbol: string)
    requires i <= j <= |log| && forall k :: i <= k < j ==> log[k].symbol != symbol
    ensures Count(log[..j], symbol) == Count(log[..i], symbol)
  {
    if i < j {
      CountUnchanged(log, i, j - 1, symbol);
      CountStep(log, j - 1, symbol);
    }
  }

  /** Without lag, consecutive deltas of one instrument differ by exactly one. */
  lemma ConsecutiveDeltasDifferByOne(log: seq<Update>, actions: seq<Action>, capacity: nat, i: nat, j: nat)
    requires Numbered(log) && Feasible(log, actions, capacity) && NeverLags(log, actions, capacity)
    requires var deltas := DeltasIn(After(log, actions, capacity).sent);
      && i < j < |deltas| && deltas[i].symbol == deltas[j].symbol
      && forall k :: i < k < j ==> deltas[k].symbol != deltas[i].symbol
    ensures var deltas := DeltasIn(After(log, actions, capacity).sent);
      deltas[j].seqNumber == deltas[i].seqNumber + 1
  {
    hide After, Feasible, NeverLags, DeltasIn, NoGap, UpToDate, Reached, Numbered;
    var s := After(log, actions, capacity);
    var deltas, n := DeltasIn(s.sent), |log|;
    DeltasAreTheBroadcast(log, actions, capacity);
    NextNumberInSlice(s.log, n, s.cursor, i, j);
  }

  lemma NextNumberInSlice(log: seq<Update>, n: nat, m: nat, i: nat, j: nat)
    requires Numbered(log) && n <= m <= |log| && i < j < m - n
    requires var part := log[n..m];
      part[i].symbol == part[j].symbol && forall k :: i < k < j ==> part[k].symbol != part[i].symbol
    ensures log[n..m][j].seqNumber == log[n..m][i].seqNumber + 1
  {
    hide Numbered;
    var part := log[n..m];
    forall k | n + i < k < n + j ensures log[k].symbol != log[n + i].symbol {
      assert part[k - n] == log[k];
    }
    NextNumber(log, n + i, n + j);
  }
}
