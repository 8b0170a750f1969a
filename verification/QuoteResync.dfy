/** What a client is sent, and when: requests for a snapshot are answered, updates still held are delivered. */
module QuoteResync {
  import opened OrderTypes
  import opened QuotePublisher
  import opened QuoteStream

  /** The state after some actions of the ingestion thread and of the connection. */
  function From(s: State, actions: seq<Action>, capacity: nat): State
    decreases |actions|
  {
    if actions == [] then s else From(Step(s, actions[0], capacity), actions[1..], capacity)
  }

  /** A feasible run that ends in the event loop and is not there before. */
  ghost predicate ReturnsToLoop(s: State, actions: seq<Action>, capacity: nat)
    decreases |actions|
  {
    if actions == [] then s.phase.Waiting?
    else
      && !s.phase.Waiting? && Enabled(s, actions[0])
      && ReturnsToLoop(Step(s, actions[0], capacity), actions[1..], capacity)
  }

  /** The one snapshot of an instrument that the log has to offer, if it has one. */
  function SnapshotOf(log: seq<Update>, symbol: string): seq<Message> {
    var latest := Latest(log, symbol);
    if latest.Some? then [Snapshot(latest.value)] else []
  }

  lemma {:induction false} SendingIsFinished(s: State, actions: seq<Action>, capacity: nat)
    requires s.phase.Sending? && ReturnsToLoop(s, actions, capacity)
    ensures var end := From(s, actions, capacity);
      s.log <= end.log && end.cursor == s.cursor && end.sent == s.sent + AsSnapshots(s.phase.left)
    decreases |actions|
  {
    var a, next := actions[0], Step(s, actions[0], capacity);
    if next.phase.Waiting? {
      assert s.sent + AsSnapshots(s.phase.left) == s.sent;
      NothingFollows(next, actions[1..], capacity);
    } else {
      SendingIsFinished(next, actions[1..], capacity);
      if a.SendNext? {
        assert AsSnapshots(s.phase.left) == [Snapshot(s.phase.left[0])] + AsSnapshots(s.phase.left[1..]);
      }
    }
  }

  lemma NothingFollows(s: State, actions: seq<Action>, capacity: nat)
    requires s.phase.Waiting? && ReturnsToLoop(s, actions, capacity)
    ensures From(s, actions, capacity) == s
  {
  }

  lemma {:induction false} OneIsRead(s: State, actions: seq<Action>, capacity: nat) returns (read: seq<Update>)
    requires s.phase.MustSnapshotOne? && ReturnsToLoop(s, actions, capacity)
    ensures var end := From(s, actions, capacity);
      s.log <= read <= end.log && end.cursor == s.cursor && end.sent == s.sent + SnapshotOf(read, s.phase.symbol)
    decreases |actions|
  {
    hide Latest;
    var next := Step(s, actions[0], capacity);
    match actions[0] {
      case ReadOne =>
        read := s.log;
        SendingIsFinished(next, actions[1..], capacity);
        OneSnapshot(s.log, s.phase.symbol);
      case Publish(u) =>
        read := OneIsRead(next, actions[1..], capacity);
    }
  }

  lemma OneSnapshot(log: seq<Update>, symbol: string)
    ensures var latest := Latest(log, symbol);
      AsSnapshots(if latest.Some? then [latest.value] else []) == SnapshotOf(log, symbol)
  {
  }

  lemma {:induction false} AllAreRead(s: State, actions: seq<Action>, capacity: nat)
    returns (read: seq<Update>, snapshots: seq<Update>)
    requires SnapshotsDue(s) && ReturnsToLoop(s, actions, capacity)
    ensures var end := From(s, actions, capacity);
      && s.log <= read <= end.log && end.cursor == s.cursor
      && IsFullSnapshot(read, snapshots) && end.sent == s.sent + AsSnapshots(snapshots)
    decreases |actions|
  {
    hide IsFullSnapshot;
    var next := Step(s, actions[0], capacity);
    match actions[0] {
      case ReadAll(all) =>
        read, snapshots := s.log, all;
        SendingIsFinished(next, actions[1..], capacity);
      case Publish(u) =>
        read, snapshots := AllAreRead(next, actions[1..], capacity);
    }
  }

  /**
   After a request to resync one instrument, however publishing goes on, the client is back in the event
   loop with one message more: a snapshot of the newest update of that instrument at the moment it was
   read, or with none if there was no such update. Nothing else is received meanwhile.
   */
  lemma ResyncOneIsAnswered(s: State, symbol: string, actions: seq<Action>, capacity: nat) returns (read: seq<Update>)
    requires s.phase.Waiting? && ReturnsToLoop(Step(s, ResyncOne(symbol), capacity), actions, capacity)
    ensures var end := From(Step(s, ResyncOne(symbol), capacity), actions, capacity);
      s.log <= read <= end.log && end.cursor == s.cursor && end.sent == s.sent + SnapshotOf(read, symbol)
  {
    read := OneIsRead(Step(s, ResyncOne(symbol), capacity), actions, capacity);
  }

  /** A request to resync everything: one snapshot for every instrument published at the moment of reading. */
  lemma ResyncAllIsAnswered(s: State, actions: seq<Action>, capacity: nat)
    returns (read: seq<Update>, snapshots: seq<Update>)
    requires s.phase.Waiting? && ReturnsToLoop(Step(s, ResyncAll, capacity), actions, capacity)
    ensures var end := From(Step(s, ResyncAll, capacity), actions, capacity);
      && s.log <= read <= end.log && end.cursor == s.cursor
      && IsFullSnapshot(read, snapshots) && end.sent == s.sent + AsSnapshots(snapshots)
  {
    read, snapshots := AllAreRead(Step(s, ResyncAll, capacity), actions, capacity);
  }

  /** A client that lagged is sent the same, and goes on with the oldest update the broadcast still holds. */
  lemma LagIsAnswered(s: State, actions: seq<Action>, capacity: nat)
    returns (read: seq<Update>, snapshots: seq<Update>)
    requires s.phase.Waiting? && s.cursor + capacity < |s.log|
    requires ReturnsToLoop(Step(s, Receive, capacity), actions, capacity)
    ensures var end := From(Step(s, Receive, capacity), actions, capacity);
      && s.log <= read <= end.log && end.cursor == |s.log| - capacity
      && IsFullSnapshot(read, snapshots) && end.sent == s.sent + AsSnapshots(snapshots)
  {
    read, snapshots := AllAreRead(Step(s, Receive, capacity), actions, capacity);
  }

  /** A new client is sent the same before its first delta, and its deltas start where it subscribed. */
  lemma SubscriptionIsAnswered(log: seq<Update>, actions: seq<Action>, capacity: nat)
    returns (read: seq<Update>, snapshots: seq<Update>)
    requires ReturnsToLoop(Subscribe(log), actions, capacity)
    ensures var end := From(Subscribe(log), actions, capacity);
      && log <= read <= end.log && end.cursor == |log|
      && IsFullSnapshot(read, snapshots) && end.sent == AsSnapshots(snapshots)
  {
    read, snapshots := AllAreRead(Subscribe(log), actions, capacity);
    assert [] + AsSnapshots(snapshots) == AsSnapshots(snapshots);
  }

  function AsDeltas(updates: seq<Update>): seq<Message> {
    if updates == [] then [] else [DeltaOf(updates[0])] + AsDeltas(updates[1..])
  }

  function Receives(n: nat): seq<Action> {
    if n == 0 then [] else [Receive] + Receives(n - 1)
  }

  /** A client in the event loop that has not lagged is sent the updates it has not read, one for each time it reads. */
  lemma {:induction false} BroadcastIsDelivered(s: State, n: nat, capacity: nat)
    requires s.phase.Waiting? && s.cursor + n <= |s.log| <= s.cursor + capacity
    ensures From(s, Receives(n), capacity)
         == s.(cursor := s.cursor + n, sent := s.sent + AsDeltas(s.log[s.cursor..s.cursor + n]))
    decreases n
  {
    if n == 0 {
      assert s.sent + [] == s.sent;
    } else {
      var unread := s.log[s.cursor..s.cursor + n];
      assert unread[1..] == s.log[s.cursor + 1..s.cursor + n];
      assert Receives(n)[1..] == Receives(n - 1);
      BroadcastIsDelivered(Step(s, Receive, capacity), n - 1, capacity);
      assert s.sent + [DeltaOf(unread[0])] + AsDeltas(unread[1..]) == s.sent + AsDeltas(unread);
    }
  }

  /** The connection can always answer by itself, in two or three steps. */
  lemma ResyncOneCanBeAnswered(s: State, symbol: string, capacity: nat) returns (actions: seq<Action>)
    requires s.phase.Waiting?
    ensures ReturnsToLoop(Step(s, ResyncOne(symbol), capacity), actions, capacity) && 2 <= |actions| <= 3
    ensures forall i :: 0 <= i < |actions| ==> !actions[i].Publish?
  {
    hide Latest;
    var asked := Step(s, ResyncOne(symbol), capacity);
    var reading := Step(asked, ReadOne, capacity);
    var finish := if reading.phase.left == [] then [SendNext] else [SendNext, SendNext];
    actions := [ReadOne] + finish;
    assert actions[1..] == finish && finish[1..] == (if reading.phase.left == [] then [] else [SendNext]);
    if reading.phase.left != [] { assert [SendNext][1..] == []; }
    SendsAll(reading, capacity);
  }

  lemma SendsAll(s: State, capacity: nat)
    requires s.phase.Sending? && |s.phase.left| <= 1
    ensures ReturnsToLoop(s, if s.phase.left == [] then [SendNext] else [SendNext, SendNext], capacity)
  {
    assert [SendNext][1..] == [] && [SendNext, SendNext][1..] == [SendNext];
    var sent := if s.phase.left == [] then s.sent else s.sent + [Snapshot(s.phase.left[0])];
    var last := s.(phase := Sending([]), sent := sent);
    assert ReturnsToLoop(last, [SendNext], capacity);
    if s.phase.left != [] { assert Step(s, SendNext, capacity) == last; }
  }
}
