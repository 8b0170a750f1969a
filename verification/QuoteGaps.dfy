/**
 When a client of the quote feed sees a gap: a number that does not immediately follow the one it
 saw last for the same instrument.
 */
module QuoteGaps {
  import opened OrderTypes
  import opened QuotePublisher
  import opened QuoteStream

  lemma LastMessageSnoc(sent: seq<Message>, m: Message, symbol: string)
    ensures LastMessage(sent + [m], symbol) == if m.update.symbol == symbol then Some(m) else LastMessage(sent, symbol)
  {
    assert (sent + [m])[..|sent|] == sent;
  }

  lemma {:induction false} LastMessageSnapshots(sent: seq<Message>, updates: seq<Update>, symbol: string)
    ensures (forall i :: 0 <= i < |updates| ==> updates[i].symbol != symbol) ==>
      LastMessage(sent + AsSnapshots(updates), symbol) == LastMessage(sent, symbol)
    ensures (exists i :: 0 <= i < |updates| && updates[i].symbol == symbol) ==>
      LastMessage(sent + AsSnapshots(updates), symbol).Some?
          && LastMessage(sent + AsSnapshots(updates), symbol).value.Snapshot?
  {
    if updates == [] {
      assert sent + AsSnapshots(updates) == sent;
    } else {
      var before, u := updates[..|updates| - 1], updates[|updates| - 1];
      LastMessageSnapshots(sent, before, symbol);
      assert sent + AsSnapshots(updates) == (sent + AsSnapshots(before)) + [Snapshot(u)];
      LastMessageSnoc(sent + AsSnapshots(before), Snapshot(u), symbol);
      assert forall i :: 0 <= i < |before| ==> before[i] == updates[i];
    }
  }

  /**
   What was told last about an instrument: nothing before it is published, and if it was a delta, the
   one that the cursor passed last.
   */
  ghost predicate DeltaIsCurrent(s: State, symbol: string)
    requires s.cursor <= |s.log|
  {
    var m := LastMessage(Told(s), symbol);
    && (Count(s.log, symbol) == 0 ==> m == None)
    && (!SnapshotsDue(s) && m.Some? && m.value.DeltaOf? ==>
        m.value.update.seqNumber == Count(s.log[..s.cursor], symbol))
  }

  ghost predicate GapInv(s: State) {
    StreamInv(s) && forall symbol {:trigger DeltaIsCurrent(s, symbol)} :: DeltaIsCurrent(s, symbol)
  }

  lemma PublishKeepsGap(s: State, u: Update, symbol: string)
    requires StreamInv(s) && DeltaIsCurrent(s, symbol)
    ensures DeltaIsCurrent(s.(log := s.log + [u]), symbol)
  {
    CountSnoc(s.log, u, symbol);
    assert (s.log + [u])[..s.cursor] == s.log[..s.cursor];
  }

  lemma SnapshotsKeepGap(s: State, snapshots: seq<Update>, symbol: string)
    requires StreamInv(s) && DeltaIsCurrent(s, symbol) && !s.phase.Sending?
    requires forall i :: 0 <= i < |snapshots| ==> Count(s.log, snapshots[i].symbol) > 0
    requires SnapshotsDue(s) ==> (Count(s.log, symbol) > 0 ==> Mentions(snapshots, symbol))
    ensures DeltaIsCurrent(s.(phase := Sending(snapshots)), symbol)
  {
    LastMessageSnapshots(s.sent, snapshots, symbol);
  }

  lemma DeltaKeepsGap(s: State, symbol: string)
    requires StreamInv(s) && DeltaIsCurrent(s, symbol) && s.phase.Waiting? && s.cursor < |s.log|
    ensures DeltaIsCurrent(s.(cursor := s.cursor + 1, sent := s.sent + [DeltaOf(s.log[s.cursor])]), symbol)
  {
    hide NoGap, UpToDate, Reached, LastMessage, Count;
    var u := s.log[s.cursor];
    LastMessageSnoc(s.sent, DeltaOf(u), symbol);
    CountStep(s.log, s.cursor, symbol);
    CountGrows(s.log, s.cursor + 1, symbol);
  }

  lemma SnapshotsArePublished(log: seq<Update>, snapshots: seq<Update>)
    requires Numbered(log) && forall i :: 0 <= i < |snapshots| ==>
        Latest(log, snapshots[i].symbol) == Some(snapshots[i])
    ensures forall i :: 0 <= i < |snapshots| ==> Count(log, snapshots[i].symbol) > 0
  {
    forall i | 0 <= i < |snapshots| ensures Count(log, snapshots[i].symbol) > 0 {
      LatestIsNewest(log, snapshots[i].symbol);
    }
  }

  lemma StepKeepsGapInv(s: State, a: Action, capacity: nat)
    requires GapInv(s) && Enabled(s, a)
    ensures GapInv(Step(s, a, capacity))
  {
    StepKeepsStreamInv(s, a, capacity);
    var s' := Step(s, a, capacity);
    forall symbol ensures DeltaIsCurrent(s', symbol) {
      assert DeltaIsCurrent(s, symbol);
      StepKeepsDelta(s, a, capacity, symbol);
    }
  }

  lemma StepKeepsDelta(s: State, a: Action, capacity: nat, symbol: string)
    requires StreamInv(s) && StreamInv(Step(s, a, capacity)) && DeltaIsCurrent(s, symbol) && Enabled(s, a)
    ensures DeltaIsCurrent(Step(s, a, capacity), symbol)
  {
    hide NoGap, UpToDate, Reached, LastMessage, Count, Latest, Numbered;
    match a {
      case Publish(u) => PublishKeepsGap(s, u, symbol);
      case ReadAll(snapshots) =>
        SnapshotsArePublished(s.log, snapshots);
        SnapshotsKeepGap(s, snapshots, symbol);
      case ReadOne =>
        LatestIsNewest(s.log, s.phase.symbol);
        var snapshots := Step(s, a, capacity).phase.left;
        SnapshotsArePublished(s.log, snapshots);
        SnapshotsKeepGap(s, snapshots, symbol);
      case SendNext => assert Told(Step(s, a, capacity)) == Told(s);
      case Receive =>
        if !Lagged(s, capacity) && s.cursor < |s.log| { DeltaKeepsGap(s, symbol); }
      case ResyncAll =>
      case ResyncOne(_) =>
    }
  }

  lemma {:induction false} RunsKeepGapInv(log: seq<Update>, actions: seq<Action>, capacity: nat)
    requires Numbered(log) && Feasible(log, actions, capacity)
    ensures GapInv(After(log, actions, capacity))
    decreases |actions|
  {
    hide StreamInv, DeltaIsCurrent, Step, Enabled;
    if actions == [] {
      SubscribedInv(log);
    } else {
      var before := actions[..|actions| - 1];
      RunsKeepGapInv(log, before, capacity);
      StepKeepsGapInv(After(log, before, capacity), actions[|actions| - 1], capacity);
    }
  }

  lemma SubscribedInv(log: seq<Update>)
    requires Numbered(log)
    ensures GapInv(Subscribe(log))
  {
    assert log[..|log|] == log;
  }

  /** The last message about the instrument is a snapshot that already holds this update. */
  ghost predicate CoveredBySnapshot(sent: seq<Message>, u: Update) {
    var m := LastMessage(sent, u.symbol);
    m.Some? && m.value.Snapshot? && m.value.update.seqNumber >= u.seqNumber
  }

  /**
   Whatever was published, lagged or resynced before: the delta about to be sent immediately follows
   the number the client saw last, or else, and only then, the last message about its instrument was a
   snapshot that already holds the update. The latter is the only gap a client ever sees.
   */
  lemma DeltaFollowsUnlessCovered(log: seq<Update>, actions: seq<Action>, capacity: nat)
    requires Numbered(log) && Feasible(log, actions, capacity)
    ensures var s := After(log, actions, capacity);
      s.phase.Waiting? && s.cursor < |s.log| ==>
        var u := s.log[s.cursor];
        u.seqNumber == LastNumber(s.sent, u.symbol) + 1 <==> !CoveredBySnapshot(s.sent, u)
  {
    hide After, Feasible;
    RunsKeepGapInv(log, actions, capacity);
    var s := After(log, actions, capacity);
    if s.phase.Waiting? && s.cursor < |s.log| {
      var u := s.log[s.cursor];
      assert DeltaIsCurrent(s, u.symbol);
      CountStep(s.log, s.cursor, u.symbol);
      CountGrows(s.log, s.cursor + 1, u.symbol);
      assert Reached(s, u.symbol);
    }
  }

  /**
   Such a gap does occur: an update is broadcast between the subscription and the first snapshot, is told
   in the snapshot, and then comes once more as a delta.
   */
  lemma AClientSeesAGap(u: Update, capacity: nat)
    requires u.seqNumber == 1 && capacity > 0
    ensures var actions := [Publish(u), ReadAll([u]), SendNext, SendNext];
      && Numbered([]) && Feasible([], actions, capacity)
      && var s := After([], actions, capacity);
         s.phase.Waiting? && !Lagged(s, capacity) && s.cursor < |s.log| && s.log[s.cursor] == u
         && CoveredBySnapshot(s.sent, u) && u.seqNumber != LastNumber(s.sent, u.symbol) + 1
  {
    hide Enabled, Step, Feasible, After, Numbered, LastMessage;
    var s1, s2 := State([u], 0, SubscribedOnly, []), State([u], 0, Sending([u]), []);
    var s3, s4 := State([u], 0, Sending([]), [Snapshot(u)]), State([u], 0, Waiting, [Snapshot(u)]);
    var run1: seq<Action> := [Publish(u)];
    var run2, run3 := run1 + [ReadAll([u])], run1 + [ReadAll([u])] + [SendNext];
    NothingYet(capacity);
    FourSteps(u, capacity);
    RunOn([], [], capacity, Publish(u), Subscribe([]), s1);
    assert [] + [Publish(u)] == run1;
    RunOn([], run1, capacity, ReadAll([u]), s1, s2);
    RunOn([], run2, capacity, SendNext, s2, s3);
    RunOn([], run3, capacity, SendNext, s3, s4);
    assert run3 + [SendNext] == [Publish(u), ReadAll([u]), SendNext, SendNext];
    OneMessage(u);
  }

  lemma NothingYet(capacity: nat)
    ensures Numbered([]) && Feasible([], [], capacity) && After([], [], capacity) == Subscribe([])
  {
  }

  lemma FourSteps(u: Update, capacity: nat)
    requires u.seqNumber == 1
    ensures var s0, s1 := Subscribe([]), State([u], 0, SubscribedOnly, []);
      Enabled(s0, Publish(u)) && Step(s0, Publish(u), capacity) == s1
    ensures var s1, s2 := State([u], 0, SubscribedOnly, []), State([u], 0, Sending([u]), []);
      Enabled(s1, ReadAll([u])) && Step(s1, ReadAll([u]), capacity) == s2
    ensures var s2, s3 := State([u], 0, Sending([u]), []), State([u], 0, Sending([]), [Snapshot(u)]);
      Enabled(s2, SendNext) && Step(s2, SendNext, capacity) == s3
    ensures var s3, s4 := State([u], 0, Sending([]), [Snapshot(u)]), State([u], 0, Waiting, [Snapshot(u)]);
      Enabled(s3, SendNext) && Step(s3, SendNext, capacity) == s4
  {
    assert Count([], u.symbol) == 0 && [] + [u] == [u];
    assert [u][1..] == [] && [] + [Snapshot(u)] == [Snapshot(u)];
    TheOnlySnapshot(u);
  }

  /** A published update on an empty log is all there is to snapshot. */
  lemma TheOnlySnapshot(u: Update)
    ensures IsFullSnapshot([u], [u])
  {
    forall symbol | Count([u], symbol) > 0 ensures Mentions([u], symbol) {
      assert [] + [u] == [u];
      CountSnoc([], u, symbol);
      assert [u][0].symbol == symbol;
    }
  }

  lemma OneMessage(u: Update)
    ensures LastMessage([Snapshot(u)], u.symbol) == Some(Snapshot(u))
  {
  }

  lemma RunOn(log: seq<Update>, before: seq<Action>, capacity: nat, a: Action, s: State, s': State)
    requires Numbered(log) && Feasible(log, before, capacity) && After(log, before, capacity) == s
    requires Enabled(s, a) && Step(s, a, capacity) == s'
    ensures Feasible(log, before + [a], capacity) && After(log, before + [a], capacity) == s'
  {
    hide Enabled, Step, StreamInv;
    assert (before + [a])[..|before|] == before;
  }
}
