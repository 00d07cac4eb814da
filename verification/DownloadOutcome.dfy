/** Which message streams a download accepts: exactly those that spell out a whole DAG, packet by packet. */
module DownloadOutcome {
  import opened Wire
  import opened Credentials
  import opened Download
  import RS = ReceiveState
  import RR = ReceiveRuns
  import WindowAck

  /** Messages 0 to n-1 counted as such out of n, or none of them counted at all. */
  predicate Counted(ms: seq<UploadMessage>) {
    || (forall k :: 0 <= k < |ms| ==> ms[k].packet.index == k && ms[k].packet.total == |ms|)
    || (forall k :: 0 <= k < |ms| ==> ms[k].packet.index == 0 && ms[k].packet.total == 0)
  }

  /** The message fits the first one, and only the last is marked final. */
  predicate Fitting(root: string, ms: seq<UploadMessage>, k: nat)
    requires k < |ms|
  {
    var m := ms[k];
    && m.root == root && (m.isFinal <==> k == |ms| - 1)
    && (k > 0 ==> m.publicKey in ["", ms[0].publicKey] && m.signature in ["", ms[0].signature])
    && |m.packet.leaves| > 0 && RR.LeavesWellFormed(root, m.packet)
  }

  predicate StartsAtRoot(lib: Library, root: string, p: Packet) {
    lib.rootLeaf(p).Some? && lib.rootLeaf(p).value.hash == root
  }

  function AsAccepted(ms: seq<UploadMessage>): (accepted: seq<RR.Accepted>)
    ensures |accepted| == |ms| && forall k :: 0 <= k < |ms| ==> accepted[k] == RR.Accepted(ms[k], ms[k].packet)
  {
    seq(|ms|, k requires 0 <= k < |ms| => RR.Accepted(ms[k], ms[k].packet))
  }

  /** A whole DAG cut into packets of its own leaves, the root in the first, that the DAG library assembles and
      verifies, signed as the first message says. */
  predicate Deliverable(lib: Library, root: string, ms: seq<UploadMessage>) {
    && |ms| > 0 && Counted(ms)
    && Authentic(lib, root, ms[0].publicKey, ms[0].signature) && StartsAtRoot(lib, root, ms[0].packet)
    && (forall k :: 0 <= k < |ms| ==> Fitting(root, ms, k))
    && (forall j, k :: 0 <= j < k < |ms| ==> RS.Hashes(ms[j].packet) !! RS.Hashes(ms[k].packet))
    && var dag := Assembled(lib, root, AsAccepted(ms)); dag.Some? && lib.verify(dag.value)
  }

  // ---------- Deliverable messages are accepted ----------

  lemma {:induction false} HashFromPacket(accepted: seq<RR.Accepted>, hash: string)
    requires hash in RR.AllHashes(accepted)
    ensures exists j :: 0 <= j < |accepted| && hash in RS.Hashes(accepted[j].packet)
  {
    if hash !in RS.Hashes(accepted[|accepted| - 1].packet) {
      HashFromPacket(accepted[..|accepted| - 1], hash);
    }
  }

  lemma FreshLeaves(lib: Library, root: string, ms: seq<UploadMessage>, k: nat, seen: set<string>)
    requires Deliverable(lib, root, ms) && k < |ms| && seen == RR.AllHashes(AsAccepted(ms[..k]))
    ensures RS.Hashes(ms[k].packet) !! seen
  {
    forall hash | hash in seen
      ensures hash !in RS.Hashes(ms[k].packet)
    {
      HashFromPacket(AsAccepted(ms[..k]), hash);
      var j :| 0 <= j < k && hash in RS.Hashes(AsAccepted(ms[..k])[j].packet);
      assert RS.Hashes(ms[j].packet) !! RS.Hashes(ms[k].packet);
    }
  }

  lemma {:induction false} AssembledSoFar(lib: Library, root: string, ms: seq<UploadMessage>, k: nat)
    requires k <= |ms| && Assembled(lib, root, AsAccepted(ms)).Some?
    ensures Assembled(lib, root, AsAccepted(ms[..k])).Some?
    decreases |ms|
  {
    if k < |ms| {
      assert AsAccepted(ms)[..|ms| - 1] == AsAccepted(ms[..|ms| - 1]);
      assert ms[..|ms| - 1][..k] == ms[..k];
      AssembledSoFar(lib, root, ms[..|ms| - 1], k);
    } else {
      assert ms[..k] == ms;
    }
  }

  /** The receive state has come through the first k messages and expects more. */
  predicate Expects(root: string, ms: seq<UploadMessage>, k: nat, v: View) {
    && k < |ms| && v.root == root && !v.finalized && v.next == k
    && v.seenLeaves == RR.AllHashes(AsAccepted(ms[..k]))
    && v.publicKey == ms[0].publicKey && v.signature == ms[0].signature
    && (if k == 0 then !v.windowed && v.total == 0 else v.total == ms[0].packet.total && (v.windowed <==> v.total > 0))
  }

  lemma CountersExpected(ms: seq<UploadMessage>, root: string, k: nat, v: View)
    requires Expects(root, ms, k, v) && Counted(ms) && Fitting(root, ms, k)
    ensures var p := ms[k].packet;
      && p.total >= 0 && (k == 0 ==> p.index == 0)
      && RS.CounterFault(RS.Negotiated(v, p), ms[k], p).None?
  {
  }

  lemma NextIsAcceptable(lib: Library, root: string, ms: seq<UploadMessage>, k: nat, v: View)
    requires Deliverable(lib, root, ms) && Expects(root, ms, k, v)
    ensures RS.Acceptable(lib, v, ms[k], ms[k].packet)
  {
    hide Assembled, RR.LeavesWellFormed, RS.LeavesFault, RS.CounterFault, RS.Hashes, Counted;
    assert Fitting(root, ms, k) && Fitting(root, ms, 0);
    CountersExpected(ms, root, k, v);
    FreshLeaves(lib, root, ms, k, v.seenLeaves);
    RR.LeavesAcceptedExactly(RS.Negotiated(v, ms[k].packet), ms[k].packet);
  }

  /** A message that passes every check is applied, committed and answered positively. */
  lemma CheckedIsAnswered(lib: Library, root: string, r: Receiver, m: UploadMessage)
    requires AtDoor(lib, root, r, m) && RR.Consistent(Opened(r, m).history)
    requires RS.Acceptable(lib, Opened(r, m).history.view, m, m.packet)
    requires lib.apply(Opened(r, m).dag, m.packet).Some?
    requires m.isFinal ==> lib.verify(lib.apply(Opened(r, m).dag, m.packet).value)
    ensures Processed(lib, root, r, m).phase.Replying?
  {
    hide RR.Consistent, RS.Validation;
    TakenShape(lib, Opened(r, m).history, m, true);
  }

  /** The receiver has received the first messages, and wants more. */
  predicate Among(lib: Library, root: string, ms: seq<UploadMessage>, r: Receiver) {
    && Sound(lib, root, r) && r.phase.Listening?
    && |r.received| < |ms| && r.received == ms[..|r.received|]
  }

  lemma OpenedExpects(lib: Library, root: string, ms: seq<UploadMessage>, r: Receiver)
    requires Deliverable(lib, root, ms) && Among(lib, root, ms, r)
    ensures var k := |r.received|; var r1 := Opened(r, ms[k]);
      && RR.Consistent(r1.history) && Expects(root, ms, k, r1.history.view)
      && Some(r1.dag) == Assembled(lib, root, AsAccepted(ms[..k]))
      && AtDoor(lib, root, r, ms[k])
  {
    hide RR.LeavesWellFormed, RS.Hashes, Assembled, RR.OriginStable, RR.PacketsDisjoint, WindowAck.Encode;
    assert Fitting(root, ms, 0);
    var k := |r.received|;
    OpenedIsSound(lib, root, r, ms[k]);
    assert r.history.accepted == AsAccepted(ms[..k]);
    if k > 0 {
      assert r.history.accepted[0] == RR.Accepted(ms[0], ms[0].packet);
    }
  }

  lemma AmongBasics(lib: Library, root: string, ms: seq<UploadMessage>, r: Receiver)
    requires Among(lib, root, ms, r)
    ensures |r.received| < |ms| && r.phase.Listening?
  {
  }

  /** The receiver answers the next message of a deliverable stream positively. */
  lemma NextIsAnswered(lib: Library, root: string, ms: seq<UploadMessage>, r: Receiver)
    requires Deliverable(lib, root, ms) && Among(lib, root, ms, r)
    ensures Processed(lib, root, r, ms[|r.received|]).phase.Replying?
  {
    hide Among, RS.Acceptable, RR.Consistent, Expects, Counted, StartsAtRoot, RS.Hashes, RR.LeavesWellFormed;
    var k := |r.received|;
    AmongBasics(lib, root, ms, r);
    OpenedExpects(lib, root, ms, r);
    NextIsAcceptable(lib, root, ms, k, Opened(r, ms[k]).history.view);
    AssembledSoFar(lib, root, ms, k + 1);
    assert ms[..k + 1] == ms[..k] + [ms[k]];
    assert AsAccepted(ms[..k + 1]) == AsAccepted(ms[..k]) + [RR.Accepted(ms[k], ms[k].packet)];
    AssembledAppends(lib, root, AsAccepted(ms[..k]), RR.Accepted(ms[k], ms[k].packet));
    assert Fitting(root, ms, k);
    assert k == |ms| - 1 ==> ms[..k + 1] == ms;
    CheckedIsAnswered(lib, root, r, ms[k]);
  }

  lemma ReplyingIsFinal(lib: Library, root: string, r: Receiver, m: UploadMessage)
    requires Sound(lib, root, r) && r.phase.Listening? && AtDoor(lib, root, r, m)
    requires Processed(lib, root, r, m).phase.Replying?
    ensures Processed(lib, root, r, m).history.view.finalized == m.isFinal
  {
    hide RR.Consistent;
    OpenedIsSound(lib, root, r, m);
    TakenShape(lib, Opened(r, m).history, m, lib.apply(Opened(r, m).dag, m.packet).Some?);
  }

  lemma FinalFits(lib: Library, root: string, ms: seq<UploadMessage>, r: Receiver)
    requires Deliverable(lib, root, ms) && Among(lib, root, ms, r)
    ensures var k := |r.received|;
      && r.received == ms[..k] && (ms[k].isFinal <==> k == |ms| - 1) && AtDoor(lib, root, r, ms[k])
      && Sound(lib, root, r)
  {
    hide Sound, Counted, RS.Hashes, Assembled, RR.LeavesWellFormed;
    assert Fitting(root, ms, |r.received|) && Fitting(root, ms, 0);
  }

  lemma PositiveRound(r: Receiver)
    requires r.phase.Replying?
    ensures Replied(r, true).received == r.received
    ensures Replied(r, true).phase == if r.history.view.finalized then Finished else Listening
  {
    hide Reply;
  }

  lemma GoesOnAmong(lib: Library, root: string, ms: seq<UploadMessage>, r: Receiver)
    requires Sound(lib, root, r) && r.phase.Listening? && |r.received| < |ms| && r.received == ms[..|r.received|]
    ensures Among(lib, root, ms, r)
  {
  }

  /** The receiver after one more message of a deliverable stream and the reply to it. */
  lemma NextRound(lib: Library, root: string, ms: seq<UploadMessage>, r: Receiver)
    requires Deliverable(lib, root, ms) && Among(lib, root, ms, r)
    ensures var r' := Processed(lib, root, r, ms[|r.received|]);
      && r'.phase.Replying? && r'.received == ms[..|r.received| + 1] && Replied(r', true).received == r'.received
      && (if |r.received| + 1 < |ms| then Among(lib, root, ms, Replied(r', true))
          else Replied(r', true).phase.Finished?)
  {
    hide Deliverable, Among, Processed, Replied, Sound, Fitting;
    AmongBasics(lib, root, ms, r);
    var m := ms[|r.received|];
    FinalFits(lib, root, ms, r);
    NextIsAnswered(lib, root, ms, r);
    ReplyingIsFinal(lib, root, r, m);
    ProcessedIsSound(lib, root, r, m);
    ProcessedBasics(lib, root, r, m);
    RepliedIsSound(lib, root, Processed(lib, root, r, m), true);
    PositiveRound(Processed(lib, root, r, m));
    assert ms[..|r.received| + 1] == ms[..|r.received|] + [m];
    if |r.received| + 1 < |ms| {
      GoesOnAmong(lib, root, ms, Replied(Processed(lib, root, r, m), true));
    }
  }

  lemma TwoSteps(lib: Library, root: string, r: Receiver, incoming: seq<UploadMessage>, writes: nat)
    requires r.phase.Listening? && incoming != [] && writes > 0
    ensures var r' := Processed(lib, root, r, incoming[0]);
      && ReplyDue(r')
      && Served(lib, root, r, incoming, writes) == Served(lib, root, Replied(r', true), incoming[1..], writes - 1)
  {
    ProcessedBasics(lib, root, r, incoming[0]);
    hide Processed, Replied;
    assert Served(lib, root, r, incoming, writes)
        == Served(lib, root, Processed(lib, root, r, incoming[0]), incoming[1..], writes);
  }

  lemma {:induction false} DeliverableFinishes(lib: Library, root: string, ms: seq<UploadMessage>, r: Receiver,
                                               incoming: seq<UploadMessage>, writes: nat)
    requires Deliverable(lib, root, ms) && Among(lib, root, ms, r)
    requires ms[|r.received|..] <= incoming && writes >= |ms| - |r.received|
    ensures var end := Served(lib, root, r, incoming, writes);
      end.phase.Finished? && end.received == ms
    decreases |ms| - |r.received|
  {
    hide Deliverable, Among, Processed, Reply;
    AmongBasics(lib, root, ms, r);
    NextRound(lib, root, ms, r);
    var k := |r.received|;
    assert incoming[0] == ms[k];
    var r' := Processed(lib, root, r, ms[k]);
    var r'' := Replied(r', true);
    TwoSteps(lib, root, r, incoming, writes);
    if k + 1 < |ms| {
      assert ms[k + 1..] == ms[k..][1..];
      DeliverableFinishes(lib, root, ms, r'', incoming[1..], writes - 1);
    } else {
      assert ms[..k + 1] == ms;
    }
  }

  // ---------- Only deliverable messages are accepted ----------

  predicate VettedHistory(lib: Library, h: RR.History) {
    && (forall k :: 0 <= k < |h.accepted| ==> |h.accepted[k].packet.leaves| > 0)
    && (|h.accepted| > 0 ==> StartsAtRoot(lib, h.view.root, h.accepted[0].packet))
  }

  /** No accepted packet is empty, and the first contains the root. */
  predicate Vetted(lib: Library, r: Receiver) {
    VettedHistory(lib, r.history)
  }

  lemma CheckedIsVetted(lib: Library, v: View, m: UploadMessage, p: Packet)
    requires RS.Acceptable(lib, v, m, p)
    ensures |p.leaves| > 0 && (v.next == 0 ==> StartsAtRoot(lib, v.root, p))
  {
    hide RS.LeavesFault, RS.CounterFault;
  }

  lemma TakenVetted(lib: Library, h: RR.History, m: UploadMessage, applied: bool)
    requires VettedHistory(lib, h) && h.view.next == |h.accepted|
    ensures VettedHistory(lib, RR.Taken(lib, h, RR.Offer(Some(m), Some(m.packet), applied)))
  {
    RR.CheckFacts(lib, h.view, Some(m), Some(m.packet));
    if RS.Acceptable(lib, h.view, m, m.packet) {
      CheckedIsVetted(lib, h.view, m, m.packet);
    }
    hide RS.Validation, StartsAtRoot;
  }

  lemma ProcessedHistory(lib: Library, root: string, r: Receiver, m: UploadMessage)
    ensures var h, before := Processed(lib, root, r, m).history, Opened(r, m);
      h == r.history
      || h == RR.Taken(lib, before.history, RR.Offer(Some(m), Some(m.packet), lib.apply(before.dag, m.packet).Some?))
  {
    hide RR.Taken, RS.Validation;
  }

  lemma OpenedCounts(lib: Library, root: string, r: Receiver, m: UploadMessage)
    requires Sound(lib, root, r) && r.phase.Listening? && Vetted(lib, r)
    ensures var h := Opened(r, m).history; h.view.next == |h.accepted| && VettedHistory(lib, h)
  {
    hide RR.OriginStable, RR.LeavesConserved, RR.PacketsDisjoint, Assembled, StartsAtRoot;
  }

  lemma ProcessedVetted(lib: Library, root: string, r: Receiver, m: UploadMessage)
    requires Sound(lib, root, r) && r.phase.Listening? && Vetted(lib, r)
    ensures Vetted(lib, Processed(lib, root, r, m))
  {
    OpenedCounts(lib, root, r, m);
    ProcessedHistory(lib, root, r, m);
    hide Sound, Processed, Opened, RR.Taken, VettedHistory;
    TakenVetted(lib, Opened(r, m).history, m, lib.apply(Opened(r, m).dag, m.packet).Some?);
  }

  lemma SameHistoryVetted(lib: Library, r: Receiver, r': Receiver)
    requires Vetted(lib, r) && r'.history == r.history
    ensures Vetted(lib, r')
  {
  }

  lemma AdvancedVetted(lib: Library, root: string, r: Receiver, incoming: seq<UploadMessage>, writes: nat)
    requires Sound(lib, root, r) && Vetted(lib, r) && !Stopped(r)
    ensures Vetted(lib, Advanced(lib, root, r, incoming, writes))
  {
    hide Processed, Sound, Reply;
    if !ReplyDue(r) && incoming != [] {
      ProcessedVetted(lib, root, r, incoming[0]);
    }
  }

  lemma AdvancedTakes(lib: Library, root: string, r: Receiver, incoming: seq<UploadMessage>, writes: nat)
    requires !Stopped(r)
    ensures var r' := Advanced(lib, root, r, incoming, writes);
      && r'.received + (if ReplyDue(r) || incoming == [] then incoming else incoming[1..]) == r.received + incoming
      && r.received <= r'.received
      && |r'.sent| + (if ReplyDue(r) && writes > 0 then writes - 1 else writes) <= |r.sent| + writes
  {
    if !ReplyDue(r) && incoming != [] {
      ProcessedBasics(lib, root, r, incoming[0]);
    }
  }

  /** A download takes the stream's messages in order and writes no more replies than it may. */
  lemma {:induction false} ServedTakes(lib: Library, root: string, r: Receiver, incoming: seq<UploadMessage>,
                                       writes: nat)
    requires Sound(lib, root, r) && Vetted(lib, r)
    ensures var end := Served(lib, root, r, incoming, writes);
      && r.received <= end.received <= r.received + incoming && |end.sent| <= |r.sent| + writes
      && Vetted(lib, end)
    decreases |incoming|, StepsLeft(r)
  {
    hide Sound, Processed, Reply, Vetted;
    if !Stopped(r) {
      AdvancedIsSound(lib, root, r, incoming, writes);
      AdvancedVetted(lib, root, r, incoming, writes);
      AdvancedTakes(lib, root, r, incoming, writes);
      ServedTakes(lib, root, Advanced(lib, root, r, incoming, writes),
                  if ReplyDue(r) || incoming == [] then incoming else incoming[1..],
                  if ReplyDue(r) && writes > 0 then writes - 1 else writes);
    }
  }

  lemma FinishedIsCounted(lib: Library, root: string, r: Receiver)
    requires Sound(lib, root, r) && r.phase.Finished?
    ensures Counted(r.received) && |r.received| > 0
    ensures forall k :: 0 <= k < |r.received| ==> (r.received[k].isFinal <==> k == |r.received| - 1)
  {
    hide RR.OriginStable, RR.LeavesConserved, RR.PacketsDisjoint, WindowAck.Encode, Assembled;
    forall k | 0 <= k < |r.received|
      ensures r.history.accepted[k] == RR.Accepted(r.received[k], r.received[k].packet)
    {
    }
  }

  lemma FinishedFits(lib: Library, root: string, r: Receiver, k: nat)
    requires Sound(lib, root, r) && r.phase.Finished? && Vetted(lib, r) && k < |r.received|
    ensures Fitting(root, r.received, k)
  {
    FinishedIsCounted(lib, root, r);
    hide RR.CountersConsistent, RR.LeavesConserved, RR.LeavesWellFormed, WindowAck.Encode, Assembled;
    assert r.history.accepted[k] == RR.Accepted(r.received[k], r.received[k].packet);
  }

  lemma FinishedIsDeliverable(lib: Library, root: string, r: Receiver)
    requires Sound(lib, root, r) && r.phase.Finished? && Vetted(lib, r)
    ensures Deliverable(lib, root, r.received)
  {
    hide RR.CountersConsistent, RR.LeavesConserved, RR.LeavesWellFormed, WindowAck.Encode, Assembled, Fitting, Counted;
    FinishedIsCounted(lib, root, r);
    forall k | 0 <= k < |r.received|
      ensures Fitting(root, r.received, k)
    {
      FinishedFits(lib, root, r, k);
    }
    assert AsAccepted(r.received) == r.history.accepted;
    assert r.history.accepted[0] == RR.Accepted(r.received[0], r.received[0].packet);
  }

  // ---------- Both ways ----------

  lemma IdleIsAmong(lib: Library, root: string, ms: seq<UploadMessage>)
    requires Deliverable(lib, root, ms)
    ensures Among(lib, root, ms, Idle(root)) && ms != []
  {
    IdleIsSound(lib, root);
  }

  lemma FinishedTook(lib: Library, root: string, end: Receiver)
    requires Sound(lib, root, end) && end.phase.Finished?
    ensures |end.sent| == |end.received| && Some(end.dag) == Assembled(lib, root, AsAccepted(end.received))
  {
    hide RR.Consistent, WindowAck.Encode, Assembled;
    assert AsAccepted(end.received) == end.history.accepted;
  }

  /** A download succeeds exactly when the stream begins with a deliverable run of messages and as many replies can be
      written; it then took these messages and no other, and holds the DAG they spell out. */
  lemma FinishesExactly(lib: Library, root: string, incoming: seq<UploadMessage>, writes: nat)
    ensures var end := Served(lib, root, Idle(root), incoming, writes);
      && (end.phase.Finished? <==>
          exists n :: 0 <= n <= |incoming| && n <= writes && Deliverable(lib, root, incoming[..n]))
      && (forall n :: 0 <= n <= |incoming| && n <= writes && Deliverable(lib, root, incoming[..n]) ==>
          end.received == incoming[..n] && Some(end.dag) == Assembled(lib, root, AsAccepted(incoming[..n])))
  {
    hide Deliverable, Served, Sound;
    var end := Served(lib, root, Idle(root), incoming, writes);
    IdleIsSound(lib, root);
    DownloadIsSound(lib, root, incoming, writes);
    ServedTakes(lib, root, Idle(root), incoming, writes);
    if end.phase.Finished? {
      FinishedIsDeliverable(lib, root, end);
      FinishedTook(lib, root, end);
      assert incoming[..|end.received|] == end.received;
    }
    forall n | 0 <= n <= |incoming| && n <= writes && Deliverable(lib, root, incoming[..n])
      ensures end.phase.Finished? && end.received == incoming[..n]
        && Some(end.dag) == Assembled(lib, root, AsAccepted(incoming[..n]))
    {
      IdleIsAmong(lib, root, incoming[..n]);
      DeliverableFinishes(lib, root, incoming[..n], Idle(root), incoming, writes);
      FinishedTook(lib, root, end);
    }
  }
}
