/** How a session without faults turns out, and which transfers turn out how. */
module SessionOutcome {
  import opened Wire
  import opened AckReader
  import opened DownloadOutcome
  import opened Session
  import opened SessionLiveness
  import opened SessionSafety
  import opened SessionSimulation
  import S = Sender
  import SR = SenderRuns
  import D = Download
  import RS = ReceiveState
  import RR = ReceiveRuns
  import WindowAck

  // ---------- Well-formed transfers ----------

  /** The messages as the receiver decodes them. */
  function Shown(cfg: Config): (messages: seq<UploadMessage>)
    ensures |messages| == |cfg.upload.packets|
    ensures forall k :: 0 <= k < |messages| ==> messages[k] == Seen(cfg, S.Outgoing(cfg.upload, k))
  {
    seq(|cfg.upload.packets|, k requires 0 <= k < |cfg.upload.packets| => Seen(cfg, S.Outgoing(cfg.upload, k)))
  }

  /** The sender lets the sequence through, and what the receiver sees of it spells out a whole DAG. */
  predicate WellFormed(cfg: Config) {
    Valid(cfg) && Deliverable(cfg.lib, cfg.requested, Shown(cfg))
  }

  lemma WellFormedIsValid(cfg: Config)
    requires WellFormed(cfg)
    ensures Valid(cfg)
  {
  }

  /** The receiver answers the next message of a well-formed transfer positively. */
  lemma MessageIsAccepted(cfg: Config, r: D.Receiver)
    requires WellFormed(cfg) && D.Sound(cfg.lib, cfg.requested, r) && r.phase.Listening?
    requires Faithful(cfg, r.received) && |r.received| < |cfg.upload.packets|
    ensures D.Processed(cfg.lib, cfg.requested, r, Shown(cfg)[|r.received|]).phase.Replying?
  {
    hide Deliverable, D.Sound, D.Processed;
    assert r.received == Shown(cfg)[..|r.received|];
    NextIsAnswered(cfg.lib, cfg.requested, Shown(cfg), r);
  }

  predicate Accepting(r: D.Receiver) {
    r.phase.Listening? || r.phase.Replying? || r.phase.Finished?
  }

  /** Neither end has failed, rejected or broken, and a sender that succeeded left nothing behind. */
  predicate Untroubled(s: State) {
    Undisturbed(s) && Accepting(s.receiver)
  }

  lemma NextAccepting(cfg: Config, s: State, step: Step)
    requires WellFormed(cfg) && Inv(cfg, s) && Accepting(s.receiver) && Enabled(cfg, s, step) && !IsFault(step)
    ensures Accepting(Next(cfg, s, step).receiver)
  {
    hide SR.Sound, D.Sound, D.Processed, D.Reply, Linked, WellFormed, S.AfterRead, S.HasRoom;
    if step.Receive? {
      assert s.forward[0] == Messages(cfg)[|s.receiver.received|];
      MessageIsAccepted(cfg, s.receiver);
    }
  }

  /** In every fault-free run of a well-formed transfer neither end ever takes an error branch. */
  lemma {:induction false} NoErrorBranch(cfg: Config, steps: seq<Step>)
    requires WellFormed(cfg) && FaultFree(steps)
    ensures Untroubled(After(cfg, steps)) && !After(cfg, steps).sender.phase.Failed?
  {
    hide Inv, WellFormed, Enabled, Next;
    WellFormedIsValid(cfg);
    FaultFreeIsUndisturbed(cfg, steps);
    if steps != [] {
      var before, last := After(cfg, steps[..|steps| - 1]), steps[|steps| - 1];
      NoErrorBranch(cfg, steps[..|steps| - 1]);
      ReachableInv(cfg, steps[..|steps| - 1]);
      if Enabled(cfg, before, last) {
        NextAccepting(cfg, before, last);
      }
    }
  }

  // ---------- Only well-formed transfers succeed ----------

  lemma ReceiverSound(cfg: Config, s: State)
    requires Inv(cfg, s)
    ensures D.Sound(cfg.lib, cfg.requested, s.receiver)
  {
  }

  lemma NextVetted(cfg: Config, s: State, step: Step)
    requires Valid(cfg) && Inv(cfg, s) && Enabled(cfg, s, step) && Vetted(cfg.lib, s.receiver)
    ensures Vetted(cfg.lib, Next(cfg, s, step).receiver)
  {
    hide D.Processed, D.Reply, Inv, Vetted, S.AfterRead, S.HasRoom;
    match step {
      case Receive =>
        ReceiverSound(cfg, s);
        ProcessedVetted(cfg.lib, cfg.requested, s.receiver, Seen(cfg, s.forward[0]));
      case _ =>
        SameHistoryVetted(cfg.lib, s.receiver, Next(cfg, s, step).receiver);
    }
  }

  lemma {:induction false} SessionVetted(cfg: Config, steps: seq<Step>)
    requires Valid(cfg)
    ensures Vetted(cfg.lib, After(cfg, steps).receiver)
  {
    hide Next, Inv, Enabled;
    if steps != [] {
      var before, last := After(cfg, steps[..|steps| - 1]), steps[|steps| - 1];
      SessionVetted(cfg, steps[..|steps| - 1]);
      if Enabled(cfg, before, last) {
        ReachableInv(cfg, steps[..|steps| - 1]);
        NextVetted(cfg, before, last);
      }
    }
  }

  lemma DeliveredIsShown(cfg: Config, r: D.Receiver)
    requires Delivered(cfg, r)
    ensures r.phase.Finished? && r.received == Shown(cfg)
  {
    hide RR.Consistent, WindowAck.Encode;
  }

  /** Whatever happens on the way: a transfer that succeeds was well-formed. */
  lemma SuccessNeedsWellFormed(cfg: Config, steps: seq<Step>)
    requires Valid(cfg) && After(cfg, steps).sender.phase.Succeeded?
    ensures WellFormed(cfg)
  {
    hide After, Inv, D.Sound, Deliverable, Vetted, Delivered;
    var r := After(cfg, steps).receiver;
    ReachableInv(cfg, steps);
    ReceiverSound(cfg, After(cfg, steps));
    SessionVetted(cfg, steps);
    SuccessMeansDelivered(cfg, steps);
    DeliveredIsShown(cfg, r);
    FinishedIsDeliverable(cfg.lib, cfg.requested, r);
  }

  // ---------- What either end does, taken alone ----------

  /** The acknowledgments of the first k packets, as the sender receives them. */
  function AckOutcomes(cfg: Config, k: nat): (outcomes: seq<S.Outcome>)
    ensures |outcomes| == k
  {
    Outcomes(D.Acks(!cfg.legacyPeer, k))
  }

  /** How many packets the sender has written when it waits for reply k, all before being acknowledgments. */
  ghost function PacketsBefore(cfg: Config, k: nat): nat {
    S.Ending(cfg.upload, S.START, AckOutcomes(cfg, k), |cfg.upload.packets|).next
  }

  /** Which message the receiver rejects, if it rejects one. */
  function RejectedAt(cfg: Config): nat {
    var n := |D.Served(cfg.lib, cfg.requested, D.Idle(cfg.requested), Shown(cfg), |cfg.upload.packets|).received|;
    if n == 0 then 0 else n - 1
  }

  /** The receiver rejects a packet, and before it waits for the reply to it the sender writes more packets than the
      receiver reads and the stream holds. */
  ghost predicate Blocks(cfg: Config) {
    !WellFormed(cfg) && PacketsBefore(cfg, RejectedAt(cfg)) > RejectedAt(cfg) + 1 + cfg.forwardCapacity
  }

  /** Without faults the forward stream holds no more than its buffer, but for a message handed to a waiting reader. */
  predicate Buffered(cfg: Config, s: State) {
    |s.forward| <= cfg.forwardCapacity || (|s.forward| == 1 && s.receiver.phase.Listening?)
  }

  /** A sender still at work stands where the upload stands after acknowledgments alone; one that failed did so on the
      reply after them, having written what it writes before it waits for that. */
  ghost predicate OnTrack(cfg: Config, s: State) {
    && (!S.Done(s.sender) ==> GoesOnAs(cfg.upload, s.sender, AckOutcomes(cfg, s.sender.taken), s.sender.next))
    && (s.sender.phase.Failed? ==> s.sender.taken > 0 && PacketsBefore(cfg, s.sender.taken - 1) == s.sender.next)
  }

  lemma {:induction false} EndingGrows(u: S.Upload, s: S.State, replies: seq<S.Outcome>, writes: nat)
    ensures S.Ending(u, s, replies, writes).next >= s.next
    ensures S.WriteDue(u, s) && writes > 0 ==> S.Ending(u, s, replies, writes).next > s.next
    decreases |replies|, |u.packets| - s.next
  {
    hide S.AfterRead, S.HasRoom;
    if S.Done(s) {
    } else if S.WriteDue(u, s) {
      if writes > 0 {
        EndingGrows(u, S.AfterWrite(u, s, true), replies, writes - 1);
      }
    } else if replies == [] {
      SR.ReadCounts(u, s, S.Failing(S.CalledOff));
      SR.CancellationEnds(u, s);
    } else {
      SR.ReadCounts(u, s, replies[0]);
      EndingGrows(u, S.AfterRead(u, s, replies[0]), replies[1..], writes);
    }
  }

  /** A sender that waits, having been given k acknowledgments, has written what it writes before reply k. */
  lemma WaitingHasWritten(cfg: Config, s: S.State, k: nat)
    requires GoesOnAs(cfg.upload, s, AckOutcomes(cfg, k), s.next) && S.ReadDue(cfg.upload, s)
    requires s.next <= |cfg.upload.packets|
    ensures PacketsBefore(cfg, k) == s.next
  {
    var u, n := cfg.upload, |cfg.upload.packets|;
    assert AckOutcomes(cfg, k) + [] == AckOutcomes(cfg, k);
    assert s.next + (n - s.next) == n;
    SR.ReadCounts(u, s, S.Failing(S.CalledOff));
    SR.CancellationEnds(u, s);
    hide S.AfterRead, S.WriteDue;
    assert S.Ending(u, s, [], n - s.next) == S.AfterRead(u, s, S.Failing(S.CalledOff));
  }

  lemma AcksAppend(cfg: Config, k: nat)
    ensures AckOutcomes(cfg, k + 1) == AckOutcomes(cfg, k) + [S.Received(Some(D.AckOf(!cfg.legacyPeer, k)))]
  {
    hide WindowAck.Encode;
  }

  lemma PrefixBefore<T>(s: seq<T>, last: T, i: nat)
    requires i <= |s|
    ensures (s + [last])[..i] == s[..i]
  {
  }

  lemma {:induction false} AcksPrefix(cfg: Config, j: nat, k: nat)
    requires j <= k
    ensures AckOutcomes(cfg, j) == AckOutcomes(cfg, k)[..j]
  {
    hide AckOutcomes, D.AckOf;
    if j < k {
      AcksPrefix(cfg, j, k - 1);
      AcksAppend(cfg, k - 1);
      PrefixBefore(AckOutcomes(cfg, k - 1), S.Received(Some(D.AckOf(!cfg.legacyPeer, k - 1))), j);
    }
  }

  lemma GoesOnWith(u: S.Upload, s: S.State, replies: seq<S.Outcome>, writes: nat, more: seq<S.Outcome>, moreWrites: nat)
    requires GoesOnAs(u, s, replies, writes)
    ensures S.Ending(u, S.START, replies + more, writes + moreWrites) == S.Ending(u, s, more, moreWrites)
  {
    hide S.Ending;
  }

  lemma Rejoined<T>(s: seq<T>, i: nat)
    requires i <= |s|
    ensures s[..i] + s[i..] == s
  {
  }

  /** A sender with a write to make and fewer than k acknowledgments taken is yet to write a packet before reply k. */
  lemma WriterWritesMore(cfg: Config, s: S.State, k: nat)
    requires GoesOnAs(cfg.upload, s, AckOutcomes(cfg, s.taken), s.next) && S.WriteDue(cfg.upload, s)
    requires s.taken <= k && s.next < |cfg.upload.packets|
    ensures PacketsBefore(cfg, k) > s.next
  {
    hide S.WriteDue, S.Ending, GoesOnAs, AckOutcomes;
    var u, n := cfg.upload, |cfg.upload.packets|;
    var more, writes := AckOutcomes(cfg, k)[s.taken..], n - s.next;
    AcksPrefix(cfg, s.taken, k);
    GoesOnWith(u, s, AckOutcomes(cfg, s.taken), s.next, more, writes);
    EndingGrows(u, s, more, writes);
    Rejoined(AckOutcomes(cfg, k), s.taken);
  }

  lemma ReadOnTrack(cfg: Config, s: S.State, reply: Response)
    requires GoesOnAs(cfg.upload, s, AckOutcomes(cfg, s.taken), s.next) && S.ReadDue(cfg.upload, s)
    requires s.next <= |cfg.upload.packets|
    requires reply.ok ==> reply == D.AckOf(!cfg.legacyPeer, s.taken)
    ensures var s' := S.AfterRead(cfg.upload, s, S.Received(Some(reply)));
      && s'.taken == s.taken + 1 && s'.next == s.next && PacketsBefore(cfg, s.taken) == s'.next
      && (reply.ok ==> GoesOnAs(cfg.upload, s', AckOutcomes(cfg, s'.taken), s'.next))
  {
    hide GoesOnAs, S.AfterRead, S.WriteDue, D.AckOf, AckOutcomes, PacketsBefore;
    WaitingHasWritten(cfg, s, s.taken);
    AcksAppend(cfg, s.taken);
    SR.ReadCounts(cfg.upload, s, S.Received(Some(reply)));
    ReadGoesOn(cfg.upload, s, S.Received(Some(reply)), AckOutcomes(cfg, s.taken), s.next);
  }

  lemma NextOnTrack(cfg: Config, s: State, step: Step)
    requires Valid(cfg) && Inv(cfg, s) && Undisturbed(s) && OnTrack(cfg, s)
    requires Enabled(cfg, s, step) && !IsFault(step)
    ensures OnTrack(cfg, Next(cfg, s, step))
  {
    hide Inv, GoesOnAs, S.AfterRead, S.HasRoom, D.AckOf, AckOutcomes, PacketsBefore, D.Processed, D.Replied;
    RepliesBounded(cfg, s);
    match step {
      case Send => WriteGoesOn(cfg.upload, s.sender, AckOutcomes(cfg, s.sender.taken), s.sender.next);
      case TakeReply =>
        TakeReplyOutcome(cfg, s);
        if s.back[0].ok {
          NextReply(cfg, s);
        }
        ReadOnTrack(cfg, s.sender, s.back[0]);
      case TakeResult =>
        TakeResultOutcome(cfg, s);
        if s.receiver.sent[s.sender.taken].ok {
          NextReply(cfg, s);
        }
        ReadOnTrack(cfg, s.sender, s.receiver.sent[s.sender.taken]);
      case _ =>
    }
  }

  lemma NextBuffered(cfg: Config, s: State, step: Step)
    requires Valid(cfg) && Buffered(cfg, s) && Enabled(cfg, s, step) && !IsFault(step)
    ensures Buffered(cfg, Next(cfg, s, step))
  {
    hide S.AfterRead, S.HasRoom, D.Processed, D.Reply;
  }

  lemma StartIsOnTrack(cfg: Config)
    ensures OnTrack(cfg, Initial(cfg))
  {
    StartGoesOn(cfg.upload);
    assert AckOutcomes(cfg, 0) == [];
  }

  lemma StartIsBuffered(cfg: Config)
    ensures Buffered(cfg, Initial(cfg))
  {
  }

  lemma {:induction false} FaultFreeIsOnTrack(cfg: Config, steps: seq<Step>)
    requires Valid(cfg) && FaultFree(steps)
    ensures OnTrack(cfg, After(cfg, steps)) && Buffered(cfg, After(cfg, steps))
  {
    hide Inv, OnTrack, Buffered, Undisturbed, Enabled, Next;
    if steps == [] {
      StartIsOnTrack(cfg);
      StartIsBuffered(cfg);
    } else {
      var before, last := After(cfg, steps[..|steps| - 1]), steps[|steps| - 1];
      FaultFreeIsOnTrack(cfg, steps[..|steps| - 1]);
      FaultFreeIsUndisturbed(cfg, steps[..|steps| - 1]);
      ReachableInv(cfg, steps[..|steps| - 1]);
      if Enabled(cfg, before, last) {
        NextOnTrack(cfg, before, last);
        NextBuffered(cfg, before, last);
      }
    }
  }

  lemma StepServesOn(cfg: Config, s: State, step: Step)
    requires Valid(cfg) && Enabled(cfg, s, step) && !IsFault(step)
    requires ServesOnAs(cfg.lib, cfg.requested, s.receiver, s.receiver.received, |s.receiver.sent|)
    ensures var r := Next(cfg, s, step).receiver; ServesOnAs(cfg.lib, cfg.requested, r, r.received, |r.sent|)
  {
    hide ServesOnAs, D.Processed, D.Reply, S.AfterRead, S.HasRoom;
    var lib, root, r := cfg.lib, cfg.requested, s.receiver;
    match step {
      case Receive =>
        var m := Seen(cfg, s.forward[0]);
        ReceiveServesOn(lib, root, r, m, r.received, |r.sent|);
        D.ProcessedBasics(lib, root, r, m);
      case Answer =>
        AnswerServesOn(lib, root, r, r.received, |r.sent|);
        RepliedBasics(r);
      case _ =>
    }
  }

  /** Without faults the receiver goes on as the download does, also after it has stopped. */
  lemma {:induction false} FaultFreeServesOn(cfg: Config, steps: seq<Step>)
    requires Valid(cfg) && FaultFree(steps)
    ensures var r := After(cfg, steps).receiver; ServesOnAs(cfg.lib, cfg.requested, r, r.received, |r.sent|)
  {
    hide ServesOnAs, Enabled, Next;
    if steps == [] {
      IdleServesOn(cfg.lib, cfg.requested);
    } else {
      var before, last := After(cfg, steps[..|steps| - 1]), steps[|steps| - 1];
      FaultFreeServesOn(cfg, steps[..|steps| - 1]);
      if Enabled(cfg, before, last) {
        StepServesOn(cfg, before, last);
      }
    }
  }

  lemma ServesOnWith(lib: Library, root: string, r: D.Receiver, incoming: seq<UploadMessage>, writes: nat,
                     more: seq<UploadMessage>, moreWrites: nat)
    requires ServesOnAs(lib, root, r, incoming, writes) && D.Stopped(r)
    ensures D.Served(lib, root, D.Idle(root), incoming + more, writes + moreWrites) == r
  {
    assert D.Served(lib, root, r, more, moreWrites) == r;
  }

  lemma ReceivedIsPrefix(cfg: Config, received: seq<UploadMessage>)
    requires Faithful(cfg, received)
    ensures received + Shown(cfg)[|received|..] == Shown(cfg)
  {
    assert received == Shown(cfg)[..|received|];
    Rejoined(Shown(cfg), |received|);
  }

  lemma ReceivedFits(cfg: Config, received: seq<UploadMessage>)
    requires Faithful(cfg, received)
    ensures |received| <= |cfg.upload.packets|
  {
  }

  lemma RejectedReceiver(cfg: Config, r: D.Receiver)
    requires ServesOnAs(cfg.lib, cfg.requested, r, r.received, |r.sent|) && D.Stopped(r)
    requires Faithful(cfg, r.received) && 0 < |r.received| && |r.sent| <= |cfg.upload.packets|
    ensures |r.received| == RejectedAt(cfg) + 1
  {
    hide ServesOnAs, D.Served, Faithful;
    var moreWrites := |cfg.upload.packets| - |r.sent|;
    ReceivedFits(cfg, r.received);
    ServesOnWith(cfg.lib, cfg.requested, r, r.received, |r.sent|, Shown(cfg)[|r.received|..], moreWrites);
    ReceivedIsPrefix(cfg, r.received);
  }

  /** The message rejected in a run is the one the download rejects. */
  lemma RejectedWhere(cfg: Config, steps: seq<Step>)
    requires Valid(cfg) && FaultFree(steps) && After(cfg, steps).receiver.phase.Rejected?
    ensures |After(cfg, steps).receiver.received| == RejectedAt(cfg) + 1
  {
    hide After, Inv, ServesOnAs, RejectedAt;
    ReachableInv(cfg, steps);
    FaultFreeServesOn(cfg, steps);
    FaultFreeIsUndisturbed(cfg, steps);
    ReceivedAsSent(cfg, After(cfg, steps));
    RepliesBounded(cfg, After(cfg, steps));
    RejectedReceiver(cfg, After(cfg, steps).receiver);
  }

  // ---------- How a session turns out ----------

  lemma RejectedIsNotWellFormed(cfg: Config, steps: seq<Step>)
    requires Valid(cfg) && FaultFree(steps) && After(cfg, steps).receiver.phase.Rejected?
    ensures !WellFormed(cfg)
  {
    hide WellFormed, After;
    if WellFormed(cfg) {
      NoErrorBranch(cfg, steps);
    }
  }

  lemma StreamCarries(cfg: Config, s: State)
    requires Inv(cfg, s)
    ensures s.sender.next == |s.receiver.received| + |s.forward|
  {
    hide SR.Sound, D.Sound, Linked;
  }

  /** A rejection not yet taken lies behind every acknowledgment taken. */
  lemma RejectionUntaken(cfg: Config, s: State)
    requires Valid(cfg) && Inv(cfg, s) && s.sender.phase.Windowed? && RejectionSent(s.receiver)
    ensures s.sender.taken < |s.receiver.sent|
  {
    hide D.Sound, SR.WindowSafe, Queued, Budgeted;
    assert |D.Positive(s.receiver.sent)| == |s.receiver.sent| - 1;
  }

  lemma BlockedMeansBlocks(cfg: Config, steps: seq<Step>)
    requires Valid(cfg) && FaultFree(steps) && Blocked(cfg, After(cfg, steps))
    ensures Blocks(cfg)
  {
    hide After, Inv, WellFormed, S.HasRoom, GoesOnAs, RejectedAt, PacketsBefore;
    var s := After(cfg, steps);
    ReachableInv(cfg, steps);
    FaultFreeIsUndisturbed(cfg, steps);
    FaultFreeIsOnTrack(cfg, steps);
    RejectedIsNotWellFormed(cfg, steps);
    RejectedWhere(cfg, steps);
    RejectionUntaken(cfg, s);
    StreamCarries(cfg, s);
    WriterWritesMore(cfg, s.sender, RejectedAt(cfg));
  }

  lemma RefusedMeansNoBlock(cfg: Config, steps: seq<Step>)
    requires Valid(cfg) && FaultFree(steps) && Refused(After(cfg, steps))
    ensures !WellFormed(cfg) && !Blocks(cfg)
  {
    hide After, Inv, WellFormed, GoesOnAs, RejectedAt, PacketsBefore;
    var s := After(cfg, steps);
    ReachableInv(cfg, steps);
    FaultFreeIsUndisturbed(cfg, steps);
    FaultFreeIsOnTrack(cfg, steps);
    RejectedIsNotWellFormed(cfg, steps);
    RejectedWhere(cfg, steps);
    StreamCarries(cfg, s);
  }

  lemma WellFormedNeverBlocks(cfg: Config)
    ensures WellFormed(cfg) ==> !Blocks(cfg)
  {
  }

  /** A fault-free run that can go no further has delivered everything if and only if the transfer is well-formed; it
      has left the sender blocked if and only if the transfer blocks; and otherwise the sender was told of the
      rejection. */
  lemma SettlesExactly(cfg: Config, steps: seq<Step>)
    requires Valid(cfg) && FaultFree(steps) && !CanMove(cfg, After(cfg, steps))
    ensures var s := After(cfg, steps);
      && (WellFormed(cfg) <==> Complete(cfg, s))
      && (Blocks(cfg) <==> Blocked(cfg, s))
      && (!WellFormed(cfg) && !Blocks(cfg) <==> Refused(s))
      && (Complete(cfg, s) ==> Delivered(cfg, s.receiver))
  {
    var s := After(cfg, steps);
    hide After, Inv, CanMove, WellFormed, Blocks, Undisturbed, Delivered, S.WriteDue;
    ReachableInv(cfg, steps);
    FaultFreeIsUndisturbed(cfg, steps);
    NoDeadlock(cfg, s);
    if Complete(cfg, s) {
      SuccessNeedsWellFormed(cfg, steps);
      SuccessMeansDelivered(cfg, steps);
      WellFormedNeverBlocks(cfg);
    } else if Refused(s) {
      RefusedMeansNoBlock(cfg, steps);
    } else {
      BlockedMeansBlocks(cfg, steps);
      WellFormedNeverBlocks(cfg);
    }
  }

  /** So a transfer that does not block never deadlocks: until both ends know how it ended, some step other than a
      fault can be taken. */
  lemma NeverDeadlocks(cfg: Config, steps: seq<Step>)
    requires Valid(cfg) && FaultFree(steps) && !Blocks(cfg)
    ensures var s := After(cfg, steps); CanMove(cfg, s) || Complete(cfg, s) || Refused(s)
  {
    hide After, CanMove, WellFormed, Blocks, Delivered;
    if !CanMove(cfg, After(cfg, steps)) {
      SettlesExactly(cfg, steps);
    }
  }

  /** A fault-free run of a well-formed transfer that can go no further has delivered everything. */
  lemma StuckMeansDelivered(cfg: Config, steps: seq<Step>)
    requires WellFormed(cfg)
    requires FaultFree(steps) && !CanMove(cfg, After(cfg, steps))
    ensures Complete(cfg, After(cfg, steps)) && Delivered(cfg, After(cfg, steps).receiver)
  {
    hide WellFormed, Delivered, After, CanMove;
    WellFormedIsValid(cfg);
    SettlesExactly(cfg, steps);
  }

  /** Every fault-free run of a well-formed transfer can be completed, and none can go on for ever. */
  lemma EveryRunCompletes(cfg: Config, steps: seq<Step>) returns (rest: seq<Step>)
    requires WellFormed(cfg)
    requires FaultFree(steps) && Legal(cfg, steps)
    ensures FaultFree(steps + rest) && Legal(cfg, steps + rest) && |steps + rest| <= 9 * |cfg.upload.packets| + 6
    ensures Complete(cfg, After(cfg, steps + rest)) && Delivered(cfg, After(cfg, steps + rest).receiver)
  {
    hide WellFormed, Delivered, After, CanMove, Legal, FaultFree;
    WellFormedIsValid(cfg);
    rest := EveryRunSettles(cfg, steps);
    StuckMeansDelivered(cfg, steps + rest);
  }

  /** A transfer the sender lets through can succeed if and only if it is well-formed. */
  lemma CanSucceedExactly(cfg: Config)
    requires Valid(cfg)
    ensures WellFormed(cfg) <==> exists steps :: Legal(cfg, steps) && After(cfg, steps).sender.phase.Succeeded?
  {
    hide WellFormed, After, Delivered;
    if WellFormed(cfg) {
      var rest := EveryRunCompletes(cfg, []);
      assert Legal(cfg, [] + rest);
    }
    if steps :| Legal(cfg, steps) && After(cfg, steps).sender.phase.Succeeded? {
      SuccessNeedsWellFormed(cfg, steps);
    }
  }

  lemma NothingIsFaultFree()
    ensures FaultFree([])
  {
  }

  /** It can deadlock without faults if and only if it blocks, and then every run does. */
  lemma CanBlockExactly(cfg: Config)
    requires Valid(cfg)
    ensures Blocks(cfg) <==>
      exists steps ::
        Legal(cfg, steps) && FaultFree(steps) && !CanMove(cfg, After(cfg, steps)) && !S.Done(After(cfg, steps).sender)
  {
    hide WellFormed, After, Delivered, Blocks, CanMove, FaultFree;
    if Blocks(cfg) {
      assert FaultFree([]) by { NothingIsFaultFree(); }
      var rest := EveryRunSettles(cfg, []);
      SettlesExactly(cfg, [] + rest);
      assert Legal(cfg, [] + rest);
    }
    if steps :|
      Legal(cfg, steps) && FaultFree(steps) && !CanMove(cfg, After(cfg, steps)) && !S.Done(After(cfg, steps).sender)
    {
      SettlesExactly(cfg, steps);
    }
  }
}
