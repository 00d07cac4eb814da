/** Every run ends; and without faults it ends with everything delivered, with a rejection both ends know of, or with
    the sender blocked in a write to a receiver that has rejected a packet. */
module SessionLiveness {
  import opened Wire
  import opened AckReader
  import opened Session
  import opened SessionSafety
  import S = Sender
  import SR = SenderRuns
  import D = Download
  import RR = ReceiveRuns
  import WindowAck

  // ---------- Every run is bounded ----------

  function ReaderWork(cfg: Config, reader: Reader): nat {
    match reader
    case Unstarted => 4 * |cfg.upload.packets| + 4
    case Reading(remaining) => 4 * remaining + 4
    case Holding(remaining, _) => 4 * remaining + 3
    case Exited => 0
  }

  /** Work left: every packet has to be written, received, answered, read, delivered and taken. */
  function Work(cfg: Config, s: State): int {
    5 * (|cfg.upload.packets| - s.sender.next) + 4 * |s.forward| + (if D.ReplyDue(s.receiver) then 3 else 0)
    + 2 * |s.back| + ReaderWork(cfg, s.reader) + 2 * |s.channel|
    + (if S.Done(s.sender) then 0 else 1) + (if D.Stopped(s.receiver) then 0 else 1)
  }

  lemma StepWorks(cfg: Config, s: State, step: Step)
    requires Valid(cfg) && Enabled(cfg, s, step)
    ensures Work(cfg, Next(cfg, s, step)) < Work(cfg, s)
  {
    hide S.HasRoom, WindowAck.Parse, D.Reply;
    match step
    case Receive => D.ProcessedBasics(cfg.lib, cfg.requested, s.receiver, Seen(cfg, s.forward[0]));
    case TakeReply =>
      SR.ReadCounts(cfg.upload, s.sender, S.Received(Some(s.back[0])));
    case TakeResult =>
      SR.ReadCounts(cfg.upload, s.sender, s.channel[0]);
    case _ =>
  }

  lemma InitialWork(cfg: Config)
    ensures Work(cfg, Initial(cfg)) == 9 * |cfg.upload.packets| + 6
  {
  }

  lemma WorkIsLeft(cfg: Config, steps: seq<Step>)
    requires Valid(cfg)
    ensures Work(cfg, After(cfg, steps)) >= 0
  {
    ReachableInv(cfg, steps);
  }

  /** Any run, whatever is sent and whatever fails, has at most 9N+6 steps. */
  lemma {:induction false} RunsAreBounded(cfg: Config, steps: seq<Step>)
    requires Valid(cfg) && Legal(cfg, steps)
    ensures |steps| + Work(cfg, After(cfg, steps)) <= 9 * |cfg.upload.packets| + 6
    ensures |steps| <= 9 * |cfg.upload.packets| + 6
  {
    hide Work;
    if steps == [] {
      assert Work(cfg, Initial(cfg)) == 9 * |cfg.upload.packets| + 6 by { InitialWork(cfg); }
    } else {
      var before := After(cfg, steps[..|steps| - 1]);
      RunsAreBounded(cfg, steps[..|steps| - 1]);
      StepWorks(cfg, before, steps[|steps| - 1]);
    }
    WorkIsLeft(cfg, steps);
  }

  // ---------- What holds without faults, for any valid transfer ----------

  predicate Rested(reader: Reader) {
    reader.Unstarted? || reader.Exited?
  }

  predicate NoFailing(reader: Reader, channel: seq<S.Outcome>) {
    forall k :: 0 <= k < |Queue(reader, channel)| ==> !Queue(reader, channel)[k].Failing?
  }

  predicate Quiet(s: State) {
    Rested(s.reader) && s.channel == [] && s.back == []
  }

  /** The last reply is the rejection of the last message. */
  predicate RejectionSent(r: D.Receiver) {
    |r.sent| == |r.received| > 0 && !r.sent[|r.sent| - 1].ok
  }

  /** No wait has failed and no stream is broken; a receiver that has rejected a packet has said so; a sender that is
      done left nothing behind, and one that failed was told of the rejection. */
  predicate Undisturbed(s: State) {
    && !s.receiver.phase.Broken?
    && NoFailing(s.reader, s.channel)
    && (s.receiver.phase.Rejected? ==> RejectionSent(s.receiver))
    && (S.Done(s.sender) ==> Quiet(s))
    && (s.sender.phase.Failed? ==>
      && s.sender.phase == S.Failed(S.RejectedByPeer)
      && s.receiver.phase.Rejected? && s.sender.taken == |s.receiver.sent|)
  }

  lemma RepliesBounded(cfg: Config, s: State)
    requires Inv(cfg, s)
    ensures |s.receiver.sent| <= |s.receiver.received| <= s.sender.next <= |cfg.upload.packets|
  {
    hide SR.Sound, Linked, RR.Consistent, WindowAck.Encode;
  }

  /** Only the last reply can be negative, and only of a receiver that has rejected a packet. */
  lemma NegativeIsLast(r: D.Receiver, k: nat)
    requires D.Acknowledges(r) && k < |r.sent| && !r.sent[k].ok
    ensures k == |r.sent| - 1 && r.phase.Rejected?
  {
    hide WindowAck.Encode;
    if k < |D.Positive(r.sent)| {
      AcksAt(r.history.view.windowed, |D.Positive(r.sent)|, k);
    }
  }

  /** The next reply, if positive, is the acknowledgment the sender expects. */
  lemma NextReply(cfg: Config, s: State)
    requires Valid(cfg) && Inv(cfg, s) && s.sender.taken < |s.receiver.sent| && s.receiver.sent[s.sender.taken].ok
    ensures var reply, k := s.receiver.sent[s.sender.taken], s.sender.taken;
      && k < |D.Positive(s.receiver.sent)| && k < s.sender.next
      && reply == D.AckOf(!cfg.legacyPeer, k)
      && WindowAck.Parse(reply.message) ==
         if cfg.legacyPeer then WindowAck.Unsupported
         else WindowAck.Accepted(WindowAck.Ack(k, WindowAck.WINDOW_PACKETS, WindowAck.WINDOW_BYTES))
  {
    hide WindowAck.Encode, WindowAck.Parse, RR.Consistent, SR.Sound, Linked;
    PositiveReply(cfg, s.receiver, s.sender.taken);
    AckParses(!cfg.legacyPeer, s.sender.taken);
  }

  lemma NegativeReplyFails(u: S.Upload, s: S.State, reply: Response)
    requires !reply.ok && !S.Done(s)
    ensures S.AfterRead(u, s, S.Received(Some(reply))) == S.Fail(s, S.RejectedByPeer)
  {
    hide WindowAck.Parse;
  }

  lemma LastReplyTaken(u: S.Upload, s: S.State, outcome: S.Outcome)
    requires SR.Sound(u, s) && S.ReadDue(u, s) && (s.phase.Root? || s.phase.Legacy?)
    requires S.AfterRead(u, s, outcome).phase.Succeeded?
    ensures s.taken + 1 == |u.packets|
  {
    hide WindowAck.Parse;
  }

  /** How taking a reply that says this leaves the sender: told of a rejection, or not failed; and if it is done,
      nothing was left behind it. */
  predicate Settled(sender: S.State, agrees: bool, left: nat) {
    && (if agrees then !sender.phase.Failed? else sender.phase == S.Failed(S.RejectedByPeer))
    && (S.Done(sender) ==> left == 0)
  }

  lemma ReceiverAcknowledges(cfg: Config, s: State)
    requires Inv(cfg, s)
    ensures D.Acknowledges(s.receiver)
  {
    hide SR.Sound, Linked, RR.Consistent;
  }

  /** What the sender finds in a reply while it awaits one at a time. */
  lemma TakeReplyOutcome(cfg: Config, s: State)
    requires s.back != [] && Valid(cfg) && Inv(cfg, s) && Enabled(cfg, s, TakeReply)
    ensures s.reader.Unstarted? && s.channel == []
    ensures s.sender.taken < |s.receiver.sent| && s.back[0] == s.receiver.sent[s.sender.taken]
    ensures Settled(S.AfterRead(cfg.upload, s.sender, S.Received(Some(s.back[0]))), s.back[0].ok, |s.back[1..]|)
    ensures !s.back[0].ok ==> s.receiver.phase.Rejected? && s.sender.taken + 1 == |s.receiver.sent|
  {
    hide S.AfterRead, D.Sound, SR.WindowSafe, WindowAck.Parse, S.HasRoom;
    RepliesBounded(cfg, s);
    if s.back[0].ok {
      NextReply(cfg, s);
      if s.sender.phase.Root? {
        RootReplyLinks(cfg, s.sender, s.back, s.receiver.sent);
      } else {
        LegacyReplyLinks(cfg, s.sender, s.back, s.receiver.sent);
      }
      if S.AfterRead(cfg.upload, s.sender, S.Received(Some(s.back[0]))).phase.Succeeded? {
        LastReplyTaken(cfg.upload, s.sender, S.Received(Some(s.back[0])));
      }
    } else {
      NegativeReplyFails(cfg.upload, s.sender, s.back[0]);
      ReceiverAcknowledges(cfg, s);
      NegativeIsLast(s.receiver, s.sender.taken);
    }
  }

  lemma LastResultTaken(u: S.Upload, s: S.State, outcome: S.Outcome)
    requires SR.Sound(u, s) && s.phase.Windowed? && s.highest == s.taken - 1
    requires S.AfterRead(u, s, outcome).phase.Succeeded? && S.AfterRead(u, s, outcome).highest == s.highest + 1
    ensures s.taken + 1 == |u.packets|
  {
    hide WindowAck.Parse, SR.WindowSafe;
  }

  /** While the goroutine has met no failure, what it holds and what is in transit are the replies not yet taken. */
  lemma QueueIsUntaken(cfg: Config, s: State)
    requires Inv(cfg, s) && s.sender.phase.Windowed? && NoFailing(s.reader, s.channel)
    ensures s.sender.taken <= |s.receiver.sent|
    ensures Queue(s.reader, s.channel) + Outcomes(s.back) == Outcomes(s.receiver.sent[s.sender.taken..])
  {
    hide D.Sound, SR.Sound, Budgeted;
  }

  /** When the last reply is the next one, it is all there is, and the goroutine that delivered it has exited if it was
      negative or the last of its budget. */
  lemma NothingBehind(reader: Reader, channel: seq<S.Outcome>, back: seq<Response>, sent: seq<Response>, taken: nat,
                      total: nat)
    requires taken + 1 == |sent| && channel != [] && channel[0] == S.Received(Some(sent[taken]))
    requires Queue(reader, channel) + Outcomes(back) == Outcomes(sent[taken..])
    requires Budgeted(total, taken, reader, channel) && (!sent[taken].ok || taken + 1 == total)
    ensures channel[1..] == [] && back == [] && Rested(reader)
  {
    assert |Queue(reader, channel) + Outcomes(back)| == |Outcomes(sent[taken..])| == 1;
    assert !sent[taken].ok ==> Terminating(channel[|channel| - 1]);
  }

  lemma PositiveResult(cfg: Config, s: State)
    requires s.channel != [] && Valid(cfg) && Inv(cfg, s) && Enabled(cfg, s, TakeResult)
    requires s.sender.taken < |s.receiver.sent| && s.channel[0] == S.Received(Some(s.receiver.sent[s.sender.taken]))
    requires s.receiver.sent[s.sender.taken].ok && |s.receiver.sent| <= |cfg.upload.packets|
    requires Queue(s.reader, s.channel) + Outcomes(s.back) == Outcomes(s.receiver.sent[s.sender.taken..])
    requires Queued(s.reader, s.channel[1..], s.back, s.receiver.sent[s.sender.taken + 1..])
    ensures var sender' := S.AfterRead(cfg.upload, s.sender, s.channel[0]);
      && !sender'.phase.Failed?
      && (sender'.phase.Succeeded? ==> s.channel[1..] == [] && s.back == [] && Rested(s.reader))
  {
    hide S.AfterRead, D.Sound, SR.WindowSafe, S.HasRoom, WindowAck.Parse, Queued, Budgeted;
    NextReply(cfg, s);
    TakeResultLinks(cfg, s.sender, s.reader, s.channel, s.back, s.receiver.sent);
    if S.AfterRead(cfg.upload, s.sender, s.channel[0]).phase.Succeeded? {
      LastResultTaken(cfg.upload, s.sender, s.channel[0]);
      NothingBehind(s.reader, s.channel, s.back, s.receiver.sent, s.sender.taken, |cfg.upload.packets|);
    }
  }

  /** What the sender finds in a pipelined result. */
  lemma TakeResultOutcome(cfg: Config, s: State)
    requires s.channel != [] && Valid(cfg) && Inv(cfg, s) && NoFailing(s.reader, s.channel)
    requires Enabled(cfg, s, TakeResult)
    ensures s.sender.taken < |s.receiver.sent| && s.channel[0] == S.Received(Some(s.receiver.sent[s.sender.taken]))
    ensures var reply := s.receiver.sent[s.sender.taken];
      var sender' := S.AfterRead(cfg.upload, s.sender, s.channel[0]);
      && (if reply.ok then !sender'.phase.Failed? else sender' == S.Fail(s.sender, S.RejectedByPeer))
      && (S.Done(sender') ==> s.channel[1..] == [] && s.back == [] && Rested(s.reader))
      && (!reply.ok ==> s.receiver.phase.Rejected? && s.sender.taken + 1 == |s.receiver.sent|)
  {
    hide S.AfterRead, D.Sound, SR.Sound, S.HasRoom, WindowAck.Parse, Queued, Budgeted;
    assert s.channel[0] == Queue(s.reader, s.channel)[0];
    FirstQueued(s.reader, s.channel, s.back, s.receiver.sent, s.sender.taken);
    QueueIsUntaken(cfg, s);
    RepliesBounded(cfg, s);
    if s.receiver.sent[s.sender.taken].ok {
      PositiveResult(cfg, s);
    } else {
      NegativeReplyFails(cfg.upload, s.sender, s.receiver.sent[s.sender.taken]);
      ReceiverAcknowledges(cfg, s);
      NegativeIsLast(s.receiver, s.sender.taken);
      NothingBehind(s.reader, s.channel, s.back, s.receiver.sent, s.sender.taken, |cfg.upload.packets|);
    }
  }

  lemma SendUndisturbed(cfg: Config, s: State)
    requires Valid(cfg) && Undisturbed(s) && Enabled(cfg, s, Send)
    ensures Undisturbed(Next(cfg, s, Send))
  {
    hide S.HasRoom;
  }

  lemma TakeReplyUndisturbed(cfg: Config, s: State)
    requires Valid(cfg) && Inv(cfg, s) && Undisturbed(s) && Enabled(cfg, s, TakeReply)
    ensures Undisturbed(Next(cfg, s, TakeReply))
  {
    hide Inv, S.AfterRead, S.HasRoom;
    TakeReplyOutcome(cfg, s);
    SR.ReadCounts(cfg.upload, s.sender, S.Received(Some(s.back[0])));
    assert Queue(Reading(|cfg.upload.packets| - 1), []) == [];
    assert Queue(Unstarted, []) == [];
  }

  lemma TakeResultUndisturbed(cfg: Config, s: State)
    requires Valid(cfg) && Inv(cfg, s) && Undisturbed(s) && Enabled(cfg, s, TakeResult)
    ensures Undisturbed(Next(cfg, s, TakeResult))
  {
    hide Inv, S.AfterRead, S.HasRoom;
    TakeResultOutcome(cfg, s);
    SR.ReadCounts(cfg.upload, s.sender, s.channel[0]);
    var s' := Next(cfg, s, TakeResult);
    assert Queue(s'.reader, s'.channel) == Queue(s.reader, s.channel)[1..];
  }

  lemma ReaderTakesUndisturbed(cfg: Config, s: State)
    requires Valid(cfg) && Undisturbed(s) && Enabled(cfg, s, ReaderTakes)
    ensures Undisturbed(Next(cfg, s, ReaderTakes))
  {
    var s' := Next(cfg, s, ReaderTakes);
    assert Queue(s.reader, s.channel) == s.channel;
    assert Queue(s'.reader, s'.channel) == s.channel + [S.Received(Some(s.back[0]))];
    assert forall k :: 0 <= k < |s.channel| ==> s.channel[k] == Queue(s.reader, s.channel)[k];
  }

  lemma ReaderDeliversUndisturbed(cfg: Config, s: State)
    requires Valid(cfg) && Undisturbed(s) && Enabled(cfg, s, ReaderDelivers)
    ensures Undisturbed(Next(cfg, s, ReaderDelivers))
  {
    var s' := Next(cfg, s, ReaderDelivers);
    assert Queue(s'.reader, s'.channel) == Queue(s.reader, s.channel);
  }

  lemma ReceiveUndisturbed(cfg: Config, s: State)
    requires Valid(cfg) && Undisturbed(s) && Enabled(cfg, s, Receive)
    ensures Undisturbed(Next(cfg, s, Receive))
  {
    hide D.Processed;
    D.ProcessedBasics(cfg.lib, cfg.requested, s.receiver, Seen(cfg, s.forward[0]));
  }

  lemma AnswerUndisturbed(cfg: Config, s: State)
    requires Valid(cfg) && Inv(cfg, s) && Undisturbed(s) && Enabled(cfg, s, Answer)
    ensures Undisturbed(Next(cfg, s, Answer))
  {
    hide Inv, WindowAck.Encode, RR.Consistent;
    ReceiverAcknowledges(cfg, s);
    if s.sender.phase.Succeeded? {
      DeliveredByInv(cfg, s);
    }
  }

  lemma NextUndisturbed(cfg: Config, s: State, step: Step)
    requires Valid(cfg) && Inv(cfg, s) && Undisturbed(s) && Enabled(cfg, s, step) && !IsFault(step)
    ensures Undisturbed(Next(cfg, s, step))
  {
    hide Inv, Next;
    match step {
      case Send => SendUndisturbed(cfg, s);
      case TakeReply => TakeReplyUndisturbed(cfg, s);
      case ReaderTakes => ReaderTakesUndisturbed(cfg, s);
      case ReaderDelivers => ReaderDeliversUndisturbed(cfg, s);
      case ReaderQuits =>
      case TakeResult => TakeResultUndisturbed(cfg, s);
      case Receive => ReceiveUndisturbed(cfg, s);
      case Answer => AnswerUndisturbed(cfg, s);
    }
  }

  lemma InitialUndisturbed(cfg: Config)
    ensures Undisturbed(Initial(cfg))
  {
  }

  /** Without faults the only failure of a valid transfer is a rejection of which the sender is told. */
  lemma {:induction false} FaultFreeIsUndisturbed(cfg: Config, steps: seq<Step>)
    requires Valid(cfg) && FaultFree(steps)
    ensures Undisturbed(After(cfg, steps))
  {
    hide Inv, Undisturbed;
    if steps == [] {
      InitialUndisturbed(cfg);
    } else {
      var before, last := After(cfg, steps[..|steps| - 1]), steps[|steps| - 1];
      FaultFreeIsUndisturbed(cfg, steps[..|steps| - 1]);
      ReachableInv(cfg, steps[..|steps| - 1]);
      if Enabled(cfg, before, last) {
        NextUndisturbed(cfg, before, last);
      }
    }
  }

  // ---------- The channel ----------

  /** Unread results never outnumber the packets in flight by more than the one that tells of a failing stream, so a
      goroutine that holds a result always finds room for it in the channel. */
  lemma ChannelHasRoom(cfg: Config, s: State)
    requires Valid(cfg) && Inv(cfg, s) && s.sender.phase.Windowed?
    ensures s.reader.Holding? ==> |s.channel| < s.sender.limit.packets + 1 == ChannelCapacity(s.sender.limit)
    ensures NoFailing(s.reader, s.channel) ==> |s.channel| + |Held(s.reader)| + |s.back| <= |s.sender.inFlight|
    ensures |s.channel| + |Held(s.reader)| <= |s.sender.inFlight| + 1 <= s.sender.limit.packets + 1
  {
    hide D.Sound;
    RepliesBounded(cfg, s);
    SR.TrackedCount(cfg.upload, s.sender.inFlight, s.sender.highest, s.sender.next);
    var queue, untaken := Queue(s.reader, s.channel), s.receiver.sent[s.sender.taken..];
    if queue == [] || !queue[|queue| - 1].Failing? {
      assert |queue + Outcomes(s.back)| == |Outcomes(untaken)|;
    }
  }

  /** In every run, faults included, the channel never blocks the goroutine. */
  lemma ChannelNeverBlocks(cfg: Config, steps: seq<Step>)
    requires Valid(cfg) && After(cfg, steps).sender.phase.Windowed? && After(cfg, steps).reader.Holding?
    ensures Enabled(cfg, After(cfg, steps), ReaderDelivers)
  {
    hide Inv, After;
    ReachableInv(cfg, steps);
    ChannelHasRoom(cfg, After(cfg, steps));
  }

  // ---------- Where a run without faults can stop ----------

  ghost predicate CanMove(cfg: Config, s: State) {
    exists step: Step :: !IsFault(step) && Enabled(cfg, s, step)
  }

  predicate Complete(cfg: Config, s: State) {
    s.sender.phase.Succeeded? && s.receiver.phase.Finished? && Quiet(s) && s.forward == []
  }

  /** The receiver rejected a packet, and the sender knows. */
  predicate Refused(s: State) {
    s.sender.phase == S.Failed(S.RejectedByPeer) && s.receiver.phase.Rejected? && Quiet(s)
  }

  /** The receiver rejected a packet and reads no more; the sender is to write another packet before it looks for
      replies, and the stream has no room for it. */
  ghost predicate Blocked(cfg: Config, s: State) {
    && s.sender.phase.Windowed? && S.WriteDue(cfg.upload, s.sender)
    && s.receiver.phase.Rejected? && |s.forward| >= cfg.forwardCapacity
  }

  lemma StepMoves(cfg: Config, s: State, step: Step)
    requires Enabled(cfg, s, step) && !IsFault(step)
    ensures CanMove(cfg, s)
  {
  }

  lemma ReaderAtWork(cfg: Config, s: State)
    requires Inv(cfg, s) && s.sender.phase.Windowed?
    ensures match s.reader
            case Unstarted => false
            case Reading(remaining) => remaining > 0
            case _ => true
  {
    hide D.Sound, SR.Sound, Queued;
  }

  /** What a goroutine that has exited delivered last: the end of its budget, or a negative reply. */
  lemma ExitedDelivered(channel: seq<S.Outcome>, back: seq<Response>, sent: seq<Response>, taken: nat, total: nat)
    requires taken <= |sent| <= total && Budgeted(total, taken, Exited, channel)
    requires channel + Outcomes(back) == Outcomes(sent[taken..])
    ensures taken + |channel| + |back| == |sent|
    ensures taken + |channel| == total
      || (channel != [] && !sent[taken + |channel| - 1].ok)
  {
    assert |channel + Outcomes(back)| == |Outcomes(sent[taken..])|;
    if channel != [] {
      var k := |channel| - 1;
      assert channel[k] == (channel + Outcomes(back))[k] == S.Received(Some(sent[taken + k]));
    }
  }

  lemma WindowBudget(cfg: Config, s: State)
    requires Inv(cfg, s) && s.sender.phase.Windowed?
    ensures Budgeted(|cfg.upload.packets|, s.sender.taken, s.reader, s.channel)
  {
    hide D.Sound, SR.Sound, Queued, Budgeted;
  }

  /** A goroutine that has exited has read every reply there will be. */
  lemma ExitedLeavesNothing(cfg: Config, s: State)
    requires Valid(cfg) && Inv(cfg, s) && Undisturbed(s) && s.sender.phase.Windowed? && s.reader.Exited?
    ensures s.back == [] && (|s.receiver.sent| == |cfg.upload.packets| || s.receiver.phase.Rejected?)
  {
    hide Inv, D.Acknowledges;
    RepliesBounded(cfg, s);
    QueueIsUntaken(cfg, s);
    WindowBudget(cfg, s);
    ReceiverAcknowledges(cfg, s);
    var last := s.sender.taken + |s.channel| - 1;
    assert Queue(s.reader, s.channel) == s.channel;
    ExitedDelivered(s.channel, s.back, s.receiver.sent, s.sender.taken, |cfg.upload.packets|);
    if s.channel != [] && !s.receiver.sent[last].ok {
      NegativeIsLast(s.receiver, last);
    }
  }

  lemma WindowTransitMoves(cfg: Config, s: State)
    requires Valid(cfg) && Inv(cfg, s) && Undisturbed(s) && s.sender.phase.Windowed? && s.back != []
    ensures CanMove(cfg, s)
  {
    hide Inv, Undisturbed, CanMove;
    ChannelHasRoom(cfg, s);
    ReaderAtWork(cfg, s);
    if s.reader.Exited? {
      ExitedLeavesNothing(cfg, s);
    } else if s.reader.Holding? {
      StepMoves(cfg, s, ReaderDelivers);
    } else {
      StepMoves(cfg, s, ReaderTakes);
    }
  }

  lemma ReplyIsAwaited(cfg: Config, s: State)
    requires Valid(cfg) && Inv(cfg, s) && !S.Done(s.sender) && s.back != [] && !s.sender.phase.Windowed?
    ensures (s.sender.phase.Root? || s.sender.phase.Legacy?) && S.ReadDue(cfg.upload, s.sender)
  {
    RepliesBounded(cfg, s);
    hide D.Sound, SR.WindowSafe;
  }

  /** Replies in transit can always be read on. */
  lemma TransitMoves(cfg: Config, s: State)
    requires Valid(cfg) && Inv(cfg, s) && Undisturbed(s) && !S.Done(s.sender) && s.back != []
    ensures CanMove(cfg, s)
  {
    hide Inv, Undisturbed, CanMove;
    if s.sender.phase.Windowed? {
      WindowTransitMoves(cfg, s);
    } else {
      ReplyIsAwaited(cfg, s);
      StepMoves(cfg, s, TakeReply);
    }
  }

  lemma UnansweredIsUnsent(cfg: Config, s: State)
    requires Valid(cfg) && Inv(cfg, s) && D.ReplyDue(s.receiver)
    ensures |s.receiver.sent| < |s.receiver.received| <= s.sender.next <= |cfg.upload.packets|
  {
    hide SR.Sound, Linked, RR.Consistent, WindowAck.Encode;
  }

  lemma AnswerIsAwaited(cfg: Config, s: State)
    requires Valid(cfg) && Inv(cfg, s) && Undisturbed(s) && !S.Done(s.sender)
    requires D.ReplyDue(s.receiver) && s.back == []
    ensures (s.sender.phase.Windowed? && s.reader.Holding?) || ReplyAwaited(cfg, s)
  {
    RepliesBounded(cfg, s);
    UnansweredIsUnsent(cfg, s);
    if s.sender.phase.Windowed? {
      hide Inv, Undisturbed;
      ReaderAtWork(cfg, s);
      if s.reader.Exited? {
        ExitedLeavesNothing(cfg, s);
      }
    } else {
      hide D.Sound, SR.WindowSafe;
    }
  }

  /** A reply due can be written, or the goroutine that will read it has something to hand on first. */
  lemma AnswerMoves(cfg: Config, s: State)
    requires Valid(cfg) && Inv(cfg, s) && Undisturbed(s) && !S.Done(s.sender)
    requires D.ReplyDue(s.receiver) && s.back == []
    ensures CanMove(cfg, s)
  {
    hide Inv, Undisturbed, CanMove;
    AnswerIsAwaited(cfg, s);
    if s.sender.phase.Windowed? && s.reader.Holding? {
      ChannelHasRoom(cfg, s);
      StepMoves(cfg, s, ReaderDelivers);
    } else {
      StepMoves(cfg, s, Answer);
    }
  }

  /** A receiver finishes only with the last packet. */
  lemma FinishedHasAll(cfg: Config, r: D.Receiver)
    requires Valid(cfg) && D.Sound(cfg.lib, cfg.requested, r) && Faithful(cfg, r.received) && r.phase.Finished?
    ensures |r.received| == |cfg.upload.packets|
  {
    hide WindowAck.Encode, RR.LeavesConserved, RR.PacketsDisjoint;
    ModeIsPeers(cfg, r);
    var last := |r.received| - 1;
    assert r.history.accepted[last] == RR.Accepted(r.received[last], r.received[last].packet);
    assert r.received[last] == Seen(cfg, Messages(cfg)[last]);
  }

  /** With a packet under way or still to be written the receiver cannot have finished. */
  lemma NotFinishedEarly(cfg: Config, s: State)
    requires Valid(cfg) && Inv(cfg, s) && (s.forward != [] || s.sender.next < |cfg.upload.packets|)
    ensures !s.receiver.phase.Finished?
  {
    RepliesBounded(cfg, s);
    hide SR.Sound, Linked, D.Sound;
    if s.receiver.phase.Finished? {
      FinishedHasAll(cfg, s.receiver);
    }
  }

  /** A write that is due can be made, or is blocked. */
  lemma WriteMoves(cfg: Config, s: State)
    requires Valid(cfg) && Inv(cfg, s) && Undisturbed(s) && S.WriteDue(cfg.upload, s.sender)
    requires !D.ReplyDue(s.receiver) && (s.forward != [] ==> !s.receiver.phase.Listening?)
    requires s.receiver.phase.Rejected? ==> s.sender.phase.Windowed?
    ensures CanMove(cfg, s) || Blocked(cfg, s)
  {
    hide Inv, CanMove, S.HasRoom;
    NotFinishedEarly(cfg, s);
    if |s.forward| < cfg.forwardCapacity || s.receiver.phase.Listening? {
      StepMoves(cfg, s, Send);
    }
  }

  lemma QueueMeansWindowed(cfg: Config, s: State)
    requires Inv(cfg, s) && !S.Done(s.sender) && (s.channel != [] || Held(s.reader) != [])
    ensures s.sender.phase.Windowed?
  {
    hide D.Sound, SR.Sound, Queued, Budgeted;
  }

  lemma QueueMoves(cfg: Config, s: State)
    requires Valid(cfg) && Inv(cfg, s) && Undisturbed(s) && !S.Done(s.sender) && !D.ReplyDue(s.receiver)
    requires s.forward != [] ==> !s.receiver.phase.Listening?
    requires s.channel != [] || Held(s.reader) != []
    ensures CanMove(cfg, s) || Blocked(cfg, s)
  {
    hide Inv, Undisturbed, CanMove, Blocked, S.HasRoom;
    QueueMeansWindowed(cfg, s);
    ChannelHasRoom(cfg, s);
    if s.reader.Holding? {
      StepMoves(cfg, s, ReaderDelivers);
    } else if S.WriteDue(cfg.upload, s.sender) {
      WriteMoves(cfg, s);
    } else {
      StepMoves(cfg, s, TakeResult);
    }
  }

  /** A rejection that was taken would have ended the upload. */
  lemma AckedBehind(acked: seq<int>, taken: nat, sent: seq<Response>)
    requires Backed(acked, sent)
    ensures acked != [] && acked[|acked| - 1] == taken - 1 && taken == |sent| ==> D.Positive(sent) == sent
  {
  }

  /** With nothing queued or in transit back, every reply was taken. */
  lemma NothingUntaken(cfg: Config, s: State)
    requires Valid(cfg) && Inv(cfg, s) && Undisturbed(s) && !S.Done(s.sender)
    requires s.back == [] && s.channel == [] && Held(s.reader) == []
    ensures s.sender.taken == |s.receiver.sent| && !s.receiver.phase.Rejected?
    ensures s.sender.phase.Windowed? ==> s.sender.highest == s.sender.taken - 1
  {
    hide SR.WindowSafe, RR.Consistent, WindowAck.Encode;
    if s.sender.phase.Windowed? {
      QueueIsUntaken(cfg, s);
      assert Queue(s.reader, s.channel) == [];
      assert |Queue(s.reader, s.channel) + Outcomes(s.back)| == |Outcomes(s.receiver.sent[s.sender.taken..])|;
    }
    AckedBehind(s.sender.acked, s.sender.taken, s.receiver.sent);
  }

  /** Then the sender can write. */
  lemma CaughtUpWrites(u: S.Upload, s: S.State)
    requires SR.Sound(u, s) && !S.Done(s) && s.taken == s.next
    requires s.phase.Windowed? ==> s.highest == s.taken - 1
    ensures S.WriteDue(u, s)
  {
    if s.phase.Windowed? {
      SR.TrackedCount(u, s.inFlight, s.highest, s.next);
    }
  }

  /** With nothing queued, in transit or due, every packet written was acknowledged. */
  lemma IdleIsCaughtUp(cfg: Config, s: State)
    requires Valid(cfg) && Inv(cfg, s) && Undisturbed(s) && !S.Done(s.sender) && !D.ReplyDue(s.receiver)
    requires s.forward != [] ==> !s.receiver.phase.Listening?
    requires s.sender.taken == |s.receiver.sent| && !s.receiver.phase.Rejected?
    ensures s.sender.taken == s.sender.next
  {
    RepliesBounded(cfg, s);
    hide SR.Sound, Linked, RR.Consistent, WindowAck.Encode;
    if s.receiver.phase.Finished? {
      NotFinishedEarly(cfg, s);
    }
  }

  lemma IdleMoves(cfg: Config, s: State)
    requires Valid(cfg) && Inv(cfg, s) && Undisturbed(s) && !S.Done(s.sender) && !D.ReplyDue(s.receiver)
    requires s.forward != [] ==> !s.receiver.phase.Listening?
    requires s.back == [] && s.channel == [] && Held(s.reader) == []
    ensures CanMove(cfg, s) || Blocked(cfg, s)
  {
    hide CanMove, Blocked, S.WriteDue, D.Sound, SR.WindowSafe;
    NothingUntaken(cfg, s);
    IdleIsCaughtUp(cfg, s);
    CaughtUpWrites(cfg.upload, s.sender);
    WriteMoves(cfg, s);
  }

  lemma DoneIsSettled(cfg: Config, s: State)
    requires Valid(cfg) && Inv(cfg, s) && Undisturbed(s) && S.Done(s.sender)
    ensures Complete(cfg, s) || Refused(s)
  {
    hide RR.Consistent, WindowAck.Encode;
    if s.sender.phase.Succeeded? {
      DeliveredByInv(cfg, s);
    }
  }

  /** In any fault-free state of a valid transfer, whatever the streams' capacities: some step other than a fault can be
      taken, or everything was delivered, or the sender was told of a rejection, or it is blocked in a write to a
      receiver that has rejected a packet. */
  lemma NoDeadlock(cfg: Config, s: State)
    requires Valid(cfg) && Inv(cfg, s) && Undisturbed(s)
    ensures CanMove(cfg, s) || Complete(cfg, s) || Refused(s) || Blocked(cfg, s)
  {
    hide Inv, Undisturbed, Complete, CanMove, Refused, Blocked;
    if S.Done(s.sender) {
      DoneIsSettled(cfg, s);
    } else if s.back != [] {
      TransitMoves(cfg, s);
    } else if D.ReplyDue(s.receiver) {
      AnswerMoves(cfg, s);
    } else if s.forward != [] && s.receiver.phase.Listening? {
      StepMoves(cfg, s, Receive);
    } else if s.channel != [] || Held(s.reader) != [] {
      QueueMoves(cfg, s);
    } else {
      IdleMoves(cfg, s);
    }
  }

  lemma RunExtends(cfg: Config, steps: seq<Step>, step: Step)
    requires Valid(cfg) && Legal(cfg, steps) && FaultFree(steps)
    requires !IsFault(step) && Enabled(cfg, After(cfg, steps), step)
    ensures Legal(cfg, steps + [step]) && FaultFree(steps + [step])
  {
    hide Enabled, Next;
    assert (steps + [step])[..|steps|] == steps;
  }

  /** Every fault-free run goes on until it can go no further, and none goes on for ever. */
  lemma {:induction false} EveryRunSettles(cfg: Config, steps: seq<Step>) returns (rest: seq<Step>)
    requires Valid(cfg) && FaultFree(steps) && Legal(cfg, steps)
    ensures FaultFree(steps + rest) && Legal(cfg, steps + rest) && |steps + rest| <= 9 * |cfg.upload.packets| + 6
    ensures !CanMove(cfg, After(cfg, steps + rest))
    decreases 9 * |cfg.upload.packets| + 6 - |steps|
  {
    hide Legal, After, Enabled, FaultFree;
    RunsAreBounded(cfg, steps);
    if CanMove(cfg, After(cfg, steps)) {
      var step: Step :| !IsFault(step) && Enabled(cfg, After(cfg, steps), step);
      RunExtends(cfg, steps, step);
      RunsAreBounded(cfg, steps + [step]);
      rest := EveryRunSettles(cfg, steps + [step]);
      assert steps + ([step] + rest) == steps + [step] + rest;
      rest := [step] + rest;
    } else {
      rest := [];
      assert steps + rest == steps;
    }
  }
}
