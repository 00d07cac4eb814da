/** What holds in every reachable state of a transfer, for any packet sequence and under any faults. */
module SessionSafety {
  import opened Wire
  import opened AckReader
  import opened Session
  import S = Sender
  import SR = SenderRuns
  import D = Download
  import RR = ReceiveRuns
  import WindowAck

  const NEGOTIATED := S.Limit(WindowAck.WINDOW_PACKETS, WindowAck.WINDOW_BYTES)

  function Messages(cfg: Config): (messages: seq<UploadMessage>)
    ensures |messages| == |cfg.upload.packets|
    ensures forall i :: 0 <= i < |messages| ==> messages[i] == S.Outgoing(cfg.upload, i)
  {
    S.OutgoingPrefix(cfg.upload, |cfg.upload.packets|)
  }

  predicate Faithful(cfg: Config, received: seq<UploadMessage>) {
    && |received| <= |cfg.upload.packets|
    && forall k :: 0 <= k < |received| ==> received[k] == Seen(cfg, Messages(cfg)[k])
  }

  /** The forward stream holds exactly the packets written and not yet received; those received are as sent. */
  predicate Carries(cfg: Config, next: nat, forward: seq<UploadMessage>, received: seq<UploadMessage>) {
    && |received| <= next <= |cfg.upload.packets|
    && forward == Messages(cfg)[|received|..next]
    && Faithful(cfg, received)
  }

  function Outcomes(replies: seq<Response>): (outcomes: seq<S.Outcome>)
    ensures |outcomes| == |replies|
    ensures forall k :: 0 <= k < |replies| ==> outcomes[k] == S.Received(Some(replies[k]))
  {
    seq(|replies|, k requires 0 <= k < |replies| => S.Received(Some(replies[k])))
  }

  /** What the goroutine has read and the sender has not: the channel, then the reply in hand. */
  function Queue(reader: Reader, channel: seq<S.Outcome>): seq<S.Outcome> {
    channel + Held(reader)
  }

  /** The replies not yet taken are queued and in transit in the order they were sent, unless the goroutine's
      stream failed; then the queue ends with that failure and goes no further. */
  predicate Queued(reader: Reader, channel: seq<S.Outcome>, back: seq<Response>, untaken: seq<Response>) {
    var queue := Queue(reader, channel);
    if queue != [] && queue[|queue| - 1].Failing? then
      !reader.Reading? && |queue| - 1 <= |untaken| && queue[..|queue| - 1] == Outcomes(untaken)[..|queue| - 1]
    else
      queue + Outcomes(back) == Outcomes(untaken)
  }

  /** Progress was reported only for packets the receiver acknowledged. */
  predicate Backed(acked: seq<int>, sent: seq<Response>) {
    acked != [] ==> acked[|acked| - 1] < |D.Positive(sent)|
  }

  /** How the sender's position relates to the replies sent. */
  predicate Linked(cfg: Config, sender: S.State, reader: Reader, channel: seq<S.Outcome>, back: seq<Response>,
                   sent: seq<Response>)
  {
    && Backed(sender.acked, sent)
    && match sender.phase
       case Failed(_) => true
       case Succeeded => sender.taken == |cfg.upload.packets|
       case Windowed =>
         && sender.taken <= |sent| && sender.highest == sender.taken - 1
         && sender.limit == NEGOTIATED && !cfg.legacyPeer
         && Budgeted(|cfg.upload.packets|, sender.taken, reader, channel)
         && Queued(reader, channel, back, sent[sender.taken..])
       case _ =>
         && reader.Unstarted? && channel == []
         && sender.taken <= |sent| && back == sent[sender.taken..]
  }

  ghost predicate Inv(cfg: Config, s: State) {
    && SR.Sound(cfg.upload, s.sender)
    && D.Sound(cfg.lib, cfg.requested, s.receiver)
    && Carries(cfg, s.sender.next, s.forward, s.receiver.received)
    && Linked(cfg, s.sender, s.reader, s.channel, s.back, s.receiver.sent)
  }

  // ---------- Facts about the replies ----------

  lemma {:induction false} AcksAt(windowed: bool, n: nat, k: nat)
    requires k < n
    ensures D.Acks(windowed, n)[k] == D.AckOf(windowed, k)
  {
    hide WindowAck.Encode;
    if k < n - 1 {
      AcksAt(windowed, n - 1, k);
    }
  }

  /** A receiver that accepted anything counts in the mode its wire format carries. */
  lemma ModeIsPeers(cfg: Config, r: D.Receiver)
    requires Valid(cfg) && D.Sound(cfg.lib, cfg.requested, r)
    requires Faithful(cfg, r.received)
    requires |r.history.accepted| > 0
    ensures r.history.view.windowed == !cfg.legacyPeer
    ensures !cfg.legacyPeer ==> r.history.view.total == |cfg.upload.packets|
  {
    assert r.history.accepted[0].packet == Seen(cfg, Messages(cfg)[0]).packet;
  }

  /** Reply k, if positive, is the acknowledgment of packet k, and packet k was accepted. */
  lemma PositiveReply(cfg: Config, r: D.Receiver, k: nat)
    requires Valid(cfg) && D.Sound(cfg.lib, cfg.requested, r)
    requires Faithful(cfg, r.received)
    requires k < |r.sent| && r.sent[k].ok
    ensures k < |D.Positive(r.sent)| <= |r.history.accepted| <= |r.received|
    ensures r.sent[k] == D.AckOf(!cfg.legacyPeer, k)
  {
    hide WindowAck.Encode, RR.LeavesConserved, RR.PacketsDisjoint, RR.OriginStable;
    assert D.Positive(r.sent)[k] == r.sent[k];
    AcksAt(r.history.view.windowed, |D.Positive(r.sent)|, k);
    ModeIsPeers(cfg, r);
  }

  lemma AckParses(windowed: bool, k: nat)
    requires k <= MAX_INT64
    ensures WindowAck.Parse(D.AckOf(windowed, k).message) ==
      if windowed then WindowAck.Accepted(WindowAck.Ack(k, WindowAck.WINDOW_PACKETS, WindowAck.WINDOW_BYTES))
      else WindowAck.Unsupported
  {
    WindowAck.RoundTrip(k);
  }

  // ---------- The sender moves ----------

  lemma SendLinks(cfg: Config, s: State)
    requires Valid(cfg) && Inv(cfg, s) && Enabled(cfg, s, Send)
    ensures var s' := Next(cfg, s, Send);
      Linked(cfg, s'.sender, s'.reader, s'.channel, s'.back, s'.receiver.sent)
  {
    hide D.Sound, SR.Sound, S.HasRoom, Queued, Budgeted, Backed, Carries;
  }

  lemma SendCarries(cfg: Config, s: State)
    requires Valid(cfg) && Inv(cfg, s) && Enabled(cfg, s, Send)
    ensures var s' := Next(cfg, s, Send); Carries(cfg, s'.sender.next, s'.forward, s'.receiver.received)
  {
    hide D.Sound, SR.Sound, S.HasRoom, Linked, Faithful;
    var s' := Next(cfg, s, Send);
    assert s'.forward == Messages(cfg)[|s.receiver.received|..s'.sender.next];
  }

  lemma SendKeepsInv(cfg: Config, s: State)
    requires Valid(cfg) && Inv(cfg, s) && Enabled(cfg, s, Send)
    ensures Inv(cfg, Next(cfg, s, Send))
  {
    SendLinks(cfg, s);
    SendCarries(cfg, s);
    hide D.Sound, SR.Sound, S.HasRoom, S.AfterWrite, Linked, Carries;
    SR.WriteKeepsSound(cfg.upload, s.sender, true);
  }

  lemma ReadLeavesNext(u: S.Upload, s: S.State, outcome: S.Outcome)
    ensures S.AfterRead(u, s, outcome).next == s.next
    ensures S.ReplyFault(outcome).Some? && !S.Done(s) ==>
      S.AfterRead(u, s, outcome).phase.Failed? && S.AfterRead(u, s, outcome).acked == s.acked
  {
  }

  lemma LegacyReplyLinks(cfg: Config, sender: S.State, back: seq<Response>, sent: seq<Response>)
    requires Valid(cfg) && SR.Sound(cfg.upload, sender) && sender.phase.Legacy?
    requires S.ReadDue(cfg.upload, sender) && back != [] && back[0].ok
    requires Linked(cfg, sender, Unstarted, [], back, sent) && sender.taken < |D.Positive(sent)|
    ensures var sender' := S.AfterRead(cfg.upload, sender, S.Received(Some(back[0])));
      && !sender'.phase.Failed?
      && Linked(cfg, sender', Spawned(cfg, Unstarted, sender'), [], back[1..], sent)
  {
    hide Queued, Budgeted, WindowAck.Parse, S.HasRoom;
    assert back[1..] == sent[sender.taken + 1..];
  }

  lemma PipelineOpens(cfg: Config, back: seq<Response>)
    requires |cfg.upload.packets| > 0
    ensures Queued(Reading(|cfg.upload.packets| - 1), [], back, back)
    ensures |cfg.upload.packets| > 1 ==> Budgeted(|cfg.upload.packets|, 1, Reading(|cfg.upload.packets| - 1), [])
  {
    assert [] + Outcomes(back) == Outcomes(back);
  }

  lemma RootReplyLinks(cfg: Config, sender: S.State, back: seq<Response>, sent: seq<Response>)
    requires Valid(cfg) && SR.Sound(cfg.upload, sender) && sender.phase.Root?
    requires S.ReadDue(cfg.upload, sender) && back != [] && back[0].ok
    requires Linked(cfg, sender, Unstarted, [], back, sent) && sender.taken < |D.Positive(sent)|
    requires WindowAck.Parse(back[0].message) ==
      if cfg.legacyPeer then WindowAck.Unsupported
      else WindowAck.Accepted(WindowAck.Ack(0, WindowAck.WINDOW_PACKETS, WindowAck.WINDOW_BYTES))
    ensures var sender' := S.AfterRead(cfg.upload, sender, S.Received(Some(back[0])));
      && !sender'.phase.Failed?
      && Linked(cfg, sender', Spawned(cfg, Unstarted, sender'), [], back[1..], sent)
  {
    hide WindowAck.Parse, SR.WindowSafe, S.HasRoom, Queued, Budgeted;
    assert back[1..] == sent[1..];
    PipelineOpens(cfg, back[1..]);
  }

  lemma TakeReplyKeepsInv(cfg: Config, s: State)
    requires Valid(cfg) && Inv(cfg, s) && Enabled(cfg, s, TakeReply)
    ensures Inv(cfg, Next(cfg, s, TakeReply))
  {
    hide WindowAck.Parse, WindowAck.Encode, D.Sound, SR.WindowSafe;
    var reply := s.back[0];
    SR.ReadKeepsSound(cfg.upload, s.sender, S.Received(Some(reply)));
    ReadLeavesNext(cfg.upload, s.sender, S.Received(Some(reply)));
    assert reply == s.receiver.sent[s.sender.taken];
    var sender' := S.AfterRead(cfg.upload, s.sender, S.Received(Some(reply)));
    if reply.ok {
      PositiveReply(cfg, s.receiver, s.sender.taken);
      AckParses(!cfg.legacyPeer, s.sender.taken);
      if s.sender.phase.Root? {
        RootReplyLinks(cfg, s.sender, s.back, s.receiver.sent);
      } else {
        LegacyReplyLinks(cfg, s.sender, s.back, s.receiver.sent);
      }
    }
  }

  /** A reply that is no failure is the next one sent. */
  lemma FirstQueued(reader: Reader, channel: seq<S.Outcome>, back: seq<Response>, sent: seq<Response>, taken: nat)
    requires taken <= |sent| && Queued(reader, channel, back, sent[taken..])
    requires channel != [] && !channel[0].Failing?
    ensures taken < |sent| && channel[0] == S.Received(Some(sent[taken]))
    ensures Queued(reader, channel[1..], back, sent[taken + 1..])
  {
    var queue, queue' := Queue(reader, channel), Queue(reader, channel[1..]);
    var untaken, untaken' := sent[taken..], sent[taken + 1..];
    assert queue' == queue[1..];
    if queue[|queue| - 1].Failing? {
      assert Outcomes(untaken)[..|queue| - 1][0] == channel[0];
      assert Outcomes(untaken') == Outcomes(untaken)[1..];
      assert queue'[..|queue'| - 1] == queue[..|queue| - 1][1..];
    } else {
      assert (queue + Outcomes(back))[0] == channel[0];
      assert Outcomes(untaken') == Outcomes(untaken)[1..];
      assert queue' + Outcomes(back) == (queue + Outcomes(back))[1..];
    }
  }

  lemma TakeResultLinks(cfg: Config, sender: S.State, reader: Reader, channel: seq<S.Outcome>, back: seq<Response>,
                        sent: seq<Response>)
    requires Valid(cfg) && SR.Sound(cfg.upload, sender) && sender.phase.Windowed?
    requires channel != [] && SR.Agrees(channel[0]) && Linked(cfg, sender, reader, channel, back, sent)
    requires sender.taken < |D.Positive(sent)| && sender.taken < sender.next
    requires Queued(reader, channel[1..], back, sent[sender.taken + 1..])
    requires WindowAck.Parse(channel[0].response.value.message) ==
      WindowAck.Accepted(WindowAck.Ack(sender.taken, WindowAck.WINDOW_PACKETS, WindowAck.WINDOW_BYTES))
    ensures var sender' := S.AfterRead(cfg.upload, sender, channel[0]);
      && !sender'.phase.Failed? && sender'.highest == sender.highest + 1
      && Linked(cfg, sender', reader, channel[1..], back, sent)
  {
    hide WindowAck.Parse, Queued;
    assert SR.Advances(sender, channel[0], sender.highest + 1);
    SR.WindowReplyAcceptedExactly(cfg.upload, sender, channel[0]);
    SR.WindowReplyEffect(cfg.upload, sender, channel[0]);
    TakeKeepsBudget(|cfg.upload.packets|, sender.taken, reader, channel);
  }

  lemma TakeResultKeepsInv(cfg: Config, s: State)
    requires Valid(cfg) && Inv(cfg, s) && Enabled(cfg, s, TakeResult)
    ensures Inv(cfg, Next(cfg, s, TakeResult))
  {
    hide D.Sound, WindowAck.Encode, WindowAck.Parse, Queued, Budgeted, SR.Sound, S.AfterRead, S.HasRoom, D.Positive;
    var outcome := s.channel[0];
    SR.ReadKeepsSound(cfg.upload, s.sender, outcome);
    ReadLeavesNext(cfg.upload, s.sender, outcome);
    if S.ReplyFault(outcome).None? {
      FirstQueued(s.reader, s.channel, s.back, s.receiver.sent, s.sender.taken);
      PositiveReply(cfg, s.receiver, s.sender.taken);
      AckParses(!cfg.legacyPeer, s.sender.taken);
      TakeResultLinks(cfg, s.sender, s.reader, s.channel, s.back, s.receiver.sent);
    }
  }

  // ---------- The goroutine moves ----------

  lemma ReaderTakesQueued(reader: Reader, channel: seq<S.Outcome>, back: seq<Response>, untaken: seq<Response>)
    requires reader.Reading? && back != [] && Queued(reader, channel, back, untaken)
    ensures Queued(AfterReading(reader, S.Received(Some(back[0]))), channel, back[1..], untaken)
  {
    var first := S.Received(Some(back[0]));
    assert Outcomes(back) == [first] + Outcomes(back[1..]);
    assert (channel + [first]) + Outcomes(back[1..]) == (channel + []) + Outcomes(back);
  }

  lemma ReaderTakesKeepsInv(cfg: Config, s: State)
    requires Valid(cfg) && Inv(cfg, s) && Enabled(cfg, s, ReaderTakes)
    ensures Inv(cfg, Next(cfg, s, ReaderTakes))
  {
    hide D.Sound, SR.Sound;
    if s.sender.phase.Windowed? {
      ReaderTakesQueued(s.reader, s.channel, s.back, s.receiver.sent[s.sender.taken..]);
    }
  }

  lemma ReaderDeliversKeepsInv(cfg: Config, s: State)
    requires Valid(cfg) && Inv(cfg, s) && Enabled(cfg, s, ReaderDelivers)
    ensures Inv(cfg, Next(cfg, s, ReaderDelivers))
  {
    hide D.Sound, SR.Sound, Budgeted;
    var s' := Next(cfg, s, ReaderDelivers);
    if s.sender.phase.Windowed? {
      DeliveryKeepsBudget(|cfg.upload.packets|, s.sender.taken, s.reader, s.channel);
      assert Queue(s'.reader, s'.channel) == Queue(s.reader, s.channel);
    }
  }

  lemma ReaderQuitsKeepsInv(cfg: Config, s: State)
    requires Valid(cfg) && Inv(cfg, s) && Enabled(cfg, s, ReaderQuits)
    ensures Inv(cfg, Next(cfg, s, ReaderQuits))
  {
    hide D.Sound, SR.Sound, Budgeted, Queued;
  }

  lemma ReaderFaultQueued(reader: Reader, channel: seq<S.Outcome>, back: seq<Response>, untaken: seq<Response>)
    requires reader.Reading? && Queued(reader, channel, back, untaken)
    ensures Queued(AfterReading(reader, S.Failing(S.StreamFailed)), channel, back, untaken)
  {
    assert Queue(reader, channel) == channel;
    assert channel == (channel + Outcomes(back))[..|channel|];
    var queue' := channel + [S.Failing(S.StreamFailed)];
    assert queue'[..|queue'| - 1] == channel;
  }

  lemma ReaderFaultKeepsInv(cfg: Config, s: State)
    requires Valid(cfg) && Inv(cfg, s) && Enabled(cfg, s, ReaderFault)
    ensures Inv(cfg, Next(cfg, s, ReaderFault))
  {
    hide D.Sound, SR.Sound;
    if s.sender.phase.Windowed? {
      ReaderFaultQueued(s.reader, s.channel, s.back, s.receiver.sent[s.sender.taken..]);
    }
  }

  // ---------- The receiver moves ----------

  lemma CarriesOne(cfg: Config, next: nat, forward: seq<UploadMessage>, received: seq<UploadMessage>)
    requires Carries(cfg, next, forward, received) && forward != []
    ensures Carries(cfg, next, forward[1..], received + [Seen(cfg, forward[0])])
  {
    assert forward[0] == Messages(cfg)[|received|];
    assert forward[1..] == Messages(cfg)[|received| + 1..next];
  }

  lemma ReceiveKeepsInv(cfg: Config, s: State)
    requires Valid(cfg) && Inv(cfg, s) && Enabled(cfg, s, Receive)
    ensures Inv(cfg, Next(cfg, s, Receive))
  {
    hide SR.Sound, Linked, D.Sound, D.Processed;
    var m := Seen(cfg, s.forward[0]);
    D.ProcessedIsSound(cfg.lib, cfg.requested, s.receiver, m);
    D.ProcessedBasics(cfg.lib, cfg.requested, s.receiver, m);
    CarriesOne(cfg, s.sender.next, s.forward, s.receiver.received);
  }

  lemma RepliedBasics(r: D.Receiver)
    requires D.ReplyDue(r)
    ensures D.Replied(r, true).sent == r.sent + [D.Reply(r)] && D.Replied(r, true).received == r.received
    ensures D.Replied(r, false).sent == r.sent && D.Replied(r, false).received == r.received
  {
    hide D.Reply;
  }

  lemma AnswerQueued(reader: Reader, channel: seq<S.Outcome>, back: seq<Response>, untaken: seq<Response>,
                     reply: Response)
    requires Queued(reader, channel, back, untaken)
    ensures Queued(reader, channel, back + [reply], untaken + [reply])
  {
    var queue := Queue(reader, channel);
    assert Outcomes(untaken + [reply]) == Outcomes(untaken) + Outcomes([reply]);
    if queue != [] && queue[|queue| - 1].Failing? {
      assert Outcomes(untaken + [reply])[..|queue| - 1] == Outcomes(untaken)[..|queue| - 1];
    } else {
      assert Outcomes(back + [reply]) == Outcomes(back) + Outcomes([reply]);
      assert queue + (Outcomes(back) + Outcomes([reply])) == (queue + Outcomes(back)) + Outcomes([reply]);
    }
  }

  lemma AnswerLinks(cfg: Config, sender: S.State, reader: Reader, channel: seq<S.Outcome>, back: seq<Response>,
                    sent: seq<Response>, reply: Response)
    requires Linked(cfg, sender, reader, channel, back, sent)
    ensures Linked(cfg, sender, reader, channel, back + [reply], sent + [reply])
  {
    hide Queued, Budgeted;
    assert |D.Positive(sent + [reply])| >= |D.Positive(sent)|;
    if !S.Done(sender) {
      var untaken := sent[sender.taken..];
      assert (sent + [reply])[sender.taken..] == untaken + [reply];
      if sender.phase.Windowed? {
        AnswerQueued(reader, channel, back, untaken, reply);
      }
    }
  }

  lemma AnswerKeepsInv(cfg: Config, s: State)
    requires Valid(cfg) && Inv(cfg, s) && Enabled(cfg, s, Answer)
    ensures Inv(cfg, Next(cfg, s, Answer))
  {
    hide SR.Sound, D.Sound, Linked, D.Reply;
    D.RepliedIsSound(cfg.lib, cfg.requested, s.receiver, true);
    AnswerLinks(cfg, s.sender, s.reader, s.channel, s.back, s.receiver.sent, D.Reply(s.receiver));
    RepliedBasics(s.receiver);
  }

  lemma ReceiverFaultKeepsInv(cfg: Config, s: State)
    requires Valid(cfg) && Inv(cfg, s) && Enabled(cfg, s, ReceiverFault)
    ensures Inv(cfg, Next(cfg, s, ReceiverFault))
  {
    hide SR.Sound, D.Sound, Linked, D.Reply;
    if D.ReplyDue(s.receiver) {
      D.RepliedIsSound(cfg.lib, cfg.requested, s.receiver, false);
      RepliedBasics(s.receiver);
    } else {
      D.BrokenIsSound(cfg.lib, cfg.requested, s.receiver);
    }
  }

  lemma SenderFaultKeepsInv(cfg: Config, s: State, fault: S.WaitFault)
    requires Valid(cfg) && Inv(cfg, s) && Enabled(cfg, s, SenderFault(fault))
    ensures Inv(cfg, Next(cfg, s, SenderFault(fault)))
  {
    hide D.Sound, SR.Sound;
    if S.WriteDue(cfg.upload, s.sender) {
      SR.WriteKeepsSound(cfg.upload, s.sender, false);
    } else {
      SR.ReadKeepsSound(cfg.upload, s.sender, S.Failing(fault));
      ReadLeavesNext(cfg.upload, s.sender, S.Failing(fault));
    }
  }

  // ---------- Every run ----------

  lemma NextKeepsInv(cfg: Config, s: State, step: Step)
    requires Valid(cfg) && Inv(cfg, s) && Enabled(cfg, s, step)
    ensures Inv(cfg, Next(cfg, s, step))
  {
    hide Inv, Next;
    match step {
      case Send => SendKeepsInv(cfg, s);
      case TakeReply => TakeReplyKeepsInv(cfg, s);
      case ReaderTakes => ReaderTakesKeepsInv(cfg, s);
      case ReaderDelivers => ReaderDeliversKeepsInv(cfg, s);
      case ReaderQuits => ReaderQuitsKeepsInv(cfg, s);
      case TakeResult => TakeResultKeepsInv(cfg, s);
      case Receive => ReceiveKeepsInv(cfg, s);
      case Answer => AnswerKeepsInv(cfg, s);
      case SenderFault(fault) => SenderFaultKeepsInv(cfg, s, fault);
      case ReaderFault => ReaderFaultKeepsInv(cfg, s);
      case ReceiverFault => ReceiverFaultKeepsInv(cfg, s);
    }
  }

  lemma InitialInv(cfg: Config)
    requires Valid(cfg)
    ensures Inv(cfg, Initial(cfg))
  {
    SR.StartIsSound(cfg.upload);
    D.IdleIsSound(cfg.lib, cfg.requested);
  }

  /** Whatever packets are sent and whatever fails, every reachable state satisfies the invariant. */
  lemma {:induction false} ReachableInv(cfg: Config, steps: seq<Step>)
    requires Valid(cfg)
    ensures Inv(cfg, After(cfg, steps))
  {
    hide Inv;
    if steps == [] {
      InitialInv(cfg);
    } else {
      var before := After(cfg, steps[..|steps| - 1]);
      ReachableInv(cfg, steps[..|steps| - 1]);
      if Enabled(cfg, before, steps[|steps| - 1]) {
        NextKeepsInv(cfg, before, steps[|steps| - 1]);
      }
    }
  }

  // ---------- Delivery ----------

  /** What the receiving end holds once a transfer succeeded. */
  predicate Delivered(cfg: Config, r: D.Receiver) {
    && r.phase.Finished?
    && |r.received| == |r.history.accepted| == |cfg.upload.packets|
    && (forall k :: 0 <= k < |r.received| ==>
      && r.received[k] == Seen(cfg, S.Outgoing(cfg.upload, k))
      && r.history.accepted[k] == RR.Accepted(r.received[k], r.received[k].packet))
    && cfg.lib.verify(r.dag)
    && Some(r.dag) == D.Assembled(cfg.lib, cfg.requested, r.history.accepted)
    && RR.Consistent(r.history)
    && r.sent == D.Acks(!cfg.legacyPeer, |cfg.upload.packets|)
  }

  lemma DeliveredByInv(cfg: Config, s: State)
    requires Valid(cfg) && Inv(cfg, s) && s.sender.phase.Succeeded?
    ensures Delivered(cfg, s.receiver)
  {
    hide WindowAck.Encode, SR.WindowSafe, RR.LeavesConserved, RR.PacketsDisjoint, RR.OriginStable;
    var r, n := s.receiver, |cfg.upload.packets|;
    ModeIsPeers(cfg, r);
    assert r.history.accepted[n - 1] == RR.Accepted(r.received[n - 1], r.received[n - 1].packet);
    assert r.received[n - 1].isFinal;
    assert r.history.view.finalized;
    assert D.Positive(r.sent) == r.sent;
  }

  /** In any run, faults included: if the sender reports success, the receiver has finished, having accepted every
      packet once and in order and verified the DAG they make up. */
  lemma SuccessMeansDelivered(cfg: Config, steps: seq<Step>)
    requires Valid(cfg) && After(cfg, steps).sender.phase.Succeeded?
    ensures Delivered(cfg, After(cfg, steps).receiver)
  {
    ReachableInv(cfg, steps);
    hide After;
    DeliveredByInv(cfg, After(cfg, steps));
  }
}
