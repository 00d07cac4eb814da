/** The receiving end: check, apply and commit each packet, and only then acknowledge it. */
module Download {
  import opened Wire
  import opened Credentials
  import opened ReceiveState
  import opened ReceiveRuns
  import WindowAck

  /** Replying and Rejecting have a response to write; Broken lost the stream. */
  datatype Phase =
    | Listening
    | Replying
    | Rejecting(fault: DownloadFault, cause: Text)
    | Finished
    | Rejected(fault: DownloadFault)
    | Broken

  datatype Receiver = Receiver(
    phase: Phase,
    received: seq<UploadMessage>,
    history: History,
    dag: Dag,
    sent: seq<Response>)

  function Idle(root: string): Receiver {
    Receiver(Listening, [], Fresh(root, "", ""), Dag(root, map[]), [])
  }

  predicate Stopped(r: Receiver) {
    r.phase.Finished? || r.phase.Rejected? || r.phase.Broken?
  }

  /** The receive state is opened with the first message's root and credentials. */
  function Opened(r: Receiver, m: UploadMessage): Receiver {
    if r.received == [] then r.(history := Fresh(m.root, m.publicKey, m.signature), dag := Dag(m.root, map[])) else r
  }

  /** The receiver about to answer with the error that this fault in message m makes. */
  function TurnedAway(lib: Library, r: Receiver, m: UploadMessage, fault: DownloadFault): Receiver {
    r.(phase := Rejecting(fault, lib.explain(fault, m, r.history.view, r.dag)))
  }

  /** The receiver once the packet's check and its application are known. */
  function Judged(lib: Library, r: Receiver, m: UploadMessage, fault: Option<PacketFault>, history: History,
                  applied: Option<Dag>): Receiver
  {
    var r' := r.(history := history);
    if fault.Some? then TurnedAway(lib, r', m, BadPacket(fault.value))
    else if applied.None? then TurnedAway(lib, r', m, ApplyFailed)
    else
      var r'' := r'.(dag := applied.value);
      if m.isFinal && history.view.windowed && history.view.next != history.view.total then
        TurnedAway(lib, r'', m, StreamIncomplete)
      else if m.isFinal && !lib.verify(r''.dag) then TurnedAway(lib, r'', m, VerifyFailed)
      else r''.(phase := Replying)
  }

  /** One message: the checks on the first one, validation, application, commit, and verification after the last. */
  function Processed(lib: Library, root: string, r: Receiver, m: UploadMessage): Receiver {
    var first := r.received == [];
    var r1 := r.(received := r.received + [m]);
    if first && m.root != root then TurnedAway(lib, r1, m, RootSubstituted)
    else if first && !Authentic(lib, m.root, m.publicKey, m.signature) then
      TurnedAway(lib, r1, m, NotAuthentic(CredentialFaultOf(lib, m.root, m.publicKey, m.signature).value))
    else
      var r2 := Opened(r, m).(received := r1.received);
      var applied := lib.apply(r2.dag, m.packet);
      var fault := Validation(lib, r2.history.view, Some(m), Some(m.packet)).1;
      var history := Taken(lib, r2.history, Offer(Some(m), Some(m.packet), applied.Some?));
      Judged(lib, r2, m, fault, history, applied)
  }

  predicate ReplyDue(r: Receiver) {
    r.phase.Replying? || r.phase.Rejecting?
  }

  function Reply(r: Receiver): Response {
    match r.phase
    case Replying => Response(true, Acknowledgment(r.history.view))
    case Rejecting(_, cause) => Response(false, cause)
    case _ => Response(false, "")
  }

  /** After writing the reply due; a rejection stands even if it could not be written. */
  function Replied(r: Receiver, ok: bool): Receiver {
    var r' := if ok then r.(sent := r.sent + [Reply(r)]) else r;
    match r.phase
    case Replying => r'.(phase := if !ok then Broken else if r.history.view.finalized then Finished else Listening)
    case Rejecting(fault, _) => r'.(phase := Rejected(fault))
    case _ => r
  }

  /** The next step: write the reply due, or take the next message, or find the stream broken. */
  function Advanced(lib: Library, root: string, r: Receiver, incoming: seq<UploadMessage>, writes: nat): Receiver {
    if ReplyDue(r) then Replied(r, writes > 0)
    else if incoming == [] then r.(phase := Broken)
    else Processed(lib, root, r, incoming[0])
  }

  function StepsLeft(r: Receiver): nat {
    if Stopped(r) then 0 else if ReplyDue(r) then 2 else 1
  }

  /** How a download ends when these messages arrive before the stream breaks and `writes` replies can be written. */
  function Served(lib: Library, root: string, r: Receiver, incoming: seq<UploadMessage>, writes: nat): Receiver
    decreases |incoming|, StepsLeft(r)
  {
    if Stopped(r) then r
    else
      Served(lib, root, Advanced(lib, root, r, incoming, writes),
             if ReplyDue(r) || incoming == [] then incoming else incoming[1..],
             if ReplyDue(r) && writes > 0 then writes - 1 else writes)
  }

  // ---------- The invariant ----------

  /** Applying packets one after the other to an empty DAG. */
  function Assembled(lib: Library, root: string, accepted: seq<Accepted>): Option<Dag> {
    if accepted == [] then Some(Dag(root, map[]))
    else
      var before := Assembled(lib, root, accepted[..|accepted| - 1]);
      if before.None? then None else lib.apply(before.value, accepted[|accepted| - 1].packet)
  }

  /** The acknowledgment of packet k. */
  function AckOf(windowed: bool, k: int): Response {
    Response(true, if windowed then WindowAck.Encode(k) else "")
  }

  predicate Accepts(r: Receiver) {
    && |r.history.accepted| <= |r.received| <= |r.history.accepted| + 1
    && (r.phase.Listening? || r.phase.Replying? || r.phase.Finished? ==> |r.received| == |r.history.accepted|)
    && forall k :: 0 <= k < |r.history.accepted| ==>
      r.history.accepted[k] == Accepted(r.received[k], r.received[k].packet)
  }

  function Acks(windowed: bool, n: nat): (acks: seq<Response>)
    ensures |acks| == n
  {
    if n == 0 then [] else Acks(windowed, n - 1) + [AckOf(windowed, n - 1)]
  }

  /** The replies without a rejection at their end. */
  function Positive(sent: seq<Response>): seq<Response> {
    if sent != [] && !sent[|sent| - 1].ok then sent[..|sent| - 1] else sent
  }

  /** Replies written so far acknowledge the accepted packets in order, one each, and never run ahead of them. */
  predicate Acknowledges(r: Receiver) {
    var n, acked := |r.history.accepted|, |Positive(r.sent)|;
    && acked <= n && Positive(r.sent) == Acks(r.history.view.windowed, acked)
    && (r.sent != Positive(r.sent) ==> r.phase.Rejected?)
    && (r.phase.Listening? || r.phase.Finished? ==> |r.sent| == n)
    && (r.phase.Replying? ==> |r.sent| == n - 1)
    && (r.phase.Rejecting? ==> |r.sent| == |r.received| - 1)
    && (r.phase.Rejected? ==> acked <= |r.received| - 1)
    && |r.sent| <= |r.received|
  }

  /** A fault the checks can actually find. */
  predicate Possible(fault: DownloadFault) {
    fault != StreamIncomplete && fault != BadPacket(OutOfRange)
  }

  predicate FaultsPossible(r: Receiver) {
    match r.phase
    case Rejecting(fault, _) => Possible(fault)
    case Rejected(fault) => Possible(fault)
    case _ => true
  }

  predicate Concludes(lib: Library, root: string, r: Receiver) {
    && FaultsPossible(r)
    && (r.phase.Finished? ==> |r.received| > 0)
    && (r.phase.Listening? ==> !r.history.view.finalized)
    && (r.phase.Broken? && |r.sent| == |r.history.accepted| ==> !r.history.view.finalized)
    && (r.phase.Finished? ==> r.history.view.finalized)
    && ((r.phase.Replying? || r.phase.Finished?) && r.history.view.finalized ==> lib.verify(r.dag))
    && (0 < |r.history.accepted| <= |r.received| ==>
      && r.history.view.root == root
      && Authentic(lib, root, r.history.view.publicKey, r.history.view.signature)
      && r.received[0].publicKey == r.history.view.publicKey && r.received[0].signature == r.history.view.signature)
  }

  predicate Sound(lib: Library, root: string, r: Receiver) {
    && Consistent(r.history) && Accepts(r) && Acknowledges(r) && Concludes(lib, root, r)
    && Some(r.dag) == Assembled(lib, root, r.history.accepted)
  }

  lemma IdleIsSound(lib: Library, root: string)
    ensures Sound(lib, root, Idle(root))
  {
    FreshIsConsistent(root, "", "");
  }

  lemma AssembledAppends(lib: Library, root: string, accepted: seq<Accepted>, a: Accepted)
    requires Assembled(lib, root, accepted).Some?
    ensures Assembled(lib, root, accepted + [a]) == lib.apply(Assembled(lib, root, accepted).value, a.packet)
  {
    assert (accepted + [a])[..|accepted|] == accepted;
  }

  /** The history one message leaves behind. */
  lemma TakenShape(lib: Library, h: History, m: UploadMessage, applied: bool)
    requires Consistent(h)
    ensures var h' := Taken(lib, h, Offer(Some(m), Some(m.packet), applied));
      var fault := Validation(lib, h.view, Some(m), Some(m.packet)).1;
      && Consistent(h')
      && h'.accepted == (if fault.None? && applied then h.accepted + [Accepted(m, m.packet)] else h.accepted)
      && (fault.None? && applied ==> h'.view.finalized == m.isFinal)
      && h'.view.root == h.view.root && h'.view.publicKey == h.view.publicKey && h'.view.signature == h.view.signature
      && (|h.accepted| > 0 ==> h'.view.windowed == h.view.windowed)
      && (fault.None? && applied && m.isFinal && h'.view.windowed ==> h'.view.next == h'.view.total)
  {
    TakenKeepsConsistent(lib, h, Offer(Some(m), Some(m.packet), applied));
    CheckFacts(lib, h.view, Some(m), Some(m.packet));
  }

  lemma OpenedIsSound(lib: Library, root: string, r: Receiver, m: UploadMessage)
    requires Sound(lib, root, r) && r.phase.Listening?
    requires r.received == [] ==> m.root == root
    ensures Sound(lib, root, Opened(r, m)) && Opened(r, m).phase.Listening?
  {
    FreshIsConsistent(m.root, m.publicKey, m.signature);
  }

  /** The receiver after a message it looked into: either one more packet accepted, or a rejection. */
  predicate Grows(lib: Library, r: Receiver, r': Receiver, m: UploadMessage) {
    var h, h' := r.history, r'.history;
    && r'.received == r.received + [m] && r'.sent == r.sent && FaultsPossible(r')
    && (r'.phase.Replying? ==> h'.view.finalized == m.isFinal && (m.isFinal ==> lib.verify(r'.dag)))
    && h'.view.root == h.view.root && h'.view.publicKey == h.view.publicKey && h'.view.signature == h.view.signature
    && (h'.accepted == h.accepted || h'.accepted == h.accepted + [Accepted(m, m.packet)])
    && (if r'.phase.Replying? then |h'.accepted| == |h.accepted| + 1 else r'.phase.Rejecting?)
    && (|h.accepted| > 0 ==> h'.view.windowed == h.view.windowed)
  }

  lemma JudgedGrows(lib: Library, r: Receiver, m: UploadMessage, fault: Option<PacketFault>, h': History,
                    applied: Option<Dag>)
    requires var h := r.history;
      && fault != Some(OutOfRange)
      && h'.accepted == (if fault.None? && applied.Some? then h.accepted + [Accepted(m, m.packet)] else h.accepted)
      && (fault.None? && applied.Some? ==> h'.view.finalized == m.isFinal)
      && h'.view.root == h.view.root && h'.view.publicKey == h.view.publicKey && h'.view.signature == h.view.signature
      && (|h.accepted| > 0 ==> h'.view.windowed == h.view.windowed)
      && (fault.None? && applied.Some? && m.isFinal && h'.view.windowed ==> h'.view.next == h'.view.total)
    ensures var r' := Judged(lib, r.(received := r.received + [m]), m, fault, h', applied);
      && Grows(lib, r, r', m)
      && r'.history == h' && r'.dag == (if fault.None? && applied.Some? then applied.value else r.dag)
  {
  }

  lemma ProcessedGrows(lib: Library, root: string, r: Receiver, m: UploadMessage)
    requires Consistent(r.history) && Some(r.dag) == Assembled(lib, root, r.history.accepted)
    requires r == Opened(r, m)
    requires r.received == [] ==> m.root == root && Authentic(lib, root, m.publicKey, m.signature)
    ensures var r' := Processed(lib, root, r, m);
      && Grows(lib, r, r', m) && Consistent(r'.history)
      && Some(r'.dag) == Assembled(lib, root, r'.history.accepted)
  {
    var applied := lib.apply(r.dag, m.packet);
    var fault := Validation(lib, r.history.view, Some(m), Some(m.packet)).1;
    var h' := Taken(lib, r.history, Offer(Some(m), Some(m.packet), applied.Some?));
    TakenShape(lib, r.history, m, applied.Some?);
    RangeCheckUnreachable(lib, r.history, Some(m), Some(m.packet));
    AssembledAppends(lib, root, r.history.accepted, Accepted(m, m.packet));
    JudgedGrows(lib, r, m, fault, h', applied);
    assert Processed(lib, root, r, m) == Judged(lib, r.(received := r.received + [m]), m, fault, h', applied);
  }

  lemma GrowsSoundly(lib: Library, root: string, r: Receiver, r': Receiver, m: UploadMessage)
    requires Accepts(r) && Acknowledges(r) && Concludes(lib, root, r) && r.phase.Listening?
    requires r.received == [] ==>
      && m.root == root && r.history == Fresh(m.root, m.publicKey, m.signature)
      && Authentic(lib, root, m.publicKey, m.signature)
    requires Grows(lib, r, r', m)
    ensures Accepts(r') && Acknowledges(r') && Concludes(lib, root, r')
  {
  }

  /** What one more message, listened to and not turned away at the door, does to each part of the invariant. */
  lemma AcceptedIsSound(lib: Library, root: string, r: Receiver, m: UploadMessage)
    requires Sound(lib, root, r) && r.phase.Listening?
    requires r.received == [] ==> m.root == root && r == Opened(r, m) && Authentic(lib, root, m.publicKey, m.signature)
    ensures Sound(lib, root, Processed(lib, root, r, m))
  {
    ProcessedGrows(lib, root, r, m);
    GrowsSoundly(lib, root, r, Processed(lib, root, r, m), m);
  }

  lemma ProcessedIsSound(lib: Library, root: string, r: Receiver, m: UploadMessage)
    requires Sound(lib, root, r) && r.phase.Listening?
    ensures Sound(lib, root, Processed(lib, root, r, m))
  {
    if r.received == [] && (m.root != root || !Authentic(lib, m.root, m.publicKey, m.signature)) {
    } else {
      OpenedIsSound(lib, root, r, m);
      AcceptedIsSound(lib, root, Opened(r, m), m);
    }
  }

  lemma AcknowledgedNext(r: Receiver, r': Receiver)
    requires Acknowledges(r) && r.phase.Replying? && |r.received| == |r.history.accepted|
    requires r'.history == r.history && r'.received == r.received && (r'.phase.Listening? || r'.phase.Finished?)
    requires r'.sent == r.sent + [AckOf(r.history.view.windowed, |r.history.accepted| - 1)]
    ensures Acknowledges(r')
  {
    hide WindowAck.Encode;
    assert Positive(r.sent) == r.sent;
    assert Positive(r'.sent) == r'.sent;
  }

  lemma RejectedLast(r: Receiver, r': Receiver, reply: Response)
    requires Acknowledges(r) && r.phase.Rejecting? && !reply.ok
    requires r'.history == r.history && r'.received == r.received && r'.sent == r.sent + [reply] && r'.phase.Rejected?
    ensures Acknowledges(r')
  {
    assert Positive(r.sent) == r.sent;
    assert r'.sent[..|r.sent|] == r.sent;
  }

  lemma RepliedAcknowledges(r: Receiver, ok: bool)
    requires Accepts(r) && Acknowledges(r) && ReplyDue(r) && r.history.view.next == |r.history.accepted|
    ensures Accepts(Replied(r, ok)) && Acknowledges(Replied(r, ok))
  {
    hide WindowAck.Encode;
    if ok && r.phase.Replying? {
      AcknowledgedNext(r, Replied(r, ok));
    }
    if ok && r.phase.Rejecting? {
      RejectedLast(r, Replied(r, ok), Reply(r));
    }
  }

  lemma RepliedIsSound(lib: Library, root: string, r: Receiver, ok: bool)
    requires Sound(lib, root, r) && ReplyDue(r)
    ensures Sound(lib, root, Replied(r, ok))
  {
    RepliedAcknowledges(r, ok);
  }

  lemma BrokenIsSound(lib: Library, root: string, r: Receiver)
    requires Sound(lib, root, r) && r.phase.Listening?
    ensures Sound(lib, root, r.(phase := Broken))
  {
  }

  lemma AdvancedIsSound(lib: Library, root: string, r: Receiver, incoming: seq<UploadMessage>, writes: nat)
    requires Sound(lib, root, r) && !Stopped(r)
    ensures Sound(lib, root, Advanced(lib, root, r, incoming, writes))
  {
    if ReplyDue(r) {
      RepliedIsSound(lib, root, r, writes > 0);
    } else if incoming == [] {
      BrokenIsSound(lib, root, r);
    } else {
      ProcessedIsSound(lib, root, r, incoming[0]);
    }
  }

  /** However the stream behaves, a download ends soundly: a rejected, broken or finished receiver has acknowledged
      only packets it accepted, in order, and a finished one holds the verified DAG assembled from all of them. */
  lemma {:induction false} ServedIsSound(lib: Library, root: string, r: Receiver, incoming: seq<UploadMessage>,
                                         writes: nat)
    requires Sound(lib, root, r)
    ensures Sound(lib, root, Served(lib, root, r, incoming, writes)) && Stopped(Served(lib, root, r, incoming, writes))
    decreases |incoming|, StepsLeft(r)
  {
    hide Sound, Validation, Taken;
    if !Stopped(r) {
      AdvancedIsSound(lib, root, r, incoming, writes);
      ServedIsSound(lib, root, Advanced(lib, root, r, incoming, writes),
                    if ReplyDue(r) || incoming == [] then incoming else incoming[1..],
                    if ReplyDue(r) && writes > 0 then writes - 1 else writes);
    }
  }

  // ---------- What is rejected ----------

  /** The first message has passed the checks made before its packet is looked at. */
  predicate AtDoor(lib: Library, root: string, r: Receiver, m: UploadMessage) {
    r.received == [] ==> m.root == root && Authentic(lib, m.root, m.publicKey, m.signature)
  }

  /** What the tree becomes by a packet found in order. */
  function AppliedTo(lib: Library, root: string, r: Receiver, m: UploadMessage): Option<Dag> {
    var ready := Opened(r, m);
    if AtDoor(lib, root, r, m) && Acceptable(lib, ready.history.view, m, m.packet) then lib.apply(ready.dag, m.packet)
    else None
  }

  /** The fault for which a listening receiver turns this message away. */
  predicate Objects(lib: Library, root: string, r: Receiver, m: UploadMessage, fault: DownloadFault) {
    var view := Opened(r, m).history.view;
    match fault
    case RootSubstituted => r.received == [] && m.root != root
    case NotAuthentic(cause) =>
      r.received == [] && m.root == root && CredentialFaultOf(lib, root, m.publicKey, m.signature) == Some(cause)
    case BadPacket(fault) =>
      AtDoor(lib, root, r, m) && Validation(lib, view, Some(m), Some(m.packet)).1 == Some(fault)
    case ApplyFailed =>
      && AtDoor(lib, root, r, m) && Acceptable(lib, view, m, m.packet)
      && AppliedTo(lib, root, r, m).None?
    case VerifyFailed =>
      AppliedTo(lib, root, r, m).Some? && m.isFinal && !lib.verify(AppliedTo(lib, root, r, m).value)
    case StreamIncomplete => false
    case StreamFailed => false
  }

  lemma CompleteAtLast(lib: Library, root: string, r: Receiver, m: UploadMessage)
    requires Sound(lib, root, r) && r.phase.Listening? && AppliedTo(lib, root, r, m).Some? && m.isFinal
    ensures var view := Taken(lib, Opened(r, m).history, Offer(Some(m), Some(m.packet), true)).view;
      view.windowed ==> view.next == view.total
  {
    var ready, offer := Opened(r, m), Offer(Some(m), Some(m.packet), true);
    OpenedIsSound(lib, root, r, m);
    assert CountersConsistent(ready.history);
    CheckFacts(lib, ready.history.view, offer.message, offer.packet);
    hide Validation, Sound, Opened, Assembled, Authentic, CountersConsistent, LeavesFault, PositionFault, CounterFault;
    if Taken(lib, ready.history, offer).view.windowed {
      FinalMeansComplete(lib, ready.history, offer);
    }
  }

  /** A message is turned away exactly for what is wrong with it, and accepted exactly if nothing is. */
  lemma RejectsExactly(lib: Library, root: string, r: Receiver, m: UploadMessage, fault: DownloadFault)
    requires Sound(lib, root, r) && r.phase.Listening?
    ensures var phase := Processed(lib, root, r, m).phase;
      && (phase.Rejecting? && phase.fault == fault <==> Objects(lib, root, r, m, fault))
      && (phase.Replying? <==>
        AppliedTo(lib, root, r, m).Some? && (m.isFinal ==> lib.verify(AppliedTo(lib, root, r, m).value)))
  {
    hide Validation, Sound, CredentialFaultOf, Taken;
    if AppliedTo(lib, root, r, m).Some? && m.isFinal {
      CompleteAtLast(lib, root, r, m);
    }
  }

  // ---------- What a rejection says ----------

  /** The text of a rejection, due or written, explains the fault found in the last message. */
  predicate TextsExplain(lib: Library, r: Receiver) {
    match r.phase
    case Rejecting(fault, cause) =>
      r.received != [] && cause == lib.explain(fault, r.received[|r.received| - 1], r.history.view, r.dag)
    case Rejected(fault) =>
      && r.received != []
      && var cause := lib.explain(fault, r.received[|r.received| - 1], r.history.view, r.dag);
      |r.sent| == |r.received| ==> r.sent[|r.sent| - 1] == Response(false, cause)
    case _ => true
  }

  lemma ProcessedExplains(lib: Library, root: string, r: Receiver, m: UploadMessage)
    ensures TextsExplain(lib, Processed(lib, root, r, m))
  {
    hide Validation, Taken;
  }

  lemma RepliedExplains(lib: Library, r: Receiver, ok: bool)
    requires TextsExplain(lib, r) && ReplyDue(r) && |r.sent| < |r.received|
    ensures TextsExplain(lib, Replied(r, ok))
  {
  }

  lemma ReplyIsOwed(lib: Library, root: string, r: Receiver)
    requires Sound(lib, root, r) && ReplyDue(r)
    ensures |r.sent| < |r.received|
  {
    hide Consistent, Assembled, Concludes, WindowAck.Encode;
  }

  lemma AdvancedExplains(lib: Library, root: string, r: Receiver, incoming: seq<UploadMessage>, writes: nat)
    requires Sound(lib, root, r) && TextsExplain(lib, r) && !Stopped(r)
    ensures TextsExplain(lib, Advanced(lib, root, r, incoming, writes))
  {
    if ReplyDue(r) {
      ReplyIsOwed(lib, root, r);
      RepliedExplains(lib, r, writes > 0);
    } else if incoming != [] {
      ProcessedExplains(lib, root, r, incoming[0]);
    }
    hide Sound, Processed, Replied;
  }

  lemma {:induction false} ServedExplains(lib: Library, root: string, r: Receiver, incoming: seq<UploadMessage>,
                                          writes: nat)
    requires Sound(lib, root, r) && TextsExplain(lib, r)
    ensures TextsExplain(lib, Served(lib, root, r, incoming, writes))
    decreases |incoming|, StepsLeft(r)
  {
    hide Sound, Processed, Reply, Acknowledgment, TextsExplain;
    if !Stopped(r) {
      AdvancedIsSound(lib, root, r, incoming, writes);
      AdvancedExplains(lib, root, r, incoming, writes);
      ServedExplains(lib, root, Advanced(lib, root, r, incoming, writes),
                     if ReplyDue(r) || incoming == [] then incoming else incoming[1..],
                     if ReplyDue(r) && writes > 0 then writes - 1 else writes);
    }
  }

  /** A rejected download's last reply, if it could be written, is the text that explains the fault it returns. */
  lemma DownloadExplains(lib: Library, root: string, incoming: seq<UploadMessage>, writes: nat)
    ensures TextsExplain(lib, Served(lib, root, Idle(root), incoming, writes))
  {
    IdleIsSound(lib, root);
    ServedExplains(lib, root, Idle(root), incoming, writes);
  }

  // ---------- The download as it runs ----------

  /** The error a download that stopped this way returns. */
  function FaultOf(phase: Phase): Option<DownloadFault> {
    match phase
    case Rejected(fault) => Some(fault)
    case Broken => Some(StreamFailed)
    case _ => None
  }

  datatype Tape = Tape(incoming: seq<UploadMessage>, written: seq<Response>, writes: nat)

  class DownloadStream {
    var incoming: seq<UploadMessage>
    var written: seq<Response>
    var writes: nat

    constructor (incoming: seq<UploadMessage>, writes: nat)
      ensures this.incoming == incoming && written == [] && this.writes == writes
    {
      this.incoming, written, this.writes := incoming, [], writes;
    }

    function Position(): Tape
      reads this
    {
      Tape(incoming, written, writes)
    }

    method Read() returns (message: Option<UploadMessage>)
      modifies this`incoming
      ensures old(incoming) == [] ==> message == None && incoming == []
      ensures old(incoming) != [] ==> message == Some(old(incoming)[0]) && incoming == old(incoming)[1..]
    {
      if incoming == [] {
        return None;
      }
      message, incoming := Some(incoming[0]), incoming[1..];
    }

    method Write(response: Response) returns (ok: bool)
      modifies this`written, this`writes
      ensures ok == (old(writes) > 0)
      ensures written == if ok then old(written) + [response] else old(written)
      ensures writes == if ok then old(writes) - 1 else 0
    {
      ok := writes > 0;
      if ok {
        written, writes := written + [response], writes - 1;
      }
    }
  }

  /** Receiver r, about to look into message m, is where the download begun on `incoming0` has come. */
  ghost predicate Follows(lib: Library, root: string, r: Receiver, m: UploadMessage, now: Tape, begun: Tape) {
    && r.phase.Listening?
    && begun.incoming == r.received + [m] + now.incoming
    && now.written == begun.written + r.sent
    && Served(lib, root, r, [m] + now.incoming, now.writes)
       == Served(lib, root, Idle(root), begun.incoming, begun.writes)
  }

  /** Receiver r, the last message processed and a reply due, is where the download has come. */
  ghost predicate Answers(lib: Library, root: string, r: Receiver, now: Tape, begun: Tape) {
    && begun.incoming == r.received + now.incoming
    && now.written == begun.written + r.sent
    && Served(lib, root, r, now.incoming, now.writes) == Served(lib, root, Idle(root), begun.incoming, begun.writes)
  }

  lemma ProcessedBasics(lib: Library, root: string, r: Receiver, m: UploadMessage)
    ensures var r' := Processed(lib, root, r, m);
      r'.received == r.received + [m] && r'.sent == r.sent && ReplyDue(r')
  {
  }

  lemma ProcessFollows(lib: Library, root: string, r: Receiver, m: UploadMessage, now: Tape, begun: Tape)
    requires Follows(lib, root, r, m, now, begun)
    ensures Answers(lib, root, Processed(lib, root, r, m), now, begun)
    ensures ReplyDue(Processed(lib, root, r, m))
  {
    assert ([m] + now.incoming)[1..] == now.incoming;
    ProcessedBasics(lib, root, r, m);
  }

  lemma ReplyFollows(lib: Library, root: string, r: Receiver, now: Tape, now': Tape, begun: Tape)
    requires Answers(lib, root, r, now, begun) && ReplyDue(r)
    requires now' == if now.writes > 0 then Tape(now.incoming, now.written + [Reply(r)], now.writes - 1) else now
    ensures Answers(lib, root, Replied(r, now.writes > 0), now', begun)
  {
  }

  lemma ReadFollows(lib: Library, root: string, r: Receiver, now: Tape, now': Tape, begun: Tape)
    requires Answers(lib, root, r, now, begun) && r.phase.Listening? && now.incoming != []
    requires now' == now.(incoming := now.incoming[1..])
    ensures Follows(lib, root, r, now.incoming[0], now', begun)
  {
    assert [now.incoming[0]] + now'.incoming == now.incoming;
    assert r.received + [now.incoming[0]] + now'.incoming == r.received + now.incoming;
  }

  lemma StoppedEnds(lib: Library, root: string, r: Receiver, now: Tape, begun: Tape)
    requires Answers(lib, root, r, now, begun) && Stopped(r)
    ensures r == Served(lib, root, Idle(root), begun.incoming, begun.writes)
  {
  }

  lemma BreakEnds(lib: Library, root: string, r: Receiver, now: Tape, begun: Tape)
    requires Answers(lib, root, r, now, begun) && r.phase.Listening? && now.incoming == []
    ensures Answers(lib, root, r.(phase := Broken), now, begun)
    ensures r.(phase := Broken) == Served(lib, root, Idle(root), begun.incoming, begun.writes)
  {
  }

  lemma DownloadIsSound(lib: Library, root: string, incoming: seq<UploadMessage>, writes: nat)
    ensures var end := Served(lib, root, Idle(root), incoming, writes);
      Sound(lib, root, end) && Stopped(end)
  {
    IdleIsSound(lib, root);
    ServedIsSound(lib, root, Idle(root), incoming, writes);
  }

  /** No download, on whatever stream, is rejected for an incomplete packet stream or a packet index out of range. */
  lemma NeverImpossiblyRejected(lib: Library, root: string, incoming: seq<UploadMessage>, writes: nat)
    ensures Served(lib, root, Idle(root), incoming, writes).phase != Rejected(StreamIncomplete)
    ensures Served(lib, root, Idle(root), incoming, writes).phase != Rejected(BadPacket(OutOfRange))
  {
    DownloadIsSound(lib, root, incoming, writes);
    hide Served, Assembled, Consistent, Accepts, Acknowledges;
  }

  lemma FaultlessLeavesExist(lib: Library, v: View, m: UploadMessage)
    requires Acceptable(lib, v, m, m.packet)
    ensures forall k :: 0 <= k < |m.packet.leaves| ==> m.packet.leaves[k].Some?
  {
    CheckFacts(lib, v, Some(m), Some(m.packet));
    LeavesAcceptedExactly(Validation(lib, v, Some(m), Some(m.packet)).0, m.packet);
  }

  /** A fault of the first message itself, before its packet is looked at. */
  predicate AtTheDoor(fault: DownloadFault) {
    fault.RootSubstituted? || fault.NotAuthentic?
  }

  /** What the first message must be for the download to succeed, and which fault is found in it first. */
  predicate DoorKept(lib: Library, root: string, m: UploadMessage, dag: Option<Dag>, fault: Option<DownloadFault>) {
    var same, key, text := m.root == root, lib.parsesKey(m.publicKey), DecodeHex(m.signature);
    && (dag.Some? ==>
      same && key && text.Some? && lib.parsesSignature(text.value) && lib.signs(m.publicKey, text.value, root))
    && (fault == Some(RootSubstituted) <==> !same)
    && (fault == Some(NotAuthentic(BadPublicKey)) <==> same && !key)
    && (fault == Some(NotAuthentic(BadHex)) <==> same && key && text.None?)
    && (fault == Some(NotAuthentic(BadSignature)) <==>
      same && key && text.Some? && !lib.parsesSignature(text.value))
    && (fault == Some(NotAuthentic(WrongSignature)) <==>
      same && key && text.Some? && lib.parsesSignature(text.value) && !lib.signs(m.publicKey, text.value, root))
  }

  /** Why the first message's credentials are refused. */
  function CheckCredentials(lib: Library, m: UploadMessage): Option<DownloadFault> {
    match CredentialFaultOf(lib, m.root, m.publicKey, m.signature)
    case None => None
    case Some(cause) => Some(NotAuthentic(cause))
  }

  lemma DoorIsKept(lib: Library, root: string, m: UploadMessage, dag: Option<Dag>, fault: Option<DownloadFault>)
    requires m.root != root ==> fault == Some(RootSubstituted) && dag.None?
    requires m.root == root ==>
      match CheckCredentials(lib, m)
      case None => fault.Some? ==> !AtTheDoor(fault.value)
      case some => fault == some && dag.None?
    ensures DoorKept(lib, root, m, dag, fault)
  {
    CauseExactly(lib, m.root, m.publicKey, m.signature);
    hide CredentialFaultOf, DecodeHex;
  }

  /** Checks a packet, applies it to the tree, commits it, and after the last one verifies the tree. */
  method ApplyPacket(lib: Library, root: string, state: PacketReceiveState, tree: Dag, m: UploadMessage,
                     ghost r: Receiver)
    returns (fault: Option<DownloadFault>, tree': Dag)
    requires AtDoor(lib, root, r, m) && r.phase.Listening?
    requires state.Value() == Opened(r, m).history.view && tree == Opened(r, m).dag
    modifies state
    ensures
      var r' := Processed(lib, root, r, m);
      && state.Value() == r'.history.view && tree' == r'.dag
      && (match fault
          case None => r'.phase.Replying? && r'.history.view.finalized == m.isFinal
          case Some(f) => r'.phase == Rejecting(f, lib.explain(f, m, state.Value(), tree')))
    ensures fault.Some? ==> !AtTheDoor(fault.value)
  {
    tree' := tree;
    ghost var v := state.Value();
    var packetFault := state.Validate(lib, Some(m), Some(m.packet));
    if packetFault.Some? {
      return Some(BadPacket(packetFault.value)), tree';
    }
    var applied := lib.apply(tree, m.packet);
    if applied.None? {
      return Some(ApplyFailed), tree';
    }
    tree' := applied.value;
    FaultlessLeavesExist(lib, v, m);
    state.Commit(m, m.packet);
    if m.isFinal {
      if state.windowed && state.next != state.total {
        return Some(StreamIncomplete), tree';
      }
      if !lib.verify(tree') {
        return Some(VerifyFailed), tree';
      }
    }
    fault := None;
  }

  /** Acknowledges the packet just committed. */
  method Acknowledge(lib: Library, stream: DownloadStream, root: string, state: PacketReceiveState, tree: Dag,
                     ghost r: Receiver, ghost m: UploadMessage, ghost begun: Tape)
    returns (ok: bool, ghost end: Receiver)
    requires Follows(lib, root, r, m, stream.Position(), begun)
    requires
      var r' := Processed(lib, root, r, m);
      && r'.phase.Replying? && state.Value() == r'.history.view && tree == r'.dag
      && r'.history.view.finalized == m.isFinal
    modifies stream
    ensures Answers(lib, root, end, stream.Position(), begun)
    ensures state.Value() == end.history.view && tree == end.dag && end.received != []
    ensures end.phase == if !ok then Broken else if m.isFinal then Finished else Listening
    ensures stream.incoming == old(stream.incoming)
  {
    ghost var now := stream.Position();
    ProcessFollows(lib, root, r, m, now, begun);
    ProcessedBasics(lib, root, r, m);
    end := Processed(lib, root, r, m);
    ok := stream.Write(Response(true, state.CurrentAcknowledgment()));
    ReplyFollows(lib, root, end, now, stream.Position(), begun);
    end := Replied(end, ok);
  }

  /** Answers a message that is turned away. */
  method Reject(lib: Library, stream: DownloadStream, root: string, fault: DownloadFault, cause: Text,
                ghost r: Receiver, ghost m: UploadMessage, ghost begun: Tape)
    returns (ghost end: Receiver)
    requires Follows(lib, root, r, m, stream.Position(), begun)
    requires Processed(lib, root, r, m).phase == Rejecting(fault, cause)
    modifies stream
    ensures Answers(lib, root, end, stream.Position(), begun) && end.phase == Rejected(fault)
  {
    ghost var now := stream.Position();
    ProcessFollows(lib, root, r, m, now, begun);
    end := Processed(lib, root, r, m);
    var ok := stream.Write(Response(false, cause));
    ReplyFollows(lib, root, end, now, stream.Position(), begun);
    end := Replied(end, ok);
  }

  /** The loop over the packets, from the first message on. */
  method ReceivePackets(lib: Library, stream: DownloadStream, root: string, first: UploadMessage, ghost r: Receiver,
                        ghost begun: Tape)
    returns (dag: Option<Dag>, fault: Option<DownloadFault>, ghost end: Receiver)
    requires r == Idle(root) && AtDoor(lib, root, r, first) && Follows(lib, root, r, first, stream.Position(), begun)
    modifies stream
    ensures Answers(lib, root, end, stream.Position(), begun) && Stopped(end)
    ensures fault.Some? ==> !AtTheDoor(fault.value)
    ensures dag == (if end.phase.Finished? then Some(end.dag) else None) && fault == FaultOf(end.phase)
  {
    hide Sound, Processed, Served, Authentic, Validation, Replied;
    end := r;
    var m := first;
    var tree := Dag(m.root, map[]);
    var state := new PacketReceiveState(m.root, m.publicKey, m.signature);
    while true
      invariant fresh(state)
      invariant Follows(lib, root, end, m, stream.Position(), begun)
      invariant state.Value() == Opened(end, m).history.view && tree == Opened(end, m).dag
      invariant AtDoor(lib, root, end, m)
      decreases |stream.incoming|
    {
      fault, tree := ApplyPacket(lib, root, state, tree, m, end);
      if fault.Some? {
        var cause := lib.explain(fault.value, m, state.Value(), tree);
        end := Reject(lib, stream, root, fault.value, cause, end, m, begun);
        return None, fault, end;
      }
      var ok;
      ok, end := Acknowledge(lib, stream, root, state, tree, end, m, begun);
      if !ok {
        return None, Some(StreamFailed), end;
      }
      if m.isFinal {
        return Some(tree), None, end;
      }
      ghost var now := stream.Position();
      var message := stream.Read();
      if message.None? {
        BreakEnds(lib, root, end, now, begun);
        end := end.(phase := Broken);
        return None, Some(StreamFailed), end;
      }
      ReadFollows(lib, root, end, now, stream.Position(), begun);
      m := message.value;
    }
  }

  /** Receives the DAG under the requested root; the result is the DAG, or the reason why the download failed. */
  method DownloadDag(lib: Library, stream: DownloadStream, root: string)
    returns (dag: Option<Dag>, fault: Option<DownloadFault>, ghost end: Receiver)
    modifies stream
    ensures end == Served(lib, root, Idle(root), old(stream.incoming), old(stream.writes))
    ensures Answers(lib, root, end, stream.Position(), old(stream.Position()))
    ensures Sound(lib, root, end) && Stopped(end)
    ensures fault != Some(StreamIncomplete) && fault != Some(BadPacket(OutOfRange))
    ensures old(stream.incoming) != [] ==> DoorKept(lib, root, old(stream.incoming)[0], dag, fault)
    ensures old(stream.incoming) == [] ==> dag.None?
    ensures TextsExplain(lib, end)
    ensures dag == (if end.phase.Finished? then Some(end.dag) else None) && fault == FaultOf(end.phase)
  {
    hide Sound, DecodeHex, CredentialFaultOf, TextsExplain, DoorKept;
    DownloadIsSound(lib, root, stream.incoming, stream.writes);
    NeverImpossiblyRejected(lib, root, stream.incoming, stream.writes);
    DownloadExplains(lib, root, stream.incoming, stream.writes);
    ghost var begun := stream.Position();
    end := Idle(root);
    var message := stream.Read();
    if message.None? {
      end := end.(phase := Broken);
      return None, Some(StreamFailed), end;
    }
    var m := message.value;
    ReadFollows(lib, root, end, begun, stream.Position(), begun);
    fault := if m.root != root then Some(RootSubstituted) else CheckCredentials(lib, m);
    if fault.Some? {
      var cause := lib.explain(fault.value, m, NewView(root, "", ""), Dag(root, map[]));
      end := Reject(lib, stream, root, fault.value, cause, end, m, begun);
      StoppedEnds(lib, root, end, stream.Position(), begun);
      DoorIsKept(lib, root, m, None, fault);
      return None, fault, end;
    }
    dag, fault, end := ReceivePackets(lib, stream, root, m, end, begun);
    StoppedEnds(lib, root, end, stream.Position(), begun);
    DoorIsKept(lib, root, m, dag, fault);
  }
}
