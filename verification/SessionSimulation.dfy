/** The two ends of a session are the upload and the download that run on their own. */
module SessionSimulation {
  import opened Wire
  import opened Session
  import opened SessionSafety
  import S = Sender
  import SR = SenderRuns
  import D = Download

  /** Having read `replies` and made `writes` writes, an upload begun from the start goes on as from s. */
  ghost predicate GoesOnAs(u: S.Upload, s: S.State, replies: seq<S.Outcome>, writes: nat) {
    forall more, moreWrites: nat {:trigger S.Ending(u, s, more, moreWrites)} ::
      S.Ending(u, S.START, replies + more, writes + moreWrites) == S.Ending(u, s, more, moreWrites)
  }

  lemma WriteGoesOn(u: S.Upload, s: S.State, replies: seq<S.Outcome>, writes: nat)
    requires GoesOnAs(u, s, replies, writes) && S.WriteDue(u, s)
    ensures GoesOnAs(u, S.AfterWrite(u, s, true), replies, writes + 1)
  {
    forall more, moreWrites: nat
      ensures S.Ending(u, S.START, replies + more, writes + 1 + moreWrites)
           == S.Ending(u, S.AfterWrite(u, s, true), more, moreWrites)
    {
      assert S.Ending(u, s, more, moreWrites + 1) == S.Ending(u, S.AfterWrite(u, s, true), more, moreWrites);
    }
  }

  lemma ReadGoesOn(u: S.Upload, s: S.State, outcome: S.Outcome, replies: seq<S.Outcome>, writes: nat)
    requires GoesOnAs(u, s, replies, writes) && S.ReadDue(u, s)
    ensures GoesOnAs(u, S.AfterRead(u, s, outcome), replies + [outcome], writes)
  {
    forall more, moreWrites: nat
      ensures S.Ending(u, S.START, replies + [outcome] + more, writes + moreWrites)
           == S.Ending(u, S.AfterRead(u, s, outcome), more, moreWrites)
    {
      assert replies + [outcome] + more == replies + ([outcome] + more);
      assert ([outcome] + more)[1..] == more;
      assert S.Ending(u, s, [outcome] + more, moreWrites) == S.Ending(u, S.AfterRead(u, s, outcome), more, moreWrites);
    }
  }

  /** These outcomes are the receiver's first replies in order; the last one may instead tell of a failing wait. */
  predicate AsAnswered(replies: seq<S.Outcome>, sent: seq<Response>) {
    forall k :: 0 <= k < |replies| ==>
      if replies[k].Failing? then k == |replies| - 1 else k < |sent| && replies[k] == S.Received(Some(sent[k]))
  }

  predicate NoFailureYet(replies: seq<S.Outcome>) {
    replies != [] ==> !replies[|replies| - 1].Failing?
  }

  /** A sender in state s stands where SendBatchedUpload stands, or ended, given these replies. */
  ghost predicate Stands(u: S.Upload, s: S.State, replies: seq<S.Outcome>) {
    if S.Done(s) then S.Ending(u, S.START, replies, s.next) == s else GoesOnAs(u, s, replies, s.next)
  }

  lemma GoneOnStands(u: S.Upload, s: S.State, replies: seq<S.Outcome>)
    requires GoesOnAs(u, s, replies, s.next)
    ensures Stands(u, s, replies)
  {
    assert replies + [] == replies;
    assert S.Done(s) ==> S.Ending(u, s, [], 0) == s;
  }

  /** A write that fails ends the upload as it ends when no further write succeeds. */
  lemma FailedWriteStands(u: S.Upload, s: S.State, replies: seq<S.Outcome>)
    requires GoesOnAs(u, s, replies, s.next) && S.WriteDue(u, s)
    ensures Stands(u, S.AfterWrite(u, s, false), replies)
  {
    assert replies + [] == replies;
    assert S.Ending(u, s, [], 0) == S.AfterWrite(u, s, false);
  }

  lemma ReadStands(u: S.Upload, s: S.State, outcome: S.Outcome, replies: seq<S.Outcome>)
    returns (replies': seq<S.Outcome>)
    requires GoesOnAs(u, s, replies, s.next) && S.ReadDue(u, s) && |replies| == s.taken
    ensures replies' == replies + [outcome]
    ensures Stands(u, S.AfterRead(u, s, outcome), replies') && |replies'| == S.AfterRead(u, s, outcome).taken
    ensures !S.Done(S.AfterRead(u, s, outcome)) ==> NoFailureYet(replies')
  {
    ReadLeavesNext(u, s, outcome);
    replies' := replies + [outcome];
    ReadGoesOn(u, s, outcome, replies, s.next);
    SR.ReadCounts(u, s, outcome);
    GoneOnStands(u, S.AfterRead(u, s, outcome), replies');
  }

  lemma AnswersGrow(replies: seq<S.Outcome>, sent: seq<Response>, sent': seq<Response>)
    requires AsAnswered(replies, sent) && sent <= sent'
    ensures AsAnswered(replies, sent')
    ensures forall outcome: S.Outcome ::
      && NoFailureYet(replies)
      && (outcome.Failing? || (|replies| < |sent| && outcome == S.Received(Some(sent[|replies|]))))
      ==> AsAnswered(replies + [outcome], sent')
  {
  }

  /** Replies are only ever added, and the one a sender takes, if any, is the next. */
  lemma StepAnswers(cfg: Config, s: State, step: Step)
    requires Valid(cfg) && Inv(cfg, s) && Enabled(cfg, s, step)
    ensures s.receiver.sent <= Next(cfg, s, step).receiver.sent
    ensures step.TakeReply? ==>
      s.sender.taken < |s.receiver.sent| && s.back != [] && s.back[0] == s.receiver.sent[s.sender.taken]
    ensures step.TakeResult? && s.channel != [] && !s.channel[0].Failing? ==>
      s.sender.taken < |s.receiver.sent| && s.channel[0] == S.Received(Some(s.receiver.sent[s.sender.taken]))
  {
    hide SR.Sound, D.Sound, D.Reply, Backed, Carries, S.AfterRead, S.AfterWrite, S.WriteDue;
    match step {
      case Receive => D.ProcessedBasics(cfg.lib, cfg.requested, s.receiver, Seen(cfg, s.forward[0]));
      case TakeResult =>
        if !s.channel[0].Failing? {
          FirstQueued(s.reader, s.channel, s.back, s.receiver.sent, s.sender.taken);
        }
      case _ =>
    }
  }

  /** One step of the session, seen from its sender. */
  lemma StepStands(cfg: Config, s: State, step: Step, replies: seq<S.Outcome>) returns (replies': seq<S.Outcome>)
    requires Valid(cfg) && Inv(cfg, s) && Enabled(cfg, s, step)
    requires Stands(cfg.upload, s.sender, replies)
    requires |replies| == s.sender.taken && AsAnswered(replies, s.receiver.sent)
    requires !S.Done(s.sender) ==> NoFailureYet(replies)
    ensures var s' := Next(cfg, s, step);
      && Stands(cfg.upload, s'.sender, replies')
      && |replies'| == s'.sender.taken && AsAnswered(replies', s'.receiver.sent)
      && (!S.Done(s'.sender) ==> NoFailureYet(replies'))
  {
    hide GoesOnAs, S.AfterRead, Inv, S.HasRoom, D.Processed, D.Replied, AsAnswered, S.Ending;
    var u, sender, s' := cfg.upload, s.sender, Next(cfg, s, step);
    StepAnswers(cfg, s, step);
    AnswersGrow(replies, s.receiver.sent, s'.receiver.sent);
    replies' := replies;
    match step {
      case Send =>
        WriteGoesOn(u, sender, replies, sender.next);
        GoneOnStands(u, s'.sender, replies);
      case TakeReply => replies' := ReadStands(u, sender, S.Received(Some(s.back[0])), replies);
      case TakeResult => replies' := ReadStands(u, sender, s.channel[0], replies);
      case SenderFault(fault) =>
        if S.WriteDue(u, sender) {
          FailedWriteStands(u, sender, replies);
        } else {
          replies' := ReadStands(u, sender, S.Failing(fault), replies);
        }
      case _ =>
    }
  }

  lemma NothingAnswered(sent: seq<Response>)
    ensures AsAnswered([], sent) && NoFailureYet([])
  {
  }

  lemma StartGoesOn(u: S.Upload)
    ensures GoesOnAs(u, S.START, [], 0)
  {
    hide S.Ending;
    forall more: seq<S.Outcome>
      ensures [] + more == more
    {
    }
  }

  /** The session's sender stands where SendBatchedUpload stands after as many writes, given the receiver's replies
      in the order they were sent and, at their end, the failure of a wait that failed. */
  lemma {:induction false} SenderIsUpload(cfg: Config, steps: seq<Step>) returns (replies: seq<S.Outcome>)
    requires Valid(cfg)
    ensures var s := After(cfg, steps);
      && Stands(cfg.upload, s.sender, replies)
      && |replies| == s.sender.taken && AsAnswered(replies, s.receiver.sent)
      && (!S.Done(s.sender) ==> NoFailureYet(replies))
  {
    hide Stands, S.AfterRead, S.AfterWrite, Inv, D.Processed, D.Replied, AsAnswered, Next;
    if steps == [] {
      replies := [];
      StartGoesOn(cfg.upload);
      GoneOnStands(cfg.upload, S.START, []);
      NothingAnswered([]);
    } else {
      var before, last := After(cfg, steps[..|steps| - 1]), steps[|steps| - 1];
      replies := SenderIsUpload(cfg, steps[..|steps| - 1]);
      if Enabled(cfg, before, last) {
        ReachableInv(cfg, steps[..|steps| - 1]);
        AnswersGrow(replies, before.receiver.sent, Next(cfg, before, last).receiver.sent) by {
          StepAnswers(cfg, before, last);
        }
        replies := StepStands(cfg, before, last, replies);
      }
    }
  }

  /** Having taken `incoming` and written `writes` replies, a download begun from the start goes on as from r. */
  ghost predicate ServesOnAs(lib: Library, root: string, r: D.Receiver, incoming: seq<UploadMessage>, writes: nat) {
    forall more, moreWrites: nat {:trigger D.Served(lib, root, r, more, moreWrites)} ::
      D.Served(lib, root, D.Idle(root), incoming + more, writes + moreWrites)
      == D.Served(lib, root, r, more, moreWrites)
  }

  lemma ReceiveServesOn(lib: Library, root: string, r: D.Receiver, m: UploadMessage, incoming: seq<UploadMessage>,
                        writes: nat)
    requires ServesOnAs(lib, root, r, incoming, writes) && r.phase.Listening?
    ensures ServesOnAs(lib, root, D.Processed(lib, root, r, m), incoming + [m], writes)
  {
    hide D.Processed;
    forall more, moreWrites: nat
      ensures D.Served(lib, root, D.Idle(root), incoming + [m] + more, writes + moreWrites)
           == D.Served(lib, root, D.Processed(lib, root, r, m), more, moreWrites)
    {
      assert incoming + [m] + more == incoming + ([m] + more);
      assert ([m] + more)[1..] == more;
      assert D.Served(lib, root, r, [m] + more, moreWrites)
          == D.Served(lib, root, D.Processed(lib, root, r, m), more, moreWrites);
    }
  }

  lemma AnswerServesOn(lib: Library, root: string, r: D.Receiver, incoming: seq<UploadMessage>, writes: nat)
    requires ServesOnAs(lib, root, r, incoming, writes) && D.ReplyDue(r)
    ensures ServesOnAs(lib, root, D.Replied(r, true), incoming, writes + 1)
  {
    hide D.Reply;
    forall more, moreWrites: nat
      ensures D.Served(lib, root, D.Idle(root), incoming + more, writes + 1 + moreWrites)
           == D.Served(lib, root, D.Replied(r, true), more, moreWrites)
    {
      assert D.Served(lib, root, r, more, moreWrites + 1) == D.Served(lib, root, D.Replied(r, true), more, moreWrites);
    }
  }

  /** A receiver r stands where DownloadDag stands, or ended, after the messages received and replies sent. */
  ghost predicate Serves(lib: Library, root: string, r: D.Receiver) {
    if D.Stopped(r) then D.Served(lib, root, D.Idle(root), r.received, |r.sent|) == r
    else ServesOnAs(lib, root, r, r.received, |r.sent|)
  }

  lemma ServedOnServes(lib: Library, root: string, r: D.Receiver)
    requires ServesOnAs(lib, root, r, r.received, |r.sent|)
    ensures Serves(lib, root, r)
  {
    assert r.received + [] == r.received;
    assert D.Stopped(r) ==> D.Served(lib, root, r, [], 0) == r;
  }

  /** A stream that fails ends the download as it ends with no more messages and no more replies to be written. */
  lemma FailedStreamServes(lib: Library, root: string, r: D.Receiver)
    requires ServesOnAs(lib, root, r, r.received, |r.sent|) && !D.Stopped(r)
    ensures Serves(lib, root, if D.ReplyDue(r) then D.Replied(r, false) else r.(phase := D.Broken))
  {
    hide D.Reply;
    var r' := if D.ReplyDue(r) then D.Replied(r, false) else r.(phase := D.Broken);
    assert r.received + [] == r.received;
    assert D.Served(lib, root, r, [], 0) == D.Served(lib, root, r', [], 0) == r';
  }

  /** One step of the session, seen from its receiver. */
  lemma StepServes(cfg: Config, s: State, step: Step)
    requires Valid(cfg) && Enabled(cfg, s, step) && Serves(cfg.lib, cfg.requested, s.receiver)
    ensures Serves(cfg.lib, cfg.requested, Next(cfg, s, step).receiver)
  {
    hide ServesOnAs, D.Processed, D.Reply, D.Served, S.AfterRead, S.HasRoom;
    var lib, root, r, r' := cfg.lib, cfg.requested, s.receiver, Next(cfg, s, step).receiver;
    match step {
      case Receive =>
        var m := Seen(cfg, s.forward[0]);
        ReceiveServesOn(lib, root, r, m, r.received, |r.sent|);
        D.ProcessedBasics(lib, root, r, m);
        ServedOnServes(lib, root, r');
      case Answer =>
        AnswerServesOn(lib, root, r, r.received, |r.sent|);
        RepliedBasics(r);
        ServedOnServes(lib, root, r');
      case ReceiverFault => FailedStreamServes(lib, root, r);
      case _ =>
    }
  }

  lemma ReceivedAsSent(cfg: Config, s: State)
    requires Inv(cfg, s)
    ensures Faithful(cfg, s.receiver.received)
  {
  }

  lemma IdleServesOn(lib: Library, root: string)
    ensures ServesOnAs(lib, root, D.Idle(root), [], 0)
  {
    hide D.Served;
    forall more: seq<UploadMessage>
      ensures [] + more == more
    {
    }
  }

  /** The session's receiver stands where DownloadDag stands after the sender's messages, as it decodes them, and as
      many replies. */
  lemma {:induction false} ReceiverIsDownload(cfg: Config, steps: seq<Step>)
    requires Valid(cfg)
    ensures var r := After(cfg, steps).receiver;
      Serves(cfg.lib, cfg.requested, r) && Faithful(cfg, r.received)
  {
    hide Serves, Inv, Next;
    ReachableInv(cfg, steps);
    ReceivedAsSent(cfg, After(cfg, steps));
    if steps == [] {
      IdleServesOn(cfg.lib, cfg.requested);
      ServedOnServes(cfg.lib, cfg.requested, D.Idle(cfg.requested));
    } else {
      var before, last := After(cfg, steps[..|steps| - 1]), steps[|steps| - 1];
      ReceiverIsDownload(cfg, steps[..|steps| - 1]);
      if Enabled(cfg, before, last) {
        StepServes(cfg, before, last);
      }
    }
  }

  /** At the end of a session, however it ended, SendBatchedUpload and DownloadDag, run apart, end as the session's two
      ends did: the upload given the receiver's replies, the download given the messages the upload wrote. */
  lemma EndsMeet(cfg: Config, steps: seq<Step>) returns (replies: seq<S.Outcome>)
    requires Valid(cfg)
    requires S.Done(After(cfg, steps).sender) && D.Stopped(After(cfg, steps).receiver)
    ensures var s := After(cfg, steps);
      && S.Ending(cfg.upload, S.START, replies, s.sender.next) == s.sender
      && D.Served(cfg.lib, cfg.requested, D.Idle(cfg.requested), s.receiver.received, |s.receiver.sent|) == s.receiver
      && |replies| == s.sender.taken && AsAnswered(replies, s.receiver.sent) && Faithful(cfg, s.receiver.received)
  {
    replies := SenderIsUpload(cfg, steps);
    ReceiverIsDownload(cfg, steps);
    hide After;
  }
}
