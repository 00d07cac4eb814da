/** How large a stream's buffer must be for a rejection always to reach the sender. */
module SessionBuffers {
  import opened Wire
  import opened DownloadOutcome
  import opened Session
  import opened SessionExamples
  import opened SessionLiveness
  import opened SessionOutcome
  import opened SessionSafety
  import opened SessionSimulation
  import B = ByteCount
  import C = Credentials
  import S = Sender
  import SR = SenderRuns
  import D = Download
  import RS = ReceiveState
  import RR = ReceiveRuns
  import PacketSize
  import WindowAck

  // ---------- How far the sender writes ahead ----------

  /** The sender, given k acknowledgments, waits for reply k. */
  ghost predicate Awaits(cfg: Config, k: nat, s: S.State) {
    && SR.Sound(cfg.upload, s) && S.ReadDue(cfg.upload, s)
    && s.taken == k && GoesOnAs(cfg.upload, s, AckOutcomes(cfg, k), s.next)
    && (if k == 0 then s.phase.Root? && s.next == 1
        else if cfg.legacyPeer then s.phase.Legacy? && s.next == k + 1
        else s.phase.Windowed? && s.limit == NEGOTIATED && s.highest == k - 1)
  }

  /** The sender has taken k acknowledgments, and may still have packets to write before it waits. */
  ghost predicate HasTaken(cfg: Config, k: nat, s: S.State) {
    && SR.Sound(cfg.upload, s) && s.taken == k && GoesOnAs(cfg.upload, s, AckOutcomes(cfg, k), s.next)
    && (if k == 0 then s.phase.Root? && s.next == 0
        else if cfg.legacyPeer then s.phase.Legacy? && s.next == k < |cfg.upload.packets|
        else s.phase.Windowed? && s.limit == NEGOTIATED && s.highest == k - 1)
  }

  lemma WritesOne(cfg: Config, k: nat, s: S.State) returns (s': S.State)
    requires HasTaken(cfg, k, s) && S.WriteDue(cfg.upload, s)
    ensures s' == S.AfterWrite(cfg.upload, s, true)
    ensures SR.Sound(cfg.upload, s') && s'.taken == k && GoesOnAs(cfg.upload, s', AckOutcomes(cfg, k), s'.next)
    ensures s'.phase == s.phase && s'.limit == s.limit && s'.highest == s.highest && s'.next == s.next + 1
    ensures s'.next <= |cfg.upload.packets|
  {
    hide SR.Sound, S.HasRoom, GoesOnAs, AckOutcomes;
    s' := S.AfterWrite(cfg.upload, s, true);
    SR.WriteKeepsSound(cfg.upload, s, true);
    WriteGoesOn(cfg.upload, s, AckOutcomes(cfg, k), s.next);
  }

  /** Writing while there is something to write, the sender comes to wait. */
  lemma {:induction false} ComesToWait(cfg: Config, k: nat, s: S.State) returns (s': S.State)
    requires HasTaken(cfg, k, s)
    ensures Awaits(cfg, k, s')
    decreases |cfg.upload.packets| - s.next
  {
    if S.WriteDue(cfg.upload, s) {
      s' := WritesOne(cfg, k, s);
      hide SR.Sound, GoesOnAs, S.HasRoom, AckOutcomes;
      if s.phase.Windowed? {
        s' := ComesToWait(cfg, k, s');
      }
    } else {
      hide SR.WindowSafe, GoesOnAs, S.HasRoom, AckOutcomes;
      s' := s;
    }
  }

  lemma StartHasTaken(cfg: Config)
    requires Valid(cfg)
    ensures HasTaken(cfg, 0, S.START)
  {
    SR.StartIsSound(cfg.upload);
    StartGoesOn(cfg.upload);
    assert AckOutcomes(cfg, 0) == [];
  }

  lemma WindowAckOpensNext(cfg: Config, k: nat, s: S.State)
    requires Valid(cfg) && Awaits(cfg, k, s) && k + 1 < |cfg.upload.packets| && s.phase.Windowed?
    ensures var s' := S.AfterRead(cfg.upload, s, S.Received(Some(D.AckOf(!cfg.legacyPeer, k))));
      s'.phase.Windowed? && s'.limit == NEGOTIATED && s'.highest == k
  {
    hide WindowAck.Parse, WindowAck.Encode, GoesOnAs, AckOutcomes, S.AfterWindowReply;
    var u, outcome := cfg.upload, S.Received(Some(D.AckOf(!cfg.legacyPeer, k)));
    AckParses(!cfg.legacyPeer, k);
    SR.WaitsOnlyWhenFull(u, s);
    SR.TrackedCount(u, s.inFlight, s.highest, s.next);
    assert SR.Advances(s, outcome, k);
    SR.WindowReplyAcceptedExactly(u, s, outcome);
    SR.WindowReplyEffect(u, s, outcome);
    SR.WindowReplyShape(u, s, outcome);
  }

  /** What the next acknowledgment makes of a waiting sender. */
  lemma AckOpensNext(cfg: Config, k: nat, s: S.State)
    requires Valid(cfg) && Awaits(cfg, k, s) && k + 1 < |cfg.upload.packets|
    ensures var s' := S.AfterRead(cfg.upload, s, S.Received(Some(D.AckOf(!cfg.legacyPeer, k))));
      if cfg.legacyPeer then s'.phase.Legacy? && s'.next == k + 1
      else s'.phase.Windowed? && s'.limit == NEGOTIATED && s'.highest == k
  {
    AckParses(!cfg.legacyPeer, k);
    hide WindowAck.Parse, D.AckOf, GoesOnAs, AckOutcomes;
    if s.phase.Windowed? {
      WindowAckOpensNext(cfg, k, s);
    }
  }

  lemma {:induction false} WaitsFor(cfg: Config, k: nat) returns (s: S.State)
    requires Valid(cfg) && k < |cfg.upload.packets|
    ensures Awaits(cfg, k, s)
  {
    if k == 0 {
      StartHasTaken(cfg);
      s := ComesToWait(cfg, 0, S.START);
    } else {
      var before := WaitsFor(cfg, k - 1);
      var outcome := S.Received(Some(D.AckOf(!cfg.legacyPeer, k - 1)));
      AckOpensNext(cfg, k - 1, before);
      SR.ReadKeepsSound(cfg.upload, before, outcome);
      SR.ReadCounts(cfg.upload, before, outcome);
      ReadGoesOn(cfg.upload, before, outcome, AckOutcomes(cfg, k - 1), before.next);
      AcksAppend(cfg, k - 1);
      hide SR.Sound, GoesOnAs, S.AfterRead, AckOutcomes, D.AckOf, S.WriteDue;
      s := ComesToWait(cfg, k, S.AfterRead(cfg.upload, before, outcome));
    }
  }

  lemma WaitingIsBounded(cfg: Config, k: nat, s: S.State)
    requires Awaits(cfg, k, s)
    ensures k + 1 <= s.next <= |cfg.upload.packets| && s.next <= k + WindowAck.WINDOW_PACKETS
    ensures k == 0 || cfg.legacyPeer ==> s.next == k + 1
    ensures k > 0 && !cfg.legacyPeer ==> |s.inFlight| == s.next - k
  {
    hide GoesOnAs, AckOutcomes;
    if s.phase.Windowed? {
      SR.WaitsOnlyWhenFull(cfg.upload, s);
      SR.TrackedCount(cfg.upload, s.inFlight, s.highest, s.next);
    }
  }

  /** Before it waits for reply k the sender has written packet k and at most a window of packets from there; and just
      packet k if it waits for every reply. */
  lemma WritesAhead(cfg: Config, k: nat)
    requires Valid(cfg) && k < |cfg.upload.packets|
    ensures k + 1 <= PacketsBefore(cfg, k) <= |cfg.upload.packets|
    ensures PacketsBefore(cfg, k) <= k + WindowAck.WINDOW_PACKETS
    ensures k == 0 || cfg.legacyPeer ==> PacketsBefore(cfg, k) == k + 1
  {
    var s := WaitsFor(cfg, k);
    WaitingIsBounded(cfg, k, s);
    hide SR.Sound, GoesOnAs, S.WriteDue, PacketsBefore;
    WaitingHasWritten(cfg, s, k);
  }

  /** The window of a waiting sender: within its limits, and full or at the end. */
  lemma WindowOfWaiting(u: S.Upload, s: S.State)
    requires SR.Sound(u, s) && s.phase.Windowed? && S.ReadDue(u, s) && SR.Fits(u, s.limit)
    ensures var sum := SR.SumSizes(u, s.highest + 1, s.next);
      && |s.inFlight| <= s.limit.packets && (sum <= s.limit.bytes || |s.inFlight| == 1)
    ensures s.next < |u.packets| ==>
      |s.inFlight| >= s.limit.packets || SR.SumSizes(u, s.highest + 1, s.next + 1) > s.limit.bytes
  {
    SR.WaitsOnlyWhenFull(u, s);
    if s.next < |u.packets| {
      B.GuardNeverOverflows(u, s);
    }
  }

  /** With a window, it has written packet n as well exactly if there is one and it fits the window together with all
      packets from k on. */
  lemma WritesAheadExactly(cfg: Config, k: nat, n: nat)
    requires Valid(cfg) && SR.Fits(cfg.upload, NEGOTIATED) && !cfg.legacyPeer && 0 < k < n && k < |cfg.upload.packets|
    ensures PacketsBefore(cfg, k) > n <==>
      && n < |cfg.upload.packets| && n - k < WindowAck.WINDOW_PACKETS
      && SR.SumSizes(cfg.upload, k, n + 1) <= WindowAck.WINDOW_BYTES
  {
    hide SR.Sound, S.ReadDue, GoesOnAs, PacketsBefore, AckOutcomes, SR.Fits, SR.SumSizes, Valid;
    var u := cfg.upload;
    var s := WaitsFor(cfg, k);
    WaitingIsBounded(cfg, k, s);
    WindowOfWaiting(u, s);
    WaitingHasWritten(cfg, s, k);
    if n < s.next {
      B.SumGrows(u, k, n + 1, s.next);
    } else {
      B.SumGrows(u, k, s.next + 1, n + 1);
    }
  }

  // ---------- Which transfers block ----------

  lemma RejectedWithin(cfg: Config)
    requires Valid(cfg)
    ensures RejectedAt(cfg) < |cfg.upload.packets|
  {
    hide D.Sound, D.Served;
    var idle := D.Idle(cfg.requested);
    D.IdleIsSound(cfg.lib, cfg.requested);
    ServedTakes(cfg.lib, cfg.requested, idle, Shown(cfg), |cfg.upload.packets|);
    assert [] + Shown(cfg) == Shown(cfg);
  }

  /** A transfer blocks exactly if the receiver rejects a packet after the first, under a window, and the packet that
      comes one buffer behind the rejected one exists and fits the window with those from the rejected one on. */
  lemma BlocksExactly(cfg: Config)
    requires Valid(cfg) && SR.Fits(cfg.upload, NEGOTIATED)
    ensures var k, n := RejectedAt(cfg), RejectedAt(cfg) + 1 + cfg.forwardCapacity;
      Blocks(cfg) <==>
        && !WellFormed(cfg) && !cfg.legacyPeer && k > 0
        && n < |cfg.upload.packets| && n - k < WindowAck.WINDOW_PACKETS
        && SR.SumSizes(cfg.upload, k, n + 1) <= WindowAck.WINDOW_BYTES
  {
    hide WellFormed, RejectedAt, PacketsBefore;
    var k := RejectedAt(cfg);
    RejectedWithin(cfg);
    WritesAhead(cfg, k);
    if k > 0 && !cfg.legacyPeer {
      WritesAheadExactly(cfg, k, k + 1 + cfg.forwardCapacity);
    }
  }

  /** A buffer for all but one packet of the window suffices for every transfer. */
  lemma AmpleBufferNeverBlocks(cfg: Config)
    requires Valid(cfg) && cfg.forwardCapacity >= WindowAck.WINDOW_PACKETS - 1
    ensures !Blocks(cfg)
  {
    hide WellFormed, RejectedAt, PacketsBefore;
    RejectedWithin(cfg);
    WritesAhead(cfg, RejectedAt(cfg));
  }

  /** A write that is blocked ends, when the stream is closed or time is up, in a write error, not in the rejection. */
  lemma BlockedEndsInWriteError(cfg: Config, s: State, fault: S.WaitFault)
    requires Valid(cfg) && Blocked(cfg, s)
    ensures Enabled(cfg, s, SenderFault(fault))
    ensures Next(cfg, s, SenderFault(fault)).sender.phase == S.Failed(S.WriteFailed)
  {
    hide S.HasRoom;
  }

  // ---------- A smaller buffer does not suffice ----------

  function EmptyPacketAt(index: nat, total: nat): Packet {
    if index == 0 then Packet([Some(Leaf("r", 0))], map["r" := ""], 0, total) else Packet([], map[], index, total)
  }

  /** A root packet and then packets without leaves, as many in all, over a stream with a buffer of this size. */
  function EmptyPackets(total: nat, capacity: nat): Config {
    var packets := seq(total, i requires 0 <= i < total => EmptyPacketAt(i, total));
    Config(S.Upload("r", packets, "", ""), LENIENT, "r", false, capacity, 0)
  }

  lemma EmptySize(u: S.Upload, i: int)
    requires 0 < i < |u.packets| && u.packets[i] == EmptyPacketAt(i, |u.packets|)
    ensures S.SizeAt(u, i) == PacketSize.PACKET_OVERHEAD
  {
  }

  lemma {:induction false} EmptySums(cfg: Config, lo: nat, hi: nat)
    requires cfg == EmptyPackets(|cfg.upload.packets|, cfg.forwardCapacity) && 0 < lo <= hi <= |cfg.upload.packets|
    ensures SR.SumSizes(cfg.upload, lo, hi) == PacketSize.PACKET_OVERHEAD * (hi - lo)
    decreases hi - lo
  {
    if lo < hi {
      EmptySums(cfg, lo + 1, hi);
      EmptySize(cfg.upload, lo);
    }
  }

  lemma RootSize(total: nat)
    ensures PacketSize.Size(EmptyPacketAt(0, total)) < 0x4000_0000_0000_0000
  {
    var p := EmptyPacketAt(0, total);
    assert p.leaves[..0] == [];
    assert PacketSize.LeafBytes(p.leaves) == PacketSize.LeafBytes([]) + PacketSize.LeafCost(p.leaves[0]);
    PacketSize.CountFirst(p.relationships, "r");
    assert p.relationships - {"r"} == map[];
    assert PacketSize.ByteLength("r") <= 4 && PacketSize.ByteLength("") == 0;
  }

  lemma EmptyIsModest(total: nat, capacity: nat)
    ensures B.Modest(EmptyPackets(total, capacity).upload)
  {
    var u := EmptyPackets(total, capacity).upload;
    forall i | 0 <= i < |u.packets|
      ensures S.SizeAt(u, i) < 0x4000_0000_0000_0000
    {
      if i > 0 {
        EmptySize(u, i);
      } else {
        RootSize(total);
      }
    }
  }

  lemma RootIsAnswered(m: UploadMessage, total: nat)
    requires m == UploadMessage("r", EmptyPacketAt(0, total), "", "", false) && total > 1
    ensures var r := D.Processed(LENIENT, "r", D.Idle("r"), m);
      r.phase.Replying? && D.Replied(r, true).phase.Listening?
  {
    var idle := D.Idle("r");
    var v := RS.NewView("r", "", "");
    assert C.Authentic(LENIENT, "r", "", "");
    RR.FreshIsConsistent("r", "", "");
    RR.LeavesAcceptedExactly(RS.Negotiated(v, m.packet), m.packet);
    assert RS.Acceptable(LENIENT, v, m, m.packet);
    CheckedIsAnswered(LENIENT, "r", idle, m);
    D.IdleIsSound(LENIENT, "r");
    ReplyingIsFinal(LENIENT, "r", idle, m);
    PositiveRound(D.Processed(LENIENT, "r", idle, m));
  }

  /** Whatever it has accepted, a listening receiver turns a packet without leaves away. */
  lemma EmptyIsRefused(r: D.Receiver, m: UploadMessage)
    requires r.phase.Listening? && r.received != [] && m.packet.leaves == []
    ensures D.Processed(LENIENT, "r", r, m).phase.Rejecting?
    ensures D.Replied(D.Processed(LENIENT, "r", r, m), true).phase.Rejected?
  {
  }

  /** The receiver accepts the root packet and rejects the next. */
  lemma EmptyIsRejected(total: nat, capacity: nat)
    requires total > 1
    ensures !WellFormed(EmptyPackets(total, capacity)) && RejectedAt(EmptyPackets(total, capacity)) == 1
  {
    var cfg := EmptyPackets(total, capacity);
    var ms, idle := Shown(cfg), D.Idle("r");
    assert |ms[1].packet.leaves| == 0;
    assert !Fitting("r", ms, 1);
    RootIsAnswered(ms[0], total);
    var one := D.Replied(D.Processed(LENIENT, "r", idle, ms[0]), true);
    TwoSteps(LENIENT, "r", idle, ms, total);
    var two := D.Processed(LENIENT, "r", one, ms[1]);
    D.ProcessedBasics(LENIENT, "r", idle, ms[0]);
    D.ProcessedBasics(LENIENT, "r", one, ms[1]);
    EmptyIsRefused(one, ms[1]);
    TwoSteps(LENIENT, "r", one, ms[1..], total - 1);
  }

  /** With a smaller buffer than AmpleBufferNeverBlocks asks for, there is a transfer that blocks: it has three more
      packets than the buffer holds, and the second is rejected. */
  lemma SmallerBufferBlocks(capacity: nat)
    requires capacity < WindowAck.WINDOW_PACKETS - 1
    ensures Valid(EmptyPackets(capacity + 3, capacity)) && Blocks(EmptyPackets(capacity + 3, capacity))
  {
    hide WellFormed, RejectedAt, Blocks, SR.Fits, SR.SumSizes, B.Modest;
    var cfg := EmptyPackets(capacity + 3, capacity);
    EmptyIsRejected(capacity + 3, capacity);
    EmptyIsModest(capacity + 3, capacity);
    B.ModestFits(cfg.upload, NEGOTIATED);
    BlocksExactly(cfg);
    EmptySums(cfg, 1, capacity + 3);
  }

  /** So one buffer size suffices for every transfer exactly if it is a window less one packet. */
  lemma BufferSufficesExactly(capacity: nat)
    ensures capacity >= WindowAck.WINDOW_PACKETS - 1 <==>
      forall cfg: Config :: Valid(cfg) && cfg.forwardCapacity == capacity ==> !Blocks(cfg)
  {
    hide Blocks, Valid;
    if capacity >= WindowAck.WINDOW_PACKETS - 1 {
      forall cfg: Config | Valid(cfg) && cfg.forwardCapacity == capacity
        ensures !Blocks(cfg)
      {
        AmpleBufferNeverBlocks(cfg);
      }
    } else {
      SmallerBufferBlocks(capacity);
    }
  }
}
