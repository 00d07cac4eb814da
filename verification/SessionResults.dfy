/** What a session adds up to: progress that never overstates, and two modes with one result. */
module SessionResults {
  import opened Wire
  import opened Session
  import opened SessionSafety
  import S = Sender
  import SR = SenderRuns
  import D = Download
  import RS = ReceiveState
  import RR = ReceiveRuns
  import U = Upload
  import P = Progress
  import WindowAck

  // ---------- Progress ----------

  /** The sequence as UploadDagSingle holds it. */
  function SequenceOf(u: S.Upload): (sequence: seq<Option<Packet>>)
    ensures |sequence| == |u.packets| && forall i :: 0 <= i < |sequence| ==> sequence[i] == Some(u.packets[i])
  {
    seq(|u.packets|, i requires 0 <= i < |u.packets| => Some(u.packets[i]))
  }

  /** The transfers of the session are those whose sequence passes the upload's checks. */
  lemma ValidExactly(cfg: Config)
    requires |cfg.upload.packets| <= MAX_INT64
    ensures Valid(cfg) <==> U.Sequenced(SequenceOf(cfg.upload))
  {
    var sequence, packets := SequenceOf(cfg.upload), cfg.upload.packets;
    assert forall i {:trigger packets[i]} :: 0 <= i < |packets| ==> sequence[i] == Some(packets[i]);
  }

  /** Leaves counted on either end agree. */
  lemma {:induction false} LeafCountsAgree(u: S.Upload, accepted: seq<RR.Accepted>)
    requires |accepted| <= |u.packets|
    requires forall k :: 0 <= k < |accepted| ==> accepted[k].packet.leaves == u.packets[k].leaves
    ensures RR.LeafTotal(accepted) == P.LeavesIn(SequenceOf(u), |accepted|)
  {
    if accepted != [] {
      LeafCountsAgree(u, accepted[..|accepted| - 1]);
    }
  }

  lemma SeenLeavesCounted(cfg: Config, s: State)
    requires Valid(cfg) && Inv(cfg, s)
    ensures |s.receiver.history.accepted| <= |cfg.upload.packets|
    ensures |s.receiver.history.view.seenLeaves| == P.LeavesIn(SequenceOf(cfg.upload), |s.receiver.history.accepted|)
  {
    hide SR.Sound, Linked;
    var r := s.receiver;
    forall k | 0 <= k < |r.history.accepted|
      ensures r.history.accepted[k].packet.leaves == cfg.upload.packets[k].leaves
    {
      assert r.history.accepted[k] == RR.Accepted(r.received[k], r.received[k].packet);
      assert r.received[k] == Seen(cfg, Messages(cfg)[k]);
    }
    LeafCountsAgree(cfg.upload, r.history.accepted);
  }

  lemma AckedIsAccepted(cfg: Config, s: State, k: nat)
    requires Inv(cfg, s) && k < |s.sender.acked|
    ensures 0 <= s.sender.acked[k] < |s.receiver.history.accepted|
  {
    hide RR.Consistent, SR.WindowSafe;
    assert Backed(s.sender.acked, s.receiver.sent);
    assert SR.ProgressTo(s.sender.acked, s.sender.acked[|s.sender.acked| - 1]);
  }

  /** In every run, faults included, each progress figure reported so far counts only leaves the receiver has
      verified and recorded. */
  lemma ProgressNeverOverstates(cfg: Config, steps: seq<Step>, k: nat)
    requires Valid(cfg) && k < |After(cfg, steps).sender.acked|
    ensures
      var s := After(cfg, steps);
      && 0 <= s.sender.acked[k] < |cfg.upload.packets|
      && P.LeavesIn(SequenceOf(cfg.upload), s.sender.acked[k] + 1) <= |s.receiver.history.view.seenLeaves|
  {
    hide Inv, After;
    ReachableInv(cfg, steps);
    var s := After(cfg, steps);
    AckedIsAccepted(cfg, s, k);
    SeenLeavesCounted(cfg, s);
    P.LeavesInMonotone(SequenceOf(cfg.upload), s.sender.acked[k] + 1, |s.receiver.history.accepted|);
  }

  lemma AcceptedAll(cfg: Config, r: D.Receiver)
    requires Delivered(cfg, r)
    ensures |r.history.accepted| == |cfg.upload.packets|
  {
  }

  lemma AckedOneByOne(cfg: Config, s: State)
    requires Inv(cfg, s) && s.sender.phase.Succeeded?
    ensures s.sender.acked == SR.CountTo(|cfg.upload.packets|)
  {
    hide D.Sound, SR.WindowSafe;
    var acked, n := s.sender.acked, |cfg.upload.packets|;
    assert |acked| == n && SR.ProgressTo(acked, n - 1);
    SR.FullProgress(acked, n);
  }

  /** On success the last figure is everything there is, and the receiver has seen just that. */
  lemma ProgressEndsExact(cfg: Config, steps: seq<Step>)
    requires Valid(cfg) && After(cfg, steps).sender.phase.Succeeded?
    ensures
      var s := After(cfg, steps);
      && s.sender.acked == SR.CountTo(|cfg.upload.packets|)
      && |s.receiver.history.view.seenLeaves| == P.LeavesIn(SequenceOf(cfg.upload), |cfg.upload.packets|)
  {
    hide After, Inv, Delivered;
    ReachableInv(cfg, steps);
    SuccessMeansDelivered(cfg, steps);
    var s := After(cfg, steps);
    SeenLeavesCounted(cfg, s);
    AcceptedAll(cfg, s.receiver);
    AckedOneByOne(cfg, s);
  }

  // ---------- What arrives ----------

  /** Message k as it arrives, field by field; a legacy peer sees no packet counters. */
  predicate Arrived(cfg: Config, m: UploadMessage, k: nat)
    requires k < |cfg.upload.packets|
  {
    var u, p := cfg.upload, cfg.upload.packets[k];
    && m.root == u.root && (m.isFinal <==> k == |u.packets| - 1)
    && (if k == 0 then m.publicKey == u.publicKey && m.signature == u.signature else m.publicKey == m.signature == "")
    && m.packet.leaves == p.leaves && m.packet.relationships == p.relationships
    && (if cfg.legacyPeer then m.packet.index == m.packet.total == 0
        else m.packet.index == k && m.packet.total == |u.packets|)
  }

  lemma ArrivalsByInv(cfg: Config, s: State)
    requires Valid(cfg) && Inv(cfg, s) && Delivered(cfg, s.receiver)
    ensures var r := s.receiver;
      && |r.received| == |cfg.upload.packets|
      && (forall k :: 0 <= k < |r.received| ==> Arrived(cfg, r.received[k], k))
      && cfg.requested == cfg.upload.root == r.history.view.root
      && r.history.view.publicKey == cfg.upload.publicKey && r.history.view.signature == cfg.upload.signature
  {
    hide SR.Sound, Linked, WindowAck.Encode, RR.LeavesConserved, RR.PacketsDisjoint, RR.CountersConsistent;
    var r := s.receiver;
    forall k | 0 <= k < |r.received|
      ensures Arrived(cfg, r.received[k], k)
    {
      assert r.received[k] == Seen(cfg, S.Outgoing(cfg.upload, k));
    }
    assert Arrived(cfg, r.received[0], 0);
    assert r.history.accepted[0] == RR.Accepted(r.received[0], r.received[0].packet);
  }

  /** On success every message arrived as it was meant, and the receiver holds the root and the credentials the upload
      was given. */
  lemma CredentialsArrive(cfg: Config, steps: seq<Step>)
    requires Valid(cfg) && After(cfg, steps).sender.phase.Succeeded?
    ensures var r := After(cfg, steps).receiver;
      && |r.received| == |cfg.upload.packets|
      && (forall k :: 0 <= k < |r.received| ==> Arrived(cfg, r.received[k], k))
      && cfg.requested == cfg.upload.root == r.history.view.root
      && r.history.view.publicKey == cfg.upload.publicKey && r.history.view.signature == cfg.upload.signature
  {
    ReachableInv(cfg, steps);
    SuccessMeansDelivered(cfg, steps);
    hide After;
    ArrivalsByInv(cfg, After(cfg, steps));
  }

  // ---------- Windowed and stop-and-wait transfers ----------

  /** The DAG library takes no interest in packet counters. */
  ghost predicate IgnoresCounters(lib: Library) {
    forall dag: Dag, p: Packet, index: int, total: int {:trigger lib.apply(dag, p.(index := index, total := total))} ::
      lib.apply(dag, p.(index := index, total := total)) == lib.apply(dag, p)
  }

  predicate SameButCounters(a: RR.Accepted, b: RR.Accepted) {
    && a.packet.(index := 0, total := 0) == b.packet.(index := 0, total := 0)
    && a.message.(packet := a.packet) == a.message && b.message.(packet := b.packet) == b.message
    && a.message.(packet := b.packet) == b.message
  }

  lemma {:induction false} SameHashes(p: Packet, q: Packet, k: nat)
    requires p.leaves == q.leaves && k <= |p.leaves|
    ensures RS.HashesBefore(p, k) == RS.HashesBefore(q, k)
  {
    if k > 0 {
      SameHashes(p, q, k - 1);
    }
  }

  lemma {:induction false} SameResults(lib: Library, root: string, a: seq<RR.Accepted>, b: seq<RR.Accepted>)
    requires |a| == |b| && forall k :: 0 <= k < |a| ==> SameButCounters(a[k], b[k])
    ensures RR.AllHashes(a) == RR.AllHashes(b)
    ensures IgnoresCounters(lib) ==> D.Assembled(lib, root, a) == D.Assembled(lib, root, b)
  {
    if a != [] {
      var last := |a| - 1;
      SameResults(lib, root, a[..last], b[..last]);
      var p, q := a[last].packet, b[last].packet;
      assert SameButCounters(a[last], b[last]);
      SameHashes(p, q, |p.leaves|);
      assert q == p.(index := q.index, total := q.total);
    }
  }

  lemma ReceiversAgree(cfg: Config, r: D.Receiver, r': D.Receiver)
    requires !cfg.legacyPeer && Delivered(cfg, r) && Delivered(cfg.(legacyPeer := true), r')
    ensures |r.history.accepted| == |r'.history.accepted|
    ensures forall k :: 0 <= k < |r.history.accepted| ==> SameButCounters(r.history.accepted[k], r'.history.accepted[k])
    ensures r.history.view.seenLeaves == r'.history.view.seenLeaves
    ensures IgnoresCounters(cfg.lib) ==> r.dag == r'.dag
  {
    hide WindowAck.Encode, RR.CountersConsistent, RR.PacketsDisjoint, RR.OriginStable;
    forall k | 0 <= k < |r.history.accepted|
      ensures SameButCounters(r.history.accepted[k], r'.history.accepted[k])
    {
      assert r.received[k] == Seen(cfg, S.Outgoing(cfg.upload, k));
    }
    SameResults(cfg.lib, cfg.requested, r.history.accepted, r'.history.accepted);
  }

  /** A windowed and a stop-and-wait transfer of the same packets, when both succeed, report the same progress and
      leave both receivers with the same messages, counters aside, the same leaves and the same DAG. */
  lemma ModesAgree(cfg: Config, windowed: seq<Step>, legacy: seq<Step>)
    requires Valid(cfg) && !cfg.legacyPeer
    requires After(cfg, windowed).sender.phase.Succeeded?
    requires After(cfg.(legacyPeer := true), legacy).sender.phase.Succeeded?
    ensures
      var s, s' := After(cfg, windowed), After(cfg.(legacyPeer := true), legacy);
      && s.sender.acked == s'.sender.acked
      && |s.receiver.history.accepted| == |s'.receiver.history.accepted|
      && (forall k :: 0 <= k < |s.receiver.history.accepted| ==>
        SameButCounters(s.receiver.history.accepted[k], s'.receiver.history.accepted[k]))
      && s.receiver.history.view.seenLeaves == s'.receiver.history.view.seenLeaves
      && (IgnoresCounters(cfg.lib) ==> s.receiver.dag == s'.receiver.dag)
  {
    hide After;
    var cfg' := cfg.(legacyPeer := true);
    SuccessMeansDelivered(cfg, windowed);
    SuccessMeansDelivered(cfg', legacy);
    ProgressEndsExact(cfg, windowed);
    ProgressEndsExact(cfg', legacy);
    ReceiversAgree(cfg, After(cfg, windowed).receiver, After(cfg', legacy).receiver);
  }
}
