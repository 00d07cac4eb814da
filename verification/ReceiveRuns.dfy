/** What a receive state guarantees over a whole run of successful and failing checks. */
module ReceiveRuns {
  import opened Wire
  import opened ReceiveState
  import WindowAck

  /** One packet offered to the receiver; applied says whether a successful check is followed by a commit. */
  datatype Offer = Offer(message: Option<UploadMessage>, packet: Option<Packet>, applied: bool)

  datatype Accepted = Accepted(message: UploadMessage, packet: Packet)

  datatype History = History(view: View, accepted: seq<Accepted>)

  function Taken(lib: Library, h: History, offer: Offer): History {
    var (v, fault) := Validation(lib, h.view, offer.message, offer.packet);
    if fault.None? && offer.applied then
      var m, p := offer.message.value, offer.packet.value;
      History(Committed(v, m, p), h.accepted + [Accepted(m, p)])
    else History(v, h.accepted)
  }

  function Run(lib: Library, start: History, offers: seq<Offer>): History {
    if offers == [] then start
    else Taken(lib, Run(lib, start, offers[..|offers| - 1]), offers[|offers| - 1])
  }

  function Fresh(root: string, publicKey: string, signature: string): History {
    History(NewView(root, publicKey, signature), [])
  }

  // ---------- The invariant ----------

  /** The leaves of one packet are present, hashed, distinct and related; only the root may lack a parent. */
  predicate LeavesWellFormed(root: string, p: Packet) {
    && (forall k :: 0 <= k < |p.leaves| ==> p.leaves[k].Some? && p.leaves[k].value.hash != "")
    && (forall j, k :: 0 <= j < k < |p.leaves| ==> p.leaves[j].value.hash != p.leaves[k].value.hash)
    && (forall k :: 0 <= k < |p.leaves| ==> p.leaves[k].value.hash in p.relationships)
    && (forall k :: 0 <= k < |p.leaves| && p.relationships[p.leaves[k].value.hash] == "" ==>
      p.leaves[k].value.hash == root)
  }

  function AllHashes(accepted: seq<Accepted>): set<string> {
    if accepted == [] then {}
    else AllHashes(accepted[..|accepted| - 1]) + Hashes(accepted[|accepted| - 1].packet)
  }

  function LeafTotal(accepted: seq<Accepted>): nat {
    if accepted == [] then 0
    else LeafTotal(accepted[..|accepted| - 1]) + |accepted[|accepted| - 1].packet.leaves|
  }

  /** The counters of the accepted packets, in either mode. */
  predicate CountersConsistent(h: History) {
    var v := h.view;
    && v.next == |h.accepted|
    && (v.windowed ==>
      && v.next <= v.total && v.total > 0 && (v.finalized <==> v.next == v.total)
      && forall k :: 0 <= k < |h.accepted| ==>
        var a := h.accepted[k];
        a.packet.index == k && a.packet.total == v.total && (a.message.isFinal <==> k == v.total - 1))
    && (!v.windowed ==>
      && v.total == 0
      && (v.finalized <==> v.next > 0 && h.accepted[v.next - 1].message.isFinal)
      && forall k :: 0 <= k < |h.accepted| ==>
        var a := h.accepted[k];
        a.packet.index == 0 && a.packet.total == 0 && (a.message.isFinal ==> k == v.next - 1))
  }

  /** Every accepted message names the same root and never contradicts the first one's credentials. */
  predicate OriginStable(h: History) {
    forall k :: 0 <= k < |h.accepted| ==>
      var m := h.accepted[k].message;
      && m.root == h.view.root
      && (k > 0 ==> m.publicKey in ["", h.view.publicKey] && m.signature in ["", h.view.signature])
  }

  /** The seen leaves are those of the accepted packets, each counted once. */
  predicate LeavesConserved(h: History) {
    && h.view.seenLeaves == AllHashes(h.accepted)
    && |h.view.seenLeaves| == LeafTotal(h.accepted)
  }

  predicate PacketsDisjoint(h: History) {
    && (forall k :: 0 <= k < |h.accepted| ==> LeavesWellFormed(h.view.root, h.accepted[k].packet))
    && (forall j, k :: 0 <= j < k < |h.accepted| ==> Hashes(h.accepted[j].packet) !! Hashes(h.accepted[k].packet))
    && (forall k :: 0 <= k < |h.accepted| ==> Hashes(h.accepted[k].packet) <= h.view.seenLeaves)
  }

  predicate Consistent(h: History) {
    CountersConsistent(h) && OriginStable(h) && LeavesConserved(h) && PacketsDisjoint(h)
  }

  // ---------- Leaf checks ----------

  lemma FaultlessLeaves(v: View, p: Packet)
    requires forall k :: 0 <= k < |p.leaves| ==> LeafFault(v, p, k).None?
    ensures LeavesWellFormed(v.root, p) && Hashes(p) !! v.seenLeaves
  {
    forall k | 0 <= k < |p.leaves|
      ensures p.leaves[k].Some? && p.leaves[k].value.hash != "" && p.leaves[k].value.hash in p.relationships
    {
      assert LeafFault(v, p, k).None?;
    }
    forall j, k | 0 <= j < k < |p.leaves|
      ensures p.leaves[j].value.hash != p.leaves[k].value.hash
    {
      assert LeafFault(v, p, k).None?;
      assert !HasHash(p, j, p.leaves[k].value.hash);
    }
    forall k | 0 <= k < |p.leaves| && p.relationships[p.leaves[k].value.hash] == ""
      ensures p.leaves[k].value.hash == v.root
    {
      assert LeafFault(v, p, k).None?;
    }
    forall hash | hash in Hashes(p)
      ensures hash !in v.seenLeaves
    {
      HashedBefore(p, |p.leaves|, hash);
      var k :| 0 <= k < |p.leaves| && HasHash(p, k, hash);
      assert LeafFault(v, p, k).None?;
    }
  }

  lemma {:induction false} NoFaultFrom(v: View, p: Packet, k: nat)
    requires k <= |p.leaves|
    ensures LeavesFault(v, p, k).None? <==> forall j :: k <= j < |p.leaves| ==> LeafFault(v, p, j).None?
    decreases |p.leaves| - k
  {
    if k < |p.leaves| {
      NoFaultFrom(v, p, k + 1);
    }
  }

  /** The first-fault search accepts exactly the packets whose leaves are well formed and all new. */
  lemma LeavesAcceptedExactly(v: View, p: Packet)
    ensures LeavesFault(v, p, 0).None? <==> LeavesWellFormed(v.root, p) && Hashes(p) !! v.seenLeaves
  {
    NoFaultFrom(v, p, 0);
    if LeavesFault(v, p, 0).None? {
      FaultlessLeaves(v, p);
    }
    if LeavesWellFormed(v.root, p) && Hashes(p) !! v.seenLeaves {
      forall k | 0 <= k < |p.leaves|
        ensures LeafFault(v, p, k).None?
      {
        var hash := p.leaves[k].value.hash;
        assert HasHash(p, k, hash);
        HashedBefore(p, |p.leaves|, hash);
      }
    }
  }

  lemma {:induction false} HashCount(p: Packet, k: nat)
    requires k <= |p.leaves|
    requires forall j :: 0 <= j < k ==> p.leaves[j].Some?
    requires forall i, j :: 0 <= i < j < k ==> p.leaves[i].value.hash != p.leaves[j].value.hash
    ensures |HashesBefore(p, k)| == k
  {
    if k > 0 {
      HashCount(p, k - 1);
      var hash := p.leaves[k - 1].value.hash;
      HashedBefore(p, k - 1, hash);
    }
  }

  // ---------- Every run ----------

  lemma FreshIsConsistent(root: string, publicKey: string, signature: string)
    ensures Consistent(Fresh(root, publicKey, signature))
  {
  }

  /** What a check leaves alone, and what its success says. */
  lemma CheckFacts(lib: Library, v: View, message: Option<UploadMessage>, packet: Option<Packet>)
    ensures var (v', fault) := Validation(lib, v, message, packet);
      && v' == v.(windowed := v'.windowed, total := v'.total) && (v.next > 0 ==> v' == v)
      && (fault.None? ==>
        && !v.finalized && message.value.root == v.root
        && LeavesFault(v', packet.value, 0).None?
        && PositionFault(lib, v', message.value, packet.value).None?
        && CounterFault(v', message.value, packet.value).None?)
  {
  }

  lemma CommitConservesLeaves(h: History, v: View, m: UploadMessage, p: Packet)
    requires LeavesConserved(h) && v.seenLeaves == h.view.seenLeaves
    requires LeavesFault(v, p, 0).None?
    ensures LeavesConserved(History(Committed(v, m, p), h.accepted + [Accepted(m, p)]))
  {
    LeavesAcceptedExactly(v, p);
    HashCount(p, |p.leaves|);
    var accepted := h.accepted + [Accepted(m, p)];
    assert accepted[..|accepted| - 1] == h.accepted;
  }

  lemma CommitKeepsDisjoint(h: History, v: View, m: UploadMessage, p: Packet)
    requires PacketsDisjoint(h) && v.seenLeaves == h.view.seenLeaves && v.root == h.view.root
    requires LeavesFault(v, p, 0).None?
    ensures PacketsDisjoint(History(Committed(v, m, p), h.accepted + [Accepted(m, p)]))
  {
    LeavesAcceptedExactly(v, p);
    var accepted := h.accepted + [Accepted(m, p)];
    forall j, k | 0 <= j < k < |accepted|
      ensures Hashes(accepted[j].packet) !! Hashes(accepted[k].packet)
    {
      assert Hashes(accepted[j].packet) <= h.view.seenLeaves;
    }
  }

  lemma TakenKeepsCounters(lib: Library, h: History, offer: Offer)
    requires CountersConsistent(h)
    ensures CountersConsistent(Taken(lib, h, offer))
  {
    CheckFacts(lib, h.view, offer.message, offer.packet);
  }

  lemma TakenKeepsOrigin(lib: Library, h: History, offer: Offer)
    requires h.view.next == |h.accepted| && OriginStable(h)
    ensures OriginStable(Taken(lib, h, offer))
  {
    CheckFacts(lib, h.view, offer.message, offer.packet);
  }

  lemma TakenKeepsLeaves(lib: Library, h: History, offer: Offer)
    requires LeavesConserved(h) && PacketsDisjoint(h)
    ensures LeavesConserved(Taken(lib, h, offer)) && PacketsDisjoint(Taken(lib, h, offer))
  {
    CheckFacts(lib, h.view, offer.message, offer.packet);
    var (v, fault) := Validation(lib, h.view, offer.message, offer.packet);
    if fault.None? && offer.applied {
      CommitConservesLeaves(h, v, offer.message.value, offer.packet.value);
      CommitKeepsDisjoint(h, v, offer.message.value, offer.packet.value);
    }
  }

  lemma TakenKeepsConsistent(lib: Library, h: History, offer: Offer)
    requires Consistent(h)
    ensures Consistent(Taken(lib, h, offer))
  {
    TakenKeepsCounters(lib, h, offer);
    TakenKeepsOrigin(lib, h, offer);
    TakenKeepsLeaves(lib, h, offer);
  }

  /** In every run, whatever fails in between, the accepted packets are in order, count one frozen total and
      conserve leaves. */
  lemma {:induction false} RunIsConsistent(lib: Library, root: string, publicKey: string, signature: string,
                                           offers: seq<Offer>)
    ensures Consistent(Run(lib, Fresh(root, publicKey, signature), offers))
  {
    if offers == [] {
      FreshIsConsistent(root, publicKey, signature);
    } else {
      var before := offers[..|offers| - 1];
      RunIsConsistent(lib, root, publicKey, signature, before);
      TakenKeepsConsistent(lib, Run(lib, Fresh(root, publicKey, signature), before), offers[|offers| - 1]);
    }
  }

  /** A first packet that counts itself, has leaves and names the root, but fails a later check. */
  predicate FailsLater(lib: Library, v: View, m: UploadMessage, p: Packet) {
    && m.root == v.root && |p.leaves| > 0 && p.index == 0 && p.total > 0
    && !(&& lib.rootLeaf(p).Some? && lib.rootLeaf(p).value.hash == v.root
         && (m.isFinal <==> p.total == 1) && LeavesWellFormed(v.root, p))
  }

  /** A first packet is rejected and yet leaves its mode behind exactly when it fails one of the later checks. What
      that closes is stop-and-wait only: from then on exactly the first packets that count themselves remain
      acceptable, with whatever total. */
  lemma RejectedFirstPacketFixesMode(lib: Library, v: View, m: UploadMessage, p: Packet, m': UploadMessage, p': Packet)
    requires v == NewView(v.root, v.publicKey, v.signature)
    ensures var (v', fault) := Validation(lib, v, Some(m), Some(p));
      && (fault.Some? && v' != v <==> FailsLater(lib, v, m, p))
      && (fault.Some? ==> (Acceptable(lib, v', m', p') <==> Acceptable(lib, v, m', p') && (v' != v ==> p'.total > 0)))
  {
    hide LeavesFault, LeavesWellFormed, Hashes;
    LeavesAcceptedExactly(Negotiated(v, p), p);
  }

  /** A packet that says it is the first of two and the last of all. */
  const CONTRADICTORY := Packet([Some(Leaf("r", 0))], map["r" := ""], 0, 2)

  /** For instance: it is rejected, the receive state is windowed with a total of 2, and a stop-and-wait root packet
      that would have been accepted no longer is. */
  lemma ModeSurvivesRejection(lib: Library)
    ensures
      var p, p' := CONTRADICTORY, CONTRADICTORY.(total := 0);
      var v, m := NewView("r", "", ""), UploadMessage("r", p, "", "", true);
      var (v', fault) := Validation(lib, v, Some(m), Some(p));
      && fault.Some? && v' == v.(windowed := true, total := 2)
      && (lib.rootLeaf(p') == p'.leaves[0] ==> Acceptable(lib, v, m.(packet := p'), p'))
      && !Acceptable(lib, v', m.(packet := p'), p')
  {
    var p' := CONTRADICTORY.(total := 0);
    LeavesAcceptedExactly(NewView("r", "", ""), p');
    assert HashesBefore(p', 1) == HashesBefore(p', 0) + {"r"};
  }

  lemma {:induction false} LeavesNeverOutOfRange(v: View, p: Packet, k: nat)
    requires k <= |p.leaves|
    ensures LeavesFault(v, p, k) != Some(OutOfRange)
    decreases |p.leaves| - k
  {
    if k < |p.leaves| {
      LeavesNeverOutOfRange(v, p, k + 1);
    }
  }

  /** The range check can never fire: an earlier check always catches the packet. */
  lemma RangeCheckUnreachable(lib: Library, h: History, message: Option<UploadMessage>, packet: Option<Packet>)
    requires CountersConsistent(h)
    ensures Validation(lib, h.view, message, packet).1 != Some(OutOfRange)
  {
    if packet.Some? {
      LeavesNeverOutOfRange(Validation(lib, h.view, message, packet).0, packet.value, 0);
    }
  }

  /** Nor can a final packet leave a windowed transfer incomplete. */
  lemma FinalMeansComplete(lib: Library, h: History, offer: Offer)
    requires CountersConsistent(h)
    requires Taken(lib, h, offer).view.next == h.view.next + 1
    requires offer.message.value.isFinal && Taken(lib, h, offer).view.windowed
    ensures Taken(lib, h, offer).view.next == Taken(lib, h, offer).view.total
  {
    TakenKeepsCounters(lib, h, offer);
  }

  /** After a windowed commit the acknowledgment names exactly the packet just committed. */
  lemma AcknowledgmentNamesLastPacket(h: History)
    requires CountersConsistent(h) && h.view.next > 0 && h.view.total <= MAX_INT64
    ensures WindowAck.Parse(Acknowledgment(h.view)) ==
      if h.view.windowed
      then
        var index := h.accepted[|h.accepted| - 1].packet.index;
        WindowAck.Accepted(WindowAck.Ack(index, WindowAck.WINDOW_PACKETS, WindowAck.WINDOW_BYTES))
      else WindowAck.Unsupported
  {
    WindowAck.RoundTrip(h.view.next - 1);
  }

  // ---------- The root leaf ----------

  /** The DAG library finds the root leaf of a packet among its leaves. */
  ghost predicate FindsOwnLeaves(lib: Library) {
    forall p :: lib.rootLeaf(p).Some? ==> lib.rootLeaf(p) in p.leaves
  }

  predicate RootSeen(h: History) {
    |h.accepted| > 0 ==> h.view.root in Hashes(h.accepted[0].packet)
  }

  lemma TakenKeepsRootSeen(lib: Library, h: History, offer: Offer)
    requires FindsOwnLeaves(lib) && Consistent(h) && RootSeen(h)
    ensures RootSeen(Taken(lib, h, offer))
  {
    var (v, fault) := Validation(lib, h.view, offer.message, offer.packet);
    if fault.None? && h.view.next == 0 {
      var p := offer.packet.value;
      var k :| 0 <= k < |p.leaves| && p.leaves[k] == lib.rootLeaf(p);
      assert HasHash(p, k, v.root);
      HashedBefore(p, |p.leaves|, v.root);
    }
  }

  lemma {:induction false} RunSeesRoot(lib: Library, root: string, publicKey: string, signature: string,
                                       offers: seq<Offer>)
    requires FindsOwnLeaves(lib)
    ensures RootSeen(Run(lib, Fresh(root, publicKey, signature), offers))
  {
    if offers != [] {
      var before := offers[..|offers| - 1];
      RunSeesRoot(lib, root, publicKey, signature, before);
      RunIsConsistent(lib, root, publicKey, signature, before);
      TakenKeepsRootSeen(lib, Run(lib, Fresh(root, publicKey, signature), before), offers[|offers| - 1]);
    }
  }

  predicate Parentless(a: Accepted, k: nat)
    requires k < |a.packet.leaves|
  {
    && a.packet.leaves[k].Some?
    && var hash := a.packet.leaves[k].value.hash;
    hash in a.packet.relationships && a.packet.relationships[hash] == ""
  }

  lemma ParentlessInFirst(h: History, i: nat, k: nat)
    requires Consistent(h) && RootSeen(h)
    requires i < |h.accepted| && k < |h.accepted[i].packet.leaves| && Parentless(h.accepted[i], k)
    ensures i == 0 && h.accepted[i].packet.leaves[k].value.hash == h.view.root
  {
    assert LeavesWellFormed(h.view.root, h.accepted[i].packet);
    assert HasHash(h.accepted[i].packet, k, h.view.root);
    HashedBefore(h.accepted[i].packet, |h.accepted[i].packet.leaves|, h.view.root);
  }

  /** Across the run at most one leaf declares no parent: the root, and in the first packet. */
  lemma ParentlessLeafIsRoot(lib: Library, root: string, publicKey: string, signature: string, offers: seq<Offer>,
                             i: nat, k: nat, i': nat, k': nat)
    requires FindsOwnLeaves(lib)
    requires var h := Run(lib, Fresh(root, publicKey, signature), offers);
      && i < |h.accepted| && k < |h.accepted[i].packet.leaves| && Parentless(h.accepted[i], k)
      && i' < |h.accepted| && k' < |h.accepted[i'].packet.leaves| && Parentless(h.accepted[i'], k')
    ensures var h := Run(lib, Fresh(root, publicKey, signature), offers);
      i == i' == 0 && k == k' && h.accepted[i].packet.leaves[k].value.hash == h.view.root
  {
    var h := Run(lib, Fresh(root, publicKey, signature), offers);
    RunIsConsistent(lib, root, publicKey, signature, offers);
    RunSeesRoot(lib, root, publicKey, signature, offers);
    ParentlessInFirst(h, i, k);
    ParentlessInFirst(h, i', k');
    assert LeavesWellFormed(h.view.root, h.accepted[0].packet);
  }
}
