/** The receiver's packet bookkeeping: which packet may come next, and which leaves were seen. */
module ReceiveState {
  import opened Wire
  import WindowAck

  function NewView(root: string, publicKey: string, signature: string): View {
    View(root, publicKey, signature, 0, 0, false, false, {})
  }

  // ---------- What one packet must satisfy ----------

  predicate HasHash(p: Packet, k: nat, hash: string)
    requires k < |p.leaves|
  {
    p.leaves[k].Some? && p.leaves[k].value.hash == hash
  }

  /** What is wrong with leaf k, the earlier leaves of the packet being fine. */
  function LeafFault(v: View, p: Packet, k: nat): Option<PacketFault>
    requires k < |p.leaves|
  {
    if p.leaves[k].None? || p.leaves[k].value.hash == "" then Some(UnhashedLeaf)
    else
      var hash := p.leaves[k].value.hash;
      if exists j :: 0 <= j < k && HasHash(p, j, hash) then Some(LeafRepeatedInPacket)
      else if hash in v.seenLeaves then Some(LeafSeenBefore)
      else if hash !in p.relationships then Some(RelationshipMissing)
      else if p.relationships[hash] == "" && hash != v.root then Some(StrayRootLeaf)
      else None
  }

  /** The fault of the first faulty leaf from k on. */
  function LeavesFault(v: View, p: Packet, k: nat): Option<PacketFault>
    requires k <= |p.leaves|
    decreases |p.leaves| - k
  {
    if k == |p.leaves| then None
    else if LeafFault(v, p, k).Some? then LeafFault(v, p, k)
    else LeavesFault(v, p, k + 1)
  }

  function CounterFault(v: View, m: UploadMessage, p: Packet): Option<PacketFault> {
    if v.windowed then
      if p.total != v.total then Some(TotalChanged)
      else if p.index != v.next then Some(OutOfOrder)
      else if p.index < 0 || p.index >= v.total then Some(OutOfRange)
      else if m.isFinal != (p.index == v.total - 1) then Some(FinalMarkerWrong)
      else None
    else if p.total != 0 || p.index != 0 then Some(LegacyCountersChanged)
    else None
  }

  /** The first packet switches to windowed counting before it is fully checked. */
  function Negotiated(v: View, p: Packet): View {
    if v.next == 0 && p.total > 0 then v.(windowed := true, total := p.total) else v
  }

  /** The checks that only the first, or only a later, packet undergoes. */
  function PositionFault(lib: Library, v: View, m: UploadMessage, p: Packet): Option<PacketFault> {
    if v.next == 0 then
      if lib.rootLeaf(p).None? || lib.rootLeaf(p).value.hash != v.root then Some(RootLeafMissing) else None
    else if m.publicKey != "" && m.publicKey != v.publicKey then Some(PublicKeyChanged)
    else if m.signature != "" && m.signature != v.signature then Some(SignatureChanged)
    else None
  }

  /** The outcome of checking one packet: the state it leaves behind, and the first fault found. */
  function Validation(lib: Library, v: View, message: Option<UploadMessage>, packet: Option<Packet>):
    (r: (View, Option<PacketFault>))
    ensures r.1.None? ==> message.Some? && packet.Some?
  {
    if v.finalized then (v, Some(AlreadyFinalized))
    else if message.None? || packet.None? || |packet.value.leaves| == 0 then (v, Some(EmptyPacket))
    else
      var m, p := message.value, packet.value;
      if m.root != v.root then (v, Some(RootChanged))
      else if v.next == 0 && (p.total < 0 || p.index != 0) then (v, Some(BadRootCounters))
      else
        var v' := Negotiated(v, p);
        if PositionFault(lib, v', m, p).Some? then (v', PositionFault(lib, v', m, p))
        else if CounterFault(v', m, p).Some? then (v', CounterFault(v', m, p))
        else (v', LeavesFault(v', p, 0))
  }

  /** The hashes of the packet's first k leaves. */
  function HashesBefore(p: Packet, k: nat): set<string>
    requires k <= |p.leaves|
  {
    if k == 0 then {}
    else if p.leaves[k - 1].None? then HashesBefore(p, k - 1)
    else HashesBefore(p, k - 1) + {p.leaves[k - 1].value.hash}
  }

  lemma {:induction false} HashedBefore(p: Packet, k: nat, hash: string)
    requires k <= |p.leaves|
    ensures hash in HashesBefore(p, k) <==> exists j :: 0 <= j < k && HasHash(p, j, hash)
  {
    if k > 0 {
      HashedBefore(p, k - 1, hash);
      assert HasHash(p, k - 1, hash) <==> p.leaves[k - 1].Some? && p.leaves[k - 1].value.hash == hash;
    }
  }

  function Hashes(p: Packet): set<string> {
    HashesBefore(p, |p.leaves|)
  }

  function Committed(v: View, m: UploadMessage, p: Packet): View {
    v.(seenLeaves := v.seenLeaves + Hashes(p), next := v.next + 1, finalized := m.isFinal)
  }

  function Acknowledgment(v: View): string {
    if v.windowed then WindowAck.Encode(v.next - 1) else ""
  }

  predicate Acceptable(lib: Library, v: View, m: UploadMessage, p: Packet) {
    Validation(lib, v, Some(m), Some(p)).1.None?
  }

  // ---------- The mutable state ----------

  class PacketReceiveState {
    const root: string
    const publicKey: string
    const signature: string
    var total: int
    var next: nat
    var windowed: bool
    var finalized: bool
    var seenLeaves: set<string>

    constructor (root: string, publicKey: string, signature: string)
      ensures Value() == NewView(root, publicKey, signature)
    {
      this.root, this.publicKey, this.signature := root, publicKey, signature;
      total, next, windowed, finalized, seenLeaves := 0, 0, false, false, {};
    }

    function Value(): View
      reads this
    {
      View(root, publicKey, signature, total, next, windowed, finalized, seenLeaves)
    }

    /** Checks a packet. A rejected first packet may already have fixed the mode and the total. */
    method Validate(lib: Library, message: Option<UploadMessage>, packet: Option<Packet>)
      returns (fault: Option<PacketFault>)
      modifies this`windowed, this`total
      ensures (Value(), fault) == Validation(lib, old(Value()), message, packet)
    {
      if finalized {
        return Some(AlreadyFinalized);
      }
      if message.None? || packet.None? || |packet.value.leaves| == 0 {
        return Some(EmptyPacket);
      }
      var m, p := message.value, packet.value;
      if m.root != root {
        return Some(RootChanged);
      }
      if next == 0 {
        if p.total < 0 || p.index != 0 {
          return Some(BadRootCounters);
        }
        if p.total > 0 {
          windowed := true;
          total := p.total;
        }
        var rootLeaf := lib.rootLeaf(p);
        if rootLeaf.None? || rootLeaf.value.hash != root {
          return Some(RootLeafMissing);
        }
      } else {
        if m.publicKey != "" && m.publicKey != publicKey {
          return Some(PublicKeyChanged);
        }
        if m.signature != "" && m.signature != signature {
          return Some(SignatureChanged);
        }
      }
      if windowed {
        if p.total != total {
          return Some(TotalChanged);
        }
        if p.index != next {
          return Some(OutOfOrder);
        }
        if p.index < 0 || p.index >= total {
          return Some(OutOfRange);
        }
        var shouldBeFinal := p.index == total - 1;
        if m.isFinal != shouldBeFinal {
          return Some(FinalMarkerWrong);
        }
      } else if p.total != 0 || p.index != 0 {
        return Some(LegacyCountersChanged);
      }
      fault := CheckLeaves(p);
    }

    /** The loop over the packet's leaves that ends a check. */
    method CheckLeaves(p: Packet) returns (fault: Option<PacketFault>)
      ensures fault == LeavesFault(Value(), p, 0)
    {
      var packetLeaves: set<string> := {};
      for k := 0 to |p.leaves|
        invariant packetLeaves == HashesBefore(p, k)
        invariant LeavesFault(Value(), p, 0) == LeavesFault(Value(), p, k)
      {
        if p.leaves[k].None? || p.leaves[k].value.hash == "" {
          return Some(UnhashedLeaf);
        }
        var hash := p.leaves[k].value.hash;
        HashedBefore(p, k, hash);
        if hash in packetLeaves {
          return Some(LeafRepeatedInPacket);
        }
        if hash in seenLeaves {
          return Some(LeafSeenBefore);
        }
        if hash !in p.relationships {
          return Some(RelationshipMissing);
        }
        var parent := p.relationships[hash];
        if parent == "" && hash != root {
          return Some(StrayRootLeaf);
        }
        packetLeaves := packetLeaves + {hash};
      }
      return None;
    }

    /** Records a packet whose check succeeded. */
    method Commit(message: UploadMessage, packet: Packet)
      requires forall k :: 0 <= k < |packet.leaves| ==> packet.leaves[k].Some?
      modifies this`next, this`finalized, this`seenLeaves
      ensures Value() == Committed(old(Value()), message, packet)
    {
      for k := 0 to |packet.leaves|
        invariant seenLeaves == old(seenLeaves) + HashesBefore(packet, k)
        invariant next == old(next) && finalized == old(finalized)
      {
        seenLeaves := seenLeaves + {packet.leaves[k].value.hash};
      }
      next := next + 1;
      finalized := message.isFinal;
    }

    function CurrentAcknowledgment(): string
      reads this
    {
      Acknowledgment(Value())
    }
  }
}
