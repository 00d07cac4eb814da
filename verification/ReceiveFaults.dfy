/** Which fault a turned-away packet is charged with: of all that is wrong with it, what the checks ask about first. */
module ReceiveFaults {
  import opened Wire
  import opened ReceiveState

  /** The place of a fault in the order of the checks. Those of a leaf come last; leaves are gone through in turn. */
  function Rank(fault: PacketFault): nat {
    match fault
    case AlreadyFinalized => 0
    case EmptyPacket => 1
    case RootChanged => 2
    case BadRootCounters => 3
    case RootLeafMissing => 4
    case PublicKeyChanged => 5
    case SignatureChanged => 6
    case TotalChanged => 7
    case OutOfOrder => 8
    case OutOfRange => 9
    case FinalMarkerWrong => 10
    case LegacyCountersChanged => 11
    case UnhashedLeaf => 12
    case LeafRepeatedInPacket => 13
    case LeafSeenBefore => 14
    case RelationshipMissing => 15
    case StrayRootLeaf => 16
  }

  /** This is wrong with leaf k, whatever else is. */
  predicate LeafWrong(v: View, p: Packet, k: nat, fault: PacketFault)
    requires k < |p.leaves|
  {
    if fault.UnhashedLeaf? then p.leaves[k] == None || p.leaves[k].value.hash == ""
    else
      && p.leaves[k].Some?
      && var hash := p.leaves[k].value.hash;
      match fault
      case LeafRepeatedInPacket => exists j :: 0 <= j < k && HasHash(p, j, hash)
      case LeafSeenBefore => hash in v.seenLeaves
      case RelationshipMissing => hash !in p.relationships
      case StrayRootLeaf => hash in p.relationships && p.relationships[hash] == "" && hash != v.root
      case _ => false
  }

  ghost predicate LeafFirstWrong(v: View, p: Packet, k: nat, fault: PacketFault)
    requires k < |p.leaves|
  {
    LeafWrong(v, p, k, fault) && forall other :: Rank(other) < Rank(fault) ==> !LeafWrong(v, p, k, other)
  }

  ghost predicate LeafFine(v: View, p: Packet, k: nat)
    requires k < |p.leaves|
  {
    forall fault :: !LeafWrong(v, p, k, fault)
  }

  /** This comes first with leaf k, and the leaves before it are fine. */
  ghost predicate FirstWrongLeaf(v: View, p: Packet, k: nat, fault: PacketFault)
    requires k < |p.leaves|
  {
    LeafFirstWrong(v, p, k, fault) && forall j :: 0 <= j < k ==> LeafFine(v, p, j)
  }

  ghost predicate LeavesWrong(v: View, p: Packet, fault: PacketFault) {
    exists k :: 0 <= k < |p.leaves| && FirstWrongLeaf(v, p, k, fault)
  }

  /** A packet is counted if an earlier one was, or if it is the first and gives a total. */
  predicate IsCounted(v: View, p: Packet) {
    v.windowed || (v.next == 0 && p.total > 0)
  }

  function DueTotal(v: View, p: Packet): int {
    if v.next == 0 && p.total > 0 then p.total else v.total
  }

  /** This is wrong with the packet, whatever else is. */
  ghost predicate Wrong(lib: Library, v: View, m: UploadMessage, p: Packet, fault: PacketFault) {
    match fault
    case AlreadyFinalized => v.finalized
    case EmptyPacket => p.leaves == []
    case RootChanged => m.root != v.root
    case BadRootCounters => v.next == 0 && !(p.index == 0 <= p.total)
    case RootLeafMissing => v.next == 0 && !(lib.rootLeaf(p).Some? && lib.rootLeaf(p).value.hash == v.root)
    case PublicKeyChanged => v.next > 0 && m.publicKey != "" && m.publicKey != v.publicKey
    case SignatureChanged => v.next > 0 && m.signature != "" && m.signature != v.signature
    case TotalChanged => IsCounted(v, p) && p.total != DueTotal(v, p)
    case OutOfOrder => IsCounted(v, p) && p.index != v.next
    case OutOfRange => IsCounted(v, p) && !(0 <= p.index < DueTotal(v, p))
    case FinalMarkerWrong => IsCounted(v, p) && !(m.isFinal <==> p.index == DueTotal(v, p) - 1)
    case LegacyCountersChanged => !IsCounted(v, p) && !(p.index == 0 == p.total)
    case _ => LeavesWrong(v, p, fault)
  }

  lemma RanksDiffer(fault: PacketFault, fault': PacketFault)
    ensures Rank(fault) == Rank(fault') ==> fault == fault'
  {
  }

  lemma LeafIsChecked(v: View, p: Packet, k: nat)
    requires k < |p.leaves|
    ensures match LeafFault(v, p, k)
      case None => LeafFine(v, p, k)
      case Some(fault) => LeafFirstWrong(v, p, k, fault)
  {
  }

  lemma {:induction false} LeavesAreChecked(v: View, p: Packet, k: nat) returns (at: nat)
    requires k <= |p.leaves| && forall j :: 0 <= j < k ==> LeafFine(v, p, j)
    ensures match LeavesFault(v, p, k)
      case None => forall j :: 0 <= j < |p.leaves| ==> LeafFine(v, p, j)
      case Some(fault) => at < |p.leaves| && FirstWrongLeaf(v, p, at, fault)
    decreases |p.leaves| - k
  {
    hide LeafFault, LeafWrong, LeafFine, LeafFirstWrong;
    at := k;
    if k < |p.leaves| {
      LeafIsChecked(v, p, k);
      if LeafFault(v, p, k).None? {
        at := LeavesAreChecked(v, p, k + 1);
      }
    }
  }

  lemma OneLeafFault(v: View, p: Packet, k: nat, fault: PacketFault, k': nat, fault': PacketFault)
    requires k < |p.leaves| && FirstWrongLeaf(v, p, k, fault)
    requires k' < |p.leaves| && FirstWrongLeaf(v, p, k', fault')
    ensures fault == fault'
  {
    hide LeafWrong;
    RanksDiffer(fault, fault');
    assert k < k' ==> LeafFine(v, p, k);
    assert k' < k ==> LeafFine(v, p, k');
  }

  /** The leaves' part of the charge. */
  lemma LeavesFaultExactly(v: View, p: Packet, fault: PacketFault)
    ensures LeavesFault(v, p, 0) == Some(fault) <==> LeavesWrong(v, p, fault)
    ensures LeavesWrong(v, p, fault) ==> Rank(fault) >= 12
  {
    hide LeavesFault;
    if k :| 0 <= k < |p.leaves| && FirstWrongLeaf(v, p, k, fault) {
      assert LeafWrong(v, p, k, fault);
      assert !LeafFine(v, p, k);
    }
    hide LeafWrong;
    var at := LeavesAreChecked(v, p, 0);
    if k :| 0 <= k < |p.leaves| && FirstWrongLeaf(v, p, k, fault) {
      if LeavesFault(v, p, 0).Some? {
        OneLeafFault(v, p, k, fault, at, LeavesFault(v, p, 0).value);
      }
    }
  }

  lemma ModeIsNegotiated(v: View, p: Packet)
    ensures Negotiated(v, p) == v.(windowed := IsCounted(v, p), total := DueTotal(v, p))
  {
  }

  lemma LeavesIgnoreMode(v: View, v': View, p: Packet, k: nat)
    requires k <= |p.leaves| && v' == v.(windowed := v'.windowed, total := v'.total)
    ensures LeavesFault(v', p, k) == LeavesFault(v, p, k)
    decreases |p.leaves| - k
  {
  }

  lemma ChargedIsWrong(lib: Library, v: View, m: UploadMessage, p: Packet, fault: PacketFault)
    requires Validation(lib, v, Some(m), Some(p)).1 == Some(fault)
    ensures Wrong(lib, v, m, p, fault)
  {
    hide LeavesWrong, LeavesFault;
    ModeIsNegotiated(v, p);
    LeavesIgnoreMode(v, Negotiated(v, p), p, 0);
    LeavesFaultExactly(v, p, fault);
  }

  lemma UnchargedIsRight(lib: Library, v: View, m: UploadMessage, p: Packet, other: PacketFault)
    requires var charged := Validation(lib, v, Some(m), Some(p)).1;
      charged.Some? ==> Rank(other) < Rank(charged.value)
    ensures !Wrong(lib, v, m, p, other)
  {
    hide LeavesWrong, LeavesFault;
    ModeIsNegotiated(v, p);
    LeavesIgnoreMode(v, Negotiated(v, p), p, 0);
    LeavesFaultExactly(v, p, other);
    var leaves := LeavesFault(v, p, 0);
    if leaves.Some? {
      LeavesFaultExactly(v, p, leaves.value);
    }
  }

  /** A packet is charged with a fault exactly if it has it and none that is asked about before. */
  lemma FaultIsFirst(lib: Library, v: View, m: UploadMessage, p: Packet, fault: PacketFault)
    ensures Validation(lib, v, Some(m), Some(p)).1 == Some(fault) <==>
      Wrong(lib, v, m, p, fault) && forall other :: Rank(other) < Rank(fault) ==> !Wrong(lib, v, m, p, other)
    ensures Acceptable(lib, v, m, p) <==> forall other :: !Wrong(lib, v, m, p, other)
  {
    hide Validation, Wrong;
    var charged := Validation(lib, v, Some(m), Some(p)).1;
    forall other | charged.Some? ==> Rank(other) < Rank(charged.value)
      ensures !Wrong(lib, v, m, p, other)
    {
      UnchargedIsRight(lib, v, m, p, other);
    }
    if charged.Some? {
      ChargedIsWrong(lib, v, m, p, charged.value);
      RanksDiffer(fault, charged.value);
    }
  }
}
