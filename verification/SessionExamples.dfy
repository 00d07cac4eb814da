/** Well-formed transfers exist. */
module SessionExamples {
  import opened Wire
  import opened DownloadOutcome
  import opened Session
  import opened SessionOutcome
  import S = Sender
  import D = Download
  import RS = ReceiveState
  import RR = ReceiveRuns

  function OneLeafPacket(hash: string, parent: string, index: int, total: int): Packet {
    Packet([Some(Leaf(hash, 0))], map[hash := parent], index, total)
  }

  lemma OneLeafFacts(root: string, hash: string, parent: string, index: int, total: int)
    requires hash != "" && (parent == "" ==> hash == root)
    ensures var p := OneLeafPacket(hash, parent, index, total);
      RR.LeavesWellFormed(root, p) && RS.Hashes(p) == {hash} && |p.leaves| > 0
  {
    var p := OneLeafPacket(hash, parent, index, total);
    assert RS.HashesBefore(p, 1) == RS.HashesBefore(p, 0) + {hash};
  }

  lemma {:induction false} AssembledWhole(lib: Library, root: string, accepted: seq<RR.Accepted>)
    requires forall dag, p :: lib.apply(dag, p).Some?
    ensures D.Assembled(lib, root, accepted).Some?
  {
    if accepted != [] {
      AssembledWhole(lib, root, accepted[..|accepted| - 1]);
    }
  }

  /** A library that accepts everything and finds a packet's first leaf. */
  const LENIENT := Library(
    (p: Packet) => if p.leaves == [] then None else p.leaves[0],
    (dag: Dag, p: Packet) => Some(dag),
    (dag: Dag) => true,
    (publicKey: string) => true,
    (signature: seq<nat>) => true,
    (publicKey: string, signature: seq<nat>, root: string) => true,
    (fault: DownloadFault, m: UploadMessage, view: View, dag: Dag) => "")

  function RootAndChild(legacyPeer: bool): Config {
    var packets := [OneLeafPacket("r", "", 0, 2), OneLeafPacket("c", "r", 1, 2)];
    Config(S.Upload("r", packets, "", ""), LENIENT, "r", legacyPeer, 0, 0)
  }

  /** A root and a child in a packet each make a well-formed transfer to either kind of peer. */
  lemma WellFormedTransfersExist(legacyPeer: bool)
    ensures WellFormed(RootAndChild(legacyPeer)) && RR.FindsOwnLeaves(LENIENT)
  {
    hide D.Assembled, RR.LeavesWellFormed, RS.Hashes;
    var cfg := RootAndChild(legacyPeer);
    var ms := Shown(cfg);
    var index, total := if legacyPeer then 0 else 1, if legacyPeer then 0 else 2;
    assert ms[0].packet == OneLeafPacket("r", "", 0, total);
    assert ms[1].packet == OneLeafPacket("c", "r", index, total);
    OneLeafFacts("r", "r", "", 0, total);
    OneLeafFacts("r", "c", "r", index, total);
    AssembledWhole(LENIENT, "r", AsAccepted(ms));
    assert Fitting("r", ms, 0) && Fitting("r", ms, 1);
  }
}
