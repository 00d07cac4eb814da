/** The progress an upload reports: leaves acknowledged so far, read off a table of prefix sums. */
module Progress {
  import opened Wire
  import opened Sender
  import opened SenderRuns
  import opened Upload

  /** One report on the progress channel. */
  datatype Report = Report(leafsSent: nat, totalLeafs: nat, fault: Option<SendFault>)

  function LeafCount(packet: Option<Packet>): nat {
    if packet.None? then 0 else |packet.value.leaves|
  }

  /** The leaves in the first n packets. */
  function LeavesIn(sequence: seq<Option<Packet>>, n: nat): nat
    requires n <= |sequence|
  {
    if n == 0 then 0 else LeavesIn(sequence, n - 1) + LeafCount(sequence[n - 1])
  }

  lemma {:induction false} LeavesInMonotone(sequence: seq<Option<Packet>>, m: nat, n: nat)
    requires m <= n <= |sequence|
    ensures LeavesIn(sequence, m) <= LeavesIn(sequence, n)
  {
    if m < n {
      LeavesInMonotone(sequence, m, n - 1);
    }
  }

  /** Fills the table: entry i counts the leaves of packets 0 to i. */
  method FillTable(sequence: seq<Option<Packet>>) returns (cumulativeLeafs: array<nat>)
    ensures fresh(cumulativeLeafs) && cumulativeLeafs.Length == |sequence|
    ensures forall i :: 0 <= i < |sequence| ==> cumulativeLeafs[i] == LeavesIn(sequence, i + 1)
  {
    cumulativeLeafs := new nat[|sequence|];
    var leafsSent := 0;
    for index := 0 to |sequence|
      invariant leafsSent == LeavesIn(sequence, index)
      invariant forall i :: 0 <= i < index ==> cumulativeLeafs[i] == LeavesIn(sequence, i + 1)
    {
      if sequence[index].Some? {
        leafsSent := leafsSent + |sequence[index].value.leaves|;
      }
      cumulativeLeafs[index] := leafsSent;
    }
  }

  /** The reports of a run: one per acknowledgment, and a last one for a failure. */
  predicate ReportsOf(reports: seq<Report>, sequence: seq<Option<Packet>>, totalLeafs: nat, acked: seq<int>,
                      fault: Option<SendFault>)
  {
    && |reports| == |acked| + (if fault.Some? then 1 else 0)
    && (forall k :: 0 <= k < |acked| ==> 0 <= acked[k] < |sequence|)
    && (forall k :: 0 <= k < |acked| ==> reports[k] == Report(LeavesIn(sequence, acked[k] + 1), totalLeafs, None))
    && (fault.Some? ==>
      reports[|acked|] == Report(if acked == [] then 0 else reports[|acked| - 1].leafsSent, totalLeafs, fault))
  }

  /** What the progress callback, and then the failure path, puts on the progress channel. */
  method ReportAll(cumulativeLeafs: array<nat>, sequence: seq<Option<Packet>>, totalLeafs: nat, steps: seq<int>,
                   fault: Option<SendFault>)
    returns (reports: seq<Report>)
    requires cumulativeLeafs.Length == |sequence|
    requires forall i :: 0 <= i < |sequence| ==> cumulativeLeafs[i] == LeavesIn(sequence, i + 1)
    requires forall k :: 0 <= k < |steps| ==> 0 <= steps[k] < |sequence|
    ensures ReportsOf(reports, sequence, totalLeafs, steps, fault)
  {
    reports := [];
    var leafsSent := 0;
    for k := 0 to |steps|
      invariant |reports| == k
      invariant forall i :: 0 <= i < k ==> reports[i] == Report(LeavesIn(sequence, steps[i] + 1), totalLeafs, None)
      invariant leafsSent == if k == 0 then 0 else reports[k - 1].leafsSent
    {
      leafsSent := cumulativeLeafs[steps[k]];
      reports := reports + [Report(leafsSent, totalLeafs, None)];
    }
    if fault.Some? {
      reports := reports + [Report(leafsSent, totalLeafs, fault)];
    }
  }

  lemma ProgressInRange(acked: seq<int>, n: nat)
    requires acked == [] || (ProgressTo(acked, acked[|acked| - 1]) && acked[|acked| - 1] < n)
    ensures forall k :: 0 <= k < |acked| ==> 0 <= acked[k] < n
  {
  }

  /** Reported progress never goes back. */
  lemma ReportsClimb(reports: seq<Report>, sequence: seq<Option<Packet>>, totalLeafs: nat, acked: seq<int>,
                     fault: Option<SendFault>)
    requires ReportsOf(reports, sequence, totalLeafs, acked, fault) && Ascending(acked)
    ensures forall j, k :: 0 <= j < k < |reports| ==> reports[j].leafsSent <= reports[k].leafsSent
  {
    forall j, k | 0 <= j < k < |reports|
      ensures reports[j].leafsSent <= reports[k].leafsSent
    {
      var k' := if k == |acked| then k - 1 else k;
      if j < k' {
        LeavesInMonotone(sequence, acked[j] + 1, acked[k'] + 1);
      }
    }
  }

  /** Uploads a DAG's packet sequence to one peer and reports progress. */
  method UploadDagSingle(stream: PeerStream, root: string, sequence: seq<Option<Packet>>, publicKey: string,
                         signature: string,
                         totalLeafs: nat)
    returns (reports: seq<Report>, fault: Option<SendFault>, ghost acked: seq<int>)
    modifies stream
    ensures Sequenced(sequence) ==>
      var end := Ending(UploadOf(root, sequence, publicKey, signature), START, old(stream.replies), old(stream.writes));
      acked == end.acked && fault == FaultOf(end)
    ensures !Sequenced(sequence) ==> acked == [] && fault.Some?
    ensures Sequenced(sequence) ==>
      AddsMessages(old(stream.written), stream.written, root, sequence, publicKey, signature)
    ensures ReportsOf(reports, sequence, totalLeafs, acked, fault)
    ensures fault.None? ==> |reports| > 0 && reports[|reports| - 1].leafsSent == LeavesIn(sequence, |sequence|)
    ensures forall j, k :: 0 <= j < k < |reports| ==> reports[j].leafsSent <= reports[k].leafsSent
  {
    var cumulativeLeafs := FillTable(sequence);
    var stats, fault', steps := SendBatchedUpload(stream, root, sequence, publicKey, signature);
    fault, acked := fault', steps;
    ProgressInRange(steps, |sequence|);
    reports := ReportAll(cumulativeLeafs, sequence, totalLeafs, steps, fault);
    ReportsClimb(reports, sequence, totalLeafs, acked, fault);
  }
}
