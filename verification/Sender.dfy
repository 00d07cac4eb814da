/** The sending end as a state machine: what it writes or awaits next, and what each outcome makes of it. */
module Sender {
  import opened Wire
  import WindowAck
  import PacketSize

  /** A transfer whose sequence passed the initial checks. */
  datatype Upload = Upload(root: string, packets: seq<Packet>, publicKey: string, signature: string)

  datatype Limit = Limit(packets: int, bytes: int)

  datatype SendFault =
    | NoPackets
    | NilPacket
    | InconsistentCounters
    | WriteFailed
    | ReadFailed
    | Cancelled
    | NoResponse
    | RejectedByPeer
    | MalformedAck
    | RootAckAdvanced
    | MetadataRemoved
    | WindowChanged
    | StaleAck
    | UnsentAck
    | SkippedUnknownPacket

  /** Why a wait yields no reply: the stream failed, or the transfer was called off. */
  datatype WaitFault = StreamFailed | CalledOff

  /** What the sender learns when it waits for a reply. */
  datatype Outcome = Received(response: Option<Response>) | Failing(fault: WaitFault)

  datatype Phase = Root | Legacy | Windowed | Succeeded | Failed(fault: SendFault)

  /** next counts the packets written; acked lists the progress callbacks made; taken counts the replies read.
      In the Root and Legacy phases a reply is awaited when more packets were written than replies read. */
  datatype State = State(
    phase: Phase,
    limit: Limit,
    next: nat,
    taken: nat,
    highest: int,
    inFlight: map<int, int>,
    bytes: int,
    acked: seq<int>)

  /** The limit of a transfer that has negotiated no window. */
  const NO_LIMIT := Limit(0, 0)

  const START := State(Root, NO_LIMIT, 0, 0, 0, map[], 0, [])

  function Outgoing(u: Upload, i: nat): UploadMessage
    requires i < |u.packets|
  {
    UploadMessage(u.root, u.packets[i], if i == 0 then u.publicKey else "", if i == 0 then u.signature else "",
                  i == |u.packets| - 1)
  }

  function OutgoingPrefix(u: Upload, n: nat): (messages: seq<UploadMessage>)
    requires n <= |u.packets|
    ensures |messages| == n && forall i :: 0 <= i < n ==> messages[i] == Outgoing(u, i)
  {
    if n == 0 then [] else OutgoingPrefix(u, n - 1) + [Outgoing(u, n - 1)]
  }

  /** The size of packet i, and the int64 the sender computes for it. */
  ghost function SizeAt(u: Upload, i: int): (size: nat) {
    if 0 <= i < |u.packets| then PacketSize.Size(u.packets[i]) else 0
  }

  ghost function CountedAt(u: Upload, i: int): int {
    Int64(SizeAt(u, i))
  }

  predicate Done(s: State) {
    s.phase.Succeeded? || s.phase.Failed?
  }

  // ---------- Writing ----------

  /** The test before each pipelined write. */
  ghost predicate HasRoom(u: Upload, s: State) {
    && |s.inFlight| < s.limit.packets
    && (Int64(s.bytes + CountedAt(u, s.next)) <= s.limit.bytes || |s.inFlight| == 0)
  }

  ghost predicate WriteDue(u: Upload, s: State) {
    && s.next < |u.packets|
    && match s.phase
       case Root => s.next == 0
       case Legacy => s.next == s.taken
       case Windowed => HasRoom(u, s)
       case _ => false
  }

  ghost predicate ReadDue(u: Upload, s: State) {
    !Done(s) && !WriteDue(u, s)
  }

  ghost function AfterWrite(u: Upload, s: State, ok: bool): State {
    if !ok then s.(phase := Failed(WriteFailed))
    else if s.phase.Windowed? then
      var size := CountedAt(u, s.next);
      s.(inFlight := s.inFlight[s.next := size], bytes := Int64(s.bytes + size), next := s.next + 1)
    else s.(next := s.next + 1)
  }

  // ---------- Reading ----------

  function ReplyFault(outcome: Outcome): Option<SendFault> {
    match outcome
    case Failing(StreamFailed) => Some(ReadFailed)
    case Failing(CalledOff) => Some(Cancelled)
    case Received(response) =>
      if response.None? then Some(NoResponse)
      else if !response.value.ok then Some(RejectedByPeer)
      else None
  }

  function Fail(s: State, fault: SendFault): State {
    s.(phase := Failed(fault), taken := s.taken + 1)
  }

  function AfterRootReply(u: Upload, s: State, outcome: Outcome): State {
    if ReplyFault(outcome).Some? then Fail(s, ReplyFault(outcome).value)
    else
      var parsed := WindowAck.Parse(outcome.response.value.message);
      if parsed.Malformed? then Fail(s, MalformedAck)
      else
        var s' := s.(taken := s.taken + 1, acked := s.acked + [0]);
        if parsed.Unsupported? then s'.(phase := if |u.packets| == 1 then Succeeded else Legacy)
        else if parsed.ack.index != 0 then s'.(phase := Failed(RootAckAdvanced))
        else
          s'.(phase := if |u.packets| == 1 then Succeeded else Windowed,
              limit := Limit(parsed.ack.packets, parsed.ack.bytes))
  }

  function AfterLegacyReply(u: Upload, s: State, outcome: Outcome): State {
    if ReplyFault(outcome).Some? then Fail(s, ReplyFault(outcome).value)
    else
      s.(taken := s.taken + 1, acked := s.acked + [s.next - 1],
         phase := if s.next == |u.packets| then Succeeded else Legacy)
  }

  /** Strikes packets from..to off the in-flight table, or finds one missing. */
  function Released(inFlight: map<int, int>, bytes: int, from: int, upTo: int): Option<(map<int, int>, int)>
    decreases upTo - from
  {
    if from > upTo then Some((inFlight, bytes))
    else if from !in inFlight then None
    else Released(inFlight - {from}, Int64(bytes - inFlight[from]), from + 1, upTo)
  }

  /** Why a pipelined reply is refused, its text parsed. */
  function AckFault(u: Upload, s: State, parsed: WindowAck.AckParse): Option<SendFault> {
    match parsed
    case Malformed(_) => Some(MalformedAck)
    case Unsupported => Some(MetadataRemoved)
    case Accepted(ack) =>
      if ack.packets != s.limit.packets || ack.bytes != s.limit.bytes then Some(WindowChanged)
      else if ack.index <= s.highest then Some(StaleAck)
      else if ack.index >= s.next || ack.index >= |u.packets| then Some(UnsentAck)
      else if Released(s.inFlight, s.bytes, s.highest + 1, ack.index).None? then Some(SkippedUnknownPacket)
      else None
  }

  function AfterWindowReply(u: Upload, s: State, outcome: Outcome): State {
    if ReplyFault(outcome).Some? then Fail(s, ReplyFault(outcome).value)
    else
      var parsed := WindowAck.Parse(outcome.response.value.message);
      if AckFault(u, s, parsed).Some? then Fail(s, AckFault(u, s, parsed).value)
      else
        var upTo := parsed.ack.index;
        var (inFlight, bytes) := Released(s.inFlight, s.bytes, s.highest + 1, upTo).value;
        s.(taken := s.taken + 1, highest := upTo, inFlight := inFlight, bytes := bytes, acked := s.acked + [upTo],
           phase := if upTo < |u.packets| - 1 then Windowed else Succeeded)
  }

  function AfterRead(u: Upload, s: State, outcome: Outcome): State {
    match s.phase
    case Root => AfterRootReply(u, s, outcome)
    case Legacy => AfterLegacyReply(u, s, outcome)
    case Windowed => AfterWindowReply(u, s, outcome)
    case _ => s
  }

  // ---------- Whole runs ----------

  /** How a transfer ends when waiting yields these outcomes in turn, then a cancellation, and the write after
      `writes` successful ones fails. */
  ghost function Ending(u: Upload, s: State, replies: seq<Outcome>, writes: nat): State
    decreases |replies|, |u.packets| - s.next
  {
    if Done(s) then s
    else if WriteDue(u, s) then
      if writes == 0 then AfterWrite(u, s, false)
      else Ending(u, AfterWrite(u, s, true), replies, writes - 1)
    else if replies == [] then AfterRead(u, s, Failing(CalledOff))
    else Ending(u, AfterRead(u, s, replies[0]), replies[1..], writes)
  }
}
