/** The sending end as it runs: the batched upload, and the progress it reports. */
module Upload {
  import opened Wire
  import opened Sender
  import opened SenderRuns
  import opened PacketSize
  import WindowAck

  /** What a stream has been through and still holds. */
  datatype Tape = Tape(written: seq<UploadMessage>, replies: seq<Outcome>, writes: nat)

  /** The stream as the sender meets it. `replies` holds what its waits will yield, after which they are
      cancelled; the write after `writes` successful ones fails. Both are arbitrary. */
  class PeerStream {
    var written: seq<UploadMessage>
    var replies: seq<Outcome>
    var writes: nat

    constructor (replies: seq<Outcome>, writes: nat)
      ensures written == [] && this.replies == replies && this.writes == writes
    {
      written, this.replies, this.writes := [], replies, writes;
    }

    function Position(): Tape
      reads this
    {
      Tape(written, replies, writes)
    }

    method Write(message: UploadMessage) returns (ok: bool)
      modifies this`written, this`writes
      ensures ok == (old(writes) > 0)
      ensures written == if ok then old(written) + [message] else old(written)
      ensures writes == if ok then old(writes) - 1 else old(writes)
    {
      ok := writes > 0;
      if ok {
        written, writes := written + [message], writes - 1;
      }
    }

    method Await() returns (outcome: Outcome)
      modifies this`replies
      ensures old(replies) == [] ==> outcome == Failing(CalledOff) && replies == []
      ensures old(replies) != [] ==> outcome == old(replies)[0] && replies == old(replies)[1..]
    {
      if replies == [] {
        return Failing(CalledOff);
      }
      outcome, replies := replies[0], replies[1..];
    }
  }

  datatype Stats = Stats(enabled: bool, packets: int, bytes: int)

  const NO_WINDOW := Stats(false, 0, 0)

  /** What the negotiated limit makes of the transfer's statistics. */
  function StatsOf(limit: Limit): Stats {
    if limit == NO_LIMIT then NO_WINDOW else Stats(true, limit.packets, limit.bytes)
  }

  function FaultOf(end: State): Option<SendFault> {
    if end.phase.Failed? then Some(end.phase.fault) else None
  }

  /** The first n packets say which packet of how many they are. */
  predicate CountedUpTo(sequence: seq<Option<Packet>>, n: nat)
    requires n <= |sequence|
  {
    forall i :: 0 <= i < n ==>
      sequence[i].Some? && sequence[i].value.index == i && sequence[i].value.total == |sequence|
  }

  predicate Sequenced(sequence: seq<Option<Packet>>) {
    |sequence| > 0 && CountedUpTo(sequence, |sequence|)
  }

  function UploadOf(root: string, sequence: seq<Option<Packet>>, publicKey: string,
                    signature: string): (u: Sender.Upload)
    requires Sequenced(sequence)
    ensures u.root == root && u.publicKey == publicKey && u.signature == signature
    ensures |u.packets| == |sequence| && forall i :: 0 <= i < |sequence| ==> Some(u.packets[i]) == sequence[i]
  {
    Sender.Upload(root, seq(|sequence|, i requires 0 <= i < |sequence| => sequence[i].value), publicKey, signature)
  }

  /** What is wrong with the sequence, the packets before the one found out being as they should: there are no packets,
      or that one is nil, or it does not say which packet of how many it is. */
  predicate BadSequence(sequence: seq<Option<Packet>>, fault: SendFault) {
    match fault
    case NoPackets => sequence == []
    case NilPacket => exists i :: 0 <= i < |sequence| && CountedUpTo(sequence, i) && sequence[i].None?
    case InconsistentCounters =>
      exists i :: 0 <= i < |sequence| && CountedUpTo(sequence, i) && sequence[i].Some?
        && (sequence[i].value.index != i || sequence[i].value.total != |sequence|)
    case _ => false
  }

  /** The checks made before anything is written. */
  method CheckSequence(sequence: seq<Option<Packet>>) returns (fault: Option<SendFault>)
    ensures fault == None <==> Sequenced(sequence)
    ensures fault == None <==>
      && sequence != []
      && forall i :: 0 <= i < |sequence| ==>
        sequence[i].Some? && sequence[i].value.index == i && sequence[i].value.total == |sequence|
    ensures fault.Some? ==> BadSequence(sequence, fault.value)
  {
    if |sequence| == 0 {
      return Some(NoPackets);
    }
    for i := 0 to |sequence|
      invariant CountedUpTo(sequence, i)
    {
      if sequence[i].None? {
        return Some(NilPacket);
      }
      if sequence[i].value.index != i || sequence[i].value.total != |sequence| {
        return Some(InconsistentCounters);
      }
    }
    return None;
  }

  /** The wait for one pipelined reply, with the window variables it updates. */
  method ReadAck(stream: PeerStream, ghost u: Upload, ghost s: State, total: int, limit: Limit, highest: int, next: int,
                 inFlight: map<int, int>, bytes: int)
    returns (fault: Option<SendFault>, highest': int, inFlight': map<int, int>, bytes': int)
    requires s.phase.Windowed? && total == |u.packets|
    requires s.limit == limit && s.highest == highest && s.next == next && s.inFlight == inFlight && s.bytes == bytes
    modifies stream`replies
    ensures
      var outcome := if old(stream.replies) == [] then Failing(CalledOff) else old(stream.replies)[0];
      var s' := AfterRead(u, s, outcome);
      && fault == FaultOf(s')
      && (fault.None? ==> s'.highest == highest' && s'.inFlight == inFlight' && s'.bytes == bytes')
    ensures stream.replies == if old(stream.replies) == [] then [] else old(stream.replies)[1..]
  {
    hide WindowAck.Parse;
    highest', inFlight', bytes' := highest, inFlight, bytes;
    var outcome := stream.Await();
    fault := ReplyFault(outcome);
    if fault.Some? {
      return;
    }
    var current := WindowAck.Parse(outcome.response.value.message);
    if current.Malformed? {
      fault := Some(MalformedAck);
      return;
    }
    if current.Unsupported? {
      fault := Some(MetadataRemoved);
      return;
    }
    if current.ack.packets != limit.packets || current.ack.bytes != limit.bytes {
      fault := Some(WindowChanged);
      return;
    }
    if current.ack.index <= highest {
      fault := Some(StaleAck);
      return;
    }
    if current.ack.index >= next || current.ack.index >= total {
      fault := Some(UnsentAck);
      return;
    }
    var index := highest + 1;
    while index <= current.ack.index
      invariant highest < index <= current.ack.index + 1
      invariant Released(inFlight, bytes, highest + 1, current.ack.index)
             == Released(inFlight', bytes', index, current.ack.index)
    {
      if index !in inFlight' {
        fault := Some(SkippedUnknownPacket);
        return;
      }
      bytes' := Int64(bytes' - inFlight'[index]);
      inFlight' := inFlight' - {index};
      index := index + 1;
    }
    highest' := current.ack.index;
  }

  function Rest(replies: seq<Outcome>, taken: nat): seq<Outcome> {
    if taken <= |replies| then replies[taken..] else []
  }

  /** State s is where the transfer started on `begun` has come when the stream stands at `now`. */
  ghost predicate Follows(u: Upload, s: State, now: Tape, begun: Tape) {
    && Sound(u, s)
    && now.written == begun.written + OutgoingPrefix(u, s.next)
    && now.replies == Rest(begun.replies, s.taken)
    && Ending(u, s, now.replies, now.writes) == Ending(u, START, begun.replies, begun.writes)
  }

  lemma WriteStays(u: Upload, s: State, ok: bool, now: Tape)
    requires WriteDue(u, s) && ok == (now.writes > 0)
    ensures var s' := AfterWrite(u, s, ok);
      && s'.next == (if ok then s.next + 1 else s.next) && s'.taken == s.taken
      && Ending(u, s, now.replies, now.writes) == Ending(u, s', now.replies, if ok then now.writes - 1 else now.writes)
  {
  }

  lemma WriteFollows(u: Upload, s: State, ok: bool, now: Tape, now': Tape, begun: Tape)
    requires Follows(u, s, now, begun) && WriteDue(u, s)
    requires ok == (now.writes > 0)
    requires now' == if ok then Tape(now.written + [Outgoing(u, s.next)], now.replies, now.writes - 1) else now
    ensures Follows(u, AfterWrite(u, s, ok), now', begun)
  {
    hide Sound, HasRoom;
    WriteKeepsSound(u, s, ok);
    WriteStays(u, s, ok, now);
    if ok {
      var sent := OutgoingPrefix(u, s.next);
      assert (begun.written + sent) + [Outgoing(u, s.next)] == begun.written + (sent + [Outgoing(u, s.next)]);
    }
  }

  lemma ReadFollows(u: Upload, s: State, outcome: Outcome, now: Tape, now': Tape, begun: Tape)
    requires Follows(u, s, now, begun) && ReadDue(u, s)
    requires now' == now.(replies := now'.replies)
    requires now.replies == [] ==> outcome == Failing(CalledOff) && now'.replies == []
    requires now.replies != [] ==> outcome == now.replies[0] && now'.replies == now.replies[1..]
    ensures Follows(u, AfterRead(u, s, outcome), now', begun)
  {
    hide Sound, HasRoom, WindowAck.Parse;
    ReadKeepsSound(u, s, outcome);
    ReadCounts(u, s, outcome);
    if now.replies == [] {
      CancellationEnds(u, s);
    }
  }

  /** One round of stop-and-wait. */
  lemma LegacyRound(u: Upload, s: State, outcome: Outcome)
    requires s.phase.Legacy? && s.next == s.taken < |u.packets|
    ensures WriteDue(u, s) && ReadDue(u, AfterWrite(u, s, true))
    ensures AfterWrite(u, s, false).phase == Failed(WriteFailed) && AfterWrite(u, s, false).acked == s.acked
    ensures AfterWrite(u, s, false).limit == s.limit
    ensures var s' := AfterRead(u, AfterWrite(u, s, true), outcome);
      && s'.next == s.next + 1 && s'.limit == s.limit && FaultOf(s') == ReplyFault(outcome)
      && s'.acked == (if ReplyFault(outcome).Some? then s.acked else s.acked + [s.next])
      && (if ReplyFault(outcome).Some? || s'.next == |u.packets| then Done(s')
          else s'.phase.Legacy? && s'.taken == s'.next)
  {
  }

  lemma LegacyBegins(u: Upload, s: State, now: Tape, begun: Tape)
    requires Follows(u, s, now, begun) && s.phase.Legacy? && s.next == 1
    ensures s.taken == 1 < |u.packets|
    ensures s.acked == [0] ==> s.limit == NO_LIMIT
  {
  }

  /** Stop-and-wait for a peer that negotiated nothing. */
  method SendLegacy(stream: PeerStream, u: Upload, ghost s0: State, ghost begun: Tape)
    returns (fault: Option<SendFault>, acked: seq<int>, ghost end: State)
    requires s0.phase.Legacy? && s0.next == 1 && s0.acked == [0] && Follows(u, s0, stream.Position(), begun)
    modifies stream
    ensures Done(end) && Follows(u, end, stream.Position(), begun) && fault == FaultOf(end) && acked == end.acked
    ensures end.limit == NO_LIMIT
  {
    LegacyBegins(u, s0, stream.Position(), begun);
    hide Follows, WriteDue, AfterWrite, AfterRead;
    acked := [0];
    ghost var s := s0;
    for index := 1 to |u.packets|
      invariant s.next == index && acked == s.acked && Follows(u, s, stream.Position(), begun)
      invariant if index < |u.packets| then s.phase.Legacy? && s.taken == index else Done(s) && FaultOf(s).None?
      invariant s.limit == NO_LIMIT
    {
      ghost var now := stream.Position();
      LegacyRound(u, s, if stream.replies == [] then Failing(CalledOff) else stream.replies[0]);
      var ok := stream.Write(Outgoing(u, index));
      WriteFollows(u, s, ok, now, stream.Position(), begun);
      s := AfterWrite(u, s, ok);
      if !ok {
        return Some(WriteFailed), acked, s;
      }
      now := stream.Position();
      var outcome := stream.Await();
      ReadFollows(u, s, outcome, now, stream.Position(), begun);
      s := AfterRead(u, s, outcome);
      fault := ReplyFault(outcome);
      if fault.Some? {
        return fault, acked, s;
      }
      acked := acked + [index];
    }
    return None, acked, s;
  }

  ghost predicate Matches(s: State, limit: Limit, highest: int, next: int, bytes: int, inFlight: map<int, int>,
                          acked: seq<int>)
  {
    && s.limit == limit && s.highest == highest && s.next == next && s.bytes == bytes && s.inFlight == inFlight
    && s.acked == acked
  }

  /** One pipelined write. */
  lemma WindowRound(u: Upload, s: State)
    requires s.phase.Windowed?
    ensures s.next < |u.packets| ==> (WriteDue(u, s) <==> HasRoom(u, s))
    ensures s.next >= |u.packets| || !HasRoom(u, s) ==> ReadDue(u, s)
    ensures AfterWrite(u, s, false) == s.(phase := Failed(WriteFailed))
    ensures var s' := AfterWrite(u, s, true);
      && s'.phase.Windowed? && s'.limit == s.limit && s'.highest == s.highest && s'.acked == s.acked
      && s'.next == s.next + 1 && s'.inFlight == s.inFlight[s.next := CountedAt(u, s.next)]
      && s'.bytes == Int64(s.bytes + CountedAt(u, s.next))
  {
  }

  lemma FollowsWithin(u: Upload, s: State, now: Tape, begun: Tape)
    requires Follows(u, s, now, begun)
    ensures s.next <= |u.packets|
  {
  }

  /** Writes packets while the window has room for them. */
  method FillWindow(stream: PeerStream, u: Upload, limit: Limit, next: int, inFlight: map<int, int>, bytes: int,
                    ghost s0: State, ghost begun: Tape)
    returns (ok: bool, nextPacket: int, inFlightSizes: map<int, int>, inFlightBytes: int, ghost s: State)
    requires s0.phase.Windowed? && Follows(u, s0, stream.Position(), begun)
    requires Matches(s0, limit, s0.highest, next, bytes, inFlight, s0.acked)
    modifies stream
    ensures Matches(s, limit, s0.highest, nextPacket, inFlightBytes, inFlightSizes, s0.acked)
    ensures Follows(u, s, stream.Position(), begun)
    ensures if ok then s.phase.Windowed? && ReadDue(u, s) else s.phase == Failed(WriteFailed)
  {
    hide Follows, AfterWrite, WriteDue, Int64;
    FollowsWithin(u, s0, stream.Position(), begun);
    nextPacket, inFlightBytes, inFlightSizes := next, bytes, inFlight;
    s := s0;
    while nextPacket < |u.packets|
      invariant Matches(s, limit, s0.highest, nextPacket, inFlightBytes, inFlightSizes, s0.acked)
      invariant s.phase.Windowed? && Follows(u, s, stream.Position(), begun)
      invariant nextPacket <= |u.packets|
    {
      var size := TransferPacketSize(Some(u.packets[nextPacket]));
      WindowRound(u, s);
      var packetCapacity := |inFlightSizes| < limit.packets;
      var byteCapacity := Int64(inFlightBytes + size) <= limit.bytes || |inFlightSizes| == 0;
      if !packetCapacity || !byteCapacity {
        break;
      }
      ghost var now := stream.Position();
      ok := stream.Write(Outgoing(u, nextPacket));
      WriteFollows(u, s, ok, now, stream.Position(), begun);
      s := AfterWrite(u, s, ok);
      if !ok {
        return;
      }
      inFlightSizes := inFlightSizes[nextPacket := size];
      inFlightBytes := Int64(inFlightBytes + size);
      nextPacket := nextPacket + 1;
    }
    WindowRound(u, s);
    ok := true;
  }

  lemma WindowReplyAdvances(u: Upload, s: State, outcome: Outcome)
    requires s.phase.Windowed?
    ensures var s' := AfterRead(u, s, outcome);
      && s'.limit == s.limit && s'.next == s.next
      && (s'.phase.Failed? ==> s'.acked == s.acked)
      && (!s'.phase.Failed? ==>
        && s'.acked == s.acked + [s'.highest] && s'.highest > s.highest
        && (if s'.highest < |u.packets| - 1 then s'.phase.Windowed? else s'.phase.Succeeded?))
  {
  }

  /** The sliding window: write while there is room, then wait for a cumulative acknowledgment. */
  method SendWindowed(stream: PeerStream, u: Upload, limit: Limit, ghost s0: State, ghost begun: Tape)
    returns (fault: Option<SendFault>, acked: seq<int>, ghost end: State)
    requires s0.phase.Windowed? && Matches(s0, limit, 0, 1, 0, map[], [0]) && Follows(u, s0, stream.Position(), begun)
    modifies stream
    ensures Done(end) && Follows(u, end, stream.Position(), begun) && fault == FaultOf(end) && acked == end.acked
    ensures end.limit == limit
  {
    var highestAck, nextPacket, inFlightBytes, inFlightSizes := 0, 1, 0, map[];
    acked := [0];
    end := s0;
    while highestAck < |u.packets| - 1
      invariant Matches(end, limit, highestAck, nextPacket, inFlightBytes, inFlightSizes, acked)
      invariant Follows(u, end, stream.Position(), begun)
      invariant if highestAck < |u.packets| - 1 then end.phase.Windowed? else end.phase.Succeeded?
      decreases |u.packets| - highestAck
    {
      var ok;
      ok, nextPacket, inFlightSizes, inFlightBytes, end :=
        FillWindow(stream, u, limit, nextPacket, inFlightSizes, inFlightBytes, end, begun);
      if !ok {
        return Some(WriteFailed), acked, end;
      }
      ghost var now := stream.Position();
      ghost var outcome := if now.replies == [] then Failing(CalledOff) else now.replies[0];
      fault, highestAck, inFlightSizes, inFlightBytes :=
        ReadAck(stream, u, end, |u.packets|, limit, highestAck, nextPacket, inFlightSizes, inFlightBytes);
      ReadFollows(u, end, outcome, now, stream.Position(), begun);
      WindowReplyAdvances(u, end, outcome);
      end := AfterRead(u, end, outcome);
      if fault.Some? {
        return fault, acked, end;
      }
      acked := acked + [highestAck];
    }
    return None, acked, end;
  }

  /** Message i of an upload, field by field: the root, packet i, the credentials in the first message only, and the
      final mark on the last. */
  predicate IsMessage(m: UploadMessage, root: string, sequence: seq<Option<Packet>>, publicKey: string,
                      signature: string, i: nat)
    requires i < |sequence|
  {
    && m.root == root && Some(m.packet) == sequence[i] && (m.isFinal <==> i == |sequence| - 1)
    && (if i == 0 then m.publicKey == publicKey && m.signature == signature else m.publicKey == "" && m.signature == "")
  }

  /** What was added to the stream are the first messages of the upload, in order. */
  predicate AddsMessages(before: seq<UploadMessage>, after: seq<UploadMessage>, root: string,
                         sequence: seq<Option<Packet>>, publicKey: string, signature: string)
  {
    && before <= after && |after| - |before| <= |sequence|
    && forall i :: |before| <= i < |after| ==>
      IsMessage(after[i], root, sequence, publicKey, signature, i - |before|)
  }

  lemma FollowedMessages(root: string, sequence: seq<Option<Packet>>, publicKey: string, signature: string, s: State,
                         now: Tape, begun: Tape)
    requires Sequenced(sequence) && Follows(UploadOf(root, sequence, publicKey, signature), s, now, begun)
    ensures AddsMessages(begun.written, now.written, root, sequence, publicKey, signature)
  {
    hide WindowSafe, ProgressTo, CountTo, Ending;
    var u := UploadOf(root, sequence, publicKey, signature);
    var n := |begun.written|;
    forall i | n <= i < |now.written|
      ensures IsMessage(now.written[i], root, sequence, publicKey, signature, i - n)
    {
      assert now.written[i] == OutgoingPrefix(u, s.next)[i - n] == Outgoing(u, i - n);
      assert Some(u.packets[i - n]) == sequence[i - n];
    }
  }

  /** Wherever the stream stands when the transfer has come to state s. */
  lemma MessagesAdded(root: string, sequence: seq<Option<Packet>>, publicKey: string, signature: string, s: State,
                      begun: Tape)
    requires Sequenced(sequence)
    ensures forall now :: Follows(UploadOf(root, sequence, publicKey, signature), s, now, begun) ==>
      AddsMessages(begun.written, now.written, root, sequence, publicKey, signature)
  {
    hide Follows, AddsMessages;
    forall now | Follows(UploadOf(root, sequence, publicKey, signature), s, now, begun)
      ensures AddsMessages(begun.written, now.written, root, sequence, publicKey, signature)
    {
      FollowedMessages(root, sequence, publicKey, signature, s, now, begun);
    }
  }

  /** The reply to the root packet opens a window of this many packets and bytes. */
  predicate OpensWindow(replies: seq<Outcome>, writes: nat, packets: int, bytes: int) {
    && writes > 0 && replies != [] && Agrees(replies[0])
    && WindowAck.Parse(replies[0].response.value.message) == WindowAck.Accepted(WindowAck.Ack(0, packets, bytes))
  }

  lemma {:induction false} LimitStays(u: Upload, s: State, replies: seq<Outcome>, writes: nat)
    requires !s.phase.Root?
    ensures Ending(u, s, replies, writes).limit == s.limit
    decreases |replies|, |u.packets| - s.next
  {
    hide WindowAck.Parse, HasRoom;
    if !Done(s) {
      if WriteDue(u, s) {
        if writes > 0 {
          LimitStays(u, AfterWrite(u, s, true), replies, writes - 1);
        }
      } else if replies == [] {
        CancellationEnds(u, s);
      } else {
        LimitStays(u, AfterRead(u, s, replies[0]), replies[1..], writes);
      }
    }
  }

  lemma RootReplyLimit(u: Upload, s: State, outcome: Outcome, packets: int, bytes: int)
    requires s.phase.Root? && s.limit == NO_LIMIT && (packets != 0 || bytes != 0)
    ensures var s' := AfterRead(u, s, outcome);
      && !s'.phase.Root?
      && (s'.limit == Limit(packets, bytes) <==>
        && Agrees(outcome)
        && WindowAck.Parse(outcome.response.value.message) == WindowAck.Accepted(WindowAck.Ack(0, packets, bytes)))
  {
    hide WindowAck.Parse;
  }

  /** The limit a transfer ends with is the one the root reply opened it with. */
  lemma LimitExactly(u: Upload, replies: seq<Outcome>, writes: nat, packets: int, bytes: int)
    requires |u.packets| > 0 && (packets != 0 || bytes != 0)
    ensures Ending(u, START, replies, writes).limit == Limit(packets, bytes)
       <==> OpensWindow(replies, writes, packets, bytes)
  {
    hide WindowAck.Parse, HasRoom, AfterRootReply;
    if writes > 0 {
      var waiting := AfterWrite(u, START, true);
      if replies == [] {
        RootReplyLimit(u, waiting, Failing(CalledOff), packets, bytes);
        CancellationEnds(u, waiting);
      } else {
        RootReplyLimit(u, waiting, replies[0], packets, bytes);
        LimitStays(u, AfterRead(u, waiting, replies[0]), replies[1..], writes - 1);
      }
    }
  }

  /** The statistics name a window exactly as the root reply did. */
  ghost predicate StatsTold(stats: Stats, replies: seq<Outcome>, writes: nat) {
    && (!stats.enabled ==> stats == Stats(false, 0, 0))
    && forall packets, bytes ::
      stats == Stats(true, packets, bytes) <==> OpensWindow(replies, writes, packets, bytes)
  }

  lemma NoEmptyWindow(replies: seq<Outcome>, writes: nat)
    ensures !OpensWindow(replies, writes, 0, 0)
  {
    hide WindowAck.Parse;
    if writes > 0 && replies != [] && Agrees(replies[0]) {
      AcceptedInBounds(replies[0].response.value.message);
    }
  }

  lemma EndingToldStats(u: Upload, replies: seq<Outcome>, writes: nat)
    requires |u.packets| > 0
    ensures StatsTold(StatsOf(Ending(u, START, replies, writes).limit), replies, writes)
  {
    hide Ending, OpensWindow;
    var limit := Ending(u, START, replies, writes).limit;
    forall packets, bytes
      ensures StatsOf(limit) == Stats(true, packets, bytes) <==> OpensWindow(replies, writes, packets, bytes)
    {
      if packets != 0 || bytes != 0 {
        LimitExactly(u, replies, writes, packets, bytes);
      } else {
        NoEmptyWindow(replies, writes);
      }
    }
  }

  /** A transfer that has stopped is where it was bound to end; a successful one has sent and reported every packet. */
  lemma EndReached(u: Upload, s: State, now: Tape, begun: Tape)
    requires Follows(u, s, now, begun) && Done(s)
    ensures s == Ending(u, START, begun.replies, begun.writes)
    ensures s.phase.Succeeded? ==>
      now.written == begun.written + OutgoingPrefix(u, |u.packets|) && ProgressTo(s.acked, |u.packets| - 1)
  {
    hide WindowSafe, ProgressTo, OutgoingPrefix;
  }

  lemma StartFollows(u: Upload, begun: Tape)
    requires |u.packets| > 0
    ensures Follows(u, START, begun, begun) && WriteDue(u, START)
    ensures ReadDue(u, AfterWrite(u, START, true)) && Done(AfterWrite(u, START, false))
  {
    StartIsSound(u);
  }

  /** What the reply to the root packet makes of the transfer. */
  lemma RootReplyEnds(u: Upload, outcome: Outcome)
    requires |u.packets| > 0
    ensures var s := AfterRead(u, AfterWrite(u, START, true), outcome);
      match ReplyFault(outcome)
      case Some(fault) => s.phase == Failed(fault) && s.acked == [] && s.limit == NO_LIMIT
      case None =>
        match WindowAck.Parse(outcome.response.value.message)
        case Malformed(_) => s.phase == Failed(MalformedAck) && s.acked == [] && s.limit == NO_LIMIT
        case Unsupported =>
          && s.phase == (if |u.packets| == 1 then Succeeded else Legacy)
          && s.next == 1 && s.acked == [0] && s.limit == NO_LIMIT
        case Accepted(ack) =>
          if ack.index != 0 then s.phase == Failed(RootAckAdvanced) && s.acked == [0] && s.limit == NO_LIMIT
          else
            && s.phase == (if |u.packets| == 1 then Succeeded else Windowed)
            && Matches(s, Limit(ack.packets, ack.bytes), 0, 1, 0, map[], [0])
  {
    hide WindowAck.Parse;
  }

  /** Uploads a packet sequence over the stream: the root packet, then stop-and-wait or a sliding window as the
      peer's first reply decides. `acked` lists the packet indices the progress callback was given. */
  method SendBatchedUpload(stream: PeerStream, root: string, sequence: seq<Option<Packet>>, publicKey: string,
                           signature: string)
    returns (stats: Stats, fault: Option<SendFault>, acked: seq<int>)
    modifies stream
    ensures !Sequenced(sequence) ==>
      fault.Some? && BadSequence(sequence, fault.value) && stats == NO_WINDOW && acked == [] && unchanged(stream)
    ensures Sequenced(sequence) <==>
      && sequence != []
      && forall i :: 0 <= i < |sequence| ==>
        sequence[i].Some? && sequence[i].value.index == i && sequence[i].value.total == |sequence|
    ensures Sequenced(sequence) ==>
      var u := UploadOf(root, sequence, publicKey, signature);
      var end := Ending(u, START, old(stream.replies), old(stream.writes));
      && Follows(u, end, stream.Position(), old(stream.Position()))
      && fault == FaultOf(end) && acked == end.acked && stats == StatsOf(end.limit)
    ensures fault != Some(SkippedUnknownPacket)
    ensures Sequenced(sequence) ==>
      && AddsMessages(old(stream.written), stream.written, root, sequence, publicKey, signature)
      && StatsTold(stats, old(stream.replies), old(stream.writes))
    ensures fault.None? ==>
      && Sequenced(sequence)
      && (var u := UploadOf(root, sequence, publicKey, signature);
        stream.written == old(stream.written) + OutgoingPrefix(u, |sequence|))
      && ProgressTo(acked, |sequence| - 1)
  {
    hide WindowAck.Parse, Follows, Ending, OutgoingPrefix, WriteDue, ProgressTo, AddsMessages, StatsTold, AfterRead;
    hide CountedUpTo, BadSequence;
    stats, acked := NO_WINDOW, [];
    fault := CheckSequence(sequence);
    if fault.Some? {
      return;
    }
    var u := UploadOf(root, sequence, publicKey, signature);
    ghost var s, begun := START, stream.Position();
    StartFollows(u, begun);
    NeverSkipsUnknownPacket(u, stream.replies, stream.writes);
    EndingToldStats(u, stream.replies, stream.writes);
    MessagesAdded(root, sequence, publicKey, signature, Ending(u, s, stream.replies, stream.writes), begun);
    var ok := stream.Write(Outgoing(u, 0));
    WriteFollows(u, s, ok, begun, stream.Position(), begun);
    s := AfterWrite(u, s, ok);
    if !ok {
      EndReached(u, s, stream.Position(), begun);
      return stats, Some(WriteFailed), acked;
    }
    ghost var now := stream.Position();
    var outcome := stream.Await();
    ReadFollows(u, s, outcome, now, stream.Position(), begun);
    s := AfterRead(u, s, outcome);
    fault := ReplyFault(outcome);
    RootReplyEnds(u, outcome);
    if Done(s) {
      EndReached(u, s, stream.Position(), begun);
    }
    if fault.Some? {
      return;
    }
    var ack := WindowAck.Parse(outcome.response.value.message);
    if ack.Malformed? {
      fault := Some(MalformedAck);
      return;
    }
    acked := [0];
    if ack.Unsupported? {
      if |sequence| > 1 {
        fault, acked, s := SendLegacy(stream, u, s, begun);
        EndReached(u, s, stream.Position(), begun);
      }
      return;
    }
    if ack.ack.index != 0 {
      fault := Some(RootAckAdvanced);
      return;
    }
    AcceptedInBounds(outcome.response.value.message);
    stats := Stats(true, ack.ack.packets, ack.ack.bytes);
    if |sequence| == 1 {
      return;
    }
    fault, acked, s := SendWindowed(stream, u, Limit(ack.ack.packets, ack.ack.bytes), s, begun);
    EndReached(u, s, stream.Position(), begun);
  }
}
