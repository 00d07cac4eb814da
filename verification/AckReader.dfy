/** The goroutine that reads pipelined acknowledgments and hands them to the sender over a bounded channel. */
module AckReader {
  import opened Wire
  import opened Sender
  import opened SenderRuns
  import PacketSize
  import WindowAck

  /** remaining is the loop counter; Holding is a reply read but not yet taken by the channel. */
  datatype Reader = Unstarted | Reading(remaining: nat) | Holding(remaining: nat, outcome: Outcome) | Exited

  function Held(reader: Reader): seq<Outcome> {
    if reader.Holding? then [reader.outcome] else []
  }

  /** A reply after which the goroutine stops. */
  predicate Terminating(outcome: Outcome) {
    ReplyFault(outcome).Some?
  }

  function AfterReading(reader: Reader, outcome: Outcome): Reader
    requires reader.Reading?
  {
    Holding(reader.remaining, outcome)
  }

  function AfterDelivery(reader: Reader): Reader
    requires reader.Holding?
  {
    if Terminating(reader.outcome) || reader.remaining <= 1 then Exited else Reading(reader.remaining - 1)
  }

  function ChannelCapacity(limit: Limit): int {
    limit.packets + 1
  }

  // ---------- The pipelined phase against any peer ----------

  /** The sender, its goroutine and the channel between them. */
  datatype Pipe = Pipe(sender: State, reader: Reader, channel: seq<Outcome>)

  /** One step: a write, a reply from an arbitrary peer or stream, a channel transfer, or giving up. */
  datatype Move = Write(ok: bool) | Hear(outcome: Outcome) | Deliver | Take | Abandon

  function Opening(s: State, total: nat): Pipe
    requires total > 0
  {
    Pipe(s, Reading(total - 1), [])
  }

  ghost predicate Possible(u: Upload, p: Pipe, move: Move) {
    match move
    case Write(_) => WriteDue(u, p.sender)
    case Hear(_) => p.reader.Reading? && p.reader.remaining > 0
    case Deliver => p.reader.Holding? && |p.channel| < ChannelCapacity(p.sender.limit)
    case Take => p.sender.phase.Windowed? && ReadDue(u, p.sender) && p.channel != []
    case Abandon => p.sender.phase.Windowed?
  }

  ghost function Moved(u: Upload, p: Pipe, move: Move): Pipe
    requires Possible(u, p, move)
  {
    match move
    case Write(ok) => p.(sender := AfterWrite(u, p.sender, ok))
    case Hear(outcome) => p.(reader := AfterReading(p.reader, outcome))
    case Deliver => p.(reader := AfterDelivery(p.reader), channel := p.channel + [p.reader.outcome])
    case Take => p.(sender := AfterRead(u, p.sender, p.channel[0]), channel := p.channel[1..])
    case Abandon => p.(sender := Fail(p.sender, Cancelled))
  }

  ghost function PipeAfter(u: Upload, p: Pipe, moves: seq<Move>): Pipe {
    if moves == [] then p
    else
      var before := PipeAfter(u, p, moves[..|moves| - 1]);
      var last := moves[|moves| - 1];
      if Possible(u, before, last) then Moved(u, before, last) else before
  }

  ghost predicate PipeLegal(u: Upload, p: Pipe, moves: seq<Move>) {
    moves == [] ||
    (PipeLegal(u, p, moves[..|moves| - 1]) && Possible(u, PipeAfter(u, p, moves[..|moves| - 1]), moves[|moves| - 1]))
  }

  /** Replies taken, waiting and still to be read add up to the budget, unless a terminating one waits last. */
  predicate Budgeted(total: int, taken: int, reader: Reader, channel: seq<Outcome>) {
    && (forall k :: 0 <= k < |channel| - 1 ==> !Terminating(channel[k]))
    && match reader
       case Unstarted => false
       case Reading(remaining) =>
         && remaining > 0 && taken + |channel| + remaining == total
         && (channel != [] ==> !Terminating(channel[|channel| - 1]))
       case Holding(remaining, _) =>
         && remaining > 0 && taken + |channel| + remaining == total
         && (channel != [] ==> !Terminating(channel[|channel| - 1]))
       case Exited =>
         taken + |channel| == total || (channel != [] && Terminating(channel[|channel| - 1]))
  }

  ghost predicate PipeSound(u: Upload, p: Pipe) {
    && Sound(u, p.sender) && (p.sender.phase.Windowed? || Done(p.sender))
    && (!p.sender.phase.Failed? ==> Budgeted(|u.packets|, p.sender.taken, p.reader, p.channel))
  }

  lemma DeliveryKeepsBudget(total: int, taken: int, reader: Reader, channel: seq<Outcome>)
    requires Budgeted(total, taken, reader, channel) && reader.Holding?
    ensures Budgeted(total, taken, AfterDelivery(reader), channel + [reader.outcome])
  {
  }

  lemma TakeKeepsBudget(total: int, taken: int, reader: Reader, channel: seq<Outcome>)
    requires Budgeted(total, taken, reader, channel) && channel != [] && !Terminating(channel[0])
    ensures Budgeted(total, taken + 1, reader, channel[1..])
  {
  }

  lemma MoveKeepsPipeSound(u: Upload, p: Pipe, move: Move)
    requires PipeSound(u, p) && Possible(u, p, move)
    ensures PipeSound(u, Moved(u, p, move))
  {
    hide HasRoom;
    match move
    case Write(ok) => WriteKeepsSound(u, p.sender, ok);
    case Hear(outcome) =>
    case Deliver =>
      if !p.sender.phase.Failed? {
        DeliveryKeepsBudget(|u.packets|, p.sender.taken, p.reader, p.channel);
      }
    case Take =>
      ReadKeepsSound(u, p.sender, p.channel[0]);
      if !AfterRead(u, p.sender, p.channel[0]).phase.Failed? {
        TakeKeepsBudget(|u.packets|, p.sender.taken, p.reader, p.channel);
      }
    case Abandon =>
  }

  lemma {:induction false} EveryPipeIsSound(u: Upload, s: State, moves: seq<Move>)
    requires Sound(u, s) && s.phase.Windowed? && s.taken == 1 && |u.packets| > 1
    requires PipeLegal(u, Opening(s, |u.packets|), moves)
    ensures PipeSound(u, PipeAfter(u, Opening(s, |u.packets|), moves))
  {
    if moves != [] {
      EveryPipeIsSound(u, s, moves[..|moves| - 1]);
      MoveKeepsPipeSound(u, PipeAfter(u, Opening(s, |u.packets|), moves[..|moves| - 1]), moves[|moves| - 1]);
    }
  }

  /** Whatever the peer does, a sender that waits on an empty channel waits on a goroutine still at work: its
      budget of N-1 reads is never used up early, and it never exits without having delivered the reason. */
  lemma ReaderNeverAbandonsSender(u: Upload, s: State, moves: seq<Move>)
    requires Sound(u, s) && s.phase.Windowed? && s.taken == 1 && |u.packets| > 1
    requires PipeLegal(u, Opening(s, |u.packets|), moves)
    ensures
      var p := PipeAfter(u, Opening(s, |u.packets|), moves);
      p.sender.phase.Windowed? && ReadDue(u, p.sender) && p.channel == [] ==>
        p.reader.Holding? || (p.reader.Reading? && p.reader.remaining > 0)
  {
    EveryPipeIsSound(u, s, moves);
    var p := PipeAfter(u, Opening(s, |u.packets|), moves);
    if p.sender.phase.Windowed? {
      RepliesWithinBudget(u, p.sender);
    }
  }

  /** When the upload has succeeded, the goroutine has exited if and only if its budget is used up or a terminating
      reply waits unread; with nothing unread, that is if and only if the peer acknowledged every packet separately.
      Otherwise it is still in a read or has a reply in hand. */
  lemma ReaderAtSuccess(u: Upload, s: State, moves: seq<Move>)
    requires Sound(u, s) && s.phase.Windowed? && s.taken == 1 && |u.packets| > 1
    requires PipeLegal(u, Opening(s, |u.packets|), moves)
    requires PipeAfter(u, Opening(s, |u.packets|), moves).sender.phase.Succeeded?
    ensures
      var p := PipeAfter(u, Opening(s, |u.packets|), moves);
      && (p.reader.Exited? <==>
        || p.sender.taken + |p.channel| == |u.packets|
        || (p.channel != [] && Terminating(p.channel[|p.channel| - 1])))
      && (p.channel == [] ==> (p.reader.Exited? <==> p.sender.acked == CountTo(|u.packets|)))
      && (!p.reader.Exited? ==> (p.reader.Reading? || p.reader.Holding?) && p.reader.remaining > 0)
  {
    hide PipeAfter, PipeLegal;
    EveryPipeIsSound(u, s, moves);
    var p := PipeAfter(u, Opening(s, |u.packets|), moves);
    if p.sender.taken == |u.packets| {
      FullProgress(p.sender.acked, |u.packets|);
    }
  }

  // ---------- A goroutine left behind ----------

  /** A sender of three packets, all written, whose root packet is acknowledged. */
  function AllWritten(): (Upload, State) {
    var size := PacketSize.PACKET_OVERHEAD;
    (Upload("r", [Packet([], map[], 0, 3), Packet([], map[], 1, 3), Packet([], map[], 2, 3)], "", ""),
     State(Windowed, Limit(WindowAck.WINDOW_PACKETS, WindowAck.WINDOW_BYTES), 3, 1, 0, map[1 := size, 2 := size],
           2 * size, [0]))
  }

  lemma AllWrittenIsSound()
    ensures var (u, s) := AllWritten(); Sound(u, s) && ReadDue(u, s)
  {
    var (u, s) := AllWritten();
    assert SizeAt(u, 1) == SizeAt(u, 2) == PacketSize.PACKET_OVERHEAD;
    assert SumSizes(u, 3, 3) == 0;
    assert SumSizes(u, 2, 3) == PacketSize.PACKET_OVERHEAD;
    assert SumSizes(u, 1, 3) == 2 * PacketSize.PACKET_OVERHEAD;
    assert ProgressTo([0], 0);
  }

  lemma PipeGrows(u: Upload, p: Pipe, moves: seq<Move>, move: Move)
    requires PipeLegal(u, p, moves) && Possible(u, PipeAfter(u, p, moves), move)
    ensures PipeLegal(u, p, moves + [move])
    ensures PipeAfter(u, p, moves + [move]) == Moved(u, PipeAfter(u, p, moves), move)
  {
    hide Possible, Moved;
    assert (moves + [move])[..|moves|] == moves;
  }

  lemma TakesLastAck(u: Upload, s: State, outcome: Outcome)
    requires Sound(u, s) && s.phase.Windowed? && s.next == |u.packets| && Agrees(outcome)
    requires WindowAck.Parse(outcome.response.value.message)
          == WindowAck.Accepted(WindowAck.Ack(|u.packets| - 1, s.limit.packets, s.limit.bytes))
    ensures AfterRead(u, s, outcome).phase.Succeeded? && !Terminating(outcome)
  {
    hide WindowAck.Parse, AfterWindowReply;
    assert Advances(s, outcome, |u.packets| - 1);
    WindowReplyAcceptedExactly(u, s, outcome);
    WindowReplyEffect(u, s, outcome);
    WindowReplyShape(u, s, outcome);
  }

  lemma NoMovesYet(u: Upload, p: Pipe)
    ensures PipeLegal(u, p, []) && PipeAfter(u, p, []) == p
  {
  }

  /** One reply heard, delivered and taken. */
  lemma OneReplyTaken(u: Upload, s: State, outcome: Outcome) returns (moves: seq<Move>)
    requires s.phase.Windowed? && ReadDue(u, s) && |u.packets| > 2 && s.limit.packets > 0 && !Terminating(outcome)
    ensures moves == [] + [Hear(outcome)] + [Deliver] + [Take]
    ensures PipeLegal(u, Opening(s, |u.packets|), moves)
    ensures PipeAfter(u, Opening(s, |u.packets|), moves) == Pipe(AfterRead(u, s, outcome), Reading(|u.packets| - 2), [])
  {
    hide PipeLegal, PipeAfter, AfterRead, ReadDue, Terminating;
    var p := Opening(s, |u.packets|);
    NoMovesYet(u, p);
    moves := [];
    PipeGrows(u, p, moves, Hear(outcome));
    moves := moves + [Hear(outcome)];
    PipeGrows(u, p, moves, Deliver);
    moves := moves + [Deliver];
    PipeGrows(u, p, moves, Take);
    moves := moves + [Take];
  }

  /** A peer that acknowledges both in one reply lets the upload succeed with the goroutine left in a read. */
  lemma ReaderLeftBehind() returns (moves: seq<Move>)
    ensures
      var (u, s) := AllWritten();
      var p := PipeAfter(u, Opening(s, 3), moves);
      PipeLegal(u, Opening(s, 3), moves) && p.sender.phase.Succeeded? && p.reader == Reading(1) && p.channel == []
  {
    hide PipeLegal, PipeAfter, WindowAck.Parse, WindowAck.Encode, Sound, AfterRead;
    var (u, s) := AllWritten();
    var outcome := Received(Some(Response(true, WindowAck.Encode(2))));
    AllWrittenIsSound();
    WindowAck.RoundTrip(2);
    TakesLastAck(u, s, outcome);
    moves := OneReplyTaken(u, s, outcome);
  }
}
