/** The session on byte streams: either end encodes what it writes and decodes what arrives, however it is cut. */
module ByteSession {
  import opened Wire
  import opened AckReader
  import opened Framing
  import opened Handover
  import opened Session
  import opened SessionSafety
  import C = Cbor
  import S = Sender
  import SR = SenderRuns
  import D = Download
  import RR = ReceiveRuns
  import WindowAck

  /** How messages and responses become CBOR items, and what either end makes of an item. */
  datatype Codec = Codec(
    message: UploadMessage -> C.Item,
    response: Response -> C.Item,
    readMessage: C.Item -> Option<UploadMessage>,
    readResponse: C.Item -> Option<Response>)

  /** Responses come back as they were; the messages of this upload as the receiver's wire format shows them. */
  ghost predicate Lossless(cfg: Config, codec: Codec) {
    && (forall k :: 0 <= k < |cfg.upload.packets| ==>
      var m := S.Outgoing(cfg.upload, k);
      C.Encodable(codec.message(m)) && codec.readMessage(codec.message(m)) == Some(Seen(cfg, m)))
    && (forall response: Response :: |response.message| < C.MAX_ARGUMENT ==>
      C.Encodable(codec.response(response)) && codec.readResponse(codec.response(response)) == Some(response))
  }

  /** One direction of the stream: what its retained decoder has read ahead, and what is in transit. */
  datatype Line = Line(buffer: seq<C.byte>, transit: seq<C.byte>)

  datatype Bytes = Bytes(
    sender: S.State,
    reader: Reader,
    channel: seq<S.Outcome>,
    forward: Line,
    receiver: D.Receiver,
    back: Line)

  /** A read names the chunks in which the bytes in transit arrive. */
  datatype Move =
    | WritePacket
    | ReadReply(chunks: seq<seq<C.byte>>)
    | ReadAck(chunks: seq<seq<C.byte>>)
    | ReadPacket(chunks: seq<seq<C.byte>>)
    | WriteReply
    | Local(step: Step)

  function InitialBytes(cfg: Config): Bytes {
    Bytes(S.START, Unstarted, [], Line([], []), D.Idle(cfg.requested), Line([], []))
  }

  /** The two ends without the streams between them. */
  function Ends(b: Bytes): State {
    State(b.sender, b.reader, b.channel, [], b.receiver, [])
  }

  predicate IsLocal(step: Step) {
    match step
    case ReaderDelivers => true
    case ReaderQuits => true
    case TakeResult => true
    case _ => IsFault(step)
  }

  /** The bytes in transit arrive in these chunks, and the decoder finds an envelope among the first of them. */
  predicate Arrives(buffer: seq<C.byte>, transit: seq<C.byte>, chunks: seq<seq<C.byte>>) {
    Flat(chunks) == transit && Read(buffer, chunks).result.Got?
  }

  ghost predicate Can(cfg: Config, b: Bytes, move: Move) {
    match move
    case WritePacket => S.WriteDue(cfg.upload, b.sender)
    case ReadReply(chunks) =>
      && (b.sender.phase.Root? || b.sender.phase.Legacy?) && S.ReadDue(cfg.upload, b.sender)
      && Arrives([], b.back.transit, chunks)
    case ReadAck(chunks) =>
      b.reader.Reading? && b.reader.remaining > 0 && Arrives(b.back.buffer, b.back.transit, chunks)
    case ReadPacket(chunks) =>
      b.receiver.phase.Listening? && Arrives(b.forward.buffer, b.forward.transit, chunks)
    case WriteReply => D.ReplyDue(b.receiver)
    case Local(step) => IsLocal(step) && Enabled(cfg, Ends(b), step)
  }

  function Heard(codec: Codec, item: C.Item): S.Outcome {
    match codec.readResponse(item)
    case None => S.Failing(S.StreamFailed)
    case Some(response) => S.Received(Some(response))
  }

  function Got(cfg: Config, codec: Codec, r: D.Receiver, item: C.Item): D.Receiver {
    match codec.readMessage(item)
    case None => r.(phase := D.Broken)
    case Some(m) => D.Processed(cfg.lib, cfg.requested, r, m)
  }

  /** A value without an encoding would leave nothing on the line. */
  function Appended<T>(line: Line, wire: T -> C.Item, value: T): Line {
    if C.Encodable(wire(value)) then line.(transit := line.transit + C.Encode(wire(value))) else line
  }

  /** The reads for the root reply and for stop-and-wait replies use a decoder of their own and drop what it read
      ahead; the goroutine and the receiver keep theirs. */
  ghost function Moved(cfg: Config, codec: Codec, b: Bytes, move: Move): Bytes
    requires 0 < |cfg.upload.packets| && Can(cfg, b, move)
  {
    var u := cfg.upload;
    match move
    case WritePacket =>
      b.(sender := S.AfterWrite(u, b.sender, true),
         forward := Appended(b.forward, codec.message, S.Outgoing(u, b.sender.next)))
    case ReadReply(chunks) =>
      var r := Read([], chunks);
      var sender := S.AfterRead(u, b.sender, Heard(codec, r.result.item));
      b.(sender := sender, reader := Spawned(cfg, b.reader, sender), back := b.back.(transit := Flat(r.chunks)))
    case ReadAck(chunks) =>
      var r := Read(b.back.buffer, chunks);
      b.(reader := AfterReading(b.reader, Heard(codec, r.result.item)), back := Line(r.buffer, Flat(r.chunks)))
    case ReadPacket(chunks) =>
      var r := Read(b.forward.buffer, chunks);
      b.(receiver := Got(cfg, codec, b.receiver, r.result.item), forward := Line(r.buffer, Flat(r.chunks)))
    case WriteReply =>
      b.(receiver := D.Replied(b.receiver, true), back := Appended(b.back, codec.response, D.Reply(b.receiver)))
    case Local(step) =>
      var s := Next(cfg, Ends(b), step);
      b.(sender := s.sender, reader := s.reader, channel := s.channel, receiver := s.receiver)
  }

  // ---------- Runs ----------

  ghost function AfterBytes(cfg: Config, codec: Codec, moves: seq<Move>): Bytes
    requires 0 < |cfg.upload.packets|
  {
    if moves == [] then InitialBytes(cfg)
    else
      var before := AfterBytes(cfg, codec, moves[..|moves| - 1]);
      if Can(cfg, before, moves[|moves| - 1]) then Moved(cfg, codec, before, moves[|moves| - 1]) else before
  }

  ghost predicate LegalBytes(cfg: Config, codec: Codec, moves: seq<Move>)
    requires 0 < |cfg.upload.packets|
  {
    moves == [] ||
    (LegalBytes(cfg, codec, moves[..|moves| - 1])
     && Can(cfg, AfterBytes(cfg, codec, moves[..|moves| - 1]), moves[|moves| - 1]))
  }

  // ---------- Bytes and messages ----------

  /** The bytes buffered and in transit are the encodings of these values, in order and nothing else. */
  predicate Holds<T>(line: Line, wire: T -> C.Item, values: seq<T>) {
    Writable(wire, values) && line.buffer + line.transit == C.EncodeAll(Items(wire, values))
  }

  /** The same ends, and streams that hold the encodings of the same messages; before the goroutine has started, no
      reader has kept any byte of a reply. */
  predicate Projects(codec: Codec, b: Bytes, s: State) {
    && b.sender == s.sender && b.reader == s.reader && b.channel == s.channel && b.receiver == s.receiver
    && Holds(b.forward, codec.message, s.forward) && Holds(b.back, codec.response, s.back)
    && (b.reader.Unstarted? ==> b.back.buffer == [])
    && forall k :: 0 <= k < |s.back| ==> |s.back[k].message| < C.MAX_ARGUMENT
  }

  function StepOf(move: Move): Step {
    match move
    case WritePacket => Send
    case ReadReply(_) => TakeReply
    case ReadAck(_) => ReaderTakes
    case ReadPacket(_) => Receive
    case WriteReply => Answer
    case Local(step) => step
  }

  function MoveOf(b: Bytes, step: Step): Move {
    match step
    case Send => WritePacket
    case TakeReply => ReadReply([b.back.transit])
    case ReaderTakes => ReadAck([b.back.transit])
    case Receive => ReadPacket([b.forward.transit])
    case Answer => WriteReply
    case _ => Local(step)
  }

  lemma {:induction false} EncodeAllAppends(items: seq<C.Item>, x: C.Item)
    requires forall i :: 0 <= i < |items| ==> C.Encodable(items[i])
    requires C.Encodable(x)
    ensures C.EncodeAll(items + [x]) == C.EncodeAll(items) + C.Encode(x)
  {
    hide C.Encode;
    if items == [] {
      assert [x][1..] == [] && items + [x] == [x];
      assert C.Encode(x) + [] == C.Encode(x) == [] + C.Encode(x);
    } else {
      EncodeAllAppends(items[1..], x);
      assert (items + [x])[1..] == items[1..] + [x];
    }
  }

  lemma AppendedHolds<T>(line: Line, wire: T -> C.Item, values: seq<T>, value: T)
    requires Holds(line, wire, values) && C.Encodable(wire(value))
    ensures Holds(Appended(line, wire, value), wire, values + [value])
  {
    hide C.Encode, C.EncodeAll;
    EncodeAllAppends(Items(wire, values), wire(value));
    assert Items(wire, values + [value]) == Items(wire, values) + [wire(value)];
    assert line.buffer + (line.transit + C.Encode(wire(value))) == (line.buffer + line.transit) + C.Encode(wire(value));
  }

  /** An envelope that arrives is that of the oldest value, and the others stay. */
  lemma ArrivalTakesOldest<T>(line: Line, wire: T -> C.Item, values: seq<T>, chunks: seq<seq<C.byte>>)
    requires Holds(line, wire, values) && Arrives(line.buffer, line.transit, chunks)
    ensures values != []
    ensures var r := Read(line.buffer, chunks);
      r.result == ReadResult.Got(wire(values[0])) && Holds(Line(r.buffer, Flat(r.chunks)), wire, values[1..])
  {
    hide C.Encode, Read;
    if values == [] {
      assert Items(wire, values) == [];
      NothingArrives(line.buffer, chunks);
    } else {
      RetainedReaderKeepsOrder(wire, values, line.buffer, chunks);
    }
  }

  /** Whatever is on the line can arrive. */
  lemma SomethingArrives<T>(line: Line, wire: T -> C.Item, values: seq<T>)
    requires Holds(line, wire, values) && values != []
    ensures Arrives(line.buffer, line.transit, [line.transit])
  {
    hide C.Encode, Read, C.EncodeAll;
    assert Flat([line.transit]) == line.transit + Flat([line.transit][1..]) == line.transit;
    RetainedReaderKeepsOrder(wire, values, line.buffer, [line.transit]);
  }

  /** A lone envelope, read with a decoder of its own: nothing is dropped. */
  lemma LoneArrival<T>(line: Line, wire: T -> C.Item, values: seq<T>, chunks: seq<seq<C.byte>>)
    requires Holds(line, wire, values) && line.buffer == [] && |values| <= 1
    requires Arrives([], line.transit, chunks)
    ensures values != [] && Read([], chunks).result == ReadResult.Got(wire(values[0]))
    ensures Holds(line.(transit := Flat(Read([], chunks).chunks)), wire, values[1..])
  {
    hide C.Encode, Read, C.EncodeAll;
    ArrivalTakesOldest(line, wire, values, chunks);
    OneItem(wire, values[0]);
    assert values == [values[0]] && values[1..] == [];
    assert [] + line.transit == line.transit;
    LoneEnvelopeIsSafe(wire(values[0]), chunks);
  }

  // ---------- One step ----------

  /** Every reply the receiver makes has an encoding. */
  lemma ReplyIsShort(cfg: Config, s: State)
    requires Valid(cfg) && Inv(cfg, s) && D.ReplyDue(s.receiver)
    ensures |D.Reply(s.receiver).message| < C.MAX_ARGUMENT
  {
    hide SR.Sound, Linked, RR.OriginStable, RR.LeavesConserved, RR.PacketsDisjoint, WindowAck.Encode;
    var v := s.receiver.history.view;
    if v.windowed && v.next > 0 {
      WindowAck.EncodingIsShort(v.next - 1);
    }
  }

  lemma PacketIsEncodable(cfg: Config, codec: Codec, b: Bytes)
    requires Lossless(cfg, codec) && S.WriteDue(cfg.upload, b.sender)
    ensures C.Encodable(codec.message(S.Outgoing(cfg.upload, b.sender.next)))
  {
  }

  /** What is read off the forward line is what the receiver's wire format shows of the oldest message. */
  lemma OldestMessage(cfg: Config, codec: Codec, s: State)
    requires Lossless(cfg, codec) && Inv(cfg, s) && s.forward != []
    ensures codec.readMessage(codec.message(s.forward[0])) == Some(Seen(cfg, s.forward[0]))
  {
    hide SR.Sound, D.Sound, Linked;
    assert s.forward[0] == Messages(cfg)[|s.receiver.received|];
  }

  /** A move on bytes is the session's step on the messages. */
  lemma MoveProjects(cfg: Config, codec: Codec, b: Bytes, s: State, move: Move)
    requires Valid(cfg) && Lossless(cfg, codec) && Projects(codec, b, s) && Inv(cfg, s)
    requires Can(cfg, b, move) && Enabled(cfg, s, StepOf(move))
    ensures Projects(codec, Moved(cfg, codec, b, move), Next(cfg, s, StepOf(move)))
  {
    hide Inv, Read, C.Encode, C.EncodeAll, Holds, S.AfterRead, S.HasRoom, D.Processed, D.Reply;
    match move {
      case WritePacket =>
        PacketIsEncodable(cfg, codec, b);
        AppendedHolds(b.forward, codec.message, s.forward, S.Outgoing(cfg.upload, b.sender.next));
      case ReadReply(chunks) =>
        OneOutstanding(cfg, s);
        LoneArrival(b.back, codec.response, s.back, chunks);
      case ReadAck(chunks) => ArrivalTakesOldest(b.back, codec.response, s.back, chunks);
      case ReadPacket(chunks) =>
        ArrivalTakesOldest(b.forward, codec.message, s.forward, chunks);
        OldestMessage(cfg, codec, s);
      case WriteReply =>
        ReplyIsShort(cfg, s);
        AppendedHolds(b.back, codec.response, s.back, D.Reply(b.receiver));
      case Local(step) =>
    }
  }

  /** Streams that never refuse a message. */
  predicate Roomy(cfg: Config) {
    cfg.forwardCapacity > |cfg.upload.packets| && cfg.backCapacity > |cfg.upload.packets|
  }

  lemma StreamsFit(cfg: Config, s: State)
    requires Inv(cfg, s)
    ensures |s.forward| <= |cfg.upload.packets| && |s.receiver.sent| <= |cfg.upload.packets|
  {
    hide SR.Sound, Linked, RR.Consistent, WindowAck.Encode;
  }

  lemma MoveIsEnabled(cfg: Config, codec: Codec, b: Bytes, s: State, move: Move)
    requires Valid(cfg) && Lossless(cfg, codec) && Projects(codec, b, s) && Inv(cfg, s)
    requires Roomy(cfg) && |s.back| <= |s.receiver.sent| && Can(cfg, b, move)
    ensures Enabled(cfg, s, StepOf(move))
  {
    hide Inv, Read, C.Encode, C.EncodeAll, Holds, S.AfterRead, S.HasRoom;
    StreamsFit(cfg, s);
    match move {
      case ReadReply(chunks) =>
        OneOutstanding(cfg, s);
        LoneArrival(b.back, codec.response, s.back, chunks);
      case ReadAck(chunks) => ArrivalTakesOldest(b.back, codec.response, s.back, chunks);
      case ReadPacket(chunks) => ArrivalTakesOldest(b.forward, codec.message, s.forward, chunks);
      case _ =>
    }
  }

  lemma StepIsPossible(cfg: Config, codec: Codec, b: Bytes, s: State, step: Step)
    requires Valid(cfg) && Lossless(cfg, codec) && Projects(codec, b, s) && Inv(cfg, s)
    requires Enabled(cfg, s, step)
    ensures StepOf(MoveOf(b, step)) == step && Can(cfg, b, MoveOf(b, step))
  {
    hide Read, C.Encode, C.EncodeAll, Holds, S.AfterRead, S.HasRoom, SR.Sound, D.Sound, Queued, Budgeted;
    match step {
      case TakeReply => SomethingArrives(b.back, codec.response, s.back);
      case ReaderTakes => SomethingArrives(b.back, codec.response, s.back);
      case Receive => SomethingArrives(b.forward, codec.message, s.forward);
      case _ =>
    }
  }

  // ---------- Whole runs ----------

  lemma InitialProjects(cfg: Config, codec: Codec)
    requires Lossless(cfg, codec)
    ensures Projects(codec, InitialBytes(cfg), Initial(cfg))
  {
    assert Items(codec.message, []) == [] && Items(codec.response, []) == [];
  }

  lemma StepInTransit(cfg: Config, s: State, step: Step)
    requires Valid(cfg) && Enabled(cfg, s, step) && |s.back| <= |s.receiver.sent|
    ensures |Next(cfg, s, step).back| <= |Next(cfg, s, step).receiver.sent|
  {
    hide D.Reply, S.AfterRead, S.HasRoom;
    if step.Receive? {
      D.ProcessedBasics(cfg.lib, cfg.requested, s.receiver, Seen(cfg, s.forward[0]));
    }
  }

  lemma {:induction false} RepliesInTransit(cfg: Config, steps: seq<Step>)
    requires Valid(cfg)
    ensures |After(cfg, steps).back| <= |After(cfg, steps).receiver.sent|
  {
    if steps != [] {
      var before, last := After(cfg, steps[..|steps| - 1]), steps[|steps| - 1];
      RepliesInTransit(cfg, steps[..|steps| - 1]);
      if Enabled(cfg, before, last) {
        StepInTransit(cfg, before, last);
      }
    }
  }

  lemma RunGrows(cfg: Config, steps: seq<Step>, step: Step)
    requires Valid(cfg) && Legal(cfg, steps) && Enabled(cfg, After(cfg, steps), step)
    ensures Legal(cfg, steps + [step]) && After(cfg, steps + [step]) == Next(cfg, After(cfg, steps), step)
  {
    hide Enabled, Next;
    assert (steps + [step])[..|steps|] == steps;
  }

  lemma BytesRunGrows(cfg: Config, codec: Codec, moves: seq<Move>, move: Move)
    requires Valid(cfg) && Lossless(cfg, codec)
    requires LegalBytes(cfg, codec, moves) && Can(cfg, AfterBytes(cfg, codec, moves), move)
    ensures LegalBytes(cfg, codec, moves + [move])
    ensures AfterBytes(cfg, codec, moves + [move]) == Moved(cfg, codec, AfterBytes(cfg, codec, moves), move)
  {
    hide Can, Moved, Lossless;
    assert (moves + [move])[..|moves|] == moves;
  }

  /** Every run on bytes, however they are cut and whatever fails, is a run of the session on messages. */
  lemma {:induction false} BytesRunIsSessionRun(cfg: Config, codec: Codec, moves: seq<Move>) returns (steps: seq<Step>)
    requires Valid(cfg) && Roomy(cfg) && Lossless(cfg, codec) && LegalBytes(cfg, codec, moves)
    ensures Legal(cfg, steps) && |steps| == |moves|
    ensures forall k :: 0 <= k < |moves| ==> steps[k] == StepOf(moves[k])
    ensures Projects(codec, AfterBytes(cfg, codec, moves), After(cfg, steps))
  {
    hide Can, Enabled, Next, Moved, Inv, Projects, Lossless, StepOf;
    if moves == [] {
      steps := [];
      InitialProjects(cfg, codec);
    } else {
      var before, last := moves[..|moves| - 1], moves[|moves| - 1];
      steps := BytesRunIsSessionRun(cfg, codec, before);
      ReachableInv(cfg, steps);
      RepliesInTransit(cfg, steps);
      var b, s := AfterBytes(cfg, codec, before), After(cfg, steps);
      MoveIsEnabled(cfg, codec, b, s, last);
      MoveProjects(cfg, codec, b, s, last);
      RunGrows(cfg, steps, StepOf(last));
      steps := steps + [StepOf(last)];
    }
  }

  /** And every run of the session is one on bytes. */
  lemma {:induction false} SessionRunIsBytesRun(cfg: Config, codec: Codec, steps: seq<Step>) returns (moves: seq<Move>)
    requires Valid(cfg) && Lossless(cfg, codec) && Legal(cfg, steps)
    ensures LegalBytes(cfg, codec, moves) && |moves| == |steps|
    ensures Projects(codec, AfterBytes(cfg, codec, moves), After(cfg, steps))
  {
    hide Can, Enabled, Next, Moved, Inv, Projects, Lossless, StepOf, MoveOf;
    if steps == [] {
      moves := [];
      InitialProjects(cfg, codec);
    } else {
      var before, last := steps[..|steps| - 1], steps[|steps| - 1];
      moves := SessionRunIsBytesRun(cfg, codec, before);
      ReachableInv(cfg, before);
      var b, s := AfterBytes(cfg, codec, moves), After(cfg, before);
      StepIsPossible(cfg, codec, b, s, last);
      MoveProjects(cfg, codec, b, s, MoveOf(b, last));
      BytesRunGrows(cfg, codec, moves, MoveOf(b, last));
      moves := moves + [MoveOf(b, last)];
    }
  }

  /** So success on byte streams, too, means delivery. */
  lemma BytesSuccessMeansDelivered(cfg: Config, codec: Codec, moves: seq<Move>)
    requires Valid(cfg) && Roomy(cfg) && Lossless(cfg, codec) && LegalBytes(cfg, codec, moves)
    requires AfterBytes(cfg, codec, moves).sender.phase.Succeeded?
    ensures Delivered(cfg, AfterBytes(cfg, codec, moves).receiver)
  {
    var steps := BytesRunIsSessionRun(cfg, codec, moves);
    hide After, AfterBytes, Holds, Delivered;
    SuccessMeansDelivered(cfg, steps);
  }

  // ---------- The assumption on codecs can be met ----------

  function IndexOf<T(==)>(values: seq<T>, value: T): (k: nat)
    ensures value in values ==> k < |values| && values[k] == value
  {
    if values == [] || values[0] == value then 0 else 1 + IndexOf(values[1..], value)
  }

  function CharItems(s: string): C.Item {
    C.Array(seq(|s|, i requires 0 <= i < |s| => C.Unsigned(s[i] as int)))
  }

  function ItemChar(item: C.Item): char {
    if item.Unsigned? && (item.n < 0xD800 || 0xE000 <= item.n < 0x11_0000) then item.n as char else ' '
  }

  function ItemChars(item: C.Item): string {
    if !item.Array? then ""
    else seq(|item.items|, i requires 0 <= i < |item.items| => ItemChar(item.items[i]))
  }

  /** A codec that numbers the upload's messages and spells out responses. */
  function PlainCodec(cfg: Config): Codec {
    Codec(
      (m: UploadMessage) => C.Unsigned(IndexOf(Messages(cfg), m)),
      (r: Response) => C.Array([C.Simple(if r.ok then 21 else 20), CharItems(r.message)]),
      (item: C.Item) =>
        if item.Unsigned? && item.n < |cfg.upload.packets| then Some(Seen(cfg, Messages(cfg)[item.n])) else None,
      (item: C.Item) =>
        if item.Array? && |item.items| == 2 then Some(Response(item.items[0] == C.Simple(21), ItemChars(item.items[1])))
        else None)
  }

  lemma LosslessCodecsExist(cfg: Config)
    requires Valid(cfg)
    ensures Lossless(cfg, PlainCodec(cfg))
  {
    var codec := PlainCodec(cfg);
    forall k | 0 <= k < |cfg.upload.packets|
      ensures var m := S.Outgoing(cfg.upload, k);
        C.Encodable(codec.message(m)) && codec.readMessage(codec.message(m)) == Some(Seen(cfg, m))
    {
      assert Messages(cfg)[k] == S.Outgoing(cfg.upload, k);
    }
    forall r: Response | |r.message| < C.MAX_ARGUMENT
      ensures C.Encodable(codec.response(r)) && codec.readResponse(codec.response(r)) == Some(r)
    {
      assert C.Encodable(CharItems(r.message));
      assert ItemChars(CharItems(r.message)) == r.message;
    }
  }
}
