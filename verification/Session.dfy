/** Both ends of a transfer, the acknowledgment goroutine and the two streams between them, stepping one at a time. */
module Session {
  import opened Wire
  import opened AckReader
  import S = Sender
  import D = Download

  /** A transfer. A legacy peer is one whose wire format has no packet counters: it sees them as zero. The streams
      hold a bounded number of messages in each direction, possibly none. */
  datatype Config = Config(
    upload: S.Upload,
    lib: Library,
    requested: string,
    legacyPeer: bool,
    forwardCapacity: nat,
    backCapacity: nat)

  datatype State = State(
    sender: S.State,
    reader: Reader,
    channel: seq<S.Outcome>,
    forward: seq<UploadMessage>,
    receiver: D.Receiver,
    back: seq<Response>)

  datatype Step =
    | Send
    | TakeReply
    | ReaderTakes
    | ReaderDelivers
    | ReaderQuits
    | TakeResult
    | Receive
    | Answer
    | SenderFault(fault: S.WaitFault)
    | ReaderFault
    | ReceiverFault

  /** A packet sequence the sender's initial checks let through, its length an int. */
  predicate Valid(cfg: Config) {
    && 0 < |cfg.upload.packets| <= MAX_INT64
    && forall i :: 0 <= i < |cfg.upload.packets| ==>
      cfg.upload.packets[i].index == i && cfg.upload.packets[i].total == |cfg.upload.packets|
  }

  function Initial(cfg: Config): State {
    State(S.START, Unstarted, [], [], D.Idle(cfg.requested), [])
  }

  /** The message as the receiving end decodes it. */
  function Seen(cfg: Config, m: UploadMessage): UploadMessage {
    if cfg.legacyPeer then m.(packet := m.packet.(index := 0, total := 0)) else m
  }

  predicate IsFault(step: Step) {
    step.SenderFault? || step.ReaderFault? || step.ReceiverFault?
  }

  /** Some reader of the backward stream is waiting for a reply. */
  ghost predicate ReplyAwaited(cfg: Config, s: State) {
    || ((s.sender.phase.Root? || s.sender.phase.Legacy?) && S.ReadDue(cfg.upload, s.sender))
    || (s.reader.Reading? && s.reader.remaining > 0)
  }

  /** A stream takes a message when its buffer has room, or hands it to a reader that waits; with no buffer at all a
      write meets a read. */
  ghost predicate Enabled(cfg: Config, s: State, step: Step) {
    match step
    case Send =>
      && S.WriteDue(cfg.upload, s.sender)
      && (|s.forward| < cfg.forwardCapacity || (s.forward == [] && s.receiver.phase.Listening?))
    case TakeReply =>
      (s.sender.phase.Root? || s.sender.phase.Legacy?) && S.ReadDue(cfg.upload, s.sender) && s.back != []
    case ReaderTakes => s.reader.Reading? && s.reader.remaining > 0 && s.back != []
    case ReaderDelivers => s.reader.Holding? && |s.channel| < ChannelCapacity(s.sender.limit)
    case ReaderQuits => s.reader.Holding? && S.Done(s.sender)
    case TakeResult => s.sender.phase.Windowed? && S.ReadDue(cfg.upload, s.sender) && s.channel != []
    case Receive => s.receiver.phase.Listening? && s.forward != []
    case Answer =>
      D.ReplyDue(s.receiver) && (|s.back| < cfg.backCapacity || (s.back == [] && ReplyAwaited(cfg, s)))
    case SenderFault(_) => !S.Done(s.sender)
    case ReaderFault => s.reader.Reading?
    case ReceiverFault => !D.Stopped(s.receiver)
  }

  /** The goroutine starts once a window is negotiated. */
  function Spawned(cfg: Config, reader: Reader, sender: S.State): Reader
    requires 0 < |cfg.upload.packets|
  {
    if reader.Unstarted? && sender.phase.Windowed? then Reading(|cfg.upload.packets| - 1) else reader
  }

  ghost function Next(cfg: Config, s: State, step: Step): State
    requires 0 < |cfg.upload.packets| && Enabled(cfg, s, step)
  {
    var u := cfg.upload;
    match step
    case Send =>
      s.(sender := S.AfterWrite(u, s.sender, true), forward := s.forward + [S.Outgoing(u, s.sender.next)])
    case TakeReply =>
      var sender := S.AfterRead(u, s.sender, S.Received(Some(s.back[0])));
      s.(sender := sender, back := s.back[1..], reader := Spawned(cfg, s.reader, sender))
    case ReaderTakes =>
      s.(reader := AfterReading(s.reader, S.Received(Some(s.back[0]))), back := s.back[1..])
    case ReaderDelivers =>
      s.(reader := AfterDelivery(s.reader), channel := s.channel + [s.reader.outcome])
    case ReaderQuits =>
      s.(reader := Exited)
    case TakeResult =>
      s.(sender := S.AfterRead(u, s.sender, s.channel[0]), channel := s.channel[1..])
    case Receive =>
      s.(receiver := D.Processed(cfg.lib, cfg.requested, s.receiver, Seen(cfg, s.forward[0])),
         forward := s.forward[1..])
    case Answer =>
      s.(receiver := D.Replied(s.receiver, true), back := s.back + [D.Reply(s.receiver)])
    case SenderFault(fault) =>
      s.(sender := if S.WriteDue(u, s.sender) then S.AfterWrite(u, s.sender, false)
                   else S.AfterRead(u, s.sender, S.Failing(fault)))
    case ReaderFault =>
      s.(reader := AfterReading(s.reader, S.Failing(S.StreamFailed)))
    case ReceiverFault =>
      s.(receiver := if D.ReplyDue(s.receiver) then D.Replied(s.receiver, false) else s.receiver.(phase := D.Broken))
  }

  // ---------- Runs ----------

  /** The state a run reaches; a step that is not enabled is skipped. */
  ghost function After(cfg: Config, steps: seq<Step>): State
    requires 0 < |cfg.upload.packets|
  {
    if steps == [] then Initial(cfg)
    else
      var before := After(cfg, steps[..|steps| - 1]);
      if Enabled(cfg, before, steps[|steps| - 1]) then Next(cfg, before, steps[|steps| - 1]) else before
  }

  ghost predicate Legal(cfg: Config, steps: seq<Step>)
    requires 0 < |cfg.upload.packets|
  {
    steps == [] ||
    (Legal(cfg, steps[..|steps| - 1]) && Enabled(cfg, After(cfg, steps[..|steps| - 1]), steps[|steps| - 1]))
  }

  predicate FaultFree(steps: seq<Step>) {
    forall k :: 0 <= k < |steps| ==> !IsFault(steps[k])
  }
}
