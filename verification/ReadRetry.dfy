/** The loop that reads one typed message, retrying what may be retried. */
module ReadRetry {
  import opened Cbor
  import opened Framing
  import opened Wire

  /** One attempt: no envelope could be read, an error envelope that could not or could be decoded, or a payload that
      could not or could be decoded. Errors are their texts. */
  datatype Attempt<+T> =
    | NoEnvelope(error: string)
    | ErrorUndecodable(error: string)
    | RemoteError(message: string)
    | PayloadUndecodable(error: string)
    | Message(value: T)

  /** Nothing is neither a message nor an error. */
  datatype Result<+T> = Returned(value: T) | Failed(cause: Attempt<T>) | Nothing

  predicate OccursAt(text: string, part: string, i: nat) {
    i + |part| <= |text| && text[i..i + |part|] == part
  }

  predicate Contains(text: string, part: string) {
    exists i :: 0 <= i <= |text| && OccursAt(text, part, i)
  }

  const TERMINAL_CONDITIONS := ["stream reset", "stream closed", "Application error 0x0", "connection reset", "EOF"]

  /** An error that says the stream is gone. */
  predicate IsTerminal(error: string) {
    exists k :: 0 <= k < |TERMINAL_CONDITIONS| && Contains(error, TERMINAL_CONDITIONS[k])
  }

  lemma OccursLater(prefix: string, text: string, part: string, i: nat)
    requires OccursAt(text, part, i)
    ensures OccursAt(prefix + text, part, |prefix| + i)
  {
    assert (prefix + text)[|prefix| + i..|prefix| + i + |part|] == text[i..i + |part|];
  }

  /** The text says that the stream is gone, in one of five ways, somewhere within it. */
  ghost predicate SaysGone(error: string, before: string, condition: string, after: string) {
    && condition in ["stream reset", "stream closed", "Application error 0x0", "connection reset", "EOF"]
    && error == before + condition + after
  }

  lemma TerminalExactly(error: string)
    ensures IsTerminal(error) <==> exists before, condition, after :: SaysGone(error, before, condition, after)
  {
    if IsTerminal(error) {
      var k :| 0 <= k < |TERMINAL_CONDITIONS| && Contains(error, TERMINAL_CONDITIONS[k]);
      var part := TERMINAL_CONDITIONS[k];
      var i: nat :| i <= |error| && OccursAt(error, part, i);
      assert SaysGone(error, error[..i], part, error[i + |part|..]);
    }
    if before, condition, after :| SaysGone(error, before, condition, after) {
      assert OccursAt(error, condition, |before|);
      assert Contains(error, condition);
      var k :| 0 <= k < |TERMINAL_CONDITIONS| && TERMINAL_CONDITIONS[k] == condition;
    }
  }

  /** Wrapping an error keeps it terminal, so an end of stream inside an envelope is not retried either. */
  lemma TerminalWhenWrapped(prefix: string, error: string)
    requires IsTerminal(error)
    ensures IsTerminal(prefix + error)
  {
    var k :| 0 <= k < |TERMINAL_CONDITIONS| && Contains(error, TERMINAL_CONDITIONS[k]);
    var part := TERMINAL_CONDITIONS[k];
    var i: nat :| i <= |error| && OccursAt(error, part, i);
    OccursLater(prefix, error, part, i);
    assert Contains(prefix + error, part);
  }

  /** A failed attempt after which the loop tries again, as long as it may. */
  predicate Retryable<T>(a: Attempt<T>) {
    match a
    case NoEnvelope(error) => !IsTerminal(error)
    case ErrorUndecodable(error) => !IsTerminal(error)
    case PayloadUndecodable(error) => !IsTerminal(error)
    case _ => false
  }

  function Concluded<T>(a: Attempt<T>): Result<T> {
    if a.Message? then Returned(a.value) else Failed(a)
  }

  /** The loop ended with attempt k: all before it could be retried, and it could not or was the last allowed. */
  ghost predicate EndsWith<T>(attempts: nat -> Attempt<T>, maxRetries: int, k: nat) {
    && k <= maxRetries
    && (forall j: nat :: j < k ==> Retryable(attempts(j)))
    && (Retryable(attempts(k)) ==> k == maxRetries)
  }

  /** How the loop turns out, having made this many attempts. */
  ghost predicate TurnsOut<T>(attempts: nat -> Attempt<T>, maxRetries: int, result: Result<T>, consumed: nat) {
    if maxRetries < 0 then result == Nothing && consumed == 0
    else consumed > 0 && EndsWith(attempts, maxRetries, consumed - 1) && result == Concluded(attempts(consumed - 1))
  }

  /** There is exactly one attempt the loop can end with. */
  lemma EndIsUnique<T>(attempts: nat -> Attempt<T>, maxRetries: int, k: nat, k': nat)
    requires EndsWith(attempts, maxRetries, k) && EndsWith(attempts, maxRetries, k')
    ensures k == k'
  {
  }

  /** The loop yields message v exactly when v is the first attempt that cannot be retried and comes within the
      allowed number; it yields neither message nor error exactly when no attempt is allowed. */
  lemma ResultExactly<T>(attempts: nat -> Attempt<T>, maxRetries: int, result: Result<T>, consumed: nat, v: T)
    requires TurnsOut(attempts, maxRetries, result, consumed)
    ensures result == Returned(v) <==>
      exists k: nat :: k <= maxRetries && attempts(k) == Message(v) && forall j: nat :: j < k ==> Retryable(attempts(j))
    ensures result == Nothing <==> maxRetries < 0
    ensures consumed <= if maxRetries < 0 then 0 else maxRetries + 1
  {
    if k: nat :| k <= maxRetries && attempts(k) == Message(v) && forall j: nat :: j < k ==> Retryable(attempts(j)) {
      assert EndsWith(attempts, maxRetries, k);
      EndIsUnique(attempts, maxRetries, k, consumed - 1);
    }
    if result == Returned(v) {
      assert attempts(consumed - 1) == Message(v);
    }
  }

  // ---------- Attempts on a reader ----------

  datatype Envelope = Envelope(kind: string, payload: Item)

  datatype Decoded<T> = Good(value: T) | Bad(error: string)

  /** What the Go types make of an item: its envelope, the text of an error payload, a payload of the wanted type; or
      the text of the error in its place. */
  datatype Schema<T> = Schema(
    envelope: Item -> Decoded<Envelope>,
    errorText: Item -> Decoded<string>,
    payload: Item -> Decoded<T>,
    syntaxError: string)

  /** How a reader's stream fares against the clock: so many reads complete in time, and the next does not; the texts
      are those of the time limit and of reading from the stream that is then closed. */
  datatype Clock = Clock(timely: nat, limit: string, closedError: string)

  const DECODING := "error decoding message: "
  const TIMED_OUT := "read operation timed out after "
  const UNINITIALISED := "message reader is not initialized"

  /** What one attempt makes of what the decoder returned. */
  function AttemptOn<T>(schema: Schema<T>, read: ReadResult): Attempt<T> {
    match read
    case EndOfStream => NoEnvelope("EOF")
    case UnexpectedEnd => NoEnvelope(DECODING + "unexpected EOF")
    case Undecodable => NoEnvelope(DECODING + schema.syntaxError)
    case Got(item) =>
      match schema.envelope(item)
      case Bad(error) => NoEnvelope(DECODING + error)
      case Good(envelope) =>
        if envelope.kind == "error" then
          match schema.errorText(envelope.payload)
          case Bad(error) => ErrorUndecodable(error)
          case Good(message) => RemoteError(message)
        else
          match schema.payload(envelope.payload)
          case Bad(error) => PayloadUndecodable(error)
          case Good(value) => Message(value)
  }

  /** Reading k times, and what a reader that holds this buffer then leaves. */
  function ReadTimes(buffer: seq<byte>, chunks: seq<seq<byte>>, k: nat): (left: (seq<byte>, seq<seq<byte>>)) {
    if k == 0 then (buffer, chunks)
    else
      var (b, c) := ReadTimes(buffer, chunks, k - 1);
      (Read(b, c).buffer, Read(b, c).chunks)
  }

  /** A read that takes too long closes the stream; later attempts find it closed. */
  function AttemptAt<T>(schema: Schema<T>, clock: Clock, buffer: seq<byte>, chunks: seq<seq<byte>>, k: nat):
    Attempt<T>
  {
    if k == clock.timely then NoEnvelope(TIMED_OUT + clock.limit)
    else if k > clock.timely then NoEnvelope(DECODING + clock.closedError)
    else
      var (b, c) := ReadTimes(buffer, chunks, k);
      AttemptOn(schema, Read(b, c).result)
  }

  function Attempts<T>(schema: Schema<T>, clock: Clock, buffer: seq<byte>, chunks: seq<seq<byte>>): nat -> Attempt<T> {
    (k: nat) => AttemptAt(schema, clock, buffer, chunks, k)
  }

  lemma AttemptStep<T>(schema: Schema<T>, clock: Clock, buffer: seq<byte>, chunks: seq<seq<byte>>, k: nat, b: seq<byte>,
                       c: seq<seq<byte>>)
    requires (b, c) == ReadTimes(buffer, chunks, k) && k < clock.timely
    ensures AttemptOn(schema, Read(b, c).result) == Attempts(schema, clock, buffer, chunks)(k)
    ensures (Read(b, c).buffer, Read(b, c).chunks) == ReadTimes(buffer, chunks, k + 1)
  {
    hide Read, AttemptOn;
  }

  lemma AttemptTooLate<T>(schema: Schema<T>, clock: Clock, buffer: seq<byte>, chunks: seq<seq<byte>>, k: nat)
    requires k >= clock.timely
    ensures Attempts(schema, clock, buffer, chunks)(k) ==
      NoEnvelope(if k == clock.timely then TIMED_OUT + clock.limit else DECODING + clock.closedError)
  {
    hide Read, AttemptOn;
  }

  /** The reader stands where it does after this many reads in time. */
  ghost predicate StandsAfter(reader: MessageReader, clock: Clock, buffer: seq<byte>, chunks: seq<seq<byte>>, k: nat)
    reads reader, reader.stream
  {
    k <= clock.timely ==> (reader.buffer, reader.stream.chunks) == ReadTimes(buffer, chunks, k)
  }

  lemma StartOfReads(reader: MessageReader, clock: Clock, buffer: seq<byte>, chunks: seq<seq<byte>>)
    requires (reader.buffer, reader.stream.chunks) == (buffer, chunks)
    ensures StandsAfter(reader, clock, buffer, chunks, 0)
  {
  }

  /** One attempt: a read that completes in time, or one that takes too long, or one from the stream then closed. */
  method MakeAttempt<T>(reader: MessageReader, schema: Schema<T>, clock: Clock, attempt: nat, ghost buffer: seq<byte>,
                        ghost chunks: seq<seq<byte>>)
    returns (outcome: Attempt<T>)
    requires StandsAfter(reader, clock, buffer, chunks, attempt)
    modifies reader, reader.stream
    ensures outcome == Attempts(schema, clock, buffer, chunks)(attempt)
    ensures StandsAfter(reader, clock, buffer, chunks, attempt + 1)
  {
    hide Read, ReadTimes, Attempts, AttemptOn, Verdict, Flat;
    if attempt < clock.timely {
      AttemptStep(schema, clock, buffer, chunks, attempt, reader.buffer, reader.stream.chunks);
      var read := reader.ReadEnvelope();
      outcome := AttemptOn(schema, read);
    } else {
      AttemptTooLate(schema, clock, buffer, chunks, attempt);
      outcome := NoEnvelope(if attempt == clock.timely then TIMED_OUT + clock.limit else DECODING + clock.closedError);
    }
  }

  /** The loop over the attempts; each goes on where the last one left the reader. */
  method ReadWithRetries<T>(reader: MessageReader, schema: Schema<T>, clock: Clock, maxRetries: int)
    returns (result: Result<T>, ghost consumed: nat)
    modifies reader, reader.stream
    ensures
      var attempts := Attempts(schema, clock, old(reader.buffer), old(reader.stream.chunks));
      TurnsOut(attempts, maxRetries, result, consumed)
    ensures StandsAfter(reader, clock, old(reader.buffer), old(reader.stream.chunks), consumed)
  {
    hide StandsAfter, Attempts, IsTerminal;
    ghost var buffer, chunks := reader.buffer, reader.stream.chunks;
    ghost var attempts := Attempts(schema, clock, buffer, chunks);
    StartOfReads(reader, clock, buffer, chunks);
    consumed := 0;
    var attempt := 0;
    while attempt <= maxRetries
      invariant 0 <= attempt == consumed
      invariant if maxRetries < 0 then consumed == 0 else attempt <= maxRetries
      invariant forall j: nat :: j < consumed ==> Retryable(attempts(j))
      invariant StandsAfter(reader, clock, buffer, chunks, consumed)
    {
      var outcome := MakeAttempt(reader, schema, clock, attempt, buffer, chunks);
      consumed := consumed + 1;
      match outcome {
        case NoEnvelope(error) =>
          if IsTerminal(error) || maxRetries == 0 || attempt == maxRetries {
            return Failed(outcome), consumed;
          }
        case ErrorUndecodable(error) =>
          if IsTerminal(error) || maxRetries == 0 || attempt == maxRetries {
            return Failed(outcome), consumed;
          }
        case RemoteError(message) =>
          return Failed(outcome), consumed;
        case PayloadUndecodable(error) =>
          if IsTerminal(error) || maxRetries == 0 || attempt == maxRetries {
            return Failed(outcome), consumed;
          }
        case Message(value) =>
          return Returned(value), consumed;
      }
      attempt := attempt + 1;
    }
    return Nothing, consumed;
  }

  /** Reads one message of the wanted type; an uninitialised reader is turned away first. */
  method ReadMessageFromReader<T>(reader: MessageReader?, schema: Schema<T>, clock: Clock, maxRetries: int)
    returns (result: Result<T>, ghost consumed: nat)
    modifies if reader == null then {} else {reader, reader.stream}
    ensures reader == null ==>
      result == Failed(NoEnvelope("message reader is not initialized")) && consumed == 0
    ensures reader != null ==>
      var attempts := Attempts(schema, clock, old(reader.buffer), old(reader.stream.chunks));
      && TurnsOut(attempts, maxRetries, result, consumed)
      && StandsAfter(reader, clock, old(reader.buffer), old(reader.stream.chunks), consumed)
  {
    if reader == null {
      return Failed(NoEnvelope(UNINITIALISED)), 0;
    }
    result, consumed := ReadWithRetries(reader, schema, clock, maxRetries);
  }

  // ---------- On a stream of envelopes ----------

  /** Reading k of the sent items leaves the others. */
  lemma {:induction false} ReadTimesOnItems(items: seq<Item>, rest: seq<byte>, buffer: seq<byte>,
                                            chunks: seq<seq<byte>>, k: nat)
    requires forall i :: 0 <= i < |items| ==> Encodable(items[i])
    requires k <= |items| && buffer + Flat(chunks) == EncodeAll(items) + rest
    ensures var (b, c) := ReadTimes(buffer, chunks, k); b + Flat(c) == EncodeAll(items[k..]) + rest
    ensures forall j: nat :: j < k ==>
      var (b, c) := ReadTimes(buffer, chunks, j); Read(b, c).result == Got(items[j])
  {
    hide Read, EncodeAll;
    if k == 0 {
      assert items[0..] == items;
    } else {
      ReadTimesOnItems(items, rest, buffer, chunks, k - 1);
      var (b, c) := ReadTimes(buffer, chunks, k - 1);
      ReadIgnoresChunks(b, c);
      NextItem(items[k - 1..], rest);
      assert items[k - 1..][1..] == items[k..];
    }
  }

  /** The item is an envelope of another kind than "error" with this value as its payload. */
  predicate Carries<T(==)>(schema: Schema<T>, item: Item, value: T) {
    var envelope := schema.envelope(item);
    envelope.Good? && envelope.value.kind != "error" && schema.payload(envelope.value.payload) == Good(value)
  }

  /** The item is an error envelope with this text. */
  predicate TellsError<T>(schema: Schema<T>, item: Item, text: string) {
    var envelope := schema.envelope(item);
    envelope.Good? && envelope.value.kind == "error" && schema.errorText(envelope.value.payload) == Good(text)
  }

  /** The item is no envelope, or its payload is not what its kind says; and the error does not end the stream. */
  predicate Skippable<T>(schema: Schema<T>, item: Item) {
    match schema.envelope(item)
    case Bad(error) => !IsTerminal("error decoding message: " + error)
    case Good(envelope) =>
      if envelope.kind == "error" then
        schema.errorText(envelope.payload).Bad? && !IsTerminal(schema.errorText(envelope.payload).error)
      else
        schema.payload(envelope.payload).Bad? && !IsTerminal(schema.payload(envelope.payload).error)
  }

  /** What an attempt makes of an item, told by the schema alone. */
  lemma AttemptOnItem<T>(schema: Schema<T>, item: Item, value: T, text: string)
    ensures AttemptOn(schema, Got(item)) == Message(value) <==> Carries(schema, item, value)
    ensures AttemptOn(schema, Got(item)) == RemoteError(text) <==> TellsError(schema, item, text)
    ensures Retryable(AttemptOn(schema, Got(item))) <==> Skippable(schema, item)
  {
    hide IsTerminal;
  }

  /** Attempt k reads the sent item k, while there is one and reads complete in time. */
  lemma AttemptReadsItem<T>(schema: Schema<T>, clock: Clock, items: seq<Item>, rest: seq<byte>, buffer: seq<byte>,
                            chunks: seq<seq<byte>>, k: nat)
    requires forall i :: 0 <= i < |items| ==> Encodable(items[i])
    requires buffer + Flat(chunks) == EncodeAll(items) + rest && k < |items| && k < clock.timely
    ensures Attempts(schema, clock, buffer, chunks)(k) == AttemptOn(schema, Got(items[k]))
    ensures var (b, c) := ReadTimes(buffer, chunks, k + 1); b + Flat(c) == EncodeAll(items[k + 1..]) + rest
  {
    hide Read, EncodeAll, AttemptOn;
    ReadTimesOnItems(items, rest, buffer, chunks, k + 1);
  }

  /** A message whose type does not fit is skipped: however the bytes are cut, the loop returns the first of the sent
      envelopes that fits, if all before it could be retried and are few enough, and leaves exactly those after it. */
  lemma SkipsToFirstFitting<T>(schema: Schema<T>, clock: Clock, items: seq<Item>, rest: seq<byte>, buffer: seq<byte>,
                               chunks: seq<seq<byte>>, maxRetries: int, result: Result<T>, consumed: nat, n: nat, v: T)
    requires forall i :: 0 <= i < |items| ==> Encodable(items[i])
    requires buffer + Flat(chunks) == EncodeAll(items) + rest
    requires TurnsOut(Attempts(schema, clock, buffer, chunks), maxRetries, result, consumed)
    requires n < |items| && n <= maxRetries && n < clock.timely && Carries(schema, items[n], v)
    requires forall j :: 0 <= j < n ==> Skippable(schema, items[j])
    ensures result == Returned(v) && consumed == n + 1
    ensures var (b, c) := ReadTimes(buffer, chunks, consumed); b + Flat(c) == EncodeAll(items[n + 1..]) + rest
  {
    hide Read, EncodeAll, Attempts, AttemptOn, ReadTimes, Skippable, Carries;
    var attempts := Attempts(schema, clock, buffer, chunks);
    AttemptReadsItem(schema, clock, items, rest, buffer, chunks, n);
    AttemptOnItem(schema, items[n], v, "");
    forall j: nat | j < n
      ensures Retryable(attempts(j))
    {
      AttemptReadsItem(schema, clock, items, rest, buffer, chunks, j);
      AttemptOnItem(schema, items[j], v, "");
    }
    assert EndsWith(attempts, maxRetries, n);
    EndIsUnique(attempts, maxRetries, n, consumed - 1);
  }

  lemma TextOfItem<T>(schema: Schema<T>, item: Item, text: string)
    requires TellsError(schema, item, text)
    ensures AttemptOn(schema, Got(item)) == RemoteError(text)
  {
  }

  lemma RetryOfItem<T>(schema: Schema<T>, item: Item)
    ensures Retryable(AttemptOn(schema, Got(item))) <==> Skippable(schema, item)
  {
    hide IsTerminal;
  }

  /** An error envelope ends the loop at once with its text, even if its payload could be read as a message. */
  lemma RemoteErrorEnds<T>(schema: Schema<T>, clock: Clock, items: seq<Item>, rest: seq<byte>, buffer: seq<byte>,
                           chunks: seq<seq<byte>>, maxRetries: int, result: Result<T>, consumed: nat, n: nat,
                           text: string)
    requires forall i :: 0 <= i < |items| ==> Encodable(items[i])
    requires buffer + Flat(chunks) == EncodeAll(items) + rest
    requires TurnsOut(Attempts(schema, clock, buffer, chunks), maxRetries, result, consumed)
    requires n < |items| && n <= maxRetries && n < clock.timely && TellsError(schema, items[n], text)
    requires forall j :: 0 <= j < n ==> Skippable(schema, items[j])
    ensures result == Failed(RemoteError(text)) && consumed == n + 1
  {
    hide Read, EncodeAll, Attempts, AttemptOn, ReadTimes, Skippable, TellsError;
    var attempts := Attempts(schema, clock, buffer, chunks);
    AttemptReadsItem(schema, clock, items, rest, buffer, chunks, n);
    TextOfItem(schema, items[n], text);
    forall j: nat | j < n
      ensures Retryable(attempts(j))
    {
      AttemptReadsItem(schema, clock, items, rest, buffer, chunks, j);
      RetryOfItem(schema, items[j]);
    }
    assert EndsWith(attempts, maxRetries, n);
    EndIsUnique(attempts, maxRetries, n, consumed - 1);
  }

  lemma ContainsEnd(prefix: string, part: string)
    ensures Contains(prefix + part, part)
  {
    assert OccursAt(prefix + part, part, |prefix|);
  }

  lemma EndIsTerminal()
    ensures IsTerminal("EOF") && IsTerminal(DECODING + "unexpected EOF")
  {
    ContainsEnd("", TERMINAL_CONDITIONS[4]);
    ContainsEnd(DECODING + "unexpected ", TERMINAL_CONDITIONS[4]);
    assert "" + "EOF" == "EOF";
    assert DECODING + "unexpected " + "EOF" == DECODING + "unexpected EOF";
  }

  /** After the last item a read in time finds the end of the stream. */
  lemma EndAfterItems<T>(schema: Schema<T>, clock: Clock, items: seq<Item>, buffer: seq<byte>, chunks: seq<seq<byte>>)
    requires forall i :: 0 <= i < |items| ==> Encodable(items[i])
    requires buffer + Flat(chunks) == EncodeAll(items) + [] && |items| < clock.timely
    ensures var a := Attempts(schema, clock, buffer, chunks)(|items|); !a.Message? && !Retryable(a)
  {
    var (b, c) := ReadTimes(buffer, chunks, |items|);
    ReadTimesOnItems(items, [], buffer, chunks, |items|);
    assert items[|items|..] == [];
    assert b + Flat(c) == [];
    ReadIgnoresChunks(b, c);
    VerdictReadsOff([]);
    EndIsTerminal();
    hide Read, IsTerminal, EncodeAll;
  }

  /** After a read that took too long no message is returned any more, even if the loop tries again. */
  lemma NoMessageAfterTimeout<T>(schema: Schema<T>, clock: Clock, buffer: seq<byte>, chunks: seq<seq<byte>>,
                                 maxRetries: int, result: Result<T>, consumed: nat)
    requires TurnsOut(Attempts(schema, clock, buffer, chunks), maxRetries, result, consumed)
    ensures result.Returned? ==> consumed <= clock.timely
  {
    if maxRetries >= 0 && consumed > clock.timely {
      AttemptTooLate(schema, clock, buffer, chunks, consumed - 1);
    }
  }

  lemma ReturnedIsCarried<T>(schema: Schema<T>, clock: Clock, items: seq<Item>, buffer: seq<byte>,
                             chunks: seq<seq<byte>>, maxRetries: int, result: Result<T>, consumed: nat, v: T)
    requires forall i :: 0 <= i < |items| ==> Encodable(items[i])
    requires buffer + Flat(chunks) == EncodeAll(items) + []
    requires TurnsOut(Attempts(schema, clock, buffer, chunks), maxRetries, result, consumed) && result == Returned(v)
    ensures 0 < consumed <= |items| && consumed - 1 <= maxRetries && consumed <= clock.timely
    ensures Carries(schema, items[consumed - 1], v)
    ensures forall j :: 0 <= j < consumed - 1 ==> Skippable(schema, items[j])
  {
    hide Read, EncodeAll, Attempts, AttemptOn, ReadTimes, Skippable, Carries;
    var attempts := Attempts(schema, clock, buffer, chunks);
    NoMessageAfterTimeout(schema, clock, buffer, chunks, maxRetries, result, consumed);
    if consumed > |items| {
      EndAfterItems(schema, clock, items, buffer, chunks);
    } else {
      AttemptReadsItem(schema, clock, items, [], buffer, chunks, consumed - 1);
      AttemptOnItem(schema, items[consumed - 1], v, "");
      forall j | 0 <= j < consumed - 1
        ensures Skippable(schema, items[j])
      {
        AttemptReadsItem(schema, clock, items, [], buffer, chunks, j);
        AttemptOnItem(schema, items[j], v, "");
        assert Retryable(attempts(j));
      }
    }
  }

  /** On a stream of envelopes the loop returns v exactly if v is carried by one that is reached in time and within the
      allowed attempts, all before it being skippable. */
  lemma ReturnsExactly<T>(schema: Schema<T>, clock: Clock, items: seq<Item>, buffer: seq<byte>,
                          chunks: seq<seq<byte>>, maxRetries: int, result: Result<T>, consumed: nat, v: T)
    requires forall i :: 0 <= i < |items| ==> Encodable(items[i])
    requires buffer + Flat(chunks) == EncodeAll(items)
    requires TurnsOut(Attempts(schema, clock, buffer, chunks), maxRetries, result, consumed)
    ensures result == Returned(v) <==>
      exists n: nat ::
        && n < |items| && n <= maxRetries && n < clock.timely && Carries(schema, items[n], v)
        && forall j :: 0 <= j < n ==> Skippable(schema, items[j])
  {
    hide Read, EncodeAll, Attempts, AttemptOn, ReadTimes, Skippable, Carries;
    assert EncodeAll(items) + [] == EncodeAll(items);
    if n: nat :|
      && n < |items| && n <= maxRetries && n < clock.timely && Carries(schema, items[n], v)
      && forall j :: 0 <= j < n ==> Skippable(schema, items[j])
    {
      SkipsToFirstFitting(schema, clock, items, [], buffer, chunks, maxRetries, result, consumed, n, v);
    }
    if result == Returned(v) {
      ReturnedIsCarried(schema, clock, items, buffer, chunks, maxRetries, result, consumed, v);
    }
  }

  /** The cause of a failed attempt on this item, told by the schema alone. */
  predicate Spoils<T>(schema: Schema<T>, item: Item, cause: Attempt<T>) {
    var envelope := schema.envelope(item);
    match cause
    case NoEnvelope(error) => envelope.Bad? && error == "error decoding message: " + envelope.error
    case ErrorUndecodable(error) =>
      envelope.Good? && envelope.value.kind == "error" && schema.errorText(envelope.value.payload) == Bad(error)
    case RemoteError(text) => TellsError(schema, item, text)
    case PayloadUndecodable(error) =>
      && envelope.Good? && envelope.value.kind != "error" && schema.payload(envelope.value.payload).Bad?
      && schema.payload(envelope.value.payload).error == error
    case Message(_) => false
  }

  lemma FailureOnItem<T>(schema: Schema<T>, item: Item, cause: Attempt<T>)
    requires AttemptOn(schema, Got(item)) == cause && !cause.Message?
    ensures Spoils(schema, item, cause)
  {
  }

  /** The error returned is that of the last attempt: what is wrong with the item it read, or the time limit it
      exceeded, or the stream it found closed. */
  lemma FailureTold<T>(schema: Schema<T>, clock: Clock, items: seq<Item>, rest: seq<byte>, buffer: seq<byte>,
                       chunks: seq<seq<byte>>, maxRetries: int, result: Result<T>, consumed: nat)
    requires forall i :: 0 <= i < |items| ==> Encodable(items[i])
    requires buffer + Flat(chunks) == EncodeAll(items) + rest
    requires TurnsOut(Attempts(schema, clock, buffer, chunks), maxRetries, result, consumed) && result.Failed?
    ensures consumed > 0
    ensures consumed <= |items| && consumed <= clock.timely ==> Spoils(schema, items[consumed - 1], result.cause)
    ensures consumed == clock.timely + 1 ==>
      result.cause == NoEnvelope("read operation timed out after " + clock.limit)
    ensures consumed > clock.timely + 1 ==>
      result.cause == NoEnvelope("error decoding message: " + clock.closedError)
  {
    hide Read, EncodeAll, Encodable, Attempts, AttemptOn, ReadTimes, Spoils, IsTerminal, Retryable, EndsWith;
    if consumed > clock.timely {
      AttemptTooLate(schema, clock, buffer, chunks, consumed - 1);
    } else if consumed <= |items| {
      AttemptReadsItem(schema, clock, items, rest, buffer, chunks, consumed - 1);
      FailureOnItem(schema, items[consumed - 1], result.cause);
    }
  }

  lemma AttemptAtEnd<T>(schema: Schema<T>, pending: seq<byte>)
    requires Decode(pending).NeedMore?
    ensures var error := if pending == [] then "EOF" else "error decoding message: unexpected EOF";
      AttemptOn(schema, Verdict(pending, []).result) == NoEnvelope(error) && IsTerminal(error)
  {
    hide Decode, IsTerminal;
    EndIsTerminal();
  }

  /** The end of the stream is never retried, neither between envelopes nor inside one. */
  lemma EndIsFinal<T>(schema: Schema<T>, clock: Clock, buffer: seq<byte>, chunks: seq<seq<byte>>, maxRetries: int,
                      result: Result<T>, consumed: nat)
    requires TurnsOut(Attempts(schema, clock, buffer, chunks), maxRetries, result, consumed)
    requires maxRetries >= 0 && clock.timely > 0
    requires Decode(buffer + Flat(chunks)).NeedMore?
    ensures consumed == 1 && result.Failed? && result.cause.NoEnvelope? && IsTerminal(result.cause.error)
    ensures result.cause.error ==
      if buffer + Flat(chunks) == [] then "EOF" else "error decoding message: unexpected EOF"
  {
    var attempts := Attempts(schema, clock, buffer, chunks);
    ReadIgnoresChunks(buffer, chunks);
    AttemptAtEnd(schema, buffer + Flat(chunks));
    AttemptStep(schema, clock, buffer, chunks, 0, buffer, chunks);
    hide Read, Decode, Verdict, ReadTimes, Attempts, AttemptOn, IsTerminal, Flat;
    assert EndsWith(attempts, maxRetries, 0);
    EndIsUnique(attempts, maxRetries, 0, consumed - 1);
  }

  /** And the loop does try again, if it may, on the stream it has just closed. */
  lemma TimeoutIsRetried<T>(schema: Schema<T>, clock: Clock, buffer: seq<byte>, chunks: seq<seq<byte>>,
                            maxRetries: int, result: Result<T>, consumed: nat)
    requires TurnsOut(Attempts(schema, clock, buffer, chunks), maxRetries, result, consumed)
    requires clock.timely == 0 < maxRetries && !IsTerminal(TIMED_OUT + clock.limit)
    ensures consumed > 1 && result.Failed?
    ensures IsTerminal(DECODING + clock.closedError) ==>
      consumed == 2 && result == Failed(NoEnvelope(DECODING + clock.closedError))
  {
    hide IsTerminal;
    var attempts := Attempts(schema, clock, buffer, chunks);
    AttemptTooLate(schema, clock, buffer, chunks, 0);
    AttemptTooLate(schema, clock, buffer, chunks, 1);
    AttemptTooLate(schema, clock, buffer, chunks, consumed - 1);
    if IsTerminal(DECODING + clock.closedError) {
      assert EndsWith(attempts, maxRetries, 1);
      EndIsUnique(attempts, maxRetries, 1, consumed - 1);
    }
  }
}
