/** Where the sender may use a decoder per reply, and where it may not. */
module Handover {
  import opened Wire
  import opened Session
  import opened SessionSafety
  import opened Framing
  import C = Cbor
  import S = Sender
  import SR = SenderRuns
  import D = Download
  import RR = ReceiveRuns
  import WindowAck

  /** Each of these values has an encoding. */
  predicate Writable<T>(wire: T -> C.Item, values: seq<T>) {
    forall k :: 0 <= k < |values| ==> C.Encodable(wire(values[k]))
  }

  function Items<T>(wire: T -> C.Item, values: seq<T>): (items: seq<C.Item>)
    ensures |items| == |values| && forall k :: 0 <= k < |values| ==> items[k] == wire(values[k])
  {
    seq(|values|, k requires 0 <= k < |values| => wire(values[k]))
  }

  /** The sender is waiting for the root reply or for a stop-and-wait reply. */
  ghost predicate AwaitsOne(cfg: Config, s: State) {
    (s.sender.phase.Root? || s.sender.phase.Legacy?) && S.ReadDue(cfg.upload, s.sender)
  }

  function Outstanding(s: State): nat {
    |s.forward| + |s.back| + if D.ReplyDue(s.receiver) then 1 else 0
  }

  /** A receiver with a reply due has received a message it has not answered. */
  lemma PendingIsUnsent(r: D.Receiver)
    requires D.Accepts(r) && D.Acknowledges(r)
    ensures |r.sent| + (if D.ReplyDue(r) then 1 else 0) <= |r.received|
  {
    hide WindowAck.Encode;
  }

  /** Then at most one packet or reply is under way, so no byte beyond that reply can arrive. */
  lemma OneOutstanding(cfg: Config, s: State)
    requires Valid(cfg) && Inv(cfg, s) && AwaitsOne(cfg, s)
    ensures Outstanding(s) <= 1 && s.channel == [] && s.reader.Unstarted?
  {
    hide RR.Consistent, WindowAck.Encode, SR.WindowSafe;
    PendingIsUnsent(s.receiver);
  }

  lemma OneItem<T>(wire: T -> C.Item, value: T)
    requires C.Encodable(wire(value))
    ensures C.EncodeAll(Items(wire, [value])) == C.Encode(wire(value))
  {
    hide C.Encode;
    var items := Items(wire, [value]);
    assert items[1..] == [];
    assert C.Encode(items[0]) + [] == C.Encode(items[0]);
  }

  /** In every run, faults included: the decoder made for the root reply or a stop-and-wait reply returns that reply
      and, when it is dropped, holds nothing and leaves nothing behind, however the bytes are chunked. */
  lemma FreshReadersLoseNothing(cfg: Config, steps: seq<Step>, wire: Response -> C.Item, chunks: seq<seq<C.byte>>)
    requires Valid(cfg) && Writable(wire, After(cfg, steps).back)
    requires AwaitsOne(cfg, After(cfg, steps)) && After(cfg, steps).back != []
    requires Flat(chunks) == C.EncodeAll(Items(wire, After(cfg, steps).back))
    ensures Read([], chunks).result == Got(wire(After(cfg, steps).back[0]))
    ensures Read([], chunks).buffer == [] && Flat(Read([], chunks).chunks) == []
  {
    hide After, Inv, Read, C.Encode;
    ReachableInv(cfg, steps);
    OneOutstanding(cfg, After(cfg, steps));
    var x := wire(After(cfg, steps).back[0]);
    OneItem(wire, After(cfg, steps).back[0]);
    assert After(cfg, steps).back == [After(cfg, steps).back[0]];
    LoneEnvelopeIsSafe(x, chunks);
  }

  /** In the pipelined phase several messages can be in transit, and there either end keeps one reader: it hands on
      the oldest of them and leaves exactly the others. */
  lemma RetainedReaderKeepsOrder<T>(wire: T -> C.Item, values: seq<T>, buffer: seq<C.byte>, chunks: seq<seq<C.byte>>)
    requires Writable(wire, values) && values != []
    requires buffer + Flat(chunks) == C.EncodeAll(Items(wire, values))
    ensures var r := Read(buffer, chunks);
      r.result == Got(wire(values[0])) && r.buffer + Flat(r.chunks) == C.EncodeAll(Items(wire, values[1..]))
  {
    hide C.Encode, C.Decode, C.EncodeAll;
    ReadIgnoresChunks(buffer, chunks);
    NextItem(Items(wire, values), []);
    assert Items(wire, values)[1..] == Items(wire, values[1..]);
    assert C.EncodeAll(Items(wire, values)) + [] == C.EncodeAll(Items(wire, values));
    assert C.EncodeAll(Items(wire, values[1..])) + [] == C.EncodeAll(Items(wire, values[1..]));
  }

  /** Nothing comes out of a stream that holds nothing. */
  lemma NothingArrives(buffer: seq<C.byte>, chunks: seq<seq<C.byte>>)
    requires buffer + Flat(chunks) == []
    ensures Read(buffer, chunks).result == EndOfStream
  {
    ReadIgnoresChunks(buffer, chunks);
    assert C.Decode([]).NeedMore?;
  }
}
