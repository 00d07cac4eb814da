/** Reading envelopes off a byte stream whose reads return arbitrary chunks. */
module Framing {
  import opened Wire
  import opened Cbor
  import CborLayout

  datatype ReadResult = Got(item: Item) | EndOfStream | UnexpectedEnd | Undecodable

  /** The bytes the stream will still deliver. */
  function Flat(chunks: seq<seq<byte>>): seq<byte> {
    if chunks == [] then [] else chunks[0] + Flat(chunks[1..])
  }

  /** What one read from a decoder leaves behind: its result, the bytes it buffered beyond the item, and the chunks
      not yet read. */
  datatype Reading = Reading(result: ReadResult, buffer: seq<byte>, chunks: seq<seq<byte>>)

  function Verdict(buffer: seq<byte>, chunks: seq<seq<byte>>): Reading {
    match Decode(buffer)
    case Complete(x, used) => Reading(Got(x), buffer[used..], chunks)
    case Malformed => Reading(Undecodable, buffer, chunks)
    case NeedMore => Reading(if buffer == [] then EndOfStream else UnexpectedEnd, buffer, chunks)
  }

  /** Chunks are read only until the buffer holds an item, or cannot. */
  function Read(buffer: seq<byte>, chunks: seq<seq<byte>>): Reading
    decreases |chunks|
  {
    if Decode(buffer).NeedMore? && chunks != [] then Read(buffer + chunks[0], chunks[1..])
    else Verdict(buffer, chunks)
  }

  /** What a read makes of the bytes it may see, and what it leaves of them: the item they begin with a spelling of; or
      the end of the stream, exactly if there are none; or an end inside an item, or bytes that begin no item. */
  ghost predicate ReadsOff(pending: seq<byte>, result: ReadResult, left: seq<byte>) {
    match result
    case Got(x) =>
      |left| < |pending| && CborLayout.Spells(pending[..|pending| - |left|], x) && pending[|pending| - |left|..] == left
    case EndOfStream => pending == [] == left
    case UnexpectedEnd => pending != [] && CborLayout.Unfinished(pending) && left == pending
    case Undecodable => !CborLayout.Unfinished(pending) && !CborLayout.StartsItem(pending) && left == pending
  }

  lemma VerdictReadsOff(pending: seq<byte>)
    ensures ReadsOff(pending, Verdict(pending, []).result, Verdict(pending, []).buffer)
    ensures Decode([]).NeedMore?
  {
    NothingNeedsMore();
    hide Decode, CborLayout.Spells, CborLayout.Unfinished, CborLayout.StartsItem;
    CborLayout.NeedMoreExactly(pending);
    CborLayout.MalformedExactly(pending);
    var parsed := Decode(pending);
    if parsed.Complete? {
      CborLayout.CompleteExactly(pending, parsed.value, parsed.used);
    }
  }

  class ByteStream {
    var chunks: seq<seq<byte>>

    constructor (chunks: seq<seq<byte>>)
      ensures this.chunks == chunks
    {
      this.chunks := chunks;
    }

    /** One read: the next chunk, or the end of the stream. */
    method ReadChunk() returns (chunk: Option<seq<byte>>)
      modifies this
      ensures old(chunks) == [] ==> chunk == None && chunks == []
      ensures old(chunks) != [] ==> chunk == Some(old(chunks)[0]) && chunks == old(chunks)[1..]
    {
      if chunks == [] {
        return None;
      }
      chunk, chunks := Some(chunks[0]), chunks[1..];
    }
  }

  lemma VerdictStable(buffer: seq<byte>, more: seq<byte>)
    requires !Decode(buffer).NeedMore?
    ensures Verdict(buffer + more, []) == Reading(Verdict(buffer, []).result, Verdict(buffer, []).buffer + more, [])
  {
    hide Decode;
    Stable(buffer, more);
    var parsed := Decode(buffer);
    if parsed.Complete? {
      assert (buffer + more)[parsed.used..] == buffer[parsed.used..] + more;
    }
  }

  /** However the bytes are cut into chunks, and however far the decoder reads ahead, a retained reader yields what
      decoding all bytes at once would, and keeps every byte that follows. */
  lemma {:induction false} ReadIgnoresChunks(buffer: seq<byte>, chunks: seq<seq<byte>>)
    ensures var r := Read(buffer, chunks);
      var whole := Verdict(buffer + Flat(chunks), []);
      r.result == whole.result && r.buffer + Flat(r.chunks) == whole.buffer
    decreases |chunks|
  {
    if Decode(buffer).NeedMore? {
      if chunks == [] {
        assert buffer + Flat(chunks) == buffer;
      } else {
        ReadIgnoresChunks(buffer + chunks[0], chunks[1..]);
        assert buffer + chunks[0] + Flat(chunks[1..]) == buffer + Flat(chunks);
      }
    } else {
      VerdictStable(buffer, Flat(chunks));
    }
  }

  /** Keeps one decoder, and so its read-ahead, across a sequence of envelopes. */
  class MessageReader {
    const stream: ByteStream
    var buffer: seq<byte>

    constructor (stream: ByteStream)
      ensures this.stream == stream && buffer == []
    {
      this.stream, buffer := stream, [];
    }

    function Pending(): seq<byte>
      reads this, stream
    {
      buffer + Flat(stream.chunks)
    }

    method ReadEnvelope() returns (result: ReadResult)
      modifies this, stream
      ensures Reading(result, buffer, stream.chunks) == Read(old(buffer), old(stream.chunks))
      ensures result == Verdict(old(Pending()), []).result && Pending() == Verdict(old(Pending()), []).buffer
      ensures ReadsOff(old(Pending()), result, Pending())
    {
      hide ReadsOff;
      VerdictReadsOff(Pending());
      ReadIgnoresChunks(buffer, stream.chunks);
      while Decode(buffer).NeedMore?
        invariant Read(buffer, stream.chunks) == Read(old(buffer), old(stream.chunks))
        decreases |stream.chunks|
      {
        var chunk := stream.ReadChunk();
        if chunk.None? {
          return if buffer == [] then EndOfStream else UnexpectedEnd;
        }
        buffer := buffer + chunk.value;
      }
      var parsed := Decode(buffer);
      if parsed.Malformed? {
        return Undecodable;
      }
      buffer := buffer[parsed.used..];
      return Got(parsed.value);
    }
  }

  // ---------- Chunking does not matter ----------

  lemma FirstEncoded(items: seq<Item>, rest: seq<byte>)
    requires items != [] && forall i :: 0 <= i < |items| ==> Encodable(items[i])
    ensures EncodeAll(items) + rest == Encode(items[0]) + (EncodeAll(items[1..]) + rest)
  {
    hide Encode;
  }

  /** The next of the sent items comes out, and exactly the others stay. */
  lemma NextItem(items: seq<Item>, rest: seq<byte>)
    requires items != [] && forall i :: 0 <= i < |items| ==> Encodable(items[i])
    ensures Verdict(EncodeAll(items) + rest, []) == Reading(Got(items[0]), EncodeAll(items[1..]) + rest, [])
  {
    hide Decode, Encode, EncodeAll;
    var first, others := Encode(items[0]), EncodeAll(items[1..]);
    FirstEncoded(items, rest);
    RoundTrip(items[0], others + rest);
    assert (first + (others + rest))[|first|..] == others + rest;
  }

  /** The same with k items already out. */
  lemma NextOf(items: seq<Item>, rest: seq<byte>, k: nat)
    requires k < |items| && forall i :: 0 <= i < |items| ==> Encodable(items[i])
    ensures
      Verdict(EncodeAll(items[k..]) + rest, []) == Reading(Got(items[k]), EncodeAll(items[k + 1..]) + rest, [])
  {
    hide Decode, Encode, EncodeAll, Verdict;
    assert items[k..][1..] == items[k + 1..];
    NextItem(items[k..], rest);
  }

  lemma NoneLeft(items: seq<Item>, rest: seq<byte>)
    ensures items[|items|..] == [] && EncodeAll([]) + rest == rest && items[0..] == items
  {
  }

  /** One retained reader returns the items sent, in order, none lost, whatever the chunks. */
  method ReadSequence(reader: MessageReader, ghost items: seq<Item>, ghost rest: seq<byte>, count: nat)
    returns (results: seq<ReadResult>)
    requires count == |items| && forall i :: 0 <= i < |items| ==> Encodable(items[i])
    requires reader.Pending() == EncodeAll(items) + rest
    modifies reader, reader.stream
    ensures |results| == count && forall i :: 0 <= i < count ==> results[i] == Got(items[i])
    ensures reader.Pending() == rest
  {
    hide Decode, Encode, Encodable, EncodeAll, Flat, Read, Verdict, ReadsOff;
    NoneLeft(items, rest);
    results := [];
    for k := 0 to count
      invariant |results| == k && forall i :: 0 <= i < k ==> results[i] == Got(items[i])
      invariant reader.Pending() == EncodeAll(items[k..]) + rest
    {
      NextOf(items, rest, k);
      var result := reader.ReadEnvelope();
      results := results + [result];
    }
  }

  // ---------- A decoder per message ----------

  /** Reads one envelope with a decoder of its own; what the decoder read ahead is lost with it. */
  method ReadWithFreshReader(stream: ByteStream) returns (result: ReadResult, lost: seq<byte>)
    modifies stream
    ensures Reading(result, lost, stream.chunks) == Read([], old(stream.chunks))
  {
    var reader := new MessageReader(stream);
    result := reader.ReadEnvelope();
    lost := reader.buffer;
  }

  /** Some read ends exactly n bytes into the stream. */
  predicate ReadEndsAt(chunks: seq<seq<byte>>, n: nat) {
    exists j :: 0 <= j <= |chunks| && |Flat(chunks[..j])| == n
  }

  lemma {:induction false} FlatSplits(chunks: seq<seq<byte>>, j: nat)
    requires j <= |chunks|
    ensures Flat(chunks) == Flat(chunks[..j]) + Flat(chunks[j..])
  {
    if j > 0 {
      FlatSplits(chunks[1..], j - 1);
      assert chunks[..j][1..] == chunks[1..][..j - 1];
      assert chunks[1..][j - 1..] == chunks[j..];
    } else {
      assert chunks[0..] == chunks && Flat(chunks[..0]) == [];
    }
  }

  lemma CompletesHere(x: Item, rest: seq<byte>, buffer: seq<byte>, more: seq<byte>)
    requires Encodable(x) && buffer + more == Encode(x) + rest && |buffer| >= |Encode(x)|
    ensures Decode(buffer) == Complete(x, |Encode(x)|)
  {
    var extra := buffer[|Encode(x)|..];
    assert buffer == Encode(x) + extra by {
      assert (buffer + more)[..|buffer|] == (Encode(x) + rest)[..|buffer|];
    }
    RoundTrip(x, extra);
  }

  /** Past a first chunk that is too short, the same boundary is met further on. */
  lemma EndsLater(chunks: seq<seq<byte>>, n: nat)
    requires chunks != [] && |chunks[0]| < n
    ensures ReadEndsAt(chunks, n) <==> ReadEndsAt(chunks[1..], n - |chunks[0]|)
  {
    if ReadEndsAt(chunks, n) {
      var j :| 0 <= j <= |chunks| && |Flat(chunks[..j])| == n;
      assert j > 0;
      assert chunks[..j][1..] == chunks[1..][..j - 1];
    }
    if ReadEndsAt(chunks[1..], n - |chunks[0]|) {
      var j :| 0 <= j <= |chunks[1..]| && |Flat(chunks[1..][..j])| == n - |chunks[0]|;
      assert chunks[..j + 1][1..] == chunks[1..][..j];
    }
  }

  lemma EndsFirst(chunks: seq<seq<byte>>, n: nat)
    requires chunks != [] && |chunks[0]| >= n > 0
    ensures ReadEndsAt(chunks, n) <==> |chunks[0]| == n
  {
    if ReadEndsAt(chunks, n) {
      var j :| 0 <= j <= |chunks| && |Flat(chunks[..j])| == n;
      assert j > 0;
      assert chunks[..j][0] == chunks[0];
    }
    if |chunks[0]| == n {
      assert chunks[..1][1..] == [] && Flat(chunks[..1]) == chunks[0] + [];
    }
  }

  /** Reading on from a proper prefix of item x, the decoder stops at the first read that completes it. */
  lemma {:induction false} ReadStops(x: Item, rest: seq<byte>, buffer: seq<byte>, chunks: seq<seq<byte>>)
    requires Encodable(x) && buffer + Flat(chunks) == Encode(x) + rest && |buffer| < |Encode(x)|
    ensures var r := Read(buffer, chunks);
      && r.result == Got(x)
      && (r.buffer == [] <==> ReadEndsAt(chunks, |Encode(x)| - |buffer|))
    decreases |chunks|
  {
    var frame := Encode(x);
    assert buffer == frame[..|buffer|] by {
      assert (buffer + Flat(chunks))[..|buffer|] == (frame + rest)[..|buffer|];
    }
    PrefixNeedsMore(x, |buffer|);
    assert |buffer + Flat(chunks)| == |frame| + |rest|;
    var next := buffer + chunks[0];
    assert next + Flat(chunks[1..]) == frame + rest;
    if |next| < |frame| {
      ReadStops(x, rest, next, chunks[1..]);
      EndsLater(chunks, |frame| - |buffer|);
    } else {
      CompletesHere(x, rest, next, Flat(chunks[1..]));
      EndsFirst(chunks, |frame| - |buffer|);
      assert Read(buffer, chunks) == Read(next, chunks[1..]) == Verdict(next, chunks[1..]);
    }
  }

  /** Dropping the decoder after one envelope loses nothing exactly when some read ended where the envelope did. */
  lemma FreshReaderLosesNothingExactly(x: Item, rest: seq<byte>, chunks: seq<seq<byte>>)
    requires Encodable(x) && Flat(chunks) == Encode(x) + rest
    ensures Read([], chunks).result == Got(x)
    ensures Read([], chunks).buffer == [] <==> ReadEndsAt(chunks, |Encode(x)|)
  {
    assert [] + Flat(chunks) == Encode(x) + rest;
    ReadStops(x, rest, [], chunks);
  }

  /** With one envelope on the stream nothing can be lost. */
  lemma LoneEnvelopeIsSafe(x: Item, chunks: seq<seq<byte>>)
    requires Encodable(x) && Flat(chunks) == Encode(x)
    ensures Read([], chunks).result == Got(x) && Read([], chunks).buffer == [] && Flat(Read([], chunks).chunks) == []
  {
    assert Flat(chunks) == Encode(x) + [];
    FreshReaderLosesNothingExactly(x, [], chunks);
    assert chunks[..|chunks|] == chunks;
    ReadIgnoresChunks([], chunks);
    assert [] + Flat(chunks) == Encode(x) + [];
    RoundTrip(x, []);
  }

  /** Two envelopes that arrive in one read: a decoder per message swallows the second. */
  lemma PipelinedEnvelopeIsLost(x: Item, y: Item)
    requires Encodable(x) && Encodable(y)
    ensures Read([], [Encode(x) + Encode(y)]) == Reading(Got(x), Encode(y), [])
    ensures Encode(y) != []
  {
    var chunks := [Encode(x) + Encode(y)];
    assert [] + chunks[0] == Encode(x) + Encode(y) && chunks[1..] == [];
    RoundTrip(x, Encode(y));
    assert (Encode(x) + Encode(y))[|Encode(x)|..] == Encode(y);
    assert Decode([]).NeedMore?;
    assert Read([], chunks) == Read([] + chunks[0], chunks[1..]);
  }
}
