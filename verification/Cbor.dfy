/** CBOR data items and their encoding (RFC 8949, section 3). */
module Cbor {
  type byte = b: int | 0 <= b < 256

  /** Entries holds the keys and values of a map alternately. The bits of a float of this many bytes are left as they
      are; the chunks of a string of indefinite length are joined. */
  datatype Item =
    | Unsigned(n: nat)
    | Negative(n: nat)
    | Bytes(bytes: seq<byte>)
    | Text(utf8: seq<byte>)
    | Array(items: seq<Item>)
    | Map(entries: seq<Item>)
    | Tagged(tag: nat, content: Item)
    | Simple(code: nat)
    | Float(width: nat, bits: nat)

  /** Used counts the bytes the value took. NeedMore asks for bytes beyond the end. */
  datatype Parsed<+T> = Complete(value: T, used: nat) | NeedMore | Malformed

  // ---------- Heads ----------

  /** Major type, additional information, and the argument these announce. */
  datatype Head = Head(major: nat, info: nat, argument: nat)

  const INDEFINITE := 31

  function BigEndian(bytes: seq<byte>): nat {
    if bytes == [] then 0 else 256 * BigEndian(bytes[..|bytes| - 1]) + bytes[|bytes| - 1]
  }

  function Bytewise(n: nat, width: nat): (bytes: seq<byte>)
    ensures |bytes| == width
  {
    if width == 0 then [] else Bytewise(n / 256, width - 1) + [n % 256]
  }

  function Pow256(width: nat): nat {
    if width == 0 then 1 else 256 * Pow256(width - 1)
  }

  const MAX_ARGUMENT := 0x1_0000_0000_0000_0000

  /** The additional information that announces an argument of this many bytes. */
  function WidthOf(info: nat): nat
    requires info < 28
  {
    if info < 24 then 0 else if info == 24 then 1 else if info == 25 then 2 else if info == 26 then 4 else 8
  }

  /** The shortest additional information for an argument. */
  function InfoFor(argument: nat): (info: nat)
    requires argument < MAX_ARGUMENT
    ensures info < 28
  {
    if argument < 24 then argument
    else if argument < 0x100 then 24
    else if argument < 0x1_0000 then 25
    else if argument < 0x1_0000_0000 then 26
    else 27
  }

  /** The argument is the information itself, or fits the bytes it announces. */
  predicate ValidHead(h: Head) {
    h.major < 8 && h.info < 28 && (if h.info < 24 then h.argument == h.info else h.argument < Pow256(WidthOf(h.info)))
  }

  /** The shortest head for an argument. */
  function HeadFor(major: nat, argument: nat): Head
    requires argument < MAX_ARGUMENT
  {
    Head(major, InfoFor(argument), argument)
  }

  function EncodeHead(h: Head): seq<byte>
    requires ValidHead(h)
  {
    [32 * h.major + h.info] + Bytewise(h.argument, WidthOf(h.info))
  }

  /** Three values of the additional information are reserved. */
  function DecodeHead(bytes: seq<byte>): (p: Parsed<Head>)
    ensures p.Complete? ==> 1 <= p.used <= |bytes|
  {
    if bytes == [] then NeedMore
    else
      var major, info := bytes[0] / 32, bytes[0] % 32;
      if info == INDEFINITE then Complete(Head(major, info, 0), 1)
      else if info >= 28 then Malformed
      else
        var width := WidthOf(info);
        if |bytes| < 1 + width then NeedMore
        else Complete(Head(major, info, if width == 0 then info else BigEndian(bytes[1..1 + width])), 1 + width)
  }

  // ---------- Items ----------

  predicate Encodable(x: Item) {
    match x
    case Unsigned(n) => n < MAX_ARGUMENT
    case Negative(n) => n < MAX_ARGUMENT
    case Bytes(bytes) => |bytes| < MAX_ARGUMENT
    case Text(utf8) => |utf8| < MAX_ARGUMENT
    case Array(items) => |items| < MAX_ARGUMENT && forall i :: 0 <= i < |items| ==> Encodable(items[i])
    case Map(entries) =>
      |entries| % 2 == 0 && |entries| / 2 < MAX_ARGUMENT && forall i :: 0 <= i < |entries| ==> Encodable(entries[i])
    case Tagged(tag, content) => tag < MAX_ARGUMENT && Encodable(content)
    case Simple(code) => code < 24 || 32 <= code < 256
    case Float(width, bits) => (width == 2 || width == 4 || width == 8) && bits < Pow256(width)
  }

  function HeadOf(x: Item): (h: Head)
    requires Encodable(x)
  {
    match x
    case Unsigned(n) => HeadFor(0, n)
    case Negative(n) => HeadFor(1, n)
    case Bytes(bytes) => HeadFor(2, |bytes|)
    case Text(utf8) => HeadFor(3, |utf8|)
    case Array(items) => HeadFor(4, |items|)
    case Map(entries) => HeadFor(5, |entries| / 2)
    case Tagged(tag, _) => HeadFor(6, tag)
    case Simple(code) => Head(7, if code < 24 then code else 24, code)
    case Float(width, bits) => Head(7, if width == 2 then 25 else if width == 4 then 26 else 27, bits)
  }

  lemma ArgumentFits(argument: nat)
    requires 24 <= argument < MAX_ARGUMENT
    ensures argument < Pow256(WidthOf(InfoFor(argument)))
  {
    assert Pow256(1) == 0x100;
    assert Pow256(2) == 0x1_0000;
    assert Pow256(4) == 0x1_0000_0000 by { assert Pow256(3) == 0x100_0000; }
    assert Pow256(8) == MAX_ARGUMENT by {
      assert Pow256(5) == 0x100_0000_0000 by {
        assert Pow256(4) == 0x1_0000_0000 by { assert Pow256(3) == 0x100_0000; }
      }
      assert Pow256(7) == 0x100_0000_0000_0000 by { assert Pow256(6) == 0x1_0000_0000_0000; }
    }
  }

  lemma ShortestIsValid(major: nat, argument: nat)
    requires major < 8 && argument < MAX_ARGUMENT
    ensures ValidHead(HeadFor(major, argument))
  {
    hide Pow256;
    if argument >= 24 {
      ArgumentFits(argument);
    }
  }

  lemma HeadIsValid(x: Item)
    requires Encodable(x)
    ensures ValidHead(HeadOf(x))
  {
    assert Pow256(1) == 0x100;
    hide Pow256, HeadFor;
    match x
    case Simple(_) =>
    case Float(_, _) =>
    case Unsigned(n) => ShortestIsValid(0, n);
    case Negative(n) => ShortestIsValid(1, n);
    case Bytes(bytes) => ShortestIsValid(2, |bytes|);
    case Text(utf8) => ShortestIsValid(3, |utf8|);
    case Array(items) => ShortestIsValid(4, |items|);
    case Map(entries) => ShortestIsValid(5, |entries| / 2);
    case Tagged(tag, _) => ShortestIsValid(6, tag);
  }

  function Body(x: Item): seq<byte>
    requires Encodable(x)
    decreases x, 0
  {
    match x
    case Bytes(bytes) => bytes
    case Text(utf8) => utf8
    case Array(items) => EncodeAll(items)
    case Map(entries) => EncodeAll(entries)
    case Tagged(_, content) => Encode(content)
    case _ => []
  }

  function Encode(x: Item): (bytes: seq<byte>)
    requires Encodable(x)
    decreases x, 1
  {
    HeadIsValid(x);
    EncodeHead(HeadOf(x)) + Body(x)
  }

  function EncodeAll(items: seq<Item>): seq<byte>
    requires forall i :: 0 <= i < |items| ==> Encodable(items[i])
    decreases items
  {
    if items == [] then [] else Encode(items[0]) + EncodeAll(items[1..])
  }

  function Wrapped<T>(p: Parsed<T>, make: T -> Item, used: nat): Parsed<Item> {
    match p
    case NeedMore => NeedMore
    case Malformed => Malformed
    case Complete(value, more) => Complete(make(value), used + more)
  }

  /** So many bytes off the front. */
  function Taken(bytes: seq<byte>, count: nat): (p: Parsed<seq<byte>>)
    ensures p.Complete? ==> p.used == count <= |bytes|
  {
    if |bytes| < count then NeedMore else Complete(bytes[..count], count)
  }

  /** The chunks of a string of indefinite length, each of definite length and of the same major type, and the break
      that ends them. */
  function DecodeChunks(bytes: seq<byte>, major: nat): (p: Parsed<seq<byte>>)
    ensures p.Complete? ==> 1 <= p.used <= |bytes|
    decreases |bytes|
  {
    if bytes == [] then NeedMore
    else if bytes[0] == 0xFF then Complete([], 1)
    else if bytes[0] / 32 != major || bytes[0] % 32 == INDEFINITE then Malformed
    else
      match DecodeHead(bytes)
      case NeedMore => NeedMore
      case Malformed => Malformed
      case Complete(h, used) =>
        if |bytes| - used < h.argument then NeedMore
        else
          match DecodeChunks(bytes[used + h.argument..], major)
          case NeedMore => NeedMore
          case Malformed => Malformed
          case Complete(others, more) =>
            Complete(bytes[used..used + h.argument] + others, used + h.argument + more)
  }

  /** Keys and values must come in pairs. */
  function Paired(p: Parsed<seq<Item>>): Parsed<seq<Item>> {
    if p.Complete? && |p.value| % 2 != 0 then Malformed else p
  }

  /** Simple values and floats; a break where an item is due is malformed. */
  function DecodeSimple(h: Head): Parsed<Item> {
    if h.info < 24 then Complete(Simple(h.info), 0)
    else if h.info == 24 then if h.argument >= 32 then Complete(Simple(h.argument), 0) else Malformed
    else if h.info < 28 then Complete(Float(WidthOf(h.info), h.argument), 0)
    else Malformed
  }

  /** Items up to a break. */
  function DecodeUntilBreak(bytes: seq<byte>): (p: Parsed<seq<Item>>)
    ensures p.Complete? ==> 1 <= p.used <= |bytes|
    decreases |bytes|, 1
  {
    if bytes != [] && bytes[0] == 0xFF then Complete([], 1)
    else
      match Decode(bytes)
      case NeedMore => NeedMore
      case Malformed => Malformed
      case Complete(x, used) =>
        match DecodeUntilBreak(bytes[used..])
        case NeedMore => NeedMore
        case Malformed => Malformed
        case Complete(xs, more) => Complete([x] + xs, used + more)
  }

  /** What follows a head of `used` bytes. */
  function DecodeBody(h: Head, rest: seq<byte>, used: nat): (p: Parsed<Item>)
    ensures p.Complete? ==> used <= p.used <= used + |rest|
    decreases |rest|, 2
  {
    if h.info == INDEFINITE then
      match h.major
      case 2 => Wrapped(DecodeChunks(rest, 2), bytes => Bytes(bytes), used)
      case 3 => Wrapped(DecodeChunks(rest, 3), utf8 => Text(utf8), used)
      case 4 => Wrapped(DecodeUntilBreak(rest), items => Array(items), used)
      case 5 => Wrapped(Paired(DecodeUntilBreak(rest)), entries => Map(entries), used)
      case _ => Malformed
    else
      match h.major
      case 0 => Complete(Unsigned(h.argument), used)
      case 1 => Complete(Negative(h.argument), used)
      case 2 => Wrapped(Taken(rest, h.argument), bytes => Bytes(bytes), used)
      case 3 => Wrapped(Taken(rest, h.argument), utf8 => Text(utf8), used)
      case 4 => Wrapped(DecodeAll(rest, h.argument), items => Array(items), used)
      case 5 => Wrapped(DecodeAll(rest, 2 * h.argument), entries => Map(entries), used)
      case 6 => Wrapped(Decode(rest), content => Tagged(h.argument, content), used)
      case _ => Wrapped(DecodeSimple(h), x => x, used)
  }

  /** Reads one item off the front of the bytes. */
  function Decode(bytes: seq<byte>): (p: Parsed<Item>)
    ensures p.Complete? ==> 1 <= p.used <= |bytes|
    decreases |bytes|, 0
  {
    match DecodeHead(bytes)
    case NeedMore => NeedMore
    case Malformed => Malformed
    case Complete(h, used) => DecodeBody(h, bytes[used..], used)
  }

  function DecodeAll(bytes: seq<byte>, count: nat): (p: Parsed<seq<Item>>)
    ensures p.Complete? ==> p.used <= |bytes|
    decreases |bytes|, 1
  {
    if count == 0 then Complete([], 0)
    else
      match Decode(bytes)
      case NeedMore => NeedMore
      case Malformed => Malformed
      case Complete(x, used) =>
        match DecodeAll(bytes[used..], count - 1)
        case NeedMore => NeedMore
        case Malformed => Malformed
        case Complete(xs, more) => Complete([x] + xs, used + more)
  }

  // ---------- A verdict on some bytes stands whatever follows ----------

  lemma HeadStable(bytes: seq<byte>, more: seq<byte>)
    ensures !DecodeHead(bytes).NeedMore? ==> DecodeHead(bytes + more) == DecodeHead(bytes)
  {
    if bytes != [] && bytes[0] % 32 < 28 {
      var width := WidthOf(bytes[0] % 32);
      if |bytes| >= 1 + width {
        assert (bytes + more)[1..1 + width] == bytes[1..1 + width];
      }
    }
  }

  lemma TakenStable(bytes: seq<byte>, more: seq<byte>, count: nat)
    ensures !Taken(bytes, count).NeedMore? ==> Taken(bytes + more, count) == Taken(bytes, count)
  {
    if count <= |bytes| {
      assert (bytes + more)[..count] == bytes[..count];
    }
  }

  lemma {:induction false} ChunksStable(bytes: seq<byte>, more: seq<byte>, major: nat)
    ensures !DecodeChunks(bytes, major).NeedMore? ==> DecodeChunks(bytes + more, major) == DecodeChunks(bytes, major)
    decreases |bytes|
  {
    hide DecodeHead;
    HeadStable(bytes, more);
    var head := DecodeHead(bytes);
    if head.Complete? && bytes[0] != 0xFF && head.used + head.value.argument <= |bytes| {
      var end := head.used + head.value.argument;
      ChunksStable(bytes[end..], more, major);
      assert (bytes + more)[end..] == bytes[end..] + more;
      assert (bytes + more)[head.used..end] == bytes[head.used..end];
    }
  }

  lemma NothingNeedsMore()
    ensures Decode([]).NeedMore?
  {
  }

  lemma {:induction false} UntilBreakStable(bytes: seq<byte>, more: seq<byte>)
    ensures !DecodeUntilBreak(bytes).NeedMore? ==> DecodeUntilBreak(bytes + more) == DecodeUntilBreak(bytes)
    decreases |bytes|, 1
  {
    NothingNeedsMore();
    hide Decode;
    Stable(bytes, more);
    var first := Decode(bytes);
    if first.Complete? {
      assert (bytes + more)[first.used..] == bytes[first.used..] + more;
      UntilBreakStable(bytes[first.used..], more);
    }
  }

  lemma {:induction false} BodyStable(h: Head, rest: seq<byte>, more: seq<byte>, used: nat)
    ensures !DecodeBody(h, rest, used).NeedMore? ==> DecodeBody(h, rest + more, used) == DecodeBody(h, rest, used)
    decreases |rest|, 2
  {
    hide Decode, DecodeAll, DecodeUntilBreak, DecodeChunks, Taken;
    if h.info == INDEFINITE {
      ChunksStable(rest, more, h.major);
      UntilBreakStable(rest, more);
    } else {
      match h.major
      case 4 => AllStable(rest, more, h.argument);
      case 5 => AllStable(rest, more, 2 * h.argument);
      case 6 => Stable(rest, more);
      case _ => TakenStable(rest, more, h.argument);
    }
  }

  lemma {:induction false} Stable(bytes: seq<byte>, more: seq<byte>)
    ensures !Decode(bytes).NeedMore? ==> Decode(bytes + more) == Decode(bytes)
    decreases |bytes|, 0
  {
    HeadStable(bytes, more);
    var head := DecodeHead(bytes);
    if head.Complete? {
      assert (bytes + more)[head.used..] == bytes[head.used..] + more;
      BodyStable(head.value, bytes[head.used..], more, head.used);
    }
  }

  lemma {:induction false} AllStable(bytes: seq<byte>, more: seq<byte>, count: nat)
    ensures !DecodeAll(bytes, count).NeedMore? ==> DecodeAll(bytes + more, count) == DecodeAll(bytes, count)
    decreases |bytes|, 1
  {
    hide Decode;
    if count > 0 {
      Stable(bytes, more);
      var first := Decode(bytes);
      if first.Complete? {
        assert (bytes + more)[first.used..] == bytes[first.used..] + more;
        AllStable(bytes[first.used..], more, count - 1);
      }
    }
  }

  // ---------- Round trip ----------

  lemma BigEndianAppends(bytes: seq<byte>, last: byte)
    ensures BigEndian(bytes + [last]) == 256 * BigEndian(bytes) + last
  {
    assert (bytes + [last])[..|bytes|] == bytes;
  }

  lemma {:induction false} BytewiseValue(n: nat, width: nat)
    requires n < Pow256(width)
    ensures BigEndian(Bytewise(n, width)) == n
  {
    if width > 0 {
      BytewiseValue(n / 256, width - 1);
      BigEndianAppends(Bytewise(n / 256, width - 1), n % 256);
      hide BigEndian;
    }
  }

  lemma FirstByte(major: nat, info: nat)
    requires major < 8 && info < 32
    ensures (32 * major + info) / 32 == major && (32 * major + info) % 32 == info
  {
  }

  lemma HeadRoundTrip(h: Head, rest: seq<byte>)
    requires ValidHead(h)
    ensures DecodeHead(EncodeHead(h) + rest) == Complete(h, |EncodeHead(h)|)
  {
    hide BigEndian, Bytewise, Pow256;
    var width := WidthOf(h.info);
    var bytes := EncodeHead(h) + rest;
    FirstByte(h.major, h.info);
    if width > 0 {
      BytewiseValue(h.argument, width);
    }
    assert bytes[1..1 + width] == Bytewise(h.argument, width);
  }

  lemma DecodeAtHead(h: Head, rest: seq<byte>)
    requires ValidHead(h)
    ensures Decode(EncodeHead(h) + rest) == DecodeBody(h, rest, |EncodeHead(h)|)
  {
    HeadRoundTrip(h, rest);
    hide DecodeHead, EncodeHead, DecodeBody;
    assert (EncodeHead(h) + rest)[|EncodeHead(h)|..] == rest;
  }

  lemma DecodeAllFirst(x: Item, first: seq<byte>, rest: seq<byte>, count: nat)
    requires Decode(first + rest) == Complete(x, |first|)
    ensures DecodeAll(first + rest, count + 1) ==
      match DecodeAll(rest, count)
      case NeedMore => NeedMore
      case Malformed => Malformed
      case Complete(xs, more) => Complete([x] + xs, |first| + more)
  {
    hide Decode;
    assert (first + rest)[|first|..] == rest;
  }

  /** Decoding what was encoded yields the item and leaves what follows. */
  lemma {:induction false} RoundTrip(x: Item, rest: seq<byte>)
    requires Encodable(x)
    ensures Decode(Encode(x) + rest) == Complete(x, |Encode(x)|)
    decreases x, 1
  {
    hide EncodeHead, Decode, DecodeBody, Body, HeadOf, ValidHead;
    HeadIsValid(x);
    var head := EncodeHead(HeadOf(x));
    assert Encode(x) + rest == head + (Body(x) + rest);
    DecodeAtHead(HeadOf(x), Body(x) + rest);
    BodyRoundTrip(x, rest, |head|);
  }

  lemma {:induction false} AllRoundTrip(items: seq<Item>, rest: seq<byte>)
    requires forall i :: 0 <= i < |items| ==> Encodable(items[i])
    ensures DecodeAll(EncodeAll(items) + rest, |items|) == Complete(items, |EncodeAll(items)|)
    decreases items
  {
    hide Encode, Decode;
    if items != [] {
      var first, others := Encode(items[0]), EncodeAll(items[1..]);
      assert EncodeAll(items) + rest == first + (others + rest);
      RoundTrip(items[0], others + rest);
      AllRoundTrip(items[1..], rest);
      DecodeAllFirst(items[0], first, others + rest, |items| - 1);
      assert items == [items[0]] + items[1..];
    }
  }

  lemma {:induction false} BodyRoundTrip(x: Item, rest: seq<byte>, used: nat)
    requires Encodable(x)
    ensures DecodeBody(HeadOf(x), Body(x) + rest, used) == Complete(x, used + |Body(x)|)
    decreases x, 0
  {
    hide Decode, EncodeHead, DecodeHead, Pow256;
    match x
    case Array(items) => AllRoundTrip(items, rest);
    case Map(entries) =>
      AllRoundTrip(entries, rest);
      assert 2 * HeadOf(x).argument == |entries|;
    case Bytes(bytes) => assert (bytes + rest)[..|bytes|] == bytes;
    case Text(utf8) => assert (utf8 + rest)[..|utf8|] == utf8;
    case Tagged(_, content) => RoundTrip(content, rest);
    case _ =>
  }

  /** A proper prefix of an encoding is never mistaken for a complete or a broken item. */
  lemma PrefixNeedsMore(x: Item, n: nat)
    requires Encodable(x) && n < |Encode(x)|
    ensures Decode(Encode(x)[..n]).NeedMore?
  {
    var bytes := Encode(x);
    assert bytes[..n] + bytes[n..] == bytes == bytes + [];
    Stable(bytes[..n], bytes[n..]);
    RoundTrip(x, []);
  }

  lemma FirstByteOf(x: Item)
    requires Encodable(x)
    ensures |Encode(x)| > 0 && Encode(x)[0] != 0xFF
  {
    HeadIsValid(x);
  }

  lemma UntilBreakFirst(x: Item, first: seq<byte>, rest: seq<byte>)
    requires first != [] && first[0] != 0xFF && Decode(first + rest) == Complete(x, |first|)
    ensures DecodeUntilBreak(first + rest) ==
      match DecodeUntilBreak(rest)
      case NeedMore => NeedMore
      case Malformed => Malformed
      case Complete(xs, more) => Complete([x] + xs, |first| + more)
  {
    hide Decode;
    assert (first + rest)[|first|..] == rest;
  }

  lemma {:induction false} UntilBreakRoundTrip(items: seq<Item>, rest: seq<byte>)
    requires forall i :: 0 <= i < |items| ==> Encodable(items[i])
    ensures DecodeUntilBreak(EncodeAll(items) + ([0xFF] + rest)) == Complete(items, |EncodeAll(items)| + 1)
    decreases items
  {
    hide Encode, Decode;
    if items == [] {
      assert EncodeAll(items) + ([0xFF] + rest) == [0xFF] + rest;
    } else {
      var first, others, end := Encode(items[0]), EncodeAll(items[1..]), [0xFF] + rest;
      assert EncodeAll(items) + end == first + (others + end);
      FirstByteOf(items[0]);
      RoundTrip(items[0], others + end);
      UntilBreakRoundTrip(items[1..], rest);
      UntilBreakFirst(items[0], first, others + end);
      assert items == [items[0]] + items[1..];
    }
  }

  lemma IndefiniteHead(body: seq<byte>)
    ensures DecodeHead([0x9F] + body) == Complete(Head(4, INDEFINITE, 0), 1)
  {
  }

  /** An array written with indefinite length is read as the array it is. */
  lemma IndefiniteArray(items: seq<Item>, rest: seq<byte>)
    requires forall i :: 0 <= i < |items| ==> Encodable(items[i])
    ensures Decode([0x9F] + (EncodeAll(items) + ([0xFF] + rest))) == Complete(Array(items), |EncodeAll(items)| + 2)
  {
    hide DecodeUntilBreak, EncodeAll, DecodeHead, Encodable;
    var body := EncodeAll(items) + ([0xFF] + rest);
    UntilBreakRoundTrip(items, rest);
    IndefiniteHead(body);
    assert ([0x9F] + body)[1..] == body;
  }
}
