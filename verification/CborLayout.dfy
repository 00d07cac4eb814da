/** The bytes of a data item as section 3 of RFC 8949 lays them out, apart from any encoder or decoder; and what the
    decoder makes of them. */
module CborLayout {
  import opened Cbor

  // ---------- The layout ----------

  function FourBytes(bytes: seq<byte>, at: nat): nat
    requires at + 4 <= |bytes|
  {
    var first: nat, second: nat, third: nat, fourth: nat := bytes[at], bytes[at + 1], bytes[at + 2], bytes[at + 3];
    0x100_0000 * first + 0x1_0000 * second + 0x100 * third + fourth
  }

  /** Head is the first byte of an item or chunk, lead being the first byte of its major type, with the argument n in
      that byte or in the next one, two, four or eight bytes, the most significant first. */
  predicate Announces(head: seq<byte>, lead: nat, n: nat) {
    match |head|
    case 1 => n < 24 && head[0] == lead + n
    case 2 => head[0] == lead + 24 && n == head[1]
    case 3 => head[0] == lead + 25 && n == 0x100 * (head[1] as nat) + head[2]
    case 5 => head[0] == lead + 26 && n == FourBytes(head, 1)
    case 9 => head[0] == lead + 27 && n == 0x1_0000_0000 * FourBytes(head, 1) + FourBytes(head, 5)
    case _ => false
  }

  /** A head that announces the length of the string that follows it. */
  ghost predicate SpellsString(bytes: seq<byte>, lead: nat, content: seq<byte>) {
    exists k :: 0 <= k <= |bytes| && Announces(bytes[..k], lead, |content|) && bytes[k..] == content
  }

  /** The first k bytes are a string of n bytes, those the content begins with. */
  ghost predicate SpellsChunk(bytes: seq<byte>, lead: nat, content: seq<byte>, k: int, n: int) {
    0 < k <= |bytes| && 0 <= n <= |content| && SpellsString(bytes[..k], lead, content[..n])
  }

  /** Strings of definite length up to a break; their contents joined. */
  ghost predicate SpellsChunks(bytes: seq<byte>, lead: nat, content: seq<byte>)
    decreases |bytes|
  {
    || (bytes == [0xFF] && content == [])
    || exists k, n :: SpellsChunk(bytes, lead, content, k, n) && SpellsChunks(bytes[k..], lead, content[n..])
  }

  /** Items between a first byte of their own and a break. */
  ghost predicate SpellsOpen(bytes: seq<byte>, first: byte, items: seq<Item>)
    decreases items, 1
  {
    && |bytes| >= 2 && bytes[0] == first && bytes[|bytes| - 1] == 0xFF
    && SpellsAll(bytes[1..|bytes| - 1], items)
  }

  /** These bytes are a well-formed spelling of the item. */
  ghost predicate Spells(bytes: seq<byte>, x: Item)
    decreases x
  {
    match x
    case Unsigned(n) => Announces(bytes, 0x00, n)
    case Negative(n) => Announces(bytes, 0x20, n)
    case Bytes(content) =>
      || SpellsString(bytes, 0x40, content)
      || (bytes != [] && bytes[0] == 0x5F && SpellsChunks(bytes[1..], 0x40, content))
    case Text(content) =>
      || SpellsString(bytes, 0x60, content)
      || (bytes != [] && bytes[0] == 0x7F && SpellsChunks(bytes[1..], 0x60, content))
    case Array(items) =>
      SpellsCounted(bytes, 0x80, |items|, items) || SpellsOpen(bytes, 0x9F, items)
    case Map(entries) =>
      |entries| % 2 == 0 && (SpellsCounted(bytes, 0xA0, |entries| / 2, entries) || SpellsOpen(bytes, 0xBF, entries))
    case Tagged(tag, content) =>
      exists k :: 0 <= k <= |bytes| && Announces(bytes[..k], 0xC0, tag) && Spells(bytes[k..], content)
    case Simple(code) =>
      || (code < 24 && |bytes| == 1 && bytes[0] == 0xE0 + code)
      || (32 <= code && |bytes| == 2 && bytes[0] == 0xF8 && bytes[1] == code)
    case Float(width, bits) =>
      (width == 2 || width == 4 || width == 8) && |bytes| == 1 + width && Announces(bytes, 0xE0, bits)
  }

  ghost predicate SpellsAll(bytes: seq<byte>, items: seq<Item>)
    decreases items, 0
  {
    if items == [] then bytes == []
    else exists k :: 0 <= k <= |bytes| && Spells(bytes[..k], items[0]) && SpellsAll(bytes[k..], items[1..])
  }

  /** A head that announces so many items, or pairs of items, and the items. */
  ghost predicate SpellsCounted(bytes: seq<byte>, lead: nat, n: nat, items: seq<Item>)
    decreases items, 1
  {
    exists k :: 0 <= k <= |bytes| && Announces(bytes[..k], lead, n) && SpellsAll(bytes[k..], items)
  }

  /** Some item is spelled by these bytes and others that follow them. */
  ghost predicate Unfinished(bytes: seq<byte>) {
    exists more, x :: more != [] && Spells(bytes + more, x)
  }

  /** These bytes begin with a spelling of some item. */
  ghost predicate StartsItem(bytes: seq<byte>) {
    exists used, x :: 0 <= used <= |bytes| && Spells(bytes[..used], x)
  }

  // ---------- Heads ----------

  lemma BigEndianExtends(bytes: seq<byte>, n: nat)
    requires n < |bytes|
    ensures BigEndian(bytes[..n + 1]) == 256 * BigEndian(bytes[..n]) + bytes[n]
  {
    assert bytes[..n + 1][..n] == bytes[..n];
  }

  lemma BigEndianOfFew(bytes: seq<byte>)
    requires |bytes| <= 4
    ensures
      match |bytes|
      case 1 => BigEndian(bytes) == bytes[0]
      case 2 => BigEndian(bytes) == 0x100 * (bytes[0] as nat) + bytes[1]
      case 4 => BigEndian(bytes) == FourBytes(bytes, 0)
      case _ => true
  {
    assert BigEndian(bytes[..0]) == 0;
    hide BigEndian;
    assert bytes[..|bytes|] == bytes;
    if |bytes| >= 1 {
      BigEndianExtends(bytes, 0);
    }
    if |bytes| >= 2 {
      BigEndianExtends(bytes, 1);
    }
    if |bytes| == 4 {
      BigEndianExtends(bytes, 2);
      BigEndianExtends(bytes, 3);
    }
  }

  lemma BigEndianOfEight(bytes: seq<byte>)
    requires |bytes| == 8
    ensures BigEndian(bytes) == 0x1_0000_0000 * FourBytes(bytes, 0) + FourBytes(bytes, 4)
  {
    BigEndianOfFew(bytes[..4]);
    hide BigEndian;
    assert bytes[..8] == bytes;
    BigEndianExtends(bytes, 4);
    BigEndianExtends(bytes, 5);
    BigEndianExtends(bytes, 6);
    BigEndianExtends(bytes, 7);
  }

  lemma BigEndianOf(bytes: seq<byte>)
    requires |bytes| == 1 || |bytes| == 2 || |bytes| == 4 || |bytes| == 8
    ensures
      match |bytes|
      case 1 => BigEndian(bytes) == bytes[0]
      case 2 => BigEndian(bytes) == 0x100 * (bytes[0] as nat) + bytes[1]
      case 4 => BigEndian(bytes) == FourBytes(bytes, 0)
      case _ => BigEndian(bytes) == 0x1_0000_0000 * FourBytes(bytes, 0) + FourBytes(bytes, 4)
  {
    hide BigEndian, FourBytes;
    if |bytes| == 8 {
      BigEndianOfEight(bytes);
    } else {
      BigEndianOfFew(bytes);
    }
  }

  /** A head as laid out is what the decoder reads off it. */
  lemma AnnouncedHead(head: seq<byte>, major: nat, n: nat, rest: seq<byte>)
    requires major < 8 && Announces(head, 32 * major, n)
    ensures var info := head[0] - 32 * major;
      0 <= info < 28 && DecodeHead(head + rest) == Complete(Head(major, info, n), |head|)
  {
    hide BigEndian;
    if |head| > 1 {
      BigEndianOf(head[1..]);
      assert (head + rest)[1..|head|] == head[1..];
    }
  }

  /** And a head the decoder reads is laid out so. */
  lemma HeadAnnounces(bytes: seq<byte>, h: Head, used: nat)
    requires DecodeHead(bytes) == Complete(h, used) && h.info != INDEFINITE
    ensures used <= |bytes| && h.major < 8 && Announces(bytes[..used], 32 * h.major, h.argument)
    ensures bytes[0] == 32 * h.major + h.info
  {
    hide BigEndian;
    if used > 1 {
      BigEndianOf(bytes[1..used]);
    }
  }

  // ---------- What is laid out is decoded ----------

  lemma DecodesFromHead(bytes: seq<byte>, k: nat, major: nat, n: nat)
    requires k <= |bytes| && major < 8 && Announces(bytes[..k], 32 * major, n)
    ensures var info := bytes[0] - 32 * major;
      0 <= info < 28 && Decode(bytes) == DecodeBody(Head(major, info, n), bytes[k..], k)
  {
    hide DecodeHead, DecodeBody;
    assert bytes[..k] + bytes[k..] == bytes;
    AnnouncedHead(bytes[..k], major, n, bytes[k..]);
  }

  lemma StringIsDecoded(bytes: seq<byte>, major: nat, content: seq<byte>) returns (h: Head, k: nat)
    requires (major == 2 || major == 3) && SpellsString(bytes, 32 * major, content)
    ensures k <= |bytes| && bytes[k..] == content && h.major == major && h.info < 28 && h.argument == |content|
    ensures DecodeHead(bytes) == Complete(h, k) && bytes[0] == 32 * h.major + h.info
    ensures Decode(bytes) == Complete(if major == 2 then Bytes(content) else Text(content), |bytes|)
  {
    hide DecodeHead;
    k :| 0 <= k <= |bytes| && Announces(bytes[..k], 32 * major, |content|) && bytes[k..] == content;
    h := Head(major, bytes[0] - 32 * major, |content|);
    assert bytes[..k] + bytes[k..] == bytes;
    AnnouncedHead(bytes[..k], major, |content|, bytes[k..]);
    assert content[..|content|] == content;
  }

  lemma FirstChunk(bytes: seq<byte>, major: nat, h: Head, used: nat, end: nat, others: seq<byte>)
    requires major < 7 && DecodeHead(bytes) == Complete(h, used) && h.major == major && h.info < 28
    requires bytes[0] == 32 * major + h.info
    requires end == used + h.argument && end <= |bytes|
    requires DecodeChunks(bytes[end..], major) == Complete(others, |bytes| - end)
    ensures DecodeChunks(bytes, major) == Complete(bytes[used..end] + others, |bytes|)
  {
    hide DecodeHead;
  }

  lemma ChunkIsDecoded(bytes: seq<byte>, major: nat, content: seq<byte>, k: int, n: int)
    requires (major == 2 || major == 3) && SpellsChunk(bytes, 32 * major, content, k, n)
    requires DecodeChunks(bytes[k..], major) == Complete(content[n..], |bytes| - k)
    ensures DecodeChunks(bytes, major) == Complete(content, |bytes|)
  {
    hide DecodeHead, Decode, DecodeChunks, SpellsString;
    var h, used := StringIsDecoded(bytes[..k], major, content[..n]);
    HeadStable(bytes[..k], bytes[k..]);
    assert bytes[..k] + bytes[k..] == bytes;
    assert bytes[used..k] == bytes[..k][used..] == content[..n];
    FirstChunk(bytes, major, h, used, k, content[n..]);
    assert content[..n] + content[n..] == content;
  }

  lemma NoChunkLeft(major: nat)
    ensures DecodeChunks([0xFF], major) == Complete([], 1)
  {
  }

  lemma {:induction false} ChunksAreDecoded(bytes: seq<byte>, major: nat, content: seq<byte>)
    requires (major == 2 || major == 3) && SpellsChunks(bytes, 32 * major, content)
    ensures DecodeChunks(bytes, major) == Complete(content, |bytes|)
    decreases |bytes|
  {
    hide DecodeChunks, SpellsString;
    if bytes == [0xFF] && content == [] {
      NoChunkLeft(major);
    } else {
      var k, n :| SpellsChunk(bytes, 32 * major, content, k, n) && SpellsChunks(bytes[k..], 32 * major, content[n..]);
      ChunksAreDecoded(bytes[k..], major, content[n..]);
      ChunkIsDecoded(bytes, major, content, k, n);
    }
  }

  lemma NoBreakFirst(bytes: seq<byte>)
    requires Decode(bytes).Complete?
    ensures bytes != [] && bytes[0] != 0xFF
  {
  }

  lemma OpenHeadIsRead(bytes: seq<byte>, major: nat)
    requires major < 8 && bytes != [] && bytes[0] == 32 * major + INDEFINITE
    ensures DecodeHead(bytes) == Complete(Head(major, INDEFINITE, 0), 1)
  {
    FirstByte(major, INDEFINITE);
  }

  lemma OpenHead(bytes: seq<byte>, major: nat)
    requires major < 8 && bytes != [] && bytes[0] == 32 * major + INDEFINITE
    ensures Decode(bytes) == DecodeBody(Head(major, INDEFINITE, 0), bytes[1..], 1)
  {
    OpenHeadIsRead(bytes, major);
    hide DecodeHead, DecodeBody;
  }

  lemma SpelledString(bytes: seq<byte>, major: nat, content: seq<byte>)
    requires major == 2 || major == 3
    requires
      || SpellsString(bytes, 32 * major, content)
      || (bytes != [] && bytes[0] == 32 * major + INDEFINITE && SpellsChunks(bytes[1..], 32 * major, content))
    ensures Decode(bytes) == Complete(if major == 2 then Bytes(content) else Text(content), |bytes|)
  {
    hide DecodeChunks, SpellsString, Decode;
    if SpellsString(bytes, 32 * major, content) {
      var h, k := StringIsDecoded(bytes, major, content);
    } else {
      OpenHead(bytes, major);
      ChunksAreDecoded(bytes[1..], major, content);
    }
  }

  lemma SpelledSimple(bytes: seq<byte>, code: nat)
    requires Spells(bytes, Simple(code))
    ensures Decode(bytes) == Complete(Simple(code), |bytes|)
  {
    hide Decode, DecodeAll, DecodeUntilBreak, DecodeChunks;
    assert bytes[..|bytes|] == bytes;
    DecodesFromHead(bytes, |bytes|, 7, code);
  }

  lemma SpelledFloat(bytes: seq<byte>, width: nat, bits: nat)
    requires Spells(bytes, Float(width, bits))
    ensures Decode(bytes) == Complete(Float(width, bits), |bytes|)
  {
    hide Decode, DecodeAll, DecodeUntilBreak, DecodeChunks, FourBytes;
    assert bytes[..|bytes|] == bytes;
    DecodesFromHead(bytes, |bytes|, 7, bits);
  }

  lemma {:induction false} AllAreDecoded(bytes: seq<byte>, items: seq<Item>)
    requires SpellsAll(bytes, items)
    ensures DecodeAll(bytes, |items|) == Complete(items, |bytes|)
    decreases |bytes|, items
  {
    hide Decode, Spells;
    if items != [] {
      var k :| 0 <= k <= |bytes| && Spells(bytes[..k], items[0]) && SpellsAll(bytes[k..], items[1..]);
      var first, others := bytes[..k], bytes[k..];
      assert first + others == bytes;
      SpelledIsDecoded(first, items[0]);
      Stable(first, others);
      AllAreDecoded(others, items[1..]);
      DecodeAllFirst(items[0], first, others, |items| - 1);
      assert [items[0]] + items[1..] == items;
    }
  }

  lemma {:induction false} SpelledIsDecoded(bytes: seq<byte>, x: Item)
    requires Spells(bytes, x)
    ensures Decode(bytes) == Complete(x, |bytes|)
    decreases |bytes|, x
  {
    hide Decode, DecodeAll, DecodeUntilBreak, DecodeChunks, SpellsAll, SpellsString, SpellsChunks, Announces;
    assert bytes[..|bytes|] == bytes;
    match x
    case Unsigned(n) => DecodesFromHead(bytes, |bytes|, 0, n);
    case Negative(n) => DecodesFromHead(bytes, |bytes|, 1, n);
    case Bytes(content) => SpelledString(bytes, 2, content);
    case Text(content) => SpelledString(bytes, 3, content);
    case Array(items) =>
      if SpellsCounted(bytes, 0x80, |items|, items) {
        var k :| 0 <= k <= |bytes| && Announces(bytes[..k], 0x80, |items|) && SpellsAll(bytes[k..], items);
        DecodesFromHead(bytes, k, 4, |items|);
        AllAreDecoded(bytes[k..], items);
      } else {
        OpenHead(bytes, 4);
        assert bytes[1..] == bytes[1..|bytes| - 1] + [0xFF];
        AllAreDecodedUntilBreak(bytes[1..|bytes| - 1], items);
      }
    case Map(entries) =>
      if SpellsCounted(bytes, 0xA0, |entries| / 2, entries) {
        var k :| 0 <= k <= |bytes| && Announces(bytes[..k], 0xA0, |entries| / 2) && SpellsAll(bytes[k..], entries);
        DecodesFromHead(bytes, k, 5, |entries| / 2);
        AllAreDecoded(bytes[k..], entries);
      } else {
        OpenHead(bytes, 5);
        assert bytes[1..] == bytes[1..|bytes| - 1] + [0xFF];
        AllAreDecodedUntilBreak(bytes[1..|bytes| - 1], entries);
      }
    case Tagged(tag, content) =>
      var k :| 0 <= k <= |bytes| && Announces(bytes[..k], 0xC0, tag) && Spells(bytes[k..], content);
      DecodesFromHead(bytes, k, 6, tag);
      SpelledIsDecoded(bytes[k..], content);
    case Simple(code) => SpelledSimple(bytes, code);
    case Float(width, bits) => SpelledFloat(bytes, width, bits);
  }

  lemma {:induction false} AllAreDecodedUntilBreak(bytes: seq<byte>, items: seq<Item>)
    requires SpellsAll(bytes, items)
    ensures DecodeUntilBreak(bytes + [0xFF]) == Complete(items, |bytes| + 1)
    decreases |bytes|, items
  {
    hide Decode, Spells;
    if items != [] {
      var k :| 0 <= k <= |bytes| && Spells(bytes[..k], items[0]) && SpellsAll(bytes[k..], items[1..]);
      var first, others := bytes[..k], bytes[k..] + [0xFF];
      assert first + others == bytes + [0xFF];
      SpelledIsDecoded(first, items[0]);
      NoBreakFirst(first);
      Stable(first, others);
      AllAreDecodedUntilBreak(bytes[k..], items[1..]);
      UntilBreakFirst(items[0], first, others);
      assert [items[0]] + items[1..] == items;
    }
  }

  // ---------- What is decoded is laid out ----------

  /** The first `used` bytes begin with a head of k bytes and go on with the front of what follows it. */
  lemma Fronts(bytes: seq<byte>, k: nat, used: nat)
    requires k <= used <= |bytes|
    ensures bytes[..used][..k] == bytes[..k] && bytes[..used][k..] == bytes[k..][..used - k]
  {
  }

  lemma StringIsSpelled(bytes: seq<byte>, h: Head, k: nat, used: nat)
    requires DecodeHead(bytes) == Complete(h, k) && h.info != INDEFINITE
    requires used == k + h.argument && used <= |bytes|
    ensures SpellsString(bytes[..used], 32 * h.major, bytes[k..used])
  {
    hide DecodeHead, Announces;
    HeadAnnounces(bytes, h, k);
    Fronts(bytes, k, used);
    assert bytes[k..][..used - k] == bytes[k..used];
  }

  lemma ChunkIsSpelled(bytes: seq<byte>, h: Head, k: nat, end: nat, others: seq<byte>, more: nat)
    requires DecodeHead(bytes) == Complete(h, k) && h.info != INDEFINITE
    requires k > 0 && end == k + h.argument && end + more <= |bytes|
    requires SpellsChunks(bytes[end..][..more], 32 * h.major, others)
    ensures SpellsChunks(bytes[..end + more], 32 * h.major, bytes[k..end] + others)
  {
    hide DecodeHead, SpellsString;
    StringIsSpelled(bytes, h, k, end);
    var whole, content, n := bytes[..end + more], bytes[k..end] + others, end - k;
    assert content[..n] == bytes[k..end] && content[n..] == others;
    Fronts(bytes, end, end + more);
    assert SpellsChunk(whole, 32 * h.major, content, end, n);
  }

  lemma BreakIsSpelled(lead: nat)
    ensures SpellsChunks([0xFF], lead, [])
  {
  }

  lemma HeadsAgree(bytes: seq<byte>)
    requires bytes != [] && DecodeHead(bytes).Complete?
    ensures DecodeHead(bytes).value.major == bytes[0] / 32 && DecodeHead(bytes).value.info == bytes[0] % 32
  {
  }

  lemma {:induction false} ChunksAreSpelled(bytes: seq<byte>, major: nat, content: seq<byte>, used: nat)
    requires major < 7 && DecodeChunks(bytes, major) == Complete(content, used)
    ensures used <= |bytes| && SpellsChunks(bytes[..used], 32 * major, content)
    decreases |bytes|
  {
    hide SpellsChunks;
    if bytes[0] == 0xFF {
      BreakIsSpelled(32 * major);
      assert bytes[..1] == [0xFF];
    } else {
      hide DecodeHead;
      HeadsAgree(bytes);
      var Complete(h, k) := DecodeHead(bytes);
      var end := k + h.argument;
      var Complete(others, more) := DecodeChunks(bytes[end..], major);
      ChunksAreSpelled(bytes[end..], major, others, more);
      ChunkIsSpelled(bytes, h, k, end, others, more);
    }
  }

  lemma FirstIsSpelled(bytes: seq<byte>, k: nat, more: nat, x: Item, xs: seq<Item>)
    requires k + more <= |bytes| && Spells(bytes[..k], x) && SpellsAll(bytes[k..][..more], xs)
    ensures SpellsAll(bytes[..k + more], [x] + xs)
  {
    hide Spells;
    Fronts(bytes, k, k + more);
    assert ([x] + xs)[1..] == xs;
    var whole := bytes[..k + more];
    assert Spells(whole[..k], x) && SpellsAll(whole[k..], xs);
  }

  lemma OpenHeadSpelled(bytes: seq<byte>, h: Head, k: nat)
    requires DecodeHead(bytes) == Complete(h, k) && h.info == INDEFINITE
    ensures h == Head(h.major, INDEFINITE, 0) && h.major < 8 && k == 1 && bytes[0] == 32 * h.major + INDEFINITE
  {
  }

  lemma SimpleIsSpelled(bytes: seq<byte>, h: Head, k: nat, x: Item)
    requires DecodeHead(bytes) == Complete(h, k) && h.major == 7 && DecodeSimple(h) == Complete(x, 0)
    requires h.info != INDEFINITE && Announces(bytes[..k], 0xE0, h.argument)
    ensures Spells(bytes[..k], x)
  {
  }

  lemma {:induction false} BodyIsSpelled(bytes: seq<byte>, h: Head, k: nat, x: Item, used: nat)
    requires DecodeHead(bytes) == Complete(h, k) && h.info != INDEFINITE
    requires h.major < 8 && Announces(bytes[..k], 32 * h.major, h.argument)
    requires DecodeBody(h, bytes[k..], k) == Complete(x, used)
    ensures used <= |bytes| && Spells(bytes[..used], x)
    decreases |bytes| - 1, 2
  {
    hide DecodeHead, Decode, DecodeAll, SpellsAll, SpellsString, Announces;
    var rest := bytes[k..];
    Fronts(bytes, k, used);
    match x
    case Array(items) =>
      AllAreSpelled(rest, h.argument, items, used - k);
      assert SpellsCounted(bytes[..used], 0x80, |items|, items);
    case Map(entries) =>
      AllAreSpelled(rest, 2 * h.argument, entries, used - k);
      assert SpellsCounted(bytes[..used], 0xA0, |entries| / 2, entries);
    case Tagged(tag, content) =>
      DecodedIsSpelled(rest, content, used - k);
      assert Announces(bytes[..used][..k], 0xC0, tag);
    case Bytes(_) => StringIsSpelled(bytes, h, k, used);
    case Text(_) => StringIsSpelled(bytes, h, k, used);
    case Simple(_) => SimpleIsSpelled(bytes, h, k, x);
    case Float(_, _) => SimpleIsSpelled(bytes, h, k, x);
    case _ =>
  }

  lemma {:induction false} AllAreSpelledUntilBreak(bytes: seq<byte>, items: seq<Item>, used: nat)
    requires DecodeUntilBreak(bytes) == Complete(items, used)
    ensures 1 <= used <= |bytes| && bytes[used - 1] == 0xFF && SpellsAll(bytes[..used - 1], items)
    decreases |bytes|, 1
  {
    NothingNeedsMore();
    hide Decode, Spells;
    if bytes != [] && bytes[0] != 0xFF {
      hide SpellsAll;
      var Complete(x, k) := Decode(bytes);
      var Complete(xs, more) := DecodeUntilBreak(bytes[k..]);
      DecodedIsSpelled(bytes, x, k);
      AllAreSpelledUntilBreak(bytes[k..], xs, more);
      FirstIsSpelled(bytes, k, more - 1, x, xs);
    }
  }

  lemma {:induction false} OpenIsSpelled(bytes: seq<byte>, major: nat, x: Item, used: nat)
    requires bytes != [] && bytes[0] == 32 * major + INDEFINITE
    requires DecodeBody(Head(major, INDEFINITE, 0), bytes[1..], 1) == Complete(x, used)
    ensures used <= |bytes| && Spells(bytes[..used], x)
    decreases |bytes| - 1, 2
  {
    hide DecodeChunks, DecodeUntilBreak, SpellsChunks, SpellsAll, SpellsString;
    Fronts(bytes, 1, used);
    match x
    case Bytes(content) => ChunksAreSpelled(bytes[1..], 2, content, used - 1);
    case Text(content) => ChunksAreSpelled(bytes[1..], 3, content, used - 1);
    case Array(items) =>
      AllAreSpelledUntilBreak(bytes[1..], items, used - 1);
      assert bytes[..used][1..used - 1] == bytes[1..][..used - 2];
      assert SpellsOpen(bytes[..used], 0x9F, items);
    case Map(entries) =>
      AllAreSpelledUntilBreak(bytes[1..], entries, used - 1);
      assert bytes[..used][1..used - 1] == bytes[1..][..used - 2];
      assert SpellsOpen(bytes[..used], 0xBF, entries);
  }

  lemma {:induction false} DecodedIsSpelled(bytes: seq<byte>, x: Item, used: nat)
    requires Decode(bytes) == Complete(x, used)
    ensures used <= |bytes| && Spells(bytes[..used], x)
    decreases |bytes|, 0
  {
    hide DecodeHead, DecodeBody, Spells;
    var Complete(h, k) := DecodeHead(bytes);
    if h.info == INDEFINITE {
      OpenHeadSpelled(bytes, h, k);
      OpenIsSpelled(bytes, h.major, x, used);
    } else {
      HeadAnnounces(bytes, h, k);
      BodyIsSpelled(bytes, h, k, x, used);
    }
  }

  lemma {:induction false} AllAreSpelled(bytes: seq<byte>, count: nat, items: seq<Item>, used: nat)
    requires DecodeAll(bytes, count) == Complete(items, used)
    ensures used <= |bytes| && |items| == count && SpellsAll(bytes[..used], items)
    decreases |bytes|, 1
  {
    hide Spells;
    if count > 0 {
      hide Decode, SpellsAll;
      var Complete(x, k) := Decode(bytes);
      var Complete(xs, more) := DecodeAll(bytes[k..], count - 1);
      DecodedIsSpelled(bytes, x, k);
      AllAreSpelled(bytes[k..], count - 1, xs, more);
      FirstIsSpelled(bytes, k, more, x, xs);
    }
  }

  /** The decoder reads an item off the front of the bytes exactly if they begin with a spelling of it. */
  lemma CompleteExactly(bytes: seq<byte>, x: Item, used: nat)
    ensures Decode(bytes) == Complete(x, used) <==> used <= |bytes| && Spells(bytes[..used], x)
  {
    hide Decode, Spells;
    if used <= |bytes| && Spells(bytes[..used], x) {
      SpelledIsDecoded(bytes[..used], x);
      Stable(bytes[..used], bytes[used..]);
      assert bytes[..used] + bytes[used..] == bytes;
    }
    if Decode(bytes) == Complete(x, used) {
      DecodedIsSpelled(bytes, x, used);
    }
  }

  // ---------- What asks for more can be completed ----------

  /** A head that breaks off is completed, with bytes never too small for a simple value. */
  lemma HeadExtends(bytes: seq<byte>) returns (more: seq<byte>, h: Head, k: nat)
    requires bytes != [] && bytes[0] % 32 != INDEFINITE && !DecodeHead(bytes).Malformed?
    ensures DecodeHead(bytes + more) == Complete(h, k) && h.major < 8 && h.info < 28
    ensures bytes[0] == 32 * h.major + h.info
    ensures more == [] || (k == |bytes + more| && (h.info == 24 ==> h.argument >= 32))
  {
    hide BigEndian;
    if DecodeHead(bytes).Complete? {
      assert bytes + [] == bytes;
      more := [];
    } else {
      var width := WidthOf(bytes[0] % 32);
      more := seq(1 + width - |bytes|, _ => 0x20);
      var argument := (bytes + more)[1..1 + width];
      BigEndianOf(argument);
      assert width == 1 ==> argument == [0x20];
    }
    h, k := DecodeHead(bytes + more).value, DecodeHead(bytes + more).used;
  }

  lemma StringExtends(bytes: seq<byte>, h: Head, k: nat) returns (more: seq<byte>, content: seq<byte>)
    requires DecodeHead(bytes) == Complete(h, k) && h.info != INDEFINITE && |bytes| - k <= h.argument
    ensures |content| == h.argument && SpellsString(bytes + more, 32 * h.major, content)
  {
    hide DecodeHead, SpellsString;
    more := seq(h.argument - (|bytes| - k), _ => 0x00);
    HeadStable(bytes, more);
    StringIsSpelled(bytes + more, h, k, |bytes + more|);
    content := (bytes + more)[k..];
    assert (bytes + more)[..|bytes + more|] == bytes + more;
  }

  lemma LastChunk(chunk: seq<byte>, lead: nat, content: seq<byte>)
    requires chunk != [] && SpellsString(chunk, lead, content)
    ensures SpellsChunks(chunk + [0xFF], lead, content)
  {
    BreakIsSpelled(lead);
    hide SpellsString;
    var whole, k, n := chunk + [0xFF], |chunk|, |content|;
    assert whole[..k] == chunk && whole[k..] == [0xFF] && content[..n] == content && content[n..] == [];
    assert SpellsChunk(whole, lead, content, k, n);
  }

  lemma {:induction false} ChunksExtend(bytes: seq<byte>, major: nat) returns (more: seq<byte>, content: seq<byte>)
    requires major < 7 && DecodeChunks(bytes, major).NeedMore?
    ensures SpellsChunks(bytes + more, 32 * major, content)
    decreases |bytes|
  {
    hide SpellsChunks, SpellsString, DecodeHead;
    if bytes == [] {
      BreakIsSpelled(32 * major);
      assert bytes + [0xFF] == [0xFF];
      return [0xFF], [];
    }
    var pad, h, k := HeadExtends(bytes);
    FirstByte(h.major, h.info);
    var end := k + h.argument;
    if |bytes + pad| <= end {
      more, content := StringExtends(bytes + pad, h, k);
      LastChunk(bytes + pad + more, 32 * major, content);
      assert bytes + (pad + more + [0xFF]) == bytes + pad + more + [0xFF];
      more := pad + more + [0xFF];
    } else {
      assert bytes + pad == bytes;
      more, content := ChunksExtend(bytes[end..], major);
      HeadStable(bytes, more);
      assert (bytes + more)[end..] == bytes[end..] + more;
      var whole := bytes + more;
      assert whole[end..][..|whole| - end] == whole[end..] && whole[..|whole|] == whole;
      ChunkIsSpelled(whole, h, k, end, content, |whole| - end);
      content := whole[k..end] + content;
    }
  }

  lemma AllPrepends(first: seq<byte>, others: seq<byte>, x: Item, xs: seq<Item>)
    requires Spells(first, x) && SpellsAll(others, xs)
    ensures SpellsAll(first + others, [x] + xs)
  {
    hide Spells, SpellsAll;
    var whole := first + others;
    assert whole[..|first|] == first && whole[|first|..][..|others|] == others && whole[..|whole|] == whole;
    FirstIsSpelled(whole, |first|, |others|, x, xs);
  }

  lemma DecodesFrom(bytes: seq<byte>)
    ensures DecodeHead(bytes).Malformed? ==> Decode(bytes).Malformed?
    ensures var head := DecodeHead(bytes);
      head.Complete? ==> Decode(bytes) == DecodeBody(head.value, bytes[head.used..], head.used)
  {
    hide DecodeHead, DecodeBody;
  }

  lemma ZeroIsSpelled()
    ensures Spells([0x00], Unsigned(0))
  {
  }

  lemma {:induction false} BodyExtends(bytes: seq<byte>, h: Head, k: nat) returns (more: seq<byte>, x: Item)
    requires DecodeHead(bytes) == Complete(h, k) && h.major < 8 && h.info < 28
    requires DecodeBody(h, bytes[k..], k).NeedMore? || (k == |bytes| && (h.info == 24 ==> h.argument >= 32))
    ensures Spells(bytes + more, x)
    decreases |bytes| - k, 2
  {
    NothingNeedsMore();
    hide DecodeHead, Decode, DecodeAll, SpellsAll, SpellsString, Announces;
    HeadAnnounces(bytes, h, k);
    var rest := bytes[k..];
    assert k == |bytes| ==> bytes[..k] == bytes + [];
    match h.major
    case 0 => more, x := [], Unsigned(h.argument);
    case 1 => more, x := [], Negative(h.argument);
    case 2 =>
      var content;
      more, content := StringExtends(bytes, h, k);
      x := Bytes(content);
    case 3 =>
      var content;
      more, content := StringExtends(bytes, h, k);
      x := Text(content);
    case 4 =>
      var items;
      more, items := AllExtend(rest, h.argument);
      assert (bytes + more)[..k] == bytes[..k] && (bytes + more)[k..] == rest + more;
      assert SpellsCounted(bytes + more, 0x80, |items|, items);
      x := Array(items);
    case 5 =>
      var entries;
      more, entries := AllExtend(rest, 2 * h.argument);
      assert (bytes + more)[..k] == bytes[..k] && (bytes + more)[k..] == rest + more;
      assert SpellsCounted(bytes + more, 0xA0, |entries| / 2, entries);
      x := Map(entries);
    case 6 =>
      var content;
      more, content := Extend(rest);
      assert (bytes + more)[..k] == bytes[..k] && (bytes + more)[k..] == rest + more;
      x := Tagged(h.argument, content);
    case _ =>
      more, x := [], DecodeSimple(h).value;
      SimpleIsSpelled(bytes, h, k, x);
  }

  /** Items up to where a break may follow, of the wanted parity. */
  lemma {:induction false} UntilBreakExtends(bytes: seq<byte>, odd: bool) returns (more: seq<byte>, items: seq<Item>)
    requires DecodeUntilBreak(bytes).NeedMore?
    ensures SpellsAll(bytes + more, items) && (|items| % 2 == 1 <==> odd)
    decreases |bytes|, 1, if odd then 1 else 0
  {
    NothingNeedsMore();
    hide Decode, Spells;
    if bytes == [] && !odd {
      return [], [];
    }
    hide SpellsAll;
    var first := Decode(bytes);
    if first.NeedMore? {
      var pad, x := Extend(bytes);
      more, items := UntilBreakExtends([], !odd);
      assert [] + more == more;
      AllPrepends(bytes + pad, more, x, items);
      assert bytes + (pad + more) == bytes + pad + more;
      more, items := pad + more, [x] + items;
    } else {
      more, items := UntilBreakExtends(bytes[first.used..], !odd);
      DecodedIsSpelled(bytes, first.value, first.used);
      AllPrepends(bytes[..first.used], bytes[first.used..] + more, first.value, items);
      assert bytes[..first.used] + (bytes[first.used..] + more) == bytes + more;
      items := [first.value] + items;
    }
  }

  lemma {:induction false} OpenExtends(bytes: seq<byte>, major: nat) returns (more: seq<byte>, x: Item)
    requires bytes != [] && bytes[0] == 32 * major + INDEFINITE
    requires DecodeBody(Head(major, INDEFINITE, 0), bytes[1..], 1).NeedMore?
    ensures Spells(bytes + more, x)
    decreases |bytes| - 1, 2
  {
    hide DecodeChunks, DecodeUntilBreak, SpellsChunks, SpellsAll, SpellsString;
    var rest := bytes[1..];
    if major < 4 {
      var content;
      more, content := ChunksExtend(rest, major);
      assert (bytes + more)[1..] == rest + more;
      x := if major == 2 then Bytes(content) else Text(content);
    } else {
      var items;
      more, items := UntilBreakExtends(rest, false);
      var whole := bytes + (more + [0xFF]);
      assert whole[1..|whole| - 1] == rest + more;
      assert SpellsOpen(whole, 32 * major + INDEFINITE, items);
      more, x := more + [0xFF], if major == 4 then Array(items) else Map(items);
    }
  }

  lemma {:induction false} Extend(bytes: seq<byte>) returns (more: seq<byte>, x: Item)
    requires Decode(bytes).NeedMore?
    ensures Spells(bytes + more, x)
    decreases |bytes|, 0
  {
    hide Spells, Decode, DecodeBody;
    if bytes == [] {
      ZeroIsSpelled();
      assert bytes + [0x00] == [0x00];
      return [0x00], Unsigned(0);
    }
    hide DecodeHead;
    var major := bytes[0] / 32;
    if bytes[0] % 32 == INDEFINITE {
      OpenHead(bytes, major);
      more, x := OpenExtends(bytes, major);
    } else {
      DecodesFrom(bytes);
      var pad, h, k := HeadExtends(bytes);
      assert pad == [] ==> bytes + pad == bytes;
      more, x := BodyExtends(bytes + pad, h, k);
      assert bytes + (pad + more) == bytes + pad + more;
      more := pad + more;
    }
  }

  lemma {:induction false} AllExtend(bytes: seq<byte>, count: nat) returns (more: seq<byte>, items: seq<Item>)
    requires DecodeAll(bytes, count).NeedMore? || bytes == []
    ensures |items| == count && SpellsAll(bytes + more, items)
    decreases |bytes|, 1, count
  {
    NothingNeedsMore();
    hide Decode, Spells;
    if count == 0 {
      return [], [];
    }
    hide SpellsAll;
    var first := Decode(bytes);
    if first.NeedMore? {
      var pad, x := Extend(bytes);
      more, items := AllExtend([], count - 1);
      assert [] + more == more;
      AllPrepends(bytes + pad, more, x, items);
      assert bytes + (pad + more) == bytes + pad + more;
      more, items := pad + more, [x] + items;
    } else {
      more, items := AllExtend(bytes[first.used..], count - 1);
      DecodedIsSpelled(bytes, first.value, first.used);
      AllPrepends(bytes[..first.used], bytes[first.used..] + more, first.value, items);
      assert bytes[..first.used] + (bytes[first.used..] + more) == bytes + more;
      items := [first.value] + items;
    }
  }

  /** The decoder asks for more exactly if what it has can still become a spelling of some item. */
  lemma NeedMoreExactly(bytes: seq<byte>)
    ensures Decode(bytes).NeedMore? <==> Unfinished(bytes)
  {
    hide Decode, Spells;
    if Decode(bytes).NeedMore? {
      var more, x := Extend(bytes);
      SpelledIsDecoded(bytes + more, x);
      assert bytes + [] == bytes;
    }
    if more, x :| more != [] && Spells(bytes + more, x) {
      SpelledIsDecoded(bytes + more, x);
      Stable(bytes, more);
    }
  }

  /** And it finds them malformed exactly if they neither can nor begin with one. */
  lemma MalformedExactly(bytes: seq<byte>)
    ensures Decode(bytes).Malformed? <==> !Unfinished(bytes) && !StartsItem(bytes)
  {
    hide Decode, Spells;
    NeedMoreExactly(bytes);
    if Decode(bytes).Complete? {
      DecodedIsSpelled(bytes, Decode(bytes).value, Decode(bytes).used);
    }
    forall used, x | 0 <= used <= |bytes| && Spells(bytes[..used], x)
      ensures Decode(bytes).Complete?
    {
      CompleteExactly(bytes, x, used);
    }
  }

  // ---------- The encoder, and short items ----------

  lemma EncodedIsSpelled(x: Item)
    requires Encodable(x)
    ensures Spells(Encode(x), x)
  {
    hide Decode, Encode, Spells;
    RoundTrip(x, []);
    assert Encode(x) + [] == Encode(x) == Encode(x)[..|Encode(x)|];
    DecodedIsSpelled(Encode(x), x, |Encode(x)|);
  }

  lemma ShortString(lead: byte, n: byte, content: seq<byte>)
    requires n < 24 && |content| == n && lead + n < 256
    ensures SpellsString([(lead + n) as byte] + content, lead, content)
  {
    var whole := [(lead + n) as byte] + content;
    assert whole[..1] == [lead + n] && whole[1..] == content;
  }

  /** With an argument below 24 the first byte is the head; a longer one follows it, the most significant byte first. */
  lemma ShortItems(n: byte, b: byte, c: byte, content: seq<byte>)
    requires n < 24 && |content| == n
    ensures Decode([n]) == Complete(Unsigned(n), 1) && Decode([0x20 + n]) == Complete(Negative(n), 1)
    ensures Decode([0x40 + n] + content) == Complete(Bytes(content), 1 + n)
    ensures Decode([0x60 + n] + content) == Complete(Text(content), 1 + n)
    ensures Decode([0xE0 + n]) == Complete(Simple(n), 1)
    ensures Decode([0x18, b]) == Complete(Unsigned(b), 2)
    ensures Decode([0x19, b, c]) == Complete(Unsigned(0x100 * (b as nat) + c), 3)
  {
    hide Decode;
    SpelledIsDecoded([n], Unsigned(n));
    SpelledIsDecoded([0x20 + n], Negative(n));
    ShortString(0x40, n, content);
    SpelledIsDecoded([0x40 + n] + content, Bytes(content));
    ShortString(0x60, n, content);
    SpelledIsDecoded([0x60 + n] + content, Text(content));
    SpelledIsDecoded([0xE0 + n], Simple(n));
    SpelledIsDecoded([0x18, b], Unsigned(b));
    SpelledIsDecoded([0x19, b, c], Unsigned(0x100 * (b as nat) + c));
  }
}
