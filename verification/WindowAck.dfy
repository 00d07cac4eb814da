/** The textual acknowledgment with which a peer negotiates and advances the sliding window. */
module WindowAck {
  import opened Wire
  import opened Decimal

  const PREFIX := "scionic-window/"
  const PROTOCOL := "scionic-window/1"
  const WINDOW_PACKETS: int := 16
  const WINDOW_BYTES: int := 32 * 1024 * 1024
  const MAX_WINDOW_PACKETS: int := 64
  const MAX_WINDOW_BYTES: int := 256 * 1024 * 1024

  datatype Ack = Ack(index: int, packets: int, bytes: int)

  datatype AckFault = BadShape | BadIndex | BadPacketLimit | BadByteLimit

  /** Unsupported is the reply of a peer without sliding windows; it is no error. */
  datatype AckParse = Unsupported | Malformed(fault: AckFault) | Accepted(ack: Ack)

  function Encode(index: int): string {
    PROTOCOL + (" " + (PrintSigned(index) +
    (" " + (PrintSigned(WINDOW_PACKETS) + (" " + PrintSigned(WINDOW_BYTES))))))
  }

  /** The white space at which the source splits a message. */
  predicate IsSpace(c: char) {
    var u := c as int;
    || 9 <= u <= 13 || u == 32 || u == 0x85 || u == 0xA0
    || u == 0x1680 || 0x2000 <= u <= 0x200A || u == 0x2028 || u == 0x2029
    || u == 0x202F || u == 0x205F || u == 0x3000
  }

  function Word(s: string): (w: string)
    ensures w <= s
    ensures forall i :: 0 <= i < |w| ==> !IsSpace(w[i])
    ensures |w| < |s| ==> IsSpace(s[|w|])
  {
    if s == "" || IsSpace(s[0]) then "" else [s[0]] + Word(s[1..])
  }

  /** The maximal runs without white space, in order. */
  function Fields(s: string): seq<string> {
    if s == "" then []
    else if IsSpace(s[0]) then Fields(s[1..])
    else [Word(s)] + Fields(s[|Word(s)|..])
  }

  function Parse(message: string): AckParse {
    if !(PREFIX <= message) then Unsupported
    else
      var parts := Fields(message);
      if |parts| != 4 || parts[0] != PROTOCOL then Malformed(BadShape)
      else
        var index := ParseInt(parts[1]);
        if index.None? || index.value < 0 then Malformed(BadIndex)
        else
          var packets := ParseInt(parts[2]);
          if packets.None? || packets.value < 1 || packets.value > MAX_WINDOW_PACKETS then Malformed(BadPacketLimit)
          else
            var bytes := ParseInt(parts[3]);
            if bytes.None? || bytes.value < 1 || bytes.value > MAX_WINDOW_BYTES then Malformed(BadByteLimit)
            else Accepted(Ack(index.value, packets.value, bytes.value))
  }

  // ---------- An independent description of the accepted messages ----------

  predicate InBounds(ack: Ack) {
    && 0 <= ack.index <= MAX_INT64
    && 1 <= ack.packets <= MAX_WINDOW_PACKETS
    && 1 <= ack.bytes <= MAX_WINDOW_BYTES
  }

  predicate Blank(s: string) {
    forall i :: 0 <= i < |s| ==> IsSpace(s[i])
  }

  predicate Solid(s: string) {
    s != "" && forall i :: 0 <= i < |s| ==> !IsSpace(s[i])
  }

  /** A message laid out as the protocol name and three words, with the white space between and after them. */
  datatype Layout = Layout(gap1: string, index: string, gap2: string, packets: string, gap3: string, bytes: string,
                           gap4: string)
  {
    function Text(): string {
      PROTOCOL + (gap1 + (index + (gap2 + (packets + (gap3 + (bytes + gap4))))))
    }

    predicate Spaced() {
      && gap1 != "" && Blank(gap1) && gap2 != "" && Blank(gap2) && gap3 != "" && Blank(gap3) && Blank(gap4)
      && Solid(index) && Solid(packets) && Solid(bytes)
    }

    ghost predicate Means(ack: Ack) {
      && Spaced()
      && Spells(index, ack.index) && Spells(packets, ack.packets) && Spells(bytes, ack.bytes)
    }
  }

  // ---------- Splitting into fields ----------

  lemma {:induction false} FieldsSkipGap(gap: string, rest: string)
    requires Blank(gap)
    ensures Fields(gap + rest) == Fields(rest)
  {
    if gap == "" {
      assert gap + rest == rest;
    } else {
      assert (gap + rest)[1..] == gap[1..] + rest;
      FieldsSkipGap(gap[1..], rest);
    }
  }

  lemma {:induction false} WordIsSolidPrefix(word: string, rest: string)
    requires forall i :: 0 <= i < |word| ==> !IsSpace(word[i])
    requires rest != "" ==> IsSpace(rest[0])
    ensures Word(word + rest) == word
  {
    if word == "" {
      assert word + rest == rest;
    } else {
      assert (word + rest)[1..] == word[1..] + rest;
      WordIsSolidPrefix(word[1..], rest);
    }
  }

  lemma FieldsTakeWord(word: string, gap: string, rest: string)
    requires Solid(word) && Blank(gap) && (gap == "" ==> rest == "")
    ensures Fields(word + (gap + rest)) == [word] + Fields(rest)
  {
    var after := gap + rest;
    WordIsSolidPrefix(word, after);
    assert (word + after)[|word|..] == after;
    FieldsSkipGap(gap, rest);
  }

  lemma {:induction false} GapSplit(s: string) returns (gap: string, rest: string)
    ensures Blank(gap) && s == gap + rest && (rest != "" ==> !IsSpace(rest[0]))
    ensures s != "" && IsSpace(s[0]) ==> gap != ""
  {
    if s == "" || !IsSpace(s[0]) {
      gap, rest := "", s;
    } else {
      gap, rest := GapSplit(s[1..]);
      gap := [s[0]] + gap;
    }
  }

  lemma {:induction false} FieldsSplit(s: string) returns (word: string, gap: string, rest: string)
    requires s != "" && !IsSpace(s[0])
    ensures Solid(word) && Blank(gap) && s == word + (gap + rest)
    ensures Fields(s) == [word] + Fields(rest)
    ensures rest != "" ==> gap != "" && !IsSpace(rest[0])
  {
    word := Word(s);
    var after := s[|word|..];
    gap, rest := GapSplit(after);
    FieldsSkipGap(gap, rest);
  }

  lemma ProtocolIsSolid()
    ensures Solid(PROTOCOL) && PREFIX <= PROTOCOL
  {
    assert PROTOCOL[..|PREFIX|] == PREFIX;
  }

  lemma LayoutFields(l: Layout)
    requires l.Spaced()
    ensures Fields(l.Text()) == [PROTOCOL, l.index, l.packets, l.bytes]
  {
    ProtocolIsSolid();
    var tail3 := l.bytes + l.gap4;
    var tail2 := l.packets + (l.gap3 + tail3);
    var tail1 := l.index + (l.gap2 + tail2);
    assert tail3 == l.bytes + (l.gap4 + "");
    FieldsTakeWord(l.bytes, l.gap4, "");
    FieldsTakeWord(l.packets, l.gap3, tail3);
    FieldsTakeWord(l.index, l.gap2, tail2);
    FieldsTakeWord(PROTOCOL, l.gap1, tail1);
  }

  lemma FieldsLayout(s: string) returns (l: Layout)
    requires s != "" && !IsSpace(s[0]) && |Fields(s)| == 4 && Fields(s)[0] == PROTOCOL
    ensures l.Spaced() && s == l.Text()
    ensures Fields(s) == [PROTOCOL, l.index, l.packets, l.bytes]
  {
    var w0, g1, r1 := FieldsSplit(s);
    var w1, g2, r2 := FieldsSplit(r1);
    var w2, g3, r3 := FieldsSplit(r2);
    var w3, g4, r4 := FieldsSplit(r3);
    assert r4 == "";
    assert g4 + r4 == g4;
    l := Layout(g1, w1, g2, w2, g3, w3, g4);
  }

  lemma SpellingIsSolid(s: string, n: int)
    requires Spells(s, n)
    ensures Solid(s)
  {
    var sign, zeros: nat :| SpelledWith(s, n, sign, zeros);
    var digits := Zeros(zeros) + Print(Magnitude(n));
    assert s == sign + digits;
    assert AllDigits(digits);
  }

  // ---------- What the parser accepts ----------

  lemma AcceptedHasLayout(message: string, ack: Ack) returns (l: Layout)
    requires Parse(message) == Accepted(ack)
    ensures l.Text() == message && l.Means(ack) && InBounds(ack)
  {
    assert message[0] == PREFIX[0];
    l := FieldsLayout(message);
    ParseIntExact(l.index, ack.index);
    ParseIntExact(l.packets, ack.packets);
    ParseIntExact(l.bytes, ack.bytes);
  }

  lemma LayoutHasPrefix(l: Layout)
    ensures PREFIX <= l.Text()
  {
    var rest := l.gap1 + (l.index + (l.gap2 + (l.packets + (l.gap3 + (l.bytes + l.gap4)))));
    assert l.Text() == PROTOCOL + rest;
    assert PROTOCOL == PREFIX + "1";
    assert PREFIX + "1" + rest == PREFIX + ("1" + rest);
  }

  lemma ParsedFields(message: string, index: string, packets: string, bytes: string, ack: Ack)
    requires PREFIX <= message && Fields(message) == [PROTOCOL, index, packets, bytes]
    ensures Parse(message) == Accepted(ack) <==>
      && InBounds(ack)
      && ParseInt(index) == Some(ack.index)
      && ParseInt(packets) == Some(ack.packets)
      && ParseInt(bytes) == Some(ack.bytes)
  {
  }

  lemma LayoutIsAccepted(l: Layout, ack: Ack)
    requires l.Means(ack) && InBounds(ack)
    ensures Parse(l.Text()) == Accepted(ack)
  {
    LayoutFields(l);
    LayoutHasPrefix(l);
    ParsedFields(l.Text(), l.index, l.packets, l.bytes, ack);
    ParseIntExact(l.index, ack.index);
    ParseIntExact(l.packets, ack.packets);
    ParseIntExact(l.bytes, ack.bytes);
  }

  /** Exactly the messages that lay out spellings of three in-bounds numbers are accepted. */
  lemma AcceptedExactly(message: string, ack: Ack)
    ensures Parse(message) == Accepted(ack)
       <==> InBounds(ack) && exists l: Layout :: l.Text() == message && l.Means(ack)
    ensures Parse(message).Unsupported? <==> !(PREFIX <= message)
  {
    if Parse(message) == Accepted(ack) {
      var l := AcceptedHasLayout(message, ack);
    }
    if InBounds(ack) {
      forall l: Layout | l.Text() == message && l.Means(ack)
        ensures Parse(message) == Accepted(ack)
      {
        LayoutIsAccepted(l, ack);
      }
    }
  }

  /** The printed numbers with single spaces between them. */
  function PlainLayout(ack: Ack): Layout {
    Layout(" ", PrintSigned(ack.index), " ", PrintSigned(ack.packets), " ", PrintSigned(ack.bytes), "")
  }

  lemma PlainMeans(ack: Ack)
    ensures PlainLayout(ack).Means(ack)
  {
    PrintedSpells(ack.index);
    PrintedSpells(ack.packets);
    PrintedSpells(ack.bytes);
    SpellingIsSolid(PrintSigned(ack.index), ack.index);
    SpellingIsSolid(PrintSigned(ack.packets), ack.packets);
    SpellingIsSolid(PrintSigned(ack.bytes), ack.bytes);
  }

  lemma EncodeHasLayout(index: int) returns (l: Layout)
    ensures l.Text() == Encode(index) && l.Means(Ack(index, WINDOW_PACKETS, WINDOW_BYTES))
  {
    l := PlainLayout(Ack(index, WINDOW_PACKETS, WINDOW_BYTES));
    PlainMeans(Ack(index, WINDOW_PACKETS, WINDOW_BYTES));
    assert l.bytes + l.gap4 == l.bytes;
  }

  /** A printed acknowledgment parses back to itself for exactly the indices an `int` can count up to. */
  lemma RoundTrip(index: int)
    ensures Parse(Encode(index)) == Accepted(Ack(index, WINDOW_PACKETS, WINDOW_BYTES))
       <==> 0 <= index <= MAX_INT64
  {
    var l := EncodeHasLayout(index);
    var ack := Ack(index, WINDOW_PACKETS, WINDOW_BYTES);
    if InBounds(ack) {
      LayoutIsAccepted(l, ack);
    }
    if Parse(Encode(index)) == Accepted(ack) {
      var l' := AcceptedHasLayout(Encode(index), ack);
    }
  }

  /** Parsing is not injective: "-0" is read as index 0, and so is 0 behind zeros, a plus sign or more white space. */
  lemma ReadsAsIndexZero(sign: string, zeros: nat, gap: string) returns (l: Layout)
    requires (sign == "" || sign == "+" || sign == "-") && Blank(gap)
    ensures l.gap4 == gap && l.index == sign + (Zeros(zeros) + "0")
    ensures Parse(l.Text()) == Parse(Encode(0))
  {
    var plain := EncodeHasLayout(0);
    l := plain.(index := sign + (Zeros(zeros) + "0"), gap4 := gap);
    assert Print(0) == "0";
    assert SpelledWith(l.index, 0, sign, zeros);
    SpellingIsSolid(l.index, 0);
    LayoutIsAccepted(l, Ack(0, WINDOW_PACKETS, WINDOW_BYTES));
    RoundTrip(0);
  }

  lemma {:induction false} PrintIsShort(n: nat)
    ensures |Print(n)| <= n + 1
  {
    if n >= 10 {
      PrintIsShort(n / 10);
    }
  }

  /** An acknowledgment is far too short to have no encoding. */
  lemma EncodingIsShort(index: nat)
    ensures |Encode(index)| <= index + 2 * WINDOW_BYTES
  {
    PrintIsShort(index);
    PrintIsShort(WINDOW_PACKETS);
    PrintIsShort(WINDOW_BYTES);
  }

  // ---------- The text itself ----------

  lemma PrintsNext(n: nat, digits: string, d: nat)
    requires n > 0 && Print(n) == digits && d < 10
    ensures Print(10 * n + d) == digits + ["0123456789"[d]]
  {
    PrintAppends(n, d);
  }

  lemma PrintedByteLimit()
    ensures Print(33554432) == "33554432"
  {
    assert Print(3) == "3";
    hide Print;
    PrintsNext(3, "3", 3);
    PrintsNext(33, "33", 5);
    PrintsNext(335, "335", 5);
    PrintsNext(3355, "3355", 4);
    PrintsNext(33554, "33554", 4);
    PrintsNext(335544, "335544", 3);
    PrintsNext(3355443, "3355443", 2);
  }

  /** What an acknowledgment consists of; and one spelled out. */
  lemma WrittenAcknowledgment(index: int)
    ensures Encode(index) == "scionic-window/1" + (" " + (PrintSigned(index) + (" " + ("16" + (" " + "33554432")))))
    ensures PrintSigned(-10) == "-10" && PrintSigned(0) == "0" && PrintSigned(75) == "75"
  {
    PrintedByteLimit();
    assert Print(16) == "16" && Print(75) == "75" && Print(10) == "10";
    hide Print;
  }

  /** The white space of Unicode, by code point. */
  lemma SpaceExactly(c: char)
    ensures IsSpace(c) <==> c as int in {
      0x0009, 0x000A, 0x000B, 0x000C, 0x000D, 0x0020, 0x0085, 0x00A0, 0x1680, 0x2000, 0x2001, 0x2002, 0x2003,
      0x2004, 0x2005, 0x2006, 0x2007, 0x2008, 0x2009, 0x200A, 0x2028, 0x2029, 0x202F, 0x205F, 0x3000}
  {
  }

  /** The word is the spelling of some number within these bounds. */
  ghost predicate Between(word: string, low: int, high: int) {
    exists n :: low <= n <= high && Spells(word, n)
  }

  lemma BetweenExactly(word: string, low: int, high: int)
    requires MIN_INT64 <= low && high <= MAX_INT64
    ensures Between(word, low, high) <==> ParseInt(word).Some? && low <= ParseInt(word).value <= high
  {
    if ParseInt(word).Some? {
      ParseIntExact(word, ParseInt(word).value);
    }
    if n :| low <= n <= high && Spells(word, n) {
      ParseIntExact(word, n);
    }
  }

  /** Four words after the right name are refused for the first of index, packet limit and byte limit that is out of
      its bounds; otherwise they are read in this order. */
  lemma WordsExactly(l: Layout)
    requires l.Spaced()
    ensures var index := Between(l.index, 0, 9223372036854775807);
      var packets, bytes := Between(l.packets, 1, 64), Between(l.bytes, 1, 268435456);
      var parsed := Parse(l.Text());
      && (parsed == Malformed(BadIndex) <==> !index)
      && (parsed == Malformed(BadPacketLimit) <==> index && !packets)
      && (parsed == Malformed(BadByteLimit) <==> index && packets && !bytes)
      && (parsed.Accepted? <==> index && packets && bytes)
      && (parsed.Accepted? ==>
        Spells(l.index, parsed.ack.index) && Spells(l.packets, parsed.ack.packets) && Spells(l.bytes, parsed.ack.bytes))
  {
    LayoutFields(l);
    LayoutHasPrefix(l);
    BetweenExactly(l.index, 0, MAX_INT64);
    BetweenExactly(l.packets, 1, MAX_WINDOW_PACKETS);
    BetweenExactly(l.bytes, 1, MAX_WINDOW_BYTES);
    hide ParseInt, Spells, Fields, Between;
    var parsed := Parse(l.Text());
    if parsed.Accepted? {
      ParseIntExact(l.index, parsed.ack.index);
      ParseIntExact(l.packets, parsed.ack.packets);
      ParseIntExact(l.bytes, parsed.ack.bytes);
    }
  }

  /** Any other text with the prefix is refused for its shape. */
  lemma ShapeExactly(message: string)
    ensures Parse(message) == Malformed(BadShape) <==>
      "scionic-window/" <= message && !exists l: Layout :: l.Spaced() && l.Text() == message
  {
    if PREFIX <= message {
      if |Fields(message)| == 4 && Fields(message)[0] == PROTOCOL {
        assert message[0] == PREFIX[0];
        var l := FieldsLayout(message);
      }
      if l: Layout :| l.Spaced() && l.Text() == message {
        LayoutFields(l);
      }
    }
  }
}
