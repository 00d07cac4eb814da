/** The sender's estimate of the bytes a packet occupies on the wire. */
module PacketSize {
  import opened Wire

  const PACKET_OVERHEAD: int := 128
  const LEAF_OVERHEAD: int := 256
  const RELATIONSHIP_OVERHEAD: int := 32

  function CharBytes(c: char): nat {
    if c as int < 0x80 then 1 else if c as int < 0x800 then 2 else if c as int < 0x10000 then 3 else 4
  }

  /** Go's len of a string: its bytes in UTF-8. */
  function ByteLength(s: string): nat {
    if s == "" then 0 else ByteLength(s[1..]) + CharBytes(s[0])
  }

  function LeafCost(leaf: Option<Leaf>): nat {
    if leaf.None? then 0 else leaf.value.estimatedSize + LEAF_OVERHEAD
  }

  function LeafBytes(leaves: seq<Option<Leaf>>): nat {
    if leaves == [] then 0 else LeafBytes(leaves[..|leaves| - 1]) + LeafCost(leaves[|leaves| - 1])
  }

  function RelationshipCost(child: string, parent: string): nat {
    ByteLength(child) + ByteLength(parent) + RELATIONSHIP_OVERHEAD
  }

  ghost function AnyKey(m: map<string, string>): (k: string)
    requires m != map[]
    ensures k in m
  {
    var k :| k in m; k
  }

  ghost function RelationshipBytes(m: map<string, string>): nat
    decreases m.Keys
  {
    if m == map[] then 0
    else
      var k := AnyKey(m);
      RelationshipCost(k, m[k]) + RelationshipBytes(m - {k})
  }

  ghost function Size(packet: Packet): (size: nat)
    ensures size >= PACKET_OVERHEAD
  {
    PACKET_OVERHEAD + LeafBytes(packet.leaves) + RelationshipBytes(packet.relationships)
  }

  /** Any entry of a map may be counted first. */
  lemma {:induction false} CountFirst(m: map<string, string>, k: string)
    requires k in m
    ensures RelationshipBytes(m) == RelationshipCost(k, m[k]) + RelationshipBytes(m - {k})
    decreases m.Keys
  {
    var k' := AnyKey(m);
    if k != k' {
      CountFirst(m - {k'}, k);
      CountFirst(m - {k}, k');
      assert m - {k'} - {k} == m - {k} - {k'};
    }
  }

  // ---------- What each part of a packet adds ----------

  /** A character adds the bytes of its UTF-8 encoding. */
  lemma {:induction false} CharacterAdds(s: string, c: char)
    ensures ByteLength(s + [c]) == ByteLength(s) +
      (if c as int < 0x80 then 1 else if c as int < 0x800 then 2 else if c as int < 0x1_0000 then 3 else 4)
    ensures ByteLength("") == 0
    decreases |s|
  {
    if s != "" {
      CharacterAdds(s[1..], c);
      assert (s + [c])[1..] == s[1..] + [c];
    }
  }

  predicate Ascii(s: string) {
    forall i :: 0 <= i < |s| ==> s[i] as int < 0x80
  }

  lemma {:induction false} AsciiLength(s: string)
    requires Ascii(s)
    ensures ByteLength(s) == |s|
  {
    if s != "" {
      AsciiLength(s[1..]);
    }
  }

  lemma EmptyPacketSize(index: int, total: int)
    ensures Size(Packet([], map[], index, total)) == 128
  {
  }

  /** One more relationship adds the bytes of both its texts and 32. */
  lemma RelationshipAdds(p: Packet, child: string, parent: string)
    requires child !in p.relationships
    ensures var p' := p.(relationships := p.relationships[child := parent]);
      && Size(p') == Size(p) + ByteLength(child) + ByteLength(parent) + 32
      && (Ascii(child) && Ascii(parent) ==> Size(p') == Size(p) + |child| + |parent| + 32)
  {
    var m := p.relationships[child := parent];
    CountFirst(m, child);
    assert m - {child} == p.relationships;
    if Ascii(child) && Ascii(parent) {
      AsciiLength(child);
      AsciiLength(parent);
    }
  }

  lemma {:induction false} LeafBytesSplit(a: seq<Option<Leaf>>, b: seq<Option<Leaf>>)
    ensures LeafBytes(a + b) == LeafBytes(a) + LeafBytes(b)
  {
    if b == [] {
      assert a + b == a;
    } else {
      LeafBytesSplit(a, b[..|b| - 1]);
      assert (a + b)[..|a + b| - 1] == a + b[..|b| - 1];
    }
  }

  /** One more leaf, wherever it stands, adds its estimate and 256; a nil leaf adds nothing. */
  lemma LeafAdds(p: Packet, before: seq<Option<Leaf>>, leaf: Option<Leaf>, after: seq<Option<Leaf>>)
    requires p.leaves == before + after
    ensures Size(p.(leaves := before + [leaf] + after)) ==
      if leaf.None? then Size(p) else Size(p) + leaf.value.estimatedSize + 256
  {
    LeafBytesSplit(before, after);
    LeafBytesSplit(before, [leaf]);
    LeafBytesSplit(before + [leaf], after);
    assert [leaf][..0] == [];
  }

  /** What a loop over the map adds up when it visits the keys in this order. */
  function CostAlong(m: map<string, string>, order: seq<string>): nat
    requires forall k :: k in order ==> k in m
  {
    if order == [] then 0 else RelationshipCost(order[0], m[order[0]]) + CostAlong(m, order[1..])
  }

  lemma {:induction false} CostAlongSubmap(m: map<string, string>, m': map<string, string>, order: seq<string>)
    requires forall k :: k in order ==> k in m && k in m' && m[k] == m'[k]
    ensures CostAlong(m, order) == CostAlong(m', order)
  {
    if order != [] {
      CostAlongSubmap(m, m', order[1..]);
    }
  }

  lemma {:induction false} OrderIrrelevant(m: map<string, string>, order: seq<string>)
    requires forall k :: k in order <==> k in m
    requires forall i, j :: 0 <= i < j < |order| ==> order[i] != order[j]
    ensures CostAlong(m, order) == RelationshipBytes(m)
  {
    if order == [] {
      assert forall k :: k in m ==> k in order;
      assert m == map[];
    } else {
      var rest := m - {order[0]};
      CountFirst(m, order[0]);
      forall k ensures k in order[1..] <==> k in rest {
        assert k in order <==> k == order[0] || k in order[1..];
      }
      CostAlongSubmap(m, rest, order[1..]);
      OrderIrrelevant(rest, order[1..]);
    }
  }

  lemma LeafBytesNext(leaves: seq<Option<Leaf>>, i: nat)
    requires i < |leaves|
    ensures LeafBytes(leaves[..i + 1]) == LeafBytes(leaves[..i]) + LeafCost(leaves[i])
  {
    assert leaves[..i + 1][..i] == leaves[..i];
  }

  lemma VisitOne(unvisited: map<string, string>, child: string, counted: int)
    requires child in unvisited
    ensures var cost, rest := RelationshipCost(child, unvisited[child]), unvisited - {child};
      && rest.Keys < unvisited.Keys
      && counted + RelationshipBytes(unvisited) == counted + cost + RelationshipBytes(rest)
      && Int64(Int64(counted) + Int64(cost)) == Int64(counted + cost)
  {
    CountFirst(unvisited, child);
    Int64Grows(counted, RelationshipCost(child, unvisited[child]));
    hide Int64, RelationshipCost;
    var rest := unvisited - {child};
    assert rest.Keys == unvisited.Keys - {child};
  }

  lemma SizeParts(p: Packet)
    ensures LeafBytes(p.leaves[..0]) == 0 && RelationshipBytes(map[]) == 0
    ensures Size(p) == PACKET_OVERHEAD + LeafBytes(p.leaves[..|p.leaves|]) + RelationshipBytes(p.relationships)
  {
    assert p.leaves[..|p.leaves|] == p.leaves;
  }

  /** Visits the relationships in whatever order the map yields them. */
  method TransferPacketSize(packet: Option<Packet>) returns (size: int)
    ensures packet.None? ==> size == 0
    ensures packet.Some? ==> size == Int64(Size(packet.value))
  {
    hide Int64, LeafBytes, RelationshipBytes, RelationshipCost, Size;
    if packet.None? {
      return 0;
    }
    var p := packet.value;
    SizeParts(p);
    ghost var counted := PACKET_OVERHEAD;
    size := PACKET_OVERHEAD;
    for i := 0 to |p.leaves|
      invariant counted == PACKET_OVERHEAD + LeafBytes(p.leaves[..i])
      invariant size == Int64(counted)
    {
      LeafBytesNext(p.leaves, i);
      if p.leaves[i].Some? {
        var estimate := p.leaves[i].value.estimatedSize;
        Int64Accumulates(counted, estimate, LEAF_OVERHEAD);
        size := Int64(size + Int64(Int64(estimate) + LEAF_OVERHEAD));
        counted := counted + (estimate + LEAF_OVERHEAD);
      }
    }
    var unvisited := p.relationships;
    while unvisited != map[]
      invariant counted + RelationshipBytes(unvisited) == Size(p) && size == Int64(counted)
      decreases unvisited.Keys
    {
      var child :| child in unvisited;
      VisitOne(unvisited, child, counted);
      var cost := RelationshipCost(child, unvisited[child]);
      size := Int64(size + Int64(cost));
      counted := counted + cost;
      unvisited := unvisited - {child};
    }
  }
}
