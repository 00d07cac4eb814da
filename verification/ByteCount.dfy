/** The sender's byte count is an int64: when that matters, and when it does not. */
module ByteCount {
  import opened Wire
  import opened Sender
  import opened SenderRuns
  import PacketSize
  import WindowAck

  /** The byte test decided in int64 arithmetic agrees with the exact one precisely while the sum fits. */
  lemma GuardExactlyFits(bytes: int, size: int, limit: int)
    requires 0 <= bytes <= MAX_INT64 && 0 <= size <= MAX_INT64 && 1 <= limit <= WindowAck.MAX_WINDOW_BYTES
    ensures (Int64(bytes + size) <= limit <==> bytes + size <= limit) <==> bytes + size <= MAX_INT64
  {
  }

  /** If sums fit wherever they can be tested, they fit at every test the sender makes with something in flight,
      against any peer, and the test decides exactly whether the next packet keeps to the byte limit. */
  lemma GuardNeverOverflows(u: Upload, s: State)
    requires Sound(u, s) && s.phase.Windowed? && s.next < |u.packets| && Fits(u, s.limit)
    ensures |s.inFlight| > 0 ==> SumSizes(u, s.highest + 1, s.next + 1) <= MAX_INT64
    ensures HasRoom(u, s) <==>
      |s.inFlight| < s.limit.packets && (|s.inFlight| == 0 || SumSizes(u, s.highest + 1, s.next + 1) <= s.limit.bytes)
  {
    SumAppends(u, s.highest + 1, s.next);
    TrackedCount(u, s.inFlight, s.highest, s.next);
    Int64Grows(SumSizes(u, s.highest + 1, s.next), SizeAt(u, s.next));
    if |s.inFlight| > 0 {
      assert Testable(u, s.limit, s.highest + 1, s.next);
    }
    hide SumSizes, Tracks, Fits;
  }

  /** No packet reaches 2^62 bytes. */
  ghost predicate Modest(u: Upload) {
    forall i :: 0 <= i < |u.packets| ==> SizeAt(u, i) < 0x4000_0000_0000_0000
  }

  /** Then sums fit under any limit a peer can negotiate. */
  lemma ModestFits(u: Upload, limit: Limit)
    requires Modest(u) && limit.bytes <= WindowAck.MAX_WINDOW_BYTES
    ensures Fits(u, limit)
  {
    forall a, j | Testable(u, limit, a, j)
      ensures SumSizes(u, a, j + 1) <= MAX_INT64
    {
      SumAppends(u, a, j);
      if j == a + 1 {
        assert SumSizes(u, j, j) == 0;
        assert SumSizes(u, a, j) == SizeAt(u, a);
      }
    }
  }

  // ---------- Where sums do not fit, a test meets one that does not ----------

  lemma {:induction false} SumGrows(u: Upload, lo: int, mid: int, hi: int)
    requires lo <= mid <= hi
    ensures SumSizes(u, lo, mid) <= SumSizes(u, lo, hi)
    decreases hi - mid
  {
    if mid < hi {
      SumAppends(u, lo, hi - 1);
      SumGrows(u, lo, mid, hi - 1);
    }
  }

  /** The earliest packet that can be tested with a sum that does not fit. */
  ghost predicate FirstOverflow(u: Upload, limit: Limit, a: int, j: int) {
    && Testable(u, limit, a, j) && SumSizes(u, a, j + 1) > MAX_INT64
    && forall a', j' :: Testable(u, limit, a', j') && j' < j ==> SumSizes(u, a', j' + 1) <= MAX_INT64
  }

  lemma {:induction false} FindFirstOverflow(u: Upload, limit: Limit, a: int, j: int) returns (a0: int, j0: int)
    requires Testable(u, limit, a, j) && SumSizes(u, a, j + 1) > MAX_INT64
    ensures FirstOverflow(u, limit, a0, j0)
    decreases j
  {
    if a', j' :| Testable(u, limit, a', j') && j' < j && SumSizes(u, a', j' + 1) > MAX_INT64 {
      a0, j0 := FindFirstOverflow(u, limit, a', j');
    } else {
      a0, j0 := a, j;
    }
  }

  /** Until packet j is tested, packet a - 1 can be the last one acknowledged. */
  ghost predicate Approaches(u: Upload, limit: Limit, a: int, j: int, s: State) {
    Sound(u, s) && s.phase.Windowed? && s.limit == limit && s.highest < a && s.next <= j
  }

  /** With packet a the first in flight the sender writes on to packet j. */
  lemma RoomUpTo(u: Upload, limit: Limit, a: int, j: int, s: State)
    requires FirstOverflow(u, limit, a, j) && Approaches(u, limit, a, j, s) && s.next < j && s.highest == a - 1
    ensures HasRoom(u, s)
  {
    TrackedCount(u, s.inFlight, s.highest, s.next);
    if s.next > a {
      SumGrows(u, a, s.next, j);
      SumGrows(u, a, s.next + 1, j);
      assert Testable(u, limit, a, s.next);
      SumAppends(u, a, s.next);
      Int64Grows(SumSizes(u, a, s.next), SizeAt(u, s.next));
    }
    hide SumSizes, Tracks, Fits;
  }

  /** An acknowledgment of this packet under this limit. */
  lemma SpelledAck(ack: WindowAck.Ack) returns (message: string)
    requires WindowAck.InBounds(ack)
    ensures WindowAck.Parse(message) == WindowAck.Accepted(ack)
  {
    var l := WindowAck.PlainLayout(ack);
    WindowAck.PlainMeans(ack);
    WindowAck.LayoutIsAccepted(l, ack);
    message := l.Text();
  }

  /** An acknowledgment moves the window on by one packet. */
  lemma OneAcknowledged(u: Upload, s: State) returns (outcome: Outcome)
    requires Sound(u, s) && s.phase.Windowed? && ReadDue(u, s) && s.highest + 1 < |u.packets| - 1 <= MAX_INT64
    ensures var s' := AfterRead(u, s, outcome);
      Sound(u, s') && s'.phase.Windowed? && s'.limit == s.limit && s'.highest == s.highest + 1 && s'.next == s.next
  {
    hide WindowAck.Parse, AfterWindowReply;
    var message := SpelledAck(WindowAck.Ack(s.highest + 1, s.limit.packets, s.limit.bytes));
    outcome := Received(Some(Response(true, message)));
    WaitsOnlyWhenFull(u, s);
    TrackedCount(u, s.inFlight, s.highest, s.next);
    assert Advances(s, outcome, s.highest + 1);
    WindowReplyAcceptedExactly(u, s, outcome);
    WindowReplyEffect(u, s, outcome);
    WindowReplyShape(u, s, outcome);
    ReadKeepsSound(u, s, outcome);
  }

  /** State s is reached on a transfer from `begun`, k steps on. */
  ghost predicate Reaches(u: Upload, begun: State, replies: seq<Outcome>, writes: nat, k: nat, s: State) {
    var path := Path(u, begun, replies, writes);
    k < |path| && path[k] == s
  }

  lemma ReachesItself(u: Upload, s: State)
    ensures Reaches(u, s, [], 0, 0, s)
  {
    hide AfterRead, HasRoom;
  }

  lemma ReachesByWrite(u: Upload, begun: State, replies: seq<Outcome>, writes: nat, k: nat, s: State)
    requires WriteDue(u, begun) && Reaches(u, AfterWrite(u, begun, true), replies, writes, k, s)
    ensures Reaches(u, begun, replies, writes + 1, k + 1, s)
  {
    hide AfterRead, HasRoom;
  }

  lemma ReachesByRead(u: Upload, begun: State, outcome: Outcome, replies: seq<Outcome>, writes: nat, k: nat, s: State)
    requires ReadDue(u, begun) && Reaches(u, AfterRead(u, begun, outcome), replies, writes, k, s)
    ensures Reaches(u, begun, [outcome] + replies, writes, k + 1, s)
  {
    hide AfterRead, HasRoom;
    assert ([outcome] + replies)[1..] == replies;
  }

  /** The sender is about to test its next packet with others in flight, and the sum does not fit. */
  ghost predicate Overflows(u: Upload, s: State) {
    && s.phase.Windowed? && s.next < |u.packets| && |s.inFlight| > 0
    && SumSizes(u, s.highest + 1, s.next + 1) > MAX_INT64
  }

  lemma ArrivalOverflows(u: Upload, limit: Limit, a: int, j: int, s: State)
    requires FirstOverflow(u, limit, a, j) && Approaches(u, limit, a, j, s) && s.next == j
    ensures Overflows(u, s)
  {
    TrackedCount(u, s.inFlight, s.highest, s.next);
    SumShrinks(u, s.highest + 1, a, j + 1);
  }

  lemma StopsBefore(u: Upload, limit: Limit, a: int, j: int, s: State)
    requires FirstOverflow(u, limit, a, j) && Approaches(u, limit, a, j, s) && s.next < j && !WriteDue(u, s)
    ensures s.highest + 1 < a < j < |u.packets| && ReadDue(u, s)
  {
    if s.highest == a - 1 {
      RoomUpTo(u, limit, a, j, s);
    }
  }

  lemma {:induction false} ApproachOverflow(u: Upload, limit: Limit, a: int, j: int, s: State)
    returns (replies: seq<Outcome>, writes: nat, k: nat, s': State)
    requires FirstOverflow(u, limit, a, j) && Approaches(u, limit, a, j, s) && |u.packets| <= MAX_INT64
    ensures Reaches(u, s, replies, writes, k, s') && Overflows(u, s') && s'.limit == limit
    decreases j - s.next, a - s.highest
  {
    hide Reaches, FirstOverflow, Sound;
    if s.next == j {
      replies, writes, k, s' := [], 0, 0, s;
      ReachesItself(u, s);
      ArrivalOverflows(u, limit, a, j, s);
    } else if WriteDue(u, s) {
      WriteKeepsSound(u, s, true);
      replies, writes, k, s' := ApproachOverflow(u, limit, a, j, AfterWrite(u, s, true));
      ReachesByWrite(u, s, replies, writes, k, s');
      writes, k := writes + 1, k + 1;
    } else {
      StopsBefore(u, limit, a, j, s);
      var outcome := OneAcknowledged(u, s);
      replies, writes, k, s' := ApproachOverflow(u, limit, a, j, AfterRead(u, s, outcome));
      ReachesByRead(u, s, outcome, replies, writes, k, s');
      replies, k := [outcome] + replies, k + 1;
    }
  }

  /** A peer that opens the window to this limit. */
  lemma WindowOpensTo(u: Upload, limit: Limit) returns (outcome: Outcome)
    requires |u.packets| > 1 && WindowAck.InBounds(WindowAck.Ack(0, limit.packets, limit.bytes))
    ensures var waiting := AfterWrite(u, START, true);
      var s := AfterRead(u, waiting, outcome);
      && WriteDue(u, START) && ReadDue(u, waiting)
      && Sound(u, s) && s.phase.Windowed? && s.limit == limit && s.highest == 0 && s.next == 1
  {
    hide WindowAck.Parse;
    var message := SpelledAck(WindowAck.Ack(0, limit.packets, limit.bytes));
    outcome := Received(Some(Response(true, message)));
    StartIsSound(u);
    WriteKeepsSound(u, START, true);
    ReadKeepsSound(u, AfterWrite(u, START, true), outcome);
  }

  lemma OverflowIsMet(u: Upload, limit: Limit, a: int, j: int)
    returns (replies: seq<Outcome>, writes: nat, k: nat, s: State)
    requires WindowAck.InBounds(WindowAck.Ack(0, limit.packets, limit.bytes)) && |u.packets| <= MAX_INT64
    requires Testable(u, limit, a, j) && SumSizes(u, a, j + 1) > MAX_INT64
    ensures Reaches(u, START, replies, writes, k, s) && Overflows(u, s) && s.limit == limit
  {
    hide Reaches, AfterRead, Sound, SumSizes;
    var a0, j0 := FindFirstOverflow(u, limit, a, j);
    var outcome := WindowOpensTo(u, limit);
    var waiting := AfterWrite(u, START, true);
    replies, writes, k, s := ApproachOverflow(u, limit, a0, j0, AfterRead(u, waiting, outcome));
    ReachesByRead(u, waiting, outcome, replies, writes, k, s);
    ReachesByWrite(u, START, [outcome] + replies, writes, k + 1, s);
    replies, writes, k := [outcome] + replies, writes + 1, k + 2;
  }

  lemma ReachedIsSound(u: Upload, replies: seq<Outcome>, writes: nat, k: nat, s: State)
    requires |u.packets| > 0 && Reaches(u, START, replies, writes, k, s)
    ensures Sound(u, s)
  {
    hide Path;
    StartIsSound(u);
    PathIsSound(u, START, replies, writes);
  }

  lemma FitsNeverOverflows(u: Upload, s: State)
    requires Sound(u, s) && Fits(u, s.limit)
    ensures !Overflows(u, s)
  {
    if s.phase.Windowed? && s.next < |u.packets| {
      GuardNeverOverflows(u, s);
    }
  }

  /** No transfer under this limit, whatever the peer, tests a sum that does not fit if and only if sums fit wherever
      they can be tested. */
  lemma NeverOverflowsExactly(u: Upload, limit: Limit)
    requires 0 < |u.packets| <= MAX_INT64 && WindowAck.InBounds(WindowAck.Ack(0, limit.packets, limit.bytes))
    ensures Fits(u, limit) <==>
      forall replies, writes: nat, k: nat, s ::
        Reaches(u, START, replies, writes, k, s) && s.limit == limit ==> !Overflows(u, s)
  {
    hide Reaches, SumSizes, Overflows;
    if Fits(u, limit) {
      forall replies, writes: nat, k: nat, s | Reaches(u, START, replies, writes, k, s) && s.limit == limit
        ensures !Overflows(u, s)
      {
        ReachedIsSound(u, replies, writes, k, s);
        FitsNeverOverflows(u, s);
      }
    } else {
      var a, j :| Testable(u, limit, a, j) && SumSizes(u, a, j + 1) > MAX_INT64;
      var replies, writes, k, s := OverflowIsMet(u, limit, a, j);
    }
  }

  // ---------- Gigantic packets ----------

  /** A packet of exactly 2^62 bytes. */
  function Gigantic(index: nat): Packet {
    var estimate := 0x4000_0000_0000_0000 - PacketSize.PACKET_OVERHEAD - PacketSize.LEAF_OVERHEAD;
    Packet([Some(Leaf("h", estimate))], map[], index, 3)
  }

  /** A sender that has one such packet in flight and another to go. */
  function GiganticInFlight(): (Upload, State) {
    (Upload("r", [Packet([], map[], 0, 3), Gigantic(1), Gigantic(2)], "", ""),
     State(Windowed, Limit(16, 32 * 1024 * 1024), 2, 1, 0, map[1 := 0x4000_0000_0000_0000], 0x4000_0000_0000_0000, [0]))
  }

  lemma GiganticSize(index: nat)
    ensures PacketSize.Size(Gigantic(index)) == 0x4000_0000_0000_0000
  {
    var leaves := Gigantic(index).leaves;
    assert leaves[..0] == [];
    assert PacketSize.LeafBytes(leaves) == PacketSize.LeafBytes([]) + PacketSize.LeafCost(leaves[0]);
  }

  /** What a receiver of this protocol opens the window to. */
  lemma WindowNegotiated(u: Upload)
    requires |u.packets| > 1
    ensures AfterRead(u, AfterWrite(u, START, true), Received(Some(Response(true, WindowAck.Encode(0)))))
         == State(Windowed, Limit(WindowAck.WINDOW_PACKETS, WindowAck.WINDOW_BYTES), 1, 1, 0, map[], 0, [0])
  {
    WindowAck.RoundTrip(0);
    hide WindowAck.Parse, WindowAck.Encode;
  }

  /** Such a receiver brings an upload of gigantic packets there. */
  lemma GiganticIsReached()
    ensures var (u, s) := GiganticInFlight();
      var windowed := AfterRead(u, AfterWrite(u, START, true), Received(Some(Response(true, WindowAck.Encode(0)))));
      WriteDue(u, windowed) && AfterWrite(u, windowed, true) == s
  {
    hide AfterRead, WindowAck.Encode, PacketSize.Size;
    var (u, s) := GiganticInFlight();
    WindowNegotiated(u);
    GiganticSize(1);
    assert CountedAt(u, 1) == 0x4000_0000_0000_0000;
    assert map[][1 := 0x4000_0000_0000_0000] == s.inFlight;
  }

  lemma GiganticSums()
    ensures var u := GiganticInFlight().0;
      && SizeAt(u, 1) == SizeAt(u, 2) == 0x4000_0000_0000_0000
      && SumSizes(u, 1, 2) == 0x4000_0000_0000_0000 && SumSizes(u, 1, 3) == 0x8000_0000_0000_0000
  {
    var u := GiganticInFlight().0;
    GiganticSize(1);
    GiganticSize(2);
    hide PacketSize.Size;
    assert SumSizes(u, 2, 2) == 0 == SumSizes(u, 3, 3);
    assert SumSizes(u, 2, 3) == 0x4000_0000_0000_0000;
  }

  /** The bound is tight: with packets of 2^62 bytes the test lets a second one in, the count wraps around, and the
      window is overrun. */
  lemma GiganticPacketsOverrun()
    ensures var (u, s) := GiganticInFlight();
      var s' := AfterWrite(u, s, true);
      && Sound(u, s) && WriteDue(u, s) && !Modest(u)
      && s'.bytes < 0 && |s'.inFlight| == 2 && SumSizes(u, s'.highest + 1, s'.next) > s'.limit.bytes
  {
    var (u, s) := GiganticInFlight();
    GiganticSums();
    hide PacketSize.Size, SumSizes, SizeAt;
  }
}
