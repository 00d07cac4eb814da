/** What holds of the sender before and after every write and reply, whatever the peer answers. */
module SenderRuns {
  import opened Wire
  import opened Sender
  import WindowAck
  import PacketSize

  // ---------- The in-flight window ----------

  ghost function SumSizes(u: Upload, lo: int, hi: int): (sum: int)
    ensures sum >= 0
    decreases hi - lo
  {
    if lo >= hi then 0 else SizeAt(u, lo) + SumSizes(u, lo + 1, hi)
  }

  lemma {:induction false} SumAppends(u: Upload, lo: int, hi: int)
    requires lo <= hi
    ensures SumSizes(u, lo, hi + 1) == SumSizes(u, lo, hi) + SizeAt(u, hi)
    decreases hi - lo
  {
    if lo < hi {
      SumAppends(u, lo + 1, hi);
    }
  }

  /** The table holds the counted sizes of exactly the packets after `highest` and before `next`. */
  ghost predicate Tracks(u: Upload, inFlight: map<int, int>, highest: int, next: int) {
    && (forall i :: i in inFlight <==> highest < i < next)
    && (forall i :: i in inFlight ==> inFlight[i] == CountedAt(u, i))
  }

  /** Packet j, tested while a to j-1 are in flight. */
  ghost predicate Testable(u: Upload, limit: Limit, a: int, j: int) {
    1 <= a < j < |u.packets| && j - a <= limit.packets && (j == a + 1 || SumSizes(u, a, j) <= limit.bytes)
  }

  /** Wherever a packet can be tested with others in flight, the sum of their sizes and its own fits an int64. */
  ghost predicate Fits(u: Upload, limit: Limit) {
    forall a, j :: Testable(u, limit, a, j) ==> SumSizes(u, a, j + 1) <= MAX_INT64
  }

  /** The byte count is the sum of the sizes in flight, as an int64; and as far as sums fit, that sum keeps to the byte
      limit while more than one packet is in flight. */
  ghost predicate BytesKept(u: Upload, s: State) {
    var sum := SumSizes(u, s.highest + 1, s.next);
    s.bytes == Int64(sum) && (Fits(u, s.limit) ==> sum <= s.limit.bytes || |s.inFlight| == 1)
  }

  ghost predicate WindowSafe(u: Upload, s: State) {
    && 1 <= s.limit.packets <= WindowAck.MAX_WINDOW_PACKETS
    && 1 <= s.limit.bytes <= WindowAck.MAX_WINDOW_BYTES
    && 0 <= s.highest < s.next <= |u.packets|
    && Tracks(u, s.inFlight, s.highest, s.next)
    && BytesKept(u, s)
    && |s.inFlight| <= s.limit.packets
  }

  lemma {:induction false} CountBetween(keys: set<int>, highest: int, next: int)
    requires highest < next && forall i :: i in keys <==> highest < i < next
    ensures |keys| == next - highest - 1
    decreases next - highest
  {
    if highest + 1 == next {
      assert forall i :: i !in keys;
      assert keys == {};
    } else {
      assert highest + 1 in keys;
      var rest := keys - {highest + 1};
      assert keys == rest + {highest + 1};
      CountBetween(rest, highest + 1, next);
    }
  }

  lemma TrackedCount(u: Upload, inFlight: map<int, int>, highest: int, next: int)
    requires Tracks(u, inFlight, highest, next) && highest < next
    ensures |inFlight| == next - highest - 1
  {
    hide CountedAt;
    CountBetween(inFlight.Keys, highest, next);
  }

  ghost predicate ReleasedTo(u: Upload, released: Option<(map<int, int>, int)>, upTo: int, next: int) {
    released.Some? && Tracks(u, released.value.0, upTo, next) && released.value.1 == Int64(SumSizes(u, upTo + 1, next))
  }

  /** Releasing up to an index already written always finds every packet. */
  lemma {:induction false} ReleaseSucceeds(u: Upload, inFlight: map<int, int>, highest: int, upTo: int, next: int)
    requires highest <= upTo < next && Tracks(u, inFlight, highest, next)
    ensures ReleasedTo(u, Released(inFlight, Int64(SumSizes(u, highest + 1, next)), highest + 1, upTo), upTo, next)
    decreases upTo - highest
  {
    hide Int64, PacketSize.Size;
    if highest < upTo {
      assert highest + 1 in inFlight;
      ReleaseSucceeds(u, inFlight - {highest + 1}, highest + 1, upTo, next);
      assert SumSizes(u, highest + 1, next) == SizeAt(u, highest + 1) + SumSizes(u, highest + 2, next);
      Int64Adds(SumSizes(u, highest + 1, next), SizeAt(u, highest + 1));
    }
  }

  lemma {:induction false} SumShrinks(u: Upload, lo: int, mid: int, hi: int)
    requires lo <= mid
    ensures SumSizes(u, mid, hi) <= SumSizes(u, lo, hi)
    decreases mid - lo
  {
    if lo < mid {
      SumShrinks(u, lo + 1, mid, hi);
    }
  }

  /** Every packet weighs at least its fixed overhead. */
  lemma {:induction false} SumAtLeastOverhead(u: Upload, lo: int, hi: int)
    requires 0 <= lo <= hi <= |u.packets|
    ensures SumSizes(u, lo, hi) >= PacketSize.PACKET_OVERHEAD * (hi - lo)
    decreases hi - lo
  {
    if lo < hi {
      SumAtLeastOverhead(u, lo + 1, hi);
    }
  }

  lemma InFlightOverhead(u: Upload, s: State)
    requires WindowSafe(u, s)
    ensures PacketSize.PACKET_OVERHEAD * |s.inFlight| <= SumSizes(u, s.highest + 1, s.next)
    ensures SumSizes(u, s.highest + 1, s.next) <= MAX_INT64 ==> PacketSize.PACKET_OVERHEAD * |s.inFlight| <= s.bytes
  {
    TrackedCount(u, s.inFlight, s.highest, s.next);
    SumAtLeastOverhead(u, s.highest + 1, s.next);
  }

  // ---------- The whole state ----------

  predicate Ascending(trace: seq<int>) {
    forall i, j :: 0 <= i < j < |trace| ==> trace[i] < trace[j]
  }

  /** Progress starts at the root packet and only moves forward, up to `last`. */
  predicate ProgressTo(trace: seq<int>, last: int) {
    && |trace| > 0 && trace[0] == 0 && trace[|trace| - 1] == last && Ascending(trace)
  }

  function CountTo(n: nat): (trace: seq<int>)
    ensures |trace| == n && forall i :: 0 <= i < n ==> trace[i] == i
  {
    if n == 0 then [] else CountTo(n - 1) + [n - 1]
  }

  predicate Unopened(s: State) {
    s.highest == 0 && s.inFlight == map[] && s.bytes == 0
  }

  /** A stop-and-wait transfer never touches the window; one with a window keeps it safe in every phase, also when it
      has failed, and leaves it empty when it has succeeded. */
  ghost predicate Sound(u: Upload, s: State) {
    && |u.packets| > 0 && s.next <= |u.packets|
    && (if s.limit == NO_LIMIT then Unopened(s) else WindowSafe(u, s))
    && match s.phase
       case Root => s.next <= 1 && s.taken == 0 && s.acked == [] && s.limit == NO_LIMIT
       case Legacy =>
         && 1 <= s.taken <= s.next <= s.taken + 1 && s.taken < |u.packets|
         && s.acked == CountTo(s.taken) && s.limit == NO_LIMIT
       case Windowed =>
         && s.limit != NO_LIMIT && s.highest < |u.packets| - 1
         && s.taken == |s.acked| && ProgressTo(s.acked, s.highest)
       case Succeeded =>
         && s.next == |u.packets| && s.taken == |s.acked| && ProgressTo(s.acked, s.next - 1)
         && s.inFlight == map[] && s.bytes == 0
         && (s.limit == NO_LIMIT ==> s.acked == CountTo(s.next))
       case Failed(fault) =>
         && fault != SkippedUnknownPacket
         && (s.acked == [] || (ProgressTo(s.acked, s.acked[|s.acked| - 1]) && s.acked[|s.acked| - 1] < s.next))
  }

  lemma StartIsSound(u: Upload)
    requires |u.packets| > 0
    ensures Sound(u, START)
  {
  }

  lemma TracksOneMore(u: Upload, inFlight: map<int, int>, highest: int, next: int)
    requires Tracks(u, inFlight, highest, next) && highest < next
    ensures Tracks(u, inFlight[next := CountedAt(u, next)], highest, next + 1)
  {
  }

  /** Where the sum fits, the test lets in just what keeps to the byte limit. */
  lemma WrittenBytesKept(u: Upload, s: State)
    requires BytesKept(u, s) && 0 <= s.highest < s.next < |u.packets| && HasRoom(u, s)
    requires |s.inFlight| == s.next - s.highest - 1
    requires |AfterWrite(u, s, true).inFlight| == |s.inFlight| + 1 && s.phase.Windowed?
    ensures BytesKept(u, AfterWrite(u, s, true))
  {
    hide PacketSize.Size;
    SumAppends(u, s.highest + 1, s.next);
    Int64Grows(SumSizes(u, s.highest + 1, s.next), SizeAt(u, s.next));
    if Fits(u, s.limit) && |s.inFlight| > 0 {
      assert Testable(u, s.limit, s.highest + 1, s.next);
    }
    hide SumSizes, Tracks, Fits;
  }

  lemma SameWindowSafe(u: Upload, s: State, s': State)
    requires WindowSafe(u, s)
    requires s'.limit == s.limit && s'.highest == s.highest && s'.next == s.next
    requires s'.inFlight == s.inFlight && s'.bytes == s.bytes
    ensures WindowSafe(u, s')
  {
  }

  lemma RoomLeft(u: Upload, s: State)
    requires HasRoom(u, s)
    ensures |s.inFlight| < s.limit.packets
  {
  }

  lemma WriteKeepsWindow(u: Upload, s: State)
    requires WindowSafe(u, s) && s.phase.Windowed? && s.next < |u.packets| && HasRoom(u, s)
    ensures WindowSafe(u, AfterWrite(u, s, true))
  {
    hide HasRoom, SumSizes, BytesKept;
    var s' := AfterWrite(u, s, true);
    TracksOneMore(u, s.inFlight, s.highest, s.next);
    TrackedCount(u, s.inFlight, s.highest, s.next);
    TrackedCount(u, s'.inFlight, s.highest, s'.next);
    RoomLeft(u, s);
    WrittenBytesKept(u, s);
  }

  lemma CountedProgress(n: nat)
    ensures n > 0 ==> ProgressTo(CountTo(n), n - 1)
  {
  }

  lemma WindowNonempty(u: Upload, s: State)
    requires WindowSafe(u, s)
    ensures 0 <= s.highest < s.next <= |u.packets| && s.limit.packets > 0
  {
  }

  lemma WriteKeepsSound(u: Upload, s: State, ok: bool)
    requires Sound(u, s) && WriteDue(u, s)
    ensures Sound(u, AfterWrite(u, s, ok))
  {
    hide WindowSafe, HasRoom;
    match s.phase {
      case Windowed =>
        WindowNonempty(u, s);
        if ok {
          WriteKeepsWindow(u, s);
        } else {
          SameWindowSafe(u, s, AfterWrite(u, s, ok));
        }
      case _ =>
        CountedProgress(s.taken);
    }
  }

  lemma ProgressAdvances(trace: seq<int>, last: int, next: int)
    requires ProgressTo(trace, last) && last < next
    ensures ProgressTo(trace + [next], next)
  {
  }

  lemma AcceptedInBounds(message: string)
    ensures WindowAck.Parse(message).Accepted? ==> WindowAck.InBounds(WindowAck.Parse(message).ack)
  {
    var parsed := WindowAck.Parse(message);
    if parsed.Accepted? {
      var l := WindowAck.AcceptedHasLayout(message, parsed.ack);
    }
  }

  lemma WindowOpens(u: Upload, s: State)
    requires |u.packets| > 0 && s.next == 1 && s.highest == 0 && s.inFlight == map[] && s.bytes == 0
    requires 1 <= s.limit.packets <= WindowAck.MAX_WINDOW_PACKETS && 1 <= s.limit.bytes <= WindowAck.MAX_WINDOW_BYTES
    ensures WindowSafe(u, s)
  {
  }

  lemma FirstProgress()
    ensures [] + [0] == [0] == CountTo(1) && ProgressTo([0], 0)
  {
    assert CountTo(0) == [];
  }

  lemma RootReplyShape(u: Upload, s: State, outcome: Outcome)
    requires s.limit == NO_LIMIT && Unopened(s) && |u.packets| > 0 && s.acked == []
    ensures var s' := AfterRootReply(u, s, outcome);
      && Unopened(s') && s'.next == s.next && s'.taken == s.taken + 1
      && (s'.phase.Failed? ==> s'.limit == NO_LIMIT && s'.acked in [[], [0]] && s'.phase.fault != SkippedUnknownPacket)
      && (!s'.phase.Failed? ==>
        && s'.acked == [0]
        && s'.phase == (if |u.packets| == 1 then Succeeded else if s'.limit == NO_LIMIT then Legacy else Windowed))
      && (s'.limit != NO_LIMIT ==>
        1 <= s'.limit.packets <= WindowAck.MAX_WINDOW_PACKETS && 1 <= s'.limit.bytes <= WindowAck.MAX_WINDOW_BYTES)
  {
    hide WindowAck.Parse;
    assert s.acked + [0] == [0];
    if ReplyFault(outcome).None? {
      AcceptedInBounds(outcome.response.value.message);
    }
  }

  lemma RootReplyKeepsSound(u: Upload, s: State, outcome: Outcome)
    requires Sound(u, s) && s.phase.Root? && ReadDue(u, s)
    ensures Sound(u, AfterRead(u, s, outcome))
  {
    hide AfterRootReply, WindowSafe, HasRoom, CountTo, ProgressTo;
    FirstProgress();
    RootReplyShape(u, s, outcome);
    if AfterRootReply(u, s, outcome).limit != NO_LIMIT {
      WindowOpens(u, AfterRootReply(u, s, outcome));
    }
  }

  lemma LegacyReplyKeepsSound(u: Upload, s: State, outcome: Outcome)
    requires Sound(u, s) && s.phase.Legacy? && ReadDue(u, s)
    ensures Sound(u, AfterRead(u, s, outcome))
  {
    hide WindowAck.Parse, WindowSafe, HasRoom;
    if ReplyFault(outcome).None? {
      assert s.acked + [s.next - 1] == CountTo(s.taken + 1);
    } else {
      assert s.acked[|s.acked| - 1] == s.taken - 1;
    }
  }

  predicate Agrees(outcome: Outcome) {
    outcome.Received? && outcome.response.Some? && outcome.response.value.ok
  }

  /** What an accepted reply makes of the window variables. */
  lemma WindowReplyShape(u: Upload, s: State, outcome: Outcome)
    requires s.phase.Windowed? && !AfterWindowReply(u, s, outcome).phase.Failed?
    ensures
      var s' := AfterWindowReply(u, s, outcome);
      var released := Released(s.inFlight, s.bytes, s.highest + 1, s'.highest);
      && released.Some? && released.value.0 == s'.inFlight && released.value.1 == s'.bytes
      && s.highest < s'.highest < s.next && s'.highest < |u.packets|
      && s'.next == s.next && s'.limit == s.limit && s'.acked == s.acked + [s'.highest] && s'.taken == s.taken + 1
      && s'.phase == (if s'.highest < |u.packets| - 1 then Windowed else Succeeded)
      && WindowAck.Parse(outcome.response.value.message)
         == WindowAck.Accepted(WindowAck.Ack(s'.highest, s.limit.packets, s.limit.bytes))
      && Agrees(outcome)
  {
    hide WindowAck.Parse, Released;
  }

  lemma ReplyKeepsWindow(u: Upload, s: State, outcome: Outcome)
    requires WindowSafe(u, s) && s.phase.Windowed?
    requires !AfterWindowReply(u, s, outcome).phase.Failed?
    ensures WindowSafe(u, AfterWindowReply(u, s, outcome))
  {
    hide AfterWindowReply, Released, WindowAck.Parse;
    var s' := AfterWindowReply(u, s, outcome);
    WindowReplyShape(u, s, outcome);
    ReleaseSucceeds(u, s.inFlight, s.highest, s'.highest, s.next);
    SumShrinks(u, s.highest + 1, s'.highest + 1, s.next);
    TrackedCount(u, s.inFlight, s.highest, s.next);
    TrackedCount(u, s'.inFlight, s'.highest, s.next);
  }

  /** No peer can make the sender find an acknowledged packet missing from its table. */
  lemma UnknownPacketUnreachable(u: Upload, s: State, parsed: WindowAck.AckParse)
    requires WindowSafe(u, s)
    ensures AckFault(u, s, parsed) != Some(SkippedUnknownPacket)
  {
    if parsed.Accepted? && s.highest < parsed.ack.index < s.next {
      ReleaseSucceeds(u, s.inFlight, s.highest, parsed.ack.index, s.next);
    }
  }

  lemma FailedReplyKeeps(u: Upload, s: State, outcome: Outcome)
    requires s.phase.Windowed? && AfterWindowReply(u, s, outcome).phase.Failed?
    requires WindowSafe(u, s)
    ensures var s' := AfterWindowReply(u, s, outcome);
      && s'.limit == s.limit && s'.highest == s.highest && s'.next == s.next && s'.inFlight == s.inFlight
      && s'.bytes == s.bytes && s'.acked == s.acked && s'.phase != Failed(SkippedUnknownPacket)
  {
    if ReplyFault(outcome).None? {
      UnknownPacketUnreachable(u, s, WindowAck.Parse(outcome.response.value.message));
    }
    hide WindowAck.Parse, Released, WindowSafe;
  }

  lemma LastAckEmptiesWindow(u: Upload, s: State)
    requires WindowSafe(u, s) && s.highest == |u.packets| - 1
    ensures s.next == |u.packets| && s.inFlight == map[] && s.bytes == 0
  {
    TrackedCount(u, s.inFlight, s.highest, s.next);
  }

  lemma WindowReplyKeepsSound(u: Upload, s: State, outcome: Outcome)
    requires Sound(u, s) && s.phase.Windowed?
    ensures Sound(u, AfterRead(u, s, outcome))
  {
    hide AfterWindowReply, WindowAck.Parse, WindowSafe, HasRoom;
    var s' := AfterWindowReply(u, s, outcome);
    if s'.phase.Failed? {
      FailedReplyKeeps(u, s, outcome);
      SameWindowSafe(u, s, s');
    } else {
      WindowReplyShape(u, s, outcome);
      ReplyKeepsWindow(u, s, outcome);
      ProgressAdvances(s.acked, s.highest, s'.highest);
      if s'.phase.Succeeded? {
        LastAckEmptiesWindow(u, s');
      }
    }
    WindowNonempty(u, s);
  }

  lemma ReadCounts(u: Upload, s: State, outcome: Outcome)
    requires ReadDue(u, s)
    ensures AfterRead(u, s, outcome).taken == s.taken + 1 && AfterRead(u, s, outcome).next == s.next
  {
  }

  lemma ReadKeepsSound(u: Upload, s: State, outcome: Outcome)
    requires Sound(u, s) && ReadDue(u, s)
    ensures Sound(u, AfterRead(u, s, outcome))
  {
    match s.phase
    case Root => RootReplyKeepsSound(u, s, outcome);
    case Legacy => LegacyReplyKeepsSound(u, s, outcome);
    case Windowed => WindowReplyKeepsSound(u, s, outcome);
  }

  lemma CancellationEnds(u: Upload, s: State)
    requires ReadDue(u, s)
    ensures Done(AfterRead(u, s, Failing(CalledOff)))
  {
  }

  /** Every state a transfer passes through, up to its end. */
  ghost function Path(u: Upload, s: State, replies: seq<Outcome>, writes: nat): seq<State>
    decreases |replies|, |u.packets| - s.next
  {
    if Done(s) then [s]
    else if WriteDue(u, s) then
      if writes == 0 then [s, AfterWrite(u, s, false)]
      else [s] + Path(u, AfterWrite(u, s, true), replies, writes - 1)
    else if replies == [] then [s, AfterRead(u, s, Failing(CalledOff))]
    else [s] + Path(u, AfterRead(u, s, replies[0]), replies[1..], writes)
  }

  ghost predicate AllSound(u: Upload, path: seq<State>) {
    forall k :: 0 <= k < |path| ==> Sound(u, path[k])
  }

  lemma SoundFirst(u: Upload, s: State, path: seq<State>)
    requires Sound(u, s) && AllSound(u, path)
    ensures AllSound(u, [s] + path)
  {
    forall k | 0 <= k < |path| + 1
      ensures Sound(u, ([s] + path)[k])
    {
      if k > 0 {
        assert Sound(u, path[k - 1]);
      }
    }
  }

  /** Against any peer the window stays safe before and after every write and every reply. */
  lemma {:induction false} PathIsSound(u: Upload, s: State, replies: seq<Outcome>, writes: nat)
    requires Sound(u, s)
    ensures AllSound(u, Path(u, s, replies, writes))
    decreases |replies|, |u.packets| - s.next
  {
    hide HasRoom, AfterRead, Sound;
    if !Done(s) {
      if WriteDue(u, s) {
        WriteKeepsSound(u, s, writes > 0);
        if writes > 0 {
          PathIsSound(u, AfterWrite(u, s, true), replies, writes - 1);
          SoundFirst(u, s, Path(u, AfterWrite(u, s, true), replies, writes - 1));
        } else {
          SoundFirst(u, s, [AfterWrite(u, s, false)]);
        }
      } else if replies == [] {
        ReadKeepsSound(u, s, Failing(CalledOff));
        SoundFirst(u, s, [AfterRead(u, s, Failing(CalledOff))]);
      } else {
        ReadKeepsSound(u, s, replies[0]);
        PathIsSound(u, AfterRead(u, s, replies[0]), replies[1..], writes);
        SoundFirst(u, s, Path(u, AfterRead(u, s, replies[0]), replies[1..], writes));
      }
    }
  }

  lemma {:induction false} PathEnds(u: Upload, s: State, replies: seq<Outcome>, writes: nat)
    ensures var path := Path(u, s, replies, writes);
      |path| > 0 && path[|path| - 1] == Ending(u, s, replies, writes) && Done(path[|path| - 1])
    decreases |replies|, |u.packets| - s.next
  {
    hide HasRoom, AfterRead, WindowAck.Parse;
    if !Done(s) {
      if WriteDue(u, s) {
        if writes > 0 {
          PathEnds(u, AfterWrite(u, s, true), replies, writes - 1);
        }
      } else if replies == [] {
        CancellationEnds(u, s);
      } else {
        PathEnds(u, AfterRead(u, s, replies[0]), replies[1..], writes);
      }
    }
  }

  /** Against any peer the transfer comes to an end, and ends soundly. */
  lemma EndingIsSound(u: Upload, s: State, replies: seq<Outcome>, writes: nat)
    requires Sound(u, s)
    ensures Sound(u, Ending(u, s, replies, writes)) && Done(Ending(u, s, replies, writes))
  {
    PathIsSound(u, s, replies, writes);
    PathEnds(u, s, replies, writes);
  }

  /** Whatever the peer does, no transfer ends because an acknowledged packet was missing from the table. */
  lemma NeverSkipsUnknownPacket(u: Upload, replies: seq<Outcome>, writes: nat)
    requires |u.packets| > 0
    ensures Ending(u, START, replies, writes).phase != Failed(SkippedUnknownPacket)
  {
    StartIsSound(u);
    EndingIsSound(u, START, replies, writes);
  }

  // ---------- Consequences ----------

  /** Progress on the root packet is reported before its acknowledgment is fully checked: a transfer fails on the
      root reply with progress already reported exactly when that reply names a later packet. */
  lemma ProgressBeforeRootCheck(u: Upload, s: State, outcome: Outcome)
    requires Sound(u, s) && s.phase.Root? && ReadDue(u, s)
    ensures var s' := AfterRead(u, s, outcome);
      s'.phase.Failed? && s'.acked != [] <==>
        && Agrees(outcome)
        && var parsed := WindowAck.Parse(outcome.response.value.message); parsed.Accepted? && parsed.ack.index > 0
  {
    hide WindowAck.Parse, HasRoom;
    if Agrees(outcome) {
      AcceptedInBounds(outcome.response.value.message);
    }
  }

  /** For instance: a peer that acknowledges packet 1 in reply to the root packet makes every upload report progress
      on packet 0 and then fail. */
  lemma ProgressThenFailure(u: Upload)
    requires |u.packets| > 0
    ensures var end := Ending(u, START, [Received(Some(Response(true, WindowAck.Encode(1))))], 1);
      end.phase == Failed(RootAckAdvanced) && end.acked == [0]
  {
    var outcome := Received(Some(Response(true, WindowAck.Encode(1))));
    WindowAck.RoundTrip(1);
    hide WindowAck.Parse, WindowAck.Encode;
    var waiting := AfterWrite(u, START, true);
    var end := AfterRead(u, waiting, outcome);
    assert Ending(u, START, [outcome], 1) == Ending(u, waiting, [outcome], 0) == Ending(u, end, [], 0) == end;
  }

  /** What a reply must say to move the window on to packet i. */
  predicate Advances(s: State, outcome: Outcome, i: int) {
    && Agrees(outcome) && s.highest < i < s.next
    && WindowAck.Parse(outcome.response.value.message)
       == WindowAck.Accepted(WindowAck.Ack(i, s.limit.packets, s.limit.bytes))
  }

  lemma AckAcceptedExactly(u: Upload, s: State, parsed: WindowAck.AckParse)
    requires WindowSafe(u, s)
    ensures AckFault(u, s, parsed).None? <==>
      && parsed.Accepted? && s.highest < parsed.ack.index < s.next
      && parsed == WindowAck.Accepted(WindowAck.Ack(parsed.ack.index, s.limit.packets, s.limit.bytes))
  {
    if parsed.Accepted? && s.highest < parsed.ack.index < s.next {
      ReleaseSucceeds(u, s.inFlight, s.highest, parsed.ack.index, s.next);
    }
  }

  /** A pipelined reply is accepted exactly when it repeats the negotiated window and names a packet that was
      written but not yet acknowledged. */
  lemma WindowReplyAcceptedExactly(u: Upload, s: State, outcome: Outcome)
    requires WindowSafe(u, s) && s.phase.Windowed?
    ensures !AfterRead(u, s, outcome).phase.Failed? <==> exists i :: Advances(s, outcome, i)
  {
    hide WindowAck.Parse;
    if Agrees(outcome) {
      var parsed := WindowAck.Parse(outcome.response.value.message);
      AckAcceptedExactly(u, s, parsed);
      if AckFault(u, s, parsed).None? {
        assert Advances(s, outcome, parsed.ack.index);
      }
    }
  }

  /** What the text of an affirmative reply says. */
  function Said(outcome: Outcome): WindowAck.AckParse
    requires Agrees(outcome)
  {
    WindowAck.Parse(outcome.response.value.message)
  }

  /** An affirmative reply names a packet; in the second case one under the window agreed on. */
  predicate NamesPacket(outcome: Outcome) {
    Agrees(outcome) && Said(outcome).Accepted?
  }

  predicate KeepsWindow(s: State, outcome: Outcome) {
    NamesPacket(outcome) && Limit(Said(outcome).ack.packets, Said(outcome).ack.bytes) == s.limit
  }

  /** The reason a wait in this state ends the transfer. */
  predicate EndsWith(s: State, outcome: Outcome, fault: SendFault) {
    match fault
    case ReadFailed => outcome == Failing(WaitFault.StreamFailed)
    case Cancelled => outcome == Failing(WaitFault.CalledOff)
    case NoResponse => outcome == Received(None)
    case RejectedByPeer => outcome.Received? && outcome.response.Some? && !outcome.response.value.ok
    case MalformedAck => !s.phase.Legacy? && Agrees(outcome) && Said(outcome).Malformed?
    case RootAckAdvanced => s.phase.Root? && NamesPacket(outcome) && Said(outcome).ack.index != 0
    case MetadataRemoved => s.phase.Windowed? && Agrees(outcome) && Said(outcome).Unsupported?
    case WindowChanged => s.phase.Windowed? && NamesPacket(outcome) && !KeepsWindow(s, outcome)
    case StaleAck => s.phase.Windowed? && KeepsWindow(s, outcome) && Said(outcome).ack.index <= s.highest
    case UnsentAck => s.phase.Windowed? && KeepsWindow(s, outcome) && Said(outcome).ack.index >= s.next
    case _ => false
  }

  lemma WaitFaultExactly(u: Upload, s: State, outcome: Outcome, fault: SendFault)
    requires !Agrees(outcome) && !Done(s)
    ensures AfterRead(u, s, outcome).phase == Failed(fault) <==> EndsWith(s, outcome, fault)
  {
    hide WindowAck.Parse, Released;
  }

  lemma WindowFaultExactly(u: Upload, s: State, outcome: Outcome, fault: SendFault)
    requires WindowSafe(u, s) && s.phase.Windowed? && Agrees(outcome)
    ensures AfterRead(u, s, outcome).phase == Failed(fault) <==> EndsWith(s, outcome, fault)
  {
    AckAcceptedExactly(u, s, Said(outcome));
    hide WindowAck.Parse, Released, Tracks, BytesKept;
  }

  lemma EarlyFaultExactly(u: Upload, s: State, outcome: Outcome, fault: SendFault)
    requires (s.phase.Root? || s.phase.Legacy?) && Agrees(outcome)
    ensures AfterRead(u, s, outcome).phase == Failed(fault) <==> EndsWith(s, outcome, fault)
  {
    hide WindowAck.Parse;
  }

  /** The reply to the root packet decides how the transfer goes on: one at a time, in a window, or not at all. */
  lemma RootReplyDecides(u: Upload, s: State, outcome: Outcome)
    requires s.phase.Root?
    ensures var s' := AfterRead(u, s, outcome);
      var starts := NamesPacket(outcome) && Said(outcome).ack.index == 0;
      var plain := Agrees(outcome) && Said(outcome).Unsupported?;
      && (s'.phase.Legacy? <==> |u.packets| != 1 && plain)
      && (s'.phase.Windowed? <==> |u.packets| != 1 && starts)
      && (s'.phase.Succeeded? <==> |u.packets| == 1 && (plain || starts))
  {
    hide WindowAck.Parse;
  }

  /** Each fault ends the wait for a reply exactly if the reply, or the lack of one, is as the fault says. */
  lemma ReplyFaultExactly(u: Upload, s: State, outcome: Outcome, fault: SendFault)
    requires Sound(u, s) && ReadDue(u, s)
    ensures AfterRead(u, s, outcome).phase == Failed(fault) <==> EndsWith(s, outcome, fault)
  {
    hide WindowAck.Parse, WindowSafe, HasRoom, EndsWith, AfterRead;
    if !Agrees(outcome) {
      WaitFaultExactly(u, s, outcome, fault);
    } else if s.phase.Windowed? {
      WindowFaultExactly(u, s, outcome, fault);
    } else {
      EarlyFaultExactly(u, s, outcome, fault);
    }
  }

  lemma FreedExactly(u: Upload, s: State, s': State)
    requires WindowSafe(u, s) && WindowSafe(u, s') && s.highest < s'.highest && s'.next == s.next
    ensures forall i :: i in s'.inFlight <==> i in s.inFlight && s'.highest < i
    ensures forall i :: i in s'.inFlight ==> s'.inFlight[i] == s.inFlight[i]
    ensures s'.bytes == Int64(SumSizes(u, s'.highest + 1, s.next))
  {
    hide SumSizes, Fits, Int64;
  }

  /** An accepted reply frees exactly the packets up to the one it names. */
  lemma WindowReplyEffect(u: Upload, s: State, outcome: Outcome)
    requires WindowSafe(u, s) && s.phase.Windowed? && !AfterRead(u, s, outcome).phase.Failed?
    ensures var s' := AfterRead(u, s, outcome);
      && Advances(s, outcome, s'.highest)
      && (forall i :: i in s'.inFlight <==> i in s.inFlight && s'.highest < i)
      && (forall i :: i in s'.inFlight ==> s'.inFlight[i] == s.inFlight[i])
      && s'.bytes == Int64(SumSizes(u, s'.highest + 1, s.next))
      && s'.next == s.next && s'.acked == s.acked + [s'.highest]
  {
    hide AfterWindowReply, WindowAck.Parse, Released, WindowSafe;
    var s' := AfterWindowReply(u, s, outcome);
    WindowReplyShape(u, s, outcome);
    ReplyKeepsWindow(u, s, outcome);
    FreedExactly(u, s, s');
  }

  /** The sender waits only with something in flight, and only when the window is full or nothing is left to write. */
  lemma WaitsOnlyWhenFull(u: Upload, s: State)
    requires Sound(u, s) && s.phase.Windowed? && ReadDue(u, s)
    ensures |s.inFlight| > 0
    ensures || s.next == |u.packets|
            || |s.inFlight| == s.limit.packets
            || s.bytes + SizeAt(u, s.next) > s.limit.bytes
  {
    TrackedCount(u, s.inFlight, s.highest, s.next);
  }

  /** Each reply read moves progress by at least one packet, so at most as many are read as packets were sent. */
  lemma {:induction false} AscendingIsSparse(trace: seq<int>, k: nat)
    requires Ascending(trace) && |trace| > 0 && trace[0] == 0 && k < |trace|
    ensures trace[k] >= k
  {
    if k > 0 {
      AscendingIsSparse(trace, k - 1);
    }
  }

  lemma {:induction false} RoomAbove(acked: seq<int>, n: nat, k: nat)
    requires |acked| == n && k < n && Ascending(acked) && acked[n - 1] == n - 1
    ensures acked[k] <= k
    decreases n - k
  {
    if k < n - 1 {
      RoomAbove(acked, n, k + 1);
    }
  }

  /** Progress in n steps to the last of n packets leaves none out. */
  lemma FullProgress(acked: seq<int>, n: nat)
    requires n > 0 && |acked| == n && ProgressTo(acked, n - 1)
    ensures acked == CountTo(n)
  {
    forall k | 0 <= k < n
      ensures acked[k] == k
    {
      AscendingIsSparse(acked, k);
      RoomAbove(acked, n, k);
    }
  }

  /** While the sender waits it has read fewer pipelined replies than the reading goroutine's budget of N-1. */
  lemma RepliesWithinBudget(u: Upload, s: State)
    requires Sound(u, s) && s.phase.Windowed?
    ensures s.taken - 1 <= s.highest && s.taken - 1 < |u.packets| - 1
  {
    AscendingIsSparse(s.acked, |s.acked| - 1);
  }

  /** Whatever the peer: success means every message was written once, in order, and progress ran from the root
      packet to the last; a windowed transfer reports some of the steps that stop-and-wait reports. */
  lemma SuccessInEitherMode(u: Upload, replies: seq<Outcome>, writes: nat)
    requires |u.packets| > 0
    requires Ending(u, START, replies, writes).phase.Succeeded?
    ensures
      var end := Ending(u, START, replies, writes);
      && end.next == |u.packets|
      && ProgressTo(end.acked, |u.packets| - 1)
      && (forall i :: 0 <= i < |end.acked| ==> i <= end.acked[i] < |u.packets|)
      && (end.limit == NO_LIMIT ==> end.acked == CountTo(|u.packets|))
  {
    StartIsSound(u);
    EndingIsSound(u, START, replies, writes);
    var acked := Ending(u, START, replies, writes).acked;
    forall i | 0 <= i < |acked|
      ensures i <= acked[i]
    {
      AscendingIsSparse(acked, i);
    }
  }
}
