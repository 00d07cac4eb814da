/** How a session on byte streams turns out without faults. */
module ByteOutcome {
  import opened ByteSession
  import opened Session
  import opened SessionLiveness
  import opened SessionOutcome
  import opened SessionSafety
  import B = SessionBuffers
  import S = Sender

  predicate IsFaultMove(move: Move) {
    move.Local? && IsFault(move.step)
  }

  predicate FaultFreeBytes(moves: seq<Move>) {
    forall k :: 0 <= k < |moves| ==> !IsFaultMove(moves[k])
  }

  ghost predicate BytesCanMove(cfg: Config, b: Bytes) {
    exists move: Move :: !IsFaultMove(move) && Can(cfg, b, move)
  }

  lemma StepHasMove(cfg: Config, codec: Codec, b: Bytes, s: State, step: Step)
    requires Valid(cfg) && Lossless(cfg, codec) && Projects(codec, b, s) && Inv(cfg, s)
    requires Enabled(cfg, s, step) && !IsFault(step)
    ensures BytesCanMove(cfg, b)
  {
    hide Lossless, Projects, Inv, Enabled, Can;
    StepIsPossible(cfg, codec, b, s, step);
    assert !IsFaultMove(MoveOf(b, step));
  }

  /** Bytes on which nothing can be done carry messages on which nothing can be done. */
  lemma StuckOnBytes(cfg: Config, codec: Codec, b: Bytes, s: State)
    requires Valid(cfg) && Lossless(cfg, codec) && Projects(codec, b, s) && Inv(cfg, s)
    requires !BytesCanMove(cfg, b)
    ensures !CanMove(cfg, s)
  {
    hide Lossless, Projects, Inv, Enabled, BytesCanMove;
    if CanMove(cfg, s) {
      var step: Step :| !IsFault(step) && Enabled(cfg, s, step);
      StepHasMove(cfg, codec, b, s, step);
    }
  }

  lemma RoomyNeverBlocks(cfg: Config)
    requires Valid(cfg) && Roomy(cfg)
    ensures !Blocks(cfg)
  {
    hide WellFormed, RejectedAt, PacketsBefore;
    B.RejectedWithin(cfg);
    B.WritesAhead(cfg, RejectedAt(cfg));
  }

  /** A fault-free run on bytes that can go no further, however the bytes were cut, has delivered everything if the
      transfer is well-formed, and otherwise the sender was told of the rejection. */
  lemma BytesSettleExactly(cfg: Config, codec: Codec, moves: seq<Move>)
    requires Valid(cfg) && Roomy(cfg) && Lossless(cfg, codec) && LegalBytes(cfg, codec, moves)
    requires FaultFreeBytes(moves) && !BytesCanMove(cfg, AfterBytes(cfg, codec, moves))
    ensures var b := AfterBytes(cfg, codec, moves);
      if WellFormed(cfg) then b.sender.phase.Succeeded? && Delivered(cfg, b.receiver)
      else b.sender.phase == S.Failed(S.RejectedByPeer) && b.receiver.phase.Rejected?
  {
    hide LegalBytes, AfterBytes, After, Inv, WellFormed, Blocks, Blocked, CanMove;
    hide Lossless, Holds, Delivered, BytesCanMove;
    var steps := BytesRunIsSessionRun(cfg, codec, moves);
    var s := After(cfg, steps);
    ReachableInv(cfg, steps);
    StuckOnBytes(cfg, codec, AfterBytes(cfg, codec, moves), s);
    forall k | 0 <= k < |steps|
      ensures !IsFault(steps[k])
    {
      assert !IsFaultMove(moves[k]);
    }
    RoomyNeverBlocks(cfg);
    SettlesExactly(cfg, steps);
  }
}
