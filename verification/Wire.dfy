/** The values that travel between the two ends of a transfer. */
module Wire {
  datatype Option<+T> = None | Some(value: T)

  /** A DAG leaf, reduced to what the transfer protocol looks at: its hash and
      the size the DAG library estimates for it. */
  datatype Leaf = Leaf(hash: string, estimatedSize: nat)

  /** A batched transmission packet. A leaf pointer may be nil. */
  datatype Packet = Packet(
    leaves: seq<Option<Leaf>>,
    relationships: map<string, string>,
    index: int,
    total: int)

  datatype UploadMessage = UploadMessage(
    root: string,
    packet: Packet,
    publicKey: string,
    signature: string,
    isFinal: bool)

  datatype Response = Response(ok: bool, message: string)

  datatype Dag = Dag(root: string, leafs: map<string, Leaf>)

  /** The width of the source's `int` and `int64`. */
  const MAX_INT64: int := 0x7FFF_FFFF_FFFF_FFFF
  const MIN_INT64: int := -0x8000_0000_0000_0000

  /** A text no longer than a length can say. */
  type Text = s: string | |s| <= MAX_INT64

  // ---------- Why a receiver turns a message away ----------

  datatype PacketFault =
    | AlreadyFinalized
    | EmptyPacket
    | RootChanged
    | BadRootCounters
    | RootLeafMissing
    | PublicKeyChanged
    | SignatureChanged
    | TotalChanged
    | OutOfOrder
    | OutOfRange
    | FinalMarkerWrong
    | LegacyCountersChanged
    | UnhashedLeaf
    | LeafRepeatedInPacket
    | LeafSeenBefore
    | RelationshipMissing
    | StrayRootLeaf

  /** The value of a receive state at one moment. */
  datatype View = View(
    root: string,
    publicKey: string,
    signature: string,
    total: int,
    next: nat,
    windowed: bool,
    finalized: bool,
    seenLeaves: set<string>)

  datatype CredentialFault = BadPublicKey | BadHex | BadSignature | WrongSignature

  datatype DownloadFault =
    | RootSubstituted
    | NotAuthentic(cause: CredentialFault)
    | BadPacket(fault: PacketFault)
    | ApplyFailed
    | StreamIncomplete
    | VerifyFailed
    | StreamFailed

  /** What the transfer code calls in the DAG and signing libraries; and the text of the error with which it turns a
      message away, given what it knows then. */
  datatype Library = Library(
    rootLeaf: Packet -> Option<Leaf>,
    apply: (Dag, Packet) -> Option<Dag>,
    verify: Dag -> bool,
    parsesKey: string -> bool,
    parsesSignature: seq<nat> -> bool,
    signs: (string, seq<nat>, string) -> bool,
    explain: (DownloadFault, UploadMessage, View, Dag) -> Text)

  /** The value an `int64` computation yields for the exact result n. */
  function Int64(n: int): (r: int)
    ensures MIN_INT64 <= r <= MAX_INT64
    ensures MIN_INT64 <= n <= MAX_INT64 ==> r == n
  {
    (n - MIN_INT64) % 0x1_0000_0000_0000_0000 + MIN_INT64
  }

  lemma Int64Shift(n: int, k: int)
    ensures Int64(n + 0x1_0000_0000_0000_0000 * k) == Int64(n)
  {
  }

  /** Wrapping early or late makes no difference to a sum or a difference. */
  lemma Int64Adds(a: int, b: int)
    ensures Int64(Int64(a) + b) == Int64(a + b) && Int64(a + Int64(b)) == Int64(a + b)
    ensures Int64(Int64(a) - Int64(b)) == Int64(a - b)
  {
    var i, j := (a - MIN_INT64) / 0x1_0000_0000_0000_0000, (b - MIN_INT64) / 0x1_0000_0000_0000_0000;
    assert Int64(a) == a - 0x1_0000_0000_0000_0000 * i && Int64(b) == b - 0x1_0000_0000_0000_0000 * j;
    Int64Shift(a + b, -i);
    Int64Shift(a + b, -j);
    Int64Shift(a - b, j - i);
  }

  lemma Int64Grows(sum: int, a: int)
    ensures Int64(Int64(sum) + Int64(a)) == Int64(sum + a)
  {
    Int64Adds(sum, a);
    Int64Adds(sum, Int64(a));
    hide Int64;
  }

  lemma Int64Accumulates(sum: int, a: int, b: int)
    ensures Int64(Int64(sum) + Int64(Int64(a) + b)) == Int64(sum + (a + b))
  {
    Int64Adds(a, b);
    Int64Adds(sum, a + b);
    Int64Adds(sum, Int64(a + b));
    hide Int64;
  }
}
