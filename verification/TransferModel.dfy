/** The V2 file stream: what the sender emits, and how the receive loop answers each message. */
module TransferModel {
  import opened Prelude

  const CHUNK_SIZE: nat := 4 * 1024 * 1024
  const ACK_INTERVAL: nat := 64 * 1024 * 1024

  type Byte = b: int | 0 <= b < 256
  type Bytes = seq<Byte>

  /** A collision-free hash: as good as the content itself. */
  datatype Digest = Digest(content: Bytes)

  datatype Message =
    | Start(total: nat)
    | Chunk(offset: nat, data: Bytes, ack: bool)
    | End(hash: Digest)
    | StreamAck(received: nat, success: bool)

  // ---- the sender ----

  /** `chunks` are the reads of the source; `total` its length when the transfer began; `stable` what
      the metadata comparison after the last read says. */
  datatype Source = Source(chunks: seq<Bytes>, total: nat, stable: bool)

  ghost predicate ValidSource(c: Source) {
    forall k :: 0 <= k < |c.chunks| ==> 0 < |c.chunks[k]| <= CHUNK_SIZE
  }

  function Flatten(chunks: seq<Bytes>): Bytes {
    if chunks == [] then [] else Flatten(chunks[..|chunks| - 1]) + chunks[|chunks| - 1]
  }

  /** Stream offset in front of chunk `k`. */
  function Offset(c: Source, k: nat): nat
    requires k <= |c.chunks|
  {
    |Flatten(c.chunks[..k])|
  }

  lemma OffsetNext(c: Source, k: nat)
    requires k < |c.chunks|
    ensures Flatten(c.chunks[..k + 1]) == Flatten(c.chunks[..k]) + c.chunks[k]
    ensures Offset(c, k + 1) == Offset(c, k) + |c.chunks[k]|
  {
    assert c.chunks[..k + 1][..k] == c.chunks[..k];
  }

  /** The value of the sender's `next_ack_at` in front of chunk `k`. */
  function NextAckAt(c: Source, k: nat): nat
    requires k <= |c.chunks|
    decreases k, 0
  {
    if k == 0 then ACK_INTERVAL
    else NextAckAt(c, k - 1) + if NeedAck(c, k - 1) then ACK_INTERVAL else 0
  }

  predicate NeedAck(c: Source, k: nat)
    requires k < |c.chunks|
    decreases k, 1
  {
    Offset(c, k + 1) >= NextAckAt(c, k) || Offset(c, k + 1) >= c.total
  }

  function ChunkMessage(c: Source, k: nat): Message
    requires k < |c.chunks|
  {
    Chunk(Offset(c, k), c.chunks[k], NeedAck(c, k))
  }

  /** Everything the sender would like to say, in order. */
  function Script(c: Source): seq<Message> {
    [Start(c.total)] + seq(|c.chunks|, k requires 0 <= k < |c.chunks| => ChunkMessage(c, k)) +
    [End(Digest(Flatten(c.chunks)))]
  }

  /** The stream can be completed: what was read is what was announced. */
  predicate Fits(c: Source) { c.stable && Offset(c, |c.chunks|) == c.total }

  // ---- the receiver ----

  type Target = TargetOf<Bytes>

  /** `target_precondition`: "", a hash, or "<non-file>". */
  datatype Observed = Absent | HashOf(hash: Digest) | SomethingElse

  function Observe(t: Target): Observed {
    match t
    case Missing => Absent
    case FileWith(content) => HashOf(Digest(content))
    case NonFile => SomethingElse
  }

  /** `ensure_target_precondition`; no expectation at all accepts anything. */
  predicate MeetsPrecondition(t: Target, expected: Option<Observed>) {
    expected == None || expected == Some(Observe(t))
  }

  datatype ReceiverPhase = AwaitStart | Receiving(total: nat) | Committed | Rejected

  datatype Receiver = Receiver(phase: ReceiverPhase, target: Target, partial: Option<Bytes>)

  predicate Finished(r: Receiver) { r.phase.Committed? || r.phase.Rejected? }

  /** Every early exit removes the partial file. */
  function Reject(r: Receiver): Receiver { r.(phase := Rejected, partial := None) }

  /** The tail of the receive loop: size, hash, precondition, replace, acknowledge. */
  function OnEnd(r: Receiver, expected: Option<Observed>, hash: Digest): (Receiver, seq<Message>)
    requires r.phase.Receiving? && r.partial.Some?
  {
    var content := r.partial.value;
    if |content| != r.phase.total then (Reject(r), [StreamAck(|content|, false)])
    else if Digest(content) != hash then (Reject(r), [StreamAck(|content|, false)])
    else if !MeetsPrecondition(r.target, expected) || r.target.NonFile? then (Reject(r), [])
    else (Receiver(Committed, FileWith(content), None), [StreamAck(|content|, true)])
  }

  function OnChunk(r: Receiver, offset: nat, data: Bytes, ack: bool): (Receiver, seq<Message>)
    requires r.phase.Receiving? && r.partial.Some?
  {
    var content := r.partial.value;
    if offset != |content| then (Reject(r), [StreamAck(|content|, false)])
    else
      var grown := content + data;
      if |grown| > r.phase.total then (Reject(r), [StreamAck(|grown|, false)])
      else (r.(partial := Some(grown)), if ack then [StreamAck(|grown|, true)] else [])
  }

  predicate ReceiverOk(r: Receiver) {
    (r.phase.Receiving? <==> r.partial.Some?) && (r.phase.Receiving? ==> |r.partial.value| <= r.phase.total)
  }

  /** One message handled by `request_file_v2`. */
  function OnMessage(r: Receiver, expected: Option<Observed>, m: Message): (result: (Receiver, seq<Message>))
    requires ReceiverOk(r)
    ensures ReceiverOk(result.0)
  {
    match r.phase
    case AwaitStart =>
      if m.Start? then (r.(phase := Receiving(m.total), partial := Some([])), []) else (Reject(r), [])
    case Receiving(_) =>
      (match m
       case Chunk(offset, data, ack) => OnChunk(r, offset, data, ack)
       case End(hash) => OnEnd(r, expected, hash)
       case _ => (Reject(r), []))
    case _ => (r, [])
  }

  /** What the loop answers, to any message of any peer, and what it then is: an accepted chunk is confirmed if it asks
      for it, a chunk or end that does not fit is refused, a commit is confirmed; with the number of bytes
      written so far. A target that has changed, and anything out of turn, ends the transfer without an answer. */
  lemma AnswersTellTheOutcome(r: Receiver, expected: Option<Observed>, m: Message)
    requires ReceiverOk(r) && r.phase.Receiving?
    ensures var (t, answers), written := OnMessage(r, expected, m), |r.partial.value|;
            match m
            case Chunk(offset, data, ack) =>
              if offset != written then t.phase.Rejected? && answers == [StreamAck(written, false)]
              else if written + |data| > r.phase.total then
                t.phase.Rejected? && answers == [StreamAck(written + |data|, false)]
              else
                t.phase == r.phase && t.partial == Some(r.partial.value + data) && t.target == r.target &&
                answers == if ack then [StreamAck(written + |data|, true)] else []
            case End(hash) =>
              if written != r.phase.total || hash.content != r.partial.value then
                t.phase.Rejected? && answers == [StreamAck(written, false)]
              else if r.target.NonFile? || (expected.Some? && expected.value != Observe(r.target)) then
                t.phase.Rejected? && answers == []
              else t.phase.Committed? && t.target == FileWith(r.partial.value) && answers == [StreamAck(written, true)]
            case _ => t.phase.Rejected? && answers == []
  {}
}
