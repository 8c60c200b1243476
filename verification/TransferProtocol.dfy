/** Sender and receive loop on the two directions of one connection, in every interleaving. */
module TransferProtocol {
  import opened Prelude
  import opened TransferModel

  datatype SenderPhase = Streaming | AwaitAck | AwaitFinal | SenderDone | SenderFailed

  /** `spos` messages of the script are sent, `rpos` are handled; `acked` is the offset of the last
      accepted checkpoint; `world` is what others last made of the target; `committed` what the receiver
      put there. */
  datatype State = State(
    sender: SenderPhase, spos: nat, acked: nat,
    toReceiver: seq<Message>, toSender: seq<Message>,
    receiver: Receiver, rpos: nat,
    world: Target, committed: Option<Bytes>, disturbed: bool)

  datatype Event = SenderMoves | ReceiverMoves | SenderAborts | ReceiverAborts | TargetEdited(now: Target)

  function Init(c: Source, before: Target): State {
    State(Streaming, 1, 0, [Start(c.total)], [], Receiver(AwaitStart, before, None), 0, before, None, false)
  }

  predicate SenderFinished(s: State) { s.sender.SenderDone? || s.sender.SenderFailed? }

  /** A read returns a message, or fails once the other side has hung up and nothing is left to read. */
  predicate CanMove(s: State, e: Event) {
    match e
    case SenderMoves =>
      s.sender.Streaming? ||
      ((s.sender.AwaitAck? || s.sender.AwaitFinal?) && (s.toSender != [] || Finished(s.receiver)))
    case ReceiverMoves =>
      !Finished(s.receiver) && (s.toReceiver != [] || SenderFinished(s))
    case SenderAborts => !SenderFinished(s)
    case ReceiverAborts => !Finished(s.receiver)
    case TargetEdited(_) => true
  }

  /** One turn of the send loop. */
  function SenderStep(c: Source, s: State): State {
    match s.sender
    case Streaming =>
      var k := s.spos - 1;
      if 0 <= k < |c.chunks| then
        var m := ChunkMessage(c, k);
        s.(sender := if m.ack then AwaitAck else Streaming, spos := s.spos + 1, toReceiver := s.toReceiver + [m])
      else if !Fits(c) then s.(sender := SenderFailed)
      else
        s.(sender := AwaitFinal, spos := s.spos + 1,
           toReceiver := s.toReceiver + [End(Digest(Flatten(c.chunks)))])
    case AwaitAck =>
      if s.toSender == [] then s.(sender := SenderFailed)
      else
        var m, rest, sent := s.toSender[0], s.toSender[1..], Flatten(c.chunks[..Clip(c, s.spos)]);
        if m.StreamAck? && m.success && m.received >= |sent| then
          s.(sender := Streaming, toSender := rest, acked := |sent|)
        else s.(sender := SenderFailed, toSender := rest)
    case AwaitFinal =>
      if s.toSender == [] then s.(sender := SenderFailed)
      else
        var m := s.toSender[0];
        s.(sender := if m.StreamAck? && m.success then SenderDone else SenderFailed, toSender := s.toSender[1..])
    case _ => s
  }

  /** The number of chunks among the first `spos` messages. */
  function Clip(c: Source, spos: nat): (k: nat)
    ensures k <= |c.chunks|
  {
    if spos == 0 then 0 else if spos - 1 <= |c.chunks| then spos - 1 else |c.chunks|
  }

  function ReceiverStep(s: State, before: Target): State
    requires ReceiverOk(s.receiver)
  {
    if s.toReceiver == [] then s.(receiver := Reject(s.receiver))
    else
      var (r, answer) := OnMessage(s.receiver, Some(Observe(before)), s.toReceiver[0]);
      s.(receiver := r, rpos := s.rpos + 1, toReceiver := s.toReceiver[1..], toSender := s.toSender + answer,
         committed := if r.phase.Committed? && r.target.FileWith? then Some(r.target.content) else s.committed)
  }

  /** One event; events that cannot happen leave the state alone. */
  function Next(c: Source, before: Target, s: State, e: Event): (t: State)
    requires ReceiverOk(s.receiver)
    ensures ReceiverOk(t.receiver)
  {
    if !CanMove(s, e) then s
    else
      match e
      case SenderMoves => SenderStep(c, s)
      case ReceiverMoves => ReceiverStep(s, before)
      case SenderAborts => s.(sender := SenderFailed, disturbed := true)
      case ReceiverAborts => s.(receiver := Reject(s.receiver), disturbed := true)
      case TargetEdited(now) => s.(receiver := s.receiver.(target := now), world := now, disturbed := true)
  }

  // ---- the invariant ----

  /** The `i`-th message of the script asks for a checkpoint. */
  predicate AckFlag(c: Source, i: nat) { 1 <= i <= |c.chunks| && NeedAck(c, i - 1) }

  /** What is in flight towards the receiver, and what it has stored. */
  ghost predicate StreamInv(c: Source, s: State) {
    ReceiverOk(s.receiver) &&
    1 <= s.spos <= |c.chunks| + 2 && s.rpos <= s.spos &&
    (s.sender.Streaming? ==> s.spos <= |c.chunks| + 1) &&
    (s.sender.AwaitFinal? || s.sender.SenderDone? ==> s.spos == |c.chunks| + 2) &&
    (s.sender.AwaitAck? ==> s.spos >= 1 && AckFlag(c, s.spos - 1)) &&
    (s.spos == |c.chunks| + 2 ==> Fits(c)) &&
    (!Finished(s.receiver) ==>
       s.toReceiver == Script(c)[s.rpos..s.spos] &&
       (s.receiver.phase.AwaitStart? <==> s.rpos == 0) &&
       (s.rpos > 0 ==> s.rpos <= |c.chunks| + 1 && s.receiver.phase == Receiving(c.total) &&
                       s.receiver.partial == Some(Flatten(c.chunks[..s.rpos - 1]))))
  }

  /** What is in flight towards the sender. */
  ghost predicate AckInv(c: Source, s: State)
    requires StreamInv(c, s)
  {
    (s.sender.Streaming? ==> s.toSender == []) &&
    (!SenderFinished(s) ==> |s.toSender| <= 1) &&
    (!Finished(s.receiver) ==>
       (forall i :: s.rpos <= i < s.spos - 1 ==> !AckFlag(c, i)) &&
       (s.sender.Streaming? && s.rpos < s.spos ==> !AckFlag(c, s.spos - 1)) &&
       (s.sender.AwaitAck? ==>
          s.toSender == if s.rpos == s.spos then [StreamAck(Offset(c, Clip(c, s.spos)), true)] else []) &&
       (s.sender.AwaitFinal? ==> s.toSender == [])) &&
    (s.sender.AwaitFinal? && s.receiver.phase.Committed? ==> s.toSender == [StreamAck(c.total, true)]) &&
    (s.sender.AwaitFinal? && s.receiver.phase.Rejected? ==>
       forall m :: m in s.toSender ==> m.StreamAck? && !m.success)
  }

  ghost predicate ResultInv(c: Source, before: Target, s: State) {
    (s.receiver.phase.Committed? ==>
       s.committed == Some(Flatten(c.chunks)) && Fits(c) && (s.sender.AwaitFinal? || SenderFinished(s))) &&
    (!s.receiver.phase.Committed? ==> s.committed == None && s.receiver.target == s.world) &&
    (s.sender.SenderDone? ==> s.receiver.phase.Committed?) &&
    (!s.disturbed ==> s.world == before) &&
    (!s.disturbed && s.receiver.phase.Committed? ==>
     s.receiver.target == FileWith(Flatten(c.chunks)) && !before.NonFile?) &&
    (!s.disturbed && Fits(c) && !before.NonFile? ==> !s.sender.SenderFailed? && !s.receiver.phase.Rejected?)
  }

  ghost predicate Inv(c: Source, before: Target, s: State) {
    StreamInv(c, s) && AckInv(c, s) && ResultInv(c, before, s)
  }

  lemma ScriptAt(c: Source)
    ensures |Script(c)| == |c.chunks| + 2
    ensures Script(c)[0] == Start(c.total)
    ensures forall k :: 0 <= k < |c.chunks| ==> Script(c)[k + 1] == ChunkMessage(c, k)
    ensures Script(c)[|c.chunks| + 1] == End(Digest(Flatten(c.chunks)))
  {}

  lemma InitInv(c: Source, before: Target)
    ensures Inv(c, before, Init(c, before))
  {
    ScriptAt(c);
  }

  lemma ScriptGrows(c: Source, r: nat, n: nat)
    requires r <= n < |Script(c)|
    ensures Script(c)[r..n + 1] == Script(c)[r..n] + [Script(c)[n]]
  {}

  lemma ChunkSent(c: Source, before: Target, s: State)
    requires Inv(c, before, s) && s.sender.Streaming? && s.spos - 1 < |c.chunks|
    ensures Inv(c, before, SenderStep(c, s))
  {
    ScriptAt(c);
    ScriptGrows(c, s.rpos, s.spos);
    var t := SenderStep(c, s);
    assert t.spos == s.spos + 1 && (t.sender.AwaitAck? <==> AckFlag(c, s.spos));
    assert !Finished(s.receiver) ==> t.toReceiver == Script(c)[s.rpos..s.spos + 1];
    assert t.receiver == s.receiver && t.toSender == s.toSender && t.rpos == s.rpos;
    assert StreamInv(c, t);
    ChunkSentKeepsAcks(c, before, s);
  }

  lemma ChunkSentKeepsAcks(c: Source, before: Target, s: State)
    requires Inv(c, before, s) && s.sender.Streaming? && s.spos - 1 < |c.chunks|
    requires StreamInv(c, SenderStep(c, s))
    ensures AckInv(c, SenderStep(c, s))
  {}

  lemma EndSent(c: Source, before: Target, s: State)
    requires Inv(c, before, s) && s.sender.Streaming? && s.spos - 1 >= |c.chunks|
    ensures Inv(c, before, SenderStep(c, s))
  {
    ScriptAt(c);
    ScriptGrows(c, s.rpos, s.spos);
  }

  lemma WaitingKeepsInv(c: Source, before: Target, s: State)
    requires Inv(c, before, s) && CanMove(s, SenderMoves) && !s.sender.Streaming?
    ensures Inv(c, before, SenderStep(c, s))
  {
    ScriptAt(c);
  }

  /** Handling the next message of the script, in the order the script has it. */
  lemma ReceiverKeepsInv(c: Source, before: Target, s: State)
    requires Inv(c, before, s) && CanMove(s, ReceiverMoves) && s.toReceiver != []
    ensures Inv(c, before, ReceiverStep(s, before))
  {
    ScriptAt(c);
    var t := ReceiverStep(s, before);
    assert s.toReceiver[0] == Script(c)[s.rpos];
    assert s.toReceiver[1..] == Script(c)[s.rpos + 1..s.spos];
    if s.rpos == 0 {
    } else if s.rpos <= |c.chunks| {
      ChunkHandled(c, before, s);
    } else {
      EndHandled(c, before, s);
    }
  }

  lemma ChunkHandled(c: Source, before: Target, s: State)
    requires Inv(c, before, s) && CanMove(s, ReceiverMoves)
    requires 1 <= s.rpos <= |c.chunks| && s.toReceiver != [] && s.toReceiver[0] == ChunkMessage(c, s.rpos - 1)
    requires s.toReceiver[1..] == Script(c)[s.rpos + 1..s.spos]
    ensures Inv(c, before, ReceiverStep(s, before))
  {
    if Offset(c, s.rpos) <= c.total {
      ChunkAccepted(c, before, s);
    } else {
      ChunkRefused(c, before, s);
    }
  }

  lemma ChunkAccepted(c: Source, before: Target, s: State)
    requires Inv(c, before, s) && CanMove(s, ReceiverMoves)
    requires 1 <= s.rpos <= |c.chunks| && Offset(c, s.rpos) <= c.total && s.toReceiver != [] &&
             s.toReceiver[0] == ChunkMessage(c, s.rpos - 1)
    requires s.toReceiver[1..] == Script(c)[s.rpos + 1..s.spos]
    ensures Inv(c, before, ReceiverStep(s, before))
  {
    var k := s.rpos - 1;
    var partial := Flatten(c.chunks[..s.rpos]);
    var answer := if NeedAck(c, k) then [StreamAck(|partial|, true)] else [];
    OffsetNext(c, k);
    var t := s.(receiver := s.receiver.(partial := Some(partial)), rpos := s.rpos + 1, toReceiver := s.toReceiver[1..],
                toSender := s.toSender + answer);
    assert ReceiverStep(s, before) == t;
    assert AckFlag(c, s.rpos) <==> NeedAck(c, k);
    assert StreamInv(c, t);
    assert AckInv(c, t);
  }

  /** More bytes than announced: the stream cannot fit, so nobody expected it to be accepted. */
  lemma ChunkRefused(c: Source, before: Target, s: State)
    requires Inv(c, before, s) && CanMove(s, ReceiverMoves)
    requires 1 <= s.rpos <= |c.chunks| && Offset(c, s.rpos) > c.total && s.toReceiver != [] &&
             s.toReceiver[0] == ChunkMessage(c, s.rpos - 1)
    ensures Inv(c, before, ReceiverStep(s, before))
  {
    OffsetNext(c, s.rpos - 1);
    OffsetMonotone(c, s.rpos);
    assert NeedAck(c, s.rpos - 1) && AckFlag(c, s.rpos) && !Fits(c);
    var t := s.(receiver := Reject(s.receiver), rpos := s.rpos + 1, toReceiver := s.toReceiver[1..],
                toSender := s.toSender + [StreamAck(Offset(c, s.rpos), false)]);
    assert ReceiverStep(s, before) == t;
    assert StreamInv(c, t);
    assert AckInv(c, t);
  }

  lemma EndHandled(c: Source, before: Target, s: State)
    requires Inv(c, before, s) && CanMove(s, ReceiverMoves)
    requires s.rpos == |c.chunks| + 1 && s.toReceiver != [] && s.toReceiver[0] == End(Digest(Flatten(c.chunks)))
    ensures Inv(c, before, ReceiverStep(s, before))
  {
    assert c.chunks[..|c.chunks|] == c.chunks;
    var t := ReceiverStep(s, before);
    assert StreamInv(c, t);
    assert AckInv(c, t);
  }

  lemma {:induction false} OffsetMonotone(c: Source, k: nat)
    requires k <= |c.chunks|
    ensures Offset(c, k) <= Offset(c, |c.chunks|)
    decreases |c.chunks| - k
  {
    if k < |c.chunks| {
      OffsetNext(c, k);
      OffsetMonotone(c, k + 1);
    }
  }

  lemma StepKeepsInv(c: Source, before: Target, s: State, e: Event)
    requires Inv(c, before, s)
    ensures Inv(c, before, Next(c, before, s, e))
  {
    if CanMove(s, e) {
      match e
      case SenderMoves =>
        if !s.sender.Streaming? { WaitingKeepsInv(c, before, s); }
        else if s.spos - 1 < |c.chunks| { ChunkSent(c, before, s); }
        else { EndSent(c, before, s); }
      case ReceiverMoves => if s.toReceiver != [] { ReceiverKeepsInv(c, before, s); }
      case _ =>
    }
  }

  // ---- every run ----

  /** The state after any sequence of events: both sides, the network's interleaving, aborts, and edits
      of the target by others. */
  function After(c: Source, before: Target, events: seq<Event>): (s: State)
    ensures ReceiverOk(s.receiver)
  {
    if events == [] then Init(c, before)
    else Next(c, before, After(c, before, events[..|events| - 1]), events[|events| - 1])
  }

  lemma {:induction false} RunsKeepInv(c: Source, before: Target, events: seq<Event>)
    ensures Inv(c, before, After(c, before, events))
  {
    if events == [] {
      InitInv(c, before);
    } else {
      RunsKeepInv(c, before, events[..|events| - 1]);
      StepKeepsInv(c, before, After(c, before, events[..|events| - 1]), events[|events| - 1]);
    }
  }

  /** The receiver puts nothing but the whole announced file at the target, a sender that reports success
      is right, and a target without a commit is as the rest of the world left it, with no partial file
      once the receiver is finished. */
  lemma OnlyWholeFilesAreCommitted(c: Source, before: Target, events: seq<Event>)
    ensures var s := After(c, before, events);
            (s.committed.Some? ==>
             s.committed.value == Flatten(c.chunks) && |s.committed.value| == c.total && c.stable) &&
            (s.sender.SenderDone? ==> s.committed.Some?) &&
            (s.committed.None? ==> s.receiver.target == s.world) &&
            (Finished(s.receiver) ==> s.receiver.partial == None)
  {
    RunsKeepInv(c, before, events);
    assert c.chunks[..|c.chunks|] == c.chunks;
  }

  /** Neither side ever waits for a message that the other will not send. */
  lemma NoDeadlock(c: Source, before: Target, events: seq<Event>)
    ensures var s := After(c, before, events);
            (SenderFinished(s) && Finished(s.receiver)) || CanMove(s, SenderMoves) || CanMove(s, ReceiverMoves)
  {
    RunsKeepInv(c, before, events);
    ScriptAt(c);
    var s := After(c, before, events);
    if !Finished(s.receiver) && s.rpos < s.spos {
      assert |s.toReceiver| == s.spos - s.rpos;
    }
  }

  function Measure(c: Source, s: State): int {
    4 * (|c.chunks| + 2 - s.spos) + 2 * |s.toReceiver| + |s.toSender| +
    (if SenderFinished(s) then 0 else 1) + (if Finished(s.receiver) then 0 else 1)
  }

  predicate Progress(s: State, e: Event) { CanMove(s, e) && !e.TargetEdited? }

  /** How many turns the two sides took. */
  function Turns(c: Source, before: Target, events: seq<Event>): nat {
    if events == [] then 0
    else
      var n := |events| - 1;
      Turns(c, before, events[..n]) + if Progress(After(c, before, events[..n]), events[n]) then 1 else 0
  }

  /** Every move of a side that can move counts as one turn, and nothing else does. */
  lemma TurnsCount(c: Source, before: Target, events: seq<Event>, e: Event)
    ensures Turns(c, before, []) == 0
    ensures Turns(c, before, events + [e]) ==
            Turns(c, before, events) +
            if !e.TargetEdited? && CanMove(After(c, before, events), e) then 1 else 0
  {
    assert (events + [e])[..|events|] == events;
  }

  /** The receiver commits over the very target that it began with, in any interleaving with other programs' edits. */
  lemma EditedTargetIsNotReplaced(c: Source, before: Target, events: seq<Event>)
    requires var s := After(c, before, events);
             CanMove(s, ReceiverMoves) && Next(c, before, s, ReceiverMoves).receiver.phase.Committed?
    ensures Observe(After(c, before, events).receiver.target) == Observe(before)
  {}

  lemma StepShrinks(c: Source, before: Target, s: State, e: Event)
    requires Inv(c, before, s)
    ensures Measure(c, Next(c, before, s, e)) <= Measure(c, s) - if Progress(s, e) then 1 else 0
  {
    if CanMove(s, ReceiverMoves) && s.toReceiver != [] {
      var answer := OnMessage(s.receiver, Some(Observe(before)), s.toReceiver[0]).1;
      assert |answer| <= 1;
    }
  }

  /** Every transfer is over after boundedly many turns, whatever the interleaving. */
  lemma {:induction false} RunsTerminate(c: Source, before: Target, events: seq<Event>)
    ensures Measure(c, After(c, before, events)) >= 0
    ensures Turns(c, before, events) + Measure(c, After(c, before, events)) <= 4 * |c.chunks| + 8
  {
    RunsKeepInv(c, before, events);
    if events != [] {
      var n := |events| - 1;
      RunsTerminate(c, before, events[..n]);
      RunsKeepInv(c, before, events[..n]);
      StepShrinks(c, before, After(c, before, events[..n]), events[n]);
    }
  }

  predicate Stuck(s: State) { !CanMove(s, SenderMoves) && !CanMove(s, ReceiverMoves) }

  /** What counts as a disturbance: an abort of either side, and any edit of the target, which always takes effect. */
  lemma {:induction false} DisturbedExactly(c: Source, before: Target, events: seq<Event>)
    ensures After(c, before, events).disturbed ==>
              exists i :: 0 <= i < |events| && !events[i].SenderMoves? && !events[i].ReceiverMoves?
    ensures forall now: Target ::
              var t := Next(c, before, After(c, before, events), TargetEdited(now));
              t.disturbed && t.receiver.target == now && t.world == now
  {
    if events != [] {
      var n := |events| - 1;
      DisturbedExactly(c, before, events[..n]);
      if After(c, before, events[..n]).disturbed {
        var i :| 0 <= i < n && !events[..n][i].SenderMoves? && !events[..n][i].ReceiverMoves?;
        assert events[i] == events[..n][i];
      }
    }
  }

  /** An undisturbed transfer that has come to rest has delivered the file byte for byte exactly when the
      source was stable and as long as announced and the target was not a directory; otherwise both
      sides have failed and the target is as before. */
  lemma RestIsDelivery(c: Source, before: Target, events: seq<Event>)
    requires Stuck(After(c, before, events)) && !After(c, before, events).disturbed
    ensures var s := After(c, before, events);
            if Fits(c) && !before.NonFile? then
              s.sender.SenderDone? && s.receiver == Receiver(Committed, FileWith(Flatten(c.chunks)), None)
            else
              s.sender.SenderFailed? && s.receiver == Receiver(Rejected, before, None)
  {
    NoDeadlock(c, before, events);
    RunsKeepInv(c, before, events);
  }

  // ---- the window ----

  /** The offset of the last checkpoint among the first `k` chunks. */
  function LastCheckpoint(c: Source, k: nat): nat
    requires k <= |c.chunks|
  {
    if k == 0 then 0 else if NeedAck(c, k - 1) then Offset(c, k) else LastCheckpoint(c, k - 1)
  }

  lemma {:induction false} CheckpointBounds(c: Source, k: nat)
    requires ValidSource(c) && k <= |c.chunks|
    ensures Offset(c, k) < NextAckAt(c, k)
    ensures LastCheckpoint(c, k) <= Offset(c, k)
    ensures LastCheckpoint(c, k) + ACK_INTERVAL >= NextAckAt(c, k) ||
            (k > 0 && Offset(c, k) >= c.total && LastCheckpoint(c, k) == Offset(c, k))
  {
    if k > 0 {
      CheckpointBounds(c, k - 1);
      OffsetNext(c, k - 1);
      assert |c.chunks[k - 1]| <= CHUNK_SIZE;
    }
  }

  ghost predicate WindowInv(c: Source, s: State) {
    !s.sender.SenderFailed? ==>
      s.acked ==
      LastCheckpoint(c, if s.sender.AwaitAck? && Clip(c, s.spos) > 0 then Clip(c, s.spos) - 1 else Clip(c, s.spos))
  }

  lemma StepKeepsWindow(c: Source, before: Target, s: State, e: Event)
    requires ReceiverOk(s.receiver) && WindowInv(c, s)
    requires 1 <= s.spos <= |c.chunks| + 2 && (s.sender.Streaming? ==> s.spos <= |c.chunks| + 1)
    requires s.sender.AwaitAck? ==> AckFlag(c, s.spos - 1)
    ensures WindowInv(c, Next(c, before, s, e))
  {
    if CanMove(s, e) {
      match e
      case SenderMoves => SenderKeepsWindow(c, s);
      case _ =>
    }
  }

  lemma SenderKeepsWindow(c: Source, s: State)
    requires WindowInv(c, s)
    requires 1 <= s.spos <= |c.chunks| + 2 && (s.sender.Streaming? ==> s.spos <= |c.chunks| + 1)
    requires s.sender.AwaitAck? ==> AckFlag(c, s.spos - 1)
    ensures WindowInv(c, SenderStep(c, s))
  {}

  lemma {:induction false} RunsKeepWindow(c: Source, before: Target, events: seq<Event>)
    ensures WindowInv(c, After(c, before, events))
  {
    if events != [] {
      RunsKeepWindow(c, before, events[..|events| - 1]);
      RunsKeepInv(c, before, events[..|events| - 1]);
      StepKeepsWindow(c, before, After(c, before, events[..|events| - 1]), events[|events| - 1]);
    }
  }

  /** At no time are 68 MiB or more, 71,303,168 bytes, sent and not yet acknowledged. */
  lemma UnacknowledgedBytesBounded(c: Source, before: Target, events: seq<Event>)
    requires ValidSource(c)
    ensures var s := After(c, before, events);
            !s.sender.SenderFailed? ==>
              s.acked <= Offset(c, Clip(c, s.spos)) && Offset(c, Clip(c, s.spos)) - s.acked < 71303168
  {
    RunsKeepWindow(c, before, events);
    RunsKeepInv(c, before, events);
    var s := After(c, before, events);
    var k := Clip(c, s.spos);
    CheckpointBounds(c, k);
    if s.sender.AwaitAck? {
      CheckpointBounds(c, k - 1);
      OffsetNext(c, k - 1);
      assert |c.chunks[k - 1]| <= CHUNK_SIZE;
    }
  }
}
