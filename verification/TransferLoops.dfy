/** The two loops of a V2 transfer as the program runs them, against any peer. */
module TransferLoops {
  import opened Prelude
  import opened TransferModel
  import Protocol = TransferProtocol

  // ---- sending ----

  /** The offsets at which the sender stops for a checkpoint acknowledgement, among the first `k` chunks. */
  function Checkpoints(c: Source, k: nat): seq<nat>
    requires k <= |c.chunks|
  {
    if k == 0 then [] else Checkpoints(c, k - 1) + if NeedAck(c, k - 1) then [Offset(c, k)] else []
  }

  lemma {:induction false} CheckpointsGrow(c: Source, k: nat, n: nat)
    requires k <= n <= |c.chunks|
    ensures Checkpoints(c, k) <= Checkpoints(c, n)
  {
    if k < n {
      CheckpointsGrow(c, k, n - 1);
    }
  }

  /** What the loop relies on in front of chunk `k`. */
  lemma ChunkNext(c: Source, k: nat)
    requires k < |c.chunks|
    ensures Offset(c, k + 1) == Offset(c, k) + |c.chunks[k]|
    ensures Script(c)[..k + 2] == Script(c)[..k + 1] + [Chunk(Offset(c, k), c.chunks[k], NeedAck(c, k))]
  {
    OffsetNext(c, k);
    assert Script(c)[k + 1] == ChunkMessage(c, k);
  }

  /** A checkpoint is asked for once for every 64 MiB, 67,108,864 bytes, and at the end: the `k`-th chunk asks exactly
      if it reaches one more multiple than there have been checkpoints, or the announced length. */
  lemma {:induction false} CheckpointSpacing(c: Source, k: nat)
    requires k < |c.chunks|
    ensures NeedAck(c, k) <==>
            Offset(c, k + 1) >= 67108864 * (1 + |Checkpoints(c, k)|) || Offset(c, k + 1) >= c.total
  {
    NextCheckpointAt(c, k);
  }

  lemma {:induction false} NextCheckpointAt(c: Source, k: nat)
    requires k <= |c.chunks|
    ensures NextAckAt(c, k) == 67108864 * (1 + |Checkpoints(c, k)|)
  {
    if k > 0 {
      NextCheckpointAt(c, k - 1);
    }
  }

  predicate Confirms(answer: Message, offset: nat) {
    answer.StreamAck? && answer.success && answer.received >= offset
  }

  predicate AllConfirmed(answers: seq<Message>, offsets: seq<nat>) {
    |offsets| <= |answers| && forall i :: 0 <= i < |offsets| ==> Confirms(answers[i], offsets[i])
  }

  /** The peer confirms every checkpoint and then the whole stream. */
  predicate PeerAgrees(c: Source, answers: seq<Message>) {
    var offsets := Checkpoints(c, |c.chunks|);
    AllConfirmed(answers, offsets) && |offsets| < |answers| && Confirms(answers[|offsets|], 0)
  }

  // ---- the loop and the sender's turns ----

  /** The sender of the two-machine model, with the whole of the peer's answers before it. */
  function Listening(c: Source, answers: seq<Message>): Protocol.State {
    Protocol.Init(c, Missing).(toSender := answers)
  }

  function Turns(c: Source, answers: seq<Message>, n: nat): Protocol.State {
    if n == 0 then Listening(c, answers) else Protocol.SenderStep(c, Turns(c, answers, n - 1))
  }

  /** The sender stands in front of chunk `k`. */
  predicate InFront(s: Protocol.State, k: nat, sent: seq<Message>, unread: seq<Message>) {
    s.sender.Streaming? && s.spos == k + 1 && s.toReceiver == sent && s.toSender == unread
  }

  predicate Stopped(s: Protocol.State, ok: bool, sent: seq<Message>, unread: seq<Message>) {
    s.sender == (if ok then Protocol.SenderDone else Protocol.SenderFailed) && s.toReceiver == sent &&
    s.toSender == unread
  }

  /** The sender after chunk `k`, of which it has read the answer if it asked for one. */
  ghost predicate ChunkDone(c: Source, answers: seq<Message>, t: Protocol.State, k: nat, read: nat)
    requires k < |c.chunks| && read <= |answers|
  {
    var sent := Script(c)[..k + 2];
    if !NeedAck(c, k) then InFront(t, k + 1, sent, answers[read..])
    else if read == |answers| then Stopped(t, false, sent, answers[read..])
    else if Confirms(answers[read], Offset(c, k + 1)) then InFront(t, k + 1, sent, answers[read + 1..])
    else Stopped(t, false, sent, answers[read + 1..])
  }

  lemma CheckpointTurns(c: Source, answers: seq<Message>, s: Protocol.State, k: nat, read: nat)
    requires k < |c.chunks| && read <= |answers| && NeedAck(c, k)
    requires InFront(s, k, Script(c)[..k + 1], answers[read..])
    ensures ChunkDone(c, answers, Protocol.SenderStep(c, Protocol.SenderStep(c, s)), k, read)
  {
    ChunkNext(c, k);
    if read < |answers| {
      assert answers[read..][1..] == answers[read + 1..];
    }
  }

  /** The turns for chunk `k`, with `read` answers read before. */
  lemma ChunkTurns(c: Source, answers: seq<Message>, turns: nat, k: nat, read: nat) returns (next: nat)
    requires k < |c.chunks| && read <= |answers|
    requires InFront(Turns(c, answers, turns), k, Script(c)[..k + 1], answers[read..])
    ensures ChunkDone(c, answers, Turns(c, answers, next), k, read)
  {
    var s := Turns(c, answers, turns);
    if NeedAck(c, k) {
      CheckpointTurns(c, answers, s, k, read);
      next := turns + 2;
      assert Turns(c, answers, turns + 1) == Protocol.SenderStep(c, s);
    } else {
      ChunkNext(c, k);
      next := turns + 1;
    }
  }

  lemma EndTurns(c: Source, answers: seq<Message>, turns: nat, read: nat) returns (next: nat)
    requires read <= |answers|
    requires InFront(Turns(c, answers, turns), |c.chunks|, Script(c)[..|c.chunks| + 1], answers[read..])
    ensures var t := Turns(c, answers, next);
            if !Fits(c) then Stopped(t, false, Script(c)[..|c.chunks| + 1], answers[read..])
            else if read == |answers| then Stopped(t, false, Script(c), answers[read..])
            else Stopped(t, answers[read].StreamAck? && answers[read].success, Script(c), answers[read + 1..])
  {
    var s := Turns(c, answers, turns);
    next := if Fits(c) then turns + 2 else turns + 1;
    assert Turns(c, answers, turns + 1) == Protocol.SenderStep(c, s);
    assert Script(c) == Script(c)[..|c.chunks| + 1] + [End(Digest(Flatten(c.chunks)))];
    if read < |answers| {
      assert answers[read..][1..] == answers[read + 1..];
    }
  }

  /** The answer to chunk `k` decides about the checkpoints so far, and a missing one about all of them. */
  lemma CheckpointDecides(c: Source, answers: seq<Message>, k: nat)
    requires k < |c.chunks| && AllConfirmed(answers, Checkpoints(c, k))
    ensures var read, confirmed := |Checkpoints(c, k)|, AllConfirmed(answers, Checkpoints(c, k + 1));
            if !NeedAck(c, k) then confirmed && |Checkpoints(c, k + 1)| == read
            else
              |Checkpoints(c, k + 1)| == read + 1 &&
              (confirmed <==> read < |answers| && Confirms(answers[read], Offset(c, k + 1))) &&
              (!confirmed ==> !AllConfirmed(answers, Checkpoints(c, |c.chunks|)))
  {
    CheckpointsGrow(c, k + 1, |c.chunks|);
    var offsets, all := Checkpoints(c, k + 1), Checkpoints(c, |c.chunks|);
    assert forall i :: 0 <= i < |offsets| ==> offsets[i] == all[i];
    if NeedAck(c, k) {
      assert offsets[|offsets| - 1] == Offset(c, k + 1);
    }
  }

  /** The loop in front of chunk `k`. */
  ghost predicate Before(c: Source, answers: seq<Message>, k: nat, sent: seq<Message>, read: nat, turns: nat)
    requires k <= |c.chunks|
  {
    read == |Checkpoints(c, k)| && AllConfirmed(answers, Checkpoints(c, k)) && sent == Script(c)[..k + 1] &&
    InFront(Turns(c, answers, turns), k, sent, answers[read..])
  }

  /** What is known when the loop has returned. */
  ghost predicate Returned(c: Source, answers: seq<Message>, ok: bool, sent: seq<Message>, read: nat, turns: nat) {
    read <= |answers| && sent <= Script(c) && (ok <==> Fits(c) && PeerAgrees(c, answers)) &&
    (AllConfirmed(answers, Checkpoints(c, |c.chunks|)) ==>
     sent == if Fits(c) then Script(c) else Script(c)[..|c.chunks| + 1]) &&
    Stopped(Turns(c, answers, turns), ok, sent, answers[read..])
  }

  lemma ChunkSent(c: Source, answers: seq<Message>, k: nat, sent: seq<Message>, read: nat, turns: nat)
    returns (next: nat)
    requires k < |c.chunks| && Before(c, answers, k, sent, read, turns)
    ensures var after := sent + [ChunkMessage(c, k)];
            if !NeedAck(c, k) then Before(c, answers, k + 1, after, read, next)
            else if read == |answers| then Returned(c, answers, false, after, read, next)
            else if Confirms(answers[read], Offset(c, k + 1)) then Before(c, answers, k + 1, after, read + 1, next)
            else Returned(c, answers, false, after, read + 1, next)
  {
    ChunkNext(c, k);
    CheckpointDecides(c, answers, k);
    next := ChunkTurns(c, answers, turns, k, read);
  }

  lemma StreamSent(c: Source, answers: seq<Message>, sent: seq<Message>, read: nat, turns: nat) returns (next: nat)
    requires Before(c, answers, |c.chunks|, sent, read, turns)
    ensures var after := sent + [End(Digest(Flatten(c.chunks)))];
            if !Fits(c) then Returned(c, answers, false, sent, read, next)
            else if read == |answers| then Returned(c, answers, false, after, read, next)
            else Returned(c, answers, Confirms(answers[read], 0), after, read + 1, next)
  {
    next := EndTurns(c, answers, turns, read);
    assert Script(c) == sent + [End(Digest(Flatten(c.chunks)))];
  }

  /** `send_file_v2_inner`: `answers` are the messages the peer will be found to have sent, in order; running
      out of them is a lost connection. What goes out is always a prefix of the script, and the loop performs
      the turns of the two-machine model's sender. */
  method SendFileV2(c: Source, answers: seq<Message>)
    returns (ok: bool, sent: seq<Message>, read: nat, ghost turns: nat)
    ensures read <= |answers| && sent <= Script(c)
    ensures ok <==> Fits(c) && PeerAgrees(c, answers)
    ensures AllConfirmed(answers, Checkpoints(c, |c.chunks|)) ==>
              sent == if Fits(c) then Script(c) else Script(c)[..|c.chunks| + 1]
    ensures Stopped(Turns(c, answers, turns), ok, sent, answers[read..])
  {
    ok, sent, read, turns := false, [Start(c.total)], 0, 0;
    var offset, nextAckAt := 0, ACK_INTERVAL;
    assert c.chunks[..0] == [] && answers[0..] == answers;
    for k := 0 to |c.chunks|
      invariant Before(c, answers, k, sent, read, turns)
      invariant offset == Offset(c, k) && nextAckAt == NextAckAt(c, k)
    {
      OffsetNext(c, k);
      turns := ChunkSent(c, answers, k, sent, read, turns);
      var data := c.chunks[k];
      var needAck := offset + |data| >= nextAckAt || offset + |data| >= c.total;
      sent := sent + [Chunk(offset, data, needAck)];
      offset := offset + |data|;
      if needAck {
        var confirmed;
        confirmed, read := ReadAck(answers, read, offset);
        if !confirmed {
          return;
        }
        nextAckAt := nextAckAt + ACK_INTERVAL;
      }
    }
    assert c.chunks[..|c.chunks|] == c.chunks;
    turns := StreamSent(c, answers, sent, read, turns);
    if !c.stable || offset != c.total {
      return;
    }
    sent := sent + [End(Digest(Flatten(c.chunks)))];
    ok, read := ReadAck(answers, read, 0);
  }

  /** The next answer, if the connection still gives one. */
  method ReadAck(answers: seq<Message>, read: nat, offset: nat) returns (confirmed: bool, next: nat)
    requires read <= |answers|
    ensures confirmed <==> read < |answers| && Confirms(answers[read], offset)
    ensures next == if read < |answers| then read + 1 else read
  {
    if read == |answers| {
      return false, read;
    }
    var answer := answers[read];
    return answer.StreamAck? && answer.success && answer.received >= offset, read + 1;
  }

  // ---- receiving ----

  /** What the receive loop meets: a message, another program's edit of the target, a chunk that arrives
      after the user cancelled, or a failing read or write. */
  datatype Item = Net(m: Message) | Edited(now: Target) | CancelledChunk | IoFails

  function Absorb(r: Receiver, expected: Option<Observed>, item: Item): (t: Receiver)
    requires ReceiverOk(r)
    ensures ReceiverOk(t)
  {
    match item
    case Edited(now) => r.(target := now)
    case Net(m) => OnMessage(r, expected, m).0
    case _ => if Finished(r) then r else Reject(r)
  }

  function Fold(before: Target, schedule: seq<Item>): (r: Receiver)
    ensures ReceiverOk(r)
  {
    if schedule == [] then Receiver(AwaitStart, before, None)
    else Absorb(Fold(before, schedule[..|schedule| - 1]), Some(Observe(before)), schedule[|schedule| - 1])
  }

  /** What the loop writes back, message by message. */
  function Answers(before: Target, schedule: seq<Item>): seq<Message> {
    if schedule == [] then []
    else
      var past, item := schedule[..|schedule| - 1], schedule[|schedule| - 1];
      Answers(before, past) + if item.Net? then OnMessage(Fold(before, past), Some(Observe(before)), item.m).1 else []
  }

  /** The loop writes back nothing before the first message, one confirmation for each fitting chunk that asks, and one
      for a commit; nothing for edits and failures. */
  lemma LoopConfirms(before: Target, past: seq<Item>, item: Item)
    ensures Answers(before, []) == []
    ensures !item.Net? ==> Answers(before, past + [item]) == Answers(before, past)
    ensures item.Net? ==>
              var r, t := Fold(before, past), Fold(before, past + [item]);
              (r.phase.Receiving? && t.phase.Receiving? && item.m.Chunk? ==>
                 Answers(before, past + [item]) ==
                 Answers(before, past) + if item.m.ack then [StreamAck(|t.partial.value|, true)] else []) &&
              (r.phase.Receiving? && t.phase.Committed? ==>
                 Answers(before, past + [item]) == Answers(before, past) + [StreamAck(r.phase.total, true)] &&
                 Observe(r.target) == Observe(before))
  {
    assert (past + [item])[..|past|] == past;
  }

  /** The connection is gone when the schedule ends. */
  function Receive(before: Target, schedule: seq<Item>): Receiver {
    var r := Fold(before, schedule);
    if Finished(r) then r else Reject(r)
  }

  /** The target as the rest of the world made it. */
  function Edits(t: Target, schedule: seq<Item>): Target {
    if schedule == [] then t
    else if schedule[|schedule| - 1].Edited? then schedule[|schedule| - 1].now
    else Edits(t, schedule[..|schedule| - 1])
  }

  /** The bytes of the chunks among the items. */
  function Payload(schedule: seq<Item>): Bytes {
    if schedule == [] then []
    else
      var item := schedule[|schedule| - 1];
      Payload(schedule[..|schedule| - 1]) + if item.Net? && item.m.Chunk? then item.m.data else []
  }

  /** The commit of `content` at item `k`: announced length, hash, and an untouched target. */
  ghost predicate CommitAt(before: Target, schedule: seq<Item>, k: nat, content: Bytes) {
    k < |schedule| && schedule[k] == Net(End(Digest(content))) &&
    content == Payload(schedule[..k]) &&
    Observe(Edits(before, schedule[..k])) == Observe(before) && Announced(schedule[..k], |content|)
  }

  ghost predicate Announced(schedule: seq<Item>, total: nat) {
    Net(Start(total)) in schedule
  }

  /** A commit happened, and the target has since only been edited by others. */
  ghost predicate CommittedIn(before: Target, schedule: seq<Item>, target: Target) {
    exists k: nat, content: Bytes ::
      CommitAt(before, schedule, k, content) && target == Edits(FileWith(content), schedule[k + 1..])
  }

  ghost predicate FoldInv(before: Target, schedule: seq<Item>) {
    var r := Fold(before, schedule);
    (!r.phase.Committed? ==> r.target == Edits(before, schedule)) &&
    (Finished(r) ==> r.partial == None) &&
    (r.phase.AwaitStart? ==> Payload(schedule) == [] && forall j :: 0 <= j < |schedule| ==> schedule[j].Edited?) &&
    (r.phase.Receiving? ==> r.partial == Some(Payload(schedule)) && Announced(schedule, r.phase.total)) &&
    (r.phase.Committed? ==> CommittedIn(before, schedule, r.target))
  }

  lemma {:induction false} FoldKeepsInv(before: Target, schedule: seq<Item>)
    ensures FoldInv(before, schedule)
  {
    if schedule != [] {
      var n := |schedule| - 1;
      var past, item := schedule[..n], schedule[n];
      FoldKeepsInv(before, past);
      assert schedule == past + [item];
      StepKeepsInv(before, past, item);
    }
  }

  lemma OneMoreItem(before: Target, past: seq<Item>, item: Item)
    ensures var schedule := past + [item];
            schedule[..|past|] == past && schedule[|past|] == item &&
            Fold(before, schedule) == Absorb(Fold(before, past), Some(Observe(before)), item) &&
            Edits(before, schedule) == (if item.Edited? then item.now else Edits(before, past)) &&
            Payload(schedule) == Payload(past) + if item.Net? && item.m.Chunk? then item.m.data else []
  {
    assert (past + [item])[..|past|] == past;
  }

  lemma CommitsNow(before: Target, past: seq<Item>, item: Item)
    requires FoldInv(before, past) && !Fold(before, past).phase.Committed?
    requires Fold(before, past + [item]).phase.Committed?
    ensures CommittedIn(before, past + [item], Fold(before, past + [item]).target)
    ensures Fold(before, past + [item]).partial == None
  {
    var schedule, r := past + [item], Fold(before, past);
    OneMoreItem(before, past, item);
    assert r.phase.Receiving?;
    var content := r.partial.value;
    assert item == Net(End(Digest(content)));
    assert CommitAt(before, schedule, |past|, content);
    assert schedule[|past| + 1..] == [];
  }

  lemma StillReceiving(before: Target, past: seq<Item>, item: Item)
    requires FoldInv(before, past) && Fold(before, past + [item]).phase.Receiving?
    ensures FoldInv(before, past + [item])
  {
    var r, t := Fold(before, past), Fold(before, past + [item]);
    OneMoreItem(before, past, item);
    assert Payload(past) + [] == Payload(past);
    if r.phase.AwaitStart? {
      assert item == Net(Start(t.phase.total)) && item in past + [item];
    } else {
      assert Net(Start(r.phase.total)) in past;
    }
  }

  lemma StepKeepsInv(before: Target, past: seq<Item>, item: Item)
    requires FoldInv(before, past)
    ensures FoldInv(before, past + [item])
  {
    var r, t := Fold(before, past), Fold(before, past + [item]);
    OneMoreItem(before, past, item);
    if r.phase.Committed? {
      CommitStays(before, past, item, r.target);
    } else if t.phase.Committed? {
      CommitsNow(before, past, item);
    } else if t.phase.Receiving? {
      StillReceiving(before, past, item);
    } else {
      assert Payload(past) + [] == Payload(past);
    }
  }

  lemma CommitStays(before: Target, past: seq<Item>, item: Item, target: Target)
    requires CommittedIn(before, past, target)
    ensures CommittedIn(before, past + [item], if item.Edited? then item.now else target)
  {
    var schedule := past + [item];
    var k: nat, content: Bytes :| CommitAt(before, past, k, content) &&
      target == Edits(FileWith(content), past[k + 1..]);
    assert schedule[..k] == past[..k];
    assert CommitAt(before, schedule, k, content);
    assert schedule[k + 1..] == past[k + 1..] + [item];
    assert (past[k + 1..] + [item])[..|past| - k - 1] == past[k + 1..];
  }

  /** Any peer, any interference: a download either commits the announced, hashed bytes over the very
      target it started from, or leaves the target to the rest of the world; no partial file survives. */
  lemma DownloadCommitsOrLeavesAlone(before: Target, schedule: seq<Item>)
    ensures var r := Receive(before, schedule);
            Finished(r) && r.partial == None &&
            (r.phase.Rejected? ==> r.target == Edits(before, schedule)) &&
            (r.phase.Committed? ==> CommittedIn(before, schedule, r.target))
  {
    FoldKeepsInv(before, schedule);
  }

  class Folder {
    var target: Target
    var partial: Option<Bytes>

    constructor (target: Target)
      ensures this.target == target && partial == None
    {
      this.target, partial := target, None;
    }

    /** `request_file_v2`. `used` counts the items met before the function returned; the cleanup guard
        removes the partial file on every exit without a commit. The last acknowledgement follows the commit: if
        it cannot be written, a committed download is reported as an error. */
    method RequestFileV2(schedule: seq<Item>, lastAckGoesOut: bool)
      returns (ok: bool, phase: ReceiverPhase, acks: seq<Message>, used: nat)
      requires partial == None
      modifies this
      ensures used <= |schedule|
      ensures Receiver(phase, target, partial) == Receive(old(target), schedule[..used])
      ensures used < |schedule| ==> Finished(Fold(old(target), schedule[..used]))
      ensures acks == Answers(old(target), schedule[..used])
      ensures ok <==> phase.Committed? && lastAckGoesOut
    {
      var before := target;
      var expected := Some(Observe(target));
      ok, phase, acks, used := false, AwaitStart, [], 0;
      while used < |schedule| && !phase.Committed? && !phase.Rejected?
        invariant used <= |schedule|
        invariant Receiver(phase, target, partial) == Fold(before, schedule[..used])
        invariant acks == Answers(before, schedule[..used])
      {
        assert schedule[..used + 1][..used] == schedule[..used];
        var item := schedule[used];
        used := used + 1;
        match item
        case Edited(now) =>
          target := now;
        case Net(m) =>
          var answers: seq<Message>;
          phase, answers := HandleMessage(phase, expected, m);
          acks := acks + answers;
        case _ =>
          phase, partial := Rejected, None;
      }
      if phase.Committed? {
        ok := lastAckGoesOut;
      } else {
        phase, partial := Rejected, None;
      }
    }

    method HandleMessage(phase: ReceiverPhase, expected: Option<Observed>, m: Message)
      returns (next: ReceiverPhase, answers: seq<Message>)
      requires ReceiverOk(Receiver(phase, target, partial))
      modifies this
      ensures (Receiver(next, target, partial), answers) ==
              OnMessage(Receiver(phase, old(target), old(partial)), expected, m)
    {
      next, answers := phase, [];
      if phase.AwaitStart? {
        if m.Start? {
          next, partial := Receiving(m.total), Some([]);
        } else {
          next, partial := Rejected, None;
        }
      } else if phase.Receiving? {
        var written := |partial.value|;
        if m.Chunk? {
          if m.offset != written {
            next, partial, answers := Rejected, None, [StreamAck(written, false)];
          } else {
            partial := Some(partial.value + m.data);
            written := written + |m.data|;
            if written > phase.total {
              next, partial, answers := Rejected, None, [StreamAck(written, false)];
            } else if m.ack {
              answers := [StreamAck(written, true)];
            }
          }
        } else if m.End? {
          if written != phase.total || Digest(partial.value) != m.hash {
            next, partial, answers := Rejected, None, [StreamAck(written, false)];
          } else if !MeetsPrecondition(target, expected) || target.NonFile? {
            next, partial := Rejected, None;
          } else {
            target := FileWith(partial.value);
            next, partial, answers := Committed, None, [StreamAck(written, true)];
          }
        } else {
          next, partial := Rejected, None;
        }
      }
    }
  }
}
