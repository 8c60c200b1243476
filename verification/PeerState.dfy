/** Connect/disconnect intent between two paired devices: the durable rows, the publisher that announces
    a change, and a network that loses, repeats and reorders. */
module PeerState {
  import opened Prelude

  datatype Row = Row(localDisconnected: bool, localRevision: nat, remoteDisconnected: bool, remoteRevision: Option<nat>)

  datatype Announcement = Announcement(disconnected: bool, revision: nat)

  // ---- the three statements of the repository, on one peer's row ----

  function Ensured(row: Option<Row>): Row {
    if row.Some? then row.value else Row(false, 0, false, None)
  }

  function WithLocal(row: Option<Row>, disconnected: bool): Row {
    if row.None? then Row(disconnected, 1, false, None)
    else if row.value.localDisconnected == disconnected then row.value
    else row.value.(localDisconnected := disconnected, localRevision := row.value.localRevision + 1)
  }

  predicate AcceptsRemote(row: Option<Row>, m: Announcement) {
    row.None? || row.value.remoteRevision.None? || m.revision > row.value.remoteRevision.value ||
    (m.revision == row.value.remoteRevision.value && m.disconnected == row.value.remoteDisconnected)
  }

  function WithRemote(row: Option<Row>, m: Announcement): Row {
    if row.None? then Row(false, 0, m.disconnected, Some(m.revision))
    else if !AcceptsRemote(row, m) then row.value
    else row.value.(remoteDisconnected := m.disconnected, remoteRevision := Some(m.revision))
  }

  class PeerConnectionStateRepository {
    var rows: map<string, Row>

    constructor ()
      ensures rows == map[]
    {
      rows := map[];
    }

    method Ensure(peer: string)
      modifies this
      ensures rows == old(rows)[peer := Ensured(Lookup(old(rows), peer))]
    {
      if peer !in rows {
        rows := rows[peer := Row(false, 0, false, None)];
      }
    }

    method SetLocalDisconnected(peer: string, disconnected: bool) returns (record: Row)
      modifies this
      ensures record == WithLocal(Lookup(old(rows), peer), disconnected)
      ensures rows == old(rows)[peer := record]
      ensures peer !in old(rows) ==> record == Row(disconnected, 1, false, None)
      ensures peer in old(rows) ==>
                record.localDisconnected == disconnected &&
                record.localRevision ==
                  old(rows)[peer].localRevision +
                    (if old(rows)[peer].localDisconnected == disconnected then 0 else 1) &&
                record.remoteDisconnected == old(rows)[peer].remoteDisconnected &&
                record.remoteRevision == old(rows)[peer].remoteRevision
    {
      if peer !in rows {
        rows := rows[peer := Row(disconnected, 1, false, None)];
      } else if rows[peer].localDisconnected != disconnected {
        rows := rows[peer := rows[peer].(localDisconnected := disconnected,
                                         localRevision := rows[peer].localRevision + 1)];
      }
      record := rows[peer];
    }

    method ApplyRemoteDisconnected(peer: string, disconnected: bool, revision: nat) returns (applied: bool)
      modifies this
      ensures applied == AcceptsRemote(Lookup(old(rows), peer), Announcement(disconnected, revision))
      ensures rows == old(rows)[peer := WithRemote(Lookup(old(rows), peer), Announcement(disconnected, revision))]
      ensures peer !in old(rows) ==> applied && rows[peer] == Row(false, 0, disconnected, Some(revision))
      ensures peer in old(rows) ==>
                (applied <==> old(rows)[peer].remoteRevision.None? || revision > old(rows)[peer].remoteRevision.value ||
                              (revision == old(rows)[peer].remoteRevision.value &&
                               disconnected == old(rows)[peer].remoteDisconnected)) &&
                rows[peer] == if applied then old(rows)[peer].(remoteDisconnected := disconnected,
                                                               remoteRevision := Some(revision))
                              else old(rows)[peer]
    {
      if peer !in rows {
        rows := rows[peer := Row(false, 0, disconnected, Some(revision))];
        return true;
      }
      var row := rows[peer];
      applied := false;
      if row.remoteRevision.None? || revision > row.remoteRevision.value {
        applied := true;
      } else if revision == row.remoteRevision.value && disconnected == row.remoteDisconnected {
        applied := true;
      }
      if applied {
        rows := rows[peer := row.(remoteDisconnected := disconnected, remoteRevision := Some(revision))];
      }
    }
  }

  // ---- the two devices and everything between them ----

  /** `log` remembers the sender's flag at each revision it ever had. A persisted change waits until its
      caller hands it to the publisher; the publisher keeps the last command it was handed and sends that
      again and again; whatever was sent stays on the wire. */
  datatype State = State(sender: Option<Row>, receiver: Option<Row>, log: map<nat, bool>,
                         waiting: set<Announcement>, kept: Option<Announcement>, wire: set<Announcement>)

  datatype Event =
    | SenderEnsure
    | SenderSet(disconnected: bool)
    | SenderRestart
    | SenderHears(m: Announcement)
    | HandOver(m: Announcement)
    | Send
    | Deliver(m: Announcement)
    | ReceiverEnsure
    | ReceiverSet(disconnected: bool)

  const INITIAL := State(None, None, map[], {}, None, {})

  function Newest(s: State): Announcement
    requires s.sender.Some?
  {
    Announcement(s.sender.value.localDisconnected, s.sender.value.localRevision)
  }

  function SenderRow(s: State, row: Row): State {
    s.(sender := Some(row), log := s.log[row.localRevision := row.localDisconnected])
  }

  function Next(s: State, e: Event): State {
    match e
    case SenderEnsure => SenderRow(s, Ensured(s.sender))
    case SenderSet(disconnected) =>
      var changed := SenderRow(s, WithLocal(s.sender, disconnected));
      changed.(waiting := s.waiting + {Newest(changed)})
    case SenderRestart => s.(waiting := {}, kept := if s.sender.Some? then Some(Newest(s)) else None)
    case SenderHears(m) => SenderRow(s, WithRemote(s.sender, m))
    case HandOver(m) => if m in s.waiting then s.(waiting := s.waiting - {m}, kept := Some(m)) else s
    case Send => if s.kept.Some? then s.(wire := s.wire + {s.kept.value}) else s
    case Deliver(m) => if m in s.wire then s.(receiver := Some(WithRemote(s.receiver, m))) else s
    case ReceiverEnsure => s.(receiver := Some(Ensured(s.receiver)))
    case ReceiverSet(disconnected) => s.(receiver := Some(WithLocal(s.receiver, disconnected)))
  }

  function RunFrom(s: State, events: seq<Event>): State {
    if events == [] then s else Next(RunFrom(s, events[..|events| - 1]), events[|events| - 1])
  }

  function Run(events: seq<Event>): State { RunFrom(INITIAL, events) }

  // ---- what every run keeps ----

  ghost predicate Recorded(s: State, m: Announcement) {
    m.revision in s.log && s.log[m.revision] == m.disconnected
  }

  ghost predicate Inv(s: State) {
    (s.sender.Some? ==> Recorded(s, Newest(s)) && forall r :: r in s.log ==> r <= s.sender.value.localRevision) &&
    (s.sender.None? ==> s.log == map[]) &&
    (forall m :: m in s.waiting || m in s.wire || s.kept == Some(m) ==> Recorded(s, m)) &&
    (s.receiver.Some? && s.receiver.value.remoteRevision.Some? ==>
       Recorded(s, Announcement(s.receiver.value.remoteDisconnected, s.receiver.value.remoteRevision.value)))
  }

  lemma {:induction false} RunsKeepInv(events: seq<Event>)
    ensures Inv(Run(events))
  {
    if events != [] {
      var n := |events| - 1;
      RunsKeepInv(events[..n]);
      if events[n].SenderEnsure? || events[n].SenderSet? || events[n].SenderHears? {
        SenderKeepsInv(Run(events[..n]), events[n]);
      } else {
        OthersKeepInv(Run(events[..n]), events[n]);
      }
    }
  }

  lemma SenderKeepsInv(s: State, e: Event)
    requires Inv(s) && (e.SenderEnsure? || e.SenderSet? || e.SenderHears?)
    ensures Inv(Next(s, e))
  {
    var t := Next(s, e);
    assert forall r :: r in s.log ==> r in t.log && t.log[r] == s.log[r];
    assert forall m :: Recorded(s, m) ==> Recorded(t, m);
  }

  lemma OthersKeepInv(s: State, e: Event)
    requires Inv(s) && !e.SenderEnsure? && !e.SenderSet? && !e.SenderHears?
    ensures Inv(Next(s, e))
  {
    assert forall m :: Recorded(s, m) ==> Recorded(Next(s, e), m);
  }

  function RemoteRevision(s: State): int {
    if s.receiver.Some? && s.receiver.value.remoteRevision.Some? then s.receiver.value.remoteRevision.value else -1
  }

  /** The receiver holds exactly the sender's present intent. */
  predicate InSync(s: State) {
    s.sender.Some? && s.receiver.Some? && s.receiver.value.remoteRevision == Some(s.sender.value.localRevision) &&
    s.receiver.value.remoteDisconnected == s.sender.value.localDisconnected
  }

  /** Whatever is lost, repeated or reordered: the receiver's flag is the one the sender had at the
      revision the receiver has reached, and revisions are never older than what the sender is at. */
  lemma FlagMatchesRevision(events: seq<Event>)
    ensures var s := Run(events);
            RemoteRevision(s) >= 0 ==>
              s.sender.Some? && RemoteRevision(s) <= s.sender.value.localRevision && RemoteRevision(s) in s.log &&
              s.receiver.value.remoteDisconnected == s.log[RemoteRevision(s)]
  {
    RunsKeepInv(events);
  }

  /** A revision's flag, once recorded, is the same in every continuation. */
  lemma {:induction false} LogIsWriteOnce(events: seq<Event>, k: nat, r: nat)
    requires k <= |events| && r in Run(events[..k]).log
    ensures r in Run(events).log && Run(events).log[r] == Run(events[..k]).log[r]
  {
    if k < |events| {
      var n := |events| - 1;
      assert events[..n][..k] == events[..k];
      LogIsWriteOnce(events[..n], k, r);
      RunsKeepInv(events[..n]);
    } else {
      assert events[..k] == events;
    }
  }

  lemma {:induction false} RemoteRevisionNeverDecreases(events: seq<Event>, k: nat)
    requires k <= |events|
    ensures RemoteRevision(Run(events[..k])) <= RemoteRevision(Run(events))
  {
    if k < |events| {
      assert events[..|events| - 1][..k] == events[..k];
      RemoteRevisionNeverDecreases(events[..|events| - 1], k);
    } else {
      assert events[..k] == events;
    }
  }

  /** Once the newest revision has arrived, no delayed or repeated message disturbs it until the sender
      changes its mind again. */
  lemma NewestIsStable(events: seq<Event>, k: nat)
    requires k <= |events| && InSync(Run(events[..k]))
    ensures Run(events).sender.Some?
    ensures Run(events).sender.value.localRevision == Run(events[..k]).sender.value.localRevision ==>
              InSync(Run(events)) &&
              Run(events).receiver.value.remoteDisconnected == Run(events[..k]).receiver.value.remoteDisconnected
  {
    var s, t := Run(events[..k]), Run(events);
    RunsKeepInv(events);
    RunsKeepInv(events[..k]);
    RemoteRevisionNeverDecreases(events, k);
    LogIsWriteOnce(events, k, s.sender.value.localRevision);
  }

  /** One arrival of the newest announcement is enough, whatever came before. */
  lemma NewestArrives(events: seq<Event>)
    requires Run(events).sender.Some? && Newest(Run(events)) in Run(events).wire
    ensures InSync(Next(Run(events), Deliver(Newest(Run(events)))))
  {
    RunsKeepInv(events);
  }

  // ---- does the publisher keep the newest revision? ----

  /** Sending and delivering alone. */
  ghost predicate NetworkOnly(tail: seq<Event>) {
    forall i :: 0 <= i < |tail| ==> tail[i].Send? || tail[i].Deliver?
  }

  /** With every command handed over, the receiver can still learn the newest intent exactly when the
      publisher keeps it, or it is on the wire already, or it has arrived. */
  lemma SyncReachableExactly(events: seq<Event>)
    requires Run(events).sender.Some? && Run(events).waiting == {}
    ensures var s := Run(events);
            (exists tail :: NetworkOnly(tail) && InSync(RunFrom(s, tail))) <==>
            s.kept == Some(Newest(s)) || Newest(s) in s.wire || InSync(s)
  {
    var s := Run(events);
    if InSync(s) {
      assert NetworkOnly([]) && RunFrom(s, []) == s;
    } else if Newest(s) in s.wire {
      var tail := [Deliver(Newest(s))];
      assert tail[..0] == [] && NetworkOnly(tail);
      NewestArrives(events);
      assert RunFrom(s, tail) == Next(s, tail[0]);
    } else if s.kept == Some(Newest(s)) {
      var tail := [Send, Deliver(Newest(s))];
      assert tail[..1] == [Send] && tail[..1][..0] == [] && NetworkOnly(tail);
      var sent := events + [Send];
      assert sent[..|events|] == events;
      NewestArrives(sent);
      assert RunFrom(s, tail[..1]) == Next(s, Send) == Run(sent);
      assert InSync(RunFrom(s, tail));
    } else {
      forall tail | NetworkOnly(tail)
        ensures !InSync(RunFrom(s, tail))
      {
        StaleForever(s, tail);
      }
    }
  }

  lemma {:induction false} StaleForever(s: State, tail: seq<Event>)
    requires NetworkOnly(tail) && s.sender.Some?
    requires s.kept != Some(Newest(s)) && Newest(s) !in s.wire && !InSync(s)
    ensures var t := RunFrom(s, tail);
            t.sender == s.sender && t.kept == s.kept && Newest(s) !in t.wire && !InSync(t)
  {
    if tail != [] {
      var n := |tail| - 1;
      assert forall i :: 0 <= i < n ==> tail[..n][i] == tail[i];
      StaleForever(s, tail[..n]);
    }
  }

  /** Commands are handed over in the order of their revisions. */
  ghost predicate InOrder(events: seq<Event>) {
    forall k :: 0 <= k < |events| && events[k].HandOver? ==> Oldest(Run(events[..k]), events[k].m)
  }

  ghost predicate Oldest(s: State, m: Announcement) {
    forall w :: w in s.waiting ==> m.revision <= w.revision
  }

  ghost predicate KeepsOrder(s: State) {
    (s.kept.Some? ==> forall w :: w in s.waiting ==> s.kept.value.revision <= w.revision) &&
    (s.sender.Some? && (s.kept.Some? || s.waiting != {}) ==>
       Newest(s) in s.waiting || s.kept == Some(Newest(s)))
  }

  lemma {:induction false} OrderedRunsKeepOrder(events: seq<Event>)
    requires InOrder(events)
    ensures KeepsOrder(Run(events))
  {
    if events != [] {
      var n := |events| - 1;
      var s, e := Run(events[..n]), events[n];
      forall k | 0 <= k < n && events[..n][k].HandOver?
        ensures Oldest(Run(events[..n][..k]), events[..n][k].m)
      {
        assert events[..n][..k] == events[..k];
      }
      OrderedRunsKeepOrder(events[..n]);
      RunsKeepInv(events[..n]);
      if e.HandOver? && e.m in s.waiting {
        assert Oldest(s, e.m);
      }
    }
  }

  /** Handed over in order, the publisher ends up with the newest revision, as its comment promises. */
  lemma OrderedPublisherKeepsNewest(events: seq<Event>)
    requires InOrder(events)
    requires var s := Run(events); s.sender.Some? && s.waiting == {} && s.kept.Some?
    ensures Run(events).kept == Some(Newest(Run(events)))
  {
    OrderedRunsKeepOrder(events);
  }

  /** A restart of the sender reads the row again and publishes it: whatever was waiting or kept before, the newest
      intent can then reach the receiver, by one announcement. */
  lemma RestartRepairs(events: seq<Event>)
    requires Run(events).sender.Some?
    ensures var s := Next(Run(events), SenderRestart);
            s.kept == Some(Newest(s)) && s.waiting == {} && s.sender == Run(events).sender &&
            s.receiver == Run(events).receiver && s.wire == Run(events).wire &&
            InSync(Next(Next(s, Send), Deliver(Newest(s))))
  {
    var again := events + [SenderRestart];
    assert again[..|events|] == events && Run(again) == Next(Run(events), SenderRestart);
    var sent := again + [Send];
    assert sent[..|again|] == again && Run(sent) == Next(Run(again), Send);
    NewestArrives(sent);
  }

  const SWAPPED := [SenderEnsure, SenderSet(true), SenderSet(false),
                    HandOver(Announcement(false, 2)), HandOver(Announcement(true, 1))]

  lemma StepAt(events: seq<Event>, k: nat)
    requires k < |events|
    ensures Run(events[..k + 1]) == Next(Run(events[..k]), events[k])
  {
    assert events[..k + 1][..k] == events[..k];
  }

  lemma SwappedRun()
    ensures Run(SWAPPED) == State(Some(Row(false, 2, false, None)), None, map[0 := false, 1 := true, 2 := false],
                                  {}, Some(Announcement(true, 1)), {})
  {
    StepAt(SWAPPED, 0);
    StepAt(SWAPPED, 1);
    StepAt(SWAPPED, 2);
    StepAt(SWAPPED, 3);
    StepAt(SWAPPED, 4);
    assert SWAPPED[..5] == SWAPPED && SWAPPED[..0] == [];
    assert {Announcement(true, 1), Announcement(false, 2)} - {Announcement(false, 2)} == {Announcement(true, 1)};
  }

  /** The database lock is released before the command is handed over, so two changes may be handed over
      in the wrong order: the publisher then keeps the older one and the peer is never told. */
  lemma SwappedHandOverIsNeverRepaired(tail: seq<Event>)
    requires NetworkOnly(tail)
    ensures var s := Run(SWAPPED);
            s.sender.Some? && s.waiting == {} && s.kept == Some(Announcement(true, 1)) &&
            Newest(s) == Announcement(false, 2) && !InSync(RunFrom(s, tail))
  {
    SwappedRun();
    StaleForever(Run(SWAPPED), tail);
  }
}
