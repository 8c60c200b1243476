/** One file upload against a Secondary whose user keeps working on the same path: which version of
    the target a commit can replace. */
module TargetGuard {
  import opened Prelude
  import opened Model
  import opened Paths
  import opened PrimarySync
  import ActionList
  import Convergence

  /** A version of a file is its hash. */
  type Target = TargetOf<Hash>

  const NON_FILE: Hash := "<non-file>"

  /** A digest in hexadecimal is never one of the two special observations. */
  predicate IsFileHash(h: Hash) { h != "" && h != NON_FILE }

  ghost predicate IsTarget(t: Target) { t.FileWith? ==> IsFileHash(t.content) }

  /** `target_precondition`. */
  function Observe(t: Target): Hash {
    match t
    case Missing => ""
    case FileWith(content) => content
    case NonFile => NON_FILE
  }

  /** `ensure_target_precondition`. */
  predicate Accepts(expected: Option<Hash>, t: Target) { expected == None || expected == Some(Observe(t)) }

  /** What an upload tells the Secondary to expect at the path. */
  function Expectation(a: PlannedAction): Option<Hash> {
    match a.baseline
    case None => Some("")
    case Some(b) => if b.secondaryHashStatus == Verified then b.secondaryHash else None
  }

  /** A new path must be absent, a synced one hold the verified hash; where the hash was never verified, nothing is
      expected at all. */
  lemma ExpectedExactly(a: PlannedAction)
    ensures a.baseline.None? ==> forall t: Target :: IsTarget(t) ==> (Accepts(Expectation(a), t) <==> t == Missing)
    ensures a.baseline.Some? && ValidAction(a) ==>
              var hash, status := a.baseline.value.secondaryHash, a.baseline.value.secondaryHashStatus;
              if status == Verified && hash.Some? then
                forall t: Target :: IsTarget(t) && !t.NonFile? ==>
                  (Accepts(Expectation(a), t) <==> t == FileWith(hash.value))
              else forall t: Target :: Accepts(Expectation(a), t)
  {}

  /** The version that may be replaced: the one last synced, or nothing for a new path. */
  function LastSynced(a: PlannedAction): Target {
    match a.baseline
    case None => Missing
    case Some(b) => if b.secondaryHash.Some? then FileWith(b.secondaryHash.value) else NonFile
  }

  ghost predicate ValidAction(a: PlannedAction) {
    a.baseline.Some? && a.baseline.value.secondaryHash.Some? ==> IsFileHash(a.baseline.value.secondaryHash.value)
  }

  // ---- the receiving side, one event at a time ----

  /** `Check` and `Replace` are the precondition test and the rename that end a stream; `Fails` stands for
      every other way it may end. */
  datatype Event = Edit(now: Target) | Start | Check | Replace | Fails

  datatype Phase = Offered | Streaming | Checked(seen: Target) | Committed(replaced: Target) | Refused

  datatype Upload = Upload(phase: Phase, target: Target)

  function Refuse(u: Upload): Upload { if u.phase.Committed? then u else u.(phase := Refused) }

  function Step(u: Upload, expected: Option<Hash>, payload: Hash, e: Event): Upload {
    match e
    case Edit(now) => u.(target := now)
    case Start =>
      if u.phase != Offered then Refuse(u)
      else if expected == None && u.target != Missing then Refuse(u)
      else if Accepts(expected, u.target) then u.(phase := Streaming) else Refuse(u)
    case Check =>
      if u.phase == Streaming && Accepts(expected, u.target) then u.(phase := Checked(u.target)) else Refuse(u)
    case Replace =>
      if u.phase.Checked? && !u.target.NonFile? then Upload(Committed(u.target), FileWith(payload)) else Refuse(u)
    case Fails => Refuse(u)
  }

  function Run(before: Target, expected: Option<Hash>, payload: Hash, events: seq<Event>): Upload {
    if events == [] then Upload(Offered, before)
    else Step(Run(before, expected, payload, events[..|events| - 1]), expected, payload, events[|events| - 1])
  }

  /** The path as its user alone would have left it. */
  function Edited(before: Target, events: seq<Event>): Target {
    if events == [] then before
    else if events[|events| - 1].Edit? then events[|events| - 1].now
    else Edited(before, events[..|events| - 1])
  }

  ghost predicate ValidEvents(events: seq<Event>) {
    forall i :: 0 <= i < |events| && events[i].Edit? ==> IsTarget(events[i].now)
  }

  /** No edit falls between a check and the rename that follows it. */
  ghost predicate Atomic(events: seq<Event>) {
    forall i :: 0 < i < |events| && events[i].Edit? ==> events[i - 1] != Check
  }

  // ---- what a run can do ----

  lemma {:induction false} CheckedTargetIsTheSyncedOne(a: PlannedAction, before: Target, payload: Hash,
                                                       events: seq<Event>)
    requires ValidAction(a) && IsTarget(before) && ValidEvents(events)
    ensures IsTarget(Edited(before, events))
    ensures var u := Run(before, Expectation(a), payload, events);
            (!u.phase.Committed? ==> u.target == Edited(before, events)) &&
            (u.phase.Checked? && Expectation(a).Some? ==> u.phase.seen == LastSynced(a))
  {
    if events != [] {
      var n := |events| - 1;
      assert forall i :: 0 <= i < n ==> events[..n][i] == events[i];
      CheckedTargetIsTheSyncedOne(a, before, payload, events[..n]);
    }
  }

  /** A run without a commit leaves the path to its user. */
  lemma {:induction false} RefusedUploadChangesNothing(a: PlannedAction, before: Target, payload: Hash,
                                                       events: seq<Event>)
    requires ValidAction(a) && IsTarget(before) && ValidEvents(events)
    ensures var u := Run(before, Expectation(a), payload, events);
            !u.phase.Committed? ==> u.target == Edited(before, events)
  {
    CheckedTargetIsTheSyncedOne(a, before, payload, events);
  }

  /** With check and rename in one step, an upload that carries an expectation replaces the last-synced
      version and nothing else, whatever its user did between the scan and the commit. */
  lemma {:induction false} NoLostUpdate(a: PlannedAction, before: Target, payload: Hash, events: seq<Event>)
    requires ValidAction(a) && IsTarget(before) && ValidEvents(events) && Atomic(events)
    requires Expectation(a).Some?
    ensures var u := Run(before, Expectation(a), payload, events);
            u.phase.Committed? ==> u.phase.replaced == LastSynced(a)
  {
    if events != [] {
      var n := |events| - 1;
      assert forall i :: 0 <= i < n ==> events[..n][i] == events[i];
      NoLostUpdate(a, before, payload, events[..n]);
      CheckedTargetIsTheSyncedOne(a, before, payload, events[..n]);
      if events[n] == Replace {
        CheckedIsCurrent(before, Expectation(a), payload, events[..n]);
      }
    }
  }

  lemma {:induction false} CheckedIsCurrent(before: Target, expected: Option<Hash>, payload: Hash, events: seq<Event>)
    requires Atomic(events)
    ensures var u := Run(before, expected, payload, events);
            u.phase.Checked? ==> u.phase.seen == u.target && events != [] && events[|events| - 1] == Check
  {
    if events != [] {
      var n := |events| - 1;
      assert forall i :: 0 <= i < n ==> events[..n][i] == events[i];
      CheckedIsCurrent(before, expected, payload, events[..n]);
    }
  }

  /** Every run is safe exactly when the action carries an expectation. */
  lemma GuardIsExact(a: PlannedAction)
    requires ValidAction(a)
    ensures Expectation(a).Some? <==>
            forall before: Target, payload: Hash, events: seq<Event> ::
              IsTarget(before) && ValidEvents(events) && Atomic(events) ==>
                var u := Run(before, Expectation(a), payload, events);
                u.phase.Committed? ==> u.phase.replaced == LastSynced(a)
  {
    if Expectation(a).Some? {
      forall before: Target, payload: Hash, events: seq<Event>
        | IsTarget(before) && ValidEvents(events) && Atomic(events)
        ensures var u := Run(before, Expectation(a), payload, events);
                u.phase.Committed? ==> u.phase.replaced == LastSynced(a)
      {
        NoLostUpdate(a, before, payload, events);
      }
    } else {
      UnguardedOverwrite(LastSynced(a), "p");
    }
  }

  /** Without an expectation a file that appears after the stream has started is overwritten. */
  lemma UnguardedOverwrite(synced: Target, payload: Hash)
    ensures exists events: seq<Event> :: ValidEvents(events) && Atomic(events) &&
              Run(Missing, None, payload, events).phase.Committed? &&
              Run(Missing, None, payload, events).phase.replaced != synced
  {
    var mine := if synced == FileWith("mine") then FileWith("other") else FileWith("mine");
    var events := [Start, Edit(mine), Check, Replace];
    Unroll4(Missing, None, payload, events);
    assert ValidEvents(events) && Atomic(events);
  }

  lemma Unroll4(before: Target, expected: Option<Hash>, payload: Hash, events: seq<Event>)
    requires |events| == 4
    ensures var u1 := Step(Upload(Offered, before), expected, payload, events[0]);
            var u2 := Step(u1, expected, payload, events[1]);
            var u3 := Step(u2, expected, payload, events[2]);
            Run(before, expected, payload, events) == Step(u3, expected, payload, events[3])
  {
    assert events[..1][..0] == [] && events[..2][..1] == events[..1] && events[..3][..2] == events[..2];
    assert Run(before, expected, payload, events[..1]) == Step(Upload(Offered, before), expected, payload, events[0]);
    assert Run(before, expected, payload, events[..2]) ==
           Step(Run(before, expected, payload, events[..1]), expected, payload, events[1]);
  }

  // ---- the gap between check and rename ----

  /** The check and the rename are two steps of the program. No expectation survives an edit in between: whatever
      the user then has at the path, short of a directory, can be what is replaced. */
  lemma CheckThenRenameReplacesAnEdit(a: PlannedAction, mine: Target, payload: Hash)
    requires ValidAction(a) && Expectation(a).Some?
    requires IsTarget(mine) && !mine.NonFile? && mine != LastSynced(a)
    ensures exists events: seq<Event> :: ValidEvents(events) && !Atomic(events) &&
              Run(LastSynced(a), Expectation(a), payload, events).phase == Committed(mine)
  {
    var events := [Start, Check, Edit(mine), Replace];
    Unroll4(LastSynced(a), Expectation(a), payload, events);
    assert events[2].Edit? && events[2 - 1] == Check;
    assert ValidEvents(events);
  }

  /** The check at `c` passed, the rename at `k` went through, and only the user acted in between. */
  ghost predicate CommitsBetween(events: seq<Event>, c: nat, k: nat) {
    c < k < |events| && events[c] == Check && events[k] == Replace && forall i :: c < i < k ==> events[i].Edit?
  }

  lemma {:induction false} CheckedSince(a: PlannedAction, before: Target, payload: Hash, events: seq<Event>)
    returns (c: nat)
    requires ValidAction(a) && IsTarget(before) && ValidEvents(events) && Expectation(a).Some?
    requires Run(before, Expectation(a), payload, events).phase.Checked?
    ensures c < |events| && events[c] == Check && (forall i :: c < i < |events| ==> events[i].Edit?) &&
            Edited(before, events[..c]) == LastSynced(a)
  {
    var n := |events| - 1;
    assert forall i :: 0 <= i < n ==> events[..n][i] == events[i];
    CheckedTargetIsTheSyncedOne(a, before, payload, events);
    CheckedTargetIsTheSyncedOne(a, before, payload, events[..n]);
    if events[n] == Check {
      c := n;
    } else {
      c := CheckedSince(a, before, payload, events[..n]);
      assert events[..n][..c] == events[..c];
    }
  }

  /** What a commit replaces, however check and rename are spread: the user's version at the rename, while the
      check has seen the last-synced one. So it replaces that one exactly if the user's edits between the two
      have left the path as it was. */
  lemma {:induction false} CommitReplacesSyncedExactly(a: PlannedAction, before: Target, payload: Hash,
                                                     events: seq<Event>)
    returns (c: nat, k: nat)
    requires ValidAction(a) && IsTarget(before) && ValidEvents(events) && Expectation(a).Some?
    requires Run(before, Expectation(a), payload, events).phase.Committed?
    ensures CommitsBetween(events, c, k)
    ensures var replaced := Run(before, Expectation(a), payload, events).phase.replaced;
            replaced == Edited(before, events[..k]) &&
            (replaced == LastSynced(a) <==> Edited(before, events[..k]) == Edited(before, events[..c]))
  {
    var n := |events| - 1;
    assert forall i :: 0 <= i < n ==> events[..n][i] == events[i];
    if Run(before, Expectation(a), payload, events[..n]).phase.Committed? {
      c, k := CommitReplacesSyncedExactly(a, before, payload, events[..n]);
      assert events[..n][..k] == events[..k] && events[..n][..c] == events[..c];
    } else {
      CheckedTargetIsTheSyncedOne(a, before, payload, events[..n]);
      c := CheckedSince(a, before, payload, events[..n]);
      assert events[..n][..c] == events[..c];
      k := n;
    }
  }

  // ---- which uploads can succeed at all ----

  ghost predicate Undisturbed(events: seq<Event>) { forall i :: 0 <= i < |events| ==> !events[i].Edit? }

  /** With the user away the upload can go through. */
  ghost predicate CanCommit(before: Target, expected: Option<Hash>, payload: Hash) {
    exists events: seq<Event> :: Undisturbed(events) && Run(before, expected, payload, events).phase.Committed?
  }

  /** The start check and the precondition agree with what is at the path, and it is no directory. */
  predicate Fits(before: Target, expected: Option<Hash>) {
    match expected
    case None => before == Missing
    case Some(h) => !before.NonFile? && h == Observe(before)
  }

  lemma {:induction false} UndisturbedRun(before: Target, expected: Option<Hash>, payload: Hash, events: seq<Event>)
    requires Undisturbed(events)
    ensures var u := Run(before, expected, payload, events);
            (u.phase.Committed? ==> Fits(before, expected)) && (!u.phase.Committed? ==> u.target == before) &&
            (u.phase.Streaming? || u.phase.Checked? ==> before.NonFile? || Fits(before, expected))
  {
    if events != [] {
      var n := |events| - 1;
      assert forall i :: 0 <= i < n ==> events[..n][i] == events[i];
      UndisturbedRun(before, expected, payload, events[..n]);
    }
  }

  lemma CanCommitExactly(before: Target, expected: Option<Hash>, payload: Hash)
    ensures CanCommit(before, expected, payload) <==> Fits(before, expected)
  {
    if Fits(before, expected) {
      var events := [Start, Check, Replace, Fails];
      Unroll4(before, expected, payload, events);
      assert Undisturbed(events);
    }
    if CanCommit(before, expected, payload) {
      var events: seq<Event> :| Undisturbed(events) && Run(before, expected, payload, events).phase.Committed?;
      UndisturbedRun(before, expected, payload, events);
    }
  }

  /** A repair re-sends an entry that the peer does not have, yet still announces the baseline's hash: left alone
      it can go through exactly if it announces nothing. */
  lemma RepairCommitsExactly(a: PlannedAction, b: SyncBaseline, live: map<RelPath, FileSnapshot>,
                             planned: set<RelPath>, remote: set<RelPath>, payload: Hash)
    requires Repair(b, live, planned, remote) == Some(a) && ValidAction(a)
    ensures CanCommit(Missing, Expectation(a), payload) <==> Expectation(a).None?
  {
    CanCommitExactly(Missing, Expectation(a), payload);
  }

  function TargetAt(tree: map<RelPath, Entry>, p: RelPath): Target {
    if p !in tree then Missing
    else match tree[p] case Folder => NonFile case Content(h) => FileWith(h)
  }

  predicate IsUpload(a: PlannedAction) {
    a.decision == ApplyToSecondary && a.snapshot.Some? && a.snapshot.value.kind == File
  }

  ghost predicate UploadsCanCommit(s: Convergence.Situation, payload: Hash) {
    forall i :: 0 <= i < |s.Actions()| && IsUpload(s.Actions()[i]) ==>
      CanCommit(TargetAt(s.tree, s.Actions()[i].relativePath), Expectation(s.Actions()[i]), payload)
  }

  /** No live file that has a baseline is missing on the Secondary. */
  ghost predicate NoSyncedFileIsMissing(s: Convergence.Situation) {
    forall p :: p in s.Live() && s.Live()[p].kind == File && p in s.Base() ==> p in s.tree
  }

  lemma UploadFitsExactly(s: Convergence.Situation, i: nat)
    requires s.Good() && i < |s.Actions()| && IsUpload(s.Actions()[i])
    requires forall p :: p in s.Base() && s.Base()[p].secondaryHash.Some? ==>
             IsFileHash(s.Base()[p].secondaryHash.value)
    ensures var a := s.Actions()[i];
            a.relativePath in s.Live() && s.Live()[a.relativePath].kind == File &&
            (Fits(TargetAt(s.tree, a.relativePath), Expectation(a)) <==>
             (a.relativePath in s.Base() ==> a.relativePath in s.tree))
  {
    ActionList.AllActionsSound(s.snaps, s.cached, s.rows, s.remote);
    assert ActionList.Sound(s.Actions()[i], s.Live(), s.Base());
  }

  /** For the whole run: every upload can go through exactly if no live file with a baseline is missing on the
      Secondary. Deleting a synced file there blocks its upload, changed or not, while the baseline stands. */
  lemma RunCanBeAcknowledgedExactly(s: Convergence.Situation, payload: Hash)
    requires s.Good()
    requires forall p :: p in s.Base() && s.Base()[p].secondaryHash.Some? ==>
             IsFileHash(s.Base()[p].secondaryHash.value)
    ensures UploadsCanCommit(s, payload) <==> NoSyncedFileIsMissing(s)
  {
    forall i | 0 <= i < |s.Actions()| && IsUpload(s.Actions()[i])
      ensures CanCommit(TargetAt(s.tree, s.Actions()[i].relativePath), Expectation(s.Actions()[i]), payload) <==>
              (s.Actions()[i].relativePath in s.Base() ==> s.Actions()[i].relativePath in s.tree)
      ensures s.Actions()[i].relativePath in s.Live() && s.Live()[s.Actions()[i].relativePath].kind == File
    {
      UploadFitsExactly(s, i);
      CanCommitExactly(TargetAt(s.tree, s.Actions()[i].relativePath), Expectation(s.Actions()[i]), payload);
    }
    if UploadsCanCommit(s, payload) {
      forall p | p in s.Live() && s.Live()[p].kind == File && p in s.Base()
        ensures p in s.tree
      {
        if p !in s.tree {
          MissingIsUploaded(s, p);
        }
      }
    }
  }

  lemma MissingIsUploaded(s: Convergence.Situation, p: RelPath)
    requires s.Good() && p in s.Live() && s.Live()[p].kind == File && p !in s.tree
    ensures exists i :: 0 <= i < |s.Actions()| && IsUpload(s.Actions()[i]) && s.Actions()[i].relativePath == p
  {
    Convergence.NeededIsListed(s, p);
    ActionList.AllActionsSound(s.snaps, s.cached, s.rows, s.remote);
    var a :| a in s.Actions() && a.relativePath == p && a.decision == ApplyToSecondary;
    var i :| 0 <= i < |s.Actions()| && s.Actions()[i] == a;
    assert ActionList.Sound(s.Actions()[i], s.Live(), s.Base());
    assert IsUpload(s.Actions()[i]);
  }

  /** With a verified baseline a repair commits only after somebody has put the synced version back. */
  lemma RepairNeedsTheFileBack(a: PlannedAction, b: SyncBaseline, live: map<RelPath, FileSnapshot>,
                               planned: set<RelPath>, remote: set<RelPath>, payload: Hash, events: seq<Event>)
    requires Repair(b, live, planned, remote) == Some(a)
    requires b.secondaryHashStatus == Verified && b.secondaryHash.Some? && IsFileHash(b.secondaryHash.value)
    requires ValidEvents(events) && Atomic(events)
    requires Run(Missing, Expectation(a), payload, events).phase.Committed?
    ensures Edit(FileWith(b.secondaryHash.value)) in events
  {
    NoLostUpdate(a, Missing, payload, events);
    ReplacedWasEdited(a, payload, events);
  }

  lemma {:induction false} ReplacedWasEdited(a: PlannedAction, payload: Hash, events: seq<Event>)
    requires ValidAction(a) && ValidEvents(events)
    requires var u := Run(Missing, Expectation(a), payload, events);
             u.phase.Committed? && u.phase.replaced != Missing
    ensures Edit(Run(Missing, Expectation(a), payload, events).phase.replaced) in events
  {
    var n := |events| - 1;
    assert forall i :: 0 <= i < n ==> events[..n][i] == events[i];
    if Run(Missing, Expectation(a), payload, events[..n]).phase.Committed? {
      ReplacedWasEdited(a, payload, events[..n]);
    } else {
      CheckedTargetIsTheSyncedOne(a, Missing, payload, events[..n]);
      EditedCameFromAnEdit(Missing, events[..n]);
    }
  }

  lemma {:induction false} EditedCameFromAnEdit(before: Target, events: seq<Event>)
    ensures Edited(before, events) == before || Edit(Edited(before, events)) in events
  {
    if events != [] {
      var n := |events| - 1;
      assert forall i :: 0 <= i < n ==> events[..n][i] == events[i];
      EditedCameFromAnEdit(before, events[..n]);
    }
  }
}
