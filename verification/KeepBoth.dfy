/** The Secondary's "keep both" resolution of one path, stopped anywhere and run again. */
module KeepBoth {
  import opened Prelude

  /** Only equality matters here: of paths, and of contents by their hashes. */
  type Path(==, !new)
  type Hash(==, !new)

  /** The row of `conflict_resolution_journal` for the path and the mode. */
  datatype Journal =
    | NoRow
    | Prepared(id: nat)
    | RemoteApplied(id: nat, conflict: Path, hash: Hash)
    | LocalCommitted(id: nat)

  datatype Stage =
    | Idle | Loaded | Uploaded | Applied | Recorded | Downloaded | Copied | Replaced | Persisted | Done

  datatype Copy = Copy(path: Path, hash: Hash)

  datatype SyncedPair = SyncedPair(primary: Hash, secondary: Hash)

  /** `remote` is the Primary's folder and `applied` its own journal, by resolution; the other fields are
      the Secondary's. `temp` is the downloaded Primary version outside the synced tree. The last four say how
      far a run has come, and what it holds in local variables by then. */
  datatype State = State(original: Path, disk: map<Path, Hash>, temp: Option<Hash>, pending: bool,
                         journal: Journal, nextId: nat, baselines: map<Path, SyncedPair>,
                         snapshots: map<Path, Hash>, remote: map<Path, Hash>, applied: map<nat, Copy>,
                         stage: Stage, conflict: Path, hash: Hash, primary: Hash)

  /** One event a step of the program, in program order; `Stop` ends a run at once, by a crash or an error.
      The user of the Secondary edits between runs, the one of the Primary at any time; `Notice` is the scan
      that turns an edit into a pending change. */
  datatype Event =
    | Begin
    | Upload
    | Apply(path: Path, journalled: bool, acked: bool)
    | MarkRemoteApplied
    | Download
    | PlaceCopy
    | ReplaceOriginal
    | Persist
    | Finish
    | Stop
    | SecondaryEdits(path: Path, now: Option<Hash>)
    | PrimaryEdits(path: Path, now: Option<Hash>)
    | Notice

  function Edit(disk: map<Path, Hash>, path: Path, now: Option<Hash>): map<Path, Hash> {
    if now.Some? then disk[path := now.value] else disk - {path}
  }

  predicate Resting(s: State) { s.stage.Idle? || s.stage.Done? }

  /** `load_or_create_conflict_resolution` and the test for the source file. */
  function AfterBegin(s: State): State {
    if !Resting(s) then s
    else if !s.pending then s.(stage := Idle)
    else
      match s.journal
      case RemoteApplied(_, conflict, hash) => s.(stage := Recorded, conflict := conflict, hash := hash)
      case Prepared(_) => s.(stage := if s.original in s.disk then Loaded else Idle)
      case _ =>
        s.(journal := Prepared(s.nextId), nextId := s.nextId + 1,
           stage := if s.original in s.disk then Loaded else Idle)
  }

  function AfterUpload(s: State): State {
    if !s.stage.Loaded? then s
    else if s.original !in s.disk then s.(stage := Idle)
    else s.(stage := Uploaded, hash := s.disk[s.original])
  }

  /** The Primary applies a resolution once: asked again, it answers with the path it used. Its journal row may
      be lost to a crash after the file is in place, and the answer may be lost on the way. */
  function AfterApply(s: State, path: Path, journalled: bool, acked: bool): State {
    if !s.stage.Uploaded? || !s.journal.Prepared? then s
    else if s.journal.id in s.applied then
      if acked then s.(stage := Applied, conflict := s.applied[s.journal.id].path) else s.(stage := Idle)
    else if path == s.original || path in s.remote then s
    else if !journalled then s.(remote := s.remote[path := s.hash], stage := Idle)
    else
      s.(remote := s.remote[path := s.hash], applied := s.applied[s.journal.id := Copy(path, s.hash)],
         stage := if acked then Applied else Idle, conflict := path)
  }

  function AfterMark(s: State): State {
    if !s.stage.Applied? || !s.journal.Prepared? then s
    else s.(journal := RemoteApplied(s.journal.id, s.conflict, s.hash), stage := Recorded)
  }

  function AfterDownload(s: State): State {
    if !s.stage.Recorded? then s
    else if s.original !in s.remote then s.(stage := Idle)
    else s.(temp := Some(s.remote[s.original]), stage := Downloaded, primary := s.remote[s.original])
  }

  /** Keep an existing copy only if it is the recorded version; make one only from the recorded version. */
  function AfterPlaceCopy(s: State): State {
    if !s.stage.Downloaded? then s
    else if s.conflict in s.disk then
      if s.disk[s.conflict] == s.hash then s.(stage := Copied) else s.(temp := None, stage := Idle)
    else if s.original in s.disk && s.disk[s.original] == s.hash then
      s.(disk := s.disk[s.conflict := s.hash], stage := Copied)
    else s.(temp := None, stage := Idle)
  }

  function AfterReplace(s: State): State {
    if !s.stage.Copied? then s
    else s.(disk := s.disk[s.original := s.primary], temp := None, stage := Replaced)
  }

  /** One transaction. */
  function AfterPersist(s: State): State {
    if !s.stage.Replaced? then s
    else
      s.(pending := false,
         baselines := s.baselines[s.original := SyncedPair(s.primary, s.primary)]
                                 [s.conflict := SyncedPair(s.hash, s.hash)],
         snapshots := s.snapshots[s.original := s.primary][s.conflict := s.hash],
         stage := Persisted)
  }

  function AfterFinish(s: State): State {
    if !s.stage.Persisted? || !s.journal.RemoteApplied? then s
    else s.(journal := LocalCommitted(s.journal.id), stage := Done)
  }

  function AfterOutside(s: State, e: Event): State {
    match e
    case Stop => s.(stage := Idle)
    case SecondaryEdits(path, now) => if Resting(s) then s.(disk := Edit(s.disk, path, now), stage := Idle) else s
    case PrimaryEdits(path, now) => s.(remote := Edit(s.remote, path, now))
    case Notice => if Resting(s) then s.(pending := true, stage := Idle) else s
    case _ => s
  }

  function Next(s: State, e: Event): State {
    match e
    case Begin => AfterBegin(s)
    case Upload => AfterUpload(s)
    case Apply(path, journalled, acked) => AfterApply(s, path, journalled, acked)
    case MarkRemoteApplied => AfterMark(s)
    case Download => AfterDownload(s)
    case PlaceCopy => AfterPlaceCopy(s)
    case ReplaceOriginal => AfterReplace(s)
    case Persist => AfterPersist(s)
    case Finish => AfterFinish(s)
    case _ => AfterOutside(s, e)
  }

  function Run(s: State, events: seq<Event>): State {
    if events == [] then s else Next(Run(s, events[..|events| - 1]), events[|events| - 1])
  }

  /** The first call for a path. */
  ghost predicate Fresh(s: State) {
    s.stage.Idle? && s.journal == NoRow && s.applied == map[]
  }

  // ---- what every run keeps ----

  predicate Opening(stage: Stage) { stage.Loaded? || stage.Uploaded? || stage.Applied? }

  predicate AfterRecording(stage: Stage) {
    stage.Recorded? || stage.Downloaded? || stage.Copied? || stage.Replaced? || stage.Persisted?
  }

  ghost predicate Inv(s: State) {
    (forall id :: id in s.applied ==> s.applied[id].path != s.original) &&
    (s.journal.RemoteApplied? ==> s.journal.conflict != s.original) &&
    (Opening(s.stage) ==> s.journal.Prepared?) &&
    (s.stage.Applied? || s.stage.Done? ==> s.conflict != s.original) &&
    (AfterRecording(s.stage) ==> InJournal(s, s.conflict, s.hash)) &&
    (s.stage.Downloaded? || s.stage.Copied? ==> s.temp == Some(s.primary)) &&
    (s.stage.Copied? || s.stage.Replaced? ==> Holds(s.disk, s.conflict, s.hash)) &&
    (s.stage.Replaced? ==> Holds(s.disk, s.original, s.primary)) &&
    (s.stage.Persisted? || s.stage.Done? ==> BothKept(s, s.conflict, s.hash, s.primary)) &&
    (s.stage.Done? ==> s.journal.LocalCommitted?)
  }

  predicate InJournal(s: State, conflict: Path, hash: Hash) {
    s.journal.RemoteApplied? && s.journal.conflict == conflict && s.journal.hash == hash
  }

  predicate Holds(disk: map<Path, Hash>, path: Path, hash: Hash) { path in disk && disk[path] == hash }

  /** The result a user is promised: both files, both baselines, nothing pending. */
  predicate BothKept(s: State, conflict: Path, hash: Hash, primary: Hash) {
    Holds(s.disk, s.original, primary) && Holds(s.disk, conflict, hash) && !s.pending &&
    s.original in s.baselines && s.baselines[s.original] == SyncedPair(primary, primary) &&
    conflict in s.baselines && s.baselines[conflict] == SyncedPair(hash, hash) &&
    Holds(s.snapshots, s.original, primary) && Holds(s.snapshots, conflict, hash)
  }

  lemma BeginKeepsInv(s: State)
    requires Inv(s)
    ensures Inv(AfterBegin(s)) && AfterBegin(s).original == s.original
  {}

  lemma UploadKeepsInv(s: State)
    requires Inv(s)
    ensures Inv(AfterUpload(s)) && AfterUpload(s).original == s.original
  {}

  lemma DownloadKeepsInv(s: State)
    requires Inv(s)
    ensures Inv(AfterDownload(s)) && AfterDownload(s).original == s.original
  {}

  lemma PlaceCopyKeepsInv(s: State)
    requires Inv(s)
    ensures Inv(AfterPlaceCopy(s)) && AfterPlaceCopy(s).original == s.original
  {
    if s.stage.Downloaded? {
      assert InJournal(s, s.conflict, s.hash);
      if s.conflict in s.disk && s.disk[s.conflict] == s.hash {
        assert AfterPlaceCopy(s) == s.(stage := Copied);
      } else if s.conflict !in s.disk && Holds(s.disk, s.original, s.hash) {
        assert AfterPlaceCopy(s) == s.(disk := s.disk[s.conflict := s.hash], stage := Copied);
      } else {
        assert AfterPlaceCopy(s) == s.(temp := None, stage := Idle);
      }
    }
  }

  lemma ApplyKeepsInv(s: State, path: Path, journalled: bool, acked: bool)
    requires Inv(s)
    ensures Inv(AfterApply(s, path, journalled, acked)) && AfterApply(s, path, journalled, acked).original == s.original
  {}

  predicate Early(e: Event) { e.Begin? || e.Upload? || e.Apply? || e.Download? || e.PlaceCopy? }

  lemma LateStepKeepsInv(s: State, e: Event)
    requires Inv(s) && !Early(e)
    ensures Inv(Next(s, e)) && Next(s, e).original == s.original
  {}

  lemma StepKeepsInv(s: State, e: Event)
    requires Inv(s)
    ensures Inv(Next(s, e)) && Next(s, e).original == s.original
  {
    match e
    case Begin => BeginKeepsInv(s);
    case Upload => UploadKeepsInv(s);
    case Apply(path, journalled, acked) => ApplyKeepsInv(s, path, journalled, acked);
    case Download => DownloadKeepsInv(s);
    case PlaceCopy => PlaceCopyKeepsInv(s);
    case _ => LateStepKeepsInv(s, e);
  }

  lemma {:induction false} RunsKeepInv(s: State, events: seq<Event>)
    requires Inv(s)
    ensures Inv(Run(s, events)) && Run(s, events).original == s.original
  {
    if events != [] {
      RunsKeepInv(s, events[..|events| - 1]);
      StepKeepsInv(Run(s, events[..|events| - 1]), events[|events| - 1]);
    }
  }

  ghost predicate HasCopy(disk: map<Path, Hash>, hash: Hash) { exists p :: Holds(disk, p, hash) }

  /** A step leaves the folder alone, adds the copy of the recorded version, or replaces the original once that
      copy is in place. */
  ghost predicate OnDisk(s: State, after: map<Path, Hash>) {
    after == s.disk ||
    (s.journal.RemoteApplied? && s.journal.conflict !in s.disk &&
     after == s.disk[s.journal.conflict := s.journal.hash]) ||
    (s.journal.RemoteApplied? && Holds(s.disk, s.journal.conflict, s.journal.hash) &&
     s.journal.conflict != s.original && after == s.disk[s.original := s.primary])
  }

  lemma PlaceCopyOnDisk(s: State)
    requires Inv(s)
    ensures OnDisk(s, AfterPlaceCopy(s).disk)
  {
    if s.stage.Downloaded? {
      assert InJournal(s, s.conflict, s.hash);
    }
  }

  lemma ReplaceOnDisk(s: State)
    requires Inv(s)
    ensures OnDisk(s, AfterReplace(s).disk)
  {
    if s.stage.Copied? {
      assert InJournal(s, s.conflict, s.hash);
    }
  }

  lemma BeginOnDisk(s: State)
    ensures AfterBegin(s).disk == s.disk
  {}

  lemma OpeningOnDisk(s: State, path: Path, journalled: bool, acked: bool)
    ensures AfterUpload(s).disk == s.disk && AfterApply(s, path, journalled, acked).disk == s.disk
  {}

  lemma StepOnDisk(s: State, e: Event)
    requires Inv(s) && !e.SecondaryEdits?
    ensures OnDisk(s, Next(s, e).disk)
  {
    match e
    case PlaceCopy => PlaceCopyOnDisk(s);
    case ReplaceOriginal => ReplaceOnDisk(s);
    case Begin => BeginOnDisk(s);
    case Apply(path, journalled, acked) => OpeningOnDisk(s, path, journalled, acked);
    case _ =>
      OpeningOnDisk(s, s.original, true, true);
  }

  lemma CopySurvives(before: map<Path, Hash>, after: map<Path, Hash>, path: Path, hash: Hash, other: Path,
                     now: Hash)
    requires HasCopy(before, hash)
    requires after == before || (path !in before && after == before[path := hash]) ||
             (Holds(before, path, hash) && path != other && after == before[other := now])
    ensures HasCopy(after, hash)
  {
    if Holds(before, path, hash) && path != other {
      assert Holds(after, path, hash);
    } else {
      var p :| Holds(before, p, hash);
      assert Holds(after, p, hash);
    }
  }

  /** Until the journal has a version on record no step touches the folder; from then on no step removes the
      last local copy of that version. Only the user's own edits can. */
  lemma RecordedVersionSurvives(s0: State, events: seq<Event>, e: Event)
    requires Fresh(s0) && !e.SecondaryEdits?
    ensures var s := Run(s0, events);
            (!s.journal.RemoteApplied? ==> Next(s, e).disk == s.disk) &&
            (s.journal.RemoteApplied? && HasCopy(s.disk, s.journal.hash) ==> HasCopy(Next(s, e).disk, s.journal.hash))
  {
    RunsKeepInv(s0, events);
    var s := Run(s0, events);
    StepOnDisk(s, e);
    if s.journal.RemoteApplied? && HasCopy(s.disk, s.journal.hash) {
      CopySurvives(s.disk, Next(s, e).disk, s.journal.conflict, s.journal.hash, s.original,
                   s.primary);
    }
  }

  /** Something that was true at some moment of the run. */
  ghost predicate WasLocal(s0: State, events: seq<Event>, hash: Hash) {
    exists k: nat :: k <= |events| && Holds(Run(s0, events[..k]).disk, s0.original, hash)
  }

  ghost predicate WasRemote(s0: State, events: seq<Event>, hash: Hash) {
    exists k: nat :: k <= |events| && Holds(Run(s0, events[..k]).remote, s0.original, hash)
  }

  /** The versions a state carries come from `local` and `remote`. */
  ghost predicate Origins(s: State, local: iset<Hash>, remote: iset<Hash>) {
    (s.journal.RemoteApplied? ==> s.journal.hash in local) &&
    (s.stage.Uploaded? || s.stage.Applied? || s.stage.Done? ==> s.hash in local) &&
    (s.stage.Downloaded? || s.stage.Copied? || s.stage.Replaced? || s.stage.Persisted? || s.stage.Done? ==>
     s.primary in remote)
  }

  lemma BeginKeepsOrigins(s: State, local: iset<Hash>, remote: iset<Hash>)
    requires Origins(s, local, remote)
    ensures Origins(AfterBegin(s), local, remote)
  {}

  lemma UploadKeepsOrigins(s: State, local: iset<Hash>, remote: iset<Hash>)
    requires Origins(s, local, remote) && (s.original in s.disk ==> s.disk[s.original] in local)
    ensures Origins(AfterUpload(s), local, remote)
  {}

  lemma DownloadKeepsOrigins(s: State, local: iset<Hash>, remote: iset<Hash>)
    requires Origins(s, local, remote) && (s.original in s.remote ==> s.remote[s.original] in remote)
    ensures Origins(AfterDownload(s), local, remote)
  {}

  lemma PlaceCopyKeepsOrigins(s: State, local: iset<Hash>, remote: iset<Hash>)
    requires Inv(s) && Origins(s, local, remote)
    ensures Origins(AfterPlaceCopy(s), local, remote)
  {}

  lemma OtherStepKeepsOrigins(s: State, e: Event, local: iset<Hash>, remote: iset<Hash>)
    requires Inv(s) && Origins(s, local, remote) && (!Early(e) || e.Apply?)
    ensures Origins(Next(s, e), local, remote)
  {}

  lemma StepKeepsOrigins(s: State, e: Event, local: iset<Hash>, remote: iset<Hash>)
    requires Inv(s) && Origins(s, local, remote)
    requires s.original in s.disk ==> s.disk[s.original] in local
    requires s.original in s.remote ==> s.remote[s.original] in remote
    ensures Origins(Next(s, e), local, remote)
  {
    match e
    case Begin => BeginKeepsOrigins(s, local, remote);
    case Upload => UploadKeepsOrigins(s, local, remote);
    case Download => DownloadKeepsOrigins(s, local, remote);
    case PlaceCopy => PlaceCopyKeepsOrigins(s, local, remote);
    case _ => OtherStepKeepsOrigins(s, e, local, remote);
  }

  lemma WasStays(s0: State, events: seq<Event>)
    requires events != []
    ensures forall h :: WasLocal(s0, events[..|events| - 1], h) ==> WasLocal(s0, events, h)
    ensures forall h :: WasRemote(s0, events[..|events| - 1], h) ==> WasRemote(s0, events, h)
    ensures forall h :: Holds(Run(s0, events[..|events| - 1]).disk, s0.original, h) ==> WasLocal(s0, events, h)
    ensures forall h :: Holds(Run(s0, events[..|events| - 1]).remote, s0.original, h) ==> WasRemote(s0, events, h)
  {
    var n := |events| - 1;
    assert forall k :: 0 <= k <= n ==> events[..n][..k] == events[..k];
    assert events[..n][..n] == events[..n];
  }

  lemma {:induction false} RunsKeepOrigins(s0: State, events: seq<Event>)
    requires Fresh(s0)
    ensures Origins(Run(s0, events), iset h | WasLocal(s0, events, h), iset h | WasRemote(s0, events, h))
  {
    if events != [] {
      var n := |events| - 1;
      RunsKeepOrigins(s0, events[..n]);
      RunsKeepInv(s0, events[..n]);
      WasStays(s0, events);
      StepKeepsOrigins(Run(s0, events[..n]), events[n], iset h | WasLocal(s0, events, h),
                       iset h | WasRemote(s0, events, h));
    }
  }

  /** A run that completes, after any number of stops: the Primary's version at the original path, the
      Secondary's at the conflict path, both recorded as synced, and nothing pending. */
  lemma CompletedRunKeepsBoth(s0: State, events: seq<Event>)
    requires Fresh(s0) && Run(s0, events).stage.Done?
    ensures var s := Run(s0, events);
            s.conflict != s.original && BothKept(s, s.conflict, s.hash, s.primary) &&
            s.journal.LocalCommitted? &&
            WasLocal(s0, events, s.hash) && WasRemote(s0, events, s.primary)
  {
    RunsKeepInv(s0, events);
    RunsKeepOrigins(s0, events);
  }

  // ---- running again after a stop ----

  const RESUME := [Begin, Download, PlaceCopy, ReplaceOriginal, Persist, Finish]

  predicate Recoverable(s: State) {
    s.journal.RemoteApplied? &&
    if s.journal.conflict in s.disk then s.disk[s.journal.conflict] == s.journal.hash
    else Holds(s.disk, s.original, s.journal.hash)
  }

  lemma RunNext(s: State, events: seq<Event>, k: nat)
    requires k < |events|
    ensures Run(s, events[..k + 1]) == Next(Run(s, events[..k]), events[k])
  {
    assert events[..k + 1][..k] == events[..k];
  }

  lemma ResumedRun(s: State)
    ensures Run(s, RESUME) == AfterFinish(AfterPersist(AfterReplace(AfterPlaceCopy(AfterDownload(AfterBegin(s))))))
  {
    RunNext(s, RESUME, 0);
    RunNext(s, RESUME, 1);
    RunNext(s, RESUME, 2);
    RunNext(s, RESUME, 3);
    RunNext(s, RESUME, 4);
    RunNext(s, RESUME, 5);
    assert RESUME[..0] == [] && RESUME[..6] == RESUME;
  }

  /** An undisturbed rerun of a recorded resolution completes exactly when the recorded version is where it
      can be taken from, and the conflict path is not somebody else's. */
  lemma RerunCompletesExactly(s: State)
    requires Inv(s) && Resting(s) && s.pending && s.journal.RemoteApplied? && s.original in s.remote
    ensures Run(s, RESUME).stage.Done? <==> Recoverable(s)
    ensures var t := Run(s, RESUME);
            t.stage.Done? ==>
              t.disk == WithCopy(s.disk, s.journal.conflict, s.journal.hash)[s.original := s.remote[s.original]] &&
              t.baselines == s.baselines[s.original := SyncedPair(s.remote[s.original], s.remote[s.original])]
                                        [s.journal.conflict := SyncedPair(s.journal.hash, s.journal.hash)] &&
              t.remote == s.remote
  {
    ResumedRun(s);
    FirstHalf(s);
  }

  lemma FirstHalf(s: State)
    requires Inv(s) && Resting(s) && s.pending && s.journal.RemoteApplied? && s.original in s.remote
    ensures var t := AfterPlaceCopy(AfterDownload(AfterBegin(s)));
            t.journal == s.journal && t.original == s.original && t.remote == s.remote &&
            (Recoverable(s) ==>
               t.stage.Copied? && t.primary == s.remote[s.original] && t.hash == s.journal.hash &&
               t.conflict == s.journal.conflict && t.disk == WithCopy(s.disk, s.journal.conflict, s.journal.hash)) &&
            (!Recoverable(s) ==> t.stage.Idle?)
  {
    var s1 := s.(stage := Recorded, conflict := s.journal.conflict, hash := s.journal.hash);
    assert AfterBegin(s) == s1;
    var s2 := s1.(temp := Some(s.remote[s.original]), stage := Downloaded, primary := s.remote[s.original]);
    assert AfterDownload(s1) == s2;
    if s1.conflict in s.disk && s.disk[s1.conflict] == s1.hash {
      assert AfterPlaceCopy(s2) == s2.(stage := Copied);
    } else if s1.conflict !in s.disk && Holds(s.disk, s.original, s1.hash) {
      assert AfterPlaceCopy(s2) == s2.(disk := s2.disk[s1.conflict := s1.hash], stage := Copied);
    } else {
      assert AfterPlaceCopy(s2) == s2.(temp := None, stage := Idle);
    }
  }

  function WithCopy(disk: map<Path, Hash>, path: Path, hash: Hash): map<Path, Hash> {
    if path in disk then disk else disk[path := hash]
  }

  lemma StepStaysRecoverable(s: State, e: Event)
    requires Inv(s) && Recoverable(s) && !e.SecondaryEdits?
    ensures var t := Next(s, e);
            (Recoverable(t) && t.journal == s.journal) ||
            (t.stage.Done? && BothKept(t, t.conflict, t.hash, t.primary))
  {
    match e
    case PlaceCopy =>
    case ReplaceOriginal =>
    case Finish =>
    case _ =>
  }

  /** However often it is stopped and begun again, a recoverable resolution stays recoverable until it is
      settled; the Primary's user may do as he likes. */
  lemma {:induction false} StopsStayRecoverable(s: State, events: seq<Event>)
    requires Inv(s) && Recoverable(s)
    requires forall e :: e in events ==> !e.SecondaryEdits?
    ensures (Recoverable(Run(s, events)) && Run(s, events).journal == s.journal) || Settled(s, events)
  {
    if events != [] {
      var n := |events| - 1;
      StopsStayRecoverable(s, events[..n]);
      assert events[..|events|] == events;
      if Settled(s, events[..n]) {
        var k: nat :| k <= n && Delivered(Run(s, events[..n][..k]));
        assert events[..n][..k] == events[..k];
      } else {
        RunsKeepInv(s, events[..n]);
        StepStaysRecoverable(Run(s, events[..n]), events[n]);
      }
    }
  }

  predicate Delivered(s: State) { s.stage.Done? && BothKept(s, s.conflict, s.hash, s.primary) }

  ghost predicate Settled(s: State, events: seq<Event>) {
    exists k: nat :: k <= |events| && Delivered(Run(s, events[..k]))
  }

  // ---- a first run ----

  /** From the first step to the record, and stopped there. */
  function OpenAndStop(path: Path): seq<Event> {
    [Begin, Upload, Apply(path, true, true), MarkRemoteApplied, Stop]
  }

  lemma OpenedRun(s: State, path: Path)
    ensures Run(s, OpenAndStop(path)) ==
            AfterMark(AfterApply(AfterUpload(AfterBegin(s)), path, true, true)).(stage := Idle)
  {
    var e := OpenAndStop(path);
    RunNext(s, e, 0);
    RunNext(s, e, 1);
    RunNext(s, e, 2);
    RunNext(s, e, 3);
    RunNext(s, e, 4);
    assert e[..0] == [] && e[..5] == e;
  }

  /** What a first run has on record once the Primary has answered. */
  lemma OpenedState(s: State, path: Path)
    requires Resting(s) && s.pending && !s.journal.RemoteApplied? && s.original in s.disk
    ensures var t := AfterMark(AfterApply(AfterUpload(AfterBegin(s)), path, true, true));
            var id := if s.journal.Prepared? then s.journal.id else s.nextId;
            var h := s.disk[s.original];
            t.disk == s.disk && t.original == s.original && t.pending &&
            (id in s.applied ==>
               t.journal == RemoteApplied(id, s.applied[id].path, h) && t.remote == s.remote &&
               t.applied == s.applied) &&
            (id !in s.applied && path != s.original && path !in s.remote ==>
               t.journal == RemoteApplied(id, path, h) && t.remote == s.remote[path := h] &&
               t.applied == s.applied[id := Copy(path, h)])
  {
    var b := AfterBegin(s);
    assert b.stage.Loaded? && b.journal.Prepared? && b.disk == s.disk;
    var u := AfterUpload(b);
    assert u == b.(stage := Uploaded, hash := s.disk[s.original]);
    var a := AfterApply(u, path, true, true);
    if u.journal.id in s.applied {
      assert a == u.(stage := Applied, conflict := s.applied[u.journal.id].path);
    } else if path != s.original && path !in s.remote {
      assert a.stage.Applied? && a.journal == u.journal && a.hash == u.hash && a.conflict == path;
    }
  }

  /** A conflict that is not on record, be it the first of its file or one more after a settled one, is resolved
      from the first step to the last: the Secondary's version at the new path on both sides, the Primary's at the
      original one, under a resolution that was never used before. */
  lemma NewConflictIsResolved(s: State, path: Path)
    requires Inv(s) && RecordInv(s) && Resting(s) && s.pending && (s.journal.NoRow? || s.journal.LocalCommitted?)
    requires s.original in s.disk && s.original in s.remote
    requires path != s.original && path !in s.disk && path !in s.remote
    ensures var t, mine, theirs := Run(Run(s, OpenAndStop(path)), RESUME), s.disk[s.original], s.remote[s.original];
            t.stage.Done? && !t.pending &&
            t.disk == s.disk[path := mine][s.original := theirs] && t.remote == s.remote[path := mine] &&
            t.baselines == s.baselines[s.original := SyncedPair(theirs, theirs)][path := SyncedPair(mine, mine)] &&
            t.journal.LocalCommitted? && t.journal.id !in s.applied &&
            t.applied == s.applied[t.journal.id := Copy(path, mine)]
  {
    OpenedRun(s, path);
    OpenedState(s, path);
    RunsKeepInv(s, OpenAndStop(path));
    var u := Run(s, OpenAndStop(path));
    OpenedTables(s, path);
    RerunCompletesExactly(u);
    RerunSettles(u);
  }

  lemma OpenedTables(s: State, path: Path)
    requires Resting(s) && s.pending && !s.journal.RemoteApplied? && s.original in s.disk
    ensures var t := AfterMark(AfterApply(AfterUpload(AfterBegin(s)), path, true, true));
            t.baselines == s.baselines && t.snapshots == s.snapshots
  {
    BeginOnTables(s);
    UploadOnTables(AfterBegin(s));
    ApplyOnTables(AfterUpload(AfterBegin(s)), path);
  }

  lemma BeginOnTables(s: State)
    ensures AfterBegin(s).baselines == s.baselines && AfterBegin(s).snapshots == s.snapshots
  {}

  lemma UploadOnTables(s: State)
    ensures AfterUpload(s).baselines == s.baselines && AfterUpload(s).snapshots == s.snapshots
  {}

  lemma ApplyOnTables(s: State, path: Path)
    ensures var t := AfterApply(s, path, true, true);
            t.baselines == s.baselines && t.snapshots == s.snapshots
  {}

  lemma RerunSettles(s: State)
    requires Inv(s) && Resting(s) && s.pending && s.journal.RemoteApplied? && s.original in s.remote && Recoverable(s)
    ensures var t := Run(s, RESUME);
            t.journal == LocalCommitted(s.journal.id) && t.applied == s.applied && !t.pending
  {
    ResumedRun(s);
    FirstHalf(s);
  }

  /** A Primary that crashes between the file and its journal row leaves a copy that nobody knows of. The rerun makes
      another one at another path, and completes: the first stays on the Primary, without any record. */
  lemma UnjournalledCopyIsOrphaned(s: State, first: Path, second: Path, acked: bool)
    requires Inv(s) && RecordInv(s) && Resting(s) && s.pending && (s.journal.NoRow? || s.journal.LocalCommitted?)
    requires s.original in s.disk && s.original in s.remote
    requires first != s.original && first !in s.remote
    requires second != s.original && second !in s.remote && second !in s.disk && second != first
    ensures var mine := s.disk[s.original];
            var crashed := AfterApply(AfterUpload(AfterBegin(s)), first, false, acked);
            var t := Run(Run(crashed, OpenAndStop(second)), RESUME);
            crashed.remote == s.remote[first := mine] && crashed.applied == s.applied &&
            crashed.journal.Prepared? && crashed.stage.Idle? && crashed.disk == s.disk && crashed.pending &&
            t.stage.Done? && t.remote == s.remote[first := mine][second := mine] &&
            t.applied == s.applied[crashed.journal.id := Copy(second, mine)] && Holds(t.disk, second, mine) &&
            t.baselines.Keys == s.baselines.Keys + {s.original, second}
  {
    var crashed := AfterApply(AfterUpload(AfterBegin(s)), first, false, acked);
    CrashedBeforeJournal(s, first, acked);
    OpenedRun(crashed, second);
    OpenedState(crashed, second);
    OpenedTables(crashed, second);
    RunsKeepInv(crashed, OpenAndStop(second));
    RerunCompletesExactly(Run(crashed, OpenAndStop(second)));
    RerunSettles(Run(crashed, OpenAndStop(second)));
  }

  lemma CrashedBeforeJournal(s: State, path: Path, acked: bool)
    requires Inv(s) && RecordInv(s) && Resting(s) && s.pending && (s.journal.NoRow? || s.journal.LocalCommitted?)
    requires s.original in s.disk && path != s.original && path !in s.remote
    ensures var t := AfterApply(AfterUpload(AfterBegin(s)), path, false, acked);
            Inv(t) && t.remote == s.remote[path := s.disk[s.original]] && t.applied == s.applied && t.pending &&
            t.journal == Prepared(s.nextId) && t.journal.id !in s.applied && t.stage.Idle? && t.disk == s.disk &&
            t.original == s.original && t.baselines == s.baselines
  {
    var b := AfterBegin(s);
    BeginKeepsInv(s);
    assert b == s.(journal := Prepared(s.nextId), nextId := s.nextId + 1, stage := Loaded);
    UploadKeepsInv(b);
    var u := AfterUpload(b);
    assert u == b.(stage := Uploaded, hash := s.disk[s.original]);
    ApplyKeepsInv(u, path, false, acked);
    assert AfterApply(u, path, false, acked) == u.(remote := u.remote[path := u.hash], stage := Idle);
  }

  // ---- two claims the journal does not support ----

  /** What a rerun keeps of the version that is at the original path when it begins: all is well if that is the
      version on record, or the Primary's, or stored elsewhere, and only then. */
  lemma CurrentVersionSurvivesExactly(s: State, mine: Hash)
    requires Inv(s) && Resting(s) && s.pending && Recoverable(s) && s.original in s.remote
    requires Holds(s.disk, s.original, mine)
    ensures HasCopy(Run(s, RESUME).disk, mine) <==>
            mine == s.journal.hash || mine == s.remote[s.original] ||
            exists p :: p != s.original && Holds(s.disk, p, mine)
  {
    RerunCompletesExactly(s);
    var t := Run(s, RESUME);
    if mine == s.journal.hash {
      assert Holds(t.disk, s.journal.conflict, mine);
    } else if mine == s.remote[s.original] {
      assert Holds(t.disk, s.original, mine);
    } else if exists p :: p != s.original && Holds(s.disk, p, mine) {
      var p :| p != s.original && Holds(s.disk, p, mine);
      assert Holds(t.disk, p, mine);
    } else {
      forall p
        ensures !Holds(t.disk, p, mine)
      {
        assert p != s.original ==> !Holds(s.disk, p, mine);
      }
    }
  }

  // ---- where a run begins, and what the Primary answers ----

  /** Nothing is begun without a pending change. With a version on record a run goes on from there; with a prepared
      row it is opened again under the same id; otherwise a new row is prepared; and without the source file the
      row is all that is left. */
  lemma BeginExactly(s: State)
    requires Resting(s)
    ensures var t := AfterBegin(s);
            (!s.pending ==> t == s.(stage := Idle)) &&
            (s.pending && s.journal.RemoteApplied? ==>
               t == s.(stage := Recorded, conflict := s.journal.conflict, hash := s.journal.hash)) &&
            (s.pending && s.journal.Prepared? ==>
               t == s.(stage := if s.original in s.disk then Loaded else Idle)) &&
            (s.pending && (s.journal.NoRow? || s.journal.LocalCommitted?) ==>
               t == s.(journal := Prepared(s.nextId), nextId := s.nextId + 1,
                       stage := if s.original in s.disk then Loaded else Idle))
  {}

  /** Asked about a resolution that it has applied, the Primary changes nothing and answers with the path it used; a new
      one it applies at a free path only, and if it gets as far as its journal, under the id; without an answer
      the run is over. */
  lemma AnswerExactly(s: State, path: Path, journalled: bool, acked: bool)
    requires s.stage.Uploaded? && s.journal.Prepared?
    ensures var t, id := AfterApply(s, path, journalled, acked), s.journal.id;
            t.disk == s.disk && t.journal == s.journal && t.pending == s.pending && t.hash == s.hash &&
            (id in s.applied ==>
               t.remote == s.remote && t.applied == s.applied && t.stage == (if acked then Applied else Idle) &&
               (acked ==> t.conflict == s.applied[id].path)) &&
            (id !in s.applied && (path == s.original || path in s.remote) ==> t == s) &&
            (id !in s.applied && path != s.original && path !in s.remote ==>
               t.remote == s.remote[path := s.hash] &&
               t.applied == (if journalled then s.applied[id := Copy(path, s.hash)] else s.applied) &&
               t.stage == (if journalled && acked then Applied else Idle) &&
               (journalled && acked ==> t.conflict == path))
  {}

  // ---- an edit in the middle of a run ----

  /** A version is on record, and the original not yet replaced. */
  predicate BeforeReplacing(s: State) { s.stage.Recorded? || s.stage.Downloaded? || s.stage.Copied? }

  /** The run from there to its end. */
  function RestOfRun(s: State): State {
    AfterFinish(AfterPersist(AfterReplace(AfterPlaceCopy(AfterDownload(s)))))
  }

  function SavedOver(s: State, path: Path, mine: Hash): State { s.(disk := s.disk[path := mine]) }

  /** The run is about to put the version `now` at the original path. */
  predicate Incoming(s: State, now: Hash) {
    if s.stage.Recorded? then Holds(s.remote, s.original, now) else now == s.primary
  }

  /** What the run leaves in the folder: the incoming version at the original path, once the copy is in place. */
  lemma RestOnDisk(s: State)
    requires BeforeReplacing(s)
    ensures var t := RestOfRun(s);
            if s.stage.Recorded? && s.original !in s.remote then t.disk == s.disk
            else
              var now := if s.stage.Recorded? then s.remote[s.original] else s.primary;
              if s.stage.Copied? || Holds(s.disk, s.conflict, s.hash) then t.disk == s.disk[s.original := now]
              else if s.conflict !in s.disk && Holds(s.disk, s.original, s.hash) then
                t.disk == s.disk[s.conflict := s.hash][s.original := now]
              else t.disk == s.disk
  {
    if s.stage.Recorded? {
      if s.original in s.remote {
        RestFromDownload(AfterDownload(s));
      }
    } else if s.stage.Downloaded? {
      assert AfterDownload(s) == s;
      RestFromDownload(s);
    } else {
      assert AfterPlaceCopy(AfterDownload(s)) == s;
      ReplacedOnDisk(s);
    }
  }

  lemma RestFromDownload(s: State)
    requires s.stage.Downloaded?
    ensures var t := AfterFinish(AfterPersist(AfterReplace(AfterPlaceCopy(s))));
            if Holds(s.disk, s.conflict, s.hash) then t.disk == s.disk[s.original := s.primary]
            else if s.conflict !in s.disk && Holds(s.disk, s.original, s.hash) then
              t.disk == s.disk[s.conflict := s.hash][s.original := s.primary]
            else t.disk == s.disk
  {
    if Holds(s.disk, s.conflict, s.hash) {
      assert AfterPlaceCopy(s) == s.(stage := Copied);
      ReplacedOnDisk(s.(stage := Copied));
    } else if s.conflict !in s.disk && Holds(s.disk, s.original, s.hash) {
      assert AfterPlaceCopy(s) == s.(disk := s.disk[s.conflict := s.hash], stage := Copied);
      ReplacedOnDisk(s.(disk := s.disk[s.conflict := s.hash], stage := Copied));
    } else {
      assert AfterPlaceCopy(s) == s.(temp := None, stage := Idle);
    }
  }

  lemma ReplacedOnDisk(s: State)
    requires s.stage.Copied?
    ensures AfterFinish(AfterPersist(AfterReplace(s))).disk == s.disk[s.original := s.primary]
  {
    assert AfterReplace(s) == s.(disk := s.disk[s.original := s.primary], temp := None, stage := Replaced);
  }

  /** Between the record and the replacement the original is compared only when the copy is made from it. A version
      saved there is lost exactly if the copy is in place already, the version is not the incoming one, and no
      other path has it. */
  lemma EditDuringRunIsLostExactly(s: State, mine: Hash)
    requires Inv(s) && BeforeReplacing(s)
    ensures !HasCopy(RestOfRun(SavedOver(s, s.original, mine)).disk, mine) <==>
            Holds(s.disk, s.conflict, s.hash) && (exists now :: Incoming(s, now) && now != mine) &&
            forall p :: p != s.original ==> !Holds(s.disk, p, mine)
  {
    var edited := SavedOver(s, s.original, mine);
    RestOnDisk(edited);
    assert InJournal(s, s.conflict, s.hash) && s.conflict != s.original;
    var t := RestOfRun(edited);
    assert Holds(edited.disk, s.conflict, s.hash) <==> Holds(s.disk, s.conflict, s.hash);
    if p :| p != s.original && Holds(s.disk, p, mine) {
      assert Holds(t.disk, p, mine);
    } else if !Holds(s.disk, s.conflict, s.hash) || !exists now :: Incoming(s, now) && now != mine {
      KeptInTheFolder(s, t.disk, mine);
    } else {
      var now :| Incoming(s, now) && now != mine;
      assert t.disk == edited.disk[s.original := now];
      forall p
        ensures !Holds(t.disk, p, mine)
      {
        assert p != s.original ==> !Holds(s.disk, p, mine);
      }
    }
  }

  lemma KeptInTheFolder(s: State, after: map<Path, Hash>, mine: Hash)
    requires Inv(s) && BeforeReplacing(s)
    requires !Holds(s.disk, s.conflict, s.hash) || !exists now :: Incoming(s, now) && now != mine
    requires after == RestOfRun(SavedOver(s, s.original, mine)).disk
    ensures HasCopy(after, mine)
  {
    var edited := SavedOver(s, s.original, mine);
    RestOnDisk(edited);
    assert InJournal(s, s.conflict, s.hash) && s.conflict != s.original;
    if s.stage.Recorded? && s.original !in s.remote {
      assert Holds(after, s.original, mine);
    } else {
      var now := if s.stage.Recorded? then s.remote[s.original] else s.primary;
      assert Incoming(s, now);
      if s.conflict !in s.disk && mine == s.hash && !s.stage.Copied? {
        assert Holds(after, s.conflict, mine);
      } else {
        assert Holds(after, s.original, mine);
      }
    }
  }

  /** A version saved anywhere else stays where it is. */
  lemma EditElsewhereStays(s: State, path: Path, mine: Hash)
    requires Inv(s) && BeforeReplacing(s) && path != s.original
    ensures Holds(RestOfRun(SavedOver(s, path, mine)).disk, path, mine)
  {
    RestOnDisk(SavedOver(s, path, mine));
  }

  /** Stopped, edited, and noticed by the next scan. */
  function StopAndEdit(path: Path, now: Hash): seq<Event> { [Stop, SecondaryEdits(path, Some(now)), Notice] }

  lemma StoppedAndEdited(s: State, now: Hash)
    ensures Run(s, StopAndEdit(s.original, now)) ==
            s.(stage := Idle, disk := s.disk[s.original := now], pending := true)
  {
    var e := StopAndEdit(s.original, now);
    RunNext(s, e, 0);
    RunNext(s, e, 1);
    RunNext(s, e, 2);
    assert e[..0] == [] && e[..3] == e;
    assert AfterOutside(s, Stop) == s.(stage := Idle);
  }

  /** A run stopped between its last two steps leaves its row open. The next change of the same file is then
      "resolved" with the old record, and lost. */
  lemma OpenRowLosesTheNextEdit(s0: State, events: seq<Event>, mine: Hash)
    requires Fresh(s0) && Run(s0, events).stage.Persisted?
    requires var s := Run(s0, events);
             s.original in s.remote && mine != s.hash && mine != s.remote[s.original] &&
             forall p :: p != s.original ==> !Holds(s.disk, p, mine)
    ensures var s := Run(s0, events);
            var edited := Run(s, StopAndEdit(s.original, mine));
            Holds(edited.disk, s.original, mine) && Run(edited, RESUME).stage.Done? &&
            !HasCopy(Run(edited, RESUME).disk, mine)
  {
    RunsKeepInv(s0, events);
    OpenRowLoses(Run(s0, events), mine);
  }

  lemma OpenRowLoses(s: State, mine: Hash)
    requires Inv(s) && s.stage.Persisted? && s.original in s.remote && mine != s.hash && mine != s.remote[s.original]
    requires forall p :: p != s.original ==> !Holds(s.disk, p, mine)
    ensures var edited := Run(s, StopAndEdit(s.original, mine));
            Holds(edited.disk, s.original, mine) && Run(edited, RESUME).stage.Done? &&
            !HasCopy(Run(edited, RESUME).disk, mine)
  {
    var edited := s.(stage := Idle, disk := s.disk[s.original := mine], pending := true);
    StoppedAndEdited(s, mine);
    assert InJournal(s, s.conflict, s.hash) && Holds(s.disk, s.conflict, s.hash);
    assert edited.journal == s.journal && edited.applied == s.applied;
    forall p | p != s.original
      ensures !Holds(edited.disk, p, mine)
    {
      assert !Holds(s.disk, p, mine);
    }
    LosesOnResume(edited, mine);
  }

  lemma LosesOnResume(s: State, mine: Hash)
    requires Inv(s) && Resting(s) && s.pending && Recoverable(s) && s.original in s.remote
    requires Holds(s.disk, s.original, mine) && mine != s.journal.hash && mine != s.remote[s.original]
    requires forall p :: p != s.original ==> !Holds(s.disk, p, mine)
    ensures Run(s, RESUME).stage.Done? && !HasCopy(Run(s, RESUME).disk, mine)
  {
    RerunCompletesExactly(s);
    CurrentVersionSurvivesExactly(s, mine);
  }

  /** The first answer is lost, and the file edited before the rerun. */
  function LoseAnswerAndEdit(original: Path, path: Path, now: Hash): seq<Event> {
    [Begin, Upload, Apply(path, true, false), SecondaryEdits(original, Some(now))]
  }

  lemma AnswerLost(s: State, path: Path, now: Hash)
    requires Fresh(s) && s.pending && s.original in s.disk && path != s.original && path !in s.remote
    ensures var h := s.disk[s.original];
            var t := Run(s, LoseAnswerAndEdit(s.original, path, now));
            t.stage.Idle? && t.pending && t.original == s.original && t.journal == Prepared(s.nextId) &&
            t.applied == map[s.nextId := Copy(path, h)] &&
            t.disk == s.disk[s.original := now] && t.remote == s.remote[path := h]
  {
    LoseAnswerRun(s, path, now);
    var u := s.(stage := Uploaded, hash := s.disk[s.original], journal := Prepared(s.nextId), nextId := s.nextId + 1);
    assert AfterUpload(AfterBegin(s)) == u;
    assert AfterApply(u, path, true, false) ==
           u.(remote := u.remote[path := u.hash], applied := u.applied[s.nextId := Copy(path, u.hash)],
              stage := Idle, conflict := path);
  }

  lemma RunOfFour(s: State, e: seq<Event>)
    requires |e| == 4
    ensures Run(s, e) == Next(Next(Next(Next(s, e[0]), e[1]), e[2]), e[3])
  {
    RunNext(s, e, 0);
    RunNext(s, e, 1);
    RunNext(s, e, 2);
    RunNext(s, e, 3);
    assert e[..0] == [] && e[..4] == e;
  }

  lemma LoseAnswerRun(s: State, path: Path, now: Hash)
    ensures Run(s, LoseAnswerAndEdit(s.original, path, now)) ==
            AfterOutside(AfterApply(AfterUpload(AfterBegin(s)), path, true, false),
                         SecondaryEdits(s.original, Some(now)))
  {
    RunOfFour(s, LoseAnswerAndEdit(s.original, path, now));
    assert Next(s, Begin) == AfterBegin(s);
    assert Next(AfterBegin(s), Upload) == AfterUpload(AfterBegin(s));
  }

  /** The Primary answers a repeated request with the path of the version it applied first. If the answer to
      that first request is lost and the file is edited before the rerun, both baselines of the conflict path
      name a version that the Primary does not have there. */
  lemma LostAnswerMisrecords(s0: State, path: Path, mine: Hash)
    requires Fresh(s0) && s0.pending && s0.original in s0.disk && s0.original in s0.remote
    requires path != s0.original && path !in s0.remote && path !in s0.disk && mine != s0.disk[s0.original]
    ensures var lost := Run(s0, LoseAnswerAndEdit(s0.original, path, mine));
            var t := Run(Run(lost, OpenAndStop(path)), RESUME);
            t.stage.Done? && path in t.baselines && t.baselines[path] == SyncedPair(mine, mine) &&
            Holds(t.remote, path, s0.disk[s0.original])
  {
    var lost := Run(s0, LoseAnswerAndEdit(s0.original, path, mine));
    AnswerLost(s0, path, mine);
    RunsKeepInv(s0, LoseAnswerAndEdit(s0.original, path, mine));
    MisrecordedFrom(lost, path, mine);
  }

  lemma MisrecordedFrom(s: State, path: Path, mine: Hash)
    requires Inv(s) && s.stage.Idle? && s.pending && s.journal.Prepared? && s.journal.id in s.applied
    requires s.applied[s.journal.id].path == path && path !in s.disk
    requires Holds(s.disk, s.original, mine) && s.original in s.remote && path in s.remote
    ensures var t := Run(Run(s, OpenAndStop(path)), RESUME);
            t.stage.Done? && path in t.baselines && t.baselines[path] == SyncedPair(mine, mine) && t.remote == s.remote
  {
    OpenedRun(s, path);
    OpenedState(s, path);
    RunsKeepInv(s, OpenAndStop(path));
    RerunCompletesExactly(Run(s, OpenAndStop(path)));
  }

  /** The test that tells, before a rerun: the Primary has not applied this resolution yet, or what it applied is
      the version that the Secondary still has. */
  predicate AnswerStillFits(s: State)
    requires s.journal.Prepared? && s.original in s.disk
  {
    s.journal.id in s.applied ==> s.applied[s.journal.id].hash == s.disk[s.original]
  }

  /** With that test, and only with it, a rerun records the path and the version that the Primary applied. */
  lemma RecordMatchesExactly(s: State, path: Path)
    requires Inv(s) && Resting(s) && s.pending && s.journal.Prepared? && s.original in s.disk
    requires s.journal.id in s.applied || (path != s.original && path !in s.remote)
    ensures var t := Run(s, OpenAndStop(path));
            Inv(t) && Resting(t) && t.pending && t.journal.RemoteApplied? && t.journal.id == s.journal.id &&
            t.journal.id in t.applied && t.original == s.original &&
            (t.applied[t.journal.id] == Copy(t.journal.conflict, t.journal.hash) <==> AnswerStillFits(s))
  {
    OpenedRun(s, path);
    OpenedState(s, path);
    RunsKeepInv(s, OpenAndStop(path));
  }

  /** So do the baselines that a completed rerun writes for the conflict path. */
  lemma CompletedRecordMatchesExactly(s: State, path: Path)
    requires Inv(s) && Resting(s) && s.pending && s.journal.Prepared? && s.original in s.disk
    requires s.journal.id in s.applied || (path != s.original && path !in s.remote)
    requires var t := Run(s, OpenAndStop(path));
             s.original in t.remote && Run(t, RESUME).stage.Done?
    ensures var t := Run(s, OpenAndStop(path));
            t.journal.RemoteApplied? && s.journal.id in t.applied &&
            var at, u := t.applied[s.journal.id], Run(t, RESUME);
            at.path in u.baselines &&
            (u.baselines[at.path] == SyncedPair(at.hash, at.hash) <==> AnswerStillFits(s))
  {
    RecordMatchesExactly(s, path);
    OpenedRun(s, path);
    OpenedState(s, path);
    RerunCompletesExactly(Run(s, OpenAndStop(path)));
  }

  /** Unless the file is edited while an answer is outstanding, the version on record is the one that the
      Primary applied. */
  ghost predicate RecordInv(s: State) {
    (forall id :: id in s.applied ==> id < s.nextId) &&
    (s.journal.Prepared? ==> s.journal.id < s.nextId) &&
    (s.journal.Prepared? && s.journal.id in s.applied ==> Holds(s.disk, s.original, s.applied[s.journal.id].hash)) &&
    (s.stage.Uploaded? || s.stage.Applied? ==> Holds(s.disk, s.original, s.hash)) &&
    (s.stage.Applied? ==>
     s.journal.Prepared? && s.journal.id in s.applied && s.applied[s.journal.id].path == s.conflict) &&
    (s.journal.RemoteApplied? ==>
     s.journal.id in s.applied && s.applied[s.journal.id] == Copy(s.journal.conflict, s.journal.hash))
  }

  lemma BeginKeepsRecord(s: State)
    requires Inv(s) && RecordInv(s)
    ensures RecordInv(AfterBegin(s))
  {}

  lemma UploadKeepsRecord(s: State)
    requires Inv(s) && RecordInv(s)
    ensures RecordInv(AfterUpload(s))
  {}

  lemma PlaceCopyKeepsRecord(s: State)
    requires Inv(s) && RecordInv(s)
    ensures RecordInv(AfterPlaceCopy(s))
  {}

  /** An edit of the original path after the Primary has applied a resolution whose answer never came. */
  predicate EditsUnanswered(s: State, e: Event) {
    e.SecondaryEdits? && e.path == s.original && Resting(s) &&
    s.journal.Prepared? && s.journal.id in s.applied && e.now != Some(s.applied[s.journal.id].hash)
  }

  lemma OtherStepKeepsRecord(s: State, e: Event)
    requires Inv(s) && RecordInv(s) && !EditsUnanswered(s, e) && (!Early(e) || e.Apply? || e.Download?)
    ensures RecordInv(Next(s, e))
  {}

  lemma StepKeepsRecord(s: State, e: Event)
    requires Inv(s) && RecordInv(s) && !EditsUnanswered(s, e)
    ensures RecordInv(Next(s, e))
  {
    match e
    case Begin => BeginKeepsRecord(s);
    case Upload => UploadKeepsRecord(s);
    case PlaceCopy => PlaceCopyKeepsRecord(s);
    case _ => OtherStepKeepsRecord(s, e);
  }

  lemma {:induction false} RecordedVersionIsThePrimarys(s0: State, events: seq<Event>)
    requires Fresh(s0) && forall k: nat :: k < |events| ==> !EditsUnanswered(Run(s0, events[..k]), events[k])
    ensures var s := Run(s0, events);
            RecordInv(s) &&
            (s.journal.RemoteApplied? ==>
               s.journal.id in s.applied && s.applied[s.journal.id] == Copy(s.journal.conflict, s.journal.hash))
  {
    if events != [] {
      var n := |events| - 1;
      forall k: nat | k < n
        ensures !EditsUnanswered(Run(s0, events[..n][..k]), events[..n][k])
      {
        assert events[..n][..k] == events[..k] && events[..n][k] == events[k];
      }
      RecordedVersionIsThePrimarys(s0, events[..n]);
      RunsKeepInv(s0, events[..n]);
      StepKeepsRecord(Run(s0, events[..n]), events[n]);
    }
  }
}
