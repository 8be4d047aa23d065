/** What every run of the supervisor keeps, whatever Docker answers and wherever it crashes. */
module SupervisorSafety {
  import opened Text
  import opened SemanticVersions
  import opened Updates
  import opened SupervisorProtocol

  // ---------------------------------------------------------------- reading the history

  predicate IsTerminalWrite(e: Effect, id: string) {
    e.WriteStatus? && e.status.requestId == Some(id) && e.status.state.IsTerminal()
  }

  /** Since the last recreation for request id, if any, a terminal status was written for it. */
  predicate Settled(h: seq<Effect>, id: string) {
    h == [] ||
    var e := h[|h| - 1];
    if e.Recreate? && e.id == id then false
    else IsTerminalWrite(e, id) || Settled(h[..|h| - 1], id)
  }

  /** The image of the last recreation, if that succeeded. */
  function LastRecreated(h: seq<Effect>): Option<string> {
    if h == [] then None
    else if h[|h| - 1].Recreate? then (if h[|h| - 1].ok then Some(h[|h| - 1].image) else None)
    else LastRecreated(h[..|h| - 1])
  }

  predicate PassedHealthCheck(e: Effect) { (e.Probe? && e.healthy) || (e.Verify? && e.healthy) }

  /** At some time the image was recreated and then, before any other recreation, passed the health check. */
  predicate Proven(h: seq<Effect>, image: string) {
    h != [] &&
    (Proven(h[..|h| - 1], image)
     || (PassedHealthCheck(h[|h| - 1]) && LastRecreated(h[..|h| - 1]) == Some(image)))
  }

  function LastWritten(h: seq<Effect>): Option<Status> {
    if h == [] then None
    else if h[|h| - 1].WriteStatus? then Some(h[|h| - 1].status)
    else LastWritten(h[..|h| - 1])
  }

  /** The two files that name the image. */
  datatype File = EnvFile | ComposeFile

  function ImageOf(w: World, file: File): string { if file.EnvFile? then w.envImage else w.composeImage }

  predicate Persists(e: Effect, file: File) { if file.EnvFile? then e.PersistEnv? else e.PersistCompose? }

  /** The image that a file names after h, if it named start before. */
  function ImageAfter(h: seq<Effect>, file: File, start: string): string {
    if h == [] then start
    else
      var e := h[|h| - 1];
      if Persists(e, file) && e.written then e.image else ImageAfter(h[..|h| - 1], file, start)
  }

  /** No update is in progress as far as the statuses written tell. */
  predicate Quiet(prev: Option<Status>) { prev.Some? ==> !prev.value.state.IsActive() }

  /**
   The update lifecycle: which status may be written after which. While a request is active no other is spoken
   of, and work starts only when no request is active.
   */
  predicate Follows(prev: Option<Status>, next: Status) {
    && (Quiet(prev) || prev.value.requestId == next.requestId)
    && match next.state
       case Staging => Quiet(prev)
       case Applying => prev.Some? && prev.value.state == Staging
       case HealthCheck => prev.Some? && prev.value.state == State.Applying
       case RollingBack => prev.Some? && (prev.value.state == State.Applying || prev.value.state == HealthCheck)
       case RolledBack => prev.Some? && prev.value.state == RollingBack
       case Completed => true
       case Failed => true
       case _ => false
  }

  predicate MayFollow(front: seq<Effect>, e: Effect) {
    && (e.WriteStatus? ==> Follows(LastWritten(front), e.status))
    && (e.WriteStatus? && e.status.state == Staging ==>
          e.status.requestId.Some? && Settled(front, e.status.requestId.value))
    && (e.PersistEnv? || e.PersistCompose? ==> Proven(front, e.image) && LastRecreated(front) == Some(e.image))
  }

  /**
   Every status written follows the lifecycle, work starts only on settled requests, and what is persisted is the
   image recreated last, after it was found healthy.
   */
  predicate Lawful(h: seq<Effect>) {
    h == [] || (Lawful(h[..|h| - 1]) && MayFollow(h[..|h| - 1], h[|h| - 1]))
  }

  // ---------------------------------------------------------------- the invariant

  /** Nothing is in progress: all requests are settled and the last status written is no active one. */
  ghost predicate AtRest(h: seq<Effect>) { (forall id :: Settled(h, id)) && Quiet(LastWritten(h)) }

  ghost predicate SettledBut(h: seq<Effect>, it: string) { forall id :: id != it ==> Settled(h, id) }

  /** An unsettled request has an active status, and an active status that was written is still there. */
  ghost predicate Recoverable(h: seq<Effect>, status: Option<Status>) {
    && (Quiet(LastWritten(h)) || status == LastWritten(h))
    && forall id :: Settled(h, id) ||
         (status.Some? && status.value.requestId == Some(id) && status.value.state.IsActive())
  }

  /** The job's status is the last one written, in one of the given states, and other requests are settled. */
  ghost predicate Working(h: seq<Effect>, status: Option<Status>, job: Job, states: set<State>) {
    && SettledBut(h, job.request.id)
    && status.Some? && status == LastWritten(h)
    && status.value.requestId == Some(job.request.id)
    && status.value.state in states
  }

  /** Working on a request whose container was not touched yet. */
  ghost predicate Ready(h: seq<Effect>, status: Option<Status>, job: Job, state: State) {
    Working(h, status, job, {state}) && Settled(h, job.request.id)
  }

  /** The image was recreated last and then found healthy. */
  predicate Healthy(h: seq<Effect>, image: string) { Proven(h, image) && LastRecreated(h) == Some(image) }

  predicate SavedLast(h: seq<Effect>, image: string) {
    |h| >= 2 && h[|h| - 2].PersistEnv? && h[|h| - 1].PersistCompose? && h[|h| - 2].image == h[|h| - 1].image == image
  }

  ghost predicate AtPoint(h: seq<Effect>, status: Option<Status>, p: Point) {
    match p
    case Booting => Recoverable(h, status)
    case Reconciling(_) => Recoverable(h, status) && status.Some? && status.value.state.IsActive()
    case Polling => AtRest(h)
    case CopyingStatus => AtRest(h)
    case Reading => AtRest(h)
    case Examining(_) => AtRest(h)
    case Deciding(_, _) => AtRest(h)
    case RemovingHost => AtRest(h)
    case RemovingContainer => AtRest(h)
    case Pulling(job) => Ready(h, status, job, Staging)
    case Capturing(job) => Ready(h, status, job, Staging)
    case Announcing(job) => Ready(h, status, job, Staging)
    case Applying(job) => Ready(h, status, job, State.Applying)
    case Checking(job) =>
      Working(h, status, job, {State.Applying}) && LastRecreated(h) == Some(job.request.targetImage)
    case Probing(job) => Working(h, status, job, {HealthCheck}) && LastRecreated(h) == Some(job.request.targetImage)
    case SavingEnv(job) => Working(h, status, job, {HealthCheck}) && Healthy(h, job.request.targetImage)
    case SavingCompose(job) =>
      Working(h, status, job, {HealthCheck}) && Healthy(h, job.request.targetImage)
      && |h| >= 1 && h[|h| - 1].PersistEnv? && h[|h| - 1].image == job.request.targetImage
    case Finishing(job) =>
      Working(h, status, job, {HealthCheck}) && Healthy(h, job.request.targetImage)
      && SavedLast(h, job.request.targetImage)
    case TurningBack(job) => Working(h, status, job, {State.Applying, HealthCheck})
    case Restoring(job) => Working(h, status, job, {RollingBack})
    case Verifying(job) => Working(h, status, job, {RollingBack}) && LastRecreated(h) == Some(job.previous)
    case RestoringEnv(job, _) => Working(h, status, job, {RollingBack}) && Healthy(h, job.previous)
    case RestoringCompose(job, _) => Working(h, status, job, {RollingBack}) && Healthy(h, job.previous)
    case Reporting(job, _) => Working(h, status, job, {RollingBack})
    case GivingUp(job, _, _) => Working(h, status, job, {Staging, RollingBack})
  }

  /** The files name what the effects made them name. */
  predicate Replayed(s: System, origin: World) {
    forall file: File :: ImageOf(s.world, file) == ImageAfter(s.history, file, ImageOf(origin, file))
  }

  ghost predicate Inv(s: System, origin: World) {
    AtPoint(s.history, s.world.status, s.point) && Replayed(s, origin) && Lawful(s.history)
  }

  // ---------------------------------------------------------------- one step

  lemma HistoryGrows(h: seq<Effect>, e: Effect)
    ensures (h + [e])[..|h|] == h && (h + [e])[|h|] == e
    ensures forall id :: Settled(h + [e], id) <==>
              !(e.Recreate? && e.id == id) && (IsTerminalWrite(e, id) || Settled(h, id))
    ensures forall image :: Proven(h + [e], image) <==>
              Proven(h, image) || (PassedHealthCheck(e) && LastRecreated(h) == Some(image))
    ensures LastRecreated(h + [e]) == if e.Recreate? then (if e.ok then Some(e.image) else None) else LastRecreated(h)
    ensures LastWritten(h + [e]) == if e.WriteStatus? then Some(e.status) else LastWritten(h)
    ensures Lawful(h + [e]) <==> Lawful(h) && MayFollow(h, e)
  {
    assert (h + [e])[..|h|] == h;
  }

  // The steps of the program in stretches.

  predicate Starting(p: Point) { p.Booting? || p.Reconciling? || p.Polling? || p.CopyingStatus? }

  predicate Examines(p: Point) { p.Examining? || p.Deciding? }

  predicate Preparing(p: Point) { p.Pulling? || p.Capturing? || p.Announcing? || p.Applying? }

  predicate Activating(p: Point) { p.Checking? || p.Probing? }

  predicate Saving(p: Point) { p.SavingEnv? || p.SavingCompose? || p.Finishing? }

  predicate Returning(p: Point) { p.TurningBack? || p.Restoring? || p.Verifying? }

  predicate Ending(p: Point) { p.RestoringEnv? || p.RestoringCompose? || p.Reporting? || p.GivingUp? }

  /** The step e from s keeps the part of the invariant that concerns point, status and history. */
  ghost predicate StepKeeps(s: System, e: Effect, p: Point) {
    MayFollow(s.history, e) && AtPoint(s.history + [e], Apply(s.world, e).status, p)
  }

  lemma {:induction false} StartingKeeps(s: System, e: Effect, p: Point)
    requires AtPoint(s.history, s.world.status, s.point) && Next(s.point, s.world, e) == Some(p) && Starting(s.point)
    ensures StepKeeps(s, e, p)
  {
    hide Settled, Proven, LastRecreated, LastWritten, AlreadyThere;
    HistoryGrows(s.history, e);
  }

  lemma {:induction false} ExaminingKeeps(s: System, e: Effect, p: Point)
    requires AtPoint(s.history, s.world.status, s.point) && Next(s.point, s.world, e) == Some(p) && Examines(s.point)
    ensures StepKeeps(s, e, p)
  {
    hide Settled, Proven, LastRecreated, LastWritten, ValidRequest, AlreadyThere, AlreadyNewer, RunningVersion,
      ExpectedVersion, Format, ParseVersion;
    HistoryGrows(s.history, e);
  }

  lemma {:induction false} PreparingKeeps(s: System, e: Effect, p: Point)
    requires AtPoint(s.history, s.world.status, s.point) && Next(s.point, s.world, e) == Some(p) && Preparing(s.point)
    ensures StepKeeps(s, e, p)
  {
    hide Settled, Proven, LastRecreated, LastWritten, PreviousImage;
    HistoryGrows(s.history, e);
  }

  lemma {:induction false} ActivatingKeeps(s: System, e: Effect, p: Point)
    requires AtPoint(s.history, s.world.status, s.point) && Next(s.point, s.world, e) == Some(p) && Activating(s.point)
    ensures StepKeeps(s, e, p)
  {
    hide Settled, Proven, LastRecreated, LastWritten;
    HistoryGrows(s.history, e);
  }

  lemma {:induction false} SavingKeeps(s: System, e: Effect, p: Point)
    requires AtPoint(s.history, s.world.status, s.point) && Next(s.point, s.world, e) == Some(p) && Saving(s.point)
    ensures StepKeeps(s, e, p)
  {
    hide Settled, Proven, LastRecreated, LastWritten;
    HistoryGrows(s.history, e);
  }

  lemma {:induction false} ReturningKeeps(s: System, e: Effect, p: Point)
    requires AtPoint(s.history, s.world.status, s.point) && Next(s.point, s.world, e) == Some(p) && Returning(s.point)
    ensures StepKeeps(s, e, p)
  {
    hide Settled, Proven, LastRecreated, LastWritten, StripV;
    HistoryGrows(s.history, e);
  }

  lemma {:induction false} EndingKeeps(s: System, e: Effect, p: Point)
    requires AtPoint(s.history, s.world.status, s.point) && Next(s.point, s.world, e) == Some(p)
    requires !Starting(s.point) && !Examines(s.point) && !Preparing(s.point) && !Activating(s.point)
    requires !Saving(s.point) && !Returning(s.point)
    ensures StepKeeps(s, e, p)
  {
    hide Settled, Proven, LastRecreated, LastWritten;
    HistoryGrows(s.history, e);
  }

  lemma {:induction false} FilesReplay(s: System, e: Effect, p: Point, origin: World)
    requires Replayed(s, origin)
    ensures Replayed(System(Apply(s.world, e), p, s.history + [e]), origin)
  {
    assert (s.history + [e])[..|s.history|] == s.history;
  }

  lemma {:induction false} EffectKeeps(s: System, e: Effect, origin: World)
    requires Inv(s, origin) && Next(s.point, s.world, e).Some?
    ensures Inv(System(Apply(s.world, e), Next(s.point, s.world, e).value, s.history + [e]), origin)
  {
    hide AtPoint, Next, Apply, Lawful, Replayed, MayFollow;
    var p := Next(s.point, s.world, e).value;
    if Starting(s.point) { StartingKeeps(s, e, p); }
    else if Examines(s.point) { ExaminingKeeps(s, e, p); }
    else if Preparing(s.point) { PreparingKeeps(s, e, p); }
    else if Activating(s.point) { ActivatingKeeps(s, e, p); }
    else if Saving(s.point) { SavingKeeps(s, e, p); }
    else if Returning(s.point) { ReturningKeeps(s, e, p); }
    else { EndingKeeps(s, e, p); }
    FilesReplay(s, e, p, origin);
    assert Lawful(s.history + [e]) by { HistoryGrows(s.history, e); }
  }

  lemma {:induction false} MoveKeeps(s: System, m: Move, origin: World)
    requires Inv(s, origin) && After(s, m).Some?
    ensures Inv(After(s, m).value, origin)
  {
    hide Settled, Proven, LastRecreated, LastWritten, Lawful, Next, ImageAfter;
    match m
    case Do(e) => EffectKeeps(s, e, origin);
    case Silent =>
    case Crash =>
    case Submit(_, _, _) =>
  }

  lemma {:induction false} RunKeeps(origin: World, moves: seq<Move>)
    requires Run(Initial(origin), moves).Some?
    ensures Inv(Run(Initial(origin), moves).value, origin)
  {
    hide AtPoint, After;
    if moves != [] {
      var front, m := moves[..|moves| - 1], moves[|moves| - 1];
      RunKeeps(origin, front);
      MoveKeeps(Run(Initial(origin), front).value, m, origin);
    } else {
      StartKeeps(origin);
    }
  }

  lemma StartKeeps(origin: World)
    ensures Inv(Initial(origin), origin)
  {
  }

  // ---------------------------------------------------------------- what every run satisfies

  /** A proven image was recreated at some i and passed a health check at some later j, with no recreation between. */
  predicate ProvenBetween(h: seq<Effect>, image: string, i: nat, j: nat)
    requires i < j < |h|
  {
    && h[i].Recreate? && h[i].ok && h[i].image == image
    && PassedHealthCheck(h[j])
    && forall k :: i < k < j ==> !h[k].Recreate?
  }

  lemma {:induction false} LastRecreatedAt(h: seq<Effect>) returns (i: nat)
    requires LastRecreated(h).Some?
    ensures i < |h| && h[i].Recreate? && h[i].ok && h[i].image == LastRecreated(h).value
    ensures forall k :: i < k < |h| ==> !h[k].Recreate?
  {
    if h[|h| - 1].Recreate? {
      i := |h| - 1;
    } else {
      i := LastRecreatedAt(h[..|h| - 1]);
    }
  }

  lemma {:induction false} ProvenAt(h: seq<Effect>, image: string) returns (i: nat, j: nat)
    requires Proven(h, image)
    ensures i < j < |h| && ProvenBetween(h, image, i, j)
  {
    var front := h[..|h| - 1];
    if Proven(front, image) {
      i, j := ProvenAt(front, image);
    } else {
      i := LastRecreatedAt(front);
      j := |h| - 1;
    }
  }

  ghost predicate WasProven(h: seq<Effect>, image: string) {
    exists i: nat, j: nat :: i < j < |h| && ProvenBetween(h, image, i, j)
  }

  lemma {:induction false} ImageIsProven(h: seq<Effect>, file: File, start: string)
    requires Lawful(h)
    ensures ImageAfter(h, file, start) == start || Proven(h, ImageAfter(h, file, start))
  {
    hide Follows, Settled, LastRecreated;
    if h != [] { ImageIsProven(h[..|h| - 1], file, start); }
  }

  /**
   In every run, whatever Docker and the health check answer and wherever crashes fall, the image persisted in
   .env, and that in the compose file, is the original one or one that was recreated and then found healthy.
   */
  lemma PersistedImagesSafe(origin: World, moves: seq<Move>, file: File)
    requires Run(Initial(origin), moves).Some?
    ensures var s := Run(Initial(origin), moves).value;
            ImageOf(s.world, file) == ImageOf(origin, file) || WasProven(s.history, ImageOf(s.world, file))
  {
    hide Run, AtPoint, Lawful, ImageAfter;
    RunKeeps(origin, moves);
    var s := Run(Initial(origin), moves).value;
    ImageIsProven(s.history, file, ImageOf(origin, file));
    if ImageOf(s.world, file) != ImageOf(origin, file) { var i, j := ProvenAt(s.history, ImageOf(s.world, file)); }
  }

  lemma {:induction false} LawfulAt(h: seq<Effect>, j: nat)
    requires Lawful(h) && j < |h| && h[j].WriteStatus?
    ensures Follows(LastWritten(h[..j]), h[j].status)
    ensures h[j].status.state == Staging ==>
              h[j].status.requestId.Some? && Settled(h[..j], h[j].status.requestId.value)
  {
    if j < |h| - 1 {
      assert h[..|h| - 1][..j] == h[..j];
      LawfulAt(h[..|h| - 1], j);
    }
  }

  lemma {:induction false} SettledAt(h: seq<Effect>, i: nat, id: string) returns (k: nat)
    requires Settled(h, id) && i < |h| && h[i].Recreate? && h[i].id == id
    ensures i < k < |h| && IsTerminalWrite(h[k], id)
  {
    if IsTerminalWrite(h[|h| - 1], id) {
      k := |h| - 1;
    } else {
      k := SettledAt(h[..|h| - 1], i, id);
    }
  }

  /** In every run, each status that is written follows the previous one in the update lifecycle. */
  lemma StatusesFollowLifecycle(origin: World, moves: seq<Move>, j: nat)
    requires Run(Initial(origin), moves).Some?
    requires j < |Run(Initial(origin), moves).value.history|
    requires Run(Initial(origin), moves).value.history[j].WriteStatus?
    ensures var h := Run(Initial(origin), moves).value.history; Follows(LastWritten(h[..j]), h[j].status)
  {
    hide Run, AtPoint, Lawful, Follows;
    RunKeeps(origin, moves);
    LawfulAt(Run(Initial(origin), moves).value.history, j);
  }

  /**
   In every run, work on a request starts again after its container was recreated only if a terminal status
   for it was written in between: the crash fell between that write and the removal of the request.
   */
  lemma RerunOnlyAfterTerminalStatus(origin: World, moves: seq<Move>, i: nat, j: nat, id: string)
    requires Run(Initial(origin), moves).Some?
    requires var h := Run(Initial(origin), moves).value.history;
             i < j < |h| && h[i].Recreate? && h[i].id == id
             && h[j].WriteStatus? && h[j].status.state == Staging && h[j].status.requestId == Some(id)
    ensures var h := Run(Initial(origin), moves).value.history; exists k :: i < k < j && IsTerminalWrite(h[k], id)
  {
    hide Run, AtPoint, Lawful, Settled, IsTerminalWrite;
    RunKeeps(origin, moves);
    var h := Run(Initial(origin), moves).value.history;
    LawfulAt(h, j);
    var k := SettledAt(h[..j], i, id);
    assert h[..j][k] == h[k];
  }

  // ---------------------------------------------------------------- no rerun after removal

  /** Nothing of the request is left: neither file holds it, and it is not about to be worked on. */
  predicate Gone(s: System, id: string) {
    && (s.world.hostRequest.Some? ==> s.world.hostRequest.value.id != id)
    && (s.world.containerRequest.Some? ==> s.world.containerRequest.value.id != id)
    && (s.point.Examining? || s.point.Deciding? ==> s.point.request.id != id)
  }

  predicate Submits(m: Move, id: string) { m.Submit? && m.request.id == id }

  predicate Starts(e: Effect, id: string) {
    e.WriteStatus? && e.status.state == Staging && e.status.requestId == Some(id)
  }

  lemma GoneAfterEffect(s: System, e: Effect, id: string)
    requires Gone(s, id) && After(s, Do(e)).Some?
    ensures Gone(After(s, Do(e)).value, id) && !Starts(e, id)
  {
    hide ValidRequest, AlreadyThere, AlreadyNewer, RunningVersion, ExpectedVersion, PreviousImage, StripV, Format;
  }

  /** A request that is gone stays gone until it is submitted again, and no work on it starts. */
  lemma GoneStays(s: System, m: Move, id: string)
    requires Gone(s, id) && After(s, m).Some? && !Submits(m, id)
    ensures Gone(After(s, m).value, id)
    ensures m.Do? ==> !Starts(m.effect, id)
  {
    hide Next, Apply;
    if m.Do? { GoneAfterEffect(s, m.effect, id); }
  }

  /** The host request was removed since the first n effects, if it is about to be removed from the container. */
  predicate HostRemoved(s: System, id: string, n: nat) {
    s.point.RemovingContainer? && |s.history| > n && s.world.hostRequest.Some? ==> s.world.hostRequest.value.id != id
  }

  lemma HostRemovedStays(s: System, m: Move, id: string, n: nat)
    requires HostRemoved(s, id, n) && After(s, m).Some? && !Submits(m, id)
    requires n <= |s.history|
    ensures HostRemoved(After(s, m).value, id, n)
    ensures m == Do(RemoveContainerRequest) && |s.history| > n ==> Gone(After(s, m).value, id)
  {
    hide ValidRequest, AlreadyThere, AlreadyNewer, RunningVersion, ExpectedVersion, PreviousImage, StripV, Format;
  }

  /** Behind a removal after the first n effects, the request is gone and no work on it started. */
  ghost predicate GoneSince(s: System, id: string, n: nat) {
    forall k :: n < k < |s.history| && s.history[k].RemoveContainerRequest? ==>
      Gone(s, id) && forall j :: k < j < |s.history| ==> !Starts(s.history[j], id)
  }

  lemma HistoryOfMove(s: System, m: Move)
    requires After(s, m).Some?
    ensures After(s, m).value.history == if m.Do? then s.history + [m.effect] else s.history
  {
    hide Next, SilentStep, Apply;
  }

  lemma GoneSinceStays(s: System, m: Move, id: string, n: nat)
    requires GoneSince(s, id, n) && HostRemoved(s, id, n) && n <= |s.history|
    requires After(s, m).Some? && !Submits(m, id)
    ensures GoneSince(After(s, m).value, id, n)
  {
    hide After, Gone, HostRemoved, Starts;
    HistoryOfMove(s, m);
    HostRemovedStays(s, m, id, n);
    var t := After(s, m).value;
    forall k | n < k < |t.history| && t.history[k].RemoveContainerRequest?
      ensures Gone(t, id) && forall j :: k < j < |t.history| ==> !Starts(t.history[j], id)
    {
      if k < |s.history| {
        assert s.history[k] == t.history[k];
        GoneStays(s, m, id);
      }
    }
  }

  lemma {:induction false} GoneSinceAlways(origin: World, moves: seq<Move>, n: nat, id: string)
    requires Run(Initial(origin), moves).Some? && n <= |moves|
    requires forall k :: n <= k < |moves| ==> !Submits(moves[k], id)
    ensures Run(Initial(origin), moves[..n]).Some?
    ensures var before := |Run(Initial(origin), moves[..n]).value.history|;
            var s := Run(Initial(origin), moves).value;
            before <= |s.history| && GoneSince(s, id, before) && HostRemoved(s, id, before)
  {
    hide After;
    if n == |moves| {
      assert moves[..n] == moves;
    } else {
      var front, m := moves[..|moves| - 1], moves[|moves| - 1];
      assert front[..n] == moves[..n];
      GoneSinceAlways(origin, front, n, id);
      var s := Run(Initial(origin), front).value;
      var before := |Run(Initial(origin), moves[..n]).value.history|;
      HistoryOfMove(s, m);
      HostRemovedStays(s, m, id, before);
      GoneSinceStays(s, m, id, before);
    }
  }

  /**
   In every run, work on a request that is not submitted again starts again after its container was recreated
   only if the crash fell between the terminal status and the removal of the request: a terminal status was
   written in between, and no removal was completed.
   */
  lemma RerunOnlyBeforeRemoval(origin: World, moves: seq<Move>, n: nat, i: nat, j: nat, id: string)
    requires Run(Initial(origin), moves).Some? && n <= |moves|
    requires forall k :: n <= k < |moves| ==> !Submits(moves[k], id)
    requires Run(Initial(origin), moves[..n]).Some? ==> |Run(Initial(origin), moves[..n]).value.history| <= i
    requires var h := Run(Initial(origin), moves).value.history;
             i < j < |h| && h[i].Recreate? && h[i].id == id && Starts(h[j], id)
    ensures var h := Run(Initial(origin), moves).value.history;
            && (exists k :: i < k < j && IsTerminalWrite(h[k], id))
            && forall k :: i < k < j ==> !h[k].RemoveContainerRequest?
  {
    hide Run, Gone, HostRemoved;
    RerunOnlyAfterTerminalStatus(origin, moves, i, j, id);
    GoneSinceAlways(origin, moves, n, id);
  }

  // ---------------------------------------------------------------- what a completion leaves behind

  predicate Wrote(h: seq<Effect>, file: File, i: nat) {
    exists k :: i < k < |h| && Persists(h[k], file) && h[k].written
  }

  predicate LastRecreation(h: seq<Effect>, i: nat) {
    i < |h| && h[i].Recreate? && forall k :: i < k < |h| ==> !h[k].Recreate?
  }

  lemma {:induction false} LastRecreatedIs(h: seq<Effect>, i: nat)
    requires LastRecreation(h, i)
    ensures LastRecreated(h) == if h[i].ok then Some(h[i].image) else None
  {
    if i < |h| - 1 { LastRecreatedIs(h[..|h| - 1], i); }
  }

  lemma {:induction false} ImageSinceRecreation(h: seq<Effect>, file: File, start: string, i: nat)
    requires Lawful(h) && LastRecreation(h, i)
    ensures ImageAfter(h, file, start) == if Wrote(h, file, i) then h[i].image else ImageAfter(h[..i], file, start)
  {
    hide Follows, Settled, Proven, LastRecreated;
    var front, e := h[..|h| - 1], h[|h| - 1];
    if i < |h| - 1 {
      ImageSinceRecreation(front, file, start, i);
      LastRecreatedIs(front, i);
      assert front[..i] == h[..i];
      if Wrote(front, file, i) {
        var k :| i < k < |front| && Persists(front[k], file) && front[k].written;
        assert h[k] == front[k];
      }
    }
  }

  /**
   Whenever a completion is written, by the workflow, on finding the target already there, or by a restart: a file
   names the image recreated last exactly if that was written to it since, or it named that image before.
   */
  lemma CompletionPersistedExactly(origin: World, moves: seq<Move>, e: Effect, i: nat, file: File)
    requires Run(Initial(origin), moves).Some? && LastRecreation(Run(Initial(origin), moves).value.history, i)
    requires e.WriteStatus? && e.status.state == Completed && After(Run(Initial(origin), moves).value, Do(e)).Some?
    ensures var h := Run(Initial(origin), moves).value.history;
            ImageOf(After(Run(Initial(origin), moves).value, Do(e)).value.world, file) == h[i].image <==>
              Wrote(h, file, i) || ImageAfter(h[..i], file, ImageOf(origin, file)) == h[i].image
  {
    hide Run, AtPoint, Lawful, ImageAfter, Next, Wrote, LastRecreation;
    RunKeeps(origin, moves);
    ImageSinceRecreation(Run(Initial(origin), moves).value.history, file, ImageOf(origin, file), i);
  }

  lemma {:induction false} NothingPersisted(h: seq<Effect>, file: File, start: string)
    requires Lawful(h) && forall k :: 0 <= k < |h| ==> !h[k].Recreate?
    ensures ImageAfter(h, file, start) == start && LastRecreated(h) == None
  {
    hide Follows, Settled, Proven;
    if h != [] { NothingPersisted(h[..|h| - 1], file, start); }
  }

  /** A completion without any recreation leaves both files as they were. */
  lemma CompletionWithoutRecreation(origin: World, moves: seq<Move>, e: Effect, file: File)
    requires Run(Initial(origin), moves).Some?
    requires var h := Run(Initial(origin), moves).value.history; forall k :: 0 <= k < |h| ==> !h[k].Recreate?
    requires e.WriteStatus? && e.status.state == Completed && After(Run(Initial(origin), moves).value, Do(e)).Some?
    ensures ImageOf(After(Run(Initial(origin), moves).value, Do(e)).value.world, file) == ImageOf(origin, file)
  {
    hide Run, AtPoint, Lawful, ImageAfter, Next;
    RunKeeps(origin, moves);
    NothingPersisted(Run(Initial(origin), moves).value.history, file, ImageOf(origin, file));
  }

  /**
   When the workflow itself reports completion, it has just tried to write the target image to both files; each of
   them names it exactly if the write succeeded or the file named it before.
   */
  lemma CompletionByWorkflowIsPersisted(origin: World, moves: seq<Move>, e: Effect)
    requires Run(Initial(origin), moves).Some? && Run(Initial(origin), moves).value.point.Finishing?
    requires After(Run(Initial(origin), moves).value, Do(e)).Some?
    ensures var s := Run(Initial(origin), moves).value;
            var h, target := s.history, s.point.job.request.targetImage;
            var w := After(s, Do(e)).value.world;
            && w.status.Some? && w.status.value.state == Completed
            && SavedLast(h, target)
            && (w.envImage == target <==>
                  h[|h| - 2].written || ImageAfter(h[..|h| - 2], EnvFile, origin.envImage) == target)
            && (w.composeImage == target <==>
                  h[|h| - 1].written || ImageAfter(h[..|h| - 2], ComposeFile, origin.composeImage) == target)
  {
    hide Run, Settled, Proven, LastRecreated, LastWritten, Lawful, ImageAfter;
    RunKeeps(origin, moves);
    var s := Run(Initial(origin), moves).value;
    assert s.world.envImage == ImageOf(s.world, EnvFile) && s.world.composeImage == ImageOf(s.world, ComposeFile);
    SavedLastNames(s.history, s.point.job.request.targetImage, origin);
  }

  lemma SavedLastNames(h: seq<Effect>, image: string, origin: World)
    requires SavedLast(h, image)
    ensures ImageAfter(h, EnvFile, origin.envImage) ==
              if h[|h| - 2].written then image else ImageAfter(h[..|h| - 2], EnvFile, origin.envImage)
    ensures ImageAfter(h, ComposeFile, origin.composeImage) ==
              if h[|h| - 1].written then image else ImageAfter(h[..|h| - 2], ComposeFile, origin.composeImage)
  {
    var front := h[..|h| - 1];
    assert front[..|front| - 1] == h[..|h| - 2] && front[|front| - 1] == h[|h| - 2];
  }

  /** A run that leads to t, and one more move. */
  lemma RunMore(s: System, moves: seq<Move>, t: System, m: Move, u: System) returns (more: seq<Move>)
    requires Run(s, moves) == Some(t) && After(t, m) == Some(u)
    ensures more == moves + [m] && Run(s, more) == Some(u)
  {
    more := moves + [m];
    assert more[..|moves|] == moves;
  }

  lemma RunNone(s: System)
    ensures Run(s, []) == Some(s)
  {
  }

  /** A request whose current version is neither the target nor newer. */
  predicate Due(r: Request) {
    && ValidRequest(r)
    && !AlreadyThere(r.currentVersion, r.targetVersion) && !AlreadyNewer(r.currentVersion, r.targetVersion)
  }

  /** The job of a request that was submitted while the node did not answer. */
  function DueJob(r: Request): Job { Job(r, ExpectedVersion(r.currentVersion, r), "") }

  /** A run up to the request being worked on. */
  lemma RunToStaging(r: Request, image: string, origin: World) returns (moves: seq<Move>, t: System)
    requires Due(r) && origin == World(None, None, None, None, image, image)
    ensures Run(Initial(origin), moves) == Some(t)
    ensures var working := Some(StatusFor(r, Staging, r.currentVersion, false));
            t.world == World(working, working, Some(r), None, image, image)
    ensures t.point == Pulling(DueJob(r))
    ensures t.history == [Observe("", ""), WriteStatus(StatusFor(r, Staging, r.currentVersion, false), true)]
  {
    hide Run, ValidRequest, AlreadyThere, AlreadyNewer, ExpectedVersion;
    var s := Initial(origin);
    RunNone(s);
    moves := RunMore(s, [], s, Silent, s.(point := Polling));
    t := s.(point := Polling);
    var u := t.(world := t.world.(hostRequest := Some(r)));
    moves := RunMore(s, moves, t, Submit(r, true, None), u);
    t := u.(point := Reading);
    moves := RunMore(s, moves, u, Silent, t);
    u := t.(point := Examining(r));
    moves := RunMore(s, moves, t, Silent, u);
    t := System(u.world, Deciding(r, r.currentVersion), u.history + [Observe("", "")]);
    moves := RunMore(s, moves, u, Do(Observe("", "")), t);
    var write := WriteStatus(StatusFor(r, Staging, r.currentVersion, false), true);
    u := System(Apply(t.world, write), Pulling(DueJob(r)), t.history + [write]);
    moves := RunMore(s, moves, t, Do(write), u);
    t := u;
  }

  /** The same run, up to the recreation of the container under the target image. */
  lemma RunToRecreation(r: Request, image: string, origin: World) returns (moves: seq<Move>, t: System)
    requires Due(r) && origin == World(None, None, None, None, image, image)
    ensures Run(Initial(origin), moves) == Some(t)
    ensures var working := Some(StatusFor(r, State.Applying, r.currentVersion, false));
            t.world == World(working, working, Some(r), None, image, image)
    ensures t.point.Checking?
  {
    hide Run, Due, SilentStep;
    var s := Initial(origin);
    var u: System;
    moves, t := RunToStaging(r, image, origin);
    var start := DueJob(r);
    var job := start.(previous := PreviousImage("", r));
    u := System(t.world, Capturing(start), t.history + [Pull(true)]);
    moves := RunMore(s, moves, t, Do(Pull(true)), u);
    t := System(u.world, Announcing(job), u.history + [Capture("")]);
    moves := RunMore(s, moves, u, Do(Capture("")), t);
    var write := WriteStatus(StatusFor(r, State.Applying, r.currentVersion, false), true);
    u := System(Apply(t.world, write), Point.Applying(job), t.history + [write]);
    moves := RunMore(s, moves, t, Do(write), u);
    var recreate := Recreate(r.id, r.targetImage, true);
    t := System(u.world, Checking(job), u.history + [recreate]);
    moves := RunMore(s, moves, u, Do(recreate), t);
  }

  /**
   So a restart can report completion although neither file was updated: if the crash falls behind the recreation
   and the new container answers with the target version, the original image stays persisted. This is so for every
   request that is due.
   */
  lemma ReconciledCompletionIsNotPersisted(r: Request, image: string) returns (moves: seq<Move>)
    requires Due(r) && ParseVersion(r.targetVersion).Some? && r.targetImage != image
    ensures var origin := World(None, None, None, None, image, image);
            Run(Initial(origin), moves).Some? &&
            var w := Run(Initial(origin), moves).value.world;
            && w.status == Some(StatusFor(r, Completed, r.targetVersion, false))
            && w.envImage == w.composeImage == image != r.targetImage
  {
    hide Run, Due;
    var origin := World(None, None, None, None, image, image);
    var s := Initial(origin);
    var t: System, u: System;
    moves, t := RunToRecreation(r, image, origin);
    moves := RunMore(s, moves, t, Crash, t.(point := Booting));
    t := t.(point := Booting);
    u := System(t.world, Reconciling(r.targetVersion), t.history + [Observe(r.targetVersion, "")]);
    moves := RunMore(s, moves, t, Do(Observe(r.targetVersion, "")), u);
    var done := WriteStatus(StatusFor(r, Completed, r.targetVersion, false), true);
    t := System(Apply(u.world, done), RemovingHost, u.history + [done]);
    moves := RunMore(s, moves, u, Do(done), t);
  }
}
