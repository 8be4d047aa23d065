/**
 One round of the supervisor: from reading a request to the removal of the request, or to the restart that finds
 the round interrupted. What happens meanwhile to other requests, and to the image in the files.
 */
module SupervisorRounds {
  import opened Text
  import opened SemanticVersions
  import opened Updates
  import opened SupervisorProtocol
  import opened SupervisorSafety

  predicate InJob(p: Point) { Preparing(p) || Activating(p) || Saving(p) || Returning(p) || Ending(p) }

  /** The program is at work on request r, or about to remove it. */
  predicate WorksOn(p: Point, r: Request) {
    if Examines(p) then p.request == r else if InJob(p) then p.job.request == r else p.RemovingHost?
  }

  /** No crash, and the request is not removed yet. */
  predicate Uninterrupted(moves: seq<Move>) {
    forall k :: 0 <= k < |moves| ==> moves[k] != Crash && moves[k] != Do(RemoveHostRequest)
  }

  lemma {:induction false} RunParts(s: System, first: seq<Move>, second: seq<Move>)
    requires Run(s, first + second).Some?
    ensures Run(s, first).Some? && Run(Run(s, first).value, second) == Run(s, first + second)
  {
    hide After;
    if second == [] {
      assert first + second == first;
    } else {
      var front := second[..|second| - 1];
      assert (first + second)[..|first + second| - 1] == first + front;
      RunParts(s, first, front);
    }
  }

  lemma RunOne(s: System, m: Move)
    ensures Run(s, [m]) == After(s, m)
  {
    assert [m][..0] == [];
    assert Run(s, []) == Some(s);
  }

  // ---------------------------------------------------------------- the effects of a job

  /** The states in which the status can be at a point. */
  function StatesAt(p: Point): set<State> {
    match p
    case Applying(_) => {State.Applying}
    case Checking(_) => {State.Applying}
    case Probing(_) => {HealthCheck}
    case SavingEnv(_) => {HealthCheck}
    case SavingCompose(_) => {HealthCheck}
    case Finishing(_) => {HealthCheck}
    case TurningBack(_) => {State.Applying, HealthCheck}
    case Restoring(_) => {RollingBack}
    case Verifying(_) => {RollingBack}
    case RestoringEnv(_, _) => {RollingBack}
    case RestoringCompose(_, _) => {RollingBack}
    case Reporting(_, _) => {RollingBack}
    case GivingUp(_, _, _) => {Staging, RollingBack}
    case _ => {Staging}
  }

  predicate HalfSaved(p: Point) { p.SavingCompose? || p.RestoringCompose? }

  predicate Saved(p: Point) { p.Finishing? || p.Reporting? }

  predicate KnowsPrevious(p: Point) {
    InJob(p) && !p.Pulling? && !p.Capturing? && !p.GivingUp? && !p.Reporting?
  }

  /** The status that the program writes at the end of the step, or has at both ends. */
  predicate ReportsAs(p: Point, e: Effect, q: Point)
    requires InJob(p)
  {
    && !e.CopyStatus?
    && (e.WriteStatus? ==> e.status.requestId == Some(p.job.request.id))
    && if q.RemovingHost? then e.WriteStatus? && e.status.state.IsTerminal()
       else
         && InJob(q) && q.job.request == p.job.request
         && if e.WriteStatus? then e.status.state in StatesAt(q) else StatesAt(p) <= StatesAt(q)
  }

  /** Where the program writes which image, and where it learns the previous one. */
  predicate SavesAs(p: Point, e: Effect, q: Point)
    requires InJob(p)
  {
    && (HalfSaved(q) <==> e.PersistEnv?) && (HalfSaved(p) <==> e.PersistCompose?)
    && (Saved(q) <==> HalfSaved(p)) && (Saved(p) ==> q.RemovingHost?)
    && (e.PersistEnv? || e.PersistCompose? ==>
          && StatesAt(p) == StatesAt(q) && KnowsPrevious(p)
          && if Saving(p) then StatesAt(p) == {HealthCheck} && e.image == p.job.request.targetImage
             else StatesAt(p) == {RollingBack} && e.image == p.job.previous)
    && (KnowsPrevious(q) ==>
          if e.Capture? then q.job.previous == PreviousImage(e.image, q.job.request)
          else KnowsPrevious(p) && q.job.previous == p.job.previous)
  }

  lemma EffectOfPreparing(p: Point, w: World, e: Effect, q: Point)
    requires Preparing(p) && Next(p, w, e) == Some(q)
    ensures ReportsAs(p, e, q) && SavesAs(p, e, q)
  {
    hide PreviousImage, StripV;
  }

  lemma EffectOfActivating(p: Point, w: World, e: Effect, q: Point)
    requires Activating(p) && Next(p, w, e) == Some(q)
    ensures ReportsAs(p, e, q) && SavesAs(p, e, q)
  {
    hide PreviousImage, StripV;
  }

  lemma EffectOfSaving(p: Point, w: World, e: Effect, q: Point)
    requires Saving(p) && Next(p, w, e) == Some(q)
    ensures ReportsAs(p, e, q) && SavesAs(p, e, q)
  {
    hide PreviousImage, StripV;
  }

  lemma EffectOfReturning(p: Point, w: World, e: Effect, q: Point)
    requires Returning(p) && Next(p, w, e) == Some(q)
    ensures ReportsAs(p, e, q) && SavesAs(p, e, q)
  {
    hide PreviousImage, StripV;
  }

  lemma EffectOfEnding(p: Point, w: World, e: Effect, q: Point)
    requires Ending(p) && Next(p, w, e) == Some(q)
    ensures ReportsAs(p, e, q) && SavesAs(p, e, q)
  {
    hide PreviousImage, StripV;
  }

  lemma EffectOfJob(p: Point, w: World, e: Effect, q: Point)
    requires InJob(p) && Next(p, w, e) == Some(q)
    ensures ReportsAs(p, e, q) && SavesAs(p, e, q)
  {
    hide Next, ReportsAs, SavesAs;
    if Preparing(p) { EffectOfPreparing(p, w, e, q); }
    else if Activating(p) { EffectOfActivating(p, w, e, q); }
    else if Saving(p) { EffectOfSaving(p, w, e, q); }
    else if Returning(p) { EffectOfReturning(p, w, e, q); }
    else { EffectOfEnding(p, w, e, q); }
  }

  // ---------------------------------------------------------------- requests that arrive meanwhile

  /** From the n-th effect on, no status was written for the request. */
  predicate Unmentioned(h: seq<Effect>, n: nat, id: string) {
    forall k :: n <= k < |h| && h[k].WriteStatus? ==> h[k].status.requestId != Some(id)
  }

  /** Neither file holds the request, and the supervisor wrote no status for it from the n-th effect on. */
  predicate Lost(s: System, n: nat, id: string) { Gone(s, id) && Unmentioned(s.history, n, id) }

  predicate Submissions(moves: seq<Move>) { forall k :: 0 <= k < |moves| ==> moves[k].Submit? }

  /** The request submitted last on the host. */
  function LastOnHost(moves: seq<Move>): Option<Request> {
    if moves == [] then None
    else
      var last := moves[|moves| - 1];
      if last.Submit? && last.onHost then Some(last.request) else LastOnHost(moves[..|moves| - 1])
  }

  predicate InRound(s: System, r: Request, n: nat, id: string) {
    n <= |s.history| && WorksOn(s.point, r) && Unmentioned(s.history, n, id)
  }

  /** An effect of a round keeps to its request. */
  lemma EffectOfRound(p: Point, w: World, e: Effect, r: Request, q: Point)
    requires WorksOn(p, r) && Next(p, w, e) == Some(q) && e != RemoveHostRequest
    ensures WorksOn(q, r) && (e.WriteStatus? ==> e.status.requestId == Some(r.id) || e.status.requestId == None)
  {
    hide Next;
    if InJob(p) { EffectOfJob(p, w, e, q); } else { EffectBeforeJob(p, w, e, r, q); }
  }

  lemma EffectBeforeJob(p: Point, w: World, e: Effect, r: Request, q: Point)
    requires WorksOn(p, r) && !InJob(p) && Next(p, w, e) == Some(q) && e != RemoveHostRequest
    ensures WorksOn(q, r) && (e.WriteStatus? ==> e.status.requestId == Some(r.id) || e.status.requestId == None)
  {
    hide ValidRequest, AlreadyThere, AlreadyNewer, RunningVersion, ExpectedVersion, Format;
  }

  lemma MoveOfRound(s: System, m: Move, r: Request, n: nat, id: string)
    requires InRound(s, r, n, id) && id != r.id
    requires m != Crash && m != Do(RemoveHostRequest) && After(s, m).Some?
    ensures InRound(After(s, m).value, r, n, id)
  {
    hide Next, Apply;
    if m.Do? { EffectOfRound(s.point, s.world, m.effect, r, After(s, m).value.point); }
  }

  lemma {:induction false} RoundKeeps(s: System, moves: seq<Move>, r: Request, n: nat, id: string)
    requires InRound(s, r, n, id) && id != r.id && Uninterrupted(moves) && Run(s, moves).Some?
    ensures InRound(Run(s, moves).value, r, n, id)
  {
    hide InRound, After;
    if moves != [] {
      var front, m := moves[..|moves| - 1], moves[|moves| - 1];
      RoundKeeps(s, front, r, n, id);
      MoveOfRound(Run(s, front).value, m, r, n, id);
    }
  }

  /** Submissions change only the requests, and on the host the last one is kept. */
  lemma {:induction false} SubmissionsKept(s: System, moves: seq<Move>)
    requires Submissions(moves) && Run(s, moves).Some?
    ensures var t := Run(s, moves).value;
            && t.point == s.point && t.history == s.history
            && t.world.hostRequest == (if LastOnHost(moves).Some? then LastOnHost(moves) else s.world.hostRequest)
  {
    if moves != [] { SubmissionsKept(s, moves[..|moves| - 1]); }
  }

  /** From reading a request to its removal on both sides, submissions falling anywhere. */
  function Round(before: seq<Move>, between: seq<Move>): seq<Move> {
    before + ([Do(RemoveHostRequest)] + (between + [Do(RemoveContainerRequest)]))
  }

  /**
   After a round on r, any other request, however it was submitted and even while r was worked on, is lost exactly
   if it is not the last that was submitted on the host between the removal there and that in the container.
   */
  lemma RequestLostExactly(s: System, r: Request, before: seq<Move>, between: seq<Move>, id: string)
    requires s.point == Examining(r) && id != r.id
    requires Uninterrupted(before) && Submissions(between) && Run(s, Round(before, between)).Some?
    ensures var t := Run(s, Round(before, between)).value;
            t.point == Polling &&
            (Lost(t, |s.history|, id) <==> !(LastOnHost(between).Some? && LastOnHost(between).value.id == id))
  {
    hide Run, Uninterrupted, Submissions, LastOnHost, After;
    var n := |s.history|;
    RunParts(s, before, [Do(RemoveHostRequest)] + (between + [Do(RemoveContainerRequest)]));
    RoundKeeps(s, before, r, n, id);
    var t := Run(s, before).value;
    RunParts(t, [Do(RemoveHostRequest)], between + [Do(RemoveContainerRequest)]);
    RunOne(t, Do(RemoveHostRequest));
    RemovalEnds(t, between, n, id);
  }

  /** The two removals, with submissions between them. */
  lemma RemovalEnds(t: System, between: seq<Move>, n: nat, id: string)
    requires n <= |t.history| && Unmentioned(t.history, n, id)
    requires After(t, Do(RemoveHostRequest)).Some?
    requires Submissions(between)
    requires Run(After(t, Do(RemoveHostRequest)).value, between + [Do(RemoveContainerRequest)]).Some?
    ensures var end := Run(After(t, Do(RemoveHostRequest)).value, between + [Do(RemoveContainerRequest)]).value;
            && end.point == Polling && end.world.containerRequest == None
            && end.world.hostRequest == LastOnHost(between) && Unmentioned(end.history, n, id)
  {
    hide Run, Submissions, LastOnHost;
    var u := After(t, Do(RemoveHostRequest)).value;
    RemovalPoint(t);
    RunParts(u, between, [Do(RemoveContainerRequest)]);
    SubmissionsKept(u, between);
    RunOne(Run(u, between).value, Do(RemoveContainerRequest));
    RemovalPoint(Run(u, between).value);
  }

  lemma RemovalPoint(s: System)
    ensures var after := After(s, Do(RemoveHostRequest));
            after.Some? ==>
              after.value == System(s.world.(hostRequest := None), RemovingContainer, s.history + [RemoveHostRequest])
    ensures var after := After(s, Do(RemoveContainerRequest));
            after.Some? ==>
              after.value == System(s.world.(containerRequest := None), Polling, s.history + [RemoveContainerRequest])
  {
    hide ValidRequest, AlreadyThere, AlreadyNewer, RunningVersion, ExpectedVersion, PreviousImage, StripV, Format;
  }

  /** And work on a lost request never starts, until it is submitted again. */
  lemma {:induction false} LostForGood(s: System, moves: seq<Move>, id: string)
    requires Gone(s, id) && Run(s, moves).Some?
    requires forall k :: 0 <= k < |moves| ==> !Submits(moves[k], id)
    ensures var t := Run(s, moves).value;
            && Gone(t, id) && s.history <= t.history
            && forall k :: |s.history| <= k < |t.history| ==> !Starts(t.history[k], id)
  {
    hide After, Gone, Starts;
    if moves != [] {
      var front, m := moves[..|moves| - 1], moves[|moves| - 1];
      LostForGood(s, front, id);
      var t := Run(s, front).value;
      HistoryOfMove(t, m);
      GoneStays(t, m, id);
    }
  }

  lemma RunToEnd(s: System, moves: seq<Move>, t: System) returns (more: seq<Move>, u: System)
    requires Run(s, moves) == Some(t) && t.point.RemovingHost?
    ensures moves <= more && Run(s, more) == Some(u) && u.point == Polling
    ensures u.world == t.world.(hostRequest := None, containerRequest := None)
    ensures u.history == t.history + [RemoveHostRequest, RemoveContainerRequest]
  {
    hide Run;
    var v := System(t.world.(hostRequest := None), RemovingContainer, t.history + [RemoveHostRequest]);
    more := RunMore(s, moves, t, Do(RemoveHostRequest), v);
    u := System(v.world.(containerRequest := None), Polling, v.history + [RemoveContainerRequest]);
    more := RunMore(s, more, v, Do(RemoveContainerRequest), u);
  }

  /**
   It happens: a request that is submitted on the host while another is worked on, whose image cannot be pulled, is
   removed with it, and no status ever speaks of it.
   */
  lemma SubmittedMeanwhileIsLost(r: Request, q: Request, image: string) returns (moves: seq<Move>)
    requires Due(r) && q.id != r.id
    ensures Submit(q, true, None) in moves
    ensures var end := Run(Initial(World(None, None, None, None, image, image)), moves);
            && end.Some? && end.value.point == Polling && Lost(end.value, 0, q.id)
            && end.value.world.hostRequest == end.value.world.containerRequest == None
  {
    hide Run, Due;
    var origin := World(None, None, None, None, image, image);
    var s := Initial(origin);
    var t: System, u: System;
    moves, t := RunToStaging(r, image, origin);
    u := t.(world := t.world.(hostRequest := Some(q)));
    var k := |moves|;
    moves := RunMore(s, moves, t, Submit(q, true, None), u);
    t := System(u.world, GivingUp(DueJob(r), r.currentVersion, false), u.history + [Pull(false)]);
    moves := RunMore(s, moves, u, Do(Pull(false)), t);
    var failed := WriteStatus(StatusFor(r, Failed, r.currentVersion, false), true);
    u := System(Apply(t.world, failed), RemovingHost, t.history + [failed]);
    moves := RunMore(s, moves, t, Do(failed), u);
    moves, t := RunToEnd(s, moves, u);
    assert moves[k] == Submit(q, true, None);
  }

  // ---------------------------------------------------------------- a round that a crash interrupts

  predicate WroteSince(h: seq<Effect>, file: File, n: nat) {
    exists k :: n <= k < |h| && Persists(h[k], file) && h[k].written
  }

  /** The image captured since the n-th effect, before the container was touched. */
  function CapturedSince(h: seq<Effect>, n: nat): string {
    if |h| <= n then "" else if h[|h| - 1].Capture? then h[|h| - 1].image else CapturedSince(h[..|h| - 1], n)
  }

  /** The only image that is written to the files in this state of the update. */
  function ImageToWrite(h: seq<Effect>, n: nat, r: Request, state: State): string {
    if state == RollingBack then PreviousImage(CapturedSince(h, n), r) else r.targetImage
  }

  /** What a file names after the effects since the n-th, if it named before until then. */
  function ImageThen(h: seq<Effect>, file: File, n: nat, r: Request, state: State, before: string): string {
    if WroteSince(h, file, n) then ImageToWrite(h, n, r, state) else before
  }

  predicate StatusOf(status: Option<Status>, r: Request, states: set<State>) {
    status.Some? && status.value.requestId == Some(r.id) && status.value.state in states
  }

  predicate FilesNameThen(s: System, n: nat, w: World, r: Request, state: State) {
    forall file: File :: ImageOf(s.world, file) == ImageThen(s.history, file, n, r, state, ImageOf(w, file))
  }

  /** Both files name what they named, and nothing was written to them. */
  predicate Untouched(s: System, n: nat, w: World) {
    forall file: File :: !WroteSince(s.history, file, n) && ImageOf(s.world, file) == ImageOf(w, file)
  }

  /** The job on r since it stood at Pulling, over the files w and after n effects. */
  predicate JobOn(s: System, w: World, n: nat, r: Request) {
    n <= |s.history| &&
    if s.point.RemovingHost? then s.world.status.Some? && s.world.status.value.state.IsTerminal()
    else
      && InJob(s.point) && s.point.job.request == r && StatusOf(s.world.status, r, StatesAt(s.point))
      && (if HalfSaved(s.point) || Saved(s.point) then FilesNameThen(s, n, w, r, s.world.status.value.state)
          else Untouched(s, n, w))
      && (HalfSaved(s.point) ==> !WroteSince(s.history, ComposeFile, n))
      && (KnowsPrevious(s.point) ==> s.point.job.previous == PreviousImage(CapturedSince(s.history, n), r))
  }

  lemma OneMoreEffect(h: seq<Effect>, e: Effect, n: nat)
    requires n <= |h|
    ensures forall file: File ::
              WroteSince(h + [e], file, n) <==> WroteSince(h, file, n) || (Persists(e, file) && e.written)
    ensures CapturedSince(h + [e], n) == if e.Capture? then e.image else CapturedSince(h, n)
  {
    assert (h + [e])[..|h|] == h;
    forall file: File | WroteSince(h, file, n) ensures WroteSince(h + [e], file, n) {
      var k :| n <= k < |h| && Persists(h[k], file) && h[k].written;
      assert (h + [e])[k] == h[k];
    }
    forall file: File | Persists(e, file) && e.written ensures WroteSince(h + [e], file, n) {
      assert (h + [e])[|h|] == e;
    }
  }

  /** What an effect does to the status and to the image in the files. */
  lemma Applied(w: World, e: Effect)
    ensures !e.CopyStatus? ==> Apply(w, e).status == if e.WriteStatus? then Some(e.status) else w.status
    ensures forall file: File ::
              ImageOf(Apply(w, e), file)
              == if Persists(e, file) && e.written then e.image else ImageOf(w, file)
  {
  }

  lemma UntouchedStays(s: System, e: Effect, p: Point, n: nat, w: World)
    requires n <= |s.history| && Untouched(s, n, w) && !e.PersistEnv? && !e.PersistCompose?
    ensures Untouched(System(Apply(s.world, e), p, s.history + [e]), n, w)
  {
    hide WroteSince;
    OneMoreEffect(s.history, e, n);
  }

  lemma {:induction false} JobStep(s: System, e: Effect, w: World, n: nat, r: Request, p: Point)
    requires JobOn(s, w, n, r) && Next(s.point, s.world, e) == Some(p) && e != RemoveHostRequest
    ensures JobOn(System(Apply(s.world, e), p, s.history + [e]), w, n, r)
  {
    hide WroteSince, CapturedSince, PreviousImage, Next, Apply, ImageOf;
    if s.point.RemovingHost? {
      assert false by { NotBeforeRemoval(s, e); }
    } else {
      OneMoreEffect(s.history, e, n);
      Applied(s.world, e);
      EffectOfJob(s.point, s.world, e, p);
    }
  }

  lemma NotBeforeRemoval(s: System, e: Effect)
    requires s.point.RemovingHost? && e != RemoveHostRequest
    ensures Next(s.point, s.world, e) == None
  {
  }

  lemma JobMove(s: System, m: Move, w: World, n: nat, r: Request)
    requires JobOn(s, w, n, r) && m != Crash && m != Do(RemoveHostRequest) && After(s, m).Some?
    ensures JobOn(After(s, m).value, w, n, r)
  {
    hide Next, Apply, ImageThen, WroteSince;
    if m.Do? { JobStep(s, m.effect, w, n, r, After(s, m).value.point); }
  }

  lemma {:induction false} JobKeeps(s: System, moves: seq<Move>, w: World, n: nat, r: Request)
    requires JobOn(s, w, n, r) && Uninterrupted(moves) && Run(s, moves).Some?
    ensures JobOn(Run(s, moves).value, w, n, r)
  {
    hide JobOn, After;
    if moves != [] {
      var front, m := moves[..|moves| - 1], moves[|moves| - 1];
      JobKeeps(s, front, w, n, r);
      JobMove(Run(s, front).value, m, w, n, r);
    }
  }

  /** The restart: it looks at the node, requests may arrive, and it may crash again. */
  predicate Restarting(moves: seq<Move>) {
    forall k :: 0 <= k < |moves| ==>
      moves[k] == Crash || moves[k].Submit? || (moves[k].Do? && moves[k].effect.Observe?)
  }

  /** What the crash leaves of a job: a terminal status, or the job's, and files as that state has them. */
  predicate Interrupted(s: System, w: World, n: nat, r: Request) {
    && n <= |s.history| && s.world.status.Some?
    && var status := s.world.status.value;
       if status.state.IsTerminal() then s.point.Booting?
       else
         && (s.point.Booting? || s.point.Reconciling?)
         && status.requestId == Some(r.id) && FilesNameThen(s, n, w, r, status.state)
  }

  lemma CrashInterrupts(s: System, w: World, n: nat, r: Request)
    requires JobOn(s, w, n, r)
    ensures Interrupted(s.(point := Booting), w, n, r)
  {
    hide WroteSince, CapturedSince, PreviousImage;
  }

  lemma RestartMove(s: System, m: Move, w: World, n: nat, r: Request)
    requires Interrupted(s, w, n, r) && Restarting([m]) && After(s, m).Some?
    ensures Interrupted(After(s, m).value, w, n, r)
  {
    hide WroteSince, CapturedSince, PreviousImage, AlreadyThere;
    assert [m][0] == m;
    if m.Do? { OneMoreEffect(s.history, m.effect, n); }
  }

  lemma {:induction false} RestartKeeps(s: System, moves: seq<Move>, w: World, n: nat, r: Request)
    requires Interrupted(s, w, n, r) && Restarting(moves) && Run(s, moves).Some?
    ensures Interrupted(Run(s, moves).value, w, n, r)
  {
    hide Interrupted, After;
    if moves != [] {
      var front, m := moves[..|moves| - 1], moves[|moves| - 1];
      RestartKeeps(s, front, w, n, r);
      RestartMove(Run(s, front).value, m, w, n, r);
    }
  }

  /**
   Whenever work on a request began in a run, was interrupted by a crash, and the restart records its completion:
   the completion is that of this request, and a file names its target image exactly if that was written to the file,
   or nothing was written to it and it named that image before. If the interrupted update was being rolled back, what
   was written, if anything, is the previous image.
   */
  lemma RestartCompletionExactly(
    origin: World, before: seq<Move>, s: System, moves: seq<Move>, tail: seq<Move>, e: Effect, file: File)
    requires Run(Initial(origin), before) == Some(s) && s.point.Pulling?
    requires Uninterrupted(moves) && Restarting(tail) && Run(s, moves + ([Crash] + tail)).Some?
    requires var u := Run(s, moves + ([Crash] + tail)).value;
             u.point.Reconciling? && e.WriteStatus? && e.status.state == Completed && After(u, Do(e)).Some?
    ensures var r, u := s.point.job.request, Run(s, moves + ([Crash] + tail)).value;
            var h, image := u.history, ImageOf(After(u, Do(e)).value.world, file);
            && e.status.requestId == Some(r.id)
            && (image == r.targetImage <==>
                  if !WroteSince(h, file, |s.history|) then ImageOf(s.world, file) == r.targetImage
                  else u.world.status.value.state != RollingBack
                       || PreviousImage(CapturedSince(h, |s.history|), r) == r.targetImage)
  {
    hide Run, AtPoint, Lawful, Replayed, Uninterrupted, Restarting, WroteSince, CapturedSince, PreviousImage,
      AlreadyThere;
    var n, r := |s.history|, s.point.job.request;
    RunKeeps(origin, before);
    assert JobOn(s, s.world, n, r) by { JobBegins(s); }
    RunParts(s, moves, [Crash] + tail);
    JobKeeps(s, moves, s.world, n, r);
    var t := Run(s, moves).value;
    RunParts(t, [Crash], tail);
    RunOne(t, Crash);
    CrashInterrupts(t, s.world, n, r);
    RestartKeeps(t.(point := Booting), tail, s.world, n, r);
    var u := Run(s, moves + ([Crash] + tail)).value;
    var found := u.world.status.value.state;
    assert ImageOf(u.world, file) == ImageThen(u.history, file, n, r, found, ImageOf(s.world, file));
  }

  lemma JobBegins(s: System)
    requires AtPoint(s.history, s.world.status, s.point) && s.point.Pulling?
    ensures JobOn(s, s.world, |s.history|, s.point.job.request)
  {
    hide SettledBut, LastWritten, Settled;
  }
}
