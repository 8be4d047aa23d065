/**
 The supervisor as it is programmed, over the files it updates in place. Each effect is a step of the state
 machine, so that everything proved about runs holds of these methods; what they leave behind is stated here.
 */
module Supervisor {
  import opened Text
  import opened Updates
  import opened SemanticVersions
  import opened SemVerOrder
  import opened SupervisorProtocol
  import opened SupervisorSafety

  /** What Docker and the health endpoint answer while one request is processed. */
  datatype Answers = Answers(
    requestCopied: bool,      // the request was found in the container and copied
    statusCopied: bool,
    live: string,             // the version the node reports, "" for none
    tagImage: string,         // the image that is inspected for its tag
    pulled: bool,
    captured: string,         // the image in use before the update, "" for none
    recreated: bool,          // the container was recreated under the target image
    healthy: bool,            // and became healthy
    restored: bool,           // the container was recreated under the previous image
    restoredHealthy: bool,    // and became healthy
    restoredLive: string,     // and reports this version
    envWritten: bool,         // whether a changed image can be written to .env, if that exists
    composeWritten: bool,     // and to the compose file
    synced: State -> bool)    // whether a written status reaches the container

  /** The request that will be processed: the one on the host, or the one copied from the container. */
  function Pending(w: World, a: Answers): Option<Request> {
    if w.hostRequest.Some? then w.hostRequest else if a.requestCopied then w.containerRequest else None
  }

  function Running(r: Request, a: Answers): string { RunningVersion(a.live, r.currentVersion, a.tagImage) }

  /** The request is processed, rather than refused or already satisfied. */
  predicate Attempted(r: Request, a: Answers) {
    ValidRequest(r) && !AlreadyThere(Running(r, a), r.targetVersion) && !AlreadyNewer(Running(r, a), r.targetVersion)
  }

  predicate Activated(a: Answers) { a.pulled && a.recreated && a.healthy }

  predicate RestoredTo(expected: string, a: Answers) {
    a.restored && a.restoredHealthy && SameVersionText(a.restoredLive, expected)
  }

  function Expected(r: Request, a: Answers): string { ExpectedVersion(Running(r, a), r) }

  /** The job as it stands when the target image is to be activated. */
  function JobOf(r: Request, a: Answers): Job { Job(r, Expected(r, a), PreviousImage(a.captured, r)) }

  /** The status in which a failed activation ends. */
  function RollbackOutcome(job: Job, a: Answers): Status {
    if RestoredTo(job.expected, a) then
      StatusFor(job.request, RolledBack, if a.restoredLive != "" then a.restoredLive else job.expected, true)
    else if a.restored then
      StatusFor(job.request, Failed, if a.restoredLive != "" then a.restoredLive else job.request.currentVersion, true)
    else StatusFor(job.request, Failed, job.request.currentVersion, false)
  }

  /** The status in which an attempted request ends. */
  function AttemptOutcome(r: Request, a: Answers): Status {
    if !a.pulled then StatusFor(r, Failed, r.currentVersion, false)
    else if Activated(a) then StatusFor(r, Completed, r.targetVersion, false)
    else RollbackOutcome(JobOf(r, a), a)
  }

  function Outcome(r: Request, a: Answers): Status {
    if !ValidRequest(r) then INVALID_REQUEST
    else if Attempted(r, a) then AttemptOutcome(r, a)
    else
      StatusFor(r, if AlreadyThere(Running(r, a), r.targetVersion) then Completed else Failed,
                Format(ParseVersion(Running(r, a)).value), false)
  }

  /** The image that the files name afterwards, if it was changed. */
  function NewImage(r: Request, a: Answers): Option<string> {
    if !Attempted(r, a) || !a.pulled then None
    else if Activated(a) then Some(r.targetImage)
    else RestoredImage(JobOf(r, a), a)
  }

  /** The image that a file names when a new one, if any, was to be written to it. */
  function ImageIn(image: Option<string>, written: bool, before: string): string {
    if image.Some? && written then image.value else before
  }

  function RestoredImage(job: Job, a: Answers): Option<string> {
    if RestoredTo(job.expected, a) then Some(job.previous) else None
  }

  predicate FilesName(after: World, before: World, image: Option<string>, a: Answers) {
    && after.envImage == ImageIn(image, a.envWritten, before.envImage)
    && after.composeImage == ImageIn(image, a.composeWritten, before.composeImage)
  }

  // ---------------------------------------------------------------- what decides about a request

  /**
   The version v decides: at the target the request is completed, beyond it the request has failed, both without
   touching the files, and otherwise it is attempted, with v as the version to go back to.
   */
  predicate DecidedBy(v: string, r: Request, a: Answers) {
    && (AlreadyThere(v, r.targetVersion) ==> Outcome(r, a).state == Completed && NewImage(r, a) == None)
    && (AlreadyNewer(v, r.targetVersion) ==> Outcome(r, a).state == Failed && NewImage(r, a) == None)
    && (!AlreadyThere(v, r.targetVersion) && !AlreadyNewer(v, r.targetVersion) ==>
          Attempted(r, a) && Expected(r, a) == if v != "" then v else r.currentVersion)
  }

  /** The version that the node reports decides, or if it reports none, the version that the request records. */
  lemma LiveVersionDecides(r: Request, a: Answers)
    requires ValidRequest(r)
    ensures a.live != "" && a.live != "unknown" ==> DecidedBy(a.live, r, a)
    ensures a.live == "" && r.currentVersion != "" && r.currentVersion != "unknown" ==>
              DecidedBy(r.currentVersion, r, a)
  {
    hide Parse, Format, Eq, Lt, ValidRequest;
  }

  /** If that is unknown, the text behind the last colon of the running image decides; without a colon nothing does. */
  lemma TagDecides(r: Request, a: Answers, front: string, tag: string)
    requires ValidRequest(r)
    requires a.live == "unknown" || (a.live == "" && (r.currentVersion == "" || r.currentVersion == "unknown"))
    ensures a.tagImage == front + ":" + tag && ':' !in tag ==> DecidedBy(tag, r, a)
    ensures ':' !in a.tagImage ==> Attempted(r, a)
  {
    hide Parse, Format, Eq, Lt, ValidRequest, ImageTag;
    if a.tagImage == front + ":" + tag && ':' !in tag { TagFound(front, tag); }
    if ':' !in a.tagImage {
      NoTagFound(a.tagImage);
      UnknownIsNoVersion();
    }
  }

  lemma {:induction false} TagFound(front: string, tag: string)
    requires ':' !in tag
    ensures ImageTag(front + ":" + tag) == Some(tag)
  {
    var image := front + ":" + tag;
    if tag != "" {
      assert tag[|tag| - 1] in tag && image[..|image| - 1] == front + ":" + tag[..|tag| - 1];
      assert image[|image| - 1] == tag[|tag| - 1] && tag[..|tag| - 1] + [tag[|tag| - 1]] == tag;
      TagFound(front, tag[..|tag| - 1]);
    }
  }

  lemma {:induction false} NoTagFound(image: string)
    requires ':' !in image
    ensures ImageTag(image) == None
  {
    if image != "" {
      assert image[|image| - 1] in image;
      NoTagFound(image[..|image| - 1]);
    }
  }

  lemma UnknownIsNoVersion()
    ensures ParseVersion("unknown") == None
  {
    hide Parse;
    var s := "unknown";
    assert TrimRight(s) == s && Trim(s) == s && DropV(s) == s;
    if Parse(s).Some? {
      FormatOfParse(s);
      CoreText(Parse(s).value);
    }
  }

  /** Which requests are refused unseen: images of other registries, no target version, or characters of a shell. */
  lemma ValidRequestExactly(r: Request)
    ensures ValidRequest(r) <==>
              && ("ghcr.io/helloaltr/altr-stream:" <= r.targetImage || "altr-stream:" <= r.targetImage)
              && r.targetVersion != "" && forall c :: c in r.targetVersion ==> c !in ";|&`$<>"
  {
    var prefixes := ALLOWED_IMAGE_PREFIXES;
    assert prefixes[0] == "ghcr.io/helloaltr/altr-stream:" && prefixes[1] == "altr-stream:";
    if prefixes[0] <= r.targetImage || prefixes[1] <= r.targetImage {
      assert exists i :: 0 <= i < |prefixes| && prefixes[i] <= r.targetImage;
    }
    var unsafe := ";|&`$<>";
    assert forall c: char :: UnsafeChar(c) <==> c in unsafe by { UnsafeChars(); }
    assert forall i :: 0 <= i < |r.targetVersion| ==> r.targetVersion[i] in r.targetVersion;
    hide UnsafeChar;
  }

  lemma UnsafeChars()
    ensures forall c: char :: UnsafeChar(c) <==> c in ";|&`$<>"
  {
  }

  /** What is reported of each way a request can end, and which image the files are to name. */
  lemma OutcomeReported(r: Request, a: Answers)
    ensures !ValidRequest(r) ==>
              Outcome(r, a).requestId == None && Outcome(r, a).state == Failed && NewImage(r, a) == None
    ensures ValidRequest(r) ==> Outcome(r, a).requestId == Some(r.id) && Outcome(r, a).targetVersion == r.targetVersion
    ensures Attempted(r, a) && !a.pulled ==>
              && Outcome(r, a).state == Failed && Outcome(r, a).currentVersion == r.currentVersion
              && NewImage(r, a) == None
    ensures Attempted(r, a) && a.pulled && a.recreated && a.healthy ==>
              Outcome(r, a).state == Completed && NewImage(r, a) == Some(r.targetImage)
    ensures Attempted(r, a) && a.pulled && !(a.recreated && a.healthy) ==>
              var previous :=
                if a.captured != "" then a.captured else "ghcr.io/helloaltr/altr-stream:" + r.currentVersion;
              var verified := a.restored && a.restoredHealthy && SameVersionText(a.restoredLive, Expected(r, a));
              && Outcome(r, a).state == (if verified then RolledBack else Failed)
              && NewImage(r, a) == (if verified then Some(previous) else None)
              && (Outcome(r, a).rollbackPerformed <==> a.restored)
              && (a.restored && a.restoredLive != "" ==> Outcome(r, a).currentVersion == a.restoredLive)
  {
    hide Parse, Format, Eq, Lt, ValidRequest, RunningVersion, StripV;
  }

  // ---------------------------------------------------------------- which outcomes are shown

  /**
   The outcome of a rollback is hidden from the node that it restored exactly when the version before the update
   could not be read, and the restored version can be read and is not older than the target.
   */
  lemma RollbackHiddenExactly(r: Request, a: Answers)
    requires Attempted(r, a) && Outcome(r, a).state == RolledBack
    ensures IsStale(Outcome(r, a), a.restoredLive) <==>
              ParseVersion(Running(r, a)).None? && NotOlder(a.restoredLive, r.targetVersion)
  {
    hide Parse, IsStale, RunningVersion, Lt;
    var running, status := Running(r, a), Outcome(r, a);
    if a.restoredLive == "" {
      NothingIsStaleForUnknown(status);
    } else if ParseVersion(running).Some? {
      if ParseVersion(r.targetVersion).Some? { NeitherThereNorNewer(running, r.targetVersion); }
      RolledBackIsVisible(status, running, a.restoredLive);
    } else {
      RolledBackVisibleExactly(status, a.restoredLive);
    }
  }

  predicate NotOlder(live: string, target: string) {
    ParseVersion(live).Some? && ParseVersion(target).Some? && Ge(ParseVersion(live).value, ParseVersion(target).value)
  }

  /**
   It can happen: a version reported with two letters v is no version, but compares as equal text. Here is a
   request and answers for every version v without pre-release and build.
   */
  lemma RollbackCanBeHidden(v: SemVer) returns (r: Request, a: Answers)
    requires v.prerelease.None? && v.build.None?
    ensures Attempted(r, a) && Outcome(r, a).state == RolledBack
    ensures r.targetVersion == a.restoredLive == Format(v)
    ensures IsStale(Outcome(r, a), a.restoredLive)
  {
    hide Parse, IsStale, Lt, Eq;
    var text := Format(v);
    var doubled := "vv" + text;
    r := Request("1", doubled, text, "altr-stream:1");
    a := Answers(true, true, "", "", true, "", true, false, true, true, text, true, true, _ => true);
    SafeRequest(v, r);
    assert ParseVersion(doubled).None? && SameVersionText(text, doubled) by { DoubledIsNoVersion(v); }
    FormatThenParse(v);
    assert NotOlder(text, text) by { LtIrreflexive(v, v); }
    assert Running(r, a) == doubled;
    RollbackHiddenExactly(r, a);
  }

  lemma SafeRequest(v: SemVer, r: Request)
    requires v.prerelease.None? && v.build.None? && r.targetVersion == Format(v) && r.targetImage == "altr-stream:1"
    ensures ValidRequest(r)
  {
    CoreText(v);
    assert Format(v) == Core(v);
    assert ALLOWED_IMAGE_PREFIXES[1] <= r.targetImage;
  }

  lemma DoubledIsNoVersion(v: SemVer)
    ensures ParseVersion("vv" + Format(v)).None? && SameVersionText(Format(v), "vv" + Format(v)) && Format(v) != ""
  {
    hide Parse;
    var text := Format(v);
    var doubled := "vv" + text;
    assert text != "" && text[0] != 'v' by { CoreText(v); }
    assert doubled[1..] == "v" + text && doubled[1..][1..] == text;
    assert StripV(text) == text && StripV("v" + text) == text && StripV(doubled) == text;
    if Parse(doubled).Some? { ParsedWithV(doubled); }
  }

  /** The completion that a restart records is shown on the node that it found running the target. */
  lemma ReconciledIsVisible(status: Status, live: string)
    requires Reconciled(status, live).state == Completed && status.state.IsActive()
    ensures !IsStale(Reconciled(status, live), live)
  {
    hide Parse, IsStale, Eq;
    CompletedVisibleExactly(Reconciled(status, live), live);
  }

  lemma NothingIsStaleForUnknown(status: Status)
    ensures !IsStale(status, "")
  {
  }

  lemma {:induction false} NeitherThereNorNewer(running: string, target: string)
    requires ParseVersion(running).Some? && ParseVersion(target).Some?
    requires !AlreadyThere(running, target) && !AlreadyNewer(running, target)
    ensures Lt(Parse(running).value, Parse(target).value)
  {
  }

  /** A success is shown on a node that passed the health check, and on one that ran the target before. */
  lemma CompletionIsVisible(r: Request, a: Answers, live: string)
    ensures Outcome(r, a).state == Completed && Attempted(r, a) && SameVersionText(live, r.targetVersion) ==>
              !IsStale(Outcome(r, a), live)
    ensures Outcome(r, a).state == Completed && !Attempted(r, a) && live == Running(r, a) ==>
              !IsStale(Outcome(r, a), live)
  {
    hide Parse, IsStale, RunningVersion, SameVersionText;
    if Outcome(r, a).state == Completed {
      if Attempted(r, a) {
        if SameVersionText(live, r.targetVersion) { CompletedIsVisible(Outcome(r, a), live); }
      } else if live == Running(r, a) {
        CompletedVisibleExactly(Outcome(r, a), live);
      }
    }
  }

  class AltrSupervisor {
    var world: World
    ghost var point: Point
    ghost var history: seq<Effect>
    ghost const origin: World

    ghost predicate Valid() reads this { Inv(System(world, point, history), origin) }

    constructor (w: World)
      ensures Valid() && point == Booting && world == origin == w && history == []
    {
      world, point, history, origin := w, Booting, [], w;
    }

    /** One effect; the caller shows that the program does it at this point. */
    method Do(e: Effect)
      requires Valid() && Next(point, world, e).Some?
      modifies this
      ensures Valid() && point == Next(old(point), old(world), e).value
      ensures world == Apply(old(world), e) && history == old(history) + [e]
    {
      hide Inv, Next, Apply;
      EffectKeeps(System(world, point, history), e, origin);
      point := Next(point, world, e).value;
      world := Apply(world, e);
      history := history + [e];
    }

    ghost method Advance()
      requires Valid() && SilentStep(point, world).Some?
      modifies this`point
      ensures Valid() && point == SilentStep(old(point), world).value
    {
      hide Inv;
      MoveKeeps(System(world, point, history), Silent, origin);
      point := SilentStep(point, world).value;
    }

    /** A crash loses everything but the files. */
    ghost method Crash()
      requires Valid()
      modifies this`point
      ensures Valid() && point == Booting
    {
      hide Inv;
      MoveKeeps(System(world, point, history), Move.Crash, origin);
      point := Booting;
    }

    lemma RemovalSteps()
      ensures forall w: World :: Next(RemovingHost, w, RemoveHostRequest) == Some(RemovingContainer)
      ensures forall w: World :: Next(RemovingContainer, w, RemoveContainerRequest) == Some(Polling)
    {
      hide ValidRequest, AlreadyThere, AlreadyNewer, RunningVersion, ExpectedVersion, PreviousImage, StripV, Format;
    }

    /** The last status is written and the request removed from both sides. */
    method Finish(status: Status, copied: bool)
      requires Valid() && Next(point, world, WriteStatus(status, copied)) == Some(RemovingHost)
      modifies this
      ensures Valid() && point == Polling
      ensures world == old(world).(status := Some(status), hostRequest := None, containerRequest := None,
                                   containerStatus := if copied then Some(status) else old(world.containerStatus))
      ensures old(history) <= history
    {
      hide Inv, Next;
      RemovalSteps();
      Do(WriteStatus(status, copied));
      Do(RemoveHostRequest);
      Do(RemoveContainerRequest);
    }

    lemma ThereIsKnown(live: string)
      ensures forall target: string :: AlreadyThere(live, target) ==> live != ""
    {
    }

    /**
     At start-up an active status left behind becomes terminal, completed exactly if the node already runs the
     target version, and its request is dropped; anything else stays as it is.
     */
    method ReconcileStartupState(live: string, copied: bool) returns (result: Option<Status>)
      requires Valid() && point == Booting
      modifies this
      ensures Valid() && point == Polling
      ensures !(old(world).status.Some? && old(world).status.value.state.IsActive()) ==>
                result == None && world == old(world)
      ensures old(world).status.Some? && old(world).status.value.state.IsActive() ==>
                && result == world.status && world.status.Some?
                && world.status.value.state.IsTerminal()
                && world.status.value.requestId == old(world).status.value.requestId
                && world.status.value.targetVersion == old(world).status.value.targetVersion
                && world.status.value.currentVersion ==
                     (if live != "" then live else old(world).status.value.currentVersion)
                && (world.status.value.state == Completed <==>
                      AlreadyThere(live, old(world).status.value.targetVersion))
                && world.hostRequest == world.containerRequest == None
                && world.envImage == old(world).envImage && world.composeImage == old(world).composeImage
    {
      hide Inv, AlreadyThere;
      if world.status.Some? && world.status.value.state.IsActive() {
        Do(Observe(live, ""));
        var reconciled := Reconciled(world.status.value, live);
        assert AlreadyThere(live, world.status.value.targetVersion) ==> live != "" by { ThereIsKnown(live); }
        Finish(reconciled, copied);
        result := Some(reconciled);
      } else {
        Advance();
        result := None;
      }
    }

    /** The image is written to both files, as far as that is possible. */
    method PersistImageUpdate(image: string, a: Answers)
      requires Valid() && Next(point, world, PersistEnv(image, a.envWritten)).Some?
      modifies this
      ensures Valid() && old(history) <= history
      ensures FilesName(world, old(world), Some(image), a)
      ensures world == old(world).(envImage := world.envImage, composeImage := world.composeImage)
      ensures old(point.SavingEnv?) ==> point == Finishing(old(point.job))
      ensures old(point.RestoringEnv?) ==> point == Reporting(old(point.job), old(point.live))
    {
      hide Inv;
      Do(PersistEnv(image, a.envWritten));
      Do(PersistCompose(image, a.composeWritten));
    }

    lemma RecreatingSteps(start: Job, a: Answers)
      ensures forall w: World :: Next(Pulling(start), w, Pull(true)) == Some(Capturing(start))
      ensures var job := start.(previous := PreviousImage(a.captured, start.request));
              var status := StatusFor(start.request, State.Applying, start.request.currentVersion, false);
              var recreate := Recreate(start.request.id, start.request.targetImage, a.recreated);
              && (forall w: World :: Next(Capturing(start), w, Capture(a.captured)) == Some(Announcing(job)))
              && (forall w: World :: Next(Announcing(job), w, WriteStatus(status, a.synced(State.Applying)))
                                     == Some(Point.Applying(job)))
              && forall w: World :: Next(Point.Applying(job), w, recreate)
                                    == Some(if a.recreated then Checking(job) else TurningBack(job))
    {
      hide PreviousImage;
    }

    /** Pull, capture the previous image and recreate the container; the files keep all but the status. */
    method Recreating(start: Job, a: Answers) returns (job: Job)
      requires Valid() && a.pulled && point == Pulling(start)
      modifies this
      ensures Valid() && old(history) <= history
      ensures world == old(world).(status := world.status, containerStatus := world.containerStatus)
      ensures job == start.(previous := PreviousImage(a.captured, start.request))
      ensures point == if a.recreated then Checking(job) else TurningBack(job)
    {
      hide Inv, PreviousImage, Next;
      RecreatingSteps(start, a);
      job := start.(previous := PreviousImage(a.captured, start.request));
      var status := StatusFor(start.request, State.Applying, start.request.currentVersion, false);
      Do(Pull(true));
      Do(Capture(a.captured));
      Do(WriteStatus(status, a.synced(State.Applying)));
      Do(Recreate(start.request.id, start.request.targetImage, a.recreated));
    }

    method CheckHealth(job: Job, a: Answers) returns (healthOk: bool)
      requires Valid() && point == Checking(job)
      modifies this
      ensures Valid() && old(history) <= history && healthOk == a.healthy
      ensures world == old(world).(status := world.status, containerStatus := world.containerStatus)
      ensures point == if healthOk then SavingEnv(job) else TurningBack(job)
    {
      hide Inv;
      var status := StatusFor(job.request, HealthCheck, job.request.currentVersion, false);
      Do(WriteStatus(status, a.synced(HealthCheck)));
      Do(Probe(a.healthy));
      healthOk := a.healthy;
    }

    lemma RestoreSteps(job: Job, a: Answers)
      ensures var status := StatusFor(job.request, RollingBack, job.request.currentVersion, true);
              var current, live := job.request.currentVersion, a.restoredLive;
              && (forall w: World :: Next(TurningBack(job), w, WriteStatus(status, a.synced(RollingBack)))
                                     == Some(Restoring(job)))
              && (forall w: World :: Next(Restoring(job), w, Recreate(job.request.id, job.previous, a.restored))
                                     == Some(if a.restored then Verifying(job) else GivingUp(job, current, false)))
              && forall w: World :: Next(Verifying(job), w, Verify(a.restoredHealthy, live))
                                    == Some(if a.restoredHealthy && SameVersionText(live, job.expected)
                                            then RestoringEnv(job, live)
                                            else GivingUp(job, if live != "" then live else current, true))
    {
      hide StripV;
    }

    /** Recreate the container under the previous image and see what it reports. */
    method Restore(job: Job, a: Answers) returns (healthOk: bool, live: string)
      requires Valid() && point == TurningBack(job)
      modifies this
      ensures Valid() && old(history) <= history
      ensures world == old(world).(status := world.status, containerStatus := world.containerStatus)
      ensures healthOk == (a.restored && a.restoredHealthy) && live == if a.restored then a.restoredLive else ""
      ensures point ==
        if healthOk && SameVersionText(live, job.expected) then RestoringEnv(job, live)
        else GivingUp(job, if live != "" then live else job.request.currentVersion, a.restored)
    {
      hide Inv, StripV, Next;
      RestoreSteps(job, a);
      var status := StatusFor(job.request, RollingBack, job.request.currentVersion, true);
      Do(WriteStatus(status, a.synced(RollingBack)));
      Do(Recreate(job.request.id, job.previous, a.restored));
      healthOk, live := false, "";
      if a.restored {
        Do(Verify(a.restoredHealthy, a.restoredLive));
        healthOk, live := a.restoredHealthy, a.restoredLive;
      }
    }

    lemma OutcomeSteps(job: Job, a: Answers)
      ensures forall w: World, live: string ::
                Next(RestoringEnv(job, live), w, PersistEnv(job.previous, a.envWritten)).Some?
      ensures var live := a.restoredLive;
              var status := StatusFor(job.request, RolledBack, if live != "" then live else job.expected, true);
              forall w: World, copied: bool ::
                Next(Reporting(job, live), w, WriteStatus(status, copied)) == Some(RemovingHost)
      ensures forall w: World, live: string, again: bool, copied: bool ::
                Next(GivingUp(job, live, again), w, WriteStatus(StatusFor(job.request, Failed, live, again), copied))
                == Some(RemovingHost)
    {
      hide ValidRequest, AlreadyThere, AlreadyNewer, RunningVersion, ExpectedVersion, PreviousImage, StripV, Format;
    }

    /** The failed activation of a job is turned back, and the outcome reported. */
    method RollBack(job: Job, a: Answers) returns (final: Status)
      requires Valid() && point == TurningBack(job)
      modifies this
      ensures Valid() && point == Polling && old(history) <= history
      ensures final == RollbackOutcome(job, a) && final.state.IsTerminal() && world.status == Some(final)
      ensures world.hostRequest == world.containerRequest == None
      ensures FilesName(world, old(world), RestoredImage(job, a), a)
    {
      hide Inv, StripV, Next;
      OutcomeSteps(job, a);
      var healthOk, live := Restore(job, a);
      if healthOk && StripV(live) == StripV(job.expected) {
        PersistImageUpdate(job.previous, a);
        final := StatusFor(job.request, RolledBack, if live != "" then live else job.expected, true);
      } else {
        final := StatusFor(job.request, Failed, if live != "" then live else job.request.currentVersion, a.restored);
      }
      Finish(final, a.synced(final.state));
    }

    lemma StagingSteps(r: Request, running: string)
      requires !AlreadyThere(running, r.targetVersion) && !AlreadyNewer(running, r.targetVersion)
      ensures var start, current := Job(r, ExpectedVersion(running, r), ""), r.currentVersion;
              && (forall w: World, copied: bool ::
                    Next(Deciding(r, running), w, WriteStatus(StatusFor(r, Staging, current, false), copied))
                    == Some(Pulling(start)))
              && (forall w: World :: Next(Pulling(start), w, Pull(false)) == Some(GivingUp(start, current, false)))
              && forall w: World, copied: bool ::
                   Next(GivingUp(start, current, false), w, WriteStatus(StatusFor(r, Failed, current, false), copied))
                   == Some(RemovingHost)
    {
      hide AlreadyThere, AlreadyNewer, ExpectedVersion;
    }

    /** The workflow of a valid request that is neither satisfied nor out of date. */
    method Attempt(r: Request, a: Answers) returns (final: Status)
      requires Valid() && Attempted(r, a) && point == Deciding(r, Running(r, a))
      modifies this
      ensures Valid() && point == Polling && old(history) <= history
      ensures final == AttemptOutcome(r, a) && final.state.IsTerminal() && world.status == Some(final)
      ensures world.hostRequest == world.containerRequest == None
      ensures FilesName(world, old(world), NewImage(r, a), a)
    {
      hide Inv, ExpectedVersion, PreviousImage, Running, AlreadyThere, AlreadyNewer, ValidRequest, StripV, Next, Apply;
      hide RollbackOutcome, RestoredImage, FilesName;
      StagingSteps(r, Running(r, a));
      StagingFiles(world, StatusFor(r, Staging, r.currentVersion, false), a);
      Do(WriteStatus(StatusFor(r, Staging, r.currentVersion, false), a.synced(Staging)));
      if a.pulled {
        final := Activate(r, a);
      } else {
        final := GiveUp(r, a);
      }
    }

    /** Writing a status does not change what the files name. */
    lemma StagingFiles(w: World, status: Status, a: Answers)
      ensures forall after: World, image: Option<string> ::
                FilesName(after, Apply(w, WriteStatus(status, a.synced(status.state))), image, a) ==>
                  FilesName(after, w, image, a)
    {
    }

    /** The image could not be had; nothing was touched. */
    method GiveUp(r: Request, a: Answers) returns (final: Status)
      requires Valid() && !a.pulled && point == Pulling(Job(r, Expected(r, a), ""))
      modifies this
      ensures Valid() && point == Polling && old(history) <= history
      ensures final == StatusFor(r, Failed, r.currentVersion, false) && world.status == Some(final)
      ensures world.hostRequest == world.containerRequest == None
      ensures FilesName(world, old(world), None, a)
    {
      hide Inv, Expected;
      Do(Pull(false));
      final := StatusFor(r, Failed, r.currentVersion, false);
      Finish(final, a.synced(Failed));
    }

    /** Once the image is there: recreate, check, and keep the target or turn back. */
    method Activate(r: Request, a: Answers) returns (final: Status)
      requires Valid() && a.pulled && point == Pulling(Job(r, Expected(r, a), ""))
      modifies this
      ensures Valid() && point == Polling && old(history) <= history
      ensures final == AttemptOutcome(r, a) && final.state.IsTerminal() && world.status == Some(final)
      ensures world.hostRequest == world.containerRequest == None
      ensures FilesName(world, old(world),
                        if Activated(a) then Some(r.targetImage) else RestoredImage(JobOf(r, a), a), a)
    {
      hide Inv, Expected, PreviousImage, RestoredTo, RollbackOutcome;
      var job := Recreating(Job(r, Expected(r, a), ""), a);
      var applyFailed, healthOk := !a.recreated, false;
      if !applyFailed { healthOk := CheckHealth(job, a); }
      if healthOk && !applyFailed {
        PersistImageUpdate(r.targetImage, a);
        final := StatusFor(r, Completed, r.targetVersion, false);
        Finish(final, a.synced(Completed));
      } else {
        final := RollBack(job, a);
      }
    }

    /** A request on the host, or else one copied from the container together with its status. */
    method SynchronizeRequest(a: Answers) returns (found: bool)
      requires Valid() && point == Polling
      modifies this
      ensures Valid() && old(history) <= history && found == Pending(old(world), a).Some?
      ensures !found ==> point == Polling && world == old(world)
      ensures found ==>
                point == Reading
                && world == old(world).(hostRequest := Pending(old(world), a), status := world.status)
                && world.status ==
                     (if old(world).hostRequest.None? && a.statusCopied && old(world).containerStatus.Some?
                      then old(world).containerStatus else old(world).status)
    {
      hide Inv;
      found := true;
      if world.hostRequest.Some? {
        Advance();
      } else if world.containerRequest.Some? && a.requestCopied {
        Do(CopyRequest);
        Do(CopyStatus(a.statusCopied));
      } else {
        found := false;
      }
    }

    lemma DecisionSteps(r: Request, a: Answers)
      ensures !ValidRequest(r) ==>
                forall w: World, copied: bool ::
                  Next(Examining(r), w, WriteStatus(INVALID_REQUEST, copied)) == Some(RemovingHost)
      ensures ValidRequest(r) ==>
                forall w: World ::
                  Next(Examining(r), w, Observe(a.live, a.tagImage)) == Some(Deciding(r, Running(r, a)))
      ensures var running := Running(r, a);
              AlreadyThere(running, r.targetVersion) || AlreadyNewer(running, r.targetVersion) ==>
                var state := if AlreadyThere(running, r.targetVersion) then Completed else Failed;
                var status := StatusFor(r, state, Format(ParseVersion(running).value), false);
                forall w: World, copied: bool ::
                  Next(Deciding(r, running), w, WriteStatus(status, copied)) == Some(RemovingHost)
    {
      hide RunningVersion, ValidRequest, Parse, Format, Eq, Gt;
    }

    /** Without a new image, files that are as they were name what they are to name. */
    lemma NothingNamed(a: Answers)
      ensures forall w: World, before: World ::
                w.envImage == before.envImage && w.composeImage == before.composeImage ==> FilesName(w, before, None, a)
    {
    }

    /** The same from any other moment at which the files were the same. */
    lemma NamedSince(a: Answers, w: World, before: World)
      requires w.envImage == before.envImage && w.composeImage == before.composeImage
      ensures forall after: World, image: Option<string> ::
                FilesName(after, w, image, a) <==> FilesName(after, before, image, a)
    {
    }

    /** Any request, refused, already satisfied, out of date or attempted. */
    method Handle(r: Request, a: Answers) returns (final: Status)
      requires Valid() && point == Examining(r)
      modifies this
      ensures Valid() && point == Polling && old(history) <= history
      ensures world.status == Some(final) && final == Outcome(r, a) && final.state.IsTerminal()
      ensures world.hostRequest == world.containerRequest == None
      ensures FilesName(world, old(world), NewImage(r, a), a)
    {
      hide Inv, Next, RunningVersion, ValidRequest, Parse, Format, Eq, Gt, AttemptOutcome, PreviousImage, StripV,
        Expected, FilesName;
      DecisionSteps(r, a);
      NothingNamed(a);
      if !ValidRequest(r) {
        final := INVALID_REQUEST;
        Finish(final, a.synced(Failed));
        return;
      }
      ghost var before := world;
      Do(Observe(a.live, a.tagImage));
      NamedSince(a, world, before);
      var running := Running(r, a);
      if AlreadyThere(running, r.targetVersion) {
        final := StatusFor(r, Completed, Format(ParseVersion(running).value), false);
        Finish(final, a.synced(Completed));
      } else if AlreadyNewer(running, r.targetVersion) {
        final := StatusFor(r, Failed, Format(ParseVersion(running).value), false);
        Finish(final, a.synced(Failed));
      } else {
        final := Attempt(r, a);
      }
    }

    /**
     One poll. Nothing pending changes nothing; otherwise the request is gone, the status is its outcome, and
     the files that can be written name the target image after success, the previous image after a verified
     rollback, and what they named before in every other case.
     */
    method ProcessPendingRequest(a: Answers) returns (result: Option<Status>)
      requires Valid() && point == Polling
      modifies this
      ensures Valid() && point == Polling && old(history) <= history
      ensures Pending(old(world), a).None? ==> result == None && world == old(world)
      ensures Pending(old(world), a).Some? ==>
                var r := Pending(old(world), a).value;
                && world.status == Some(Outcome(r, a)) && Outcome(r, a).state.IsTerminal()
                && result == (if ValidRequest(r) then world.status else None)
                && world.hostRequest == world.containerRequest == None
                && FilesName(world, old(world), NewImage(r, a), a)
    {
      hide Inv, ValidRequest, Outcome, NewImage;
      var found := SynchronizeRequest(a);
      if !found { return None; }
      var r := world.hostRequest.value;
      Advance();
      var final := Handle(r, a);
      result := if ValidRequest(r) then Some(final) else None;
    }
  }
}
