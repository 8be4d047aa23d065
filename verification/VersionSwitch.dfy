/** Switching an installation to another image, with compensation when something goes wrong. */
module VersionSwitch {
  import opened Text
  import opened EnvFile

  /** What the switch is asked for, with the texts that are rendered from it. */
  datatype Config = Config(
    image: string, container: string, volume: string, environment: string,
    composeText: string,       // the rendered docker-compose.yml
    envText: string)           // the rendered .env, used when there is none
  {
    function EnvSettings(): seq<Setting> { Settings(image, container, volume, environment) }
  }

  /** The two files, and the image of the installation's container while there is one. */
  datatype State = State(compose: Option<string>, env: Option<string>, container: Option<string>)

  /** How an inspection classifies the container of some name. */
  datatype Found = NotFound | Unreadable | Classified(isDev: bool, isAltr: bool)

  /** Commands given to Docker. */
  datatype Step =
    | Inspect(name: string, found: Found)
    | RemoveContainer(name: string)
    | RemoveVolume(name: string)
    | Pull(image: string)
    | ComposeUp
    | CheckHealth

  // ---------------------------------------------------------------- answers of disk and Docker

  /** Which writes succeed; a failed write leaves some torn content. */
  datatype Disk = Disk(folders: bool, compose: bool, env: bool, composeBack: bool, envBack: bool, torn: string)

  datatype Removal = Removal(found: Found, removed: bool)

  /** The container is seen running, its image can be read, compose succeeds; if not, it leaves some container. */
  datatype Start = Start(running: bool, imageRead: bool, up: bool, left: Option<string>)

  datatype Answers = Answers(
    imageValid: bool, dockerReady: bool, fetched: bool, disk: Disk,
    removal: Removal, start: Start, healthy: bool,
    removalBack: Removal, startBack: Start, healthyBack: bool)

  datatype Outcome = Switched | Refused | NotConfigured | NotStopped | RolledBack | RollbackFailed

  /** The image that compose runs, given its file and the image setting of the environment file. */
  type Interpreter = (string, string) -> string

  // ---------------------------------------------------------------- what the operations compute

  predicate MayRemove(found: Found) { found.NotFound? || (found.Classified? && !found.isDev && found.isAltr) }

  /** The container that is removed: the target container for an empty name. */
  function RemovedName(name: string, target: string): string { if name == "" then target else name }

  /** The name that is inspected before a removal. */
  function InspectedName(name: string, target: string): string {
    if TrimSpace(name) == "" then target else TrimSpace(name)
  }

  predicate RemovalOk(r: Removal) { MayRemove(r.found) && r.removed }

  function AfterRemoval(s: State, r: Removal): State { if RemovalOk(r) then s.(container := None) else s }

  function EnvImage(env: Option<string>): string { if env.Some? then ImageIn(env.value) else "" }

  /** The configuration files after writing; for the environment file, a failed update is not noticed. */
  function AfterWriting(s: State, cfg: Config, disk: Disk): (State, bool) {
    if !disk.folders then (s, false)
    else if !disk.compose then (s.(compose := Some(disk.torn)), false)
    else
      var written := s.(compose := Some(cfg.composeText));
      match s.env
      case Some(content) =>
        (written.(env := Some(if disk.env then NewContent(content, cfg.EnvSettings()) else disk.torn)), true)
      case None => (written.(env := Some(if disk.env then cfg.envText else disk.torn)), disk.env)
  }

  /** A running container is left alone unless it is seen to run another image than the configured one. */
  predicate LeftRunning(s: State, a: Start) {
    a.running && s.container.Some? &&
    !(EnvImage(s.env) != "" && a.imageRead && TrimSpace(s.container.value) != TrimSpace(EnvImage(s.env)))
  }

  function AfterStart(s: State, a: Start, run: Interpreter): (State, bool) {
    if LeftRunning(s, a) then (s, true)
    else if a.up && s.compose.Some? then (s.(container := Some(run(s.compose.value, EnvImage(s.env)))), true)
    else (s.(container := a.left), false)
  }

  /** The saved files, where there were any, are written back. */
  function FilesBack(s: State, before: State, disk: Disk): State {
    s.(compose :=
         if before.compose.None? then s.compose else if disk.composeBack then before.compose else Some(disk.torn),
       env := if before.env.None? then s.env else if disk.envBack then before.env else Some(disk.torn))
  }

  function AfterRollback(s: State, before: State, a: Answers, run: Interpreter): (State, bool) {
    var removed := AfterRemoval(s, a.removalBack);
    var restored := FilesBack(removed, before, a.disk);
    if before.compose.None? then (restored, false)
    else
      var (started, ok) := AfterStart(restored, a.startBack, run);
      (started, ok && a.healthyBack)
  }

  function AfterFailure(s: State, before: State, a: Answers, run: Interpreter): (State, Outcome) {
    var (back, ok) := AfterRollback(s, before, a, run);
    (back, if ok then RolledBack else RollbackFailed)
  }

  function AfterSwitch(s: State, cfg: Config, a: Answers, run: Interpreter): (State, Outcome) {
    if !a.imageValid || !a.dockerReady || !a.fetched then (s, Refused)
    else
      var (written, configured) := AfterWriting(s, cfg, a.disk);
      if !configured then (written, NotConfigured)
      else if !RemovalOk(a.removal) then (FilesBack(written, s, a.disk), NotStopped)
      else
        var (started, ok) := AfterStart(AfterRemoval(written, a.removal), a.start, run);
        if !ok || !a.healthy then AfterFailure(started, s, a, run) else (started, Switched)
  }

  // ---------------------------------------------------------------- the commands given

  /** Each removal directly follows an inspection that showed neither a development nor a foreign container. */
  predicate Guarded(trace: seq<Step>, target: string) {
    forall k :: 0 <= k < |trace| && trace[k].RemoveContainer? ==>
      && k > 0 && trace[k - 1].Inspect? && trace[k - 1].found in {NotFound, Classified(false, true)}
      && trace[k - 1].name == InspectedName(trace[k].name, target)
  }

  /** A step that is no removal keeps a trace guarded, and so does a removal behind an inspection that allows it. */
  lemma GuardedMore(trace: seq<Step>, step: Step, target: string)
    requires Guarded(trace, target)
    requires step.RemoveContainer? ==>
               trace != [] && var last := trace[|trace| - 1];
               last.Inspect? && last.found in {NotFound, Classified(false, true)}
               && last.name == InspectedName(step.name, target)
    ensures Guarded(trace + [step], target)
  {
    hide InspectedName;
  }

  predicate KeepsVolumes(trace: seq<Step>) { forall k :: 0 <= k < |trace| ==> !trace[k].RemoveVolume? }

  class InstallerEngine {
    const run: Interpreter
    const target: string
    var compose: Option<string>
    var env: Option<string>
    var container: Option<string>
    ghost var trace: seq<Step>

    ghost predicate Valid() reads this { Guarded(trace, target) && KeepsVolumes(trace) }

    function Current(): State reads this { State(compose, env, container) }

    constructor (s: State, target: string, run: Interpreter)
      ensures Valid() && Current() == s && trace == [] && this.target == target && this.run == run
    {
      this.run, this.target := run, target;
      compose, env, container, trace := s.compose, s.env, s.container, [];
    }

    /** Remove the container of some name, if an inspection allows it. */
    method RemoveContainerByName(name: string, r: Removal) returns (ok: bool)
      requires Valid()
      modifies this`container, this`trace
      ensures Valid() && old(trace) <= trace
      ensures ok == RemovalOk(r) && Current() == AfterRemoval(old(Current()), r)
      ensures var removed := if name == "" then target else name;
              var inspected := if TrimSpace(removed) == "" then target else TrimSpace(removed);
              trace == old(trace) + [Inspect(inspected, r.found)]
                       + if r.found in {NotFound, Classified(false, true)} then [RemoveContainer(removed)] else []
    {
      hide Guarded, TrimSpace;
      var removed := RemovedName(name, target);
      GuardedMore(trace, Inspect(InspectedName(removed, target), r.found), target);
      trace := trace + [Inspect(InspectedName(removed, target), r.found)];
      if !MayRemove(r.found) { return false; }
      GuardedMore(trace, RemoveContainer(removed), target);
      trace := trace + [RemoveContainer(removed)];
      if !r.removed { return false; }
      container := None;
      ok := true;
    }

    method WriteRuntimeFiles(cfg: Config, disk: Disk) returns (ok: bool)
      requires Valid()
      modifies this`compose, this`env
      ensures Valid() && (Current(), ok) == AfterWriting(old(Current()), cfg, disk)
    {
      if !disk.folders { return false; }
      if !disk.compose {
        compose := Some(disk.torn);
        return false;
      }
      compose := Some(cfg.composeText);
      if env.Some? {
        SettingsAreExclusive(cfg.image, cfg.container, cfg.volume, cfg.environment);
        var content := UpdateContent(env.value, cfg.EnvSettings());
        env := Some(if disk.env then content else disk.torn);
        ok := true;
      } else {
        env := Some(if disk.env then cfg.envText else disk.torn);
        ok := disk.env;
      }
    }

    method StartContainer(a: Start) returns (ok: bool)
      requires Valid()
      modifies this`container, this`trace
      ensures Valid() && old(trace) <= trace && (Current(), ok) == AfterStart(old(Current()), a, run)
    {
      if a.running && container.Some? {
        var targetImage := EnvImage(env);
        if targetImage == "" { return true; }
        if !(a.imageRead && TrimSpace(container.value) != TrimSpace(targetImage)) { return true; }
      }
      trace := trace + [ComposeUp];
      if a.up && compose.Some? {
        container := Some(run(compose.value, EnvImage(env)));
        ok := true;
      } else {
        container := a.left;
        ok := false;
      }
    }

    /** Saved files are written back; a file that did not exist is not removed. */
    method RestoreFiles(before: State, disk: Disk)
      requires Valid()
      modifies this`compose, this`env
      ensures Valid() && Current() == FilesBack(old(Current()), before, disk)
    {
      if before.compose.Some? { compose := if disk.composeBack then before.compose else Some(disk.torn); }
      if before.env.Some? { env := if disk.envBack then before.env else Some(disk.torn); }
    }

    method RollbackVersion(name: string, before: State, a: Answers) returns (ok: bool)
      requires Valid()
      modifies this
      ensures Valid() && old(trace) <= trace && (Current(), ok) == AfterRollback(old(Current()), before, a, run)
    {
      hide Guarded, KeepsVolumes, RemovalOk, LeftRunning;
      var _ := RemoveContainerByName(name, a.removalBack);
      RestoreFiles(before, a.disk);
      if before.compose.None? { return false; }
      ok := StartContainer(a.startBack);
      if !ok { return false; }
      ok := VerifyHealth(a.healthyBack);
    }

    method VerifyHealth(healthy: bool) returns (ok: bool)
      requires Valid()
      modifies this`trace
      ensures Valid() && old(trace) <= trace && ok == healthy
    {
      trace := trace + [CheckHealth];
      ok := healthy;
    }

    /** Fetch the image first, so that failing to get it disturbs nothing. */
    method PullImage(cfg: Config, a: Answers) returns (ok: bool)
      requires Valid()
      modifies this`trace
      ensures Valid() && old(trace) <= trace && ok == a.fetched
    {
      trace := trace + [Pull(cfg.image)];
      ok := a.fetched;
    }

    method SwitchVersion(name: string, cfg: Config, a: Answers) returns (outcome: Outcome)
      requires Valid()
      modifies this
      ensures Valid() && old(trace) <= trace
      ensures (Current(), outcome) == AfterSwitch(old(Current()), cfg, a, run)
    {
      hide Guarded, KeepsVolumes, RemovalOk, LeftRunning, AfterRollback, AfterWriting, FilesBack;
      if !a.imageValid || !a.dockerReady { return Refused; }
      var fetched := PullImage(cfg, a);
      if !fetched { return Refused; }
      var before := State(compose, env, container);
      var configured := WriteRuntimeFiles(cfg, a.disk);
      if !configured { return NotConfigured; }
      var removed := RemoveContainerByName(name, a.removal);
      if !removed {
        RestoreFiles(before, a.disk);
        return NotStopped;
      }
      var started := StartContainer(a.start);
      var healthy := false;
      if started { healthy := VerifyHealth(a.healthy); }
      if !healthy {
        var back := RollbackVersion(name, before, a);
        return if back then RolledBack else RollbackFailed;
      }
      outcome := Switched;
    }
  }

  // ---------------------------------------------------------------- compensation

  predicate AllWritten(disk: Disk) { disk.folders && disk.compose && disk.env && disk.composeBack && disk.envBack }

  /** When writes succeed, an error leaves both files as they were exactly if both existed or nothing was begun. */
  lemma ErrorRestoresFilesExactly(s: State, cfg: Config, a: Answers, run: Interpreter)
    requires AllWritten(a.disk) && AfterSwitch(s, cfg, a, run).1 != Switched
    ensures var after := AfterSwitch(s, cfg, a, run).0;
            after.compose == s.compose && after.env == s.env <==>
              !(a.imageValid && a.dockerReady && a.fetched) || (s.compose.Some? && s.env.Some?)
  {
    hide LeftRunning, NewContent;
  }

  /** For example, where there was no compose file, a container that cannot be removed leaves the new one behind. */
  lemma NewFilesStayBehind(cfg: Config, a: Answers, run: Interpreter)
    requires AllWritten(a.disk) && a.imageValid && a.dockerReady && a.fetched && !RemovalOk(a.removal)
    ensures var (after, outcome) := AfterSwitch(State(None, None, None), cfg, a, run);
            outcome == NotStopped && after.compose == Some(cfg.composeText) && after.env == Some(cfg.envText)
  {
  }

  /** A refused switch changes nothing at all, and one whose removal fails keeps the running container. */
  lemma EarlyErrorsKeepContainer(s: State, cfg: Config, a: Answers, run: Interpreter)
    requires AfterSwitch(s, cfg, a, run).1 in {Refused, NotConfigured, NotStopped}
    ensures AfterSwitch(s, cfg, a, run).0.container == s.container
    ensures AfterSwitch(s, cfg, a, run).1 == Refused ==> AfterSwitch(s, cfg, a, run).0 == s
  {
  }

  /** If creating .env fails, the new compose file is already in place and stays there. */
  lemma UnfinishedConfigurationStays(s: State, cfg: Config, a: Answers, run: Interpreter)
    requires a.imageValid && a.dockerReady && a.fetched && a.disk.folders && a.disk.compose
    ensures AfterSwitch(s, cfg, a, run).1 == NotConfigured <==> s.env.None? && !a.disk.env
    ensures AfterSwitch(s, cfg, a, run).1 == NotConfigured ==>
              AfterSwitch(s, cfg, a, run).0.compose == Some(cfg.composeText)
  {
    hide LeftRunning, NewContent;
  }

  /** Success means that the container runs what the new files say, and the environment file says the new image. */
  lemma SwitchedRunsTarget(s: State, cfg: Config, a: Answers, run: Interpreter)
    requires AllWritten(a.disk) && AfterSwitch(s, cfg, a, run).1 == Switched
    requires Plain(cfg.image) && Plain(cfg.container) && Plain(cfg.volume) && Plain(cfg.environment)
    requires s.env.Some? || ImageIn(cfg.envText) == cfg.image
    ensures AfterSwitch(s, cfg, a, run).0.container == Some(run(cfg.composeText, cfg.image))
    ensures AfterSwitch(s, cfg, a, run).0.compose == Some(cfg.composeText)
    ensures EnvImage(AfterSwitch(s, cfg, a, run).0.env) == cfg.image
  {
    hide Plain, NewContent, ImageIn;
    if s.env.Some? { ImageReadBack(s.env.value, cfg.image, cfg.container, cfg.volume, cfg.environment); }
  }

  /** An existing environment file then has the new container, volume and environment too, unless they are defaults. */
  lemma SwitchedSettings(s: State, cfg: Config, a: Answers, run: Interpreter)
    requires AllWritten(a.disk) && AfterSwitch(s, cfg, a, run).1 == Switched && s.env.Some?
    requires Plain(cfg.image) && Plain(cfg.container) && Plain(cfg.volume) && Plain(cfg.environment)
    ensures var env := AfterSwitch(s, cfg, a, run).0.env;
            && env.Some?
            && var lines := Split(env.value, '\n');
            && (cfg.container != "altr-stream" ==>
                  ReadSetting(lines, "ALTR_STREAM_CONTAINER_NAME=") == cfg.container)
            && (cfg.volume != "altr_stream_data" ==> ReadSetting(lines, "ALTR_STREAM_DATA_VOLUME=") == cfg.volume)
            && (cfg.environment != "production" ==>
                  ReadSetting(lines, "ALTR_STREAM_ENVIRONMENT=") == cfg.environment)
  {
    hide Plain, NewContent, ImageIn, ReadSetting, Mentions;
    WrittenSettingsRead(s.env.value, cfg.image, cfg.container, cfg.volume, cfg.environment);
  }

  /** The image setting of .env after the new files were written, and after the saved ones were written back. */
  function NewSetting(s: State, cfg: Config): string {
    ImageIn(if s.env.Some? then NewContent(s.env.value, cfg.EnvSettings()) else cfg.envText)
  }

  function PreviousSetting(s: State, cfg: Config): string { ImageIn(if s.env.Some? then s.env.value else cfg.envText) }

  /** The image that came up under the new files, or whatever the failed start left. */
  function CameUp(s: State, cfg: Config, a: Answers, run: Interpreter): Option<string> {
    if a.start.up then Some(run(cfg.composeText, NewSetting(s, cfg))) else a.start.left
  }

  /**
   After a rollback that is reported as successful, the image of the saved files runs exactly if the container was
   removed the second time, or none had come up or was seen running, or its image was read and differs from the one
   that the saved .env sets, or it was that image all along.
   */
  lemma RolledBackRunsPreviousExactly(s: State, cfg: Config, a: Answers, run: Interpreter)
    requires AllWritten(a.disk) && AfterSwitch(s, cfg, a, run).1 == RolledBack
    ensures s.compose.Some?
    ensures var setting, up := PreviousSetting(s, cfg), CameUp(s, cfg, a, run);
            var previous := run(s.compose.value, setting);
            AfterSwitch(s, cfg, a, run).0.container == Some(previous) <==>
              || RemovalOk(a.removalBack)
              || up.None? || !a.startBack.running
              || (setting != "" && a.startBack.imageRead && TrimSpace(up.value) != TrimSpace(setting))
              || up == Some(previous)
  {
    hide NewContent, ImageIn, RemovalOk, TrimSpace;
    var written := AfterWriting(s, cfg, a.disk).0;
    assert EnvImage(written.env) == NewSetting(s, cfg);
  }

  /**
   So a rollback can be reported as successful with the rejected image still running: the new container came up
   unhealthy, it cannot be removed, and the restored .env names no image.
   */
  lemma RollbackCanKeepRejectedImage(cfg: Config, run: Interpreter, composeText: string, envText: string, torn: string)
    requires ImageIn(envText) == ""
    requires run(cfg.composeText, ImageIn(NewContent(envText, cfg.EnvSettings()))) == cfg.image
    ensures var s := State(Some(composeText), Some(envText), None);
            var disk := Disk(true, true, true, true, true, torn);
            var a := Answers(true, true, true, disk, Removal(NotFound, true), Start(false, false, true, None), false,
                             Removal(Classified(false, true), false), Start(true, true, true, None), true);
            var (after, outcome) := AfterSwitch(s, cfg, a, run);
            outcome == RolledBack && after == s.(container := Some(cfg.image))
  {
    hide NewContent, ImageIn;
  }
}
