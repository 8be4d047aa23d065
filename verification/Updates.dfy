/** Update status records and the rule that hides obsolete ones. */
module Updates {
  import opened Text
  import opened SemanticVersions
  import opened SemVerOrder

  datatype State =
    | Idle | Requested | Staging | Applying | HealthCheck | Completed | Failed | Cancelled | RollingBack | RolledBack
  {
    predicate IsActive() { Requested? || Staging? || Applying? || HealthCheck? || RollingBack? }

    predicate IsCancellable() { Requested? || Staging? }

    predicate IsCritical() { Applying? || HealthCheck? || RollingBack? }

    predicate IsTerminal() { Completed? || Failed? || Cancelled? || RolledBack? || Idle? }
  }

  /** Every state is active or terminal, never both; the active ones split into cancellable and critical. */
  lemma StatesPartition(s: State)
    ensures s.IsActive() <==> !s.IsTerminal()
    ensures s.IsActive() <==> (s.IsCancellable() || s.IsCritical())
    ensures !(s.IsCancellable() && s.IsCritical())
  {
  }

  datatype Status = Status(
    requestId: Option<string>, state: State, currentVersion: string, targetVersion: string, rollbackPerformed: bool)

  /** Missing version texts are empty. */
  function ParseVersion(s: string): Option<SemVer> { if s == "" then None else Parse(s) }

  predicate IsStale(status: Status, running: string) {
    var now, target := ParseVersion(running), ParseVersion(status.targetVersion);
    var from := if status.currentVersion == "unknown" then None else ParseVersion(status.currentVersion);
    if status.state.Idle? || now.None? then false
    else if target.Some? && Gt(now.value, target.value) then true
    else if status.state.Failed? || status.state.RolledBack? || status.state.Cancelled? then
      (target.Some? && Ge(now.value, target.value)) || (from.Some? && !Eq(now.value, from.value))
    else if status.state.Completed? then target.Some? && !Eq(now.value, target.value)
    else false
  }

  // ---------------------------------------------------------------- comparing versions by text

  /** The text without its leading letters v, as the health check compares versions. */
  function StripV(s: string): string { if s != [] && s[0] == 'v' then StripV(s[1..]) else s }

  predicate SameVersionText(a: string, b: string) { StripV(a) == StripV(b) }

  lemma {:induction false} TrimRightHead(s: string)
    requires s != [] && !IsSpace(s[0])
    ensures TrimRight(s) == [s[0]] + TrimRight(s[1..])
  {
    if |s| > 1 && IsSpace(s[|s| - 1]) {
      TrimRightHead(s[..|s| - 1]);
      assert s[..|s| - 1][1..] == s[1..][..|s| - 2];
    } else if |s| > 1 {
      assert s == [s[0]] + s[1..];
    }
  }

  /** Behind its one v, a version text starts with a digit. */
  lemma {:induction false} ParsedWithV(s: string)
    requires s != [] && s[0] == 'v' && Parse(s).Some?
    ensures StripV(s) == s[1..] && DropV(Trim(s)) == DropV(Trim(s[1..]))
  {
    hide Parse;
    var t := s[1..];
    TrimRightHead(s);
    assert Trim(s) == [s[0]] + TrimRight(t) && DropV(Trim(s)) == TrimRight(t);
    FormatOfParse(s);
    var v := Parse(s).value;
    CoreText(v);
    assert TrimRight(t)[0] == Core(v)[0] && IsCoreChar(Core(v)[0]);
    TrimRightPrefix(t);
    assert t[0] == TrimRight(t)[0];
  }

  lemma {:induction false} TrimRightPrefix(s: string)
    ensures TrimRight(s) <= s
  {
    if s != [] && IsSpace(s[|s| - 1]) { TrimRightPrefix(s[..|s| - 1]); }
  }

  /** The text comparison of the health check never equates two different versions. */
  lemma SameTextSameVersion(a: string, b: string)
    requires SameVersionText(a, b) && Parse(a).Some? && Parse(b).Some?
    ensures Parse(a) == Parse(b)
  {
    if a != [] && a[0] == 'v' { ParsedWithV(a); }
    if b != [] && b[0] == 'v' { ParsedWithV(b); }
  }

  // ---------------------------------------------------------------- fresh outcomes are visible

  /** A completed status is shown exactly as long as the node does not report another version. */
  lemma CompletedVisibleExactly(status: Status, running: string)
    requires status.state == Completed && ParseVersion(status.targetVersion).Some? && ParseVersion(running).Some?
    ensures !IsStale(status, running) <==> Eq(Parse(running).value, Parse(status.targetVersion).value)
  {
    hide Parse, Lt, Eq;
  }

  /** While an update is in progress, it is hidden exactly from a node that is beyond its target. */
  lemma ActiveHiddenExactly(status: Status, running: string)
    requires status.state.IsActive()
    ensures IsStale(status, running) <==>
              ParseVersion(running).Some? && ParseVersion(status.targetVersion).Some?
              && Lt(Parse(status.targetVersion).value, Parse(running).value)
  {
    hide Parse, Lt, Eq, Clash;
    if ParseVersion(running).Some? && ParseVersion(status.targetVersion).Some? {
      FormatOfParse(running);
      FormatOfParse(status.targetVersion);
      DerivedComparisons(Parse(running).value, Parse(status.targetVersion).value);
    }
  }

  /**
   An update that did not succeed is hidden exactly from a node that has reached the target all the same, or that
   reports another version than the one recorded. Nothing is hidden from a node that reports no version, and idle
   statuses never are.
   */
  lemma FailureHiddenExactly(status: Status, running: string)
    requires status.state in {Failed, Cancelled, RolledBack}
    ensures IsStale(status, running) <==>
              && ParseVersion(running).Some?
              && ((ParseVersion(status.targetVersion).Some?
                   && !Lt(Parse(running).value, Parse(status.targetVersion).value))
                  || (status.currentVersion != "unknown" && ParseVersion(status.currentVersion).Some?
                      && !Eq(Parse(running).value, Parse(status.currentVersion).value)))
    ensures !IsStale(status.(state := Idle), running)
  {
    hide Parse, Lt, Eq;
  }

  /** After a successful update, the node that passed the health check for the target sees the outcome. */
  lemma CompletedIsVisible(status: Status, live: string)
    requires status.state == Completed && SameVersionText(live, status.targetVersion)
    ensures !IsStale(status, live)
  {
    hide Parse;
    if ParseVersion(live).Some? && ParseVersion(status.targetVersion).Some? {
      SameTextSameVersion(live, status.targetVersion);
      LtIrreflexive(Parse(live).value, Parse(live).value);
    }
  }

  /**
   After a rollback that restored the expected version, the outcome is visible on the restored node exactly
   when that version is older than the target, as it is whenever the update was not refused at the start.
   */
  lemma RolledBackVisibleExactly(status: Status, live: string)
    requires status.state == RolledBack && status.currentVersion == live
    ensures IsStale(status, live) <==>
              ParseVersion(live).Some? && ParseVersion(status.targetVersion).Some?
              && Ge(Parse(live).value, Parse(status.targetVersion).value)
  {
    hide Parse;
    if ParseVersion(live).Some? { LtIrreflexive(Parse(live).value, Parse(live).value); }
  }

  lemma RolledBackIsVisible(status: Status, expected: string, live: string)
    requires status.state == RolledBack && status.currentVersion == live && SameVersionText(live, expected)
    requires ParseVersion(expected).Some?
    requires ParseVersion(status.targetVersion).Some? ==>
               Lt(Parse(expected).value, Parse(status.targetVersion).value)
    ensures !IsStale(status, live)
  {
    hide Parse;
    RolledBackVisibleExactly(status, live);
    if ParseVersion(live).Some? { SameTextSameVersion(live, expected); }
  }
}
