/** Choosing the version to upgrade to: channels, the sorted list of candidates, and the single hop. */
module UpgradeResolver {
  import opened Text
  import opened SemanticVersions
  import opened SemVerOrder

  datatype Channel = ALPHA | BETA | STABLE

  datatype Release = Release(version: SemVer, tag: string)

  function ChannelOf(v: SemVer): Channel {
    if v.prerelease.None? then STABLE
    else
      var pre := Lower(v.prerelease.value);
      if IsInfix("alpha", pre) then ALPHA
      else if IsInfix("beta", pre) || IsInfix("rc", pre) then BETA
      else ALPHA
  }

  predicate Allowed(release: Channel, user: Channel) {
    match user
    case ALPHA => true
    case BETA => release == BETA || release == STABLE
    case STABLE => release == STABLE
  }

  predicate Compatible(r: Release, user: Channel) { Allowed(ChannelOf(r.version), user) }

  predicate StandsAt(text: string, word: string, i: nat) {
    i + |word| <= |text| && SameLetters(text[i..i + |word|], word)
  }

  /** The word occurs in the text, in any case. */
  ghost predicate Contains(text: string, word: string) { exists i: nat :: StandsAt(text, word, i) }

  lemma InfixInAnyCase(text: string, word: string)
    requires Lower(word) == word
    ensures IsInfix(word, Lower(text)) <==> Contains(text, word)
  {
    hide Lower, SameLetters;
    InfixExactly(word, Lower(text));
    forall i: nat ensures OccursAt(word, Lower(text), i) <==> StandsAt(text, word, i) {
      if i + |word| <= |text| {
        LowerSlice(text, i, i + |word|);
        LowerEqualExactly(text[i..i + |word|], word);
      }
    }
  }

  lemma {:induction false} LowerSlice(s: string, i: nat, j: nat)
    requires i <= j <= |s|
    ensures Lower(s)[i..j] == Lower(s[i..j])
  {
    if i > 0 {
      LowerSlice(s[1..], i - 1, j - 1);
      assert s[1..][i - 1..j - 1] == s[i..j] && Lower(s)[1..] == Lower(s[1..]);
      assert Lower(s)[i..j] == Lower(s)[1..][i - 1..j - 1];
    } else if j > 0 {
      LowerSlice(s[1..], 0, j - 1);
      assert s[..j][1..] == s[1..][..j - 1] && s[..j][0] == s[0];
      assert Lower(s)[..j] == [LowerChar(s[0])] + Lower(s[1..])[..j - 1];
    }
  }

  /** Without pre-release a version is stable; with beta or rc and without alpha it is beta; all others are alpha. */
  lemma ChannelExactly(v: SemVer)
    ensures ChannelOf(v) == STABLE <==> v.prerelease.None?
    ensures ChannelOf(v) == BETA <==>
              && v.prerelease.Some? && !Contains(v.prerelease.value, "alpha")
              && (Contains(v.prerelease.value, "beta") || Contains(v.prerelease.value, "rc"))
  {
    hide IsInfix, Contains;
    if v.prerelease.Some? {
      LowerWords();
      InfixInAnyCase(v.prerelease.value, "alpha");
      InfixInAnyCase(v.prerelease.value, "beta");
      InfixInAnyCase(v.prerelease.value, "rc");
    }
  }

  lemma LowerWords()
    ensures Lower("alpha") == "alpha" && Lower("beta") == "beta" && Lower("rc") == "rc"
  {
    forall s: string, i | s in {"alpha", "beta", "rc"} && 0 <= i < |s| ensures Lower(s)[i] == s[i] { LowerAt(s, i); }
    assert forall s: string :: s in {"alpha", "beta", "rc"} ==> Lower(s) == s;
  }

  function Stability(c: Channel): nat { match c case ALPHA => 0 case BETA => 1 case STABLE => 2 }

  /** A channel takes the releases that are at least as stable. */
  lemma AllowedExactly(release: Channel, user: Channel)
    ensures Allowed(release, user) <==> Stability(release) >= Stability(user)
  {
  }

  // ---------------------------------------------------------------- specification

  function Filter(rs: seq<Release>, user: Channel): seq<Release> {
    if rs == [] then []
    else Filter(rs[..|rs| - 1], user) + if Compatible(rs[|rs| - 1], user) then [rs[|rs| - 1]] else []
  }

  /** r put behind everything that is not greater. */
  function Insert(sorted: seq<Release>, r: Release): (s: seq<Release>)
    ensures |s| == |sorted| + 1
  {
    if sorted == [] || !Lt(r.version, sorted[|sorted| - 1].version) then sorted + [r]
    else Insert(sorted[..|sorted| - 1], r) + [sorted[|sorted| - 1]]
  }

  /** The stable sort by version. */
  function Sorted(rs: seq<Release>): (s: seq<Release>)
    ensures |s| == |rs|
  {
    if rs == [] then [] else Insert(Sorted(rs[..|rs| - 1]), rs[|rs| - 1])
  }

  /** Two releases of the same version have the same key; build metadata does not count. */
  function Key(v: SemVer): SemVer { v.(build := None) }

  predicate Seen(rs: seq<Release>, v: SemVer) { exists i :: 0 <= i < |rs| && Key(rs[i].version) == Key(v) }

  /** Only the first release of every version. */
  function Unique(rs: seq<Release>): seq<Release> {
    if rs == [] then []
    else
      var front, last := rs[..|rs| - 1], rs[|rs| - 1];
      if Seen(front, last.version) then Unique(front) else Unique(front) + [last]
  }

  function Newer(rs: seq<Release>, v: SemVer): seq<Release> {
    if rs == [] then []
    else Newer(rs[..|rs| - 1], v) + if Gt(rs[|rs| - 1].version, v) then [rs[|rs| - 1]] else []
  }

  function Candidates(releases: seq<Release>, user: Channel): seq<Release> { Unique(Sorted(Filter(releases, user))) }

  datatype UpgradePlan = UpgradePlan(
    current: SemVer, target: Option<Release>, channel: Channel, allReleases: seq<Release>, latest: SemVer)

  function PlanFor(current: SemVer, releases: seq<Release>, channel: Option<Channel>): UpgradePlan {
    var user := if channel.Some? then channel.value else ChannelOf(current);
    var all := Candidates(releases, user);
    var newer := Newer(all, current);
    UpgradePlan(
      current,
      if newer == [] then None else Some(newer[|newer| - 1]),
      user,
      all,
      if newer != [] then newer[|newer| - 1].version
      else if all != [] then all[|all| - 1].version
      else current)
  }

  /** Keeps the first release of every version, remembering the versions seen. */
  method EliminateDuplicates(rs: seq<Release>) returns (unique: seq<Release>)
    ensures unique == Unique(rs)
  {
    hide Seen;
    unique := [];
    var seen: set<SemVer> := {};
    SeenNothing();
    for i := 0 to |rs|
      invariant unique == Unique(rs[..i])
      invariant forall v: SemVer :: Key(v) in seen <==> Seen(rs[..i], v)
    {
      var r := rs[i];
      assert rs[..i + 1] == rs[..i] + [r];
      if Key(r.version) !in seen { unique := unique + [r]; }
      seen := seen + {Key(r.version)};
      forall v: SemVer ensures Key(v) in seen <==> Seen(rs[..i + 1], v) { SeenAppend(rs[..i], r, v); }
    }
    assert rs[..|rs|] == rs;
  }

  method ResolveDirectUpgrade(current: SemVer, releases: seq<Release>, channel: Option<Channel>)
    returns (plan: UpgradePlan)
    ensures plan == PlanFor(current, releases, channel)
  {
    hide Sorted, Unique, Compatible, Gt, ChannelOf;
    var user := if channel.Some? then channel.value else ChannelOf(current);
    var compatible: seq<Release> := [];
    for i := 0 to |releases|
      invariant compatible == Filter(releases[..i], user)
    {
      assert releases[..i + 1][..i] == releases[..i];
      if Compatible(releases[i], user) { compatible := compatible + [releases[i]]; }
    }
    assert releases[..|releases|] == releases;
    compatible := Sorted(compatible);

    var unique := EliminateDuplicates(compatible);
    var newer: seq<Release> := [];
    for i := 0 to |unique|
      invariant newer == Newer(unique[..i], current)
    {
      assert unique[..i + 1][..i] == unique[..i];
      if Gt(unique[i].version, current) { newer := newer + [unique[i]]; }
    }
    assert unique[..|unique|] == unique;

    var latest := if unique != [] then unique[|unique| - 1].version else current;
    if newer == [] { return UpgradePlan(current, None, user, unique, latest); }
    var highest := newer[|newer| - 1];
    return UpgradePlan(current, Some(highest), user, unique, highest.version);
  }

  // ---------------------------------------------------------------- filtering and sorting

  predicate AllParsed(rs: seq<Release>) { forall i :: 0 <= i < |rs| ==> SemanticVersions.WellFormed(rs[i].version) }

  lemma {:induction false} FilterKeeps(rs: seq<Release>, user: Channel, r: Release)
    ensures r in Filter(rs, user) <==> r in rs && Compatible(r, user)
  {
    if rs != [] {
      FilterKeeps(rs[..|rs| - 1], user, r);
      assert rs == rs[..|rs| - 1] + [rs[|rs| - 1]];
    }
  }

  lemma {:induction false} InsertAdds(sorted: seq<Release>, r: Release)
    ensures multiset(Insert(sorted, r)) == multiset(sorted) + multiset{r}
  {
    if sorted != [] && Lt(r.version, sorted[|sorted| - 1].version) {
      InsertAdds(sorted[..|sorted| - 1], r);
      assert sorted == sorted[..|sorted| - 1] + [sorted[|sorted| - 1]];
    }
  }

  lemma {:induction false} SortedPermutes(rs: seq<Release>)
    ensures multiset(Sorted(rs)) == multiset(rs)
  {
    if rs != [] {
      SortedPermutes(rs[..|rs| - 1]);
      InsertAdds(Sorted(rs[..|rs| - 1]), rs[|rs| - 1]);
      assert rs == rs[..|rs| - 1] + [rs[|rs| - 1]];
    }
  }

  predicate Ascending(rs: seq<Release>) {
    forall i, j :: 0 <= i < j < |rs| ==> !Lt(rs[j].version, rs[i].version)
  }

  predicate StrictlyAscending(rs: seq<Release>) {
    forall i, j :: 0 <= i < j < |rs| ==> Lt(rs[i].version, rs[j].version)
  }

  lemma NotLtTransitive(a: SemVer, b: SemVer, c: SemVer)
    requires SemanticVersions.WellFormed(a) && SemanticVersions.WellFormed(b) && SemanticVersions.WellFormed(c)
    requires !Lt(b, a) && !Lt(c, b)
    ensures !Lt(c, a)
  {
    Trichotomy(a, b);
    Trichotomy(b, c);
    if Lt(c, a) {
      if Lt(a, b) { LtTransitive(c, a, b); } else { LtRespectsEq(a, b, c); }
    }
  }

  lemma {:induction false} InsertParsed(sorted: seq<Release>, r: Release)
    requires AllParsed(sorted) && SemanticVersions.WellFormed(r.version)
    ensures AllParsed(Insert(sorted, r))
  {
    if sorted != [] && Lt(r.version, sorted[|sorted| - 1].version) { InsertParsed(sorted[..|sorted| - 1], r); }
  }

  lemma {:induction false} InsertAscending(sorted: seq<Release>, r: Release)
    requires AllParsed(sorted) && SemanticVersions.WellFormed(r.version) && Ascending(sorted)
    ensures Ascending(Insert(sorted, r))
  {
    if sorted == [] {
    } else if Lt(r.version, sorted[|sorted| - 1].version) {
      var front, last := sorted[..|sorted| - 1], sorted[|sorted| - 1];
      InsertAscending(front, r);
      InsertAdds(front, r);
      var s := Insert(front, r);
      forall i | 0 <= i < |s| ensures !Lt(last.version, s[i].version) {
        assert s[i] in multiset(s);
        assert s[i] in front || s[i] == r;
        if s[i] == r { Trichotomy(r.version, last.version); }
      }
    } else {
      forall i | 0 <= i < |sorted| ensures !Lt(r.version, sorted[i].version) {
        if i < |sorted| - 1 { NotLtTransitive(sorted[i].version, sorted[|sorted| - 1].version, r.version); }
      }
    }
  }

  lemma {:induction false} SortedAscending(rs: seq<Release>)
    requires AllParsed(rs)
    ensures AllParsed(Sorted(rs)) && Ascending(Sorted(rs))
  {
    if rs != [] {
      SortedAscending(rs[..|rs| - 1]);
      InsertParsed(Sorted(rs[..|rs| - 1]), rs[|rs| - 1]);
      InsertAscending(Sorted(rs[..|rs| - 1]), rs[|rs| - 1]);
    }
  }

  // Stability: the releases of one version keep their order.

  function OfVersion(rs: seq<Release>, v: SemVer): seq<Release> {
    if rs == [] then []
    else OfVersion(rs[..|rs| - 1], v) + if Key(rs[|rs| - 1].version) == Key(v) then [rs[|rs| - 1]] else []
  }

  /** r comes first among the releases of its version. */
  predicate Earliest(rs: seq<Release>, r: Release) {
    OfVersion(rs, r.version) != [] && OfVersion(rs, r.version)[0] == r
  }

  lemma {:induction false} InsertStable(sorted: seq<Release>, r: Release, v: SemVer)
    ensures OfVersion(Insert(sorted, r), v) == OfVersion(sorted + [r], v)
  {
    assert (sorted + [r])[..|sorted|] == sorted;
    if sorted != [] && Lt(r.version, sorted[|sorted| - 1].version) {
      var front, last := sorted[..|sorted| - 1], sorted[|sorted| - 1];
      InsertStable(front, r, v);
      assert (front + [r])[..|front|] == front;
      assert Insert(sorted, r)[..|sorted|] == Insert(front, r);
      if Key(r.version) == Key(v) && Key(last.version) == Key(v) { LtIrreflexive(r.version, last.version); }
    }
  }

  lemma {:induction false} SortedStable(rs: seq<Release>, v: SemVer)
    ensures OfVersion(Sorted(rs), v) == OfVersion(rs, v)
  {
    if rs != [] {
      var front, last := rs[..|rs| - 1], rs[|rs| - 1];
      SortedStable(front, v);
      InsertStable(Sorted(front), last, v);
      assert (Sorted(front) + [last])[..|front|] == Sorted(front);
    }
  }

  // ---------------------------------------------------------------- the candidate list

  lemma {:induction false} UniqueKeepsFirst(rs: seq<Release>, r: Release)
    ensures r in Unique(rs) ==> Earliest(rs, r)
  {
    if rs != [] {
      var front, last := rs[..|rs| - 1], rs[|rs| - 1];
      UniqueKeepsFirst(front, r);
      if r == last && !Seen(front, last.version) { OfVersionEmpty(front, last.version); }
    }
  }

  lemma {:induction false} OfVersionEmpty(rs: seq<Release>, v: SemVer)
    ensures OfVersion(rs, v) == [] <==> !Seen(rs, v)
  {
    if rs != [] {
      var front, last := rs[..|rs| - 1], rs[|rs| - 1];
      OfVersionEmpty(front, v);
      if Seen(front, v) {
        var i :| 0 <= i < |front| && Key(front[i].version) == Key(v);
        assert Key(rs[i].version) == Key(v);
      }
      if i :| 0 <= i < |rs| && Key(rs[i].version) == Key(v) {
        if i < |front| { assert Key(front[i].version) == Key(v); }
      }
    }
  }

  lemma {:induction false} UniqueMembers(rs: seq<Release>, r: Release)
    ensures r in Unique(rs) ==> r in rs
    ensures Seen(Unique(rs), r.version) <==> Seen(rs, r.version)
  {
    if rs != [] {
      var front, last := rs[..|rs| - 1], rs[|rs| - 1];
      UniqueMembers(front, r);
      assert rs == front + [last];
      SeenAppend(front, last, r.version);
      SeenAppend(Unique(front), last, r.version);
    }
  }

  lemma SeenNothing()
    ensures forall v: SemVer :: !Seen([], v)
  {
  }

  lemma SeenAppend(rs: seq<Release>, last: Release, v: SemVer)
    ensures Seen(rs + [last], v) <==> Seen(rs, v) || Key(last.version) == Key(v)
  {
    if i :| 0 <= i < |rs| && Key(rs[i].version) == Key(v) { assert Key((rs + [last])[i].version) == Key(v); }
    if Key(last.version) == Key(v) { assert Key((rs + [last])[|rs|].version) == Key(v); }
    if i :| 0 <= i < |rs + [last]| && Key((rs + [last])[i].version) == Key(v) {
      if i < |rs| { assert Key(rs[i].version) == Key(v); }
    }
  }

  lemma {:induction false} UniqueStrict(rs: seq<Release>)
    requires AllParsed(rs) && Ascending(rs)
    ensures StrictlyAscending(Unique(rs))
  {
    if rs != [] {
      var front, last := rs[..|rs| - 1], rs[|rs| - 1];
      UniqueStrict(front);
      var u := Unique(front);
      if !Seen(front, last.version) {
        forall i | 0 <= i < |u| ensures Lt(u[i].version, last.version) {
          UniqueMembers(front, u[i]);
          var k :| 0 <= k < |front| && front[k] == u[i];
          assert !Lt(last.version, rs[k].version) && Key(front[k].version) != Key(last.version);
          Trichotomy(u[i].version, last.version);
        }
      }
    }
  }

  lemma {:induction false} FilterParsed(rs: seq<Release>, user: Channel)
    requires AllParsed(rs)
    ensures AllParsed(Filter(rs, user))
  {
    if rs != [] { FilterParsed(rs[..|rs| - 1], user); }
  }

  /**
   The candidates are strictly ascending, cover exactly the versions the channel allows, and each is the
   earliest listed release of its version.
   */
  lemma CandidatesExact(releases: seq<Release>, user: Channel)
    requires AllParsed(releases)
    ensures StrictlyAscending(Candidates(releases, user))
    ensures forall r :: r in Candidates(releases, user) ==>
              r in releases && Compatible(r, user) && Earliest(Filter(releases, user), r)
    ensures forall r :: r in releases && Compatible(r, user) ==> Seen(Candidates(releases, user), r.version)
  {
    hide Filter, Sorted, Unique, OfVersion, Compatible, Lt;
    var compatible := Filter(releases, user);
    var sorted := Sorted(compatible);
    FilterParsed(releases, user);
    SortedAscending(compatible);
    SortedPermutes(compatible);
    UniqueStrict(sorted);
    forall r | r in Candidates(releases, user)
      ensures r in releases && Compatible(r, user) && Earliest(compatible, r)
    {
      UniqueMembers(sorted, r);
      assert r in multiset(sorted);
      FilterKeeps(releases, user, r);
      UniqueKeepsFirst(sorted, r);
      SortedStable(compatible, r.version);
    }
    forall r | r in releases && Compatible(r, user) ensures Seen(Candidates(releases, user), r.version) {
      FilterKeeps(releases, user, r);
      assert r in multiset(sorted);
      UniqueMembers(sorted, r);
    }
  }

  // ---------------------------------------------------------------- the target

  lemma {:induction false} NewerKeeps(rs: seq<Release>, v: SemVer)
    ensures forall r :: r in Newer(rs, v) <==> r in rs && Gt(r.version, v)
    ensures Newer(rs, v) != [] && StrictlyAscending(rs) ==>
              forall r :: r in rs && Gt(r.version, v) ==>
                r == Newer(rs, v)[|Newer(rs, v)| - 1] || Lt(r.version, Newer(rs, v)[|Newer(rs, v)| - 1].version)
  {
    hide Lt, Gt;
    if rs != [] {
      var front, last := rs[..|rs| - 1], rs[|rs| - 1];
      NewerKeeps(front, v);
      assert rs == front + [last];
    }
  }

  /** A compatible release newer than v. */
  predicate Offers(r: Release, user: Channel, v: SemVer) { Compatible(r, user) && Lt(v, r.version) }

  /**
   There is a target exactly when an allowed release is newer than the current version, and then the target
   is such a release and no allowed release is newer than it.
   */
  lemma TargetIsGreatest(current: SemVer, releases: seq<Release>, channel: Option<Channel>)
    requires AllParsed(releases) && SemanticVersions.WellFormed(current)
    ensures var plan := PlanFor(current, releases, channel);
            && (plan.target.Some? <==> exists r :: r in releases && Offers(r, plan.channel, current))
            && (plan.target.Some? ==>
                  && plan.target.value in releases && Offers(plan.target.value, plan.channel, current)
                  && forall r :: r in releases ==> !Offers(r, plan.channel, plan.target.value.version))
  {
    var plan := PlanFor(current, releases, channel);
    var all := plan.allReleases;
    CandidatesExact(releases, plan.channel);
    NewerKeeps(all, current);
    forall r | r in all ensures Gt(r.version, current) <==> Lt(current, r.version) {
      assert r in releases;
      DerivedComparisons(r.version, current);
    }
    forall r | r in releases && Offers(r, plan.channel, current) ensures plan.target.Some? {
      var u := Representative(all, r);
      LtRespectsEq(r.version, u.version, current);
    }
    if plan.target.Some? {
      var t := plan.target.value;
      assert t in Newer(all, current);
      forall r | r in releases ensures !Offers(r, plan.channel, t.version) {
        if Offers(r, plan.channel, t.version) {
          LtTransitive(current, t.version, r.version);
          var u := Representative(all, r);
          LtRespectsEq(r.version, u.version, current);
          LtRespectsEq(r.version, u.version, t.version);
          assert u == t || Lt(u.version, t.version);
          Trichotomy(u.version, t.version);
        }
      }
    }
  }

  lemma Representative(all: seq<Release>, r: Release) returns (u: Release)
    requires Seen(all, r.version)
    ensures u in all && Eq(u.version, r.version)
  {
    var i :| 0 <= i < |all| && Key(all[i].version) == Key(r.version);
    u := all[i];
  }

  /** What the target's own channel allows, the channel it was chosen in allows too. */
  lemma ChannelNarrows(x: Channel, target: Channel, user: Channel)
    ensures Allowed(target, user) && Allowed(x, target) ==> Allowed(x, user)
  {
  }

  /** One hop: resolving again from the target, in the same channel or in its own, finds no update. */
  lemma OneHop(current: SemVer, releases: seq<Release>, channel: Option<Channel>, again: Option<Channel>)
    requires AllParsed(releases) && SemanticVersions.WellFormed(current)
    requires PlanFor(current, releases, channel).target.Some?
    requires again == None || again == Some(PlanFor(current, releases, channel).channel)
    ensures PlanFor(PlanFor(current, releases, channel).target.value.version, releases, again).target == None
  {
    var plan := PlanFor(current, releases, channel);
    var t := plan.target.value;
    TargetIsGreatest(current, releases, channel);
    var i :| 0 <= i < |releases| && releases[i] == t;
    TargetIsGreatest(t.version, releases, again);
    var next := PlanFor(t.version, releases, again);
    hide Lt, ChannelOf, Allowed;
    forall r | r in releases ensures !Offers(r, next.channel, t.version) {
      ChannelNarrows(ChannelOf(r.version), ChannelOf(t.version), plan.channel);
    }
  }
}
