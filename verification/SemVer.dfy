/** Semantic versions: parsing, formatting and precedence. */
module SemanticVersions {
  import opened Text
  import opened Decimals

  datatype SemVer = SemVer(major: nat, minor: nat, patch: nat, prerelease: Option<string>, build: Option<string>)

  // ---------------------------------------------------------------- grammar

  predicate IsIdentifierChar(c: char) { IsLetter(c) || IsDigit(c) || c == '-' }

  predicate IsBuildIdentifier(s: string) { s != [] && forall i :: 0 <= i < |s| ==> IsIdentifierChar(s[i]) }

  /** Numeric identifiers have no leading zeros. */
  predicate IsPrereleaseIdentifier(s: string) { IsBuildIdentifier(s) && (AllDigits(s) ==> Canonical(s)) }

  predicate IsPrerelease(s: string) {
    forall i :: 0 <= i < |Split(s, '.')| ==> IsPrereleaseIdentifier(Split(s, '.')[i])
  }

  predicate IsBuild(s: string) { forall i :: 0 <= i < |Split(s, '.')| ==> IsBuildIdentifier(Split(s, '.')[i]) }

  predicate WellFormed(v: SemVer) {
    (v.prerelease.Some? ==> IsPrerelease(v.prerelease.value)) && (v.build.Some? ==> IsBuild(v.build.value))
  }

  predicate AlphabeticChar(c: char) { 'a' <= c <= 'z' || 'A' <= c <= 'Z' || c == '-' }

  predicate AlphanumericChar(c: char) { AlphabeticChar(c) || '0' <= c <= '9' }

  /**
   The two kinds of pre-release identifiers: a number without leading zero, or a text with a letter or hyphen among
   letters, digits and hyphens. A build identifier is any such text, a number included.
   */
  lemma IdentifiersExactly(s: string)
    ensures IsBuildIdentifier(s) <==> s != "" && forall i :: 0 <= i < |s| ==> AlphanumericChar(s[i])
    ensures IsPrereleaseIdentifier(s) <==>
              || s == "0"
              || (s != "" && '1' <= s[0] <= '9' && forall i :: 0 <= i < |s| ==> '0' <= s[i] <= '9')
              || ((forall i :: 0 <= i < |s| ==> AlphanumericChar(s[i]))
                  && exists i :: 0 <= i < |s| && AlphabeticChar(s[i]))
  {
    forall c: char ensures IsIdentifierChar(c) <==> AlphanumericChar(c) {}
    if AllDigits(s) && s != "" && s[0] == '0' && |s| == 1 { assert s == "0"; }
  }

  function Prefixed(c: char, s: Option<string>): string {
    match s
    case Some(text) => [c] + text
    case None => ""
  }

  function Core(v: SemVer): string { Show(v.major) + "." + Show(v.minor) + "." + Show(v.patch) }

  function Format(v: SemVer): string { Core(v) + Prefixed('-', v.prerelease) + Prefixed('+', v.build) }

  // ---------------------------------------------------------------- parsing

  predicate IsCoreChar(c: char) { IsDigit(c) || c == '.' }

  predicate NotPlus(c: char) { c != '+' }

  function DropV(s: string): string { if s != [] && s[0] == 'v' then s[1..] else s }

  function ParseCore(s: string): Option<(nat, nat, nat)> {
    var parts := Split(s, '.');
    if |parts| == 3 && Canonical(parts[0]) && Canonical(parts[1]) && Canonical(parts[2]) then
      Some((Value(parts[0]), Value(parts[1]), Value(parts[2])))
    else None
  }

  /** A rest of the form c text, with text valid, or nothing at all. */
  function ParseSuffix(c: char, valid: string -> bool, s: string): Option<Option<string>> {
    if s == [] then Some(None)
    else if s[0] == c && valid(s[1..]) then Some(Some(s[1..]))
    else None
  }

  function Parse(s: string): Option<SemVer> {
    var clean := DropV(Trim(s));
    var n := SpanLength(IsCoreChar, clean);
    var rest := clean[n..];
    var m := SpanLength(NotPlus, rest);
    match (ParseCore(clean[..n]),
           ParseSuffix('-', IsPrerelease, rest[..m]),
           ParseSuffix('+', IsBuild, rest[m..]))
    case (Some(core), Some(prerelease), Some(build)) => Some(SemVer(core.0, core.1, core.2, prerelease, build))
    case _ => None
  }

  lemma JoinThree(x: string, y: string, z: string)
    ensures Join([x, y, z], '.') == x + "." + y + "." + z
  {
    assert [x, y, z][1..] == [y, z] && [y, z][1..] == [z];
    assert Join([y, z], '.') == y + "." + z;
    assert Join([x, y, z], '.') == x + "." + (y + "." + z);
    assert x + "." + (y + "." + z) == x + "." + y + "." + z;
  }

  lemma {:induction false} CoreText(v: SemVer)
    ensures ParseCore(Core(v)) == Some((v.major, v.minor, v.patch))
    ensures forall i :: 0 <= i < |Core(v)| ==> IsCoreChar(Core(v)[i])
    ensures Core(v)[0] != 'v'
  {
    hide Show, Value, Split;
    JoinThree(Show(v.major), Show(v.minor), Show(v.patch));
    SplitJoin([Show(v.major), Show(v.minor), Show(v.patch)], '.');
  }

  lemma {:induction false} CoreOfText(s: string, core: (nat, nat, nat))
    requires ParseCore(s) == Some(core)
    ensures Show(core.0) + "." + Show(core.1) + "." + Show(core.2) == s
  {
    hide Show, Value, Split;
    var parts := Split(s, '.');
    ShowValue(parts[0]);
    ShowValue(parts[1]);
    ShowValue(parts[2]);
    JoinSplit(s, '.');
    JoinThree(parts[0], parts[1], parts[2]);
    assert parts == [parts[0], parts[1], parts[2]];
  }

  /** Identifiers joined by dots contain no plus sign. */
  lemma {:induction false} PrereleaseHasNoPlus(s: string, i: nat)
    requires IsPrerelease(s) && i < |s|
    ensures s[i] != '+'
  {
    hide Split;
    JoinSplit(s, '.');
    JoinChars(Split(s, '.'), i);
  }

  lemma {:induction false} JoinChars(parts: seq<string>, i: nat)
    requires parts != [] && (forall k :: 0 <= k < |parts| ==> IsBuildIdentifier(parts[k])) && i < |Join(parts, '.')|
    ensures IsIdentifierChar(Join(parts, '.')[i]) || Join(parts, '.')[i] == '.'
  {
    if |parts| > 1 && i > |parts[0]| {
      JoinChars(parts[1..], i - |parts[0]| - 1);
    }
  }

  lemma {:induction false} SuffixOfText(c: char, valid: string -> bool, text: Option<string>)
    requires text.Some? ==> valid(text.value)
    ensures ParseSuffix(c, valid, Prefixed(c, text)) == Some(text)
  {
    if text.Some? {
      assert Prefixed(c, text)[1..] == text.value;
    }
  }

  /** The three parts of a formatted version are found at their ends. */
  lemma PartsFound(v: SemVer)
    requires WellFormed(v)
    ensures var core, pre, build := Core(v), Prefixed('-', v.prerelease), Prefixed('+', v.build);
            && Format(v) == core + (pre + build)
            && SpanLength(IsCoreChar, Format(v)) == |core|
            && SpanLength(NotPlus, pre + build) == |pre|
  {
    hide Show, Split, IsPrerelease, IsBuild, Core;
    var core, pre, build := Core(v), Prefixed('-', v.prerelease), Prefixed('+', v.build);
    CoreText(v);
    assert Format(v) == core + (pre + build);
    SpanLengthUnique(IsCoreChar, Format(v), |core|);
    forall i | 0 <= i < |pre| ensures NotPlus(pre[i]) {
      if i > 0 { PrereleaseHasNoPlus(v.prerelease.value, i - 1); }
    }
    SpanLengthUnique(NotPlus, pre + build, |pre|);
  }

  lemma {:induction false} ParseOfFormat(v: SemVer, s: string)
    requires WellFormed(v) && DropV(Trim(s)) == Format(v)
    ensures Parse(s) == Some(v)
  {
    hide Show, Split, IsPrerelease, IsBuild, Trim, ParseSuffix, ParseCore, Core, DropV, Format, SpanLength, Prefixed;
    var clean, core := Format(v), Core(v);
    var pre, build := Prefixed('-', v.prerelease), Prefixed('+', v.build);
    CoreText(v);
    PartsFound(v);
    assert clean[..|core|] == core && clean[|core|..] == pre + build;
    assert (pre + build)[..|pre|] == pre && (pre + build)[|pre|..] == build;
    SuffixOfText('-', IsPrerelease, v.prerelease);
    SuffixOfText('+', IsBuild, v.build);
  }

  lemma {:induction false} FormatOfParse(s: string)
    requires Parse(s).Some?
    ensures WellFormed(Parse(s).value) && Format(Parse(s).value) == DropV(Trim(s))
  {
    hide Show, Split, IsPrerelease, IsBuild, Trim, ParseCore;
    var clean := DropV(Trim(s));
    var n := SpanLength(IsCoreChar, clean);
    var rest := clean[n..];
    var m := SpanLength(NotPlus, rest);
    var v := Parse(s).value;
    CoreOfText(clean[..n], ParseCore(clean[..n]).value);
    assert Core(v) == clean[..n];
    assert Prefixed('-', v.prerelease) == rest[..m];
    assert Prefixed('+', v.build) == rest[m..];
    assert clean == clean[..n] + rest[..m] + rest[m..];
  }

  /**
   Parsing accepts exactly the formatted texts of well-formed versions, up to outer blanks and one leading v,
   and returns that version with its pre-release and build metadata.
   */
  lemma ParsesExactly(s: string, v: SemVer)
    ensures Parse(s) == Some(v) <==> WellFormed(v) && Format(v) == DropV(Trim(s))
  {
    hide Parse, Format, WellFormed;
    if Parse(s) == Some(v) { FormatOfParse(s); }
    if WellFormed(v) && Format(v) == DropV(Trim(s)) { ParseOfFormat(v, s); }
  }

  /** But for outer blanks, the accepted texts are the formatted one and the formatted one behind one letter v. */
  lemma TextsOfVersion(s: string, v: SemVer)
    ensures Parse(s) == Some(v) <==> WellFormed(v) && (Trim(s) == Format(v) || Trim(s) == "v" + Format(v))
  {
    hide Parse, Core, WellFormed;
    ParsesExactly(s, v);
    CoreText(v);
    assert Format(v)[0] == Core(v)[0];
    assert ("v" + Format(v))[1..] == Format(v);
    if Trim(s) != [] && Trim(s)[0] == 'v' { assert Trim(s) == "v" + Trim(s)[1..]; }
  }

  /** Printing and reading back any well-formed version gives the same version, build metadata included. */
  lemma FormatThenParse(v: SemVer)
    requires WellFormed(v)
    ensures Parse(Format(v)) == Some(v)
  {
    hide Parse;
    FormatIsClean(v);
    ParseOfFormat(v, Format(v));
  }

  lemma {:induction false} FormatIsClean(v: SemVer)
    requires WellFormed(v)
    ensures DropV(Trim(Format(v))) == Format(v)
  {
    hide Show, Split, IsPrerelease, IsBuild;
    var s, core := Format(v), Core(v);
    CoreText(v);
    assert s[0] == core[0] && !IsSpace(s[0]);
    var last := s[|s| - 1];
    assert !IsSpace(last) by {
      if v.build.Some? {
        BuildEnd(v.build.value);
      } else if v.prerelease.Some? {
        PrereleaseEnd(v.prerelease.value);
      } else {
        assert s == core && IsCoreChar(core[|core| - 1]);
      }
    }
  }

  lemma {:induction false} BuildEnd(s: string)
    requires IsBuild(s)
    ensures s != [] && !IsSpace(s[|s| - 1])
  {
    JoinSplit(s, '.');
    assert IsBuildIdentifier(Split(s, '.')[0]);
    JoinChars(Split(s, '.'), |s| - 1);
  }

  lemma {:induction false} PrereleaseEnd(s: string)
    requires IsPrerelease(s)
    ensures s != [] && !IsSpace(s[|s| - 1])
  {
    JoinSplit(s, '.');
    assert IsPrereleaseIdentifier(Split(s, '.')[0]);
    JoinChars(Split(s, '.'), |s| - 1);
  }
}
