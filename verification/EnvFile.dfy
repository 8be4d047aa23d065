/** The .env file of an installation: lines that are replaced in place, appended, or left alone. */
module EnvFile {
  import opened Text

  // ---------------------------------------------------------------- lines

  predicate IsBlank(c: char) { '\t' <= c <= '\r' || c == ' ' }

  function TrimFront(s: string): string { if s != [] && IsBlank(s[0]) then TrimFront(s[1..]) else s }

  function TrimBack(s: string): string { if s != [] && IsBlank(s[|s| - 1]) then TrimBack(s[..|s| - 1]) else s }

  function TrimSpace(s: string): string { TrimBack(TrimFront(s)) }

  predicate AllBlank(s: string) { forall i :: 0 <= i < |s| ==> IsBlank(s[i]) }

  lemma BlankCodes(c: char)
    ensures IsBlank(c) <==> c as int in {9, 10, 11, 12, 13, 32}
  {
  }

  lemma {:induction false} TrimBackPart(s: string) returns (back: string)
    ensures s == TrimBack(s) + back && AllBlank(back)
    ensures TrimBack(s) != "" ==> !IsBlank(TrimBack(s)[|TrimBack(s)| - 1]) && TrimBack(s)[0] == s[0]
  {
    back := "";
    if s != [] && IsBlank(s[|s| - 1]) {
      var less := TrimBackPart(s[..|s| - 1]);
      back := less + [s[|s| - 1]];
    }
  }

  lemma {:induction false} TrimFrontPart(s: string) returns (front: string)
    ensures s == front + TrimFront(s) && AllBlank(front) && (TrimFront(s) != "" ==> !IsBlank(TrimFront(s)[0]))
  {
    front := "";
    if s != [] && IsBlank(s[0]) {
      var less := TrimFrontPart(s[1..]);
      front := [s[0]] + less;
    }
  }

  /** Between blanks that are removed stands a text that neither begins nor ends with one. */
  lemma TrimSpaceParts(s: string) returns (front: string, back: string)
    ensures s == front + TrimSpace(s) + back && AllBlank(front) && AllBlank(back)
    ensures TrimSpace(s) != "" ==> !IsBlank(TrimSpace(s)[0]) && !IsBlank(TrimSpace(s)[|TrimSpace(s)| - 1])
  {
    front := TrimFrontPart(s);
    back := TrimBackPart(TrimFront(s));
  }

  /** One setting: the start of its line, its value, and whether it is added when no line has it. */
  datatype Setting = Setting(prefix: string, value: string, add: bool) {
    function Line(): string { prefix + value }
  }

  const IMAGE := "ALTR_STREAM_IMAGE="
  const CONTAINER_NAME := "ALTR_STREAM_CONTAINER_NAME="
  const DATA_VOLUME := "ALTR_STREAM_DATA_VOLUME="
  const ENVIRONMENT := "ALTR_STREAM_ENVIRONMENT="

  const DEFAULT_CONTAINER := "altr-stream"
  const DEFAULT_VOLUME := "altr_stream_data"

  /** The four settings that an installation keeps in the file. */
  function Settings(image: string, container: string, volume: string, environment: string): seq<Setting> {
    [Setting(IMAGE, image, image != ""),
     Setting(CONTAINER_NAME, container, container != "" && container != DEFAULT_CONTAINER),
     Setting(DATA_VOLUME, volume, volume != "" && volume != DEFAULT_VOLUME),
     Setting(ENVIRONMENT, environment, environment != "production")]
  }

  predicate Has(line: string, prefix: string) { prefix <= TrimSpace(line) }

  /** A line after the update. */
  function Updated(line: string, settings: seq<Setting>): string {
    if settings == [] then line
    else if Has(line, settings[0].prefix) then settings[0].Line()
    else Updated(line, settings[1..])
  }

  function UpdatedAll(lines: seq<string>, settings: seq<Setting>): (r: seq<string>)
    ensures |r| == |lines|
    ensures forall i :: 0 <= i < |lines| ==> r[i] == Updated(lines[i], settings)
  {
    if lines == [] then [] else [Updated(lines[0], settings)] + UpdatedAll(lines[1..], settings)
  }

  predicate Mentions(lines: seq<string>, prefix: string) { exists i :: 0 <= i < |lines| && Has(lines[i], prefix) }

  function Added(lines: seq<string>, settings: seq<Setting>): seq<string> {
    if settings == [] then []
    else
      var s := settings[0];
      (if !Mentions(lines, s.prefix) && s.add then [s.Line()] else []) + Added(lines, settings[1..])
  }

  function NewLines(lines: seq<string>, settings: seq<Setting>): seq<string> {
    UpdatedAll(lines, settings) + Added(lines, settings)
  }

  function NewContent(content: string, settings: seq<Setting>): string {
    var lines := NewLines(Split(content, '\n'), settings);
    if lines == [] then "" else Join(lines, '\n')
  }

  /** No line can start with both. */
  predicate Apart(a: string, b: string) { !(a <= b) && !(b <= a) }

  predicate Exclusive(settings: seq<Setting>) {
    forall i, j :: 0 <= i < j < |settings| ==> Apart(settings[i].prefix, settings[j].prefix)
  }

  lemma PrefixesCompare(a: string, b: string, s: string)
    requires a <= s && b <= s
    ensures a <= b || b <= a
  {
    if |a| <= |b| { assert a == s[..|a|] == b[..|a|]; } else { assert b == s[..|b|] == a[..|b|]; }
  }

  // ---------------------------------------------------------------- the update in place

  lemma MentionsMore(lines: seq<string>, i: nat, prefix: string)
    requires i < |lines|
    ensures Mentions(lines[..i + 1], prefix) <==> Mentions(lines[..i], prefix) || Has(lines[i], prefix)
  {
    hide Has;
    assert lines[..i + 1] == lines[..i] + [lines[i]];
  }

  /** The only setting that a line has, or their number if it has none. */
  method FindSetting(line: string, settings: seq<Setting>) returns (hit: nat)
    requires Exclusive(settings)
    ensures hit <= |settings|
    ensures forall j :: 0 <= j < |settings| ==> (Has(line, settings[j].prefix) <==> j == hit)
    ensures Updated(line, settings) == if hit < |settings| then settings[hit].Line() else line
  {
    hit := 0;
    while hit < |settings| && !Has(line, settings[hit].prefix)
      invariant hit <= |settings|
      invariant forall j :: 0 <= j < hit ==> !Has(line, settings[j].prefix)
      invariant Updated(line, settings) == Updated(line, settings[hit..])
    {
      assert settings[hit..][1..] == settings[hit + 1..];
      hit := hit + 1;
    }
    if hit < |settings| {
      forall j | hit < j < |settings| ensures !Has(line, settings[j].prefix) {
        if Has(line, settings[j].prefix) { PrefixesCompare(settings[hit].prefix, settings[j].prefix, TrimSpace(line)); }
      }
    }
  }

  /** The lines of the file, edited in place, and which settings were found. */
  method EditLines(before: seq<string>, settings: seq<Setting>) returns (lines: array<string>, updated: array<bool>)
    requires Exclusive(settings)
    ensures fresh(lines) && fresh(updated) && updated.Length == |settings|
    ensures lines[..] == UpdatedAll(before, settings)
    ensures forall j :: 0 <= j < |settings| ==> (updated[j] <==> Mentions(before, settings[j].prefix))
  {
    hide Has, Updated, Mentions, Exclusive;
    lines := new string[|before|](i requires 0 <= i < |before| => before[i]);
    updated := new bool[|settings|](_ => false);
    NoneMentioned(before, settings);
    for i := 0 to lines.Length
      invariant forall k :: 0 <= k < i ==> lines[k] == Updated(before[k], settings)
      invariant forall k :: i <= k < lines.Length ==> lines[k] == before[k]
      invariant forall j :: 0 <= j < |settings| ==> (updated[j] <==> Mentions(before[..i], settings[j].prefix))
    {
      var hit := FindSetting(before[i], settings);
      OneMore(before, i, settings, hit);
      if hit < |settings| {
        lines[i] := settings[hit].Line();
        updated[hit] := true;
      }
    }
    assert before[..lines.Length] == before;
  }

  lemma OneMore(lines: seq<string>, i: nat, settings: seq<Setting>, hit: nat)
    requires i < |lines| && forall j :: 0 <= j < |settings| ==> (Has(lines[i], settings[j].prefix) <==> j == hit)
    ensures forall j :: 0 <= j < |settings| ==>
              (Mentions(lines[..i + 1], settings[j].prefix) <==> Mentions(lines[..i], settings[j].prefix) || j == hit)
  {
    hide Has, Mentions;
    forall j | 0 <= j < |settings|
      ensures Mentions(lines[..i + 1], settings[j].prefix) <==> Mentions(lines[..i], settings[j].prefix) || j == hit
    {
      MentionsMore(lines, i, settings[j].prefix);
    }
  }

  /** The content with its lines edited and missing ones appended. */
  method UpdateContent(content: string, settings: seq<Setting>) returns (r: string)
    requires Exclusive(settings)
    ensures r == NewContent(content, settings)
  {
    hide Has, Updated, Mentions, Exclusive;
    var before := Split(content, '\n');
    var lines, updated := EditLines(before, settings);
    var all := lines[..];
    for j := 0 to |settings|
      invariant all != [] && all + Added(before, settings[j..]) == NewLines(before, settings)
    {
      assert settings[j..][1..] == settings[j + 1..];
      if !updated[j] && settings[j].add { all := all + [settings[j].Line()]; }
    }
    assert all + [] == all;
    r := Join(all, '\n');
  }

  lemma NoneMentioned(lines: seq<string>, settings: seq<Setting>)
    ensures forall j :: 0 <= j < |settings| ==> !Mentions(lines[..0], settings[j].prefix)
  {
  }

  // ---------------------------------------------------------------- what is read back

  /** What the first line with a setting says, or "" for none. */
  function ReadSetting(lines: seq<string>, prefix: string): string {
    if lines == [] then ""
    else if Has(lines[0], prefix) then TrimSpace(lines[0])[|prefix|..]
    else ReadSetting(lines[1..], prefix)
  }

  /** The image that a start of the container takes from the file. */
  function ImageIn(content: string): string { ReadSetting(Split(content, '\n'), IMAGE) }

  /** It stands behind the prefix in the first line that, trimmed, starts with it. */
  lemma {:induction false} SettingRead(lines: seq<string>, prefix: string, value: string, i: nat)
    requires i < |lines| && TrimSpace(lines[i]) == prefix + value
    requires forall k :: 0 <= k < i ==> !(prefix <= TrimSpace(lines[k]))
    ensures ReadSetting(lines, prefix) == value
  {
    if i > 0 { SettingRead(lines[1..], prefix, value, i - 1); }
  }

  /** Values that fit on one line and do not end in a blank. */
  predicate Plain(value: string) { '\n' !in value && (value == "" || !IsBlank(value[|value| - 1])) }

  predicate AllPlain(settings: seq<Setting>) {
    forall i :: 0 <= i < |settings| ==> Plain(settings[i].value) && Prefix(settings[i].prefix)
  }

  /** A setting's prefix begins and ends with a character that no trimming removes. */
  predicate Prefix(p: string) { p != "" && '\n' !in p && !IsBlank(p[0]) && !IsBlank(p[|p| - 1]) }

  lemma LineIsTrimmed(s: Setting)
    requires Plain(s.value) && Prefix(s.prefix)
    ensures TrimSpace(s.Line()) == s.Line() && Has(s.Line(), s.prefix) && '\n' !in s.Line()
  {
    var line := s.Line();
    assert TrimFront(line) == line;
    assert line[|line| - 1] == if s.value == "" then s.prefix[|s.prefix| - 1] else s.value[|s.value| - 1];
  }

  lemma ApartAt(a: string, b: string, k: nat)
    requires k < |a| && k < |b| && a[k] != b[k]
    ensures Apart(a, b)
  {
  }

  lemma SettingsAreExclusive(image: string, container: string, volume: string, environment: string)
    ensures Exclusive(Settings(image, container, volume, environment))
  {
    hide Apart;
    ApartAt(IMAGE, CONTAINER_NAME, 12);
    ApartAt(IMAGE, DATA_VOLUME, 12);
    ApartAt(IMAGE, ENVIRONMENT, 12);
    ApartAt(CONTAINER_NAME, DATA_VOLUME, 12);
    ApartAt(CONTAINER_NAME, ENVIRONMENT, 12);
    ApartAt(DATA_VOLUME, ENVIRONMENT, 12);
  }

  lemma PrefixesAreProper()
    ensures Prefix(IMAGE) && Prefix(CONTAINER_NAME) && Prefix(DATA_VOLUME) && Prefix(ENVIRONMENT)
  {
  }

  lemma SettingsArePlain(image: string, container: string, volume: string, environment: string)
    requires Plain(image) && Plain(container) && Plain(volume) && Plain(environment)
    ensures AllPlain(Settings(image, container, volume, environment))
  {
    hide Plain, Prefix;
    PrefixesAreProper();
  }

  predicate ApartFrom(prefix: string, settings: seq<Setting>) {
    forall i :: 0 <= i < |settings| ==> Apart(prefix, settings[i].prefix)
  }

  lemma OtherLine(s: Setting, prefix: string)
    requires Plain(s.value) && Prefix(s.prefix) && Apart(prefix, s.prefix)
    ensures !Has(s.Line(), prefix)
  {
    LineIsTrimmed(s);
    if Has(s.Line(), prefix) { PrefixesCompare(prefix, s.prefix, s.Line()); }
  }

  /** An update with other settings brings no line with this one about, and takes none away unless it overwrites it. */
  lemma {:induction false} OtherUpdate(line: string, settings: seq<Setting>, prefix: string)
    requires AllPlain(settings) && ApartFrom(prefix, settings)
    ensures Has(Updated(line, settings), prefix) ==> Updated(line, settings) == line
  {
    if settings != [] {
      if Has(line, settings[0].prefix) {
        OtherLine(settings[0], prefix);
      } else {
        OtherUpdate(line, settings[1..], prefix);
      }
    }
  }

  lemma TailApart(settings: seq<Setting>)
    requires Exclusive(settings) && AllPlain(settings) && settings != []
    ensures Exclusive(settings[1..]) && AllPlain(settings[1..]) && ApartFrom(settings[0].prefix, settings[1..])
  {
    hide Apart, Plain, Prefix;
    assert forall i :: 0 <= i < |settings[1..]| ==> settings[1..][i] == settings[i + 1];
  }

  /** A line has a setting after the update if and only if it had it before, and then with the new value. */
  lemma {:induction false} UpdatedRead(line: string, settings: seq<Setting>, k: nat)
    requires Exclusive(settings) && AllPlain(settings) && k < |settings|
    ensures var u, prefix := Updated(line, settings), settings[k].prefix;
            && (Has(u, prefix) <==> Has(line, prefix))
            && (Has(line, prefix) ==> TrimSpace(u)[|prefix|..] == settings[k].value)
  {
    hide AllPlain, Exclusive, Plain, Prefix;
    var s, prefix := settings[0], settings[k].prefix;
    TailApart(settings);
    AllPlainAt(settings, 0);
    if Has(line, s.prefix) {
      LineIsTrimmed(s);
      if k == 0 {
        assert s.Line()[|prefix|..] == s.value;
      } else {
        ApartAtFront(settings, k);
        if Has(line, prefix) { PrefixesCompare(s.prefix, prefix, TrimSpace(line)); }
        OtherLine(s, prefix);
      }
    } else if k == 0 {
      OtherUpdate(line, settings[1..], prefix);
    } else {
      UpdatedRead(line, settings[1..], k - 1);
    }
  }

  lemma ApartAtFront(settings: seq<Setting>, k: nat)
    requires Exclusive(settings) && 0 < k < |settings|
    ensures Apart(settings[0].prefix, settings[k].prefix) && Apart(settings[k].prefix, settings[0].prefix)
  {
  }

  lemma {:induction false} ReadUpdated(lines: seq<string>, rest: seq<string>, settings: seq<Setting>, k: nat)
    requires Exclusive(settings) && AllPlain(settings) && k < |settings|
    ensures ReadSetting(UpdatedAll(lines, settings) + rest, settings[k].prefix) ==
              if Mentions(lines, settings[k].prefix) then settings[k].value else ReadSetting(rest, settings[k].prefix)
  {
    hide Exclusive, AllPlain, Updated, Has;
    if lines == [] {
      assert UpdatedAll(lines, settings) + rest == rest;
    } else {
      var all := UpdatedAll(lines, settings) + rest;
      assert all[0] == Updated(lines[0], settings) && all[1..] == UpdatedAll(lines[1..], settings) + rest;
      ReadUpdated(lines[1..], rest, settings, k);
      UpdatedRead(lines[0], settings, k);
      assert lines == [lines[0]] + lines[1..];
    }
  }

  /** Lines that come from splitting and settings without newlines can be split again. */
  lemma {:induction false} AddedFits(lines: seq<string>, settings: seq<Setting>)
    requires AllPlain(settings)
    ensures forall i :: 0 <= i < |Added(lines, settings)| ==> '\n' !in Added(lines, settings)[i]
  {
    if settings != [] {
      LineIsTrimmed(settings[0]);
      AddedFits(lines, settings[1..]);
    }
  }

  lemma {:induction false} UpdatedFits(line: string, settings: seq<Setting>)
    requires AllPlain(settings) && '\n' !in line
    ensures '\n' !in Updated(line, settings)
  {
    if settings != [] {
      LineIsTrimmed(settings[0]);
      UpdatedFits(line, settings[1..]);
    }
  }

  /** The new content has the new lines. */
  lemma NewContentLines(content: string, settings: seq<Setting>)
    requires AllPlain(settings)
    ensures Split(NewContent(content, settings), '\n') == NewLines(Split(content, '\n'), settings)
  {
    hide AllPlain, Updated, Added;
    var lines := Split(content, '\n');
    JoinSplit(content, '\n');
    AddedFits(lines, settings);
    forall i | 0 <= i < |lines| ensures '\n' !in UpdatedAll(lines, settings)[i] { UpdatedFits(lines[i], settings); }
    SplitJoin(NewLines(lines, settings), '\n');
  }

  lemma {:induction false} OtherLineKept(line: string, settings: seq<Setting>)
    requires forall j :: 0 <= j < |settings| ==> !Has(line, settings[j].prefix)
    ensures Updated(line, settings) == line
  {
    hide Has;
    if settings != [] { OtherLineKept(line, settings[1..]); }
  }

  /** Every line that has none of the settings stays where it is. */
  lemma OtherLinesKept(content: string, settings: seq<Setting>, i: nat)
    requires AllPlain(settings) && i < |Split(content, '\n')|
    requires forall j :: 0 <= j < |settings| ==> !Has(Split(content, '\n')[i], settings[j].prefix)
    ensures var lines := Split(NewContent(content, settings), '\n');
            i < |lines| && lines[i] == Split(content, '\n')[i]
  {
    hide Has, AllPlain, Added;
    NewContentLines(content, settings);
    OtherLineKept(Split(content, '\n')[i], settings);
  }

  /** A setting is read back as it was written, whatever the file held before, unless it was not to be added. */
  lemma SettingReadBack(content: string, settings: seq<Setting>, k: nat)
    requires Exclusive(settings) && AllPlain(settings) && k < |settings|
    ensures ReadSetting(Split(NewContent(content, settings), '\n'), settings[k].prefix) ==
              if Mentions(Split(content, '\n'), settings[k].prefix) || settings[k].add then settings[k].value else ""
  {
    hide Exclusive, AllPlain, Updated;
    var lines := Split(content, '\n');
    NewContentLines(content, settings);
    ReadUpdated(lines, Added(lines, settings), settings, k);
    if !Mentions(lines, settings[k].prefix) { ReadAdded(lines, settings, k); }
  }

  /**
   The four settings that are written are read back from their own lines; a container, volume or environment is
   missing only if it is the default one, and the file did not mention it before.
   */
  lemma WrittenSettingsRead(content: string, image: string, container: string, volume: string, environment: string)
    requires Plain(image) && Plain(container) && Plain(volume) && Plain(environment)
    ensures var before := Split(content, '\n');
            var after := Split(NewContent(content, Settings(image, container, volume, environment)), '\n');
            && ReadSetting(after, "ALTR_STREAM_IMAGE=") == image
            && ReadSetting(after, "ALTR_STREAM_CONTAINER_NAME=") ==
                 (if container == "altr-stream" && !Mentions(before, CONTAINER_NAME) then "" else container)
            && ReadSetting(after, "ALTR_STREAM_DATA_VOLUME=") ==
                 (if volume == "altr_stream_data" && !Mentions(before, DATA_VOLUME) then "" else volume)
            && ReadSetting(after, "ALTR_STREAM_ENVIRONMENT=") ==
                 (if environment == "production" && !Mentions(before, ENVIRONMENT) then "" else environment)
  {
    hide Plain, Exclusive, AllPlain, NewContent, ReadSetting, Mentions;
    var settings := Settings(image, container, volume, environment);
    SettingsAreExclusive(image, container, volume, environment);
    SettingsArePlain(image, container, volume, environment);
    SettingReadBack(content, settings, 0);
    SettingReadBack(content, settings, 1);
    SettingReadBack(content, settings, 2);
    SettingReadBack(content, settings, 3);
  }

  /** So a start of the container reads back the image that was written. */
  lemma ImageReadBack(content: string, image: string, container: string, volume: string, environment: string)
    requires Plain(image) && Plain(container) && Plain(volume) && Plain(environment)
    ensures ImageIn(NewContent(content, Settings(image, container, volume, environment))) == image
  {
    hide NewContent, ReadSetting, Plain;
    WrittenSettingsRead(content, image, container, volume, environment);
  }

  lemma {:induction false} ReadAdded(lines: seq<string>, settings: seq<Setting>, k: nat)
    requires Exclusive(settings) && AllPlain(settings) && k < |settings| && !Mentions(lines, settings[k].prefix)
    ensures ReadSetting(Added(lines, settings), settings[k].prefix) ==
              if settings[k].add then settings[k].value else ""
  {
    hide Mentions, Exclusive, AllPlain, Has, Plain, Prefix;
    var s, rest := settings[0], Added(lines, settings[1..]);
    TailApart(settings);
    AllPlainAt(settings, 0);
    var head := if !Mentions(lines, s.prefix) && s.add then [s.Line()] else [];
    assert Added(lines, settings) == head + rest;
    if k == 0 {
      LineIsTrimmed(s);
      assert s.Line()[|s.prefix|..] == s.value;
      NothingRead(lines, settings[1..], s.prefix);
    } else {
      ApartAtFront(settings, k);
      OtherLine(s, settings[k].prefix);
      ReadAdded(lines, settings[1..], k - 1);
    }
    if head == [] { assert head + rest == rest; } else { assert (head + rest)[1..] == rest; }
  }

  lemma AllPlainAt(settings: seq<Setting>, i: nat)
    requires AllPlain(settings) && i < |settings|
    ensures Plain(settings[i].value) && Prefix(settings[i].prefix)
  {
  }

  lemma {:induction false} NothingRead(lines: seq<string>, settings: seq<Setting>, prefix: string)
    requires AllPlain(settings) && ApartFrom(prefix, settings)
    ensures ReadSetting(Added(lines, settings), prefix) == ""
  {
    hide Mentions, Plain, Prefix, Has;
    if settings != [] {
      var s := settings[0];
      NothingRead(lines, settings[1..], prefix);
      OtherLine(s, prefix);
      if !Mentions(lines, s.prefix) && s.add {
        assert Added(lines, settings)[1..] == Added(lines, settings[1..]);
      } else {
        assert [] + Added(lines, settings[1..]) == Added(lines, settings[1..]);
      }
    }
  }
}
