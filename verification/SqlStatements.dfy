/** What splitting a query text guarantees. */
module SqlStatements {
  import opened Text
  import opened SqlSplitter

  // ---------------------------------------------------------------- nothing is lost

  /** The segments, with their semicolons back in place, are the text. */
  lemma {:induction false} SegmentsRejoin(mode: Mode, s: string)
    requires Proper(mode)
    ensures Join(Segments(mode, s), ';') == s
    decreases |s|
  {
    if s == [] {
    } else if mode.Code? && s[0] == ';' {
      SegmentsRejoin(Code, s[1..]);
      assert Segments(mode, s)[1..] == Segments(Code, s[1..]);
      assert "" + [';'] + s[1..] == s;
    } else {
      var (width, next) := Step(mode, s);
      SegmentsRejoin(next, s[width..]);
      JoinPrepended(s[..width], Segments(next, s[width..]));
      assert s[..width] + s[width..] == s;
    }
  }

  lemma JoinPrepended(s: string, segments: seq<string>)
    requires segments != []
    ensures Join(Prepend(s, segments), ';') == s + Join(segments, ';')
  {
    assert Prepend(s, segments)[1..] == segments[1..];
    if |segments| > 1 {
      var rest := Join(segments[1..], ';');
      assert (s + segments[0]) + [';'] + rest == s + (segments[0] + [';'] + rest);
    }
  }

  /** The text is its first segment, then nothing or a semicolon. */
  lemma FirstSegmentStarts(mode: Mode, s: string) returns (rest: string)
    requires Proper(mode)
    ensures s == Segments(mode, s)[0] + rest
    ensures rest == "" || rest[0] == ';'
  {
    SegmentsRejoin(mode, s);
    var segments := Segments(mode, s);
    rest := if |segments| == 1 then "" else [';'] + Join(segments[1..], ';');
  }

  // ---------------------------------------------------------------- a segment is a segment on its own

  /** A character that never takes part in lookahead. */
  predicate Inert(c: char) { c == ';' || IsSpace(c) }

  lemma {:induction false} TagIsLocal(s: string, t: string)
    requires s != [] && t != [] && Inert(t[0])
    ensures DollarTag(s + t) == DollarTag(s)
  {
    if |s| >= 2 && s[0] == '$' {
      assert (s + t)[..2] == s[..2];
      if IsTagStart(s[1]) {
        var n := SpanEnd(IsWordChar, s, 1);
        SpanEndPrefix(IsWordChar, s, t, 1);
        if n < |s| { assert (s + t)[..n + 1] == s[..n + 1]; }
      }
    }
  }

  lemma {:induction false} SpanEndPrefix(p: char -> bool, s: string, t: string, i: nat)
    requires i <= |s| && t != [] && !p(t[0])
    ensures SpanEnd(p, s + t, i) == SpanEnd(p, s, i)
    decreases |s| - i
  {
    if i < |s| && p(s[i]) { SpanEndPrefix(p, s, t, i + 1); }
  }

  /** The tag of a dollar quote that can occur in a text: without inert characters. */
  predicate Clean(mode: Mode) {
    mode.DollarQuoted? ==> mode.tag != [] && forall k :: 0 <= k < |mode.tag| ==> !Inert(mode.tag[k])
  }

  lemma {:induction false} TagIsClean(s: string)
    requires DollarTag(s).Some?
    ensures Clean(DollarQuoted(DollarTag(s).value))
  {
  }

  lemma {:induction false} TagPrefixIsLocal(tag: string, s: string, t: string)
    requires t != [] && Inert(t[0]) && forall k :: 0 <= k < |tag| ==> !Inert(tag[k])
    ensures tag <= s + t <==> tag <= s
  {
    if |tag| > |s| {
      assert (s + t)[|s|] == t[0];
    } else {
      assert (s + t)[..|tag|] == s[..|tag|];
    }
  }

  /** What follows an inert character does not change a step. */
  lemma {:induction false} StepIsLocal(mode: Mode, s: string, t: string)
    requires s != [] && t != [] && Inert(t[0]) && Clean(mode)
    ensures Step(mode, s + t) == Step(mode, s) && Clean(Step(mode, s).1)
  {
    hide DollarTag;
    TagIsLocal(s, t);
    if DollarTag(s).Some? { TagIsClean(s); }
    if mode.DollarQuoted? { TagPrefixIsLocal(mode.tag, s, t); }
  }

  /** A prefix without separators that ends at an inert character. */
  lemma {:induction false} PrefixIsWhole(mode: Mode, s: string, t: string)
    requires Clean(mode) && t != [] && Inert(t[0])
    requires s <= Segments(mode, s + t)[0]
    ensures Segments(mode, s) == [s]
    decreases |s|
  {
    hide Step;
    if s == [] { return; }
    StepIsLocal(mode, s, t);
    assert (s + t)[0] == s[0];
    assert !(mode.Code? && s[0] == ';');
    var (width, next) := Step(mode, s);
    PrefixStep(mode, s, t, width, next);
    PrefixIsWhole(next, s[width..], t);
    assert s[..width] + s[width..] == s;
  }

  lemma {:induction false} PrefixStep(mode: Mode, s: string, t: string, width: nat, next: Mode)
    requires Proper(mode) && Proper(next) && s != [] && !(mode.Code? && s[0] == ';')
    requires Step(mode, s + t) == (width, next) && width <= |s|
    requires s <= Segments(mode, s + t)[0]
    ensures s[width..] <= Segments(next, s[width..] + t)[0]
  {
    hide Step;
    assert (s + t)[..width] == s[..width] && (s + t)[width..] == s[width..] + t;
    var later := Segments(next, s[width..] + t)[0];
    assert Segments(mode, s + t)[0] == s[..width] + later;
    assert s == s[..width] + s[width..];
    PrefixOfConcat(s[..width], s[width..], later);
  }

  lemma PrefixOfConcat(a: string, b: string, c: string)
    requires a + b <= a + c
    ensures b <= c
  {
    assert (a + b)[|a|..] == b && (a + c)[|a|..] == c;
    assert (a + c)[..|a + b|] == a + b;
    assert (a + c)[..|a + b|][|a|..] == c[..|b|];
  }

  /** The first segment stays in one piece when it is split again. */
  lemma {:induction false} FirstSegmentIsWhole(mode: Mode, s: string)
    requires Clean(mode)
    ensures Segments(mode, Segments(mode, s)[0]) == [Segments(mode, s)[0]]
  {
    hide Segments;
    var rest := FirstSegmentStarts(mode, s);
    var first := Segments(mode, s)[0];
    if rest == "" {
      assert first == s;
      OnlySegment(mode, s);
    } else {
      PrefixIsWhole(mode, first, rest);
    }
  }

  lemma OnlySegment(mode: Mode, s: string)
    requires Proper(mode) && Segments(mode, s)[0] == s
    ensures Segments(mode, s) == [s]
  {
    SegmentsRejoin(mode, s);
  }

  /** No segment holds a separator: split again, each is itself. */
  lemma {:induction false} SegmentsAreWhole(mode: Mode, s: string, k: nat)
    requires Clean(mode) && k < |Segments(mode, s)|
    ensures Segments(if k == 0 then mode else Code, Segments(mode, s)[k]) == [Segments(mode, s)[k]]
    decreases |s|
  {
    hide Step, Clean;
    if k == 0 { FirstSegmentIsWhole(mode, s); return; }
    assert s != [];
    assert Proper(mode) && Clean(Code) by { CleanIsProper(mode); }
    if mode.Code? && s[0] == ';' {
      SegmentsAreWhole(Code, s[1..], k - 1);
    } else {
      var (width, next) := Step(mode, s);
      StepIsLocal(mode, s, ";");
      SegmentsAreWhole(next, s[width..], k);
    }
  }

  lemma CleanIsProper(mode: Mode)
    requires Clean(mode)
    ensures Proper(mode) && Clean(Code)
  {
  }

  lemma {:induction false} TrimRightIsWhole(s: string)
    requires Segments(Code, s) == [s]
    ensures Segments(Code, TrimRight(s)) == [TrimRight(s)]
  {
    hide Segments;
    if s != [] && IsSpace(s[|s| - 1]) {
      var shorter, last := s[..|s| - 1], [s[|s| - 1]];
      assert s == shorter + last;
      assert shorter <= s;
      PrefixIsWhole(Code, shorter, last);
      TrimRightIsWhole(shorter);
    }
  }

  lemma {:induction false} TrimLeftIsWhole(s: string)
    requires Segments(Code, s) == [s]
    ensures Segments(Code, TrimLeft(s)) == [TrimLeft(s)]
  {
    if s != [] && IsSpace(s[0]) {
      assert Step(Code, s) == (1, Code);
      var rest := Segments(Code, s[1..]);
      assert Segments(Code, s) == Prepend(s[..1], rest);
      assert Segments(Code, s)[0] == s[..1] + rest[0];
      assert s == s[..1] + s[1..];
      assert |rest| == 1 && rest[0] == s[1..];
      TrimLeftIsWhole(s[1..]);
    }
  }

  /** A segment stays whole when it is trimmed. */
  lemma TrimIsWhole(s: string)
    requires Segments(Code, s) == [s]
    ensures Segments(Code, Trim(s)) == [Trim(s)]
  {
    hide Segments;
    TrimRightIsWhole(s);
    TrimLeftIsWhole(TrimRight(s));
  }

  lemma {:induction false} TrimLeftTwice(s: string)
    ensures TrimLeft(s) == s || |TrimLeft(s)| < |s|
    ensures TrimLeft(s) != [] ==> !IsSpace(TrimLeft(s)[0]) && TrimLeft(s)[|TrimLeft(s)| - 1] == s[|s| - 1]
  {
    if s != [] && IsSpace(s[0]) { TrimLeftTwice(s[1..]); }
  }

  lemma {:induction false} TrimRightEnds(s: string)
    ensures TrimRight(s) != [] ==> !IsSpace(TrimRight(s)[|TrimRight(s)| - 1])
  {
    if s != [] && IsSpace(s[|s| - 1]) { TrimRightEnds(s[..|s| - 1]); }
  }

  lemma TrimTwice(s: string)
    ensures Trim(Trim(s)) == Trim(s)
  {
    TrimRightEnds(s);
    TrimLeftTwice(TrimRight(s));
  }

  // ---------------------------------------------------------------- statements are statements

  lemma {:induction false} TrimmedFromSegment(segments: seq<string>, j: nat) returns (k: nat)
    requires j < |Trimmed(segments)|
    ensures k < |segments| && Trimmed(segments)[j] == Trim(segments[k]) && Trim(segments[k]) != []
  {
    if Trim(segments[0]) == [] {
      k := TrimmedFromSegment(segments[1..], j);
      k := k + 1;
    } else if j == 0 {
      k := 0;
    } else {
      k := TrimmedFromSegment(segments[1..], j - 1);
      k := k + 1;
    }
  }

  lemma {:induction false} StatementFromTrimmed(trimmed: seq<string>, j: nat) returns (k: nat)
    requires j < |Statements(trimmed)|
    ensures k < |trimmed| && Statements(trimmed)[j] == trimmed[k] && IsStatement(trimmed[k])
  {
    hide IsStatement;
    if !IsStatement(trimmed[0]) {
      k := StatementFromTrimmed(trimmed[1..], j);
      k := k + 1;
    } else if j == 0 {
      k := 0;
    } else {
      k := StatementFromTrimmed(trimmed[1..], j - 1);
      k := k + 1;
    }
  }

  /** The statements that are found in a text. */
  function Found(sql: string): seq<string> { Statements(Trimmed(Segments(Code, sql))) }

  /** Every statement found, split again, is the one statement that it is. */
  lemma SplitTwice(sql: string, j: nat)
    requires j < |Found(sql)|
    ensures var s := Found(sql)[j]; s != [] && Trim(s) == s && IsStatement(s) && Found(s) == [s]
    ensures Segments(Code, Found(sql)[j]) == [Found(sql)[j]]
  {
    hide Segments, IsStatement, Trim, Trimmed, Statements;
    var segments := Segments(Code, sql);
    var k := StatementFromTrimmed(Trimmed(segments), j);
    var i := TrimmedFromSegment(segments, k);
    var s := Found(sql)[j];
    assert s == Trim(segments[i]);
    SegmentsAreWhole(Code, sql, i);
    TrimIsWhole(segments[i]);
    TrimTwice(segments[i]);
    SplitWhole(s);
  }

  lemma SplitWhole(s: string)
    requires Segments(Code, s) == [s] && Trim(s) == s && s != [] && IsStatement(s)
    ensures Found(s) == [s]
  {
    hide IsStatement, Trim, Segments;
    assert Trimmed([s]) == [s];
    assert Statements([s]) == [s];
  }

  /** A validated query is valid as it is returned: validating it again changes nothing. */
  lemma ValidatedTwice(query: string)
    requires Validated(query).Ok?
    ensures Validated(Validated(query).value) == Validated(query)
    ensures Segments(Code, Validated(query).value) == [Validated(query).value]
  {
    hide IsStatement, Trim, Segments, Trimmed, Statements;
    SplitTwice(query, 0);
    var s := Found(query)[0];
    assert Validated(query) == Ok(s);
  }
}
