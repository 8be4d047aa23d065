/** Splitting a query text at its statement separators, and the single-statement rule built on it. */
module SqlSplitter {
  import opened Text

  // ---------------------------------------------------------------- one automaton

  datatype Mode = Code | SingleQuoted | DoubleQuoted | DollarQuoted(tag: string) | LineComment | BlockComment

  predicate IsTagStart(c: char) { IsLetter(c) || c == '_' }

  /** The dollar-quote tag at the start of s, both dollar signs included. */
  function DollarTag(s: string): (tag: Option<string>)
    ensures tag.Some? ==> 2 <= |tag.value| && tag.value <= s && tag.value[0] == '$'
  {
    if |s| < 2 || s[0] != '$' then None
    else if s[1] == '$' then Some(s[..2])
    else if !IsTagStart(s[1]) then None
    else
      var n := SpanEnd(IsWordChar, s, 1);
      if n < |s| && s[n] == '$' then Some(s[..n + 1]) else None
  }

  predicate Starts(s: string, a: char, b: char) { |s| >= 2 && s[0] == a && s[1] == b }

  /** How much of s the automaton reads in one step, and the mode it is in behind that. Quotes just toggle. */
  function Step(mode: Mode, s: string): (r: (nat, Mode))
    requires s != []
    requires mode.DollarQuoted? ==> mode.tag != []
    ensures 1 <= r.0 <= |s|
    ensures r.1.DollarQuoted? ==> r.1.tag != []
  {
    match mode
    case Code =>
      if Starts(s, '-', '-') then (2, LineComment)
      else if Starts(s, '/', '*') then (2, BlockComment)
      else if s[0] == '\'' then (1, SingleQuoted)
      else if s[0] == '"' then (1, DoubleQuoted)
      else (match DollarTag(s)
            case Some(tag) => (|tag|, DollarQuoted(tag))
            case None => (1, Code))
    case SingleQuoted => (1, if s[0] == '\'' then Code else SingleQuoted)
    case DoubleQuoted => (1, if s[0] == '"' then Code else DoubleQuoted)
    case DollarQuoted(tag) => if tag <= s then (|tag|, Code) else (1, mode)
    case LineComment => (1, if s[0] == '\n' then Code else LineComment)
    case BlockComment => if Starts(s, '*', '/') then (2, Code) else (1, BlockComment)
  }

  predicate Proper(mode: Mode) { mode.DollarQuoted? ==> mode.tag != [] }

  /** Text put in front of the first of the segments. */
  function Prepend(s: string, segments: seq<string>): (r: seq<string>)
    requires segments != []
    ensures r != []
  {
    [s + segments[0]] + segments[1..]
  }

  /** The text of s between the semicolons that the automaton reads in code. */
  function Segments(mode: Mode, s: string): (r: seq<string>)
    requires Proper(mode)
    ensures r != []
    decreases |s|
  {
    if s == [] then [""]
    else if mode.Code? && s[0] == ';' then [""] + Segments(Code, s[1..])
    else
      var (width, next) := Step(mode, s);
      Prepend(s[..width], Segments(next, s[width..]))
  }

  // ---------------------------------------------------------------- comments and the statements that are kept

  /** Where the first star-slash at or behind i ends. */
  function BlockEnd(s: string, i: nat): (end: Option<nat>)
    ensures end.Some? ==> i + 2 <= end.value <= |s|
    decreases |s| - i
  {
    if i + 2 > |s| then None
    else if s[i] == '*' && s[i + 1] == '/' then Some(i + 2)
    else BlockEnd(s, i + 1)
  }

  function WithoutBlocks(s: string): string
    decreases |s|
  {
    if s == [] then []
    else if Starts(s, '/', '*') && BlockEnd(s, 2).Some? then " " + WithoutBlocks(s[BlockEnd(s, 2).value..])
    else [s[0]] + WithoutBlocks(s[1..])
  }

  predicate InLine(c: char) { c != '\n' }

  function WithoutLines(s: string): string
    decreases |s|
  {
    if s == [] then []
    else if Starts(s, '-', '-') then " " + WithoutLines(s[SpanEnd(InLine, s, 2)..])
    else [s[0]] + WithoutLines(s[1..])
  }

  /** Comments are removed without regard to quotes, unlike in the automaton. */
  function StripSqlComments(sql: string): string { Trim(WithoutLines(WithoutBlocks(sql))) }

  predicate IsStatement(s: string) { StripSqlComments(s) != [] }

  function Trimmed(segments: seq<string>): seq<string> {
    if segments == [] then []
    else
      var s := Trim(segments[0]);
      (if s == [] then [] else [s]) + Trimmed(segments[1..])
  }

  function Statements(trimmed: seq<string>): seq<string> {
    if trimmed == [] then []
    else (if IsStatement(trimmed[0]) then [trimmed[0]] else []) + Statements(trimmed[1..])
  }

  lemma {:induction false} TrimmedAppend(segments: seq<string>, s: string)
    ensures Trimmed(segments + [s]) == Trimmed(segments) + Trimmed([s])
  {
    if segments != [] {
      assert (segments + [s])[1..] == segments[1..] + [s];
      TrimmedAppend(segments[1..], s);
    } else {
      assert segments + [s] == [s];
    }
  }

  // ---------------------------------------------------------------- the scanner with its five flags

  /** The mode that the flags stand for; None if more than one is set. */
  function ModeOf(single: bool, double: bool, dollar: Option<string>, line: bool, block: bool): Option<Mode> {
    if !single && !double && dollar.None? && !line && !block then Some(Code)
    else if single && !double && dollar.None? && !line && !block then Some(SingleQuoted)
    else if !single && double && dollar.None? && !line && !block then Some(DoubleQuoted)
    else if !single && !double && dollar.Some? && !line && !block then Some(DollarQuoted(dollar.value))
    else if !single && !double && dollar.None? && line && !block then Some(LineComment)
    else if !single && !double && dollar.None? && !line && block then Some(BlockComment)
    else None
  }

  /** Done so far: some segments, part of the current one, and the automaton in a mode at i. */
  ghost predicate Reached(sql: string, done: seq<string>, current: string, mode: Mode, i: nat)
    requires i <= |sql| && Proper(mode)
  {
    Segments(Code, sql) == done + Prepend(current, Segments(mode, sql[i..]))
  }

  lemma PrependNothing(segments: seq<string>)
    requires segments != []
    ensures Prepend("", segments) == segments
  {
    assert "" + segments[0] == segments[0];
  }

  lemma {:induction false} ReachStart(sql: string)
    ensures Reached(sql, [], "", Code, 0)
  {
    assert sql[0..] == sql;
    PrependNothing(Segments(Code, sql));
  }

  lemma SegmentsStep(mode: Mode, s: string)
    requires Proper(mode) && s != [] && !(mode.Code? && s[0] == ';')
    ensures var (width, next) := Step(mode, s); Segments(mode, s) == Prepend(s[..width], Segments(next, s[width..]))
  {
    hide Step;
  }

  lemma {:induction false} ReachStep(sql: string, done: seq<string>, current: string, mode: Mode, i: nat)
    requires i < |sql| && Proper(mode) && Reached(sql, done, current, mode, i)
    requires !(mode.Code? && sql[i] == ';')
    ensures var (width, next) := Step(mode, sql[i..]);
            Reached(sql, done, current + sql[i..i + width], next, i + width)
  {
    hide Segments, Step;
    var (width, next) := Step(mode, sql[i..]);
    SegmentsStep(mode, sql[i..]);
    assert sql[i..][width..] == sql[i + width..] && sql[i..][..width] == sql[i..i + width];
    PrependTwice(current, sql[i..i + width], Segments(next, sql[i + width..]));
  }

  lemma PrependTwice(a: string, b: string, segments: seq<string>)
    requires segments != []
    ensures Prepend(a, Prepend(b, segments)) == Prepend(a + b, segments)
  {
    assert a + (b + segments[0]) == (a + b) + segments[0];
  }

  lemma {:induction false} ReachSeparator(sql: string, done: seq<string>, current: string, i: nat)
    requires i < |sql| && sql[i] == ';' && Reached(sql, done, current, Code, i)
    ensures Reached(sql, done + [current], "", Code, i + 1)
  {
    assert sql[i..][1..] == sql[i + 1..];
    var later := Segments(Code, sql[i + 1..]);
    assert Segments(Code, sql[i..]) == [""] + later;
    assert current + "" == current;
    assert Prepend(current, [""] + later) == [current] + later;
    PrependNothing(later);
  }

  /** A doubled quote inside quotes closes and reopens them: two steps of the automaton. */
  lemma {:induction false} ReachDoubled(sql: string, done: seq<string>, current: string, mode: Mode, i: nat)
    requires mode.SingleQuoted? || mode.DoubleQuoted?
    requires i + 1 < |sql| && sql[i] == sql[i + 1] == (if mode.SingleQuoted? then '\'' else '"')
    requires Reached(sql, done, current, mode, i)
    ensures Reached(sql, done, current + sql[i..i + 2], mode, i + 2)
  {
    hide Reached;
    ReachStep(sql, done, current, mode, i);
    ReachStep(sql, done, current + sql[i..i + 1], Code, i + 1);
    assert current + sql[i..i + 1] + sql[i + 1..i + 2] == current + sql[i..i + 2];
  }

  lemma {:induction false} ReachEnd(sql: string, done: seq<string>, current: string, mode: Mode)
    requires Proper(mode) && Reached(sql, done, current, mode, |sql|)
    ensures Segments(Code, sql) == done + [current]
  {
    assert sql[|sql|..] == [];
    assert current + "" == current;
  }

  /** The statements of a text: its trimmed segments, without those that the comment stripper empties. */
  method SplitSqlStatements(sql: string) returns (r: seq<string>)
    ensures r == Statements(Trimmed(Segments(Code, sql)))
  {
    hide Reached, Segments, Trimmed, DollarTag, IsStatement;
    var statements: seq<string>, current, i := [], "", 0;
    var inSingleQuote, inDoubleQuote, inLineComment, inBlockComment := false, false, false, false;
    var inDollarQuote: Option<string> := None;
    ghost var done: seq<string>, mode := [], Code;
    ReachStart(sql);
    assert Trimmed([]) == [] by { TrimmedNone(); }
    while i < |sql|
      invariant 0 <= i <= |sql|
      invariant ModeOf(inSingleQuote, inDoubleQuote, inDollarQuote, inLineComment, inBlockComment) == Some(mode)
      invariant Proper(mode) && Reached(sql, done, current, mode, i)
      invariant statements == Trimmed(done)
      decreases |sql| - i
    {
      var c := sql[i];
      if c == ';' && !inSingleQuote && !inDoubleQuote && inDollarQuote.None? && !inLineComment && !inBlockComment {
        ReachSeparator(sql, done, current, i);
        statements := AddTrimmed(statements, done, current);
        done, current, i := done + [current], "", i + 1;
        continue;
      }
      var width := 1;
      var doubled := i + 1 < |sql| && sql[i + 1] == c;
      ReachStep(sql, done, current, mode, i);
      if inLineComment {
        if c == '\n' { inLineComment := false; }
      } else if inBlockComment {
        if Starts(sql[i..], '*', '/') { inBlockComment, width := false, 2; }
      } else if inSingleQuote {
        if c == '\'' {
          if doubled { width := 2; ReachDoubled(sql, done, current, mode, i); } else { inSingleQuote := false; }
        }
      } else if inDoubleQuote {
        if c == '"' {
          if doubled { width := 2; ReachDoubled(sql, done, current, mode, i); } else { inDoubleQuote := false; }
        }
      } else if inDollarQuote.Some? {
        if inDollarQuote.value <= sql[i..] { width, inDollarQuote := |inDollarQuote.value|, None; }
      } else if Starts(sql[i..], '-', '-') {
        inLineComment, width := true, 2;
      } else if Starts(sql[i..], '/', '*') {
        inBlockComment, width := true, 2;
      } else if c == '\'' {
        inSingleQuote := true;
      } else if c == '"' {
        inDoubleQuote := true;
      } else {
        var tag := DollarTag(sql[i..]);
        if tag.Some? { inDollarQuote, width := tag, |tag.value|; }
      }
      mode := ModeOf(inSingleQuote, inDoubleQuote, inDollarQuote, inLineComment, inBlockComment).value;
      current, i := current + sql[i..i + width], i + width;
    }
    ReachEnd(sql, done, current, mode);
    statements := AddTrimmed(statements, done, current);
    r := KeepStatements(statements);
  }

  method AddTrimmed(statements: seq<string>, ghost done: seq<string>, current: string) returns (r: seq<string>)
    requires statements == Trimmed(done)
    ensures r == Trimmed(done + [current])
  {
    TrimmedAppend(done, current);
    var stmt := Trim(current);
    r := if stmt != [] then statements + [stmt] else statements;
  }

  method KeepStatements(trimmed: seq<string>) returns (r: seq<string>)
    ensures r == Statements(trimmed)
  {
    hide IsStatement;
    r := [];
    for i := 0 to |trimmed|
      invariant Statements(trimmed) == r + Statements(trimmed[i..])
    {
      assert trimmed[i..][1..] == trimmed[i + 1..];
      if IsStatement(trimmed[i]) { r := r + [trimmed[i]]; }
    }
  }

  lemma TrimmedNone()
    ensures Trimmed([]) == []
  {
  }

  // ---------------------------------------------------------------- single statements

  datatype QueryError = Empty | Multiple

  method ValidateQuery(query: string) returns (r: Result<string, QueryError>)
    ensures r == Validated(query)
  {
    if Trim(query) == [] { return Err(Empty); }
    if StripSqlComments(query) == [] { return Err(Empty); }
    var statements := SplitSqlStatements(query);
    if statements == [] { return Err(Empty); }
    if |statements| > 1 { return Err(Multiple); }
    r := Ok(Trim(statements[0]));
  }

  function Validated(query: string): Result<string, QueryError> {
    var statements := Statements(Trimmed(Segments(Code, query)));
    if !IsStatement(query) || Trim(query) == [] || statements == [] then Err(Empty)
    else if |statements| > 1 then Err(Multiple)
    else Ok(Trim(statements[0]))
  }
}
