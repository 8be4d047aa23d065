/** Lexing a concatenation line by line: sources that lex can be joined by a newline. */
module LexerComposition {
  import opened Text
  import opened AltrqlLexer

  // ---------------------------------------------------------------- text after a newline is not looked at

  /** Faults that do not depend on what follows a newline: all but those of a string that is still open. */
  predicate LocalFault(f: Fault) { f != UnterminatedEscape && f != UnterminatedString }

  lemma {:induction false} StringBodyLocal(s: string, t: string)
    requires StringBody(s).Closed? || LocalFault(StringBody(s).fault)
    ensures StringBody(s + t) == StringBody(s)
  {
    if s[0] == '"' || s[0] == '\n' {
    } else if s[0] == '\\' {
      StringBodyLocal(s[2..], t);
      assert (s + t)[2..] == s[2..] + t;
    } else {
      StringBodyLocal(s[1..], t);
      assert (s + t)[1..] == s[1..] + t;
    }
  }

  lemma {:induction false} TemporalLocal(s: string, t: string)
    requires t != [] && t[0] == '\n'
    ensures TemporalLength(s + t) == TemporalLength(s)
  {
    if s == [] {
      assert s + t == t;
    } else if !EndsTemporal(s[0]) && !StartsWith(s, '.', '.') {
      TemporalLocal(s[1..], t);
      assert (s + t)[1..] == s[1..] + t;
    }
  }

  lemma {:induction false} SpanLocal(p: char -> bool, s: string, t: string)
    requires t != [] && !p(t[0])
    ensures SpanLength(p, s + t) == SpanLength(p, s)
  {
    SpanLengthAppend(p, s, t);
    SpanLengthUnique(p, t, 0);
  }

  lemma {:induction false} NumberLocal(s: string, t: string)
    requires s != [] && IsDigit(s[0]) && t != [] && t[0] == '\n'
    ensures ScanNumber(s + t) == ScanNumber(s)
  {
    hide Decimals.Value, Fraction;
    SpanLocal(IsDigit, s, t);
    var whole := s[..SpanLength(IsDigit, s)];
    var rest := s[|whole|..];
    assert (s + t)[..|whole|] == whole;
    assert (s + t)[|whole|..] == rest + t;
    if rest != [] {
      SpanLocal(IsDigit, rest[1..], t);
      assert (rest + t)[1..] == rest[1..] + t;
      assert (rest[1..] + t)[..SpanLength(IsDigit, rest[1..])] == rest[1..][..SpanLength(IsDigit, rest[1..])];
    }
  }

  /** What a text begins with, unless it is an open string, does not depend on what follows a newline after it. */
  lemma {:induction false} ScanLocal(s: string, t: string)
    requires s != [] && (Scan(s).Bad? ==> LocalFault(Scan(s).fault)) && t != [] && t[0] == '\n'
    ensures Scan(s + t) == Scan(s)
  {
    hide ScanString, ScanTemporal, ScanNumber, ScanWord;
    if StartsWith(s, '/', '/') {
      SpanLocal(NotNewline, s[2..], t);
      assert (s + t)[2..] == s[2..] + t;
    } else if s[0] == '"' {
      StringLocal(s, t);
    } else if s[0] == '@' {
      TemporalScanLocal(s, t);
    } else if IsDigit(s[0]) {
      NumberLocal(s, t);
    } else if IsLetter(s[0]) || s[0] == '_' {
      WordLocal(s, t);
    }
  }

  lemma {:induction false} StringLocal(s: string, t: string)
    requires s != [] && s[0] == '"' && (ScanString(s).Bad? ==> LocalFault(ScanString(s).fault))
    ensures ScanString(s + t) == ScanString(s)
  {
    hide StringBody;
    StringBodyLocal(s[1..], t);
    assert (s + t)[1..] == s[1..] + t;
    var b := StringBody(s[1..]);
    if b.Closed? {
      var start := 1 + b.length - |b.content| - 2;
      assert (s + t)[start..1 + b.length] == s[start..1 + b.length];
    }
  }

  lemma {:induction false} TemporalScanLocal(s: string, t: string)
    requires s != [] && s[0] == '@' && t != [] && t[0] == '\n'
    ensures ScanTemporal(s + t) == ScanTemporal(s)
  {
    TemporalLocal(s[1..], t);
    var n := TemporalLength(s[1..]);
    assert (s + t)[1..] == s[1..] + t;
    assert (s + t)[1..1 + n] == s[1..1 + n];
  }

  lemma {:induction false} WordLocal(s: string, t: string)
    requires s != [] && (IsLetter(s[0]) || s[0] == '_') && t != [] && t[0] == '\n'
    ensures ScanWord(s + t) == ScanWord(s)
  {
    SpanLocal(IsWordChar, s, t);
    var n := SpanLength(IsWordChar, s);
    assert (s + t)[..n] == s[..n];
  }

  // ---------------------------------------------------------------- positions in a concatenation

  lemma {:induction false} NewlinesAppend(s: string, t: string)
    ensures Newlines(s + t) == Newlines(s) + Newlines(t)
  {
    if t == [] {
      assert s + t == s;
    } else {
      NewlinesAppend(s, t[..|t| - 1]);
      assert (s + t)[..|s + t| - 1] == s + t[..|t| - 1];
    }
  }

  lemma {:induction false} LineStartPrefix(s: string, t: string, i: nat)
    requires i <= |s|
    ensures LineStart(s + t, i) == LineStart(s, i)
  {
    if i > 0 && s[i - 1] != '\n' {
      LineStartPrefix(s, t, i - 1);
    }
  }

  lemma {:induction false} LineStartShift(p: string, s: string, i: nat)
    requires p != [] && p[|p| - 1] == '\n' && i <= |s|
    ensures LineStart(p + s, |p| + i) == |p| + LineStart(s, i)
  {
    if i > 0 && s[i - 1] != '\n' {
      LineStartShift(p, s, i - 1);
    }
  }

  lemma {:induction false} PlacePrefix(s: string, t: string, i: nat)
    requires i <= |s|
    ensures LineAt(s + t, i) == LineAt(s, i) && ColumnAt(s + t, i) == ColumnAt(s, i)
  {
    assert (s + t)[..i] == s[..i];
    LineStartPrefix(s, t, i);
  }

  lemma {:induction false} PlaceShift(p: string, s: string, i: nat)
    requires p != [] && p[|p| - 1] == '\n' && i <= |s|
    ensures LineAt(p + s, |p| + i) == Newlines(p) + LineAt(s, i)
    ensures ColumnAt(p + s, |p| + i) == ColumnAt(s, i)
  {
    assert (p + s)[..|p| + i] == p + s[..i];
    NewlinesAppend(p, s[..i]);
    LineStartShift(p, s, i);
  }

  // ---------------------------------------------------------------- the composition theorem

  type Lexing = Result<seq<Spanned>, LexError>

  /** The same tokens, read after some lines and characters more. */
  function Shifted(spans: seq<Spanned>, lines: nat, offset: nat): (r: seq<Spanned>)
    ensures |r| == |spans|
    ensures forall i :: 0 <= i < |spans| ==>
              r[i] == Spanned(spans[i].token.(line := spans[i].token.line + lines),
                              spans[i].start + offset, spans[i].end + offset)
  {
    if spans == [] then []
    else
      var x := spans[0];
      [Spanned(x.token.(line := x.token.line + lines), x.start + offset, x.end + offset)]
      + Shifted(spans[1..], lines, offset)
  }

  function ShiftedLexing(r: Lexing, lines: nat, offset: nat): Lexing {
    match r
    case Ok(spans) => Ok(Shifted(spans, lines, offset))
    case Err(e) => Err(e.(line := e.line + lines))
  }

  /** The spans of the first source without its end token, then those of the second. */
  function Followed(first: seq<Spanned>, second: Lexing): Lexing
    requires first != []
  {
    match second
    case Ok(spans) => Ok(first[..|first| - 1] + spans)
    case Err(e) => Err(e)
  }

  lemma {:induction false} LexFromNonempty(s: string, i: nat)
    requires i <= |s| && LexFrom(s, i).Ok?
    ensures LexFrom(s, i).value != []
    decreases |s| - i
  {
    hide Scan, LineAt, ColumnAt;
    if i < |s| {
      LexFromNonempty(s, i + Scan(s[i..]).length);
    }
  }

  lemma ShiftedOne(x: Spanned, lines: nat, offset: nat)
    ensures Shifted([x], lines, offset)
         == [Spanned(x.token.(line := x.token.line + lines), x.start + offset, x.end + offset)]
  {
  }

  lemma {:induction false} LexShift(p: string, s: string, i: nat)
    requires p != [] && p[|p| - 1] == '\n' && i <= |s|
    ensures LexFrom(p + s, |p| + i) == ShiftedLexing(LexFrom(s, i), Newlines(p), |p|)
    decreases |s| - i
  {
    hide Scan, LineAt, ColumnAt;
    PlaceShift(p, s, i);
    if i == |s| {
      LexFromEnd(s);
      LexFromEnd(p + s);
      ShiftedOne(LexFrom(s, i).value[0], Newlines(p), |p|);
    } else {
      assert (p + s)[|p| + i..] == s[i..];
      var e := Scan(s[i..]);
      if !e.Bad? {
        LexShift(p, s, i + e.length);
        var rest := LexFrom(s, i + e.length);
        if e.Found? && rest.Ok? {
          var x := Spanned(TokenAt(s, i, e.kind, e.value, e.lexeme), i, i + e.length);
          assert ([x] + rest.value)[1..] == rest.value;
        }
      }
    }
  }

  lemma FollowedMore(x: Spanned, rest: seq<Spanned>, second: Lexing)
    requires rest != []
    ensures Followed([x] + rest, second) ==
              match Followed(rest, second) { case Ok(spans) => Ok([x] + spans) case Err(e) => Err(e) }
  {
    var whole := [x] + rest;
    assert whole[..|whole| - 1] == [x] + rest[..|rest| - 1];
    if second.Ok? {
      assert [x] + rest[..|rest| - 1] + second.value == [x] + (rest[..|rest| - 1] + second.value);
    }
  }

  lemma FollowedEnd(x: Spanned, second: Lexing)
    ensures Followed([x], second) == second
  {
    assert [x][..0] == [];
    assert second.Ok? ==> [] + second.value == second.value;
  }

  lemma {:induction false} LexPrefix(s: string, t: string, i: nat)
    requires i <= |s| && t != [] && t[0] == '\n' && LexFrom(s, i).Ok?
    ensures LexFrom(s, i).value != []
    ensures LexFrom(s + t, i) == Followed(LexFrom(s, i).value, LexFrom(s + t, |s|))
    decreases |s| - i
  {
    hide Scan, LineAt, ColumnAt, Followed;
    LexFromNonempty(s, i);
    if i < |s| {
      var e := Scan(s[i..]);
      ScanLocal(s[i..], t);
      assert (s + t)[i..] == s[i..] + t;
      PlacePrefix(s, t, i);
      LexPrefix(s, t, i + e.length);
      if e.Found? { FollowedMore(LexFrom(s, i).value[0], LexFrom(s, i + e.length).value, LexFrom(s + t, |s|)); }
    } else {
      FollowedEnd(LexFrom(s, i).value[0], LexFrom(s + t, |s|));
    }
  }

  /**
   If a source lexes, then putting a newline and any second source behind it gives the tokens of the first,
   without its end token, and then whatever the second source gives by itself, shifted down.
   */
  lemma {:induction false} LexLines(a: string, b: string)
    requires Lex(a).Ok?
    ensures Lex(a).value != []
    ensures Lex(a + "\n" + b)
         == Followed(Lex(a).value, ShiftedLexing(Lex(b), 1 + Newlines(a), |a| + 1))
  {
    hide LexFrom;
    var s := a + "\n" + b;
    assert s == a + ("\n" + b) && s == (a + "\n") + b;
    LexPrefix(a, "\n" + b, 0);
    NewlineSkipped(s, |a|);
    LexShift(a + "\n", b, 0);
    NewlinesAppend(a, "\n");
    assert Newlines("\n") == 1 by { assert "\n"[..0] == []; }
  }

  lemma {:induction false} NewlineSkipped(s: string, i: nat)
    requires i < |s| && s[i] == '\n'
    ensures LexFrom(s, i) == LexFrom(s, i + 1)
  {
    ScanBlank(s[i..]);
  }

  // ---------------------------------------------------------------- when the first source does not lex

  lemma {:induction false} OpenBody(s: string, t: string)
    requires StringBody(s) == Broken(UnterminatedString) && t != [] && t[0] == '\n'
    ensures StringBody(s + t) == Broken(NewlineInString)
  {
    if s == [] {
      assert s + t == t;
    } else if s[0] == '\\' {
      OpenBody(s[2..], t);
      assert (s + t)[2..] == s[2..] + t;
    } else {
      OpenBody(s[1..], t);
      assert (s + t)[1..] == s[1..] + t;
    }
  }

  lemma {:induction false} OpenEscape(s: string)
    requires StringBody(s) == Broken(UnterminatedEscape)
    ensures StringBody(s + "\n\"").Closed? && StringBody(s + "\n\"").length == |s| + 2
  {
    var t := s + "\n\"";
    if s[0] != '\\' {
      OpenEscape(s[1..]);
      assert t[1..] == s[1..] + "\n\"";
    } else if |s| == 1 {
      assert t[2..] == "\"";
    } else {
      OpenEscape(s[2..]);
      assert t[2..] == s[2..] + "\n\"";
    }
  }

  lemma OpenStringScans(s: string, t: string)
    requires s != [] && t != [] && t[0] == '\n'
    ensures Scan(s) == Bad(UnterminatedString) ==> Scan(s + t) == Bad(NewlineInString)
    ensures Scan(s) == Bad(UnterminatedEscape) ==>
              Scan(s + "\n\"").Found? && Scan(s + "\n\"").length == |s| + 2
  {
    hide ScanTemporal, ScanNumber, ScanWord, StringBody;
    assert !IsBlank(s[0]) && !Symbol(s[0]).Some? && s[0] == '"' ==>
             (s + t)[1..] == s[1..] + t && (s + "\n\"")[1..] == s[1..] + "\n\"";
    OnlyStringsStayOpen(s);
    if Scan(s) == Bad(UnterminatedString) { OpenBody(s[1..], t); }
    if Scan(s) == Bad(UnterminatedEscape) { OpenEscape(s[1..]); }
  }

  lemma OnlyStringsStayOpen(s: string)
    requires s != []
    ensures Scan(s).Bad? && !LocalFault(Scan(s).fault) ==> s[0] == '"' && Scan(s) == ScanString(s)
  {
    hide ScanString;
  }

  /** The same error at the same place, but for the fault. */
  function WithFault(r: Lexing, fault: Fault): Lexing
    requires r.Err?
  {
    Err(r.error.(fault := fault))
  }

  lemma {:induction false} ErrorStays(s: string, t: string, i: nat)
    requires i <= |s| && t != [] && t[0] == '\n' && LexFrom(s, i).Err?
    requires LexFrom(s, i).error.fault != UnterminatedEscape
    ensures var fault := LexFrom(s, i).error.fault;
            LexFrom(s + t, i) == WithFault(LexFrom(s, i), if LocalFault(fault) then fault else NewlineInString)
    decreases |s| - i
  {
    hide Scan, LineAt, ColumnAt;
    var e := Scan(s[i..]);
    assert (s + t)[i..] == s[i..] + t;
    PlacePrefix(s, t, i);
    if !e.Bad? {
      ScanLocal(s[i..], t);
      ErrorStays(s, t, i + e.length);
    } else if LocalFault(e.fault) {
      ScanLocal(s[i..], t);
    } else {
      OpenStringScans(s[i..], t);
    }
  }

  lemma {:induction false} EscapeTakesNewline(s: string, i: nat)
    requires i <= |s| && LexFrom(s, i).Err? && LexFrom(s, i).error.fault == UnterminatedEscape
    ensures LexFrom(s + "\n\"", i).Ok?
    decreases |s| - i
  {
    hide Scan, LineAt, ColumnAt;
    var e, t := Scan(s[i..]), "\n\"";
    assert (s + t)[i..] == s[i..] + t;
    if e.Bad? {
      OpenStringScans(s[i..], t);
      LexFromEnd(s + t);
    } else {
      ScanLocal(s[i..], t);
      EscapeTakesNewline(s, i + e.length);
    }
  }

  /**
   If a source does not lex, its error is kept whatever second source follows a newline, exactly unless it ends in
   an open string. If it ends in one, the newline becomes the fault; only if it ends in a backslash inside a
   string, which takes the newline in, can the whole lex, and then a closing quote makes it lex.
   */
  lemma ErrorKeptExactly(a: string)
    requires Lex(a).Err?
    ensures var fault := Lex(a).error.fault;
            && ((forall b: string :: Lex(a + "\n" + b) == Lex(a)) <==> LocalFault(fault))
            && (fault == UnterminatedString ==>
                  forall b: string :: Lex(a + "\n" + b) == WithFault(Lex(a), NewlineInString))
            && ((forall b: string :: Lex(a + "\n" + b).Err?) <==> fault != UnterminatedEscape)
            && (fault == UnterminatedEscape ==> Lex(a + "\n" + "\"").Ok?)
  {
    hide LexFrom;
    var fault := Lex(a).error.fault;
    if fault == UnterminatedEscape {
      EscapeTakesNewline(a, 0);
      assert a + "\n\"" == a + "\n" + "\"";
    } else {
      forall b: string
        ensures Lex(a + "\n" + b) == WithFault(Lex(a), if LocalFault(fault) then fault else NewlineInString)
      {
        ErrorStays(a, "\n" + b, 0);
        assert a + ("\n" + b) == a + "\n" + b;
      }
      assert Lex(a + "\n" + "").Err?;
    }
  }
}
