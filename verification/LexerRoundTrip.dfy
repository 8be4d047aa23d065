/** Print/lex round trips over whole token lists, and reformatting of arbitrary sources. */
module LexerRoundTrip {
  import opened Text
  import opened Decimals
  import opened AltrqlLexer
  import opened LexerSpans
  import opened LexerPrinting

  /** A token and the blank space or comments printed before it. */
  datatype Piece = Piece(gap: string, token: Printable)

  function Render(pieces: seq<Piece>, tail: string): string {
    if pieces == [] then tail
    else pieces[0].gap + (Print(pieces[0].token) + Render(pieces[1..], tail))
  }

  /** A gap whose comments all end inside it. */
  ghost predicate ClosedGap(t: string)
    decreases |t|
  {
    || t == []
    || (IsBlank(t[0]) && ClosedGap(t[1..]))
    || (StartsWith(t, '/', '/')
        && var n := 2 + SpanLength(NotNewline, t[2..]);
           n < |t| && ClosedGap(t[n..]))
  }

  /** Gaps are gaps, tokens are well formed, and each token is separated from the text behind it. */
  ghost predicate Clean(pieces: seq<Piece>, tail: string) {
    if pieces == [] then IsGap(tail)
    else
      && ClosedGap(pieces[0].gap) && WellFormed(pieces[0].token)
      && Separated(pieces[0].token, Render(pieces[1..], tail))
      && Clean(pieces[1..], tail)
  }

  /** The spans are the tokens ps, by kind and value, and then the end of input. */
  ghost predicate Reads(spans: seq<Spanned>, ps: seq<Printable>) {
    if ps == [] then |spans| == 1 && spans[0].token.kind == Eof
    else
      && spans != [] && WellFormed(ps[0])
      && spans[0].token.kind == KindOf(ps[0]) && spans[0].token.value == ValueOf(ps[0])
      && Reads(spans[1..], ps[1..])
  }

  function TokensIn(pieces: seq<Piece>): seq<Printable> {
    if pieces == [] then [] else [pieces[0].token] + TokensIn(pieces[1..])
  }

  /** Length of the blank character or comment that opens a nonempty gap. */
  function GapHead(g: string): nat
    requires g != []
  {
    if IsBlank(g[0]) || |g| == 1 then 1 else 2 + SpanLength(NotNewline, g[2..])
  }

  lemma {:induction false} ClosedGapScan(g: string, rest: string)
    requires g != [] && ClosedGap(g)
    ensures GapHead(g) <= |g| && ClosedGap(g[GapHead(g)..])
    ensures Scan(g + rest) == Skip(GapHead(g))
  {
    hide ScanString, ScanTemporal, ScanNumber, ScanWord;
    var n := GapHead(g);
    if !IsBlank(g[0]) {
      assert StartsWith(g + rest, '/', '/');
      SpanLengthUnique(NotNewline, (g + rest)[2..], n - 2);
    }
  }

  lemma {:induction false} ClosedGapSkipped(s: string, i: nat, g: string, rest: string)
    requires i <= |s| && s[i..] == g + rest && ClosedGap(g)
    ensures LexFrom(s, i) == LexFrom(s, i + |g|)
    decreases |g|
  {
    hide Scan, ClosedGap, GapHead;
    if g != [] {
      ClosedGapScan(g, rest);
      var n := GapHead(g);
      assert s[i + n..] == g[n..] + rest;
      ClosedGapSkipped(s, i + n, g[n..], rest);
    }
  }

  lemma {:induction false} GapSkippedToEnd(s: string, i: nat)
    requires i <= |s| && IsGap(s[i..])
    ensures LexFrom(s, i) == LexFrom(s, |s|)
    decreases |s| - i
  {
    hide ScanString, ScanTemporal, ScanNumber, ScanWord, LineAt, ColumnAt;
    if i < |s| {
      var t := s[i..];
      var n := if IsBlank(t[0]) then 1 else 2 + SpanLength(NotNewline, t[2..]);
      assert Scan(t) == Skip(n);
      assert t[n..] == s[i + n..];
      GapSkippedToEnd(s, i + n);
    }
  }

  lemma {:induction false} RenderLexesFrom(s: string, i: nat, pieces: seq<Piece>, tail: string)
    requires i <= |s| && s[i..] == Render(pieces, tail) && Clean(pieces, tail)
    ensures LexFrom(s, i).Ok? && Reads(LexFrom(s, i).value, TokensIn(pieces))
    decreases |pieces|
  {
    hide LexFrom, Scan, LineAt, ColumnAt, Separated, Print, WellFormed, KindOf, ValueOf;
    if pieces == [] {
      GapSkippedToEnd(s, i);
      LexFromEnd(s);
    } else {
      var gap, p, rest := pieces[0].gap, pieces[0].token, Render(pieces[1..], tail);
      ClosedGapSkipped(s, i, gap, Print(p) + rest);
      var j := i + |gap|;
      assert s[j..] == Print(p) + rest;
      ScanPrinted(p, rest);
      PrintNonempty(p);
      var k := j + |Print(p)|;
      assert s[k..] == rest;
      RenderLexesFrom(s, k, pieces[1..], tail);
      LexFromFound(s, j, Scan(s[j..]), LexFrom(s, k).value);
      assert LexFrom(s, j).value[1..] == LexFrom(s, k).value;
      assert TokensIn(pieces)[1..] == TokensIn(pieces[1..]);
    }
  }

  lemma {:induction false} PrintNonempty(p: Printable)
    requires WellFormed(p)
    ensures Print(p) != []
  {
  }

  /** Round trip: a clean printing of any tokens lexes to exactly these tokens. */
  lemma PrintThenLex(pieces: seq<Piece>, tail: string)
    requires Clean(pieces, tail)
    ensures Lex(Render(pieces, tail)).Ok?
    ensures Reads(Lex(Render(pieces, tail)).value, TokensIn(pieces))
  {
    hide LexFrom;
    var s := Render(pieces, tail);
    assert s[0..] == s;
    RenderLexesFrom(s, 0, pieces, tail);
  }

  // ---------------------------------------------------------------- spaces always separate

  function Spaced(ps: seq<Printable>): seq<Piece> {
    if ps == [] then [] else [Piece(" ", ps[0])] + Spaced(ps[1..])
  }

  ghost predicate AllWellFormed(ps: seq<Printable>) {
    ps == [] || (WellFormed(ps[0]) && AllWellFormed(ps[1..]))
  }

  lemma {:induction false} SpacedClean(ps: seq<Printable>)
    requires AllWellFormed(ps)
    ensures Clean(Spaced(ps), "") && TokensIn(Spaced(ps)) == ps
  {
    if ps != [] {
      SpacedClean(ps[1..]);
      var pieces := Spaced(ps);
      assert pieces[1..] == Spaced(ps[1..]);
      var rest := Render(pieces[1..], "");
      assert rest == [] || rest[0] == ' ';
      assert Separated(ps[0], rest);
      assert ClosedGap(" ") by { assert " "[1..] == []; }
      assert [ps[0]] + ps[1..] == ps;
    }
  }

  /** Printed with one space before each, any list of well-formed tokens is read back unchanged. */
  lemma SpacedRoundTrip(ps: seq<Printable>)
    requires AllWellFormed(ps)
    ensures Lex(Render(Spaced(ps), "")).Ok? && Reads(Lex(Render(Spaced(ps), "")).value, ps)
  {
    hide Lex, Clean;
    SpacedClean(ps);
    PrintThenLex(Spaced(ps), "");
  }

  /** Bounds of a range: the operands that may stand directly around "..". */
  predicate IsBound(p: Printable) { p.Number? || p.DecimalNumber? || p.Date? || p.Quoted? }

  /** A range needs no blanks: 18..65, 1.5..2.5 and @2026-01-01..@2026-12-31 are three tokens. */
  lemma RangeRoundTrip(lo: Printable, hi: Printable)
    requires WellFormed(lo) && WellFormed(hi) && IsBound(lo) && IsBound(hi)
    ensures Lex(Print(lo) + ".." + Print(hi)).Ok?
    ensures Reads(Lex(Print(lo) + ".." + Print(hi)).value, [lo, Operator(DotDot), hi])
  {
    hide Lex, Print, WellFormed;
    PrintDotDot();
    var dots := Operator(DotDot);
    var last := [Piece("", hi)];
    var lastTwo := [Piece("", dots)] + last;
    var pieces := [Piece("", lo)] + lastTwo;
    assert last[1..] == [] && lastTwo[1..] == last && pieces[1..] == lastTwo;
    assert Render(last, "") == Print(hi);
    assert Render(lastTwo, "") == ".." + Print(hi);
    assert Render(pieces, "") == Print(lo) + ".." + Print(hi);
    assert Clean(last, "") && Clean(lastTwo, "") && Clean(pieces, "");
    assert TokensIn(last) == [hi] && TokensIn(lastTwo) == [dots, hi] && TokensIn(pieces) == [lo, dots, hi];
    PrintThenLex(pieces, "");
  }

  lemma PrintDotDot()
    ensures Print(Operator(DotDot)) == ".." && WellFormed(Operator(DotDot))
  {
  }

  // ---------------------------------------------------------------- everything lexed is printable

  /** The token by its meaning. */
  function Reading(t: Token): Printable {
    match t.value
    case WholeValue(n) => Number(n)
    case DecimalValue(_) =>
      var w := SpanLength(IsDigit, t.lexeme);
      if w < |t.lexeme| then DecimalNumber(Value(t.lexeme[..w]), t.lexeme[w + 1..]) else Number(0)
    case TextValue(text) =>
      if t.kind == StringToken then Quoted(text)
      else if t.kind == Temporal && IsoShape(text) then Date(Value(text[..4]), Value(text[5..7]), Value(text[8..]))
      else if OperatorText(t.kind) != "" then Operator(t.kind)
      else Word(text)
  }

  ghost predicate ReadingOf(t: Token) {
    WellFormed(Reading(t)) && t.kind == KindOf(Reading(t)) && t.value == ValueOf(Reading(t))
  }

  lemma {:induction false} NumberPrintable(s: string, line: nat, column: nat)
    requires s != [] && IsDigit(s[0]) && ScanNumber(s).Found?
    ensures var e := ScanNumber(s); ReadingOf(Token(e.kind, e.value, line, column, e.lexeme))
  {
    hide Show, Value, Fraction, Quotient;
    var e := ScanNumber(s);
    if e.kind == Float {
      var whole, rest := s[..SpanLength(IsDigit, s)], s[SpanLength(IsDigit, s)..];
      var fraction := rest[1..][..SpanLength(IsDigit, rest[1..])];
      assert e.lexeme == whole + ("." + fraction);
      SpanWhole(IsDigit, whole, "." + fraction);
      assert e.lexeme[..|whole|] == whole && e.lexeme[|whole| + 1..] == fraction;
      FractionIsQuotient(fraction);
    }
  }

  lemma {:induction false} DatePrintable(s: string, line: nat, column: nat)
    requires s != [] && s[0] == '@' && ScanTemporal(s).Found?
    ensures var e := ScanTemporal(s); ReadingOf(Token(e.kind, e.value, line, column, e.lexeme))
  {
    hide CalendarDate, Value, Pad;
    var raw := s[1..1 + TemporalLength(s[1..])];
    PadOfValue(raw[..4]);
    PadOfValue(raw[5..7]);
    PadOfValue(raw[8..]);
    assert raw == raw[..4] + "-" + raw[5..7] + "-" + raw[8..];
  }

  lemma {:induction false} WordPrintable(s: string, line: nat, column: nat)
    requires s != [] && (IsLetter(s[0]) || s[0] == '_')
    ensures var e := ScanWord(s); ReadingOf(Token(e.kind, e.value, line, column, e.lexeme))
  {
    WordKindPlain(ScanWord(s).lexeme);
  }

  lemma {:induction false} WordKindPlain(word: string)
    ensures var k := WordKind(word); k != StringToken && k != Temporal && OperatorText(k) == ""
  {
  }

  lemma {:induction false} OperatorPrintable(kind: TokenKind, line: nat, column: nat)
    requires OperatorText(kind) != ""
    ensures ReadingOf(Token(kind, TextValue(OperatorText(kind)), line, column, OperatorText(kind)))
  {
  }

  lemma {:induction false} SymbolPrintable(s: string, line: nat, column: nat)
    requires s != [] && Scan(s).Found? && s[0] != '"' && s[0] != '@' && !IsDigit(s[0])
    requires !IsLetter(s[0]) && s[0] != '_'
    ensures var e := Scan(s); ReadingOf(Token(e.kind, e.value, line, column, e.lexeme))
  {
    hide ReadingOf;
    OperatorPrintable(Scan(s).kind, line, column);
  }

  lemma {:induction false} StringPrintable(s: string, line: nat, column: nat)
    requires s != [] && s[0] == '"' && ScanString(s).Found?
    ensures var e := ScanString(s); ReadingOf(Token(e.kind, e.value, line, column, e.lexeme))
  {
    hide StringBody;
  }

  lemma {:induction false} ScanPrintable(s: string, line: nat, column: nat)
    requires s != [] && Scan(s).Found?
    ensures var e := Scan(s); ReadingOf(Token(e.kind, e.value, line, column, e.lexeme))
  {
    hide ScanString, ScanTemporal, ScanNumber, ScanWord, ReadingOf;
    if s[0] == '"' {
      StringPrintable(s, line, column);
    } else if s[0] == '@' {
      DatePrintable(s, line, column);
    } else if IsDigit(s[0]) {
      NumberPrintable(s, line, column);
    } else if IsLetter(s[0]) || s[0] == '_' {
      WordPrintable(s, line, column);
    } else {
      SymbolPrintable(s, line, column);
    }
  }

  /** The tokens before the end of input, by meaning. */
  function Readings(spans: seq<Spanned>): seq<Printable> {
    if |spans| <= 1 then [] else [Reading(spans[0].token)] + Readings(spans[1..])
  }

  lemma {:induction false} LexPrintable(s: string, i: nat)
    requires i <= |s| && LexFrom(s, i).Ok?
    ensures var spans := LexFrom(s, i).value;
            spans != [] && AllWellFormed(Readings(spans)) && Reads(spans, Readings(spans))
    decreases |s| - i
  {
    hide Scan, LineAt, ColumnAt, Reading, WellFormed, KindOf, ValueOf;
    if i == |s| {
      LexFromEnd(s);
    } else {
      var e := Scan(s[i..]);
      LexPrintable(s, i + e.length);
      if e.Found? {
        var spans, rest := LexFrom(s, i).value, LexFrom(s, i + e.length).value;
        ScanPrintable(s[i..], LineAt(s, i), ColumnAt(s, i));
        assert spans[1..] == rest;
        assert Readings(spans)[1..] == Readings(rest);
      }
    }
  }

  /** The source laid out anew: every token in canonical spelling, one space before each, no comments. */
  function Reformat(spans: seq<Spanned>): string { Render(Spaced(Readings(spans)), "") }

  /** Same tokens up to position and spelling. */
  ghost predicate SameTokens(a: seq<Spanned>, b: seq<Spanned>) {
    |a| == |b|
    && forall i :: 0 <= i < |a| ==>
         (a[i].token.kind == b[i].token.kind && (a[i].token.kind != Eof ==> a[i].token.value == b[i].token.value))
  }

  lemma {:induction false} ReadsSame(a: seq<Spanned>, b: seq<Spanned>, ps: seq<Printable>)
    requires Reads(a, ps) && Reads(b, ps)
    ensures SameTokens(a, b)
  {
    hide KindOf, ValueOf, WellFormed;
    if ps != [] {
      ReadsSame(a[1..], b[1..], ps[1..]);
      forall i | 0 <= i < |a|
        ensures a[i].token.kind == b[i].token.kind
             && (a[i].token.kind != Eof ==> a[i].token.value == b[i].token.value)
      {
        if i > 0 {
          assert a[i] == a[1..][i - 1] && b[i] == b[1..][i - 1];
        }
      }
    }
  }

  /** Reformatting any source that lexes changes neither the kind nor the value of any token. */
  lemma ReformatPreservesTokens(s: string)
    requires Lex(s).Ok?
    ensures var f := Lex(Reformat(Lex(s).value)); f.Ok? && SameTokens(f.value, Lex(s).value)
  {
    hide LexFrom, Readings, Render, Reads, SameTokens;
    var spans := Lex(s).value;
    LexPrintable(s, 0);
    SpacedRoundTrip(Readings(spans));
    ReadsSame(Lex(Reformat(spans)).value, spans, Readings(spans));
  }

  /** Every reserved word is spelled as a word, so printing it gives its keyword token back. */
  lemma KeywordsAreWords(word: string)
    requires word in RESERVED_KEYWORDS
    ensures WellFormed(Word(word)) && KindOf(Word(word)) == RESERVED_KEYWORDS[word]
  {
    assert 2 <= |word| <= 6;
    assert IsLetter(word[0]) && IsLetter(word[1]);
    assert |word| > 2 ==> IsLetter(word[2]);
    assert |word| > 3 ==> IsLetter(word[3]);
    assert |word| > 4 ==> IsLetter(word[4]);
    assert |word| > 5 ==> IsLetter(word[5]);
  }
}
