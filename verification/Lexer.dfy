/**
 The AltrQL lexical analyser. Scan says what the next lexical element of a text is; Lex strings these
 elements together over a whole source; class Lexer is the cursor machine that computes Lex.
 */
module AltrqlLexer {
  import opened Text
  import opened Decimals

  datatype TokenKind =
    | LParen | RParen | LBrace | RBrace | Comma | Semicolon | Dot | Colon | Ampersand | DotDot
    | Eq | Neq | Gt | Lt | Gte | Lte
    | Identifier | StringToken | Integer | Float | Temporal
    | Get | Create | Update | Delete | Where | And | Or | Sort | Asc | Desc | Top | Bottom | By
    | Limit | Offset | As | Not | Has | Starts | Ends | True | False | Null | Today | Now
    | Eof

  datatype TokenValue = TextValue(text: string) | WholeValue(n: nat) | DecimalValue(r: real)

  datatype Token = Token(kind: TokenKind, value: TokenValue, line: nat, column: nat, lexeme: string)

  datatype Fault =
    | UnexpectedCharacter | MalformedTemporal | InvalidCalendarDate | NewlineInString
    | UnterminatedEscape | UnterminatedString | MalformedFloat

  datatype LexError = LexError(fault: Fault, line: nat, column: nat)

  const RESERVED_KEYWORDS: map<string, TokenKind> :=
    map["GET" := Get, "CREATE" := Create, "UPDATE" := Update, "DELETE" := Delete, "WHERE" := Where,
        "AND" := And, "OR" := Or, "SORT" := Sort, "ASC" := Asc, "DESC" := Desc, "TOP" := Top,
        "BOTTOM" := Bottom, "BY" := By, "LIMIT" := Limit, "OFFSET" := Offset, "AS" := As,
        "NOT" := Not, "HAS" := Has, "STARTS" := Starts, "ENDS" := Ends, "TRUE" := True,
        "FALSE" := False, "NULL" := Null, "TODAY" := Today, "NOW" := Now]

  // ---------------------------------------------------------------- one lexical element

  /** What a nonempty text begins with: something to skip, a token, or an error. */
  datatype Element =
    | Skip(length: nat)
    | Found(kind: TokenKind, value: TokenValue, lexeme: string, length: nat)
    | Bad(fault: Fault)

  predicate IsBlank(c: char) { c == ' ' || c == '\t' || c == '\r' || c == '\n' }

  predicate NotNewline(c: char) { c != '\n' }

  function Symbol(c: char): Option<TokenKind> {
    match c
    case '(' => Some(LParen)
    case ')' => Some(RParen)
    case '{' => Some(LBrace)
    case '}' => Some(RBrace)
    case ',' => Some(Comma)
    case ';' => Some(Semicolon)
    case '.' => Some(Dot)
    case ':' => Some(Colon)
    case '&' => Some(Ampersand)
    case '=' => Some(Eq)
    case '>' => Some(Gt)
    case '<' => Some(Lt)
    case _ => None
  }

  predicate StartsWith(s: string, a: char, b: char) { |s| > 1 && s[0] == a && s[1] == b }

  function Scan(s: string): (e: Element)
    requires s != []
    ensures e.Skip? || e.Found? ==> 1 <= e.length <= |s|
  {
    if IsBlank(s[0]) then Skip(1)
    else if StartsWith(s, '/', '/') then Skip(2 + SpanLength(NotNewline, s[2..]))
    else if StartsWith(s, '.', '.') then Found(DotDot, TextValue(".."), "..", 2)
    else if StartsWith(s, '!', '=') then Found(Neq, TextValue("!="), "!=", 2)
    else if StartsWith(s, '>', '=') then Found(Gte, TextValue(">="), ">=", 2)
    else if StartsWith(s, '<', '=') then Found(Lte, TextValue("<="), "<=", 2)
    else if Symbol(s[0]).Some? then Found(Symbol(s[0]).value, TextValue([s[0]]), [s[0]], 1)
    else if s[0] == '"' then ScanString(s)
    else if s[0] == '@' then ScanTemporal(s)
    else if IsDigit(s[0]) then ScanNumber(s)
    else if IsLetter(s[0]) || s[0] == '_' then ScanWord(s)
    else Bad(UnexpectedCharacter)
  }

  // Strings

  datatype Body = Closed(content: string, length: nat) | Broken(fault: Fault)

  function Unescape(c: char): char {
    if c == 'n' then '\n' else if c == 't' then '\t' else if c == 'r' then '\r' else c
  }

  function Prepend(c: char, n: nat, rest: Body): Body {
    match rest
    case Closed(content, length) => Closed([c] + content, n + length)
    case Broken(_) => rest
  }

  /** The content of a string literal read from just after its opening quote. */
  function StringBody(s: string): (b: Body)
    ensures b.Closed? ==> |b.content| + 1 <= b.length <= |s|
  {
    if s == [] then Broken(UnterminatedString)
    else if s[0] == '"' then Closed("", 1)
    else if s[0] == '\n' then Broken(NewlineInString)
    else if s[0] == '\\' then
      if |s| == 1 then Broken(UnterminatedEscape) else Prepend(Unescape(s[1]), 2, StringBody(s[2..]))
    else Prepend(s[0], 1, StringBody(s[1..]))
  }

  /** What a body amounts to once the characters chars, spelled by k characters, precede it. */
  function After(chars: string, k: nat, b: Body): Body {
    match b
    case Closed(content, length) => Closed(chars + content, k + length)
    case Broken(_) => b
  }

  lemma AfterPrepend(chars: string, k: nat, c: char, n: nat, b: Body)
    ensures After(chars, k, Prepend(c, n, b)) == After(chars + [c], k + n, b)
  {
    if b.Closed? {
      assert chars + ([c] + b.content) == chars + [c] + b.content;
    }
  }

  /** The lexeme of a string is cut by the length of its content, not by where its quote opened. */
  function ScanString(s: string): (e: Element)
    requires s != [] && s[0] == '"'
    ensures e.Bad? || (e.Found? && 1 <= e.length <= |s|)
  {
    match StringBody(s[1..])
    case Closed(content, length) =>
      Found(StringToken, TextValue(content), s[1 + length - |content| - 2..1 + length], 1 + length)
    case Broken(fault) => Bad(fault)
  }

  // Dates

  predicate EndsTemporal(c: char) {
    IsBlank(c) || c == ',' || c == ';' || c == ')' || c == '}' || c == '(' || c == '{' || c == '&'
    || c == '=' || c == '!' || c == '<' || c == '>' || c == '/'
  }

  /** Length of the raw date text: up to a delimiter or the range operator. */
  function TemporalLength(s: string): (n: nat)
    ensures n <= |s|
  {
    if s == [] || EndsTemporal(s[0]) || StartsWith(s, '.', '.') then 0 else 1 + TemporalLength(s[1..])
  }

  /** Four digits, a dash, two digits, a dash, two digits. */
  predicate IsoShape(s: string) {
    |s| == 10 && s[4] == '-' && s[7] == '-'
    && AllDigits(s[..4]) && AllDigits(s[5..7]) && AllDigits(s[8..])
  }

  predicate LeapYear(y: nat) { y % 4 == 0 && (y % 100 != 0 || y % 400 == 0) }

  function DaysInMonth(y: nat, m: nat): nat {
    if m == 2 then (if LeapYear(y) then 29 else 28)
    else if m == 4 || m == 6 || m == 9 || m == 11 then 30
    else 31
  }

  /** The dates of the proleptic Gregorian calendar that fit in four digits; there is no year 0. */
  predicate CalendarDate(y: nat, m: nat, d: nat) {
    1 <= y <= 9999 && 1 <= m <= 12 && 1 <= d <= DaysInMonth(y, m)
  }

  function ClassifyTemporal(raw: string): (e: Element)
    ensures e.Bad? || (e.Found? && e.length == 1 + |raw|)
  {
    if !IsoShape(raw) then Bad(MalformedTemporal)
    else if !CalendarDate(Value(raw[..4]), Value(raw[5..7]), Value(raw[8..])) then Bad(InvalidCalendarDate)
    else Found(Temporal, TextValue(raw), ['@'] + raw, 1 + |raw|)
  }

  function ScanTemporal(s: string): (e: Element)
    requires s != [] && s[0] == '@'
    ensures e.Bad? || (e.Found? && 1 <= e.length <= |s|)
  {
    ClassifyTemporal(s[1..1 + TemporalLength(s[1..])])
  }

  // Numbers

  /** The value of the digits s read after a decimal point. */
  function Fraction(s: string): real
    requires AllDigits(s)
  {
    if s == [] then 0.0 else (DigitValue(s[0]) as real + Fraction(s[1..])) / 10.0
  }

  /** The number written as whole "." fraction. */
  function DecimalOf(whole: string, fraction: string): real
    requires AllDigits(whole) && AllDigits(fraction)
  {
    Value(whole) as real + Fraction(fraction)
  }

  function ScanNumber(s: string): (e: Element)
    requires s != [] && IsDigit(s[0])
    ensures e.Bad? || (e.Found? && 1 <= e.length <= |s|)
  {
    var whole := s[..SpanLength(IsDigit, s)];
    var rest := s[|whole|..];
    if rest != [] && rest[0] == '.' && !StartsWith(rest, '.', '.') then
      var fraction := rest[1..][..SpanLength(IsDigit, rest[1..])];
      if fraction == [] then Bad(MalformedFloat)
      else
        Found(Float, DecimalValue(DecimalOf(whole, fraction)), whole + "." + fraction, |whole| + 1 + |fraction|)
    else
      Found(Integer, WholeValue(Value(whole)), whole, |whole|)
  }

  // Words

  function WordKind(word: string): TokenKind {
    if word in RESERVED_KEYWORDS then RESERVED_KEYWORDS[word] else Identifier
  }

  function ScanWord(s: string): (e: Element)
    requires s != [] && (IsLetter(s[0]) || s[0] == '_')
    ensures e.Bad? || (e.Found? && 1 <= e.length <= |s|)
  {
    var n := SpanLength(IsWordChar, s);
    Found(WordKind(s[..n]), TextValue(s[..n]), s[..n], n)
  }

  // ---------------------------------------------------------------- positions

  function Newlines(s: string): nat {
    if s == [] then 0 else Newlines(s[..|s| - 1]) + if s[|s| - 1] == '\n' then 1 else 0
  }

  /** Where the line that holds offset i begins. */
  function LineStart(s: string, i: nat): (k: nat)
    requires i <= |s|
    ensures k <= i
  {
    if i == 0 || s[i - 1] == '\n' then i else LineStart(s, i - 1)
  }

  function LineAt(s: string, i: nat): nat
    requires i <= |s|
  {
    1 + Newlines(s[..i])
  }

  function ColumnAt(s: string, i: nat): nat
    requires i <= |s|
  {
    1 + i - LineStart(s, i)
  }

  // ---------------------------------------------------------------- a whole source

  /** A token together with the source offsets it was read from. */
  datatype Spanned = Spanned(token: Token, start: nat, end: nat)

  function TokenAt(s: string, i: nat, kind: TokenKind, value: TokenValue, lexeme: string): Token
    requires i <= |s|
  {
    Token(kind, value, LineAt(s, i), ColumnAt(s, i), lexeme)
  }

  function LexFrom(s: string, i: nat): Result<seq<Spanned>, LexError>
    requires i <= |s|
    decreases |s| - i
  {
    if i == |s| then Ok([Spanned(TokenAt(s, i, Eof, TextValue(""), ""), i, i)])
    else
      match Scan(s[i..])
      case Skip(n) => LexFrom(s, i + n)
      case Bad(fault) => Err(LexError(fault, LineAt(s, i), ColumnAt(s, i)))
      case Found(kind, value, lexeme, n) =>
        match LexFrom(s, i + n)
        case Err(e) => Err(e)
        case Ok(rest) => Ok([Spanned(TokenAt(s, i, kind, value, lexeme), i, i + n)] + rest)
  }

  function Lex(s: string): Result<seq<Spanned>, LexError> { LexFrom(s, 0) }

  function Tokens(spans: seq<Spanned>): (tokens: seq<Token>)
    ensures |tokens| == |spans|
    ensures forall i :: 0 <= i < |spans| ==> tokens[i] == spans[i].token
  {
    if spans == [] then [] else [spans[0].token] + Tokens(spans[1..])
  }

  function TokensOf(r: Result<seq<Spanned>, LexError>): Result<seq<Token>, LexError> {
    match r
    case Ok(spans) => Ok(Tokens(spans))
    case Err(e) => Err(e)
  }

  // ---------------------------------------------------------------- the cursor machine

  class Lexer {
    const source: string
    var cursor: nat
    var line: nat
    var column: nat

    ghost predicate Valid()
      reads this
    {
      cursor <= |source| && line == LineAt(source, cursor) && column == ColumnAt(source, cursor)
    }

    constructor (source: string)
      ensures Valid() && this.source == source && cursor == 0
    {
      this.source := source;
      cursor, line, column := 0, 1, 1;
    }

    predicate IsAtEnd()
      reads this
    {
      cursor >= |source|
    }

    function Peek(offset: nat): char
      reads this
    {
      if cursor + offset >= |source| then '\0' else source[cursor + offset]
    }

    method Advance() returns (c: char)
      requires Valid() && cursor < |source|
      modifies this
      ensures Valid() && cursor == old(cursor) + 1 && c == source[old(cursor)]
    {
      c := source[cursor];
      assert source[..cursor + 1][..cursor] == source[..cursor];
      cursor := cursor + 1;
      if c == '\n' {
        line := line + 1;
        column := 1;
      } else {
        column := column + 1;
      }
    }

    /** Consumes the longest run of characters that satisfy p. */
    method TakeWhile(p: char -> bool) returns (run: string)
      requires Valid()
      modifies this
      ensures Valid() && cursor == old(cursor) + |run|
      ensures run == source[old(cursor)..][..SpanLength(p, source[old(cursor)..])]
    {
      var start := cursor;
      while !IsAtEnd() && p(Peek(0))
        invariant Valid() && start <= cursor
        invariant forall i :: start <= i < cursor ==> p(source[i])
        decreases |source| - cursor
      {
        var _ := Advance();
      }
      SpanLengthUnique(p, source[start..], cursor - start);
      run := source[start..cursor];
    }

    // The scanners below are entered with the cursor on the first character of their literal. Each
    // returns the token (or error) of the element that Scan reads there, placed at (startLine, startColumn).

    /** Consumes the raw text of a date. */
    method TakeTemporalText() returns (raw: string)
      requires Valid()
      modifies this
      ensures Valid() && cursor == old(cursor) + |raw|
      ensures raw == source[old(cursor)..][..TemporalLength(source[old(cursor)..])]
    {
      var start := cursor;
      while !IsAtEnd()
        invariant Valid() && start <= cursor
        invariant TemporalLength(source[start..]) == cursor - start + TemporalLength(source[cursor..])
        decreases |source| - cursor
      {
        var c := Peek(0);
        if EndsTemporal(c) { break; }
        if c == '.' && Peek(1) == '.' { break; }
        assert source[cursor..][1..] == source[cursor + 1..];
        var _ := Advance();
      }
      raw := source[start..cursor];
    }

    method ScanTemporalLiteral(startLine: nat, startColumn: nat) returns (r: Result<Token, LexError>)
      requires Valid() && cursor < |source| && source[cursor] == '@'
      modifies this
      ensures Valid()
      ensures r == Placed(ScanTemporal(source[old(cursor)..]), startLine, startColumn)
      ensures r.Ok? ==> cursor == old(cursor) + ScanTemporal(source[old(cursor)..]).length
    {
      ghost var s := source[cursor..];
      var _ := Advance();
      var raw := TakeTemporalText();
      assert raw == s[1..1 + TemporalLength(s[1..])] by { assert s[1..] == source[old(cursor) + 1..]; }
      assert ScanTemporal(s) == ClassifyTemporal(raw);
      if !IsoShape(raw) { return Err(LexError(MalformedTemporal, startLine, startColumn)); }
      if !CalendarDate(Value(raw[..4]), Value(raw[5..7]), Value(raw[8..])) {
        return Err(LexError(InvalidCalendarDate, startLine, startColumn));
      }
      return Ok(Token(Temporal, TextValue(raw), startLine, startColumn, ['@'] + raw));
    }

    /** Consumes the rest of a string literal whose opening quote has been read. */
    method TakeStringBody() returns (chars: string, fault: Option<Fault>)
      requires Valid()
      modifies this
      ensures Valid() && old(cursor) <= cursor
      ensures var b := StringBody(source[old(cursor)..]);
              if fault.None? then b == Closed(chars, cursor - old(cursor)) else b == Broken(fault.value)
    {
      hide LineAt, ColumnAt;
      chars := [];
      ghost var body, start := StringBody(source[cursor..]), cursor;
      while !IsAtEnd()
        invariant Valid() && start <= cursor
        invariant body == After(chars, cursor - start, StringBody(source[cursor..]))
        decreases |source| - cursor
      {
        var c := Peek(0);
        ghost var rest, k := source[cursor..], cursor - start;
        if c == '"' {
          var _ := Advance();
          return chars, None;
        }
        if c == '\n' { return chars, Some(NewlineInString); }
        if c == '\\' {
          var _ := Advance();
          if IsAtEnd() { return chars, Some(UnterminatedEscape); }
          var escaped := Advance();
          assert rest[2..] == source[cursor..];
          AfterPrepend(chars, k, Unescape(escaped), 2, StringBody(source[cursor..]));
          chars := chars + [Unescape(escaped)];
        } else {
          var plain := Advance();
          assert rest[1..] == source[cursor..];
          AfterPrepend(chars, k, plain, 1, StringBody(source[cursor..]));
          chars := chars + [plain];
        }
      }
      return chars, Some(UnterminatedString);
    }

    method ScanStringLiteral(startLine: nat, startColumn: nat) returns (r: Result<Token, LexError>)
      requires Valid() && cursor < |source| && source[cursor] == '"'
      modifies this
      ensures Valid()
      ensures r == Placed(ScanString(source[old(cursor)..]), startLine, startColumn)
      ensures r.Ok? ==> cursor == old(cursor) + ScanString(source[old(cursor)..]).length
    {
      hide StringBody, LineAt, ColumnAt;
      ghost var s := source[cursor..];
      var _ := Advance();
      assert s[1..] == source[cursor..];
      var chars, fault := TakeStringBody();
      if fault.Some? { return Err(LexError(fault.value, startLine, startColumn)); }
      var lexeme := source[cursor - |chars| - 2..cursor];
      assert lexeme == s[cursor - old(cursor) - |chars| - 2..cursor - old(cursor)];
      return Ok(Token(StringToken, TextValue(chars), startLine, startColumn, lexeme));
    }

    method ScanNumberLiteral(startLine: nat, startColumn: nat) returns (r: Result<Token, LexError>)
      requires Valid() && cursor < |source| && IsDigit(source[cursor])
      modifies this
      ensures Valid()
      ensures r == Placed(ScanNumber(source[old(cursor)..]), startLine, startColumn)
      ensures r.Ok? ==> cursor == old(cursor) + ScanNumber(source[old(cursor)..]).length
    {
      hide Fraction, LineAt, ColumnAt;
      ghost var s := source[cursor..];
      var whole := TakeWhile(IsDigit);
      ghost var rest := s[|whole|..];
      assert rest == source[cursor..];
      if Peek(0) == '.' && Peek(1) != '.' {
        var _ := Advance();
        assert rest[1..] == source[cursor..];
        if !IsDigit(Peek(0)) { return Err(LexError(MalformedFloat, startLine, startColumn)); }
        var fraction := TakeWhile(IsDigit);
        var raw := whole + "." + fraction;
        return Ok(Token(Float, DecimalValue(DecimalOf(whole, fraction)), startLine, startColumn, raw));
      }
      return Ok(Token(Integer, WholeValue(Value(whole)), startLine, startColumn, whole));
    }

    method ScanIdentifierOrKeyword(startLine: nat, startColumn: nat) returns (r: Result<Token, LexError>)
      requires Valid() && cursor < |source| && (IsLetter(source[cursor]) || source[cursor] == '_')
      modifies this
      ensures Valid()
      ensures r == Placed(ScanWord(source[old(cursor)..]), startLine, startColumn)
      ensures r.Ok? ==> cursor == old(cursor) + ScanWord(source[old(cursor)..]).length
    {
      var lexeme := TakeWhile(IsWordChar);
      return Ok(Token(WordKind(lexeme), TextValue(lexeme), startLine, startColumn, lexeme));
    }

    /** Consumes n characters that form the operator text. */
    method TakeOperator(kind: TokenKind, text: string, startLine: nat, startColumn: nat) returns (t: Token)
      requires Valid() && 1 <= |text| <= 2 && cursor + |text| <= |source|
      modifies this
      ensures Valid() && cursor == old(cursor) + |text|
      ensures t == Token(kind, TextValue(text), startLine, startColumn, text)
    {
      var _ := Advance();
      if |text| == 2 { var _ := Advance(); }
      t := Token(kind, TextValue(text), startLine, startColumn, text);
    }

    /** The token, or the error, at a character that begins neither blank space nor a comment. */
    method NextToken(startLine: nat, startColumn: nat) returns (r: Result<Token, LexError>)
      requires Valid() && cursor < |source|
      requires !IsBlank(source[cursor]) && !StartsWith(source[cursor..], '/', '/')
      modifies this
      ensures Valid()
      ensures r == Placed(Scan(source[old(cursor)..]), startLine, startColumn)
      ensures r.Ok? ==> cursor == old(cursor) + Scan(source[old(cursor)..]).length
    {
      hide ScanString, ScanTemporal, ScanNumber, ScanWord, LineAt, ColumnAt;
      var c, following := Peek(0), Peek(1);
      ghost var s := source[cursor..];
      if c == '.' && following == '.' {
        var t := TakeOperator(DotDot, "..", startLine, startColumn);
        return Ok(t);
      }
      if c == '!' && following == '=' {
        var t := TakeOperator(Neq, "!=", startLine, startColumn);
        return Ok(t);
      }
      if c == '>' && following == '=' {
        var t := TakeOperator(Gte, ">=", startLine, startColumn);
        return Ok(t);
      }
      if c == '<' && following == '=' {
        var t := TakeOperator(Lte, "<=", startLine, startColumn);
        return Ok(t);
      }
      if Symbol(c).Some? {
        var t := TakeOperator(Symbol(c).value, [c], startLine, startColumn);
        return Ok(t);
      }
      if c == '"' {
        r := ScanStringLiteral(startLine, startColumn);
      } else if c == '@' {
        r := ScanTemporalLiteral(startLine, startColumn);
      } else if IsDigit(c) {
        r := ScanNumberLiteral(startLine, startColumn);
      } else if IsLetter(c) || c == '_' {
        r := ScanIdentifierOrKeyword(startLine, startColumn);
      } else {
        var _ := Advance();
        r := Err(LexError(UnexpectedCharacter, startLine, startColumn));
      }
    }

    /** Consumes a comment up to, and not including, the end of its line. */
    method SkipComment()
      requires Valid() && StartsWith(source[cursor..], '/', '/')
      modifies this
      ensures Valid() && old(cursor) < cursor
      ensures Scan(source[old(cursor)..]) == Skip(cursor - old(cursor))
    {
      ghost var s := source[cursor..];
      var _ := Advance();
      var _ := Advance();
      assert s[2..] == source[cursor..];
      var _ := TakeWhile(NotNewline);
    }

    method Tokenize() returns (r: Result<seq<Token>, LexError>)
      requires Valid()
      modifies this
      ensures Valid() && r == TokensOf(LexFrom(source, old(cursor)))
    {
      hide LexFrom, Scan;
      ghost var all := TokensOf(LexFrom(source, cursor));
      var tokens: seq<Token> := [];
      JoinedNothing(all);
      while !IsAtEnd()
        invariant Valid() && Remaining(source, cursor, tokens, all)
        decreases |source| - cursor
      {
        var startLine, startColumn, c := line, column, Peek(0);
        ghost var at := cursor;
        if IsBlank(c) {
          var _ := Advance();
          ScanBlank(source[at..]);
          RemainingSkip(source, at, 1, tokens, all);
        } else if c == '/' && Peek(1) == '/' {
          SkipComment();
          RemainingSkip(source, at, cursor - at, tokens, all);
        } else {
          var next := NextToken(startLine, startColumn);
          RemainingNext(source, at, tokens, all);
          if next.Err? { return Err(next.error); }
          tokens := tokens + [next.value];
        }
      }
      RemainingEnd(source, tokens, all);
      tokens := tokens + [Token(Eof, TextValue(""), line, column, "")];
      return Ok(tokens);
    }
  }

  /** all, the outcome of the whole run, is the tokens read so far and what is still to be read from i. */
  ghost predicate Remaining(s: string, i: nat, tokens: seq<Token>, all: Result<seq<Token>, LexError>) {
    i <= |s| && all == Joined(tokens, TokensOf(LexFrom(s, i)))
  }

  /** The outcome of an element that is not skipped, placed at a line and column. */
  function Placed(e: Element, line: nat, column: nat): Result<Token, LexError> {
    match e
    case Found(kind, value, lexeme, _) => Ok(Token(kind, value, line, column, lexeme))
    case Bad(fault) => Err(LexError(fault, line, column))
    case Skip(_) => Err(LexError(UnexpectedCharacter, line, column))
  }

  function Joined(front: seq<Token>, rest: Result<seq<Token>, LexError>): Result<seq<Token>, LexError> {
    match rest
    case Ok(back) => Ok(front + back)
    case Err(e) => Err(e)
  }

  lemma JoinedNothing(rest: Result<seq<Token>, LexError>)
    ensures Joined([], rest) == rest
  {
    if rest.Ok? {
      assert [] + rest.value == rest.value;
    }
  }

  lemma JoinedStep(front: seq<Token>, t: Token, rest: Result<seq<Token>, LexError>)
    ensures Joined(front, Joined([t], rest)) == Joined(front + [t], rest)
  {
    if rest.Ok? {
      assert front + ([t] + rest.value) == front + [t] + rest.value;
    }
  }

  lemma LexFromEnd(s: string)
    ensures LexFrom(s, |s|) == Ok([Spanned(TokenAt(s, |s|, Eof, TextValue(""), ""), |s|, |s|)])
  {
  }

  lemma LexFromFound(s: string, i: nat, e: Element, rest: seq<Spanned>)
    requires i < |s| && e.Found? && Scan(s[i..]) == e
    requires i + e.length <= |s| && LexFrom(s, i + e.length) == Ok(rest)
    ensures LexFrom(s, i) == Ok([Spanned(TokenAt(s, i, e.kind, e.value, e.lexeme), i, i + e.length)] + rest)
  {
  }

  lemma TokensOne(one: Spanned)
    ensures Tokens([one]) == [one.token]
  {
  }

  lemma RemainingEnd(s: string, tokens: seq<Token>, all: Result<seq<Token>, LexError>)
    requires Remaining(s, |s|, tokens, all)
    ensures all == Ok(tokens + [TokenAt(s, |s|, Eof, TextValue(""), "")])
  {
    LexFromEnd(s);
    TokensOne(Spanned(TokenAt(s, |s|, Eof, TextValue(""), ""), |s|, |s|));
  }

  lemma ScanBlank(s: string)
    requires s != [] && IsBlank(s[0])
    ensures Scan(s) == Skip(1)
  {
  }

  lemma RemainingSkip(s: string, i: nat, n: nat, tokens: seq<Token>, all: Result<seq<Token>, LexError>)
    requires Remaining(s, i, tokens, all) && i < |s| && Scan(s[i..]) == Skip(n)
    ensures Remaining(s, i + n, tokens, all)
  {
  }

  lemma RemainingNext(s: string, i: nat, tokens: seq<Token>, all: Result<seq<Token>, LexError>)
    requires Remaining(s, i, tokens, all) && i < |s|
    requires !IsBlank(s[i]) && !StartsWith(s[i..], '/', '/')
    ensures match Placed(Scan(s[i..]), LineAt(s, i), ColumnAt(s, i))
            case Ok(t) => Remaining(s, i + Scan(s[i..]).length, tokens + [t], all)
            case Err(error) => all == Err(error)
  {
    hide ScanString, ScanTemporal, ScanNumber, ScanWord;
    var e := Scan(s[i..]);
    if e.Found? {
      var rest := LexFrom(s, i + e.length);
      var first := Spanned(TokenAt(s, i, e.kind, e.value, e.lexeme), i, i + e.length);
      if rest.Ok? {
        assert ([first] + rest.value)[1..] == rest.value;
      }
      JoinedStep(tokens, first.token, TokensOf(rest));
    }
  }
}
