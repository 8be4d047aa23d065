/** Where tokens lie in their source: in order, with only blanks and comments between them. */
module LexerSpans {
  import opened Text
  import opened AltrqlLexer

  // ---------------------------------------------------------------- coverage of the source

  /** Blank space and comments only. */
  ghost predicate IsGap(t: string)
    decreases |t|
  {
    || t == []
    || (IsBlank(t[0]) && IsGap(t[1..]))
    || (StartsWith(t, '/', '/') && IsGap(t[2 + SpanLength(NotNewline, t[2..])..]))
  }

  /** The lexeme of a found element is its text, but for strings only its last |content| + 2 characters. */
  ghost predicate LexemeOf(e: Element, span: string)
    requires e.Found?
  {
    && (e.kind != StringToken ==> e.lexeme == span)
    && (e.kind == StringToken ==>
          && e.value.TextValue?
          && |e.value.text| + 2 <= |span|
          && e.lexeme == span[|span| - |e.value.text| - 2..]
          && (e.lexeme == span <==> '\\' !in span))
  }

  /** The token stands at its start offset, and its lexeme is its span except for escaped strings. */
  ghost predicate Faithful(s: string, x: Spanned)
    requires x.start < x.end <= |s|
  {
    var span := s[x.start..x.end];
    && x.token.line == LineAt(s, x.start) && x.token.column == ColumnAt(s, x.start)
    && x.token.kind != Eof
    && LexemeOf(Found(x.token.kind, x.token.value, x.token.lexeme, |span|), span)
  }

  /** From offset i on, the source is spans in order, with only gaps around them, and then the end token. */
  ghost predicate Covers(s: string, i: nat, spans: seq<Spanned>)
    decreases |spans|
  {
    && spans != []
    && var x := spans[0];
       && i <= x.start <= x.end <= |s|
       && IsGap(s[i..x.start])
       && if |spans| == 1 then
            x.start == |s| && x.token == TokenAt(s, |s|, Eof, TextValue(""), "")
          else
            x.start < x.end && Faithful(s, x) && Covers(s, x.end, spans[1..])
  }

  lemma {:induction false} GapSkip(s: string, i: nat, j: nat)
    requires i < |s| && Scan(s[i..]).Skip?
    requires i + Scan(s[i..]).length <= j <= |s| && IsGap(s[i + Scan(s[i..]).length..j])
    ensures IsGap(s[i..j])
  {
    hide ScanString, ScanTemporal, ScanNumber, ScanWord;
    var n, t := Scan(s[i..]).length, s[i..j];
    if IsBlank(s[i]) {
      assert t[1..] == s[i + 1..j];
    } else {
      assert StartsWith(t, '/', '/');
      var r, whole := t[2..], s[i..][2..];
      assert n == 2 + SpanLength(NotNewline, whole) && |r| == j - i - 2;
      assert forall k :: 0 <= k < |r| ==> r[k] == whole[k];
      SpanLengthUnique(NotNewline, r, n - 2);
      assert t[n..] == s[i + n..j];
    }
  }

  /** A string literal reads one character more per escape than it holds. */
  lemma {:induction false} StringBodyEscapes(s: string)
    requires StringBody(s).Closed?
    ensures var b := StringBody(s);
            |b.content| + 1 == b.length <==> '\\' !in s[..b.length]
  {
    var b := StringBody(s);
    if s[0] == '"' {
    } else if s[0] == '\\' {
      assert s[..b.length][0] == '\\';
    } else {
      StringBodyEscapes(s[1..]);
      assert s[..b.length] == [s[0]] + s[1..][..b.length - 1];
    }
  }

  lemma {:induction false} StringLexeme(t: string)
    requires t != [] && t[0] == '"' && ScanString(t).Found?
    ensures LexemeOf(ScanString(t), t[..ScanString(t).length]) && ScanString(t).kind == StringToken
  {
    var b, span := StringBody(t[1..]), t[..ScanString(t).length];
    StringBodyEscapes(t[1..]);
    assert span == ['"'] + t[1..][..b.length];
  }

  lemma {:induction false} WordKindIsNoLiteral(word: string)
    ensures WordKind(word) != StringToken && WordKind(word) != Eof
  {
  }

  lemma {:induction false} TemporalLexeme(t: string)
    requires t != [] && t[0] == '@' && ScanTemporal(t).Found?
    ensures LexemeOf(ScanTemporal(t), t[..ScanTemporal(t).length]) && ScanTemporal(t).kind == Temporal
  {
    assert t[..ScanTemporal(t).length] == ['@'] + t[1..1 + TemporalLength(t[1..])];
  }

  lemma {:induction false} NumberLexeme(t: string)
    requires t != [] && IsDigit(t[0]) && ScanNumber(t).Found?
    ensures LexemeOf(ScanNumber(t), t[..ScanNumber(t).length])
    ensures ScanNumber(t).kind == Integer || ScanNumber(t).kind == Float
  {
    assert ScanNumber(t).lexeme == t[..ScanNumber(t).length];
  }

  lemma {:induction false} ScanLexeme(t: string)
    requires t != [] && Scan(t).Found?
    ensures LexemeOf(Scan(t), t[..Scan(t).length]) && Scan(t).kind != Eof
  {
    hide ScanString, ScanTemporal, ScanNumber, WordKind;
    if t[0] == '"' {
      StringLexeme(t);
    } else if t[0] == '@' {
      TemporalLexeme(t);
    } else if IsDigit(t[0]) {
      NumberLexeme(t);
    } else if IsLetter(t[0]) || t[0] == '_' {
      WordKindIsNoLiteral(Scan(t).lexeme);
    }
  }

  lemma {:induction false} ScanFaithful(s: string, i: nat)
    requires i < |s| && Scan(s[i..]).Found?
    ensures var e := Scan(s[i..]);
            Faithful(s, Spanned(TokenAt(s, i, e.kind, e.value, e.lexeme), i, i + e.length))
  {
    hide LineAt, ColumnAt, Scan;
    ScanLexeme(s[i..]);
    assert s[i..i + Scan(s[i..]).length] == s[i..][..Scan(s[i..]).length];
  }

  lemma {:induction false} LexCoversFrom(s: string, i: nat)
    requires i <= |s| && LexFrom(s, i).Ok?
    ensures Covers(s, i, LexFrom(s, i).value)
    decreases |s| - i
  {
    hide Scan, LineAt, ColumnAt, Faithful;
    if i < |s| {
      var e, spans := Scan(s[i..]), LexFrom(s, i).value;
      LexCoversFrom(s, i + e.length);
      if e.Skip? {
        GapSkip(s, i, spans[0].start);
      } else {
        ScanFaithful(s, i);
        assert s[i..i] == [];
        assert spans[1..] == LexFrom(s, i + e.length).value;
      }
    } else {
      assert s[i..i] == [];
    }
  }

  /**
   Every source that lexes is its tokens in order, separated by blank space and comments, ending in the
   end-of-input token; each token carries the line and column of its first character.
   */
  lemma LexCovers(s: string)
    requires Lex(s).Ok?
    ensures Covers(s, 0, Lex(s).value)
  {
    LexCoversFrom(s, 0);
  }
}
