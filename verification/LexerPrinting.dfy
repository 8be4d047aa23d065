/**
 Printing tokens back: which spellings are read back as the token they print, what must separate two
 tokens, and that the lexer produces nothing but printable tokens.
 */
module LexerPrinting {
  import opened Text
  import opened Decimals
  import opened AltrqlLexer

  /** Tokens by their meaning. Word covers identifiers and keywords; the value of a date is its ISO text. */
  datatype Printable =
    | Word(name: string)
    | Operator(kind: TokenKind)
    | Number(n: nat)
    | DecimalNumber(whole: nat, fraction: string)
    | Date(year: nat, month: nat, day: nat)
    | Quoted(content: string)

  function OperatorText(kind: TokenKind): string {
    match kind
    case LParen => "(" case RParen => ")" case LBrace => "{" case RBrace => "}"
    case Comma => "," case Semicolon => ";" case Dot => "." case Colon => ":" case Ampersand => "&"
    case DotDot => ".." case Eq => "=" case Neq => "!=" case Gt => ">" case Lt => "<"
    case Gte => ">=" case Lte => "<="
    case _ => ""
  }

  function EscapeChar(c: char): string {
    if c == '"' then "\\\""
    else if c == '\\' then "\\\\"
    else if c == '\n' then "\\n"
    else if c == '\t' then "\\t"
    else if c == '\r' then "\\r"
    else [c]
  }

  function Escape(s: string): string {
    if s == [] then [] else EscapeChar(s[0]) + Escape(s[1..])
  }

  function Pow10(n: nat): (p: nat)
    ensures p > 0
  {
    if n == 0 then 1 else 10 * Pow10(n - 1)
  }

  /** n in exactly width digits. */
  function Pad(n: nat, width: nat): (s: string)
    ensures |s| == width && AllDigits(s)
  {
    if width == 0 then [] else Pad(n / 10, width - 1) + [DigitChar(n % 10)]
  }

  function IsoText(y: nat, m: nat, d: nat): string { Pad(y, 4) + "-" + Pad(m, 2) + "-" + Pad(d, 2) }

  predicate IsName(s: string) {
    s != [] && (IsLetter(s[0]) || s[0] == '_') && forall i :: 0 <= i < |s| ==> IsWordChar(s[i])
  }

  predicate WellFormed(p: Printable) {
    match p
    case Word(name) => IsName(name)
    case Operator(kind) => OperatorText(kind) != ""
    case Number(_) => true
    case DecimalNumber(_, fraction) => fraction != [] && AllDigits(fraction)
    case Date(y, m, d) => CalendarDate(y, m, d)
    case Quoted(_) => true
  }

  function Print(p: Printable): string {
    match p
    case Word(name) => name
    case Operator(kind) => OperatorText(kind)
    case Number(n) => Show(n)
    case DecimalNumber(whole, fraction) => Show(whole) + "." + fraction
    case Date(y, m, d) => "@" + IsoText(y, m, d)
    case Quoted(content) => "\"" + Escape(content) + "\""
  }

  function KindOf(p: Printable): TokenKind {
    match p
    case Word(name) => WordKind(name)
    case Operator(kind) => kind
    case Number(_) => Integer
    case DecimalNumber(_, _) => Float
    case Date(_, _, _) => Temporal
    case Quoted(_) => StringToken
  }

  /** The digits as a whole number, over the power of ten of their count. */
  function Quotient(digits: string): real
    requires AllDigits(digits)
  {
    Value(digits) as real / Pow10(|digits|) as real
  }

  lemma ValueLast(s: string, n: nat)
    requires |s| == n + 1 && AllDigits(s)
    ensures Value(s) == Value(s[..n]) * 10 + DigitValue(s[n])
  {
  }

  lemma {:induction false} ValueFront(s: string)
    requires s != [] && AllDigits(s)
    ensures Value(s) == DigitValue(s[0]) * Pow10(|s| - 1) + Value(s[1..])
  {
    var n := |s| - 1;
    ValueLast(s, n);
    if n == 0 {
      assert s[..0] == [] && s[1..] == [];
    } else {
      hide Value, DigitValue, Pow10;
      var front, rest := s[..n], s[1..];
      ValueFront(front);
      ValueLast(rest, n - 1);
      assert front[1..] == rest[..n - 1];
      TenTimes(DigitValue(s[0]), n);
    }
  }

  lemma TenTimes(d: nat, n: nat)
    requires n > 0
    ensures d * Pow10(n) == (d * Pow10(n - 1)) * 10
  {
  }

  /** Digits behind a decimal point, summed up from the left, are that quotient. */
  lemma FractionIsQuotient(s: string)
    requires AllDigits(s)
    ensures Fraction(s) == Quotient(s)
  {
    hide Fraction, Pow10, Value;
    FractionTimes(s);
    Divided(Fraction(s), Pow10(|s|) as real, Value(s) as real);
  }

  lemma {:induction false} FractionTimes(s: string)
    requires AllDigits(s)
    ensures Fraction(s) * Pow10(|s|) as real == Value(s) as real
  {
    hide Fraction, Pow10, Value, DigitValue;
    if s == [] {
      NoDigits(s);
    } else {
      FractionTimes(s[1..]);
      ValueFront(s);
      FrontDigit(s);
      var rest, n := s[1..], |s|;
      OneMoreDigit(DigitValue(s[0]), Value(rest), Fraction(rest), Pow10(n - 1), Fraction(s), Pow10(n), Value(s));
    }
  }

  lemma NoDigits(s: string)
    requires s == []
    ensures Fraction(s) == 0.0 && Value(s) == 0
  {
  }

  lemma FrontDigit(s: string)
    requires s != [] && AllDigits(s)
    ensures Fraction(s) == (DigitValue(s[0]) as real + Fraction(s[1..])) / 10.0 && Pow10(|s|) == 10 * Pow10(|s| - 1)
  {
  }

  lemma OneMoreDigit(d: nat, v': nat, f': real, p': nat, f: real, p: nat, v: nat)
    requires f' * p' as real == v' as real
    requires f == (d as real + f') / 10.0 && p == 10 * p' && v == d * p' + v'
    ensures f * p as real == v as real
  {
    var x, q := d as real, p' as real;
    assert p as real == 10.0 * q && v as real == x * q + f' * q;
    assert (x + f') / 10.0 * (10.0 * q) == (x + f') * q;
  }

  lemma Divided(x: real, p: real, v: real)
    requires p > 0.0 && x * p == v
    ensures x == v / p
  {
  }

  function ValueOf(p: Printable): TokenValue
    requires WellFormed(p)
  {
    match p
    case Word(name) => TextValue(name)
    case Operator(kind) => TextValue(OperatorText(kind))
    case Number(n) => WholeValue(n)
    case DecimalNumber(whole, fraction) => DecimalValue(whole as real + Quotient(fraction))
    case Date(y, m, d) => TextValue(IsoText(y, m, d))
    case Quoted(content) => TextValue(content)
  }

  /** The scan reads p: its kind, its value, and exactly its printed text. */
  ghost predicate ReadsAs(e: Element, p: Printable)
    requires WellFormed(p)
  {
    e.Found? && e.kind == KindOf(p) && e.value == ValueOf(p) && e.length == |Print(p)|
  }

  /** What may stand directly behind the printed token without changing how it is read. */
  predicate Separated(p: Printable, rest: string) {
    rest == [] ||
    match p
    case Word(_) => !IsWordChar(rest[0])
    case Operator(kind) =>
      if kind == Dot then rest[0] != '.' else if kind == Gt || kind == Lt then rest[0] != '=' else true
    case Number(_) => !IsDigit(rest[0]) && (rest[0] == '.' ==> StartsWith(rest, '.', '.'))
    case DecimalNumber(_, _) => !IsDigit(rest[0])
    case Date(_, _, _) => EndsTemporal(rest[0]) || StartsWith(rest, '.', '.')
    case Quoted(_) => true
  }

  // ---------------------------------------------------------------- each kind of token

  lemma {:induction false} SpanWhole(p: char -> bool, s: string, rest: string)
    requires forall i :: 0 <= i < |s| ==> p(s[i])
    ensures SpanLength(p, s + rest) == |s| + SpanLength(p, rest)
    ensures SpanLength(p, rest) == 0 <==> rest == [] || !p(rest[0])
  {
    SpanLengthUnique(p, s, |s|);
    SpanLengthAppend(p, s, rest);
    if rest == [] || !p(rest[0]) {
      SpanLengthUnique(p, rest, 0);
    }
  }

  lemma {:induction false} ScanWordPrinted(name: string, rest: string)
    requires IsName(name)
    ensures ReadsAs(Scan(name + rest), Word(name)) <==> Separated(Word(name), rest)
  {
    hide WordKind;
    SpanWhole(IsWordChar, name, rest);
    var n := |name| + SpanLength(IsWordChar, rest);
    assert Scan(name + rest) == ScanWord(name + rest);
    if n == |name| {
      assert (name + rest)[..n] == name;
    }
  }

  lemma {:induction false} ScanOperatorPrinted(kind: TokenKind, rest: string)
    requires OperatorText(kind) != ""
    ensures ReadsAs(Scan(OperatorText(kind) + rest), Operator(kind)) <==> Separated(Operator(kind), rest)
  {
    hide ScanString, ScanTemporal, ScanNumber, ScanWord;
    var s := OperatorText(kind) + rest;
    assert rest != [] ==> s[|OperatorText(kind)|] == rest[0];
  }

  lemma {:induction false} ScanNumberPrinted(n: nat, rest: string)
    ensures ReadsAs(Scan(Show(n) + rest), Number(n)) <==> Separated(Number(n), rest)
  {
    hide Show, Value, Fraction;
    var text := Show(n);
    var s := text + rest;
    assert Scan(s) == ScanNumber(s);
    SpanWhole(IsDigit, text, rest);
    if rest == [] || !IsDigit(rest[0]) {
      assert s[..|text|] == text && s[|text|..] == rest;
    }
  }

  lemma {:induction false} NumberUnfold(s: string, w: nat, tail: string)
    requires s != [] && IsDigit(s[0]) && w == SpanLength(IsDigit, s) && s[w..] == "." + tail
    requires tail != [] && IsDigit(tail[0])
    ensures var f := SpanLength(IsDigit, tail);
            ScanNumber(s)
              == Found(Float, DecimalValue(DecimalOf(s[..w], tail[..f])), s[..w] + "." + tail[..f], w + 1 + f)
  {
    hide Value, Fraction;
    assert s[w..][1..] == tail;
  }

  lemma {:induction false} NumberSplit(text: string, fraction: string, rest: string)
    requires text != [] && AllDigits(text) && fraction != [] && AllDigits(fraction)
    ensures var s, n := text + "." + fraction + rest, |fraction| + SpanLength(IsDigit, rest);
            && ScanNumber(s).Found? && ScanNumber(s).kind == Float
            && ScanNumber(s).length == |text| + 1 + n
            && (n == |fraction| ==> ScanNumber(s).value == DecimalValue(DecimalOf(text, fraction)))
  {
    hide Value, Fraction, ScanNumber;
    var s, tail := text + "." + fraction + rest, fraction + rest;
    assert s == text + ("." + tail);
    SpanWhole(IsDigit, text, "." + tail);
    SpanWhole(IsDigit, fraction, rest);
    assert s[..|text|] == text && s[|text|..] == "." + tail;
    NumberUnfold(s, |text|, tail);
    assert tail[..|fraction|] == fraction;
  }

  lemma {:induction false} ScanDecimalPrinted(whole: nat, fraction: string, rest: string)
    requires fraction != [] && AllDigits(fraction)
    ensures var p := DecimalNumber(whole, fraction);
            ReadsAs(Scan(Print(p) + rest), p) <==> Separated(p, rest)
  {
    hide Show, Value, Fraction, Quotient, ScanNumber;
    var s := Show(whole) + "." + fraction + rest;
    FractionIsQuotient(fraction);
    NumberSplit(Show(whole), fraction, rest);
    SpanWhole(IsDigit, [], rest);
    assert Scan(s) == ScanNumber(s);
  }

  // Dates

  lemma {:induction false} PadValue(n: nat, width: nat)
    requires n < Pow10(width)
    ensures Value(Pad(n, width)) == n
  {
    if width > 0 {
      PadValue(n / 10, width - 1);
      assert Pad(n, width)[..width - 1] == Pad(n / 10, width - 1);
    }
  }

  lemma {:induction false} PadOfValue(s: string)
    requires AllDigits(s)
    ensures Pad(Value(s), |s|) == s
  {
    if s != [] {
      var front, last := s[..|s| - 1], DigitValue(s[|s| - 1]);
      PadOfValue(front);
      assert Value(s) / 10 == Value(front) && Value(s) % 10 == last;
      assert s == front + [s[|s| - 1]];
    }
  }

  /** The characters of a date do not end it. */
  predicate IsDateChar(c: char) { IsDigit(c) || c == '-' }

  lemma {:induction false} TemporalLengthThrough(s: string, rest: string)
    requires forall i :: 0 <= i < |s| ==> IsDateChar(s[i])
    ensures TemporalLength(s + rest) == |s| + TemporalLength(rest)
  {
    if s == [] {
      assert s + rest == rest;
    } else {
      TemporalLengthThrough(s[1..], rest);
      assert (s + rest)[1..] == s[1..] + rest;
    }
  }

  lemma {:induction false} IsoTextShape(y: nat, m: nat, d: nat)
    requires y < 10000 && m < 100 && d < 100
    ensures var s := IsoText(y, m, d);
            && IsoShape(s)
            && Value(s[..4]) == y && Value(s[5..7]) == m && Value(s[8..]) == d
            && forall i :: 0 <= i < |s| ==> IsDateChar(s[i])
  {
    var s := IsoText(y, m, d);
    assert Pow10(2) == 100 && Pow10(4) == 10000;
    PadValue(y, 4);
    PadValue(m, 2);
    PadValue(d, 2);
    assert s[..4] == Pad(y, 4) && s[5..7] == Pad(m, 2) && s[8..] == Pad(d, 2);
  }

  lemma DatesAreShort(y: nat, m: nat, d: nat)
    requires CalendarDate(y, m, d)
    ensures y < 10000 && m < 100 && d < 100
  {
  }

  lemma {:induction false} ScanDatePrinted(y: nat, m: nat, d: nat, rest: string)
    requires CalendarDate(y, m, d)
    ensures var p := Date(y, m, d);
            ReadsAs(Scan(Print(p) + rest), p) <==> Separated(p, rest)
  {
    hide IsoText, Value, CalendarDate;
    var iso := IsoText(y, m, d);
    var s := "@" + iso + rest;
    assert y < 10000 && m < 100 && d < 100 by { DatesAreShort(y, m, d); }
    IsoTextShape(y, m, d);
    TemporalLengthThrough(iso, rest);
    assert s[1..] == iso + rest;
    assert Scan(s) == ScanTemporal(s);
    var n := TemporalLength(rest);
    assert n == 0 <==> Separated(Date(y, m, d), rest);
    assert |s[1..1 + |iso| + n]| == 10 + n;
    if n == 0 {
      assert s[1..1 + |iso|] == iso;
    }
  }

  // Strings

  lemma {:induction false} StringBodyChar(c: char, t: string)
    ensures StringBody(EscapeChar(c) + t) == Prepend(c, |EscapeChar(c)|, StringBody(t))
  {
    var s := EscapeChar(c) + t;
    if |EscapeChar(c)| == 2 {
      assert s[2..] == t;
    } else {
      assert s[1..] == t;
    }
  }

  lemma {:induction false} StringBodyEscaped(content: string, rest: string)
    ensures StringBody(Escape(content) + "\"" + rest) == Closed(content, |Escape(content)| + 1)
  {
    if content == [] {
      assert Escape(content) + "\"" + rest == "\"" + rest;
    } else {
      hide StringBody, EscapeChar;
      var c, tail := content[0], content[1..];
      calc {
        StringBody(Escape(content) + "\"" + rest);
        { assert Escape(content) + "\"" + rest == EscapeChar(c) + (Escape(tail) + "\"" + rest); }
        StringBody(EscapeChar(c) + (Escape(tail) + "\"" + rest));
        { StringBodyChar(c, Escape(tail) + "\"" + rest); }
        Prepend(c, |EscapeChar(c)|, StringBody(Escape(tail) + "\"" + rest));
        { StringBodyEscaped(tail, rest); }
        Prepend(c, |EscapeChar(c)|, Closed(tail, |Escape(tail)| + 1));
        { assert [c] + tail == content; }
        Closed(content, |Escape(content)| + 1);
      }
    }
  }

  lemma {:induction false} ScanQuotedPrinted(content: string, rest: string)
    ensures ReadsAs(Scan(Print(Quoted(content)) + rest), Quoted(content)) && Separated(Quoted(content), rest)
  {
    hide StringBody, Escape;
    var s := "\"" + Escape(content) + "\"" + rest;
    StringBodyEscaped(content, rest);
    assert s[1..] == Escape(content) + "\"" + rest;
    assert Scan(s) == ScanString(s);
  }

  /** A printed token is read back as itself exactly when what follows it separates. */
  lemma {:induction false} ScanPrinted(p: Printable, rest: string)
    requires WellFormed(p)
    ensures ReadsAs(Scan(Print(p) + rest), p) <==> Separated(p, rest)
  {
    hide Scan, Separated, ReadsAs;
    match p
    case Word(name) => ScanWordPrinted(name, rest);
    case Operator(kind) => ScanOperatorPrinted(kind, rest);
    case Number(n) => ScanNumberPrinted(n, rest);
    case DecimalNumber(whole, fraction) => ScanDecimalPrinted(whole, fraction, rest);
    case Date(y, m, d) => ScanDatePrinted(y, m, d, rest);
    case Quoted(content) => ScanQuotedPrinted(content, rest);
  }
}
