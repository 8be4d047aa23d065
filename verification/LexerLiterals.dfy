/**
 What the lexer's tables amount to, said without them: the calendar, the keywords, escapes, blank space, and what may
 stand behind a date.
 */
module LexerLiterals {
  import opened Text
  import opened Decimals
  import opened AltrqlLexer
  import opened LexerPrinting

  // ---------------------------------------------------------------- the calendar

  /** How many of the years 1 to y are leap years. */
  function LeapYears(y: nat): nat { if y == 0 then 0 else LeapYears(y - 1) + if LeapYear(y) then 1 else 0 }

  /** One year in four, but not in a hundred, but in four hundred: counted up to any year. */
  lemma {:induction false} LeapYearsCounted(y: nat)
    ensures LeapYears(y) == y / 4 - y / 100 + y / 400
  {
    if y > 0 {
      LeapYearsCounted(y - 1);
      hide LeapYear;
      assert y / 4 == (y - 1) / 4 + Multiple(y, 4);
      assert y / 100 == (y - 1) / 100 + Multiple(y, 100);
      assert y / 400 == (y - 1) / 400 + Multiple(y, 400);
      LeapByMultiples(y);
    }
  }

  function Multiple(y: nat, n: nat): nat
    requires n > 0
  {
    if y % n == 0 then 1 else 0
  }

  lemma LeapByMultiples(y: nat)
    ensures (if LeapYear(y) then 1 else 0) == Multiple(y, 4) - Multiple(y, 100) + Multiple(y, 400)
  {
    Hundreds(y);
    FourHundreds(y);
  }

  lemma Hundreds(y: nat)
    ensures y % 100 == 0 ==> y % 4 == 0
  {
    if y % 100 == 0 { Remainderless(4, 25 * (y / 100), y); }
  }

  lemma FourHundreds(y: nat)
    ensures y % 400 == 0 ==> y % 100 == 0
  {
    if y % 400 == 0 { Remainderless(100, 4 * (y / 400), y); }
  }

  lemma Remainderless(n: nat, q: nat, y: nat)
    requires n in {4, 100} && y == n * q
    ensures y % n == 0
  {
  }

  /** The days of the first m months of a year. */
  function DaysOf(y: nat, m: nat): nat { if m == 0 then 0 else DaysOf(y, m - 1) + DaysInMonth(y, m) }

  /** The twelve months of every year, and the 365 or 366 days that they make. */
  lemma MonthsOfYear(y: nat)
    ensures var february := if LeapYear(y) then 29 else 28;
            forall m :: 1 <= m <= 12 ==>
              DaysInMonth(y, m) == [31, february, 31, 30, 31, 30, 31, 31, 30, 31, 30, 31][m - 1]
    ensures DaysOf(y, 12) == if LeapYear(y) then 366 else 365
  {
    assert DaysOf(y, 2) == DaysOf(y, 0) + DaysInMonth(y, 1) + DaysInMonth(y, 2);
    assert DaysOf(y, 4) == DaysOf(y, 2) + 61 && DaysOf(y, 6) == DaysOf(y, 4) + 61;
    assert DaysOf(y, 8) == DaysOf(y, 6) + 62 && DaysOf(y, 10) == DaysOf(y, 8) + 61;
  }

  predicate IsDay(y: nat, m: nat, d: nat) {
    var february := if LeapYear(y) then 29 else 28;
    1 <= y <= 9999 && 1 <= m <= 12 && 1 <= d <= [31, february, 31, 30, 31, 30, 31, 31, 30, 31, 30, 31][m - 1]
  }

  /** Of all texts of four, two and two digits exactly those are read that are a day of the calendar. */
  lemma DateReadExactly(y: nat, m: nat, d: nat)
    requires y < 10000 && m < 100 && d < 100
    ensures Scan("@" + IsoText(y, m, d)) ==
              if IsDay(y, m, d) then Found(Temporal, TextValue(IsoText(y, m, d)), "@" + IsoText(y, m, d), 11)
              else Bad(InvalidCalendarDate)
  {
    hide Value, IsoText, IsDay, CalendarDate;
    var iso := IsoText(y, m, d);
    var s := "@" + iso;
    IsoTextShape(y, m, d);
    TemporalLengthThrough(iso, "");
    assert iso + "" == iso && s[1..] == iso && TemporalLength(iso) == 10 && s[1..11] == iso;
    assert Scan(s) == ScanTemporal(s) == ClassifyTemporal(iso);
    DaysOfCalendar(y, m, d);
  }

  lemma DaysOfCalendar(y: nat, m: nat, d: nat)
    ensures CalendarDate(y, m, d) <==> IsDay(y, m, d)
  {
    if 1 <= m <= 12 { MonthsOfYear(y); }
  }

  // ---------------------------------------------------------------- words

  function KeywordText(kind: TokenKind): string {
    match kind
    case Get => "GET" case Create => "CREATE" case Update => "UPDATE" case Delete => "DELETE" case Where => "WHERE"
    case And => "AND" case Or => "OR" case Sort => "SORT" case Asc => "ASC" case Desc => "DESC" case Top => "TOP"
    case Bottom => "BOTTOM" case By => "BY" case Limit => "LIMIT" case Offset => "OFFSET" case As => "AS"
    case Not => "NOT" case Has => "HAS" case Starts => "STARTS" case Ends => "ENDS" case True => "TRUE"
    case False => "FALSE" case Null => "NULL" case Today => "TODAY" case Now => "NOW"
    case _ => ""
  }

  lemma ShortKeyword(word: string)
    requires word in RESERVED_KEYWORDS && |word| <= 3
    ensures KeywordText(RESERVED_KEYWORDS[word]) == word
  {
  }

  lemma FourLetterKeyword(word: string)
    requires word in RESERVED_KEYWORDS && |word| == 4
    ensures KeywordText(RESERVED_KEYWORDS[word]) == word
  {
  }

  lemma LongKeyword(word: string)
    requires word in RESERVED_KEYWORDS && |word| > 4
    ensures KeywordText(RESERVED_KEYWORDS[word]) == word
  {
  }

  lemma ShortText(kind: TokenKind)
    requires 0 < |KeywordText(kind)| <= 3
    ensures KeywordText(kind) in RESERVED_KEYWORDS && RESERVED_KEYWORDS[KeywordText(kind)] == kind
  {
  }

  lemma FourLetterText(kind: TokenKind)
    requires |KeywordText(kind)| == 4
    ensures KeywordText(kind) in RESERVED_KEYWORDS && RESERVED_KEYWORDS[KeywordText(kind)] == kind
  {
  }

  lemma FiveLetterText(kind: TokenKind)
    requires |KeywordText(kind)| == 5
    ensures KeywordText(kind) in RESERVED_KEYWORDS && RESERVED_KEYWORDS[KeywordText(kind)] == kind
  {
  }

  lemma LongText(kind: TokenKind)
    requires |KeywordText(kind)| > 5
    ensures KeywordText(kind) in RESERVED_KEYWORDS && RESERVED_KEYWORDS[KeywordText(kind)] == kind
  {
  }

  /** A word is the keyword of that spelling, and an identifier if it is no keyword's. */
  lemma KeywordsExactly(word: string, kind: TokenKind)
    requires word != ""
    ensures WordKind(word) == kind <==>
              KeywordText(kind) == word || (kind == Identifier && forall k :: KeywordText(k) != word)
  {
    hide KeywordText;
    assert KeywordText(Identifier) == "" by { NoKeyword(); }
    if word in RESERVED_KEYWORDS {
      if |word| <= 3 {
        ShortKeyword(word);
      } else if |word| == 4 {
        FourLetterKeyword(word);
      } else {
        LongKeyword(word);
      }
    }
    forall k | KeywordText(k) == word ensures word in RESERVED_KEYWORDS && RESERVED_KEYWORDS[word] == k {
      if |word| <= 3 {
        ShortText(k);
      } else if |word| == 4 {
        FourLetterText(k);
      } else if |word| == 5 {
        FiveLetterText(k);
      } else {
        LongText(k);
      }
    }
  }

  lemma NoKeyword()
    ensures KeywordText(Identifier) == ""
  {
  }

  // ---------------------------------------------------------------- single characters

  /** A backslash and a letter n, t or r make a control character; any other character stands for itself. */
  lemma EscapeReads(c: char, t: string)
    ensures var code := if c == 'n' then 10 else if c == 't' then 9 else if c == 'r' then 13 else c as int;
            StringBody(['\\', c] + t) == Prepend(code as char, 2, StringBody(t))
  {
    assert (['\\', c] + t)[2..] == t;
  }

  /** A single character is skipped exactly if it is a tab, line feed, carriage return or space. */
  lemma BlankSkipped(s: string)
    requires s != []
    ensures Scan(s) == Skip(1) <==> s[0] as int in {9, 10, 13, 32}
  {
    hide ScanString, ScanTemporal, ScanNumber, ScanWord;
  }

  /** A date is read exactly up to these characters, two dots, or the end. */
  lemma DateEnds(y: nat, m: nat, d: nat, rest: string)
    requires CalendarDate(y, m, d)
    ensures ReadsAs(Scan("@" + IsoText(y, m, d) + rest), Date(y, m, d)) <==>
              rest == "" || rest[0] in " \t\r\n,;)}({&=!<>/" || ".." <= rest
  {
    hide Scan, CalendarDate, ReadsAs;
    ScanDatePrinted(y, m, d, rest);
    if rest != "" { assert EndsTemporal(rest[0]) <==> rest[0] in " \t\r\n,;)}({&=!<>/"; }
  }
}
