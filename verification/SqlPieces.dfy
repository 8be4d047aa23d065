/**
 The splitter seen from the writer's side: a text put together from statements, each a sequence of lexical
 pieces, splits into exactly those statements, whatever the quoted and commented pieces contain.
 */
module SqlPieces {
  import opened Text
  import opened SqlSplitter
  import opened SqlStatements

  datatype Piece =
    | Plain(text: string)
    | Quoted(text: string)                 // any text, its single quotes doubled
    | Named(text: string)                  // any text, its double quotes doubled
    | Dollar(name: string, text: string)   // any text between two tags of that name
    | Remark(text: string)
    | BlockRemark(text: string)

  function Doubled(s: string, quote: char): string {
    if s == [] then []
    else (if s[0] == quote then [quote, quote] else [s[0]]) + Doubled(s[1..], quote)
  }

  function Show(p: Piece): string {
    match p
    case Plain(text) => text
    case Quoted(text) => "'" + Doubled(text, '\'') + "'"
    case Named(text) => "\"" + Doubled(text, '"') + "\""
    case Dollar(name, text) => Tag(name) + text + Tag(name)
    case Remark(text) => "--" + text + "\n"
    case BlockRemark(text) => "/*" + text + "*/"
  }

  function Tag(name: string): string { "$" + name + "$" }

  /** Nothing, or a letter or underscore and then letters, digits and underscores. */
  predicate IsTagName(name: string) {
    forall i :: 0 <= i < |name| ==> IsLetter(name[i]) || name[i] == '_' || (i > 0 && '0' <= name[i] <= '9')
  }

  predicate PlainChar(c: char) { c != ';' && c != '\'' && c != '"' && c != '$' }

  /** Plain text has no quote or separator, no comment mark, and does not end in half of one. */
  predicate IsPlain(s: string) {
    && (forall i :: 0 <= i < |s| ==> PlainChar(s[i]))
    && (forall i :: 0 <= i < |s| - 1 ==> !(s[i] == '-' && s[i + 1] == '-') && !(s[i] == '/' && s[i + 1] == '*'))
    && (s != [] ==> s[|s| - 1] != '-' && s[|s| - 1] != '/')
  }

  /** The tag does not end the quoted text early, not even together with the closing tag. */
  predicate NoTagIn(tag: string, text: string) { forall i :: 0 <= i < |text| ==> !(tag <= (text + tag)[i..]) }

  predicate NoBlockEnd(text: string) {
    forall i :: 0 <= i < |text| ==> !(text[i] == '*' && (text + "*/")[i + 1] == '/')
  }

  predicate Writable(p: Piece) {
    match p
    case Plain(text) => IsPlain(text)
    case Quoted(_) => true
    case Named(_) => true
    case Dollar(name, text) => IsTagName(name) && NoTagIn(Tag(name), text)
    case Remark(text) => '\n' !in text
    case BlockRemark(text) => NoBlockEnd(text)
  }

  function ShowAll(pieces: seq<Piece>): string {
    if pieces == [] then [] else Show(pieces[0]) + ShowAll(pieces[1..])
  }

  // ---------------------------------------------------------------- steps in sequence

  /** Reading s in the first mode leads to the second, without a separator, whatever follows. */
  predicate Passes(mode: Mode, s: string, next: Mode, rest: string) {
    && Proper(mode) && Proper(next)
    && Segments(mode, s + rest) == Prepend(s, Segments(next, rest))
  }

  lemma PassStep(mode: Mode, s: string, next: Mode, rest: string)
    requires Proper(mode) && s != [] && !(mode.Code? && s[0] == ';')
    requires Step(mode, s + rest) == (|s|, next)
    ensures Passes(mode, s, next, rest)
  {
    assert (s + rest)[..|s|] == s && (s + rest)[|s|..] == rest;
    assert (s + rest)[0] == s[0];
  }

  lemma PassThen(mode: Mode, s: string, middle: Mode, t: string, next: Mode, rest: string)
    requires Passes(mode, s, middle, t + rest) && Passes(middle, t, next, rest)
    ensures Passes(mode, s + t, next, rest)
  {
    assert (s + t) + rest == s + (t + rest);
    var later := Segments(next, rest);
    assert s + (t + later[0]) == (s + t) + later[0];
  }

  lemma PassNothing(mode: Mode, rest: string)
    requires Proper(mode)
    ensures Passes(mode, "", mode, rest)
  {
    assert "" + rest == rest;
    PrependNothing(Segments(mode, rest));
  }

  // ---------------------------------------------------------------- each kind of piece

  lemma {:induction false} PlainPasses(s: string, rest: string)
    requires IsPlain(s)
    ensures Passes(Code, s, Code, rest)
  {
    hide Passes;
    if s == [] { PassNothing(Code, rest); return; }
    var head, tail := s[..1], s[1..];
    assert head + tail == s;
    PlainPasses(tail, rest);
    assert head + (tail + rest) == s + rest;
    assert |s| > 1 ==> (s + rest)[1] == s[1];
    PassStep(Code, head, Code, tail + rest);
    PassThen(Code, head, Code, tail, Code, rest);
  }

  lemma {:induction false} QuotesPass(mode: Mode, quote: char, s: string, rest: string)
    requires (mode.SingleQuoted? && quote == '\'') || (mode.DoubleQuoted? && quote == '"')
    ensures Passes(mode, Doubled(s, quote) + [quote], Code, rest)
  {
    hide Passes;
    if s == [] {
      assert Doubled(s, quote) + [quote] == [quote];
      PassStep(mode, [quote], Code, rest);
      return;
    }
    var tail := Doubled(s[1..], quote) + [quote];
    QuotesPass(mode, quote, s[1..], rest);
    if s[0] == quote {
      PassStep(Code, [quote], mode, tail + rest);
      PassThen(Code, [quote], mode, tail, Code, rest);
      PassStep(mode, [quote], Code, ([quote] + tail) + rest);
      PassThen(mode, [quote], Code, [quote] + tail, Code, rest);
      assert [quote] + ([quote] + tail) == Doubled(s, quote) + [quote];
    } else {
      PassStep(mode, [s[0]], mode, tail + rest);
      PassThen(mode, [s[0]], mode, tail, Code, rest);
      assert [s[0]] + tail == Doubled(s, quote) + [quote];
    }
  }

  lemma {:induction false} DollarPasses(tag: string, s: string, rest: string)
    requires tag != [] && NoTagIn(tag, s)
    ensures Passes(DollarQuoted(tag), s + tag, Code, rest)
  {
    hide Passes;
    var mode := DollarQuoted(tag);
    if s == [] {
      assert s + tag == tag;
      PassStep(mode, tag, Code, rest);
      return;
    }
    var head, tail := s[..1], s[1..] + tag;
    assert head + tail == s + tag;
    NoTagInTail(tag, s);
    DollarPasses(tag, s[1..], rest);
    assert (s + tag)[0..] == s + tag;
    assert head + (tail + rest) == (s + tag) + rest;
    assert ((s + tag) + rest)[..|tag|] == (s + tag)[..|tag|];
    PassStep(mode, head, mode, tail + rest);
    PassThen(mode, head, mode, tail, Code, rest);
  }

  lemma NoTagInTail(tag: string, s: string)
    requires s != [] && NoTagIn(tag, s)
    ensures NoTagIn(tag, s[1..])
  {
    forall i | 0 <= i < |s| - 1 ensures !(tag <= (s[1..] + tag)[i..]) {
      assert (s[1..] + tag)[i..] == (s + tag)[i + 1..];
    }
  }

  lemma {:induction false} LinePasses(s: string, rest: string)
    requires '\n' !in s
    ensures Passes(LineComment, s + "\n", Code, rest)
  {
    hide Passes;
    if s == [] {
      assert s + "\n" == "\n";
      PassStep(LineComment, "\n", Code, rest);
      return;
    }
    var head, tail := s[..1], s[1..] + "\n";
    assert head + tail == s + "\n";
    LinePasses(s[1..], rest);
    assert s[0] in s;
    PassStep(LineComment, head, LineComment, tail + rest);
    PassThen(LineComment, head, LineComment, tail, Code, rest);
  }

  lemma {:induction false} BlockPasses(s: string, rest: string)
    requires NoBlockEnd(s)
    ensures Passes(BlockComment, s + "*/", Code, rest)
  {
    hide Passes;
    if s == [] {
      assert s + "*/" == "*/";
      PassStep(BlockComment, "*/", Code, rest);
      return;
    }
    var head, tail := s[..1], s[1..] + "*/";
    assert head + tail == s + "*/";
    BlockPasses(s[1..], rest);
    assert (head + (tail + rest))[1] == tail[0] == (s + "*/")[1];
    PassStep(BlockComment, head, BlockComment, tail + rest);
    PassThen(BlockComment, head, BlockComment, tail, Code, rest);
  }

  lemma {:induction false} TagReads(name: string, rest: string)
    requires IsTagName(name)
    ensures DollarTag(Tag(name) + rest) == Some(Tag(name))
  {
    var s := Tag(name) + rest;
    if name == "" {
      assert s[..2] == Tag(name);
    } else {
      var n := |name| + 1;
      assert name[0] == s[1] && s[n] == '$' && s[..n + 1] == Tag(name);
      forall k | 1 <= k < n ensures IsWordChar(s[k]) { assert s[k] == name[k - 1]; }
      SpanEndAt(IsWordChar, s, 1, n);
    }
  }

  lemma {:induction false} SpanEndAt(p: char -> bool, s: string, i: nat, n: nat)
    requires i <= n < |s| && !p(s[n]) && forall k :: i <= k < n ==> p(s[k])
    ensures SpanEnd(p, s, i) == n
    decreases n - i
  {
    if i < n { SpanEndAt(p, s, i + 1, n); }
  }

  /** A dollar quote opens exactly where a name stands between two dollar signs. */
  lemma DollarTagExactly(s: string, name: string)
    ensures IsTagName(name) && Tag(name) <= s <==> DollarTag(s) == Some(Tag(name))
    ensures DollarTag(s).Some? ==> DollarTag(s).value == Tag(DollarTag(s).value[1..|DollarTag(s).value| - 1])
  {
    if IsTagName(name) && Tag(name) <= s {
      TagReads(name, s[|name| + 2..]);
      assert Tag(name) + s[|name| + 2..] == s;
    }
    if DollarTag(s).Some? {
      var tag := DollarTag(s).value;
      var inner := tag[1..|tag| - 1];
      forall i | 0 <= i < |inner| ensures IsLetter(inner[i]) || inner[i] == '_' || (i > 0 && IsDigit(inner[i])) {
        assert inner[i] == s[i + 1];
      }
      assert tag == ['$'] + inner + ['$'];
      assert tag == Tag(name) ==> name == inner;
    }
  }

  lemma Opened(opening: string, mode: Mode, body: string, rest: string)
    requires opening != [] && opening[0] != ';'
    requires Step(Code, opening + (body + rest)) == (|opening|, mode)
    requires Passes(mode, body, Code, rest)
    ensures Passes(Code, opening + body, Code, rest)
  {
    hide Step, Passes;
    PassStep(Code, opening, mode, body + rest);
    PassThen(Code, opening, mode, body, Code, rest);
  }

  lemma DollarPiecePasses(name: string, text: string, rest: string)
    requires IsTagName(name) && NoTagIn(Tag(name), text)
    ensures Passes(Code, Tag(name) + text + Tag(name), Code, rest)
  {
    hide Passes, IsTagName, DollarTag, NoTagIn;
    var tag := Tag(name);
    DollarPasses(tag, text, rest);
    TagReads(name, (text + tag) + rest);
    Opened(tag, DollarQuoted(tag), text + tag, rest);
    assert tag + (text + tag) == tag + text + tag;
  }

  /** Any piece begins and ends in code, without a separator. */
  lemma {:induction false} PiecePasses(p: Piece, rest: string)
    requires Writable(p)
    ensures Passes(Code, Show(p), Code, rest)
  {
    hide Passes, DollarTag, IsTagName, NoTagIn, Tag;
    match p
    case Plain(text) => PlainPasses(text, rest);
    case Quoted(text) =>
      QuotesPass(SingleQuoted, '\'', text, rest);
      Opened("'", SingleQuoted, Doubled(text, '\'') + "'", rest);
      assert "'" + (Doubled(text, '\'') + "'") == Show(p);
    case Named(text) =>
      QuotesPass(DoubleQuoted, '"', text, rest);
      Opened("\"", DoubleQuoted, Doubled(text, '"') + "\"", rest);
      assert "\"" + (Doubled(text, '"') + "\"") == Show(p);
    case Dollar(name, text) => DollarPiecePasses(name, text, rest);
    case Remark(text) =>
      LinePasses(text, rest);
      Opened("--", LineComment, text + "\n", rest);
      assert "--" + (text + "\n") == Show(p);
    case BlockRemark(text) =>
      BlockPasses(text, rest);
      Opened("/*", BlockComment, text + "*/", rest);
      assert "/*" + (text + "*/") == Show(p);
  }

  lemma {:induction false} PiecesPass(pieces: seq<Piece>, rest: string)
    requires forall i :: 0 <= i < |pieces| ==> Writable(pieces[i])
    ensures Passes(Code, ShowAll(pieces), Code, rest)
  {
    hide Passes, Writable, Show;
    if pieces == [] { PassNothing(Code, rest); return; }
    PiecePasses(pieces[0], ShowAll(pieces[1..]) + rest);
    PiecesPass(pieces[1..], rest);
    PassThen(Code, Show(pieces[0]), Code, ShowAll(pieces[1..]), Code, rest);
  }

  function Texts(statements: seq<seq<Piece>>): (r: seq<string>)
    ensures |r| == |statements|
  {
    if statements == [] then [] else [ShowAll(statements[0])] + Texts(statements[1..])
  }

  /** Written with semicolons between them, any statements are found again, and nothing else is. */
  lemma {:induction false} WrittenStatementsFound(statements: seq<seq<Piece>>)
    requires statements != []
    requires forall k, i :: 0 <= k < |statements| && 0 <= i < |statements[k]| ==> Writable(statements[k][i])
    ensures Segments(Code, Join(Texts(statements), ';')) == Texts(statements)
  {
    hide Writable, Show, ShowAll;
    var first, texts := ShowAll(statements[0]), Texts(statements);
    if |statements| == 1 {
      PiecesPass(statements[0], "");
      assert first + "" == first && Segments(Code, "") == [""];
      assert texts == [first];
    } else {
      var rest := Join(texts[1..], ';');
      assert texts[1..] == Texts(statements[1..]);
      WrittenStatementsFound(statements[1..]);
      PiecesPass(statements[0], [';'] + rest);
      assert first + ([';'] + rest) == Join(texts, ';');
      assert ([';'] + rest)[1..] == rest;
      assert Segments(Code, [';'] + rest) == [""] + texts[1..];
      assert first + "" == first;
    }
  }

  // ---------------------------------------------------------------- where the comment stripper differs

  lemma {:induction false} BlockEndsAt(s: string, i: nat, rest: string)
    requires i <= |s| && '*' !in s
    ensures BlockEnd(s + "*/" + rest, i) == Some(|s| + 2)
    decreases |s| - i
  {
    if i < |s| {
      assert (s + "*/" + rest)[i] == s[i] && s[i] in s;
      BlockEndsAt(s, i + 1, rest);
    }
  }

  /**
   The filter drops statements that the scanner sees as code: when the comments around them hold slash-star and
   star-slash, the stripper takes all between for a comment. This is so for any plain code without stars.
   */
  lemma FilterDropsCode(code: string)
    requires IsPlain(code) && '*' !in code
    ensures var q := "--/*\n" + code + "--*/\n"; Segments(Code, q) == [q] && !IsStatement(q)
  {
    var q := "--/*\n" + code + "--*/\n";
    assert Segments(Code, q) == [q] by { CodeBetweenRemarks(code); }
    var s := "/*\n" + code + "--" + "*/" + "\n";
    assert q == "--" + s;
    assert '*' !in ("\n" + code + "--");
    BlockEndAfterOpening(code);
    hide Segments, BlockEnd, IsPlain;
    assert s[|s| - 1..] == "\n";
    assert WithoutBlocks("\n") == "\n" + WithoutBlocks("");
    assert WithoutBlocks(s) == " " + WithoutBlocks("\n");
    StripRemark(q, s);
  }

  lemma CodeBetweenRemarks(code: string)
    requires IsPlain(code)
    ensures var q := "--/*\n" + code + "--*/\n"; Segments(Code, q) == [q]
  {
    var q := "--/*\n" + code + "--*/\n";
    var first, second, third := Remark("/*"), Plain(code), Remark("*/");
    PiecePasses(third, "");
    PiecePasses(second, Show(third) + "");
    PassThen(Code, code, Code, Show(third), Code, "");
    PiecePasses(first, (code + Show(third)) + "");
    PassThen(Code, Show(first), Code, code + Show(third), Code, "");
    assert Show(first) + (code + Show(third)) == q;
    assert q + "" == q;
  }

  lemma BlockEndAfterOpening(code: string)
    requires '*' !in code
    ensures var s := "/*\n" + code + "--" + "*/" + "\n"; BlockEnd(s, 2) == Some(|s| - 1)
  {
    var inner := "\n" + code + "--";
    BlockEndShift(inner + "*/" + "\n", 0);
    BlockEndsAt(inner, 0, "\n");
    assert "/*" + (inner + "*/" + "\n") == "/*\n" + code + "--" + "*/" + "\n";
  }

  lemma {:induction false} BlockEndShift(s: string, i: nat)
    requires i <= |s|
    ensures BlockEnd("/*" + s, i + 2) == match BlockEnd(s, i) { case None => None case Some(e) => Some(e + 2) }
    decreases |s| - i
  {
    if i + 2 <= |s| { BlockEndShift(s, i + 1); }
  }

  lemma StripRemark(q: string, s: string)
    requires q == "--" + s && s != [] && s[0] == '/' && WithoutBlocks(s) == " \n"
    ensures StripSqlComments(q) == []
  {
    assert q[1..] == "-" + s && q[1..][1..] == s;
    assert WithoutBlocks(q[1..]) == "-" + " \n";
    assert WithoutBlocks(q) == "-- \n";
    var t := "-- \n";
    assert SpanEnd(InLine, t, 2) == 3;
    assert t[3..] == "\n";
    assert WithoutLines("\n") == "\n" + WithoutLines("");
    assert WithoutLines(t) == " \n";
    assert TrimRight(" \n") == TrimRight(" ") by { assert " \n"[..1] == " "; }
    assert TrimRight(" ") == TrimRight("") by { assert " "[..0] == ""; }
  }
}
