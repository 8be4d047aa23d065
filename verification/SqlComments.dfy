/**
 The comment filter as a reader of texts, beside the scanner: when they agree on which statements hold code, and how
 they part.
 */
module SqlComments {
  import opened Text
  import opened SqlSplitter
  import opened SqlPieces

  // ---------------------------------------------------------------- what the scanner sees

  predicate OpensComment(s: string) { Starts(s, '-', '-') || Starts(s, '/', '*') }

  /** The scanner is about to read code at the start of s: neither blank nor the start of a comment. */
  predicate AtCode(mode: Mode, s: string)
    requires s != []
  {
    mode.Code? && !IsSpace(s[0]) && !OpensComment(s)
  }

  /** The scanner reads code: a quote, or any character that is not blank, outside comments. */
  predicate ReadsCode(mode: Mode, s: string)
    requires Proper(mode)
    decreases |s|
  {
    s != [] && (AtCode(mode, s) || var (width, next) := Step(mode, s); ReadsCode(next, s[width..]))
  }

  /** Without having read code, the scanner ends inside a block comment. */
  predicate EndsInBlock(mode: Mode, s: string)
    requires Proper(mode)
    decreases |s|
  {
    if s == [] then mode.BlockComment?
    else !AtCode(mode, s) && var (width, next) := Step(mode, s); EndsInBlock(next, s[width..])
  }

  /** The text begins with a closed block comment that reaches beyond its line. */
  predicate LongBlock(s: string) {
    Starts(s, '/', '*') && BlockEnd(s, 2).Some? && '\n' in s[..BlockEnd(s, 2).value]
  }

  /** Before any code, a line comment holds the start of a block that is closed on a later line. */
  predicate BlockBeyondLine(mode: Mode, s: string)
    requires Proper(mode)
    decreases |s|
  {
    s != [] && !AtCode(mode, s)
    && ((mode.LineComment? && LongBlock(s)) || var (width, next) := Step(mode, s); BlockBeyondLine(next, s[width..]))
  }

  /** All three at once. */
  datatype Sight = Sight(code: bool, open: bool, long: bool)

  function Seen(mode: Mode, s: string): Sight
    requires Proper(mode)
  {
    Sight(ReadsCode(mode, s), EndsInBlock(mode, s), BlockBeyondLine(mode, s))
  }

  // ---------------------------------------------------------------- what the filter reads

  /**
   The filter in one pass. It has the scanner's modes for code and line comments; what sets it apart is that a block
   comment counts only if it is closed, and then also inside a line comment.
   */
  predicate FilterReads(mode: Mode, s: string)
    requires mode.Code? || mode.LineComment?
    decreases |s|
  {
    if s == [] then false
    else if Starts(s, '/', '*') && BlockEnd(s, 2).Some? then FilterReads(mode, s[BlockEnd(s, 2).value..])
    else if mode.LineComment? then FilterReads(if s[0] == '\n' then Code else LineComment, s[1..])
    else if Starts(s, '-', '-') then FilterReads(LineComment, s[2..])
    else !IsSpace(s[0]) || FilterReads(Code, s[1..])
  }

  predicate HasText(t: string) { exists i :: 0 <= i < |t| && !IsSpace(t[i]) }

  lemma {:induction false} TrimRightText(t: string)
    ensures HasText(TrimRight(t)) <==> HasText(t)
  {
    if t != [] && IsSpace(t[|t| - 1]) {
      var front := t[..|t| - 1];
      TrimRightText(front);
      if i :| 0 <= i < |t| && !IsSpace(t[i]) { assert front[i] == t[i]; }
      if i :| 0 <= i < |front| && !IsSpace(front[i]) { assert t[i] == front[i]; }
    }
  }

  lemma {:induction false} TrimLeftText(t: string)
    ensures TrimLeft(t) != [] <==> HasText(t)
  {
    if t != [] && IsSpace(t[0]) {
      TrimLeftText(t[1..]);
      if i :| 0 <= i < |t| && !IsSpace(t[i]) { assert t[1..][i - 1] == t[i]; }
      if i :| 0 <= i < |t[1..]| && !IsSpace(t[1..][i]) { assert t[i + 1] == t[1..][i]; }
    }
  }

  lemma HasTextMore(c: char, t: string)
    ensures HasText([c] + t) <==> !IsSpace(c) || HasText(t)
  {
    if i :| 0 <= i < |t| && !IsSpace(t[i]) { assert ([c] + t)[i + 1] == t[i]; }
    if i :| 0 <= i < |[c] + t| && !IsSpace(([c] + t)[i]) && i > 0 { assert t[i - 1] == ([c] + t)[i]; }
    assert ([c] + t)[0] == c;
  }

  /** Text is left when line comments are removed. */
  predicate Left(t: string) { HasText(WithoutLines(t)) }

  lemma LeftPlain(c: char, t: string)
    requires !Starts([c] + t, '-', '-')
    ensures Left([c] + t) <==> !IsSpace(c) || Left(t)
  {
    hide HasText;
    var s := [c] + t;
    assert s[1..] == t && WithoutLines(s) == [c] + WithoutLines(t);
    HasTextMore(c, WithoutLines(t));
  }

  lemma LeftNothing()
    ensures !Left("")
  {
  }

  /** Where the removal of a line comment ends: at the first newline of its text. */
  lemma {:induction false} RemarkEnd(t: string, i: nat)
    requires i <= |t| && '\n' !in t[..i]
    ensures SpanEnd(InLine, "--" + t, 2) == SpanEnd(InLine, "--" + t, 2 + i)
  {
    if i > 0 {
      assert t[..i][..i - 1] == t[..i - 1] && ("--" + t)[1 + i] == t[i - 1] && t[i - 1] in t[..i];
      RemarkEnd(t, i - 1);
    }
  }

  lemma {:induction false} RemarkShorter(c: char, t: string, i: nat)
    requires i <= |t|
    ensures SpanEnd(InLine, "--" + ([c] + t), 3 + i) == 1 + SpanEnd(InLine, "--" + t, 2 + i)
    decreases |t| - i
  {
    if i < |t| && t[i] != '\n' { RemarkShorter(c, t, i + 1); }
  }

  /** What is left of a line comment does not depend on its characters, and begins behind its newline. */
  lemma LeftInLine(c: char, t: string)
    ensures Left("--" + ([c] + t)) <==> if c == '\n' then Left(t) else Left("--" + t)
  {
    hide HasText, SpanEnd;
    var u := "--" + ([c] + t);
    if c == '\n' {
      assert SpanEnd(InLine, u, 2) == 2 by { LineEndsThere(t); }
      assert u[2..] == ['\n'] + t && WithoutLines(u) == " " + WithoutLines(['\n'] + t);
      HasTextMore(' ', WithoutLines(['\n'] + t));
      LeftPlain('\n', t);
    } else {
      assert ([c] + t)[..1] == [c];
      RemarkEnd([c] + t, 1);
      RemarkShorter(c, t, 0);
      var n := SpanEnd(InLine, "--" + t, 2);
      assert u[n + 1..] == ("--" + t)[n..];
      assert WithoutLines(u) == WithoutLines("--" + t);
    }
  }

  lemma LineEndsThere(t: string)
    ensures SpanEnd(InLine, "--" + (['\n'] + t), 2) == 2
  {
  }

  lemma LeftEmptyLine()
    ensures !Left("--")
  {
    assert SpanEnd(InLine, "--", 2) == 2 && "--"[2..] == "";
    assert WithoutLines("--") == " " + WithoutLines("");
  }

  /** The text before the filter removes blocks, for a reader in code or in a line comment. */
  function Before(mode: Mode, t: string): string { if mode.LineComment? then "--" + t else t }

  lemma BlocksStart(t: string)
    ensures WithoutBlocks(t) == [] <==> t == []
    ensures t != [] ==> WithoutBlocks(t)[0] == t[0] || WithoutBlocks(t)[0] == ' '
  {
  }

  lemma ClosedBlockLeft(mode: Mode, s: string)
    requires mode.Code? || mode.LineComment?
    requires Starts(s, '/', '*') && BlockEnd(s, 2).Some?
    ensures Left(Before(mode, WithoutBlocks(s))) <==> Left(Before(mode, WithoutBlocks(s[BlockEnd(s, 2).value..])))
  {
    hide Left, BlockEnd;
    var rest := WithoutBlocks(s[BlockEnd(s, 2).value..]);
    assert WithoutBlocks(s) == [' '] + rest;
    if mode.LineComment? { LeftInLine(' ', rest); } else { LeftPlain(' ', rest); }
  }

  lemma CharLeft(mode: Mode, s: string)
    requires mode.Code? || mode.LineComment?
    requires s != [] && !(Starts(s, '/', '*') && BlockEnd(s, 2).Some?) && !(mode.Code? && Starts(s, '-', '-'))
    ensures mode.LineComment? ==>
              (Left(Before(mode, WithoutBlocks(s))) <==>
                 Left(Before(if s[0] == '\n' then Code else LineComment, WithoutBlocks(s[1..]))))
    ensures mode.Code? ==> (Left(WithoutBlocks(s)) <==> !IsSpace(s[0]) || Left(WithoutBlocks(s[1..])))
  {
    hide Left, BlockEnd;
    var rest := WithoutBlocks(s[1..]);
    assert WithoutBlocks(s) == [s[0]] + rest;
    BlocksStart(s[1..]);
    if mode.LineComment? { LeftInLine(s[0], rest); } else { LeftPlain(s[0], rest); }
  }

  /** The filter, as it is programmed in two passes, leaves text exactly if the reader reads some. */
  lemma {:induction false} LeftIsRead(mode: Mode, s: string)
    requires mode.Code? || mode.LineComment?
    ensures Left(Before(mode, WithoutBlocks(s))) <==> FilterReads(mode, s)
    decreases |s|
  {
    hide Left, BlockEnd;
    if s == [] {
      LeftNothing();
      LeftEmptyLine();
      assert "--" + "" == "--";
    } else if Starts(s, '/', '*') && BlockEnd(s, 2).Some? {
      ClosedBlockLeft(mode, s);
      LeftIsRead(mode, s[BlockEnd(s, 2).value..]);
    } else if mode.Code? && Starts(s, '-', '-') {
      assert WithoutBlocks(s) == "-" + WithoutBlocks(s[1..]) && s[1..][1..] == s[2..];
      assert WithoutBlocks(s[1..]) == "-" + WithoutBlocks(s[2..]);
      assert "-" + ("-" + WithoutBlocks(s[2..])) == Before(LineComment, WithoutBlocks(s[2..]));
      LeftIsRead(LineComment, s[2..]);
    } else {
      CharLeft(mode, s);
      LeftIsRead(if mode.LineComment? && s[0] != '\n' then LineComment else Code, s[1..]);
    }
  }

  /** For every text, the filter keeps it exactly if the one-pass reader reads code. */
  lemma FilterIsReader(s: string)
    ensures IsStatement(s) <==> FilterReads(Code, s)
  {
    hide HasText, FilterReads;
    TrimRightText(WithoutLines(WithoutBlocks(s)));
    TrimLeftText(TrimRight(WithoutLines(WithoutBlocks(s))));
    LeftIsRead(Code, s);
  }

  // ---------------------------------------------------------------- agreement

  lemma {:induction false} BlockEndTail(s: string, i: nat)
    requires 0 < i <= |s|
    ensures BlockEnd(s, i) == match BlockEnd(s[1..], i - 1) { case Some(e) => Some(e + 1) case None => None }
    decreases |s| - i
  {
    if i + 2 <= |s| {
      assert s[1..][i - 1] == s[i] && s[1..][i] == s[i + 1];
      BlockEndTail(s, i + 1);
    }
  }

  /** The scanner leaves a block comment where the filter ends the block, or never. */
  lemma {:induction false} BlockSeen(s: string)
    ensures BlockEnd(s, 0).Some? ==> Seen(BlockComment, s) == Seen(Code, s[BlockEnd(s, 0).value..])
    ensures BlockEnd(s, 0).None? ==> Seen(BlockComment, s) == Sight(false, true, false)
    decreases |s|
  {
    if s != [] && !Starts(s, '*', '/') {
      BlockSeen(s[1..]);
      if |s| >= 2 {
        BlockEndTail(s, 1);
        assert BlockEnd(s, 0) == BlockEnd(s, 1);
        var inner := BlockEnd(s[1..], 0);
        if inner.Some? { assert s[1..][inner.value..] == s[inner.value + 1..]; }
      }
    }
  }

  lemma BlockEndBehind(s: string)
    requires |s| >= 2
    ensures BlockEnd(s, 2) == match BlockEnd(s[2..], 0) { case Some(e) => Some(e + 2) case None => None }
  {
    BlockEndTail(s, 2);
    BlockEndTail(s[1..], 1);
    assert s[1..][1..] == s[2..];
  }

  /** In code, the scanner jumps over a closed block, and never returns from an open one. */
  lemma BlockInCode(s: string)
    requires Starts(s, '/', '*')
    ensures BlockEnd(s, 2).Some? ==> Seen(Code, s) == Seen(Code, s[BlockEnd(s, 2).value..])
    ensures BlockEnd(s, 2).None? ==> Seen(Code, s) == Sight(false, true, false)
  {
    hide BlockEnd;
    assert Step(Code, s) == (2, BlockComment) && Seen(Code, s) == Seen(BlockComment, s[2..]);
    BlockSeen(s[2..]);
    BlockEndBehind(s);
    if BlockEnd(s, 2).Some? { assert s[2..][BlockEnd(s, 2).value - 2..] == s[BlockEnd(s, 2).value..]; }
  }

  /** In a line comment, the scanner reads over everything on the line. */
  lemma {:induction false} LineSkipped(u: string, k: nat)
    requires k <= |u| && '\n' !in u[..k]
    ensures ReadsCode(LineComment, u) == ReadsCode(LineComment, u[k..])
    ensures EndsInBlock(LineComment, u) == EndsInBlock(LineComment, u[k..])
    ensures BlockBeyondLine(LineComment, u[k..]) ==> BlockBeyondLine(LineComment, u)
  {
    if k == 0 {
      assert u[0..] == u;
    } else {
      assert u[..k][0] == u[0] && u[0] in u[..k];
      assert u[1..][..k - 1] == u[..k][1..] && u[1..][k - 1..] == u[k..];
      LineSkipped(u[1..], k - 1);
    }
  }

  lemma PlainSeen(s: string)
    requires s != [] && !OpensComment(s)
    ensures Seen(Code, s) == if IsSpace(s[0]) then Seen(Code, s[1..]) else Sight(true, false, false)
  {
    if IsSpace(s[0]) { assert Step(Code, s) == (1, Code); }
  }

  lemma RemarkSeen(s: string)
    requires Starts(s, '-', '-')
    ensures Seen(Code, s) == Seen(LineComment, s[2..])
  {
    assert Step(Code, s) == (2, LineComment);
  }

  lemma LineSeen(s: string)
    requires s != []
    ensures var next := Seen(if s[0] == '\n' then Code else LineComment, s[1..]);
            && ReadsCode(LineComment, s) == next.code && EndsInBlock(LineComment, s) == next.open
            && BlockBeyondLine(LineComment, s) == (LongBlock(s) || next.long)
  {
    assert Step(LineComment, s) == (1, if s[0] == '\n' then Code else LineComment);
  }

  lemma NothingSeen(mode: Mode)
    requires mode.Code? || mode.LineComment?
    ensures Seen(mode, "") == Sight(false, false, false)
  {
  }

  lemma {:induction false} ReadersAgree(mode: Mode, s: string)
    requires (mode.Code? || mode.LineComment?) && !BlockBeyondLine(mode, s)
    ensures FilterReads(mode, s) <==> ReadsCode(mode, s) || EndsInBlock(mode, s)
    decreases |s|
  {
    hide ReadsCode, EndsInBlock, BlockBeyondLine, BlockEnd;
    var block := Starts(s, '/', '*') && BlockEnd(s, 2).Some?;
    assert Seen(mode, s) == Sight(ReadsCode(mode, s), EndsInBlock(mode, s), false);
    if s == [] {
      NothingSeen(mode);
    } else if mode.LineComment? {
      LineSeen(s);
      if block {
        LineSkipped(s, BlockEnd(s, 2).value);
        ReadersAgree(mode, s[BlockEnd(s, 2).value..]);
      } else {
        ReadersAgree(if s[0] == '\n' then Code else LineComment, s[1..]);
      }
    } else if Starts(s, '/', '*') {
      BlockInCode(s);
      if block { ReadersAgree(Code, s[BlockEnd(s, 2).value..]); }
    } else if Starts(s, '-', '-') {
      RemarkSeen(s);
      ReadersAgree(LineComment, s[2..]);
    } else {
      PlainSeen(s);
      if IsSpace(s[0]) { ReadersAgree(Code, s[1..]); }
    }
  }

  /**
   Unless a line comment before any code holds the start of a block that is closed on a later line, the filter keeps
   a text exactly if the scanner reads code in it, or ends inside an unclosed block comment.
   */
  lemma FilterAgrees(s: string)
    requires !BlockBeyondLine(Code, s)
    ensures IsStatement(s) <==> ReadsCode(Code, s) || EndsInBlock(Code, s)
  {
    FilterIsReader(s);
    ReadersAgree(Code, s);
  }

  // ---------------------------------------------------------------- how they part

  /** In a line comment the filter passes over characters that begin no closed block. */
  lemma {:induction false} LinePassed(u: string, j: nat)
    requires j <= |u| && '\n' !in u[..j]
    requires forall i :: 0 <= i < j && Starts(u[i..], '/', '*') ==> BlockEnd(u[i..], 2).None?
    ensures FilterReads(LineComment, u) == FilterReads(LineComment, u[j..])
  {
    hide BlockEnd;
    assert u[0..] == u;
    if j > 0 {
      assert u[..j][0] == u[0] && u[0] in u[..j];
      assert u[1..][..j - 1] == u[..j][1..] && u[1..][j - 1..] == u[j..];
      forall i | 0 <= i < j - 1 && Starts(u[1..][i..], '/', '*') ensures BlockEnd(u[1..][i..], 2).None? {
        assert u[1..][i..] == u[i + 1..];
      }
      LinePassed(u[1..], j - 1);
    }
  }

  lemma RemarkRead(u: string)
    ensures IsStatement("--" + u) <==> FilterReads(LineComment, u)
  {
    FilterIsReader("--" + u);
    assert ("--" + u)[2..] == u;
  }

  /**
   The first closed block of a line comment is swallowed to its end, also beyond the line, and what follows there is
   taken for the rest of the line comment.
   */
  lemma MixedRemark(u: string, j: nat)
    requires j <= |u| && '\n' !in u[..j] && Starts(u[j..], '/', '*') && BlockEnd(u[j..], 2).Some?
    requires forall i :: 0 <= i < j && Starts(u[i..], '/', '*') ==> BlockEnd(u[i..], 2).None?
    ensures IsStatement("--" + u) <==> IsStatement("--" + u[j + BlockEnd(u[j..], 2).value..])
  {
    hide IsStatement, BlockEnd;
    var k := j + BlockEnd(u[j..], 2).value;
    RemarkRead(u);
    RemarkRead(u[k..]);
    LinePassed(u, j);
    assert u[j..][BlockEnd(u[j..], 2).value..] == u[k..];
  }

  /** The scanner sees the same code with and without the text of a line comment. */
  lemma BlockWithinLine(u: string, k: nat)
    requires k <= |u| && '\n' !in u[..k]
    ensures ReadsCode(Code, "--" + u) == ReadsCode(Code, "--" + u[k..])
    ensures EndsInBlock(Code, "--" + u) == EndsInBlock(Code, "--" + u[k..])
  {
    hide ReadsCode, EndsInBlock, BlockBeyondLine;
    LineSkipped(u, k);
    assert ("--" + u)[2..] == u && ("--" + u[k..])[2..] == u[k..];
    RemarkSeen("--" + u);
    RemarkSeen("--" + u[k..]);
  }

  /**
   The filter also keeps what the scanner does not read: here it ends a block of its own in the middle of a comment,
   and takes the rest of that comment for code.
   */
  lemma FilterKeepsComment(text: string)
    requires text != [] && '*' !in text && !IsSpace(text[0]) && text[0] != '-' && text[0] != '/'
    ensures var q := "--/*\n/*/\n" + text + "*/"; IsStatement(q) && !ReadsCode(Code, q) && !EndsInBlock(Code, q)
  {
    hide IsStatement;
    var q := "--/*\n/*/\n" + text + "*/";
    FilterIsReader(q);
    KeptRead(q, text);
    NothingScanned(q, text);
  }

  lemma KeptRead(q: string, text: string)
    requires text != [] && !IsSpace(text[0]) && text[0] != '-' && text[0] != '/'
    requires q == "--/*\n/*/\n" + text + "*/"
    ensures FilterReads(Code, q)
  {
    var u, v := q[2..], q[8..];
    assert u == "/*\n/*/\n" + text + "*/" && v == "\n" + text + "*/";
    assert u[2] == '\n' && u[3] == '/' && u[4] == '*' && u[5] == '/' && u[6..] == v;
    assert BlockEnd(u, 4) == Some(6) && BlockEnd(u, 3) == Some(6) && BlockEnd(u, 2) == Some(6);
    assert v[1..] == text + "*/" && v[1..][0] == text[0];
    hide BlockEnd;
    assert FilterReads(Code, v[1..]);
    assert FilterReads(LineComment, v);
    assert FilterReads(LineComment, u);
  }

  lemma NothingScanned(q: string, text: string)
    requires '*' !in text && q == "--/*\n/*/\n" + text + "*/"
    ensures !ReadsCode(Code, q) && !EndsInBlock(Code, q)
  {
    hide ReadsCode, EndsInBlock, BlockBeyondLine;
    var u, v, inner := q[2..], q[5..], "/\n" + text;
    assert u[..2] == "/*" && u[2..] == "\n" + v && v == "/*" + inner + "*/";
    RemarkSeen(q);
    LineSkipped(u, 2);
    LineSeen(u[2..]);
    assert u[2..][1..] == v;
    BlockEndIn(inner, "", 0);
    assert "/*" + inner + "*/" + "" == v && v[|v|..] == "";
    BlockInCode(v);
    NothingSeen(Code);
  }

  // ---------------------------------------------------------------- texts written in pieces

  predicate HoldsCode(p: Piece) {
    match p
    case Plain(text) => exists i :: 0 <= i < |text| && !IsSpace(text[i])
    case Remark(_) => false
    case BlockRemark(_) => false
    case _ => true
  }

  /** Every block that the text of a line comment begins is closed in it. */
  predicate BlocksClosed(text: string)
    decreases |text|
  {
    text == [] ||
    if Starts(text, '/', '*') then BlockEnd(text, 2).Some? && BlocksClosed(text[BlockEnd(text, 2).value..])
    else BlocksClosed(text[1..])
  }

  lemma {:induction false} BlockEndIn(text: string, rest: string, i: nat)
    requires NoBlockEnd(text) && i <= |text|
    ensures BlockEnd("/*" + text + "*/" + rest, 2 + i) == Some(|text| + 4)
    decreases |text| - i
  {
    var s := "/*" + text + "*/" + rest;
    if i < |text| {
      assert s[2 + i] == text[i] && s[3 + i] == (text + "*/")[i + 1];
      BlockEndIn(text, rest, i + 1);
    }
  }

  lemma {:induction false} BlockEndStays(s: string, t: string, i: nat)
    requires i <= |s| && BlockEnd(s, i).Some?
    ensures BlockEnd(s + t, i) == BlockEnd(s, i)
    decreases |s| - i
  {
    if !(s[i] == '*' && s[i + 1] == '/') { BlockEndStays(s, t, i + 1); }
  }

  lemma {:induction false} PlainPieceRead(text: string, rest: string)
    requires IsPlain(text)
    ensures FilterReads(Code, text + rest) <==> HoldsCode(Plain(text)) || FilterReads(Code, rest)
  {
    if text == [] {
      assert text + rest == rest;
    } else {
      var s := text + rest;
      assert s[1..] == text[1..] + rest;
      assert |text| > 1 ==> s[1] == text[1];
      PlainPieceRead(text[1..], rest);
      if IsSpace(text[0]) { CodeBehindBlank(text); }
    }
  }

  lemma CodeBehindBlank(text: string)
    requires text != [] && IsSpace(text[0])
    ensures HoldsCode(Plain(text)) <==> HoldsCode(Plain(text[1..]))
  {
    if i :| 0 <= i < |text| && !IsSpace(text[i]) { assert text[1..][i - 1] == text[i]; }
    if i :| 0 <= i < |text[1..]| && !IsSpace(text[1..][i]) { assert text[i + 1] == text[1..][i]; }
  }

  lemma {:induction false} RemarkPieceRead(text: string, rest: string)
    requires '\n' !in text && BlocksClosed(text)
    ensures FilterReads(LineComment, text + ("\n" + rest)) == FilterReads(Code, rest)
    decreases |text|
  {
    hide BlockEnd;
    var s := text + ("\n" + rest);
    if text == [] {
      assert s == "\n" + rest && s[1..] == rest;
    } else if Starts(text, '/', '*') {
      BlockEndStays(text, "\n" + rest, 2);
      var end := BlockEnd(text, 2).value;
      assert s[end..] == text[end..] + ("\n" + rest);
      RemarkPieceRead(text[end..], rest);
    } else {
      assert text[0] in text && s[1..] == text[1..] + ("\n" + rest);
      assert |text| == 1 ==> s[1] == '\n';
      RemarkPieceRead(text[1..], rest);
    }
  }

  lemma BlockPieceRead(text: string, rest: string)
    requires Writable(BlockRemark(text))
    ensures FilterReads(Code, Show(BlockRemark(text)) + rest) == FilterReads(Code, rest)
  {
    hide BlockEnd;
    BlockEndIn(text, rest, 0);
    assert (Show(BlockRemark(text)) + rest)[|text| + 4..] == rest;
  }

  lemma TextPieceRead(p: Piece, rest: string)
    requires Writable(p) && (p.Quoted? || p.Named? || p.Dollar?)
    ensures HoldsCode(p) && FilterReads(Code, Show(p) + rest)
  {
    hide Doubled, BlockEnd;
  }

  /** A piece is code to the filter, or it leaves the filter as it was. */
  lemma PieceRead(p: Piece, rest: string)
    requires Writable(p) && (p.Remark? ==> BlocksClosed(p.text))
    ensures FilterReads(Code, Show(p) + rest) <==> HoldsCode(p) || FilterReads(Code, rest)
  {
    hide BlocksClosed, IsPlain, NoBlockEnd, NoTagIn, Doubled, BlockEnd;
    match p
    case Plain(text) => PlainPieceRead(text, rest);
    case Remark(text) =>
      assert (Show(p) + rest)[2..] == text + ("\n" + rest);
      RemarkPieceRead(text, rest);
    case BlockRemark(text) => BlockPieceRead(text, rest);
    case _ => TextPieceRead(p, rest);
  }

  predicate AnyCode(pieces: seq<Piece>) { pieces != [] && (HoldsCode(pieces[0]) || AnyCode(pieces[1..])) }

  lemma {:induction false} PiecesRead(pieces: seq<Piece>)
    requires forall i :: 0 <= i < |pieces| ==>
               Writable(pieces[i]) && (pieces[i].Remark? ==> BlocksClosed(pieces[i].text))
    ensures FilterReads(Code, ShowAll(pieces)) == AnyCode(pieces)
  {
    hide Writable, BlocksClosed, HoldsCode, Show;
    if pieces != [] {
      PiecesRead(pieces[1..]);
      PieceRead(pieces[0], ShowAll(pieces[1..]));
    }
  }

  /** A text written in pieces, whose line comments close every block they begin, is kept exactly if a piece is code. */
  lemma PiecesKeptExactly(pieces: seq<Piece>)
    requires forall i :: 0 <= i < |pieces| ==>
               Writable(pieces[i]) && (pieces[i].Remark? ==> BlocksClosed(pieces[i].text))
    ensures IsStatement(ShowAll(pieces)) <==> AnyCode(pieces)
  {
    hide IsStatement, FilterReads, Writable, BlocksClosed;
    FilterIsReader(ShowAll(pieces));
    PiecesRead(pieces);
  }
}
