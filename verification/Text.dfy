/** Shared vocabulary: results, ASCII character classes and prefixes of strings. */
module Text {

  datatype Option<+T> = None | Some(value: T)

  datatype Result<+T, +E> = Ok(value: T) | Err(error: E)

  /** The first element that passes a test. */
  function First<T>(s: seq<T>, test: T -> bool): (r: Option<T>)
    ensures r.Some? ==> r.value in s && test(r.value)
    ensures r.None? <==> forall i :: 0 <= i < |s| ==> !test(s[i])
  {
    if s == [] then None else if test(s[0]) then Some(s[0]) else First(s[1..], test)
  }

  /** A stronger test that the first element still passes finds the same element. */
  lemma {:induction false} FirstOfStrongerTest<T>(s: seq<T>, test: T -> bool, stronger: T -> bool)
    requires First(s, test).Some? && stronger(First(s, test).value)
    requires forall x: T :: stronger(x) ==> test(x)
    ensures First(s, stronger) == First(s, test)
  {
    if !test(s[0]) { FirstOfStrongerTest(s[1..], test, stronger); }
  }

  lemma {:induction false} FirstOfEqualTests<T>(s: seq<T>, p: T -> bool, q: T -> bool)
    requires forall x: T :: p(x) == q(x)
    ensures First(s, p) == First(s, q)
  {
    if s != [] { FirstOfEqualTests(s[1..], p, q); }
  }

  lemma {:induction false} FirstAt<T>(s: seq<T>, test: T -> bool, i: nat)
    requires i < |s| && test(s[i]) && forall k :: 0 <= k < i ==> !test(s[k])
    ensures First(s, test) == Some(s[i])
  {
    if i > 0 { FirstAt(s[1..], test, i - 1); }
  }

  lemma {:induction false} FirstIsAt<T>(s: seq<T>, test: T -> bool) returns (i: nat)
    requires First(s, test).Some?
    ensures i < |s| && s[i] == First(s, test).value && test(s[i]) && forall k :: 0 <= k < i ==> !test(s[k])
  {
    if test(s[0]) {
      i := 0;
    } else {
      i := FirstIsAt(s[1..], test);
      i := i + 1;
    }
  }

  predicate IsDigit(c: char) { '0' <= c <= '9' }

  predicate IsLetter(c: char) { 'a' <= c <= 'z' || 'A' <= c <= 'Z' }

  predicate IsWordChar(c: char) { IsLetter(c) || IsDigit(c) || c == '_' }

  /** Digits, letters and word characters by their ASCII codes. */
  lemma CharacterCodes(c: char)
    ensures IsDigit(c) <==> 48 <= c as int <= 57
    ensures IsLetter(c) <==> 65 <= c as int <= 90 || 97 <= c as int <= 122
    ensures IsWordChar(c) <==> IsLetter(c) || IsDigit(c) || c as int == 95
  {
  }

  predicate AllDigits(s: string) { forall i :: 0 <= i < |s| ==> IsDigit(s[i]) }

  /** End of the longest run of characters of s from i on that all satisfy p. */
  function SpanEnd(p: char -> bool, s: string, i: nat): (n: nat)
    requires i <= |s|
    ensures i <= n <= |s|
    ensures forall k :: i <= k < n ==> p(s[k])
    ensures n < |s| ==> !p(s[n])
    decreases |s| - i
  {
    if i < |s| && p(s[i]) then SpanEnd(p, s, i + 1) else i
  }

  /** Length of the longest prefix of s whose characters all satisfy p. */
  function SpanLength(p: char -> bool, s: string): (n: nat)
    ensures n <= |s|
    ensures forall i :: 0 <= i < n ==> p(s[i])
    ensures n < |s| ==> !p(s[n])
  {
    SpanEnd(p, s, 0)
  }

  /** The three postconditions of SpanLength determine it. */
  lemma {:induction false} SpanLengthUnique(p: char -> bool, s: string, n: nat)
    requires n <= |s|
    requires forall i :: 0 <= i < n ==> p(s[i])
    requires n < |s| ==> !p(s[n])
    ensures SpanLength(p, s) == n
  {
  }

  /** Text after the end of a maximal prefix extends it only if the prefix was the whole string. */
  lemma {:induction false} SpanLengthAppend(p: char -> bool, s: string, t: string)
    ensures SpanLength(p, s + t) == if SpanLength(p, s) < |s| then SpanLength(p, s) else |s| + SpanLength(p, t)
  {
    var n := if SpanLength(p, s) < |s| then SpanLength(p, s) else |s| + SpanLength(p, t);
    SpanLengthUnique(p, s + t, n);
  }

  // ---------------------------------------------------------------- case, trimming, order

  function LowerChar(c: char): char {
    if 'A' <= c <= 'Z' then c - 'A' + 'a' else c
  }

  function Lower(s: string): (r: string)
    ensures |r| == |s|
  {
    if s == [] then [] else [LowerChar(s[0])] + Lower(s[1..])
  }

  lemma {:induction false} LowerAt(s: string, i: nat)
    requires i < |s|
    ensures Lower(s)[i] as int == if 65 <= s[i] as int <= 90 then s[i] as int + 32 else s[i] as int
  {
    if i > 0 { LowerAt(s[1..], i - 1); }
  }

  /** The same character, or the two cases of one letter. */
  predicate SameLetter(c: char, d: char) {
    || c == d
    || ('A' <= c <= 'Z' && d as int == c as int + 32)
    || ('A' <= d <= 'Z' && c as int == d as int + 32)
  }

  /** The texts agree up to the case of ASCII letters. */
  predicate SameLetters(s: string, t: string) { |s| == |t| && forall i :: 0 <= i < |s| ==> SameLetter(s[i], t[i]) }

  /** Lowering makes exactly those texts equal that agree up to case. */
  lemma LowerEqualExactly(s: string, t: string)
    ensures Lower(s) == Lower(t) <==> SameLetters(s, t)
  {
    if |s| == |t| {
      forall i | 0 <= i < |s| ensures Lower(s)[i] == Lower(t)[i] <==> SameLetter(s[i], t[i]) {
        LowerAt(s, i);
        LowerAt(t, i);
      }
    }
  }

  /** White space as str.strip() sees it in ASCII text. */
  predicate IsSpace(c: char) { '\t' <= c <= '\r' || '\U{1c}' <= c <= ' ' }

  function TrimLeft(s: string): string {
    if s != [] && IsSpace(s[0]) then TrimLeft(s[1..]) else s
  }

  function TrimRight(s: string): string {
    if s != [] && IsSpace(s[|s| - 1]) then TrimRight(s[..|s| - 1]) else s
  }

  function Trim(s: string): string { TrimLeft(TrimRight(s)) }

  predicate AllSpace(s: string) { forall i :: 0 <= i < |s| ==> IsSpace(s[i]) }

  /** Between blanks that are removed stands a text that neither begins nor ends with one. */
  lemma {:induction false} TrimParts(s: string) returns (front: string, back: string)
    ensures s == front + Trim(s) + back && AllSpace(front) && AllSpace(back)
    ensures Trim(s) != "" ==> !IsSpace(Trim(s)[0]) && !IsSpace(Trim(s)[|Trim(s)| - 1])
  {
    back := TrimRightPart(s);
    front := TrimLeftPart(TrimRight(s));
  }

  lemma {:induction false} TrimRightPart(s: string) returns (back: string)
    ensures s == TrimRight(s) + back && AllSpace(back)
    ensures TrimRight(s) != "" ==> !IsSpace(TrimRight(s)[|TrimRight(s)| - 1])
  {
    if s != [] && IsSpace(s[|s| - 1]) {
      var less := TrimRightPart(s[..|s| - 1]);
      back := less + [s[|s| - 1]];
    } else {
      back := "";
    }
  }

  lemma {:induction false} TrimLeftPart(s: string) returns (front: string)
    ensures s == front + TrimLeft(s) && AllSpace(front)
    ensures TrimLeft(s) != "" ==>
              !IsSpace(TrimLeft(s)[0]) && TrimLeft(s)[|TrimLeft(s)| - 1] == s[|s| - 1]
  {
    if s != [] && IsSpace(s[0]) {
      var less := TrimLeftPart(s[1..]);
      front := [s[0]] + less;
    } else {
      front := "";
    }
  }

  lemma SpaceCodes(c: char)
    ensures IsSpace(c) <==> c as int in {9, 10, 11, 12, 13, 28, 29, 30, 31, 32}
  {
  }

  /** Blanks have no case. */
  lemma {:induction false} TrimKeepsCase(s: string, t: string)
    requires SameLetters(s, t)
    ensures SameLetters(Trim(s), Trim(t))
  {
    TrimRightKeepsCase(s, t);
    TrimLeftKeepsCase(TrimRight(s), TrimRight(t));
  }

  lemma {:induction false} TrimRightKeepsCase(s: string, t: string)
    requires SameLetters(s, t)
    ensures SameLetters(TrimRight(s), TrimRight(t))
  {
    if s != [] {
      assert SameLetter(s[|s| - 1], t[|s| - 1]);
      if IsSpace(s[|s| - 1]) { TrimRightKeepsCase(s[..|s| - 1], t[..|s| - 1]); }
    }
  }

  lemma {:induction false} TrimLeftKeepsCase(s: string, t: string)
    requires SameLetters(s, t)
    ensures SameLetters(TrimLeft(s), TrimLeft(t))
  {
    if s != [] {
      assert SameLetter(s[0], t[0]);
      if IsSpace(s[0]) { TrimLeftKeepsCase(s[1..], t[1..]); }
    }
  }

  /** Lexicographic order by code point. */
  predicate Less(s: string, t: string) {
    t != [] && (s == [] || s[0] < t[0] || (s[0] == t[0] && Less(s[1..], t[1..])))
  }

  /** The texts agree up to k, where s ends or has the smaller character. */
  predicate LessAt(s: string, t: string, k: nat) {
    k <= |s| && k < |t| && s[..k] == t[..k] && (k < |s| ==> s[k] as int < t[k] as int)
  }

  lemma {:induction false} LessExactly(s: string, t: string)
    ensures Less(s, t) <==> exists k: nat :: LessAt(s, t, k)
  {
    if s != [] && t != [] && s[0] == t[0] {
      LessExactly(s[1..], t[1..]);
      if k: nat :| LessAt(s[1..], t[1..], k) {
        assert s[..k + 1] == [s[0]] + s[1..][..k] && t[..k + 1] == [t[0]] + t[1..][..k];
        assert LessAt(s, t, k + 1);
      }
      if k: nat :| LessAt(s, t, k) {
        assert s[1..][..k - 1] == s[..k][1..] && t[1..][..k - 1] == t[..k][1..];
        assert LessAt(s[1..], t[1..], k - 1);
      }
    } else if t != [] {
      if Less(s, t) { assert LessAt(s, t, 0); }
      if k: nat :| LessAt(s, t, k) { assert k > 0 ==> s[..k][0] == t[..k][0]; }
    }
  }

  lemma {:induction false} LessIrreflexive(s: string)
    ensures !Less(s, s)
  {
    if s != [] { LessIrreflexive(s[1..]); }
  }

  lemma {:induction false} LessTransitive(s: string, t: string, u: string)
    requires Less(s, t) && Less(t, u)
    ensures Less(s, u)
  {
    if s != [] && s[0] == t[0] && t[0] == u[0] { LessTransitive(s[1..], t[1..], u[1..]); }
  }

  lemma {:induction false} LessTotal(s: string, t: string)
    ensures Less(s, t) || s == t || Less(t, s)
  {
    if s != [] && t != [] && s[0] == t[0] {
      LessTotal(s[1..], t[1..]);
      assert s[1..] == t[1..] ==> s == [s[0]] + s[1..] == [t[0]] + t[1..] == t;
    }
  }

  /** Does s occur in t? */
  predicate IsInfix(s: string, t: string) {
    s <= t || (t != [] && IsInfix(s, t[1..]))
  }

  predicate OccursAt(s: string, t: string, i: nat) { i + |s| <= |t| && t[i..i + |s|] == s }

  lemma OccursInFront(s: string, t: string)
    ensures OccursAt(s, t, 0) <==> s <= t
  {
  }

  lemma OccursBehind(s: string, t: string, i: nat)
    requires t != []
    ensures OccursAt(s, t, i + 1) <==> OccursAt(s, t[1..], i)
  {
    if i + 1 + |s| <= |t| { assert t[1..][i..i + |s|] == t[i + 1..i + 1 + |s|]; }
  }

  lemma {:induction false} InfixExactly(s: string, t: string)
    ensures IsInfix(s, t) <==> exists i: nat :: OccursAt(s, t, i)
  {
    OccursInFront(s, t);
    if t == [] {
      forall i: nat | OccursAt(s, t, i) ensures OccursAt(s, t, 0) {}
    } else {
      InfixExactly(s, t[1..]);
      hide OccursAt;
      if i: nat :| OccursAt(s, t[1..], i) { OccursBehind(s, t, i); }
      if i: nat :| OccursAt(s, t, i) && i != 0 { OccursBehind(s, t, i - 1); }
    }
  }

  // ---------------------------------------------------------------- splitting at a separator

  /** The pieces of s between the occurrences of c; one piece more than occurrences. */
  function Split(s: string, c: char): (r: seq<string>)
    ensures r != []
  {
    if s == [] then [""]
    else
      var rest := Split(s[1..], c);
      if s[0] == c then [""] + rest else [[s[0]] + rest[0]] + rest[1..]
  }

  function Join(parts: seq<string>, c: char): string
    requires parts != []
  {
    if |parts| == 1 then parts[0] else parts[0] + [c] + Join(parts[1..], c)
  }

  lemma {:induction false} JoinSplit(s: string, c: char)
    ensures Join(Split(s, c), c) == s
    ensures forall i :: 0 <= i < |Split(s, c)| ==> c !in Split(s, c)[i]
  {
    if s != [] {
      var rest, parts := Split(s[1..], c), Split(s, c);
      JoinSplit(s[1..], c);
      if s[0] == c {
        assert parts[1..] == rest;
      } else {
        assert parts[1..] == rest[1..];
      }
      assert [s[0]] + s[1..] == s;
    }
  }

  lemma {:induction false} SplitJoin(parts: seq<string>, c: char)
    requires parts != [] && forall i :: 0 <= i < |parts| ==> c !in parts[i]
    ensures Split(Join(parts, c), c) == parts
    decreases |parts|, |parts[0]|
  {
    var s, head := Join(parts, c), parts[0];
    if head != [] {
      var shorter := [head[1..]] + parts[1..];
      assert shorter[1..] == parts[1..];
      SplitJoin(shorter, c);
      assert s[1..] == Join(shorter, c);
      assert s[0] == head[0] && head[0] != c by { assert head[0] in head; }
      assert [head[0]] + head[1..] == head;
      assert [head] + parts[1..] == parts;
    } else if |parts| > 1 {
      SplitJoin(parts[1..], c);
      assert s[1..] == Join(parts[1..], c);
      assert [head] + parts[1..] == parts;
    } else {
      assert parts == [""];
    }
  }
}
