/** The order on versions: the comparison loop, precedence of section 11, and the laws of a total order. */
module SemVerOrder {
  import opened Text
  import opened Decimals
  import opened SemanticVersions

  // ---------------------------------------------------------------- the comparator

  /** Equality ignores build metadata. */
  predicate Eq(a: SemVer, b: SemVer) {
    a.major == b.major && a.minor == b.minor && a.patch == b.patch && a.prerelease == b.prerelease
  }

  predicate IsNumeric(s: string) { s != [] && AllDigits(s) }

  /** Dot-separated identifiers compared from the left; a proper prefix is smaller. */
  predicate PartsLess(a: seq<string>, b: seq<string>) {
    if a == [] || b == [] then |a| < |b|
    else if a[0] == b[0] then PartsLess(a[1..], b[1..])
    else if IsNumeric(a[0]) && IsNumeric(b[0]) then Value(a[0]) < Value(b[0])
    else if IsNumeric(a[0]) then true
    else if IsNumeric(b[0]) then false
    else Less(a[0], b[0])
  }

  predicate CoreLess(a: SemVer, b: SemVer) {
    || a.major < b.major
    || (a.major == b.major && a.minor < b.minor)
    || (a.major == b.major && a.minor == b.minor && a.patch < b.patch)
  }

  predicate SameCore(a: SemVer, b: SemVer) { a.major == b.major && a.minor == b.minor && a.patch == b.patch }

  predicate Lt(a: SemVer, b: SemVer) {
    if !SameCore(a, b) then CoreLess(a, b)
    else if a.prerelease.None? then false
    else if b.prerelease.None? then true
    else PartsLess(Split(a.prerelease.value, '.'), Split(b.prerelease.value, '.'))
  }

  // ---------------------------------------------------------------- precedence

  /** A pre-release identifier of the specification: a number or a text. */
  datatype Identifier = Number(n: nat) | Text(text: string)

  function IdentifierOf(s: string): Identifier { if IsNumeric(s) then Number(Value(s)) else Identifier.Text(s) }

  /** Numbers numerically, texts in ASCII order, numbers below texts. */
  predicate IdentifierLess(x: Identifier, y: Identifier) {
    match (x, y)
    case (Number(m), Number(n)) => m < n
    case (Number(_), Text(_)) => true
    case (Text(_), Number(_)) => false
    case (Text(s), Text(t)) => Less(s, t)
  }

  function IdentifiersOf(parts: seq<string>): (ids: seq<Identifier>)
    ensures |ids| == |parts| && forall i :: 0 <= i < |parts| ==> ids[i] == IdentifierOf(parts[i])
  {
    if parts == [] then [] else [IdentifierOf(parts[0])] + IdentifiersOf(parts[1..])
  }

  /** The lists agree up to k, and there the first one ends or holds a smaller identifier. */
  predicate FirstDifferenceLess(a: seq<Identifier>, b: seq<Identifier>, k: nat) {
    && k <= |a| && k < |b| && a[..k] == b[..k]
    && (k < |a| ==> IdentifierLess(a[k], b[k]))
  }

  /** Precedence as in section 11 of Semantic Versioning 2.0.0. */
  ghost predicate Precedes(a: SemVer, b: SemVer) {
    || CoreLess(a, b)
    || (SameCore(a, b) && a.prerelease.Some? &&
        (b.prerelease.None?
         || exists k: nat :: FirstDifferenceLess(IdentifiersOf(Split(a.prerelease.value, '.')),
                                                 IdentifiersOf(Split(b.prerelease.value, '.')), k)))
  }

  predicate AllIdentifiers(parts: seq<string>) { forall i :: 0 <= i < |parts| ==> IsPrereleaseIdentifier(parts[i]) }

  /** Without leading zeros, an identifier is determined by its meaning. */
  lemma {:induction false} IdentifierInjective(s: string, t: string)
    requires IsPrereleaseIdentifier(s) && IsPrereleaseIdentifier(t) && IdentifierOf(s) == IdentifierOf(t)
    ensures s == t
  {
    if IsNumeric(s) { CanonicalInjective(s, t); }
  }

  lemma {:induction false} PartsLessDiffers(a: seq<string>, b: seq<string>) returns (k: nat)
    requires AllIdentifiers(a) && AllIdentifiers(b) && PartsLess(a, b)
    ensures FirstDifferenceLess(IdentifiersOf(a), IdentifiersOf(b), k)
  {
    var x, y := IdentifiersOf(a), IdentifiersOf(b);
    if a != [] && b != [] && a[0] == b[0] {
      k := PartsLessDiffers(a[1..], b[1..]);
      var x', y' := IdentifiersOf(a[1..]), IdentifiersOf(b[1..]);
      assert x[..k + 1] == [x[0]] + x'[..k] && y[..k + 1] == [y[0]] + y'[..k];
      k := k + 1;
    } else {
      k := 0;
      assert x[..0] == y[..0];
    }
  }

  lemma {:induction false} DifferenceMeansLess(a: seq<string>, b: seq<string>, k: nat)
    requires AllIdentifiers(a) && AllIdentifiers(b) && FirstDifferenceLess(IdentifiersOf(a), IdentifiersOf(b), k)
    ensures PartsLess(a, b)
  {
    var x, y := IdentifiersOf(a), IdentifiersOf(b);
    if k > 0 {
      assert x[0] == x[..k][0] && y[0] == y[..k][0];
      IdentifierInjective(a[0], b[0]);
      var x', y' := IdentifiersOf(a[1..]), IdentifiersOf(b[1..]);
      assert x'[..k - 1] == x[..k][1..] && y'[..k - 1] == y[..k][1..];
      DifferenceMeansLess(a[1..], b[1..], k - 1);
    } else if a != [] {
      IdentifierIrreflexive(x[0]);
    }
  }

  lemma {:induction false} IdentifierIrreflexive(x: Identifier)
    ensures !IdentifierLess(x, x)
  {
    if x.Text? { LessIrreflexive(x.text); }
  }

  /** The comparator computes precedence. */
  lemma LtIsPrecedence(a: SemVer, b: SemVer)
    requires SemanticVersions.WellFormed(a) && SemanticVersions.WellFormed(b)
    ensures Lt(a, b) <==> Precedes(a, b)
  {
    if SameCore(a, b) && a.prerelease.Some? && b.prerelease.Some? {
      var x, y := Split(a.prerelease.value, '.'), Split(b.prerelease.value, '.');
      if Lt(a, b) {
        var k := PartsLessDiffers(x, y);
      }
      if k: nat :| FirstDifferenceLess(IdentifiersOf(x), IdentifiersOf(y), k) { DifferenceMeansLess(x, y, k); }
    }
  }

  // ---------------------------------------------------------------- the laws

  lemma {:induction false} PartsLessIrreflexive(a: seq<string>)
    ensures !PartsLess(a, a)
  {
    if a != [] { PartsLessIrreflexive(a[1..]); }
  }

  lemma {:induction false} PartsLessTransitive(a: seq<string>, b: seq<string>, c: seq<string>)
    requires PartsLess(a, b) && PartsLess(b, c)
    ensures PartsLess(a, c)
  {
    if a != [] && b != [] && c != [] {
      var x, y, z := a[0], b[0], c[0];
      if x == y && y == z {
        PartsLessTransitive(a[1..], b[1..], c[1..]);
      } else if x != y && y != z && !IsNumeric(x) && !IsNumeric(y) && !IsNumeric(z) {
        LessTransitive(x, y, z);
        if x == z { LessIrreflexive(x); }
      }
    }
  }

  lemma {:induction false} PartsLessTotal(a: seq<string>, b: seq<string>)
    requires AllIdentifiers(a) && AllIdentifiers(b)
    ensures PartsLess(a, b) || a == b || PartsLess(b, a)
  {
    if a != [] && b != [] {
      if a[0] == b[0] {
        PartsLessTotal(a[1..], b[1..]);
        assert a == [a[0]] + a[1..] && b == [b[0]] + b[1..];
      } else {
        LessTotal(a[0], b[0]);
        if IsNumeric(a[0]) && IsNumeric(b[0]) && Value(a[0]) == Value(b[0]) { CanonicalInjective(a[0], b[0]); }
      }
    }
  }

  lemma {:induction false} SplitInjective(s: string, t: string)
    requires Split(s, '.') == Split(t, '.')
    ensures s == t
  {
    JoinSplit(s, '.');
    JoinSplit(t, '.');
  }

  lemma LtIrreflexive(a: SemVer, b: SemVer)
    requires Eq(a, b)
    ensures !Lt(a, b)
  {
    if a.prerelease.Some? { PartsLessIrreflexive(Split(a.prerelease.value, '.')); }
  }

  lemma LtTransitive(a: SemVer, b: SemVer, c: SemVer)
    requires Lt(a, b) && Lt(b, c)
    ensures Lt(a, c)
  {
    if a.prerelease.Some? && b.prerelease.Some? && c.prerelease.Some? && SameCore(a, b) && SameCore(b, c) {
      PartsLessTransitive(
        Split(a.prerelease.value, '.'), Split(b.prerelease.value, '.'), Split(c.prerelease.value, '.'));
    }
  }

  /** Of two well-formed versions exactly one is smaller, or they are equal up to build metadata. */
  lemma Trichotomy(a: SemVer, b: SemVer)
    requires SemanticVersions.WellFormed(a) && SemanticVersions.WellFormed(b)
    ensures Lt(a, b) || Eq(a, b) || Lt(b, a)
    ensures !(Lt(a, b) && Lt(b, a)) && !(Lt(a, b) && Eq(a, b)) && !(Lt(b, a) && Eq(a, b))
  {
    if SameCore(a, b) && a.prerelease.Some? && b.prerelease.Some? {
      PartsLessTotal(Split(a.prerelease.value, '.'), Split(b.prerelease.value, '.'));
      if Split(a.prerelease.value, '.') == Split(b.prerelease.value, '.') {
        SplitInjective(a.prerelease.value, b.prerelease.value);
      }
    }
    if Lt(a, b) && Lt(b, a) {
      LtTransitive(a, b, a);
      LtIrreflexive(a, a);
    }
    if Eq(a, b) {
      LtIrreflexive(a, b);
      LtIrreflexive(b, a);
    }
  }

  /** The first of major, minor and patch that differs decides, and with a pre-release a version comes before itself. */
  lemma RaisedIsNewer(v: SemVer, w: SemVer)
    ensures v.major < w.major ==> Lt(v, w)
    ensures v.major == w.major && v.minor < w.minor ==> Lt(v, w)
    ensures v.major == w.major && v.minor == w.minor && v.patch < w.patch ==> Lt(v, w)
    ensures SameCore(v, w) && v.prerelease.Some? && w.prerelease.None? ==> Lt(v, w)
    ensures SameCore(v, w) <==> v.major == w.major && v.minor == w.minor && v.patch == w.patch
    ensures Eq(v, w) <==> v.(build := None) == w.(build := None)
  {
  }

  /** Equal versions are interchangeable in comparisons. */
  lemma LtRespectsEq(a: SemVer, b: SemVer, c: SemVer)
    requires Eq(a, b)
    ensures Lt(a, c) <==> Lt(b, c)
    ensures Lt(c, a) <==> Lt(c, b)
  {
  }

  // ---------------------------------------------------------------- versions that were not parsed

  /** The first identifiers that differ are numerals of the same number. */
  predicate SameNumberDiffers(a: seq<string>, b: seq<string>) {
    a != [] && b != [] &&
    if a[0] == b[0] then SameNumberDiffers(a[1..], b[1..])
    else IsNumeric(a[0]) && IsNumeric(b[0]) && Value(a[0]) == Value(b[0])
  }

  lemma {:induction false} PartsComparable(a: seq<string>, b: seq<string>)
    ensures PartsLess(a, b) || a == b || PartsLess(b, a) <==> !SameNumberDiffers(a, b)
  {
    if a != [] && b != [] {
      if a[0] == b[0] {
        PartsComparable(a[1..], b[1..]);
        assert a == [a[0]] + a[1..] && b == [b[0]] + b[1..];
      } else {
        LessTotal(a[0], b[0]);
      }
    }
  }

  /** Two versions that agree up to identifiers which are the same number, but are spelled differently. */
  predicate Clash(a: SemVer, b: SemVer) {
    SameCore(a, b) && a.prerelease.Some? && b.prerelease.Some?
    && SameNumberDiffers(Split(a.prerelease.value, '.'), Split(b.prerelease.value, '.'))
  }

  /**
   The constructor does not check its texts. Whatever they are, two versions are comparable or equal exactly if
   they do not clash.
   */
  lemma ComparableExactly(a: SemVer, b: SemVer)
    ensures Lt(a, b) || Eq(a, b) || Lt(b, a) <==> !Clash(a, b)
  {
    if SameCore(a, b) && a.prerelease.Some? && b.prerelease.Some? {
      var x, y := Split(a.prerelease.value, '.'), Split(b.prerelease.value, '.');
      PartsComparable(x, y);
      if x == y {
        SplitInjective(a.prerelease.value, b.prerelease.value);
      }
    }
  }

  /** Leading zeros are what makes versions clash: without them none do. */
  lemma LeadingZerosBreakTrichotomy()
    ensures forall a, b :: SemanticVersions.WellFormed(a) && SemanticVersions.WellFormed(b) ==> !Clash(a, b)
    ensures var a, b := SemVer(1, 0, 0, Some("1"), None), SemVer(1, 0, 0, Some("01"), None);
            Clash(a, b) && !Lt(a, b) && !Lt(b, a) && !Eq(a, b)
  {
    forall a, b | SemanticVersions.WellFormed(a) && SemanticVersions.WellFormed(b) ensures !Clash(a, b) {
      Trichotomy(a, b);
      ComparableExactly(a, b);
    }
    var a, b := SemVer(1, 0, 0, Some("1"), None), SemVer(1, 0, 0, Some("01"), None);
    assert Clash(a, b) by { OneAndZeroOne(); }
    ComparableExactly(a, b);
  }

  lemma OneAndZeroOne()
    ensures SameNumberDiffers(Split("1", '.'), Split("01", '.'))
  {
    assert Join(["1"], '.') == "1" && Join(["01"], '.') == "01";
    SplitJoin(["1"], '.');
    SplitJoin(["01"], '.');
    assert "1"[..0] == "" && "01"[..1] == "0" && "0"[..0] == "";
    assert Value("1") == 1;
    assert Value("0") == 0;
    assert Value("01") == 1;
  }

  // total_ordering derives the other comparisons from __lt__ and __eq__.

  predicate Gt(a: SemVer, b: SemVer) { !Lt(a, b) && !Eq(a, b) }

  predicate Ge(a: SemVer, b: SemVer) { !Lt(a, b) }

  /** The derived comparisons are the converse order on versions that do not clash, and only on those. */
  lemma DerivedComparisons(a: SemVer, b: SemVer)
    ensures (Gt(a, b) <==> Lt(b, a)) <==> !Clash(a, b)
    ensures (Ge(a, b) <==> Lt(b, a) || Eq(a, b)) <==> !Clash(a, b)
    ensures SemanticVersions.WellFormed(a) && SemanticVersions.WellFormed(b) ==> !Clash(a, b)
  {
    ComparableExactly(a, b);
    if Eq(a, b) {
      LtIrreflexive(a, b);
      LtIrreflexive(b, a);
    }
    if Lt(a, b) && Lt(b, a) {
      LtTransitive(a, b, a);
      LtIrreflexive(a, a);
    }
    if SemanticVersions.WellFormed(a) && SemanticVersions.WellFormed(b) { Trichotomy(a, b); }
  }
}
