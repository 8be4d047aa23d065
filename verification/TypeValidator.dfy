/** Type checking of operators and operands, and what an accepted expression can never do. */
module TypeValidator {
  import opened Text
  import opened Query
  import opened Schema

  predicate LiteralFits(c: Category, lit: Literal) {
    match lit
    case NullLiteral => true
    case IntegerLiteral(_) => c == Numeric
    case FloatLiteral(_) => c == Numeric
    case StringLiteral(_) => c == Textual
    case BooleanLiteral(_) => c == Logical
    case TemporalLiteral(_) => c == Chronological
  }

  predicate IsNumber(lit: Literal) { lit.IntegerLiteral? || lit.FloatLiteral? }

  predicate RangeFits(c: Category, r: Range) {
    match c
    case Logical => false
    case Numeric => IsNumber(r.start) && IsNumber(r.end)
    case Textual => r.start.StringLiteral? && r.end.StringLiteral?
    case Chronological => r.start.TemporalLiteral? && r.end.TemporalLiteral?
    case Unknown => true
  }

  predicate ConstraintFits(c: Category, k: Constraint) {
    if k.operator.IsOrdering() && c == Logical then false
    else if k.value.NullLiteral? then !k.operator.IsOrdering()
    else LiteralFits(c, k.value)
  }

  predicate ElementFits(c: Category, e: Element) {
    match e
    case Single(lit) => LiteralFits(c, lit)
    case Within(r) => RangeFits(c, r)
    case Constrained(k) => ConstraintFits(c, k)
    case AllOf(ks) => c != Logical && forall i :: 0 <= i < |ks| ==> ConstraintFits(c, ks[i])
  }

  predicate SetFits(c: Category, es: seq<Element>) {
    forall i :: 0 <= i < |es| ==> ElementFits(c, es[i])
  }

  /** The validator, branch by branch: NULL first, then the nested-path exemption, then types. */
  predicate Accepts(c: Category, nested: bool, op: Operator, operand: Operand) {
    if operand == Scalar(NullLiteral) then op.Compare? && !op.comparison.IsOrdering()
    else if nested then true
    else if c == Unknown then false
    else if op.Match? then
      c == Textual &&
      match operand
      case ValueSet(es) => SetFits(c, es)
      case Scalar(lit) => lit.StringLiteral?
      case Bounds(_) => false
    else if op.comparison.IsOrdering() && c == Logical then false
    else
      match operand
      case Bounds(r) => RangeFits(c, r)
      case ValueSet(es) => SetFits(c, es)
      case Scalar(lit) => LiteralFits(c, lit)
  }

  /** Assignment of a literal in a mutation payload. */
  predicate AcceptsAssignment(c: Category, nullable: bool, lit: Literal) {
    if lit.NullLiteral? then nullable
    else if c == Unknown then false
    else LiteralFits(c, lit)
  }

  // ---------------------------------------------------------------- soundness

  /**
   What the validator does not look at: whether a string operator is given only texts and NULL, and whether
   an ordering operator is given a set that contains NULL.
   */
  predicate Supported(op: Operator, operand: Operand) {
    operand.ValueSet? ==>
      forall i :: 0 <= i < |operand.elements| ==>
        var e := operand.elements[i];
        match op
        case Match(_) => e.Single? && (e.literal.StringLiteral? || e.literal.NullLiteral?)
        case Compare(c) => c.IsOrdering() ==> e != Single(NullLiteral)
  }

  /** On every value the column may hold, the expression has an outcome. */
  ghost predicate NeverStuck(c: Category, op: Operator, operand: Operand) {
    forall v: Value, clock: Clock | InCategory(v, c) :: Holds(v, op, operand, clock).Some?
  }

  lemma {:induction false} AllDefined(c: Category, v: Value, ks: seq<Constraint>, clock: Clock)
    requires InCategory(v, c) && forall i :: 0 <= i < |ks| ==> ConstraintFits(c, ks[i])
    ensures SatisfiesAll(v, ks, clock).Some?
  {
    if ks != [] {
      assert ConstraintFits(c, ks[0]);
      AllDefined(c, v, ks[1..], clock);
    }
  }

  lemma {:induction false} ElementDefined(c: Category, op: ComparisonOperator, v: Value, e: Element, clock: Clock)
    requires InCategory(v, c) && c != Unknown && ElementFits(c, e) && (c == Logical ==> !op.IsOrdering())
    ensures MatchesElement(op, v, e, clock).Some? <==> (op.IsOrdering() ==> e != Single(NullLiteral))
  {
    hide SatisfiesAll;
    if e.AllOf? { AllDefined(c, v, e.constraints, clock); }
  }

  lemma {:induction false} AnyDefined(c: Category, op: ComparisonOperator, v: Value, es: seq<Element>, clock: Clock)
    requires InCategory(v, c) && c != Unknown && SetFits(c, es) && (c == Logical ==> !op.IsOrdering())
    ensures MatchesAny(op, v, es, clock).Some? <==>
              (op.IsOrdering() ==> forall i :: 0 <= i < |es| ==> es[i] != Single(NullLiteral))
  {
    hide InCategory, ElementFits, MatchesElement;
    if es != [] {
      ElementDefined(c, op, v, es[0], clock);
      AnyDefined(c, op, v, es[1..], clock);
      assert forall i :: 1 <= i < |es| ==> es[i] == es[1..][i - 1];
    }
  }

  lemma {:induction false} PatternAnyDefined(op: StringOperator, v: Value, es: seq<Element>)
    requires InCategory(v, Textual)
    ensures PatternAny(op, v, es).Some? <==>
              forall i :: 0 <= i < |es| ==>
                es[i].Single? && (es[i].literal.StringLiteral? || es[i].literal.NullLiteral?)
  {
    if es != [] {
      PatternAnyDefined(op, v, es[1..]);
      assert forall i :: 1 <= i < |es| ==> es[i] == es[1..][i - 1];
    }
  }

  lemma {:induction false} AcceptedDefined(c: Category, op: Operator, operand: Operand, v: Value, clock: Clock)
    requires Accepts(c, false, op, operand) && InCategory(v, c)
    ensures Holds(v, op, operand, clock).Some? <==> Supported(op, operand)
  {
    match operand
    case Scalar(lit) =>
    case Bounds(r) =>
    case ValueSet(es) =>
      if op.Match? {
        PatternAnyDefined(op.pattern, v, es);
      } else {
        AnyDefined(c, if op.comparison == NEQ then EQ else op.comparison, v, es, clock);
      }
  }

  /**
   An accepted expression on a plain field never compares across categories, orders booleans or orders
   against NULL, whatever the column holds, exactly when its value set is one the operator supports.
   */
  lemma AcceptedNeverStuckExactly(c: Category, op: Operator, operand: Operand)
    requires Accepts(c, false, op, operand)
    ensures NeverStuck(c, op, operand) <==> Supported(op, operand)
  {
    AcceptedDefined(c, op, operand, Null, Clock("", ""));
    forall v: Value, clock: Clock | InCategory(v, c) && Supported(op, operand)
      ensures Holds(v, op, operand, clock).Some?
    {
      AcceptedDefined(c, op, operand, v, clock);
    }
  }

  // ---------------------------------------------------------------- completeness

  /** A value of the category that is not NULL. */
  function Witness(c: Category): Value {
    match c
    case Numeric => Number(0.0)
    case Textual => Value.Text("")
    case Logical => Truth(true)
    case Chronological => Moment("")
    case Unknown => Null
  }

  const NO_CLOCK := Clock("", "")

  lemma {:induction false} ConstraintsFit(c: Category, ks: seq<Constraint>)
    requires c != Unknown && SatisfiesAll(Witness(c), ks, NO_CLOCK).Some?
    ensures forall i :: 0 <= i < |ks| ==> ConstraintFits(c, ks[i])
  {
    if ks != [] {
      ConstraintsFit(c, ks[1..]);
      assert forall i :: 1 <= i < |ks| ==> ks[i] == ks[1..][i - 1];
    }
  }

  lemma DefinedElementFits(c: Category, op: ComparisonOperator, e: Element)
    requires c != Unknown && MatchesElement(op, Witness(c), e, NO_CLOCK).Some? && (c == Logical ==> !e.AllOf?)
    ensures ElementFits(c, e)
  {
    if e.AllOf? { ConstraintsFit(c, e.constraints); }
  }

  lemma {:induction false} DefinedSetFits(c: Category, op: ComparisonOperator, es: seq<Element>)
    requires c != Unknown && MatchesAny(op, Witness(c), es, NO_CLOCK).Some?
    requires c == Logical ==> forall i :: 0 <= i < |es| ==> !es[i].AllOf?
    ensures SetFits(c, es)
  {
    hide MatchesElement, ElementFits;
    if es != [] {
      DefinedElementFits(c, op, es[0]);
      DefinedSetFits(c, op, es[1..]);
      assert forall i :: 1 <= i < |es| ==> es[i] == es[1..][i - 1];
    }
  }

  /**
   Value sets that are refused although they have a meaning: under a string operator on a column that is no text, such
   as the empty set, and on booleans under an ordering operator or with a compound constraint.
   */
  predicate TurnedAway(c: Category, op: Operator, operand: Operand) {
    operand.ValueSet? &&
    match op
    case Match(_) => c != Textual
    case Compare(o) =>
      c == Logical && (o.IsOrdering() || exists i :: 0 <= i < |operand.elements| && operand.elements[i].AllOf?)
  }

  lemma DefinedIsAccepted(c: Category, op: Operator, operand: Operand)
    requires c != Unknown && Holds(Witness(c), op, operand, NO_CLOCK).Some? && !TurnedAway(c, op, operand)
    ensures Accepts(c, false, op, operand)
  {
    match operand
    case Scalar(_) =>
    case Bounds(_) =>
    case ValueSet(es) =>
      if op.Match? {
        PatternAnyDefined(op.pattern, Witness(c), es);
      } else {
        DefinedSetFits(c, if op.comparison == NEQ then EQ else op.comparison, es);
      }
  }

  /**
   The validator refuses nothing else: on a column of supported type, an expression that its operator supports is
   accepted exactly when it has an outcome on every value of the column, unless it is one of those value sets.
   */
  lemma AcceptedExactly(c: Category, op: Operator, operand: Operand)
    requires c != Unknown
    ensures Accepts(c, false, op, operand) && Supported(op, operand) <==>
              NeverStuck(c, op, operand) && !TurnedAway(c, op, operand)
    ensures !operand.ValueSet? ==> (Accepts(c, false, op, operand) <==> NeverStuck(c, op, operand))
  {
    hide NeverStuck, Holds;
    if NeverStuck(c, op, operand) {
      WitnessHolds(c, op, operand);
      if !TurnedAway(c, op, operand) { DefinedIsAccepted(c, op, operand); }
    }
    if Accepts(c, false, op, operand) {
      AcceptedNeverStuckExactly(c, op, operand);
      AcceptedNotTurnedAway(c, op, operand);
    }
  }

  lemma WitnessHolds(c: Category, op: Operator, operand: Operand)
    requires NeverStuck(c, op, operand)
    ensures Holds(Witness(c), op, operand, NO_CLOCK).Some?
  {
    assert InCategory(Witness(c), c);
  }

  lemma AcceptedNotTurnedAway(c: Category, op: Operator, operand: Operand)
    requires c != Unknown && Accepts(c, false, op, operand)
    ensures !TurnedAway(c, op, operand)
  {
  }

  /** What is not a plain column of supported type: nested paths are exempt but for NULL, other types take NULL only. */
  lemma ExemptExactly(op: Operator, operand: Operand)
    ensures forall c :: Accepts(c, true, op, operand) <==>
              (operand == Scalar(NullLiteral) ==> op == Compare(EQ) || op == Compare(NEQ))
    ensures Accepts(Unknown, false, op, operand) <==>
              operand == Scalar(NullLiteral) && (op == Compare(EQ) || op == Compare(NEQ))
  {
  }

  /** An ordering against a value set with NULL in it is accepted, and has no meaning. */
  lemma OrderingAgainstNullAccepted()
    ensures Accepts(Numeric, false, Compare(GT), ValueSet([Single(NullLiteral)]))
    ensures !NeverStuck(Numeric, Compare(GT), ValueSet([Single(NullLiteral)]))
  {
    AcceptedNeverStuckExactly(Numeric, Compare(GT), ValueSet([Single(NullLiteral)]));
    assert [Single(NullLiteral)][0] == Single(NullLiteral);
  }

  /** A string operator against a range of texts, or a constraint on texts, is accepted, and has no meaning. */
  lemma MatchAgainstRangeAccepted(op: StringOperator, start: string, end: string, inclusive: bool, e: Element)
    requires e == Within(Range(StringLiteral(start), StringLiteral(end), inclusive))
             || e == Constrained(Constraint(GTE, StringLiteral(start)))
    ensures Accepts(Textual, false, Match(op), ValueSet([e]))
    ensures !NeverStuck(Textual, Match(op), ValueSet([e]))
  {
    AcceptedNeverStuckExactly(Textual, Match(op), ValueSet([e]));
    assert [e][0] == e;
  }

  /**
   Outside the unsupported types, an assignment is accepted exactly when the column may store the value it
   denotes; a column of unsupported type accepts NULL only.
   */
  lemma AssignmentAcceptedExactly(f: FieldSchema, lit: Literal, clock: Clock)
    ensures AcceptsAssignment(CategoryOf(f.dataType), f.nullable, lit) <==>
              Stores(f, Denote(lit, clock)) && (CategoryOf(f.dataType) == Unknown ==> lit.NullLiteral?)
  {
  }
}
