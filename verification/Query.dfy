/** The AltrQL syntax tree and what a WHERE tree means on a row. */
module Query {
  import opened Text

  datatype FieldPath = FieldPath(root: string, rest: seq<string>) {
    function Leaf(): string { if rest == [] then root else rest[|rest| - 1] }

    predicate IsNested() { rest != [] }

    /** The segments joined by dots. */
    function FullPath(): string { root + Dotted(rest) }
  }

  function Dotted(segments: seq<string>): string {
    if segments == [] then "" else "." + segments[0] + Dotted(segments[1..])
  }

  datatype ComparisonOperator = EQ | NEQ | GT | LT | GTE | LTE {
    predicate IsOrdering() { GT? || LT? || GTE? || LTE? }
  }

  datatype StringOperator = STARTS | ENDS | HAS | NOT_HAS

  datatype Operator = Compare(comparison: ComparisonOperator) | Match(pattern: StringOperator)

  datatype Temporal = Today | Now | OnDate(date: string)

  datatype Literal =
    | StringLiteral(text: string)
    | IntegerLiteral(n: int)
    | FloatLiteral(r: real)
    | BooleanLiteral(b: bool)
    | NullLiteral
    | TemporalLiteral(moment: Temporal)

  datatype Range = Range(start: Literal, end: Literal, inclusive: bool)

  datatype Constraint = Constraint(operator: ComparisonOperator, value: Literal)

  datatype Element =
    | Single(literal: Literal)
    | Within(range: Range)
    | Constrained(constraint: Constraint)
    | AllOf(constraints: seq<Constraint>)

  datatype Operand = Scalar(literal: Literal) | Bounds(range: Range) | ValueSet(elements: seq<Element>)

  datatype LogicalOperator = AND | OR

  datatype Expression =
    | FieldExpression(field: FieldPath, operator: Operator, operand: Operand)
    | LogicalExpression(connective: LogicalOperator, left: Expression, right: Expression)
    | NegationExpression(inner: Expression)

  datatype FieldSelection = FieldSelection(path: FieldPath, alias: Option<string>)

  datatype MutationAssignment = MutationAssignment(field: FieldPath, value: Literal)

  datatype CreateRecord = CreateRecord(assignments: seq<MutationAssignment>)

  datatype SortDirection = ASC | DESC

  datatype SortClause = SortClause(field: FieldPath, direction: SortDirection)

  datatype RankingDirection = TOP | BOTTOM

  datatype RankingClause = RankingClause(direction: RankingDirection, count: int, field: FieldPath)

  datatype QueryOperation = READ | CREATE | UPDATE | DELETE

  datatype AltrQueryIR = AltrQueryIR(
    operation: QueryOperation,
    entity: string,
    projection: seq<FieldSelection>,
    where: Option<Expression>,
    assignments: seq<MutationAssignment>,
    records: seq<CreateRecord>,
    sort: seq<SortClause>,
    ranking: Option<RankingClause>,
    limit: Option<int>,
    offset: Option<int>)

  // ---------------------------------------------------------------- values

  /** Moments are ISO texts, whose lexicographic order is the order of time. */
  datatype Value =
    | Null
    | Text(text: string)
    | Number(r: real)
    | Truth(b: bool)
    | Moment(iso: string)
    | Document(fields: map<string, Value>)

  datatype Clock = Clock(today: string, now: string)

  type Row = map<string, Value>

  /** What a field path denotes in the situation at hand. */
  type View = FieldPath -> Value

  function Denote(lit: Literal, clock: Clock): Value {
    match lit
    case StringLiteral(text) => Text(text)
    case IntegerLiteral(n) => Number(n as real)
    case FloatLiteral(r) => Number(r)
    case BooleanLiteral(b) => Truth(b)
    case NullLiteral => Null
    case TemporalLiteral(Today) => Moment(clock.today)
    case TemporalLiteral(Now) => Moment(clock.now)
    case TemporalLiteral(OnDate(date)) => Moment(date)
  }

  // ---------------------------------------------------------------- meaning of WHERE

  // An outcome None means that the evaluation is stuck: it compares values of different categories,
  // orders booleans or documents, orders against NULL, or matches something that is no text.

  type Outcome = Option<bool>

  function Not(a: Outcome): Outcome {
    if a.Some? then Some(!a.value) else None
  }

  function And(a: Outcome, b: Outcome): Outcome {
    if a.Some? && b.Some? then Some(a.value && b.value) else None
  }

  function Or(a: Outcome, b: Outcome): Outcome {
    if a.Some? && b.Some? then Some(a.value || b.value) else None
  }

  function Ordered(op: ComparisonOperator, less: bool, equal: bool): bool {
    match op
    case EQ => equal
    case NEQ => !equal
    case GT => !less && !equal
    case LT => less
    case GTE => !less
    case LTE => less || equal
  }

  /**
   Two-valued comparison: NULL equals only NULL and differs from everything else, and no value is ordered
   against NULL: a NULL field fails every ordering, while ordering against a NULL literal has no meaning.
   */
  function Comparison(op: ComparisonOperator, v: Value, w: Value): Outcome {
    if w.Null? then (if op.IsOrdering() then None else Some((op == EQ) == v.Null?))
    else if v.Null? then Some(op == NEQ)
    else
      match (v, w)
      case (Number(x), Number(y)) => Some(Ordered(op, x < y, x == y))
      case (Text(x), Text(y)) => Some(Ordered(op, Less(x, y), x == y))
      case (Moment(x), Moment(y)) => Some(Ordered(op, Less(x, y), x == y))
      case (Truth(x), Truth(y)) => if op.IsOrdering() then None else Some((op == EQ) == (x == y))
      case _ => None
  }

  function InRange(v: Value, r: Range, clock: Clock): Outcome {
    And(Comparison(if r.inclusive then GTE else GT, v, Denote(r.start, clock)),
        Comparison(if r.inclusive then LTE else LT, v, Denote(r.end, clock)))
  }

  function Satisfies(v: Value, c: Constraint, clock: Clock): Outcome {
    Comparison(c.operator, v, Denote(c.value, clock))
  }

  /** A compound constraint is the conjunction of its parts. */
  function SatisfiesAll(v: Value, cs: seq<Constraint>, clock: Clock): Outcome {
    if cs == [] then Some(true) else And(Satisfies(v, cs[0], clock), SatisfiesAll(v, cs[1..], clock))
  }

  function MatchesElement(op: ComparisonOperator, v: Value, e: Element, clock: Clock): Outcome {
    match e
    case Single(lit) => Comparison(op, v, Denote(lit, clock))
    case Within(r) => InRange(v, r, clock)
    case Constrained(c) => Satisfies(v, c, clock)
    case AllOf(cs) => SatisfiesAll(v, cs, clock)
  }

  /** A value set is the disjunction of its elements. */
  function MatchesAny(op: ComparisonOperator, v: Value, es: seq<Element>, clock: Clock): Outcome {
    if es == [] then Some(false)
    else Or(MatchesElement(op, v, es[0], clock), MatchesAny(op, v, es[1..], clock))
  }

  predicate IsSuffix(s: string, t: string) { |s| <= |t| && t[|t| - |s|..] == s }

  /** The positive string match; NOT HAS negates HAS. */
  function Pattern(op: StringOperator, v: Value, lit: Literal): Outcome {
    if lit.NullLiteral? then Some(v.Null?)
    else if !lit.StringLiteral? then None
    else if v.Null? then Some(false)
    else if !v.Text? then None
    else match op
      case STARTS => Some(lit.text <= v.text)
      case ENDS => Some(IsSuffix(lit.text, v.text))
      case HAS => Some(IsInfix(lit.text, v.text))
      case NOT_HAS => Some(IsInfix(lit.text, v.text))
  }

  function PatternAny(op: StringOperator, v: Value, es: seq<Element>): Outcome {
    if es == [] then Some(false)
    else Or(if es[0].Single? then Pattern(op, v, es[0].literal) else None, PatternAny(op, v, es[1..]))
  }

  function MatchesPattern(op: StringOperator, v: Value, operand: Operand): Outcome {
    var positive :=
      match operand
      case Scalar(lit) => if lit.NullLiteral? then None else Pattern(op, v, lit)
      case Bounds(_) => None
      case ValueSet(es) => PatternAny(op, v, es);
    if op == NOT_HAS then Not(positive) else positive
  }

  function MatchesOperand(op: ComparisonOperator, v: Value, operand: Operand, clock: Clock): Outcome {
    match operand
    case Scalar(lit) => Comparison(op, v, Denote(lit, clock))
    case Bounds(r) => if op == NEQ then Not(InRange(v, r, clock)) else InRange(v, r, clock)
    case ValueSet(es) =>
      if op == NEQ then Not(MatchesAny(EQ, v, es, clock)) else MatchesAny(op, v, es, clock)
  }

  function Holds(v: Value, op: Operator, operand: Operand, clock: Clock): Outcome {
    match op
    case Compare(c) => MatchesOperand(c, v, operand, clock)
    case Match(p) => MatchesPattern(p, v, operand)
  }

  function Eval(e: Expression, view: View, clock: Clock): Outcome {
    match e
    case FieldExpression(field, op, operand) => Holds(view(field), op, operand, clock)
    case LogicalExpression(AND, left, right) => And(Eval(left, view, clock), Eval(right, view, clock))
    case LogicalExpression(OR, left, right) => Or(Eval(left, view, clock), Eval(right, view, clock))
    case NegationExpression(inner) => Not(Eval(inner, view, clock))
  }

  /** The field paths a WHERE tree mentions. */
  function Paths(e: Expression): set<FieldPath> {
    match e
    case FieldExpression(field, _, _) => {field}
    case LogicalExpression(_, left, right) => Paths(left) + Paths(right)
    case NegationExpression(inner) => Paths(inner)
  }

  // ---------------------------------------------------------------- laws of the operators

  /** The six comparisons go back to equality and to one order, which is that of numbers or of texts. */
  lemma ComparisonLaws(v: Value, w: Value)
    ensures Comparison(NEQ, v, w) == Not(Comparison(EQ, v, w))
    ensures v.Null? || w.Null? ==> Comparison(EQ, v, w) == Some(v.Null? && w.Null?)
    ensures !v.Null? && !w.Null? && Comparison(EQ, v, w).Some? ==> Comparison(EQ, v, w) == Some(v == w)
    ensures !v.Null? && !w.Null? ==>
              && Comparison(GT, v, w) == Comparison(LT, w, v)
              && Comparison(GTE, v, w) == Not(Comparison(LT, v, w))
              && Comparison(LTE, v, w) == Not(Comparison(GT, v, w))
    ensures v.Number? && w.Number? ==> Comparison(LT, v, w) == Some(v.r < w.r)
    ensures v.Text? && w.Text? ==> Comparison(LT, v, w) == Some(Less(v.text, w.text))
    ensures v.Moment? && w.Moment? ==> Comparison(LT, v, w) == Some(Less(v.iso, w.iso))
    ensures v.Null? && !w.Null? ==> Comparison(LT, v, w) == Comparison(GTE, v, w) == Some(false)
  {
    if v.Text? && w.Text? { LessTotal(v.text, w.text); LessBothWays(v.text, w.text); }
    if v.Moment? && w.Moment? { LessTotal(v.iso, w.iso); LessBothWays(v.iso, w.iso); }
  }

  lemma LessBothWays(s: string, t: string)
    ensures !(Less(s, t) && Less(t, s)) && (s == t ==> !Less(s, t))
  {
    LessIrreflexive(s);
    if Less(s, t) && Less(t, s) { LessTransitive(s, t, s); }
  }

  /** What each kind of literal stands for. */
  lemma LiteralsStandFor(n: int, r: real, b: bool, text: string, clock: Clock)
    ensures Denote(IntegerLiteral(n), clock) == Number(n as real) && Denote(FloatLiteral(r), clock) == Number(r)
    ensures Denote(StringLiteral(text), clock) == Text(text) && Denote(BooleanLiteral(b), clock) == Truth(b)
    ensures Denote(NullLiteral, clock) == Null
    ensures Denote(TemporalLiteral(Today), clock) == Moment(clock.today)
    ensures Denote(TemporalLiteral(Now), clock) == Moment(clock.now)
    ensures Denote(TemporalLiteral(OnDate(text)), clock) == Moment(text)
  {
  }

  /** A range of numbers holds its bounds exactly if it is inclusive. */
  lemma NumbersInRange(x: real, lo: real, hi: real, inclusive: bool, clock: Clock)
    ensures Holds(Number(x), Compare(EQ), Bounds(Range(FloatLiteral(lo), FloatLiteral(hi), inclusive)), clock)
            == Some(lo < x < hi || (inclusive && lo <= x <= hi))
    ensures Holds(Number(x), Compare(NEQ), Bounds(Range(FloatLiteral(lo), FloatLiteral(hi), inclusive)), clock)
            == Some(!(lo < x < hi || (inclusive && lo <= x <= hi)))
  {
  }

  /** The outcome of a value set that has one is that of some element of it. */
  lemma {:induction false} AnyOfSet(op: ComparisonOperator, v: Value, es: seq<Element>, clock: Clock)
    requires MatchesAny(op, v, es, clock).Some?
    ensures MatchesAny(op, v, es, clock).value <==>
              exists i :: 0 <= i < |es| && MatchesElement(op, v, es[i], clock) == Some(true)
  {
    hide MatchesElement;
    if es != [] {
      AnyOfSet(op, v, es[1..], clock);
      if MatchesElement(op, v, es[0], clock) != Some(true) && MatchesAny(op, v, es, clock).value {
        var i :| 0 <= i < |es[1..]| && MatchesElement(op, v, es[1..][i], clock) == Some(true);
        assert es[i + 1] == es[1..][i];
      }
      assert forall i :: 1 <= i < |es| ==> es[i] == es[1..][i - 1];
    }
  }

  /** String operators on a text: where the literal must stand. */
  lemma TextMatches(text: string, part: string, clock: Clock)
    ensures Holds(Text(text), Match(STARTS), Scalar(StringLiteral(part)), clock) == Some(OccursAt(part, text, 0))
    ensures Holds(Text(text), Match(ENDS), Scalar(StringLiteral(part)), clock)
            == Some(|part| <= |text| && OccursAt(part, text, |text| - |part|))
    ensures Holds(Text(text), Match(HAS), Scalar(StringLiteral(part)), clock)
            == Some(exists i: nat :: OccursAt(part, text, i))
    ensures Holds(Text(text), Match(NOT_HAS), Scalar(StringLiteral(part)), clock)
            == Some(!exists i: nat :: OccursAt(part, text, i))
  {
    InfixExactly(part, text);
  }

  // ---------------------------------------------------------------- rows

  function Get(row: Row, column: string): Value {
    if column in row then row[column] else Null
  }

  /** The value reached from v through nested documents; NULL where there is none. */
  function Descend(v: Value, path: seq<string>): Value {
    if path == [] then v
    else if v.Document? && path[0] in v.fields then Descend(v.fields[path[0]], path[1..])
    else Null
  }

  function PhysicalView(row: Row): View {
    (p: FieldPath) => Descend(Get(row, p.root), p.rest)
  }
}
