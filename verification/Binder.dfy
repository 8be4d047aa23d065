/** Binding a query to a schema: every path is resolved, annotated and type checked, and nothing else changes. */
module Binder {
  import opened Text
  import opened Query
  import opened Schema
  import opened TypeValidator

  datatype BoundField = BoundField(
    path: FieldPath, dataType: DataType, category: Category, nativeType: string, nullable: bool, isPrimaryKey: bool)

  datatype BoundExpression =
    | BoundFieldExpression(field: BoundField, operator: Operator, operand: Operand)
    | BoundLogicalExpression(connective: LogicalOperator, left: BoundExpression, right: BoundExpression)
    | BoundNegationExpression(inner: BoundExpression)

  datatype BoundSelection = BoundSelection(field: BoundField, alias: Option<string>)

  datatype BoundAssignment = BoundAssignment(field: BoundField, value: Literal)

  datatype BoundSort = BoundSort(field: BoundField, direction: SortDirection)

  datatype BoundRanking = BoundRanking(direction: RankingDirection, count: int, field: BoundField)

  datatype BoundEntity = BoundEntity(name: string, namespace: string, primaryKey: seq<string>)

  datatype BoundIR = BoundIR(
    operation: QueryOperation,
    entity: BoundEntity,
    projection: seq<BoundSelection>,
    where: Option<BoundExpression>,
    assignments: seq<BoundAssignment>,
    records: seq<seq<BoundAssignment>>,
    sort: seq<BoundSort>,
    ranking: Option<BoundRanking>,
    limit: Option<int>,
    offset: Option<int>,
    sourceId: string,
    sourceName: string)

  datatype BindError = UnknownEntity | UnknownField(path: FieldPath) | TypeMismatch(path: FieldPath)

  // ---------------------------------------------------------------- specification

  function Annotate(p: FieldPath, f: FieldSchema): BoundField {
    BoundField(p, f.dataType, CategoryOf(f.dataType), f.nativeType, f.nullable, f.isPrimaryKey)
  }

  function BindField(p: FieldPath, entity: EntitySchema): Result<BoundField, BindError> {
    match ResolveField(p, entity)
    case None => Err(UnknownField(p))
    case Some(f) => Ok(Annotate(p, f))
  }

  function BindExpression(e: Expression, entity: EntitySchema): Result<BoundExpression, BindError> {
    match e
    case FieldExpression(p, op, operand) =>
      (match BindField(p, entity)
       case Err(error) => Err(error)
       case Ok(f) =>
         if Accepts(f.category, p.IsNested(), op, operand) then Ok(BoundFieldExpression(f, op, operand))
         else Err(TypeMismatch(p)))
    case NegationExpression(inner) =>
      (match BindExpression(inner, entity)
       case Err(error) => Err(error)
       case Ok(b) => Ok(BoundNegationExpression(b)))
    case LogicalExpression(connective, left, right) =>
      (match BindExpression(left, entity)
       case Err(error) => Err(error)
       case Ok(l) =>
         match BindExpression(right, entity)
         case Err(error) => Err(error)
         case Ok(r) => Ok(BoundLogicalExpression(connective, l, r)))
  }

  function BindAssignment(a: MutationAssignment, entity: EntitySchema): Result<BoundAssignment, BindError> {
    match BindField(a.field, entity)
    case Err(error) => Err(error)
    case Ok(f) =>
      if AcceptsAssignment(f.category, f.nullable, a.value) then Ok(BoundAssignment(f, a.value))
      else Err(TypeMismatch(a.field))
  }

  /** f of every element in order, or the first error. */
  function Traverse<A, B>(f: A -> Result<B, BindError>, s: seq<A>): Result<seq<B>, BindError> {
    if s == [] then Ok([])
    else
      match Traverse(f, s[..|s| - 1])
      case Err(error) => Err(error)
      case Ok(front) =>
        match f(s[|s| - 1])
        case Err(error) => Err(error)
        case Ok(last) => Ok(front + [last])
  }

  method BindAll<A, B>(f: A -> Result<B, BindError>, s: seq<A>) returns (r: Result<seq<B>, BindError>)
    ensures r == Traverse(f, s)
  {
    var bound: seq<B> := [];
    for i := 0 to |s|
      invariant Traverse(f, s[..i]) == Ok(bound)
    {
      assert s[..i + 1][..i] == s[..i];
      match f(s[i]) {
        case Err(error) =>
          TraverseStops(f, s, i + 1, error);
          return Err(error);
        case Ok(b) => bound := bound + [b];
      }
    }
    assert s[..|s|] == s;
    return Ok(bound);
  }

  lemma {:induction false} TraverseStops<A, B>(f: A -> Result<B, BindError>, s: seq<A>, i: nat, error: BindError)
    requires i <= |s| && Traverse(f, s[..i]) == Err(error)
    ensures Traverse(f, s) == Err(error)
    decreases |s| - i
  {
    if i < |s| {
      assert s[..i + 1][..i] == s[..i];
      TraverseStops(f, s, i + 1, error);
    } else {
      assert s[..i] == s;
    }
  }

  lemma {:induction false} TraverseElements<A, B>(f: A -> Result<B, BindError>, s: seq<A>)
    ensures Traverse(f, s).Ok? <==> forall i :: 0 <= i < |s| ==> f(s[i]).Ok?
    ensures Traverse(f, s).Ok? ==>
              |Traverse(f, s).value| == |s| && forall i :: 0 <= i < |s| ==> f(s[i]) == Ok(Traverse(f, s).value[i])
  {
    if s != [] {
      var front := s[..|s| - 1];
      TraverseElements(f, front);
      assert forall i :: 0 <= i < |front| ==> front[i] == s[i];
    }
  }

  function SelectionBinder(entity: EntitySchema): FieldSelection -> Result<BoundSelection, BindError> {
    (sel: FieldSelection) => match BindField(sel.path, entity)
           case Err(error) => Err(error)
           case Ok(f) => Ok(BoundSelection(f, sel.alias))
  }

  function AssignmentBinder(entity: EntitySchema): MutationAssignment -> Result<BoundAssignment, BindError> {
    (a: MutationAssignment) => BindAssignment(a, entity)
  }

  function RecordBinder(entity: EntitySchema): CreateRecord -> Result<seq<BoundAssignment>, BindError> {
    (rec: CreateRecord) => Traverse(AssignmentBinder(entity), rec.assignments)
  }

  function SortBinder(entity: EntitySchema): SortClause -> Result<BoundSort, BindError> {
    (s: SortClause) => match BindField(s.field, entity)
         case Err(error) => Err(error)
         case Ok(f) => Ok(BoundSort(f, s.direction))
  }

  /** The records a CREATE query inserts: its batch, or else its single list of assignments. */
  function RecordsToBind(ir: AltrQueryIR): seq<CreateRecord> {
    if ir.records != [] then ir.records
    else if ir.assignments != [] then [CreateRecord(ir.assignments)]
    else []
  }

  function PrimaryKeyOf(entity: EntitySchema): seq<string> {
    if entity.primaryKey != [] then entity.primaryKey else KeyNames(entity.fields)
  }

  function KeyNames(fields: seq<FieldSchema>): seq<string> {
    if fields == [] then []
    else (if fields[0].isPrimaryKey then [fields[0].name] else []) + KeyNames(fields[1..])
  }

  /** The primary keys of the columns in their order, column by column. */
  lemma {:induction false} KeyNamesAppend(a: seq<FieldSchema>, b: seq<FieldSchema>)
    ensures KeyNames(a + b) == KeyNames(a) + KeyNames(b)
  {
    if a == [] {
      assert a + b == b;
    } else {
      KeyNamesAppend(a[1..], b);
      KeyNamesFront(a);
      KeyNamesFront(a + b);
      hide KeyNames;
      assert (a + b)[1..] == a[1..] + b && (a + b)[0] == a[0];
      var first := if a[0].isPrimaryKey then [a[0].name] else [];
      assert first + (KeyNames(a[1..]) + KeyNames(b)) == (first + KeyNames(a[1..])) + KeyNames(b);
    }
  }

  lemma KeyNamesFront(fields: seq<FieldSchema>)
    requires fields != []
    ensures KeyNames(fields) == (if fields[0].isPrimaryKey then [fields[0].name] else []) + KeyNames(fields[1..])
  {
  }

  lemma KeyNamesOne(f: FieldSchema)
    ensures KeyNames([f]) == if f.isPrimaryKey then [f.name] else []
  {
    assert [f][1..] == [];
  }

  /** The bound query agrees with the query everywhere but for the annotations taken from the entity. */
  predicate BoundFaithfully(b: BoundIR, ir: AltrQueryIR, entity: EntitySchema, schema: SourceSchema) {
    && b.operation == ir.operation && b.limit == ir.limit && b.offset == ir.offset
    && b.entity == BoundEntity(entity.name, entity.namespace, PrimaryKeyOf(entity))
    && b.sourceId == schema.sourceId && b.sourceName == schema.sourceName
    && Ok(b.projection) == Traverse(SelectionBinder(entity), ir.projection)
    && Ok(b.records) == Traverse(RecordBinder(entity), if ir.operation == CREATE then RecordsToBind(ir) else [])
    && Ok(b.assignments) == Traverse(AssignmentBinder(entity), if ir.operation == UPDATE then ir.assignments else [])
    && b.where.Some? == ir.where.Some?
    && (ir.where.Some? ==> Ok(b.where.value) == BindExpression(ir.where.value, entity))
    && Ok(b.sort) == Traverse(SortBinder(entity), ir.sort)
    && b.ranking.Some? == ir.ranking.Some?
    && (ir.ranking.Some? ==>
          BindField(ir.ranking.value.field, entity).Ok?
          && b.ranking.value == BoundRanking(ir.ranking.value.direction, ir.ranking.value.count,
                                             BindField(ir.ranking.value.field, entity).value))
  }

  /** Every part of the query resolves and type checks against the entity. */
  predicate Bindable(ir: AltrQueryIR, entity: EntitySchema) {
    && Traverse(SelectionBinder(entity), ir.projection).Ok?
    && (ir.operation == CREATE ==> Traverse(RecordBinder(entity), RecordsToBind(ir)).Ok?)
    && (ir.operation == UPDATE ==> Traverse(AssignmentBinder(entity), ir.assignments).Ok?)
    && (ir.where.Some? ==> BindExpression(ir.where.value, entity).Ok?)
    && Traverse(SortBinder(entity), ir.sort).Ok?
    && (ir.ranking.Some? ==> BindField(ir.ranking.value.field, entity).Ok?)
  }

  /** The entity is known, and every part of the query resolves and type checks against it. */
  predicate Binds(ir: AltrQueryIR, schema: SourceSchema) {
    var entity := ResolveEntity(schema.entities, ir.entity);
    entity.Some? && Bindable(ir, entity.value)
  }

  method BindAltrql(ir: AltrQueryIR, schema: SourceSchema) returns (r: Result<BoundIR, BindError>)
    ensures r.Ok? <==> Binds(ir, schema)
    ensures var entity := ResolveEntity(schema.entities, ir.entity);
            && (entity.None? <==> r == Err(UnknownEntity))
            && (r.Ok? ==> BoundFaithfully(r.value, ir, entity.value, schema))
  {
    var found := ResolveEntity(schema.entities, ir.entity);
    if found.None? { return Err(UnknownEntity); }
    var entity := found.value;
    BindErrorsKnow(ir, entity);

    var projection := BindAll(SelectionBinder(entity), ir.projection);
    if projection.Err? { return Err(projection.error); }

    var records: seq<seq<BoundAssignment>> := [];
    var assignments: seq<BoundAssignment> := [];
    if ir.operation == CREATE {
      var bound := BindAll(RecordBinder(entity), RecordsToBind(ir));
      if bound.Err? { return Err(bound.error); }
      records := bound.value;
    } else if ir.operation == UPDATE {
      var bound := BindAll(AssignmentBinder(entity), ir.assignments);
      if bound.Err? { return Err(bound.error); }
      assignments := bound.value;
    }

    var where := None;
    if ir.where.Some? {
      var bound := BindExpression(ir.where.value, entity);
      if bound.Err? { return Err(bound.error); }
      where := Some(bound.value);
    }

    var sort := BindAll(SortBinder(entity), ir.sort);
    if sort.Err? { return Err(sort.error); }

    var ranking := None;
    if ir.ranking.Some? {
      var field := BindField(ir.ranking.value.field, entity);
      if field.Err? { return Err(field.error); }
      ranking := Some(BoundRanking(ir.ranking.value.direction, ir.ranking.value.count, field.value));
    }
    return Ok(BoundIR(ir.operation, BoundEntity(entity.name, entity.namespace, PrimaryKeyOf(entity)),
                      projection.value, where, assignments, records, sort.value, ranking, ir.limit, ir.offset,
                      schema.sourceId, schema.sourceName));
  }

  /** A batch of records is inserted as it is; a single list of assignments as a batch of one. */
  lemma CreateIsBatch(ir: AltrQueryIR, schema: SourceSchema, b: BoundIR, entity: EntitySchema)
    requires ir.operation == CREATE
    ensures ir.records == [] && ir.assignments != [] ==>
              var batch := ir.(records := [CreateRecord(ir.assignments)]);
              (Binds(ir, schema) <==> Binds(batch, schema))
              && (BoundFaithfully(b, ir, entity, schema) <==> BoundFaithfully(b, batch, entity, schema))
    ensures BoundFaithfully(b, ir, entity, schema) && (ir.records != [] || ir.assignments == []) ==>
              |b.records| == |ir.records| && b.assignments == []
              && forall i :: 0 <= i < |ir.records| ==>
                   Ok(b.records[i]) == Traverse(AssignmentBinder(entity), ir.records[i].assignments)
    ensures BoundFaithfully(b, ir, entity, schema) ==>
              b.entity.primaryKey == if entity.primaryKey != [] then entity.primaryKey else KeyNames(entity.fields)
  {
    TraverseElements(RecordBinder(entity), ir.records);
  }

  // Once the entity is known, no error says otherwise.

  lemma {:induction false} TraverseError<A, B>(f: A -> Result<B, BindError>, s: seq<A>)
    requires forall a :: f(a) != Err(UnknownEntity)
    ensures Traverse(f, s) != Err(UnknownEntity)
  {
    if s != [] { TraverseError(f, s[..|s| - 1]); }
  }

  lemma {:induction false} ExpressionError(e: Expression, entity: EntitySchema)
    ensures BindExpression(e, entity) != Err(UnknownEntity)
  {
    match e
    case FieldExpression(_, _, _) =>
    case NegationExpression(inner) => ExpressionError(inner, entity);
    case LogicalExpression(_, left, right) =>
      ExpressionError(left, entity);
      ExpressionError(right, entity);
  }

  lemma BindErrorsKnow(ir: AltrQueryIR, entity: EntitySchema)
    ensures Traverse(SelectionBinder(entity), ir.projection) != Err(UnknownEntity)
    ensures Traverse(RecordBinder(entity), RecordsToBind(ir)) != Err(UnknownEntity)
    ensures Traverse(AssignmentBinder(entity), ir.assignments) != Err(UnknownEntity)
    ensures Traverse(SortBinder(entity), ir.sort) != Err(UnknownEntity)
    ensures ir.where.Some? ==> BindExpression(ir.where.value, entity) != Err(UnknownEntity)
  {
    TraverseError(SelectionBinder(entity), ir.projection);
    forall rec ensures RecordBinder(entity)(rec) != Err(UnknownEntity) {
      TraverseError(AssignmentBinder(entity), rec.assignments);
    }
    TraverseError(RecordBinder(entity), RecordsToBind(ir));
    TraverseError(AssignmentBinder(entity), ir.assignments);
    TraverseError(SortBinder(entity), ir.sort);
    if ir.where.Some? { ExpressionError(ir.where.value, entity); }
  }

  // ---------------------------------------------------------------- binding changes nothing

  function Erase(b: BoundExpression): Expression {
    match b
    case BoundFieldExpression(f, op, operand) => FieldExpression(f.path, op, operand)
    case BoundLogicalExpression(connective, l, r) => LogicalExpression(connective, Erase(l), Erase(r))
    case BoundNegationExpression(inner) => NegationExpression(Erase(inner))
  }

  /** The annotation of every leaf is what the schema says of its path, and its operand fits. */
  predicate Annotated(b: BoundExpression, entity: EntitySchema) {
    match b
    case BoundFieldExpression(f, op, operand) =>
      BindField(f.path, entity) == Ok(f) && Accepts(f.category, f.path.IsNested(), op, operand)
    case BoundLogicalExpression(_, l, r) => Annotated(l, entity) && Annotated(r, entity)
    case BoundNegationExpression(inner) => Annotated(inner, entity)
  }

  /** Binding succeeds with b exactly when b is the expression with correct annotations. */
  lemma {:induction false} BindingAnnotates(e: Expression, b: BoundExpression, entity: EntitySchema)
    ensures BindExpression(e, entity) == Ok(b) <==> Erase(b) == e && Annotated(b, entity)
  {
    match e
    case FieldExpression(_, _, _) =>
    case NegationExpression(inner) =>
      if b.BoundNegationExpression? { BindingAnnotates(inner, b.inner, entity); }
    case LogicalExpression(_, left, right) =>
      if b.BoundLogicalExpression? {
        BindingAnnotates(left, b.left, entity);
        BindingAnnotates(right, b.right, entity);
      }
  }

  /** Why a test of one field does not bind, if so. */
  function LeafError(p: FieldPath, op: Operator, operand: Operand, entity: EntitySchema): Option<BindError> {
    if ResolveField(p, entity).None? then Some(UnknownField(p))
    else if Accepts(CategoryOf(ResolveField(p, entity).value.dataType), p.IsNested(), op, operand) then None
    else Some(TypeMismatch(p))
  }

  /** The errors of all fields, from the left to the right. */
  function LeafErrors(e: Expression, entity: EntitySchema): seq<BindError> {
    match e
    case FieldExpression(p, op, operand) =>
      if LeafError(p, op, operand, entity).Some? then [LeafError(p, op, operand, entity).value] else []
    case NegationExpression(inner) => LeafErrors(inner, entity)
    case LogicalExpression(_, left, right) => LeafErrors(left, entity) + LeafErrors(right, entity)
  }

  /** A tree that does not bind fails with the error of its first field that does not. */
  lemma {:induction false} FirstErrorReported(e: Expression, entity: EntitySchema)
    ensures BindExpression(e, entity).Ok? <==> LeafErrors(e, entity) == []
    ensures LeafErrors(e, entity) != [] ==> BindExpression(e, entity) == Err(LeafErrors(e, entity)[0])
  {
    match e
    case FieldExpression(_, _, _) =>
    case NegationExpression(inner) => FirstErrorReported(inner, entity);
    case LogicalExpression(_, left, right) =>
      FirstErrorReported(left, entity);
      FirstErrorReported(right, entity);
  }

  lemma AssignmentError(a: MutationAssignment, entity: EntitySchema)
    ensures BindAssignment(a, entity).Err? ==>
              BindAssignment(a, entity).error ==
                if ResolveField(a.field, entity).None? then UnknownField(a.field) else TypeMismatch(a.field)
  {
  }

  /** The path, with all that the schema says of the column it stands for. */
  predicate Describes(b: BoundField, p: FieldPath, entity: EntitySchema) {
    exists k :: 0 <= k < |entity.fields| &&
      var f := entity.fields[k];
      && ResolveField(p, entity) == Some(f)
      && b == BoundField(p, f.dataType, CategoryOf(f.dataType), f.nativeType, f.nullable, f.isPrimaryKey)
  }

  lemma BoundDescribes(p: FieldPath, entity: EntitySchema)
    requires BindField(p, entity).Ok?
    ensures Describes(BindField(p, entity).value, p, entity)
  {
    var f := ResolveField(p, entity).value;
    var k :| 0 <= k < |entity.fields| && entity.fields[k] == f;
  }

  /** The bound assignments are those of the query, in order, with the same values. */
  predicate AssignsTheSame(bound: seq<BoundAssignment>, given: seq<MutationAssignment>, entity: EntitySchema) {
    && |bound| == |given|
    && forall i :: 0 <= i < |given| ==>
         Describes(bound[i].field, given[i].field, entity) && bound[i].value == given[i].value
  }

  lemma BoundAssignsTheSame(bound: seq<BoundAssignment>, given: seq<MutationAssignment>, entity: EntitySchema)
    requires Ok(bound) == Traverse(AssignmentBinder(entity), given)
    ensures AssignsTheSame(bound, given, entity)
  {
    hide Describes;
    TraverseElements(AssignmentBinder(entity), given);
    forall i | 0 <= i < |given|
      ensures Describes(bound[i].field, given[i].field, entity) && bound[i].value == given[i].value
    {
      assert AssignmentBinder(entity)(given[i]) == Ok(bound[i]);
      BoundDescribes(given[i].field, entity);
    }
  }

  /**
   Without its annotations, which are what the schema says of each path, a bound query is the query: the same
   selections and aliases, tree, assignments, records, sort directions and ranking, in the same order.
   */
  lemma BoundQueryErases(b: BoundIR, ir: AltrQueryIR, entity: EntitySchema, schema: SourceSchema)
    requires BoundFaithfully(b, ir, entity, schema)
    ensures |b.projection| == |ir.projection| && forall i :: 0 <= i < |ir.projection| ==>
              Describes(b.projection[i].field, ir.projection[i].path, entity)
              && b.projection[i].alias == ir.projection[i].alias
    ensures |b.sort| == |ir.sort| && forall i :: 0 <= i < |ir.sort| ==>
              Describes(b.sort[i].field, ir.sort[i].field, entity) && b.sort[i].direction == ir.sort[i].direction
    ensures ir.where.Some? ==>
              b.where.Some? && Erase(b.where.value) == ir.where.value && Annotated(b.where.value, entity)
    ensures ir.ranking.Some? ==>
              && b.ranking.Some? && Describes(b.ranking.value.field, ir.ranking.value.field, entity)
              && b.ranking.value.direction == ir.ranking.value.direction
              && b.ranking.value.count == ir.ranking.value.count
    ensures ir.operation == UPDATE ==> AssignsTheSame(b.assignments, ir.assignments, entity)
    ensures ir.operation == CREATE && ir.records != [] ==>
              |b.records| == |ir.records| && forall i :: 0 <= i < |ir.records| ==>
                AssignsTheSame(b.records[i], ir.records[i].assignments, entity)
  {
    hide Describes, BindField, AssignsTheSame;
    TraverseElements(SelectionBinder(entity), ir.projection);
    TraverseElements(SortBinder(entity), ir.sort);
    TraverseElements(RecordBinder(entity), ir.records);
    forall p | BindField(p, entity).Ok? ensures Describes(BindField(p, entity).value, p, entity) {
      BoundDescribes(p, entity);
    }
    forall bound, given | Ok(bound) == Traverse(AssignmentBinder(entity), given)
      ensures AssignsTheSame(bound, given, entity)
    {
      BoundAssignsTheSame(bound, given, entity);
    }
    if ir.where.Some? { BindingAnnotates(ir.where.value, b.where.value, entity); }
  }

  // ---------------------------------------------------------------- bound expressions on well-typed rows

  predicate Flat(e: Expression) {
    match e
    case FieldExpression(p, _, _) => !p.IsNested()
    case LogicalExpression(_, l, r) => Flat(l) && Flat(r)
    case NegationExpression(inner) => Flat(inner)
  }

  predicate AllSupported(e: Expression) {
    match e
    case FieldExpression(_, op, operand) => Supported(op, operand)
    case LogicalExpression(_, l, r) => AllSupported(l) && AllSupported(r)
    case NegationExpression(inner) => AllSupported(inner)
  }

  /**
   A WHERE tree over plain columns that binds has an outcome on every well-typed row exactly when each of its
   operators supports its value set.
   */
  lemma {:induction false} BoundWhereDefined(e: Expression, entity: EntitySchema, row: Row, clock: Clock)
    requires BindExpression(e, entity).Ok? && Flat(e) && WellTyped(row, entity)
    ensures Eval(e, PhysicalView(row), clock).Some? <==> AllSupported(e)
  {
    match e
    case FieldExpression(p, op, operand) =>
      var f := FindField(entity.fields, p.root).value;
      var i :| 0 <= i < |entity.fields| && entity.fields[i] == f;
      assert Stores(entity.fields[i], Get(row, p.root));
      assert PhysicalView(row)(p) == Get(row, p.root);
      AcceptedDefined(CategoryOf(f.dataType), op, operand, Get(row, p.root), clock);
    case NegationExpression(inner) => BoundWhereDefined(inner, entity, row, clock);
    case LogicalExpression(_, l, r) =>
      BoundWhereDefined(l, entity, row, clock);
      BoundWhereDefined(r, entity, row, clock);
  }

  /** Names in a schema entity are unique. */
  predicate UniqueNames(entity: EntitySchema) {
    forall i, j :: 0 <= i < |entity.fields| && 0 <= j < |entity.fields| && i != j ==>
      entity.fields[i].name != entity.fields[j].name
  }

  /** A bound assignment to a plain column of known type keeps every well-typed row well typed. */
  lemma BoundAssignmentKeepsTyping(a: MutationAssignment, entity: EntitySchema, row: Row, clock: Clock)
    requires BindAssignment(a, entity).Ok? && !a.field.IsNested() && WellTyped(row, entity) && UniqueNames(entity)
    ensures WellTyped(row[a.field.root := Denote(a.value, clock)], entity)
  {
    var f := FindField(entity.fields, a.field.root).value;
    AssignmentAcceptedExactly(f, a.value, clock);
  }
}
