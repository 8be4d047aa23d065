/**
 What a mapping preserves of typing: type checking a query against the logical entity, whose names are looked up in
 the entity itself, and binding its resolved form against the physical table agree exactly when names agree.
 */
module MappingTyping {
  import opened Text
  import opened Query
  import opened Schema
  import opened TypeValidator
  import opened Binder
  import opened LogicalResolver
  import opened LogicalMeaning
  import opened MappingValidation

  // ---------------------------------------------------------------- type checking a logical query

  /** The category of the field that the logical entity knows by the name r. */
  function LogicalCategory(logical: LogicalEntity, r: string): Option<Category> {
    match FieldByName(logical.fields, r)
    case Some(f) => Some(CategoryOf(f.dataType))
    case None => None
  }

  /** The WHERE tree type checks against the logical entity. */
  predicate TypeChecks(e: Expression, logical: LogicalEntity) {
    match e
    case FieldExpression(p, op, operand) =>
      LogicalCategory(logical, p.root).Some? && Accepts(LogicalCategory(logical, p.root).value, false, op, operand)
    case LogicalExpression(_, l, r) => TypeChecks(l, logical) && TypeChecks(r, logical)
    case NegationExpression(inner) => TypeChecks(inner, logical)
  }

  /** The logical entity accepts the assigned value. */
  predicate LogicalAccepts(a: MutationAssignment, logical: LogicalEntity) {
    match FieldByName(logical.fields, a.field.root)
    case Some(f) => AcceptsAssignment(CategoryOf(f.dataType), f.nullable, a.value)
    case None => false
  }

  // ---------------------------------------------------------------- what the mapping makes of it

  /** The column that the mapping stores the field called r in, if the table has a column of exactly that name. */
  function StoredField(fms: seq<FieldMapping>, physical: EntitySchema, r: string): Option<FieldSchema> {
    match Column(fms, r)
    case Some(c) => FindField(physical.fields, c)
    case None => None
  }

  function StoredCategory(fms: seq<FieldMapping>, physical: EntitySchema, r: string): Option<Category> {
    match StoredField(fms, physical, r)
    case Some(f) => Some(CategoryOf(f.dataType))
    case None => None
  }

  /** A mapped field as a whole, under a name that resolution keeps. */
  predicate MappedPath(p: FieldPath, fms: seq<FieldMapping>, projection: seq<FieldSelection>) {
    p.rest == [] && Column(fms, p.root).Some? && Kept(fms, projection, p.root)
  }

  predicate OnMappedFields(e: Expression, fms: seq<FieldMapping>, projection: seq<FieldSelection>) {
    match e
    case FieldExpression(p, _, _) => MappedPath(p, fms, projection)
    case LogicalExpression(_, l, r) => OnMappedFields(l, fms, projection) && OnMappedFields(r, fms, projection)
    case NegationExpression(inner) => OnMappedFields(inner, fms, projection)
  }

  /** Binding the resolved tree succeeds exactly when the tree type checks. */
  predicate TypingAgrees(
    e: Expression, fms: seq<FieldMapping>, projection: seq<FieldSelection>, logical: LogicalEntity,
    physical: EntitySchema)
  {
    BindExpression(ResolveExpression(MapNames(fms, projection), e), physical).Ok? <==> TypeChecks(e, logical)
  }

  ghost predicate TypingPreserved(
    fms: seq<FieldMapping>, projection: seq<FieldSelection>, logical: LogicalEntity, physical: EntitySchema)
  {
    forall e | OnMappedFields(e, fms, projection) :: TypingAgrees(e, fms, projection, logical, physical)
  }

  /** Binding the resolved assignment succeeds exactly when the logical entity accepts it. */
  predicate AssignmentAgrees(
    a: MutationAssignment, fms: seq<FieldMapping>, projection: seq<FieldSelection>, logical: LogicalEntity,
    physical: EntitySchema)
  {
    BindAssignment(ResolveAssignment(MapNames(fms, projection), a), physical).Ok? <==> LogicalAccepts(a, logical)
  }

  ghost predicate AssignmentsPreserved(
    fms: seq<FieldMapping>, projection: seq<FieldSelection>, logical: LogicalEntity, physical: EntitySchema)
  {
    forall a: MutationAssignment | MappedPath(a.field, fms, projection) ::
      AssignmentAgrees(a, fms, projection, logical, physical)
  }

  // ---------------------------------------------------------------- a check on names

  /** The property holds of all names a query can use, if it holds of these: the mapped names and the entity's own. */
  predicate OnNames(fms: seq<FieldMapping>, logical: LogicalEntity, holds: string -> bool) {
    && (forall i :: 0 <= i < |fms| ==> holds(fms[i].logicalName))
    && (forall k :: 0 <= k < |logical.fields| && Column(fms, logical.fields[k].name).Some? ==>
          holds(logical.fields[k].name))
  }

  predicate SameCategory(fms: seq<FieldMapping>, logical: LogicalEntity, physical: EntitySchema, r: string) {
    LogicalCategory(logical, r) == StoredCategory(fms, physical, r)
  }

  /** The entity and the table agree on the category of every name. */
  predicate CategoriesAgree(fms: seq<FieldMapping>, logical: LogicalEntity, physical: EntitySchema) {
    OnNames(fms, logical, r => SameCategory(fms, logical, physical, r))
  }

  predicate SameNullability(fms: seq<FieldMapping>, logical: LogicalEntity, physical: EntitySchema, r: string) {
    var f, c := FieldByName(logical.fields, r), StoredField(fms, physical, r);
    f.Some? && c.Some? ==> f.value.nullable == c.value.nullable
  }

  /** They agree on which names may be NULL. */
  predicate NullabilitiesAgree(fms: seq<FieldMapping>, logical: LogicalEntity, physical: EntitySchema) {
    OnNames(fms, logical, r => SameNullability(fms, logical, physical, r))
  }

  lemma {:induction false} LowerNonempty(s: string, t: string)
    requires Lower(s) == Lower(t)
    ensures s == "" <==> t == ""
  {
    assert |Lower(s)| == |s| && |Lower(t)| == |t|;
  }

  /** Every spelling of a mapped name is looked up like one of the listed names. */
  lemma ListedSpelling(fms: seq<FieldMapping>, logical: LogicalEntity, r: string, holds: string -> bool)
    returns (t: string)
    requires Column(fms, r).Some? && OnNames(fms, logical, holds)
    ensures holds(t) && Lower(t) == Lower(r)
    ensures FieldByName(logical.fields, t) == FieldByName(logical.fields, r) && Column(fms, t) == Column(fms, r)
  {
    hide Lower, Singular;
    var exact := (f: LogicalField) => f.name == r;
    var folded := (f: LogicalField) => Lower(f.name) == Lower(r);
    if First(logical.fields, exact).Some? {
      var k := FirstIsAt(logical.fields, exact);
      t := r;
      assert logical.fields[k].name == r;
    } else if First(logical.fields, folded).Some? {
      var k := FirstIsAt(logical.fields, folded);
      t := logical.fields[k].name;
      ColumnCase(fms, t, r);
      LowerNonempty(t, r);
      FirstOfStrongerTest(logical.fields, folded, (f: LogicalField) => f.name == t);
    } else {
      var i := ColumnName(fms, r);
      t := fms[i].logicalName;
      ColumnCase(fms, t, r);
      LowerNonempty(t, r);
      SameSingular(logical.fields, t, r);
    }
  }

  lemma SameSingular(fields: seq<LogicalField>, t: string, r: string)
    requires Lower(t) == Lower(r) && (t == "" <==> r == "")
    requires First(fields, (f: LogicalField) => Lower(f.name) == Lower(r)).None?
    ensures FieldByName(fields, t) == FieldByName(fields, r)
  {
    hide Lower, Singular;
    FirstOfEqualTests(fields, (f: LogicalField) => Lower(f.name) == Lower(t),
                      (f: LogicalField) => Lower(f.name) == Lower(r));
    FirstOfEqualTests(fields, (f: LogicalField) => Singular(Lower(f.name)) == Singular(Lower(t)),
                      (f: LogicalField) => Singular(Lower(f.name)) == Singular(Lower(r)));
  }

  lemma CategoryEverywhere(fms: seq<FieldMapping>, logical: LogicalEntity, physical: EntitySchema, r: string)
    requires CategoriesAgree(fms, logical, physical) && Column(fms, r).Some?
    ensures SameCategory(fms, logical, physical, r)
  {
    hide Lower, Column, FieldByName;
    var t := ListedSpelling(fms, logical, r, r => SameCategory(fms, logical, physical, r));
  }

  lemma NullabilityEverywhere(fms: seq<FieldMapping>, logical: LogicalEntity, physical: EntitySchema, r: string)
    requires NullabilitiesAgree(fms, logical, physical) && Column(fms, r).Some?
    ensures SameNullability(fms, logical, physical, r)
  {
    hide Lower, Column, FieldByName;
    var t := ListedSpelling(fms, logical, r, r => SameNullability(fms, logical, physical, r));
  }

  // ---------------------------------------------------------------- preservation of typing

  lemma PathResolved(fms: seq<FieldMapping>, projection: seq<FieldSelection>, p: FieldPath)
    requires MappedPath(p, fms, projection)
    ensures ResolvePath(MapNames(fms, projection), p) == FieldPath(Column(fms, p.root).value, [])
  {
    DictionaryIsLastWord(fms, projection, Lower(p.root));
    assert Refers(fms, projection, p.root) == Some(FieldPath(Column(fms, p.root).value, []));
  }

  /** A leaf on a mapped field binds exactly if its column is there and of an accepting category. */
  lemma LeafBinds(
    fms: seq<FieldMapping>, projection: seq<FieldSelection>, physical: EntitySchema, p: FieldPath, op: Operator,
    operand: Operand)
    requires MappedPath(p, fms, projection)
    ensures var resolved := ResolveExpression(MapNames(fms, projection), FieldExpression(p, op, operand));
            BindExpression(resolved, physical).Ok? <==>
              StoredCategory(fms, physical, p.root).Some?
              && Accepts(StoredCategory(fms, physical, p.root).value, false, op, operand)
  {
    PathResolved(fms, projection, p);
  }

  lemma AssignmentBinds(
    fms: seq<FieldMapping>, projection: seq<FieldSelection>, physical: EntitySchema, a: MutationAssignment)
    requires MappedPath(a.field, fms, projection)
    ensures BindAssignment(ResolveAssignment(MapNames(fms, projection), a), physical).Ok? <==>
              StoredField(fms, physical, a.field.root).Some?
              && var c := StoredField(fms, physical, a.field.root).value;
                 AcceptsAssignment(CategoryOf(c.dataType), c.nullable, a.value)
  {
    PathResolved(fms, projection, a.field);
  }

  lemma {:induction false} ExpressionTypingAgrees(
    e: Expression, fms: seq<FieldMapping>, projection: seq<FieldSelection>, logical: LogicalEntity,
    physical: EntitySchema)
    requires CategoriesAgree(fms, logical, physical) && OnMappedFields(e, fms, projection)
    ensures TypingAgrees(e, fms, projection, logical, physical)
  {
    hide CategoriesAgree, Accepts, LogicalCategory, StoredCategory, Column, Kept;
    match e
    case FieldExpression(p, op, operand) =>
      CategoryEverywhere(fms, logical, physical, p.root);
      LeafBinds(fms, projection, physical, p, op, operand);
    case LogicalExpression(_, l, r) =>
      ExpressionTypingAgrees(l, fms, projection, logical, physical);
      ExpressionTypingAgrees(r, fms, projection, logical, physical);
    case NegationExpression(inner) =>
      ExpressionTypingAgrees(inner, fms, projection, logical, physical);
  }

  lemma FieldKept(fms: seq<FieldMapping>, projection: seq<FieldSelection>, r: string)
    requires FieldsKept(fms, projection) && Column(fms, r).Some?
    ensures Kept(fms, projection, r)
  {
    hide Column;
    var i := ColumnName(fms, r);
    RefersCase(fms, projection, r, fms[i].logicalName);
    assert Kept(fms, projection, fms[i].logicalName);
  }

  /** A literal that fits the category and no other one. */
  function Sample(c: Category): Literal {
    match c
    case Numeric => IntegerLiteral(0)
    case Textual => StringLiteral("")
    case Logical => BooleanLiteral(true)
    case Chronological => TemporalLiteral(Today)
    case Unknown => NullLiteral
  }

  /** Different categories are told apart by a test that one accepts and the other does not. */
  lemma CategoriesTold(c: Option<Category>, d: Option<Category>) returns (lit: Literal)
    requires c != d
    ensures (c.Some? && Accepts(c.value, false, Compare(EQ), Scalar(lit)))
            != (d.Some? && Accepts(d.value, false, Compare(EQ), Scalar(lit)))
  {
    lit := if c.None? || d.None? then NullLiteral else if c.value != Unknown then Sample(c.value) else Sample(d.value);
  }

  lemma DifferenceSeen(
    fms: seq<FieldMapping>, projection: seq<FieldSelection>, logical: LogicalEntity, physical: EntitySchema, r: string)
    requires FieldsKept(fms, projection) && Column(fms, r).Some? && !SameCategory(fms, logical, physical, r)
    ensures !TypingPreserved(fms, projection, logical, physical)
  {
    hide Accepts, LogicalCategory, StoredCategory, Column, Kept, FieldsKept;
    var lit := CategoriesTold(LogicalCategory(logical, r), StoredCategory(fms, physical, r));
    var p := FieldPath(r, []);
    var e := FieldExpression(p, Compare(EQ), Scalar(lit));
    FieldKept(fms, projection, r);
    LeafBinds(fms, projection, physical, p, Compare(EQ), Scalar(lit));
    assert OnMappedFields(e, fms, projection) && !TypingAgrees(e, fms, projection, logical, physical);
  }

  /**
   Without captured field names, type checking before and after resolution agree on every WHERE tree over mapped
   fields exactly when the logical entity and the table agree on the category of every name.
   */
  lemma TypingPreservedExactly(
    fms: seq<FieldMapping>, projection: seq<FieldSelection>, logical: LogicalEntity, physical: EntitySchema)
    requires FieldsKept(fms, projection)
    ensures TypingPreserved(fms, projection, logical, physical) <==> CategoriesAgree(fms, logical, physical)
  {
    hide SameCategory, FieldsKept, TypingAgrees, OnMappedFields;
    if CategoriesAgree(fms, logical, physical) {
      forall e | OnMappedFields(e, fms, projection) ensures TypingAgrees(e, fms, projection, logical, physical) {
        ExpressionTypingAgrees(e, fms, projection, logical, physical);
      }
    } else if i :| 0 <= i < |fms| && !SameCategory(fms, logical, physical, fms[i].logicalName) {
      NamedColumn(fms, i);
      DifferenceSeen(fms, projection, logical, physical, fms[i].logicalName);
    } else {
      var k :| 0 <= k < |logical.fields| && Column(fms, logical.fields[k].name).Some?
               && !SameCategory(fms, logical, physical, logical.fields[k].name);
      DifferenceSeen(fms, projection, logical, physical, logical.fields[k].name);
    }
  }

  /** The value fits the logical field, and the column takes it as far as NULL is concerned. */
  predicate Storable(a: MutationAssignment, fms: seq<FieldMapping>, logical: LogicalEntity, physical: EntitySchema) {
    var c := StoredField(fms, physical, a.field.root);
    c.Some? && LogicalCategory(logical, a.field.root).Some?
    && AcceptsAssignment(LogicalCategory(logical, a.field.root).value, c.value.nullable, a.value)
  }

  lemma StorableExactly(
    a: MutationAssignment, fms: seq<FieldMapping>, projection: seq<FieldSelection>, logical: LogicalEntity,
    physical: EntitySchema)
    requires SameCategory(fms, logical, physical, a.field.root) && MappedPath(a.field, fms, projection)
    ensures BindAssignment(ResolveAssignment(MapNames(fms, projection), a), physical).Ok? <==>
              Storable(a, fms, logical, physical)
    ensures AssignmentAgrees(a, fms, projection, logical, physical) <==>
              a.value != NullLiteral || SameNullability(fms, logical, physical, a.field.root)
  {
    hide FieldByName, Column, Kept, CategoryOf;
    AssignmentBinds(fms, projection, physical, a);
  }

  lemma NullabilitySeen(
    fms: seq<FieldMapping>, projection: seq<FieldSelection>, logical: LogicalEntity, physical: EntitySchema, r: string)
    requires SameCategory(fms, logical, physical, r) && FieldsKept(fms, projection)
    requires Column(fms, r).Some? && !SameNullability(fms, logical, physical, r)
    ensures !AssignmentsPreserved(fms, projection, logical, physical)
  {
    hide SameCategory, Column, Kept, FieldsKept, AssignmentAgrees, SameNullability;
    var a := MutationAssignment(FieldPath(r, []), NullLiteral);
    FieldKept(fms, projection, r);
    StorableExactly(a, fms, projection, logical, physical);
    assert MappedPath(a.field, fms, projection) && !AssignmentAgrees(a, fms, projection, logical, physical);
  }

  /** Assignments are preserved as well exactly if the entity and the table agree on what may be NULL. */
  lemma AssignmentsPreservedExactly(
    fms: seq<FieldMapping>, projection: seq<FieldSelection>, logical: LogicalEntity, physical: EntitySchema)
    requires CategoriesAgree(fms, logical, physical) && FieldsKept(fms, projection)
    ensures AssignmentsPreserved(fms, projection, logical, physical) <==> NullabilitiesAgree(fms, logical, physical)
  {
    hide CategoriesAgree, SameCategory, SameNullability, FieldsKept, AssignmentAgrees;
    if NullabilitiesAgree(fms, logical, physical) {
      forall a: MutationAssignment | MappedPath(a.field, fms, projection)
        ensures AssignmentAgrees(a, fms, projection, logical, physical)
      {
        CategoryEverywhere(fms, logical, physical, a.field.root);
        NullabilityEverywhere(fms, logical, physical, a.field.root);
        StorableExactly(a, fms, projection, logical, physical);
      }
    } else if i :| 0 <= i < |fms| && !SameNullability(fms, logical, physical, fms[i].logicalName) {
      NamedColumn(fms, i);
      CategoryEverywhere(fms, logical, physical, fms[i].logicalName);
      NullabilitySeen(fms, projection, logical, physical, fms[i].logicalName);
    } else {
      var k :| 0 <= k < |logical.fields| && Column(fms, logical.fields[k].name).Some?
               && !SameNullability(fms, logical, physical, logical.fields[k].name);
      CategoryEverywhere(fms, logical, physical, logical.fields[k].name);
      NullabilitySeen(fms, projection, logical, physical, logical.fields[k].name);
    }
  }
}
