/**
 Queries through a mapping that passed validation, from the mapping to the bound query: which of them bind, and
 what validation leaves out.
 */
module QueryThroughMapping {
  import opened Text
  import opened Query
  import opened Schema
  import opened TypeValidator
  import opened Binder
  import opened LogicalResolver
  import opened LogicalMeaning
  import opened MappingValidation
  import opened MappingTyping
  import opened MappingLifecycle

  // ---------------------------------------------------------------- what validation guarantees of types

  /** The column that each logical name is stored in is spelled exactly as in the schema. */
  predicate ColumnsExact(fms: seq<FieldMapping>, physical: EntitySchema) {
    forall i :: 0 <= i < |fms| ==> StoredField(fms, physical, fms[i].logicalName).Some?
  }

  /** The category of the field that validation found for the mapped name r, by its id first. */
  function MappedCategory(fms: seq<FieldMapping>, logical: LogicalEntity, r: string): Option<Category> {
    if fms == [] then None
    else if Lower(fms[0].logicalName) == Lower(r) then
      (match MappedField(logical, fms[0])
       case Some(f) => Some(CategoryOf(f.dataType))
       case None => None)
    else MappedCategory(fms[1..], logical, r)
  }

  /** Every name leads the entity to a field of the category that validation checked. */
  predicate NamesInLine(fms: seq<FieldMapping>, logical: LogicalEntity) {
    OnNames(fms, logical, r => LogicalCategory(logical, r) == MappedCategory(fms, logical, r))
  }

  predicate NamesKnown(fms: seq<FieldMapping>, logical: LogicalEntity) {
    OnNames(fms, logical, r => LogicalCategory(logical, r).Some?)
  }

  lemma {:induction false} CategoryChecked(
    fms: seq<FieldMapping>, logical: LogicalEntity, physical: EntitySchema, r: string)
    requires forall i :: 0 <= i < |fms| ==> ValidField(fms[i], logical, physical)
    requires Column(fms, r).Some?
    ensures MappedCategory(fms, logical, r).Some?
    ensures StoredCategory(fms, physical, r).Some? ==>
              StoredCategory(fms, physical, r) == MappedCategory(fms, logical, r)
  {
    if Lower(fms[0].logicalName) == Lower(r) {
      assert ValidField(fms[0], logical, physical);
      CompatibleExactly(MappedField(logical, fms[0]).value.dataType,
                        FindColumn(physical.fields, fms[0].physicalName).value.dataType);
    } else {
      CategoryChecked(fms[1..], logical, physical, r);
    }
  }

  lemma ColumnExact(fms: seq<FieldMapping>, physical: EntitySchema, r: string)
    requires ColumnsExact(fms, physical) && Column(fms, r).Some?
    ensures StoredField(fms, physical, r).Some?
  {
    hide Lower, Column;
    var i := ColumnName(fms, r);
    ColumnCase(fms, fms[i].logicalName, r);
  }

  /**
   For a validated mapping, entity and table agree on the category of every name, all of them known, exactly when
   columns are spelled as in the schema and names are in line with the fields that were validated.
   */
  lemma ValidatedCategoriesExactly(fms: seq<FieldMapping>, logical: LogicalEntity, physical: EntitySchema)
    requires ValidFields(fms, logical, physical)
    ensures CategoriesAgree(fms, logical, physical) && NamesKnown(fms, logical) <==>
              ColumnsExact(fms, physical) && NamesInLine(fms, logical)
  {
    hide LogicalCategory, MappedCategory, StoredCategory, StoredField, ValidField, Column;
    forall r: string | Column(fms, r).Some?
      ensures MappedCategory(fms, logical, r).Some?
      ensures StoredCategory(fms, physical, r).Some? ==>
                StoredCategory(fms, physical, r) == MappedCategory(fms, logical, r)
    {
      CategoryChecked(fms, logical, physical, r);
    }
    forall r: string ensures StoredCategory(fms, physical, r).Some? <==> StoredField(fms, physical, r).Some? {
      StoredIsStored(fms, physical, r);
    }
    forall i | 0 <= i < |fms| ensures Column(fms, fms[i].logicalName).Some? { NamedColumn(fms, i); }
    if ColumnsExact(fms, physical) {
      forall r: string | Column(fms, r).Some? ensures StoredField(fms, physical, r).Some? {
        ColumnExact(fms, physical, r);
      }
    }
  }

  lemma StoredIsStored(fms: seq<FieldMapping>, physical: EntitySchema, r: string)
    ensures StoredCategory(fms, physical, r).Some? <==> StoredField(fms, physical, r).Some?
  {
    hide StoredField;
  }

  /** So typing is preserved through a validated mapping, with every name known, exactly under these two conditions. */
  lemma ValidatedTypingExactly(
    fms: seq<FieldMapping>, projection: seq<FieldSelection>, logical: LogicalEntity, physical: EntitySchema)
    requires ValidFields(fms, logical, physical) && FieldsKept(fms, projection)
    ensures TypingPreserved(fms, projection, logical, physical) && NamesKnown(fms, logical) <==>
              ColumnsExact(fms, physical) && NamesInLine(fms, logical)
  {
    hide TypingPreserved, NamesKnown, ColumnsExact, NamesInLine, CategoriesAgree, FieldsKept, ValidFields;
    TypingPreservedExactly(fms, projection, logical, physical);
    ValidatedCategoriesExactly(fms, logical, physical);
  }

  // ---------------------------------------------------------------- names that were brought in line

  /** Field names are not empty and differ by more than case. */
  predicate DistinctFields(logical: LogicalEntity) {
    && NamedFields(logical)
    && forall i, j :: 0 <= i < j < |logical.fields| ==> Lower(logical.fields[i].name) != Lower(logical.fields[j].name)
  }

  lemma FoundByAnyCase(logical: LogicalEntity, f: LogicalField, r: string)
    requires DistinctFields(logical) && f in logical.fields && Lower(r) == Lower(f.name)
    ensures FieldByName(logical.fields, r) == Some(f)
  {
    hide Lower, Singular;
    LowerNonempty(r, f.name);
    var exact := (g: LogicalField) => g.name == r;
    var folded := (g: LogicalField) => Lower(g.name) == Lower(r);
    var k :| 0 <= k < |logical.fields| && logical.fields[k] == f;
    FirstAt(logical.fields, folded, k);
    if First(logical.fields, exact).Some? {
      var m := FirstIsAt(logical.fields, exact);
      assert m == k;
    }
  }

  lemma {:induction false} MappedCategoryAt(fms: seq<FieldMapping>, logical: LogicalEntity, r: string) returns (i: nat)
    requires Column(fms, r).Some?
    ensures i < |fms| && Lower(fms[i].logicalName) == Lower(r)
    ensures MappedCategory(fms, logical, r) ==
              match MappedField(logical, fms[i]) { case Some(f) => Some(CategoryOf(f.dataType)) case None => None }
  {
    if Lower(fms[0].logicalName) == Lower(r) {
      i := 0;
    } else {
      i := MappedCategoryAt(fms[1..], logical, r);
      i := i + 1;
    }
  }

  lemma FoundFieldIsThere(fm: FieldMapping, logical: LogicalEntity)
    requires MappedField(logical, fm).Some?
    ensures MappedField(logical, fm).value in logical.fields
  {
  }

  /** Mappings whose names are those of the fields they were validated for are in line. */
  lemma NormalNamesInLine(fms: seq<FieldMapping>, logical: LogicalEntity)
    requires DistinctFields(logical) && forall i :: 0 <= i < |fms| ==> MappedField(logical, fms[i]).Some?
    ensures NamesInLine(NormalFields(fms, logical), logical)
  {
    hide Lower, MappedField, FieldByName, Column, MappedCategory, NormalField, DistinctFields;
    var normal := NormalFields(fms, logical);
    forall r: string | Column(normal, r).Some?
      ensures LogicalCategory(logical, r) == MappedCategory(normal, logical, r)
    {
      var i := MappedCategoryAt(normal, logical, r);
      assert NamedFields(logical) by { AreNamed(logical); }
      NormalFieldFound(fms[i], logical);
      NormalFieldNamed(fms[i], logical);
      FoundFieldIsThere(fms[i], logical);
      FoundByAnyCase(logical, MappedField(logical, fms[i]).value, r);
    }
    forall i | 0 <= i < |normal| ensures Column(normal, normal[i].logicalName).Some? { NamedColumn(normal, i); }
  }

  lemma AreNamed(logical: LogicalEntity)
    requires DistinctFields(logical)
    ensures NamedFields(logical)
  {
  }

  lemma NormalFieldNamed(fm: FieldMapping, logical: LogicalEntity)
    requires MappedField(logical, fm).Some?
    ensures NormalField(fm, logical).logicalName == MappedField(logical, fm).value.name
  {
  }

  // ---------------------------------------------------------------- whole queries

  /** The assignments that the operation writes. */
  function Written(ir: AltrQueryIR): seq<CreateRecord> {
    if ir.operation == CREATE then RecordsToBind(ir)
    else if ir.operation == UPDATE then [CreateRecord(ir.assignments)]
    else []
  }

  /** A query on mapped fields only, none of whose names is captured. */
  predicate MappedQuery(ir: AltrQueryIR, fms: seq<FieldMapping>) {
    && (forall i :: 0 <= i < |ir.projection| ==> MappedPath(ir.projection[i].path, fms, ir.projection))
    && (ir.where.Some? ==> OnMappedFields(ir.where.value, fms, ir.projection))
    && (forall i :: 0 <= i < |ir.sort| ==> MappedPath(ir.sort[i].field, fms, ir.projection))
    && (ir.ranking.Some? ==> MappedPath(ir.ranking.value.field, fms, ir.projection))
    && forall k, i :: 0 <= k < |Written(ir)| && 0 <= i < |Written(ir)[k].assignments| ==>
         MappedPath(Written(ir)[k].assignments[i].field, fms, ir.projection)
  }

  predicate AllWritten(ir: AltrQueryIR, accepts: MutationAssignment -> bool) {
    forall k, i :: 0 <= k < |Written(ir)| && 0 <= i < |Written(ir)[k].assignments| ==>
      accepts(Written(ir)[k].assignments[i])
  }

  lemma FieldBinds(p: FieldPath, fms: seq<FieldMapping>, projection: seq<FieldSelection>, physical: EntitySchema)
    requires MappedPath(p, fms, projection) && StoredField(fms, physical, p.root).Some?
    ensures BindField(ResolvePath(MapNames(fms, projection), p), physical).Ok?
  {
    PathResolved(fms, projection, p);
  }

  /** One list of assignments binds, after resolution, exactly if all of them are accepted. */
  lemma AssignmentsBind(
    assignments: seq<MutationAssignment>, m: FieldMap, physical: EntitySchema, accepts: MutationAssignment -> bool)
    requires forall i :: 0 <= i < |assignments| ==>
               (BindAssignment(ResolveAssignment(m, assignments[i]), physical).Ok? <==> accepts(assignments[i]))
    ensures Traverse(AssignmentBinder(physical), Mapped(a => ResolveAssignment(m, a), assignments)).Ok? <==>
              forall i :: 0 <= i < |assignments| ==> accepts(assignments[i])
  {
    hide BindAssignment;
    TraverseElements(AssignmentBinder(physical), Mapped(a => ResolveAssignment(m, a), assignments));
  }

  /** The assignment binds after resolution. */
  predicate AssignmentOk(ir: AltrQueryIR, em: EntityMapping, physical: EntitySchema, a: MutationAssignment) {
    BindAssignment(ResolveAssignment(MapNames(em.fields, ir.projection), a), physical).Ok?
  }

  lemma UpdateBinds(ir: AltrQueryIR, em: EntityMapping, physical: EntitySchema, accepts: MutationAssignment -> bool)
    requires ir.operation == UPDATE
    requires forall k, i :: 0 <= k < |Written(ir)| && 0 <= i < |Written(ir)[k].assignments| ==>
               var a := Written(ir)[k].assignments[i]; AssignmentOk(ir, em, physical, a) <==> accepts(a)
    ensures Traverse(AssignmentBinder(physical), Resolved(ir, em).assignments).Ok? <==> AllWritten(ir, accepts)
  {
    hide BindAssignment;
    assert Written(ir)[0].assignments == ir.assignments;
    AssignmentsBind(ir.assignments, MapNames(em.fields, ir.projection), physical, accepts);
  }

  lemma CreateBinds(ir: AltrQueryIR, em: EntityMapping, physical: EntitySchema, accepts: MutationAssignment -> bool)
    requires ir.operation == CREATE
    requires forall k, i :: 0 <= k < |Written(ir)| && 0 <= i < |Written(ir)[k].assignments| ==>
               var a := Written(ir)[k].assignments[i]; AssignmentOk(ir, em, physical, a) <==> accepts(a)
    ensures Traverse(RecordBinder(physical), RecordsToBind(Resolved(ir, em))).Ok? <==> AllWritten(ir, accepts)
  {
    hide BindAssignment;
    var m, out := MapNames(em.fields, ir.projection), Resolved(ir, em);
    var records, resolved := Written(ir), RecordsToBind(out);
    assert |resolved| == |records|;
    forall k | 0 <= k < |records|
      ensures RecordBinder(physical)(resolved[k]).Ok? <==>
                forall i :: 0 <= i < |records[k].assignments| ==> accepts(records[k].assignments[i])
    {
      assert resolved[k] == CreateRecord(Mapped(a => ResolveAssignment(m, a), records[k].assignments));
      AssignmentsBind(records[k].assignments, m, physical, accepts);
    }
    TraverseElements(RecordBinder(physical), resolved);
  }

  /** The written part of a query binds exactly if all its assignments are storable. */
  lemma WrittenBinds(ir: AltrQueryIR, em: EntityMapping, logical: LogicalEntity, physical: EntitySchema)
    requires CategoriesAgree(em.fields, logical, physical) && MappedQuery(ir, em.fields)
    ensures var out := Resolved(ir, em);
            (ir.operation == CREATE ==> Traverse(RecordBinder(physical), RecordsToBind(out)).Ok?)
            && (ir.operation == UPDATE ==> Traverse(AssignmentBinder(physical), out.assignments).Ok?)
            <==> AllWritten(ir, a => Storable(a, em.fields, logical, physical))
  {
    hide BindAssignment, CategoriesAgree, Kept, Column, Storable, OnMappedFields, ResolveAssignment, Written, Resolved;
    hide AllWritten, SameCategory;
    var accepts := a => Storable(a, em.fields, logical, physical);
    forall k, i | 0 <= k < |Written(ir)| && 0 <= i < |Written(ir)[k].assignments|
      ensures AssignmentOk(ir, em, physical, Written(ir)[k].assignments[i]) <==> accepts(Written(ir)[k].assignments[i])
    {
      CategoryEverywhere(em.fields, logical, physical, Written(ir)[k].assignments[i].field.root);
      StorableExactly(Written(ir)[k].assignments[i], em.fields, ir.projection, logical, physical);
    }
    if ir.operation == CREATE {
      CreateBinds(ir, em, physical, accepts);
    } else if ir.operation == UPDATE {
      UpdateBinds(ir, em, physical, accepts);
    } else {
      NothingWritten(ir, accepts);
    }
  }

  lemma NothingWritten(ir: AltrQueryIR, accepts: MutationAssignment -> bool)
    requires ir.operation != CREATE && ir.operation != UPDATE
    ensures AllWritten(ir, accepts)
  {
  }

  /** Projection, sorting and ranking of a query on mapped fields always bind. */
  lemma PathsBind(ir: AltrQueryIR, em: EntityMapping, physical: EntitySchema)
    requires ColumnsExact(em.fields, physical) && MappedQuery(ir, em.fields)
    ensures var out := Resolved(ir, em);
            && Traverse(SelectionBinder(physical), out.projection).Ok?
            && Traverse(SortBinder(physical), out.sort).Ok?
            && (out.ranking.Some? ==> BindField(out.ranking.value.field, physical).Ok?)
  {
    hide ColumnsExact, OnMappedFields, Written, BindField, ResolvePath, StoredField;
    var fms, out := em.fields, Resolved(ir, em);
    forall p | MappedPath(p, fms, ir.projection)
      ensures BindField(ResolvePath(MapNames(fms, ir.projection), p), physical).Ok?
    {
      ColumnExact(fms, physical, p.root);
      FieldBinds(p, fms, ir.projection, physical);
    }
    TraverseElements(SelectionBinder(physical), out.projection);
    TraverseElements(SortBinder(physical), out.sort);
  }

  lemma MappedQueryBinds(ir: AltrQueryIR, em: EntityMapping, logical: LogicalEntity, physical: EntitySchema)
    requires ColumnsExact(em.fields, physical) && CategoriesAgree(em.fields, logical, physical)
    requires MappedQuery(ir, em.fields)
    ensures Bindable(Resolved(ir, em), physical) <==>
              (ir.where.Some? ==> TypeChecks(ir.where.value, logical))
              && AllWritten(ir, a => Storable(a, em.fields, logical, physical))
  {
    hide ColumnsExact, CategoriesAgree, AllWritten, BindField, Traverse, ResolveExpression, OnMappedFields, MappedPath;
    PathsBind(ir, em, physical);
    WrittenBinds(ir, em, logical, physical);
    if ir.where.Some? {
      ExpressionTypingAgrees(ir.where.value, em.fields, ir.projection, logical, physical);
      assert TypingAgrees(ir.where.value, em.fields, ir.projection, logical, physical);
    }
  }

  /** The query type checks against the logical entity alone. */
  predicate LogicallyAccepted(ir: AltrQueryIR, logical: LogicalEntity) {
    (ir.where.Some? ==> TypeChecks(ir.where.value, logical)) && AllWritten(ir, a => LogicalAccepts(a, logical))
  }

  /**
   From a mapping that passes validation to the bound query, for all four operations: if the table is clear, columns
   are exact and names in line, a query on mapped fields binds exactly when its WHERE clause type checks logically and
   every value it writes fits its logical field and is not a NULL that the column refuses.
   */
  lemma ValidatedQueryBindsExactly(ir: AltrQueryIR, em: EntityMapping, model: LogicalModel, schema: SourceSchema)
    requires PassesEntity(em, model, schema) && TableClear(em, schema.entities)
    requires var physical := ValidatedEntity(em, schema.entities).value;
             ColumnsExact(em.fields, physical) && NamesInLine(em.fields, MappedEntity(model, em).value)
    requires MappedQuery(ir, em.fields)
    ensures var logical, physical := MappedEntity(model, em).value, ValidatedEntity(em, schema.entities).value;
            && (Binds(Resolved(ir, em), schema) <==>
                  (ir.where.Some? ==> TypeChecks(ir.where.value, logical))
                  && AllWritten(ir, a => Storable(a, em.fields, logical, physical)))
            && (NullabilitiesAgree(em.fields, logical, physical) ==>
                  (Binds(Resolved(ir, em), schema) <==> LogicallyAccepted(ir, logical)))
  {
    hide ColumnsExact, NamesInLine, CategoriesAgree, Bindable, AllWritten, TableClear, ValidFields, MappedEntity;
    hide ValidatedEntity, MappedQuery, NullabilitiesAgree;
    var logical, physical := MappedEntity(model, em).value, ValidatedEntity(em, schema.entities).value;
    ValidatedCategoriesExactly(em.fields, logical, physical);
    SameTableExactly(em, schema.entities);
    MappedQueryBinds(ir, em, logical, physical);
    if NullabilitiesAgree(em.fields, logical, physical) { StorableIsAccepted(ir, em, logical, physical); }
  }

  lemma StorableIsAccepted(ir: AltrQueryIR, em: EntityMapping, logical: LogicalEntity, physical: EntitySchema)
    requires CategoriesAgree(em.fields, logical, physical) && NullabilitiesAgree(em.fields, logical, physical)
    requires MappedQuery(ir, em.fields)
    ensures AllWritten(ir, a => Storable(a, em.fields, logical, physical)) <==>
              AllWritten(ir, a => LogicalAccepts(a, logical))
  {
    hide CategoriesAgree, NullabilitiesAgree, Storable, LogicalAccepts, Written, OnMappedFields, Kept;
    forall k, i | 0 <= k < |Written(ir)| && 0 <= i < |Written(ir)[k].assignments|
      ensures var a := Written(ir)[k].assignments[i];
              Storable(a, em.fields, logical, physical) <==> LogicalAccepts(a, logical)
    {
      var a := Written(ir)[k].assignments[i];
      CategoryEverywhere(em.fields, logical, physical, a.field.root);
      NullabilityEverywhere(em.fields, logical, physical, a.field.root);
      StorableExactly(a, em.fields, ir.projection, logical, physical);
    }
  }

  // ---------------------------------------------------------------- what validation leaves out

  /** A mapped field without an exact column: validation may pass it, but no test on it binds, whatever it is. */
  lemma InexactColumnFails(
    fms: seq<FieldMapping>, projection: seq<FieldSelection>, physical: EntitySchema, p: FieldPath, op: Operator,
    operand: Operand)
    requires MappedPath(p, fms, projection) && StoredField(fms, physical, p.root).None?
    ensures BindExpression(ResolveExpression(MapNames(fms, projection), FieldExpression(p, op, operand)), physical).Err?
  {
    LeafBinds(fms, projection, physical, p, op, operand);
  }

  function OneColumn(name: string, t: DataType, nullable: bool): EntitySchema {
    EntitySchema("t", "", [FieldSchema(name, t, "", nullable, false)], [])
  }

  /** A mapping of one field a, known under the id 1, to a column. */
  function OneField(column: string): seq<FieldMapping> { [FieldMapping("1", "a", column)] }

  lemma OneFieldMapped(column: string)
    requires column == "x" || column == "X"
    ensures MappedPath(FieldPath("a", []), OneField(column), []) && Column(OneField(column), "a") == Some(column)
  {
    LowerLetter('a');
    LowerLetter('x');
    var fms := OneField(column);
    assert Column(fms, "a") == Some(column) && LastClaim(fms, "a") == Some(column);
  }

  lemma OneFieldStored(column: string, t: DataType, nullable: bool)
    requires column == "x" || column == "X"
    ensures var physical := OneColumn("x", t, nullable);
            && StoredField(OneField(column), physical, "a")
               == (if column == "x" then Some(physical.fields[0]) else None)
            && FindColumn(physical.fields, column) == Some(physical.fields[0])
            && (ColumnsExact(OneField(column), physical) <==> column == "x")
  {
    OneFieldMapped(column);
    LowerLetter('x');
    assert OneField(column)[0].logicalName == "a";
  }

  /** Validation takes the field with the id 1, and passes a column of the same type. */
  lemma OneFieldPasses(column: string, nullable: bool, logical: LogicalEntity)
    requires column == "x" || column == "X"
    requires logical.fields != [] && logical.fields[0].id == "1"
    ensures MappedField(logical, OneField(column)[0]) == Some(logical.fields[0])
    ensures ValidFields(OneField(column), logical, OneColumn("x", logical.fields[0].dataType, nullable))
    ensures MappedCategory(OneField(column), logical, "a") == Some(CategoryOf(logical.fields[0].dataType))
  {
    hide FieldByName, FindColumn, Lower;
    OneFieldStored(column, logical.fields[0].dataType, nullable);
    assert MappedField(logical, OneField(column)[0]) == Some(logical.fields[0]);
  }

  function EntityOf(fields: seq<LogicalField>): LogicalEntity { LogicalEntity("1", "e", fields) }

  lemma OneNameInLine(column: string, t: DataType)
    requires column == "x" || column == "X"
    ensures NamesInLine(OneField(column), EntityOf([LogicalField("1", "a", t, true)]))
    ensures FieldByName([LogicalField("1", "a", t, true)], "a") == Some(LogicalField("1", "a", t, true))
  {
    hide MappedCategory, MappedField, CategoryOf, Column, FieldByName, ValidFields;
    OneFieldPasses(column, true, EntityOf([LogicalField("1", "a", t, true)]));
    OneNameFound(t);
  }

  lemma OneNameFound(t: DataType)
    ensures FieldByName([LogicalField("1", "a", t, true)], "a") == Some(LogicalField("1", "a", t, true))
  {
    hide Lower, Singular;
  }

  /** Such a mapping: the column x is mapped as X. It passes validation, and no test on the field binds. */
  lemma ColumnOfOtherCase(t: DataType, op: Operator, operand: Operand)
    ensures var logical, physical := EntityOf([LogicalField("1", "a", t, true)]), OneColumn("x", t, true);
            var e := FieldExpression(FieldPath("a", []), op, operand);
            && ValidFields(OneField("X"), logical, physical) && NamesInLine(OneField("X"), logical)
            && !ColumnsExact(OneField("X"), physical)
            && BindExpression(ResolveExpression(MapNames(OneField("X"), []), e), physical).Err?
  {
    hide ValidFields, NamesInLine, ColumnsExact, StoredField, BindExpression, FindColumn, MappedField, MappedPath;
    var physical := OneColumn("x", t, true);
    OneFieldMapped("X");
    OneFieldStored("X", t, true);
    OneFieldPasses("X", true, EntityOf([LogicalField("1", "a", t, true)]));
    OneNameInLine("X", t);
    InexactColumnFails(OneField("X"), [], physical, FieldPath("a", []), op, operand);
  }

  /** The field that the mapping was made for is now called b, and another field is called a. */
  const RENAMED: seq<LogicalField> := [LogicalField("1", "b", STRING, true), LogicalField("2", "a", INTEGER, true)]

  lemma RenamedFound()
    ensures FieldByName(RENAMED, "a") == Some(LogicalField("2", "a", INTEGER, true))
  {
    hide Lower, Singular;
    assert RENAMED[1..][0].name == "a";
  }

  /**
   Names out of line: validation finds the renamed field by its id, so that the mapping passes; a test that fits the
   field that has the name now type checks, and does not bind.
   */
  lemma StaleNameChangesType()
    ensures var logical, physical := EntityOf(RENAMED), OneColumn("x", STRING, true);
            var e := FieldExpression(FieldPath("a", []), Compare(EQ), Scalar(IntegerLiteral(5)));
            && ValidFields(OneField("x"), logical, physical) && ColumnsExact(OneField("x"), physical)
            && !NamesInLine(OneField("x"), logical)
            && TypeChecks(e, logical)
            && BindExpression(ResolveExpression(MapNames(OneField("x"), []), e), physical).Err?
  {
    hide ValidFields, ColumnsExact, StoredField, BindExpression, FindColumn, MappedField, MappedPath, FieldByName;
    hide Column, MappedCategory, ResolveExpression;
    var logical, physical := EntityOf(RENAMED), OneColumn("x", STRING, true);
    OneFieldMapped("x");
    OneFieldStored("x", STRING, true);
    OneFieldPasses("x", true, logical);
    RenamedFound();
    assert OneField("x")[0].logicalName == "a" && LogicalCategory(logical, "a") == Some(Numeric);
    LeafBinds(OneField("x"), [], physical, FieldPath("a", []), Compare(EQ), Scalar(IntegerLiteral(5)));
  }

  /** Validation ignores what may be NULL: a value that the logical field takes can be refused by the column. */
  lemma NullabilityIgnored(t: DataType)
    ensures var logical, physical := EntityOf([LogicalField("1", "a", t, true)]), OneColumn("x", t, false);
            var a := MutationAssignment(FieldPath("a", []), NullLiteral);
            && ValidFields(OneField("x"), logical, physical) && ColumnsExact(OneField("x"), physical)
            && NamesInLine(OneField("x"), logical)
            && LogicalAccepts(a, logical)
            && BindAssignment(ResolveAssignment(MapNames(OneField("x"), []), a), physical).Err?
  {
    hide ValidFields, NamesInLine, ColumnsExact, StoredField, BindAssignment, FindColumn, MappedField, MappedPath;
    hide FieldByName, Column, ResolveAssignment, CategoryOf;
    var logical, physical := EntityOf([LogicalField("1", "a", t, true)]), OneColumn("x", t, false);
    OneFieldMapped("x");
    OneFieldStored("x", t, false);
    OneFieldPasses("x", false, logical);
    OneNameInLine("x", t);
    AssignmentBinds(OneField("x"), [], physical, MutationAssignment(FieldPath("a", []), NullLiteral));
  }

  /** The conditions can be met together: the mapping of one field to the column x, and a query that selects it. */
  lemma OneFieldQueryBinds(t: DataType)
    ensures var em := EntityMapping("1", "e", "t", "", OneField("x"));
            var model := LogicalModel([EntityOf([LogicalField("1", "a", t, true)])]);
            var schema := SourceSchema("s", "s", [OneColumn("x", t, true)]);
            var selection := FieldSelection(FieldPath("a", []), None);
            var ir := AltrQueryIR(READ, "e", [selection], None, [], [], [], None, None, None);
            && PassesEntity(em, model, schema) && TableClear(em, schema.entities) && MappedQuery(ir, em.fields)
            && Binds(Resolved(ir, em), schema)
  {
    hide NamesInLine, ColumnsExact, ValidFields, MappedField, FindColumn, StoredField, Resolved, Bindable, Kept;
    hide TypeChecks, LogicallyAccepted, Storable, NullabilitiesAgree, Written;
    var logical, physical := EntityOf([LogicalField("1", "a", t, true)]), OneColumn("x", t, true);
    var em, model := EntityMapping("1", "e", "t", "", OneField("x")), LogicalModel([logical]);
    var schema := SourceSchema("s", "s", [physical]);
    var selection := FieldSelection(FieldPath("a", []), None);
    var ir := AltrQueryIR(READ, "e", [selection], None, [], [], [], None, None, None);
    OneFieldPasses("x", true, logical);
    OneFieldStored("x", t, true);
    OneNameInLine("x", t);
    OneTableClear(em, physical);
    assert MappedEntity(model, em) == Some(logical);
    assert MappedQuery(ir, em.fields) by { OneFieldSelected(ir); }
    assert Written(ir) == [] by { NothingToWrite(ir); }
    ValidatedQueryBindsExactly(ir, em, model, schema);
  }

  lemma NothingToWrite(ir: AltrQueryIR)
    requires ir.operation == READ
    ensures Written(ir) == []
  {
  }

  lemma OneTableClear(em: EntityMapping, physical: EntitySchema)
    requires physical.name == em.physicalName && em.physicalNamespace == ""
    ensures TableClear(em, [physical]) && ValidatedEntity(em, [physical]) == Some(physical)
  {
    hide Lower;
    assert [physical][0] == physical;
  }

  lemma OneFieldSelected(ir: AltrQueryIR)
    requires ir.operation == READ && ir.projection == [FieldSelection(FieldPath("a", []), None)]
    requires ir.where.None? && ir.sort == [] && ir.ranking.None?
    ensures MappedQuery(ir, OneField("x"))
  {
    OneFieldMapped("x");
    assert ir.projection[..0] == [] && !HasAlias(ir.projection[0]);
  }
}
