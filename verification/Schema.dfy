/** Data types, their logical categories, and the physical schema a query is bound against. */
module Schema {
  import opened Text
  import opened Query

  datatype DataType =
    | STRING | INTEGER | BIGINT | SMALLINT | FLOAT | DECIMAL | BOOLEAN | DATE | TIME | TIMESTAMP | TIMESTAMPTZ
    | JSON | ARRAY | BINARY | UUID | OTHER

  datatype Category = Numeric | Textual | Logical | Chronological | Unknown

  predicate IsInteger(t: DataType) { t.INTEGER? || t.BIGINT? || t.SMALLINT? }

  predicate IsFloat(t: DataType) { t.FLOAT? || t.DECIMAL? }

  predicate IsString(t: DataType) { t.STRING? || t.UUID? }

  predicate IsTemporal(t: DataType) { t.DATE? || t.TIME? || t.TIMESTAMP? || t.TIMESTAMPTZ? }

  function CategoryOf(t: DataType): Category {
    if IsInteger(t) || IsFloat(t) then Numeric
    else if IsString(t) then Textual
    else if t.BOOLEAN? then Logical
    else if IsTemporal(t) then Chronological
    else Unknown
  }

  /** Which types can be compared with which: four categories, and six types that cannot be compared. */
  lemma CategoriesExactly(t: DataType)
    ensures CategoryOf(t) == Numeric <==> t in {INTEGER, BIGINT, SMALLINT, FLOAT, DECIMAL}
    ensures CategoryOf(t) == Textual <==> t in {STRING, UUID}
    ensures CategoryOf(t) == Logical <==> t == BOOLEAN
    ensures CategoryOf(t) == Chronological <==> t in {DATE, TIME, TIMESTAMP, TIMESTAMPTZ}
    ensures IsFloat(t) <==> t in {FLOAT, DECIMAL}
  {
  }

  /** May a logical field of the first type be stored in a column of the second? */
  predicate Compatible(logical: DataType, physical: DataType) {
    if logical == physical then true
    else if IsInteger(logical) then IsInteger(physical)
    else if IsFloat(logical) then IsFloat(physical) || IsInteger(physical)
    else if IsString(logical) then IsString(physical)
    else if logical.BOOLEAN? then physical.BOOLEAN?
    else if IsTemporal(logical) then IsTemporal(physical)
    else if logical.JSON? then physical.JSON?
    else if logical.BINARY? then physical.BINARY?
    else if logical.ARRAY? then physical.ARRAY?
    else false
  }

  /** Compatibility is equality of category, except that integers are not kept in float columns. */
  lemma CompatibleExactly(logical: DataType, physical: DataType)
    ensures Compatible(logical, physical) <==>
              || logical == physical
              || (CategoryOf(logical) == CategoryOf(physical) != Unknown
                  && !(IsInteger(logical) && IsFloat(physical)))
  {
  }

  datatype FieldSchema = FieldSchema(
    name: string, dataType: DataType, nativeType: string, nullable: bool, isPrimaryKey: bool)

  datatype EntitySchema = EntitySchema(
    name: string, namespace: string, fields: seq<FieldSchema>, primaryKey: seq<string>)

  datatype SourceSchema = SourceSchema(sourceId: string, sourceName: string, entities: seq<EntitySchema>)

  /** The first field with exactly this name. */
  function FindField(fields: seq<FieldSchema>, name: string): (r: Option<FieldSchema>)
    ensures r.Some? ==> r.value.name == name && r.value in fields
    ensures r.None? <==> forall i :: 0 <= i < |fields| ==> fields[i].name != name
  {
    First(fields, (f: FieldSchema) => f.name == name)
  }

  function ResolveEntity(entities: seq<EntitySchema>, name: string): (r: Option<EntitySchema>)
    ensures r.Some? ==> r.value.name == name && r.value in entities
    ensures r.None? <==> forall i :: 0 <= i < |entities| ==> entities[i].name != name
  {
    First(entities, (e: EntitySchema) => e.name == name)
  }

  /** A nested path is looked up as a literal column name first, then by its root column. */
  function ResolveField(p: FieldPath, entity: EntitySchema): Option<FieldSchema> {
    if !p.IsNested() then FindField(entity.fields, p.root)
    else if FindField(entity.fields, p.FullPath()).Some? then FindField(entity.fields, p.FullPath())
    else FindField(entity.fields, p.root)
  }

  lemma {:induction false} FullPathJoins(root: string, rest: seq<string>)
    ensures FieldPath(root, rest).FullPath() == Join([root] + rest, '.')
    decreases |rest|
  {
    if rest != [] {
      FullPathJoins(rest[0], rest[1..]);
      assert ([root] + rest)[1..] == [rest[0]] + rest[1..];
      assert root + ("." + rest[0] + Dotted(rest[1..])) == root + ['.'] + (rest[0] + Dotted(rest[1..]));
    } else {
      assert root + "" == root;
    }
  }

  /** A path is the first column named by all its segments joined by dots, or else the first named by its root. */
  lemma ColumnOfPath(p: FieldPath, entity: EntitySchema, i: nat)
    requires i < |entity.fields| && forall k :: 0 <= k < i ==> entity.fields[k].name != entity.fields[i].name
    ensures var joined := Join([p.root] + p.rest, '.');
            && (entity.fields[i].name == joined ==> ResolveField(p, entity) == Some(entity.fields[i]))
            && (entity.fields[i].name == p.root
                && (forall k :: 0 <= k < |entity.fields| ==> entity.fields[k].name != joined) ==>
                  ResolveField(p, entity) == Some(entity.fields[i]))
    ensures ResolveField(p, entity).None? <==>
              forall k :: 0 <= k < |entity.fields| ==> entity.fields[k].name !in {p.root, Join([p.root] + p.rest, '.')}
  {
    hide Join;
    FullPathJoins(p.root, p.rest);
    assert !p.IsNested() ==> p.FullPath() == p.root by { assert p.root + "" == p.root; }
    FirstAt(entity.fields, (f: FieldSchema) => f.name == entity.fields[i].name, i);
    SameFinder(entity.fields, entity.fields[i].name);
  }

  lemma SameFinder(fields: seq<FieldSchema>, name: string)
    ensures FindField(fields, name) == First(fields, (f: FieldSchema) => f.name == name)
  {
  }

  // ---------------------------------------------------------------- well-typed rows

  predicate InCategory(v: Value, c: Category) {
    v.Null? ||
    match c
    case Numeric => v.Number?
    case Textual => v.Text?
    case Logical => v.Truth?
    case Chronological => v.Moment?
    case Unknown => true
  }

  predicate Stores(f: FieldSchema, v: Value) { InCategory(v, CategoryOf(f.dataType)) && (v.Null? ==> f.nullable) }

  /** Every column holds a value of its category, and NULL only where that is allowed. */
  predicate WellTyped(row: Row, entity: EntitySchema) {
    forall i :: 0 <= i < |entity.fields| ==> Stores(entity.fields[i], Get(row, entity.fields[i].name))
  }
}
