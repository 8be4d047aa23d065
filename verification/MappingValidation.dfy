/** What validating a mapping checks: the lookups of the logical model, the columns, and the table it looks at. */
module MappingValidation {
  import opened Text
  import opened Schema
  import opened LogicalResolver

  datatype LogicalField = LogicalField(id: string, name: string, dataType: DataType, nullable: bool)

  datatype LogicalEntity = LogicalEntity(id: string, name: string, fields: seq<LogicalField>)

  // ---------------------------------------------------------------- lookups of the logical model

  function FieldById(fields: seq<LogicalField>, id: string): Option<LogicalField> {
    First(fields, (f: LogicalField) => f.id == id)
  }

  /** By exact name, then ignoring case, then ignoring a plural 's'. */
  function FieldByName(fields: seq<LogicalField>, name: string): Option<LogicalField> {
    if name == "" then None
    else
      var exact := First(fields, (f: LogicalField) => f.name == name);
      if exact.Some? then exact
      else
        var folded := First(fields, (f: LogicalField) => Lower(f.name) == Lower(name));
        if folded.Some? then folded
        else First(fields, (f: LogicalField) => Singular(Lower(f.name)) == Singular(Lower(name)))
  }

  /** The names agree up to case and letters 's' at the end. */
  predicate SamePlural(s: string, t: string) { Singular(Lower(s)) == Singular(Lower(t)) }

  /** By exact name before any case, by any case before any number; the first of its kind each time. */
  lemma FieldLookup(fields: seq<LogicalField>, name: string, i: nat)
    requires i < |fields| && name != ""
    ensures fields[i].name == name && (forall k :: 0 <= k < i ==> fields[k].name != name) ==>
              FieldByName(fields, name) == Some(fields[i])
    ensures && (forall k :: 0 <= k < |fields| ==> fields[k].name != name)
            && SameLetters(fields[i].name, name)
            && (forall k :: 0 <= k < i ==> !SameLetters(fields[k].name, name)) ==>
              FieldByName(fields, name) == Some(fields[i])
    ensures && (forall k :: 0 <= k < |fields| ==> !SameLetters(fields[k].name, name))
            && SamePlural(fields[i].name, name) && (forall k :: 0 <= k < i ==> !SamePlural(fields[k].name, name)) ==>
              FieldByName(fields, name) == Some(fields[i])
    ensures FieldByName(fields, "") == None
  {
    hide Lower, Singular, SameLetters;
    forall k | 0 <= k < |fields|
      ensures SameLetters(fields[k].name, name) <==> Lower(fields[k].name) == Lower(name)
      ensures SameLetters(fields[k].name, name) || fields[k].name != name
    {
      LowerEqualExactly(fields[k].name, name);
    }
    var exact := (f: LogicalField) => f.name == name;
    var folded := (f: LogicalField) => Lower(f.name) == Lower(name);
    var singular := (f: LogicalField) => Singular(Lower(f.name)) == Singular(Lower(name));
    if exact(fields[i]) && forall k :: 0 <= k < i ==> !exact(fields[k]) { FirstAt(fields, exact, i); }
    if folded(fields[i]) && forall k :: 0 <= k < i ==> !folded(fields[k]) { FirstAt(fields, folded, i); }
    if singular(fields[i]) && forall k :: 0 <= k < i ==> !singular(fields[k]) { FirstAt(fields, singular, i); }
  }

  /** The logical field a field mapping is about: by id, or else by name. */
  function MappedField(entity: LogicalEntity, fm: FieldMapping): Option<LogicalField> {
    if FieldById(entity.fields, fm.logicalId).Some? then FieldById(entity.fields, fm.logicalId)
    else FieldByName(entity.fields, fm.logicalName)
  }

  /** The first field with the mapped id, whatever its name; a name counts only for an unknown id. */
  lemma IdBeforeName(entity: LogicalEntity, fm: FieldMapping, i: nat)
    requires i < |entity.fields|
    ensures entity.fields[i].id == fm.logicalId && (forall k :: 0 <= k < i ==> entity.fields[k].id != fm.logicalId) ==>
              MappedField(entity, fm) == Some(entity.fields[i])
    ensures (forall k :: 0 <= k < |entity.fields| ==> entity.fields[k].id != fm.logicalId) ==>
              MappedField(entity, fm) == FieldByName(entity.fields, fm.logicalName)
  {
    var byId := (f: LogicalField) => f.id == fm.logicalId;
    if byId(entity.fields[i]) && forall k :: 0 <= k < i ==> !byId(entity.fields[k]) {
      FirstAt(entity.fields, byId, i);
    }
  }

  // ---------------------------------------------------------------- validation

  /** A column by exact name, or else the first that differs only in case. */
  function FindColumn(fields: seq<FieldSchema>, name: string): Option<FieldSchema> {
    if FindField(fields, name).Some? then FindField(fields, name) else FindFolded(fields, name)
  }

  function FindFolded(fields: seq<FieldSchema>, name: string): Option<FieldSchema> {
    First(fields, (f: FieldSchema) => Lower(f.name) == Lower(name))
  }

  /** The check validation makes of one field mapping. */
  predicate ValidField(fm: FieldMapping, logical: LogicalEntity, physical: EntitySchema) {
    && MappedField(logical, fm).Some?
    && FindColumn(physical.fields, fm.physicalName).Some?
    && Compatible(MappedField(logical, fm).value.dataType, FindColumn(physical.fields, fm.physicalName).value.dataType)
  }

  predicate ValidFields(fms: seq<FieldMapping>, logical: LogicalEntity, physical: EntitySchema) {
    fms != [] && forall i :: 0 <= i < |fms| ==> ValidField(fms[i], logical, physical)
  }

  // The table validation looks at: by name ignoring case, first in the mapped namespace, then anywhere.

  predicate InNamespace(e: EntitySchema, em: EntityMapping) {
    || em.physicalNamespace == ""
    || Lower(e.namespace) == Lower(em.physicalNamespace)
    || em.physicalNamespace == "public" || em.physicalNamespace == "main" || em.physicalNamespace == "default"
  }

  function ValidatedEntity(em: EntityMapping, entities: seq<EntitySchema>): Option<EntitySchema> {
    var here := First(entities, (e: EntitySchema) => Lower(e.name) == Lower(em.physicalName) && InNamespace(e, em));
    if here.Some? then here
    else First(entities, (e: EntitySchema) => Lower(e.name) == Lower(em.physicalName))
  }

  /**
   A mapping without namespace, or on public, main or default, takes the first table of its name in any case; another
   takes the first such table of its namespace in any case, or if there is none, the first in any namespace.
   */
  lemma TableLookup(em: EntityMapping, entities: seq<EntitySchema>)
    ensures var named := (e: EntitySchema) => SameLetters(e.name, em.physicalName);
            var here := (e: EntitySchema) =>
              SameLetters(e.name, em.physicalName) && SameLetters(e.namespace, em.physicalNamespace);
            ValidatedEntity(em, entities) ==
              if em.physicalNamespace in {"", "public", "main", "default"} || First(entities, here).None?
              then First(entities, named) else First(entities, here)
  {
    var named := (e: EntitySchema) => SameLetters(e.name, em.physicalName);
    var here := (e: EntitySchema) =>
      SameLetters(e.name, em.physicalName) && SameLetters(e.namespace, em.physicalNamespace);
    var anywhere := (e: EntitySchema) => Lower(e.name) == Lower(em.physicalName);
    var within := (e: EntitySchema) => Lower(e.name) == Lower(em.physicalName) && InNamespace(e, em);
    hide Lower, SameLetters;
    forall e: EntitySchema
      ensures named(e) == anywhere(e)
      ensures within(e) == if em.physicalNamespace in {"", "public", "main", "default"} then named(e) else here(e)
    {
      LowerEqualExactly(e.name, em.physicalName);
      LowerEqualExactly(e.namespace, em.physicalNamespace);
    }
    FirstOfEqualTests(entities, named, anywhere);
    if em.physicalNamespace in {"", "public", "main", "default"} {
      FirstOfEqualTests(entities, within, named);
    } else {
      FirstOfEqualTests(entities, within, here);
    }
  }

  /** A column of exactly this name before one that differs in case; the first of its kind each time. */
  lemma ColumnLookup(fields: seq<FieldSchema>, name: string, i: nat)
    requires i < |fields|
    ensures fields[i].name == name && (forall k :: 0 <= k < i ==> fields[k].name != name) ==>
              FindColumn(fields, name) == Some(fields[i])
    ensures && (forall k :: 0 <= k < |fields| ==> fields[k].name != name)
            && SameLetters(fields[i].name, name)
            && (forall k :: 0 <= k < i ==> !SameLetters(fields[k].name, name)) ==>
              FindColumn(fields, name) == Some(fields[i])
  {
    hide Lower, SameLetters;
    forall k | 0 <= k < |fields| ensures SameLetters(fields[k].name, name) <==> Lower(fields[k].name) == Lower(name) {
      LowerEqualExactly(fields[k].name, name);
    }
    var exact := (f: FieldSchema) => f.name == name;
    var folded := (f: FieldSchema) => Lower(f.name) == Lower(name);
    if exact(fields[i]) && forall k :: 0 <= k < i ==> !exact(fields[k]) { FirstAt(fields, exact, i); }
    if folded(fields[i]) && forall k :: 0 <= k < i ==> !folded(fields[k]) { FirstAt(fields, folded, i); }
  }

  // ---------------------------------------------------------------- which table is validated

  predicate HasName(e: EntitySchema, em: EntityMapping) { Lower(e.name) == Lower(em.physicalName) }

  /** Tables that validation prefers: of the mapped name, in the mapped namespace if there is any such. */
  predicate Preferred(e: EntitySchema, em: EntityMapping, entities: seq<EntitySchema>) {
    HasName(e, em) && ((exists k :: 0 <= k < |entities| && HasName(entities[k], em) && InNamespace(entities[k], em)) ==>
                         InNamespace(e, em))
  }

  /** The first table that is spelled as mapped is preferred, and no preferred table stands before it. */
  predicate TableClear(em: EntityMapping, entities: seq<EntitySchema>) {
    exists i :: 0 <= i < |entities| && entities[i].name == em.physicalName
                && Preferred(entities[i], em, entities)
                && forall k :: 0 <= k < i ==>
                     !Preferred(entities[k], em, entities) && entities[k].name != em.physicalName
  }

  /** Validation looks at the first preferred table. */
  lemma ValidatedIsPreferred(em: EntityMapping, entities: seq<EntitySchema>)
    ensures ValidatedEntity(em, entities) == First(entities, (e: EntitySchema) => Preferred(e, em, entities))
  {
    hide InNamespace;
    var here := (e: EntitySchema) => Lower(e.name) == Lower(em.physicalName) && InNamespace(e, em);
    var anywhere := (e: EntitySchema) => Lower(e.name) == Lower(em.physicalName);
    var preferred := (e: EntitySchema) => Preferred(e, em, entities);
    if First(entities, here).Some? {
      var k := FirstIsAt(entities, here);
      assert HasName(entities[k], em) && InNamespace(entities[k], em);
      FirstOfEqualTests(entities, here, preferred);
    } else {
      FirstOfEqualTests(entities, anywhere, preferred);
    }
  }

  /** Validation and binding look at the same table exactly if the mapped name is clear. */
  lemma SameTableExactly(em: EntityMapping, entities: seq<EntitySchema>)
    requires ValidatedEntity(em, entities).Some?
    ensures ValidatedEntity(em, entities) == ResolveEntity(entities, em.physicalName) <==> TableClear(em, entities)
  {
    hide Preferred;
    var preferred := (e: EntitySchema) => Preferred(e, em, entities);
    var exact := (e: EntitySchema) => e.name == em.physicalName;
    ValidatedIsPreferred(em, entities);
    var i := FirstIsAt(entities, preferred);
    if ValidatedEntity(em, entities) == ResolveEntity(entities, em.physicalName) {
      var m := FirstIsAt(entities, exact);
      assert entities[m] == entities[i];
      assert Preferred(entities[m], em, entities);
      assert m == i;
    }
    if TableClear(em, entities) {
      var j :| 0 <= j < |entities| && entities[j].name == em.physicalName && Preferred(entities[j], em, entities)
               && forall k :: 0 <= k < j ==>
                    !Preferred(entities[k], em, entities) && entities[k].name != em.physicalName;
      FirstAt(entities, preferred, j);
      FirstAt(entities, exact, j);
    }
  }

  /** It can be unclear: binding ignores the namespace that validation honoured. */
  lemma BindingIgnoresNamespace(a: EntitySchema, b: EntitySchema, em: EntityMapping)
    requires a.name == b.name == em.physicalName
    requires b.namespace == em.physicalNamespace && !InNamespace(a, em)
    ensures ValidatedEntity(em, [a, b]) == Some(b) && ResolveEntity([a, b], em.physicalName) == Some(a)
    ensures !TableClear(em, [a, b])
  {
    var entities := [a, b];
    assert entities[0] == a && entities[1] == b;
  }
}
