/** The lifecycle of source mappings: what may change, and what every sequence of changes keeps. */
module MappingLifecycle {
  import opened Text
  import opened Schema
  import opened LogicalResolver
  import opened MappingValidation

  datatype MappingStatus = DRAFT | ACTIVE | VALIDATED | ERROR

  datatype SourceMapping = SourceMapping(
    modelId: string, sourceId: string, version: string, status: MappingStatus, entities: seq<EntityMapping>)

  type Mappings = map<string, SourceMapping>

  datatype LogicalModel = LogicalModel(entities: seq<LogicalEntity>)

  // ---------------------------------------------------------------- lookups and validation

  function EntityById(model: LogicalModel, id: string): Option<LogicalEntity> {
    First(model.entities, (e: LogicalEntity) => e.id == id)
  }

  function EntityByName(entities: seq<LogicalEntity>, name: string): Option<LogicalEntity> {
    if name == "" then None
    else
      var exact := First(entities, (e: LogicalEntity) => e.name == name);
      if exact.Some? then exact
      else
        var folded := First(entities, (e: LogicalEntity) => Lower(e.name) == Lower(name));
        if folded.Some? then folded
        else First(entities, (e: LogicalEntity) => Singular(Lower(e.name)) == Singular(Lower(name)))
  }

  /** The logical entity that an entity mapping is about: by id, or else by name. */
  function MappedEntity(model: LogicalModel, em: EntityMapping): Option<LogicalEntity> {
    var byId := EntityById(model, em.logicalId);
    if byId.Some? then byId else EntityByName(model.entities, em.logicalName)
  }

  /** By exact name before any case, by any case before any number; the first of its kind each time. */
  lemma EntityLookup(entities: seq<LogicalEntity>, name: string, i: nat)
    requires i < |entities| && name != ""
    ensures entities[i].name == name && (forall k :: 0 <= k < i ==> entities[k].name != name) ==>
              EntityByName(entities, name) == Some(entities[i])
    ensures && (forall k :: 0 <= k < |entities| ==> entities[k].name != name)
            && SameLetters(entities[i].name, name)
            && (forall k :: 0 <= k < i ==> !SameLetters(entities[k].name, name)) ==>
              EntityByName(entities, name) == Some(entities[i])
    ensures && (forall k :: 0 <= k < |entities| ==> !SameLetters(entities[k].name, name))
            && SamePlural(entities[i].name, name)
            && (forall k :: 0 <= k < i ==> !SamePlural(entities[k].name, name)) ==>
              EntityByName(entities, name) == Some(entities[i])
    ensures EntityByName(entities, "") == None
  {
    hide Lower, Singular, SameLetters;
    forall k | 0 <= k < |entities|
      ensures SameLetters(entities[k].name, name) <==> Lower(entities[k].name) == Lower(name)
      ensures SameLetters(entities[k].name, name) || entities[k].name != name
    {
      LowerEqualExactly(entities[k].name, name);
    }
    var exact := (e: LogicalEntity) => e.name == name;
    var folded := (e: LogicalEntity) => Lower(e.name) == Lower(name);
    var singular := (e: LogicalEntity) => Singular(Lower(e.name)) == Singular(Lower(name));
    if exact(entities[i]) && forall k :: 0 <= k < i ==> !exact(entities[k]) { FirstAt(entities, exact, i); }
    if folded(entities[i]) && forall k :: 0 <= k < i ==> !folded(entities[k]) { FirstAt(entities, folded, i); }
    if singular(entities[i]) && forall k :: 0 <= k < i ==> !singular(entities[k]) { FirstAt(entities, singular, i); }
  }

  /** The first entity with the mapped id, whatever its name; a name counts only for an unknown id. */
  lemma EntityIdBeforeName(model: LogicalModel, em: EntityMapping, i: nat)
    requires i < |model.entities|
    ensures && model.entities[i].id == em.logicalId
            && (forall k :: 0 <= k < i ==> model.entities[k].id != em.logicalId) ==>
              MappedEntity(model, em) == Some(model.entities[i])
    ensures (forall k :: 0 <= k < |model.entities| ==> model.entities[k].id != em.logicalId) ==>
              MappedEntity(model, em) == EntityByName(model.entities, em.logicalName)
  {
    var byId := (e: LogicalEntity) => e.id == em.logicalId;
    if byId(model.entities[i]) && forall k :: 0 <= k < i ==> !byId(model.entities[k]) {
      FirstAt(model.entities, byId, i);
    }
  }

  predicate PassesEntity(em: EntityMapping, model: LogicalModel, schema: SourceSchema) {
    && MappedEntity(model, em).Some?
    && ValidatedEntity(em, schema.entities).Some?
    && ValidFields(em.fields, MappedEntity(model, em).value, ValidatedEntity(em, schema.entities).value)
  }

  /** What validation checks. */
  predicate Passes(ems: seq<EntityMapping>, model: LogicalModel, schema: SourceSchema) {
    ems != [] && forall i :: 0 <= i < |ems| ==> PassesEntity(ems[i], model, schema)
  }

  // ---------------------------------------------------------------- names are brought in line

  function NormalField(fm: FieldMapping, entity: LogicalEntity): FieldMapping {
    match MappedField(entity, fm)
    case Some(f) => fm.(logicalName := f.name)
    case None => fm
  }

  function NormalFields(fms: seq<FieldMapping>, entity: LogicalEntity): (r: seq<FieldMapping>)
    ensures |r| == |fms| && forall i :: 0 <= i < |fms| ==> r[i] == NormalField(fms[i], entity)
  {
    if fms == [] then [] else [NormalField(fms[0], entity)] + NormalFields(fms[1..], entity)
  }

  /** Stored names are those of the logical model wherever the lookup finds something. */
  function NormalEntity(em: EntityMapping, model: LogicalModel): EntityMapping {
    match MappedEntity(model, em)
    case Some(e) => em.(logicalName := e.name, fields := NormalFields(em.fields, e))
    case None => em
  }

  function Normalized(ems: seq<EntityMapping>, model: LogicalModel): (r: seq<EntityMapping>)
    ensures |r| == |ems| && forall i :: 0 <= i < |ems| ==> r[i] == NormalEntity(ems[i], model)
  {
    if ems == [] then [] else [NormalEntity(ems[0], model)] + Normalized(ems[1..], model)
  }

  /** Only logical names are brought in line, with the names of the entities and fields that the lookups find. */
  lemma NormalNames(em: EntityMapping, model: LogicalModel)
    ensures var normal := NormalEntity(em, model);
            && normal.(logicalName := em.logicalName, fields := em.fields) == em && |normal.fields| == |em.fields|
            && normal.logicalName ==
                 (if MappedEntity(model, em).Some? then MappedEntity(model, em).value.name else em.logicalName)
            && forall i :: 0 <= i < |em.fields| ==>
                 var fm := em.fields[i];
                 var entity := MappedEntity(model, em);
                 var found := if entity.Some? then MappedField(entity.value, fm) else None;
                 normal.fields[i] == fm.(logicalName := if found.Some? then found.value.name else fm.logicalName)
  {
    hide MappedEntity, MappedField;
  }

  predicate NamedFields(e: LogicalEntity) { forall i :: 0 <= i < |e.fields| ==> e.fields[i].name != "" }

  predicate Named(model: LogicalModel) {
    forall i :: 0 <= i < |model.entities| ==> model.entities[i].name != "" && NamedFields(model.entities[i])
  }

  /** Looking a field up by the name of the field that was found finds it again. */
  lemma FieldFoundAgain(fields: seq<LogicalField>, name: string)
    requires FieldByName(fields, name).Some? && FieldByName(fields, name).value.name != ""
    ensures FieldByName(fields, FieldByName(fields, name).value.name) == FieldByName(fields, name)
  {
    var found := FieldByName(fields, name).value.name;
    var same := (f: LogicalField) => f.name == found;
    var exact := (f: LogicalField) => f.name == name;
    var folded := (f: LogicalField) => Lower(f.name) == Lower(name);
    var singular := (f: LogicalField) => Singular(Lower(f.name)) == Singular(Lower(name));
    if First(fields, exact).Some? { FirstOfStrongerTest(fields, exact, same); }
    else if First(fields, folded).Some? { FirstOfStrongerTest(fields, folded, same); }
    else { FirstOfStrongerTest(fields, singular, same); }
  }

  lemma EntityFoundAgain(entities: seq<LogicalEntity>, name: string)
    requires EntityByName(entities, name).Some? && EntityByName(entities, name).value.name != ""
    ensures EntityByName(entities, EntityByName(entities, name).value.name) == EntityByName(entities, name)
  {
    var found := EntityByName(entities, name).value.name;
    var same := (e: LogicalEntity) => e.name == found;
    var exact := (e: LogicalEntity) => e.name == name;
    var folded := (e: LogicalEntity) => Lower(e.name) == Lower(name);
    var singular := (e: LogicalEntity) => Singular(Lower(e.name)) == Singular(Lower(name));
    if First(entities, exact).Some? { FirstOfStrongerTest(entities, exact, same); }
    else if First(entities, folded).Some? { FirstOfStrongerTest(entities, folded, same); }
    else { FirstOfStrongerTest(entities, singular, same); }
  }

  lemma NormalFieldFound(fm: FieldMapping, entity: LogicalEntity)
    requires NamedFields(entity)
    ensures MappedField(entity, NormalField(fm, entity)) == MappedField(entity, fm)
  {
    if FieldById(entity.fields, fm.logicalId).None? && FieldByName(entity.fields, fm.logicalName).Some? {
      FieldFoundAgain(entity.fields, fm.logicalName);
    }
  }

  lemma NormalEntityFound(em: EntityMapping, model: LogicalModel)
    requires Named(model)
    ensures MappedEntity(model, NormalEntity(em, model)) == MappedEntity(model, em)
  {
    if EntityById(model, em.logicalId).None? && EntityByName(model.entities, em.logicalName).Some? {
      EntityFoundAgain(model.entities, em.logicalName);
    }
  }

  lemma NormalFieldsValid(fms: seq<FieldMapping>, entity: LogicalEntity, physical: EntitySchema)
    requires NamedFields(entity)
    ensures ValidFields(NormalFields(fms, entity), entity, physical) <==> ValidFields(fms, entity, physical)
    ensures NormalFields(NormalFields(fms, entity), entity) == NormalFields(fms, entity)
  {
    hide MappedField, FindColumn, Compatible;
    forall i | 0 <= i < |fms|
      ensures MappedField(entity, NormalField(fms[i], entity)) == MappedField(entity, fms[i])
    {
      NormalFieldFound(fms[i], entity);
    }
    var normal := NormalFields(fms, entity);
    assert forall i :: 0 <= i < |fms| ==>
             (ValidField(normal[i], entity, physical) <==> ValidField(fms[i], entity, physical));
  }

  lemma NormalEntityPasses(em: EntityMapping, model: LogicalModel, schema: SourceSchema)
    requires Named(model)
    ensures PassesEntity(NormalEntity(em, model), model, schema) <==> PassesEntity(em, model, schema)
    ensures NormalEntity(NormalEntity(em, model), model) == NormalEntity(em, model)
  {
    hide MappedEntity, ValidFields, InNamespace;
    NormalEntityFound(em, model);
    SameValidated(em, NormalEntity(em, model), schema.entities);
    if MappedEntity(model, em).Some? {
      var e := MappedEntity(model, em).value;
      assert NamedFields(e) by { FoundIsNamed(em, model); }
      if ValidatedEntity(em, schema.entities).Some? {
        NormalFieldsValid(em.fields, e, ValidatedEntity(em, schema.entities).value);
      } else {
        NormalFieldsValid(em.fields, e, EntitySchema("", "", [], []));
      }
    }
  }

  lemma FoundIsNamed(em: EntityMapping, model: LogicalModel)
    requires Named(model) && MappedEntity(model, em).Some?
    ensures NamedFields(MappedEntity(model, em).value)
  {
  }

  lemma {:induction false} SameValidated(em: EntityMapping, other: EntityMapping, entities: seq<EntitySchema>)
    requires em.physicalName == other.physicalName && em.physicalNamespace == other.physicalNamespace
    ensures ValidatedEntity(em, entities) == ValidatedEntity(other, entities)
  {
    FirstOfEqualTests(entities, (e: EntitySchema) => Lower(e.name) == Lower(em.physicalName) && InNamespace(e, em),
              (e: EntitySchema) => Lower(e.name) == Lower(other.physicalName) && InNamespace(e, other));
    FirstOfEqualTests(entities, (e: EntitySchema) => Lower(e.name) == Lower(em.physicalName),
              (e: EntitySchema) => Lower(e.name) == Lower(other.physicalName));
  }

  /** Bringing names in line changes nothing about validity, and doing it again changes nothing at all. */
  lemma NormalizedPassesExactly(ems: seq<EntityMapping>, model: LogicalModel, schema: SourceSchema)
    requires Named(model)
    ensures Passes(Normalized(ems, model), model, schema) <==> Passes(ems, model, schema)
    ensures Normalized(Normalized(ems, model), model) == Normalized(ems, model)
  {
    hide PassesEntity, NormalEntity;
    forall i | 0 <= i < |ems|
      ensures PassesEntity(Normalized(ems, model)[i], model, schema) <==> PassesEntity(ems[i], model, schema)
      ensures NormalEntity(NormalEntity(ems[i], model), model) == NormalEntity(ems[i], model)
    {
      NormalEntityPasses(ems[i], model, schema);
    }
  }

  // ---------------------------------------------------------------- changes

  datatype Change =
    | Insert(id: string, mapping: SourceMapping)
    | Rewrite(id: string, version: Option<string>, entities: seq<EntityMapping>)
    | SetStatus(id: string, version: Option<string>, status: Option<MappingStatus>)
    | Report(id: string, outcome: MappingStatus)          // the outcome of a validation
    | Activate(id: string)
    | Remove(id: string)
    | Extend(id: string, entities: seq<EntityMapping>)    // an entity mapping was added
    | Edit(id: string, entities: seq<EntityMapping>)      // one was deleted, or a field mapping added or deleted

  predicate Siblings(a: SourceMapping, b: SourceMapping) { a.modelId == b.modelId && a.sourceId == b.sourceId }

  function WithVersion(m: SourceMapping, version: Option<string>): SourceMapping {
    if version.Some? then m.(version := version.value) else m
  }

  function Activated(ms: Mappings, id: string): (r: Mappings)
    requires id in ms
    ensures r.Keys == ms.Keys
  {
    map k | k in ms :: k :=
      if k == id then ms[k].(status := ACTIVE)
      else if Siblings(ms[k], ms[id]) && ms[k].status == ACTIVE then ms[k].(status := VALIDATED)
      else ms[k]
  }

  /** The mappings after a change, or None if it is refused. */
  function After(ms: Mappings, c: Change): Option<Mappings> {
    if c.Insert? then
      if c.id in ms then None
      else Some(ms[c.id := c.mapping.(status := if c.mapping.status == ACTIVE then DRAFT else c.mapping.status)])
    else if c.Remove? then Some(ms - {c.id})
    else if c.id !in ms then None
    else
      var m := ms[c.id];
      match c
      case Rewrite(id, version, entities) =>
        Some(ms[id := WithVersion(m, version).(entities := entities, status := DRAFT)])
      case SetStatus(id, version, status) =>
        if status == Some(ACTIVE) && m.status != VALIDATED then None
        else Some(ms[id := WithVersion(m, version).(status := if status.Some? then status.value else m.status)])
      case Report(id, outcome) => if outcome == ACTIVE then None else Some(ms[id := m.(status := outcome)])
      case Activate(id) => if m.status != VALIDATED then None else Some(Activated(ms, id))
      case Extend(id, entities) => Some(ms[id := m.(entities := entities, status := DRAFT)])
      case Edit(id, entities) => Some(ms[id := m.(entities := entities)])
  }

  // ---------------------------------------------------------------- what a change leaves alone

  /** The mapping is active, active ones of the same model and source are validated, and all else is as before. */
  lemma ActivatedExactly(ms: Mappings, id: string, k: string)
    requires id in ms && k in ms && ms[id].status == VALIDATED
    ensures After(ms, Activate(id)).Some? && After(ms, Activate(id)).value.Keys == ms.Keys
    ensures var m, after := ms[k], After(ms, Activate(id)).value[k];
            var sibling := m.modelId == ms[id].modelId && m.sourceId == ms[id].sourceId;
            after == m.(status := if k == id then ACTIVE
                                  else if sibling && m.status == ACTIVE then VALIDATED
                                  else m.status)
  {
  }

  /** Only activation touches mappings that are not named; no change moves one to another model or source. */
  lemma OthersKept(ms: Mappings, c: Change, k: string)
    requires After(ms, c).Some? && k in ms
    ensures k in After(ms, c).value <==> !(c.Remove? && c.id == k)
    ensures k in After(ms, c).value ==>
              && var after := After(ms, c).value[k];
              && after.modelId == ms[k].modelId && after.sourceId == ms[k].sourceId
              && (c.id != k && !c.Activate? ==> after == ms[k])
              && after.version ==
                   (if (c.Rewrite? || c.SetStatus?) && c.id == k && c.version.Some? then c.version.value
                    else ms[k].version)
              && after.entities ==
                   (if (c.Rewrite? || c.Extend? || c.Edit?) && c.id == k then c.entities else ms[k].entities)
  {
  }

  // ---------------------------------------------------------------- at most one active mapping

  predicate OneActive(ms: Mappings) {
    forall i, j :: i in ms && j in ms && i != j && ms[i].status == ACTIVE && ms[j].status == ACTIVE ==>
      !Siblings(ms[i], ms[j])
  }

  predicate HasActiveSibling(ms: Mappings, id: string)
    requires id in ms
  {
    exists k :: k in ms && k != id && ms[k].status == ACTIVE && Siblings(ms[k], ms[id])
  }

  /** A promotion by setting the status, without demoting the mapping that is active. */
  predicate UnguardedPromotion(ms: Mappings, c: Change) {
    c.SetStatus? && c.status == Some(ACTIVE) && c.id in ms && ms[c.id].status == VALIDATED && HasActiveSibling(ms, c.id)
  }

  lemma ActivatedIsOnlyOne(ms: Mappings, id: string)
    requires OneActive(ms) && id in ms
    ensures OneActive(Activated(ms, id)) && !HasActiveSibling(Activated(ms, id), id)
    ensures Activated(ms, id)[id].status == ACTIVE
  {
  }

  lemma OneChanged(ms: Mappings, id: string, m: SourceMapping)
    requires OneActive(ms)
    requires id in ms ==> Siblings(m, ms[id])
    requires m.status == ACTIVE ==> id in ms && (ms[id].status == ACTIVE || !HasActiveSibling(ms, id))
    ensures OneActive(ms[id := m])
  {
  }

  /** At most one active mapping for a model and source: every change keeps this, but an unguarded promotion. */
  lemma OneActiveKeptExactly(ms: Mappings, c: Change)
    requires OneActive(ms) && After(ms, c).Some?
    ensures OneActive(After(ms, c).value) <==> !UnguardedPromotion(ms, c)
  {
    hide OneActive, HasActiveSibling;
    var after := After(ms, c).value;
    if c.Remove? {
      assert OneActive(after) by { RemovedKeeps(ms, c.id); }
    } else if c.Activate? {
      ActivatedIsOnlyOne(ms, c.id);
    } else if UnguardedPromotion(ms, c) {
      assert !OneActive(after) by { PromotedClashes(ms, c.id, after); }
    } else if c.Insert? {
      assert OneActive(after) by { InsertedKeeps(ms, c.id, after[c.id]); }
    } else {
      assert after == ms[c.id := after[c.id]];
      OneChanged(ms, c.id, after[c.id]);
    }
  }

  lemma RemovedKeeps(ms: Mappings, id: string)
    requires OneActive(ms)
    ensures OneActive(ms - {id})
  {
  }

  lemma InsertedKeeps(ms: Mappings, id: string, m: SourceMapping)
    requires OneActive(ms) && id !in ms && m.status != ACTIVE
    ensures OneActive(ms[id := m])
  {
  }

  lemma PromotedClashes(ms: Mappings, id: string, after: Mappings)
    requires id in ms && HasActiveSibling(ms, id)
    requires id in after && after == ms[id := after[id]] && after[id].status == ACTIVE && Siblings(after[id], ms[id])
    ensures !OneActive(after)
  {
    var k :| k in ms && k != id && ms[k].status == ACTIVE && Siblings(ms[k], ms[id]);
    assert after[k] == ms[k];
  }

  /** A sequence of changes from ms; refused ones change nothing. */
  function Run(ms: Mappings, changes: seq<Change>): Mappings {
    if changes == [] then ms
    else
      var before := Run(ms, changes[..|changes| - 1]);
      match After(before, changes[|changes| - 1])
      case Some(after) => after
      case None => before
  }

  /** Changes that never set the status to active past an active sibling. */
  predicate Careful(ms: Mappings, changes: seq<Change>) {
    forall k :: 0 <= k < |changes| ==> !UnguardedPromotion(Run(ms, changes[..k]), changes[k])
  }

  /** At most one sibling is active after each change of the sequence. */
  predicate OneActiveThroughout(changes: seq<Change>) {
    forall k :: 0 <= k <= |changes| ==> OneActive(Run(map[], changes[..k]))
  }

  /**
   From an empty registry, changes of any kind and number keep every two siblings from being active together, at each
   moment, exactly if none of them sets the status to active past an active sibling.
   */
  lemma {:induction false} OneActiveAlways(changes: seq<Change>)
    ensures OneActiveThroughout(changes) <==> Careful(map[], changes)
  {
    hide OneActive, UnguardedPromotion, Run, OneActiveThroughout, Careful, After;
    if changes == [] {
      NothingChanged(changes);
    } else {
      var front, last := changes[..|changes| - 1], changes[|changes| - 1];
      var before := Run(map[], front);
      OneActiveAlways(front);
      OneMoreGuarded(map[], changes);
      OneMoreState(changes);
      RunStep(map[], changes);
      if OneActive(before) {
        if After(before, last).Some? { OneActiveKeptExactly(before, last); } else { RefusedIsGuarded(before, last); }
      }
    }
  }

  lemma NothingChanged(changes: seq<Change>)
    requires changes == []
    ensures OneActiveThroughout(changes) && Careful(map[], changes)
  {
    assert changes[..0] == [];
    NoneActive(Run(map[], changes));
  }

  /** What one more change adds to the guarded sequences. */
  lemma OneMoreGuarded(ms: Mappings, changes: seq<Change>)
    requires changes != []
    ensures var front, last := changes[..|changes| - 1], changes[|changes| - 1];
            Careful(ms, changes) <==> Careful(ms, front) && !UnguardedPromotion(Run(ms, front), last)
  {
    hide UnguardedPromotion, Run;
    var n := |changes| - 1;
    var front := changes[..n];
    forall k | 0 <= k <= n ensures front[..k] == changes[..k] {}
  }

  /** And to the states that they pass. */
  lemma OneMoreState(changes: seq<Change>)
    requires changes != []
    ensures var front := changes[..|changes| - 1];
            && (OneActiveThroughout(front) ==> OneActive(Run(map[], front)))
            && (OneActiveThroughout(changes) <==> OneActiveThroughout(front) && OneActive(Run(map[], changes)))
  {
    hide OneActive, Run;
    var n := |changes| - 1;
    var front := changes[..n];
    forall k | 0 <= k <= n ensures front[..k] == changes[..k] {}
    assert changes[..n + 1] == changes && front[..n] == front;
  }

  lemma RunStep(ms: Mappings, changes: seq<Change>)
    requires changes != []
    ensures var before, last := Run(ms, changes[..|changes| - 1]), changes[|changes| - 1];
            Run(ms, changes) == if After(before, last).Some? then After(before, last).value else before
  {
    hide After;
  }

  /** A change that is refused promotes nothing. */
  lemma RefusedIsGuarded(ms: Mappings, c: Change)
    requires After(ms, c).None?
    ensures !UnguardedPromotion(ms, c)
  {
  }

  lemma NoneActive(ms: Mappings)
    requires ms == map[]
    ensures OneActive(ms)
  {
  }

  lemma RunMore(changes: seq<Change>, c: Change, before: Mappings)
    requires Run(map[], changes) == before && After(before, c).Some?
    ensures Run(map[], changes + [c]) == After(before, c).value
  {
    assert (changes + [c])[..|changes|] == changes;
  }

  lemma NothingRun()
    ensures Run(map[], []) == map[]
  {
  }

  lemma TwoActive(a: SourceMapping, b: SourceMapping)
    requires Siblings(a, b) && a.status == b.status == ACTIVE
    ensures !OneActive(map["1" := a, "2" := b])
  {
    var both := map["1" := a, "2" := b];
    assert "1" in both && "2" in both && "1" != "2" && Siblings(both["1"], both["2"]);
  }

  /** Two mappings are inserted and found valid. */
  lemma TwoValidated(a: SourceMapping, b: SourceMapping) returns (changes: seq<Change>)
    requires a.status == b.status == DRAFT
    ensures Run(map[], changes) == map["1" := a.(status := VALIDATED), "2" := b.(status := VALIDATED)]
  {
    hide Run;
    NothingRun();
    changes := [];
    RunMore(changes, Insert("1", a), map[]);
    changes := changes + [Insert("1", a)];
    var one, two, three := map["1" := a], map["1" := a, "2" := b], map["1" := a.(status := VALIDATED), "2" := b];
    RunMore(changes, Insert("2", b), one);
    changes := changes + [Insert("2", b)];
    RunMore(changes, Report("1", VALIDATED), two);
    changes := changes + [Report("1", VALIDATED)];
    RunMore(changes, Report("2", VALIDATED), three);
    changes := changes + [Report("2", VALIDATED)];
  }

  /** It happens: two mappings for one model and source, both validated, one activated and the other set to active. */
  lemma TwoSiblingsActive(a: SourceMapping, b: SourceMapping) returns (changes: seq<Change>)
    requires Siblings(a, b) && a.status == b.status == DRAFT
    ensures Run(map[], changes) == map["1" := a.(status := ACTIVE), "2" := b.(status := ACTIVE)]
    ensures !OneActive(Run(map[], changes))
  {
    hide OneActive, Run;
    changes := TwoValidated(a, b);
    var before := map["1" := a.(status := VALIDATED), "2" := b.(status := VALIDATED)];
    var between := map["1" := a.(status := ACTIVE), "2" := b.(status := VALIDATED)];
    assert Activated(before, "1") == between;
    RunMore(changes, Activate("1"), before);
    changes := changes + [Activate("1")];
    RunMore(changes, SetStatus("2", None, Some(ACTIVE)), between);
    changes := changes + [SetStatus("2", None, Some(ACTIVE))];
    TwoActive(a.(status := ACTIVE), b.(status := ACTIVE));
  }

  // ---------------------------------------------------------------- what was validated

  /** Validated and active mappings have a content that passed a validation. */
  predicate Trusted(ms: Mappings, passed: set<seq<EntityMapping>>) {
    forall k :: k in ms && (ms[k].status == VALIDATED || ms[k].status == ACTIVE) ==> ms[k].entities in passed
  }

  /** The contents that passed, after a change. */
  function PassedAfter(ms: Mappings, c: Change, passed: set<seq<EntityMapping>>): set<seq<EntityMapping>> {
    if c.Report? && c.outcome == VALIDATED && c.id in ms then passed + {ms[c.id].entities} else passed
  }

  /** A change that grants trust to a content that passed no validation. */
  predicate TrustsUnchecked(ms: Mappings, c: Change, passed: set<seq<EntityMapping>>) {
    || (c.Insert? && c.mapping.status == VALIDATED && c.mapping.entities !in passed)
    || (c.SetStatus? && c.id in ms && c.status == Some(VALIDATED) && ms[c.id].entities !in passed)
    || (c.Edit? && c.id in ms && (ms[c.id].status == VALIDATED || ms[c.id].status == ACTIVE) && c.entities !in passed)
  }

  /**
   Only validated contents become active, except that a mapping can be created as validated, that the status can
   be set to validated, and that editing part of a content keeps its status; every other change keeps trust.
   */
  lemma TrustKeptExactly(ms: Mappings, c: Change, passed: set<seq<EntityMapping>>)
    requires Trusted(ms, passed) && After(ms, c).Some?
    ensures Trusted(After(ms, c).value, PassedAfter(ms, c, passed)) <==> !TrustsUnchecked(ms, c, passed)
  {
    var after := After(ms, c).value;
    if c.Activate? {
      forall k | k in after && (after[k].status == VALIDATED || after[k].status == ACTIVE)
        ensures after[k].entities in passed
      {
        assert ms[k].status == VALIDATED || ms[k].status == ACTIVE;
      }
    } else if c.Remove? {
    } else {
      assert after == ms[c.id := after[c.id]];
      if TrustsUnchecked(ms, c, passed) { assert after[c.id].entities !in passed; }
    }
  }

  /** So a mapping that no validation ever looked at can become active: it is created as validated. */
  lemma UncheckedBecomesActive(m: SourceMapping) returns (changes: seq<Change>)
    requires m.status == VALIDATED
    ensures Run(map[], changes) == map["1" := m.(status := ACTIVE)]
    ensures forall k :: 0 <= k < |changes| ==> !changes[k].Report?
    ensures !Trusted(Run(map[], changes), {})
  {
    var one := map["1" := m];
    changes := [Insert("1", m)];
    RunMore([], Insert("1", m), map[]);
    assert [] + [Insert("1", m)] == changes;
    assert Activated(one, "1") == map["1" := m.(status := ACTIVE)];
    RunMore(changes, Activate("1"), one);
    changes := changes + [Activate("1")];
  }
}
