/** The registry service: operations on the stored mappings, each one change of the mapping lifecycle. */
module Registry {
  import opened Text
  import opened Schema
  import opened LogicalResolver
  import opened MappingValidation
  import opened MappingLifecycle

  datatype RegistryError =
    | ModelNotFound | SourceNotFound | SourceMappingNotFound | LogicalEntityNotFound | DuplicateMapping
    | MappingValidationError

  /** The status that a validation reports, given the schema if there is one. */
  function Verdict(ems: seq<EntityMapping>, model: LogicalModel, schema: Option<SourceSchema>): MappingStatus {
    if schema.None? then ERROR
    else if ems == [] then DRAFT
    else if Passes(ems, model, schema.value) then VALIDATED
    else ERROR
  }

  class RegistryService {
    const models: map<string, LogicalModel>
    const sources: set<string>
    var mappings: Mappings

    constructor (models: map<string, LogicalModel>, sources: set<string>)
      ensures mappings == map[] && this.models == models && this.sources == sources
    {
      this.models, this.sources, mappings := models, sources, map[];
    }

    /** A new mapping, never active, its names brought in line; versions are not used twice. */
    method CreateSourceMapping(
      id: string, modelId: string, sourceId: string, version: string, status: MappingStatus, ems: seq<EntityMapping>)
      returns (r: Result<SourceMapping, RegistryError>)
      requires id !in mappings
      modifies this
      ensures r == Err(ModelNotFound) <==> modelId !in models
      ensures r == Err(SourceNotFound) <==> modelId in models && sourceId !in sources
      ensures r == Err(DuplicateMapping) <==>
                modelId in models && sourceId in sources
                && exists k :: k in old(mappings) && var m := old(mappings)[k];
                   m.modelId == modelId && m.sourceId == sourceId && m.version == version
      ensures r.Err? ==> r.error in {ModelNotFound, SourceNotFound, DuplicateMapping} && mappings == old(mappings)
      ensures r.Ok? ==>
                && var m := SourceMapping(modelId, sourceId, version, status, Normalized(ems, models[modelId]));
                && After(old(mappings), Insert(id, m)) == Some(mappings)
                && id in mappings && r.value == mappings[id] && r.value.status != ACTIVE
      ensures OneActive(old(mappings)) ==> OneActive(mappings)
    {
      hide OneActive;
      if modelId !in models { return Err(ModelNotFound); }
      if sourceId !in sources { return Err(SourceNotFound); }
      var existing := mappings.Keys;
      while existing != {}
        invariant existing <= mappings.Keys && mappings == old(mappings)
        invariant forall k :: k in mappings && k !in existing ==>
          !(mappings[k].modelId == modelId && mappings[k].sourceId == sourceId && mappings[k].version == version)
        decreases |existing|
      {
        var k :| k in existing;
        var m := mappings[k];
        if m.modelId == modelId && m.sourceId == sourceId && m.version == version { return Err(DuplicateMapping); }
        existing := existing - {k};
      }
      r := Insertion(id, SourceMapping(modelId, sourceId, version, status, Normalized(ems, models[modelId])));
    }

    method Insertion(id: string, m: SourceMapping) returns (r: Result<SourceMapping, RegistryError>)
      requires id !in mappings
      modifies this
      ensures After(old(mappings), Insert(id, m)) == Some(mappings)
      ensures id in mappings && r == Ok(mappings[id]) && mappings[id].status != ACTIVE
      ensures OneActive(old(mappings)) ==> OneActive(mappings)
    {
      hide OneActive;
      if OneActive(mappings) { OneActiveKeptExactly(mappings, Insert(id, m)); }
      mappings := mappings[id := m.(status := if m.status == ACTIVE then DRAFT else m.status)];
      r := Ok(mappings[id]);
    }

    /** Proposals are taken in as drafts; here nothing keeps versions apart. */
    method IngestAlignSuggestions(
      id: string, modelId: string, sourceId: string, version: string, ems: seq<EntityMapping>)
      returns (r: Result<SourceMapping, RegistryError>)
      requires id !in mappings
      modifies this
      ensures r == Err(ModelNotFound) <==> modelId !in models
      ensures r == Err(SourceNotFound) <==> modelId in models && sourceId !in sources
      ensures r.Err? ==> mappings == old(mappings)
      ensures modelId in models && sourceId in sources ==>
                && var m := SourceMapping(modelId, sourceId, version, DRAFT, ems);
                && After(old(mappings), Insert(id, m)) == Some(mappings)
                && id in mappings && r == Ok(mappings[id])
      ensures OneActive(old(mappings)) ==> OneActive(mappings)
    {
      if modelId !in models { return Err(ModelNotFound); }
      if sourceId !in sources { return Err(SourceNotFound); }
      r := Insertion(id, SourceMapping(modelId, sourceId, version, DRAFT, ems));
    }

    /**
     New contents make the mapping a draft. Otherwise the status is set as asked, active only if it is validated;
     this is the one operation that can leave two siblings active.
     */
    method UpdateSourceMapping(
      id: string, version: Option<string>, status: Option<MappingStatus>, ems: Option<seq<EntityMapping>>)
      returns (r: Result<SourceMapping, RegistryError>)
      modifies this
      ensures r == Err(SourceMappingNotFound) <==> id !in old(mappings)
      ensures r.Err? ==> mappings == old(mappings)
      ensures r.Ok? ==> id in mappings && r.value == mappings[id]
      ensures id in old(mappings) ==>
                var modelId := old(mappings)[id].modelId;
                if ems.None? then
                  var after := After(old(mappings), SetStatus(id, version, status));
                  if after.Some? then r.Ok? && Some(mappings) == after else r == Err(MappingValidationError)
                else if modelId !in models then r == Err(ModelNotFound)
                else
                  var entities := Normalized(ems.value, models[modelId]);
                  r.Ok? && Some(mappings) == After(old(mappings), Rewrite(id, version, entities))
      ensures OneActive(old(mappings)) ==>
                (OneActive(mappings) <==>
                   !(ems.None? && r.Ok? && UnguardedPromotion(old(mappings), SetStatus(id, version, status))))
    {
      hide OneActive, UnguardedPromotion;
      if id !in mappings { return Err(SourceMappingNotFound); }
      var m := WithVersion(mappings[id], version);
      if ems.Some? {
        if m.modelId !in models { return Err(ModelNotFound); }
        var entities := Normalized(ems.value, models[m.modelId]);
        if OneActive(mappings) { KeptByOthers(mappings, Rewrite(id, version, entities)); }
        mappings := mappings[id := m.(entities := entities, status := DRAFT)];
        return Ok(mappings[id]);
      }
      if status == Some(ACTIVE) && m.status != VALIDATED { return Err(MappingValidationError); }
      if OneActive(mappings) { OneActiveKeptExactly(mappings, SetStatus(id, version, status)); }
      if status.Some? { m := m.(status := status.value); }
      mappings := mappings[id := m];
      r := Ok(mappings[id]);
    }

    method DeleteSourceMapping(id: string) returns (found: bool)
      modifies this
      ensures found == (id in old(mappings)) && After(old(mappings), Remove(id)) == Some(mappings)
      ensures OneActive(old(mappings)) ==> OneActive(mappings)
    {
      hide OneActive;
      if OneActive(mappings) { KeptByOthers(mappings, Remove(id)); }
      found := id in mappings;
      mappings := mappings - {id};
    }

    /** An entity mapping more, for a logical entity that is known by its id; the mapping is a draft again. */
    method AddEntityMapping(id: string, em: EntityMapping) returns (r: Result<EntityMapping, RegistryError>)
      modifies this
      ensures r == Err(SourceMappingNotFound) <==> id !in old(mappings)
      ensures r.Err? ==> mappings == old(mappings)
      ensures r.Ok? ==>
                && id in old(mappings)
                && After(old(mappings), Extend(id, old(mappings)[id].entities + [r.value])) == Some(mappings)
                && mappings[id].status == DRAFT
                && old(mappings)[id].modelId in models
                && EntityById(models[old(mappings)[id].modelId], em.logicalId).Some?
                && var entity := EntityById(models[old(mappings)[id].modelId], em.logicalId).value;
                && r.value == em.(logicalName := entity.name, fields := NormalFields(em.fields, entity))
      ensures OneActive(old(mappings)) ==> OneActive(mappings)
    {
      hide OneActive;
      if id !in mappings { return Err(SourceMappingNotFound); }
      var m := mappings[id];
      if m.modelId !in models { return Err(ModelNotFound); }
      var entity := EntityById(models[m.modelId], em.logicalId);
      if entity.None? { return Err(LogicalEntityNotFound); }
      var added := em.(logicalName := entity.value.name, fields := NormalFields(em.fields, entity.value));
      if OneActive(mappings) { KeptByOthers(mappings, Extend(id, m.entities + [added])); }
      mappings := mappings[id := m.(entities := m.entities + [added], status := DRAFT)];
      r := Ok(added);
    }

    /** Dropping one entity mapping leaves the status as it is. */
    method DeleteEntityMapping(id: string, k: nat) returns (found: bool)
      modifies this
      ensures found == (id in old(mappings) && k < |old(mappings)[id].entities|)
      ensures !found ==> mappings == old(mappings)
      ensures found ==>
                var entities := old(mappings)[id].entities;
                After(old(mappings), Edit(id, entities[..k] + entities[k + 1..])) == Some(mappings)
      ensures OneActive(old(mappings)) ==> OneActive(mappings)
    {
      hide OneActive;
      if id !in mappings || k >= |mappings[id].entities| { return false; }
      var m := mappings[id];
      var entities := m.entities[..k] + m.entities[k + 1..];
      if OneActive(mappings) { KeptByOthers(mappings, Edit(id, entities)); }
      mappings := mappings[id := m.(entities := entities)];
      found := true;
    }

    lemma KeptByOthers(ms: Mappings, c: Change)
      requires OneActive(ms) && After(ms, c).Some? && !c.SetStatus?
      ensures OneActive(After(ms, c).value)
    {
      hide OneActive;
      OneActiveKeptExactly(ms, c);
    }

    /**
     Checked against the latest schema, or else a newly discovered one. An active mapping that passes is no longer
     active, but validated.
     */
    method ValidateSourceMapping(id: string, latest: Option<SourceSchema>, discovered: Option<SourceSchema>)
      returns (r: Result<bool, RegistryError>)
      modifies this
      ensures r == Err(SourceMappingNotFound) <==> id !in old(mappings)
      ensures r == Err(ModelNotFound) <==> id in old(mappings) && old(mappings)[id].modelId !in models
      ensures r.Err? ==> mappings == old(mappings)
      ensures r.Ok? ==>
                && id in old(mappings) && old(mappings)[id].modelId in models
                && var m := old(mappings)[id];
                && var schema := if m.sourceId !in sources then None else if latest.Some? then latest else discovered;
                && var status := Verdict(m.entities, models[m.modelId], schema);
                && After(old(mappings), Report(id, status)) == Some(mappings)
                && (r.value <==> status == VALIDATED)
      ensures OneActive(old(mappings)) ==> OneActive(mappings)
    {
      hide OneActive, Passes;
      if id !in mappings { return Err(SourceMappingNotFound); }
      var m := mappings[id];
      if m.modelId !in models { return Err(ModelNotFound); }
      var schema := if m.sourceId !in sources then None else if latest.Some? then latest else discovered;
      var status := DRAFT;
      if schema.None? {
        status := ERROR;
      } else if m.entities != [] {
        var passed := CheckEntities(m.entities, models[m.modelId], schema.value);
        status := if passed then VALIDATED else ERROR;
      }
      if OneActive(mappings) { KeptByOthers(mappings, Report(id, status)); }
      mappings := mappings[id := m.(status := status)];
      r := Ok(status == VALIDATED);
    }

    static method CheckEntities(ems: seq<EntityMapping>, model: LogicalModel, schema: SourceSchema) returns (ok: bool)
      requires ems != []
      ensures ok == Passes(ems, model, schema)
    {
      hide ValidFields, ValidatedEntity, MappedEntity;
      for i := 0 to |ems|
        invariant forall k :: 0 <= k < i ==> PassesEntity(ems[k], model, schema)
      {
        var logical := MappedEntity(model, ems[i]);
        if logical.None? { return false; }
        var physical := ValidatedEntity(ems[i], schema.entities);
        if physical.None? { return false; }
        var fields := CheckFields(ems[i].fields, logical.value, physical.value);
        if !fields { return false; }
      }
      ok := true;
    }

    static method CheckFields(fms: seq<FieldMapping>, logical: LogicalEntity, physical: EntitySchema) returns (ok: bool)
      ensures ok == ValidFields(fms, logical, physical)
    {
      hide MappedField, FindColumn, Compatible;
      if fms == [] { return false; }
      for i := 0 to |fms|
        invariant forall k :: 0 <= k < i ==> ValidField(fms[k], logical, physical)
      {
        var field := MappedField(logical, fms[i]);
        if field.None? { return false; }
        var column := FindColumn(physical.fields, fms[i].physicalName);
        if column.None? { return false; }
        if !Compatible(field.value.dataType, column.value.dataType) { return false; }
      }
      ok := true;
    }

    /** Only validated mappings; siblings that are active are demoted one by one. */
    method ActivateSourceMapping(id: string) returns (r: Result<SourceMapping, RegistryError>)
      modifies this
      ensures r == Err(SourceMappingNotFound) <==> id !in old(mappings)
      ensures r == Err(MappingValidationError) <==> id in old(mappings) && old(mappings)[id].status != VALIDATED
      ensures r.Err? ==> mappings == old(mappings)
      ensures r.Ok? ==>
                && After(old(mappings), Activate(id)) == Some(mappings)
                && id in mappings && r.value == mappings[id] && r.value.status == ACTIVE
                && !HasActiveSibling(mappings, id)
      ensures OneActive(old(mappings)) ==> OneActive(mappings)
    {
      hide OneActive;
      if id !in mappings { return Err(SourceMappingNotFound); }
      if mappings[id].status != VALIDATED { return Err(MappingValidationError); }
      if OneActive(mappings) { KeptByOthers(mappings, Activate(id)); }
      ghost var before := mappings;
      DemoteSiblings(id);
      mappings := mappings[id := mappings[id].(status := ACTIVE)];
      assert mappings == Activated(before, id);
      assert !HasActiveSibling(mappings, id) by { NoneLeft(before, id); }
      r := Ok(mappings[id]);
    }

    lemma NoneLeft(ms: Mappings, id: string)
      requires id in ms
      ensures !HasActiveSibling(Activated(ms, id), id)
    {
    }

    /** Every active sibling becomes a validated mapping. */
    method DemoteSiblings(id: string)
      requires id in mappings
      modifies this
      ensures mappings.Keys == old(mappings).Keys && mappings[id] == old(mappings)[id]
      ensures forall k :: k in mappings && k != id ==> mappings[k] == Activated(old(mappings), id)[k]
    {
      ghost var before := mappings;
      var m := mappings[id];
      var others := mappings.Keys - {id};
      while others != {}
        invariant others <= before.Keys && id !in others && mappings.Keys == before.Keys
        invariant forall k :: k in others || k == id ==> mappings[k] == before[k]
        invariant forall k :: k in before && k !in others && k != id ==> mappings[k] == Activated(before, id)[k]
        decreases |others|
      {
        var k :| k in others;
        if Siblings(mappings[k], m) && mappings[k].status == ACTIVE {
          mappings := mappings[k := mappings[k].(status := VALIDATED)];
        }
        others := others - {k};
      }
    }
  }
}
