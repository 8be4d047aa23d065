/**
 Rewriting a query on logical entities and fields into one on physical tables and columns. The rewriting
 looks names up in one dictionary that is filled by overwriting; Binding says, without the dictionary, who
 has the last word on a name, and Refers says what a name means to the author of the query.
 */
module LogicalResolver {
  import opened Text
  import opened Query

  datatype FieldMapping = FieldMapping(logicalId: string, logicalName: string, physicalName: string)

  datatype EntityMapping = EntityMapping(
    logicalId: string, logicalName: string, physicalName: string, physicalNamespace: string,
    fields: seq<FieldMapping>)

  // ---------------------------------------------------------------- choosing the entity mapping

  /** s without its trailing letters 's'. */
  function Singular(s: string): string {
    if s != [] && s[|s| - 1] == 's' then Singular(s[..|s| - 1]) else s
  }

  predicate MatchesEntity(em: EntityMapping, entity: string) {
    var logical, physical, id := Lower(em.logicalName), Lower(em.physicalName), Lower(em.logicalId);
    var clean := Singular(Lower(Trim(entity)));
    || logical == Lower(entity)
    || id == Lower(entity)
    || physical == Lower(entity)
    || (logical != "" && Singular(logical) == clean)
    || (physical != "" && Singular(physical) == clean)
  }

  method FindEntityMapping(ems: seq<EntityMapping>, entity: string) returns (r: Option<EntityMapping>)
    ensures r.None? <==> forall i :: 0 <= i < |ems| ==> !MatchesEntity(ems[i], entity)
    ensures forall i :: 0 <= i < |ems| && FirstMatch(ems, entity, i) ==> r == Some(ems[i])
    ensures r.Some? ==> exists i :: 0 <= i < |ems| && FirstMatch(ems, entity, i)
  {
    for i := 0 to |ems|
      invariant forall k :: 0 <= k < i ==> !MatchesEntity(ems[k], entity)
    {
      if MatchesEntity(ems[i], entity) {
        assert FirstMatch(ems, entity, i);
        return Some(ems[i]);
      }
    }
    return None;
  }

  predicate FirstMatch(ems: seq<EntityMapping>, entity: string, i: nat)
    requires i < |ems|
  {
    MatchesEntity(ems[i], entity) && forall k :: 0 <= k < i ==> !MatchesEntity(ems[k], entity)
  }

  /** What is cut off is letters 's' only, and all of those at the end. */
  lemma {:induction false} SingularParts(s: string)
    ensures Singular(s) <= s && forall i :: |Singular(s)| <= i < |s| ==> s[i] == 's'
    ensures Singular(s) != "" ==> Singular(s)[|Singular(s)| - 1] != 's'
  {
    if s != [] && s[|s| - 1] == 's' { SingularParts(s[..|s| - 1]); }
  }

  /** The logical name, the id and the physical name match in any case, and a name is as good as its other spellings. */
  lemma EntityCaseIgnored(ems: seq<EntityMapping>, a: string, b: string, i: nat)
    requires i < |ems| && SameLetters(a, b)
    ensures FirstMatch(ems, a, i) <==> FirstMatch(ems, b, i)
    ensures (|| SameLetters(ems[i].logicalName, a)
             || SameLetters(ems[i].logicalId, a)
             || SameLetters(ems[i].physicalName, a)) ==>
              MatchesEntity(ems[i], b)
  {
    LowerEqualExactly(a, b);
    TrimKeepsCase(a, b);
    LowerEqualExactly(Trim(a), Trim(b));
    LowerEqualExactly(ems[i].logicalName, a);
    LowerEqualExactly(ems[i].logicalId, a);
    LowerEqualExactly(ems[i].physicalName, a);
    hide Lower, Trim, Singular, SameLetters;
  }

  /** A query by the logical name of a mapping is led to that mapping exactly if no earlier one matches the name. */
  lemma FoundByNameExactly(ems: seq<EntityMapping>, i: nat)
    requires i < |ems|
    ensures FirstMatch(ems, ems[i].logicalName, i) <==>
              forall k :: 0 <= k < i ==> !MatchesEntity(ems[k], ems[i].logicalName)
  {
  }

  /** The keys under which a mapping is found, and those under which it is found up to a plural. */
  function EntityKeys(em: EntityMapping): set<string> {
    {Lower(em.logicalName), Lower(em.logicalId), Lower(em.physicalName)}
  }

  function PluralKeys(em: EntityMapping): set<string> {
    set name | name in {Lower(em.logicalName), Lower(em.physicalName)} && name != "" :: Singular(name)
  }

  /** No mapping has a logical name that is a key of an earlier one. */
  predicate EntitiesApart(ems: seq<EntityMapping>) {
    forall k, i :: 0 <= k < i < |ems| ==>
      && Lower(ems[i].logicalName) !in EntityKeys(ems[k])
      && Singular(Lower(Trim(ems[i].logicalName))) !in PluralKeys(ems[k])
  }

  /** Every mapping is found by its own logical name exactly if the names are apart from the keys before them. */
  lemma AllFoundExactly(ems: seq<EntityMapping>)
    ensures (forall i :: 0 <= i < |ems| ==> FirstMatch(ems, ems[i].logicalName, i)) <==> EntitiesApart(ems)
  {
    hide Singular, Lower, Trim;
    forall k, i | 0 <= k < i < |ems|
      ensures MatchesEntity(ems[k], ems[i].logicalName) <==>
                (Lower(ems[i].logicalName) in EntityKeys(ems[k])
                 || Singular(Lower(Trim(ems[i].logicalName))) in PluralKeys(ems[k]))
    {
      MatchesByKey(ems[k], ems[i].logicalName);
    }
    forall i | 0 <= i < |ems| ensures MatchesEntity(ems[i], ems[i].logicalName) {}
  }

  lemma MatchesByKey(em: EntityMapping, name: string)
    ensures MatchesEntity(em, name) <==> Lower(name) in EntityKeys(em) || Singular(Lower(Trim(name))) in PluralKeys(em)
  {
    hide Singular, Lower, Trim;
    var logical, physical := Lower(em.logicalName), Lower(em.physicalName);
    assert logical != "" ==> Singular(logical) in PluralKeys(em);
    assert physical != "" ==> Singular(physical) in PluralKeys(em);
  }

  /**
   So a query that names a logical entity exactly can still be sent to another table: an earlier mapping whose
   name only agrees up to a plural 's' is taken first.
   */
  lemma ExactEntityNameCanLose()
    ensures var ems := [EntityMapping("1", "User", "people", "public", []),
                        EntityMapping("2", "Users", "accounts", "public", [])];
            FirstMatch(ems, "Users", 0) && ems[1].logicalName == "Users" && !EntitiesApart(ems)
  {
    LowerUsers();
    SingularUsers();
    var ems := [EntityMapping("1", "User", "people", "public", []),
                EntityMapping("2", "Users", "accounts", "public", [])];
    assert MatchesEntity(ems[0], ems[1].logicalName);
    FoundByNameExactly(ems, 1);
    AllFoundExactly(ems);
  }

  lemma SingularUsers()
    ensures Singular("users") == "user" && Singular("user") == "user"
  {
    assert "users"[..4] == "user";
  }

  lemma LowerUsers()
    ensures Lower("Users") == "users" && Lower("User") == "user" && Trim("Users") == "Users"
  {
    assert "Users"[1..] == "sers" && "sers"[1..] == "ers" && "ers"[1..] == "rs" && "rs"[1..] == "s" && "s"[1..] == "";
    assert "User"[1..] == "ser" && "ser"[1..] == "er" && "er"[1..] == "r" && "r"[1..] == "";
  }

  // ---------------------------------------------------------------- the dictionary

  type FieldMap = map<string, string>

  /** Records one field mapping under its four names. */
  function Record(m: FieldMap, fm: FieldMapping): FieldMap {
    m[Lower(fm.logicalName) := fm.physicalName]
     [fm.logicalId := fm.physicalName]
     [Lower(fm.physicalName) := fm.physicalName]
     [fm.physicalName := fm.physicalName]
  }

  predicate HasAlias(sel: FieldSelection) { sel.alias.Some? && sel.alias.value != "" }

  /** Points an alias at the column of the path it stands for, if that is known already. */
  function RecordAlias(m: FieldMap, sel: FieldSelection): FieldMap {
    if HasAlias(sel) && Lower(sel.path.root) in m then m[Lower(sel.alias.value) := m[Lower(sel.path.root)]] else m
  }

  function MapFields(fms: seq<FieldMapping>): FieldMap {
    if fms == [] then map[] else Record(MapFields(fms[..|fms| - 1]), fms[|fms| - 1])
  }

  function MapNames(fms: seq<FieldMapping>, projection: seq<FieldSelection>): FieldMap {
    if projection == [] then MapFields(fms)
    else RecordAlias(MapNames(fms, projection[..|projection| - 1]), projection[|projection| - 1])
  }

  method BuildFieldMap(fms: seq<FieldMapping>, projection: seq<FieldSelection>) returns (m: FieldMap)
    ensures m == MapNames(fms, projection)
  {
    m := map[];
    for i := 0 to |fms|
      invariant m == MapFields(fms[..i])
    {
      var fm := fms[i];
      m := m[Lower(fm.logicalName) := fm.physicalName];
      m := m[fm.logicalId := fm.physicalName];
      m := m[Lower(fm.physicalName) := fm.physicalName];
      m := m[fm.physicalName := fm.physicalName];
      assert fms[..i + 1][..i] == fms[..i];
    }
    assert fms[..|fms|] == fms;
    for i := 0 to |projection|
      invariant m == MapNames(fms, projection[..i])
    {
      var sel := projection[i];
      if HasAlias(sel) && Lower(sel.path.root) in m {
        m := m[Lower(sel.alias.value) := m[Lower(sel.path.root)]];
      }
      assert projection[..i + 1][..i] == projection[..i];
    }
    assert projection[..|projection|] == projection;
  }

  // ---------------------------------------------------------------- the rewriting

  function ResolvePath(m: FieldMap, p: FieldPath): FieldPath {
    if Lower(p.root) in m then FieldPath(m[Lower(p.root)], p.rest)
    else if p.root in m then FieldPath(m[p.root], p.rest)
    else p
  }

  function ResolveExpression(m: FieldMap, e: Expression): Expression {
    match e
    case FieldExpression(field, op, operand) => FieldExpression(ResolvePath(m, field), op, operand)
    case LogicalExpression(connective, left, right) =>
      LogicalExpression(connective, ResolveExpression(m, left), ResolveExpression(m, right))
    case NegationExpression(inner) => NegationExpression(ResolveExpression(m, inner))
  }

  /** Without an explicit alias, a renamed column is aliased back to the name the query used. */
  function ResolveSelection(m: FieldMap, sel: FieldSelection): FieldSelection {
    var path := ResolvePath(m, sel.path);
    FieldSelection(path, if sel.alias.None? && path.Leaf() != sel.path.Leaf() then Some(sel.path.Leaf()) else sel.alias)
  }

  function ResolveAssignment(m: FieldMap, a: MutationAssignment): MutationAssignment {
    MutationAssignment(ResolvePath(m, a.field), a.value)
  }

  /** f applied to every element. */
  function Mapped<A, B>(f: A -> B, s: seq<A>): (r: seq<B>)
    ensures |r| == |s| && forall i :: 0 <= i < |s| ==> r[i] == f(s[i])
  {
    seq(|s|, i requires 0 <= i < |s| => f(s[i]))
  }

  function Resolved(ir: AltrQueryIR, em: EntityMapping): AltrQueryIR {
    var m := MapNames(em.fields, ir.projection);
    AltrQueryIR(
      ir.operation,
      em.physicalName,
      Mapped(sel => ResolveSelection(m, sel), ir.projection),
      if ir.where.Some? then Some(ResolveExpression(m, ir.where.value)) else None,
      Mapped(a => ResolveAssignment(m, a), ir.assignments),
      Mapped((rec: CreateRecord) => CreateRecord(Mapped(a => ResolveAssignment(m, a), rec.assignments)), ir.records),
      Mapped((s: SortClause) => s.(field := ResolvePath(m, s.field)), ir.sort),
      if ir.ranking.Some? then Some(ir.ranking.value.(field := ResolvePath(m, ir.ranking.value.field))) else None,
      ir.limit,
      ir.offset)
  }

  method ResolveAssignments(m: FieldMap, assignments: seq<MutationAssignment>) returns (r: seq<MutationAssignment>)
    ensures r == Mapped(a => ResolveAssignment(m, a), assignments)
  {
    r := [];
    for i := 0 to |assignments|
      invariant |r| == i && forall k :: 0 <= k < i ==> r[k] == ResolveAssignment(m, assignments[k])
    {
      r := r + [MutationAssignment(ResolvePath(m, assignments[i].field), assignments[i].value)];
    }
  }

  method ResolveLogicalIr(ir: AltrQueryIR, ems: seq<EntityMapping>) returns (r: Option<AltrQueryIR>)
    ensures r.None? <==> forall i :: 0 <= i < |ems| ==> !MatchesEntity(ems[i], ir.entity)
    ensures r.Some? ==> exists i :: 0 <= i < |ems| && FirstMatch(ems, ir.entity, i) && r.value == Resolved(ir, ems[i])
  {
    hide FirstMatch, MatchesEntity, ResolveExpression, ResolvePath, MapNames;
    var found := FindEntityMapping(ems, ir.entity);
    if found.None? { return None; }
    var em := found.value;
    ghost var at :| 0 <= at < |ems| && FirstMatch(ems, ir.entity, at);
    var m := BuildFieldMap(em.fields, ir.projection);

    var projection: seq<FieldSelection> := [];
    for i := 0 to |ir.projection|
      invariant |projection| == i && forall k :: 0 <= k < i ==> projection[k] == ResolveSelection(m, ir.projection[k])
    {
      var sel := ir.projection[i];
      var path, alias := ResolvePath(m, sel.path), sel.alias;
      if alias.None? && path.Leaf() != sel.path.Leaf() { alias := Some(sel.path.Leaf()); }
      projection := projection + [FieldSelection(path, alias)];
    }
    var where := if ir.where.Some? then Some(ResolveExpression(m, ir.where.value)) else None;
    var assignments := ResolveAssignments(m, ir.assignments);
    var records: seq<CreateRecord> := [];
    for i := 0 to |ir.records|
      invariant |records| == i
      invariant forall k :: 0 <= k < i ==>
        records[k] == CreateRecord(Mapped(a => ResolveAssignment(m, a), ir.records[k].assignments))
    {
      var resolved := ResolveAssignments(m, ir.records[i].assignments);
      records := records + [CreateRecord(resolved)];
    }
    var sort: seq<SortClause> := [];
    for i := 0 to |ir.sort|
      invariant |sort| == i
      invariant forall k :: 0 <= k < i ==> sort[k] == ir.sort[k].(field := ResolvePath(m, ir.sort[k].field))
    {
      sort := sort + [SortClause(ResolvePath(m, ir.sort[i].field), ir.sort[i].direction)];
    }
    var ranking := None;
    if ir.ranking.Some? {
      ranking := Some(RankingClause(ir.ranking.value.direction, ir.ranking.value.count,
                                    ResolvePath(m, ir.ranking.value.field)));
    }
    var out := AltrQueryIR(ir.operation, em.physicalName, projection, where, assignments, records, sort, ranking,
                           ir.limit, ir.offset);
    assert out == Resolved(ir, em);
    return Some(out);
  }
}
