/**
 When a resolved query means what its author wrote. Names keep their meaning unless a later entry of the
 dictionary captures them; the condition is exact, and under it every clause of the query is preserved.
 */
module LogicalMeaning {
  import opened Text
  import opened Query
  import opened LogicalResolver

  // ---------------------------------------------------------------- what a name means

  /** The column of the first field whose logical name is r, whatever its case. */
  function Column(fms: seq<FieldMapping>, r: string): Option<string> {
    if fms == [] then None
    else if Lower(fms[0].logicalName) == Lower(r) then Some(fms[0].physicalName)
    else Column(fms[1..], r)
  }

  predicate AliasIs(sel: FieldSelection, r: string) { HasAlias(sel) && Lower(sel.alias.value) == Lower(r) }

  /**
   The physical path the author means by r: a logical field, or else the path that the last alias r in the
   projection stands for, with all its segments.
   */
  function Refers(fms: seq<FieldMapping>, projection: seq<FieldSelection>, r: string): Option<FieldPath> {
    if Column(fms, r).Some? then Some(FieldPath(Column(fms, r).value, []))
    else if projection == [] then None
    else
      var front, sel := projection[..|projection| - 1], projection[|projection| - 1];
      if AliasIs(sel, r) && Refers(fms, front, sel.path.root).Some? then
        var q := Refers(fms, front, sel.path.root).value;
        Some(FieldPath(q.root, q.rest + sel.path.rest))
      else Refers(fms, front, r)
  }

  /** What the paths of the query denote on a physical row. */
  function LogicalView(fms: seq<FieldMapping>, projection: seq<FieldSelection>, row: Row): View {
    (p: FieldPath) =>
      match Refers(fms, projection, p.root)
      case Some(q) => Descend(Get(row, q.root), q.rest + p.rest)
      case None => PhysicalView(row)(p)
  }

  // ---------------------------------------------------------------- who has the last word on a name

  predicate Claims(fm: FieldMapping, key: string) {
    key == Lower(fm.logicalName) || key == fm.logicalId || key == Lower(fm.physicalName) || key == fm.physicalName
  }

  function LastClaim(fms: seq<FieldMapping>, key: string): Option<string> {
    if fms == [] then None
    else if Claims(fms[|fms| - 1], key) then Some(fms[|fms| - 1].physicalName)
    else LastClaim(fms[..|fms| - 1], key)
  }

  function Binding(fms: seq<FieldMapping>, projection: seq<FieldSelection>, key: string): Option<string> {
    if projection == [] then LastClaim(fms, key)
    else
      var front, sel := projection[..|projection| - 1], projection[|projection| - 1];
      var target := Binding(fms, front, Lower(sel.path.root));
      if HasAlias(sel) && Lower(sel.alias.value) == key && target.Some? then target else Binding(fms, front, key)
  }

  /** The dictionary, filled front to back, agrees with the last word, looked up back to front. */
  lemma {:induction false} DictionaryIsLastWord(fms: seq<FieldMapping>, projection: seq<FieldSelection>, key: string)
    ensures key in MapNames(fms, projection) <==> Binding(fms, projection, key).Some?
    ensures key in MapNames(fms, projection) ==>
              MapNames(fms, projection)[key] == Binding(fms, projection, key).value
    decreases |projection|, |fms|
  {
    if projection != [] {
      var front, sel := projection[..|projection| - 1], projection[|projection| - 1];
      DictionaryIsLastWord(fms, front, key);
      DictionaryIsLastWord(fms, front, Lower(sel.path.root));
    } else if fms != [] {
      DictionaryIsLastWord(fms[..|fms| - 1], [], key);
    }
  }

  /** What a path is led to, without the dictionary: the last word on its root in lower case, then as it is spelled. */
  lemma RootByLastWord(fms: seq<FieldMapping>, projection: seq<FieldSelection>, p: FieldPath)
    ensures var lowered, spelled := Binding(fms, projection, Lower(p.root)), Binding(fms, projection, p.root);
            var root := if lowered.Some? then lowered.value else if spelled.Some? then spelled.value else p.root;
            ResolvePath(MapNames(fms, projection), p) == FieldPath(root, p.rest)
  {
    hide Lower, Binding, MapNames;
    DictionaryIsLastWord(fms, projection, Lower(p.root));
    DictionaryIsLastWord(fms, projection, p.root);
  }

  /** An alias enters the dictionary in lower case if it is not empty and its path is known. */
  lemma AliasRecorded(fms: seq<FieldMapping>, front: seq<FieldSelection>, sel: FieldSelection)
    ensures var m, known := MapNames(fms, front), Binding(fms, front, Lower(sel.path.root));
            MapNames(fms, front + [sel]) ==
              if known.Some? && sel.alias.Some? && sel.alias != Some("")
              then m[Lower(sel.alias.value) := known.value] else m
  {
    hide Lower, Binding;
    assert (front + [sel])[..|front|] == front;
    DictionaryIsLastWord(fms, front, Lower(sel.path.root));
  }

  lemma {:induction false} ClaimedKeyIsBound(
    fms: seq<FieldMapping>, projection: seq<FieldSelection>, i: nat, key: string)
    requires i < |fms| && Claims(fms[i], key)
    ensures Binding(fms, projection, key).Some?
    decreases |projection|, |fms|
  {
    hide Claims, Lower;
    if projection != [] {
      ClaimedKeyIsBound(fms, projection[..|projection| - 1], i, key);
    } else if i < |fms| - 1 {
      assert fms[..|fms| - 1][i] == fms[i];
      ClaimedKeyIsBound(fms[..|fms| - 1], [], i, key);
    }
  }

  /** The column that a name spelled just so has, if it is an entry, or else the name. */
  function Spelled(fms: seq<FieldMapping>, projection: seq<FieldSelection>, r: string): string {
    if Binding(fms, projection, r).Some? then Binding(fms, projection, r).value else r
  }

  /**
   Case does not matter exactly if the name in lower case is an entry of the dictionary, or both spellings are led to
   the same column as they are. It is an entry for every logical and every physical name.
   */
  lemma PathCaseExactly(
    fms: seq<FieldMapping>, projection: seq<FieldSelection>, r: string, t: string, rest: seq<string>)
    requires SameLetters(r, t)
    ensures var m := MapNames(fms, projection);
            ResolvePath(m, FieldPath(r, rest)) == ResolvePath(m, FieldPath(t, rest)) <==>
              Binding(fms, projection, Lower(r)).Some? || Spelled(fms, projection, r) == Spelled(fms, projection, t)
    ensures (exists i :: 0 <= i < |fms| &&
               (SameLetters(fms[i].logicalName, r) || SameLetters(fms[i].physicalName, r))) ==>
              Binding(fms, projection, Lower(r)).Some?
  {
    hide Lower, Binding, MapNames, ResolvePath, SameLetters;
    LowerEqualExactly(r, t);
    RootByLastWord(fms, projection, FieldPath(r, rest));
    RootByLastWord(fms, projection, FieldPath(t, rest));
    if i :| 0 <= i < |fms| && (SameLetters(fms[i].logicalName, r) || SameLetters(fms[i].physicalName, r)) {
      LowerEqualExactly(fms[i].logicalName, r);
      LowerEqualExactly(fms[i].physicalName, r);
      ClaimedKeyIsBound(fms, projection, i, Lower(r));
    }
  }

  /** It matters for ids: they are entries as they are spelled. */
  lemma IdCaseMatters(fm: FieldMapping, t: string, rest: seq<string>)
    requires SameLetters(fm.logicalId, t) && fm.logicalId != t && fm.logicalId != Lower(t)
    requires !SameLetters(fm.logicalName, t) && !SameLetters(fm.physicalName, t)
    ensures var m := MapNames([fm], []);
            && ResolvePath(m, FieldPath(fm.logicalId, rest)) == FieldPath(fm.physicalName, rest)
            && ResolvePath(m, FieldPath(t, rest)) == FieldPath(t, rest) && t != fm.physicalName
  {
    LowerEqualExactly(fm.logicalId, t);
    LowerEqualExactly(fm.logicalName, t);
    LowerEqualExactly(fm.physicalName, t);
    hide Lower, Binding, MapNames, ResolvePath, SameLetters;
    LowerTwice(fm.logicalName);
    LowerTwice(fm.physicalName);
    LowerTwice(t);
    OneClaim(fm, Lower(t));
    OneClaim(fm, fm.logicalId);
    OneClaim(fm, t);
    RootByLastWord([fm], [], FieldPath(fm.logicalId, rest));
    RootByLastWord([fm], [], FieldPath(t, rest));
  }

  lemma OneClaim(fm: FieldMapping, key: string)
    ensures Binding([fm], [], key) == if Claims(fm, key) then Some(fm.physicalName) else None
  {
    var one := [fm];
    assert |one| == 1 && one[..|one| - 1] == [] && LastClaim([], key) == None;
    assert Binding(one, [], key) == LastClaim(one, key);
  }

  lemma LowerTwice(s: string)
    ensures Lower(Lower(s)) == Lower(s)
  {
    forall i | 0 <= i < |s| ensures Lower(Lower(s))[i] == Lower(s)[i] {
      LowerAt(s, i);
      LowerAt(Lower(s), i);
    }
  }

  /** The name leads the resolver to the very column it means, and it means a whole column. */
  predicate Kept(fms: seq<FieldMapping>, projection: seq<FieldSelection>, r: string) {
    Refers(fms, projection, r).Some? ==>
      Refers(fms, projection, r).value.rest == []
      && Binding(fms, projection, Lower(r)) == Some(Refers(fms, projection, r).value.root)
  }

  predicate FieldsKept(fms: seq<FieldMapping>, projection: seq<FieldSelection>) {
    forall i :: 0 <= i < |fms| ==> Kept(fms, projection, fms[i].logicalName)
  }

  /** Every logical name and every alias is kept: a check on names alone. */
  predicate NamesKept(fms: seq<FieldMapping>, projection: seq<FieldSelection>) {
    && FieldsKept(fms, projection)
    && forall i :: 0 <= i < |projection| && HasAlias(projection[i]) ==> Kept(fms, projection, projection[i].alias.value)
  }

  lemma {:induction false} ColumnCase(fms: seq<FieldMapping>, r: string, t: string)
    requires Lower(r) == Lower(t)
    ensures Column(fms, r) == Column(fms, t)
  {
    if fms != [] { ColumnCase(fms[1..], r, t); }
  }

  lemma {:induction false} RefersCase(fms: seq<FieldMapping>, projection: seq<FieldSelection>, r: string, t: string)
    requires Lower(r) == Lower(t)
    ensures Refers(fms, projection, r) == Refers(fms, projection, t)
  {
    ColumnCase(fms, r, t);
    if projection != [] { RefersCase(fms, projection[..|projection| - 1], r, t); }
  }

  lemma {:induction false} ColumnName(fms: seq<FieldMapping>, r: string) returns (i: nat)
    requires Column(fms, r).Some?
    ensures i < |fms| && Lower(fms[i].logicalName) == Lower(r)
  {
    if Lower(fms[0].logicalName) == Lower(r) {
      i := 0;
    } else {
      i := ColumnName(fms[1..], r);
      i := i + 1;
    }
  }

  lemma {:induction false} RefersName(fms: seq<FieldMapping>, projection: seq<FieldSelection>, r: string)
    requires Refers(fms, projection, r).Some?
    ensures (exists i :: 0 <= i < |fms| && Lower(fms[i].logicalName) == Lower(r))
         || (exists i :: 0 <= i < |projection| && AliasIs(projection[i], r))
  {
    if Column(fms, r).Some? {
      var i := ColumnName(fms, r);
    } else {
      var front, sel := projection[..|projection| - 1], projection[|projection| - 1];
      if AliasIs(sel, r) {
        assert AliasIs(projection[|projection| - 1], r);
      } else {
        RefersName(fms, front, r);
        if i :| 0 <= i < |front| && AliasIs(front[i], r) {
          assert AliasIs(projection[i], r);
        }
      }
    }
  }

  /** The check on the listed names covers every spelling a query can use. */
  lemma {:induction false} KeptEverywhere(fms: seq<FieldMapping>, projection: seq<FieldSelection>, r: string)
    requires NamesKept(fms, projection)
    ensures Kept(fms, projection, r)
  {
    if Refers(fms, projection, r).Some? {
      RefersName(fms, projection, r);
      if i :| 0 <= i < |fms| && Lower(fms[i].logicalName) == Lower(r) {
        RefersCase(fms, projection, r, fms[i].logicalName);
        assert Kept(fms, projection, fms[i].logicalName);
      } else {
        var i :| 0 <= i < |projection| && AliasIs(projection[i], r);
        RefersCase(fms, projection, r, projection[i].alias.value);
        assert Kept(fms, projection, projection[i].alias.value);
      }
    }
  }

  // ---------------------------------------------------------------- preservation of WHERE

  /** Every path of e starts with a name that means something. */
  predicate Understood(fms: seq<FieldMapping>, projection: seq<FieldSelection>, p: FieldPath) {
    Refers(fms, projection, p.root).Some?
  }

  /** The tests of a tree, from the left to the right. */
  function Tests(e: Expression): seq<(FieldPath, Operator, Operand)> {
    match e
    case FieldExpression(field, op, operand) => [(field, op, operand)]
    case LogicalExpression(_, left, right) => Tests(left) + Tests(right)
    case NegationExpression(inner) => Tests(inner)
  }

  /** Resolution keeps the tests in their order, with their operators and operands, and leads only their paths. */
  lemma {:induction false} TestsKept(m: FieldMap, e: Expression)
    ensures Tests(ResolveExpression(m, e)) ==
              Mapped((t: (FieldPath, Operator, Operand)) => (ResolvePath(m, t.0), t.1, t.2), Tests(e))
  {
    hide ResolvePath;
    match e
    case FieldExpression(_, _, _) =>
    case NegationExpression(inner) => TestsKept(m, inner);
    case LogicalExpression(_, left, right) =>
      TestsKept(m, left);
      TestsKept(m, right);
  }

  /** The resolved WHERE tree has on the physical row the outcome of the original on its logical view. */
  predicate SameOutcome(
    fms: seq<FieldMapping>, projection: seq<FieldSelection>, e: Expression, row: Row, clock: Clock)
  {
    Eval(ResolveExpression(MapNames(fms, projection), e), PhysicalView(row), clock)
      == Eval(e, LogicalView(fms, projection, row), clock)
  }

  ghost predicate WherePreserved(fms: seq<FieldMapping>, projection: seq<FieldSelection>) {
    forall e: Expression, row: Row, clock: Clock
      | (forall p :: p in Paths(e) ==> Understood(fms, projection, p)) :: SameOutcome(fms, projection, e, row, clock)
  }

  lemma {:induction false} PathPreserved(
    fms: seq<FieldMapping>, projection: seq<FieldSelection>, p: FieldPath, row: Row)
    requires Understood(fms, projection, p) && Kept(fms, projection, p.root)
    ensures PhysicalView(row)(ResolvePath(MapNames(fms, projection), p)) == LogicalView(fms, projection, row)(p)
  {
    DictionaryIsLastWord(fms, projection, Lower(p.root));
    assert [] + p.rest == p.rest;
  }

  lemma {:induction false} ExpressionPreserved(
    fms: seq<FieldMapping>, projection: seq<FieldSelection>, e: Expression, row: Row, clock: Clock)
    requires forall p :: p in Paths(e) ==> Understood(fms, projection, p) && Kept(fms, projection, p.root)
    ensures SameOutcome(fms, projection, e, row, clock)
  {
    match e
    case FieldExpression(field, _, _) =>
      PathPreserved(fms, projection, field, row);
    case LogicalExpression(_, left, right) =>
      ExpressionPreserved(fms, projection, left, row, clock);
      ExpressionPreserved(fms, projection, right, row, clock);
    case NegationExpression(inner) =>
      ExpressionPreserved(fms, projection, inner, row, clock);
  }

  /** A name that means something has an entry in the dictionary. */
  lemma {:induction false} RefersIsBound(fms: seq<FieldMapping>, projection: seq<FieldSelection>, r: string)
    requires Refers(fms, projection, r).Some?
    ensures Binding(fms, projection, Lower(r)).Some?
    decreases |projection|
  {
    if Column(fms, r).Some? {
      ColumnIsBound(fms, projection, r);
    } else {
      var front, sel := projection[..|projection| - 1], projection[|projection| - 1];
      if AliasIs(sel, r) && Refers(fms, front, sel.path.root).Some? {
        RefersIsBound(fms, front, sel.path.root);
      } else {
        RefersIsBound(fms, front, r);
      }
    }
  }

  lemma {:induction false} ColumnIsBound(fms: seq<FieldMapping>, projection: seq<FieldSelection>, r: string)
    requires Column(fms, r).Some?
    ensures Binding(fms, projection, Lower(r)).Some?
    decreases |projection|
  {
    if projection != [] {
      ColumnIsBound(fms, projection[..|projection| - 1], r);
    } else {
      var i := ColumnName(fms, r);
      ClaimedIsBound(fms, i);
    }
  }

  lemma {:induction false} ClaimedIsBound(fms: seq<FieldMapping>, i: nat)
    requires i < |fms|
    ensures LastClaim(fms, Lower(fms[i].logicalName)).Some?
  {
    if i < |fms| - 1 {
      assert fms[..|fms| - 1][i] == fms[i];
      ClaimedIsBound(fms[..|fms| - 1], i);
    }
  }

  /** A name that is not kept is told apart by an equality test on some row. */
  lemma {:induction false} NotKeptIsSeen(fms: seq<FieldMapping>, projection: seq<FieldSelection>, r: string)
    requires !Kept(fms, projection, r)
    ensures !WherePreserved(fms, projection)
  {
    RefersIsBound(fms, projection, r);
    DictionaryIsLastWord(fms, projection, Lower(r));
    var meant, bound := Refers(fms, projection, r).value, Binding(fms, projection, Lower(r)).value;
    var p := FieldPath(r, []);
    var e := FieldExpression(p, Compare(EQ), Scalar(StringLiteral("1")));
    var row := if meant.rest == [] then map[meant.root := Value.Text("1")] else map[bound := Value.Text("1")];
    var clock := Clock("", "");
    assert meant.rest + [] == meant.rest;
    assert ResolvePath(MapNames(fms, projection), p) == FieldPath(bound, []);
    assert forall q :: q in Paths(e) ==> Understood(fms, projection, q);
    assert !SameOutcome(fms, projection, e, row, clock);
  }

  /**
   Resolution preserves every WHERE tree over mapped fields and aliases, on every row, exactly when no name
   is captured.
   */
  lemma WherePreservedExactly(fms: seq<FieldMapping>, projection: seq<FieldSelection>)
    ensures WherePreserved(fms, projection) <==> NamesKept(fms, projection)
  {
    if NamesKept(fms, projection) {
      forall e: Expression, row: Row, clock: Clock | (forall p :: p in Paths(e) ==> Understood(fms, projection, p))
        ensures SameOutcome(fms, projection, e, row, clock)
      {
        forall p | p in Paths(e) ensures Kept(fms, projection, p.root) { KeptEverywhere(fms, projection, p.root); }
        ExpressionPreserved(fms, projection, e, row, clock);
      }
    } else if i :| 0 <= i < |fms| && !Kept(fms, projection, fms[i].logicalName) {
      NotKeptIsSeen(fms, projection, fms[i].logicalName);
    } else {
      var i :| 0 <= i < |projection| && HasAlias(projection[i]) && !Kept(fms, projection, projection[i].alias.value);
      NotKeptIsSeen(fms, projection, projection[i].alias.value);
    }
  }

  // ---------------------------------------------------------------- the whole query

  /** All that a row contributes to the answer of a query. */
  datatype Contribution = Contribution(
    selected: Outcome, sortKeys: seq<Value>, rankKey: Option<Value>, output: seq<(string, Value)>)

  /** The column name under which a selection is returned. */
  function OutputName(sel: FieldSelection): string {
    if sel.alias.Some? then sel.alias.value else sel.path.Leaf()
  }

  function Contribute(ir: AltrQueryIR, view: View, clock: Clock): Contribution {
    Contribution(
      if ir.where.Some? then Eval(ir.where.value, view, clock) else Some(true),
      Mapped((s: SortClause) => view(s.field), ir.sort),
      if ir.ranking.Some? then Some(view(ir.ranking.value.field)) else None,
      Mapped((sel: FieldSelection) => (OutputName(sel), view(sel.path)), ir.projection))
  }

  /** The path starts with a name that means something and is kept. */
  predicate Led(fms: seq<FieldMapping>, projection: seq<FieldSelection>, p: FieldPath) {
    Understood(fms, projection, p) && Kept(fms, projection, p.root)
  }

  /** Every path that the query uses is led to what it means; aliases that it does not use do not matter. */
  ghost predicate LedQuery(fms: seq<FieldMapping>, ir: AltrQueryIR) {
    && (ir.where.Some? ==> forall p :: p in Paths(ir.where.value) ==> Led(fms, ir.projection, p))
    && (forall i :: 0 <= i < |ir.sort| ==> Led(fms, ir.projection, ir.sort[i].field))
    && (ir.ranking.Some? ==> Led(fms, ir.projection, ir.ranking.value.field))
    && (forall i :: 0 <= i < |ir.projection| ==> Led(fms, ir.projection, ir.projection[i].path))
  }

  /**
   If no name that the query uses is captured, the resolved query filters, sorts, ranks and returns every physical
   row exactly as the original query treats that row's logical view, under the column names the author expects.
   */
  lemma ResolvedQueryAnswersTheSame(ir: AltrQueryIR, em: EntityMapping, row: Row, clock: Clock)
    requires LedQuery(em.fields, ir)
    ensures Contribute(Resolved(ir, em), PhysicalView(row), clock)
         == Contribute(ir, LogicalView(em.fields, ir.projection, row), clock)
    ensures var out := Resolved(ir, em);
            out.operation == ir.operation && out.limit == ir.limit && out.offset == ir.offset
            && (forall i :: 0 <= i < |ir.sort| ==> out.sort[i].direction == ir.sort[i].direction)
            && (ir.ranking.Some? ==>
                  (out.ranking.value.direction == ir.ranking.value.direction
                   && out.ranking.value.count == ir.ranking.value.count))
  {
    hide Kept, Understood, LogicalView, PhysicalView, ResolvePath, MapNames;
    var fms, proj := em.fields, ir.projection;
    var out, m := Resolved(ir, em), MapNames(fms, proj);
    var a := Contribute(out, PhysicalView(row), clock);
    var b := Contribute(ir, LogicalView(fms, proj, row), clock);
    forall p: FieldPath | Led(fms, proj, p)
      ensures PhysicalView(row)(ResolvePath(m, p)) == LogicalView(fms, proj, row)(p)
    {
      PathPreserved(fms, proj, p, row);
    }
    if ir.where.Some? {
      ExpressionPreserved(fms, proj, ir.where.value, row, clock);
      assert SameOutcome(fms, proj, ir.where.value, row, clock);
    }
    assert a.sortKeys == b.sortKeys;
    assert a.output == b.output;
  }

  /** Output names survive resolution even when names are captured: the alias, or else the last segment of the path. */
  lemma OutputNamesKept(m: FieldMap, sel: FieldSelection)
    ensures OutputName(ResolveSelection(m, sel)) == OutputName(sel)
    ensures var segments := [sel.path.root] + sel.path.rest;
            OutputName(sel) == if sel.alias.Some? then sel.alias.value else segments[|segments| - 1]
  {
  }

  // ---------------------------------------------------------------- when names are kept

  /** Different columns share no key. */
  predicate NoSharedKey(fms: seq<FieldMapping>) {
    forall i, j, key | 0 <= i < |fms| && 0 <= j < |fms| && key in KeysOf(fms[i]) && key in KeysOf(fms[j]) ::
      fms[i].physicalName == fms[j].physicalName
  }

  function KeysOf(fm: FieldMapping): set<string> {
    {Lower(fm.logicalName), fm.logicalId, Lower(fm.physicalName), fm.physicalName}
  }

  /** Aliases are new names, each given once. */
  predicate FreshAliases(fms: seq<FieldMapping>, projection: seq<FieldSelection>) {
    forall i | 0 <= i < |projection| && HasAlias(projection[i]) ::
      && (forall j | 0 <= j < |fms| :: Lower(projection[i].alias.value) !in KeysOf(fms[j]))
      && (forall j | 0 <= j < |projection| && j != i && HasAlias(projection[j]) ::
            Lower(projection[j].alias.value) != Lower(projection[i].alias.value))
  }

  lemma {:induction false} SharedClaim(fms: seq<FieldMapping>, key: string, i: nat)
    requires NoSharedKey(fms) && i < |fms| && key in KeysOf(fms[i])
    ensures LastClaim(fms, key) == Some(fms[i].physicalName)
  {
    var last := |fms| - 1;
    if Claims(fms[last], key) {
      assert key in KeysOf(fms[last]);
    } else {
      assert fms[..last][i] == fms[i];
      assert NoSharedKey(fms[..last]);
      SharedClaim(fms[..last], key, i);
    }
  }

  lemma {:induction false} ColumnClaim(fms: seq<FieldMapping>, r: string) returns (i: nat)
    requires Column(fms, r).Some?
    ensures i < |fms| && Lower(fms[i].logicalName) == Lower(r) && Column(fms, r) == Some(fms[i].physicalName)
  {
    if Lower(fms[0].logicalName) == Lower(r) {
      i := 0;
    } else {
      i := ColumnClaim(fms[1..], r);
      i := i + 1;
    }
  }

  lemma {:induction false} KeyKept(fms: seq<FieldMapping>, projection: seq<FieldSelection>, key: string, i: nat)
    requires NoSharedKey(fms) && FreshAliases(fms, projection) && i < |fms| && key in KeysOf(fms[i])
    ensures Binding(fms, projection, key) == Some(fms[i].physicalName)
    decreases |projection|
  {
    if projection == [] { SharedClaim(fms, key, i); } else { KeyKept(fms, projection[..|projection| - 1], key, i); }
  }

  lemma LogicalNameKept(fms: seq<FieldMapping>, projection: seq<FieldSelection>, r: string)
    requires NoSharedKey(fms) && FreshAliases(fms, projection) && Column(fms, r).Some?
    ensures Binding(fms, projection, Lower(r)) == Column(fms, r)
  {
    var i := ColumnClaim(fms, r);
    KeyKept(fms, projection, Lower(r), i);
  }

  /**
   Without shared keys and with fresh aliases, a path is led to the column of a field by its logical or physical name
   in any case, and by its id unless the id in lower case is another entry.
   */
  lemma EveryNameLeads(
    fms: seq<FieldMapping>, projection: seq<FieldSelection>, r: string, rest: seq<string>, i: nat)
    requires NoSharedKey(fms) && FreshAliases(fms, projection) && i < |fms|
    requires || SameLetters(r, fms[i].logicalName)
             || SameLetters(r, fms[i].physicalName)
             || (r == fms[i].logicalId && (Lower(r) == r || Binding(fms, projection, Lower(r)).None?))
    ensures ResolvePath(MapNames(fms, projection), FieldPath(r, rest)) == FieldPath(fms[i].physicalName, rest)
  {
    LowerEqualExactly(r, fms[i].logicalName);
    LowerEqualExactly(r, fms[i].physicalName);
    hide Lower, MapNames, ResolvePath, SameLetters, NoSharedKey, FreshAliases;
    if Lower(r) in KeysOf(fms[i]) { KeyKept(fms, projection, Lower(r), i); }
    if r in KeysOf(fms[i]) { KeyKept(fms, projection, r, i); }
    RootByLastWord(fms, projection, FieldPath(r, rest));
  }

  /** The name means a whole column, and not a path inside one. */
  predicate MeansColumn(fms: seq<FieldMapping>, projection: seq<FieldSelection>, r: string) {
    Refers(fms, projection, r).Some? ==> Refers(fms, projection, r).value.rest == []
  }

  lemma {:induction false} AnyRootKept(fms: seq<FieldMapping>, projection: seq<FieldSelection>, r: string)
    requires NoSharedKey(fms) && FreshAliases(fms, projection) && Refers(fms, projection, r).Some?
    ensures Binding(fms, projection, Lower(r)) == Some(Refers(fms, projection, r).value.root)
    decreases |projection|
  {
    if Column(fms, r).Some? {
      LogicalNameKept(fms, projection, r);
    } else {
      var front, sel := projection[..|projection| - 1], projection[|projection| - 1];
      if AliasIs(sel, r) && Refers(fms, front, sel.path.root).Some? {
        AnyRootKept(fms, front, sel.path.root);
      } else {
        AnyRootKept(fms, front, r);
        if AliasIs(sel, r) { RefersName(fms, front, r); }
      }
    }
  }

  /**
   Without shared keys and with fresh aliases, a name is kept exactly if it means a whole column: only an alias of a
   nested path is lost, and only if the query uses it.
   */
  lemma DistinctNamesSuffice(fms: seq<FieldMapping>, projection: seq<FieldSelection>)
    requires NoSharedKey(fms) && FreshAliases(fms, projection)
    ensures forall r: string :: Kept(fms, projection, r) <==> MeansColumn(fms, projection, r)
    ensures WherePreserved(fms, projection) <==>
              forall i :: 0 <= i < |projection| && HasAlias(projection[i]) ==>
                MeansColumn(fms, projection, projection[i].alias.value)
  {
    forall r: string ensures Kept(fms, projection, r) <==> MeansColumn(fms, projection, r) {
      if Refers(fms, projection, r).Some? { AnyRootKept(fms, projection, r); }
    }
    hide Kept;
    forall i | 0 <= i < |fms| ensures MeansColumn(fms, projection, fms[i].logicalName) {
      NamedColumn(fms, i);
    }
    WherePreservedExactly(fms, projection);
  }

  lemma {:induction false} NamedColumn(fms: seq<FieldMapping>, i: nat)
    requires i < |fms|
    ensures Column(fms, fms[i].logicalName).Some?
  {
    if i > 0 { NamedColumn(fms[1..], i - 1); }
  }

  /** A nested path can be selected under an alias: as long as the query does not use the alias, it is preserved. */
  lemma UnusedNestedAliasIsHarmless(fms: seq<FieldMapping>, sel: FieldSelection)
    requires NoSharedKey(fms) && FreshAliases(fms, [sel])
    requires HasAlias(sel) && sel.path.rest != [] && Column(fms, sel.path.root).Some?
    ensures Led(fms, [sel], sel.path) && !NamesKept(fms, [sel])
  {
    hide Kept, Column;
    DistinctNamesSuffice(fms, [sel]);
    assert [sel][0] == sel && [sel][..0] == [];
    var alias := sel.alias.value;
    assert Column(fms, alias).None? by { if Column(fms, alias).Some? { var i := ColumnClaim(fms, alias); } }
    assert Refers(fms, [], sel.path.root) == Some(FieldPath(Column(fms, sel.path.root).value, []));
    assert [] + sel.path.rest == sel.path.rest;
    assert !MeansColumn(fms, [sel], alias);
  }

  // ---------------------------------------------------------------- captured names

  lemma LowerLetter(c: char)
    requires 'a' <= c <= 'z'
    ensures Lower([c]) == [c]
  {
    assert [c][1..] == [];
  }

  /** A physical name can capture a logical one, and whether it does depends on the order of the mappings. */
  lemma PhysicalNameCaptures()
    ensures var first, second := FieldMapping("1", "a", "x"), FieldMapping("2", "b", "a");
            !NamesKept([first, second], []) && NamesKept([second, first], [])
  {
    var first, second := FieldMapping("1", "a", "x"), FieldMapping("2", "b", "a");
    LowerLetter('a');
    LowerLetter('b');
    LowerLetter('x');
    var bad, good := [first, second], [second, first];
    assert Column(bad, "a") == Some("x") && LastClaim(bad, "a") == Some("a");
    assert !Kept(bad, [], bad[0].logicalName);
    assert good[..1] == [second] && good[1..] == [first];
    assert Column(good, "b") == Some("a") && LastClaim([second], "b") == Some("a") && LastClaim(good, "b") == Some("a");
    assert Column([first], "a") == Some("x") && Column(good, "a") == Some("x") && LastClaim(good, "a") == Some("x");
  }

  /** An alias that is also a field name takes the field's place in WHERE. */
  lemma AliasCaptures()
    ensures var fms := [FieldMapping("1", "a", "x"), FieldMapping("2", "b", "y")];
            !NamesKept(fms, [FieldSelection(FieldPath("b", []), Some("a"))])
  {
    var fms := [FieldMapping("1", "a", "x"), FieldMapping("2", "b", "y")];
    var sel := FieldSelection(FieldPath("b", []), Some("a"));
    LowerLetter('a');
    LowerLetter('b');
    assert [sel][..0] == [];
    assert Binding(fms, [], "b") == Some("y");
    assert Binding(fms, [sel], "a") == Some("y") && Column(fms, "a") == Some("x");
    assert !Kept(fms, [sel], fms[0].logicalName);
  }

  /** An alias of a nested path is resolved to the whole column: its inner segments are lost. */
  lemma NestedAliasLosesPath(fms: seq<FieldMapping>, sel: FieldSelection)
    requires HasAlias(sel) && Column(fms, sel.alias.value).None?
    requires Refers(fms, [], sel.path.root).Some? && Kept(fms, [], sel.path.root)
    ensures Kept(fms, [sel], sel.alias.value) <==> sel.path.rest == []
  {
    assert [sel][..0] == [];
    assert Refers(fms, [], sel.path.root) == Some(FieldPath(Column(fms, sel.path.root).value, []));
    assert [] + sel.path.rest == sel.path.rest;
    assert Refers(fms, [sel], sel.alias.value) == Some(FieldPath(Column(fms, sel.path.root).value, sel.path.rest));
  }

  // ---------------------------------------------------------------- assignments through the mapping

  /** The row after the assignments to whole columns. */
  function Assign(row: Row, assignments: seq<MutationAssignment>, clock: Clock): Row {
    if assignments == [] then row
    else
      var last := assignments[|assignments| - 1];
      Assign(row, assignments[..|assignments| - 1], clock)[last.field.root := Denote(last.value, clock)]
  }

  /** The literal last assigned to the logical field r. */
  function Assigned(assignments: seq<MutationAssignment>, r: string): Option<Literal> {
    if assignments == [] then None
    else if Lower(assignments[|assignments| - 1].field.root) == Lower(r) then
      Some(assignments[|assignments| - 1].value)
    else Assigned(assignments[..|assignments| - 1], r)
  }

  /** Fields with different names are stored in different columns. */
  predicate OwnColumns(fms: seq<FieldMapping>) {
    forall r, s | 0 <= r < |fms| && 0 <= s < |fms| && fms[r].physicalName == fms[s].physicalName ::
      Lower(fms[r].logicalName) == Lower(fms[s].logicalName)
  }

  function ResolvedAssignments(fms: seq<FieldMapping>, assignments: seq<MutationAssignment>): seq<MutationAssignment> {
    Mapped(a => ResolveAssignment(MapNames(fms, []), a), assignments)
  }

  lemma ViewOfField(fms: seq<FieldMapping>, row: Row, r: string)
    requires Column(fms, r).Some?
    ensures LogicalView(fms, [], row)(FieldPath(r, [])) == Get(row, Column(fms, r).value)
  {
    var p, q := FieldPath(r, []), FieldPath(Column(fms, r).value, []);
    assert Refers(fms, [], p.root) == Some(q);
    assert q.rest + p.rest == [];
    assert LogicalView(fms, [], row)(p) == Descend(Get(row, q.root), q.rest + p.rest);
    assert Descend(Get(row, q.root), []) == Get(row, q.root);
  }

  lemma {:induction false} ColumnsApart(fms: seq<FieldMapping>, r: string, s: string)
    requires OwnColumns(fms) && Column(fms, r).Some? && Column(fms, r) == Column(fms, s)
    ensures Lower(r) == Lower(s)
  {
    var i := ColumnClaim(fms, r);
    var j := ColumnClaim(fms, s);
  }

  /**
   An UPDATE through the mapping is an update of the logical view: an assigned field shows its last assigned
   value, and every other field shows what it showed before.
   */
  lemma {:induction false} UpdateThroughMapping(
    fms: seq<FieldMapping>, assignments: seq<MutationAssignment>, row: Row, clock: Clock, r: string)
    requires NamesKept(fms, []) && OwnColumns(fms) && Column(fms, r).Some?
    requires forall i :: 0 <= i < |assignments| ==>
               assignments[i].field.rest == [] && Column(fms, assignments[i].field.root).Some?
    ensures var p := FieldPath(r, []);
            LogicalView(fms, [], Assign(row, ResolvedAssignments(fms, assignments), clock))(p) ==
              match Assigned(assignments, r)
              case Some(lit) => Denote(lit, clock)
              case None => LogicalView(fms, [], row)(p)
  {
    hide LogicalView;
    var n, out := |assignments|, ResolvedAssignments(fms, assignments);
    ViewOfField(fms, row, r);
    ViewOfField(fms, Assign(row, out, clock), r);
    if n > 0 {
      var front, last := assignments[..n - 1], assignments[n - 1];
      ViewOfField(fms, Assign(row, ResolvedAssignments(fms, front), clock), r);
      UpdateThroughMapping(fms, front, row, clock, r);
      assert out[..n - 1] == ResolvedAssignments(fms, front);
      KeptEverywhere(fms, [], last.field.root);
      DictionaryIsLastWord(fms, [], Lower(last.field.root));
      assert out[n - 1].field.root == Column(fms, last.field.root).value;
      ColumnCaseOrApart(fms, r, last.field.root);
    }
  }

  lemma {:induction false} ColumnCaseOrApart(fms: seq<FieldMapping>, r: string, s: string)
    requires OwnColumns(fms) && Column(fms, r).Some?
    ensures Column(fms, r) == Column(fms, s) <==> Lower(r) == Lower(s)
  {
    if Lower(r) == Lower(s) {
      ColumnCase(fms, r, s);
    } else if Column(fms, r) == Column(fms, s) {
      ColumnsApart(fms, r, s);
    }
  }

  /** Fields that share a column cannot be updated apart. */
  lemma SharedColumnUpdatesBoth(fms: seq<FieldMapping>, r: string, s: string, row: Row, lit: Literal, clock: Clock)
    requires NamesKept(fms, []) && Column(fms, r).Some? && Column(fms, s).Some?
    requires LogicalView(fms, [], row)(FieldPath(r, [])) != Denote(lit, clock)
    ensures var after := Assign(row, ResolvedAssignments(fms, [MutationAssignment(FieldPath(s, []), lit)]), clock);
            (LogicalView(fms, [], after)(FieldPath(r, [])) == LogicalView(fms, [], row)(FieldPath(r, [])))
            <==> Column(fms, r) != Column(fms, s)
  {
    hide LogicalView;
    var a := MutationAssignment(FieldPath(s, []), lit);
    var out := ResolvedAssignments(fms, [a]);
    KeptEverywhere(fms, [], s);
    DictionaryIsLastWord(fms, [], Lower(s));
    assert out[..0] == [] && out[0].field.root == Column(fms, s).value;
    ViewOfField(fms, row, r);
    ViewOfField(fms, Assign(row, out, clock), r);
  }
}
