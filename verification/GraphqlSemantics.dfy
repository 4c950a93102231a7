// What a GraphQL query means over a snapshot of the entities: a value for each field, found one
// instance at a time, or the first failure.
module GraphqlSemantics {
  import opened Options
  import opened Entities

  datatype Field =
    | Scalar(name: string, alias: Option<string>)
    | Complex(name: string, alias: Option<string>, selections: seq<Field>)

  datatype Json = Leaf(v: Value) | Object(members: map<string, Json>) | Array(items: seq<Json>)

  type Row = map<string, Json>

  /** Where a field is asked for: at the top of the query, or at an instance of an entity. */
  datatype Place = Top | At(entity: string, inst: Instance)

  function ResponseKey(f: Field): string {
    if f.alias.Some? then f.alias.value else f.name
  }

  /** The first value for a response key stays. */
  function Extend(row: Row, key: string, v: Json): Row {
    if key in row then row else row[key := v]
  }

  function ConditionsAt(w: World, at: Place, name: string): seq<Condition> {
    if at.At? && at.entity in w.schema then
      var relation := FirstRelation(w.schema[at.entity].relations, name);
      if relation.Some? then ConditionsOf(relation.value.rules, Some(at.inst)) else []
    else []
  }

  /** The instances of the named entity that belong to a place: all of them at the top. */
  function Related(w: World, at: Place, name: string): seq<Instance> {
    Select(Instances(w, name), ConditionsAt(w, at, name))
  }

  function Shape(isArray: bool, rows: seq<Json>): Json {
    if isArray || |rows| > 1 then Array(rows)
    else if |rows| == 1 then rows[0]
    else Object(map[])
  }

  function FieldValue(w: World, at: Place, f: Field): Json
    decreases f, 0
  {
    match f
    case Scalar(_, _) => Leaf(if at.Top? then Null else at.inst.Field(f.name))
    case Complex(_, _, selections) =>
      var related := Related(w, at, f.name);
      Shape(f.name in w.schema && w.schema[f.name].isArray, RowsAt(w, f.name, related, selections))
  }

  /** One row for each instance. */
  function RowsAt(w: World, entity: string, instances: seq<Instance>, fields: seq<Field>): seq<Json>
    decreases fields, 1
  {
    seq(|instances|, i requires 0 <= i < |instances| => Object(RowOf(w, At(entity, instances[i]), fields, map[])))
  }

  /** A row supplemented by a list of fields, in order. */
  function RowOf(w: World, at: Place, fields: seq<Field>, row: Row): Row
    decreases fields, 0
  {
    if fields == [] then row
    else RowOf(w, at, fields[1..], Extend(row, ResponseKey(fields[0]), FieldValue(w, at, fields[0])))
  }

  // ---------------------------------------------------------------------------------------------
  // Failures.

  datatype Failure =
    | AstError(text: string)
    | InvalidArgument(argument: string, text: string)
    | InternalError(text: string)
    | Uncaught(text: string)

  datatype Outcome = Data(json: Json) | Error(failure: Failure)

  function NotFound(name: string): Failure { AstError("The Object <" + name + "> not found") }

  function NoRelation(name: string): Failure {
    InvalidArgument(name, "Relation to the " + name + " was not found")
  }

  function NoMember(name: string): Failure { InvalidArgument(name, "Field not found") }

  function MissingSource(name: string): Failure { Uncaught("The object Member <" + name + "> not found") }

  predicate Known(w: World, entity: Option<string>) { entity.Some? && entity.value in w.schema }

  /** The failure on entering a field that has fields of its own. */
  function EnterFailure(w: World, entity: Option<string>, name: string): Option<Failure> {
    if Known(w, entity) then
      if FirstRelation(w.schema[entity.value].relations, name).None? then Some(NoRelation(name)) else None
    else if name !in w.schema then Some(NotFound(name))
    else None
  }

  /** Joining along a relation needs source members that the entity may lack. It shows only where the
      entity has an instance to join to. */
  function JoinFailure(w: World, entity: string, relation: Relation): Option<Failure> {
    if entity !in w.schema || Instances(w, entity) == [] then None
    else
      match Unresolved(relation.rules, w.schema[entity].members)
      case None => None
      case Some(member) => Some(MissingSource(member))
  }

  /** The failure on leaving it. */
  function LeaveFailure(w: World, entity: Option<string>, name: string): Option<Failure> {
    if Known(w, entity) then
      var relation := FirstRelation(w.schema[entity.value].relations, name);
      if relation.Some? then JoinFailure(w, entity.value, relation.value) else None
    else None
  }

  /** The first failure of a field: on entering it, among its own fields, or on leaving it. */
  function Check(w: World, entity: Option<string>, f: Field): Option<Failure>
    decreases f
  {
    match f
    case Scalar(name, _) =>
      if !Known(w, entity) then Some(AstError("Invalid Structure"))
      else if name !in w.schema[entity.value].members then Some(NoMember(name))
      else None
    case Complex(name, _, selections) =>
      var entered := EnterFailure(w, entity, name);
      var inner := CheckAll(w, Some(name), selections);
      if entered.Some? then entered
      else if inner.Some? then inner
      else LeaveFailure(w, entity, name)
  }

  function CheckAll(w: World, entity: Option<string>, fields: seq<Field>): Option<Failure>
    decreases fields
  {
    if fields == [] then None
    else
      var first := Check(w, entity, fields[0]);
      if first.Some? then first else CheckAll(w, entity, fields[1..])
  }

  function Answer(w: World, query: seq<Field>): Outcome {
    match CheckAll(w, None, query)
    case Some(failure) => Error(failure)
    case None => Data(Object(RowOf(w, Top, query, map[])))
  }

  // ---------------------------------------------------------------------------------------------
  // Rows.

  predicate HasKey(fields: seq<Field>, key: string) {
    exists i | 0 <= i < |fields| :: ResponseKey(fields[i]) == key
  }

  function FirstWithKey(fields: seq<Field>, key: string): (f: Field)
    requires HasKey(fields, key)
    ensures f in fields && ResponseKey(f) == key
  {
    if ResponseKey(fields[0]) == key then fields[0] else FirstWithKey(fields[1..], key)
  }

  /** A row holds exactly the response keys asked for, each with the value of the first field that
      has the key; keys that were there before keep what they had. */
  lemma {:induction false} RowIsFirstWins(w: World, at: Place, fields: seq<Field>, row: Row, key: string)
    ensures key in RowOf(w, at, fields, row) <==> key in row || HasKey(fields, key)
    ensures key in row ==> RowOf(w, at, fields, row)[key] == row[key]
    ensures key !in row && HasKey(fields, key) ==>
              RowOf(w, at, fields, row)[key] == FieldValue(w, at, FirstWithKey(fields, key))
  {
    if fields != [] {
      var next := Extend(row, ResponseKey(fields[0]), FieldValue(w, at, fields[0]));
      RowIsFirstWins(w, at, fields[1..], next, key);
      if HasKey(fields, key) && ResponseKey(fields[0]) != key {
        var i :| 0 <= i < |fields| && ResponseKey(fields[i]) == key;
        assert ResponseKey(fields[1..][i - 1]) == key;
      }
    }
  }

  // ---------------------------------------------------------------------------------------------
  // Aliases of scalars.

  /** The query in which an aliased scalar asks for the member that its alias names. */
  function Unaliased(f: Field): Field
    decreases f
  {
    match f
    case Scalar(_, _) => Scalar(ResponseKey(f), None)
    case Complex(_, _, selections) => f.(selections := AllUnaliased(selections))
  }

  function AllUnaliased(fields: seq<Field>): (u: seq<Field>)
    ensures |u| == |fields|
    decreases fields
  {
    if fields == [] then [] else [Unaliased(fields[0])] + AllUnaliased(fields[1..])
  }

  predicate NoScalarAlias(fields: seq<Field>)
    decreases fields
  {
    fields != [] ==>
      && (match fields[0]
          case Scalar(_, alias) => alias.None?
          case Complex(_, _, selections) => NoScalarAlias(selections))
      && NoScalarAlias(fields[1..])
  }

  /** Queries without scalar aliases, and only those, stay as they are. */
  lemma {:induction false} UnaliasedIffSame(fields: seq<Field>)
    ensures AllUnaliased(fields) == fields <==> NoScalarAlias(fields)
    decreases fields
  {
    if fields != [] {
      var f, rest := fields[0], fields[1..];
      UnaliasedIffSame(rest);
      if f.Complex? {
        UnaliasedIffSame(f.selections);
      }
      assert fields == [f] + rest;
      assert AllUnaliased(fields)[0] == Unaliased(f) && AllUnaliased(fields)[1..] == AllUnaliased(rest);
    }
  }

  lemma {:induction false} AllUnaliasedFrom(fields: seq<Field>, i: nat)
    requires i < |fields|
    ensures AllUnaliased(fields)[i..] == [Unaliased(fields[i])] + AllUnaliased(fields[i + 1..])
    decreases i
  {
    if i > 0 {
      AllUnaliasedFrom(fields[1..], i - 1);
      assert AllUnaliased(fields)[i..] == AllUnaliased(fields[1..])[i - 1..];
      assert fields[1..][i..] == fields[i + 1..];
    }
  }

  lemma AllUnaliasedAt(fields: seq<Field>, i: nat)
    requires i < |fields|
    ensures AllUnaliased(fields)[i] == Unaliased(fields[i])
    ensures AllUnaliased(fields)[i..][0] == Unaliased(fields[i])
    ensures AllUnaliased(fields)[i..][1..] == AllUnaliased(fields)[i + 1..]
  {
    AllUnaliasedFrom(fields, i);
    assert AllUnaliased(fields)[i] == AllUnaliased(fields)[i..][0];
  }

  // ---------------------------------------------------------------------------------------------
  // What a failure depends on.

  lemma {:induction false} CheckIsSchemaOnly(w: World, v: World, entity: Option<string>, f: Field)
    requires w.schema == v.schema && RulesResolve(w.schema)
    ensures Check(w, entity, f) == Check(v, entity, f)
    decreases f
  {
    if f.Complex? {
      CheckAllIsSchemaOnly(w, v, Some(f.name), f.selections);
    }
  }

  lemma {:induction false} CheckAllIsSchemaOnly(w: World, v: World, entity: Option<string>, fields: seq<Field>)
    requires w.schema == v.schema && RulesResolve(w.schema)
    ensures CheckAll(w, entity, fields) == CheckAll(v, entity, fields)
    decreases fields
  {
    if fields != [] {
      CheckIsSchemaOnly(w, v, entity, fields[0]);
      CheckAllIsSchemaOnly(w, v, entity, fields[1..]);
    }
  }

  /** Whether and how any query fails is the same for all instances. */
  ghost predicate FailsBySchema(schema: map<string, EntityDef>) {
    forall query, d1, d2 | ValidData(schema, d1) && ValidData(schema, d2) ::
      CheckAll(World(schema, d1), None, query) == CheckAll(World(schema, d2), None, query)
  }

  /** A relation whose rules do not resolve fails where there is an instance and not where there is none. */
  lemma UnresolvedRelationFails(schema: map<string, EntityDef>, e: string, name: string)
    requires ValidSchema(schema) && e in schema && FirstRelation(schema[e].relations, name).Some?
    requires Unresolved(FirstRelation(schema[e].relations, name).value.rules, schema[e].members).Some?
    ensures !FailsBySchema(schema)
  {
    var relation := FirstRelation(schema[e].relations, name).value;
    assert exists i | 0 <= i < |schema[e].relations| :: schema[e].relations[i] == relation;
    var meta := Scalar(META_OBJECT_PATH, None);
    var inner := Complex(name, None, [meta]);
    var query := [Complex(e, None, [inner])];
    var d1: map<string, seq<Instance>> := map x | x in schema :: [];
    var d2 := map x | x in schema :: if x == e then [Instance(0, map[])] else [];
    var w1, w2 := World(schema, d1), World(schema, d2);
    CheckOne(w1, Some(name), meta);
    CheckOne(w2, Some(name), meta);
    CheckOne(w1, Some(e), inner);
    CheckOne(w2, Some(e), inner);
    assert Check(w1, Some(e), inner) == None && Check(w2, Some(e), inner).Some?;
    CheckOne(w1, None, query[0]);
    CheckOne(w2, None, query[0]);
  }

  lemma CheckOne(w: World, entity: Option<string>, f: Field)
    ensures CheckAll(w, entity, [f]) == Check(w, entity, f)
  {
    assert CheckAll(w, entity, [f][1..]) == None;
  }

  lemma FailureIsSchemaOnly(schema: map<string, EntityDef>)
    requires ValidSchema(schema)
    ensures FailsBySchema(schema) <==> RulesResolve(schema)
  {
    if RulesResolve(schema) {
      forall query, d1, d2 | ValidData(schema, d1) && ValidData(schema, d2)
        ensures CheckAll(World(schema, d1), None, query) == CheckAll(World(schema, d2), None, query)
      {
        CheckAllIsSchemaOnly(World(schema, d1), World(schema, d2), None, query);
      }
    } else {
      var e, name :| e in schema && FirstRelation(schema[e].relations, name).Some? &&
        Unresolved(FirstRelation(schema[e].relations, name).value.rules, schema[e].members).Some?;
      UnresolvedRelationFails(schema, e, name);
    }
  }

  /** No failure is of the internal kind. */
  lemma {:induction false} NeverInternal(w: World, entity: Option<string>, fields: seq<Field>)
    ensures CheckAll(w, entity, fields).Some? ==> !CheckAll(w, entity, fields).value.InternalError?
    decreases fields
  {
    if fields != [] {
      if fields[0].Complex? {
        NeverInternal(w, Some(fields[0].name), fields[0].selections);
      }
      NeverInternal(w, entity, fields[1..]);
    }
  }

  // ---------------------------------------------------------------------------------------------
  // What an answer looks like, spelled out.

  /** What a field with fields of its own shows for an entity with many instances: a list with one row for each
      related instance, in order, however many there are. */
  lemma ListEntityGivesList(w: World, at: Place, f: Field)
    requires f.Complex? && f.name in w.schema && w.schema[f.name].isArray
    ensures var v, related := FieldValue(w, at, f), Related(w, at, f.name);
            && v.Array? && |v.items| == |related|
            && forall i | 0 <= i < |related| ::
                 v.items[i] == Object(RowOf(w, At(f.name, related[i]), f.selections, map[]))
  {
  }

  /** For any other: the one row, an empty object without one, and a list only if there are several. */
  lemma SingleEntityGivesRow(w: World, at: Place, f: Field)
    requires f.Complex? && (f.name in w.schema ==> !w.schema[f.name].isArray)
    ensures var v, related := FieldValue(w, at, f), Related(w, at, f.name);
            && (|related| == 0 ==> v == Object(map[]))
            && (|related| == 1 ==> v == Object(RowOf(w, At(f.name, related[0]), f.selections, map[])))
            && (|related| > 1 ==>
                  && v.Array? && |v.items| == |related|
                  && forall i | 0 <= i < |related| ::
                       v.items[i] == Object(RowOf(w, At(f.name, related[i]), f.selections, map[])))
  {
  }

  /** A scalar shows the member of the instance, null where it was never set. */
  lemma ScalarGivesMember(w: World, entity: string, x: Instance, f: Field)
    requires f.Scalar?
    ensures FieldValue(w, At(entity, x), f) == Leaf(if f.name in x.fields then x.fields[f.name] else Null)
  {
  }

  /** How a rule of a relation compares two instances: a member of the destination, none for the dummy one,
      with a member of the source, which is the text "N/A" where it is null. */
  predicate RuleHolds(r: Rule, source: Instance, dest: Instance) {
    var left := if r.dest == "_" then None else Some(if r.dest in dest.fields then dest.fields[r.dest] else Null);
    var member := if r.source in source.fields then source.fields[r.source] else Null;
    var right := if r.source == "_" then Null else if member == Null then Str("N/A") else member;
    r.compare(left, right)
  }

  lemma {:induction false} ConditionsAreRules(rules: seq<Rule>, source: Instance, dest: Instance)
    ensures Passes(dest, ConditionsOf(rules, Some(source))) <==> forall i | 0 <= i < |rules| :: RuleHolds(rules[i], source, dest)
  {
    if rules != [] {
      var first, rest := ConditionOf(rules[0], Some(source)), ConditionsOf(rules[1..], Some(source));
      ConditionsAreRules(rules[1..], source, dest);
      assert |first| == 1 && (Holds(first[0], dest) <==> RuleHolds(rules[0], source, dest));
      assert (first + rest)[0] == first[0] && (first + rest)[1..] == rest;
      assert Passes(dest, first + rest) <==> Holds(first[0], dest) && Passes(dest, rest) by {
        assert forall i | 0 <= i < |rest| :: (first + rest)[i + 1] == rest[i];
      }
      assert forall i | 0 < i < |rules| :: rules[i] == rules[1..][i - 1];
      if forall i | 0 <= i < |rules| :: RuleHolds(rules[i], source, dest) {
        forall i | 0 <= i < |rules[1..]| ensures RuleHolds(rules[1..][i], source, dest) {
          assert rules[1..][i] == rules[i + 1];
        }
      }
    }
  }

  /** The instances related to one along a relation: those of the destination that all rules hold for. */
  lemma RelatedExactly(w: World, entity: string, source: Instance, k: nat, x: Instance)
    requires entity in w.schema && k < |w.schema[entity].relations| && w.schema[entity].relations[k].dest in w.data
    requires forall i | 0 <= i < k :: w.schema[entity].relations[i].dest != w.schema[entity].relations[k].dest
    ensures var Relation(_, name, rules) := w.schema[entity].relations[k];
            x in Related(w, At(entity, source), name) <==>
            x in w.data[name] && forall i | 0 <= i < |rules| :: RuleHolds(rules[i], source, x)
  {
    var Relation(_, name, rules) := w.schema[entity].relations[k];
    FirstRelationIs(w.schema[entity].relations, k);
    SelectExactly(w.data[name], ConditionsOf(rules, Some(source)), x);
    ConditionsAreRules(rules, source, x);
  }

  lemma {:induction false} NoConditionsSelectAll(instances: seq<Instance>)
    ensures Select(instances, []) == instances
  {
    if instances != [] { NoConditionsSelectAll(instances[1..]); }
  }

  /** The answer to a query for one entity: its name, or the alias it is asked for under, with all its instances:
      a list for an entity with many, else the one row, an empty object, or a list. */
  lemma EntityAnswer(w: World, entity: string, alias: Option<string>, fields: seq<Field>)
    requires entity in w.schema && entity in w.data && CheckAll(w, Some(entity), fields) == None
    ensures var instances, key := w.data[entity], if alias.Some? then alias.value else entity;
            var rows := seq(|instances|, i requires 0 <= i < |instances| => Object(RowOf(w, At(entity, instances[i]), fields, map[])));
            var shown := if !w.schema[entity].isArray && |instances| == 0 then Object(map[])
                         else if !w.schema[entity].isArray && |instances| == 1 then rows[0]
                         else Array(rows);
            Answer(w, [Complex(entity, alias, fields)]) == Data(Object(map[key := shown]))
  {
    var f := Complex(entity, alias, fields);
    CheckOne(w, None, f);
    NoConditionsSelectAll(w.data[entity]);
    assert [f][1..] == [];
    assert RowOf(w, Top, [f], map[]) == RowOf(w, Top, [], Extend(map[], ResponseKey(f), FieldValue(w, Top, f)));
  }

  /** And what is answered where it cannot be. */
  lemma UnknownNamesFail(w: World, name: string, fields: seq<Field>, entity: string, member: string)
    requires name !in w.schema
    requires entity in w.schema && FirstRelation(w.schema[entity].relations, name).None? && member !in w.schema[entity].members
    ensures Answer(w, [Complex(name, None, fields)]) == Error(AstError("The Object <" + name + "> not found"))
    ensures Answer(w, [Complex(entity, None, [Complex(name, None, fields)])]) ==
            Error(InvalidArgument(name, "Relation to the " + name + " was not found"))
    ensures Answer(w, [Complex(entity, None, [Scalar(member, None)])]) == Error(InvalidArgument(member, "Field not found"))
    ensures Answer(w, [Scalar(member, None)]) == Error(AstError("Invalid Structure"))
  {
    CheckOne(w, None, Complex(name, None, fields));
    var f, g := Complex(name, None, fields), Scalar(member, None);
    CheckOne(w, Some(entity), f);
    CheckOne(w, None, Complex(entity, None, [f]));
    CheckOne(w, Some(entity), g);
    CheckOne(w, None, Complex(entity, None, [g]));
    CheckOne(w, None, g);
  }

  /** A relation followed from an entity with instances throws for the first source member that is missing. */
  lemma MissingMemberThrows(w: World, entity: string, name: string, i: nat)
    requires entity in w.schema && entity in w.data && w.data[entity] != []
    requires FirstRelation(w.schema[entity].relations, name).Some?
    requires var rules := FirstRelation(w.schema[entity].relations, name).value.rules;
             i < |rules| && rules[i].source != "_" && rules[i].source !in w.schema[entity].members &&
             forall j | 0 <= j < i :: rules[j].source == "_" || rules[j].source in w.schema[entity].members
    ensures Check(w, Some(entity), Complex(name, None, [])) ==
            Some(Uncaught("The object Member <" + FirstRelation(w.schema[entity].relations, name).value.rules[i].source + "> not found"))
  {
    var rules := FirstRelation(w.schema[entity].relations, name).value.rules;
    FirstUnresolved(rules, w.schema[entity].members, i);
  }

  lemma {:induction false} FirstUnresolved(rules: seq<Rule>, members: set<string>, i: nat)
    requires i < |rules| && rules[i].source != "_" && rules[i].source !in members
    requires forall j | 0 <= j < i :: rules[j].source == "_" || rules[j].source in members
    ensures Unresolved(rules, members) == Some(rules[i].source)
  {
    if i > 0 {
      assert rules[0].source == "_" || rules[0].source in members;
      FirstUnresolved(rules[1..], members, i - 1);
    }
  }
}
