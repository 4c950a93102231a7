// Entities, their cached instances, and the relations between them, as the GraphQL handler sees them:
// a schema, and a snapshot of the instances.
module Entities {
  import opened Options

  /** What a field holds. */
  datatype Value = Null | Str(s: string) | Num(n: int) | Real(r: real) | Flag(b: bool) | List(items: seq<Value>)

  const NOT_AVAILABLE := Str("N/A")

  const DUMMY_FIELD := "_"

  const META_OBJECT_PATH := "__meta_field__object_path"

  const META_OBJECT_SERVICE := "__meta_field__object_service"

  /** The field of the destination, none for the dummy field, against a value. */
  type Comparer = (Option<Value>, Value) -> bool

  datatype Rule = Rule(source: string, dest: string, compare: Comparer)

  datatype Condition = Condition(dest: string, right: Value, compare: Comparer)

  datatype Relation = Relation(source: string, dest: string, rules: seq<Rule>)

  /** `members` includes those of the entity's supplement providers. */
  datatype EntityDef = EntityDef(isArray: bool, members: set<string>, relations: seq<Relation>)

  datatype Instance = Instance(hash: nat, fields: map<string, Value>) {
    /** A field that was never set reads like one set to null. */
    function Field(name: string): Value {
      if name in fields then fields[name] else Null
    }
  }

  /** The text "N/A" stands for null when a field is compared. */
  function Shown(v: Value): Value { if v.Null? then NOT_AVAILABLE else v }

  /** An ordered map by hash. */
  predicate Ordered(instances: seq<Instance>) {
    forall i, j | 0 <= i < j < |instances| :: instances[i].hash < instances[j].hash
  }

  datatype World = World(schema: map<string, EntityDef>, data: map<string, seq<Instance>>)

  predicate ValidSchema(schema: map<string, EntityDef>) {
    forall e | e in schema ::
      && META_OBJECT_PATH in schema[e].members && META_OBJECT_SERVICE in schema[e].members
      && forall i | 0 <= i < |schema[e].relations| ::
           schema[e].relations[i].source == e && schema[e].relations[i].dest in schema
  }

  predicate ValidData(schema: map<string, EntityDef>, data: map<string, seq<Instance>>) {
    data.Keys == schema.Keys && forall e | e in data :: Ordered(data[e])
  }

  predicate Valid(w: World) {
    ValidSchema(w.schema) && ValidData(w.schema, w.data)
  }

  function Instances(w: World, entity: string): seq<Instance> {
    if entity in w.data then w.data[entity] else []
  }

  // ---------------------------------------------------------------------------------------------
  // Conditions, and the instances that meet them.

  predicate Holds(c: Condition, inst: Instance) {
    c.compare(if c.dest == DUMMY_FIELD then None else Some(inst.Field(c.dest)), c.right)
  }

  predicate Passes(inst: Instance, conditions: seq<Condition>) {
    forall i | 0 <= i < |conditions| :: Holds(conditions[i], inst)
  }

  function Select(instances: seq<Instance>, conditions: seq<Condition>): seq<Instance> {
    if instances == [] then []
    else
      (if Passes(instances[0], conditions) then [instances[0]] else []) + Select(instances[1..], conditions)
  }

  /** The selection holds the passing instances and no other. */
  lemma {:induction false} SelectExactly(instances: seq<Instance>, conditions: seq<Condition>, x: Instance)
    ensures x in Select(instances, conditions) <==> x in instances && Passes(x, conditions)
  {
    if instances != [] {
      SelectExactly(instances[1..], conditions, x);
      assert instances == [instances[0]] + instances[1..];
    }
  }

  /** And keeps their order. */
  lemma {:induction false} SelectIsOrdered(instances: seq<Instance>, conditions: seq<Condition>)
    requires Ordered(instances)
    ensures Ordered(Select(instances, conditions))
  {
    if instances != [] {
      var rest := instances[1..];
      SelectIsOrdered(rest, conditions);
      var chosen := Select(rest, conditions);
      forall i | 0 <= i < |chosen| ensures instances[0].hash < chosen[i].hash {
        SelectExactly(rest, conditions, chosen[i]);
      }
    }
  }

  lemma {:induction false} SelectAppend(a: seq<Instance>, b: seq<Instance>, conditions: seq<Condition>)
    ensures Select(a + b, conditions) == Select(a, conditions) + Select(b, conditions)
  {
    if a == [] {
      assert a + b == b;
    } else {
      assert (a + b)[1..] == a[1..] + b;
      SelectAppend(a[1..], b, conditions);
      var first := if Passes(a[0], conditions) then [a[0]] else [];
      Reassociate(first, Select(a[1..], conditions), Select(b, conditions));
    }
  }

  lemma Reassociate<T>(a: seq<T>, b: seq<T>, c: seq<T>)
    ensures a + b + c == a + (b + c)
  {
  }

  method CheckConditions(inst: Instance, conditions: seq<Condition>) returns (conditionPassed: bool)
    ensures conditionPassed == Passes(inst, conditions)
  {
    conditionPassed := true;
    for i := 0 to |conditions|
      invariant conditionPassed
      invariant forall k | 0 <= k < i :: Holds(conditions[k], inst)
    {
      conditionPassed := conditionPassed && Holds(conditions[i], inst);
      if !conditionPassed {
        break;
      }
    }
  }

  method GetInstances(instances: seq<Instance>, conditions: seq<Condition>) returns (result: seq<Instance>)
    ensures result == Select(instances, conditions)
  {
    result := [];
    for i := 0 to |instances|
      invariant result == Select(instances[..i], conditions)
    {
      assert instances[..i + 1] == instances[..i] + [instances[i]];
      SelectAppend(instances[..i], [instances[i]], conditions);
      var conditionPassed := CheckConditions(instances[i], conditions);
      if conditionPassed {
        result := result + [instances[i]];
      }
    }
    assert instances[..|instances|] == instances;
  }

  // ---------------------------------------------------------------------------------------------
  // Relations.

  function FirstRelation(relations: seq<Relation>, name: string): (r: Option<Relation>)
    ensures r.Some? ==> r.value in relations && r.value.dest == name
    ensures r.None? ==> forall i | 0 <= i < |relations| :: relations[i].dest != name
  {
    if relations == [] then None
    else if relations[0].dest == name then Some(relations[0])
    else FirstRelation(relations[1..], name)
  }

  /** It is the one that no other of that name stands in front of. */
  lemma {:induction false} FirstRelationIs(relations: seq<Relation>, k: nat)
    requires k < |relations| && forall i | 0 <= i < k :: relations[i].dest != relations[k].dest
    ensures FirstRelation(relations, relations[k].dest) == Some(relations[k])
  {
    if k > 0 { FirstRelationIs(relations[1..], k - 1); }
  }

  method GetRelation(def: EntityDef, name: string) returns (r: Option<Relation>)
    ensures r == FirstRelation(def.relations, name)
  {
    var i := 0;
    while i < |def.relations|
      invariant i <= |def.relations|
      invariant FirstRelation(def.relations, name) == FirstRelation(def.relations[i..], name)
    {
      if def.relations[i].dest == name {
        return Some(def.relations[i]);
      }
      i := i + 1;
    }
    return None;
  }

  /** The first rule whose source member is not one of the entity's: asking for it throws. */
  function Unresolved(rules: seq<Rule>, members: set<string>): Option<string> {
    if rules == [] then None
    else if rules[0].source != DUMMY_FIELD && rules[0].source !in members then Some(rules[0].source)
    else Unresolved(rules[1..], members)
  }

  /** Every relation that can be followed reads source members that its entity has. */
  ghost predicate RulesResolve(schema: map<string, EntityDef>) {
    forall e, name | e in schema && FirstRelation(schema[e].relations, name).Some? ::
      Unresolved(FirstRelation(schema[e].relations, name).value.rules, schema[e].members).None?
  }

  function Find(instances: seq<Instance>, hash: nat): (r: Option<Instance>)
    ensures r.Some? ==> r.value in instances && r.value.hash == hash
    ensures r.None? ==> forall i | 0 <= i < |instances| :: instances[i].hash != hash
  {
    if instances == [] then None
    else if instances[0].hash == hash then Some(instances[0])
    else Find(instances[1..], hash)
  }

  lemma FindMember(instances: seq<Instance>, i: nat)
    requires Ordered(instances) && i < |instances|
    ensures Find(instances, instances[i].hash) == Some(instances[i])
  {
    var found := Find(instances, instances[i].hash);
    assert found.Some?;
    var j :| 0 <= j < |instances| && instances[j] == found.value;
    if i < j {
      assert instances[i].hash < instances[j].hash;
    } else if j < i {
      assert instances[j].hash < instances[i].hash;
    }
  }

  /** Seen from a source instance, each rule asks its destination field to compare with the value of
      its source field. Without that instance only the dummy rules are left. */
  function ConditionsOf(rules: seq<Rule>, source: Option<Instance>): seq<Condition> {
    if rules == [] then []
    else ConditionOf(rules[0], source) + ConditionsOf(rules[1..], source)
  }

  function ConditionOf(rule: Rule, source: Option<Instance>): seq<Condition> {
    if rule.source == DUMMY_FIELD then [Condition(rule.dest, Null, rule.compare)]
    else if source.None? then []
    else [Condition(rule.dest, Shown(source.value.Field(rule.source)), rule.compare)]
  }

  lemma {:induction false} ConditionsAppend(a: seq<Rule>, b: seq<Rule>, source: Option<Instance>)
    ensures ConditionsOf(a + b, source) == ConditionsOf(a, source) + ConditionsOf(b, source)
  {
    if a == [] {
      assert a + b == b;
    } else {
      assert (a + b)[1..] == a[1..] + b;
      ConditionsAppend(a[1..], b, source);
      Reassociate(ConditionOf(a[0], source), ConditionsOf(a[1..], source), ConditionsOf(b, source));
    }
  }

  /** None when a member is not found, which the source throws for. */
  method GetConditions(def: EntityDef, instances: seq<Instance>, rules: seq<Rule>, hash: nat)
    returns (conditions: seq<Condition>, missing: Option<string>)
    ensures missing == Unresolved(rules, def.members)
    ensures missing.None? ==> conditions == ConditionsOf(rules, Find(instances, hash))
  {
    conditions := [];
    var i := 0;
    while i < |rules|
      invariant i <= |rules|
      invariant Unresolved(rules, def.members) == Unresolved(rules[i..], def.members)
      invariant conditions == ConditionsOf(rules[..i], Find(instances, hash))
    {
      var Rule(memberSource, memberDest, compare) := rules[i];
      assert rules[..i + 1] == rules[..i] + [rules[i]];
      ConditionsAppend(rules[..i], [rules[i]], Find(instances, hash));
      if memberSource == DUMMY_FIELD {
        conditions := conditions + [Condition(memberDest, Null, compare)];
      } else {
        if memberSource !in def.members {
          return conditions, Some(memberSource);
        }
        var sourceInstance := Find(instances, hash);
        if sourceInstance.Some? {
          var compareValue := Shown(sourceInstance.value.Field(memberSource));
          conditions := conditions + [Condition(memberDest, compareValue, compare)];
        }
      }
      i := i + 1;
    }
    assert rules[..|rules|] == rules;
    return conditions, None;
  }
}
