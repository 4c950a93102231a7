// The GraphQL query visitor and its chain of builders. A builder holds one row for each instance of its
// entity and fills all rows one field at a time; on leaving a field it is joined to its parent.
module GraphqlHandler {
  import opened Options
  import opened Entities
  import opened GraphqlSemantics
  import opened GraphqlAliases

  /** A key of a fragment: the hash of an instance, or the name of the root object. */
  datatype Key = Hash(h: nat) | Name(s: string)

  type Fragment = map<Key, Row>

  function Hashes(instances: seq<Instance>): set<Key> {
    set i | 0 <= i < |instances| :: Hash(instances[i].hash)
  }

  function EmptyRows(instances: seq<Instance>): Fragment {
    map k | k in Hashes(instances) :: map[]
  }

  function HashOf(k: Key): Option<nat> {
    if k.Hash? then Some(k.h) else None
  }

  function PlaceOf(w: World, entity: Option<string>, k: Key): Place {
    if entity.Some? && k.Hash? then
      var found := Find(Instances(w, entity.value), k.h);
      if found.Some? then At(entity.value, found.value) else Top
    else Top
  }

  /** Every row of a fragment, supplemented by one field, and by several. */
  function WithField(w: World, entity: Option<string>, fragment: Fragment, f: Field): Fragment {
    map k | k in fragment :: Extend(fragment[k], ResponseKey(f), FieldValue(w, PlaceOf(w, entity, k), f))
  }

  function WithFields(w: World, entity: Option<string>, fragment: Fragment, fields: seq<Field>): Fragment {
    map k | k in fragment :: RowOf(w, PlaceOf(w, entity, k), fields, fragment[k])
  }

  lemma WithFieldsStep(w: World, entity: Option<string>, fragment: Fragment, fields: seq<Field>)
    requires fields != []
    ensures WithFields(w, entity, fragment, fields) ==
            WithFields(w, entity, WithField(w, entity, fragment, fields[0]), fields[1..])
  {
  }

  lemma WithNoFields(w: World, entity: Option<string>, fragment: Fragment)
    ensures WithFields(w, entity, fragment, []) == fragment
  {
  }

  method MakeRows(instances: seq<Instance>) returns (fragment: Fragment)
    ensures fragment == EmptyRows(instances)
  {
    fragment := map[];
    for i := 0 to |instances|
      invariant fragment == EmptyRows(instances[..i])
    {
      fragment := fragment[Hash(instances[i].hash) := map[]];
      assert forall j | 0 <= j < i :: instances[..i + 1][j] == instances[..i][j];
      assert instances[..i + 1][i] == instances[i];
      assert Hashes(instances[..i + 1]) == Hashes(instances[..i]) + {Hash(instances[i].hash)};
    }
    assert instances[..|instances|] == instances;
  }

  predicate HasRows(fragment: Fragment, instances: seq<Instance>) {
    forall i | 0 <= i < |instances| :: Hash(instances[i].hash) in fragment
  }

  function RowsOf(fragment: Fragment, instances: seq<Instance>): seq<Json>
    requires HasRows(fragment, instances)
  {
    seq(|instances|, i requires 0 <= i < |instances| => Object(fragment[Hash(instances[i].hash)]))
  }

  lemma ChosenHaveRows(fragment: Fragment, instances: seq<Instance>, conditions: seq<Condition>)
    requires HasRows(fragment, instances)
    ensures HasRows(fragment, Select(instances, conditions))
  {
    var chosen := Select(instances, conditions);
    forall i | 0 <= i < |chosen| ensures Hash(chosen[i].hash) in fragment {
      SelectExactly(instances, conditions, chosen[i]);
    }
  }

  function CannotSetUp(name: string): Failure {
    InternalError("Internal GQL logic error. Can't setup the Object data: " + name)
  }

  /** The rows of the instances that meet a relation's conditions, put together; it fails where one of
      them has no row. */
  function Join(name: string, isArray: bool, fragment: Fragment, instances: seq<Instance>, conditions: seq<Condition>)
    : Outcome
  {
    Together(name, isArray, fragment, Select(instances, conditions))
  }

  function Together(name: string, isArray: bool, fragment: Fragment, instances: seq<Instance>): Outcome {
    if HasRows(fragment, instances) then Data(Shape(isArray, RowsOf(fragment, instances))) else Error(CannotSetUp(name))
  }

  /** One row for each instance, as the entity is an array or not. */
  method PutTogether(name: string, isArray: bool, fragment: Fragment, instances: seq<Instance>) returns (r: Outcome)
    ensures r == Together(name, isArray, fragment, instances)
  {
    if |instances| == 1 && !isArray {
      if Hash(instances[0].hash) !in fragment {
        return Error(CannotSetUp(name));
      }
      r := Data(Object(fragment[Hash(instances[0].hash)]));
    } else if |instances| > 1 || isArray {
      var items: seq<Json> := [];
      for i := 0 to |instances|
        invariant |items| == i
        invariant forall j | 0 <= j < i ::
                    Hash(instances[j].hash) in fragment && items[j] == Object(fragment[Hash(instances[j].hash)])
      {
        if Hash(instances[i].hash) !in fragment {
          return Error(CannotSetUp(name));
        }
        items := items + [Object(fragment[Hash(instances[i].hash)])];
      }
      assert items == RowsOf(fragment, instances);
      r := Data(Array(items));
    } else {
      r := Data(Object(map[]));
    }
  }

  lemma ScalarInRow(w: World, entity: string, fragment: Fragment, fieldName: string, i: nat)
    requires Entities.Valid(w) && entity in w.data && i < |w.data[entity]|
    requires Hash(w.data[entity][i].hash) in fragment
    ensures var x := w.data[entity][i];
            WithField(w, Some(entity), fragment, Scalar(fieldName, None))[Hash(x.hash)] ==
            Extend(fragment[Hash(x.hash)], fieldName, Leaf(x.Field(fieldName)))
  {
    FindMember(w.data[entity], i);
    assert PlaceOf(w, Some(entity), Hash(w.data[entity][i].hash)) == At(entity, w.data[entity][i]);
  }

  lemma HasAllRows(instances: seq<Instance>, fragment: Fragment)
    requires fragment.Keys == Hashes(instances)
    ensures HasRows(fragment, instances)
  {
    forall i | 0 <= i < |instances| ensures Hash(instances[i].hash) in fragment {
      assert Hash(instances[i].hash) in Hashes(instances);
    }
  }

  lemma OtherHashes(instances: seq<Instance>, i: nat)
    requires Ordered(instances) && i < |instances|
    ensures forall j | 0 <= j < |instances| && j != i :: Hash(instances[j].hash) != Hash(instances[i].hash)
  {
  }

  lemma AllRowsDone(instances: seq<Instance>, fragment: Fragment, after: Fragment)
    requires fragment.Keys == after.Keys == Hashes(instances)
    requires forall i | 0 <= i < |instances| :: fragment[Hash(instances[i].hash)] == after[Hash(instances[i].hash)]
    ensures fragment == after
  {
  }

  class GqlObjectBuild {
    const name: string
    const entityObject: Option<string>
    const relation: Option<Relation>
    const parent: GqlObjectBuild?
    var fragment: Fragment
    var alias: Option<string>

    function GetEntity(): Option<string> {
      if entityObject.Some? then entityObject
      else if relation.Some? then Some(relation.value.dest)
      else None
    }

    function GetFieldName(): string
      reads this
    {
      if alias.Some? then alias.value else name
    }

    /** One row for each instance; the root has one row of its own. */
    ghost predicate Valid(w: World)
      reads this
    {
      match GetEntity()
      case None => fragment.Keys == {Name(name)}
      case Some(e) => e in w.schema && e in w.data && fragment.Keys == Hashes(w.data[e])
    }

    /** What a builder refers to is there, whatever rows it has. */
    ghost predicate Linked(w: World)
      reads this
    {
      && (relation.Some? ==> relation.value.source in w.schema && relation.value.source in w.data)
      && match GetEntity()
         case None => Name(name) in fragment
         case Some(e) => e in w.schema && e in w.data
    }

    constructor Root(name: string)
      ensures this.name == name && GetEntity() == None && parent == null && alias == None
      ensures fragment == map[Name(name) := map[]]
    {
      this.name := name;
      entityObject, relation, parent, alias := None, None, null, None;
      fragment := map[Name(name) := map[]];
    }

    constructor OfEntity(w: World, name: string, entity: string, parent: GqlObjectBuild)
      requires entity in w.data
      ensures this.name == name && GetEntity() == Some(entity) && relation == None
      ensures this.parent == parent && alias == None
      ensures fragment == EmptyRows(w.data[entity])
    {
      this.name := name;
      entityObject, relation, this.parent, alias := Some(entity), None, parent, None;
      new;
      fragment := MakeRows(w.data[entity]);
    }

    constructor OfRelation(w: World, name: string, relation: Relation, parent: GqlObjectBuild)
      requires relation.dest in w.data
      ensures this.name == name && GetEntity() == Some(relation.dest) && this.relation == Some(relation)
      ensures this.parent == parent && alias == None
      ensures fragment == EmptyRows(w.data[relation.dest])
    {
      this.name := name;
      entityObject, this.relation, this.parent, alias := None, Some(relation), parent, None;
      new;
      fragment := MakeRows(w.data[relation.dest]);
    }

    /** A scalar field: one more value in each row. */
    method Supplement(w: World, fieldName: string) returns (failure: Option<Failure>)
      requires Entities.Valid(w) && Valid(w)
      modifies this`fragment
      ensures Valid(w)
      ensures failure == Check(w, GetEntity(), Scalar(fieldName, None))
      ensures failure == None ==>
                fragment == WithField(w, GetEntity(), old(fragment), Scalar(fieldName, None))
    {
      var targetEntity := GetEntity();
      if targetEntity == None {
        return Some(AstError("Invalid Structure"));
      }
      if fieldName !in w.schema[targetEntity.value].members {
        return Some(NoMember(fieldName));
      }
      var instances := w.data[targetEntity.value];
      ghost var after := WithField(w, targetEntity, fragment, Scalar(fieldName, None));
      HasAllRows(instances, fragment);
      forall i | 0 <= i < |instances|
        ensures after[Hash(instances[i].hash)] ==
                Extend(fragment[Hash(instances[i].hash)], fieldName, Leaf(instances[i].Field(fieldName)))
      {
        ScalarInRow(w, targetEntity.value, fragment, fieldName, i);
      }
      SupplementAll(instances, fieldName, after);
      return None;
    }

    method SupplementAll(instances: seq<Instance>, fieldName: string, ghost after: Fragment)
      requires Ordered(instances) && fragment.Keys == after.Keys == Hashes(instances)
      requires forall i | 0 <= i < |instances| ::
                 after[Hash(instances[i].hash)] ==
                 Extend(fragment[Hash(instances[i].hash)], fieldName, Leaf(instances[i].Field(fieldName)))
      modifies this`fragment
      ensures fragment == after
    {
      for i := 0 to |instances|
        invariant fragment.Keys == after.Keys
        invariant forall j | 0 <= j < i :: fragment[Hash(instances[j].hash)] == after[Hash(instances[j].hash)]
        invariant forall j | i <= j < |instances| ::
                    fragment[Hash(instances[j].hash)] == old(fragment)[Hash(instances[j].hash)]
      {
        var inst := instances[i];
        var key := Hash(inst.hash);
        var row := Extend(fragment[key], fieldName, Leaf(inst.Field(fieldName)));
        assert row == after[key];
        OtherHashes(instances, i);
        fragment := fragment[key := row];
      }
      AllRowsDone(instances, fragment, after);
    }

    /** The rows of this builder that belong to an instance of the parent. */
    method GetFragment(w: World, parentInstanceHash: Option<nat>) returns (r: Outcome)
      requires Entities.Valid(w) && Linked(w)
      ensures GetEntity() == None ==> r == Data(Object(fragment[Name(name)]))
      ensures GetEntity().Some? ==> r == FragmentFor(w, parentInstanceHash)
    {
      var entity := GetEntity();
      if entity == None {
        return Data(Object(fragment[Name(name)]));
      }
      var conditions := [];
      if relation.Some? && parentInstanceHash.Some? {
        var source := relation.value.source;
        var missing;
        conditions, missing := GetConditions(w.schema[source], w.data[source], relation.value.rules, parentInstanceHash.value);
        if missing.Some? {
          return Error(MissingSource(missing.value));
        }
      }
      var instances := GetInstances(w.data[entity.value], conditions);
      r := PutTogether(name, w.schema[entity.value].isArray, fragment, instances);
    }

    ghost function FragmentFor(w: World, hash: Option<nat>): Outcome
      requires Linked(w) && GetEntity().Some?
      reads this
    {
      var e := GetEntity().value;
      if relation.Some? && hash.Some? then
        var source := relation.value.source;
        match Unresolved(relation.value.rules, w.schema[source].members)
        case Some(member) => Error(MissingSource(member))
        case None =>
          Join(name, w.schema[e].isArray, fragment, w.data[e],
               ConditionsOf(relation.value.rules, Find(Instances(w, source), hash.value)))
      else Join(name, w.schema[e].isArray, fragment, w.data[e], [])
    }

    /** A builder that has a row for each instance fails only for a missing source member. */
    lemma LookupsSucceed(w: World, hash: Option<nat>)
      requires Valid(w) && Linked(w) && GetEntity().Some?
      ensures FragmentFor(w, hash).Error? ==>
                relation.Some? && hash.Some? && JoinFails(w) == Some(FragmentFor(w, hash).failure)
      ensures FragmentFor(w, hash).Data? ==> relation.None? || hash.None? || JoinFails(w) == None
    {
      var instances := w.data[GetEntity().value];
      HasAllRows(instances, fragment);
      forall conditions ensures HasRows(fragment, Select(instances, conditions)) {
        ChosenHaveRows(fragment, instances, conditions);
      }
    }

    /** A child's values, one for each row. */
    method SupplementChild(w: World, fieldName: string, child: GqlObjectBuild) returns (failure: Option<Failure>)
      requires Entities.Valid(w) && Valid(w) && child.Valid(w) && child != this && child.GetEntity().Some?
      requires child.relation.Some? ==> Some(child.relation.value.source) == GetEntity()
      modifies this`fragment
      ensures failure == if child.relation.Some? && old(fragment).Keys != {} then child.JoinFails(w) else None
      ensures failure == None ==> fragment.Keys == old(fragment).Keys
      ensures failure == None ==> forall k | k in fragment ::
                && child.FragmentFor(w, HashOf(k)).Data?
                && fragment[k] == Extend(old(fragment)[k], fieldName, child.FragmentFor(w, HashOf(k)).json)
    {
      ghost var values := map k | k in fragment :: child.FragmentFor(w, HashOf(k));
      forall k | k in fragment ensures values[k].Error? == (child.relation.Some? && child.JoinFails(w).Some?) {
        assert child.relation.Some? ==> HashOf(k).Some?;
        child.LookupsSucceed(w, HashOf(k));
      }
      failure := SupplementRows(w, fieldName, child, values);
    }

    method SupplementRows(w: World, fieldName: string, child: GqlObjectBuild, ghost values: map<Key, Outcome>)
      returns (failure: Option<Failure>)
      requires Entities.Valid(w) && child != this && IsTable(w, child, values)
      requires fragment.Keys == values.Keys
      modifies this`fragment
      ensures fragment.Keys == old(fragment).Keys
      ensures failure == None ==> forall k | k in fragment ::
                values[k].Data? && fragment[k] == Extend(old(fragment)[k], fieldName, values[k].json)
      ensures failure.Some? ==> exists k | k in values :: values[k] == Error(failure.value)
    {
      var rest := fragment.Keys;
      while rest != {}
        invariant rest <= fragment.Keys == values.Keys && IsTable(w, child, values)
        invariant forall k | k in rest :: fragment[k] == old(fragment)[k]
        invariant forall k | k in fragment && k !in rest ::
                    values[k].Data? && fragment[k] == Extend(old(fragment)[k], fieldName, values[k].json)
        decreases |rest|
      {
        var k :| k in rest;
        failure := SupplementRow(w, fieldName, child, k, values);
        if failure.Some? {
          return;
        }
        rest := rest - {k};
      }
      return None;
    }

    method SupplementRow(w: World, fieldName: string, child: GqlObjectBuild, k: Key, ghost values: map<Key, Outcome>)
      returns (failure: Option<Failure>)
      requires Entities.Valid(w) && child != this && IsTable(w, child, values) && k in values && k in fragment
      modifies this`fragment
      ensures IsTable(w, child, values)
      ensures failure == None ==>
                values[k].Data? && fragment == old(fragment)[k := Extend(old(fragment)[k], fieldName, values[k].json)]
      ensures failure.Some? ==> fragment == old(fragment) && values[k] == Error(failure.value)
    {
      var childJsonNode := ChildFragment(w, child, k, values);
      if childJsonNode.Error? {
        return Some(childJsonNode.failure);
      }
      fragment := fragment[k := Extend(fragment[k], fieldName, childJsonNode.json)];
      return None;
    }

    /** What the child has for each row; the trigger keeps its definition out of the loop above. */
    static ghost predicate IsTable(w: World, child: GqlObjectBuild, values: map<Key, Outcome>)
      reads child
    {
      && child.Linked(w) && child.GetEntity().Some?
      && forall k {:trigger HashOf(k)} | k in values :: values[k] == child.FragmentFor(w, HashOf(k))
    }

    static method ChildFragment(w: World, child: GqlObjectBuild, k: Key, ghost values: map<Key, Outcome>)
      returns (r: Outcome)
      requires Entities.Valid(w) && IsTable(w, child, values) && k in values
      ensures r == values[k]
    {
      r := child.GetFragment(w, HashOf(k));
    }

    function JoinFails(w: World): Option<Failure>
      requires relation.Some? ==> relation.value.source in w.schema
    {
      if relation.None? then None
      else
        match Unresolved(relation.value.rules, w.schema[relation.value.source].members)
        case Some(member) => Some(MissingSource(member))
        case None => None
    }

    method PushFragmentToParent(w: World) returns (failure: Option<Failure>)
      requires Entities.Valid(w) && Valid(w) && GetEntity().Some?
      requires parent != null && parent != this && parent.Valid(w)
      requires relation.Some? ==> Some(relation.value.source) == parent.GetEntity()
      modifies parent`fragment
      ensures failure == if relation.Some? && old(parent.fragment).Keys != {} then JoinFails(w) else None
      ensures failure == None ==> parent.fragment.Keys == old(parent.fragment).Keys
      ensures failure == None ==> forall k | k in parent.fragment ::
                && FragmentFor(w, HashOf(k)).Data?
                && parent.fragment[k] == Extend(old(parent.fragment)[k], GetFieldName(), FragmentFor(w, HashOf(k)).json)
    {
      failure := parent.SupplementChild(w, GetFieldName(), this);
    }
  }

  // ---------------------------------------------------------------------------------------------
  // The join of a finished child is the value of its field.

  lemma PlaceOfInstance(w: World, entity: string, x: Instance)
    requires Entities.Valid(w) && x in Instances(w, entity)
    ensures PlaceOf(w, Some(entity), Hash(x.hash)) == At(entity, x)
  {
    var i :| 0 <= i < |Instances(w, entity)| && Instances(w, entity)[i] == x;
    FindMember(Instances(w, entity), i);
  }

  lemma RowIsInFragment(w: World, entity: string, fields: seq<Field>, fragment: Fragment, x: Instance)
    requires Entities.Valid(w) && entity in w.schema && x in w.data[entity]
    requires fragment == WithFields(w, Some(entity), EmptyRows(w.data[entity]), fields)
    ensures Hash(x.hash) in fragment && fragment[Hash(x.hash)] == RowOf(w, At(entity, x), fields, map[])
  {
    PlaceOfInstance(w, entity, x);
    var i :| 0 <= i < |w.data[entity]| && w.data[entity][i] == x;
    assert Hash(x.hash) in Hashes(w.data[entity]);
  }

  lemma RowsAreInFragment(w: World, entity: string, fields: seq<Field>, fragment: Fragment, chosen: seq<Instance>)
    requires Entities.Valid(w) && entity in w.schema && forall x | x in chosen :: x in w.data[entity]
    requires fragment == WithFields(w, Some(entity), EmptyRows(w.data[entity]), fields)
    ensures HasRows(fragment, chosen) && RowsOf(fragment, chosen) == RowsAt(w, entity, chosen, fields)
  {
    forall i | 0 <= i < |chosen|
      ensures Hash(chosen[i].hash) in fragment
      ensures fragment[Hash(chosen[i].hash)] == RowOf(w, At(entity, chosen[i]), fields, map[])
    {
      RowIsInFragment(w, entity, fields, fragment, chosen[i]);
    }
  }

  lemma JoinIsFieldValue(w: World, at: Place, f: Field, name: string, fragment: Fragment)
    requires Entities.Valid(w) && f.Complex? && f.name in w.schema
    requires fragment == WithFields(w, Some(f.name), EmptyRows(w.data[f.name]), f.selections)
    ensures Join(name, w.schema[f.name].isArray, fragment, w.data[f.name], ConditionsAt(w, at, f.name)) ==
            Data(FieldValue(w, at, f))
  {
    var instances, chosen := w.data[f.name], Related(w, at, f.name);
    RowsAreInFragment(w, f.name, f.selections, fragment, instances);
    forall x | x in chosen ensures x in instances {
      SelectExactly(instances, ConditionsAt(w, at, f.name), x);
    }
    RowsAreInFragment(w, f.name, f.selections, fragment, chosen);
  }

  // ---------------------------------------------------------------------------------------------
  // The visitor.

  class GqlQueryVisitor {
    var fragmentBuilder: GqlObjectBuild

    constructor ()
      ensures fresh(fragmentBuilder)
      ensures fragmentBuilder.GetEntity() == None && fragmentBuilder.fragment == map[Name("query") := map[]]
      ensures fragmentBuilder.name == "query"
    {
      fragmentBuilder := new GqlObjectBuild.Root("query");
    }

    /** A scalar goes into every row; any other field gets a builder of its own. */
    method VisitField(w: World, f: Field) returns (failure: Option<Failure>)
      requires Entities.Valid(w) && fragmentBuilder.Valid(w)
      modifies this, fragmentBuilder`fragment
      ensures f.Scalar? ==> fragmentBuilder == old(fragmentBuilder) && fragmentBuilder.Valid(w)
      ensures f.Scalar? ==> failure == Check(w, fragmentBuilder.GetEntity(), Unaliased(f))
      ensures f.Scalar? && failure == None ==>
                fragmentBuilder.fragment ==
                WithField(w, fragmentBuilder.GetEntity(), old(fragmentBuilder.fragment), Unaliased(f))
      ensures f.Complex? ==> failure == EnterFailure(w, old(fragmentBuilder).GetEntity(), f.name)
      ensures f.Complex? ==> old(fragmentBuilder).fragment == old(fragmentBuilder.fragment)
      ensures f.Complex? && failure == None ==>
                && fresh(fragmentBuilder) && IsChild(w, fragmentBuilder, old(fragmentBuilder), f)
                && fragmentBuilder.fragment == EmptyRows(w.data[f.name])
    {
      var fieldName, fieldAlias := f.name, f.alias;
      if f.Complex? {
        var childObjectBuilder: GqlObjectBuild;
        var entity := fragmentBuilder.GetEntity();
        if entity == None {
          if fieldName !in w.schema {
            return Some(NotFound(fieldName));
          }
          childObjectBuilder := new GqlObjectBuild.OfEntity(w, fieldName, fieldName, fragmentBuilder);
        } else {
          var relation := GetRelation(w.schema[entity.value], fieldName);
          if relation.None? {
            return Some(NoRelation(fieldName));
          }
          childObjectBuilder := new GqlObjectBuild.OfRelation(w, fieldName, relation.value, fragmentBuilder);
        }
        if fieldAlias.Some? {
          childObjectBuilder.alias := fieldAlias;
        }
        fragmentBuilder := childObjectBuilder;
        failure := None;
      } else {
        failure := fragmentBuilder.Supplement(w, if fieldAlias.Some? then fieldAlias.value else fieldName);
      }
    }

    method EndVisitField(w: World, f: Field, ghost parent: GqlObjectBuild) returns (failure: Option<Failure>)
      requires Entities.Valid(w)
      requires f.Scalar? ==> fragmentBuilder == parent && parent.Valid(w)
      requires f.Complex? ==> fragmentBuilder != parent && parent.Valid(w) && IsChild(w, fragmentBuilder, parent, f)
      requires f.Complex? ==>
                 fragmentBuilder.fragment ==
                 WithFields(w, Some(f.name), EmptyRows(w.data[f.name]), AllUnaliased(f.selections))
      modifies this, parent`fragment
      ensures f.Scalar? ==> failure == None && parent.fragment == old(parent.fragment)
      ensures f.Complex? ==> failure == LeaveFailure(w, parent.GetEntity(), f.name)
      ensures failure == None ==> fragmentBuilder == parent && parent.Valid(w)
      ensures f.Complex? && failure == None ==>
                parent.fragment == WithField(w, parent.GetEntity(), old(parent.fragment), Unaliased(f))
    {
      failure := None;
      if f.Complex? {
        ChildFails(w, f, fragmentBuilder, parent);
        failure := fragmentBuilder.PushFragmentToParent(w);
        if failure.Some? {
          return;
        }
        ChildJoins(w, f, fragmentBuilder, parent);
        if fragmentBuilder.parent != null {
          fragmentBuilder := fragmentBuilder.parent;
        }
      }
    }

    /** One field: its parser enters it, visits its own fields, and leaves it. */
    method Accept(w: World, f: Field) returns (failure: Option<Failure>)
      requires Entities.Valid(w) && fragmentBuilder.Valid(w)
      modifies this, fragmentBuilder`fragment
      ensures failure == Check(w, old(fragmentBuilder).GetEntity(), Unaliased(f))
      ensures failure == None ==> fragmentBuilder == old(fragmentBuilder) && fragmentBuilder.Valid(w)
      ensures failure == None ==>
                fragmentBuilder.fragment ==
                WithField(w, fragmentBuilder.GetEntity(), old(fragmentBuilder.fragment), Unaliased(f))
      decreases f
    {
      ghost var builder := fragmentBuilder;
      failure := VisitField(w, f);
      if failure.Some? {
        return;
      }
      if f.Complex? {
        failure := AcceptAll(w, f.selections);
        if failure.Some? {
          return;
        }
      }
      failure := EndVisitField(w, f, builder);
    }

    method AcceptAll(w: World, fields: seq<Field>) returns (failure: Option<Failure>)
      requires Entities.Valid(w) && fragmentBuilder.Valid(w)
      modifies this, fragmentBuilder`fragment
      ensures failure == CheckAll(w, old(fragmentBuilder).GetEntity(), AllUnaliased(fields))
      ensures failure == None ==> fragmentBuilder == old(fragmentBuilder) && fragmentBuilder.Valid(w)
      ensures failure == None ==>
                fragmentBuilder.fragment ==
                WithFields(w, fragmentBuilder.GetEntity(), old(fragmentBuilder.fragment), AllUnaliased(fields))
      decreases fields
    {
      ghost var entity, u := fragmentBuilder.GetEntity(), AllUnaliased(fields);
      var i := 0;
      assert u[0..] == u;
      while i < |fields|
        invariant i <= |fields|
        invariant fragmentBuilder == old(fragmentBuilder) && fragmentBuilder.Valid(w)
        invariant CheckAll(w, entity, u) == CheckAll(w, entity, u[i..])
        invariant WithFields(w, entity, fragmentBuilder.fragment, u[i..]) ==
                  WithFields(w, entity, old(fragmentBuilder.fragment), u)
      {
        AllUnaliasedFrom(fields, i);
        AllUnaliasedAt(fields, i);
        WithFieldsStep(w, entity, fragmentBuilder.fragment, u[i..]);
        failure := Accept(w, fields[i]);
        if failure.Some? {
          return;
        }
        i := i + 1;
      }
      WithNoFields(w, entity, fragmentBuilder.fragment);
      return None;
    }
  }

  ghost function RelationTo(w: World, entity: Option<string>, name: string): Option<Relation> {
    if Known(w, entity) then FirstRelation(w.schema[entity.value].relations, name) else None
  }

  /** The builder made on entering a field. */
  ghost predicate IsChild(w: World, child: GqlObjectBuild, parent: GqlObjectBuild, f: Field)
    requires f.Complex?
    reads child
  {
    && child.parent == parent && child.GetFieldName() == ResponseKey(f)
    && child.GetEntity() == Some(f.name) && f.name in w.schema && f.name in w.data
    && child.relation == RelationTo(w, parent.GetEntity(), f.name)
    && child.Valid(w)
  }

  lemma ChildFails(w: World, f: Field, child: GqlObjectBuild, parent: GqlObjectBuild)
    requires Entities.Valid(w) && f.Complex? && parent.Valid(w) && IsChild(w, child, parent, f)
    ensures child.relation.Some? ==> Some(child.relation.value.source) == parent.GetEntity()
    ensures LeaveFailure(w, parent.GetEntity(), f.name) ==
            if child.relation.Some? && parent.fragment.Keys != {} then child.JoinFails(w) else None
  {
    if child.relation.Some? {
      var e := parent.GetEntity().value;
      var relations := w.schema[e].relations;
      assert child.relation.value in relations;
      if w.data[e] != [] {
        assert Hash(w.data[e][0].hash) in parent.fragment;
      }
    }
  }

  lemma ChildJoin(w: World, f: Field, child: GqlObjectBuild, parent: GqlObjectBuild, k: Key)
    requires Entities.Valid(w) && f.Complex? && parent.Valid(w) && IsChild(w, child, parent, f)
    requires child.fragment == WithFields(w, Some(f.name), EmptyRows(w.data[f.name]), AllUnaliased(f.selections))
    requires child.Linked(w)
    requires k in parent.fragment && child.FragmentFor(w, HashOf(k)).Data?
    ensures child.FragmentFor(w, HashOf(k)).json == FieldValue(w, PlaceOf(w, parent.GetEntity(), k), Unaliased(f))
  {
    var at := PlaceOf(w, parent.GetEntity(), k);
    JoinIsFieldValue(w, at, Unaliased(f), child.name, child.fragment);
    ChildConditions(w, f, child, parent, k);
  }

  /** The conditions that the child is joined with are those of the parent's instance. */
  lemma ChildConditions(w: World, f: Field, child: GqlObjectBuild, parent: GqlObjectBuild, k: Key)
    requires Entities.Valid(w) && f.Complex? && parent.Valid(w) && IsChild(w, child, parent, f)
    requires child.Linked(w)
    requires k in parent.fragment
    ensures ConditionsAt(w, PlaceOf(w, parent.GetEntity(), k), f.name) ==
            if child.relation.Some? && HashOf(k).Some?
            then ConditionsOf(child.relation.value.rules, Find(Instances(w, child.relation.value.source), HashOf(k).value))
            else []
  {
    if child.relation.Some? {
      assert child.relation.value in w.schema[parent.GetEntity().value].relations;
    }
  }

  lemma ChildJoins(w: World, f: Field, child: GqlObjectBuild, parent: GqlObjectBuild)
    requires Entities.Valid(w) && f.Complex? && parent.Valid(w) && IsChild(w, child, parent, f)
    requires child.fragment == WithFields(w, Some(f.name), EmptyRows(w.data[f.name]), AllUnaliased(f.selections))
    requires child.Linked(w)
    ensures forall k | k in parent.fragment && child.FragmentFor(w, HashOf(k)).Data? ::
              child.FragmentFor(w, HashOf(k)).json == FieldValue(w, PlaceOf(w, parent.GetEntity(), k), Unaliased(f))
  {
    forall k | k in parent.fragment && child.FragmentFor(w, HashOf(k)).Data?
      ensures child.FragmentFor(w, HashOf(k)).json == FieldValue(w, PlaceOf(w, parent.GetEntity(), k), Unaliased(f))
    {
      ChildJoin(w, f, child, parent, k);
    }
  }

  /** The whole run of a query: the answer one finds instance by instance to the query in which an
      aliased scalar asks for the member that its alias names. */
  method Run(w: World, query: seq<Field>) returns (r: Outcome)
    requires Entities.Valid(w)
    ensures r == Answer(w, AllUnaliased(query))
    ensures OwnNames(query) ==> r == Answer(w, query)
    ensures r.Error? ==> !r.failure.InternalError?
  {
    NeverInternal(w, None, AllUnaliased(query));
    var visitor := new GqlQueryVisitor();
    if OwnNames(query) {
      OwnNamesAnswerSame(w, query);
    }
    var failure := visitor.AcceptAll(w, query);
    if failure.Some? {
      return Error(failure.value);
    }
    r := visitor.fragmentBuilder.GetFragment(w, None);
  }
}
