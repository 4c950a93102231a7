// When the answer to a query whose scalars have aliases is the one that the query means: the handler
// looks an aliased scalar up by its alias.
module GraphqlAliases {
  import opened Options
  import opened Entities
  import opened GraphqlSemantics

  /** Every scalar is asked for under its own name. */
  predicate OwnNames(fields: seq<Field>)
    decreases fields
  {
    forall i | 0 <= i < |fields| ::
      match fields[i]
      case Scalar(name, _) => ResponseKey(fields[i]) == name
      case Complex(_, _, selections) => OwnNames(selections)
  }

  predicate KeysDiffer(fields: seq<Field>) {
    forall i, j | 0 <= i < j < |fields| :: ResponseKey(fields[i]) != ResponseKey(fields[j])
  }

  /** No selection asks for one response key twice. */
  predicate DistinctKeys(fields: seq<Field>)
    decreases fields
  {
    && KeysDiffer(fields)
    && forall i | 0 <= i < |fields| && fields[i].Complex? :: DistinctKeys(fields[i].selections)
  }

  predicate AllComplex(fields: seq<Field>) { forall i | 0 <= i < |fields| :: fields[i].Complex? }

  // ---------------------------------------------------------------------------------------------
  // Own names suffice, in every world.

  lemma {:induction false} OwnNameMeansSame(w: World, f: Field)
    requires OwnNames([f])
    ensures ResponseKey(Unaliased(f)) == ResponseKey(f)
    ensures forall e :: Check(w, e, Unaliased(f)) == Check(w, e, f)
    ensures forall at :: FieldValue(w, at, Unaliased(f)) == FieldValue(w, at, f)
    decreases f, 0
  {
    assert [f][0] == f;
    if f.Complex? {
      OwnNamesMeanSame(w, f.selections);
      forall at ensures FieldValue(w, at, Unaliased(f)) == FieldValue(w, at, f) {
        var related := Related(w, at, f.name);
        assert RowsAt(w, f.name, related, AllUnaliased(f.selections)) == RowsAt(w, f.name, related, f.selections);
      }
    }
  }

  lemma {:induction false} OwnNamesMeanSame(w: World, fields: seq<Field>)
    requires OwnNames(fields)
    ensures forall e :: CheckAll(w, e, AllUnaliased(fields)) == CheckAll(w, e, fields)
    ensures forall at, row :: RowOf(w, at, AllUnaliased(fields), row) == RowOf(w, at, fields, row)
    decreases fields, 1
  {
    if fields != [] {
      assert OwnNames([fields[0]]);
      OwnNameMeansSame(w, fields[0]);
      OwnNamesMeanSame(w, fields[1..]);
      var u := AllUnaliased(fields);
      assert u[0] == Unaliased(fields[0]) && u[1..] == AllUnaliased(fields[1..]);
      forall at, row ensures RowOf(w, at, u, row) == RowOf(w, at, fields, row) {
        var next := Extend(row, ResponseKey(fields[0]), FieldValue(w, at, fields[0]));
        assert RowOf(w, at, u, row) == RowOf(w, at, u[1..], next);
      }
    }
  }

  lemma OwnNamesAnswerSame(w: World, query: seq<Field>)
    requires OwnNames(query)
    ensures Answer(w, AllUnaliased(query)) == Answer(w, query)
  {
    OwnNamesMeanSame(w, query);
  }

  // ---------------------------------------------------------------------------------------------
  // A world in which they are necessary: every name is an entity, a member of each entity, and the
  // destination of a relation of each; one instance shows every member as its own name.

  function AllRelations(source: string, names: seq<string>): seq<Relation> {
    seq(|names|, i requires 0 <= i < |names| => Relation(source, names[i], []))
  }

  function OneOfEach(names: seq<string>): Instance {
    Instance(0, map n | n in names :: Str(n))
  }

  function TellingWorld(names: seq<string>): World {
    World(map e | e in names ::
            EntityDef(false, (set n | n in names) + {META_OBJECT_PATH, META_OBJECT_SERVICE}, AllRelations(e, names)),
          map e | e in names :: [OneOfEach(names)])
  }

  lemma TellingWorldIsValid(names: seq<string>)
    ensures Valid(TellingWorld(names))
  {
  }

  predicate NamedIn(names: seq<string>, fields: seq<Field>)
    decreases fields
  {
    forall i | 0 <= i < |fields| ::
      && fields[i].name in names && ResponseKey(fields[i]) in names
      && (fields[i].Complex? ==> NamedIn(names, fields[i].selections))
  }

  lemma {:induction false} EveryRelation(source: string, names: seq<string>, name: string)
    requires name in names
    ensures FirstRelation(AllRelations(source, names), name) == Some(Relation(source, name, []))
  {
    if names[0] != name {
      assert AllRelations(source, names)[1..] == AllRelations(source, names[1..]);
      EveryRelation(source, names[1..], name);
    }
  }

  lemma {:induction false} TellingCheck(names: seq<string>, entity: Option<string>, fields: seq<Field>)
    requires NamedIn(names, fields) && (entity.None? ==> AllComplex(fields)) && (entity.Some? ==> entity.value in names)
    ensures CheckAll(TellingWorld(names), entity, fields) == None
    decreases fields
  {
    if fields != [] {
      var f := fields[0];
      if f.Complex? {
        TellingCheck(names, Some(f.name), f.selections);
        if entity.Some? { EveryRelation(entity.value, names, f.name); }
      }
      TellingCheck(names, entity, fields[1..]);
    }
  }

  /** What a field shows there. */
  lemma TellingValue(names: seq<string>, at: Place, f: Field)
    requires NamedIn(names, [f]) && (at.Top? ==> f.Complex?)
    requires at.At? ==> at.entity in names && at.inst == OneOfEach(names)
    ensures FieldValue(TellingWorld(names), at, f) ==
            match f
            case Scalar(name, _) => Leaf(Str(name))
            case Complex(name, _, selections) =>
              Object(RowOf(TellingWorld(names), At(name, OneOfEach(names)), selections, map[]))
  {
    assert NamedIn(names, [f]) ==> [f][0].name in names;
    if f.Complex? {
      var w, x := TellingWorld(names), OneOfEach(names);
      if at.At? { EveryRelation(at.entity, names, f.name); }
      assert ConditionsAt(w, at, f.name) == [];
      assert Instances(w, f.name) == [x] && Passes(x, []);
      assert [x][1..] == [] && Select([x], []) == [x];
      assert RowsAt(w, f.name, [x], f.selections) == [Object(RowOf(w, At(f.name, x), f.selections, map[]))];
    }
  }

  lemma {:induction false} FirstIsOnly(fields: seq<Field>, i: nat)
    requires i < |fields| && KeysDiffer(fields)
    ensures HasKey(fields, ResponseKey(fields[i])) && FirstWithKey(fields, ResponseKey(fields[i])) == fields[i]
  {
    if i > 0 {
      FirstIsOnly(fields[1..], i - 1);
    }
  }

  lemma {:induction false} UnaliasedNamed(names: seq<string>, fields: seq<Field>)
    requires NamedIn(names, fields)
    ensures NamedIn(names, AllUnaliased(fields))
    decreases fields
  {
    forall i | 0 <= i < |fields|
      ensures AllUnaliased(fields)[i].name in names && ResponseKey(AllUnaliased(fields)[i]) in names
      ensures AllUnaliased(fields)[i].Complex? ==> NamedIn(names, AllUnaliased(fields)[i].selections)
    {
      AllUnaliasedAt(fields, i);
      if fields[i].Complex? { UnaliasedNamed(names, fields[i].selections); }
    }
  }

  lemma UnaliasedKeys(fields: seq<Field>)
    ensures forall i | 0 <= i < |fields| ::
              AllUnaliased(fields)[i] == Unaliased(fields[i]) && ResponseKey(AllUnaliased(fields)[i]) == ResponseKey(fields[i])
  {
    forall i | 0 <= i < |fields| ensures AllUnaliased(fields)[i] == Unaliased(fields[i]) {
      AllUnaliasedAt(fields, i);
    }
  }

  lemma UnaliasedKeysDiffer(fields: seq<Field>)
    requires KeysDiffer(fields)
    ensures KeysDiffer(AllUnaliased(fields))
  {
    UnaliasedKeys(fields);
  }

  /** Where keys differ, a row shows the value of each field. */
  lemma RowShows(w: World, at: Place, fields: seq<Field>, i: nat)
    requires i < |fields| && KeysDiffer(fields)
    ensures ResponseKey(fields[i]) in RowOf(w, at, fields, map[])
    ensures RowOf(w, at, fields, map[])[ResponseKey(fields[i])] == FieldValue(w, at, fields[i])
  {
    FirstIsOnly(fields, i);
    RowIsFirstWins(w, at, fields, map[], ResponseKey(fields[i]));
  }

  /** Equal rows have equal values for each field. */
  lemma SameRowSameValue(w: World, at: Place, fields: seq<Field>, i: nat)
    requires i < |fields| && KeysDiffer(fields)
    requires RowOf(w, at, AllUnaliased(fields), map[]) == RowOf(w, at, fields, map[])
    ensures FieldValue(w, at, Unaliased(fields[i])) == FieldValue(w, at, fields[i])
  {
    UnaliasedKeysDiffer(fields);
    UnaliasedKeys(fields);
    RowShows(w, at, fields, i);
    RowShows(w, at, AllUnaliased(fields), i);
  }

  /** A field with the value that it is meant to have. */
  lemma SameValueOwnName(names: seq<string>, at: Place, f: Field)
    requires NamedIn(names, [f]) && NamedIn(names, [Unaliased(f)]) && (at.Top? ==> f.Complex?)
    requires at.At? ==> at.entity in names && at.inst == OneOfEach(names)
    requires FieldValue(TellingWorld(names), at, Unaliased(f)) == FieldValue(TellingWorld(names), at, f)
    ensures f.Scalar? ==> ResponseKey(f) == f.name
    ensures f.Complex? ==>
              var there := At(f.name, OneOfEach(names));
              RowOf(TellingWorld(names), there, AllUnaliased(f.selections), map[]) ==
              RowOf(TellingWorld(names), there, f.selections, map[])
  {
    TellingValue(names, at, f);
    TellingValue(names, at, Unaliased(f));
  }

  lemma NamedAt(names: seq<string>, fields: seq<Field>, i: nat)
    requires i < |fields| && NamedIn(names, fields)
    ensures NamedIn(names, [fields[i]]) && fields[i].name in names
    ensures fields[i].Complex? ==> NamedIn(names, fields[i].selections)
  {
  }

  lemma {:induction false} SameRowOwnNames(names: seq<string>, at: Place, fields: seq<Field>)
    requires NamedIn(names, fields) && DistinctKeys(fields) && (at.Top? ==> AllComplex(fields))
    requires at.At? ==> at.entity in names && at.inst == OneOfEach(names)
    requires RowOf(TellingWorld(names), at, AllUnaliased(fields), map[]) == RowOf(TellingWorld(names), at, fields, map[])
    ensures OwnNames(fields)
    decreases fields
  {
    UnaliasedNamed(names, fields);
    forall i | 0 <= i < |fields|
      ensures fields[i].Scalar? ==> ResponseKey(fields[i]) == fields[i].name
      ensures fields[i].Complex? ==> OwnNames(fields[i].selections)
    {
      var f := fields[i];
      NamedAt(names, fields, i);
      NamedAt(names, AllUnaliased(fields), i);
      AllUnaliasedAt(fields, i);
      SameRowSameValue(TellingWorld(names), at, fields, i);
      SameValueOwnName(names, at, f);
      if f.Complex? {
        SameRowOwnNames(names, At(f.name, OneOfEach(names)), f.selections);
      }
    }
  }

  // ---------------------------------------------------------------------------------------------
  // The names of a query.

  function NamesOf(fields: seq<Field>): seq<string>
    decreases fields
  {
    if fields == [] then []
    else
      [fields[0].name, ResponseKey(fields[0])]
      + (if fields[0].Complex? then NamesOf(fields[0].selections) else [])
      + NamesOf(fields[1..])
  }

  lemma {:induction false} NamedInMore(names: seq<string>, more: seq<string>, fields: seq<Field>)
    requires NamedIn(names, fields) && forall n | n in names :: n in more
    ensures NamedIn(more, fields)
    decreases fields
  {
    forall i | 0 <= i < |fields| && fields[i].Complex? ensures NamedIn(more, fields[i].selections) {
      NamedInMore(names, more, fields[i].selections);
    }
  }

  lemma {:induction false} NamedInOwn(fields: seq<Field>)
    ensures NamedIn(NamesOf(fields), fields)
    decreases fields
  {
    if fields != [] {
      var f, rest, names := fields[0], fields[1..], NamesOf(fields);
      NamedInOwn(rest);
      NamedInMore(NamesOf(rest), names, rest);
      if f.Complex? {
        NamedInOwn(f.selections);
        NamedInMore(NamesOf(f.selections), names, f.selections);
      }
      assert names[0] == f.name && names[1] == ResponseKey(f);
      forall i | 0 <= i < |fields|
        ensures fields[i].name in names && ResponseKey(fields[i]) in names
        ensures fields[i].Complex? ==> NamedIn(names, fields[i].selections)
      {
        assert i > 0 ==> fields[i] == rest[i - 1];
      }
    }
  }

  // ---------------------------------------------------------------------------------------------
  // The exact condition.

  /** A query means one thing and is answered with it in every world. */
  ghost predicate AnsweredAsMeant(query: seq<Field>) {
    forall w | Valid(w) :: Answer(w, AllUnaliased(query)) == Answer(w, query)
  }

  /** The handler's answer is the one meant, in all worlds, exactly when every scalar of the query is asked
      for under its own name. */
  lemma AnsweredAsMeantIff(query: seq<Field>)
    requires AllComplex(query) && DistinctKeys(query)
    ensures AnsweredAsMeant(query) <==> OwnNames(query)
  {
    if OwnNames(query) {
      forall w | Valid(w) ensures Answer(w, AllUnaliased(query)) == Answer(w, query) {
        OwnNamesAnswerSame(w, query);
      }
    } else if AnsweredAsMeant(query) {
      var names := NamesOf(query);
      NamedInOwn(query);
      UnaliasedNamed(names, query);
      UnaliasedKeys(query);
      TellingWorldIsValid(names);
      TellingCheck(names, None, query);
      TellingCheck(names, None, AllUnaliased(query));
      SameRowOwnNames(names, Top, query);
      assert false;
    }
  }

  // ---------------------------------------------------------------------------------------------
  // In one world.


  lemma ShapeTellsRows(isArray: bool, a: seq<Json>, b: seq<Json>)
    requires |a| == |b|
    ensures Shape(isArray, a) == Shape(isArray, b) <==> a == b
  {
  }

  lemma OneField(w: World, at: Place, f: Field)
    ensures RowOf(w, at, [f], map[]) == map[ResponseKey(f) := FieldValue(w, at, f)]
  {
    assert [f][1..] == [];
    assert RowOf(w, at, [f], map[]) == RowOf(w, at, [], Extend(map[], ResponseKey(f), FieldValue(w, at, f)));
  }

  lemma ScalarColumn(w: World, entity: string, instances: seq<Instance>, f: Field)
    requires f.Scalar?
    ensures RowsAt(w, entity, instances, [f]) == OneColumn(instances, f.name, ResponseKey(f))
  {
    forall i | 0 <= i < |instances|
      ensures RowsAt(w, entity, instances, [f])[i] == OneColumn(instances, f.name, ResponseKey(f))[i]
    {
      OneField(w, At(entity, instances[i]), f);
    }
  }

  lemma OneScalar(w: World, entity: string, name: string, key: string, alias: Option<string>)
    requires Valid(w) && entity in w.schema && ResponseKey(Scalar(name, alias)) == key
    ensures var query := [Complex(entity, None, [Scalar(name, alias)])];
            && (name !in w.schema[entity].members ==> Answer(w, query) == Error(NoMember(name)))
            && (name in w.schema[entity].members ==>
                  Answer(w, query) ==
                  Data(Object(map[entity := Shape(w.schema[entity].isArray, OneColumn(w.data[entity], name, key))])))
  {
    var f := Scalar(name, alias);
    var outer := Complex(entity, None, [f]);
    CheckOne(w, Some(entity), f);
    CheckOne(w, None, outer);
    NoConditionsSelectAll(w.data[entity]);
    OneField(w, Top, outer);
    ScalarColumn(w, entity, w.data[entity], f);
  }

  function OneColumn(instances: seq<Instance>, name: string, key: string): seq<Json> {
    seq(|instances|, i requires 0 <= i < |instances| => Object(map[key := Leaf(instances[i].Field(name))]))
  }

  /** One member under an alias: the answer is the one meant exactly when the alias is a member as well and
      has the same value in every instance. */
  lemma AliasedMemberIff(w: World, entity: string, member: string, alias: string)
    requires Valid(w) && entity in w.schema && member in w.schema[entity].members
    ensures var query := [Complex(entity, None, [Scalar(member, Some(alias))])];
            Answer(w, AllUnaliased(query)) == Answer(w, query) <==>
            alias in w.schema[entity].members && forall x | x in w.data[entity] :: x.Field(alias) == x.Field(member)
  {
    var instances := w.data[entity];
    var query := [Complex(entity, None, [Scalar(member, Some(alias))])];
    assert AllUnaliased([Scalar(member, Some(alias))]) == [Scalar(alias, None)];
    assert AllUnaliased(query) == [Complex(entity, None, [Scalar(alias, None)])];
    OneScalar(w, entity, member, alias, Some(alias));
    OneScalar(w, entity, alias, alias, None);
    ShapeTellsRows(w.schema[entity].isArray, OneColumn(instances, alias, alias), OneColumn(instances, member, alias));
    SameColumns(instances, alias, member, alias);
    if alias in w.schema[entity].members {
      var a := Shape(w.schema[entity].isArray, OneColumn(instances, alias, alias));
      var b := Shape(w.schema[entity].isArray, OneColumn(instances, member, alias));
      assert map[entity := a][entity] == a && map[entity := b][entity] == b;
    }
  }

  lemma SameColumns(instances: seq<Instance>, a: string, b: string, key: string)
    ensures OneColumn(instances, a, key) == OneColumn(instances, b, key) <==>
            forall x | x in instances :: x.Field(a) == x.Field(b)
  {
    var ca, cb := OneColumn(instances, a, key), OneColumn(instances, b, key);
    forall i | 0 <= i < |instances| ensures ca[i] == cb[i] <==> instances[i].Field(a) == instances[i].Field(b) {
      assert ca[i].members[key] == Leaf(instances[i].Field(a)) && cb[i].members[key] == Leaf(instances[i].Field(b));
    }
    if ca == cb {
      forall x | x in instances ensures x.Field(a) == x.Field(b) {
        var i :| 0 <= i < |instances| && instances[i] == x;
        assert ca[i] == cb[i];
      }
    } else {
      var i :| 0 <= i < |instances| && ca[i] != cb[i];
      assert instances[i] in instances;
    }
  }
}
