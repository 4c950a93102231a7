// The parameter that a Redfish request has accepted last, and the instances that the next one is searched
// among.
module Parameters {
  import opened Options
  import opened Entities
  import opened UriText

  /** The last instance that was found for a parameter in the URI, with its entity. */
  datatype Ctx = NoParameter | Parameter(entity: string, inst: Instance)

  function RelationTo(w: World, ctx: Ctx, entity: string): Option<Relation> {
    if ctx.Parameter? && ctx.entity in w.schema then FirstRelation(w.schema[ctx.entity].relations, entity) else None
  }

  /** The entity that is asked for is the current one and is related to itself. */
  predicate SelfRelated(w: World, ctx: Ctx, entity: string) {
    ctx.Parameter? && ctx.entity == entity && RelationTo(w, ctx, entity).Some?
  }

  /** Whom a parameter is searched among: the related instances of the current one where its entity is
      related to the one asked for, the current one itself where it is of that entity, and all otherwise. */
  function Candidates(w: World, ctx: Ctx, entity: string): seq<Instance> {
    var relation := RelationTo(w, ctx, entity);
    if relation.Some? then
      Select(Instances(w, entity), ConditionsOf(relation.value.rules, Find(Instances(w, ctx.entity), ctx.inst.hash)))
    else if ctx.Parameter? && ctx.entity == entity then [ctx.inst]
    else Instances(w, entity)
  }

  /** Those of them that meet the conditions; an entity that is related to itself has its current instance
      in place of none. */
  function Found(w: World, ctx: Ctx, entity: string, conditions: seq<Condition>): seq<Instance> {
    var hits := Select(Candidates(w, ctx, entity), conditions);
    if hits == [] && SelfRelated(w, ctx, entity) then [ctx.inst] else hits
  }

  function Verified(w: World, ctx: Ctx, entity: string, conditions: seq<Condition>): Option<Ctx> {
    var found := Found(w, ctx, entity, conditions);
    if found == [] then None else Some(Parameter(entity, found[0]))
  }

  lemma {:induction false} SelectTwice(instances: seq<Instance>, a: seq<Condition>, b: seq<Condition>)
    ensures Select(instances, a + b) == Select(Select(instances, a), b)
  {
    if instances != [] {
      var x, rest := instances[0], instances[1..];
      SelectTwice(rest, a, b);
      PassesBoth(x, a, b);
      SelectAppend(if Passes(x, a) then [x] else [], Select(rest, a), b);
      assert [x][1..] == [];
      assert Select([x], b) == if Passes(x, b) then [x] else [];
    }
  }

  lemma PassesBoth(x: Instance, a: seq<Condition>, b: seq<Condition>)
    ensures Passes(x, a + b) <==> Passes(x, a) && Passes(x, b)
  {
    if Passes(x, a + b) {
      assert forall i | 0 <= i < |a| :: (a + b)[i] == a[i];
      assert forall i | 0 <= i < |b| :: (a + b)[|a| + i] == b[i];
    }
  }

  lemma SelectOne(x: Instance, conditions: seq<Condition>)
    ensures Select([x], conditions) == if Passes(x, conditions) then [x] else []
  {
    assert [x][1..] == [];
  }

  /** A relation of the current entity whose rules ask for a source member that is missing: to follow it
      throws. */
  function MissingMember(w: World, ctx: Ctx, entity: string): Option<string> {
    var relation := RelationTo(w, ctx, entity);
    if relation.Some? then Unresolved(relation.value.rules, w.schema[ctx.entity].members) else None
  }

  ghost predicate ValidCtx(w: World, ctx: Ctx) { ctx.Parameter? ==> ctx.entity in w.schema }

  class RedfishContext {
    var parameterCtx: Ctx

    constructor ()
      ensures parameterCtx == NoParameter
    {
      parameterCtx := NoParameter;
    }

    method GetInstances(w: World, entity: string, conditions: seq<Condition>)
      returns (found: seq<Instance>, missing: Option<string>)
      requires Entities.Valid(w) && ValidCtx(w, parameterCtx) && entity in w.schema
      ensures missing == MissingMember(w, parameterCtx, entity)
      ensures missing.None? ==> found == Found(w, parameterCtx, entity, conditions)
    {
      if parameterCtx.Parameter? {
        var relation := GetRelation(w.schema[parameterCtx.entity], entity);
        var isSameEntity := parameterCtx.entity == entity;
        if isSameEntity && relation.None? {
          SelectOne(parameterCtx.inst, conditions);
          var passed := CheckConditions(parameterCtx.inst, conditions);
          return if passed then [parameterCtx.inst] else [], None;
        }
        if relation.Some? {
          found, missing := GetRelatedInstances(w, relation.value, conditions);
          if missing.Some? {
            return;
          }
          if found == [] && isSameEntity {
            return [parameterCtx.inst], None;
          }
          return;
        }
      }
      found := Entities.GetInstances(w.data[entity], conditions);
      missing := None;
    }

    method GetRelatedInstances(w: World, relation: Relation, conditions: seq<Condition>)
      returns (related: seq<Instance>, missing: Option<string>)
      requires Entities.Valid(w) && parameterCtx.Parameter? && parameterCtx.entity in w.schema
      requires relation.dest in w.schema && RelationTo(w, parameterCtx, relation.dest) == Some(relation)
      ensures missing == MissingMember(w, parameterCtx, relation.dest)
      ensures missing.None? ==> related == Select(Candidates(w, parameterCtx, relation.dest), conditions)
    {
      var source := parameterCtx.entity;
      var relConditions;
      relConditions, missing := GetConditions(w.schema[source], w.data[source], relation.rules, parameterCtx.inst.hash);
      if missing.Some? {
        return [], missing;
      }
      SelectTwice(w.data[relation.dest], relConditions, conditions);
      related := Entities.GetInstances(w.data[relation.dest], relConditions + conditions);
    }

    /** A parameter is accepted if an instance is found, which then is the current one. */
    method VerifyParameter(w: World, entity: string, conditions: seq<Condition>)
      returns (accepted: bool, missing: Option<string>)
      requires Entities.Valid(w) && ValidCtx(w, parameterCtx) && entity in w.schema
      modifies this
      ensures missing == MissingMember(w, old(parameterCtx), entity)
      ensures missing.None? ==> (accepted <==> Verified(w, old(parameterCtx), entity, conditions).Some?)
      ensures missing.None? && accepted ==> Some(parameterCtx) == Verified(w, old(parameterCtx), entity, conditions)
      ensures missing.Some? || !accepted ==> parameterCtx == old(parameterCtx)
      ensures ValidCtx(w, parameterCtx)
    {
      accepted := false;
      var instances;
      instances, missing := GetInstances(w, entity, conditions);
      if missing.Some? || instances == [] {
        return;
      }
      parameterCtx := Parameter(entity, instances[0]);
      accepted := true;
    }
  }

  // ---------------------------------------------------------------------------------------------
  // Parameters that are names.

  /** What a parameterized node declares: its entity, the field that the segment names, and the conditions
      that hold for every segment. */
  datatype Declared = Declared(entity: string, field: string, statics: seq<Condition>)

  /** Equal texts; a field that is null shows as the text "N/A". */
  function EqualText(left: Option<Value>, right: Value): bool {
    left.Some? && Shown(left.value).Str? && right.Str? && Shown(left.value) == right
  }

  /** The dummy field has no value to compare. */
  predicate HasName(x: Instance, d: Declared, name: string) {
    d.field != DUMMY_FIELD && Shown(x.Field(d.field)) == Str(name)
  }

  /** The field as text; a field of another type reads like one that is null. */
  function NameOf(x: Instance, d: Declared): string {
    if Shown(x.Field(d.field)).Str? then Shown(x.Field(d.field)).s else NOT_AVAILABLE.s
  }

  function ConditionsFor(d: Declared, segment: string): seq<Condition> {
    [Condition(d.field, Str(DecodeUriSegment(segment)), EqualText)] + d.statics
  }

  /** The candidates that a node has names for, and those that have the name. */
  function Named(w: World, ctx: Ctx, d: Declared): seq<Instance> {
    Select(Candidates(w, ctx, d.entity), d.statics)
  }

  function Hits(w: World, ctx: Ctx, d: Declared, segment: string): seq<Instance> {
    Select(Candidates(w, ctx, d.entity), ConditionsFor(d, segment))
  }

  function Accepted(w: World, ctx: Ctx, d: Declared, segment: string): Option<Ctx> {
    Verified(w, ctx, d.entity, ConditionsFor(d, segment))
  }

  lemma PassesFor(x: Instance, d: Declared, segment: string)
    ensures Passes(x, ConditionsFor(d, segment)) <==> HasName(x, d, DecodeUriSegment(segment)) && Passes(x, d.statics)
  {
    var name := [Condition(d.field, Str(DecodeUriSegment(segment)), EqualText)];
    PassesBoth(x, name, d.statics);
    assert Passes(x, name) <==> Holds(name[0], x);
  }

  lemma HitsAreNamed(w: World, ctx: Ctx, d: Declared, segment: string, x: Instance)
    ensures x in Hits(w, ctx, d, segment) <==> x in Named(w, ctx, d) && HasName(x, d, DecodeUriSegment(segment))
  {
    SelectExactly(Candidates(w, ctx, d.entity), ConditionsFor(d, segment), x);
    SelectExactly(Candidates(w, ctx, d.entity), d.statics, x);
    PassesFor(x, d, segment);
  }

  predicate SomeHasName(xs: seq<Instance>, d: Declared, name: string) {
    exists i | 0 <= i < |xs| :: HasName(xs[i], d, name)
  }

  lemma HitsIff(w: World, ctx: Ctx, d: Declared, segment: string)
    ensures Hits(w, ctx, d, segment) != [] <==> SomeHasName(Named(w, ctx, d), d, DecodeUriSegment(segment))
  {
    var hits, named := Hits(w, ctx, d, segment), Named(w, ctx, d);
    if hits != [] {
      HitsAreNamed(w, ctx, d, segment, hits[0]);
      var i :| 0 <= i < |named| && named[i] == hits[0];
    }
    if i :| 0 <= i < |named| && HasName(named[i], d, DecodeUriSegment(segment)) {
      HitsAreNamed(w, ctx, d, segment, named[i]);
    }
  }

  /** A segment is accepted for a candidate that has the name, the first of them; without one only where the
      entity is the current one and related to itself, and the parameter stays as it was. */
  lemma AcceptedIff(w: World, ctx: Ctx, d: Declared, segment: string)
    ensures var named, name := Named(w, ctx, d), DecodeUriSegment(segment);
            && (SomeHasName(named, d, name) ==>
                  && Accepted(w, ctx, d, segment).Some?
                  && Accepted(w, ctx, d, segment).value.Parameter?
                  && Accepted(w, ctx, d, segment).value.entity == d.entity
                  && Accepted(w, ctx, d, segment).value.inst in named
                  && HasName(Accepted(w, ctx, d, segment).value.inst, d, name))
            && (!SomeHasName(named, d, name) ==>
                  Accepted(w, ctx, d, segment) == if SelfRelated(w, ctx, d.entity) then Some(ctx) else None)
  {
    HitsIff(w, ctx, d, segment);
    var hits := Hits(w, ctx, d, segment);
    if hits != [] { HitsAreNamed(w, ctx, d, segment, hits[0]); }
  }

  function Longest(xs: seq<Instance>, d: Declared): (n: nat)
    ensures forall i | 0 <= i < |xs| :: |NameOf(xs[i], d)| <= n
  {
    if xs == [] then 0
    else
      var rest, first := Longest(xs[1..], d), |NameOf(xs[0], d)|;
      if first > rest then first else rest
  }

  /** A node answers every segment exactly where its entity is the current one and related to itself. */
  lemma AnswersEverySegmentIff(w: World, ctx: Ctx, d: Declared)
    ensures (forall segment :: Accepted(w, ctx, d, segment).Some?) <==> SelfRelated(w, ctx, d.entity)
  {
    if SelfRelated(w, ctx, d.entity) {
      forall segment ensures Accepted(w, ctx, d, segment).Some? {
        AcceptedIff(w, ctx, d, segment);
      }
    } else {
      var named := Named(w, ctx, d);
      var long: string := seq(Longest(named, d) + 1, _ => 'a');
      SegmentIsReadBackIff(long);
      AcceptedIff(w, ctx, d, EncodeUriSegment(long));
      forall i | 0 <= i < |named| ensures !HasName(named[i], d, long) {
        assert |NameOf(named[i], d)| <= Longest(named, d);
      }
      assert Accepted(w, ctx, d, EncodeUriSegment(long)).None?;
    }
  }

  /** A node on the way to another looks at its segment twice, the second time with the instance it has just
      found: that one stays unless it is related to an instance of its entity that has the same name. */
  lemma SecondLook(w: World, ctx: Ctx, d: Declared, segment: string)
    requires Accepted(w, ctx, d, segment).Some?
    ensures var here := Accepted(w, ctx, d, segment).value;
            Accepted(w, here, d, segment) ==
            if SelfRelated(w, here, d.entity) && Hits(w, here, d, segment) != []
            then Some(Parameter(d.entity, Hits(w, here, d, segment)[0])) else Some(here)
  {
    var here := Accepted(w, ctx, d, segment).value;
    var hits := Hits(w, ctx, d, segment);
    if !SelfRelated(w, here, d.entity) {
      assert RelationTo(w, here, d.entity).None?;
      assert hits != [] ==> here.inst == hits[0];
      assert hits == [] ==> SelfRelated(w, ctx, d.entity) && here == ctx;
      SelectExactly(Candidates(w, ctx, d.entity), ConditionsFor(d, segment), hits[0]);
      SelectOne(here.inst, ConditionsFor(d, segment));
    }
  }

  /** Below an instance of the same entity, where that is not related to itself, only its own name is accepted. */
  lemma SameEntityIff(w: World, ctx: Ctx, d: Declared, segment: string)
    requires ctx.Parameter? && ctx.entity == d.entity && RelationTo(w, ctx, d.entity).None?
    ensures Accepted(w, ctx, d, segment) ==
            if HasName(ctx.inst, d, DecodeUriSegment(segment)) && Passes(ctx.inst, d.statics) then Some(ctx) else None
  {
    SelectOne(ctx.inst, ConditionsFor(d, segment));
    PassesFor(ctx.inst, d, segment);
  }

  /** Where the entity is related to another, only the names of related instances are. */
  lemma RelatedEntityIff(w: World, ctx: Ctx, d: Declared, segment: string)
    requires ctx.Parameter? && ctx.entity != d.entity && RelationTo(w, ctx, d.entity).Some?
    ensures var rules := RelationTo(w, ctx, d.entity).value.rules;
            Accepted(w, ctx, d, segment).Some? <==>
            exists x | x in Instances(w, d.entity) ::
              && Passes(x, ConditionsOf(rules, Find(Instances(w, ctx.entity), ctx.inst.hash)))
              && Passes(x, d.statics) && HasName(x, d, DecodeUriSegment(segment))
  {
    var rules := RelationTo(w, ctx, d.entity).value.rules;
    var related := ConditionsOf(rules, Find(Instances(w, ctx.entity), ctx.inst.hash));
    AcceptedIff(w, ctx, d, segment);
    var named := Named(w, ctx, d);
    forall x
      ensures x in named <==> x in Instances(w, d.entity) && Passes(x, related) && Passes(x, d.statics)
    {
      SelectExactly(Instances(w, d.entity), related, x);
      SelectExactly(Candidates(w, ctx, d.entity), d.statics, x);
    }
    if i :| 0 <= i < |named| && HasName(named[i], d, DecodeUriSegment(segment)) {
      assert named[i] in named;
    }
  }

  // ---------------------------------------------------------------------------------------------
  // A parameter that nothing accepted before it bears on.

  /** The text that a segment stands for, character by character. */
  predicate ReadsAs(segment: string, name: string) {
    |name| == |segment| && forall i | 0 <= i < |segment| :: name[i] == if segment[i] == '_' then ' ' else segment[i]
  }

  /** A field that is missing or null has the text "N/A". */
  predicate FieldIs(x: Instance, field: string, text: string) {
    if field in x.fields && x.fields[field] != Null then x.fields[field] == Str(text) else text == "N/A"
  }

  lemma {:induction false} SelectFirst(instances: seq<Instance>, conditions: seq<Condition>, i: nat)
    requires i < |instances| && Passes(instances[i], conditions)
    requires forall j | 0 <= j < i :: !Passes(instances[j], conditions)
    ensures Select(instances, conditions) != [] && Select(instances, conditions)[0] == instances[i]
  {
    if i > 0 {
      assert instances[1..][i - 1] == instances[i];
      SelectFirst(instances[1..], conditions, i - 1);
    }
  }

  /** Without a related parameter a segment is accepted for the first instance of the entity whose field has the
      segment's text and that meets the other conditions, and for none if there is none. */
  lemma UnrelatedExactly(w: World, ctx: Ctx, d: Declared, segment: string, name: string)
    requires d.entity in w.data && d.field != "_" && ReadsAs(segment, name)
    requires ctx.Parameter? ==> ctx.entity != d.entity
    requires ctx.Parameter? && ctx.entity in w.schema ==>
               forall i | 0 <= i < |w.schema[ctx.entity].relations| :: w.schema[ctx.entity].relations[i].dest != d.entity
    ensures var xs := w.data[d.entity];
            && (forall i | 0 <= i < |xs| && FieldIs(xs[i], d.field, name) && Passes(xs[i], d.statics) &&
                  (forall j | 0 <= j < i :: !FieldIs(xs[j], d.field, name) || !Passes(xs[j], d.statics)) ::
                  Accepted(w, ctx, d, segment) == Some(Parameter(d.entity, xs[i])))
            && ((forall i | 0 <= i < |xs| :: !FieldIs(xs[i], d.field, name) || !Passes(xs[i], d.statics)) ==>
                  Accepted(w, ctx, d, segment) == None)
  {
    var xs, conditions := w.data[d.entity], ConditionsFor(d, segment);
    assert name == DecodeUriSegment(segment);
    forall i | 0 <= i < |xs|
      ensures Passes(xs[i], conditions) <==> FieldIs(xs[i], d.field, name) && Passes(xs[i], d.statics)
    {
      PassesFor(xs[i], d, segment);
    }
    assert RelationTo(w, ctx, d.entity).None?;
    assert Candidates(w, ctx, d.entity) == xs;
    forall i | 0 <= i < |xs| && Passes(xs[i], conditions) && forall j | 0 <= j < i :: !Passes(xs[j], conditions)
      ensures Accepted(w, ctx, d, segment) == Some(Parameter(d.entity, xs[i]))
    {
      SelectFirst(xs, conditions, i);
    }
    var hits := Select(xs, conditions);
    if hits != [] {
      SelectExactly(xs, conditions, hits[0]);
    }
  }
}
