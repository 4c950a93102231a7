// How the members of a cached D-Bus object follow its properties: a fresh read fills them all, and each
// change signal fills those that it names.
module Properties {
  import opened Options
  import opened Entities

  type Members = map<string, Value>

  type Formatter = Value -> Value

  /** A property, the member that reflects it, and what is applied to its value. */
  datatype Setter = Setter(property: string, member: string, formatters: seq<Formatter>)

  datatype Endpoint = Endpoint(iface: string, setters: seq<Setter>)

  type Table = seq<Endpoint>

  function Get(m: Members, k: string): Option<Value> {
    if k in m then Some(m[k]) else None
  }

  // ---------------------------------------------------------------------------------------------
  // Formatting. Formatters are looked up by the name of the property alone.

  function AllSetters(table: Table): seq<Setter> {
    if table == [] then [] else table[0].setters + AllSetters(table[1..])
  }

  function FirstFor(setters: seq<Setter>, property: string): Option<Setter> {
    if setters == [] then None
    else if setters[0].property == property then Some(setters[0])
    else FirstFor(setters[1..], property)
  }

  function Apply(formatters: seq<Formatter>, v: Value): Value {
    if formatters == [] then v else Apply(formatters[1..], formatters[0](v))
  }

  /** A property that no setter reads has no formatters, and asking for them throws. */
  predicate HasFormatters(search: Table, property: string) { FirstFor(AllSetters(search), property).Some? }

  /** The value as the formatters leave it; only asked for where there are any to look up. */
  function Format(search: Table, property: string, v: Value): Value {
    var found := FirstFor(AllSetters(search), property);
    if found.Some? then Apply(found.value.formatters, v) else v
  }

  lemma {:induction false} FirstForAppend(a: seq<Setter>, b: seq<Setter>, property: string)
    ensures FirstFor(a + b, property) == if FirstFor(a, property).Some? then FirstFor(a, property) else FirstFor(b, property)
  {
    if a == [] {
      assert a + b == b;
    } else {
      assert (a + b)[1..] == a[1..] + b;
      FirstForAppend(a[1..], b, property);
    }
  }

  /** The formatter listed last is applied last. */
  lemma {:induction false} LastIsAppliedLast(formatters: seq<Formatter>, f: Formatter, v: Value)
    ensures Apply(formatters + [f], v) == f(Apply(formatters, v))
  {
    if formatters == [] {
      assert [] + [f] == [f] && [f][1..] == [];
    } else {
      LastIsAppliedLast(formatters[1..], f, formatters[0](v));
      assert (formatters + [f])[1..] == formatters[1..] + [f];
    }
  }

  /** No setter in front of the j-th of the k-th endpoint reads the property. */
  ghost predicate IsFirstSetter(search: Table, k: nat, j: nat, property: string) {
    && k < |search| && j < |search[k].setters| && search[k].setters[j].property == property
    && (forall i, s | 0 <= i < k && s in search[i].setters :: s.property != property)
    && forall i | 0 <= i < j :: search[k].setters[i].property != property
  }

  lemma {:induction false} FirstForIs(setters: seq<Setter>, j: nat, property: string)
    requires j < |setters| && setters[j].property == property
    requires forall i | 0 <= i < j :: setters[i].property != property
    ensures FirstFor(setters, property) == Some(setters[j])
  {
    if j > 0 { FirstForIs(setters[1..], j - 1, property); }
  }

  lemma {:induction false} NoneFor(setters: seq<Setter>, property: string)
    requires forall s | s in setters :: s.property != property
    ensures FirstFor(setters, property) == None
  {
    if setters != [] { NoneFor(setters[1..], property); }
  }

  lemma {:induction false} FirstSetterIsFound(search: Table, k: nat, j: nat, property: string)
    requires IsFirstSetter(search, k, j, property)
    ensures FirstFor(AllSetters(search), property) == Some(search[k].setters[j])
  {
    FirstForAppend(search[0].setters, AllSetters(search[1..]), property);
    if k == 0 {
      FirstForIs(search[0].setters, j, property);
    } else {
      NoneFor(search[0].setters, property);
      FirstSetterIsFound(search[1..], k - 1, j, property);
    }
  }

  /** What the first setter's formatters make of a value, the one listed last applied last. */
  lemma FormattedByFirst(search: Table, k: nat, j: nat, property: string, v: Value, front: seq<Formatter>, last: Formatter)
    requires IsFirstSetter(search, k, j, property)
    ensures search[k].setters[j].formatters == [] ==> Format(search, property, v) == v
    ensures search[k].setters[j].formatters == [last] ==> Format(search, property, v) == last(v)
    ensures search[k].setters[j].formatters == front + [last] ==> Format(search, property, v) == last(Apply(front, v))
  {
    FirstSetterIsFound(search, k, j, property);
    LastIsAppliedLast(front, last, v);
    LastIsAppliedLast([], last, v);
    assert [] + [last] == [last];
  }

  method GetFormatters(search: Table, property: string) returns (formatters: Option<seq<Formatter>>)
    ensures formatters == match FirstFor(AllSetters(search), property) case Some(s) => Some(s.formatters) case None => None
  {
    var i := 0;
    while i < |search|
      invariant i <= |search|
      invariant FirstFor(AllSetters(search), property) == FirstFor(AllSetters(search[i..]), property)
    {
      var setters := search[i].setters;
      FirstForAppend(setters, AllSetters(search[i + 1..]), property);
      assert search[i..][1..] == search[i + 1..];
      var j := 0;
      while j < |setters|
        invariant j <= |setters| && FirstFor(setters, property) == FirstFor(setters[j..], property)
      {
        if setters[j].property == property {
          return Some(setters[j].formatters);
        }
        j := j + 1;
      }
      i := i + 1;
    }
    return None;
  }

  /** None for the exception. */
  method ProcessFormatters(search: Table, property: string, value: Value) returns (r: Option<Value>)
    ensures r == if HasFormatters(search, property) then Some(Format(search, property, value)) else None
  {
    var found := GetFormatters(search, property);
    if found.None? {
      return None;
    }
    var formatters, formattedValue := found.value, value;
    var i := 0;
    while i < |formatters|
      invariant i <= |formatters|
      invariant Apply(formatters, value) == Apply(formatters[i..], formattedValue)
    {
      formattedValue := formatters[i](formattedValue);
      i := i + 1;
    }
    return Some(formattedValue);
  }

  // ---------------------------------------------------------------------------------------------
  // Filling members.

  function SettersOf(table: Table, iface: string): seq<Setter> {
    if table == [] then [] else if table[0].iface == iface then table[0].setters else SettersOf(table[1..], iface)
  }

  function FillOne(m: Members, s: Setter, search: Table, properties: Members): Members {
    if s.property in properties then m[s.member := Format(search, s.property, properties[s.property])] else m
  }

  function Fill(m: Members, setters: seq<Setter>, search: Table, properties: Members): Members {
    if setters == [] then m
    else FillOne(Fill(m, setters[..|setters| - 1], search, properties), setters[|setters| - 1], search, properties)
  }

  /** One change signal, or one reply with all properties of an interface. */
  datatype Report = Report(iface: string, changed: Members)

  /** What a query knows of its objects: the tables to look things up in, and the members it derives
      from others after each filling. */
  datatype Query = Query(search: Table, target: Table, derive: Members -> Members) {
    /** An object is made from those endpoints of its query that it has. */
    ghost predicate Built() { forall i | 0 <= i < |target| :: target[i] in search }
  }

  lemma {:induction false} InAllSetters(search: Table, e: Endpoint, s: Setter)
    requires e in search && s in e.setters
    ensures HasFormatters(search, s.property)
  {
    FirstForAppend(search[0].setters, AllSetters(search[1..]), s.property);
    if e == search[0] {
      FirstForSome(e.setters, s);
    } else {
      InAllSetters(search[1..], e, s);
    }
  }

  lemma {:induction false} FirstForSome(setters: seq<Setter>, s: Setter)
    requires s in setters
    ensures FirstFor(setters, s.property).Some?
  {
    if setters[0].property != s.property {
      FirstForSome(setters[1..], s);
    }
  }

  lemma {:induction false} SettersOfEndpoint(table: Table, iface: string)
    requires SettersOf(table, iface) != []
    ensures exists i | 0 <= i < |table| :: table[i].iface == iface && table[i].setters == SettersOf(table, iface)
  {
    if table[0].iface != iface {
      SettersOfEndpoint(table[1..], iface);
      var i :| 0 <= i < |table[1..]| && table[1..][i].iface == iface && table[1..][i].setters == SettersOf(table[1..], iface);
      assert table[i + 1] == table[1..][i];
    }
  }

  /** So the formatters of its properties are always found. */
  lemma BuiltHasFormatters(q: Query, iface: string, s: Setter)
    requires q.Built() && s in SettersOf(q.target, iface)
    ensures HasFormatters(q.search, s.property)
  {
    SettersOfEndpoint(q.target, iface);
    var i :| 0 <= i < |q.target| && q.target[i].iface == iface && q.target[i].setters == SettersOf(q.target, iface);
    InAllSetters(q.search, q.target[i], s);
  }

  function Next(q: Query, m: Members, r: Report): Members {
    q.derive(Fill(m, SettersOf(q.target, r.iface), q.search, r.changed))
  }

  function After(q: Query, m: Members, reports: seq<Report>): Members {
    if reports == [] then m else Next(q, After(q, m, reports[..|reports| - 1]), reports[|reports| - 1])
  }

  type Bus = map<string, Members>

  function FillAll(q: Query, m: Members, target: Table, bus: Bus): Members {
    if target == [] then m
    else
      var before, e := FillAll(q, m, target[..|target| - 1], bus), target[|target| - 1];
      if e.iface in bus then Fill(before, SettersOf(q.target, e.iface), q.search, bus[e.iface]) else before
  }

  /** A fresh read. An interface that is not on the bus cannot be read. */
  function Fresh(q: Query, m: Members, bus: Bus): Members {
    q.derive(FillAll(q, m, q.target, bus))
  }

  predicate AllReadable(target: Table, bus: Bus) { forall i | 0 <= i < |target| :: target[i].iface in bus }

  lemma ReadableOneMore(target: Table, i: nat, bus: Bus)
    requires i < |target|
    ensures AllReadable(target[..i + 1], bus) == (AllReadable(target[..i], bus) && target[i].iface in bus)
  {
    assert forall j | 0 <= j < i :: target[..i + 1][j] == target[..i][j];
    assert target[..i + 1][i] == target[i];
  }

  class DBusInstance {
    const query: Query
    var members: Members
    var state: bool

    ghost predicate Valid() { query.Built() }

    constructor (query: Query)
      requires query.Built()
      ensures Valid() && this.query == query && members == map[] && !state
    {
      this.query, members, state := query, map[], false;
    }

    method FillMembers(iface: string, properties: Members)
      requires Valid()
      modifies this`members
      ensures members == Fill(old(members), SettersOf(query.target, iface), query.search, properties)
    {
      var setters := SettersOf(query.target, iface);
      for i := 0 to |setters|
        invariant members == Fill(old(members), setters[..i], query.search, properties)
      {
        assert setters[..i + 1][..i] == setters[..i];
        var s := setters[i];
        if s.property !in properties {
          continue;
        }
        var formattedValue := ProcessFormatters(query.search, s.property, properties[s.property]);
        BuiltHasFormatters(query, iface, s);
        members := members[s.member := formattedValue.value];
      }
      assert setters[..|setters|] == setters;
    }

    method OnPropertiesChanged(r: Report)
      requires Valid()
      modifies this`members
      ensures members == Next(query, old(members), r)
    {
      FillMembers(r.iface, r.changed);
      members := query.derive(members);
    }

    /** Before it is used, an object that is not initialized is read again. */
    method VerifyState(bus: Bus)
      requires Valid()
      modifies this
      ensures members == if old(state) then old(members) else Fresh(query, old(members), bus)
      ensures state == (old(state) || AllReadable(query.target, bus))
    {
      if !state {
        Initialize(bus);
      }
    }

    method Initialize(bus: Bus)
      requires Valid()
      modifies this
      ensures members == Fresh(query, old(members), bus)
      ensures state == AllReadable(query.target, bus)
    {
      var hasError := false;
      state := false;
      for i := 0 to |query.target|
        invariant members == FillAll(query, old(members), query.target[..i], bus)
        invariant !state && hasError == !AllReadable(query.target[..i], bus)
      {
        assert query.target[..i + 1][..i] == query.target[..i];
        ReadableOneMore(query.target, i, bus);
        var iface := query.target[i].iface;
        if iface !in bus {
          hasError := true;
          continue;
        }
        FillMembers(iface, bus[iface]);
      }
      assert query.target[..|query.target|] == query.target;
      members := query.derive(members);
      if !hasError {
        state := true;
      }
    }
  }

  // ---------------------------------------------------------------------------------------------
  // Incremental filling agrees with a fresh read.

  /** A member that reflects one property of one interface, and that the derived members leave alone. */
  ghost predicate Reflects(q: Query, iface: string, property: string, member: string) {
    && (exists s | s in SettersOf(q.target, iface) :: s.property == property && s.member == member)
    && (forall f, s | s in SettersOf(q.target, f) && s.member == member :: f == iface && s.property == property)
    && (forall m :: Get(q.derive(m), member) == Get(m, member))
  }

  predicate HasSetter(setters: seq<Setter>, member: string) {
    exists i | 0 <= i < |setters| :: setters[i].member == member
  }

  lemma {:induction false} FillGives(m: Members, setters: seq<Setter>, search: Table, properties: Members,
                                     property: string, member: string)
    requires forall s | s in setters && s.member == member :: s.property == property
    ensures Get(Fill(m, setters, search, properties), member) ==
            if HasSetter(setters, member) && property in properties
            then Some(Format(search, property, properties[property])) else Get(m, member)
  {
    if setters != [] {
      var n := |setters| - 1;
      FillGives(m, setters[..n], search, properties, property, member);
      assert setters[n] in setters;
      assert forall i | 0 <= i < n :: setters[..n][i] == setters[i];
      if HasSetter(setters, member) && setters[n].member != member {
        var i :| 0 <= i < |setters| && setters[i].member == member;
        assert setters[..n][i].member == member;
      }
    }
  }

  /** The value last reported for a property. */
  function LastReported(reports: seq<Report>, iface: string, property: string): Option<Value> {
    if reports == [] then None
    else
      var r := reports[|reports| - 1];
      if r.iface == iface && property in r.changed then Some(r.changed[property])
      else LastReported(reports[..|reports| - 1], iface, property)
  }

  function Formatted(q: Query, property: string, v: Option<Value>, otherwise: Option<Value>): Option<Value> {
    if v.Some? then Some(Format(q.search, property, v.value)) else otherwise
  }

  lemma NextGives(q: Query, m: Members, r: Report, iface: string, property: string, member: string)
    requires Reflects(q, iface, property, member)
    ensures Get(Next(q, m, r), member) ==
            if r.iface == iface && property in r.changed then Some(Format(q.search, property, r.changed[property]))
            else Get(m, member)
  {
    FillGives(m, SettersOf(q.target, r.iface), q.search, r.changed, property, member);
    OnlyItsInterface(q, r.iface, iface, property, member);
  }

  /** After any run of change signals such a member holds the format of its last reported value. */
  lemma {:induction false} IncrementalGives(q: Query, m: Members, reports: seq<Report>, iface: string, property: string, member: string)
    requires Reflects(q, iface, property, member)
    ensures Get(After(q, m, reports), member) == Formatted(q, property, LastReported(reports, iface, property), Get(m, member))
  {
    if reports != [] {
      var n := |reports| - 1;
      IncrementalGives(q, m, reports[..n], iface, property, member);
      NextGives(q, After(q, m, reports[..n]), reports[n], iface, property, member);
    }
  }

  function OnBus(bus: Bus, iface: string, property: string): Option<Value> {
    if iface in bus then Get(bus[iface], property) else None
  }

  lemma {:induction false} FillAllGives(q: Query, m: Members, n: nat, bus: Bus, iface: string, property: string, member: string)
    requires Reflects(q, iface, property, member) && n <= |q.target|
    ensures Get(FillAll(q, m, q.target[..n], bus), member) ==
            if exists i | 0 <= i < n :: q.target[i].iface == iface
            then Formatted(q, property, OnBus(bus, iface, property), Get(m, member)) else Get(m, member)
    decreases n
  {
    if n > 0 {
      FillAllGives(q, m, n - 1, bus, iface, property, member);
      var before := FillAll(q, m, q.target[..n - 1], bus);
      assert q.target[..n][..n - 1] == q.target[..n - 1];
      var f := q.target[n - 1].iface;
      if f in bus {
        FillGives(before, SettersOf(q.target, f), q.search, bus[f], property, member);
        OnlyItsInterface(q, f, iface, property, member);
      }
    }
  }

  lemma OnlyItsInterface(q: Query, f: string, iface: string, property: string, member: string)
    requires Reflects(q, iface, property, member)
    ensures HasSetter(SettersOf(q.target, f), member) <==> f == iface
  {
    var setters := SettersOf(q.target, f);
    assert forall i | 0 <= i < |setters| :: setters[i] in setters;
    if f == iface {
      var s :| s in setters && s.property == property && s.member == member;
    }
  }

  /** What is on the bus after the changes that a run of signals reports. */
  function BusAfter(bus: Bus, reports: seq<Report>): Bus {
    if reports == [] then bus
    else
      var before, r := BusAfter(bus, reports[..|reports| - 1]), reports[|reports| - 1];
      before[r.iface := (if r.iface in before then before[r.iface] else map[]) + r.changed]
  }

  lemma {:induction false} OnBusAfter(bus: Bus, reports: seq<Report>, iface: string, property: string)
    ensures OnBus(BusAfter(bus, reports), iface, property) ==
            if LastReported(reports, iface, property).Some? then LastReported(reports, iface, property)
            else OnBus(bus, iface, property)
  {
    if reports != [] {
      OnBusAfter(bus, reports[..|reports| - 1], iface, property);
    }
  }

  lemma FreshGives(q: Query, m: Members, bus: Bus, iface: string, property: string, member: string)
    requires Reflects(q, iface, property, member)
    ensures Get(Fresh(q, m, bus), member) == Formatted(q, property, OnBus(bus, iface, property), Get(m, member))
  {
    SettersOfEndpoint(q.target, iface);
    FillAllGives(q, m, |q.target|, bus, iface, property, member);
    assert q.target[..|q.target|] == q.target;
  }

  /** An object read once and kept up to date by signals agrees with one read afresh from the bus as it
      is then. */
  lemma IncrementalEqualsFresh(q: Query, m: Members, bus: Bus, reports: seq<Report>, iface: string, property: string, member: string)
    requires Reflects(q, iface, property, member)
    ensures Get(After(q, Fresh(q, m, bus), reports), member) == Get(Fresh(q, m, BusAfter(bus, reports)), member)
  {
    IncrementalGives(q, Fresh(q, m, bus), reports, iface, property, member);
    OnBusAfter(bus, reports, iface, property);
    FreshGives(q, m, bus, iface, property, member);
    FreshGives(q, m, BusAfter(bus, reports), iface, property, member);
  }

  /** A member holds its own setter's format of whatever is reported exactly when the first setter of that
      property, on whatever interface, formats every value alike. */
  lemma OwnFormattersIff(q: Query, iface: string, own: Setter)
    requires q.Built() && own in SettersOf(q.target, iface) && Reflects(q, iface, own.property, own.member)
    ensures HasFormatters(q.search, own.property)
    ensures (forall m, v ::
               Get(Next(q, m, Report(iface, map[own.property := v])), own.member) == Some(Apply(own.formatters, v))) <==>
            forall v ::
              Apply(FirstFor(AllSetters(q.search), own.property).value.formatters, v) == Apply(own.formatters, v)
  {
    BuiltHasFormatters(q, iface, own);
    forall m, v
      ensures Get(Next(q, m, Report(iface, map[own.property := v])), own.member) == Some(Format(q.search, own.property, v))
    {
      NextGives(q, m, Report(iface, map[own.property := v]), iface, own.property, own.member);
    }
    var first := FirstFor(AllSetters(q.search), own.property).value;
    if forall m, v :: Get(Next(q, m, Report(iface, map[own.property := v])), own.member) == Some(Apply(own.formatters, v)) {
      forall v ensures Apply(first.formatters, v) == Apply(own.formatters, v) {
        assert Get(Next(q, map[], Report(iface, map[own.property := v])), own.member) == Some(Apply(own.formatters, v));
      }
    }
  }

  /** Two interfaces that share a property name: the second member shows the format of the first. */
  lemma SecondTakesFirstFormatters(a: Setter, b: Setter, v: Value)
    requires a.property == b.property && a.member != b.member
    ensures var table := [Endpoint("a", [a]), Endpoint("b", [b])];
            var q := Query(table, table, m => m);
            Get(Next(q, map[], Report("b", map[b.property := v])), b.member) == Some(Apply(a.formatters, v))
  {
    var table := [Endpoint("a", [a]), Endpoint("b", [b])];
    assert AllSetters(table)[0] == a;
    assert table[1..] == [Endpoint("b", [b])];
    assert SettersOf(table, "b") == [b];
    assert [b][..0] == [];
  }
}
