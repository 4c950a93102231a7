// The boot fields of the server: what the ordered pass of its supplement providers leaves in them.
module ServerBoot {
  import opened Entities

  type Fields = map<string, Value>

  const BOOT_OVERRIDE_TYPE := "BootOverrideType"
  const MODE := "Mode"
  const TYPE := "Type"
  const SOURCE := "Source"
  const ONE_TIME := "OneTime"
  const RETRY_CONFIG := "RetryConfig"
  const ATTEMPTS_LEFT := "AttemptsLeft"

  /** Enumerators, by number. */
  const OVERRIDE_CONTINUOUS := Num(0)
  const OVERRIDE_ONCE := Num(1)
  const OVERRIDE_NONE := Num(2)
  const MODE_NONE := Num(6)
  const RETRY_ATTEMPTS := Num(0)

  /** A field that was never set reads as null. */
  function Field(f: Fields, name: string): Value {
    if name in f then f[name] else Null
  }

  predicate IsMeta(name: string) { "__meta_" <= name }

  /** What copying a provider's instance writes: all but its metadata, null as the text "N/A". */
  function Copied(p: Fields): Fields {
    map k | k in p && !IsMeta(k) :: Shown(p[k])
  }

  class TargetInstance {
    var memberInstances: Fields

    constructor (fields: Fields)
      ensures memberInstances == fields
    {
      memberInstances := fields;
    }

    method SetField(name: string, value: Value)
      modifies this
      ensures memberInstances == old(memberInstances)[name := value]
    {
      memberInstances := memberInstances[name := value];
    }

    /** Sets the fields that have default values. */
    method InitDefaultFieldsValue(defaults: Fields)
      modifies this
      ensures memberInstances == old(memberInstances) + defaults
    {
      var names := defaults.Keys;
      while names != {}
        invariant names <= defaults.Keys
        invariant memberInstances == old(memberInstances) + (map k | k in defaults && k !in names :: defaults[k])
        decreases |names|
      {
        var name :| name in names;
        names := names - {name};
        SetField(name, defaults[name]);
      }
    }

    method SupplementOrUpdate(destination: Fields)
      modifies this
      ensures memberInstances == old(memberInstances) + Copied(destination)
    {
      var names := destination.Keys;
      ghost var copied := Copied(destination);
      while names != {}
        invariant names <= destination.Keys
        invariant memberInstances.Keys == old(memberInstances).Keys + (copied.Keys - names)
        invariant forall k | k in memberInstances ::
                    memberInstances[k] == if k in copied && k !in names then copied[k] else old(memberInstances)[k]
        decreases |names|
      {
        var name :| name in names;
        names := names - {name};
        if IsMeta(name) {
          continue;
        }
        SetField(name, Shown(destination[name]));
      }
    }
  }

  // ---------------------------------------------------------------------------------------------
  // The links.

  predicate HasMode(p: Fields) {
    Field(p, MODE) != Null && Field(p, MODE) != MODE_NONE
  }

  predicate IsOneTime(p: Fields) { Field(p, ONE_TIME) == Flag(true) }

  function AfterHostBoot(target: Fields, p: Fields): Fields {
    var reset := target[BOOT_OVERRIDE_TYPE := OVERRIDE_NONE][MODE := MODE_NONE][TYPE := Null];
    if HasMode(p) then (reset + Copied(p))[BOOT_OVERRIDE_TYPE := OVERRIDE_CONTINUOUS] else reset
  }

  function AfterHostBootOnce(target: Fields, p: Fields): Fields {
    if HasMode(p) && IsOneTime(p) then (target + Copied(p))[BOOT_OVERRIDE_TYPE := OVERRIDE_ONCE] else target
  }

  function AfterRebootAttempts(target: Fields, p: Fields): Fields {
    var reset := target[ATTEMPTS_LEFT := Null];
    if Field(target, RETRY_CONFIG) == RETRY_ATTEMPTS then reset + Copied(p) else reset
  }

  method LinkHostBoot(p: Fields, target: TargetInstance)
    modifies target
    ensures target.memberInstances == AfterHostBoot(old(target.memberInstances), p)
  {
    target.SetField(BOOT_OVERRIDE_TYPE, OVERRIDE_NONE);
    target.SetField(MODE, MODE_NONE);
    target.SetField(TYPE, Null);
    if HasMode(p) {
      target.SupplementOrUpdate(p);
      target.SetField(BOOT_OVERRIDE_TYPE, OVERRIDE_CONTINUOUS);
    }
  }

  method LinkHostBootOnce(p: Fields, target: TargetInstance)
    modifies target
    ensures target.memberInstances == AfterHostBootOnce(old(target.memberInstances), p)
  {
    if HasMode(p) && IsOneTime(p) {
      target.SupplementOrUpdate(p);
      target.SetField(BOOT_OVERRIDE_TYPE, OVERRIDE_ONCE);
    }
  }

  method LinkRebootAttempts(p: Fields, target: TargetInstance)
    modifies target
    ensures target.memberInstances == AfterRebootAttempts(old(target.memberInstances), p)
  {
    var config := Field(target.memberInstances, RETRY_CONFIG);
    target.SetField(ATTEMPTS_LEFT, Null);
    if config == RETRY_ATTEMPTS {
      target.SupplementOrUpdate(p);
    }
  }

  // ---------------------------------------------------------------------------------------------
  // The pass.

  /** How a provider is linked. */
  datatype Link = Default | RebootAttempts | Boot | BootOnce

  /** A provider: its link and its instances. */
  datatype Provider = Provider(link: Link, instances: seq<Fields>)

  function Linked(target: Fields, link: Link, p: Fields): Fields {
    match link
    case Default => target + Copied(p)
    case RebootAttempts => AfterRebootAttempts(target, p)
    case Boot => AfterHostBoot(target, p)
    case BootOnce => AfterHostBootOnce(target, p)
  }

  function Supplemented(target: Fields, link: Link, instances: seq<Fields>): Fields {
    if instances == [] then target
    else Linked(Supplemented(target, link, instances[..|instances| - 1]), link, instances[|instances| - 1])
  }

  function Pass(target: Fields, providers: seq<Provider>): Fields {
    if providers == [] then target
    else
      var p := providers[|providers| - 1];
      Supplemented(Pass(target, providers[..|providers| - 1]), p.link, p.instances)
  }

  method SupplementInstance(target: TargetInstance, provider: Provider)
    modifies target
    ensures target.memberInstances == Supplemented(old(target.memberInstances), provider.link, provider.instances)
  {
    var instances := provider.instances;
    for i := 0 to |instances|
      invariant target.memberInstances == Supplemented(old(target.memberInstances), provider.link, instances[..i])
    {
      assert instances[..i + 1][..i] == instances[..i];
      match provider.link {
        case Default => target.SupplementOrUpdate(instances[i]);
        case RebootAttempts => LinkRebootAttempts(instances[i], target);
        case Boot => LinkHostBoot(instances[i], target);
        case BootOnce => LinkHostBootOnce(instances[i], target);
      }
    }
    assert instances[..|instances|] == instances;
  }

  /** Every read of the instances runs all providers over them, in their order. */
  method RunProviders(target: TargetInstance, providers: seq<Provider>)
    modifies target
    ensures target.memberInstances == Pass(old(target.memberInstances), providers)
  {
    for i := 0 to |providers|
      invariant target.memberInstances == Pass(old(target.memberInstances), providers[..i])
    {
      assert providers[..i + 1][..i] == providers[..i];
      SupplementInstance(target, providers[i]);
    }
    assert providers[..|providers|] == providers;
  }

  // ---------------------------------------------------------------------------------------------
  // The three boot fields.

  datatype Triple = Triple(overrideType: Value, mode: Value, bootType: Value)

  function TripleOf(f: Fields): Triple {
    Triple(Field(f, BOOT_OVERRIDE_TYPE), Field(f, MODE), Field(f, TYPE))
  }

  const BOOT_FIELDS := {BOOT_OVERRIDE_TYPE, MODE, TYPE}

  lemma FieldNames()
    ensures !IsMeta(BOOT_OVERRIDE_TYPE) && !IsMeta(MODE) && !IsMeta(TYPE)
    ensures MODE != TYPE && BOOT_OVERRIDE_TYPE != MODE && BOOT_OVERRIDE_TYPE != TYPE
    ensures ATTEMPTS_LEFT !in BOOT_FIELDS && RETRY_CONFIG !in BOOT_FIELDS && ATTEMPTS_LEFT != RETRY_CONFIG
  {
    assert MODE[0] == 'M' && TYPE[0] == 'T' && BOOT_OVERRIDE_TYPE[0] == 'B';
    assert ATTEMPTS_LEFT[0] == 'A' && RETRY_CONFIG[0] == 'R';
  }

  /** The type that a copied boot object leaves. */
  function CopiedType(p: Fields, otherwise: Value): Value {
    if TYPE in p then Shown(p[TYPE]) else otherwise
  }

  function FromHost(host: Fields): Triple {
    if HasMode(host) then Triple(OVERRIDE_CONTINUOUS, host[MODE], CopiedType(host, Null))
    else Triple(OVERRIDE_NONE, MODE_NONE, Null)
  }

  function FromOnce(before: Triple, once: Fields): Triple {
    if HasMode(once) && IsOneTime(once) then Triple(OVERRIDE_ONCE, once[MODE], CopiedType(once, before.bootType))
    else before
  }

  /** Once beats continuous beats none; the last one-time override that counts wins. */
  function Expected(host: Fields, onces: seq<Fields>): Triple {
    if onces == [] then FromHost(host) else FromOnce(Expected(host, onces[..|onces| - 1]), onces[|onces| - 1])
  }

  lemma HostBootGives(target: Fields, host: Fields)
    ensures TripleOf(AfterHostBoot(target, host)) == FromHost(host)
  {
    FieldNames();
  }

  lemma {:induction false} OncesGive(target: Fields, host: Fields, onces: seq<Fields>)
    requires TripleOf(target) == FromHost(host)
    ensures TripleOf(Supplemented(target, BootOnce, onces)) == Expected(host, onces)
  {
    if onces != [] {
      OncesGive(target, host, onces[..|onces| - 1]);
      FieldNames();
    }
  }

  /** A provider that says nothing about the three fields. */
  predicate Silent(p: Provider) {
    p.link == Default && forall i | 0 <= i < |p.instances| :: p.instances[i].Keys !! BOOT_FIELDS
  }

  lemma {:induction false} SilentLeavesTriple(target: Fields, instances: seq<Fields>)
    requires forall i | 0 <= i < |instances| :: instances[i].Keys !! BOOT_FIELDS
    ensures TripleOf(Supplemented(target, Default, instances)) == TripleOf(target)
  {
    if instances != [] {
      var n := |instances| - 1;
      SilentLeavesTriple(target, instances[..n]);
      assert BOOT_OVERRIDE_TYPE in BOOT_FIELDS && MODE in BOOT_FIELDS && TYPE in BOOT_FIELDS;
    }
  }

  lemma {:induction false} PassAppend(target: Fields, a: seq<Provider>, b: seq<Provider>)
    ensures Pass(target, a + b) == Pass(Pass(target, a), b)
    decreases |b|
  {
    if b == [] {
      assert a + b == a;
    } else {
      var n := |b| - 1;
      assert (a + b)[..|a + b| - 1] == a + b[..n];
      PassAppend(target, a, b[..n]);
    }
  }

  lemma {:induction false} SilentPass(target: Fields, after: seq<Provider>)
    requires forall i | 0 <= i < |after| :: Silent(after[i])
    ensures TripleOf(Pass(target, after)) == TripleOf(target)
  {
    if after != [] {
      var n := |after| - 1;
      SilentPass(target, after[..n]);
      assert Silent(after[n]);
      SilentLeavesTriple(Pass(target, after[..n]), after[n].instances);
    }
  }

  /** Whatever the providers before, and whatever the fields held, a pass leaves in the three fields
      what the last host boot object and the one-time boot objects say. */
  lemma TripleAfterPass(target: Fields, before: seq<Provider>, hosts: seq<Fields>, onces: seq<Fields>, after: seq<Provider>)
    requires hosts != [] && forall i | 0 <= i < |after| :: Silent(after[i])
    ensures TripleOf(Pass(target, before + [Provider(Boot, hosts), Provider(BootOnce, onces)] + after)) ==
            Expected(hosts[|hosts| - 1], onces)
  {
    var boot := [Provider(Boot, hosts), Provider(BootOnce, onces)];
    var t0 := Pass(target, before);
    PassAppend(target, before + boot, after);
    PassAppend(target, before, boot);
    SilentPass(Pass(t0, boot), after);
    BootPass(t0, hosts, onces);
    HostBootGives(Supplemented(t0, Boot, hosts[..|hosts| - 1]), hosts[|hosts| - 1]);
    OncesGive(Supplemented(t0, Boot, hosts), hosts[|hosts| - 1], onces);
  }

  lemma BootPass(target: Fields, hosts: seq<Fields>, onces: seq<Fields>)
    ensures Pass(target, [Provider(Boot, hosts), Provider(BootOnce, onces)]) ==
            Supplemented(Supplemented(target, Boot, hosts), BootOnce, onces)
  {
    var boot := [Provider(Boot, hosts), Provider(BootOnce, onces)];
    assert boot[..1][..0] == [];
    assert Pass(target, boot[..1]) == Supplemented(target, Boot, hosts);
  }

  function Reboots(target: Fields, reboots: seq<Fields>): Fields { Supplemented(target, RebootAttempts, reboots) }

  /** The attempts left are those of the last counter, shown exactly while retries are configured; without a
      counter they stay. */
  lemma AttemptsAfterReboots(target: Fields, reboots: seq<Fields>)
    requires forall i | 0 <= i < |reboots| :: RETRY_CONFIG !in reboots[i]
    ensures Field(Reboots(target, reboots), ATTEMPTS_LEFT) ==
            if reboots == [] then Field(target, ATTEMPTS_LEFT)
            else if Retries(target) && ATTEMPTS_LEFT in reboots[|reboots| - 1] then Shown(reboots[|reboots| - 1][ATTEMPTS_LEFT])
            else Null
  {
    if reboots != [] {
      RebootsLeaveRetry(target, reboots[..|reboots| - 1]);
      FieldNames();
      assert ATTEMPTS_LEFT[0] == 'A';
    }
  }

  /** So they are left alone exactly without a counter; with one they depend on nothing but it and the setting,
      and not even on that exactly when the last counter has no number. */
  lemma AttemptsResetIff(reboots: seq<Fields>)
    requires forall i | 0 <= i < |reboots| :: RETRY_CONFIG !in reboots[i]
    ensures (forall t :: Field(Reboots(t, reboots), ATTEMPTS_LEFT) == Field(t, ATTEMPTS_LEFT)) <==> reboots == []
    ensures (forall t, u | Retries(t) == Retries(u) ::
               Field(Reboots(t, reboots), ATTEMPTS_LEFT) == Field(Reboots(u, reboots), ATTEMPTS_LEFT)) <==> reboots != []
    ensures (forall t, u :: Field(Reboots(t, reboots), ATTEMPTS_LEFT) == Field(Reboots(u, reboots), ATTEMPTS_LEFT)) <==>
            reboots != [] && ATTEMPTS_LEFT !in reboots[|reboots| - 1]
  {
    var zero, one: Fields := map[ATTEMPTS_LEFT := Num(0)], map[ATTEMPTS_LEFT := Num(1)];
    var retrying: Fields := map[RETRY_CONFIG := RETRY_ATTEMPTS];
    FieldNames();
    assert Field(zero, ATTEMPTS_LEFT) == Num(0) && Field(one, ATTEMPTS_LEFT) == Num(1);
    assert !Retries(zero) && !Retries(one) && Retries(retrying);
    forall t
      ensures Field(Reboots(t, reboots), ATTEMPTS_LEFT) ==
              if reboots == [] then Field(t, ATTEMPTS_LEFT)
              else if Retries(t) && ATTEMPTS_LEFT in reboots[|reboots| - 1] then Shown(reboots[|reboots| - 1][ATTEMPTS_LEFT])
              else Null
    {
      AttemptsAfterReboots(t, reboots);
    }
    assert Field(Reboots(zero, reboots), ATTEMPTS_LEFT) == if reboots == [] then Num(0) else Null;
    assert Field(Reboots(one, reboots), ATTEMPTS_LEFT) == if reboots == [] then Num(1) else Null;
    assert reboots != [] && ATTEMPTS_LEFT in reboots[|reboots| - 1] ==> Field(Reboots(retrying, reboots), ATTEMPTS_LEFT) != Null;
  }

  lemma {:induction false} RebootsLeaveRetry(target: Fields, reboots: seq<Fields>)
    requires forall i | 0 <= i < |reboots| :: RETRY_CONFIG !in reboots[i]
    ensures Retries(Supplemented(target, RebootAttempts, reboots)) == Retries(target)
  {
    if reboots != [] {
      RebootsLeaveRetry(target, reboots[..|reboots| - 1]);
      FieldNames();
    }
  }

  // ---------------------------------------------------------------------------------------------
  // What a pass writes.

  /** What a link writes, given whether attempts are to be retried. */
  function Written(link: Link, p: Fields, retry: bool): Fields {
    match link
    case Default => Copied(p)
    case RebootAttempts => map[ATTEMPTS_LEFT := Null] + (if retry then Copied(p) else map[])
    case Boot =>
      map[BOOT_OVERRIDE_TYPE := OVERRIDE_NONE, MODE := MODE_NONE, TYPE := Null]
      + (if HasMode(p) then Copied(p)[BOOT_OVERRIDE_TYPE := OVERRIDE_CONTINUOUS] else map[])
    case BootOnce =>
      if HasMode(p) && IsOneTime(p) then Copied(p)[BOOT_OVERRIDE_TYPE := OVERRIDE_ONCE] else map[]
  }

  predicate Retries(target: Fields) { Field(target, RETRY_CONFIG) == RETRY_ATTEMPTS }

  lemma LinkedWrites(target: Fields, link: Link, p: Fields, retry: bool)
    requires link == RebootAttempts ==> retry == Retries(target)
    ensures Linked(target, link, p) == target + Written(link, p, retry)
  {
    FieldNames();
  }

  predicate Speaks(p: Provider, name: string) {
    exists i | 0 <= i < |p.instances| :: name in p.instances[i]
  }

  function WrittenAll(link: Link, instances: seq<Fields>, retry: bool): Fields {
    if instances == [] then map[]
    else WrittenAll(link, instances[..|instances| - 1], retry) + Written(link, instances[|instances| - 1], retry)
  }

  lemma {:induction false} NotWritten(link: Link, instances: seq<Fields>, retry: bool)
    requires !Speaks(Provider(link, instances), RETRY_CONFIG)
    ensures RETRY_CONFIG !in WrittenAll(link, instances, retry)
  {
    if instances != [] {
      var n := |instances| - 1;
      assert forall i | 0 <= i < n :: instances[..n][i] == instances[i];
      NotWritten(link, instances[..n], retry);
      FieldNames();
      assert BOOT_OVERRIDE_TYPE in BOOT_FIELDS && MODE in BOOT_FIELDS && TYPE in BOOT_FIELDS;
      assert RETRY_CONFIG !in instances[n];
    }
  }

  lemma PlusIsAssociative(a: Fields, b: Fields, c: Fields)
    ensures a + b + c == a + (b + c)
  {
  }

  lemma {:induction false} SupplementedWrites(target: Fields, link: Link, instances: seq<Fields>, retry: bool)
    requires link == RebootAttempts ==> retry == Retries(target) && !Speaks(Provider(link, instances), RETRY_CONFIG)
    ensures Supplemented(target, link, instances) == target + WrittenAll(link, instances, retry)
  {
    if instances != [] {
      var n := |instances| - 1;
      var front, last := instances[..n], instances[n];
      assert forall i | 0 <= i < n :: front[i] == instances[i];
      SupplementedWrites(target, link, front, retry);
      if link == RebootAttempts {
        NotWritten(link, front, retry);
        StillRetries(target, WrittenAll(link, front, retry));
      }
      OneMoreWritten(target, link, WrittenAll(link, front, retry), last, retry);
    }
  }

  lemma OneMoreWritten(target: Fields, link: Link, before: Fields, p: Fields, retry: bool)
    requires link == RebootAttempts ==> retry == Retries(target + before)
    ensures Linked(target + before, link, p) == target + (before + Written(link, p, retry))
  {
    LinkedWrites(target + before, link, p, retry);
    PlusIsAssociative(target, before, Written(link, p, retry));
  }

  lemma StillRetries(target: Fields, w: Fields)
    requires RETRY_CONFIG !in w
    ensures Retries(target + w) == Retries(target)
  {
  }

  function PassWritten(providers: seq<Provider>): Fields {
    if providers == [] then map[]
    else
      var p := providers[|providers| - 1];
      PassWritten(providers[..|providers| - 1]) + WrittenAll(p.link, p.instances, false)
  }

  predicate NoReboot(providers: seq<Provider>) {
    forall i | 0 <= i < |providers| :: providers[i].link != RebootAttempts
  }

  lemma {:induction false} PassWrites(target: Fields, providers: seq<Provider>)
    requires NoReboot(providers)
    ensures Pass(target, providers) == target + PassWritten(providers)
  {
    if providers != [] {
      var n := |providers| - 1;
      PassWrites(target, providers[..n]);
      SupplementedWrites(Pass(target, providers[..n]), providers[n].link, providers[n].instances, false);
      PlusIsAssociative(target, PassWritten(providers[..n]), WrittenAll(providers[n].link, providers[n].instances, false));
    }
  }

  // ---------------------------------------------------------------------------------------------
  // Which fields a pass resets.

  /** An instance of a provider writes a field, whatever the field held. */
  predicate Writes(p: Provider, name: string) {
    exists j | 0 <= j < |p.instances| :: name in Written(p.link, p.instances[j], false)
  }

  predicate SomeWrites(providers: seq<Provider>, name: string) {
    exists i | 0 <= i < |providers| :: Writes(providers[i], name)
  }

  lemma {:induction false} InWrittenAll(link: Link, instances: seq<Fields>, name: string)
    ensures name in WrittenAll(link, instances, false) <==>
            exists j | 0 <= j < |instances| :: name in Written(link, instances[j], false)
  {
    if instances != [] {
      var n := |instances| - 1;
      InWrittenAll(link, instances[..n], name);
      assert forall j | 0 <= j < n :: instances[..n][j] == instances[j];
    }
  }

  lemma {:induction false} InPassWritten(providers: seq<Provider>, name: string)
    ensures name in PassWritten(providers) <==> SomeWrites(providers, name)
  {
    if providers != [] {
      var n := |providers| - 1;
      InPassWritten(providers[..n], name);
      InWrittenAll(providers[n].link, providers[n].instances, name);
      assert forall i | 0 <= i < n :: providers[..n][i] == providers[i];
      assert name in PassWritten(providers) <==> name in PassWritten(providers[..n]) || Writes(providers[n], name);
    }
  }

  /** After a pass the field is the same whatever the target held before. */
  ghost predicate Reset(providers: seq<Provider>, name: string) {
    forall t, u :: Field(Pass(t, providers), name) == Field(Pass(u, providers), name)
  }

  /** A pass leaves the field alone, whatever the target held. */
  ghost predicate Kept(providers: seq<Provider>, name: string) {
    forall t :: Field(Pass(t, providers), name) == Field(t, name)
  }

  lemma PlusResetsOrKeeps(w: Fields, name: string)
    ensures name in w <==> forall t, u: Fields :: Field(t + w, name) == Field(u + w, name)
    ensures name !in w <==> forall t: Fields :: Field(t + w, name) == Field(t, name)
  {
    var zero, one: Fields := map[name := Num(0)], map[name := Num(1)];
    assert Field(zero, name) == Num(0) && Field(one, name) == Num(1);
    if name in w {
      assert Field(zero + w, name) == Field(one + w, name) == w[name];
    } else {
      assert Field(zero + w, name) == Num(0) && Field(one + w, name) == Num(1);
    }
  }

  /** A pass either resets a field or leaves it alone, as some instance writes it or none does. */
  lemma ResetOrKept(providers: seq<Provider>, name: string)
    requires NoReboot(providers)
    ensures Reset(providers, name) <==> SomeWrites(providers, name)
    ensures Kept(providers, name) <==> !SomeWrites(providers, name)
  {
    var w := PassWritten(providers);
    InPassWritten(providers, name);
    PlusResetsOrKeeps(w, name);
    forall t: Fields ensures Pass(t, providers) == t + w {
      PassWrites(t, providers);
    }
  }

  /** A one-time boot object that is asked. */
  predicate Counts(once: Fields) { HasMode(once) && IsOneTime(once) }

  predicate SomeCounts(onces: seq<Fields>) { exists i | 0 <= i < |onces| :: Counts(onces[i]) }

  predicate SomeCountsWith(onces: seq<Fields>, name: string) {
    exists i | 0 <= i < |onces| :: Counts(onces[i]) && name in onces[i]
  }

  predicate SomeModeWith(hosts: seq<Fields>, name: string) {
    exists i | 0 <= i < |hosts| :: HasMode(hosts[i]) && name in hosts[i]
  }

  /** Providers that say nothing about a field. */
  predicate SilentOn(after: seq<Provider>, name: string) {
    forall i | 0 <= i < |after| :: after[i].link == Default && !Speaks(after[i], name)
  }

  lemma BootProvidersWrite(hosts: seq<Fields>, onces: seq<Fields>, after: seq<Provider>, name: string)
    requires SilentOn(after, name)
    ensures SomeWrites([Provider(Boot, hosts), Provider(BootOnce, onces)] + after, name) <==>
            Writes(Provider(Boot, hosts), name) || Writes(Provider(BootOnce, onces), name)
  {
    var all := [Provider(Boot, hosts), Provider(BootOnce, onces)] + after;
    assert all[0] == Provider(Boot, hosts) && all[1] == Provider(BootOnce, onces);
    forall i | 2 <= i < |all| ensures !Writes(all[i], name) {
      assert all[i] == after[i - 2];
      assert !Speaks(after[i - 2], name);
    }
  }

  lemma WritesOfBoot(p: Fields, name: string)
    ensures name in Written(Boot, p, false) <==> name in BOOT_FIELDS || (HasMode(p) && name in p && !IsMeta(name))
    ensures name in Written(BootOnce, p, false) <==>
            Counts(p) && (name == BOOT_OVERRIDE_TYPE || (name in p && !IsMeta(name)))
  {
  }

  lemma HostsWrite(hosts: seq<Fields>, name: string)
    requires !IsMeta(name)
    ensures Writes(Provider(Boot, hosts), name) <==>
            if name in BOOT_FIELDS then hosts != [] else SomeModeWith(hosts, name)
  {
    forall j | 0 <= j < |hosts|
      ensures name in Written(Boot, hosts[j], false) <==> name in BOOT_FIELDS || (HasMode(hosts[j]) && name in hosts[j])
    {
      WritesOfBoot(hosts[j], name);
    }
    if name in BOOT_FIELDS && hosts != [] {
      assert name in Written(Boot, hosts[0], false);
    }
  }

  lemma OncesWrite(onces: seq<Fields>, name: string)
    requires !IsMeta(name)
    ensures Writes(Provider(BootOnce, onces), name) <==>
            if name == BOOT_OVERRIDE_TYPE then SomeCounts(onces) else SomeCountsWith(onces, name)
  {
    forall j | 0 <= j < |onces|
      ensures name in Written(BootOnce, onces[j], false) <==> Counts(onces[j]) && (name == BOOT_OVERRIDE_TYPE || name in onces[j])
    {
      WritesOfBoot(onces[j], name);
    }
  }

  /** One field after the boot providers. */
  lemma BootFieldReset(hosts: seq<Fields>, onces: seq<Fields>, after: seq<Provider>, name: string)
    requires SilentOn(after, name) && !IsMeta(name)
    ensures var ps := [Provider(Boot, hosts), Provider(BootOnce, onces)] + after;
            var written := (if name in BOOT_FIELDS then hosts != [] else SomeModeWith(hosts, name)) ||
                           (if name == BOOT_OVERRIDE_TYPE then SomeCounts(onces) else SomeCountsWith(onces, name));
            (Reset(ps, name) <==> written) && (Kept(ps, name) <==> !written)
  {
    var ps := [Provider(Boot, hosts), Provider(BootOnce, onces)] + after;
    BootProvidersWrite(hosts, onces, after, name);
    HostsWrite(hosts, name);
    OncesWrite(onces, name);
    assert NoReboot(ps);
    ResetOrKept(ps, name);
  }

  ghost predicate TripleReset(ps: seq<Provider>) {
    forall t, u :: TripleOf(Pass(t, ps)) == TripleOf(Pass(u, ps))
  }

  ghost predicate TripleKept(ps: seq<Provider>) {
    forall t :: TripleOf(Pass(t, ps)) == TripleOf(t)
  }

  lemma TripleByField(ps: seq<Provider>)
    ensures TripleReset(ps) <==> Reset(ps, BOOT_OVERRIDE_TYPE) && Reset(ps, MODE) && Reset(ps, TYPE)
    ensures TripleKept(ps) <==> Kept(ps, BOOT_OVERRIDE_TYPE) && Kept(ps, MODE) && Kept(ps, TYPE)
  {
    forall t, u
      ensures TripleOf(Pass(t, ps)) == TripleOf(Pass(u, ps)) <==>
              && Field(Pass(t, ps), BOOT_OVERRIDE_TYPE) == Field(Pass(u, ps), BOOT_OVERRIDE_TYPE)
              && Field(Pass(t, ps), MODE) == Field(Pass(u, ps), MODE)
              && Field(Pass(t, ps), TYPE) == Field(Pass(u, ps), TYPE)
    {
    }
  }

  /** The three fields depend on nothing but the snapshots exactly when there is a host boot object, or a
      one-time boot object that counts and has a type. They stay whatever they were exactly when there is
      no host boot object and no one-time boot object counts. */
  lemma TripleResetIff(hosts: seq<Fields>, onces: seq<Fields>, after: seq<Provider>)
    requires forall i | 0 <= i < |after| :: Silent(after[i])
    ensures var ps := [Provider(Boot, hosts), Provider(BootOnce, onces)] + after;
            && (TripleReset(ps) <==> hosts != [] || SomeCountsWith(onces, TYPE))
            && (TripleKept(ps) <==> hosts == [] && !SomeCounts(onces))
  {
    forall i | 0 <= i < |after|
      ensures !Speaks(after[i], BOOT_OVERRIDE_TYPE) && !Speaks(after[i], MODE) && !Speaks(after[i], TYPE)
    {
      assert Silent(after[i]);
      assert BOOT_OVERRIDE_TYPE in BOOT_FIELDS && MODE in BOOT_FIELDS && TYPE in BOOT_FIELDS;
    }
    FieldNames();
    TripleByField([Provider(Boot, hosts), Provider(BootOnce, onces)] + after);
    BootFieldReset(hosts, onces, after, BOOT_OVERRIDE_TYPE);
    BootFieldReset(hosts, onces, after, MODE);
    BootFieldReset(hosts, onces, after, TYPE);
    CountingHasMode(onces);
  }

  lemma CountingHasMode(onces: seq<Fields>)
    ensures SomeCountsWith(onces, MODE) == SomeCounts(onces)
    ensures SomeCountsWith(onces, TYPE) ==> SomeCounts(onces)
  {
  }

  /** The boot source is the same whatever it was exactly when some boot object that is taken holds one;
      otherwise it stays, though the override may have ended. */
  lemma SourceResetIff(hosts: seq<Fields>, onces: seq<Fields>, after: seq<Provider>)
    requires SilentOn(after, SOURCE)
    ensures var ps := [Provider(Boot, hosts), Provider(BootOnce, onces)] + after;
            && (Reset(ps, SOURCE) <==> SomeModeWith(hosts, SOURCE) || SomeCountsWith(onces, SOURCE))
            && (Kept(ps, SOURCE) <==> !(SomeModeWith(hosts, SOURCE) || SomeCountsWith(onces, SOURCE)))
  {
    assert SOURCE[0] == 'S' && MODE[0] == 'M' && TYPE[0] == 'T' && BOOT_OVERRIDE_TYPE[0] == 'B';
    BootFieldReset(hosts, onces, after, SOURCE);
  }

  // ---------------------------------------------------------------------------------------------
  // A repeated read.

  lemma {:induction false} PassLeavesRetry(providers: seq<Provider>)
    requires forall i | 0 <= i < |providers| :: !Speaks(providers[i], RETRY_CONFIG)
    ensures RETRY_CONFIG !in PassWritten(providers)
  {
    if providers != [] {
      var n := |providers| - 1;
      PassLeavesRetry(providers[..n]);
      NotWritten(providers[n].link, providers[n].instances, false);
    }
  }

  /** A read sets the default values of the fields that have them, as they are at that time, and runs the
      providers then. */
  function Read(target: Fields, defaults: Fields, providers: seq<Provider>): Fields { Pass(target + defaults, providers) }

  method ReadInstance(target: TargetInstance, defaults: Fields, providers: seq<Provider>)
    modifies target
    ensures target.memberInstances == Read(old(target.memberInstances), defaults, providers)
  {
    target.InitDefaultFieldsValue(defaults);
    RunProviders(target, providers);
  }

  /** Of an earlier read over the same snapshots nothing is left, whatever the default values were then: a
      repeated read shows what a first one would. Only the retry setting is both read and written in a pass; it
      is written before it is read. */
  lemma EarlierReadIsForgotten(target: Fields, earlier: Fields, now: Fields, before: seq<Provider>, reboots: seq<Fields>, rest: seq<Provider>)
    requires NoReboot(before) && NoReboot(rest) && earlier.Keys == now.Keys && RETRY_CONFIG !in now
    requires !Speaks(Provider(RebootAttempts, reboots), RETRY_CONFIG)
    requires forall i | 0 <= i < |rest| :: !Speaks(rest[i], RETRY_CONFIG)
    ensures var providers := before + [Provider(RebootAttempts, reboots)] + rest;
            Read(Read(target, earlier, providers), now, providers) == Read(target, now, providers)
  {
    var wb, wr := PassWritten(before), PassWritten(rest);
    var retry := Retries(target + wb);
    var w := wb + WrittenAll(RebootAttempts, reboots, retry) + wr;
    NotWritten(RebootAttempts, reboots, retry);
    PassLeavesRetry(rest);
    SameRetry(target, earlier, now, wb, WrittenAll(RebootAttempts, reboots, retry), wr);
    WholePassWrites(target + earlier, before, reboots, rest);
    WholePassWrites(target + earlier + w + now, before, reboots, rest);
    WholePassWrites(target + now, before, reboots, rest);
    LastWriteWins(target, earlier, w, now);
  }

  lemma SameRetry(target: Fields, earlier: Fields, now: Fields, wb: Fields, w: Fields, wr: Fields)
    requires RETRY_CONFIG !in w && RETRY_CONFIG !in wr && RETRY_CONFIG !in earlier && RETRY_CONFIG !in now
    ensures Retries(target + earlier + wb) == Retries(target + wb)
    ensures Retries(target + earlier + (wb + w + wr) + now + wb) == Retries(target + wb)
    ensures Retries(target + now + wb) == Retries(target + wb)
  {
  }

  lemma LastWriteWins(target: Fields, earlier: Fields, w: Fields, now: Fields)
    requires earlier.Keys == now.Keys
    ensures target + earlier + w + now + w == target + now + w
  {
  }

  lemma WholePassWrites(target: Fields, before: seq<Provider>, reboots: seq<Fields>, rest: seq<Provider>)
    requires NoReboot(before) && NoReboot(rest)
    requires !Speaks(Provider(RebootAttempts, reboots), RETRY_CONFIG)
    ensures Pass(target, before + [Provider(RebootAttempts, reboots)] + rest) ==
            target + (PassWritten(before) + WrittenAll(RebootAttempts, reboots, Retries(target + PassWritten(before))) + PassWritten(rest))
  {
    var reboot := Provider(RebootAttempts, reboots);
    var t1 := target + PassWritten(before);
    var w := WrittenAll(RebootAttempts, reboots, Retries(t1));
    PassAppend(target, before + [reboot], rest);
    PassAppend(target, before, [reboot]);
    PassWrites(target, before);
    OneProvider(t1, reboot);
    SupplementedWrites(t1, RebootAttempts, reboots, Retries(t1));
    PassWrites(t1 + w, rest);
    PlusIsAssociative(target, PassWritten(before), w);
    PlusIsAssociative(target, PassWritten(before) + w, PassWritten(rest));
  }

  lemma OneProvider(target: Fields, p: Provider)
    ensures Pass(target, [p]) == Supplemented(target, p.link, p.instances)
  {
    assert [p][..0] == [];
  }

  // ---------------------------------------------------------------------------------------------
  // The boot fields, spelled out.

  /** Asks for a boot mode: its mode is neither null nor the one for none. */
  predicate AsksForMode(p: Fields) { "Mode" in p && p["Mode"] != Null && p["Mode"] != Num(6) }

  /** The type of a boot object that has one, the text "N/A" where it is null. */
  function TypeShown(p: Fields, otherwise: Value): Value {
    if "Type" !in p then otherwise else if p["Type"] == Null then Str("N/A") else p["Type"]
  }

  /** A one-time boot object that is switched on beats the host's boot object: override type 1, once. Otherwise
      the host's counts if it asks for a mode: override type 0, continuous. Otherwise there is no override: type 2,
      mode 6, and no boot type. */
  lemma OneTimeBootWins(target: Fields, before: seq<Provider>, host: Fields, once: Fields, after: seq<Provider>)
    requires forall i | 0 <= i < |after| :: Silent(after[i])
    ensures var t := Pass(target, before + [Provider(Boot, [host]), Provider(BootOnce, [once])] + after);
            var on := "OneTime" in once && once["OneTime"] == Flag(true) && AsksForMode(once);
            var hostType := if AsksForMode(host) then TypeShown(host, Null) else Null;
            && (on <==> Field(t, "BootOverrideType") == Num(1))
            && (on ==> Field(t, "Mode") == once["Mode"] && Field(t, "Type") == TypeShown(once, hostType))
            && (!on && AsksForMode(host) ==>
                  Field(t, "BootOverrideType") == Num(0) && Field(t, "Mode") == host["Mode"] && Field(t, "Type") == hostType)
            && (!on && !AsksForMode(host) ==>
                  Field(t, "BootOverrideType") == Num(2) && Field(t, "Mode") == Num(6) && Field(t, "Type") == Null)
  {
    TripleAfterPass(target, before, [host], [once], after);
    assert [host][|[host]| - 1] == host;
    assert [once][..0] == [];
    assert Expected(host, [once]) == FromOnce(FromHost(host), once);
  }

  /** The attempts left are shown exactly while the retry setting is enumerator 0. */
  lemma AttemptsShownWhileRetrying(target: Fields, reboot: Fields)
    requires "RetryConfig" !in reboot && "AttemptsLeft" in reboot && reboot["AttemptsLeft"] != Null
    ensures Field(Supplemented(target, RebootAttempts, [reboot]), "AttemptsLeft") ==
            if "RetryConfig" in target && target["RetryConfig"] == Num(0) then reboot["AttemptsLeft"] else Null
  {
    AttemptsAfterReboots(target, [reboot]);
  }

  /** A provider without a link of its own leaves in the target, of the last of its instances, all but the metadata, with
      the text "N/A" for null; and of the target and the instances before what that one does not have. */
  lemma LastInstanceIsCopied(target: Fields, instances: seq<Fields>, p: Fields, name: string)
    ensures Field(Supplemented(target, Default, instances + [p]), name) ==
            if name in p && !("__meta_" <= name) then (if p[name] == Null then Str("N/A") else p[name])
            else Field(Supplemented(target, Default, instances), name)
  {
    assert (instances + [p])[..|instances|] == instances;
  }
}
