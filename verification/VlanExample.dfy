// A node that answers every segment: the VLANs below an Ethernet interface that has none.
module VlanExample {
  import opened Options
  import opened Entities
  import opened UriText
  import opened Parameters
  import opened Routing
  import opened RedfishTree

  const BMC := Instance(0, map["Name" := Str("bmc")])

  const ETH0 := Instance(0, map["InterfaceName" := Str("eth0"), "Kind" := Num(0)])

  /** The name of a VLAN starts with that of its interface and a point. */
  function IsVlanOf(left: Option<Value>, right: Value): bool {
    left.Some? && left.value.Str? && right.Str? && right.s + "." <= left.value.s
  }

  function EqualNumber(left: Option<Value>, right: Value): bool { left.Some? && left.value.Num? && left.value == right }

  const TO_VLAN := Relation("Ethernet", "Ethernet", [Rule("InterfaceName", "VLANName", IsVlanOf)])

  const MEMBERS := {META_OBJECT_PATH, META_OBJECT_SERVICE, "Name", "InterfaceName", "VLANName", "Kind"}

  function OneInterface(): World {
    World(map["BmcManager" := EntityDef(false, MEMBERS, []), "Ethernet" := EntityDef(true, MEMBERS, [TO_VLAN])],
          map["BmcManager" := [BMC], "Ethernet" := [ETH0]])
  }

  const MANAGER := Declared("BmcManager", "Name", [])

  const INTERFACE := Declared("Ethernet", "InterfaceName", [Condition("Kind", Num(0), EqualNumber)])

  const VLAN := Declared("Ethernet", "VLANName", [])

  /** A tree without branches. */
  function Chain(kinds: seq<Kind>): seq<Tree> {
    if kinds == [] then [] else [Tree(kinds[0], Chain(kinds[1..]))]
  }

  const KINDS := [Ordinary("v1"), Ordinary("Managers"), Parameterized(MANAGER), Ordinary("EthernetInterfaces"),
                  Parameterized(INTERFACE), Ordinary("VLANs"), Parameterized(VLAN)]

  const ROOT := Tree(Ordinary("redfish"), Chain(KINDS))

  lemma OneInterfaceIsValid()
    ensures Entities.Valid(OneInterface())
  {
    EntityNames();
  }

  lemma RulesAreResolved()
    ensures RulesResolve(OneInterface().schema)
  {
    EntityNames();
    assert [TO_VLAN][1..] == [] && TO_VLAN.rules[1..] == [];
    assert Unresolved(TO_VLAN.rules, MEMBERS) == None;
  }

  lemma EntityNames()
    ensures "BmcManager" != "Ethernet"
  {
    assert "BmcManager"[0] == 'B' && "Ethernet"[0] == 'E';
  }

  /** A name without underscores, accepted for the one candidate. */
  lemma OneCandidate(w: World, ctx: Ctx, d: Declared, x: Instance, name: string)
    requires Candidates(w, ctx, d.entity) == [x] && HasName(x, d, name) && Passes(x, d.statics) && '_' !in name
    ensures Accepted(w, ctx, d, name) == Some(Parameter(d.entity, x))
  {
    assert DecodeUriSegment(name) == name by {
      assert forall i | 0 <= i < |name| :: name[i] in name;
    }
    PassesFor(x, d, name);
    SelectOne(x, ConditionsFor(d, name));
  }

  /** A node answers to a segment and leaves this parameter behind it. */
  predicate Steps(w: World, k: Kind, ctx: Ctx, segment: string, next: Ctx) {
    Enter(w, k, ctx, segment).Some? && Behind(w, k, ctx, segment) == next
  }

  lemma ManagerIsFound()
    ensures Steps(OneInterface(), Parameterized(MANAGER), NoParameter, "bmc", Parameter("BmcManager", BMC))
  {
    EntityNames();
    OneCandidate(OneInterface(), NoParameter, MANAGER, BMC, "bmc");
    SecondLook(OneInterface(), NoParameter, MANAGER, "bmc");
  }

  lemma OneRule(rule: Rule, x: Instance)
    ensures ConditionsOf([rule], Some(x)) == ConditionOf(rule, Some(x))
  {
    assert [rule][1..] == [];
  }

  lemma NoVlans()
    ensures Candidates(OneInterface(), Parameter("Ethernet", ETH0), "Ethernet") == []
    ensures SelfRelated(OneInterface(), Parameter("Ethernet", ETH0), "Ethernet")
  {
    EntityNames();
    var related := ConditionsOf(TO_VLAN.rules, Find([ETH0], 0));
    OneRule(TO_VLAN.rules[0], ETH0);
    assert "InterfaceName" != DUMMY_FIELD by { assert |"InterfaceName"| == 13; }
    FieldIsNull();
    assert related == [Condition("VLANName", Str("eth0"), IsVlanOf)];
    assert !Holds(related[0], ETH0);
    SelectOne(ETH0, related);
  }

  lemma FieldIsNull()
    ensures "VLANName" !in ETH0.fields && ETH0.Field("InterfaceName") == Str("eth0") && ETH0.Field("Kind") == Num(0)
  {
    assert "VLANName"[0] == 'V' && "InterfaceName"[0] == 'I' && "Kind"[0] == 'K';
  }

  lemma InterfaceIsFound()
    ensures Steps(OneInterface(), Parameterized(INTERFACE), Parameter("BmcManager", BMC), "eth0", Parameter("Ethernet", ETH0))
  {
    EntityNames();
    FieldIsNull();
    var c := INTERFACE.statics[0];
    assert c.dest != DUMMY_FIELD by { assert |"Kind"| == 4; }
    assert Holds(c, ETH0);
    assert INTERFACE.field != DUMMY_FIELD by { assert |"InterfaceName"| == 13; }
    OneCandidate(OneInterface(), Parameter("BmcManager", BMC), INTERFACE, ETH0, "eth0");
    SecondLook(OneInterface(), Parameter("BmcManager", BMC), INTERFACE, "eth0");
    NoVlans();
  }

  lemma AnythingIsAccepted(segment: string)
    ensures Enter(OneInterface(), Parameterized(VLAN), Parameter("Ethernet", ETH0), segment) == Some(Parameter("Ethernet", ETH0))
  {
    NoVlans();
    AcceptedIff(OneInterface(), Parameter("Ethernet", ETH0), VLAN, segment);
  }

  function Zeros(n: nat): Place { seq(n, _ => 0) }

  lemma ChainStep(w: World, kinds: seq<Kind>, path: seq<string>, depth: nat, ctx: Ctx)
    requires |kinds| > 1 && depth < |path| && Enter(w, kinds[0], ctx, path[depth]).Some?
    ensures SpelledIn(NodesOf(w, Chain(kinds)), path, depth, ctx, Zeros(|kinds|)) ==
            SpelledIn(NodesOf(w, Chain(kinds[1..])), path, depth + 1, Behind(w, kinds[0], ctx, path[depth]), Zeros(|kinds| - 1))
  {
    NodeEnters(w, Chain(kinds), 0);
    assert Zeros(|kinds|)[1..] == Zeros(|kinds| - 1);
  }

  lemma ThreeSteps(w: World, kinds: seq<Kind>, path: seq<string>, depth: nat, a: Ctx, b: Ctx, c: Ctx, d: Ctx)
    requires |kinds| > 3 && depth + 3 < |path|
    requires Steps(w, kinds[0], a, path[depth], b) && Steps(w, kinds[1], b, path[depth + 1], c)
    requires Steps(w, kinds[2], c, path[depth + 2], d)
    ensures SpelledIn(NodesOf(w, Chain(kinds)), path, depth, a, Zeros(|kinds|)) ==
            SpelledIn(NodesOf(w, Chain(kinds[3..])), path, depth + 3, d, Zeros(|kinds| - 3))
  {
    ChainStep(w, kinds, path, depth, a);
    ChainStep(w, kinds[1..], path, depth + 1, b);
    ChainStep(w, kinds[1..][1..], path, depth + 2, c);
    assert kinds[1..][1..][1..] == kinds[3..];
  }

  lemma ChainEnd(w: World, kinds: seq<Kind>, path: seq<string>, depth: nat, ctx: Ctx)
    requires |kinds| == 1 && depth + 1 == |path| && Enter(w, kinds[0], ctx, path[depth]).Some?
    ensures SpelledIn(NodesOf(w, Chain(kinds)), path, depth, ctx, Zeros(1)) == Enter(w, kinds[0], ctx, path[depth])
  {
    NodeEnters(w, Chain(kinds), 0);
  }

  lemma {:induction false} ChainIsLone(kinds: seq<Kind>)
    ensures LoneParameters(Chain(kinds))
  {
    if kinds != [] { ChainIsLone(kinds[1..]); }
  }

  /** The URI of something below the VLANs of an interface. */
  function VlanPath(segment: string): seq<string> {
    ["redfish", "v1", "Managers", "bmc", "EthernetInterfaces", "eth0", "VLANs", segment]
  }

  lemma OrdinaryStep(w: World, segment: string, ctx: Ctx)
    ensures Steps(w, Ordinary(segment), ctx, segment, ctx)
  {
  }

  lemma ChainIsSpelled(w: World, kinds: seq<Kind>, path: seq<string>, a: Ctx, b: Ctx, c: Ctx)
    requires |kinds| == 7 && |path| == 8
    requires Steps(w, kinds[0], a, path[1], a) && Steps(w, kinds[1], a, path[2], a) && Steps(w, kinds[2], a, path[3], b)
    requires Steps(w, kinds[3], b, path[4], b) && Steps(w, kinds[4], b, path[5], c) && Steps(w, kinds[5], c, path[6], c)
    requires Enter(w, kinds[6], c, path[7]) == Some(c)
    ensures SpelledIn(NodesOf(w, Chain(kinds)), path, 1, a, Zeros(7)) == Some(c)
  {
    ThreeSteps(w, kinds, path, 1, a, a, a, b);
    ThreeSteps(w, kinds[3..], path, 4, b, b, c, c);
    assert kinds[3..][3..] == kinds[6..];
    ChainEnd(w, kinds[6..], path, 7, c);
  }

  lemma ChainIsFound(w: World, r: string, kinds: seq<Kind>, path: seq<string>, a: Ctx, c: Ctx)
    requires path != [] && SpelledIn(NodesOf(w, Chain(kinds)), path, 1, a, Zeros(7)) == Some(c)
    ensures Resolve(NodeOf(w, Tree(Ordinary(r), Chain(kinds))), path, a) == Some(Hit(Zeros(7), c))
  {
    ChainIsLone(kinds);
    var root := Tree(Ordinary(r), Chain(kinds));
    LoneParametersFindAll(w, root, a);
    assert Spelled(NodeOf(w, root), path, a, Zeros(7)) == Some(c);
  }

  /** A path of eight segments along a chain, in any snapshot. */
  lemma ChainResolves(w: World, r: string, k1: Kind, s1: string, k2: Kind, s2: string, k3: Kind, s3: string, k4: Kind,
                      s4: string, k5: Kind, s5: string, k6: Kind, s6: string, k7: Kind, s7: string, a: Ctx, b: Ctx, c: Ctx)
    requires Steps(w, k1, a, s1, a) && Steps(w, k2, a, s2, a) && Steps(w, k3, a, s3, b)
    requires Steps(w, k4, b, s4, b) && Steps(w, k5, b, s5, c) && Steps(w, k6, c, s6, c)
    requires Enter(w, k7, c, s7) == Some(c)
    ensures Resolve(NodeOf(w, Tree(Ordinary(r), Chain([k1, k2, k3, k4, k5, k6, k7]))), [r, s1, s2, s3, s4, s5, s6, s7], a) ==
            Some(Hit(Zeros(7), c))
  {
    var kinds, path := [k1, k2, k3, k4, k5, k6, k7], [r, s1, s2, s3, s4, s5, s6, s7];
    ChainIsSpelled(w, kinds, path, a, b, c);
    ChainIsFound(w, r, kinds, path, a, c);
  }

  /** Whatever its last segment, this URI resolves to the node for a VLAN, with the interface for a parameter. */
  lemma AnythingIsAVlan(segment: string)
    ensures Resolve(NodeOf(OneInterface(), ROOT), VlanPath(segment), NoParameter) ==
            Some(Hit(Zeros(7), Parameter("Ethernet", ETH0)))
  {
    var w, bmc, eth0 := OneInterface(), Parameter("BmcManager", BMC), Parameter("Ethernet", ETH0);
    OrdinaryStep(w, "v1", NoParameter);
    OrdinaryStep(w, "Managers", NoParameter);
    ManagerIsFound();
    OrdinaryStep(w, "EthernetInterfaces", bmc);
    InterfaceIsFound();
    OrdinaryStep(w, "VLANs", eth0);
    AnythingIsAccepted(segment);
    ChainResolves(w, "redfish", Ordinary("v1"), "v1", Ordinary("Managers"), "Managers", Parameterized(MANAGER), "bmc",
                  Ordinary("EthernetInterfaces"), "EthernetInterfaces", Parameterized(INTERFACE), "eth0",
                  Ordinary("VLANs"), "VLANs", Parameterized(VLAN), segment, NoParameter, bmc, eth0);
  }
}
