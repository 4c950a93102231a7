// Trees of Redfish nodes as they are declared, ordinary and parameterized, over a snapshot of the entities.
module RedfishTree {
  import opened Options
  import opened Entities
  import opened UriText
  import opened Parameters
  import opened Routing
  import ObjectCache

  datatype Kind = Ordinary(segment: string) | Parameterized(declared: Declared)

  datatype Tree = Tree(kind: Kind, below: seq<Tree>)

  function Enter(w: World, k: Kind, ctx: Ctx, segment: string): Option<Ctx> {
    match k
    case Ordinary(s) => if segment == s then Some(ctx) else None
    case Parameterized(d) => Accepted(w, ctx, d, segment)
  }

  function NodeOf(w: World, t: Tree): Node
    decreases t, 0
  {
    Node((ctx, segment) => Enter(w, t.kind, ctx, segment), NodesOf(w, t.below))
  }

  function NodesOf(w: World, ts: seq<Tree>): (ns: seq<Node>)
    ensures |ns| == |ts|
    decreases ts, 1
  {
    seq(|ts|, i requires 0 <= i < |ts| => NodeOf(w, ts[i]))
  }

  lemma NodeEnters(w: World, ts: seq<Tree>, i: nat)
    requires i < |ts|
    ensures NodesOf(w, ts)[i].children == NodesOf(w, ts[i].below)
    ensures forall ctx, s :: NodesOf(w, ts)[i].enter(ctx, s) == Enter(w, ts[i].kind, ctx, s)
  {
    assert NodesOf(w, ts)[i] == NodeOf(w, ts[i]);
    forall ctx, s ensures NodesOf(w, ts)[i].enter(ctx, s) == Enter(w, ts[i].kind, ctx, s) {
    }
  }

  /** The parameter behind a node that answers. */
  function Behind(w: World, k: Kind, ctx: Ctx, segment: string): Ctx
    requires Enter(w, k, ctx, segment).Some?
  {
    var here := Enter(w, k, ctx, segment).value;
    OrElse(Enter(w, k, here, segment), here)
  }

  // ---------------------------------------------------------------------------------------------
  // The resolver, working on one context.

  ghost predicate KnownEntities(w: World, ts: seq<Tree>) {
    forall i | 0 <= i < |ts| ::
      (ts[i].kind.Parameterized? ==> ts[i].kind.declared.entity in w.schema) && KnownEntities(w, ts[i].below)
  }

  method Validate(w: World, ctx: RedfishContext, k: Kind, path: seq<string>, depth: nat)
    returns (accepted: bool, missing: Option<string>)
    requires Entities.Valid(w) && ValidCtx(w, ctx.parameterCtx)
    requires k.Parameterized? ==> k.declared.entity in w.schema
    modifies ctx
    ensures RulesResolve(w.schema) ==> missing.None?
    ensures ValidCtx(w, ctx.parameterCtx)
    ensures missing.None? ==>
              var entered := if depth < |path| then Enter(w, k, old(ctx.parameterCtx), path[depth]) else None;
              accepted == entered.Some? && ctx.parameterCtx == OrElse(entered, old(ctx.parameterCtx))
  {
    accepted, missing := false, None;
    if |path| <= depth {
      return;
    }
    var segmentToVerify := path[depth];
    if k.Parameterized? {
      var name := Replace(segmentToVerify, '_', ' ');
      var conditions := [Condition(k.declared.field, Str(name), EqualText)] + k.declared.statics;
      accepted, missing := ctx.VerifyParameter(w, k.declared.entity, conditions);
    } else {
      accepted := segmentToVerify == k.segment;
    }
  }

  /** Whether a place found, with the parameter that the context ends with, is what the tree resolves to. */
  ghost predicate Agrees(r: Option<Hit>, place: Option<Place>, ctx: Ctx) {
    r == if place.Some? then Some(Hit(place.value, ctx)) else None
  }

  method ResolveUri(w: World, ctx: RedfishContext, t: Tree, path: seq<string>, depth: nat)
    returns (place: Option<Place>, missing: Option<string>)
    requires Entities.Valid(w) && ValidCtx(w, ctx.parameterCtx) && KnownEntities(w, [t])
    modifies ctx
    ensures RulesResolve(w.schema) ==> missing.None?
    ensures ValidCtx(w, ctx.parameterCtx)
    ensures missing.None? ==>
              Agrees(UriResolver(NodeOf(w, t), path, depth, old(ctx.parameterCtx)), place, ctx.parameterCtx)
    decreases t, 0
  {
    assert [t][0] == t;
    var accepted;
    accepted, missing := Validate(w, ctx, t.kind, path, depth);
    if missing.Some? {
      return None, missing;
    }
    if accepted && MatchEntirePattern(path, depth) {
      return Some([]), None;
    }
    if t.below != [] {
      place, missing := ResolveNextChild(w, ctx, t.below, 0, path, depth + 1);
    } else {
      place := None;
    }
  }

  method ResolveNextChild(w: World, ctx: RedfishContext, ts: seq<Tree>, i: nat, path: seq<string>, depth: nat)
    returns (place: Option<Place>, missing: Option<string>)
    requires Entities.Valid(w) && ValidCtx(w, ctx.parameterCtx) && KnownEntities(w, ts) && i <= |ts|
    modifies ctx
    ensures RulesResolve(w.schema) ==> missing.None?
    ensures ValidCtx(w, ctx.parameterCtx)
    ensures missing.None? ==>
              Agrees(NextChildResolver(NodesOf(w, ts), i, path, depth, old(ctx.parameterCtx)), place, ctx.parameterCtx)
    decreases ts, |ts| - i
  {
    if i == |ts| {
      return None, None;
    }
    NodeEnters(w, ts, i);
    var accepted;
    accepted, missing := Validate(w, ctx, ts[i].kind, path, depth);
    if missing.Some? {
      return None, missing;
    }
    if !accepted {
      place, missing := ResolveNextChild(w, ctx, ts, i + 1, path, depth);
      return;
    }
    if MatchEntirePattern(path, depth) {
      return Some([i]), None;
    }
    assert KnownEntities(w, [ts[i]]);
    place, missing := ResolveUri(w, ctx, ts[i], path, depth);
    if missing.None? && place.Some? {
      place := Some([i] + place.value);
    }
  }

  // ---------------------------------------------------------------------------------------------
  // When siblings have a segment in common.

  predicate Answers(w: World, ctx: Ctx, k: Kind, segment: string) {
    match k
    case Ordinary(s) => segment == s
    case Parameterized(d) =>
      SelfRelated(w, ctx, d.entity) || SomeHasName(Named(w, ctx, d), d, DecodeUriSegment(segment))
  }

  lemma AnswersIff(w: World, ctx: Ctx, k: Kind, segment: string)
    ensures Enter(w, k, ctx, segment).Some? <==> Answers(w, ctx, k, segment)
  {
    if k.Parameterized? { AcceptedIff(w, ctx, k.declared, segment); }
  }

  /** Both have the name, and it has no underscore: those are read from no segment. */
  predicate ShareName(w: World, ctx: Ctx, a: Declared, b: Declared) {
    var xs := Named(w, ctx, a);
    exists i | 0 <= i < |xs| ::
      '_' !in NameOf(xs[i], a) && HasName(xs[i], a, NameOf(xs[i], a)) && SomeHasName(Named(w, ctx, b), b, NameOf(xs[i], a))
  }

  predicate HasPlainName(w: World, ctx: Ctx, d: Declared) { ShareName(w, ctx, d, d) }

  predicate Overlap(w: World, ctx: Ctx, a: Kind, b: Kind) {
    match (a, b)
    case (Ordinary(s), _) => Answers(w, ctx, b, s)
    case (_, Ordinary(s)) => Answers(w, ctx, a, s)
    case (Parameterized(d), Parameterized(e)) =>
      if SelfRelated(w, ctx, d.entity) then SelfRelated(w, ctx, e.entity) || HasPlainName(w, ctx, e)
      else if SelfRelated(w, ctx, e.entity) then HasPlainName(w, ctx, d)
      else ShareName(w, ctx, d, e)
  }

  lemma ShareNameIff(w: World, ctx: Ctx, a: Declared, b: Declared)
    ensures ShareName(w, ctx, a, b) <==>
            exists s :: SomeHasName(Named(w, ctx, a), a, DecodeUriSegment(s)) && SomeHasName(Named(w, ctx, b), b, DecodeUriSegment(s))
  {
    var xs := Named(w, ctx, a);
    if ShareName(w, ctx, a, b) {
      var i :| 0 <= i < |xs| && '_' !in NameOf(xs[i], a) && HasName(xs[i], a, NameOf(xs[i], a)) &&
        SomeHasName(Named(w, ctx, b), b, NameOf(xs[i], a));
      var name := NameOf(xs[i], a);
      SegmentIsReadBackIff(name);
      assert SomeHasName(xs, a, DecodeUriSegment(EncodeUriSegment(name)));
    }
    if s :| SomeHasName(Named(w, ctx, a), a, DecodeUriSegment(s)) && SomeHasName(Named(w, ctx, b), b, DecodeUriSegment(s)) {
      var i :| 0 <= i < |xs| && HasName(xs[i], a, DecodeUriSegment(s));
      DecodedIsPlain(s);
      assert NameOf(xs[i], a) == DecodeUriSegment(s);
    }
  }

  lemma ParametersOverlapIff(w: World, ctx: Ctx, d: Declared, e: Declared)
    ensures var a, b := Parameterized(d), Parameterized(e);
            Overlap(w, ctx, a, b) <==> exists s :: Answers(w, ctx, a, s) && Answers(w, ctx, b, s)
  {
    var a, b := Parameterized(d), Parameterized(e);
    var x := if SelfRelated(w, ctx, d.entity) then e else d;
    var y := if SelfRelated(w, ctx, e.entity) then d else e;
    if SelfRelated(w, ctx, d.entity) && SelfRelated(w, ctx, e.entity) {
      assert Answers(w, ctx, a, "") && Answers(w, ctx, b, "");
    } else {
      ShareNameIff(w, ctx, x, y);
      if s :| SomeHasName(Named(w, ctx, x), x, DecodeUriSegment(s)) && SomeHasName(Named(w, ctx, y), y, DecodeUriSegment(s)) {
        assert Answers(w, ctx, a, s) && Answers(w, ctx, b, s);
      }
    }
  }

  lemma OverlapIff(w: World, ctx: Ctx, a: Kind, b: Kind)
    ensures Overlap(w, ctx, a, b) <==> exists s :: Answers(w, ctx, a, s) && Answers(w, ctx, b, s)
  {
    if a.Ordinary? {
      assert Answers(w, ctx, a, a.segment);
    } else if b.Ordinary? {
      assert Answers(w, ctx, b, b.segment);
    } else {
      ParametersOverlapIff(w, ctx, a.declared, b.declared);
    }
  }

  /** No segment is answered by two siblings, here and behind every segment that is answered. */
  ghost predicate NoOverlap(w: World, ts: seq<Tree>, ctx: Ctx)
    decreases ts
  {
    && (forall i, j | 0 <= i < j < |ts| :: !Overlap(w, ctx, ts[i].kind, ts[j].kind))
    && forall i, s | 0 <= i < |ts| && Enter(w, ts[i].kind, ctx, s).Some? ::
         NoOverlap(w, ts[i].below, Behind(w, ts[i].kind, ctx, s))
  }

  lemma SiblingsOverlapIff(w: World, a: Kind, m: Node, b: Kind, n: Node, ctx: Ctx)
    requires forall s :: m.enter(ctx, s) == Enter(w, a, ctx, s)
    requires forall s :: n.enter(ctx, s) == Enter(w, b, ctx, s)
    ensures Overlap(w, ctx, a, b) <==> exists s :: m.enter(ctx, s).Some? && n.enter(ctx, s).Some?
  {
    OverlapIff(w, ctx, a, b);
    forall s
      ensures Answers(w, ctx, a, s) <==> m.enter(ctx, s).Some?
      ensures Answers(w, ctx, b, s) <==> n.enter(ctx, s).Some?
    {
      AnswersIff(w, ctx, a, s);
      AnswersIff(w, ctx, b, s);
    }
  }

  lemma {:induction false} BelowIsDisjoint(w: World, ts: seq<Tree>, ctx: Ctx, i: nat, s: string)
    requires i < |ts| && Enter(w, ts[i].kind, ctx, s).Some?
    ensures var n := NodesOf(w, ts)[i];
            && n.enter(ctx, s).Some?
            && (Disjoint(n.children, Beyond(n, n.enter(ctx, s).value, s)) <==>
                NoOverlap(w, ts[i].below, Behind(w, ts[i].kind, ctx, s)))
    decreases ts, 0
  {
    NodeEnters(w, ts, i);
    NoOverlapIsDisjoint(w, ts[i].below, Behind(w, ts[i].kind, ctx, s));
  }

  lemma {:induction false} NoOverlapIsDisjoint(w: World, ts: seq<Tree>, ctx: Ctx)
    ensures Disjoint(NodesOf(w, ts), ctx) <==> NoOverlap(w, ts, ctx)
    decreases ts, 1
  {
    var ns := NodesOf(w, ts);
    forall i, j | 0 <= i < j < |ts|
      ensures Overlap(w, ctx, ts[i].kind, ts[j].kind) <==> exists s :: ns[i].enter(ctx, s).Some? && ns[j].enter(ctx, s).Some?
    {
      NodeEnters(w, ts, i);
      NodeEnters(w, ts, j);
      SiblingsOverlapIff(w, ts[i].kind, ns[i], ts[j].kind, ns[j], ctx);
    }
    forall i, s | 0 <= i < |ts| ensures ns[i].enter(ctx, s) == Enter(w, ts[i].kind, ctx, s) {
      NodeEnters(w, ts, i);
    }
    forall i, s | 0 <= i < |ts| && Enter(w, ts[i].kind, ctx, s).Some?
      ensures ns[i].enter(ctx, s).Some?
      ensures Disjoint(ns[i].children, Beyond(ns[i], ns[i].enter(ctx, s).value, s)) <==>
              NoOverlap(w, ts[i].below, Behind(w, ts[i].kind, ctx, s))
    {
      BelowIsDisjoint(w, ts, ctx, i, s);
    }
  }

  ghost predicate NoOverlapInTree(w: World, root: Tree, ctx: Ctx) {
    forall s :: NoOverlap(w, root.below, OrElse(Enter(w, root.kind, ctx, s), ctx))
  }

  lemma NoOverlapIsDisjointTree(w: World, root: Tree, ctx: Ctx)
    ensures DisjointTree(NodeOf(w, root), ctx) <==> NoOverlapInTree(w, root, ctx)
  {
    forall s
      ensures Disjoint(NodeOf(w, root).children, Beyond(NodeOf(w, root), ctx, s)) <==>
              NoOverlap(w, root.below, OrElse(Enter(w, root.kind, ctx, s), ctx))
    {
      NoOverlapIsDisjoint(w, root.below, OrElse(Enter(w, root.kind, ctx, s), ctx));
    }
  }

  /** Every place of a tree is found by the segments that spell it exactly when no two siblings answer to one
      segment, with any parameter that can be at hand there. */
  lemma TreeFindsAllIff(w: World, root: Tree, ctx: Ctx)
    ensures FindsEverySpelledPlace(NodeOf(w, root), ctx) <==> NoOverlapInTree(w, root, ctx)
  {
    NoOverlapIsDisjointTree(w, root, ctx);
    FindsAllIff(NodeOf(w, root), ctx);
  }

  /** Parameterized nodes have no siblings, and ordinary ones have siblings with other segments. */
  predicate LoneParameters(ts: seq<Tree>) {
    && (forall i, j | 0 <= i < j < |ts| ::
          ts[i].kind.Ordinary? && ts[j].kind.Ordinary? && ts[i].kind.segment != ts[j].kind.segment)
    && forall i | 0 <= i < |ts| :: LoneParameters(ts[i].below)
  }

  lemma {:induction false} LoneParametersDoNotOverlap(w: World, ts: seq<Tree>, ctx: Ctx)
    requires LoneParameters(ts)
    ensures NoOverlap(w, ts, ctx)
    decreases ts
  {
    forall i, s | 0 <= i < |ts| && Enter(w, ts[i].kind, ctx, s).Some?
      ensures NoOverlap(w, ts[i].below, Behind(w, ts[i].kind, ctx, s))
    {
      LoneParametersDoNotOverlap(w, ts[i].below, Behind(w, ts[i].kind, ctx, s));
    }
  }

  /** In such a tree every spelled place is found, whatever instances there are. */
  lemma LoneParametersFindAll(w: World, root: Tree, ctx: Ctx)
    requires LoneParameters(root.below)
    ensures FindsEverySpelledPlace(NodeOf(w, root), ctx)
  {
    forall s ensures NoOverlap(w, root.below, OrElse(Enter(w, root.kind, ctx, s), ctx)) {
      LoneParametersDoNotOverlap(w, root.below, OrElse(Enter(w, root.kind, ctx, s), ctx));
    }
    TreeFindsAllIff(w, root, ctx);
  }

  // ---------------------------------------------------------------------------------------------
  // The links of a node to one child.

  /** The segments of a child, as its parent sees it with the parameter at hand. */
  function SegmentsOf(w: World, ctx: Ctx, k: Kind): seq<string> {
    match k
    case Ordinary(s) => [s]
    case Parameterized(d) =>
      var xs := Found(w, ctx, d.entity, d.statics);
      seq(|xs|, i requires 0 <= i < |xs| => EncodeUriSegment(NameOf(xs[i], d)))
  }

  function LinksTo(w: World, ctx: Ctx, k: Kind, pathInfo: seq<string>): seq<string> {
    var segments := SegmentsOf(w, ctx, k);
    seq(|segments|, i requires 0 <= i < |segments| => UriPathOf(pathInfo) + segments[i])
  }

  method GetAllSegmentValues(w: World, ctx: RedfishContext, k: Kind) returns (segments: seq<string>, missing: Option<string>)
    requires Entities.Valid(w) && ValidCtx(w, ctx.parameterCtx)
    requires k.Parameterized? ==> k.declared.entity in w.schema
    ensures RulesResolve(w.schema) ==> missing.None?
    ensures missing.None? ==> segments == SegmentsOf(w, ctx.parameterCtx, k)
  {
    segments, missing := [], None;
    if k.Parameterized? {
      var instances;
      instances, missing := ctx.GetInstances(w, k.declared.entity, k.declared.statics);
      if missing.Some? {
        return;
      }
      for i := 0 to |instances|
        invariant |segments| == i
        invariant forall j | 0 <= j < i :: segments[j] == EncodeUriSegment(NameOf(instances[j], k.declared))
      {
        var segment := Replace(NameOf(instances[i], k.declared), ' ', '_');
        segments := segments + [segment];
      }
    } else {
      segments := segments + [k.segment];
    }
  }

  method AddReference(w: World, ctx: RedfishContext, k: Kind, pathInfo: seq<string>)
    returns (links: seq<string>, missing: Option<string>)
    requires Entities.Valid(w) && ValidCtx(w, ctx.parameterCtx)
    requires k.Parameterized? ==> k.declared.entity in w.schema
    ensures RulesResolve(w.schema) ==> missing.None?
    ensures missing.None? ==> links == LinksTo(w, ctx.parameterCtx, k, pathInfo)
  {
    links := [];
    var segments;
    segments, missing := GetAllSegmentValues(w, ctx, k);
    if missing.Some? {
      return;
    }
    for i := 0 to |segments|
      invariant |links| == i
      invariant forall j | 0 <= j < i :: links[j] == UriPathOf(pathInfo) + segments[j]
    {
      var link := IdReference(pathInfo, segments[i]);
      links := links + [link];
    }
  }

  /** The text that is made of a name for a URI, character by character. */
  predicate WritesAs(name: string, segment: string) {
    |segment| == |name| && forall i | 0 <= i < |name| :: segment[i] == if name[i] == ' ' then '_' else name[i]
  }

  /** The links to a child: the segments of the request between slashes, and behind them the child's segment, or
      for each instance that is found its name written with underscores. */
  lemma LinksAreSpelled(w: World, ctx: Ctx, k: Kind, path: seq<string>, i: nat) returns (segment: string)
    requires path != [] && i < |LinksTo(w, ctx, k, path)|
    ensures LinksTo(w, ctx, k, path)[i] == "/" + ObjectCache.Join(path) + "/" + segment
    ensures k.Ordinary? ==> |LinksTo(w, ctx, k, path)| == 1 && segment == k.segment
    ensures k.Parameterized? ==>
              var xs := Found(w, ctx, k.declared.entity, k.declared.statics);
              |LinksTo(w, ctx, k, path)| == |xs| && WritesAs(NameOf(xs[i], k.declared), segment)
  {
    segment := SegmentsOf(w, ctx, k)[i];
    UriPathIsJoined(path);
  }

  function TreesAt(ts: seq<Tree>, place: Place): seq<Tree>
    decreases place
  {
    if place == [] then ts
    else if place[0] < |ts| then TreesAt(ts[place[0]].below, place[1..])
    else []
  }

  lemma {:induction false} ChildrenOfTrees(w: World, ts: seq<Tree>, place: Place)
    ensures ChildrenAt(NodesOf(w, ts), place) == NodesOf(w, TreesAt(ts, place))
    decreases place
  {
    if place != [] && place[0] < |ts| {
      ChildrenOfTrees(w, ts[place[0]].below, place[1..]);
    }
  }

  /** A node of a tree, found by a path with some parameter at hand, and one of its children. */
  ghost predicate HasChild(w: World, root: Tree, path: seq<string>, ctx: Ctx, hit: Hit, c: nat, k: Kind) {
    && NoOverlapInTree(w, root, ctx) && Resolve(NodeOf(w, root), path, ctx) == Some(hit)
    && (forall i | 0 <= i < |path| :: IsSegment(path[i]))
    && c < |TreesAt(root.below, hit.place)| && TreesAt(root.below, hit.place)[c].kind == k
  }

  /** The parameter that a child is asked with: its node has been looked at once more on the way. */
  function OnTheWay(w: World, root: Tree, path: seq<string>, hit: Hit): Ctx {
    if path == [] then hit.ctx else BeyondPlace(NodesOf(w, root.below), hit.place, hit.ctx, path[|path| - 1])
  }

  lemma LinkToChildIff(w: World, root: Tree, path: seq<string>, ctx: Ctx, hit: Hit, c: nat, k: Kind, segment: string, child: Ctx)
    requires HasChild(w, root, path, ctx, hit, c, k)
    ensures Resolve(NodeOf(w, root), Parse(UriPathOf(path) + segment), ctx) == Some(Hit(hit.place + [c], child)) <==>
            |Parse(segment)| == 1 && Enter(w, k, OnTheWay(w, root, path, hit), Parse(segment)[0]) == Some(child)
  {
    NoOverlapIsDisjointTree(w, root, ctx);
    ChildrenOfTrees(w, root.below, hit.place);
    NodeEnters(w, TreesAt(root.below, hit.place), c);
    LinkResolvesIff(NodeOf(w, root), path, ctx, hit, c, segment, child);
  }

  /** A URI leads to a child, with whatever parameter. */
  ghost predicate LeadsTo(w: World, root: Tree, ctx: Ctx, uri: string, place: Place) {
    var r := Resolve(NodeOf(w, root), Parse(uri), ctx);
    r.Some? && r.value.place == place
  }

  lemma LeadsToChildIff(w: World, root: Tree, path: seq<string>, ctx: Ctx, hit: Hit, c: nat, k: Kind, segment: string)
    requires HasChild(w, root, path, ctx, hit, c, k)
    ensures LeadsTo(w, root, ctx, UriPathOf(path) + segment, hit.place + [c]) <==>
            |Parse(segment)| == 1 && Answers(w, OnTheWay(w, root, path, hit), k, Parse(segment)[0])
  {
    var r := Resolve(NodeOf(w, root), Parse(UriPathOf(path) + segment), ctx);
    if r.Some? {
      LinkToChildIff(w, root, path, ctx, hit, c, k, segment, r.value.ctx);
    }
    LinkToChildIff(w, root, path, ctx, hit, c, k, segment, ctx);
    if |Parse(segment)| == 1 {
      var there := OnTheWay(w, root, path, hit);
      AnswersIff(w, there, k, Parse(segment)[0]);
      if Enter(w, k, there, Parse(segment)[0]).Some? {
        LinkToChildIff(w, root, path, ctx, hit, c, k, segment, Enter(w, k, there, Parse(segment)[0]).value);
      }
    }
  }

  /** The link to an ordinary child leads to it. */
  lemma OrdinaryLinkLeads(w: World, root: Tree, path: seq<string>, ctx: Ctx, hit: Hit, c: nat, segment: string)
    requires HasChild(w, root, path, ctx, hit, c, Ordinary(segment)) && IsSegment(segment)
    ensures LinksTo(w, hit.ctx, Ordinary(segment), path) == [UriPathOf(path) + segment]
    ensures LeadsTo(w, root, ctx, UriPathOf(path) + segment, hit.place + [c])
  {
    ParseSegment(segment);
    LeadsToChildIff(w, root, path, ctx, hit, c, Ordinary(segment), segment);
  }

  lemma EncodedIsSegment(name: string)
    requires IsSegment(name)
    ensures IsSegment(EncodeUriSegment(name))
  {
    var s := EncodeUriSegment(name);
    forall i | 0 <= i < |s| ensures s[i] != '/' {
      assert name[i] in name;
    }
  }

  /** The link that is made for an instance of a parameterized child leads to that child exactly when an instance
      that is searched there has the name's spelling with spaces, or the entity is the current one and related
      to itself. It comes with the first such instance for a parameter, or with the one at hand. */
  lemma NameLinkLeadsIff(w: World, root: Tree, path: seq<string>, ctx: Ctx, hit: Hit, c: nat, d: Declared, i: nat)
    requires HasChild(w, root, path, ctx, hit, c, Parameterized(d))
    requires i < |LinksTo(w, hit.ctx, Parameterized(d), path)|
    requires IsSegment(NameOf(Found(w, hit.ctx, d.entity, d.statics)[i], d))
    ensures var link := LinksTo(w, hit.ctx, Parameterized(d), path)[i];
            var name := NameOf(Found(w, hit.ctx, d.entity, d.statics)[i], d);
            var there := OnTheWay(w, root, path, hit);
            var hits := Hits(w, there, d, EncodeUriSegment(name));
            && (LeadsTo(w, root, ctx, link, hit.place + [c]) <==>
                SelfRelated(w, there, d.entity) || SomeHasName(Named(w, there, d), d, DecodeUriSegment(name)))
            && (LeadsTo(w, root, ctx, link, hit.place + [c]) ==>
                  Resolve(NodeOf(w, root), Parse(link), ctx).value.ctx ==
                  if hits != [] then Parameter(d.entity, hits[0]) else there)
  {
    var k := Parameterized(d);
    var name := NameOf(Found(w, hit.ctx, d.entity, d.statics)[i], d);
    var segment := EncodeUriSegment(name);
    var there := OnTheWay(w, root, path, hit);
    EncodedIsSegment(name);
    ParseSegment(segment);
    DecodeForgetsEncode(name);
    LeadsToChildIff(w, root, path, ctx, hit, c, k, segment);
    HitsIff(w, there, d, segment);
    if LeadsTo(w, root, ctx, UriPathOf(path) + segment, hit.place + [c]) {
      LinkToChildIff(w, root, path, ctx, hit, c, k, segment, Accepted(w, there, d, segment).value);
    }
  }

  /** The parameter at hand where links are made is the one that they are followed with. */
  predicate Settled(w: World, root: Tree, path: seq<string>, hit: Hit) {
    OnTheWay(w, root, path, hit) == hit.ctx
  }

  function KindAt(ts: seq<Tree>, place: Place): Option<Kind>
    decreases place
  {
    if place == [] || place[0] >= |ts| then None
    else if |place| == 1 then Some(ts[place[0]].kind)
    else KindAt(ts[place[0]].below, place[1..])
  }

  lemma {:induction false} PlaceWasEntered(w: World, ts: seq<Tree>, path: seq<string>, depth: nat, ctx: Ctx, place: Place)
    returns (before: Ctx)
    requires SpelledIn(NodesOf(w, ts), path, depth, ctx, place).Some?
    ensures path != [] && KindAt(ts, place).Some?
    ensures var here, s := SpelledIn(NodesOf(w, ts), path, depth, ctx, place).value, path[|path| - 1];
            Enter(w, KindAt(ts, place).value, before, s) == Some(here) &&
            BeyondPlace(NodesOf(w, ts), place, here, s) == Behind(w, KindAt(ts, place).value, before, s)
    decreases place
  {
    NodeEnters(w, ts, place[0]);
    if |place| == 1 {
      before := ctx;
    } else {
      var n := NodesOf(w, ts)[place[0]];
      var entered := n.enter(ctx, path[depth]).value;
      before := PlaceWasEntered(w, ts[place[0]].below, path, depth + 1, Beyond(n, entered, path[depth]), place[1..]);
    }
  }

  /** A node that would accept its segment for another instance, related to the one just found. */
  predicate MovesOn(w: World, k: Kind, here: Ctx, segment: string) {
    k.Parameterized? && SelfRelated(w, here, k.declared.entity) &&
    var hits := Hits(w, here, k.declared, segment);
    hits != [] && hits[0] != here.inst
  }

  /** It is, below an ordinary node, and below a parameterized one unless the instance that was found for it is
      related to another one of the same name. */
  lemma SettledIff(w: World, root: Tree, path: seq<string>, ctx: Ctx, hit: Hit)
    requires Resolve(NodeOf(w, root), path, ctx) == Some(hit) && hit.place != []
    ensures path != [] && KindAt(root.below, hit.place).Some?
    ensures Settled(w, root, path, hit) <==> !MovesOn(w, KindAt(root.below, hit.place).value, hit.ctx, path[|path| - 1])
  {
    ResolvedIsSpelled(NodeOf(w, root), path, ctx);
    var before := PlaceWasEntered(w, root.below, path, 1, Beyond(NodeOf(w, root), ctx, path[0]), hit.place);
    var k := KindAt(root.below, hit.place).value;
    if k.Parameterized? {
      SecondLook(w, before, k.declared, path[|path| - 1]);
    }
  }

  /** Where it is, and an instance has a name without underscores that no other one has, its link leads back to
      the child with that instance for a parameter. */
  lemma NameLinkLeadsHome(w: World, root: Tree, path: seq<string>, ctx: Ctx, hit: Hit, c: nat, d: Declared, i: nat)
    requires HasChild(w, root, path, ctx, hit, c, Parameterized(d)) && Settled(w, root, path, hit)
    requires i < |LinksTo(w, hit.ctx, Parameterized(d), path)|
    requires var x := Named(w, hit.ctx, d);
             i < |x| && IsSegment(NameOf(x[i], d)) && '_' !in NameOf(x[i], d) && HasName(x[i], d, NameOf(x[i], d)) &&
             forall y | y in x && HasName(y, d, NameOf(x[i], d)) :: y == x[i]
    ensures Resolve(NodeOf(w, root), Parse(LinksTo(w, hit.ctx, Parameterized(d), path)[i]), ctx) ==
            Some(Hit(hit.place + [c], Parameter(d.entity, Named(w, hit.ctx, d)[i])))
  {
    var xs := Named(w, hit.ctx, d);
    assert Found(w, hit.ctx, d.entity, d.statics) == xs;
    var name := NameOf(xs[i], d);
    var segment := EncodeUriSegment(name);
    NameLinkLeadsIff(w, root, path, ctx, hit, c, d, i);
    SegmentIsReadBackIff(name);
    DecodeForgetsEncode(name);
    HitsIff(w, hit.ctx, d, segment);
    var hits := Hits(w, hit.ctx, d, segment);
    HitsAreNamed(w, hit.ctx, d, segment, hits[0]);
  }

  /** All links to a parameterized child lead to it exactly when its names have their spellings with spaces among
      those that are searched on the way, or the entity is the current one and related to itself. */
  lemma AllNameLinksLeadIff(w: World, root: Tree, path: seq<string>, ctx: Ctx, hit: Hit, c: nat, d: Declared)
    requires HasChild(w, root, path, ctx, hit, c, Parameterized(d))
    requires forall x | x in Found(w, hit.ctx, d.entity, d.statics) :: IsSegment(NameOf(x, d))
    ensures var links, xs := LinksTo(w, hit.ctx, Parameterized(d), path), Found(w, hit.ctx, d.entity, d.statics);
            var there := OnTheWay(w, root, path, hit);
            (forall i | 0 <= i < |links| :: LeadsTo(w, root, ctx, links[i], hit.place + [c])) <==>
            SelfRelated(w, there, d.entity) ||
            forall i | 0 <= i < |xs| :: SomeHasName(Named(w, there, d), d, DecodeUriSegment(NameOf(xs[i], d)))
  {
    var links, xs := LinksTo(w, hit.ctx, Parameterized(d), path), Found(w, hit.ctx, d.entity, d.statics);
    var there := OnTheWay(w, root, path, hit);
    forall i | 0 <= i < |links|
      ensures LeadsTo(w, root, ctx, links[i], hit.place + [c]) <==>
              SelfRelated(w, there, d.entity) || SomeHasName(Named(w, there, d), d, DecodeUriSegment(NameOf(xs[i], d)))
    {
      NameLinkLeadsIff(w, root, path, ctx, hit, c, d, i);
    }
  }
}
