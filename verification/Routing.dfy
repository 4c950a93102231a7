// The tree of Redfish nodes: which node a URI resolves to, and where a link in front of a child leads. What a
// node answers to depends on the parameter accepted before it.
module Routing {
  import opened Options
  import opened Parameters
  import opened ObjectCache

  /** A node: whether it answers to a segment, given the parameter accepted before, and the parameter then;
      and its child nodes. */
  datatype Node = Node(enter: (Ctx, string) -> Option<Ctx>, children: seq<Node>)

  /** The place of a node in the tree: which child to take at each step from the root. */
  type Place = seq<nat>

  /** A node that was found, and the parameter it was found with. */
  datatype Hit = Hit(place: Place, ctx: Ctx)

  function ValidateSegment(n: Node, path: seq<string>, depth: nat, ctx: Ctx): Option<Ctx> {
    if depth < |path| then n.enter(ctx, path[depth]) else None
  }

  predicate MatchEntirePattern(path: seq<string>, depth: nat) { depth == |path| - 1 }

  /** A segment that a node does not answer to leaves the parameter as it was. */
  function OrElse(entered: Option<Ctx>, ctx: Ctx): Ctx { if entered.Some? then entered.value else ctx }

  function UriResolver(n: Node, path: seq<string>, depth: nat, ctx: Ctx): Option<Hit>
    decreases n, 0
  {
    var entered := ValidateSegment(n, path, depth, ctx);
    if entered.Some? && MatchEntirePattern(path, depth) then Some(Hit([], entered.value))
    else if n.children != [] then NextChildResolver(n.children, 0, path, depth + 1, OrElse(entered, ctx))
    else None
  }

  /** The first child that answers to the segment is taken, and no other is tried after it. On the way to one
      of its own children it is asked again, with the parameter that it has just accepted. */
  function NextChildResolver(children: seq<Node>, i: nat, path: seq<string>, depth: nat, ctx: Ctx): Option<Hit>
    requires i <= |children|
    decreases children, |children| - i
  {
    if i == |children| then None
    else
      match ValidateSegment(children[i], path, depth, ctx)
      case None => NextChildResolver(children, i + 1, path, depth, ctx)
      case Some(entered) =>
        if MatchEntirePattern(path, depth) then Some(Hit([i], entered))
        else
          match UriResolver(children[i], path, depth, entered)
          case None => None
          case Some(hit) => Some(Hit([i] + hit.place, hit.ctx))
  }

  function Resolve(root: Node, path: seq<string>, ctx: Ctx): Option<Hit> { UriResolver(root, path, 0, ctx) }

  // ---------------------------------------------------------------------------------------------
  // Spelling.

  /** The parameter behind a node that has answered to a segment: it has been asked once more. */
  function Beyond(n: Node, entered: Ctx, segment: string): Ctx { OrElse(n.enter(entered, segment), entered) }

  /** The parameter at a place if the nodes on the way to it answer to the segments from some depth on. */
  function SpelledIn(children: seq<Node>, path: seq<string>, depth: nat, ctx: Ctx, place: Place): Option<Ctx>
    decreases place
  {
    if place == [] || place[0] >= |children| || depth >= |path| then None
    else
      var n := children[place[0]];
      match n.enter(ctx, path[depth])
      case None => None
      case Some(entered) =>
        if |place| == 1 then (if depth + 1 == |path| then Some(entered) else None)
        else SpelledIn(n.children, path, depth + 1, Beyond(n, entered, path[depth]), place[1..])
  }

  /** Of the root's own segment only a path without others asks anything. */
  function Spelled(root: Node, path: seq<string>, ctx: Ctx, place: Place): Option<Ctx> {
    if path == [] then None
    else if place == [] then (if |path| == 1 then root.enter(ctx, path[0]) else None)
    else SpelledIn(root.children, path, 1, Beyond(root, ctx, path[0]), place)
  }

  lemma {:induction false} SpelledLength(children: seq<Node>, path: seq<string>, depth: nat, ctx: Ctx, place: Place)
    requires SpelledIn(children, path, depth, ctx, place).Some?
    ensures |path| == depth + |place|
    decreases place
  {
    var n := children[place[0]];
    if |place| > 1 {
      SpelledLength(n.children, path, depth + 1, Beyond(n, n.enter(ctx, path[depth]).value, path[depth]), place[1..]);
    }
  }

  lemma {:induction false} ChildIsSpelled(children: seq<Node>, i: nat, path: seq<string>, depth: nat, ctx: Ctx)
    requires i <= |children|
    ensures var r := NextChildResolver(children, i, path, depth, ctx);
            r.Some? ==> r.value.place != [] && SpelledIn(children, path, depth, ctx, r.value.place) == Some(r.value.ctx)
    decreases children, |children| - i
  {
    if i < |children| {
      var entered := ValidateSegment(children[i], path, depth, ctx);
      if entered.Some? {
        ChildIsSpelled(children[i].children, 0, path, depth + 1, Beyond(children[i], entered.value, path[depth]));
      } else {
        ChildIsSpelled(children, i + 1, path, depth, ctx);
      }
    }
  }

  /** Whatever a URI resolves to, it spells, the parameter included. */
  lemma ResolvedIsSpelled(root: Node, path: seq<string>, ctx: Ctx)
    ensures var r := Resolve(root, path, ctx); r.Some? ==> Spelled(root, path, ctx, r.value.place) == Some(r.value.ctx)
  {
    if path == [] {
      NothingBeyond(root.children, 0, path, 1, ctx);
    } else {
      ChildIsSpelled(root.children, 0, path, 1, Beyond(root, ctx, path[0]));
    }
  }

  lemma {:induction false} NothingBeyond(children: seq<Node>, i: nat, path: seq<string>, depth: nat, ctx: Ctx)
    requires i <= |children| && depth >= |path|
    ensures NextChildResolver(children, i, path, depth, ctx) == None
    decreases |children| - i
  {
    if i < |children| { NothingBeyond(children, i + 1, path, depth, ctx); }
  }

  /** With the parameter at hand, and with those that the children themselves accept from there on, no segment
      is answered by two siblings. */
  ghost predicate Disjoint(children: seq<Node>, ctx: Ctx)
    decreases children
  {
    && (forall i, j, s | 0 <= i < j < |children| && children[i].enter(ctx, s).Some? :: children[j].enter(ctx, s).None?)
    && forall i, s | 0 <= i < |children| && children[i].enter(ctx, s).Some? ::
         Disjoint(children[i].children, Beyond(children[i], children[i].enter(ctx, s).value, s))
  }

  lemma {:induction false} SpelledIsFound(children: seq<Node>, i: nat, path: seq<string>, depth: nat, ctx: Ctx, place: Place)
    requires Disjoint(children, ctx) && SpelledIn(children, path, depth, ctx, place).Some? && i <= place[0]
    ensures NextChildResolver(children, i, path, depth, ctx) ==
            Some(Hit(place, SpelledIn(children, path, depth, ctx, place).value))
    decreases children, |children| - i
  {
    if i < place[0] {
      assert children[place[0]].enter(ctx, path[depth]).Some?;
      SpelledIsFound(children, i + 1, path, depth, ctx, place);
    } else if |place| == 1 {
      assert place == [i];
    } else {
      var n, entered := children[i], children[i].enter(ctx, path[depth]).value;
      var ctx' := Beyond(n, entered, path[depth]);
      SpelledLength(n.children, path, depth + 1, ctx', place[1..]);
      SpelledIsFound(n.children, 0, path, depth + 1, ctx', place[1..]);
      assert place == [i] + place[1..];
    }
  }

  /** The same for the whole tree, whatever the root's segment. */
  ghost predicate DisjointTree(root: Node, ctx: Ctx) {
    forall s :: Disjoint(root.children, Beyond(root, ctx, s))
  }

  /** Then a URI resolves to exactly the place that it spells. */
  lemma ResolvesExactly(root: Node, path: seq<string>, ctx: Ctx, hit: Hit)
    requires DisjointTree(root, ctx)
    ensures Resolve(root, path, ctx) == Some(hit) <==> Spelled(root, path, ctx, hit.place) == Some(hit.ctx)
  {
    ResolvedIsSpelled(root, path, ctx);
    if Spelled(root, path, ctx, hit.place) == Some(hit.ctx) && hit.place != [] {
      var ctx' := Beyond(root, ctx, path[0]);
      assert Disjoint(root.children, ctx');
      SpelledLength(root.children, path, 1, ctx', hit.place);
      SpelledIsFound(root.children, 0, path, 1, ctx', hit.place);
    }
  }

  lemma {:induction false} FirstAnswers(children: seq<Node>, i: nat, k: nat, path: seq<string>, depth: nat, ctx: Ctx)
    requires i <= k < |children| && ValidateSegment(children[k], path, depth, ctx).Some?
    ensures var r := NextChildResolver(children, i, path, depth, ctx);
            var entered := ValidateSegment(children[k], path, depth, ctx).value;
            && (r.Some? ==> r.value.place != [] && r.value.place[0] <= k)
            && (r.Some? && r.value.place[0] == k && depth < |path| - 1 ==>
                  var below := UriResolver(children[k], path, depth, entered);
                  below.Some? && r.value.place == [k] + below.value.place)
    decreases k - i
  {
    if ValidateSegment(children[i], path, depth, ctx).None? {
      FirstAnswers(children, i + 1, k, path, depth, ctx);
    }
  }

  predicate IsMissed(r: Option<Hit>, place: Place) { r.Some? ==> r.value.place != place }

  /** Where two siblings answer to one segment, the second of them is not found. */
  lemma {:induction false} OverlapIsMissed(children: seq<Node>, prefix: seq<string>, ctx: Ctx)
    returns (path: seq<string>, place: Place)
    requires !Disjoint(children, ctx)
    ensures |path| > |prefix| && path[..|prefix|] == prefix
    ensures SpelledIn(children, path, |prefix|, ctx, place).Some?
    ensures IsMissed(NextChildResolver(children, 0, path, |prefix|, ctx), place)
    decreases children
  {
    var depth := |prefix|;
    if i, j, s :| 0 <= i < j < |children| && children[i].enter(ctx, s).Some? && children[j].enter(ctx, s).Some? {
      path, place := prefix + [s], [j];
      FirstAnswers(children, 0, i, path, depth, ctx);
    } else {
      var k, s :| 0 <= k < |children| && children[k].enter(ctx, s).Some? &&
        !Disjoint(children[k].children, Beyond(children[k], children[k].enter(ctx, s).value, s));
      path, place := OverlapBelow(children, k, s, prefix, ctx);
    }
  }

  lemma {:induction false} OverlapBelow(children: seq<Node>, k: nat, s: string, prefix: seq<string>, ctx: Ctx)
    returns (path: seq<string>, place: Place)
    requires k < |children| && children[k].enter(ctx, s).Some?
    requires !Disjoint(children[k].children, Beyond(children[k], children[k].enter(ctx, s).value, s))
    ensures |path| > |prefix| && path[..|prefix|] == prefix
    ensures SpelledIn(children, path, |prefix|, ctx, place).Some?
    ensures IsMissed(NextChildResolver(children, 0, path, |prefix|, ctx), place)
    decreases children, 0
  {
    var n, depth := children[k], |prefix|;
    var ctx' := Beyond(n, n.enter(ctx, s).value, s);
    var below;
    path, below := OverlapIsMissed(n.children, prefix + [s], ctx');
    place := [k] + below;
    assert path[depth] == path[..depth + 1][depth] == s;
    assert path[..depth] == path[..depth + 1][..depth];
    assert place[1..] == below;
    FirstAnswers(children, 0, k, path, depth, ctx);
  }

  ghost predicate FindsEverySpelledPlace(root: Node, ctx: Ctx) {
    forall path, place | Spelled(root, path, ctx, place).Some? ::
      Resolve(root, path, ctx) == Some(Hit(place, Spelled(root, path, ctx, place).value))
  }

  /** Every spelled place is found exactly when siblings are disjoint throughout the tree, with each parameter
      that can be at hand. */
  lemma FindsAllIff(root: Node, ctx: Ctx)
    ensures FindsEverySpelledPlace(root, ctx) <==> DisjointTree(root, ctx)
  {
    if DisjointTree(root, ctx) {
      forall path, place | Spelled(root, path, ctx, place).Some?
        ensures Resolve(root, path, ctx) == Some(Hit(place, Spelled(root, path, ctx, place).value))
      {
        ResolvesExactly(root, path, ctx, Hit(place, Spelled(root, path, ctx, place).value));
      }
    } else {
      var s :| !Disjoint(root.children, Beyond(root, ctx, s));
      var path, place := OverlapIsMissed(root.children, [s], Beyond(root, ctx, s));
      assert path[0] == path[..1][0] == s;
      assert Spelled(root, path, ctx, place).Some?;
      assert Resolve(root, path, ctx) == NextChildResolver(root.children, 0, path, 1, Beyond(root, ctx, s));
    }
  }

  /** The resolver does not look at the segment of a root that takes no parameter on the way to its
      children. */
  lemma RootSegmentIsIgnored(root: Node, first: string, other: string, rest: seq<string>, ctx: Ctx)
    requires rest != [] && forall s :: Beyond(root, ctx, s) == ctx
    ensures Resolve(root, [first] + rest, ctx) == Resolve(root, [other] + rest, ctx)
  {
    assert Beyond(root, ctx, first) == Beyond(root, ctx, other);
    if root.children != [] {
      SameFrom(root.children, 0, [first] + rest, [other] + rest, 1, ctx);
    }
  }

  lemma {:induction false} SameFrom(children: seq<Node>, i: nat, p: seq<string>, q: seq<string>, depth: nat, ctx: Ctx)
    requires i <= |children| && |p| == |q| && depth > 0 && forall k | 1 <= k < |p| :: p[k] == q[k]
    ensures NextChildResolver(children, i, p, depth, ctx) == NextChildResolver(children, i, q, depth, ctx)
    decreases children, |children| - i
  {
    if i < |children| {
      SameFrom(children, i + 1, p, q, depth, ctx);
      var entered := ValidateSegment(children[i], p, depth, ctx);
      if entered.Some? {
        SameFrom(children[i].children, 0, p, q, depth + 1, Beyond(children[i], entered.value, p[depth]));
      }
    }
  }

  // ---------------------------------------------------------------------------------------------
  // Links.

  function UriPathOf(path: seq<string>): string {
    if path == [] then "/" else UriPathOf(path[..|path| - 1]) + path[|path| - 1] + "/"
  }

  lemma {:induction false} JoinLast(front: seq<string>, last: string)
    requires front != []
    ensures Join(front + [last]) == Join(front) + "/" + last
  {
    if |front| == 1 {
      assert (front + [last])[1..] == [last];
    } else {
      JoinLast(front[1..], last);
      assert (front + [last])[1..] == front[1..] + [last];
    }
  }

  lemma AppendInside(slash: string, front: string, last: string)
    ensures slash + front + slash + last + slash == slash + (front + slash + last) + slash
  {
  }

  lemma {:induction false} UriPathIsJoined(path: seq<string>)
    ensures UriPathOf(path) == if path == [] then "/" else "/" + Join(path) + "/"
  {
    if |path| == 1 {
      assert path[..0] == [];
    } else if path != [] {
      var n := |path| - 1;
      UriPathIsJoined(path[..n]);
      JoinLast(path[..n], path[n]);
      AppendInside("/", Join(path[..n]), path[n]);
      assert path == path[..n] + [path[n]];
    }
  }

  /** The URI of the request, with a slash in front of and after every segment. */
  method GetUriPath(pathInfo: seq<string>) returns (uri: string)
    ensures uri == UriPathOf(pathInfo)
  {
    uri := "/";
    for i := 0 to |pathInfo|
      invariant uri == UriPathOf(pathInfo[..i])
    {
      assert pathInfo[..i + 1][..i] == pathInfo[..i];
      uri := uri + pathInfo[i] + "/";
    }
    assert pathInfo[..|pathInfo|] == pathInfo;
  }

  /** The link to a child: its segment after the URI of the request. */
  method IdReference(pathInfo: seq<string>, segment: string) returns (odataId: string)
    ensures odataId == UriPathOf(pathInfo) + segment
  {
    var uri := GetUriPath(pathInfo);
    odataId := uri + segment;
  }

  function NonEmpty(pieces: seq<string>): seq<string> {
    if pieces == [] then []
    else (if pieces[0] == "" then [] else [pieces[0]]) + NonEmpty(pieces[1..])
  }

  /** The segments of a URI, as a request for it has them. */
  function Parse(uri: string): seq<string> { NonEmpty(Split(uri)) }

  predicate IsSegment(s: string) { s != "" && '/' !in s }

  lemma {:induction false} SplitSegment(s: string)
    requires '/' !in s
    ensures Split(s) == [s]
  {
    if s != "" {
      SplitSegment(s[1..]);
      assert s == [s[0]] + s[1..];
    }
  }

  lemma {:induction false} NonEmptyAppend(a: seq<string>, b: seq<string>)
    ensures NonEmpty(a + b) == NonEmpty(a) + NonEmpty(b)
  {
    if a == [] {
      assert a + b == b;
    } else {
      assert (a + b)[1..] == a[1..] + b;
      NonEmptyAppend(a[1..], b);
    }
  }

  /** What one more character in front makes of the pieces. */
  function InFront(c: char, pieces: seq<string>): seq<string>
    requires pieces != []
  {
    if c == '/' then [""] + pieces else [[c] + pieces[0]] + pieces[1..]
  }

  lemma SplitInFront(c: char, x: string)
    ensures Split([c] + x) == InFront(c, Split(x))
  {
    assert ([c] + x)[1..] == x;
  }

  lemma InFrontAppend(c: char, a: seq<string>, b: seq<string>)
    requires a != []
    ensures InFront(c, a + b) == InFront(c, a) + b
  {
    assert (a + b)[1..] == a[1..] + b;
  }

  lemma {:induction false} SplitAppend(a: string, b: string)
    ensures Split(a + ['/'] + b) == Split(a) + Split(b)
  {
    if a == "" {
      SplitInFront('/', b);
      assert a + ['/'] + b == ['/'] + b;
    } else {
      var c, rest := a[0], a[1..];
      SplitAppend(rest, b);
      assert a == [c] + rest;
      assert a + ['/'] + b == [c] + (rest + ['/'] + b);
      SplitInFront(c, rest + ['/'] + b);
      SplitInFront(c, rest);
      InFrontAppend(c, Split(rest), Split(b));
    }
  }

  lemma ParseSegment(s: string)
    requires IsSegment(s)
    ensures Parse(s) == [s]
  {
    SplitSegment(s);
    assert NonEmpty([s]) == [s] + NonEmpty([s][1..]);
  }

  lemma {:induction false} ParseUriPath(path: seq<string>, last: string)
    requires forall i | 0 <= i < |path| :: IsSegment(path[i])
    ensures Parse(UriPathOf(path) + last) == path + Parse(last)
    decreases |path|
  {
    if path == [] {
      SplitAppend("", last);
      assert "" + ['/'] + last == UriPathOf([]) + last;
      NonEmptyAppend([""], Split(last));
    } else {
      var front, s := path[..|path| - 1], path[|path| - 1];
      ParseUriPath(front, s);
      ParseSegment(s);
      SplitAppend(UriPathOf(front) + s, last);
      NonEmptyAppend(Split(UriPathOf(front) + s), Split(last));
      assert UriPathOf(path) + last == UriPathOf(front) + s + ['/'] + last;
      assert front + [s] + Parse(last) == path + Parse(last);
    }
  }

  function ChildrenAt(children: seq<Node>, place: Place): seq<Node>
    decreases place
  {
    if place == [] then children
    else if place[0] < |children| then ChildrenAt(children[place[0]].children, place[1..])
    else []
  }

  /** The parameter behind the node at a place. */
  function BeyondPlace(children: seq<Node>, place: Place, here: Ctx, segment: string): Ctx
    decreases place
  {
    if place == [] || place[0] >= |children| then here
    else if |place| == 1 then Beyond(children[place[0]], here, segment)
    else BeyondPlace(children[place[0]].children, place[1..], here, segment)
  }

  lemma {:induction false} SpelledOneMore(children: seq<Node>, path: seq<string>, depth: nat, ctx: Ctx, place: Place,
                                          c: nat, segment: string)
    requires SpelledIn(children, path, depth, ctx, place).Some?
    ensures path != []
    ensures var there := BeyondPlace(children, place, SpelledIn(children, path, depth, ctx, place).value, path[|path| - 1]);
            var below := ChildrenAt(children, place);
            SpelledIn(children, path + [segment], depth, ctx, place + [c]) ==
            if c < |below| then below[c].enter(there, segment) else None
    decreases place
  {
    var n := children[place[0]];
    var entered := n.enter(ctx, path[depth]).value;
    assert (place + [c])[1..] == place[1..] + [c];
    if |place| == 1 {
      assert place[1..] + [c] == [c];
    } else {
      SpelledOneMore(n.children, path, depth + 1, Beyond(n, entered, path[depth]), place[1..], c, segment);
    }
  }

  /** A link, whatever its text, resolves to a child exactly when it adds one segment that the child answers
      to, with the parameter behind the node that gives the link. */
  lemma LinkResolvesIff(root: Node, path: seq<string>, ctx: Ctx, hit: Hit, c: nat, segment: string, child: Ctx)
    requires DisjointTree(root, ctx) && Resolve(root, path, ctx) == Some(hit)
    requires forall i | 0 <= i < |path| :: IsSegment(path[i])
    requires c < |ChildrenAt(root.children, hit.place)|
    ensures path != []
    ensures var there := BeyondPlace(root.children, hit.place, hit.ctx, path[|path| - 1]);
            var pieces := Parse(segment);
            Resolve(root, Parse(UriPathOf(path) + segment), ctx) == Some(Hit(hit.place + [c], child)) <==>
            |pieces| == 1 && ChildrenAt(root.children, hit.place)[c].enter(there, pieces[0]) == Some(child)
  {
    var place, pieces := hit.place, Parse(segment);
    ResolvedIsSpelled(root, path, ctx);
    ParseUriPath(path, segment);
    ResolvesExactly(root, path + pieces, ctx, Hit(place + [c], child));
    var ctx' := Beyond(root, ctx, path[0]);
    if place != [] { SpelledLength(root.children, path, 1, ctx', place); }
    if Spelled(root, path + pieces, ctx, place + [c]).Some? {
      SpelledLength(root.children, path + pieces, 1, ctx', place + [c]);
    }
    if |pieces| == 1 {
      assert pieces == [pieces[0]];
      if place == [] {
        assert place + [c] == [c];
      } else {
        SpelledOneMore(root.children, path, 1, ctx', place, c, pieces[0]);
      }
    }
  }
}
