/** The route flow diagram of src/components/RouteFlow.tsx: three columns of nodes
    (profiles, interfaces, destination groups), counted links between neighbouring
    columns, and the column layout. */
module RouteFlow {
  import opened Prelude
  import opened Text

  datatype NodeType = ProfileNode | IfaceNode | DestNode
  datatype NodeKey = NodeKey(ty: NodeType, id: string)
  datatype Node = Node(id: string, ty: NodeType, value: nat) {
    function Key(): NodeKey { NodeKey(ty, id) }
  }
  datatype Link = Link(source: nat, target: nat, value: nat)
  datatype Planned = Planned(ownerName: string, interfaceName: Option<string>, destination: string, active: bool)

  function DestGroup(dest: string): string {
    if dest == "0.0.0.0/0" then "0.0.0.0/0 (default)"
    else if dest == "::/0" then "::/0 (default)"
    else
      var parts := Split(dest, '.');
      if |parts| >= 2 then parts[0] + "." + parts[1] + ".0.0/16" else dest
  }

  /** The node of each column that a route passes through. */
  function KeyOf(r: Planned, ty: NodeType): NodeKey {
    match ty
    case ProfileNode => NodeKey(ProfileNode, r.ownerName)
    case IfaceNode => NodeKey(IfaceNode, r.interfaceName.GetOr("auto"))
    case DestNode => NodeKey(DestNode, DestGroup(r.destination))
  }

  predicate Shown(r: Planned, hideIpv6: bool) {
    r.active && !(hideIpv6 && ':' in r.destination)
  }

  function ActiveOf(routes: seq<Planned>, hideIpv6: bool): seq<Planned> {
    if routes == [] then []
    else
      var rest, last := ActiveOf(routes[..|routes| - 1], hideIpv6), routes[|routes| - 1];
      if Shown(last, hideIpv6) then rest + [last] else rest
  }

  // ----- what is shown, and where ---------------------------------------

  /** The shown routes are the active ones, without IPv6 destinations when those are hidden,
      in the order given. */
  lemma ShownExactly(r: Planned, hideIpv6: bool)
    ensures r in ActiveOf([r], hideIpv6) <==>
            r.active && (hideIpv6 ==> forall i :: 0 <= i < |r.destination| ==> r.destination[i] != ':')
    ensures ActiveOf([], hideIpv6) == [] && |ActiveOf([r], hideIpv6)| <= 1
  {
    assert [r][..0] == [];
    assert forall i :: 0 <= i < |r.destination| ==> r.destination[i] in r.destination;
  }

  lemma {:induction false} ActiveJoined(a: seq<Planned>, b: seq<Planned>, hideIpv6: bool)
    ensures ActiveOf(a + b, hideIpv6) == ActiveOf(a, hideIpv6) + ActiveOf(b, hideIpv6)
    decreases |b|
  {
    hide Shown;
    if b == [] {
      assert a + b == a;
    } else {
      ActiveJoined(a, b[..|b| - 1], hideIpv6);
      assert (a + b)[..|a + b| - 1] == a + b[..|b| - 1];
    }
  }

  /** A route starts at its owner and leaves by its interface, or by "auto" without one. */
  lemma PathExactly(r: Planned)
    ensures KeyOf(r, ProfileNode) == NodeKey(ProfileNode, r.ownerName)
    ensures r.interfaceName.Some? ==> KeyOf(r, IfaceNode) == NodeKey(IfaceNode, r.interfaceName.value)
    ensures r.interfaceName.None? ==> KeyOf(r, IfaceNode) == NodeKey(IfaceNode, "auto")
    ensures KeyOf(r, DestNode) == NodeKey(DestNode, DestGroup(r.destination))
  {
  }

  ghost predicate IsDefault(dest: string) {
    dest == "0.0.0.0/0" || dest == "::/0"
  }

  ghost predicate HasDot(dest: string) {
    |Split(dest, '.')| >= 2
  }

  /** The group of a dotted destination splits into its first two parts and two fixed ones. */
  lemma GroupParts(dest: string)
    requires !IsDefault(dest) && HasDot(dest)
    ensures Split(DestGroup(dest), '.') == Split(dest, '.')[..2] + ["0", "0/16"]
  {
    hide Split;
    var parts := Split(dest, '.');
    assert parts[0] in parts && parts[1] in parts;
    var tail := "0" + ['.'] + "0/16";
    SplitAtSep("0", '.', "0/16");
    SplitNoSep("0/16", '.');
    SplitAtSep(parts[1], '.', tail);
    SplitAtSep(parts[0], '.', parts[1] + ['.'] + tail);
    assert DestGroup(dest) == parts[0] + ['.'] + (parts[1] + ['.'] + tail);
  }

  /** Two dotted destinations share a group exactly when their first two parts agree; a
      destination without a dot stands alone under its own text, and so do the two defaults. */
  lemma SameGroupExactly(a: string, b: string)
    ensures !IsDefault(a) && !IsDefault(b) && HasDot(a) && HasDot(b) ==>
              (DestGroup(a) == DestGroup(b) <==> Split(a, '.')[..2] == Split(b, '.')[..2])
    ensures !IsDefault(a) && !HasDot(a) ==> DestGroup(a) == a
    ensures IsDefault(a) ==> DestGroup(a) == a + " (default)"
    ensures IsDefault(a) && !IsDefault(b) && HasDot(b) ==> DestGroup(a) != DestGroup(b)
  {
    hide Split;
    if !IsDefault(a) && HasDot(a) { GroupParts(a); }
    if !IsDefault(b) && HasDot(b) {
      GroupParts(b);
      DefaultGroup(a, Split(b, '.')[..2]);
      if !IsDefault(a) && HasDot(a) { SameGroup(a, b); }
    }
  }

  lemma SameGroup(a: string, b: string)
    requires !IsDefault(a) && HasDot(a) && !IsDefault(b) && HasDot(b)
    ensures DestGroup(a) == DestGroup(b) <==> Split(a, '.')[..2] == Split(b, '.')[..2]
  {
    hide Split;
    var x, y, z := Split(a, '.')[..2], Split(b, '.')[..2], ["0", "0/16"];
    GroupParts(a);
    GroupParts(b);
    assert (x + z)[..2] == x && (y + z)[..2] == y;
    assert x == y ==> x[0] == y[0] && x[1] == y[1];
  }

  lemma DefaultGroup(a: string, two: seq<string>)
    requires |two| == 2
    ensures IsDefault(a) ==> Split(DestGroup(a), '.') != two + ["0", "0/16"]
  {
    hide Split;
    if a == "::/0" {
      SplitNoSep("::/0 (default)", '.');
    } else if a == "0.0.0.0/0" {
      FourZeros("0/0 (default)");
      assert DestGroup(a) == "0.0.0." + "0/0 (default)";
      assert (two + ["0", "0/16"])[3] == "0/16" && |"0/0 (default)"| != |"0/16"|;
    }
  }

  lemma FourZeros(last: string)
    requires '.' !in last
    ensures |Split("0.0.0." + last, '.')| == 4 && Split("0.0.0." + last, '.')[3] == last
  {
    hide Split;
    var one := "0" + ['.'] + last;
    var two := "0" + ['.'] + one;
    SplitNoSep(last, '.');
    SplitAtSep("0", '.', last);
    SplitAtSep("0", '.', one);
    SplitAtSep("0", '.', two);
    assert "0.0.0." + last == "0" + ['.'] + two;
  }

  // ----- building -------------------------------------------------------

  /** The node list with the position of each node; the source keeps one position map
      per column, here they are one map keyed by column and id. */
  datatype Nodes = Nodes(list: seq<Node>, index: map<NodeKey, nat>)

  predicate Placed(n: Nodes) {
    && (forall k :: k in n.index ==> n.index[k] < |n.list| && n.list[n.index[k]].Key() == k)
    && (forall i :: 0 <= i < |n.list| ==> n.list[i].Key() in n.index && n.index[n.list[i].Key()] == i)
  }

  function Ensured(n: Nodes, key: NodeKey): Nodes {
    if key in n.index then n else Nodes(n.list + [Node(key.id, key.ty, 0)], n.index[key := |n.list|])
  }

  /** Add the node if it is new, then count one route through it. */
  function Touched(n: Nodes, key: NodeKey): (r: Nodes)
    requires Placed(n)
    ensures Placed(r) && key in r.index && (forall k :: k in n.index ==> k in r.index && r.index[k] == n.index[k])
  {
    var e := Ensured(n, key);
    var i := e.index[key];
    Nodes(e.list[i := e.list[i].(value := e.list[i].value + 1)], e.index)
  }

  /** Count one route over the link, adding it if it is new. */
  function Bumped(links: seq<Link>, source: nat, target: nat): seq<Link> {
    if links == [] then [Link(source, target, 1)]
    else if links[0].source == source && links[0].target == target
    then [links[0].(value := links[0].value + 1)] + links[1..]
    else [links[0]] + Bumped(links[1..], source, target)
  }

  datatype Flow = Flow(nodes: Nodes, p2i: seq<Link>, i2d: seq<Link>)

  function NodesWith(n: Nodes, r: Planned): (m: Nodes)
    requires Placed(n)
    ensures Placed(m) && forall ty :: KeyOf(r, ty) in m.index
    ensures forall k :: k in n.index ==> k in m.index && m.index[k] == n.index[k]
  {
    Touched(Touched(Touched(n, KeyOf(r, ProfileNode)), KeyOf(r, IfaceNode)), KeyOf(r, DestNode))
  }

  function AddRoute(f: Flow, r: Planned): (g: Flow)
    requires Placed(f.nodes)
    ensures Placed(g.nodes)
  {
    var m := NodesWith(f.nodes, r);
    var p, i, d := m.index[KeyOf(r, ProfileNode)], m.index[KeyOf(r, IfaceNode)], m.index[KeyOf(r, DestNode)];
    Flow(m, Bumped(f.p2i, p, i), Bumped(f.i2d, i, d))
  }

  function Build(routes: seq<Planned>): (f: Flow)
    ensures Placed(f.nodes)
  {
    if routes == [] then Flow(Nodes([], map[]), [], [])
    else AddRoute(Build(routes[..|routes| - 1]), routes[|routes| - 1])
  }

  method BumpLink(links: seq<Link>, source: nat, target: nat) returns (r: seq<Link>)
    ensures r == Bumped(links, source, target)
  {
    hide Bumped;
    ghost var at := BumpedAt(links, source, target);
    for k := 0 to |links|
      invariant forall j :: 0 <= j < k ==> !(links[j].source == source && links[j].target == target)
    {
      if links[k].source == source && links[k].target == target {
        return links[k := links[k].(value := links[k].value + 1)];
      }
    }
    r := links + [Link(source, target, 1)];
  }

  method TouchNode(n: Nodes, key: NodeKey) returns (m: Nodes)
    requires Placed(n)
    ensures m == Touched(n, key)
  {
    var list, index := n.list, n.index;
    if key !in index {
      index := index[key := |list|];
      list := list + [Node(key.id, key.ty, 0)];
    }
    var i := index[key];
    list := list[i := list[i].(value := list[i].value + 1)];
    m := Nodes(list, index);
  }

  method BuildFlow(predicted: seq<Planned>, hideIpv6: bool) returns (nodes: seq<Node>, links: seq<Link>)
    ensures var f := Build(ActiveOf(predicted, hideIpv6));
            nodes == f.nodes.list && links == f.p2i + f.i2d
  {
    hide KeyOf, Placed, Touched, Bumped;
    var n, p2i, i2d := Nodes([], map[]), [], [];
    var routes := ActiveOf(predicted, hideIpv6);
    assert Placed(Build([]).nodes);
    for k := 0 to |routes|
      invariant Placed(n)
      invariant Flow(n, p2i, i2d) == Build(routes[..k])
    {
      var r := routes[k];
      assert routes[..k + 1][..k] == routes[..k];
      ghost var m := NodesWith(n, r);
      n := TouchNode(n, KeyOf(r, ProfileNode));
      n := TouchNode(n, KeyOf(r, IfaceNode));
      n := TouchNode(n, KeyOf(r, DestNode));
      assert n == m;
      var p, i, d := n.index[KeyOf(r, ProfileNode)], n.index[KeyOf(r, IfaceNode)], n.index[KeyOf(r, DestNode)];
      p2i := BumpLink(p2i, p, i);
      i2d := BumpLink(i2d, i, d);
    }
    assert routes[..|routes|] == routes;
    nodes, links := n.list, p2i + i2d;
  }

  // ----- sums -----------------------------------------------------------

  function SumFrom(links: seq<Link>, i: nat): nat {
    if links == [] then 0 else (if links[0].source == i then links[0].value else 0) + SumFrom(links[1..], i)
  }

  function SumInto(links: seq<Link>, i: nat): nat {
    if links == [] then 0 else (if links[0].target == i then links[0].value else 0) + SumInto(links[1..], i)
  }

  lemma {:induction false} BumpSums(links: seq<Link>, s: nat, t: nat, i: nat)
    ensures SumFrom(Bumped(links, s, t), i) == SumFrom(links, i) + if i == s then 1 else 0
    ensures SumInto(Bumped(links, s, t), i) == SumInto(links, i) + if i == t then 1 else 0
    decreases |links|
  {
    var b := Bumped(links, s, t);
    if links != [] {
      if links[0].source == s && links[0].target == t {
        assert b[1..] == links[1..];
      } else {
        assert b[1..] == Bumped(links[1..], s, t);
        BumpSums(links[1..], s, t, i);
      }
    }
  }

  /** The value of node `i` if it stands in the column, else 0. */
  function ValueIn(list: seq<Node>, ty: NodeType, i: nat): nat {
    if i < |list| && list[i].ty == ty then list[i].value else 0
  }

  lemma TouchValue(n: Nodes, key: NodeKey, ty: NodeType, i: nat)
    requires Placed(n)
    ensures ValueIn(Touched(n, key).list, ty, i) ==
            ValueIn(n.list, ty, i) + if ty == key.ty && i == Touched(n, key).index[key] then 1 else 0
  {
  }

  lemma RouteValue(n: Nodes, r: Planned, ty: NodeType, i: nat)
    requires Placed(n)
    ensures ValueIn(NodesWith(n, r).list, ty, i) ==
            ValueIn(n.list, ty, i) + if i == NodesWith(n, r).index[KeyOf(r, ty)] then 1 else 0
  {
    hide Touched, Placed;
    var a := Touched(n, KeyOf(r, ProfileNode));
    var b := Touched(a, KeyOf(r, IfaceNode));
    TouchValue(n, KeyOf(r, ProfileNode), ty, i);
    TouchValue(a, KeyOf(r, IfaceNode), ty, i);
    TouchValue(b, KeyOf(r, DestNode), ty, i);
  }

  /** Flow is conserved: every node's value is the sum over its links on each side. */
  ghost predicate Conserved(f: Flow) {
    forall i: nat ::
      && SumFrom(f.p2i, i) == ValueIn(f.nodes.list, ProfileNode, i)
      && SumInto(f.p2i, i) == ValueIn(f.nodes.list, IfaceNode, i)
      && SumFrom(f.i2d, i) == ValueIn(f.nodes.list, IfaceNode, i)
      && SumInto(f.i2d, i) == ValueIn(f.nodes.list, DestNode, i)
  }

  /** For every list of routes and every node index: a profile's value is the sum of its
      outgoing links, an interface's value that of its incoming and of its outgoing
      links, a destination's value that of its incoming links. */
  lemma {:induction false} FlowConserved(routes: seq<Planned>)
    ensures Conserved(Build(routes))
    decreases |routes|
  {
    hide KeyOf, NodesWith, Bumped, Placed, SumFrom, SumInto, ValueIn;
    if routes == [] {
      forall i: nat ensures SumFrom([], i) == 0 && SumInto([], i) == 0 { NoSums(i); }
      forall i: nat, ty ensures ValueIn([], ty, i) == 0 { NoValue(ty, i); }
    } else {
      var f, r := Build(routes[..|routes| - 1]), routes[|routes| - 1];
      FlowConserved(routes[..|routes| - 1]);
      var m := NodesWith(f.nodes, r);
      var p, t, d := m.index[KeyOf(r, ProfileNode)], m.index[KeyOf(r, IfaceNode)], m.index[KeyOf(r, DestNode)];
      var g := Build(routes);
      assert g == Flow(m, Bumped(f.p2i, p, t), Bumped(f.i2d, t, d));
      forall i: nat
        ensures SumFrom(g.p2i, i) == ValueIn(m.list, ProfileNode, i)
        ensures SumInto(g.p2i, i) == ValueIn(m.list, IfaceNode, i)
        ensures SumFrom(g.i2d, i) == ValueIn(m.list, IfaceNode, i)
        ensures SumInto(g.i2d, i) == ValueIn(m.list, DestNode, i)
      {
        BumpSums(f.p2i, p, t, i);
        BumpSums(f.i2d, t, d, i);
        RouteValue(f.nodes, r, ProfileNode, i);
        RouteValue(f.nodes, r, IfaceNode, i);
        RouteValue(f.nodes, r, DestNode, i);
      }
    }
  }

  lemma NoSums(i: nat)
    ensures SumFrom([], i) == 0 && SumInto([], i) == 0
  {
  }

  lemma NoValue(ty: NodeType, i: nat)
    ensures ValueIn([], ty, i) == 0
  {
  }

  // ----- column totals --------------------------------------------------

  function Total(list: seq<Node>, ty: NodeType): nat {
    if list == [] then 0
    else Total(list[..|list| - 1], ty) + if list[|list| - 1].ty == ty then list[|list| - 1].value else 0
  }

  lemma {:induction false} TotalUpdate(list: seq<Node>, i: nat, ty: NodeType)
    requires i < |list|
    ensures Total(list[i := list[i].(value := list[i].value + 1)], ty) ==
            Total(list, ty) + if list[i].ty == ty then 1 else 0
    decreases |list|
  {
    var n := |list| - 1;
    var u := list[i := list[i].(value := list[i].value + 1)];
    if i < n {
      TotalUpdate(list[..n], i, ty);
      assert u[..n] == list[..n][i := list[..n][i].(value := list[..n][i].value + 1)];
    } else {
      assert u[..n] == list[..n];
    }
  }

  lemma TouchTotal(n: Nodes, key: NodeKey, ty: NodeType)
    requires Placed(n)
    ensures Total(Touched(n, key).list, ty) == Total(n.list, ty) + if key.ty == ty then 1 else 0
  {
    var e := Ensured(n, key);
    if key !in n.index { assert e.list[..|n.list|] == n.list; }
    TotalUpdate(e.list, e.index[key], ty);
  }

  /** Each column's values add up to the number of routes. */
  lemma {:induction false} ColumnsTotal(routes: seq<Planned>, ty: NodeType)
    ensures Total(Build(routes).nodes.list, ty) == |routes|
    decreases |routes|
  {
    hide Touched, Placed;
    if routes != [] {
      var f, r := Build(routes[..|routes| - 1]), routes[|routes| - 1];
      ColumnsTotal(routes[..|routes| - 1], ty);
      var a := Touched(f.nodes, KeyOf(r, ProfileNode));
      var b := Touched(a, KeyOf(r, IfaceNode));
      TouchTotal(f.nodes, KeyOf(r, ProfileNode), ty);
      TouchTotal(a, KeyOf(r, IfaceNode), ty);
      TouchTotal(b, KeyOf(r, DestNode), ty);
    }
  }

  // ----- what the numbers count -----------------------------------------

  /** How many routes pass through a node. */
  ghost function Through(routes: seq<Planned>, key: NodeKey): nat {
    if routes == [] then 0
    else Through(routes[..|routes| - 1], key) + if KeyOf(routes[|routes| - 1], key.ty) == key then 1 else 0
  }

  /** How many routes pass through both nodes. */
  ghost function ThroughBoth(routes: seq<Planned>, a: NodeKey, b: NodeKey): nat {
    if routes == [] then 0
    else
      var last := routes[|routes| - 1];
      ThroughBoth(routes[..|routes| - 1], a, b) + if KeyOf(last, a.ty) == a && KeyOf(last, b.ty) == b then 1 else 0
  }

  function LinkValue(links: seq<Link>, s: nat, t: nat): nat {
    if links == [] then 0
    else if links[0].source == s && links[0].target == t then links[0].value
    else LinkValue(links[1..], s, t)
  }

  lemma {:induction false} BumpLinkValue(links: seq<Link>, s: nat, t: nat, a: nat, b: nat)
    ensures LinkValue(Bumped(links, s, t), a, b) == LinkValue(links, a, b) + if a == s && b == t then 1 else 0
    decreases |links|
  {
    var u := Bumped(links, s, t);
    if links != [] {
      if links[0].source == s && links[0].target == t {
        assert u[1..] == links[1..];
      } else {
        assert u[1..] == Bumped(links[1..], s, t);
        BumpLinkValue(links[1..], s, t, a, b);
      }
    }
  }

  /** Node values count the routes through the node, and the node exists exactly if some
      route passes through it. */
  lemma {:induction false} NodesCount(routes: seq<Planned>, key: NodeKey)
    ensures key in Build(routes).nodes.index <==> Through(routes, key) > 0
    ensures key in Build(routes).nodes.index ==>
              Build(routes).nodes.list[Build(routes).nodes.index[key]].value == Through(routes, key)
    decreases |routes|
  {
    if routes != [] {
      var f, r := Build(routes[..|routes| - 1]), routes[|routes| - 1];
      NodesCount(routes[..|routes| - 1], key);
      var m := NodesWith(f.nodes, r);
      IndexOf(f.nodes, r, key);
      if key in m.index {
        var i := m.index[key];
        RouteValue(f.nodes, r, key.ty, i);
        FreshValue(f.nodes, r, key);
      }
    }
  }

  lemma TouchedIndex(n: Nodes, touched: NodeKey, key: NodeKey)
    requires Placed(n)
    ensures key in Touched(n, touched).index <==> key in n.index || key == touched
  {
  }

  lemma IndexOf(n: Nodes, r: Planned, key: NodeKey)
    requires Placed(n)
    ensures key in NodesWith(n, r).index <==> key in n.index || KeyOf(r, key.ty) == key
  {
    hide Placed, Touched, DestGroup;
    var a := Touched(n, KeyOf(r, ProfileNode));
    var b := Touched(a, KeyOf(r, IfaceNode));
    TouchedIndex(n, KeyOf(r, ProfileNode), key);
    TouchedIndex(a, KeyOf(r, IfaceNode), key);
    TouchedIndex(b, KeyOf(r, DestNode), key);
  }

  /** A node that was not there before contributed nothing before. */
  lemma FreshValue(n: Nodes, r: Planned, key: NodeKey)
    requires Placed(n) && key in NodesWith(n, r).index
    ensures ValueIn(n.list, key.ty, NodesWith(n, r).index[key]) ==
            if key in n.index then n.list[n.index[key]].value else 0
  {
  }

  /** The link values are the route counts of the node pairs. */
  ghost predicate LinksCount(f: Flow, routes: seq<Planned>) {
    forall a, b :: a in f.nodes.index && b in f.nodes.index ==>
      && (a.ty == ProfileNode && b.ty == IfaceNode ==>
            LinkValue(f.p2i, f.nodes.index[a], f.nodes.index[b]) == ThroughBoth(routes, a, b))
      && (a.ty == IfaceNode && b.ty == DestNode ==>
            LinkValue(f.i2d, f.nodes.index[a], f.nodes.index[b]) == ThroughBoth(routes, a, b))
  }

  /** Links join placed nodes of the right columns, and no pair occurs twice. */
  ghost predicate LinksSound(links: seq<Link>, list: seq<Node>, from: NodeType, to: NodeType) {
    && (forall k :: 0 <= k < |links| ==>
          links[k].source < |list| && links[k].target < |list| && links[k].value >= 1
          && list[links[k].source].ty == from && list[links[k].target].ty == to)
    && (forall j, k :: 0 <= j < k < |links| ==>
          !(links[j].source == links[k].source && links[j].target == links[k].target))
  }

  lemma {:induction false} BumpedAt(links: seq<Link>, s: nat, t: nat) returns (k: nat)
    ensures k <= |links|
    ensures k < |links| ==> links[k].source == s && links[k].target == t
    ensures forall j :: 0 <= j < k ==> !(links[j].source == s && links[j].target == t)
    ensures k < |links| ==> Bumped(links, s, t) == links[k := links[k].(value := links[k].value + 1)]
    ensures k == |links| ==> Bumped(links, s, t) == links + [Link(s, t, 1)]
    decreases |links|
  {
    if links == [] || (links[0].source == s && links[0].target == t) {
      k := 0;
    } else {
      k := BumpedAt(links[1..], s, t);
      k := k + 1;
    }
  }

  lemma BumpSound(links: seq<Link>, list: seq<Node>, longer: seq<Node>, from: NodeType, to: NodeType, s: nat, t: nat)
    requires LinksSound(links, list, from, to) && |list| <= |longer|
    requires forall i :: 0 <= i < |list| ==> longer[i].ty == list[i].ty
    requires s < |longer| && t < |longer| && longer[s].ty == from && longer[t].ty == to
    ensures LinksSound(Bumped(links, s, t), longer, from, to)
  {
    hide Bumped;
    var k := BumpedAt(links, s, t);
  }

  lemma TypesKept(n: Nodes, r: Planned)
    requires Placed(n)
    ensures |n.list| <= |NodesWith(n, r).list|
    ensures forall i :: 0 <= i < |n.list| ==> NodesWith(n, r).list[i].ty == n.list[i].ty
  {
  }

  /** For every list of routes, the links join existing nodes of neighbouring columns and
      no source/target pair is listed twice. */
  lemma {:induction false} LinksAreSound(routes: seq<Planned>)
    ensures LinksSound(Build(routes).p2i, Build(routes).nodes.list, ProfileNode, IfaceNode)
    ensures LinksSound(Build(routes).i2d, Build(routes).nodes.list, IfaceNode, DestNode)
    decreases |routes|
  {
    hide NodesWith, Bumped, LinksSound;
    if routes == [] {
      NoLinks([], ProfileNode, IfaceNode);
      NoLinks([], IfaceNode, DestNode);
    } else {
      var f, r := Build(routes[..|routes| - 1]), routes[|routes| - 1];
      LinksAreSound(routes[..|routes| - 1]);
      var m := NodesWith(f.nodes, r);
      TypesKept(f.nodes, r);
      var p, t, d := m.index[KeyOf(r, ProfileNode)], m.index[KeyOf(r, IfaceNode)], m.index[KeyOf(r, DestNode)];
      BumpSound(f.p2i, f.nodes.list, m.list, ProfileNode, IfaceNode, p, t);
      BumpSound(f.i2d, f.nodes.list, m.list, IfaceNode, DestNode, t, d);
    }
  }

  lemma NoLinks(list: seq<Node>, from: NodeType, to: NodeType)
    ensures LinksSound([], list, from, to)
  {
  }

  /** Each link's value is the number of routes through both its ends. */
  lemma {:induction false} LinksAreCounts(routes: seq<Planned>)
    ensures LinksCount(Build(routes), routes)
    decreases |routes|
  {
    hide NodesWith, Bumped, LinkValue, Placed;
    if routes != [] {
      var front, r := routes[..|routes| - 1], routes[|routes| - 1];
      var f := Build(front);
      LinksAreCounts(front);
      var m, g := NodesWith(f.nodes, r), Build(routes);
      forall a, b | a in m.index && b in m.index
        ensures a.ty == ProfileNode && b.ty == IfaceNode ==>
                  LinkValue(g.p2i, m.index[a], m.index[b]) == ThroughBoth(routes, a, b)
        ensures a.ty == IfaceNode && b.ty == DestNode ==>
                  LinkValue(g.i2d, m.index[a], m.index[b]) == ThroughBoth(routes, a, b)
      {
        if a.ty == ProfileNode && b.ty == IfaceNode {
          LinkStep(f.p2i, f.nodes, r, front, a, b);
        } else if a.ty == IfaceNode && b.ty == DestNode {
          LinkStep(f.i2d, f.nodes, r, front, a, b);
        }
      }
    }
  }

  lemma LinkStep(links: seq<Link>, n: Nodes, r: Planned, front: seq<Planned>, a: NodeKey, b: NodeKey)
    requires n == Build(front).nodes && Placed(n)
    requires links == Build(front).p2i || links == Build(front).i2d
    requires a in NodesWith(n, r).index && b in NodesWith(n, r).index
    requires a in n.index && b in n.index ==> LinkValue(links, n.index[a], n.index[b]) == ThroughBoth(front, a, b)
    ensures var m := NodesWith(n, r);
            LinkValue(Bumped(links, m.index[KeyOf(r, a.ty)], m.index[KeyOf(r, b.ty)]), m.index[a], m.index[b]) ==
            ThroughBoth(front, a, b) + if KeyOf(r, a.ty) == a && KeyOf(r, b.ty) == b then 1 else 0
  {
    hide Bumped, NodesWith, Build, LinksSound;
    var m := NodesWith(n, r);
    BumpLinkValue(links, m.index[KeyOf(r, a.ty)], m.index[KeyOf(r, b.ty)], m.index[a], m.index[b]);
    assert m.index[KeyOf(r, a.ty)] == m.index[a] <==> KeyOf(r, a.ty) == a;
    assert m.index[KeyOf(r, b.ty)] == m.index[b] <==> KeyOf(r, b.ty) == b;
    if a !in n.index || b !in n.index {
      NewPair(links, front, n, r, a, b);
    }
  }

  /** Before one of its ends existed, a pair had no link and no route. */
  lemma NewPair(links: seq<Link>, front: seq<Planned>, n: Nodes, r: Planned, a: NodeKey, b: NodeKey)
    requires n == Build(front).nodes && Placed(n)
    requires links == Build(front).p2i || links == Build(front).i2d
    requires a in NodesWith(n, r).index && b in NodesWith(n, r).index && (a !in n.index || b !in n.index)
    ensures LinkValue(links, NodesWith(n, r).index[a], NodesWith(n, r).index[b]) == 0
    ensures ThroughBoth(front, a, b) == 0
  {
    hide NodesWith, Build;
    NodesCount(front, a);
    NodesCount(front, b);
    BothAtMost(front, a, b);
    LinksAreSound(front);
    var m := NodesWith(n, r);
    if a !in n.index { BeyondOld(n, r, a); } else { BeyondOld(n, r, b); }
    NoLinkBeyond(links, |n.list|, m.index[a], m.index[b]);
  }

  lemma BeyondOld(n: Nodes, r: Planned, key: NodeKey)
    requires Placed(n) && key in NodesWith(n, r).index && key !in n.index
    ensures NodesWith(n, r).index[key] >= |n.list|
  {
    var m := NodesWith(n, r);
    if m.index[key] < |n.list| {
      var k := n.list[m.index[key]].Key();
    }
  }

  lemma {:induction false} NoLinkBeyond(links: seq<Link>, size: nat, s: nat, t: nat)
    requires forall k :: 0 <= k < |links| ==> links[k].source < size && links[k].target < size
    requires s >= size || t >= size
    ensures LinkValue(links, s, t) == 0
    decreases |links|
  {
    if links != [] { NoLinkBeyond(links[1..], size, s, t); }
  }

  lemma {:induction false} BothAtMost(routes: seq<Planned>, a: NodeKey, b: NodeKey)
    ensures ThroughBoth(routes, a, b) <= Through(routes, a) && ThroughBoth(routes, a, b) <= Through(routes, b)
    decreases |routes|
  {
    if routes != [] { BothAtMost(routes[..|routes| - 1], a, b); }
  }

  // ----- layout ---------------------------------------------------------

  datatype Pos = Pos(x: nat, y: nat)

  function Column(ty: NodeType): nat {
    match ty case ProfileNode => 0 case IfaceNode => 1 case DestNode => 2
  }

  /** How many nodes of the column stand before index `i`. */
  function RankIn(list: seq<Node>, ty: NodeType, i: nat): nat
    requires i <= |list|
  {
    if i == 0 then 0 else RankIn(list, ty, i - 1) + if list[i - 1].ty == ty then 1 else 0
  }

  ghost predicate UniqueKeys(list: seq<Node>) {
    forall i, j :: 0 <= i < j < |list| ==> list[i].Key() != list[j].Key()
  }

  method FindIndex(list: seq<Node>, key: NodeKey) returns (r: Option<nat>)
    ensures r.Some? ==> r.value < |list| && list[r.value].Key() == key
    ensures r.None? ==> forall i :: 0 <= i < |list| ==> list[i].Key() != key
  {
    for k := 0 to |list|
      invariant forall i :: 0 <= i < k ==> list[i].Key() != key
    {
      if list[k].id == key.id && list[k].ty == key.ty { return Some(k); }
    }
    r := None;
  }

  lemma RankStart(list: seq<Node>, ty: NodeType)
    ensures RankIn(list, ty, 0) == 0
  {
  }

  lemma RankNext(list: seq<Node>, ty: NodeType, k: nat)
    requires k < |list|
    ensures RankIn(list, ty, k + 1) == RankIn(list, ty, k) + if list[k].ty == ty then 1 else 0
  {
  }

  function PosOf(list: seq<Node>, i: nat): Pos
    requires i < |list|
  {
    Pos(Column(list[i].ty) * 300 + 20, 20 + 36 * RankIn(list, list[i].ty, i))
  }

  /** One column: its nodes from top to bottom, in list order. */
  method LayoutColumn(list: seq<Node>, ty: NodeType, before: map<nat, Pos>) returns (pos: map<nat, Pos>)
    requires UniqueKeys(list)
    ensures forall i: nat :: i in pos <==> i in before || (i < |list| && list[i].ty == ty)
    ensures forall i: nat :: i in pos ==> pos[i] == if i < |list| && list[i].ty == ty then PosOf(list, i) else before[i]
  {
    hide RankIn;
    pos := before;
    var y: nat := 20;
    RankStart(list, ty);
    for k := 0 to |list|
      invariant y == 20 + 36 * RankIn(list, ty, k)
      invariant forall i: nat :: i in pos <==> i in before || (i < k && list[i].ty == ty)
      invariant forall i: nat :: i in pos ==> pos[i] == if i < k && list[i].ty == ty then PosOf(list, i) else before[i]
    {
      RankNext(list, ty, k);
      if list[k].ty == ty {
        assert PosOf(list, k) == Pos(Column(ty) * 300 + 20, y);
        var idx := FindIndex(list, list[k].Key());
        assert idx == Some(k);
        if idx.Some? { pos := pos[idx.value := Pos(Column(ty) * 300 + 20, y)]; }
        y := y + 36;
      }
    }
  }

  /** Every node gets a position: its column across, its rank in the column down. */
  method Layout(list: seq<Node>) returns (pos: map<nat, Pos>)
    requires UniqueKeys(list)
    ensures forall i: nat :: i in pos <==> i < |list|
    ensures forall i: nat :: i < |list| ==> pos[i] == PosOf(list, i)
  {
    hide PosOf;
    pos := LayoutColumn(list, ProfileNode, map[]);
    pos := LayoutColumn(list, IfaceNode, pos);
    pos := LayoutColumn(list, DestNode, pos);
  }

  lemma {:induction false} RankGrows(list: seq<Node>, ty: NodeType, i: nat, j: nat)
    requires i < j <= |list| && list[i].ty == ty
    ensures RankIn(list, ty, i) < RankIn(list, ty, j)
    decreases j
  {
    if i + 1 < j { RankGrows(list, ty, i, j - 1); }
  }

  /** Two nodes of one column, 28 high, are drawn with 8 or more between them. */
  lemma BoxesApart(list: seq<Node>, i: nat, j: nat)
    requires i < j < |list| && list[i].ty == list[j].ty
    ensures PosOf(list, i).x == PosOf(list, j).x && PosOf(list, i).y + 28 + 8 <= PosOf(list, j).y
  {
    RankGrows(list, list[i].ty, i, j);
  }

  /** Columns stand 300 apart, profiles left of interfaces, those left of destinations. */
  lemma ColumnsApart(list: seq<Node>, i: nat, j: nat)
    requires i < |list| && j < |list|
    ensures list[i].ty == ProfileNode && list[j].ty == IfaceNode ==> PosOf(list, j).x == PosOf(list, i).x + 300
    ensures list[i].ty == IfaceNode && list[j].ty == DestNode ==> PosOf(list, j).x == PosOf(list, i).x + 300
    ensures list[i].ty == ProfileNode ==> PosOf(list, i).x == 20
  {
    hide RankIn;
  }

  /** Every end of every link is a node index, so the layout has a position for it. */
  lemma LinkEndsPlaced(routes: seq<Planned>, k: nat)
    requires k < |Build(routes).p2i + Build(routes).i2d|
    ensures var f := Build(routes);
            UniqueKeys(f.nodes.list)
            && (f.p2i + f.i2d)[k].source < |f.nodes.list| && (f.p2i + f.i2d)[k].target < |f.nodes.list|
  {
    hide Build;
    LinksAreSound(routes);
  }
}
