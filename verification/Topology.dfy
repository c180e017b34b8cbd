/** The topology page: a loop that grows a parent-to-child multimap from the machine list, and the recursion
    that walks it from the root. */
module Topology {
  import opened Decimal
  import opened Seqs

  // ----- node names -----

  /** The strings that name nodes: "DES-PWE", an address, and "gateway ... connect". */
  datatype Name = Root | Ip(addr: nat) | Middle(gateway: nat, connect: nat)

  /** Dotted decimal. */
  function Dotted(a: nat): string {
    Show(a / 0x100_0000) + "." + Show(a / 0x1_0000 % 256) + "." + Show(a / 256 % 256) + "." + Show(a % 256)
  }

  function Text(n: Name): string {
    match n
    case Root => "DES-PWE"
    case Ip(a) => Dotted(a)
    case Middle(g, c) => Dotted(g) + " ... " + Dotted(c)
  }

  lemma ShowSplit(a: nat, x: string, b: nat, y: string)
    requires |x| > 0 ==> !IsDigit(x[0])
    requires |y| > 0 ==> !IsDigit(y[0])
    requires Show(a) + x == Show(b) + y
    ensures a == b && x == y
  {
    hide Show;
    var max := a + b;
    ReadOfShow(a, x, max);
    ReadOfShow(b, y, max);
    assert (Show(a) + x)[|Show(a)|..] == x && (Show(b) + y)[|Show(b)|..] == y;
  }

  lemma DottedSplit(a: nat, x: string, b: nat, y: string)
    requires |x| > 0 ==> !IsDigit(x[0])
    requires |y| > 0 ==> !IsDigit(y[0])
    requires Dotted(a) + x == Dotted(b) + y
    ensures a == b && x == y
  {
    hide Show;
    var a3, a2, a1, a0 := a / 0x100_0000, a / 0x1_0000 % 256, a / 256 % 256, a % 256;
    var b3, b2, b1, b0 := b / 0x100_0000, b / 0x1_0000 % 256, b / 256 % 256, b % 256;
    DottedParts(a3, a2, a1, a0, x);
    DottedParts(b3, b2, b1, b0, y);
    var ax1, bx1 := "." + (Show(a0) + x), "." + (Show(b0) + y);
    var ax2, bx2 := "." + (Show(a1) + ax1), "." + (Show(b1) + bx1);
    var ax3, bx3 := "." + (Show(a2) + ax2), "." + (Show(b2) + bx2);
    ShowSplit(a3, ax3, b3, bx3);
    Tail(".", Show(a2) + ax2, Show(b2) + bx2);
    ShowSplit(a2, ax2, b2, bx2);
    Tail(".", Show(a1) + ax1, Show(b1) + bx1);
    ShowSplit(a1, ax1, b1, bx1);
    Tail(".", Show(a0) + x, Show(b0) + y);
    ShowSplit(a0, x, b0, y);
    Parts(a);
    Parts(b);
  }

  lemma Tail(p: string, x: string, y: string)
    requires p + x == p + y
    ensures x == y
  {
    assert (p + x)[|p|..] == x && (p + y)[|p|..] == y;
  }

  lemma Parts(a: nat)
    ensures a == a / 0x100_0000 * 0x100_0000 + a / 0x1_0000 % 256 * 0x1_0000 + a / 256 % 256 * 256 + a % 256
  {
    assert a / 0x1_0000 == a / 256 / 256 && a / 0x100_0000 == a / 256 / 256 / 256;
  }

  lemma DottedParts(a3: nat, a2: nat, a1: nat, a0: nat, x: string)
    ensures Show(a3) + "." + Show(a2) + "." + Show(a1) + "." + Show(a0) + x ==
            Show(a3) + ("." + (Show(a2) + ("." + (Show(a1) + ("." + (Show(a0) + x))))))
  {
    hide Show;
  }

  /** Different nodes have different strings, so the string-keyed maps are maps over names. */
  lemma TextInjective(m: Name, n: Name)
    requires Text(m) == Text(n)
    ensures m == n
  {
    hide Dotted;
    Starts(m);
    Starts(n);
    if !m.Root? && !n.Root? {
      var a := if m.Ip? then m.addr else m.gateway;
      var b := if n.Ip? then n.addr else n.gateway;
      var x := if m.Ip? then "" else " ... " + Dotted(m.connect);
      var y := if n.Ip? then "" else " ... " + Dotted(n.connect);
      assert Text(m) == Dotted(a) + x && Text(n) == Dotted(b) + y;
      DottedSplit(a, x, b, y);
      if m.Middle? && n.Middle? {
        Tail(" ... ", Dotted(m.connect), Dotted(n.connect));
        DottedSplit(m.connect, "", n.connect, "");
      }
    }
  }

  lemma Starts(n: Name)
    ensures |Text(n)| > 0 && (IsDigit(Text(n)[0]) <==> !n.Root?)
  {
    hide Show;
    if !n.Root? {
      var a := if n.Ip? then n.addr else n.gateway;
      assert Text(n)[0] == Show(a / 0x100_0000)[0];
    }
  }

  // ----- the multimap -----

  datatype Kind = RootNode | ConnNode | MidNode | GatewayNode | ClientNode

  datatype Edge = Edge(parent: Name, child: Name)

  /** `stNodes` and, in insertion order, `stTreeNodes`. */
  datatype Graph = Graph(nodes: map<Name, Kind>, edges: seq<Edge>)

  datatype Machine = Machine(ip: nat, gateway: nat, connect: nat, ttl: int)

  function WithNode(g: Graph, n: Name, kind: Kind): Graph { g.(nodes := g.nodes[n := kind]) }

  function Link(g: Graph, parent: Name, child: Name): Graph { g.(edges := g.edges + [Edge(parent, child)]) }

  const EMPTY: Graph := Graph(map[Root := RootNode], [])

  /** Hang the new gateway node below the connecting address, through a middle node when more than two hops away. */
  function Attach(g: Graph, gateway: nat, connect: nat, ttl: int): Graph {
    var gate, conn, mid := Ip(gateway), Ip(connect), Middle(gateway, connect);
    if ttl > 2 then Link(WithNode(Link(g, mid, gate), mid, MidNode), conn, mid) else Link(g, conn, gate)
  }

  /** What one pass of the loop does with machine `m`. */
  function Step(g: Graph, m: Machine): Graph {
    var node, gate, conn := Ip(m.ip), Ip(m.gateway), Ip(m.connect);
    if node in g.nodes then g
    else
      var g1 := WithNode(g, node, ClientNode);
      if m.ttl <= 0 || m.gateway == 0 then Link(g1, Root, node)
      else
        var g2 := Link(g1, gate, node);
        if gate in g1.nodes then g2
        else
          var g3 := WithNode(g2, gate, GatewayNode);
          if m.gateway == m.connect || m.connect == 0 then Link(g3, Root, gate)
          else if conn in g3.nodes then Attach(g3, m.gateway, m.connect, m.ttl)
          else Link(Attach(WithNode(g3, conn, ConnNode), m.gateway, m.connect, m.ttl), Root, conn)
  }

  function Build(ms: seq<Machine>): Graph {
    if |ms| == 0 then EMPTY else Step(Build(ms[..|ms| - 1]), ms[|ms| - 1])
  }

  // ----- one incoming edge -----

  function InDegree(edges: seq<Edge>, n: Name): nat {
    if |edges| == 0 then 0
    else InDegree(edges[..|edges| - 1], n) + (if edges[|edges| - 1].child == n then 1 else 0)
  }

  /** Every node but the root has exactly one incoming edge; nothing else has any; parents are nodes. */
  ghost predicate TreeLike(g: Graph) {
    && Root in g.nodes
    && (forall n :: InDegree(g.edges, n) == if n in g.nodes && n != Root then 1 else 0)
    && (forall e :: e in g.edges ==> e.parent in g.nodes)
    && (forall gw, c :: Middle(gw, c) in g.nodes ==> Ip(gw) in g.nodes)
  }

  lemma InDegreeLink(edges: seq<Edge>, e: Edge, n: Name)
    ensures InDegree(edges + [e], n) == InDegree(edges, n) + (if e.child == n then 1 else 0)
  {
    assert (edges + [e])[..|edges|] == edges;
  }

  // In-degrees while a pass is under way: `open` are the nodes whose incoming edge is still to come.
  ghost predicate Degrees(g: Graph, open: set<Name>) {
    forall n :: InDegree(g.edges, n) == if n in g.nodes && n != Root && n !in open then 1 else 0
  }

  lemma DegreesNode(g: Graph, open: set<Name>, n: Name, kind: Kind)
    requires Degrees(g, open) && n !in g.nodes && n != Root
    ensures Degrees(WithNode(g, n, kind), open + {n})
  {
    hide InDegree;
  }

  lemma DegreesLink(g: Graph, open: set<Name>, parent: Name, child: Name)
    requires Degrees(g, open) && child in g.nodes && child in open && child != Root
    ensures Degrees(Link(g, parent, child), open - {child})
  {
    hide InDegree;
    forall n ensures InDegree(g.edges + [Edge(parent, child)], n) ==
                     if n in g.nodes && n != Root && n !in open - {child} then 1 else 0 {
      InDegreeLink(g.edges, Edge(parent, child), n);
    }
  }

  lemma AttachDegrees(g: Graph, open: set<Name>, gateway: nat, connect: nat, ttl: int)
    requires Degrees(g, open) && Ip(gateway) in g.nodes && Ip(gateway) in open
    requires Middle(gateway, connect) !in g.nodes && Middle(gateway, connect) !in open
    ensures Degrees(Attach(g, gateway, connect, ttl), open - {Ip(gateway)})
  {
    hide Degrees;
    var gate, conn, mid := Ip(gateway), Ip(connect), Middle(gateway, connect);
    if ttl > 2 {
      DegreesLink(g, open, mid, gate);
      DegreesNode(Link(g, mid, gate), open - {gate}, mid, MidNode);
      DegreesLink(WithNode(Link(g, mid, gate), mid, MidNode), open - {gate} + {mid}, conn, mid);
      assert open - {gate} + {mid} - {mid} == open - {gate};
    } else {
      DegreesLink(g, open, conn, gate);
    }
  }

  lemma StepDegrees(g: Graph, m: Machine)
    requires Degrees(g, {})
    requires forall gw, c :: Middle(gw, c) in g.nodes ==> Ip(gw) in g.nodes
    ensures Degrees(Step(g, m), {})
  {
    hide Degrees;
    var node, gate, conn := Ip(m.ip), Ip(m.gateway), Ip(m.connect);
    if node !in g.nodes {
      DegreesNode(g, {}, node, ClientNode);
      assert {} + {node} == {node} && {node} - {node} == {};
      var g1 := WithNode(g, node, ClientNode);
      if m.ttl <= 0 || m.gateway == 0 {
        DegreesLink(g1, {node}, Root, node);
      } else {
        DegreesLink(g1, {node}, gate, node);
        var g2 := Link(g1, gate, node);
        if gate !in g1.nodes {
          DegreesNode(g2, {}, gate, GatewayNode);
          assert {} + {gate} == {gate} && {gate} - {gate} == {};
          var g3 := WithNode(g2, gate, GatewayNode);
          assert Middle(m.gateway, m.connect) !in g3.nodes;
          if m.gateway == m.connect || m.connect == 0 {
            DegreesLink(g3, {gate}, Root, gate);
          } else if conn in g3.nodes {
            AttachDegrees(g3, {gate}, m.gateway, m.connect, m.ttl);
          } else {
            DegreesNode(g3, {gate}, conn, ConnNode);
            var g4 := WithNode(g3, conn, ConnNode);
            AttachDegrees(g4, {gate} + {conn}, m.gateway, m.connect, m.ttl);
            assert {gate} + {conn} - {gate} == {conn} && {conn} - {conn} == {};
            DegreesLink(Attach(g4, m.gateway, m.connect, m.ttl), {conn}, Root, conn);
          }
        }
      }
    }
  }

  // What a pass adds: nodes, and edges that enter them.
  ghost predicate Grows(g: Graph, h: Graph, nodes: set<Name>, edges: seq<Edge>) {
    h.nodes.Keys == g.nodes.Keys + nodes && h.edges == g.edges + edges
  }

  function NewEdges(m: Machine, newGate: bool, newConn: bool): seq<Edge> {
    var node, gate, conn, mid := Ip(m.ip), Ip(m.gateway), Ip(m.connect), Middle(m.gateway, m.connect);
    if m.ttl <= 0 || m.gateway == 0 then [Edge(Root, node)]
    else if !newGate then [Edge(gate, node)]
    else if m.gateway == m.connect || m.connect == 0 then [Edge(gate, node), Edge(Root, gate)]
    else
      [Edge(gate, node)] + (if m.ttl > 2 then [Edge(mid, gate), Edge(conn, mid)] else [Edge(conn, gate)])
      + (if newConn then [Edge(Root, conn)] else [])
  }

  function Heads(edges: seq<Edge>): set<Name> { set e | e in edges :: e.child }

  /** A pass adds the children of its new edges as nodes, and nothing else. */
  lemma StepGrows(g: Graph, m: Machine)
    requires Ip(m.ip) !in g.nodes
    ensures var newGate := Ip(m.gateway) !in g.nodes && m.gateway != m.ip;
            var newConn := Ip(m.connect) !in g.nodes && m.connect != m.ip;
            var edges := NewEdges(m, newGate, newConn);
            Grows(g, Step(g, m), Heads(edges), edges)
  {
  }

  lemma StepNodes(g: Graph, m: Machine)
    requires forall e :: e in g.edges ==> e.parent in g.nodes
    requires Root in g.nodes
    requires forall gw, c :: Middle(gw, c) in g.nodes ==> Ip(gw) in g.nodes
    ensures forall e :: e in Step(g, m).edges ==> e.parent in Step(g, m).nodes
    ensures forall gw, c :: Middle(gw, c) in Step(g, m).nodes ==> Ip(gw) in Step(g, m).nodes
    ensures Root in Step(g, m).nodes
  {
    if Ip(m.ip) !in g.nodes {
      hide Step;
      StepGrows(g, m);
    }
  }

  /** For every machine list, self-gateways and cycles included, the finished multimap gives each node but the
      root exactly one incoming edge and the root none. */
  lemma {:induction false} BuildTreeLike(ms: seq<Machine>)
    ensures TreeLike(Build(ms))
  {
    if |ms| > 0 {
      var g, m := Build(ms[..|ms| - 1]), ms[|ms| - 1];
      hide Step, InDegree;
      BuildTreeLike(ms[..|ms| - 1]);
      assert Degrees(g, {});
      StepDegrees(g, m);
      StepNodes(g, m);
    }
  }

  // ----- paths from the root -----

  predicate IsPath(g: Graph, p: seq<Name>) {
    && |p| > 0 && p[0] == Root
    && forall i :: 0 < i < |p| ==> Edge(p[i - 1], p[i]) in g.edges
  }

  ghost predicate PathTo(g: Graph, p: seq<Name>, n: Name) { IsPath(g, p) && p[|p| - 1] == n }

  ghost predicate Reached(g: Graph, n: Name) { exists p :: PathTo(g, p, n) }

  lemma {:induction false} InDegreePositive(edges: seq<Edge>, e: Edge)
    requires e in edges
    ensures InDegree(edges, e.child) >= 1
  {
    var k := |edges| - 1;
    if edges[k] != e {
      assert edges == edges[..k] + [edges[k]];
      InDegreePositive(edges[..k], e);
    }
  }

  lemma {:induction false} UniqueParent(edges: seq<Edge>, a: Edge, b: Edge)
    requires a in edges && b in edges && a.child == b.child
    requires InDegree(edges, a.child) <= 1
    ensures a == b
  {
    var k := |edges| - 1;
    assert edges == edges[..k] + [edges[k]];
    if edges[k].child == a.child {
      if edges[k] != a {
        InDegreePositive(edges[..k], a);
      } else if edges[k] != b {
        InDegreePositive(edges[..k], b);
      }
    } else {
      UniqueParent(edges[..k], a, b);
    }
  }

  lemma RootIsNoChild(g: Graph, e: Edge)
    requires TreeLike(g) && e in g.edges
    ensures e.child != Root && e.child in g.nodes
  {
    InDegreePositive(g.edges, e);
  }

  /** There is only one way to reach a node. */
  lemma {:induction false} PathsUnique(g: Graph, p: seq<Name>, q: seq<Name>)
    requires TreeLike(g) && IsPath(g, p) && IsPath(g, q) && p[|p| - 1] == q[|q| - 1]
    ensures p == q
    decreases |p|
  {
    hide TreeLike;
    var i, j := |p| - 1, |q| - 1;
    if i == 0 && j > 0 {
      RootIsNoChild(g, Edge(q[j - 1], q[j]));
    } else if i > 0 && j == 0 {
      RootIsNoChild(g, Edge(p[i - 1], p[i]));
    } else if i > 0 {
      var a, b := Edge(p[i - 1], p[i]), Edge(q[j - 1], q[j]);
      assert InDegree(g.edges, a.child) <= 1 by { DegreeAtMostOne(g, a.child); }
      UniqueParent(g.edges, a, b);
      PathsUnique(g, p[..i], q[..j]);
      assert p == p[..i] + [p[i]] && q == q[..j] + [q[j]];
    }
  }

  lemma DegreeAtMostOne(g: Graph, n: Name)
    requires TreeLike(g)
    ensures InDegree(g.edges, n) <= 1
  {
  }

  /** No path from the root runs in circles. */
  lemma PathDistinct(g: Graph, p: seq<Name>)
    requires TreeLike(g) && IsPath(g, p)
    ensures Distinct(p)
  {
    hide TreeLike;
    forall i, j | 0 <= i < j < |p| ensures p[i] != p[j] {
      if p[i] == p[j] {
        PathsUnique(g, p[..i + 1], p[..j + 1]);
      }
    }
  }

  lemma {:induction false} PathInNodes(g: Graph, p: seq<Name>, k: nat)
    requires TreeLike(g) && IsPath(g, p) && k < |p|
    ensures p[k] in g.nodes
  {
    if k > 0 {
      RootIsNoChild(g, Edge(p[k - 1], p[k]));
    }
  }

  lemma {:induction false} DistinctFits(p: seq<Name>, s: set<Name>)
    requires Distinct(p) && forall k :: 0 <= k < |p| ==> p[k] in s
    ensures |p| <= |s|
  {
    if |p| > 0 {
      var k := |p| - 1;
      DistinctFits(p[..k], s - {p[k]});
    }
  }

  lemma PathFits(g: Graph, p: seq<Name>)
    requires TreeLike(g) && IsPath(g, p)
    ensures |p| <= |g.nodes|
  {
    hide TreeLike, IsPath, Distinct;
    PathDistinct(g, p);
    forall k | 0 <= k < |p| ensures p[k] in g.nodes.Keys {
      PathInNodes(g, p, k);
    }
    DistinctFits(p, g.nodes.Keys);
  }

  // ----- the walk -----

  /** `equal_range`: the children of `n` in insertion order. */
  function Kids(edges: seq<Edge>, n: Name): seq<Name> {
    if |edges| == 0 then []
    else
      var k := |edges| - 1;
      Kids(edges[..k], n) + (if edges[k].parent == n then [edges[k].child] else [])
  }

  /** The JSON object of a node: its name, its `xrk_type` (0 when it is not in `stNodes`) and its children. */
  datatype Tree = Tree(name: Name, kind: nat, children: seq<Tree>)

  function KindCode(g: Graph, n: Name): nat {
    if n !in g.nodes then 0
    else match g.nodes[n]
         case RootNode => 1
         case ConnNode => 2
         case MidNode => 3
         case GatewayNode => 4
         case ClientNode => 5
  }

  /** `t` is the multimap below `n`: the children of every node are its edges, in order. */
  predicate Unfolds(g: Graph, t: Tree, n: Name)
    decreases t
  {
    && t.name == n && t.kind == KindCode(g, n)
    && |t.children| == |Kids(g.edges, n)|
    && forall i :: 0 <= i < |t.children| ==> Unfolds(g, t.children[i], Kids(g.edges, n)[i])
  }

  lemma {:induction false} KidsAreEdges(edges: seq<Edge>, n: Name, c: Name)
    ensures c in Kids(edges, n) <==> Edge(n, c) in edges
  {
    if |edges| > 0 {
      var k := |edges| - 1;
      KidsAreEdges(edges[..k], n, c);
      assert edges == edges[..k] + [edges[k]];
    }
  }

  lemma {:induction false} KidsDistinct(edges: seq<Edge>, n: Name)
    requires forall c :: InDegree(edges, c) <= 1
    ensures Distinct(Kids(edges, n))
  {
    if |edges| > 0 {
      var k := |edges| - 1;
      var c := edges[k].child;
      forall d ensures InDegree(edges[..k], d) <= 1 {
        assert InDegree(edges, d) <= 1;
      }
      KidsDistinct(edges[..k], n);
      if edges[k].parent == n && c in Kids(edges[..k], n) {
        KidsAreEdges(edges[..k], n, c);
        InDegreePositive(edges[..k], Edge(n, c));
        assert InDegree(edges, c) <= 1;
      }
    }
  }

  /** `kids` are the ends of the edges from `n` at the places `at`, in order. */
  predicate EndsAt(edges: seq<Edge>, n: Name, kids: seq<Name>, at: seq<nat>) {
    && |at| == |kids|
    && (forall i, j :: 0 <= i < j < |at| ==> at[i] < at[j])
    && (forall i :: 0 <= i < |at| ==> at[i] < |edges| && edges[at[i]] == Edge(n, kids[i]))
  }

  lemma EndsMore(edges: seq<Edge>, n: Name, kids: seq<Name>, at: seq<nat>)
    requires |edges| > 0 && EndsAt(edges[..|edges| - 1], n, kids, at)
    ensures EndsAt(edges, n, kids, at)
    ensures edges[|edges| - 1].parent == n ==> EndsAt(edges, n, kids + [edges[|edges| - 1].child], at + [|edges| - 1])
  {
  }

  /** The children of a node are the ends of all its edges, in the order in which the edges were put in. */
  lemma {:induction false} KidsInOrder(edges: seq<Edge>, n: Name) returns (at: seq<nat>)
    ensures EndsAt(edges, n, Kids(edges, n), at)
    ensures forall k :: 0 <= k < |edges| && edges[k].parent == n ==> k in at
  {
    hide EndsAt;
    if |edges| == 0 {
      at := [];
      assert EndsAt(edges, n, [], []) by { NoEnds(edges, n); }
    } else {
      var k := |edges| - 1;
      var init := KidsInOrder(edges[..k], n);
      EndsMore(edges, n, Kids(edges[..k], n), init);
      at := if edges[k].parent == n then init + [k] else init;
      if edges[k].parent != n {
        assert Kids(edges, n) == Kids(edges[..k], n);
      }
      forall j | 0 <= j < |edges| && edges[j].parent == n ensures j in at {
        if j < k {
          assert edges[..k][j] == edges[j];
        }
      }
    }
  }

  lemma NoEnds(edges: seq<Edge>, n: Name)
    ensures EndsAt(edges, n, [], [])
  {
  }

  /** The unguarded recursion. It ends because a path from the root never repeats a node. */
  method GetTreeNodeChildren(g: Graph, name: Name, ghost path: seq<Name>) returns (t: Tree)
    requires TreeLike(g) && PathTo(g, path, name)
    ensures Unfolds(g, t, name)
    decreases |g.nodes| - |path|
  {
    hide TreeLike, Kids, InDegree;
    var kids := Kids(g.edges, name);
    var children := [];
    for i := 0 to |kids|
      invariant |children| == i
      invariant forall j :: 0 <= j < i ==> Unfolds(g, children[j], kids[j])
    {
      ghost var deeper := path + [kids[i]];
      Extend(g, path, name, kids[i]);
      PathFits(g, deeper);
      var sub := GetTreeNodeChildren(g, kids[i], deeper);
      children := children + [sub];
    }
    t := Tree(name, KindCode(g, name), children);
  }

  lemma Extend(g: Graph, p: seq<Name>, n: Name, c: Name)
    requires PathTo(g, p, n) && c in Kids(g.edges, n)
    ensures PathTo(g, p + [c], c)
  {
    KidsAreEdges(g.edges, n, c);
  }

  /** Names in the order the walk visits them. */
  function Names(t: Tree): seq<Name>
    decreases t, 0
  {
    [t.name] + NamesAll(t.children)
  }

  function NamesAll(ts: seq<Tree>): seq<Name>
    decreases ts, 1
  {
    if |ts| == 0 then [] else Names(ts[0]) + NamesAll(ts[1..])
  }

  ghost predicate UnfoldsAll(g: Graph, ts: seq<Tree>, ks: seq<Name>, n: Name) {
    && |ts| == |ks|
    && forall i :: 0 <= i < |ks| ==> Unfolds(g, ts[i], ks[i]) && ks[i] in Kids(g.edges, n)
  }

  lemma {:induction false} VisitedHasPath(g: Graph, t: Tree, p: seq<Name>, x: Name) returns (q: seq<Name>)
    requires Unfolds(g, t, t.name) && PathTo(g, p, t.name) && x in Names(t)
    ensures PathTo(g, q, x) && p <= q
    decreases t, 0
  {
    if x == t.name {
      q := p;
    } else {
      var i;
      q, i := VisitedBelowHasPath(g, t.children, Kids(g.edges, t.name), t.name, p, x);
    }
  }

  lemma {:induction false} VisitedBelowHasPath(g: Graph, ts: seq<Tree>, ks: seq<Name>, n: Name, p: seq<Name>, x: Name)
      returns (q: seq<Name>, i: nat)
    requires UnfoldsAll(g, ts, ks, n) && PathTo(g, p, n) && x in NamesAll(ts)
    ensures i < |ks| && PathTo(g, q, x) && p + [ks[i]] <= q && p <= q
    decreases ts, 1
  {
    if x in Names(ts[0]) {
      hide PathTo, Unfolds;
      UnfoldsName(g, ts[0], ks[0]);
      Extend(g, p, n, ks[0]);
      q := VisitedHasPath(g, ts[0], p + [ks[0]], x);
      i := 0;
    } else {
      hide PathTo, Unfolds;
      assert UnfoldsAll(g, ts[1..], ks[1..], n);
      q, i := VisitedBelowHasPath(g, ts[1..], ks[1..], n, p, x);
      assert ks[1..][i] == ks[i + 1];
      i := i + 1;
    }
  }

  lemma UnfoldsName(g: Graph, t: Tree, n: Name)
    requires Unfolds(g, t, n)
    ensures t.name == n && UnfoldsAll(g, t.children, Kids(g.edges, n), n)
  {
  }

  lemma SplitDistinct(a: seq<Name>, b: seq<Name>)
    requires Distinct(a) && Distinct(b) && forall x :: x in a ==> x !in b
    ensures Distinct(a + b)
  {
    forall i, j | 0 <= i < j < |a + b| ensures (a + b)[i] != (a + b)[j] {
      if i < |a| <= j {
        assert a[i] in a && b[j - |a|] in b;
      }
    }
  }

  lemma {:induction false} VisitsOnce(g: Graph, t: Tree, p: seq<Name>)
    requires TreeLike(g) && Unfolds(g, t, t.name) && PathTo(g, p, t.name)
    ensures Distinct(Names(t))
    decreases t, 0
  {
    hide TreeLike, Unfolds, InDegree, Kids;
    var ks := Kids(g.edges, t.name);
    UnfoldsName(g, t, t.name);
    assert Distinct(ks) by {
      forall c ensures InDegree(g.edges, c) <= 1 { DegreeAtMostOne(g, c); }
      KidsDistinct(g.edges, t.name);
    }
    VisitsBelowOnce(g, t.children, ks, t.name, p);
    if t.name in NamesAll(t.children) {
      var q, i := VisitedBelowHasPath(g, t.children, ks, t.name, p, t.name);
      PathsUnique(g, p, q);
    }
    SplitDistinct([t.name], NamesAll(t.children));
  }

  lemma {:induction false} VisitsBelowOnce(g: Graph, ts: seq<Tree>, ks: seq<Name>, n: Name, p: seq<Name>)
    requires TreeLike(g) && UnfoldsAll(g, ts, ks, n) && Distinct(ks) && PathTo(g, p, n)
    ensures Distinct(NamesAll(ts))
    decreases ts, 1
  {
    if |ts| > 0 {
      hide TreeLike, Unfolds, Kids, Names;
      var p0 := p + [ks[0]];
      UnfoldsName(g, ts[0], ks[0]);
      Extend(g, p, n, ks[0]);
      VisitsOnce(g, ts[0], p0);
      assert UnfoldsAll(g, ts[1..], ks[1..], n);
      VisitsBelowOnce(g, ts[1..], ks[1..], n, p);
      forall x | x in Names(ts[0]) ensures x !in NamesAll(ts[1..]) {
        if x in NamesAll(ts[1..]) {
          var q0 := VisitedHasPath(g, ts[0], p0, x);
          var q1, i := VisitedBelowHasPath(g, ts[1..], ks[1..], n, p, x);
          assert q0[|p|] == ks[0] && q1[|p|] == ks[i + 1];
          PathsUnique(g, q0, q1);
        }
      }
      SplitDistinct(Names(ts[0]), NamesAll(ts[1..]));
    }
  }

  lemma {:induction false} InNamesAll(ts: seq<Tree>, i: nat, x: Name)
    requires i < |ts| && x in Names(ts[i])
    ensures x in NamesAll(ts)
  {
    if i > 0 {
      InNamesAll(ts[1..], i - 1, x);
    }
  }

  lemma {:induction false} VisitsReached(g: Graph, t: Tree, p: seq<Name>, q: seq<Name>)
    requires Unfolds(g, t, t.name) && PathTo(g, p, t.name) && IsPath(g, q) && p <= q
    ensures q[|q| - 1] in Names(t)
    decreases |q| - |p|
  {
    if |p| < |q| {
      hide Unfolds, Kids, NamesAll;
      var k := q[|p|];
      var kids := Kids(g.edges, t.name);
      assert Edge(q[|p| - 1], q[|p|]) in g.edges;
      KidsAreEdges(g.edges, t.name, k);
      var i :| 0 <= i < |kids| && kids[i] == k;
      UnfoldsName(g, t, t.name);
      UnfoldsName(g, t.children[i], k);
      assert p + [k] <= q;
      Extend(g, p, t.name, k);
      VisitsReached(g, t.children[i], p + [k], q);
      InNamesAll(t.children, i, q[|q| - 1]);
    }
  }

  /** The walk from the root visits exactly the nodes the root reaches, each of them once. */
  lemma WalkVisitsReachedOnce(g: Graph, t: Tree)
    requires TreeLike(g) && Unfolds(g, t, Root)
    ensures Distinct(Names(t))
    ensures forall x :: x in Names(t) <==> Reached(g, x)
  {
    hide TreeLike, Unfolds, Names;
    UnfoldsName(g, t, Root);
    var p := [Root];
    assert PathTo(g, p, Root);
    VisitsOnce(g, t, p);
    forall x ensures x in Names(t) <==> Reached(g, x) {
      if x in Names(t) {
        var q := VisitedHasPath(g, t, p, x);
      }
      if Reached(g, x) {
        var q :| PathTo(g, q, x);
        VisitsReached(g, t, p, q);
      }
    }
  }

  // ----- when the multimap spans -----

  ghost predicate Spanning(g: Graph) { forall n :: n in g.nodes ==> Reached(g, n) }

  /** Machine `m`, met when the graph is `g`, closes a ring that the root does not reach: it is its own gateway,
      or its own connecting address behind a gateway not seen before. */
  predicate ClosesRing(g: Graph, m: Machine) {
    && Ip(m.ip) !in g.nodes && m.ttl > 0 && m.gateway != 0
    && (m.gateway == m.ip || (m.connect == m.ip && m.connect != 0 && Ip(m.gateway) !in g.nodes))
  }

  ghost predicate Extends(g: Graph, h: Graph) {
    && g.nodes.Keys <= h.nodes.Keys
    && (forall e :: e in g.edges ==> e in h.edges)
    && (forall e :: e in h.edges && e !in g.edges ==> e.child !in g.nodes)
  }

  lemma StepExtends(g: Graph, m: Machine)
    requires forall gw, c :: Middle(gw, c) in g.nodes ==> Ip(gw) in g.nodes
    ensures Extends(g, Step(g, m))
  {
    if Ip(m.ip) !in g.nodes {
      hide Step;
      StepGrows(g, m);
    }
  }

  lemma PathKept(g: Graph, h: Graph, n: Name)
    requires Extends(g, h) && Reached(g, n)
    ensures Reached(h, n)
  {
    var p :| PathTo(g, p, n);
    assert PathTo(h, p, n);
  }

  lemma ReachedChild(g: Graph, n: Name, c: Name)
    requires Reached(g, n) && Edge(n, c) in g.edges
    ensures Reached(g, c)
  {
    var p :| PathTo(g, p, n);
    assert PathTo(g, p + [c], c);
  }

  lemma RootReached(g: Graph)
    ensures Reached(g, Root)
  {
    assert PathTo(g, [Root], Root);
  }

  /** A later pass adds no way to a node that was already there. */
  lemma {:induction false} NoNewWay(g: Graph, h: Graph, p: seq<Name>)
    requires TreeLike(g) && Extends(g, h) && IsPath(h, p) && p[|p| - 1] in g.nodes
    ensures IsPath(g, p) && Reached(g, p[|p| - 1])
  {
    if |p| > 1 {
      var k := |p| - 1;
      var e := Edge(p[k - 1], p[k]);
      assert e in g.edges;
      assert e.parent in g.nodes;
      NoNewWay(g, h, p[..k]);
      assert IsPath(g, p) by {
        forall i | 0 < i < |p| ensures Edge(p[i - 1], p[i]) in g.edges {
          if i < k {
            assert p[..k][i - 1] == p[i - 1] && p[..k][i] == p[i];
          }
        }
      }
    }
    assert PathTo(g, p, p[|p| - 1]);
  }

  lemma StaysUnreached(g: Graph, m: Machine)
    requires TreeLike(g) && !Spanning(g)
    ensures !Spanning(Step(g, m))
  {
    hide Step, InDegree, IsPath;
    StepExtends(g, m);
    var n :| n in g.nodes && !Reached(g, n);
    var h := Step(g, m);
    if Reached(h, n) {
      var p :| PathTo(h, p, n);
      NoNewWay(g, h, p);
    }
  }

  /** A reached node is reached through its parent, and its parent without it. */
  lemma ParentReached(g: Graph, e: Edge) returns (p: seq<Name>)
    requires TreeLike(g) && e in g.edges && Reached(g, e.child)
    ensures PathTo(g, p, e.parent) && e.child !in p
  {
    var q :| PathTo(g, q, e.child);
    var k := |q| - 1;
    RootIsNoChild(g, e);
    assert k > 0;
    DegreeAtMostOne(g, e.child);
    UniqueParent(g.edges, e, Edge(q[k - 1], q[k]));
    p := q[..k];
    PathDistinct(g, q);
    forall i | 0 <= i < k ensures p[i] != e.child {
      assert q[i] != q[k];
    }
  }

  lemma RingUnreached(g: Graph, a: Name, b: Name, c: Name)
    requires TreeLike(g) && Edge(b, a) in g.edges
    requires b == a || Edge(a, b) in g.edges || (Edge(c, b) in g.edges && Edge(a, c) in g.edges)
    ensures !Reached(g, a)
  {
    hide TreeLike, IsPath;
    if Reached(g, a) {
      var p := ParentReached(g, Edge(b, a));
      PathEnds(g, p, b);
      if b != a {
        if Edge(a, b) in g.edges {
          var q := ParentReached(g, Edge(a, b));
          PathEnds(g, q, a);
          Above(g, p, q, Edge(a, b));
        } else {
          var q := ParentReached(g, Edge(c, b));
          PathEnds(g, q, c);
          Above(g, p, q, Edge(c, b));
          var r := ParentReached(g, Edge(a, c));
          PathEnds(g, r, a);
          Above(g, q, r, Edge(a, c));
        }
      }
    }
  }

  lemma PathEnds(g: Graph, p: seq<Name>, n: Name)
    requires PathTo(g, p, n)
    ensures n in p && Reached(g, n)
  {
  }

  /** The path to a child is the path to its parent and the child. */
  lemma Above(g: Graph, p: seq<Name>, q: seq<Name>, e: Edge)
    requires TreeLike(g) && e in g.edges && PathTo(g, p, e.child) && PathTo(g, q, e.parent)
    ensures p == q + [e.child]
  {
    hide TreeLike;
    assert PathTo(g, q + [e.child], e.child);
    PathsUnique(g, p, q + [e.child]);
  }

  lemma StepRing(g: Graph, m: Machine)
    requires ClosesRing(g, m)
    ensures var h, node, gate, mid := Step(g, m), Ip(m.ip), Ip(m.gateway), Middle(m.gateway, m.connect);
            && node in h.nodes && Edge(gate, node) in h.edges
            && (gate == node || Edge(node, gate) in h.edges
                || (Edge(mid, gate) in h.edges && Edge(node, mid) in h.edges))
  {
  }

  lemma StepReaches(g: Graph, m: Machine)
    requires TreeLike(g) && Spanning(g) && !ClosesRing(g, m)
    ensures Spanning(Step(g, m))
  {
    hide TreeLike, Reached, Extends;
    TreeLikeMiddle(g);
    StepExtends(g, m);
    var h, node, gate, conn, mid := Step(g, m), Ip(m.ip), Ip(m.gateway), Ip(m.connect), Middle(m.gateway, m.connect);
    forall n | n in g.nodes ensures Reached(h, n) { PathKept(g, h, n); }
    RootReached(h);
    if node !in g.nodes {
      if m.ttl <= 0 || m.gateway == 0 {
        ReachedChild(h, Root, node);
      } else {
        if gate !in g.nodes {
          if m.gateway == m.connect || m.connect == 0 {
            ReachedChild(h, Root, gate);
          } else {
            if conn !in g.nodes { ReachedChild(h, Root, conn); }
            if m.ttl > 2 {
              ReachedChild(h, conn, mid);
              ReachedChild(h, mid, gate);
            } else {
              ReachedChild(h, conn, gate);
            }
          }
        }
        ReachedChild(h, gate, node);
      }
    }
  }

  lemma TreeLikeMiddle(g: Graph)
    requires TreeLike(g)
    ensures forall gw, c :: Middle(gw, c) in g.nodes ==> Ip(gw) in g.nodes
  {
  }

  /** The root reaches every node, middle nodes included, exactly when no machine on the list closes a ring. */
  lemma {:induction false} SpanningExact(ms: seq<Machine>)
    ensures Spanning(Build(ms)) <==> forall k :: 0 <= k < |ms| ==> !RingAt(ms, k)
  {
    hide Step, RingAt, Spanning, ClosesRing, TreeLike;
    if |ms| == 0 {
      EmptySpans();
      assert Build(ms) == EMPTY;
    } else {
      var last := |ms| - 1;
      var init := ms[..last];
      var g, m := Build(init), ms[last];
      SpanningExact(init);
      BuildTreeLike(init);
      BuildTreeLike(ms);
      StepSpans(g, m);
      SameRings(ms);
      if Spanning(g) {
        forall k | 0 <= k < last ensures !RingAt(ms, k) {
          assert !RingAt(init, k);
        }
      } else {
        var k :| 0 <= k < last && RingAt(init, k);
        assert RingAt(ms, k);
      }
    }
  }

  /** Machine `k` closes a ring where it is met. */
  predicate RingAt(ms: seq<Machine>, k: nat)
    requires k < |ms|
  {
    ClosesRing(Build(ms[..k]), ms[k])
  }

  lemma SameRings(ms: seq<Machine>)
    requires |ms| > 0
    ensures forall k :: 0 <= k < |ms| - 1 ==> (RingAt(ms[..|ms| - 1], k) <==> RingAt(ms, k))
    ensures RingAt(ms, |ms| - 1) <==> ClosesRing(Build(ms[..|ms| - 1]), ms[|ms| - 1])
  {
    hide Build, ClosesRing;
    forall k | 0 <= k < |ms| - 1 ensures RingAt(ms[..|ms| - 1], k) <==> RingAt(ms, k) {
      assert ms[..|ms| - 1][..k] == ms[..k];
    }
  }

  lemma EmptySpans()
    ensures Spanning(EMPTY)
  {
    RootReached(EMPTY);
  }

  lemma StepSpans(g: Graph, m: Machine)
    requires TreeLike(g) && TreeLike(Step(g, m))
    ensures Spanning(Step(g, m)) <==> Spanning(g) && !ClosesRing(g, m)
  {
    hide Step, ClosesRing, TreeLike, Reached;
    if !Spanning(g) {
      StaysUnreached(g, m);
    } else if ClosesRing(g, m) {
      StepRing(g, m);
      RingUnreached(Step(g, m), Ip(m.ip), Ip(m.gateway), Middle(m.gateway, m.connect));
    } else {
      StepReaches(g, m);
    }
  }

  /** In particular the tree spans when no machine names its own address as gateway or connecting address. */
  lemma SpansWithoutSelfReference(ms: seq<Machine>)
    requires forall k :: 0 <= k < |ms| ==> ms[k].gateway != ms[k].ip && ms[k].connect != ms[k].ip
    ensures Spanning(Build(ms))
  {
    hide Spanning, Build;
    SpanningExact(ms);
  }

  /** A machine that is its own gateway is never reached. */
  lemma SelfGatewayIsLost()
    ensures !Spanning(Build([Machine(7, 7, 9, 1)]))
  {
    hide Spanning;
    var ms := [Machine(7, 7, 9, 1)];
    assert ms[..0] == [];
    assert RingAt(ms, 0);
    SpanningExact(ms);
  }

  // ----- what the multimap says of the machines -----

  /** A pass keeps what was there. */
  ghost predicate Keeps(g: Graph, h: Graph) {
    && (forall n :: n in g.nodes ==> n in h.nodes && h.nodes[n] == g.nodes[n])
    && (forall e :: e in g.edges ==> e in h.edges)
  }

  lemma StepKeeps(g: Graph, m: Machine)
    requires forall gw, c :: Middle(gw, c) in g.nodes ==> Ip(gw) in g.nodes
    ensures Keeps(g, Step(g, m)) && Ip(m.ip) in Step(g, m).nodes
  {
  }

  lemma {:induction false} BuildKeeps(ms: seq<Machine>, k: nat)
    requires k <= |ms|
    ensures Keeps(Build(ms[..k]), Build(ms))
    decreases |ms|
  {
    hide Step;
    if k == |ms| {
      assert ms[..k] == ms;
    } else {
      var n := |ms| - 1;
      BuildKeeps(ms[..n], k);
      assert ms[..n][..k] == ms[..k];
      BuildTreeLike(ms[..n]);
      TreeLikeMiddle(Build(ms[..n]));
      StepKeeps(Build(ms[..n]), ms[n]);
    }
  }

  /** Every machine of the list is a node. */
  lemma MachineIsNode(ms: seq<Machine>, k: nat)
    requires k < |ms|
    ensures Ip(ms[k].ip) in Build(ms).nodes
  {
    hide Step;
    BuildTreeLike(ms[..k]);
    TreeLikeMiddle(Build(ms[..k]));
    StepKeeps(Build(ms[..k]), ms[k]);
    assert ms[..k + 1][..k] == ms[..k];
    BuildKeeps(ms, k + 1);
  }

  /** The names a machine can bring into the picture. */
  predicate Mentions(m: Machine, n: Name) {
    || n == Ip(m.ip)
    || (m.ttl > 0 && m.gateway != 0
        && (|| n == Ip(m.gateway)
            || (m.connect != 0 && m.connect != m.gateway
                && (n == Ip(m.connect) || (m.ttl > 2 && n == Middle(m.gateway, m.connect))))))
  }

  /** Every other node is mentioned by some machine. */
  lemma {:induction false} NodeIsMentioned(ms: seq<Machine>, n: Name)
    requires n in Build(ms).nodes && n != Root
    ensures exists k :: 0 <= k < |ms| && Mentions(ms[k], n)
  {
    if |ms| > 0 {
      var last := |ms| - 1;
      if n in Build(ms[..last]).nodes {
        NodeIsMentioned(ms[..last], n);
        var k :| 0 <= k < last && Mentions(ms[..last][k], n);
        assert Mentions(ms[k], n);
      } else {
        assert Mentions(ms[last], n);
      }
    }
  }

  /** Where a machine that is new hangs in graph `g`, given the names `known` when it was met: below the root when it is
      connected directly, else below its gateway; a new gateway hangs below the root, or below the connecting address,
      through a middle node when it is more than two hops away; a new connecting address hangs below the root. */
  ghost predicate Hangs(g: Graph, m: Machine, known: set<Name>) {
    var node, gate, conn, mid := Ip(m.ip), Ip(m.gateway), Ip(m.connect), Middle(m.gateway, m.connect);
    && KindCode(g, node) == 5
    && (m.ttl <= 0 || m.gateway == 0 ==> Edge(Root, node) in g.edges)
    && (m.ttl > 0 && m.gateway != 0 ==>
          && Edge(gate, node) in g.edges
          && (gate !in known && gate != node ==>
                && KindCode(g, gate) == 4
                && (m.connect == 0 || m.connect == m.gateway ==> Edge(Root, gate) in g.edges)
                && (m.connect != 0 && m.connect != m.gateway ==>
                      && (m.ttl <= 2 ==> Edge(conn, gate) in g.edges)
                      && (m.ttl > 2 ==>
                            Edge(mid, gate) in g.edges && Edge(conn, mid) in g.edges && KindCode(g, mid) == 3)
                      && (conn !in known && conn != node ==> Edge(Root, conn) in g.edges && KindCode(g, conn) == 2))))
  }

  lemma StepHangs(g: Graph, m: Machine)
    requires Ip(m.ip) !in g.nodes
    ensures Hangs(Step(g, m), m, g.nodes.Keys)
  {
  }

  lemma HangsOn(g: Graph, h: Graph, m: Machine, known: set<Name>)
    requires Keeps(g, h) && Hangs(g, m, known)
    ensures Hangs(h, m, known)
  {
    forall n | n in g.nodes ensures KindCode(h, n) == KindCode(g, n) {
    }
  }

  /** In the finished picture every machine, gateway, connecting address and middle node hangs where the first machine
      that brought it in says; by `BuildTreeLike` that is its only place. */
  lemma EveryMachineHangs(ms: seq<Machine>, k: nat)
    requires k < |ms| && Ip(ms[k].ip) !in Build(ms[..k]).nodes
    ensures Hangs(Build(ms), ms[k], Build(ms[..k]).nodes.Keys)
  {
    hide Step, Hangs;
    StepHangs(Build(ms[..k]), ms[k]);
    assert ms[..k + 1][..k] == ms[..k];
    BuildKeeps(ms, k + 1);
    HangsOn(Build(ms[..k + 1]), Build(ms), ms[k], Build(ms[..k]).nodes.Keys);
  }

  /** When no machine names its own address as gateway or connecting address, the page shows every machine of the list
      exactly once. */
  lemma PageShowsMachines(ms: seq<Machine>, t: Tree)
    requires forall k :: 0 <= k < |ms| ==> ms[k].gateway != ms[k].ip && ms[k].connect != ms[k].ip
    requires Unfolds(Build(ms), t, Root)
    ensures Distinct(Names(t))
    ensures forall k :: 0 <= k < |ms| ==> Ip(ms[k].ip) in Names(t)
  {
    hide Build, Unfolds, Names, Reached, TreeLike;
    BuildTreeLike(ms);
    SpansWithoutSelfReference(ms);
    WalkVisitsReachedOnce(Build(ms), t);
    forall k | 0 <= k < |ms| ensures Ip(ms[k].ip) in Names(t) {
      MachineIsNode(ms, k);
    }
  }

  lemma Shown()
    ensures Show(0) == "0" && Show(1) == "1" && Show(8) == "8" && Show(10) == "10"
  {
  }

  /** Two addresses and the middle node between them. */
  lemma DottedExample(a: nat)
    requires a == 0xa00_0001 || a == 0x808_0808
    ensures Dotted(a) == if a == 0xa00_0001 then "10.0.0.1" else "8.8.8.8"
  {
    hide Show;
    Shown();
    if a == 0xa00_0001 {
      assert Dotted(a) == "10" + "." + "0" + "." + "0" + "." + "1";
    } else {
      assert Dotted(a) == "8" + "." + "8" + "." + "8" + "." + "8";
    }
  }

  lemma TextExample()
    ensures Text(Middle(0xa00_0001, 0x808_0808)) == "10.0.0.1 ... 8.8.8.8"
  {
    hide Dotted;
    DottedExample(0xa00_0001);
    DottedExample(0x808_0808);
  }

  // ----- the page -----

  /** The loop over the machine list and the walk. */
  method ShowTopInfo(machines: seq<Machine>) returns (t: Tree)
    ensures var g := Build(machines);
            if |g.edges| > 0 then Unfolds(g, t, Root) else t == Tree(Root, 0, [])
  {
    var nodes := map[Root := RootNode];
    var edges: seq<Edge> := [];
    for i := 0 to |machines|
      invariant Graph(nodes, edges) == Build(machines[..i])
    {
      assert machines[..i + 1][..i] == machines[..i];
      nodes, edges := AddMachine(nodes, edges, machines[i]);
    }
    assert machines[..|machines|] == machines;
    if |edges| > 0 {
      BuildTreeLike(machines);
      assert PathTo(Graph(nodes, edges), [Root], Root);
      t := GetTreeNodeChildren(Graph(nodes, edges), Root, [Root]);
    } else {
      t := Tree(Root, 0, []);
    }
  }

  /** The body of the loop, with its early exits. */
  method AddMachine(nodes0: map<Name, Kind>, edges0: seq<Edge>, m: Machine)
      returns (nodes: map<Name, Kind>, edges: seq<Edge>)
    ensures Graph(nodes, edges) == Step(Graph(nodes0, edges0), m)
  {
    nodes, edges := nodes0, edges0;
    var node := Ip(m.ip);
    if node in nodes {
      return;
    }
    nodes := nodes[node := ClientNode];
    if m.ttl <= 0 {
      edges := edges + [Edge(Root, node)];
      return;
    }
    var gate := Ip(m.gateway);
    if m.gateway != 0 {
      if gate in nodes {
        edges := edges + [Edge(gate, node)];
        return;
      }
      edges := edges + [Edge(gate, node)];
      nodes := nodes[gate := GatewayNode];
      if m.gateway != m.connect && m.connect != 0 {
        var conn, mid := Ip(m.connect), Middle(m.gateway, m.connect);
        if conn in nodes {
          if m.ttl > 2 {
            edges := edges + [Edge(mid, gate)];
            nodes := nodes[mid := MidNode];
            edges := edges + [Edge(conn, mid)];
          } else {
            edges := edges + [Edge(conn, gate)];
          }
          return;
        }
        nodes := nodes[conn := ConnNode];
        if m.ttl > 2 {
          edges := edges + [Edge(mid, gate)];
          nodes := nodes[mid := MidNode];
          edges := edges + [Edge(conn, mid)];
          edges := edges + [Edge(Root, conn)];
        } else {
          edges := edges + [Edge(conn, gate)];
          edges := edges + [Edge(Root, conn)];
        }
      } else {
        edges := edges + [Edge(Root, gate)];
      }
    } else {
      edges := edges + [Edge(Root, node)];
    }
  }
}
