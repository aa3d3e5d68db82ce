/** The path graph of a function and its complexity, against the decisions counted
    in the syntax tree. */
module McCabe {
  import opened Wrappers

  datatype Handler = Handler(body: seq<Node>)

  /** The syntax tree as the visitor tells its nodes apart. `Other` is every class
      without a visit method: the walk goes on with its children. A loop carries
      its title. */
  datatype Node =
    | Simple
    | If(body: seq<Node>, orelse: seq<Node>)
    | Loop(title: string, body: seq<Node>, orelse: seq<Node>)
    | TryExcept(body: seq<Node>, handlers: seq<Handler>, orelse: seq<Node>)
    | With(body: seq<Node>)
    | FunctionDef(name: string, body: seq<Node>)
    | ClassDef(name: string, body: seq<Node>)
    | Other(children: seq<Node>)

  /** PathGraph.nodes: path nodes are numbers in the order of their creation. Only
      nodes with out-edges have an entry. */
  type Nodes = map<nat, seq<nat>>

  // ----- PathGraph

  function Connected(nodes: Nodes, n1: nat, n2: nat): Nodes {
    nodes[n1 := (if n1 in nodes then nodes[n1] else []) + [n2]]
  }

  /** The edges, each told apart by its source and its place in the list. */
  function Edges(nodes: Nodes): set<(nat, int)> { set n, i | n in nodes.Keys && 0 <= i < |nodes[n]| :: (n, i) }

  function EdgesOf(nodes: Nodes, n: nat): set<(nat, int)>
    requires n in nodes
  {
    set i | 0 <= i < |nodes[n]| :: (n, i)
  }

  function Complexity(nodes: Nodes): int { |Edges(nodes)| - |nodes.Keys| + 2 }

  lemma {:induction false} CountRow(n: nat, k: nat, row: set<(nat, int)>)
    requires row == set i | 0 <= i < k :: (n, i)
    ensures |row| == k
  {
    if k == 0 {
      assert row == {};
    } else {
      var rest := set i | 0 <= i < k - 1 :: (n, i);
      assert row == rest + {(n, k - 1)};
      CountRow(n, k - 1, rest);
    }
  }

  lemma ConnectedCounts(nodes: Nodes, n1: nat, n2: nat)
    ensures Connected(nodes, n1, n2).Keys == nodes.Keys + {n1}
    ensures Complexity(Connected(nodes, n1, n2)) == Complexity(nodes) + if n1 in nodes then 1 else 0
  {
    OneMoreEdge(nodes, n1, n2);
    OneMore(Edges(nodes), Edges(Connected(nodes, n1, n2)), (n1, if n1 in nodes then |nodes[n1]| else 0));
    if n1 in nodes { assert nodes.Keys + {n1} == nodes.Keys; } else { OneMore(nodes.Keys, nodes.Keys + {n1}, n1); }
  }

  lemma OneMore<T>(a: set<T>, b: set<T>, x: T)
    requires x !in a && b == a + {x}
    ensures |b| == |a| + 1
  {}

  lemma OneMoreEdge(nodes: Nodes, n1: nat, n2: nat)
    ensures var e := (n1, if n1 in nodes then |nodes[n1]| else 0);
      e !in Edges(nodes) && Edges(Connected(nodes, n1, n2)) == Edges(nodes) + {e}
  {
    var e := (n1, if n1 in nodes then |nodes[n1]| else 0);
    var after := Connected(nodes, n1, n2);
    forall n, i ensures (n, i) in Edges(after) <==> (n, i) in Edges(nodes) || (n, i) == e {}
  }

  class PathGraph {
    var nodes: Nodes

    constructor ()
      ensures nodes == map[]
    {
      nodes := map[];
    }

    method Connect(n1: nat, n2: nat)
      modifies this
      ensures nodes == Connected(old(nodes), n1, n2)
    {
      if n1 !in nodes { nodes := nodes[n1 := []]; }
      nodes := nodes[n1 := nodes[n1] + [n2]];
    }
  }

  /** The sum over the rows, in whatever order the dictionary yields them. */
  method ComputeComplexity(nodes: Nodes) returns (complexity: int)
    ensures complexity == Complexity(nodes)
  {
    var total, todo := 0, nodes.Keys;
    ghost var seen: set<(nat, int)> := {};
    while todo != {}
      invariant todo <= nodes.Keys
      invariant total == |seen| && seen == set e | e in Edges(nodes) && e.0 !in todo
      decreases |todo|
    {
      var n :| n in todo;
      var row := EdgesOf(nodes, n);
      CountRow(n, |nodes[n]|, row);
      assert seen !! row;
      seen := seen + row;
      total := total + |nodes[n]|;
      todo := todo - {n};
    }
    assert seen == Edges(nodes);
    return total - |nodes.Keys| + 2;
  }

  // ----- the walk inside a function

  /** The graph under construction, the current tail and the next fresh node. */
  datatype Path = Path(nodes: Nodes, tail: nat, next: nat)

  function Append(p: Path): Path { Path(Connected(p.nodes, p.tail, p.next), p.next, p.next + 1) }

  function ConnectAll(nodes: Nodes, ends: seq<nat>, bottom: nat): Nodes
    decreases |ends|
  {
    if ends == [] then nodes else ConnectAll(Connected(nodes, ends[0], bottom), ends[1..], bottom)
  }

  /** The loose ends meet in a new node, the new tail. */
  function Join(p: Path, ends: seq<nat>): Path {
    Path(ConnectAll(p.nodes, ends, p.next), p.next, p.next + 1)
  }

  function Walk(n: Node, p: Path): Path
    decreases n
  {
    match n
    case Simple => Append(p)
    case If(body, orelse) =>
      var top := Append(p);
      var q := WalkList(body, top);
      if orelse == [] then Join(q, [q.tail, top.tail])
      else
        var r := WalkList(orelse, q.(tail := top.tail));
        Join(r, [q.tail, r.tail])
    case Loop(_, body, _) => var top := Append(p); var q := WalkList(body, top); Join(q, [q.tail, top.tail])
    case TryExcept(body, handlers, _) =>
      var top := Append(p);
      var q := WalkList(body, top);
      var (r, ends) := WalkHandlers(handlers, top.tail, q, [q.tail]);
      Join(r, ends)
    case With(body) => WalkList(body, Append(p))
    case FunctionDef(_, body) => var top := Append(p); var q := WalkList(body, top); Join(q, [q.tail, top.tail])
    case ClassDef(_, body) => WalkList(body, p)
    case Other(children) => WalkList(children, p)
  }

  function WalkList(list: seq<Node>, p: Path): Path
    decreases list
  {
    if list == [] then p else WalkList(list[1..], Walk(list[0], p))
  }

  /** Each handler starts from the node of the try and leaves a loose end. */
  function WalkHandlers(handlers: seq<Handler>, top: nat, p: Path, ends: seq<nat>): (Path, seq<nat>)
    decreases handlers
  {
    if handlers == [] then (p, ends)
    else
      var q := WalkList(handlers[0].body, p.(tail := top));
      WalkHandlers(handlers[1..], top, q, ends + [q.tail])
  }

  // ----- the decisions of the syntax tree

  /** Visited ifs, loops, except handlers and nested functions. The else block of a
      loop or a try is never visited. */
  function Decisions(n: Node): nat
    decreases n
  {
    match n
    case Simple => 0
    case If(body, orelse) => 1 + DecisionsIn(body) + DecisionsIn(orelse)
    case Loop(_, body, _) => 1 + DecisionsIn(body)
    case TryExcept(body, handlers, _) => DecisionsIn(body) + DecisionsOfHandlers(handlers)
    case With(body) => DecisionsIn(body)
    case FunctionDef(_, body) => 1 + DecisionsIn(body)
    case ClassDef(_, body) => DecisionsIn(body)
    case Other(children) => DecisionsIn(children)
  }

  function DecisionsIn(list: seq<Node>): nat
    decreases list
  {
    if list == [] then 0 else Decisions(list[0]) + DecisionsIn(list[1..])
  }

  function DecisionsOfHandlers(handlers: seq<Handler>): nat
    decreases handlers
  {
    if handlers == [] then 0 else 1 + DecisionsIn(handlers[0].body) + DecisionsOfHandlers(handlers[1..])
  }

  // ----- the walk counts the decisions

  /** Nodes are numbered in the order of creation. */
  predicate Numbered(p: Path) { p.tail < p.next && forall n :: n in p.nodes ==> n < p.next }

  /** The complexity so far, and one more when the next edge out of the tail will
      be its second or later. */
  function Potential(p: Path): int { Complexity(p.nodes) + if p.tail in p.nodes then 1 else 0 }

  /** Only the tail and new nodes get out-edges; the tail stays and nothing has
      changed, or it got an out-edge and the tail is now a new node without any. */
  predicate Grows(p: Path, q: Path) {
    && Numbered(q) && p.next <= q.next && p.nodes.Keys <= q.nodes.Keys
    && (forall n :: n in q.nodes ==> n in p.nodes || n == p.tail || p.next <= n)
    && if q.tail == p.tail then q.nodes == p.nodes else p.tail in q.nodes && p.next <= q.tail && q.tail !in q.nodes
  }

  predicate Advances(p: Path, q: Path, gain: int) { Grows(p, q) && Potential(q) == Potential(p) + gain }

  lemma GrowsOn(p: Path, q: Path, r: Path, gain1: int, gain2: int)
    requires Numbered(p) && Advances(p, q, gain1) && Advances(q, r, gain2)
    ensures Advances(p, r, gain1 + gain2)
  {}

  lemma AppendAdvances(p: Path)
    requires Numbered(p)
    ensures Advances(p, Append(p), 0) && Append(p).tail == p.next && p.next !in Append(p).nodes &&
      p.tail in Append(p).nodes
  {
    ConnectedCounts(p.nodes, p.tail, p.next);
  }

  /** How much connecting the loose ends adds: each one that has an out-edge by
      then adds 1. */
  function Gain(keys: set<nat>, ends: seq<nat>): nat
    decreases |ends|
  {
    if ends == [] then 0 else (if ends[0] in keys then 1 else 0) + Gain(keys + {ends[0]}, ends[1..])
  }

  lemma {:induction false} ConnectAllCounts(nodes: Nodes, ends: seq<nat>, bottom: nat)
    ensures forall n :: n in ConnectAll(nodes, ends, bottom) <==> n in nodes || n in ends
    ensures Complexity(ConnectAll(nodes, ends, bottom)) == Complexity(nodes) + Gain(nodes.Keys, ends)
    decreases |ends|
  {
    if ends != [] {
      ConnectedCounts(nodes, ends[0], bottom);
      var once := Connected(nodes, ends[0], bottom);
      ConnectAllCounts(once, ends[1..], bottom);
      assert forall n :: n in once <==> n in nodes || n == ends[0];
      assert forall n :: n in ends <==> n == ends[0] || n in ends[1..];
    }
  }

  lemma {:induction false} GainOfOneMore(keys: set<nat>, ends: seq<nat>, e: nat)
    ensures Gain(keys, ends + [e]) == Gain(keys, ends) + if e in keys || e in ends then 1 else 0
    decreases |ends|
  {
    if ends == [] {
      assert ([e])[1..] == [];
    } else {
      assert (ends + [e])[1..] == ends[1..] + [e];
      GainOfOneMore(keys + {ends[0]}, ends[1..], e);
    }
  }

  lemma {:induction false} GainOfSameKeys(keys: set<nat>, more: set<nat>, ends: seq<nat>)
    requires forall e :: e in ends ==> (e in keys <==> e in more)
    ensures Gain(keys, ends) == Gain(more, ends)
    decreases |ends|
  {
    if ends != [] { GainOfSameKeys(keys + {ends[0]}, more + {ends[0]}, ends[1..]); }
  }

  lemma {:induction false} GainOfRepeats(keys: set<nat>, ends: seq<nat>, top: nat)
    requires ends != [] && forall e :: e in ends ==> e == top
    ensures Gain(keys, ends) == if top in keys then |ends| else |ends| - 1
    decreases |ends|
  {
    assert ends[0] in ends;
    if |ends| > 1 {
      forall e | e in ends[1..] ensures e == top { assert e in ends; }
      GainOfRepeats(keys + {top}, ends[1..], top);
    } else {
      assert ends[1..] == [];
    }
  }

  // ----- branches from one node

  /** `ends` are the loose ends of branches that started at `top`. */
  predicate Loose(p: Path, top: nat, ends: seq<nat>) {
    && Numbered(p) && ends != [] && top < p.next
    && (forall e :: e in ends ==> e < p.next)
    && (top in p.nodes || forall e :: e in ends ==> e == top)
    && (top in p.nodes || top in ends)
  }

  /** What the complexity will be when the loose ends are joined. */
  function Pending(p: Path, ends: seq<nat>): int { Complexity(p.nodes) + Gain(p.nodes.Keys, ends) }

  lemma FirstBranch(top: Path, q: Path, gain: int)
    requires Numbered(top) && top.tail !in top.nodes && Advances(top, q, gain)
    ensures Loose(q, top.tail, [q.tail]) && Pending(q, [q.tail]) == Potential(top) + gain
  {
    var ends := [q.tail];
    assert ends[1..] == [] && ends[0] == q.tail && q.tail in ends;
    assert Gain(q.nodes.Keys, ends) ==
      (if ends[0] in q.nodes.Keys then 1 else 0) + Gain(q.nodes.Keys + {ends[0]}, ends[1..]);
  }

  /** One more branch adds its own decisions and 1. */
  lemma NextBranch(p: Path, top: nat, ends: seq<nat>, q: Path, gain: int)
    requires Loose(p, top, ends) && Advances(p.(tail := top), q, gain)
    ensures Loose(q, top, ends + [q.tail]) && Pending(q, ends + [q.tail]) == Pending(p, ends) + gain + 1
  {
    GainOfOneMore(q.nodes.Keys, ends, q.tail);
    if q.tail == top {
    } else if top in p.nodes {
      GainOfSameKeys(p.nodes.Keys, q.nodes.Keys, ends);
    } else {
      GainOfRepeats(p.nodes.Keys, ends, top);
      GainOfRepeats(q.nodes.Keys, ends, top);
    }
  }

  /** The branches joined, seen from the node before `top`. */
  lemma JoinAdvances(p: Path, top: nat, q: Path, ends: seq<nat>)
    requires Numbered(p) && Loose(q, top, ends) && p.tail in q.nodes && p.next <= q.next
    requires p.nodes.Keys <= q.nodes.Keys && forall n :: n in q.nodes ==> n in p.nodes || n == p.tail || p.next <= n
    requires forall e :: e in ends ==> p.next <= e
    ensures Advances(p, Join(q, ends), Pending(q, ends) - Potential(p))
  {
    ConnectAllCounts(q.nodes, ends, q.next);
  }

  // ----- the walk as a whole

  lemma {:induction false} WalkCounts(n: Node, p: Path)
    requires Numbered(p)
    ensures Advances(p, Walk(n, p), Decisions(n))
    decreases n, 1
  {
    match n {
      case Simple => AppendAdvances(p);
      case If(body, orelse) => if orelse == [] { BodyCounts(body, p); } else { IfCounts(n, p); }
      case Loop(_, body, _) => BodyCounts(body, p);
      case FunctionDef(_, body) => BodyCounts(body, p);
      case TryExcept(body, handlers, _) => TryCounts(n, p);
      case With(body) =>
        AppendAdvances(p);
        WalkListCounts(body, Append(p));
        GrowsOn(p, Append(p), WalkList(body, Append(p)), 0, DecisionsIn(body));
      case ClassDef(_, body) => WalkListCounts(body, p);
      case Other(children) => WalkListCounts(children, p);
    }
  }

  lemma IfCounts(n: Node, p: Path)
    requires Numbered(p) && n.If? && n.orelse != []
    ensures Advances(p, Walk(n, p), Decisions(n))
    decreases n, 0
  {
    var body, orelse := n.body, n.orelse;
    AppendAdvances(p);
    var top := Append(p);
    WalkListCounts(body, top);
    var q := WalkList(body, top);
    FirstBranch(top, q, DecisionsIn(body));
    var from := q.(tail := top.tail);
    WalkListCounts(orelse, from);
    var r := WalkList(orelse, from);
    NextBranch(q, top.tail, [q.tail], r, DecisionsIn(orelse));
    JoinAdvances(p, top.tail, r, [q.tail] + [r.tail]);
    assert [q.tail] + [r.tail] == [q.tail, r.tail];
  }

  lemma TryCounts(n: Node, p: Path)
    requires Numbered(p) && n.TryExcept?
    ensures Advances(p, Walk(n, p), Decisions(n))
    decreases n, 0
  {
    var body, handlers := n.body, n.handlers;
    AppendAdvances(p);
    var top := Append(p);
    WalkListCounts(body, top);
    var q := WalkList(body, top);
    FirstBranch(top, q, DecisionsIn(body));
    HandlersCount(handlers, p, top.tail, q, [q.tail]);
    var (r, ends) := WalkHandlers(handlers, top.tail, q, [q.tail]);
    JoinAdvances(p, top.tail, r, ends);
  }

  /** A branch that goes straight to the join, as when there is no else. */
  lemma EmptyBranch(q: Path, top: nat, ends: seq<nat>)
    requires Loose(q, top, ends)
    ensures Loose(q, top, ends + [top]) && Pending(q, ends + [top]) == Pending(q, ends) + 1
  {
    var from := q.(tail := top);
    NextBranch(q, top, ends, from, 0);
    assert from.nodes == q.nodes;
  }

  lemma BodyCounts(body: seq<Node>, p: Path)
    requires Numbered(p)
    ensures var q := WalkList(body, Append(p)); Advances(p, Join(q, [q.tail, p.next]), 1 + DecisionsIn(body))
    decreases body, 1
  {
    AppendAdvances(p);
    var top := Append(p);
    WalkListCounts(body, top);
    var q := WalkList(body, top);
    FirstBranch(top, q, DecisionsIn(body));
    EmptyBranch(q, top.tail, [q.tail]);
    JoinAdvances(p, top.tail, q, [q.tail] + [top.tail]);
    assert [q.tail] + [top.tail] == [q.tail, p.next];
  }

  lemma {:induction false} WalkListCounts(list: seq<Node>, p: Path)
    requires Numbered(p)
    ensures Advances(p, WalkList(list, p), DecisionsIn(list))
    decreases list, 0
  {
    if list != [] {
      WalkCounts(list[0], p);
      var q := Walk(list[0], p);
      WalkListCounts(list[1..], q);
      GrowsOn(p, q, WalkList(list[1..], q), Decisions(list[0]), DecisionsIn(list[1..]));
    }
  }

  lemma {:induction false} HandlersCount(handlers: seq<Handler>, p: Path, top: nat, q: Path, ends: seq<nat>)
    requires Numbered(p) && Loose(q, top, ends) && p.tail in q.nodes && p.next <= top && p.next <= q.next
    requires p.nodes.Keys <= q.nodes.Keys && forall n :: n in q.nodes ==> n in p.nodes || n == p.tail || p.next <= n
    requires forall e :: e in ends ==> p.next <= e
    ensures var (r, all) := WalkHandlers(handlers, top, q, ends);
      && Loose(r, top, all) && p.tail in r.nodes && p.next <= r.next
      && p.nodes.Keys <= r.nodes.Keys && (forall n :: n in r.nodes ==> n in p.nodes || n == p.tail || p.next <= n)
      && (forall e :: e in all ==> p.next <= e)
      && Pending(r, all) == Pending(q, ends) + DecisionsOfHandlers(handlers)
    decreases handlers
  {
    if handlers != [] {
      var from := q.(tail := top);
      WalkListCounts(handlers[0].body, from);
      var r := WalkList(handlers[0].body, from);
      NextBranch(q, top, ends, r, DecisionsIn(handlers[0].body));
      HandlersCount(handlers[1..], p, top, r, ends + [r.tail]);
    }
  }

  /** The complexity of a function is 2 plus its decisions. */
  lemma FunctionComplexity(body: seq<Node>, start: nat)
    ensures Complexity(WalkList(body, Path(map[], start, start + 1)).nodes) == 2 + DecisionsIn(body)
  {
    var p := Path(map[], start, start + 1);
    assert Edges(p.nodes) == {} && p.nodes.Keys == {};
    WalkListCounts(body, p);
  }

  // ----- the nodes of the graph

  /** The nodes a visit creates: one for the statement itself, and for a branching one
      a second where its branches meet. */
  function Created(n: Node): nat
    decreases n
  {
    match n
    case Simple => 1
    case If(body, orelse) => 2 + CreatedIn(body) + CreatedIn(orelse)
    case Loop(_, body, _) => 2 + CreatedIn(body)
    case TryExcept(body, handlers, _) => 2 + CreatedIn(body) + CreatedInHandlers(handlers)
    case With(body) => 1 + CreatedIn(body)
    case FunctionDef(_, body) => 2 + CreatedIn(body)
    case ClassDef(_, body) => CreatedIn(body)
    case Other(children) => CreatedIn(children)
  }

  function CreatedIn(list: seq<Node>): nat
    decreases list
  {
    if list == [] then 0 else Created(list[0]) + CreatedIn(list[1..])
  }

  function CreatedInHandlers(handlers: seq<Handler>): nat
    decreases handlers
  {
    if handlers == [] then 0 else CreatedIn(handlers[0].body) + CreatedInHandlers(handlers[1..])
  }

  /** Every node from `base` on has an out-edge, but for the tail and loose ends. */
  predicate Covered(p: Path, base: nat, loose: set<nat>) {
    p.tail < p.next && forall m :: base <= m < p.next ==> m in p.nodes || m == p.tail || m in loose
  }

  lemma AppendCovers(p: Path, base: nat, loose: set<nat>)
    requires Covered(p, base, loose)
    ensures Covered(Append(p), base, loose)
  {}

  /** The branches joined are loose no more. */
  lemma JoinCovers(q: Path, base: nat, loose: set<nat>, ends: seq<nat>)
    requires Covered(q, base, loose + set e | e in ends) && q.tail in ends
    ensures Covered(Join(q, ends), base, loose) && Join(q, ends).next == q.next + 1
  {
    ConnectAllCounts(q.nodes, ends, q.next);
  }

  lemma {:induction false} WalkCovers(n: Node, p: Path, base: nat, loose: set<nat>)
    requires Covered(p, base, loose)
    ensures Covered(Walk(n, p), base, loose) && Walk(n, p).next == p.next + Created(n)
    decreases n, 1
  {
    match n {
      case Simple => AppendCovers(p, base, loose);
      case If(body, orelse) => IfCovers(n, p, base, loose);
      case Loop(_, body, _) => BodyCovers(body, p, base, loose);
      case FunctionDef(_, body) => BodyCovers(body, p, base, loose);
      case TryExcept(body, handlers, _) => TryCovers(n, p, base, loose);
      case With(body) =>
        AppendCovers(p, base, loose);
        WalkListCovers(body, Append(p), base, loose);
      case ClassDef(_, body) => WalkListCovers(body, p, base, loose);
      case Other(children) => WalkListCovers(children, p, base, loose);
    }
  }

  lemma IfCovers(n: Node, p: Path, base: nat, loose: set<nat>)
    requires n.If? && Covered(p, base, loose)
    ensures Covered(Walk(n, p), base, loose) && Walk(n, p).next == p.next + Created(n)
    decreases n, 0
  {
    if n.orelse == [] {
      BodyCovers(n.body, p, base, loose);
    } else {
      var top := Append(p);
      AppendCovers(p, base, loose);
      WalkListCovers(n.body, top, base, loose);
      var q := WalkList(n.body, top);
      var from := q.(tail := top.tail);
      WalkListCovers(n.orelse, from, base, loose + {q.tail});
      var r := WalkList(n.orelse, from);
      MoreLoose(r, base, loose + {q.tail}, loose + set e | e in [q.tail, r.tail]);
      JoinCovers(r, base, loose, [q.tail, r.tail]);
    }
  }

  lemma MoreLoose(p: Path, base: nat, loose: set<nat>, more: set<nat>)
    requires Covered(p, base, loose) && forall e :: e in loose ==> e in more
    ensures Covered(p, base, more)
  {}

  lemma BodyCovers(body: seq<Node>, p: Path, base: nat, loose: set<nat>)
    requires Covered(p, base, loose)
    ensures var q := Join(WalkList(body, Append(p)), [WalkList(body, Append(p)).tail, p.next]);
      Covered(q, base, loose) && q.next == p.next + 2 + CreatedIn(body)
    decreases body, 1
  {
    AppendCovers(p, base, loose);
    WalkListCovers(body, Append(p), base, loose);
    var q := WalkList(body, Append(p));
    MoreLoose(q, base, loose, loose + set e | e in [q.tail, p.next]);
    JoinCovers(q, base, loose, [q.tail, p.next]);
  }

  lemma TryCovers(n: Node, p: Path, base: nat, loose: set<nat>)
    requires n.TryExcept? && Covered(p, base, loose)
    ensures Covered(Walk(n, p), base, loose) && Walk(n, p).next == p.next + Created(n)
    decreases n, 0
  {
    var top := Append(p);
    AppendCovers(p, base, loose);
    WalkListCovers(n.body, top, base, loose);
    var q := WalkList(n.body, top);
    MoreLoose(q, base, loose, loose + set e | e in [q.tail]);
    HandlersCover(n.handlers, top.tail, q, [q.tail], base, loose);
    var (r, ends) := WalkHandlers(n.handlers, top.tail, q, [q.tail]);
    JoinCovers(r, base, loose, ends);
  }

  lemma {:induction false} WalkListCovers(list: seq<Node>, p: Path, base: nat, loose: set<nat>)
    requires Covered(p, base, loose)
    ensures Covered(WalkList(list, p), base, loose) && WalkList(list, p).next == p.next + CreatedIn(list)
    decreases list, 0
  {
    if list != [] {
      WalkCovers(list[0], p, base, loose);
      WalkListCovers(list[1..], Walk(list[0], p), base, loose);
    }
  }

  lemma {:induction false} HandlersCover(handlers: seq<Handler>, top: nat, q: Path, ends: seq<nat>, base: nat,
                                         loose: set<nat>)
    requires Covered(q, base, loose + set e | e in ends) && q.tail in ends && top < q.next
    ensures var (r, all) := WalkHandlers(handlers, top, q, ends);
      && Covered(r, base, loose + set e | e in all) && r.tail in all && r.next == q.next + CreatedInHandlers(handlers)
    decreases handlers
  {
    if handlers != [] {
      var from, some := q.(tail := top), loose + set e | e in ends;
      assert Covered(from, base, some);
      WalkListCovers(handlers[0].body, from, base, some);
      var r := WalkList(handlers[0].body, from);
      MoreLoose(r, base, some, loose + set e | e in ends + [r.tail]);
      HandlersCover(handlers[1..], top, r, ends + [r.tail], base, loose);
    }
  }

  function Numbers(start: nat, end: nat): (r: set<nat>)
    requires start <= end
    ensures |r| == end - start && forall m :: m in r <==> start <= m < end
    decreases end - start
  {
    if start == end then {} else Numbers(start, end - 1) + {end - 1}
  }

  lemma CoveredKeys(q: Path, start: nat)
    requires Covered(q, start, {}) && start <= q.tail && q.tail !in q.nodes
    requires forall n :: n in q.nodes ==> start <= n < q.next
    ensures q.nodes.Keys == Numbers(start, q.next) - {q.tail} && |q.nodes.Keys| == q.next - start - 1
  {
    AllBut(q.nodes.Keys, Numbers(start, q.next), q.tail);
  }

  lemma AllBut(some: set<nat>, all: set<nat>, x: nat)
    requires x in all && forall m: nat :: m in some <==> m in all && m != x
    ensures some == all - {x} && |some| == |all| - 1
  {
    assert all == some + {x};
    OneMore(some, all, x);
  }

  /** The graph of a function: of its first node and those its statements create,
      every one but the last tail has out-edges, and the edges are as many as the
      created nodes and the decisions together. */
  lemma FunctionShape(body: seq<Node>, start: nat)
    ensures var q := WalkList(body, Path(map[], start, start + 1));
      && q.next == start + 1 + CreatedIn(body) && start <= q.tail < q.next
      && q.nodes.Keys == Numbers(start, q.next) - {q.tail}
      && |Edges(q.nodes)| == CreatedIn(body) + DecisionsIn(body)
  {
    var p := Path(map[], start, start + 1);
    WalkListCovers(body, p, start, {});
    WalkListCounts(body, p);
    FunctionComplexity(body, start);
    CoveredKeys(WalkList(body, p), start);
  }

  // ----- outside functions

  /** The finished graphs, and the next fresh node. */
  datatype Found = Found(graphs: map<string, Nodes>, next: nat)

  /** The graph of a function, or of a loop outside functions. */
  function Record(key: string, body: seq<Node>, f: Found): Found {
    var q := WalkList(body, Path(map[], f.next, f.next + 1));
    Found(f.graphs[key := q.nodes], q.next)
  }

  function Scan(n: Node, prefix: string, f: Found): Found
    decreases n
  {
    match n
    case Simple => f
    case If(body, orelse) => ScanList(orelse, prefix, ScanList(body, prefix, f))
    case Loop(title, body, _) => Record(prefix + title, body, f)
    case TryExcept(body, handlers, _) => ScanHandlers(handlers, prefix, ScanList(body, prefix, f))
    case With(body) => ScanList(body, prefix, f)
    case FunctionDef(name, body) => Record(prefix + name, body, f)
    case ClassDef(name, body) => ScanList(body, prefix + name + ".", f)
    case Other(children) => ScanList(children, prefix, f)
  }

  function ScanList(list: seq<Node>, prefix: string, f: Found): Found
    decreases list
  {
    if list == [] then f else ScanList(list[1..], prefix, Scan(list[0], prefix, f))
  }

  function ScanHandlers(handlers: seq<Handler>, prefix: string, f: Found): Found
    decreases handlers
  {
    if handlers == [] then f else ScanHandlers(handlers[1..], prefix, ScanList(handlers[0].body, prefix, f))
  }

  // ----- the complexities of a module

  /** What is measured in a module, in the order of the walk: the key and the
      decisions of every function that is not inside another, and of every loop
      outside functions. */
  function Units(n: Node, prefix: string): seq<(string, nat)>
    decreases n
  {
    match n
    case Simple => []
    case If(body, orelse) => UnitsIn(body, prefix) + UnitsIn(orelse, prefix)
    case Loop(title, body, _) => [(prefix + title, DecisionsIn(body))]
    case TryExcept(body, handlers, _) => UnitsIn(body, prefix) + UnitsOfHandlers(handlers, prefix)
    case With(body) => UnitsIn(body, prefix)
    case FunctionDef(name, body) => [(prefix + name, DecisionsIn(body))]
    case ClassDef(name, body) => UnitsIn(body, prefix + name + ".")
    case Other(children) => UnitsIn(children, prefix)
  }

  function UnitsIn(list: seq<Node>, prefix: string): seq<(string, nat)>
    decreases list
  {
    if list == [] then [] else Units(list[0], prefix) + UnitsIn(list[1..], prefix)
  }

  function UnitsOfHandlers(handlers: seq<Handler>, prefix: string): seq<(string, nat)>
    decreases handlers
  {
    if handlers == [] then [] else UnitsIn(handlers[0].body, prefix) + UnitsOfHandlers(handlers[1..], prefix)
  }

  /** Later units replace earlier ones with the same key. */
  function Noted(m: map<string, int>, units: seq<(string, nat)>): map<string, int>
    decreases |units|
  {
    if units == [] then m else Noted(m[units[0].0 := 2 + units[0].1], units[1..])
  }

  function Complexities(graphs: map<string, Nodes>): map<string, int> { map k | k in graphs :: Complexity(graphs[k]) }

  lemma {:induction false} NotedSplit(m: map<string, int>, a: seq<(string, nat)>, b: seq<(string, nat)>)
    ensures Noted(m, a + b) == Noted(Noted(m, a), b)
    decreases |a|
  {
    if a == [] {
      assert a + b == b;
    } else {
      assert (a + b)[1..] == a[1..] + b;
      NotedSplit(m[a[0].0 := 2 + a[0].1], a[1..], b);
    }
  }

  lemma OneMoreGraph(graphs: map<string, Nodes>, key: string, nodes: Nodes)
    ensures Complexities(graphs[key := nodes]) == Complexities(graphs)[key := Complexity(nodes)]
  {}

  lemma NotedOnce(m: map<string, int>, key: string, decisions: nat)
    ensures Noted(m, [(key, decisions)]) == m[key := 2 + decisions]
  {
    assert [(key, decisions)][1..] == [];
  }

  lemma RecordNotes(key: string, body: seq<Node>, f: Found)
    ensures Complexities(Record(key, body, f).graphs) == Noted(Complexities(f.graphs), [(key, DecisionsIn(body))])
  {
    var nodes := WalkList(body, Path(map[], f.next, f.next + 1)).nodes;
    assert Record(key, body, f).graphs == f.graphs[key := nodes];
    FunctionComplexity(body, f.next);
    OneMoreGraph(f.graphs, key, nodes);
    NotedOnce(Complexities(f.graphs), key, DecisionsIn(body));
  }

  /** In any module every measured function has complexity 2 plus the ifs, loops,
      except handlers and closures visited in it. */
  lemma {:induction false} ScanNotes(n: Node, prefix: string, f: Found)
    ensures Complexities(Scan(n, prefix, f).graphs) == Noted(Complexities(f.graphs), Units(n, prefix))
    decreases n
  {
    match n {
      case Simple =>
      case If(body, orelse) =>
        ScanListNotes(body, prefix, f);
        ScanListNotes(orelse, prefix, ScanList(body, prefix, f));
        NotedSplit(Complexities(f.graphs), UnitsIn(body, prefix), UnitsIn(orelse, prefix));
      case Loop(title, body, _) => RecordNotes(prefix + title, body, f);
      case TryExcept(body, handlers, _) =>
        ScanListNotes(body, prefix, f);
        ScanHandlersNotes(handlers, prefix, ScanList(body, prefix, f));
        NotedSplit(Complexities(f.graphs), UnitsIn(body, prefix), UnitsOfHandlers(handlers, prefix));
      case With(body) => ScanListNotes(body, prefix, f);
      case FunctionDef(name, body) => RecordNotes(prefix + name, body, f);
      case ClassDef(name, body) => ScanListNotes(body, prefix + name + ".", f);
      case Other(children) => ScanListNotes(children, prefix, f);
    }
  }

  lemma {:induction false} ScanListNotes(list: seq<Node>, prefix: string, f: Found)
    ensures Complexities(ScanList(list, prefix, f).graphs) == Noted(Complexities(f.graphs), UnitsIn(list, prefix))
    decreases list
  {
    if list != [] {
      ScanNotes(list[0], prefix, f);
      ScanListNotes(list[1..], prefix, Scan(list[0], prefix, f));
      NotedSplit(Complexities(f.graphs), Units(list[0], prefix), UnitsIn(list[1..], prefix));
    }
  }

  lemma {:induction false} ScanHandlersNotes(handlers: seq<Handler>, prefix: string, f: Found)
    ensures Complexities(ScanHandlers(handlers, prefix, f).graphs) ==
      Noted(Complexities(f.graphs), UnitsOfHandlers(handlers, prefix))
    decreases handlers
  {
    if handlers != [] {
      var body := handlers[0].body;
      ScanListNotes(body, prefix, f);
      ScanHandlersNotes(handlers[1..], prefix, ScanList(body, prefix, f));
      NotedSplit(Complexities(f.graphs), UnitsIn(body, prefix), UnitsOfHandlers(handlers[1..], prefix));
    }
  }

  // ----- the visitor

  datatype State =
    | Inside(path: Path, classname: string, graphs: map<string, Nodes>)
    | Outside(found: Found, classname: string)

  function Visit(n: Node, s: State): State {
    match s
    case Inside(path, _, _) => s.(path := Walk(n, path))
    case Outside(found, classname) => s.(found := Scan(n, classname, found))
  }

  function VisitList(list: seq<Node>, s: State): State {
    match s
    case Inside(path, _, _) => s.(path := WalkList(list, path))
    case Outside(found, classname) => s.(found := ScanList(list, classname, found))
  }

  function Appended(s: State): State
    requires s.Inside?
  {
    s.(path := Append(s.path))
  }

  function Moved(s: State, tail: Option<nat>): State {
    if s.Inside? && tail.Some? then s.(path := s.path.(tail := tail.value)) else s
  }

  function Joined(s: State, ends: seq<nat>): State
    requires s.Inside?
  {
    s.(path := Join(s.path, ends))
  }

  predicate AllSome(ends: seq<Option<nat>>) { forall i :: 0 <= i < |ends| ==> ends[i].Some? }

  function Values(ends: seq<Option<nat>>): seq<nat>
    requires AllSome(ends)
  {
    if ends == [] then [] else [ends[0].value] + Values(ends[1..])
  }

  lemma {:induction false} ValuesOfOneMore(ends: seq<Option<nat>>, e: nat)
    requires AllSome(ends)
    ensures AllSome(ends + [Some(e)]) && Values(ends + [Some(e)]) == Values(ends) + [e]
  {
    if ends == [] {
      assert Values(([Some(e)])[1..]) == [];
    } else {
      assert (ends + [Some(e)])[1..] == ends[1..] + [Some(e)];
      ValuesOfOneMore(ends[1..], e);
    }
  }

  lemma ValuesOfTwo(ends: seq<Option<nat>>)
    requires |ends| == 2 && ends[0].Some? && ends[1].Some?
    ensures AllSome(ends) && Values(ends) == [ends[0].value, ends[1].value]
  {
    assert Values(ends) == [ends[0].value] + Values(ends[1..]);
    assert Values(ends[1..]) == [ends[1].value] + Values(ends[1..][1..]);
    assert ends[1..][1..] == [];
  }

  lemma ConnectBoth(nodes: Nodes, a: nat, b: nat, bottom: nat)
    ensures ConnectAll(nodes, [a, b], bottom) == Connected(Connected(nodes, a, bottom), b, bottom)
  {
    assert [a, b][1..] == [b] && [b][1..] == [];
    assert ConnectAll(Connected(nodes, a, bottom), [b], bottom) ==
      ConnectAll(Connected(Connected(nodes, a, bottom), b, bottom), [], bottom);
  }

  /** Where the handlers of a try lead, and their loose ends. */
  function VisitHandlers(handlers: seq<Handler>, top: Option<nat>, s: State, ends: seq<Option<nat>>): (State, seq<nat>)
    requires s.Inside? ==> top.Some? && AllSome(ends)
  {
    match s
    case Inside(path, _, _) =>
      var (r, all) := WalkHandlers(handlers, top.value, path, Values(ends));
      (s.(path := r), all)
    case Outside(found, classname) => (s.(found := ScanHandlers(handlers, classname, found)), [])
  }

  lemma NextHandler(handlers: seq<Handler>, top: Option<nat>, s: State, ends: seq<Option<nat>>)
    requires handlers != [] && (s.Inside? ==> top.Some? && AllSome(ends))
    ensures var after := VisitList(handlers[0].body, Moved(s, top));
      var more := ends + [if s.Inside? then Some(after.path.tail) else None];
      && (s.Inside? ==> AllSome(more))
      && VisitHandlers(handlers, top, s, ends) == VisitHandlers(handlers[1..], top, after, more)
  {
    if s.Inside? {
      var q := WalkList(handlers[0].body, s.path.(tail := top.value));
      ValuesOfOneMore(ends, q.tail);
    }
  }

  /** Visiting an if or a try, in terms of the visits of its blocks. */
  lemma VisitedIf(n: Node, s: State)
    requires n.If?
    ensures s.Outside? ==> Visit(n, s) == VisitList(n.orelse, VisitList(n.body, s))
    ensures s.Inside? ==>
      var top := Appended(s);
      var a := VisitList(n.body, top);
      var b := VisitList(n.orelse, Moved(a, Some(top.path.tail)));
      Visit(n, s) ==
        if n.orelse == [] then Joined(a, [a.path.tail, top.path.tail])
        else Joined(b, [a.path.tail, b.path.tail])
  {}

  lemma VisitedTry(n: Node, s: State)
    requires n.TryExcept?
    ensures s.Outside? ==> Visit(n, s) == VisitHandlers(n.handlers, None, VisitList(n.body, s), [None]).0
    ensures s.Inside? ==>
      var top := Appended(s);
      var a := VisitList(n.body, top);
      var (b, ends) := VisitHandlers(n.handlers, Some(top.path.tail), a, [Some(a.path.tail)]);
      Visit(n, s) == Joined(b, ends)
  {
    if s.Inside? {
      var a := VisitList(n.body, Appended(s));
      var ends := [Some(a.path.tail)];
      assert ends == [] + [Some(a.path.tail)];
      ValuesOfOneMore([], a.path.tail);
      assert Values(ends) == [a.path.tail];
    }
  }

  class Visitor {
    var graph: PathGraph?
    var tail: Option<nat>
    var next: nat
    var classname: string
    var graphs: map<string, PathGraph>

    ghost predicate Valid()
      reads this
    {
      (graph == null <==> tail == None) && graph !in graphs.Values
    }

    ghost function Current(): set<object>
      reads this
    {
      if graph == null then {} else {graph}
    }

    ghost function Finished(): map<string, Nodes>
      reads this, graphs.Values
    {
      map k | k in graphs :: graphs[k].nodes
    }

    ghost function State(): State
      requires Valid()
      reads this, graphs.Values, graph
    {
      if graph == null then Outside(Found(Finished(), next), classname)
      else Inside(Path(graph.nodes, tail.value, next), classname, Finished())
    }

    constructor ()
      ensures Valid() && State() == Outside(Found(map[], 0), "")
    {
      graph, tail, next, classname, graphs := null, None, 0, "", map[];
    }

    method NewNode() returns (node: nat)
      modifies this`next
      ensures node == old(next) && next == old(next) + 1
    {
      node := next;
      next := next + 1;
    }

    method AppendPathNode() returns (node: Option<nat>)
      requires Valid()
      modifies this, Current()
      ensures Valid() && graph == old(graph)
      ensures old(graph) == null ==> node == None && State() == old(State())
      ensures old(graph) != null ==> node == tail && State() == Appended(old(State()))
    {
      if tail == None { return None; }
      var created := NewNode();
      graph.Connect(tail.value, created);
      tail := Some(created);
      node := tail;
    }

    /** The two edges that end a loop or a closure. */
    method Close(top: Option<nat>)
      requires Valid() && graph != null && top.Some?
      modifies this, Current()
      ensures Valid() && graph == old(graph)
      ensures State() == Joined(old(State()), [old(tail).value, top.value])
    {
      var bottom := NewNode();
      ConnectBoth(graph.nodes, tail.value, top.value, bottom);
      graph.Connect(tail.value, bottom);
      graph.Connect(top.value, bottom);
      tail := Some(bottom);
    }

    /** The end of an if or a try: nothing happens outside functions. */
    method Meet(top: Option<nat>, looseEnds: seq<Option<nat>>)
      requires Valid() && (top == None <==> graph == null)
      requires top.Some? ==> AllSome(looseEnds)
      modifies this, Current()
      ensures Valid() && graph == old(graph)
      ensures State() == if top == None then old(State()) else Joined(old(State()), Values(looseEnds))
    {
      if top == None { return; }
      var bottom := NewNode();
      for i := 0 to |looseEnds|
        invariant Valid() && graph == old(graph) && tail == old(tail) && classname == old(classname) &&
          graphs == old(graphs)
        invariant next == old(next) + 1 && Finished() == old(Finished())
        invariant ConnectAll(graph.nodes, Values(looseEnds[i..]), bottom) ==
          ConnectAll(old(graph.nodes), Values(looseEnds), bottom)
      {
        assert looseEnds[i..][1..] == looseEnds[i + 1..];
        graph.Connect(looseEnds[i].value, bottom);
      }
      tail := Some(bottom);
    }

    method VisitSimpleStatement()
      requires Valid()
      modifies this, Current()
      ensures Valid() && graph == old(graph) && State() == Visit(Simple, old(State()))
    {
      var _ := AppendPathNode();
    }

    method DispatchList(list: seq<Node>)
      requires Valid()
      modifies this, Current()
      ensures Valid() && graph == old(graph) && State() == VisitList(list, old(State()))
      decreases list, 0
    {
      for i := 0 to |list|
        invariant Valid() && graph == old(graph)
        invariant VisitList(list[i..], State()) == VisitList(list, old(State()))
      {
        assert list[i..][1..] == list[i + 1..];
        Dispatch(list[i]);
      }
    }

    method SetTail(node: Option<nat>)
      requires Valid() && (node == None <==> graph == null)
      modifies this`tail
      ensures Valid() && tail == node
      ensures State() == Moved(old(State()), node)
    {
      tail := node;
    }

    method SetClassname(name: string)
      requires Valid()
      modifies this`classname
      ensures Valid() && State() == old(State()).(classname := name)
    {
      classname := name;
    }

    method Begin()
      requires Valid() && graph == null
      modifies this
      ensures Valid() && fresh(graph) && classname == old(classname)
      ensures State() == Inside(Path(map[], old(next), old(next) + 1), classname, old(Finished()))
    {
      graph := new PathGraph();
      var top := NewNode();
      tail := Some(top);
    }

    method Finish(key: string)
      requires Valid() && graph != null
      modifies this
      ensures Valid() && graph == null && classname == old(classname)
      ensures State() == Outside(Found(old(Finished())[key := old(graph).nodes], old(next)), classname)
    {
      graphs := graphs[key := graph];
      graph, tail := null, None;
    }

    /** A function, or a loop, outside functions. */
    method NewGraph(key: string, body: seq<Node>)
      requires Valid() && graph == null
      modifies this
      ensures Valid() && graph == null
      ensures State() == Outside(Record(old(classname) + key, body, old(State()).found), old(classname))
      decreases body, 1
    {
      Begin();
      DispatchList(body);
      Finish(classname + key);
    }

    /** A closure, or a loop in a function. */
    method Nested(body: seq<Node>)
      requires Valid() && graph != null
      modifies this, Current()
      ensures Valid() && graph == old(graph)
      ensures old(State()).Inside? &&
        State() == Joined(VisitList(body, Appended(old(State()))),
                          [VisitList(body, Appended(old(State()))).path.tail, old(next)])
      decreases body, 1
    {
      var top := AppendPathNode();
      DispatchList(body);
      Close(top);
    }

    method VisitIf(n: Node)
      requires Valid() && n.If?
      modifies this, Current()
      ensures Valid() && graph == old(graph) && State() == Visit(n, old(State()))
      decreases n, 0
    {
      var top := AppendPathNode();
      DispatchList(n.body);
      var looseEnds := [tail];
      if n.orelse != [] {
        SetTail(top);
        DispatchList(n.orelse);
        looseEnds := looseEnds + [tail];
      } else {
        looseEnds := looseEnds + [top];
      }
      VisitedIf(n, old(State()));
      if top.Some? { ValuesOfTwo(looseEnds); }
      Meet(top, looseEnds);
    }

    method VisitTryExcept(n: Node)
      requires Valid() && n.TryExcept?
      modifies this, Current()
      ensures Valid() && graph == old(graph) && State() == Visit(n, old(State()))
      decreases n, 0
    {
      var top := AppendPathNode();
      DispatchList(n.body);
      var looseEnds := [tail];
      ghost var first, firstEnds := State(), looseEnds;
      for i := 0 to |n.handlers|
        invariant Valid() && graph == old(graph)
        invariant graph != null ==> AllSome(looseEnds)
        invariant VisitHandlers(n.handlers[i..], top, State(), looseEnds) ==
          VisitHandlers(n.handlers, top, first, firstEnds)
      {
        NextHandler(n.handlers[i..], top, State(), looseEnds);
        assert n.handlers[i..][1..] == n.handlers[i + 1..];
        SetTail(top);
        DispatchList(n.handlers[i].body);
        looseEnds := looseEnds + [tail];
      }
      VisitedTry(n, old(State()));
      assert n.handlers[|n.handlers|..] == [];
      Meet(top, looseEnds);
    }

    method VisitClassDef(name: string, body: seq<Node>)
      requires Valid()
      modifies this, Current()
      ensures Valid() && graph == old(graph) && State() == Visit(ClassDef(name, body), old(State()))
      decreases body, 1
    {
      var before := classname;
      SetClassname(classname + name + ".");
      DispatchList(body);
      SetClassname(before);
    }

    method Dispatch(n: Node)
      requires Valid()
      modifies this, Current()
      ensures Valid() && graph == old(graph) && State() == Visit(n, old(State()))
      decreases n, 1
    {
      match n {
        case Simple => VisitSimpleStatement();
        case If(_, _) => VisitIf(n);
        case Loop(title, body, _) => if graph == null { NewGraph(title, body); } else { Nested(body); }
        case TryExcept(_, _, _) => VisitTryExcept(n);
        case With(body) => var _ := AppendPathNode(); DispatchList(body);
        case FunctionDef(name, body) => if graph == null { NewGraph(name, body); } else { Nested(body); }
        case ClassDef(name, body) => VisitClassDef(name, body);
        case Other(children) => DispatchList(children);
      }
    }
  }

  // ----- the checker

  function AtLeast(all: map<string, int>, threshold: int): map<string, int> {
    map k | k in all && all[k] >= threshold :: all[k]
  }

  /** The keys reported for a module, and their complexities: those of at least
      the threshold, and none at all when it is negative. */
  method Run(tree: Node, threshold: int) returns (reported: map<string, int>)
    ensures reported == if threshold < 0 then map[] else AtLeast(Noted(map[], Units(tree, "")), threshold)
  {
    if threshold < 0 { return map[]; }
    var graphs := GraphsOf(tree);
    ScanNotes(tree, "", Found(map[], 0));
    NoGraphs();
    reported := Report(graphs, threshold);
  }

  lemma NoGraphs()
    ensures Complexities(map[]) == map[]
  {}

  method GraphsOf(tree: Node) returns (graphs: map<string, Nodes>)
    ensures graphs == Scan(tree, "", Found(map[], 0)).graphs
  {
    var visitor := new Visitor();
    visitor.Dispatch(tree);
    graphs := map k | k in visitor.graphs :: visitor.graphs[k].nodes;
    assert graphs == visitor.Finished();
  }

  /** What is reported once the keys outside `todo` are done. */
  ghost function Reported(all: map<string, int>, todo: set<string>, threshold: int): map<string, int> {
    map k | k in all && k !in todo && all[k] >= threshold :: all[k]
  }

  lemma ReportStep(all: map<string, int>, todo: set<string>, key: string, threshold: int)
    requires key in todo && key in all
    ensures Reported(all, todo - {key}, threshold) ==
      if all[key] >= threshold then Reported(all, todo, threshold)[key := all[key]] else Reported(all, todo, threshold)
  {}

  lemma ReportEnds(all: map<string, int>, threshold: int)
    ensures Reported(all, all.Keys, threshold) == map[] && Reported(all, {}, threshold) == AtLeast(all, threshold)
  {}

  method Report(graphs: map<string, Nodes>, threshold: int) returns (reported: map<string, int>)
    ensures reported == AtLeast(Complexities(graphs), threshold)
  {
    reported := map[];
    ghost var all := Complexities(graphs);
    assert all.Keys == graphs.Keys;
    ReportEnds(all, threshold);
    var todo := graphs.Keys;
    while todo != {}
      invariant todo <= graphs.Keys && reported == Reported(all, todo, threshold)
      decreases |todo|
    {
      var key :| key in todo;
      var complexity := ComputeComplexity(graphs[key]);
      assert all[key] == complexity;
      ReportStep(all, todo, key, threshold);
      if complexity >= threshold { reported := reported[key := complexity]; }
      todo := todo - {key};
    }
  }
}
