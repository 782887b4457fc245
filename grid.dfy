/**
 * build_io_tables: every node looks through the whole node list and records,
 * under LEFT, RIGHT, UP and DOWN, the nodes one step away from it. The nested
 * loop writes the adjacency maps in place; Neighbours says what one node's
 * map becomes, and the lemmas say which node ends up under each direction.
 */
module Grid {
  import opened Options
  import opened Nodes

  /** The grid position one step from (x, y) in direction d; y grows downwards. */
  function Beside(x: int, y: int, d: Direction): (int, int) {
    match d
    case Left => (x - 1, y)
    case Right => (x + 1, y)
    case Up => (x, y - 1)
    case Down => (x, y + 1)
  }

  /**
   * The elif chain of the inner loop: the direction under which checking is
   * recorded for current, or None when checking is not one step away.
   */
  function Match(current: Node, checking: Node): (r: Option<Direction>)
    ensures r.Some? ==> (checking.xpos, checking.ypos) == Beside(current.xpos, current.ypos, r.value)
    ensures r.None? ==> forall d: Direction :: (checking.xpos, checking.ypos) != Beside(current.xpos, current.ypos, d)
  {
    if checking.xpos == current.xpos - 1 && checking.ypos == current.ypos then Some(Left)
    else if checking.xpos == current.xpos + 1 && checking.ypos == current.ypos then Some(Right)
    else if checking.ypos == current.ypos - 1 && checking.xpos == current.xpos then Some(Up)
    else if checking.ypos == current.ypos + 1 && checking.xpos == current.xpos then Some(Down)
    else None
  }

  /** The order of the elif chain does not matter: each position one step away has exactly one direction. */
  lemma MatchIff(current: Node, checking: Node, d: Direction)
    ensures Match(current, checking) == Some(d) <==> (checking.xpos, checking.ypos) == Beside(current.xpos, current.ypos, d)
  {
  }

  /** A node is never one step away from itself. */
  lemma NeverOwnNeighbour(n: Node)
    ensures Match(n, n) == None
  {
  }

  /** current's adjacency map after the inner loop has looked at the nodes of checking, in order. */
  function Neighbours(checking: seq<Node>, current: Node, adj: map<Direction, Node?>): map<Direction, Node?> {
    if checking == [] then adj
    else
      var before := Neighbours(checking[..|checking| - 1], current, adj);
      var last := checking[|checking| - 1];
      match Match(current, last)
      case Some(d) => before[d := last]
      case None => before
  }

  /** The position of the last node in ns that sits in direction d of current. */
  function LastAt(ns: seq<Node>, current: Node, d: Direction): (r: Option<nat>)
    ensures r.Some? ==> r.value < |ns| && Match(current, ns[r.value]) == Some(d)
    ensures r.Some? ==> forall j :: r.value < j < |ns| ==> Match(current, ns[j]) != Some(d)
    ensures r.None? ==> forall j :: 0 <= j < |ns| ==> Match(current, ns[j]) != Some(d)
  {
    if ns == [] then None
    else if Match(current, ns[|ns| - 1]) == Some(d) then Some(|ns| - 1)
    else LastAt(ns[..|ns| - 1], current, d)
  }

  /**
   * The entry under d is the last node in list order one step away in that
   * direction, and the prior entry when there is none.
   */
  lemma {:induction false} NeighbourIsLastMatch(ns: seq<Node>, current: Node, adj: map<Direction, Node?>, d: Direction)
    requires d in adj
    ensures d in Neighbours(ns, current, adj)
    ensures Neighbours(ns, current, adj)[d] == match LastAt(ns, current, d) { case Some(i) => ns[i] case None => adj[d] }
  {
    if ns != [] {
      NeighbourIsLastMatch(ns[..|ns| - 1], current, adj, d);
    }
  }

  /** Directions already present stay present, and no other direction appears than one matched. */
  lemma {:induction false} NeighboursKeys(ns: seq<Node>, current: Node, adj: map<Direction, Node?>)
    requires AllDirections <= adj.Keys
    ensures Neighbours(ns, current, adj).Keys == adj.Keys
  {
    if ns != [] {
      NeighboursKeys(ns[..|ns| - 1], current, adj);
    }
  }

  /** Running the inner loop a second time over the same list changes nothing. */
  lemma NeighboursIdempotent(ns: seq<Node>, current: Node, adj: map<Direction, Node?>)
    requires AllDirections <= adj.Keys
    ensures Neighbours(ns, current, Neighbours(ns, current, adj)) == Neighbours(ns, current, adj)
  {
    var once := Neighbours(ns, current, adj);
    var twice := Neighbours(ns, current, once);
    NeighboursKeys(ns, current, adj);
    NeighboursKeys(ns, current, once);
    forall d | d in twice
      ensures twice[d] == once[d]
    {
      NeighbourIsLastMatch(ns, current, adj, d);
      NeighbourIsLastMatch(ns, current, once, d);
    }
  }

  /** No node ends up as its own neighbour unless it was already there before. */
  lemma NoSelfNeighbour(ns: seq<Node>, n: Node, adj: map<Direction, Node?>, d: Direction)
    requires d in adj && adj[d] != n
    ensures d in Neighbours(ns, n, adj) && Neighbours(ns, n, adj)[d] != n
  {
    NeighbourIsLastMatch(ns, n, adj, d);
  }

  /** No two nodes of the list share a grid position. */
  predicate UniquePositions(ns: seq<Node>) {
    forall i, j :: 0 <= i < j < |ns| ==> (ns[i].xpos, ns[i].ypos) != (ns[j].xpos, ns[j].ypos)
  }

  /**
   * With unique positions and an empty starting map, b is under d exactly when
   * b is in the list and one step away from current in direction d.
   */
  lemma EntryIff(ns: seq<Node>, current: Node, d: Direction, b: Node)
    requires UniquePositions(ns)
    ensures d in Neighbours(ns, current, NoNeighbours())
    ensures Neighbours(ns, current, NoNeighbours())[d] == b <==> b in ns && Match(current, b) == Some(d)
  {
    NeighbourIsLastMatch(ns, current, NoNeighbours(), d);
    if b in ns && Match(current, b) == Some(d) {
      var k :| 0 <= k < |ns| && ns[k] == b;
      match LastAt(ns, current, d)
      case None =>
      case Some(i) =>
        if i != k {
          MatchIff(current, ns[i], d);
          MatchIff(current, b, d);
        }
    }
  }

  /** With unique positions: a's RIGHT is b exactly when b's LEFT is a. */
  lemma RightLeftSymmetric(ns: seq<Node>, a: Node, b: Node)
    requires UniquePositions(ns) && a in ns && b in ns
    ensures Right in Neighbours(ns, a, NoNeighbours()) && Left in Neighbours(ns, b, NoNeighbours())
    ensures Neighbours(ns, a, NoNeighbours())[Right] == b <==> Neighbours(ns, b, NoNeighbours())[Left] == a
  {
    EntryIff(ns, a, Right, b);
    EntryIff(ns, b, Left, a);
    MatchIff(a, b, Right);
    MatchIff(b, a, Left);
  }

  /** With unique positions: a's DOWN is b exactly when b's UP is a. */
  lemma DownUpSymmetric(ns: seq<Node>, a: Node, b: Node)
    requires UniquePositions(ns) && a in ns && b in ns
    ensures Down in Neighbours(ns, a, NoNeighbours()) && Up in Neighbours(ns, b, NoNeighbours())
    ensures Neighbours(ns, a, NoNeighbours())[Down] == b <==> Neighbours(ns, b, NoNeighbours())[Up] == a
  {
    EntryIff(ns, a, Down, b);
    EntryIff(ns, b, Up, a);
    MatchIff(a, b, Down);
    MatchIff(b, a, Up);
  }

  /**
   * The inner loop for one node: every node of the list, in order, is
   * recorded under the direction in which it sits one step away, if any.
   */
  method AssignNeighbours(nodes: seq<Node>, current: Node)
    modifies current`adjacency
    ensures current.adjacency == Neighbours(nodes, current, old(current.adjacency))
  {
    for j := 0 to |nodes|
      invariant current.adjacency == Neighbours(nodes[..j], current, old(current.adjacency))
    {
      var checking := nodes[j];
      assert nodes[..j + 1][..j] == nodes[..j];
      if checking.xpos == current.xpos - 1 && checking.ypos == current.ypos {
        current.adjacency := current.adjacency[Left := checking];
      } else if checking.xpos == current.xpos + 1 && checking.ypos == current.ypos {
        current.adjacency := current.adjacency[Right := checking];
      } else if checking.ypos == current.ypos - 1 && checking.xpos == current.xpos {
        current.adjacency := current.adjacency[Up := checking];
      } else if checking.ypos == current.ypos + 1 && checking.xpos == current.xpos {
        current.adjacency := current.adjacency[Down := checking];
      }
    }
    assert nodes[..|nodes|] == nodes;
  }

  /**
   * The outer loop: each node in list order fills in its own adjacency map.
   * Only adjacency maps change; a node listed twice gets the same map both times.
   */
  method BuildIoTables(nodes: seq<Node>)
    requires forall k :: 0 <= k < |nodes| ==> AllDirections <= nodes[k].adjacency.Keys
    modifies nodes`adjacency
    ensures forall k :: 0 <= k < |nodes| ==> nodes[k].adjacency == Neighbours(nodes, nodes[k], old(nodes[k].adjacency))
  {
    for i := 0 to |nodes|
      invariant forall k :: 0 <= k < |nodes| ==>
        nodes[k].adjacency == if nodes[k] in nodes[..i] then Neighbours(nodes, nodes[k], old(nodes[k].adjacency)) else old(nodes[k].adjacency)
    {
      var current := nodes[i];
      ghost var original := old(current.adjacency);
      if current in nodes[..i] {
        NeighboursIdempotent(nodes, current, original);
      }
      AssignNeighbours(nodes, current);
      assert nodes[..i + 1] == nodes[..i] + [current];
    }
  }
}
