/**
 * simulate: load the nodes, link each to its neighbours, then give every node
 * one execute_next, in list order. The source lines the loader collects are
 * never parsed, so every node's program is empty and that step changes no
 * register.
 */
module Simulator {
  import opened Options
  import opened Execution
  import opened Nodes
  import opened Grid
  import opened Loader

  /**
   * The last loop of simulate: one step for each node, in list order. A node
   * sees only its own registers, so each ends one step on from where it began.
   */
  method ExecuteAll(nodes: seq<Node>)
    requires Distinct(nodes)
    requires forall k :: 0 <= k < |nodes| ==> Executable(nodes[k].code, nodes[k].Regs())
    modifies nodes`acc, nodes`bak, nodes`pc
    ensures forall k :: 0 <= k < |nodes| ==> nodes[k].Regs() == Step(nodes[k].code, old(nodes[k].Regs()))
  {
    for i := 0 to |nodes|
      invariant forall k :: 0 <= k < i ==> nodes[k].Regs() == Step(nodes[k].code, old(nodes[k].Regs()))
      invariant forall k :: i <= k < |nodes| ==> nodes[k].Regs() == old(nodes[k].Regs())
    {
      nodes[i].ExecuteNext();
    }
  }

  /**
   * simulate() on the lines of the node file: the loaded nodes, linked and
   * stepped once, or the error load_nodes raises. Every node keeps its
   * coordinates and lines, gets the adjacency build_io_tables computes, and
   * ends with acc, bak and pc still 0, because its code is empty.
   */
  method Simulate(content: seq<string>) returns (r: Result<seq<Node>, LoadError>)
    ensures r.Success? <==> Load(content).Success?
    ensures r.Failure? ==> r.error == Load(content).error
    ensures r.Success? ==> |r.value| == |Load(content).value| && Distinct(r.value)
    ensures r.Success? ==> forall k :: 0 <= k < |r.value| ==>
      var n := r.value[k];
      var b := Load(content).value[k];
      n.xpos == b.x && n.ypos == b.y && n.lines == b.lines && n.code == [] && n.isValid &&
      n.Regs() == Registers(0, 0, 0) &&
      n.adjacency == Neighbours(r.value, n, NoNeighbours())
  {
    r := LoadNodes(content);
    if r.Failure? {
      return;
    }
    LinkAndStep(r.value);
  }

  /** The part of simulate after loading, on nodes fresh from load_nodes. */
  method LinkAndStep(nodes: seq<Node>)
    requires Distinct(nodes)
    requires forall k :: 0 <= k < |nodes| ==> Untouched(nodes[k])
    modifies nodes`adjacency, nodes`acc, nodes`bak, nodes`pc
    ensures forall k :: 0 <= k < |nodes| ==>
      nodes[k].code == [] && nodes[k].isValid && nodes[k].Regs() == Registers(0, 0, 0) &&
      nodes[k].adjacency == Neighbours(nodes, nodes[k], NoNeighbours())
  {
    BuildIoTables(nodes);
    ExecuteAll(nodes);
  }
}
