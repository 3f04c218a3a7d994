/**
 * The automaton graph shared by the NFA and the DFA (src/node.rs).
 *
 * A node is owned by value by the map that stores it and is never aliased, so
 * `Node` and `Edge` are datatypes and their mutators return the updated value.
 * The process-wide id counter becomes the `counter` field of the graph that
 * owns the nodes; `Graph` is that arena.
 */
module Automaton {
  import opened Strings
  import Ordered

  /** The label that marks an epsilon edge. */
  const Lambda: string := "<λ>"

  /** An edge: source id, destination id and a label whose characters it accepts. */
  datatype Edge = Edge(from: nat, to: nat, name: string) {

    /** `Edge::push`: append one character to the label. */
    function Push(ch: char): (e: Edge)
      ensures e.from == from && e.to == to
      ensures |e.name| == |name| + 1 && e.name[..|name|] == name && e.name[|name|] == ch
    {
      Edge(from, to, name + [ch])
    }
  }

  /** A node: name, ordered outgoing edges, identifier and terminal flag. */
  datatype Node = Node(name: string, outgoing: seq<Edge>, id: nat, terminal: bool) {

    /** `Node::set_name`: only the name changes. */
    function SetName(newName: string): (n: Node)
      ensures n.name == newName
      ensures n.outgoing == outgoing && n.id == id && n.terminal == terminal
    {
      this.(name := newName)
    }

    /** `Node::set_terminal`: only the terminal flag changes. */
    function SetTerminal(flag: bool): (n: Node)
      ensures n.terminal == flag
      ensures n.outgoing == outgoing && n.id == id && n.name == name
    {
      this.(terminal := flag)
    }

    /**
     * `Node::add_outgoing_edge`: exactly one edge, from this node, is appended;
     * the earlier edges, the name, the id and the flag are kept.
     */
    function AddOutgoingEdge(to: nat, sym: string): (n: Node)
      ensures |n.outgoing| == |outgoing| + 1
      ensures n.outgoing[..|outgoing|] == outgoing
      ensures n.outgoing[|outgoing|] == Edge(id, to, sym)
      ensures n.name == name && n.id == id && n.terminal == terminal
    {
      this.(outgoing := outgoing + [Edge(id, to, sym)])
    }

    /** `Edge::push` applied to the `k`-th outgoing edge in place. */
    function PushToEdge(k: nat, ch: char): (n: Node)
      requires k < |outgoing|
      ensures |n.outgoing| == |outgoing|
      ensures n.outgoing[k] == outgoing[k].Push(ch)
      ensures forall j :: 0 <= j < |outgoing| && j != k ==> n.outgoing[j] == outgoing[j]
      ensures n.name == name && n.id == id && n.terminal == terminal
    {
      this.(outgoing := outgoing[k := outgoing[k].Push(ch)])
    }
  }

  /** Every node is stored under its own id and owns the edges that leave it. */
  predicate WellKeyed(nodes: map<nat, Node>) {
    forall id :: id in nodes ==>
      && nodes[id].id == id
      && forall e :: e in nodes[id].outgoing ==> e.from == id
  }

  /** Every edge ends at a stored node. */
  predicate Closed(nodes: map<nat, Node>) {
    forall id, e :: id in nodes && e in nodes[id].outgoing ==> e.to in nodes
  }

  /** Ids 1..counter only, each node stored under its own id, every edge target stored. */
  ghost predicate ValidGraph(nodes: map<nat, Node>, counter: nat) {
    && WellKeyed(nodes)
    && Closed(nodes)
    && forall id :: id in nodes ==> 1 <= id <= counter
  }

  lemma ValidAddNode(nodes: map<nat, Node>, counter: nat, n: Node)
    requires ValidGraph(nodes, counter) && n.id == counter + 1 && n.outgoing == []
    ensures ValidGraph(nodes[n.id := n], counter + 1)
  {
  }

  lemma ValidAddEdge(nodes: map<nat, Node>, counter: nat, from: nat, to: nat, sym: string)
    requires ValidGraph(nodes, counter) && from in nodes && to in nodes
    ensures ValidGraph(nodes[from := nodes[from].AddOutgoingEdge(to, sym)], counter)
  {
    var n := nodes[from := nodes[from].AddOutgoingEdge(to, sym)];
    forall id, e | id in n && e in n[id].outgoing ensures e.to in n {
      if id == from && e !in nodes[from].outgoing {
        assert e == Edge(from, to, sym);
      }
    }
  }

  /** Adding an edge to a node not yet stored, then storing it, is storing it first. */
  lemma EdgeBeforeNode(nodes: map<nat, Node>, from: nat, n: Node, sym: string)
    requires from in nodes && from != n.id
    ensures nodes[from := nodes[from].AddOutgoingEdge(n.id, sym)][n.id := n]
         == nodes[n.id := n][from := nodes[n.id := n][from].AddOutgoingEdge(n.id, sym)]
  {
  }

  /**
   * The arena behind `HashMap<usize, Node>` plus the id counter. Ids come from
   * `counter`, so a valid graph stores ids 1..counter only.
   */
  class Graph {
    var nodes: map<nat, Node>
    var counter: nat

    ghost predicate Valid()
      reads this
    {
      ValidGraph(nodes, counter)
    }

    constructor ()
      ensures nodes == map[] && counter == 0
      ensures Valid()
    {
      nodes := map[];
      counter := 0;
    }

    /** `increment_global_counter`: the result is the previous counter plus one. */
    method IncrementCounter() returns (id: nat)
      modifies this
      ensures id == old(counter) + 1 && counter == id
      ensures nodes == old(nodes)
    {
      counter := counter + 1;
      id := counter;
    }

    /**
     * `Node::new`: a node with the given name and flag, no edges and a fresh id
     * above every stored one. The node is not stored yet.
     */
    method NewNode(name: string, terminal: bool) returns (n: Node)
      modifies this
      ensures n == Node(name, [], old(counter) + 1, terminal)
      ensures counter == old(counter) + 1 && nodes == old(nodes)
      ensures old(Valid()) ==> ValidGraph(nodes, counter - 1) && n.id !in nodes
    {
      var id := IncrementCounter();
      n := Node(name, [], id, terminal);
    }

    /** `HashMap::insert` of a node under its id. */
    method Insert(n: Node)
      modifies this
      ensures nodes == old(nodes)[n.id := n] && counter == old(counter)
    {
      nodes := nodes[n.id := n];
    }

    /** `nodes.get_mut(&id).unwrap().add_outgoing_edge(to, sym)`. */
    method AddOutgoingEdge(id: nat, to: nat, sym: string)
      requires id in nodes
      modifies this
      ensures nodes == old(nodes)[id := old(nodes)[id].AddOutgoingEdge(to, sym)]
      ensures counter == old(counter)
    {
      nodes := nodes[id := nodes[id].AddOutgoingEdge(to, sym)];
    }

    /** `nodes.get_mut(&id).unwrap().set_terminal(flag)`. */
    method SetTerminal(id: nat, flag: bool)
      requires id in nodes
      modifies this
      ensures nodes == old(nodes)[id := old(nodes)[id].SetTerminal(flag)]
      ensures counter == old(counter)
      ensures old(Valid()) ==> Valid()
    {
      nodes := nodes[id := nodes[id].SetTerminal(flag)];
    }

    /** `nodes.get_mut(&id).unwrap().set_name(name)`. */
    method SetName(id: nat, name: string)
      requires id in nodes
      modifies this
      ensures nodes == old(nodes)[id := old(nodes)[id].SetName(name)]
      ensures counter == old(counter)
      ensures old(Valid()) ==> Valid()
    {
      nodes := nodes[id := nodes[id].SetName(name)];
    }

    /** `edge.push(ch)` on the `k`-th outgoing edge of node `id`. */
    method PushToEdge(id: nat, k: nat, ch: char)
      requires id in nodes && k < |nodes[id].outgoing|
      modifies this
      ensures nodes == old(nodes)[id := old(nodes)[id].PushToEdge(k, ch)]
      ensures counter == old(counter)
      ensures old(Valid()) ==> Valid()
    {
      nodes := nodes[id := nodes[id].PushToEdge(k, ch)];
    }
  }

  // ---------------------------------------------------------------------------
  // DOT export (Node::to_dot / Node::write_dot)
  // ---------------------------------------------------------------------------

  /** The escape applied to each character of a label or a name. */
  function EscapeChar(c: char): string {
    if c == '\\' then "\\\\"
    else if c == '"' then "\\\""
    else if c == '\t' then "\\\\t"
    else if c == '\n' then "\\\\n"
    else if c == '\r' then "\\\\r"
    else [c]
  }

  function Escape(s: string): string {
    if s == [] then [] else EscapeChar(s[0]) + Escape(s[1..])
  }

  /** `str::replace` with a one-character pattern. */
  function ReplaceChar(s: string, c: char, repl: string): string {
    if s == [] then [] else (if s[0] == c then repl else [s[0]]) + ReplaceChar(s[1..], c, repl)
  }

  lemma {:induction false} ReplaceCharAppend(a: string, b: string, c: char, repl: string)
    ensures ReplaceChar(a + b, c, repl) == ReplaceChar(a, c, repl) + ReplaceChar(b, c, repl)
    decreases |a|
  {
    if a == [] {
      assert a + b == b;
    } else {
      assert (a + b)[1..] == a[1..] + b;
      ReplaceCharAppend(a[1..], b, c, repl);
    }
  }

  /** The chain of five `replace` calls on a label. */
  function ReplaceChain(s: string): string {
    ReplaceChar(ReplaceChar(ReplaceChar(ReplaceChar(ReplaceChar(
      s, '\\', "\\\\"), '"', "\\\""), '\t', "\\\\t"), '\n', "\\\\n"), '\r', "\\\\r")
  }

  lemma {:induction false} ReplaceCharAbsent(s: string, c: char, repl: string)
    requires c !in s
    ensures ReplaceChar(s, c, repl) == s
    decreases |s|
  {
    if s != [] {
      ReplaceCharAbsent(s[1..], c, repl);
    }
  }

  lemma ReplaceCharSingle(x: char, c: char, repl: string)
    ensures ReplaceChar([x], c, repl) == if x == c then repl else [x]
  {
    assert [x][1..] == [];
  }

  lemma ReplaceChainChar(c: char)
    ensures ReplaceChain([c]) == EscapeChar(c)
  {
    ReplaceCharSingle(c, '\\', "\\\\");
    var s1 := ReplaceChar([c], '\\', "\\\\");
    if c == '\\' {
      ReplaceCharAbsent(s1, '"', "\\\"");
      ReplaceCharAbsent(s1, '\t', "\\\\t");
      ReplaceCharAbsent(s1, '\n', "\\\\n");
      ReplaceCharAbsent(s1, '\r', "\\\\r");
    } else {
      ReplaceCharSingle(c, '"', "\\\"");
      var s2 := ReplaceChar(s1, '"', "\\\"");
      if c == '"' {
        ReplaceCharAbsent(s2, '\t', "\\\\t");
        ReplaceCharAbsent(s2, '\n', "\\\\n");
        ReplaceCharAbsent(s2, '\r', "\\\\r");
      } else {
        ReplaceCharSingle(c, '\t', "\\\\t");
        var s3 := ReplaceChar(s2, '\t', "\\\\t");
        if c == '\t' {
          ReplaceCharAbsent(s3, '\n', "\\\\n");
          ReplaceCharAbsent(s3, '\r', "\\\\r");
        } else {
          ReplaceCharSingle(c, '\n', "\\\\n");
          var s4 := ReplaceChar(s3, '\n', "\\\\n");
          if c == '\n' {
            ReplaceCharAbsent(s4, '\r', "\\\\r");
          } else {
            ReplaceCharSingle(c, '\r', "\\\\r");
          }
        }
      }
    }
  }

  lemma {:induction false} ReplaceChainAppend(a: string, b: string)
    ensures ReplaceChain(a + b) == ReplaceChain(a) + ReplaceChain(b)
  {
    var s1a, s1b := ReplaceChar(a, '\\', "\\\\"), ReplaceChar(b, '\\', "\\\\");
    ReplaceCharAppend(a, b, '\\', "\\\\");
    var s2a, s2b := ReplaceChar(s1a, '"', "\\\""), ReplaceChar(s1b, '"', "\\\"");
    ReplaceCharAppend(s1a, s1b, '"', "\\\"");
    var s3a, s3b := ReplaceChar(s2a, '\t', "\\\\t"), ReplaceChar(s2b, '\t', "\\\\t");
    ReplaceCharAppend(s2a, s2b, '\t', "\\\\t");
    var s4a, s4b := ReplaceChar(s3a, '\n', "\\\\n"), ReplaceChar(s3b, '\n', "\\\\n");
    ReplaceCharAppend(s3a, s3b, '\n', "\\\\n");
    ReplaceCharAppend(s4a, s4b, '\r', "\\\\r");
  }

  /**
   * The five successive `replace` calls in write_dot amount to escaping each
   * character on its own: no replacement produces a character a later one rewrites.
   */
  lemma {:induction false} EscapeIsReplaceChain(s: string)
    ensures Escape(s) == ReplaceChain(s)
    decreases |s|
  {
    if s == [] {
    } else {
      assert s == [s[0]] + s[1..];
      ReplaceChainAppend([s[0]], s[1..]);
      ReplaceChainChar(s[0]);
      EscapeIsReplaceChain(s[1..]);
    }
  }

  /** One DOT line for an edge. */
  function EdgeLine(from: nat, to: nat, sym: string): string {
    "    " + NatToString(from) + " -> " + NatToString(to) + " [label=\"" + Escape(sym) + "\"];\n"
  }

  /** The DOT line that marks a terminal node. */
  function TerminalLine(id: nat, name: string): string {
    "    " + NatToString(id) + " [shape=doublecircle, label=\"" + Escape(name) + "\"];\n"
  }

  /**
   * `Node::write_dot`: depth-first, appending to `out`, with `visited` guarding
   * against cycles. Each call expands its node at most once; when it returns,
   * every node it newly visited has all its successors visited too.
   */
  method WriteDot(node: Node, nodes: map<nat, Node>, out: string, visited: set<nat>)
    returns (out': string, visited': set<nat>)
    requires WellKeyed(nodes) && Closed(nodes)
    requires node.id in nodes && nodes[node.id] == node
    ensures out <= out'
    ensures visited + {node.id} <= visited' <= visited + nodes.Keys
    ensures node.id in visited ==> out' == out && visited' == visited
    ensures forall x, e :: x in visited' - visited && e in nodes[x].outgoing ==> e.to in visited'
    decreases |nodes.Keys - visited|, 1
  {
    if node.id in visited {
      return out, visited;
    }
    out', visited' := out, visited + {node.id};
    for k := 0 to |node.outgoing|
      invariant out <= out'
      invariant visited + {node.id} <= visited' <= visited + nodes.Keys
      invariant forall x, e :: x in visited' - visited && x != node.id && e in nodes[x].outgoing ==> e.to in visited'
      invariant forall j :: 0 <= j < k ==> node.outgoing[j].to in visited'
    {
      out', visited' := WriteEdge(node, k, nodes, out', visited', visited);
    }
    forall e | e in node.outgoing
      ensures e.to in visited'
    {
      var j :| 0 <= j < |node.outgoing| && node.outgoing[j] == e;
    }
    if node.terminal {
      out' := out' + TerminalLine(node.id, node.name);
    }
  }

  /**
   * One round of the edge loop of `to_dot`: the line of the edge `k` of `node`,
   * then the traversal from its target.
   */
  method WriteEdge(node: Node, k: nat, nodes: map<nat, Node>, out: string, visited: set<nat>, ghost visited0: set<nat>)
    returns (out': string, visited': set<nat>)
    requires WellKeyed(nodes) && Closed(nodes)
    requires node.id in nodes && nodes[node.id] == node && k < |node.outgoing|
    requires node.id !in visited0 && visited0 + {node.id} <= visited <= visited0 + nodes.Keys
    ensures out <= out'
    ensures visited <= visited' <= visited0 + nodes.Keys
    ensures node.outgoing[k].to in visited'
    ensures forall x, e :: x in visited' - visited && e in nodes[x].outgoing ==> e.to in visited'
    decreases |nodes.Keys - visited0|, 0
  {
    var edge := node.outgoing[k];
    assert edge in nodes[node.id].outgoing;
    var to := nodes[edge.to];
    out' := out + EdgeLine(node.id, to.id, edge.name);
    Ordered.ProperSubsetCard(nodes.Keys - visited, nodes.Keys - visited0);
    out', visited' := WriteDot(to, nodes, out', visited);
  }

  /** `Node::to_dot`: the traversal from `root` wrapped in a digraph block. */
  method ToDot(root: Node, nodes: map<nat, Node>) returns (dot: string)
    requires WellKeyed(nodes) && Closed(nodes)
    requires root.id in nodes && nodes[root.id] == root
    ensures |dot| >= |"digraph NFA {\n"| + |"}\n"|
    ensures dot[..|"digraph NFA {\n"|] == "digraph NFA {\n"
    ensures dot[|dot| - |"}\n"|..] == "}\n"
  {
    var header := "digraph NFA {\n";
    var visited: set<nat>;
    dot, visited := WriteDot(root, nodes, header, {});
    dot := dot + "}\n";
  }
}
