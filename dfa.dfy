/**
 * Subset construction and the scanner (src/dfa.rs). `Dfa` holds the NFA it
 * was given, its own node store and its root; construct_dfa runs a FIFO
 * worklist of NFA state sets, gives each distinct epsilon closure one DFA
 * node, and merges the characters that lead to the same node into one edge
 * label. The ghost map `subsets` records which NFA set each DFA node stands for.
 */
module DfaBuilder {
  import opened Wrappers
  import opened Automaton
  import opened StateSets
  import opened Scanning
  import Ordered
  import Strings
  import NfaCompiler

  // ---------------------------------------------------------------------------
  // Adding one transition to a DFA node
  // ---------------------------------------------------------------------------

  /** The index of the first edge that ends at `to`: the `find` of construct_dfa. */
  function EdgeTo(edges: seq<Edge>, to: nat): (r: Option<nat>)
    ensures r.Some? ==> r.value < |edges| && edges[r.value].to == to
    ensures r.Some? ==> forall k :: 0 <= k < r.value ==> edges[k].to != to
    ensures r.None? ==> forall k :: 0 <= k < |edges| ==> edges[k].to != to
  {
    if edges == [] then None
    else if edges[0].to == to then Some(0)
    else
      var r := EdgeTo(edges[1..], to);
      assert forall k :: 1 <= k < |edges| ==> edges[k] == edges[1..][k - 1];
      if r.Some? then Some(r.value + 1) else None
  }

  /**
   * A transition on `ch` from node `n` to `to`: `ch` is appended to the label
   * of the first edge to `to`, or a new edge labelled with `ch` alone is added.
   */
  function Link(n: Node, to: nat, ch: char): Node {
    match EdgeTo(n.outgoing, to)
    case Some(k) => n.PushToEdge(k, ch)
    case None => n.AddOutgoingEdge(to, [ch])
  }

  /** `StepOn` finds the first edge holding `c`. */
  lemma {:induction false} StepOnFirst(edges: seq<Edge>, c: char, k: nat)
    requires k < |edges| && c in edges[k].name
    requires forall i :: 0 <= i < k ==> c !in edges[i].name
    ensures StepOn(edges, c) == Some(edges[k].to)
  {
    if k > 0 {
      StepOnFirst(edges[1..], c, k - 1);
    }
  }

  /** Two edge lists that agree on `c` edge by edge, the longer one's extra edges lacking `c`, step alike on `c`. */
  lemma {:induction false} StepOnAgree(a: seq<Edge>, b: seq<Edge>, c: char)
    requires |a| <= |b|
    requires forall i :: 0 <= i < |a| ==> (c in a[i].name <==> c in b[i].name) && a[i].to == b[i].to
    requires forall i :: |a| <= i < |b| ==> c !in b[i].name
    ensures StepOn(a, c) == StepOn(b, c)
  {
    if a != [] {
      StepOnAgree(a[1..], b[1..], c);
    }
  }

  /**
   * What one transition does to a node's edges: each keeps its ends, a new
   * one leaves the node for `to`, and no label gains a character but `ch`, on
   * an edge to `to`, where `ch` now is.
   */
  lemma LinkShape(n: Node, to: nat, ch: char)
    ensures var m := Link(n, to, ch);
      && m.id == n.id && m.name == n.name && m.terminal == n.terminal
      && |n.outgoing| <= |m.outgoing|
      && (forall i :: 0 <= i < |m.outgoing| ==>
            if i < |n.outgoing| then m.outgoing[i].from == n.outgoing[i].from && m.outgoing[i].to == n.outgoing[i].to
            else m.outgoing[i].from == n.id && m.outgoing[i].to == to)
      && (forall i, c :: 0 <= i < |m.outgoing| && c in m.outgoing[i].name ==>
            (i < |n.outgoing| && c in n.outgoing[i].name) || (c == ch && m.outgoing[i].to == to))
  {
    var m := Link(n, to, ch);
    var e := EdgeTo(n.outgoing, to);
    if e.Some? {
      assert m.outgoing[e.value].name == n.outgoing[e.value].name + [ch];
    } else {
      assert m.outgoing[|n.outgoing|] == Edge(n.id, to, [ch]);
    }
  }

  /** A transition keeps a node's edge targets distinct. */
  lemma LinkDistinct(n: Node, to: nat, ch: char)
    requires forall i, j :: 0 <= i < j < |n.outgoing| ==> n.outgoing[i].to != n.outgoing[j].to
    ensures var m := Link(n, to, ch).outgoing;
      forall i, j :: 0 <= i < j < |m| ==> m[i].to != m[j].to
  {
    LinkShape(n, to, ch);
  }

  /**
   * When no label of the node held `ch`, after the transition `ch` leads to
   * `to` and every other character leads where it did.
   */
  lemma LinkSteps(n: Node, to: nat, ch: char)
    requires forall i :: 0 <= i < |n.outgoing| ==> ch !in n.outgoing[i].name
    ensures StepOn(Link(n, to, ch).outgoing, ch) == Some(to)
    ensures forall c :: c != ch ==> StepOn(Link(n, to, ch).outgoing, c) == StepOn(n.outgoing, c)
  {
    var m := Link(n, to, ch);
    LinkShape(n, to, ch);
    var e := EdgeTo(n.outgoing, to);
    var k := if e.Some? then e.value else |n.outgoing|;
    assert ch in m.outgoing[k].name && m.outgoing[k].to == to by {
      if e.Some? {
        assert m.outgoing[k].name == n.outgoing[k].name + [ch];
      } else {
        assert m.outgoing[k] == Edge(n.id, to, [ch]);
      }
    }
    StepOnFirst(m.outgoing, ch, k);
    forall c | c != ch ensures StepOn(m.outgoing, c) == StepOn(n.outgoing, c) {
      StepOnAgree(n.outgoing, m.outgoing, c);
    }
  }

  // ---------------------------------------------------------------------------
  // What the worklist of construct_dfa keeps true
  // ---------------------------------------------------------------------------

  /** `states` (the `dfa_states` map) and `subsets` are inverse maps. */
  ghost predicate Indexed(states: map<set<nat>, nat>, subsets: map<nat, set<nat>>) {
    && (forall s :: s in states ==> states[s] in subsets && subsets[states[s]] == s)
    && (forall d :: d in subsets ==> subsets[d] in states && states[subsets[d]] == d)
  }

  /** Each DFA state is stored and stands for a non-empty set of NFA states. */
  ghost predicate Stored(nfa: map<nat, Node>, nodes: map<nat, Node>, subsets: map<nat, set<nat>>) {
    forall d :: d in subsets ==> d in nodes && subsets[d] != {} && subsets[d] <= nfa.Keys
  }

  /** Each DFA state has the name and the flag create_dfa_state gives its set. */
  ghost predicate Named(nfa: map<nat, Node>, nodes: map<nat, Node>, subsets: map<nat, set<nat>>) {
    forall d :: d in subsets && d in nodes ==>
      && nodes[d].name == StateName(nfa, subsets[d])
      && nodes[d].terminal == (TerminalIds(nfa, subsets[d]) != {})
  }

  /**
   * Every character on an edge of a DFA state is a symbol of its set, and the
   * edge leads to the state of the closure of the move on that character.
   */
  ghost predicate Transitions(nfa: map<nat, Node>, nodes: map<nat, Node>, subsets: map<nat, set<nat>>) {
    forall d, i, c :: d in subsets && d in nodes && 0 <= i < |nodes[d].outgoing| && c in nodes[d].outgoing[i].name ==>
      && nodes[d].outgoing[i].to in subsets
      && c in Symbols(nfa, subsets[d])
      && IsClosure(nfa, Move(nfa, subsets[d], c), subsets[nodes[d].outgoing[i].to])
  }

  /** No two edges of a DFA state end at the same state. */
  ghost predicate OneEdgePerTarget(nodes: map<nat, Node>, subsets: map<nat, set<nat>>) {
    forall d, i, j :: d in subsets && d in nodes && 0 <= i < j < |nodes[d].outgoing| ==>
      nodes[d].outgoing[i].to != nodes[d].outgoing[j].to
  }

  /** Every stored node is either one of the nodes `n0` the store started with or a DFA state. */
  ghost predicate OnlyStates(n0: map<nat, Node>, nodes: map<nat, Node>, subsets: map<nat, set<nat>>) {
    forall id :: id in nodes ==> id in n0 || id in subsets
  }

  /** The queued sets (`unmarked`) are distinct, have states, and those states have no edges yet. */
  ghost predicate Pending(nodes: map<nat, Node>, states: map<set<nat>, nat>, queue: seq<set<nat>>, open: set<nat>) {
    && (forall k :: 0 <= k < |queue| ==>
          queue[k] in states && states[queue[k]] !in open && states[queue[k]] in nodes
          && nodes[states[queue[k]]].outgoing == [])
    && (forall i, j :: 0 <= i < j < |queue| ==> queue[i] != queue[j])
  }

  /** The state being expanded has left the queue and has edges on exactly the characters `done`. */
  ghost predicate Opened(nodes: map<nat, Node>, subsets: map<nat, set<nat>>, queue: seq<set<nat>>, open: set<nat>, done: set<char>) {
    forall d :: d in open ==>
      && d in subsets && d in nodes && subsets[d] !in queue
      && forall c :: StepOn(nodes[d].outgoing, c).Some? <==> c in done
  }

  /** A state neither queued nor being expanded has an edge on each symbol of its set. */
  ghost predicate Complete(nfa: map<nat, Node>, nodes: map<nat, Node>, subsets: map<nat, set<nat>>, queue: seq<set<nat>>, open: set<nat>) {
    forall d, c :: d in subsets && d in nodes && d !in open && subsets[d] !in queue && c in Symbols(nfa, subsets[d]) ==>
      StepOn(nodes[d].outgoing, c).Some?
  }

  /**
   * The invariant of construct_dfa's loop: a valid node store that keeps the
   * nodes `n0` it started with, plus the properties above of the DFA states
   * made so far, the queue, and the state `open` being expanded.
   */
  ghost predicate Explored(nfa: map<nat, Node>, n0: map<nat, Node>, nodes: map<nat, Node>, counter: nat,
                           subsets: map<nat, set<nat>>, states: map<set<nat>, nat>, queue: seq<set<nat>>,
                           open: set<nat>, done: set<char>)
  {
    && ValidGraph(nodes, counter)
    && (forall id :: id in n0 ==> id in nodes && nodes[id] == n0[id])
    && (forall d :: d in subsets ==> d !in n0)
    && OnlyStates(n0, nodes, subsets)
    && Indexed(states, subsets)
    && Stored(nfa, nodes, subsets)
    && Named(nfa, nodes, subsets)
    && Transitions(nfa, nodes, subsets)
    && OneEdgePerTarget(nodes, subsets)
    && Pending(nodes, states, queue, open)
    && Opened(nodes, subsets, queue, open, done)
    && Complete(nfa, nodes, subsets, queue, open)
  }

  /**
   * The finished DFA: the old nodes are kept and every other node is a DFA
   * state; each state stands for its own set of NFA states and is named after
   * it; a state has an edge on exactly the symbols of its set; the edge on `c`
   * leads to the state of the closure of the move on `c`; no character labels
   * two edges of one state; and no two edges of a state share a target.
   */
  ghost predicate Determinized(nfa: map<nat, Node>, n0: map<nat, Node>, nodes: map<nat, Node>, subsets: map<nat, set<nat>>) {
    && (forall id :: id in n0 ==> id in nodes && nodes[id] == n0[id])
    && (forall d :: d in subsets ==> d !in n0)
    && OnlyStates(n0, nodes, subsets)
    && (forall d1, d2 :: d1 in subsets && d2 in subsets && subsets[d1] == subsets[d2] ==> d1 == d2)
    && Stored(nfa, nodes, subsets)
    && Named(nfa, nodes, subsets)
    && (forall d, c :: d in subsets && d in nodes ==>
          (StepOn(nodes[d].outgoing, c).Some? <==> c in Symbols(nfa, subsets[d])))
    && (forall d, c :: d in subsets && d in nodes && StepOn(nodes[d].outgoing, c).Some? ==>
          && StepOn(nodes[d].outgoing, c).value in subsets
          && IsClosure(nfa, Move(nfa, subsets[d], c), subsets[StepOn(nodes[d].outgoing, c).value]))
    && (forall d, c, i, j ::
          (d in subsets && d in nodes && 0 <= i < |nodes[d].outgoing| && 0 <= j < |nodes[d].outgoing|
           && c in nodes[d].outgoing[i].name && c in nodes[d].outgoing[j].name) ==> i == j)
    && OneEdgePerTarget(nodes, subsets)
  }

  /** Every epsilon edge leaving `id` ends in `r`. */
  ghost predicate LambdaDone(nfa: map<nat, Node>, id: nat, r: set<nat>) {
    forall e :: e in Out(nfa, id) && e.name == Lambda ==> e.to in r
  }

  /**
   * The invariant of epsilon_closure's search: `r` holds `s` and every stacked
   * state, every state of `r` neither stacked nor in `skip` has its epsilon
   * edges inside `r`, and `r` lies inside every epsilon-closed superset of `s`.
   */
  ghost predicate ClosureSearch(nfa: map<nat, Node>, s: set<nat>, r: set<nat>, stack: seq<nat>, skip: set<nat>) {
    && s <= r
    && (forall k :: 0 <= k < |stack| ==> stack[k] in r)
    && (forall x :: x in r && x !in stack && x !in skip ==> LambdaDone(nfa, x, r))
    && (forall t :: s <= t && LambdaClosed(nfa, t) ==> r <= t)
  }

  lemma SearchStart(nfa: map<nat, Node>, s: set<nat>, stack: seq<nat>)
    requires forall x :: x in s <==> x in stack
    ensures ClosureSearch(nfa, s, s, stack, {})
  {
  }

  /** Following an epsilon edge from a state of `r` to a state outside it: add it and stack it. */
  lemma SearchPush(nfa: map<nat, Node>, s: set<nat>, r: set<nat>, stack: seq<nat>, skip: set<nat>, id: nat, e: Edge)
    requires ClosureSearch(nfa, s, r, stack, skip)
    requires id in r && e in Out(nfa, id) && e.name == Lambda
    ensures ClosureSearch(nfa, s, r + {e.to}, stack + [e.to], skip)
  {
    var r', stack' := r + {e.to}, stack + [e.to];
    forall x | x in r' && x !in stack' && x !in skip ensures LambdaDone(nfa, x, r') {
      assert x in r && x !in stack;
    }
    forall t | s <= t && LambdaClosed(nfa, t) ensures r' <= t {
      assert id in t;
    }
  }

  /** Popping the top of the stack leaves only that state possibly unexplored. */
  lemma SearchPop(nfa: map<nat, Node>, s: set<nat>, r: set<nat>, stack: seq<nat>)
    requires ClosureSearch(nfa, s, r, stack, {}) && stack != []
    ensures ClosureSearch(nfa, s, r, stack[..|stack| - 1], {stack[|stack| - 1]})
  {
  }

  /** Once the popped state's epsilon edges all end in `r`, it is explored. */
  lemma SearchDone(nfa: map<nat, Node>, s: set<nat>, r: set<nat>, stack: seq<nat>, id: nat)
    requires ClosureSearch(nfa, s, r, stack, {id}) && LambdaDone(nfa, id, r)
    ensures ClosureSearch(nfa, s, r, stack, {})
  {
  }

  /** With the stack empty, the search has found the closure. */
  lemma SearchEnd(nfa: map<nat, Node>, s: set<nat>, r: set<nat>)
    requires ClosureSearch(nfa, s, r, [], {})
    ensures IsClosure(nfa, s, r)
  {
    forall id, e | id in r && e in Out(nfa, id) && e.name == Lambda ensures e.to in r {
      assert LambdaDone(nfa, id, r);
    }
  }

  /** The start state made from the root's closure, queued, satisfies the invariant. */
  lemma InitStep(nfa: map<nat, Node>, n0: map<nat, Node>, counter: nat, start: set<nat>, n: Node)
    requires ValidGraph(n0, counter)
    requires start != {} && start <= nfa.Keys
    requires n == Node(StateName(nfa, start), [], counter + 1, TerminalIds(nfa, start) != {})
    ensures Explored(nfa, n0, n0[n.id := n], counter + 1, map[n.id := start], map[start := n.id], [start], {}, {})
  {
    ValidAddNode(n0, counter, n);
    InitParts(nfa, n0, counter, start, n);
    InitQueue(nfa, n0, start, n);
  }

  lemma InitParts(nfa: map<nat, Node>, n0: map<nat, Node>, counter: nat, start: set<nat>, n: Node)
    requires ValidGraph(n0, counter)
    requires start != {} && start <= nfa.Keys
    requires n == Node(StateName(nfa, start), [], counter + 1, TerminalIds(nfa, start) != {})
    ensures forall id :: id in n0 ==> id in n0[n.id := n] && n0[n.id := n][id] == n0[id]
    ensures forall d :: d in map[n.id := start] ==> d !in n0
    ensures Indexed(map[start := n.id], map[n.id := start])
    ensures Stored(nfa, n0[n.id := n], map[n.id := start])
    ensures Named(nfa, n0[n.id := n], map[n.id := start])
    ensures Transitions(nfa, n0[n.id := n], map[n.id := start])
    ensures OneEdgePerTarget(n0[n.id := n], map[n.id := start])
  {
    assert n.id !in n0;
  }

  lemma InitQueue(nfa: map<nat, Node>, n0: map<nat, Node>, start: set<nat>, n: Node)
    requires n.outgoing == []
    ensures Pending(n0[n.id := n], map[start := n.id], [start], {})
    ensures Opened(n0[n.id := n], map[n.id := start], [start], {}, {})
    ensures Complete(nfa, n0[n.id := n], map[n.id := start], [start], {})
    ensures OnlyStates(n0, n0[n.id := n], map[n.id := start])
  {
    assert map[n.id := start][n.id] in [start];
  }

  /** Popping the front of the queue opens its state, which has no edges yet. */
  lemma PopStep(nfa: map<nat, Node>, n0: map<nat, Node>, nodes: map<nat, Node>, counter: nat,
                subsets: map<nat, set<nat>>, states: map<set<nat>, nat>, queue: seq<set<nat>>)
    requires Explored(nfa, n0, nodes, counter, subsets, states, queue, {}, {}) && queue != []
    ensures queue[0] in states && states[queue[0]] in subsets && subsets[states[queue[0]]] == queue[0]
    ensures Explored(nfa, n0, nodes, counter, subsets, states, queue[1..], {states[queue[0]]}, {})
  {
    PendingPop(nodes, subsets, states, queue);
    OpenedPop(nodes, subsets, states, queue);
    CompletePop(nfa, nodes, subsets, states, queue);
  }

  lemma PendingPop(nodes: map<nat, Node>, subsets: map<nat, set<nat>>, states: map<set<nat>, nat>, queue: seq<set<nat>>)
    requires Indexed(states, subsets) && Pending(nodes, states, queue, {}) && queue != []
    ensures Pending(nodes, states, queue[1..], {states[queue[0]]})
  {
    var rest := queue[1..];
    forall k | 0 <= k < |rest| ensures states[rest[k]] != states[queue[0]] {
      assert rest[k] == queue[k + 1] != queue[0];
    }
  }

  lemma OpenedPop(nodes: map<nat, Node>, subsets: map<nat, set<nat>>, states: map<set<nat>, nat>, queue: seq<set<nat>>)
    requires Indexed(states, subsets) && Pending(nodes, states, queue, {}) && queue != []
    ensures Opened(nodes, subsets, queue[1..], {states[queue[0]]}, {})
  {
    assert queue[0] !in queue[1..];
  }

  lemma CompletePop(nfa: map<nat, Node>, nodes: map<nat, Node>, subsets: map<nat, set<nat>>, states: map<set<nat>, nat>, queue: seq<set<nat>>)
    requires Indexed(states, subsets) && Complete(nfa, nodes, subsets, queue, {}) && queue != [] && queue[0] in states
    ensures Complete(nfa, nodes, subsets, queue[1..], {states[queue[0]]})
  {
    var cur, rest := states[queue[0]], queue[1..];
    forall d, c | d in subsets && d in nodes && d !in {cur} && subsets[d] !in rest && c in Symbols(nfa, subsets[d])
      ensures StepOn(nodes[d].outgoing, c).Some?
    {
      assert subsets[d] != queue[0];
      assert subsets[d] !in queue;
    }
  }

  /** Once every symbol of the open state has its edge, the state is done. */
  lemma CloseStep(nfa: map<nat, Node>, n0: map<nat, Node>, nodes: map<nat, Node>, counter: nat,
                  subsets: map<nat, set<nat>>, states: map<set<nat>, nat>, queue: seq<set<nat>>,
                  cur: nat, done: set<char>)
    requires Explored(nfa, n0, nodes, counter, subsets, states, queue, {cur}, done)
    requires cur in subsets && Symbols(nfa, subsets[cur]) <= done
    ensures Explored(nfa, n0, nodes, counter, subsets, states, queue, {}, {})
  {
  }

  /** Making a new state for an unseen closure and queueing it keeps the invariant. */
  lemma NewStateStep(nfa: map<nat, Node>, n0: map<nat, Node>, nodes: map<nat, Node>, counter: nat,
                     subsets: map<nat, set<nat>>, states: map<set<nat>, nat>, queue: seq<set<nat>>,
                     cur: nat, done: set<char>, closure: set<nat>, n: Node)
    requires Explored(nfa, n0, nodes, counter, subsets, states, queue, {cur}, done)
    requires closure !in states && closure != {} && closure <= nfa.Keys
    requires n == Node(StateName(nfa, closure), [], counter + 1, TerminalIds(nfa, closure) != {})
    ensures Explored(nfa, n0, nodes[n.id := n], counter + 1, subsets[n.id := closure], states[closure := n.id],
                     queue + [closure], {cur}, done)
    ensures n.id !in subsets
  {
    NewStateStore(nfa, n0, nodes, counter, subsets, states, queue, cur, done, closure, n);
    NewStateLinks(nfa, n0, nodes, counter, subsets, states, queue, cur, done, closure, n);
  }

  /** The store part of NewStateStep: the node store, the kept nodes, and the new state's set and name. */
  lemma NewStateStore(nfa: map<nat, Node>, n0: map<nat, Node>, nodes: map<nat, Node>, counter: nat,
                      subsets: map<nat, set<nat>>, states: map<set<nat>, nat>, queue: seq<set<nat>>,
                      cur: nat, done: set<char>, closure: set<nat>, n: Node)
    requires Explored(nfa, n0, nodes, counter, subsets, states, queue, {cur}, done)
    requires closure != {} && closure <= nfa.Keys
    requires n == Node(StateName(nfa, closure), [], counter + 1, TerminalIds(nfa, closure) != {})
    ensures n.id !in nodes && n.id !in subsets
    ensures ValidGraph(nodes[n.id := n], counter + 1)
    ensures forall id :: id in n0 ==> id in nodes[n.id := n] && nodes[n.id := n][id] == n0[id]
    ensures forall d :: d in subsets[n.id := closure] ==> d !in n0
    ensures OnlyStates(n0, nodes[n.id := n], subsets[n.id := closure])
    ensures Stored(nfa, nodes[n.id := n], subsets[n.id := closure])
    ensures Named(nfa, nodes[n.id := n], subsets[n.id := closure])
  {
    ValidAddNode(nodes, counter, n);
    assert n.id !in nodes;
    KeepsNew(n0, nodes, subsets, n, closure);
    NewStateStored(nfa, nodes, subsets, closure, n);
    NewStateNamed(nfa, nodes, subsets, closure, n);
  }

  /** The edge and queue part of NewStateStep. */
  lemma NewStateLinks(nfa: map<nat, Node>, n0: map<nat, Node>, nodes: map<nat, Node>, counter: nat,
                      subsets: map<nat, set<nat>>, states: map<set<nat>, nat>, queue: seq<set<nat>>,
                      cur: nat, done: set<char>, closure: set<nat>, n: Node)
    requires Explored(nfa, n0, nodes, counter, subsets, states, queue, {cur}, done)
    requires closure !in states
    requires n.id == counter + 1 && n.outgoing == []
    ensures Indexed(states[closure := n.id], subsets[n.id := closure])
    ensures Transitions(nfa, nodes[n.id := n], subsets[n.id := closure])
    ensures OneEdgePerTarget(nodes[n.id := n], subsets[n.id := closure])
    ensures Pending(nodes[n.id := n], states[closure := n.id], queue + [closure], {cur})
    ensures Opened(nodes[n.id := n], subsets[n.id := closure], queue + [closure], {cur}, done)
    ensures Complete(nfa, nodes[n.id := n], subsets[n.id := closure], queue + [closure], {cur})
  {
    assert n.id !in nodes;
    NewStateEdges(nfa, nodes, subsets, states, closure, n);
    NewStatePending(nodes, counter, subsets, states, queue, cur, closure, n);
    NewStateComplete(nfa, nodes, subsets, states, queue, cur, done, closure, n);
  }

  /**
   * NewStateStep stated over the values the caller holds after storing the
   * new state: the invariant, and the old states keep their sets.
   */
  lemma NewStateAt(nfa: map<nat, Node>, n0: map<nat, Node>, nodes: map<nat, Node>, counter: nat,
                   subsets: map<nat, set<nat>>, states: map<set<nat>, nat>, queue: seq<set<nat>>,
                   cur: nat, done: set<char>, closure: set<nat>, next: nat,
                   nodes': map<nat, Node>, counter': nat, subsets': map<nat, set<nat>>, states': map<set<nat>, nat>, queue': seq<set<nat>>)
    requires Explored(nfa, n0, nodes, counter, subsets, states, queue, {cur}, done)
    requires closure !in states && closure != {} && closure <= nfa.Keys
    requires next == counter + 1 == counter'
    requires nodes' == nodes[next := Node(StateName(nfa, closure), [], next, TerminalIds(nfa, closure) != {})]
    requires subsets' == subsets[next := closure] && states' == states[closure := next] && queue' == queue + [closure]
    ensures Explored(nfa, n0, nodes', counter', subsets', states', queue', {cur}, done)
    ensures next in subsets' && subsets'[next] == closure
    ensures forall d :: d in subsets ==> d in subsets' && subsets'[d] == subsets[d]
    ensures |states'| - |queue'| == |states| - |queue|
  {
    var n := Node(StateName(nfa, closure), [], next, TerminalIds(nfa, closure) != {});
    NewStateStep(nfa, n0, nodes, counter, subsets, states, queue, cur, done, closure, n);
    Grows(subsets, next, closure);
    assert |states'| == |states| + 1;
  }

  /** Adding a fresh key keeps the old entries. */
  lemma Grows(subsets: map<nat, set<nat>>, next: nat, closure: set<nat>)
    requires next !in subsets
    ensures forall d :: d in subsets ==> d in subsets[next := closure] && subsets[next := closure][d] == subsets[d]
  {
  }

  /** A set already in `dfa_states` names a state that stands for it. */
  lemma Reuse(states: map<set<nat>, nat>, subsets: map<nat, set<nat>>, closure: set<nat>)
    requires Indexed(states, subsets) && closure in states
    ensures states[closure] in subsets && subsets[states[closure]] == closure
  {
  }

  /** Storing a node under an id not yet used keeps the nodes `n0` and the freshness of the DFA states. */
  lemma KeepsNew(n0: map<nat, Node>, nodes: map<nat, Node>, subsets: map<nat, set<nat>>, n: Node, closure: set<nat>)
    requires forall id :: id in n0 ==> id in nodes && nodes[id] == n0[id]
    requires forall d :: d in subsets ==> d !in n0
    requires n.id !in nodes
    ensures forall id :: id in n0 ==> id in nodes[n.id := n] && nodes[n.id := n][id] == n0[id]
    ensures forall d :: d in subsets[n.id := closure] ==> d !in n0
  {
  }

  lemma NewStateNamed(nfa: map<nat, Node>, nodes: map<nat, Node>, subsets: map<nat, set<nat>>, closure: set<nat>, n: Node)
    requires Named(nfa, nodes, subsets) && n.id !in nodes
    requires n.name == StateName(nfa, closure) && n.terminal == (TerminalIds(nfa, closure) != {})
    ensures Named(nfa, nodes[n.id := n], subsets[n.id := closure])
  {
    var nodes', subsets' := nodes[n.id := n], subsets[n.id := closure];
    forall d | d in subsets' && d in nodes'
      ensures nodes'[d].name == StateName(nfa, subsets'[d])
      ensures nodes'[d].terminal == (TerminalIds(nfa, subsets'[d]) != {})
    {
      if d == n.id {
        assert nodes'[d] == n && subsets'[d] == closure;
      } else {
        assert nodes'[d] == nodes[d] && subsets'[d] == subsets[d];
      }
    }
  }

  lemma NewStateStored(nfa: map<nat, Node>, nodes: map<nat, Node>, subsets: map<nat, set<nat>>, closure: set<nat>, n: Node)
    requires Stored(nfa, nodes, subsets) && n.id !in nodes
    requires closure != {} && closure <= nfa.Keys
    ensures Stored(nfa, nodes[n.id := n], subsets[n.id := closure])
  {
  }

  lemma NewStateEdges(nfa: map<nat, Node>, nodes: map<nat, Node>, subsets: map<nat, set<nat>>,
                      states: map<set<nat>, nat>, closure: set<nat>, n: Node)
    requires Indexed(states, subsets) && Transitions(nfa, nodes, subsets) && OneEdgePerTarget(nodes, subsets)
    requires forall d :: d in subsets ==> d in nodes
    requires closure !in states && n.id !in nodes && n.outgoing == []
    ensures Indexed(states[closure := n.id], subsets[n.id := closure])
    ensures Transitions(nfa, nodes[n.id := n], subsets[n.id := closure])
    ensures OneEdgePerTarget(nodes[n.id := n], subsets[n.id := closure])
  {
    var nodes', subsets' := nodes[n.id := n], subsets[n.id := closure];
    forall d, i, c | d in subsets' && d in nodes' && 0 <= i < |nodes'[d].outgoing| && c in nodes'[d].outgoing[i].name
      ensures nodes'[d].outgoing[i].to in subsets'
      ensures c in Symbols(nfa, subsets'[d])
      ensures IsClosure(nfa, Move(nfa, subsets'[d], c), subsets'[nodes'[d].outgoing[i].to])
    {
      assert d != n.id;
      assert nodes'[d] == nodes[d] && subsets'[d] == subsets[d];
      var t := nodes[d].outgoing[i].to;
      assert t in subsets && subsets'[t] == subsets[t];
    }
  }

  lemma NewStatePending(nodes: map<nat, Node>, counter: nat, subsets: map<nat, set<nat>>, states: map<set<nat>, nat>,
                        queue: seq<set<nat>>, cur: nat, closure: set<nat>, n: Node)
    requires ValidGraph(nodes, counter) && cur in nodes
    requires Pending(nodes, states, queue, {cur}) && closure !in states && n.id == counter + 1 && n.outgoing == []
    ensures Pending(nodes[n.id := n], states[closure := n.id], queue + [closure], {cur})
  {
    assert n.id !in nodes;
    var queue' := queue + [closure];
    forall k | 0 <= k < |queue| ensures queue'[k] == queue[k] {
    }
  }

  lemma NewStateComplete(nfa: map<nat, Node>, nodes: map<nat, Node>, subsets: map<nat, set<nat>>,
                         states: map<set<nat>, nat>, queue: seq<set<nat>>, cur: nat, done: set<char>,
                         closure: set<nat>, n: Node)
    requires Indexed(states, subsets)
    requires Opened(nodes, subsets, queue, {cur}, done) && Complete(nfa, nodes, subsets, queue, {cur})
    requires closure !in states && n.id !in nodes
    ensures Opened(nodes[n.id := n], subsets[n.id := closure], queue + [closure], {cur}, done)
    ensures Complete(nfa, nodes[n.id := n], subsets[n.id := closure], queue + [closure], {cur})
  {
    var nodes', subsets', queue' := nodes[n.id := n], subsets[n.id := closure], queue + [closure];
    assert subsets[cur] in states;
    assert Opened(nodes', subsets', queue', {cur}, done) by {
      assert nodes'[cur] == nodes[cur] && subsets'[cur] == subsets[cur];
      assert subsets[cur] !in queue';
    }
    forall d, c | d in subsets' && d in nodes' && d !in {cur} && subsets'[d] !in queue' && c in Symbols(nfa, subsets'[d])
      ensures StepOn(nodes'[d].outgoing, c).Some?
    {
      assert d != n.id;
      assert nodes'[d] == nodes[d] && subsets'[d] == subsets[d];
      assert subsets[d] !in queue;
    }
  }

  /** Adding the transition on `ch` from the open state keeps the invariant and marks `ch` done. */
  lemma LinkStep(nfa: map<nat, Node>, n0: map<nat, Node>, nodes: map<nat, Node>, counter: nat,
                 subsets: map<nat, set<nat>>, states: map<set<nat>, nat>, queue: seq<set<nat>>,
                 cur: nat, done: set<char>, t: nat, ch: char)
    requires Explored(nfa, n0, nodes, counter, subsets, states, queue, {cur}, done)
    requires t in subsets && ch !in done && ch in Symbols(nfa, subsets[cur])
    requires IsClosure(nfa, Move(nfa, subsets[cur], ch), subsets[t])
    ensures Explored(nfa, n0, nodes[cur := Link(nodes[cur], t, ch)], counter, subsets, states, queue, {cur}, done + {ch})
  {
    LinkGraph(nodes, counter, subsets, cur, t, ch);
    LinkTransitions(nfa, nodes, subsets, cur, t, ch);
    LinkNamed(nfa, nodes, subsets, cur, t, ch);
    LinkStored(nfa, nodes, subsets, cur, t, ch);
    LinkOpened(nfa, nodes, subsets, states, queue, cur, done, t, ch);
  }

  /** LinkStep stated over the node map the caller holds after the link. */
  lemma LinkAt(nfa: map<nat, Node>, n0: map<nat, Node>, nodes: map<nat, Node>, counter: nat,
               subsets: map<nat, set<nat>>, states: map<set<nat>, nat>, queue: seq<set<nat>>,
               cur: nat, done: set<char>, t: nat, ch: char, nodes': map<nat, Node>)
    requires Explored(nfa, n0, nodes, counter, subsets, states, queue, {cur}, done)
    requires t in subsets && ch !in done && ch in Symbols(nfa, subsets[cur])
    requires IsClosure(nfa, Move(nfa, subsets[cur], ch), subsets[t])
    requires cur in nodes && nodes' == nodes[cur := Link(nodes[cur], t, ch)]
    ensures Explored(nfa, n0, nodes', counter, subsets, states, queue, {cur}, done + {ch})
  {
    LinkStep(nfa, n0, nodes, counter, subsets, states, queue, cur, done, t, ch);
  }

  /** `b` keeps every entry of `a`. */
  ghost predicate KeepsSubsets(a: map<nat, set<nat>>, b: map<nat, set<nat>>) {
    forall d :: d in a ==> d in b && b[d] == a[d]
  }

  /** Stepping through a strictly ascending sequence meets each element once. */
  lemma NextChar(chars: seq<char>, i: nat)
    requires forall a, b :: 0 <= a < b < |chars| ==> chars[a] < chars[b]
    requires i < |chars|
    ensures chars[..i + 1] == chars[..i] + [chars[i]] && chars[i] !in chars[..i]
  {
  }

  lemma KeepsSubsetsTrans(a: map<nat, set<nat>>, b: map<nat, set<nat>>, c: map<nat, set<nat>>)
    requires KeepsSubsets(a, b) && KeepsSubsets(b, c)
    ensures KeepsSubsets(a, c)
  {
  }

  lemma LinkGraph(nodes: map<nat, Node>, counter: nat, subsets: map<nat, set<nat>>, cur: nat, t: nat, ch: char)
    requires ValidGraph(nodes, counter) && cur in nodes && t in nodes
    requires OneEdgePerTarget(nodes, subsets)
    ensures ValidGraph(nodes[cur := Link(nodes[cur], t, ch)], counter)
    ensures OneEdgePerTarget(nodes[cur := Link(nodes[cur], t, ch)], subsets)
  {
    var n := nodes[cur];
    LinkShape(n, t, ch);
    if cur in subsets {
      LinkDistinct(n, t, ch);
    }
  }

  lemma LinkTransitions(nfa: map<nat, Node>, nodes: map<nat, Node>, subsets: map<nat, set<nat>>, cur: nat, t: nat, ch: char)
    requires Transitions(nfa, nodes, subsets)
    requires cur in subsets && cur in nodes && t in subsets && ch in Symbols(nfa, subsets[cur])
    requires IsClosure(nfa, Move(nfa, subsets[cur], ch), subsets[t])
    ensures Transitions(nfa, nodes[cur := Link(nodes[cur], t, ch)], subsets)
  {
    var n := nodes[cur];
    var m := Link(n, t, ch);
    var nodes' := nodes[cur := m];
    LinkShape(n, t, ch);
    forall d, i, c | d in subsets && d in nodes' && 0 <= i < |nodes'[d].outgoing| && c in nodes'[d].outgoing[i].name
      ensures nodes'[d].outgoing[i].to in subsets
      ensures c in Symbols(nfa, subsets[d])
      ensures IsClosure(nfa, Move(nfa, subsets[d], c), subsets[nodes'[d].outgoing[i].to])
    {
      if d == cur {
        if !(i < |n.outgoing| && c in n.outgoing[i].name) {
          assert c == ch && m.outgoing[i].to == t;
        }
      }
    }
  }

  lemma LinkNamed(nfa: map<nat, Node>, nodes: map<nat, Node>, subsets: map<nat, set<nat>>, cur: nat, t: nat, ch: char)
    requires Named(nfa, nodes, subsets) && cur in nodes
    ensures Named(nfa, nodes[cur := Link(nodes[cur], t, ch)], subsets)
  {
    LinkShape(nodes[cur], t, ch);
  }

  lemma LinkStored(nfa: map<nat, Node>, nodes: map<nat, Node>, subsets: map<nat, set<nat>>, cur: nat, t: nat, ch: char)
    requires Stored(nfa, nodes, subsets) && cur in nodes
    ensures Stored(nfa, nodes[cur := Link(nodes[cur], t, ch)], subsets)
  {
  }

  lemma LinkOpened(nfa: map<nat, Node>, nodes: map<nat, Node>, subsets: map<nat, set<nat>>, states: map<set<nat>, nat>,
                   queue: seq<set<nat>>, cur: nat, done: set<char>, t: nat, ch: char)
    requires Opened(nodes, subsets, queue, {cur}, done) && ch !in done
    requires Pending(nodes, states, queue, {cur}) && Complete(nfa, nodes, subsets, queue, {cur})
    ensures Pending(nodes[cur := Link(nodes[cur], t, ch)], states, queue, {cur})
    ensures Opened(nodes[cur := Link(nodes[cur], t, ch)], subsets, queue, {cur}, done + {ch})
    ensures Complete(nfa, nodes[cur := Link(nodes[cur], t, ch)], subsets, queue, {cur})
  {
    LinkSteps(nodes[cur], t, ch);
  }

  /** When the queue is empty and nothing is open, the DFA is finished. */
  lemma ExploredFinal(nfa: map<nat, Node>, n0: map<nat, Node>, nodes: map<nat, Node>, counter: nat,
                      subsets: map<nat, set<nat>>, states: map<set<nat>, nat>)
    requires Explored(nfa, n0, nodes, counter, subsets, states, [], {}, {})
    ensures Determinized(nfa, n0, nodes, subsets)
  {
    FinalSymbols(nfa, n0, nodes, counter, subsets, states);
    FinalTargets(nfa, n0, nodes, counter, subsets, states);
    FinalUnique(nfa, n0, nodes, counter, subsets, states);
  }

  /** Once nothing is pending, a state has an edge on exactly the symbols of its set. */
  lemma FinalSymbols(nfa: map<nat, Node>, n0: map<nat, Node>, nodes: map<nat, Node>, counter: nat,
                     subsets: map<nat, set<nat>>, states: map<set<nat>, nat>)
    requires Explored(nfa, n0, nodes, counter, subsets, states, [], {}, {})
    ensures forall d, c :: d in subsets && d in nodes ==>
      (StepOn(nodes[d].outgoing, c).Some? <==> c in Symbols(nfa, subsets[d]))
  {
    forall d, c | d in subsets && d in nodes
      ensures StepOn(nodes[d].outgoing, c).Some? <==> c in Symbols(nfa, subsets[d])
    {
      if StepOn(nodes[d].outgoing, c).Some? {
        var k :| 0 <= k < |nodes[d].outgoing| && c in nodes[d].outgoing[k].name && nodes[d].outgoing[k].to == StepOn(nodes[d].outgoing, c).value;
      }
    }
  }

  /** Once nothing is pending, the edge on `c` leads to the state of the closure of the move on `c`. */
  lemma FinalTargets(nfa: map<nat, Node>, n0: map<nat, Node>, nodes: map<nat, Node>, counter: nat,
                     subsets: map<nat, set<nat>>, states: map<set<nat>, nat>)
    requires Explored(nfa, n0, nodes, counter, subsets, states, [], {}, {})
    ensures forall d, c :: d in subsets && d in nodes && StepOn(nodes[d].outgoing, c).Some? ==>
      && StepOn(nodes[d].outgoing, c).value in subsets
      && IsClosure(nfa, Move(nfa, subsets[d], c), subsets[StepOn(nodes[d].outgoing, c).value])
  {
    forall d, c | d in subsets && d in nodes && StepOn(nodes[d].outgoing, c).Some?
      ensures StepOn(nodes[d].outgoing, c).value in subsets
      ensures IsClosure(nfa, Move(nfa, subsets[d], c), subsets[StepOn(nodes[d].outgoing, c).value])
    {
      var k :| 0 <= k < |nodes[d].outgoing| && c in nodes[d].outgoing[k].name && nodes[d].outgoing[k].to == StepOn(nodes[d].outgoing, c).value;
    }
  }

  /** Once nothing is pending, no character labels two edges of one state. */
  lemma FinalUnique(nfa: map<nat, Node>, n0: map<nat, Node>, nodes: map<nat, Node>, counter: nat,
                    subsets: map<nat, set<nat>>, states: map<set<nat>, nat>)
    requires Explored(nfa, n0, nodes, counter, subsets, states, [], {}, {})
    ensures forall d, c, i, j :: (d in subsets && d in nodes && 0 <= i < |nodes[d].outgoing| && 0 <= j < |nodes[d].outgoing|
      && c in nodes[d].outgoing[i].name && c in nodes[d].outgoing[j].name) ==> i == j
  {
    forall d, c, i, j | d in subsets && d in nodes && 0 <= i < |nodes[d].outgoing| && 0 <= j < |nodes[d].outgoing|
      && c in nodes[d].outgoing[i].name && c in nodes[d].outgoing[j].name
      ensures i == j
    {
      var ti, tj := nodes[d].outgoing[i].to, nodes[d].outgoing[j].to;
      ClosureUnique(nfa, Move(nfa, subsets[d], c), subsets[ti], subsets[tj]);
      assert ti == states[subsets[ti]] == tj;
    }
  }

  /** Distinct DFA states stand for distinct subsets of the NFA's states, so there are at most that many. */
  lemma StatesBound(nfa: map<nat, Node>, nodes: map<nat, Node>, subsets: map<nat, set<nat>>, states: map<set<nat>, nat>)
    requires Indexed(states, subsets) && Stored(nfa, nodes, subsets)
    ensures |states| <= |Ordered.PowerSet(nfa.Keys)|
  {
    var all := Ordered.PowerSet(nfa.Keys);
    forall x | x in states ensures x in all {
      assert subsets[states[x]] == x;
    }
    if states.Keys != all {
      Ordered.ProperSubsetCard(states.Keys, all);
    }
  }

  /** The `find` of construct_dfa as a loop. */
  method FindEdgeTo(edges: seq<Edge>, to: nat) returns (r: Option<nat>)
    ensures r == EdgeTo(edges, to)
  {
    var k := 0;
    while k < |edges| && edges[k].to != to
      invariant 0 <= k <= |edges|
      invariant forall i :: 0 <= i < k ==> edges[i].to != to
    {
      k := k + 1;
    }
    r := if k < |edges| then Some(k) else None;
  }

  /** The loop of move_nfa over the edges of one state: add the target of each edge whose label holds `ch`. */
  method AddTargets(edges: seq<Edge>, ch: char, acc: set<nat>) returns (r: set<nat>)
    ensures r == acc + Targets(edges, ch)
  {
    r := acc;
    for k := 0 to |edges|
      invariant r == acc + Targets(edges[..k], ch)
    {
      var e := edges[k];
      assert edges[..k + 1][..k] == edges[..k];
      if ch in e.name && e.to !in r {
        r := r + {e.to};
      }
    }
    assert edges[..|edges|] == edges;
  }

  /** The loop of extract_symbols over the edges of one state: add the characters of each non-epsilon label. */
  method AddLabelChars(edges: seq<Edge>, acc: set<char>) returns (r: set<char>)
    ensures r == acc + LabelChars(edges)
  {
    r := acc;
    for k := 0 to |edges|
      invariant r == acc + LabelChars(edges[..k])
    {
      var sym := edges[k].name;
      if sym != Lambda {
        r := AddChars(sym, r);
      }
      assert edges[..k + 1][..k] == edges[..k];
    }
    assert edges[..|edges|] == edges;
  }

  /** `for ch in sym.chars() { result.insert(ch) }`. */
  method AddChars(sym: string, acc: set<char>) returns (r: set<char>)
    ensures r == acc + set c | c in sym
  {
    r := acc;
    for j := 0 to |sym|
      invariant r == acc + set c | c in sym[..j]
    {
      assert sym[..j + 1] == sym[..j] + [sym[j]];
      r := r + {sym[j]};
    }
    assert sym[..|sym|] == sym;
  }

  /** The search for the first edge of a state whose label holds `c`. */
  method FindStep(edges: seq<Edge>, c: char) returns (r: Option<nat>)
    ensures r == StepOn(edges, c)
  {
    var k := 0;
    while k < |edges|
      invariant 0 <= k <= |edges|
      invariant forall i :: 0 <= i < k ==> c !in edges[i].name
    {
      if c in edges[k].name {
        StepOnFirst(edges, c, k);
        return Some(edges[k].to);
      }
      k := k + 1;
    }
    return None;
  }

  /** The remembered accept of lex's inner loop, as `Scan` carries it. */
  function Accept(end: Option<nat>, name: string): Option<(nat, string)> {
    if end.Some? then Some((end.value, name)) else None
  }

  // ---------------------------------------------------------------------------
  // The DFA
  // ---------------------------------------------------------------------------

  /**
   * `Dfa`: the NFA it determinizes (a copy of its node map and root), its own
   * node store and its root.
   */
  class Dfa {
    var nfa: map<nat, Node>
    var nfaRoot: nat
    const graph: Graph
    var rootId: nat

    ghost predicate Valid()
      reads this, graph
    {
      graph.Valid() && rootId in graph.nodes && Closed(nfa) && nfaRoot in nfa
    }

    /** `Dfa::new`: the NFA of `Nfa::new` and a store holding only the non-terminal root "DFA". */
    constructor ()
      ensures Valid() && fresh(graph)
      ensures nfa == map[1 := Node("NFA", [], 1, false)] && nfaRoot == 1
      ensures graph.nodes == map[rootId := Node("DFA", [], rootId, false)]
    {
      var n := new NfaCompiler.Nfa();
      nfa := n.graph.nodes;
      nfaRoot := n.rootId;
      var g := new Graph();
      var root := g.NewNode("DFA", false);
      g.Insert(root);
      graph := g;
      rootId := root.id;
    }

    /** `set_nfa`: from now on the DFA is built from `n` as it is now. */
    method SetNfa(n: NfaCompiler.Nfa)
      requires n.Valid()
      modifies this
      ensures nfa == n.graph.nodes && nfaRoot == n.rootId && rootId == old(rootId)
      ensures old(Valid()) ==> Valid()
    {
      nfa := n.graph.nodes;
      nfaRoot := n.rootId;
    }

    /** `epsilon_closure`: a depth-first search along the edges labelled exactly `Lambda`. */
    method EpsilonClosure(s: set<nat>) returns (r: set<nat>)
      requires Closed(nfa)
      ensures IsClosure(nfa, s, r)
    {
      r := s;
      var stack := Ordered.Ascending(s);
      ghost var u := s + nfa.Keys;
      SearchStart(nfa, s, stack);
      while stack != []
        invariant nfa == old(nfa)
        invariant r <= u
        invariant ClosureSearch(nfa, s, r, stack, {})
        decreases 2 * |u - r| + |stack|
      {
        var id := stack[|stack| - 1];
        SearchPop(nfa, s, r, stack);
        stack := stack[..|stack| - 1];
        if id in nfa {
          r, stack := FollowLambdas(s, id, r, stack, u);
        }
        SearchDone(nfa, s, r, stack, id);
      }
      SearchEnd(nfa, s, r);
    }

    /** The loop of epsilon_closure over the edges of the popped state `id`. */
    method FollowLambdas(s: set<nat>, id: nat, r: set<nat>, stack: seq<nat>, ghost u: set<nat>)
      returns (r': set<nat>, stack': seq<nat>)
      requires Closed(nfa) && id in nfa && id in r && nfa.Keys <= u && r <= u
      requires ClosureSearch(nfa, s, r, stack, {id})
      ensures ClosureSearch(nfa, s, r', stack', {id}) && LambdaDone(nfa, id, r') && r' <= u
      ensures 2 * |u - r'| + |stack'| <= 2 * |u - r| + |stack|
    {
      r', stack' := r, stack;
      var edges := nfa[id].outgoing;
      for k := 0 to |edges|
        invariant nfa == old(nfa)
        invariant r' <= u && id in r'
        invariant ClosureSearch(nfa, s, r', stack', {id})
        invariant forall j :: 0 <= j < k && edges[j].name == Lambda ==> edges[j].to in r'
        invariant 2 * |u - r'| + |stack'| <= 2 * |u - r| + |stack|
      {
        var to := edges[k].to;
        if edges[k].name == Lambda && to !in r' {
          assert to in u;
          assert (u - r') == (u - (r' + {to})) + {to};
          SearchPush(nfa, s, r', stack', {id}, id, edges[k]);
          r' := r' + {to};
          stack' := stack' + [to];
        }
      }
    }

    /** The body of move_nfa's outer loop: add the targets on `ch` of the state `ids[i]`, when it is stored. */
    method AddMovesOf(ids: seq<nat>, i: nat, ch: char, acc: set<nat>) returns (r: set<nat>)
      requires i < |ids| && acc == MoveFrom(nfa, ids[..i], ch)
      ensures r == MoveFrom(nfa, ids[..i + 1], ch)
    {
      r := acc;
      var id := ids[i];
      if id in nfa {
        r := AddTargets(nfa[id].outgoing, ch, r);
      }
      assert ids[..i + 1][..i] == ids[..i];
    }

    /** `move_nfa`: every state that an edge from `s` whose label contains `ch` leads to. */
    method MoveNfa(s: set<nat>, ch: char) returns (r: set<nat>)
      ensures r == Move(nfa, s, ch)
    {
      var ids := Ordered.Ascending(s);
      r := {};
      for i := 0 to |ids|
        invariant nfa == old(nfa)
        invariant r == MoveFrom(nfa, ids[..i], ch)
      {
        r := AddMovesOf(ids, i, ch, r);
      }
      assert ids[..|ids|] == ids;
    }

    /** The body of extract_symbols' outer loop: add the label characters of the state `ids[i]`, when it is stored. */
    method AddSymbolsOf(ids: seq<nat>, i: nat, acc: set<char>) returns (r: set<char>)
      requires i < |ids| && acc == SymbolsFrom(nfa, ids[..i])
      ensures r == SymbolsFrom(nfa, ids[..i + 1])
    {
      r := acc;
      var id := ids[i];
      if id in nfa {
        r := AddLabelChars(nfa[id].outgoing, r);
      }
      assert ids[..i + 1][..i] == ids[..i];
    }

    /** `extract_symbols`: every character on a non-epsilon edge leaving `s`. */
    method ExtractSymbols(s: set<nat>) returns (r: set<char>)
      ensures r == Symbols(nfa, s)
    {
      var ids := Ordered.Ascending(s);
      r := {};
      for i := 0 to |ids|
        invariant nfa == old(nfa)
        invariant r == SymbolsFrom(nfa, ids[..i])
      {
        r := AddSymbolsOf(ids, i, r);
      }
      assert ids[..|ids|] == ids;
    }

    /**
     * `create_dfa_state`: a new node named after the first terminal state of `s`
     * in id order, or "<>", terminal when `s` has a terminal state.
     */
    method CreateDfaState(s: set<nat>) returns (id: nat)
      modifies graph
      ensures nfa == old(nfa)
      ensures id == old(graph.counter) + 1 && graph.counter == id
      ensures graph.nodes == old(graph.nodes)[id := Node(StateName(nfa, s), [], id, TerminalIds(nfa, s) != {})]
    {
      var ids := Ordered.Ascending(s);
      var names := CollectTerminalNames(ids);
      var isTerminal := AnyTerminal(ids);
      FirstTerminalName(nfa, ids);
      assert isTerminal == (TerminalIds(nfa, s) != {}) by {
        if isTerminal {
          var j :| 0 <= j < |ids| && IsTerminal(nfa, ids[j]);
          assert ids[j] in TerminalIds(nfa, s);
        } else {
          forall x | x in s ensures !IsTerminal(nfa, x) {
            var j :| 0 <= j < |ids| && ids[j] == x;
          }
        }
      }
      var name := if isTerminal then names[0] else "<>";
      var n := graph.NewNode(name, isTerminal);
      graph.Insert(n);
      id := n.id;
    }

    /** The `filter_map` of create_dfa_state: the names of the terminal states among `ids`, in order. */
    method CollectTerminalNames(ids: seq<nat>) returns (names: seq<string>)
      ensures names == TerminalNames(nfa, ids)
    {
      names := [];
      for i := 0 to |ids|
        invariant nfa == old(nfa)
        invariant names == TerminalNames(nfa, ids[..i])
      {
        var x := ids[i];
        if x in nfa && nfa[x].terminal {
          names := names + [nfa[x].name];
        }
        assert ids[..i + 1][..i] == ids[..i];
      }
      assert ids[..|ids|] == ids;
    }

    /** The `any` of create_dfa_state: whether some state of `ids` is a stored terminal state. */
    method AnyTerminal(ids: seq<nat>) returns (found: bool)
      ensures found <==> exists j :: 0 <= j < |ids| && IsTerminal(nfa, ids[j])
    {
      found := false;
      var k := 0;
      while k < |ids| && !found
        invariant 0 <= k <= |ids|
        invariant nfa == old(nfa)
        invariant !found ==> forall j :: 0 <= j < k ==> !IsTerminal(nfa, ids[j])
        invariant found ==> 0 < k && IsTerminal(nfa, ids[k - 1])
      {
        found := ids[k] in nfa && nfa[ids[k]].terminal;
        k := k + 1;
      }
    }

    /** The `find` over the edges of `cur`, then `edge.push(ch)` or `add_outgoing_edge(next, ch)`. */
    method AddTransition(cur: nat, next: nat, ch: char)
      requires cur in graph.nodes
      modifies graph
      ensures nfa == old(nfa)
      ensures graph.nodes == old(graph.nodes)[cur := Link(old(graph.nodes)[cur], next, ch)]
      ensures graph.counter == old(graph.counter)
    {
      var e := FindEdgeTo(graph.nodes[cur].outgoing, next);
      if e.Some? {
        graph.PushToEdge(cur, e.value, ch);
      } else {
        graph.AddOutgoingEdge(cur, next, [ch]);
      }
    }
  
    /**
     * The lookup in `dfa_states`: the state already made for `closure`, or a
     * new one, recorded and queued. The invariant is stated over `nodes` and
     * `counter`, the node store as it is on entry, and over `nodes'` and
     * `counter'`, the node store as it is on exit.
     */
    method Target(closure: set<nat>, states: map<set<nat>, nat>, queue: seq<set<nat>>,
                  ghost n0: map<nat, Node>, ghost nodes: map<nat, Node>, ghost counter: nat,
                  ghost subsets: map<nat, set<nat>>, ghost cur: nat, ghost done: set<char>)
      returns (next: nat, states': map<set<nat>, nat>, queue': seq<set<nat>>,
               ghost nodes': map<nat, Node>, ghost counter': nat, ghost subsets': map<nat, set<nat>>)
      requires graph.nodes == nodes && graph.counter == counter
      requires Explored(nfa, n0, nodes, counter, subsets, states, queue, {cur}, done)
      requires closure != {} && closure <= nfa.Keys
      modifies graph
      ensures nfa == old(nfa)
      ensures graph.nodes == nodes' && graph.counter == counter'
      ensures Explored(nfa, n0, nodes', counter', subsets', states', queue', {cur}, done)
      ensures next in subsets' && subsets'[next] == closure
      ensures KeepsSubsets(subsets, subsets')
      ensures |states'| - |queue'| == |states| - |queue|
      ensures counter <= counter'
    {
      if closure in states {
        next := states[closure];
        Reuse(states, subsets, closure);
        states', queue', nodes', counter', subsets' := states, queue, nodes, counter, subsets;
      } else {
        next, states', queue', nodes', counter', subsets' := NewState(closure, states, queue, n0, nodes, counter, subsets, cur, done);
      }
    }

    /** A closure not in `dfa_states` gets a new state, which is recorded and queued. */
    method NewState(closure: set<nat>, states: map<set<nat>, nat>, queue: seq<set<nat>>,
                    ghost n0: map<nat, Node>, ghost nodes: map<nat, Node>, ghost counter: nat,
                    ghost subsets: map<nat, set<nat>>, ghost cur: nat, ghost done: set<char>)
      returns (next: nat, states': map<set<nat>, nat>, queue': seq<set<nat>>,
               ghost nodes': map<nat, Node>, ghost counter': nat, ghost subsets': map<nat, set<nat>>)
      requires graph.nodes == nodes && graph.counter == counter
      requires Explored(nfa, n0, nodes, counter, subsets, states, queue, {cur}, done)
      requires closure != {} && closure <= nfa.Keys && closure !in states
      modifies graph
      ensures nfa == old(nfa)
      ensures graph.nodes == nodes' && graph.counter == counter'
      ensures Explored(nfa, n0, nodes', counter', subsets', states', queue', {cur}, done)
      ensures next in subsets' && subsets'[next] == closure
      ensures KeepsSubsets(subsets, subsets')
      ensures |states'| - |queue'| == |states| - |queue|
      ensures counter <= counter'
    {
      next := CreateDfaState(closure);
      states' := states[closure := next];
      queue' := queue + [closure];
      nodes' := nodes[next := Node(StateName(nfa, closure), [], next, TerminalIds(nfa, closure) != {})];
      counter' := next;
      subsets' := subsets[next := closure];
      NewStateAt(nfa, n0, nodes, counter, subsets, states, queue, cur, done, closure, next,
                 nodes', counter', subsets', states', queue');
    }

    /**
     * The closure of the move on `ch` from `current`. construct_dfa skips a
     * symbol whose closure is empty; a symbol of the set always moves
     * somewhere, so that never happens.
     */
    method ClosureOn(current: set<nat>, ch: char) returns (closure: set<nat>)
      requires Closed(nfa) && ch in Symbols(nfa, current)
      ensures IsClosure(nfa, Move(nfa, current, ch), closure)
      ensures closure != {} && closure <= nfa.Keys
    {
      var moveSet := MoveNfa(current, ch);
      closure := EpsilonClosure(moveSet);
      SymbolMoves(nfa, current, ch);
      ClosureEmpty(nfa, moveSet, closure);
      assert closure != {};
      MoveWithin(nfa, current, ch);
      ClosureWithin(nfa, moveSet, closure);
    }

    /**
     * The body of construct_dfa's loop over the symbols of `current`, for the
     * symbol `ch`: close the move on `ch`, find or make the state of that
     * closure, and add the transition to it.
     */
    method ExpandOn(cur: nat, current: set<nat>, ch: char, states: map<set<nat>, nat>, queue: seq<set<nat>>,
                    ghost n0: map<nat, Node>, ghost nodes: map<nat, Node>, ghost counter: nat,
                    ghost subsets: map<nat, set<nat>>, ghost done: set<char>)
      returns (states': map<set<nat>, nat>, queue': seq<set<nat>>,
               ghost nodes': map<nat, Node>, ghost counter': nat, ghost subsets': map<nat, set<nat>>)
      requires Closed(nfa)
      requires graph.nodes == nodes && graph.counter == counter
      requires Explored(nfa, n0, nodes, counter, subsets, states, queue, {cur}, done)
      requires cur in subsets && subsets[cur] == current && ch in Symbols(nfa, current) && ch !in done
      modifies graph
      ensures nfa == old(nfa)
      ensures graph.nodes == nodes' && graph.counter == counter'
      ensures Explored(nfa, n0, nodes', counter', subsets', states', queue', {cur}, done + {ch})
      ensures KeepsSubsets(subsets, subsets')
      ensures |states'| - |queue'| == |states| - |queue|
      ensures counter <= counter'
    {
      var closure := ClosureOn(current, ch);
      var next;
      ghost var made;
      next, states', queue', made, counter', subsets' := Target(closure, states, queue, n0, nodes, counter, subsets, cur, done);
      assert cur in made by {
        assert Stored(nfa, made, subsets');
      }
      AddTransition(cur, next, ch);
      nodes' := made[cur := Link(made[cur], next, ch)];
      LinkAt(nfa, n0, made, counter', subsets', states', queue', cur, done, next, ch, nodes');
    }

    /**
     * The `for ch in symbols` loop of construct_dfa: add the transitions of
     * the state `cur` on each character of `chars`, in order.
     */
    method ExpandAll(cur: nat, current: set<nat>, chars: seq<char>, states: map<set<nat>, nat>, queue: seq<set<nat>>,
                     ghost n0: map<nat, Node>, ghost nodes: map<nat, Node>, ghost counter: nat, ghost subsets: map<nat, set<nat>>)
      returns (states': map<set<nat>, nat>, queue': seq<set<nat>>,
               ghost nodes': map<nat, Node>, ghost counter': nat, ghost subsets': map<nat, set<nat>>, ghost done: set<char>)
      requires Closed(nfa)
      requires graph.nodes == nodes && graph.counter == counter
      requires cur in subsets && subsets[cur] == current
      requires forall c :: c in chars ==> c in Symbols(nfa, current)
      requires forall a, b :: 0 <= a < b < |chars| ==> chars[a] < chars[b]
      requires Explored(nfa, n0, nodes, counter, subsets, states, queue, {cur}, {})
      modifies graph
      ensures nfa == old(nfa)
      ensures graph.nodes == nodes' && graph.counter == counter'
      ensures Explored(nfa, n0, nodes', counter', subsets', states', queue', {cur}, done)
      ensures forall c :: c in done <==> c in chars
      ensures KeepsSubsets(subsets, subsets')
      ensures |states'| - |queue'| == |states| - |queue|
      ensures counter <= counter'
    {
      states', queue', nodes', counter', subsets' := states, queue, nodes, counter, subsets;
      done := {};
      for i := 0 to |chars|
        invariant nfa == old(nfa)
        invariant graph.nodes == nodes' && graph.counter == counter'
        invariant Explored(nfa, n0, nodes', counter', subsets', states', queue', {cur}, done)
        invariant KeepsSubsets(subsets, subsets')
        invariant |states'| - |queue'| == |states| - |queue|
        invariant counter <= counter'
        invariant forall c :: c in done <==> c in chars[..i]
      {
        ghost var before := subsets';
        var ch := chars[i];
        NextChar(chars, i);
        assert cur in subsets' && subsets'[cur] == current;
        states', queue', nodes', counter', subsets' := ExpandOn(cur, current, ch, states', queue', n0, nodes', counter', subsets', done);
        KeepsSubsetsTrans(subsets, before, subsets');
        done := done + {ch};
      }
      assert chars[..|chars|] == chars;
    }

    /**
     * One round of construct_dfa's loop after the pop: add the transitions
     * of the state `cur` on each symbol of `current`, in increasing order.
     */
    method Expand(cur: nat, current: set<nat>, states: map<set<nat>, nat>, queue: seq<set<nat>>,
                  ghost n0: map<nat, Node>, ghost nodes: map<nat, Node>, ghost counter: nat, ghost subsets: map<nat, set<nat>>)
      returns (states': map<set<nat>, nat>, queue': seq<set<nat>>,
               ghost nodes': map<nat, Node>, ghost counter': nat, ghost subsets': map<nat, set<nat>>)
      requires Closed(nfa)
      requires graph.nodes == nodes && graph.counter == counter
      requires cur in subsets && subsets[cur] == current
      requires Explored(nfa, n0, nodes, counter, subsets, states, queue, {cur}, {})
      modifies graph
      ensures nfa == old(nfa)
      ensures graph.nodes == nodes' && graph.counter == counter'
      ensures Explored(nfa, n0, nodes', counter', subsets', states', queue', {}, {})
      ensures KeepsSubsets(subsets, subsets')
      ensures |states'| - |queue'| == |states| - |queue|
      ensures counter <= counter'
    {
      var symbols := ExtractSymbols(current);
      var chars := Ordered.AscendingChars(symbols);
      ghost var done;
      states', queue', nodes', counter', subsets', done := ExpandAll(cur, current, chars, states, queue, n0, nodes, counter, subsets);
      assert cur in subsets' && subsets'[cur] == current;
      CloseStep(nfa, n0, nodes', counter', subsets', states', queue', cur, done);
    }

    /**
     * The `while let Some(current) = unmarked.pop_front()` loop of
     * construct_dfa: expand the queued sets in FIFO order until none is left.
     */
    method Drain(states: map<set<nat>, nat>, queue: seq<set<nat>>,
                 ghost n0: map<nat, Node>, ghost nodes: map<nat, Node>, ghost counter: nat, ghost subsets: map<nat, set<nat>>)
      returns (states': map<set<nat>, nat>, ghost nodes': map<nat, Node>, ghost counter': nat, ghost subsets': map<nat, set<nat>>)
      requires Closed(nfa)
      requires graph.nodes == nodes && graph.counter == counter
      requires Explored(nfa, n0, nodes, counter, subsets, states, queue, {}, {})
      modifies graph
      ensures nfa == old(nfa)
      ensures graph.nodes == nodes' && graph.counter == counter'
      ensures Explored(nfa, n0, nodes', counter', subsets', states', [], {}, {})
      ensures KeepsSubsets(subsets, subsets')
      ensures counter <= counter'
    {
      states', nodes', counter', subsets' := states, nodes, counter, subsets;
      var queue' := queue;
      ghost var bound := |Ordered.PowerSet(nfa.Keys)|;
      while queue' != []
        invariant nfa == old(nfa)
        invariant graph.nodes == nodes' && graph.counter == counter'
        invariant Explored(nfa, n0, nodes', counter', subsets', states', queue', {}, {})
        invariant KeepsSubsets(subsets, subsets')
        invariant counter <= counter'
        decreases bound - |states'| + |queue'|
      {
        StatesBound(nfa, nodes', subsets', states');
        var current := queue'[0];
        PopStep(nfa, n0, nodes', counter', subsets', states', queue');
        queue' := queue'[1..];
        var currentId := states'[current];
        ghost var before := subsets';
        states', queue', nodes', counter', subsets' := Expand(currentId, current, states', queue', n0, nodes', counter', subsets');
        KeepsSubsetsTrans(subsets, before, subsets');
      }
    }

    /**
     * The start of `construct_dfa`: the DFA state for the closure of the NFA's
     * root, stored and queued as the only state made so far.
     */
    method StartState() returns (startClosure: set<nat>, startId: nat)
      requires Valid()
      modifies graph
      ensures nfa == old(nfa)
      ensures IsClosure(nfa, {nfaRoot}, startClosure)
      ensures Explored(nfa, old(graph.nodes), graph.nodes, graph.counter, map[startId := startClosure],
                       map[startClosure := startId], [startClosure], {}, {})
      ensures old(graph.counter) <= graph.counter
    {
      ghost var n0, c0 := graph.nodes, graph.counter;
      var startSet := {nfaRoot};
      startClosure := EpsilonClosure(startSet);
      ClosureEmpty(nfa, startSet, startClosure);
      ClosureWithin(nfa, startSet, startClosure);
      startId := CreateDfaState(startClosure);
      InitStep(nfa, n0, c0, startClosure, graph.nodes[startId]);
    }

    /**
     * `construct_dfa`: subset construction from the closure of the NFA's
     * root, with a FIFO queue of the sets not yet expanded. The ghost result
     * maps each DFA state made to the set of NFA states it stands for.
     */
    method ConstructDfa() returns (ghost subsets: map<nat, set<nat>>)
      requires Valid()
      modifies this, graph
      ensures Valid() && nfa == old(nfa) && nfaRoot == old(nfaRoot)
      ensures rootId in subsets && IsClosure(nfa, {nfaRoot}, subsets[rootId])
      ensures Determinized(nfa, old(graph.nodes), graph.nodes, subsets)
      ensures old(graph.counter) <= graph.counter
    {
      ghost var n0 := graph.nodes;
      var startClosure, startId := StartState();
      rootId := startId;
      var states := map[startClosure := startId];
      ghost var nodes', counter';
      states, nodes', counter', subsets := Drain(states, [startClosure], n0, graph.nodes, graph.counter,
                                                 map[startId := startClosure]);
      ExploredFinal(nfa, n0, nodes', counter', subsets, states);
    }

    /**
     * The inner loop of `lex` from `index`: follow the DFA from the root as
     * far as the input allows, remembering where the last terminal state was
     * reached and its name.
     */
    method Longest(input: string, index: nat) returns (last: Option<(nat, string)>)
      requires Valid() && index <= |input|
      ensures last == Scan(graph.nodes, rootId, input, index, None)
    {
      ghost var nodes, root := graph.nodes, rootId;
      var state := rootId;
      var lastAccept: Option<nat> := None;
      var lastName := "";
      var j := index;
      while j < |input|
        invariant graph.nodes == nodes && rootId == root
        invariant index <= j <= |input| && state in nodes
        invariant Scan(nodes, root, input, index, None) == Scan(nodes, state, input, j, Accept(lastAccept, lastName))
        decreases |input| - j
      {
        var step := FindStep(graph.nodes[state].outgoing, input[j]);
        if step.None? {
          break;
        }
        var next := step.value;
        ScanStep(nodes, state, input, j, Accept(lastAccept, lastName), next);
        if graph.nodes[next].terminal {
          lastAccept := Some(j + 1);
          lastName := graph.nodes[next].name;
        }
        state := next;
        j := j + 1;
      }
      last := Accept(lastAccept, lastName);
    }

    /**
     * One round of lex's outer loop: the tokens emitted from `index` (the
     * longest accepted prefix, unless its state is named ";") and where the
     * next round starts.
     */
    method LexRound(input: string, index: nat) returns (emitted: seq<(string, string)>, next: nat)
      requires Valid() && index < |input|
      ensures index < next <= |input|
      ensures LexFrom(graph.nodes, rootId, input, index) == emitted + LexFrom(graph.nodes, rootId, input, next)
    {
      var last := Longest(input, index);
      if last.Some? {
        var token := Strings.Trim(input[index..last.value.0]);
        emitted := if last.value.1 != ";" then [(last.value.1, token)] else [];
        next := last.value.0;
      } else {
        emitted := [];
        next := index + 1;
        assert emitted + LexFrom(graph.nodes, rootId, input, next) == LexFrom(graph.nodes, rootId, input, next);
      }
    }

    /**
     * `lex`: from each position, take the longest accepted prefix; emit it,
     * trimmed and under the name of the state it ends in, unless that name is
     * ";", and go on after it; when nothing is accepted, skip one character.
     */
    method Lex(input: string) returns (tokens: seq<(string, string)>)
      requires Valid()
      ensures tokens == LexFrom(graph.nodes, rootId, input, 0)
    {
      ghost var nodes, root := graph.nodes, rootId;
      tokens := [];
      var index := 0;
      while index < |input|
        invariant graph.nodes == nodes && rootId == root
        invariant 0 <= index <= |input|
        invariant tokens + LexFrom(nodes, root, input, index) == LexFrom(nodes, root, input, 0)
        decreases |input| - index
      {
        var emitted, next := LexRound(input, index);
        assert (tokens + emitted) + LexFrom(nodes, root, input, next) == tokens + (emitted + LexFrom(nodes, root, input, next));
        tokens := tokens + emitted;
        index := next;
      }
    }
  }
}
