/**
 * What `Dfa::lex` computes (src/dfa.rs:186-239), as functions over the DFA's
 * node map: from the root, follow the first edge whose label contains the
 * next character, remember the last terminal state reached, cut the token
 * there, and start again after it; when nothing is accepted, skip one
 * character.
 */
module Scanning {
  import opened Wrappers
  import opened Automaton
  import Strings

  /** The state reached from `edges` on `c`: the target of the first edge whose label contains `c`. */
  function StepOn(edges: seq<Edge>, c: char): (r: Option<nat>)
    ensures r.Some? ==> exists k :: 0 <= k < |edges| && c in edges[k].name && edges[k].to == r.value
    ensures r.None? <==> forall k :: 0 <= k < |edges| ==> c !in edges[k].name
  {
    if edges == [] then None
    else if c in edges[0].name then Some(edges[0].to)
    else
      var r := StepOn(edges[1..], c);
      assert forall k :: 1 <= k < |edges| ==> edges[k] == edges[1..][k - 1];
      r
  }

  /** Where reading `input[from..to]` from `state` leads, or `None` once no edge matches. */
  function Run(nodes: map<nat, Node>, state: nat, input: string, from: nat, to: nat): (r: Option<nat>)
    requires Closed(nodes) && state in nodes && from <= to <= |input|
    ensures r.Some? ==> r.value in nodes
    decreases (to as int) - (from as int)
  {
    if from == to then Some(state)
    else match StepOn(nodes[state].outgoing, input[from])
      case None => None
      case Some(t) => Run(nodes, t, input, from + 1, to)
  }

  /** Reading `input[from..to]` from `state` ends in a terminal state. */
  predicate Accepting(nodes: map<nat, Node>, state: nat, input: string, from: nat, to: nat)
    requires Closed(nodes) && state in nodes && from <= to <= |input|
  {
    var r := Run(nodes, state, input, from, to);
    r.Some? && nodes[r.value].terminal
  }

  /** The name of the state that reading `input[from..to]` from `state` ends in. */
  function AcceptedName(nodes: map<nat, Node>, state: nat, input: string, from: nat, to: nat): string
    requires Closed(nodes) && state in nodes && from <= to <= |input|
  {
    var r := Run(nodes, state, input, from, to);
    if r.Some? then nodes[r.value].name else ""
  }

  /**
   * The inner loop of lex from position `j` in state `state`, with `last` the
   * accept seen so far: the end and the state name of the last accept.
   */
  function Scan(nodes: map<nat, Node>, state: nat, input: string, j: nat, last: Option<(nat, string)>): (r: Option<(nat, string)>)
    requires Closed(nodes) && state in nodes && j <= |input|
    ensures r == last || (r.Some? && j < r.value.0 <= |input|)
    decreases |input| - j
  {
    if j == |input| then last
    else match StepOn(nodes[state].outgoing, input[j])
      case None => last
      case Some(t) =>
        Scan(nodes, t, input, j + 1, if nodes[t].terminal then Some((j + 1, nodes[t].name)) else last)
  }

  /** One step of the scan: follow the edge on `input[j]` and record an accept when its target is terminal. */
  lemma ScanStep(nodes: map<nat, Node>, state: nat, input: string, j: nat, last: Option<(nat, string)>, next: nat)
    requires Closed(nodes) && state in nodes && j < |input|
    requires StepOn(nodes[state].outgoing, input[j]) == Some(next)
    ensures next in nodes
    ensures Scan(nodes, state, input, j, last)
      == Scan(nodes, next, input, j + 1, if nodes[next].terminal then Some((j + 1, nodes[next].name)) else last)
  {
    var k :| 0 <= k < |nodes[state].outgoing| && input[j] in nodes[state].outgoing[k].name && nodes[state].outgoing[k].to == next;
    assert nodes[state].outgoing[k] in nodes[state].outgoing;
  }

  /**
   * Longest match: when some prefix of `input[j..]` is accepted, the scan ends at
   * the longest one and reports the name of the state it reaches; when none is,
   * the scan returns the earlier accept unchanged.
   */
  lemma {:induction false} ScanLongest(nodes: map<nat, Node>, state: nat, input: string, j: nat, last: Option<(nat, string)>)
    requires Closed(nodes) && state in nodes && j <= |input|
    ensures (forall k :: j < k <= |input| ==> !Accepting(nodes, state, input, j, k)) ==>
      Scan(nodes, state, input, j, last) == last
    ensures forall k :: j < k <= |input| && Accepting(nodes, state, input, j, k) ==>
      var r := Scan(nodes, state, input, j, last);
      && r.Some? && k <= r.value.0 <= |input|
      && Accepting(nodes, state, input, j, r.value.0)
      && r.value.1 == AcceptedName(nodes, state, input, j, r.value.0)
    decreases |input| - j
  {
    if j < |input| {
      var step := StepOn(nodes[state].outgoing, input[j]);
      if step.None? {
        forall k | j < k <= |input| ensures !Accepting(nodes, state, input, j, k) {
          assert Run(nodes, state, input, j, k) == None;
        }
      } else {
        var t := step.value;
        var last' := if nodes[t].terminal then Some((j + 1, nodes[t].name)) else last;
        ScanLongest(nodes, t, input, j + 1, last');
        forall k | j + 1 <= k <= |input|
          ensures Accepting(nodes, state, input, j, k) == Accepting(nodes, t, input, j + 1, k)
          ensures AcceptedName(nodes, state, input, j, k) == AcceptedName(nodes, t, input, j + 1, k)
        {
          assert Run(nodes, state, input, j, k) == Run(nodes, t, input, j + 1, k);
        }
        var next := j + 1;
        assert Run(nodes, t, input, next, next) == Some(t);
        var r := Scan(nodes, t, input, next, last');
        assert Scan(nodes, state, input, j, last) == r;
        if exists k :: next < k <= |input| && Accepting(nodes, t, input, next, k) {
          var k0 :| next < k0 <= |input| && Accepting(nodes, t, input, next, k0);
          assert Accepting(nodes, state, input, j, k0);
          forall k | j < k <= |input| && Accepting(nodes, state, input, j, k)
            ensures r.Some? && k <= r.value.0 <= |input|
          {
            assert k0 <= r.value.0;
          }
        } else if nodes[t].terminal {
          assert r == Some((next, nodes[t].name)) && Accepting(nodes, state, input, j, next);
          forall k | j < k <= |input| && Accepting(nodes, state, input, j, k) ensures k <= next {
          }
        } else {
          assert r == last;
          forall k | j < k <= |input| ensures !Accepting(nodes, state, input, j, k) {
          }
        }
      }
    }
  }

  /**
   * `lex` from `index` on: scan from the root; on an accept emit the trimmed
   * lexeme under the state's name, unless the name is ";", and go on after it;
   * otherwise skip one character.
   */
  function LexFrom(nodes: map<nat, Node>, root: nat, input: string, index: nat): seq<(string, string)>
    requires Closed(nodes) && root in nodes && index <= |input|
    decreases |input| - index
  {
    if index == |input| then []
    else match Scan(nodes, root, input, index, None)
      case Some((end, name)) =>
        (if name != ";" then [(name, Strings.Trim(input[index..end]))] else []) + LexFrom(nodes, root, input, end)
      case None => LexFrom(nodes, root, input, index + 1)
  }

  /** Every round consumes at least one character, so there are at most as many tokens as characters left. */
  lemma {:induction false} LexFromBound(nodes: map<nat, Node>, root: nat, input: string, index: nat)
    requires Closed(nodes) && root in nodes && index <= |input|
    ensures |LexFrom(nodes, root, input, index)| <= |input| - index
    decreases |input| - index
  {
    if index < |input| {
      var r := Scan(nodes, root, input, index, None);
      if r.Some? {
        var end := r.value.0;
        var head := if r.value.1 != ";" then [(r.value.1, Strings.Trim(input[index..end]))] else [];
        assert LexFrom(nodes, root, input, index) == head + LexFrom(nodes, root, input, end);
        LexFromBound(nodes, root, input, end);
      } else {
        assert LexFrom(nodes, root, input, index) == LexFrom(nodes, root, input, index + 1);
        LexFromBound(nodes, root, input, index + 1);
      }
    }
  }

  /** No token is named ";", and each lexeme is a trimmed slice of the input. */
  lemma {:induction false} LexFromTokens(nodes: map<nat, Node>, root: nat, input: string, index: nat)
    requires Closed(nodes) && root in nodes && index <= |input|
    ensures forall k :: 0 <= k < |LexFrom(nodes, root, input, index)| ==>
      var t := LexFrom(nodes, root, input, index)[k];
      t.0 != ";" && exists a, b :: index <= a < b <= |input| && t.1 == Strings.Trim(input[a..b])
    decreases |input| - index
  {
    if index < |input| {
      var r := Scan(nodes, root, input, index, None);
      if r.Some? {
        var end := r.value.0;
        var head := if r.value.1 != ";" then [(r.value.1, Strings.Trim(input[index..end]))] else [];
        assert LexFrom(nodes, root, input, index) == head + LexFrom(nodes, root, input, end);
        LexFromTokens(nodes, root, input, end);
      } else {
        assert LexFrom(nodes, root, input, index) == LexFrom(nodes, root, input, index + 1);
        LexFromTokens(nodes, root, input, index + 1);
      }
    }
  }

  /**
   * One round of lex: when some prefix of the rest is accepted, the first
   * token spans the longest such prefix and carries the name of the state it
   * reaches; when none is, the first character is skipped.
   */
  lemma LexFromStep(nodes: map<nat, Node>, root: nat, input: string, index: nat)
    requires Closed(nodes) && root in nodes && index < |input|
    ensures (forall k :: index < k <= |input| ==> !Accepting(nodes, root, input, index, k)) ==>
      LexFrom(nodes, root, input, index) == LexFrom(nodes, root, input, index + 1)
    ensures forall k :: index < k <= |input| && Accepting(nodes, root, input, index, k) ==>
      exists end :: k <= end <= |input| && Accepting(nodes, root, input, index, end)
        && (forall m :: end < m <= |input| ==> !Accepting(nodes, root, input, index, m))
        && var name := AcceptedName(nodes, root, input, index, end);
           LexFrom(nodes, root, input, index)
             == (if name != ";" then [(name, Strings.Trim(input[index..end]))] else []) + LexFrom(nodes, root, input, end)
  {
    ScanLongest(nodes, root, input, index, None);
    var r := Scan(nodes, root, input, index, None);
    if r.Some? {
      var end := r.value.0;
      assert forall m :: end < m <= |input| ==> !Accepting(nodes, root, input, index, m);
    }
  }
}
