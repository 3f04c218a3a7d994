/**
 * Sets of NFA states as subset construction sees them (src/dfa.rs): the
 * epsilon closure, the move on one character, the symbols that leave a set
 * and the name and flag a set gives its DFA state. A state id missing from
 * the node map has no edges, as the `if let Some(..)` lookups of the source
 * make it.
 */
module StateSets {
  import opened Automaton
  import Ordered

  /** The edges leaving `id`; none when `id` is not stored. */
  function Out(nfa: map<nat, Node>, id: nat): seq<Edge> {
    if id in nfa then nfa[id].outgoing else []
  }

  // ---------------------------------------------------------------------------
  // Epsilon closure
  // ---------------------------------------------------------------------------

  /** No edge labelled exactly `Lambda` leaves `s`. */
  ghost predicate LambdaClosed(nfa: map<nat, Node>, s: set<nat>) {
    forall id, e :: id in s && e in Out(nfa, id) && e.name == Lambda ==> e.to in s
  }

  /**
   * `r` is the epsilon closure of `s`: it holds `s`, no epsilon edge leaves it,
   * and it lies inside every set with those two properties, so it adds only
   * states reached from `s` by epsilon edges.
   */
  ghost predicate IsClosure(nfa: map<nat, Node>, s: set<nat>, r: set<nat>) {
    && s <= r
    && LambdaClosed(nfa, r)
    && forall t :: s <= t && LambdaClosed(nfa, t) ==> r <= t
  }

  /** A set has at most one epsilon closure. */
  lemma ClosureUnique(nfa: map<nat, Node>, s: set<nat>, r1: set<nat>, r2: set<nat>)
    requires IsClosure(nfa, s, r1) && IsClosure(nfa, s, r2)
    ensures r1 == r2
  {
    assert r1 <= r2 && r2 <= r1;
  }

  /** Closing a closure again changes nothing. */
  lemma ClosureIdempotent(nfa: map<nat, Node>, s: set<nat>, r: set<nat>, r': set<nat>)
    requires IsClosure(nfa, s, r) && IsClosure(nfa, r, r')
    ensures r' == r
  {
    assert IsClosure(nfa, r, r);
    ClosureUnique(nfa, r, r, r');
  }

  /** The closure of a set is empty exactly when the set is. */
  lemma ClosureEmpty(nfa: map<nat, Node>, s: set<nat>, r: set<nat>)
    requires IsClosure(nfa, s, r)
    ensures r == {} <==> s == {}
  {
    if s == {} {
      assert LambdaClosed(nfa, {});
      assert r <= {};
    }
  }

  /** When every edge ends at a stored state, the closure of stored states is made of stored states. */
  lemma ClosureWithin(nfa: map<nat, Node>, s: set<nat>, r: set<nat>)
    requires Closed(nfa) && s <= nfa.Keys && IsClosure(nfa, s, r)
    ensures r <= nfa.Keys
  {
    assert LambdaClosed(nfa, nfa.Keys);
  }

  // ---------------------------------------------------------------------------
  // Move
  // ---------------------------------------------------------------------------

  /** The targets of the edges whose label contains `ch`. */
  function Targets(edges: seq<Edge>, ch: char): set<nat> {
    if edges == [] then {}
    else
      var e := edges[|edges| - 1];
      Targets(edges[..|edges| - 1], ch) + if ch in e.name then {e.to} else {}
  }

  lemma {:induction false} TargetsSpec(edges: seq<Edge>, ch: char, t: nat)
    ensures t in Targets(edges, ch) <==> exists e :: e in edges && ch in e.name && e.to == t
  {
    if edges != [] {
      var pre := edges[..|edges| - 1];
      TargetsSpec(pre, ch, t);
      assert edges == pre + [edges[|edges| - 1]];
    }
  }

  /** `Targets` over the edges of each state of `ids`, in that order. */
  function MoveFrom(nfa: map<nat, Node>, ids: seq<nat>, ch: char): set<nat> {
    if ids == [] then {}
    else MoveFrom(nfa, ids[..|ids| - 1], ch) + Targets(Out(nfa, ids[|ids| - 1]), ch)
  }

  lemma {:induction false} MoveFromSpec(nfa: map<nat, Node>, ids: seq<nat>, ch: char, t: nat)
    ensures t in MoveFrom(nfa, ids, ch) <==>
      exists id, e :: id in ids && e in Out(nfa, id) && ch in e.name && e.to == t
  {
    if ids != [] {
      var pre, id := ids[..|ids| - 1], ids[|ids| - 1];
      MoveFromSpec(nfa, pre, ch, t);
      TargetsSpec(Out(nfa, id), ch, t);
      assert ids == pre + [id];
    }
  }

  /** `move_nfa`: the states reached from `s` over one edge whose label contains `ch`. */
  function Move(nfa: map<nat, Node>, s: set<nat>, ch: char): set<nat> {
    MoveFrom(nfa, Ordered.Ascending(s), ch)
  }

  /** A state is moved to exactly when some edge from `s` whose label contains `ch` ends there. */
  lemma MoveSpec(nfa: map<nat, Node>, s: set<nat>, ch: char, t: nat)
    ensures t in Move(nfa, s, ch) <==>
      exists id, e :: id in s && e in Out(nfa, id) && ch in e.name && e.to == t
  {
    MoveFromSpec(nfa, Ordered.Ascending(s), ch, t);
  }

  /**
   * The label test is containment, so the epsilon label itself is followed by
   * a move on any of its three characters '<', 'λ' and '>'.
   */
  lemma MoveFollowsLambda(nfa: map<nat, Node>, s: set<nat>, id: nat, e: Edge, ch: char)
    requires id in s && e in Out(nfa, id) && e.name == Lambda && ch in Lambda
    ensures e.to in Move(nfa, s, ch)
  {
    MoveSpec(nfa, s, ch, e.to);
  }

  /** When every edge ends at a stored state, so does every move. */
  lemma MoveWithin(nfa: map<nat, Node>, s: set<nat>, ch: char)
    requires Closed(nfa)
    ensures Move(nfa, s, ch) <= nfa.Keys
  {
    forall t | t in Move(nfa, s, ch) ensures t in nfa {
      MoveSpec(nfa, s, ch, t);
    }
  }

  // ---------------------------------------------------------------------------
  // Symbols
  // ---------------------------------------------------------------------------

  /** The characters of the labels other than the epsilon label. */
  function LabelChars(edges: seq<Edge>): set<char> {
    if edges == [] then {}
    else
      var e := edges[|edges| - 1];
      LabelChars(edges[..|edges| - 1]) + if e.name != Lambda then set c | c in e.name else {}
  }

  lemma {:induction false} LabelCharsSpec(edges: seq<Edge>, c: char)
    ensures c in LabelChars(edges) <==> exists e :: e in edges && e.name != Lambda && c in e.name
  {
    if edges != [] {
      var pre := edges[..|edges| - 1];
      LabelCharsSpec(pre, c);
      assert edges == pre + [edges[|edges| - 1]];
    }
  }

  /** `LabelChars` over the edges of each state of `ids`. */
  function SymbolsFrom(nfa: map<nat, Node>, ids: seq<nat>): set<char> {
    if ids == [] then {}
    else SymbolsFrom(nfa, ids[..|ids| - 1]) + LabelChars(Out(nfa, ids[|ids| - 1]))
  }

  lemma {:induction false} SymbolsFromSpec(nfa: map<nat, Node>, ids: seq<nat>, c: char)
    ensures c in SymbolsFrom(nfa, ids) <==>
      exists id, e :: id in ids && e in Out(nfa, id) && e.name != Lambda && c in e.name
  {
    if ids != [] {
      var pre, id := ids[..|ids| - 1], ids[|ids| - 1];
      SymbolsFromSpec(nfa, pre, c);
      LabelCharsSpec(Out(nfa, id), c);
      assert ids == pre + [id];
    }
  }

  /** `extract_symbols`: the characters of the non-epsilon labels leaving `s`. */
  function Symbols(nfa: map<nat, Node>, s: set<nat>): set<char> {
    SymbolsFrom(nfa, Ordered.Ascending(s))
  }

  /** A character is a symbol of `s` exactly when a non-epsilon label of an edge leaving `s` holds it. */
  lemma SymbolsSpec(nfa: map<nat, Node>, s: set<nat>, c: char)
    ensures c in Symbols(nfa, s) <==>
      exists id, e :: id in s && e in Out(nfa, id) && e.name != Lambda && c in e.name
  {
    SymbolsFromSpec(nfa, Ordered.Ascending(s), c);
  }

  /** Every symbol of `s` moves somewhere, so its closure is never empty. */
  lemma SymbolMoves(nfa: map<nat, Node>, s: set<nat>, c: char)
    requires c in Symbols(nfa, s)
    ensures Move(nfa, s, c) != {}
  {
    SymbolsSpec(nfa, s, c);
    var id, e :| id in s && e in Out(nfa, id) && e.name != Lambda && c in e.name;
    MoveSpec(nfa, s, c, e.to);
  }

  // ---------------------------------------------------------------------------
  // The DFA state a set stands for
  // ---------------------------------------------------------------------------

  /** Whether `id` is a stored terminal state. */
  predicate IsTerminal(nfa: map<nat, Node>, id: nat) {
    id in nfa && nfa[id].terminal
  }

  /** The terminal states of `s`. */
  function TerminalIds(nfa: map<nat, Node>, s: set<nat>): (r: set<nat>)
    ensures forall id :: id in r <==> id in s && IsTerminal(nfa, id)
  {
    set id | id in s && IsTerminal(nfa, id)
  }

  /** The names of the terminal states among `ids`, in order: the `filter_map` of create_dfa_state. */
  function TerminalNames(nfa: map<nat, Node>, ids: seq<nat>): seq<string> {
    if ids == [] then []
    else
      var id := ids[|ids| - 1];
      TerminalNames(nfa, ids[..|ids| - 1]) + if IsTerminal(nfa, id) then [nfa[id].name] else []
  }

  /** The name of the DFA state for `s`: its first terminal name, or "<>" when it has none. */
  function StateName(nfa: map<nat, Node>, s: set<nat>): string {
    var names := TerminalNames(nfa, Ordered.Ascending(s));
    if names == [] then "<>" else names[0]
  }

  /**
   * Over increasing ids the first terminal name is that of the smallest
   * terminal id, and there is a name exactly when there is a terminal id.
   */
  lemma {:induction false} FirstTerminalName(nfa: map<nat, Node>, ids: seq<nat>)
    requires forall i, j :: 0 <= i < j < |ids| ==> ids[i] < ids[j]
    ensures TerminalNames(nfa, ids) == [] <==> forall i :: 0 <= i < |ids| ==> !IsTerminal(nfa, ids[i])
    ensures TerminalNames(nfa, ids) != [] ==>
      exists i :: 0 <= i < |ids| && IsTerminal(nfa, ids[i]) && TerminalNames(nfa, ids)[0] == nfa[ids[i]].name
         && forall j :: 0 <= j < i ==> !IsTerminal(nfa, ids[j])
  {
    if ids != [] {
      var pre := ids[..|ids| - 1];
      FirstTerminalName(nfa, pre);
      var last := |ids| - 1;
      if TerminalNames(nfa, pre) != [] {
        var i :| 0 <= i < |pre| && IsTerminal(nfa, pre[i]) && TerminalNames(nfa, pre)[0] == nfa[pre[i]].name
           && forall j :: 0 <= j < i ==> !IsTerminal(nfa, pre[j]);
        assert ids[i] == pre[i];
      } else if IsTerminal(nfa, ids[last]) {
        assert forall j :: 0 <= j < last ==> !IsTerminal(nfa, ids[j]) by {
          forall j | 0 <= j < last ensures !IsTerminal(nfa, ids[j]) { assert ids[j] == pre[j]; }
        }
      } else {
        forall i | 0 <= i < |ids| ensures !IsTerminal(nfa, ids[i]) {
          if i < last { assert ids[i] == pre[i]; }
        }
      }
    }
  }

  /**
   * create_dfa_state's naming: a set with a terminal state is named after its
   * smallest terminal state, and a set without one is named "<>".
   */
  lemma StateNameSpec(nfa: map<nat, Node>, s: set<nat>)
    ensures TerminalIds(nfa, s) == {} ==> StateName(nfa, s) == "<>"
    ensures TerminalIds(nfa, s) != {} ==>
      StateName(nfa, s) == nfa[Ordered.MinNat(TerminalIds(nfa, s))].name
  {
    var ids := Ordered.Ascending(s);
    FirstTerminalName(nfa, ids);
    if TerminalIds(nfa, s) == {} {
      forall i | 0 <= i < |ids| ensures !IsTerminal(nfa, ids[i]) {
        assert ids[i] in s && ids[i] !in TerminalIds(nfa, s);
      }
    } else {
      var m := Ordered.MinNat(TerminalIds(nfa, s));
      assert m in ids;
      var k :| 0 <= k < |ids| && ids[k] == m;
      assert IsTerminal(nfa, ids[k]);
      var i :| 0 <= i < |ids| && IsTerminal(nfa, ids[i]) && TerminalNames(nfa, ids)[0] == nfa[ids[i]].name
         && forall j :: 0 <= j < i ==> !IsTerminal(nfa, ids[j]);
      assert ids[i] in TerminalIds(nfa, s);
      assert !(k < i) && !(i < k);
    }
  }
}
