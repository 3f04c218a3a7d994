/**
 * The regex-to-NFA compiler (src/nfa.rs). `Nfa` keeps its rules, the node
 * store and the root id as fields; `parse_regex` walks the pattern with a
 * stack of node ids and adds nodes and edges to the store in place.
 */
module NfaCompiler {
  import opened Wrappers
  import opened Automaton
  import opened RegexSyntax
  import opened Rules
  import Strings

  /** An id a parse started at `start` may touch: `start` itself or a node it created. */
  ghost predicate Owned(id: nat, start: nat, o: map<nat, Node>) {
    id == start || id !in o
  }

  /**
   * What a parse started at `start` may do to the nodes `o` it found: keep every
   * node and its name, append edges at `start` and nowhere else among them, and
   * leave every terminal flag as it was except at the ids in `marked`; the nodes
   * it adds are non-terminal unless marked.
   */
  ghost predicate Extends(o: map<nat, Node>, n: map<nat, Node>, start: nat, marked: set<nat>) {
    && (forall id :: id in o ==>
          && id in n && n[id].name == o[id].name
          && (if id == start then o[id].outgoing <= n[id].outgoing else n[id].outgoing == o[id].outgoing))
    && (forall id :: id in n && id !in marked ==> n[id].terminal == (id in o && o[id].terminal))
  }

  lemma ExtendsRefl(o: map<nat, Node>, start: nat)
    ensures Extends(o, o, start, {})
  {
  }

  lemma ExtendsAddNode(o: map<nat, Node>, n: map<nat, Node>, start: nat, marked: set<nat>, x: Node)
    requires Extends(o, n, start, marked) && x.id !in n && !x.terminal
    ensures Extends(o, n[x.id := x], start, marked)
  {
  }

  lemma ExtendsAddEdge(o: map<nat, Node>, n: map<nat, Node>, start: nat, marked: set<nat>,
                       from: nat, to: nat, sym: string)
    requires Extends(o, n, start, marked) && from in n && Owned(from, start, o)
    ensures Extends(o, n[from := n[from].AddOutgoingEdge(to, sym)], start, marked)
  {
    if from in o {
      assert o[from].outgoing <= n[from].outgoing <= n[from].AddOutgoingEdge(to, sym).outgoing;
    }
  }

  lemma ExtendsMark(o: map<nat, Node>, n: map<nat, Node>, start: nat, id: nat)
    requires Extends(o, n, start, {}) && id in n
    ensures Extends(o, n[id := n[id].SetTerminal(true)], start, {id})
  {
  }

  lemma ExtendsRename(o: map<nat, Node>, n: map<nat, Node>, start: nat, marked: set<nat>, id: nat, name: string)
    requires Extends(o, n, start, marked) && id in n && id !in o
    ensures Extends(o, n[id := n[id].SetName(name)], start, marked)
  {
  }

  /** A parse from an owned node, run inside a parse from `start`, stays within what the outer one may do. */
  lemma ExtendsTrans(o: map<nat, Node>, b: map<nat, Node>, c: map<nat, Node>, start: nat, inner: nat)
    requires Extends(o, b, start, {}) && Extends(b, c, inner, {}) && Owned(inner, start, o)
    ensures Extends(o, c, start, {})
  {
    forall id | id in o
      ensures if id == start then o[id].outgoing <= c[id].outgoing else c[id].outgoing == o[id].outgoing
    {
      if id == start {
        assert o[id].outgoing <= b[id].outgoing <= c[id].outgoing;
      }
    }
  }

  /** Every id of `ids` is stored and may be touched by a parse from `start`. */
  ghost predicate AllOwned(ids: seq<nat>, n: map<nat, Node>, start: nat, o: map<nat, Node>) {
    forall k :: 0 <= k < |ids| ==> ids[k] in n && Owned(ids[k], start, o)
  }

  /** Whether the last token of `re` makes parse_regex mark its top node, when asked to. */
  predicate MarksEnding(re: string) {
    var ts := Tokens(re);
    ts != [] && ts[|ts| - 1].MarksEnd()
  }

  /** Whether the last token of `re` also names that node after the rule and returns it. */
  predicate NamesEnding(re: string) {
    var ts := Tokens(re);
    ts != [] && ts[|ts| - 1].NamesEnd()
  }

  /** The four single-character labels of a `\s` node. */
  const SpaceLabels: seq<string> := [" ", "\t", "\n", "\r"]

  /** `n` with one edge to `to` appended per label, in order. */
  function AddEdges(n: Node, to: nat, labels: seq<string>): (r: Node)
    ensures r.name == n.name && r.id == n.id && r.terminal == n.terminal
    ensures |r.outgoing| == |n.outgoing| + |labels|
    ensures r.outgoing[..|n.outgoing|] == n.outgoing
    ensures forall k :: 0 <= k < |labels| ==> r.outgoing[|n.outgoing| + k] == Edge(n.id, to, labels[k])
    decreases |labels|
  {
    if labels == [] then n
    else AddEdges(n.AddOutgoingEdge(to, labels[0]), to, labels[1..])
  }

  lemma {:induction false} AddEdgesLast(n: Node, to: nat, labels: seq<string>, l: string)
    ensures AddEdges(n, to, labels + [l]) == AddEdges(n, to, labels).AddOutgoingEdge(to, l)
    decreases |labels|
  {
    if labels == [] {
      assert [l][1..] == [];
    } else {
      assert (labels + [l])[1..] == labels[1..] + [l];
      AddEdgesLast(n.AddOutgoingEdge(to, labels[0]), to, labels[1..], l);
    }
  }

  lemma {:induction false} ValidAddEdges(nodes: map<nat, Node>, counter: nat, from: nat, to: nat, labels: seq<string>)
    requires ValidGraph(nodes, counter) && from in nodes && to in nodes
    ensures ValidGraph(nodes[from := AddEdges(nodes[from], to, labels)], counter)
    decreases |labels|
  {
    if labels != [] {
      var n1 := nodes[from := nodes[from].AddOutgoingEdge(to, labels[0])];
      ValidAddEdge(nodes, counter, from, to, labels[0]);
      ValidAddEdges(n1, counter, from, to, labels[1..]);
      assert n1[from := AddEdges(n1[from], to, labels[1..])] == nodes[from := AddEdges(nodes[from], to, labels)];
    }
  }

  lemma {:induction false} ExtendsAddEdges(o: map<nat, Node>, nodes: map<nat, Node>, start: nat, marked: set<nat>,
                                           from: nat, to: nat, labels: seq<string>)
    requires Extends(o, nodes, start, marked) && from in nodes && Owned(from, start, o)
    ensures Extends(o, nodes[from := AddEdges(nodes[from], to, labels)], start, marked)
    decreases |labels|
  {
    if labels != [] {
      var n1 := nodes[from := nodes[from].AddOutgoingEdge(to, labels[0])];
      ExtendsAddEdge(o, nodes, start, marked, from, to, labels[0]);
      ExtendsAddEdges(o, n1, start, marked, from, to, labels[1..]);
      assert n1[from := AddEdges(n1[from], to, labels[1..])] == nodes[from := AddEdges(nodes[from], to, labels)];
    }
  }

  /**
   * The characters of `re` from `from` up to the first `close` (the inner
   * `while let` of the '[' and '(' branches), and the index after the close.
   */
  method ReadUntil(re: string, from: nat, close: char) returns (body: string, next: nat)
    requires from <= |re|
    ensures var e := CloseAt(re, from, close);
      body == re[from..e] && next == (if e < |re| then e + 1 else e)
  {
    body := [];
    var j := from;
    while j < |re| && re[j] != close
      invariant from <= j <= |re|
      invariant body == re[from..j]
      invariant forall k :: from <= k < j ==> re[k] != close
    {
      body := body + [re[j]];
      j := j + 1;
    }
    CloseAtUnique(re, from, close, j);
    next := if j < |re| then j + 1 else j;
  }

  /** `set_chars` of parse_regex_set: the characters the set body denotes, in order. */
  method CollectSetChars(s: string) returns (setChars: seq<char>)
    requires SetItems(s, None).Some?
    ensures setChars == SetItems(s, None).value
  {
    setChars := [];
    var prev: Option<char> := None;
    var i := 0;
    assert s[0..] == s;
    assert [] + SetItems(s, None).value == SetItems(s, None).value;
    while i < |s|
      invariant 0 <= i <= |s|
      invariant Then(setChars, SetItems(s[i..], prev)) == SetItems(s, None)
      decreases |s| - i
    {
      var c := s[i];
      ghost var here := s[i..];
      assert here[0] == c && here[1..] == s[i + 1..];
      if c == '\\' {
        assert |here| > 1;
        var next := s[i + 1];
        assert here[2..] == s[i + 2..];
        var added := if next == 's' then SpaceChars else [next];
        ThenAssoc(setChars, added, SetItems(s[i + 2..], Some(next)));
        setChars := setChars + added;
        prev := Some(next);
        i := i + 2;
      } else if c == '-' {
        if prev.Some? {
          assert |here| > 1 && prev.value as int % 256 != 255;
          var endChar := s[i + 1];
          assert here[2..] == s[i + 2..];
          var range := CollectRange(prev.value as int % 256 + 1, endChar as int);
          ThenAssoc(setChars, range, SetItems(s[i + 2..], Some(endChar)));
          setChars := setChars + range;
          prev := Some(endChar);
          i := i + 2;
        } else {
          i := i + 1;
        }
      } else {
        ThenAssoc(setChars, [c], SetItems(s[i + 1..], Some(c)));
        setChars := setChars + [c];
        prev := Some(c);
        i := i + 1;
      }
    }
    assert s[|s|..] == [];
    assert setChars + [] == setChars;
  }

  /** `for ch in lo..=hi`: every scalar value from `lo` to `hi`, surrogates skipped. */
  method CollectRange(lo: int, hi: int) returns (r: seq<char>)
    requires 0 <= lo && hi < 0x11_0000
    ensures r == RangeChars(lo, hi)
  {
    r := [];
    var code := lo;
    while code <= hi
      invariant lo <= code
      invariant r + RangeChars(code, hi) == RangeChars(lo, hi)
      decreases hi - code
    {
      if 0xD800 <= code < 0xE000 {
        assert RangeChars(code, hi) == RangeChars(code + 1, hi);
      } else {
        r := r + [code as char];
      }
      code := code + 1;
    }
  }

  /** The label of a negated set: printable ASCII outside `setChars`, ascending. */
  method ComplementLabel(setChars: seq<char>) returns (edgeName: string)
    ensures edgeName == PrintableNotIn(setChars, 32)
  {
    edgeName := [];
    for code := 32 to 127
      invariant edgeName + PrintableNotIn(setChars, code) == PrintableNotIn(setChars, 32)
    {
      var ch := code as char;
      ghost var rest := PrintableNotIn(setChars, code + 1);
      assert PrintableNotIn(setChars, code) == (if ch in setChars then [] else [ch]) + rest;
      if ch !in setChars {
        assert edgeName + ([ch] + rest) == (edgeName + [ch]) + rest;
        edgeName := edgeName + [ch];
      } else {
        assert [] + rest == rest;
      }
    }
    assert PrintableNotIn(setChars, 127) == [];
    assert edgeName + [] == edgeName;
  }

  /** `nodes` with an epsilon edge to `m` appended at each of `ends`, in order. */
  function MergeEdges(nodes: map<nat, Node>, ends: seq<nat>, m: nat): (r: map<nat, Node>)
    requires forall k :: 0 <= k < |ends| ==> ends[k] in nodes
    ensures r.Keys == nodes.Keys
  {
    if ends == [] then nodes
    else
      var r := MergeEdges(nodes, ends[..|ends| - 1], m);
      var e := ends[|ends| - 1];
      r[e := r[e].AddOutgoingEdge(m, Lambda)]
  }

  /** Merge edges only append edges: every node keeps its id, name, flag and earlier edges. */
  lemma {:induction false} MergeEdgesKeeps(nodes: map<nat, Node>, ends: seq<nat>, m: nat)
    requires forall k :: 0 <= k < |ends| ==> ends[k] in nodes
    ensures forall id :: id in nodes ==>
      var r := MergeEdges(nodes, ends, m);
      && r[id].id == nodes[id].id && r[id].name == nodes[id].name && r[id].terminal == nodes[id].terminal
      && nodes[id].outgoing <= r[id].outgoing
    ensures forall id :: id in nodes && id !in ends ==> MergeEdges(nodes, ends, m)[id] == nodes[id]
    decreases |ends|
  {
    if ends != [] {
      MergeEdgesKeeps(nodes, ends[..|ends| - 1], m);
      var r := MergeEdges(nodes, ends[..|ends| - 1], m);
      forall id | id in nodes
        ensures nodes[id].outgoing <= MergeEdges(nodes, ends, m)[id].outgoing
      {
        assert r[id].outgoing <= r[id].AddOutgoingEdge(m, Lambda).outgoing;
      }
      forall id | id in nodes && id !in ends
        ensures MergeEdges(nodes, ends, m)[id] == nodes[id]
      {
        assert id !in ends[..|ends| - 1];
      }
    }
  }

  /** After the merge every branch end has an edge to the merge node. */
  lemma {:induction false} MergeEdgesAdds(nodes: map<nat, Node>, ends: seq<nat>, m: nat)
    requires WellKeyed(nodes) && forall k :: 0 <= k < |ends| ==> ends[k] in nodes
    ensures forall k :: 0 <= k < |ends| ==> Edge(ends[k], m, Lambda) in MergeEdges(nodes, ends, m)[ends[k]].outgoing
    decreases |ends|
  {
    if ends != [] {
      var init := ends[..|ends| - 1];
      MergeEdgesAdds(nodes, init, m);
      MergeEdgesKeeps(nodes, init, m);
      var r := MergeEdges(nodes, init, m);
      var e := ends[|ends| - 1];
      var r' := r[e := r[e].AddOutgoingEdge(m, Lambda)];
      forall k | 0 <= k < |ends|
        ensures Edge(ends[k], m, Lambda) in r'[ends[k]].outgoing
      {
        if ends[k] == e {
          assert r'[e].outgoing[|r[e].outgoing|] == Edge(e, m, Lambda);
        } else {
          assert ends[k] == init[k];
        }
      }
    }
  }

  lemma {:induction false} ValidMergeEdges(nodes: map<nat, Node>, counter: nat, ends: seq<nat>, m: nat)
    requires ValidGraph(nodes, counter) && m in nodes
    requires forall k :: 0 <= k < |ends| ==> ends[k] in nodes
    ensures ValidGraph(MergeEdges(nodes, ends, m), counter)
    decreases |ends|
  {
    if ends != [] {
      ValidMergeEdges(nodes, counter, ends[..|ends| - 1], m);
      var r := MergeEdges(nodes, ends[..|ends| - 1], m);
      ValidAddEdge(r, counter, ends[|ends| - 1], m, Lambda);
    }
  }

  lemma {:induction false} ExtendsMergeEdges(o: map<nat, Node>, nodes: map<nat, Node>, start: nat, marked: set<nat>,
                                             ends: seq<nat>, m: nat)
    requires Extends(o, nodes, start, marked) && AllOwned(ends, nodes, start, o)
    ensures Extends(o, MergeEdges(nodes, ends, m), start, marked)
    decreases |ends|
  {
    if ends != [] {
      var init := ends[..|ends| - 1];
      assert AllOwned(init, nodes, start, o);
      ExtendsMergeEdges(o, nodes, start, marked, init, m);
      var r := MergeEdges(nodes, init, m);
      ExtendsAddEdge(o, r, start, marked, ends[|ends| - 1], m, Lambda);
    }
  }

  /**
   * The nodes after the '*' branch: a fresh merge node `m` named `name`, with
   * epsilon edges `prev -> m`, `repeat -> m` and `m -> prev`, in that order.
   */
  ghost function StarNodes(nodes: map<nat, Node>, prev: nat, repeat: nat, m: nat, name: string): map<nat, Node>
    requires prev in nodes && repeat in nodes
  {
    var n1 := nodes[m := Node(name, [], m, false)];
    var n2 := n1[prev := n1[prev].AddOutgoingEdge(m, Lambda)];
    var n3 := n2[repeat := n2[repeat].AddOutgoingEdge(m, Lambda)];
    n3[m := n3[m].AddOutgoingEdge(prev, Lambda)]
  }

  /** The nodes with `id` made terminal when `ending` holds, as mark_ending does for a node that is not renamed. */
  ghost function MarkedIf(nodes: map<nat, Node>, id: nat, ending: bool): map<nat, Node>
    requires id in nodes
  {
    if ending then nodes[id := nodes[id].(terminal := true)] else nodes
  }

  /**
   * The graph side of parse_regex's loop state: the graph is valid, its
   * counter has not gone back, and the stack (based at `start`) and the saved
   * branch ends are stored nodes the parse may touch.
   */
  ghost predicate Built(nodes: map<nat, Node>, counter: nat, o: map<nat, Node>, c0: nat, start: nat,
                        stack: seq<nat>, alternatives: seq<nat>)
  {
    && ValidGraph(nodes, counter) && c0 <= counter
    && |stack| >= 1 && stack[0] == start
    && AllOwned(stack, nodes, start, o) && AllOwned(alternatives, nodes, start, o)
  }

  /** A branch that pushes a node keeps the loop state, as the graph only grows. */
  lemma BuiltPush(nodes: map<nat, Node>, counter: nat, nodes': map<nat, Node>, counter': nat,
                  o: map<nat, Node>, c0: nat, start: nat, stack: seq<nat>, alternatives: seq<nat>, top: nat)
    requires Built(nodes, counter, o, c0, start, stack, alternatives)
    requires ValidGraph(nodes', counter') && counter <= counter' && nodes.Keys <= nodes'.Keys
    requires top in nodes' && Owned(top, start, o)
    ensures Built(nodes', counter', o, c0, start, stack + [top], alternatives)
  {
  }

  /** A branch that replaces the top node ('*', '?') keeps the loop state. */
  lemma BuiltSwapTop(nodes: map<nat, Node>, counter: nat, nodes': map<nat, Node>, counter': nat,
                     o: map<nat, Node>, c0: nat, start: nat, stack: seq<nat>, alternatives: seq<nat>, top: nat)
    requires Built(nodes, counter, o, c0, start, stack, alternatives) && |stack| >= 2
    requires ValidGraph(nodes', counter') && counter <= counter' && nodes.Keys <= nodes'.Keys
    requires top in nodes' && Owned(top, start, o)
    ensures Built(nodes', counter', o, c0, start, stack[..|stack| - 1] + [top], alternatives)
  {
  }

  /** The '|' token: the branch end is saved and the stack's top goes back to the branch start. */
  lemma AltStep(nodes: map<nat, Node>, counter: nat, o: map<nat, Node>, c0: nat, start: nat,
                stack: seq<nat>, alternatives: seq<nat>)
    requires Built(nodes, counter, o, c0, start, stack, alternatives)
    ensures Built(nodes, counter, o, c0, start, stack[..|stack| - 1] + [start], alternatives + [stack[|stack| - 1]])
  {
  }

  /** The last of the tokens read so far (`Alt`, which marks nothing, before the first). */
  function LastToken(done: seq<Token>): Token {
    if done == [] then Alt else done[|done| - 1]
  }

  /**
   * What a parse from `start` has done once its last token `t` is read:
   * with `ending` (the pattern is used up and `mark_ending` is set) a marking
   * token has made `top` terminal, a naming one has also renamed it after the
   * rule and made it the end node; otherwise the end node is still `endId0`.
   */
  ghost predicate Finished(o: map<nat, Node>, nodes: map<nat, Node>, name: string, start: nat,
                           ending: bool, t: Token, top: nat, endId0: nat, endId: nat)
  {
    && Extends(o, nodes, start, if ending && t.MarksEnd() then {top} else {})
    && (ending && t.MarksEnd() ==> top in nodes && nodes[top].terminal)
    && (if ending && t.NamesEnd() then top !in o && top in nodes && nodes[top].name == name && endId == top
        else endId == endId0)
  }

  /** Two successive extensions from the same start are one, marking what either marked. */
  lemma ExtendsCompose(o: map<nat, Node>, b: map<nat, Node>, c: map<nat, Node>, start: nat,
                       marked: set<nat>, marked': set<nat>)
    requires Extends(o, b, start, marked) && Extends(b, c, start, marked')
    ensures Extends(o, c, start, marked + marked')
  {
    forall id | id in o && id == start ensures o[id].outgoing <= c[id].outgoing {
      assert o[id].outgoing <= b[id].outgoing <= c[id].outgoing;
    }
  }

  /** construct skips the rules named ";", which the lexer uses for separators. */
  predicate Compiled(rule: Rule) {
    rule.name != ";"
  }

  /** The end nodes `tops[k]` that construct marks, one per compiled rule whose pattern marks its end. */
  function MarkedEnds(rules: seq<Rule>, tops: seq<nat>): set<nat>
    requires |tops| == |rules|
  {
    if rules == [] then {}
    else
      var k := |rules| - 1;
      MarkedEnds(rules[..k], tops[..k])
        + if Compiled(rules[k]) && MarksEnding(rules[k].pattern) then {tops[k]} else {}
  }

  /** Exactly the ends of the compiled rules whose pattern marks its end are marked. */
  lemma {:induction false} MarkedEndsSpec(rules: seq<Rule>, tops: seq<nat>, id: nat)
    requires |tops| == |rules|
    ensures id in MarkedEnds(rules, tops) <==>
      exists k :: 0 <= k < |rules| && Compiled(rules[k]) && MarksEnding(rules[k].pattern) && tops[k] == id
  {
    if rules != [] {
      var k := |rules| - 1;
      MarkedEndsSpec(rules[..k], tops[..k], id);
      if id in MarkedEnds(rules[..k], tops[..k]) {
        var j :| 0 <= j < k && Compiled(rules[..k][j]) && MarksEnding(rules[..k][j].pattern) && tops[..k][j] == id;
        assert Compiled(rules[j]) && MarksEnding(rules[j].pattern) && tops[j] == id;
      }
    }
  }

  /**
   * What construct has done after `rules`, from the nodes `n0` it found: the
   * graph grew from `root` only, marking the ends `tops` of the compiled rules
   * whose pattern marks its end; those are terminal, and every character end
   * carries its rule's name.
   */
  ghost predicate Constructed(n0: map<nat, Node>, nodes: map<nat, Node>, root: nat, rules: seq<Rule>, tops: seq<nat>) {
    && |tops| == |rules|
    && Extends(n0, nodes, root, MarkedEnds(rules, tops))
    && (forall id :: id in MarkedEnds(rules, tops) ==> id in nodes && nodes[id].terminal)
    && (forall k :: 0 <= k < |rules| && Compiled(rules[k]) && NamesEnding(rules[k].pattern) ==>
          tops[k] in nodes && nodes[tops[k]].name == rules[k].name)
  }

  /** A compiled rule adds its parse, and its end, to what construct has done. */
  lemma ConstructedParse(n0: map<nat, Node>, n1: map<nat, Node>, n2: map<nat, Node>, root: nat,
                         rules: seq<Rule>, tops: seq<nat>, rule: Rule, top: nat)
    requires Constructed(n0, n1, root, rules, tops) && Compiled(rule)
    requires Extends(n1, n2, root, if MarksEnding(rule.pattern) then {top} else {})
    requires MarksEnding(rule.pattern) ==> top in n2 && n2[top].terminal
    requires NamesEnding(rule.pattern) ==> top in n2 && n2[top].name == rule.name
    ensures Constructed(n0, n2, root, rules + [rule], tops + [top])
  {
    var rs, ts := rules + [rule], tops + [top];
    assert rs[..|rules|] == rules && ts[..|rules|] == tops;
    var marked := if MarksEnding(rule.pattern) then {top} else {};
    assert MarkedEnds(rs, ts) == MarkedEnds(rules, tops) + marked;
    ExtendsCompose(n0, n1, n2, root, MarkedEnds(rules, tops), marked);
  }

  /** A rule named ";" changes nothing; its end is recorded as the root. */
  lemma ConstructedSkip(n0: map<nat, Node>, nodes: map<nat, Node>, root: nat,
                        rules: seq<Rule>, tops: seq<nat>, rule: Rule)
    requires Constructed(n0, nodes, root, rules, tops) && !Compiled(rule)
    ensures Constructed(n0, nodes, root, rules + [rule], tops + [root])
  {
    var rs, ts := rules + [rule], tops + [root];
    assert rs[..|rules|] == rules && ts[..|rules|] == tops;
    assert MarkedEnds(rs, ts) == MarkedEnds(rules, tops);
  }

  /** The automaton under construction, `struct Nfa`. */
  class Nfa {
    var keywords: seq<Rule>
    const graph: Graph
    var rootId: nat

    ghost predicate Valid()
      reads this, graph
    {
      graph.Valid() && rootId in graph.nodes
    }

    /** `Nfa::new`: one node, the non-terminal root named "NFA", and no rules. */
    constructor ()
      ensures Valid() && fresh(graph)
      ensures keywords == []
      ensures graph.nodes == map[rootId := Node("NFA", [], rootId, false)]
      ensures rootId == 1 && graph.counter == 1
    {
      var g := new Graph();
      var root := g.NewNode("NFA", false);
      g.Insert(root);
      keywords := [];
      graph := g;
      rootId := root.id;
    }

    /** The loop of `add_keywords_from_file` over the lines of the rules file. */
    method AddKeywordsFromLines(lines: seq<string>)
      requires forall line :: line in lines ==> Parsable(line)
      modifies this
      ensures keywords == old(keywords) + RulesOf(lines)
      ensures rootId == old(rootId)
    {
      ghost var before := keywords;
      for k := 0 to |lines|
        invariant keywords == before + RulesOf(lines[..k])
        invariant rootId == old(rootId)
      {
        var rules := LineRules(lines[k]);
        RulesOfNext(before, lines, k);
        keywords := keywords + rules;
      }
      assert lines[..|lines|] == lines;
    }

    /** The loop body of add_keywords_from_lines: no rule for a skipped line, else the line's rule. */
    method LineRules(line: string) returns (rules: seq<Rule>)
      requires Parsable(line)
      ensures rules == RulesOf([line])
    {
      RulesOfLine(line);
      if Skipped(line) {
        return [];
      }
      var parts := Strings.Words(line);
      var name := Strings.TrimQuotes(parts[|parts| - 1]);
      var keyword := Strings.JoinSpace(parts[..|parts| - 1]);
      rules := [Rule(keyword, name)];
    }

    /** A fresh non-terminal node named `nodeName`, reached from `from` by one edge labelled `sym`. */
    method AddNodeAfter(from: nat, nodeName: string, sym: string,
                        ghost o: map<nat, Node>, ghost root: nat, ghost marked: set<nat>) returns (id: nat)
      requires graph.Valid() && from in graph.nodes
      requires Extends(o, graph.nodes, root, marked) && Owned(from, root, o)
      modifies graph
      ensures id == old(graph.counter) + 1 && graph.counter == id && id !in old(graph.nodes)
      ensures var n1 := old(graph.nodes)[id := Node(nodeName, [], id, false)];
              graph.nodes == n1[from := n1[from].AddOutgoingEdge(id, sym)]
      ensures old(graph.nodes).Keys <= graph.nodes.Keys
      ensures graph.Valid() && Extends(o, graph.nodes, root, marked)
    {
      var n := graph.NewNode(nodeName, false);
      id := n.id;
      ghost var n0 := graph.nodes;
      graph.Insert(n);
      ValidAddNode(n0, id - 1, n);
      ExtendsAddNode(o, n0, root, marked, n);
      ghost var n1 := graph.nodes;
      graph.AddOutgoingEdge(from, id, sym);
      ValidAddEdge(n1, id, from, id, sym);
      ExtendsAddEdge(o, n1, root, marked, from, id, sym);
    }

    /** The `\s` branch: a fresh node named after the rule, with one edge per whitespace label. */
    method AddSpaceNode(from: nat, name: string,
                        ghost o: map<nat, Node>, ghost root: nat, ghost marked: set<nat>) returns (id: nat)
      requires graph.Valid() && from in graph.nodes
      requires Extends(o, graph.nodes, root, marked) && Owned(from, root, o)
      modifies graph
      ensures id == old(graph.counter) + 1 && graph.counter == id && id !in old(graph.nodes)
      ensures var n1 := old(graph.nodes)[id := Node(name, [], id, false)];
              graph.nodes == n1[from := AddEdges(n1[from], id, SpaceLabels)]
      ensures old(graph.nodes).Keys <= graph.nodes.Keys
      ensures graph.Valid() && Extends(o, graph.nodes, root, marked)
    {
      var n := graph.NewNode(name, false);
      id := n.id;
      ghost var n0 := graph.nodes;
      graph.Insert(n);
      ValidAddNode(n0, id - 1, n);
      ExtendsAddNode(o, n0, root, marked, n);
      ghost var n1 := graph.nodes;
      AddSpaceEdges(from, id);
      ValidAddEdges(n1, id, from, id, SpaceLabels);
      ExtendsAddEdges(o, n1, root, marked, from, id, SpaceLabels);
    }

    /** The `for ws in [" ", "\t", "\n", "\r"]` loop of the `\s` branch: one edge from `from` to `id` per label. */
    method AddSpaceEdges(from: nat, id: nat)
      requires from in graph.nodes
      modifies graph
      ensures graph.nodes == old(graph.nodes)[from := AddEdges(old(graph.nodes)[from], id, SpaceLabels)]
      ensures graph.counter == old(graph.counter)
    {
      ghost var n1 := graph.nodes;
      for k := 0 to |SpaceLabels|
        invariant graph.counter == old(graph.counter)
        invariant graph.nodes == n1[from := AddEdges(n1[from], id, SpaceLabels[..k])]
      {
        AddEdgesLast(n1[from], id, SpaceLabels[..k], SpaceLabels[k]);
        assert SpaceLabels[..k + 1] == SpaceLabels[..k] + [SpaceLabels[k]];
        graph.AddOutgoingEdge(from, id, SpaceLabels[k]);
      }
      assert SpaceLabels[..|SpaceLabels|] == SpaceLabels;
    }

    /**
     * The '*' branch: a fresh merge node named after the rule, with epsilon
     * edges `prev -> merge`, `repeat -> merge` and `merge -> prev`.
     */
    method AddStar(prev: nat, repeat: nat, name: string,
                   ghost o: map<nat, Node>, ghost root: nat) returns (m: nat)
      requires graph.Valid() && prev in graph.nodes && repeat in graph.nodes
      requires Extends(o, graph.nodes, root, {}) && Owned(prev, root, o) && Owned(repeat, root, o)
      modifies graph
      ensures m == old(graph.counter) + 1 && graph.counter == m && m !in old(graph.nodes)
      ensures graph.nodes == StarNodes(old(graph.nodes), prev, repeat, m, name)
      ensures old(graph.nodes).Keys <= graph.nodes.Keys
      ensures graph.Valid() && Extends(o, graph.nodes, root, {})
    {
      var n := graph.NewNode(name, false);
      m := n.id;
      ghost var n0 := graph.nodes;
      graph.Insert(n);
      ValidAddNode(n0, m - 1, n);
      ExtendsAddNode(o, n0, root, {}, n);
      ghost var n1 := graph.nodes;
      graph.AddOutgoingEdge(prev, m, Lambda);
      ValidAddEdge(n1, m, prev, m, Lambda);
      ExtendsAddEdge(o, n1, root, {}, prev, m, Lambda);
      ghost var n2 := graph.nodes;
      graph.AddOutgoingEdge(repeat, m, Lambda);
      ValidAddEdge(n2, m, repeat, m, Lambda);
      ExtendsAddEdge(o, n2, root, {}, repeat, m, Lambda);
      ghost var n3 := graph.nodes;
      graph.AddOutgoingEdge(m, prev, Lambda);
      ValidAddEdge(n3, m, m, prev, Lambda);
      ExtendsAddEdge(o, n3, root, {}, m, prev, Lambda);
    }

    /**
     * The '?' branch: epsilon edges `prev -> merge` and `optional -> merge` to a
     * fresh node named "?", which is stored after its incoming edges are added.
     */
    method AddOpt(prev: nat, optional: nat, ghost o: map<nat, Node>, ghost root: nat) returns (m: nat)
      requires graph.Valid() && prev in graph.nodes && optional in graph.nodes
      requires Extends(o, graph.nodes, root, {}) && Owned(prev, root, o) && Owned(optional, root, o)
      modifies graph
      ensures m == old(graph.counter) + 1 && graph.counter == m && m !in old(graph.nodes)
      ensures var n1 := old(graph.nodes)[prev := old(graph.nodes)[prev].AddOutgoingEdge(m, Lambda)];
              var n2 := n1[optional := n1[optional].AddOutgoingEdge(m, Lambda)];
              graph.nodes == n2[m := Node("?", [], m, false)]
      ensures old(graph.nodes).Keys <= graph.nodes.Keys
      ensures graph.Valid() && Extends(o, graph.nodes, root, {})
    {
      var n := graph.NewNode("?", false);
      m := n.id;
      ghost var n0 := graph.nodes;
      graph.AddOutgoingEdge(prev, m, Lambda);
      ghost var n1 := graph.nodes;
      graph.AddOutgoingEdge(optional, m, Lambda);
      ghost var n2 := graph.nodes;
      graph.Insert(n);
      // The same map, with the node stored before its incoming edges.
      ghost var s1 := n0[m := n];
      ghost var s2 := s1[prev := s1[prev].AddOutgoingEdge(m, Lambda)];
      EdgeBeforeNode(n0, prev, n, Lambda);
      EdgeBeforeNode(n1, optional, n, Lambda);
      assert graph.nodes == s2[optional := s2[optional].AddOutgoingEdge(m, Lambda)];
      ValidAddNode(n0, m - 1, n);
      ValidAddEdge(s1, m, prev, m, Lambda);
      ValidAddEdge(s2, m, optional, m, Lambda);
      ExtendsAddNode(o, n0, root, {}, n);
      ExtendsAddEdge(o, s1, root, {}, prev, m, Lambda);
      ExtendsAddEdge(o, s2, root, {}, optional, m, Lambda);
    }

    /** The loop of parse_regex that links every branch end to the merge node `m`. */
    method AddMergeEdges(ends: seq<nat>, m: nat)
      requires forall k :: 0 <= k < |ends| ==> ends[k] in graph.nodes
      modifies graph
      ensures graph.nodes == MergeEdges(old(graph.nodes), ends, m) && graph.counter == old(graph.counter)
    {
      ghost var n1 := graph.nodes;
      for k := 0 to |ends|
        invariant graph.counter == old(graph.counter)
        invariant graph.nodes == MergeEdges(n1, ends[..k], m)
      {
        graph.AddOutgoingEdge(ends[k], m, Lambda);
        assert ends[..k + 1][..k] == ends[..k];
      }
      assert ends[..|ends|] == ends;
    }

    /** The end of parse_regex after a '|': a fresh merge node fed by an epsilon edge from every branch end. */
    method AddMerge(ends: seq<nat>, name: string, ghost o: map<nat, Node>, ghost root: nat, ghost marked: set<nat>)
      returns (m: nat)
      requires graph.Valid() && AllOwned(ends, graph.nodes, root, o)
      requires Extends(o, graph.nodes, root, marked)
      modifies graph
      ensures m == old(graph.counter) + 1 && graph.counter == m && m !in old(graph.nodes)
      ensures graph.nodes == MergeEdges(old(graph.nodes)[m := Node(name, [], m, false)], ends, m)
      ensures graph.nodes[m].name == name && !graph.nodes[m].terminal
      ensures forall id :: id in old(graph.nodes) ==>
        graph.nodes[id].name == old(graph.nodes)[id].name && graph.nodes[id].terminal == old(graph.nodes)[id].terminal
      ensures forall k :: 0 <= k < |ends| ==> Edge(ends[k], m, Lambda) in graph.nodes[ends[k]].outgoing
      ensures graph.Valid() && Extends(o, graph.nodes, root, marked)
    {
      ghost var n0 := graph.nodes;
      var n := graph.NewNode(name, false);
      m := n.id;
      graph.Insert(n);
      ghost var n1 := graph.nodes;
      ValidAddNode(n0, m - 1, n);
      ExtendsAddNode(o, n0, root, marked, n);
      assert AllOwned(ends, n1, root, o);
      AddMergeEdges(ends, m);
      MergeEdgesKeeps(n1, ends, m);
      MergeEdgesAdds(n1, ends, m);
      ValidMergeEdges(n1, m, ends, m);
      ExtendsMergeEdges(o, n1, root, marked, ends, m);
    }

    /**
     * `parse_regex_set`: exactly one fresh non-terminal node named after the
     * rule, and one edge from `start` to it labelled with the set's label.
     */
    method ParseRegexSet(body: string, name: string, start: nat) returns (newId: nat)
      requires graph.Valid() && start in graph.nodes
      requires SetLabel(body).Some?
      modifies graph
      ensures newId == old(graph.counter) + 1 && graph.counter == newId
      ensures graph.nodes == old(graph.nodes)[start := old(graph.nodes)[start].AddOutgoingEdge(newId, SetLabel(body).value)]
                                             [newId := Node(name, [], newId, false)]
      ensures graph.Valid() && Extends(old(graph.nodes), graph.nodes, start, {})
    {
      var newNode := graph.NewNode(name, false);
      newId := newNode.id;
      var negated := body != [] && body[0] == '^';
      var items := if negated then body[1..] else body;
      var setChars := CollectSetChars(items);
      var edgeName: string;
      if negated {
        edgeName := ComplementLabel(setChars);
      } else {
        edgeName := [];
        for k := 0 to |setChars|
          invariant edgeName == setChars[..k]
        {
          edgeName := edgeName + [setChars[k]];
        }
        assert setChars[..|setChars|] == setChars;
      }
      ghost var n0 := graph.nodes;
      graph.AddOutgoingEdge(start, newId, edgeName);
      graph.Insert(newNode);
      ghost var s1 := n0[newId := newNode];
      EdgeBeforeNode(n0, start, newNode, edgeName);
      ValidAddNode(n0, newId - 1, newNode);
      ValidAddEdge(s1, newId, start, newId, edgeName);
      ExtendsRefl(n0, start);
      ExtendsAddNode(n0, n0, start, {}, newNode);
      ExtendsAddEdge(n0, s1, start, {}, start, newId, edgeName);
    }

    /**
     * `parse_regex_group`: a fresh group-start node named "(", an epsilon edge
     * from `start` to it, and the group body compiled from there. The result is
     * the group-start node unless the body holds a '|'.
     */
    method ParseRegexGroup(body: string, name: string, start: nat) returns (endId: nat)
      requires graph.Valid() && start in graph.nodes
      requires WellFormed(body)
      modifies graph
      decreases |body|, 3
      ensures graph.Valid() && old(graph.counter) < graph.counter
      ensures Extends(old(graph.nodes), graph.nodes, start, {})
      ensures var gs := old(graph.counter) + 1;
        && gs in graph.nodes && graph.nodes[gs].name == "("
        && graph.nodes[start].outgoing == old(graph.nodes)[start].outgoing + [Edge(start, gs, Lambda)]
        && (Alt !in Tokens(body) ==> endId == gs)
      ensures endId in graph.nodes && endId !in old(graph.nodes)
      ensures Alt in Tokens(body) ==> graph.nodes[endId].name == name
    {
      ghost var n0 := graph.nodes;
      ExtendsRefl(n0, start);
      var gs := AddNodeAfter(start, "(", Lambda, n0, start, {});
      ghost var n2 := graph.nodes;
      ghost var top;
      endId, top := ParseRegex(body, name, gs, false);
      ExtendsTrans(n0, n2, graph.nodes, start, gs);
      assert n0[start].id == start && start != gs;
      assert graph.nodes[start].outgoing == n2[start].outgoing;
    }

    /**
     * The state of parse_regex's loop after the tokens `done`, which end at
     * index `i` of `re`: the rest still parses, the graph is built and only
     * extended from `start`, and, once the pattern is used up, the last token's
     * marking and naming have happened.
     */
    ghost predicate ParseInv(o: map<nat, Node>, c0: nat, re: string, name: string, start: nat, markEnding: bool,
                             i: nat, done: seq<Token>, stack: seq<nat>, alternatives: seq<nat>, endId: nat)
      reads graph
    {
      && Scanned(re, i, done, |stack| >= 2)
      && (alternatives != [] <==> Alt in done)
      && Built(graph.nodes, graph.counter, o, c0, start, stack, alternatives)
      && Finished(o, graph.nodes, name, start, markEnding && i == |re|, LastToken(done),
                  stack[|stack| - 1], start, endId)
    }

    /**
     * `parse_regex`: compiles `re` into nodes and edges hanging off `start`.
     * `top` is the node on top of the stack when the pattern is used up.
     */
    method ParseRegex(re: string, name: string, start: nat, markEnding: bool)
      returns (endId: nat, ghost top: nat)
      requires graph.Valid() && start in graph.nodes
      requires WellFormed(re)
      modifies graph
      decreases |re|, 2
      ensures graph.Valid() && old(graph.counter) <= graph.counter
      ensures Extends(old(graph.nodes), graph.nodes, start, if markEnding && MarksEnding(re) then {top} else {})
      ensures top in graph.nodes && Owned(top, start, old(graph.nodes))
      ensures endId in graph.nodes && Owned(endId, start, old(graph.nodes))
      ensures markEnding && MarksEnding(re) ==> graph.nodes[top].terminal
      ensures markEnding && NamesEnding(re) ==> top !in old(graph.nodes) && graph.nodes[top].name == name
      ensures Alt in Tokens(re) ==>
        endId !in old(graph.nodes) && graph.nodes[endId].name == name && !graph.nodes[endId].terminal
      ensures Alt in Tokens(re) ==> Edge(top, endId, Lambda) in graph.nodes[top].outgoing
      ensures Alt !in Tokens(re) && markEnding && NamesEnding(re) ==> endId == top
      ensures Alt !in Tokens(re) && !(markEnding && NamesEnding(re)) ==> endId == start
    {
      ghost var o := graph.nodes;
      ghost var c0 := graph.counter;
      ExtendsRefl(o, start);
      var stack: seq<nat> := [start];
      var alternatives: seq<nat> := [];
      endId := start;
      var i := 0;
      ghost var done: seq<Token> := [];
      while i < |re|
        invariant ParseInv(o, c0, re, name, start, markEnding, i, done, stack, alternatives, endId)
        decreases |re| - i
      {
        ghost var token := NextToken(re, i);
        ScanStep(re, i, done, |stack| >= 2);
        i, stack, alternatives, endId := ParseStep(re, name, start, markEnding, i, stack, alternatives, endId, o, c0);
        done := done + [token.0];
      }
      var last := stack[|stack| - 1];
      top := last;
      PatternEnd(o, c0, re, name, start, markEnding, done, stack, alternatives, endId);
      if alternatives != [] {
        alternatives := alternatives + [last];
        endId := AddMerge(alternatives, name, o, start, if markEnding && MarksEnding(re) then {top} else {});
        assert top == alternatives[|alternatives| - 1];
      }
    }

    /** Once the pattern is used up, the loop state says what parse_regex promises about the whole pattern. */
    lemma PatternEnd(o: map<nat, Node>, c0: nat, re: string, name: string, start: nat, markEnding: bool,
                     done: seq<Token>, stack: seq<nat>, alternatives: seq<nat>, endId: nat)
      requires ParseInv(o, c0, re, name, start, markEnding, |re|, done, stack, alternatives, endId)
      ensures var top := stack[|stack| - 1];
        && (alternatives != [] <==> Alt in Tokens(re))
        && graph.Valid() && c0 <= graph.counter
        && top in graph.nodes && Owned(top, start, o)
        && AllOwned(alternatives + [top], graph.nodes, start, o)
        && Extends(o, graph.nodes, start, if markEnding && MarksEnding(re) then {top} else {})
        && (markEnding && MarksEnding(re) ==> graph.nodes[top].terminal)
        && (markEnding && NamesEnding(re) ==> top !in o && graph.nodes[top].name == name && endId == top)
        && (!(markEnding && NamesEnding(re)) ==> endId == start)
    {
      assert done == Tokens(re) by {
        assert TokensFrom(re, |re|) == [];
        assert done + [] == done;
      }
    }

    /**
     * What one pass of parse_regex's loop body does with the token at `i`:
     * the index moves past it, the loop state is kept for the new stack and
     * saved branch ends, the stack holds a node to continue from once one was
     * pushed, the branch ends are non-empty once a '|' was read, and the token
     * has finished as `Finished` says.
     */
    ghost predicate Parsed(re: string, i: nat, name: string, start: nat, markEnding: bool,
                           o: map<nat, Node>, c0: nat, stack: seq<nat>, alternatives: seq<nat>, endId: nat,
                           next: nat, stack': seq<nat>, alternatives': seq<nat>, endId': nat)
      reads graph
    {
      && i < |re|
      && var t := NextToken(re, i).0;
      && next == NextToken(re, i).1
      && Built(graph.nodes, graph.counter, o, c0, start, stack', alternatives')
      && (|stack'| >= 2 <==> |stack| >= 2 || t.PushesNode())
      && (alternatives' != [] <==> alternatives != [] || t == Alt)
      && Finished(o, graph.nodes, name, start, markEnding && next == |re|, t, stack'[|stack'| - 1], endId, endId')
    }

    /** The '|' token: the top node is saved as a branch end and the stack's top goes back to `start`. */
    lemma AltParsed(re: string, i: nat, name: string, start: nat, markEnding: bool,
                    o: map<nat, Node>, c0: nat, stack: seq<nat>, alternatives: seq<nat>, endId: nat)
      requires i < |re| && re[i] == '|'
      requires Built(graph.nodes, graph.counter, o, c0, start, stack, alternatives) && Extends(o, graph.nodes, start, {})
      ensures Parsed(re, i, name, start, markEnding, o, c0, stack, alternatives, endId,
                     i + 1, stack[..|stack| - 1] + [start], alternatives + [stack[|stack| - 1]], endId)
    {
      AltStep(graph.nodes, graph.counter, o, c0, start, stack, alternatives);
      assert NextToken(re, i) == (Alt, i + 1);
    }

    /** One pass of parse_regex's loop body: the branch for the token at `i`. */
    method ParseStep(re: string, name: string, start: nat, markEnding: bool, i: nat,
                     stack: seq<nat>, alternatives: seq<nat>, endId: nat, ghost o: map<nat, Node>, ghost c0: nat)
      returns (next: nat, stack': seq<nat>, alternatives': seq<nat>, endId': nat)
      requires i < |re|
      requires var t := NextToken(re, i).0;
        && !t.Dangling?
        && (t.Star? || t.Plus? || t.Opt? ==> |stack| >= 2)
        && (t.Class? ==> SetLabel(t.body).Some?)
        && (t.Group? ==> WellFormed(t.body))
      requires Built(graph.nodes, graph.counter, o, c0, start, stack, alternatives) && Extends(o, graph.nodes, start, {})
      modifies graph
      decreases |re|, 1
      ensures Parsed(re, i, name, start, markEnding, o, c0, stack, alternatives, endId, next, stack', alternatives', endId')
    {
      var c := re[i];
      alternatives' := alternatives;
      endId' := endId;
      if c == '|' {
        AltParsed(re, i, name, start, markEnding, o, c0, stack, alternatives, endId);
        alternatives' := alternatives + [stack[|stack| - 1]];
        stack' := stack[..|stack| - 1] + [start];
        next := i + 1;
      } else if c == '\\' {
        next, stack', endId' := EscapeStep(re, name, start, markEnding, i, stack, endId, o, c0, alternatives);
      } else if c == '[' {
        next, stack' := SetStep(re, name, start, markEnding, i, stack, endId, o, c0, alternatives);
      } else if c == '(' {
        next, stack' := GroupStep(re, name, start, markEnding, i, stack, endId, o, c0, alternatives);
      } else if c == '*' {
        next, stack' := StarStep(re, name, start, markEnding, i, stack, endId, o, c0, alternatives);
      } else if c == '+' {
        next := PlusStep(re, name, start, markEnding, i, stack, endId, o, c0, alternatives);
        stack' := stack;
      } else if c == '?' {
        next, stack' := OptStep(re, name, start, markEnding, i, stack, endId, o, c0, alternatives);
      } else {
        next, stack', endId' := LiteralStep(re, name, start, markEnding, i, stack, endId, o, c0, alternatives);
      }
    }

    /** The `\s` token: a fresh node reached on each whitespace character is pushed. */
    method SpaceStep(name: string, start: nat, stack: seq<nat>,
                     ghost o: map<nat, Node>, ghost c0: nat, ghost alternatives: seq<nat>)
      returns (stack': seq<nat>)
      requires Built(graph.nodes, graph.counter, o, c0, start, stack, alternatives) && Extends(o, graph.nodes, start, {})
      modifies graph
      ensures stack' == stack + [old(graph.counter) + 1]
      ensures var id := old(graph.counter) + 1;
              var n1 := old(graph.nodes)[id := Node(name, [], id, false)];
              graph.nodes == n1[stack[|stack| - 1] := AddEdges(n1[stack[|stack| - 1]], id, SpaceLabels)]
      ensures Built(graph.nodes, graph.counter, o, c0, start, stack', alternatives)
      ensures Extends(o, graph.nodes, start, {})
    {
      var id := AddSpaceNode(stack[|stack| - 1], name, o, start, {});
      stack' := stack + [id];
      BuiltPush(old(graph.nodes), old(graph.counter), graph.nodes, graph.counter, o, c0, start, stack, alternatives, id);
    }

    /**
     * A character token `t`, escaped or literal: a fresh node reached on `c` is
     * pushed, and marked and renamed when it ends the rule.
     */
    method CharNodeStep(c: char, ghost t: Token, name: string, start: nat, ending: bool, stack: seq<nat>, endId: nat,
                        ghost o: map<nat, Node>, ghost c0: nat, ghost alternatives: seq<nat>)
      returns (stack': seq<nat>, endId': nat)
      requires t == Escaped(c) || t == Literal(c)
      requires Built(graph.nodes, graph.counter, o, c0, start, stack, alternatives) && Extends(o, graph.nodes, start, {})
      modifies graph
      ensures |stack'| == |stack| + 1
      ensures Built(graph.nodes, graph.counter, o, c0, start, stack', alternatives)
      ensures Finished(o, graph.nodes, name, start, ending, t, stack'[|stack|], endId, endId')
      ensures var id, top := old(graph.counter) + 1, stack[|stack| - 1];
              var n1 := old(graph.nodes)[id := Node([c], [], id, false)];
              var n2 := n1[top := n1[top].AddOutgoingEdge(id, [c])];
              && stack' == stack + [id]
              && graph.nodes == if ending then n2[id := n2[id].(terminal := true, name := name)] else n2
    {
      var id := AddNodeAfter(stack[|stack| - 1], [c], [c], o, start, {});
      stack' := stack + [id];
      endId' := endId;
      if ending {
        MarkEnd(id, name, true, o, start);
        endId' := id;
      }
      BuiltPush(old(graph.nodes), old(graph.counter), graph.nodes, graph.counter, o, c0, start, stack, alternatives, id);
    }

    /** The '\' token: `\s` or one escaped character, as a new node on the stack. */
    method EscapeStep(re: string, name: string, start: nat, markEnding: bool, i: nat, stack: seq<nat>, endId: nat,
                      ghost o: map<nat, Node>, ghost c0: nat, ghost alternatives: seq<nat>)
      returns (next: nat, stack': seq<nat>, endId': nat)
      requires i + 1 < |re| && re[i] == '\\'
      requires Built(graph.nodes, graph.counter, o, c0, start, stack, alternatives) && Extends(o, graph.nodes, start, {})
      modifies graph
      ensures Parsed(re, i, name, start, markEnding, o, c0, stack, alternatives, endId, next, stack', alternatives, endId')
    {
      var nextChar := re[i + 1];
      next := i + 2;
      if nextChar == 's' {
        assert NextToken(re, i) == (Space, next);
        stack' := SpaceStep(name, start, stack, o, c0, alternatives);
        endId' := endId;
      } else {
        assert NextToken(re, i) == (Escaped(nextChar), next);
        stack', endId' := CharNodeStep(nextChar, Escaped(nextChar), name, start, next == |re| && markEnding, stack, endId,
                                       o, c0, alternatives);
      }
    }

    /** The '[' token: the set up to the first ']' becomes one node on the stack. */
    method SetStep(re: string, name: string, start: nat, markEnding: bool, i: nat, stack: seq<nat>, ghost endId: nat,
                   ghost o: map<nat, Node>, ghost c0: nat, ghost alternatives: seq<nat>)
      returns (next: nat, stack': seq<nat>)
      requires i < |re| && re[i] == '[' && SetLabel(NextToken(re, i).0.body).Some?
      requires Built(graph.nodes, graph.counter, o, c0, start, stack, alternatives) && Extends(o, graph.nodes, start, {})
      modifies graph
      ensures Parsed(re, i, name, start, markEnding, o, c0, stack, alternatives, endId, next, stack', alternatives, endId)
      ensures var id, top := old(graph.counter) + 1, stack[|stack| - 1];
              var setLabel := SetLabel(NextToken(re, i).0.body).value;
              var n1 := old(graph.nodes)[top := old(graph.nodes)[top].AddOutgoingEdge(id, setLabel)];
              var n2 := n1[id := Node(name, [], id, false)];
              && stack' == stack + [id]
              && graph.nodes == MarkedIf(n2, id, next == |re| && markEnding)
    {
      var body;
      body, next := ReadUntil(re, i + 1, ']');
      assert NextToken(re, i) == (Class(body), next);
      stack' := PushSet(body, name, start, markEnding && next == |re|, stack, o, c0, alternatives);
    }

    /** A set token's node: pushed after the stack's top, and marked terminal when it ends the rule. */
    method PushSet(body: string, name: string, start: nat, ending: bool, stack: seq<nat>,
                   ghost o: map<nat, Node>, ghost c0: nat, ghost alternatives: seq<nat>)
      returns (stack': seq<nat>)
      requires SetLabel(body).Some?
      requires Built(graph.nodes, graph.counter, o, c0, start, stack, alternatives) && Extends(o, graph.nodes, start, {})
      modifies graph
      ensures |stack'| == |stack| + 1
      ensures Built(graph.nodes, graph.counter, o, c0, start, stack', alternatives)
      ensures Finished(o, graph.nodes, name, start, ending, Class(body), stack'[|stack|], start, start)
      ensures var id, top := old(graph.counter) + 1, stack[|stack| - 1];
              var n1 := old(graph.nodes)[top := old(graph.nodes)[top].AddOutgoingEdge(id, SetLabel(body).value)];
              var n2 := n1[id := Node(name, [], id, false)];
              && stack' == stack + [id]
              && graph.nodes == MarkedIf(n2, id, ending)
    {
      var top := stack[|stack| - 1];
      ghost var pre := graph.nodes;
      var id := ParseRegexSet(body, name, top);
      ExtendsTrans(o, pre, graph.nodes, start, top);
      stack' := stack + [id];
      if ending {
        MarkEnd(id, name, false, o, start);
      }
      BuiltPush(old(graph.nodes), old(graph.counter), graph.nodes, graph.counter, o, c0, start, stack, alternatives, id);
    }

    /** The '(' token: the group up to the first ')' is compiled and its end pushed. */
    method GroupStep(re: string, name: string, start: nat, markEnding: bool, i: nat, stack: seq<nat>, ghost endId: nat,
                     ghost o: map<nat, Node>, ghost c0: nat, ghost alternatives: seq<nat>)
      returns (next: nat, stack': seq<nat>)
      requires i < |re| && re[i] == '(' && WellFormed(NextToken(re, i).0.body)
      requires Built(graph.nodes, graph.counter, o, c0, start, stack, alternatives) && Extends(o, graph.nodes, start, {})
      modifies graph
      decreases |re|, 0
      ensures Parsed(re, i, name, start, markEnding, o, c0, stack, alternatives, endId, next, stack', alternatives, endId)
      ensures var gs, top := old(graph.counter) + 1, stack[|stack| - 1];
              && |stack'| == |stack| + 1 && stack'[..|stack|] == stack && stack'[|stack|] !in old(graph.nodes)
              && gs in graph.nodes && graph.nodes[gs].name == "(" && top in graph.nodes
              && graph.nodes[top].outgoing == old(graph.nodes)[top].outgoing + [Edge(top, gs, Lambda)]
              && (Alt !in Tokens(NextToken(re, i).0.body) ==> stack'[|stack|] == gs)
    {
      var body;
      body, next := ReadUntil(re, i + 1, ')');
      assert NextToken(re, i) == (Group(body), next);
      stack' := PushGroup(body, name, start, markEnding && next == |re|, stack, o, c0, alternatives);
    }

    /** A group token's end node: pushed after compiling the group, and marked terminal when it ends the rule. */
    method PushGroup(body: string, name: string, start: nat, ending: bool, stack: seq<nat>,
                     ghost o: map<nat, Node>, ghost c0: nat, ghost alternatives: seq<nat>)
      returns (stack': seq<nat>)
      requires WellFormed(body)
      requires Built(graph.nodes, graph.counter, o, c0, start, stack, alternatives) && Extends(o, graph.nodes, start, {})
      modifies graph
      decreases |body|, 4
      ensures |stack'| == |stack| + 1
      ensures Built(graph.nodes, graph.counter, o, c0, start, stack', alternatives)
      ensures Finished(o, graph.nodes, name, start, ending, Group(body), stack'[|stack|], start, start)
      ensures var gs, top := old(graph.counter) + 1, stack[|stack| - 1];
              && stack'[..|stack|] == stack && stack'[|stack|] !in old(graph.nodes)
              && gs in graph.nodes && graph.nodes[gs].name == "(" && top in graph.nodes
              && graph.nodes[top].outgoing == old(graph.nodes)[top].outgoing + [Edge(top, gs, Lambda)]
              && (Alt !in Tokens(body) ==> stack'[|stack|] == gs)
    {
      var top := stack[|stack| - 1];
      ghost var pre := graph.nodes;
      var id := ParseRegexGroup(body, name, top);
      ExtendsTrans(o, pre, graph.nodes, start, top);
      stack' := stack + [id];
      if ending {
        MarkEnd(id, name, false, o, start);
      }
      BuiltPush(old(graph.nodes), old(graph.counter), graph.nodes, graph.counter, o, c0, start, stack, alternatives, id);
    }

    /** The '*' token's merge node, made by AddStar and marked terminal when it ends the rule. */
    method PushStar(prev: nat, top: nat, name: string, ending: bool, ghost o: map<nat, Node>, ghost start: nat)
      returns (m: nat)
      requires graph.Valid() && prev in graph.nodes && top in graph.nodes
      requires Extends(o, graph.nodes, start, {}) && Owned(prev, start, o) && Owned(top, start, o)
      modifies graph
      ensures m == old(graph.counter) + 1 && graph.counter == m && m !in o && m in graph.nodes
      ensures old(graph.nodes).Keys <= graph.nodes.Keys
      ensures graph.Valid() && Extends(o, graph.nodes, start, if ending then {m} else {})
      ensures graph.nodes == MarkedIf(StarNodes(old(graph.nodes), prev, top, m, name), m, ending)
    {
      m := AddStar(prev, top, name, o, start);
      if ending {
        MarkEnd(m, name, false, o, start);
      }
    }

    /** The '*' token: the top node is replaced by a merge node looping back to the one below. */
    method StarStep(re: string, name: string, start: nat, markEnding: bool, i: nat, stack: seq<nat>, ghost endId: nat,
                    ghost o: map<nat, Node>, ghost c0: nat, ghost alternatives: seq<nat>)
      returns (next: nat, stack': seq<nat>)
      requires i < |re| && re[i] == '*' && |stack| >= 2
      requires Built(graph.nodes, graph.counter, o, c0, start, stack, alternatives) && Extends(o, graph.nodes, start, {})
      modifies graph
      ensures Parsed(re, i, name, start, markEnding, o, c0, stack, alternatives, endId, next, stack', alternatives, endId)
      ensures var m := old(graph.counter) + 1;
              && stack' == stack[..|stack| - 1] + [m]
              && graph.nodes == MarkedIf(StarNodes(old(graph.nodes), stack[|stack| - 2], stack[|stack| - 1], m, name),
                                         m, next == |re| && markEnding)
    {
      next := i + 1;
      assert NextToken(re, i) == (Star, next);
      var top, prev := stack[|stack| - 1], stack[|stack| - 2];
      var m := PushStar(prev, top, name, i + 1 == |re| && markEnding, o, start);
      stack' := stack[..|stack| - 1] + [m];
      BuiltSwapTop(old(graph.nodes), old(graph.counter), graph.nodes, graph.counter, o, c0, start, stack, alternatives, m);
    }

    /** The '+' token: an epsilon edge from the top node back to the one below. */
    method PlusStep(re: string, name: string, start: nat, markEnding: bool, i: nat, stack: seq<nat>, ghost endId: nat,
                    ghost o: map<nat, Node>, ghost c0: nat, ghost alternatives: seq<nat>)
      returns (next: nat)
      requires i < |re| && re[i] == '+' && |stack| >= 2
      requires Built(graph.nodes, graph.counter, o, c0, start, stack, alternatives) && Extends(o, graph.nodes, start, {})
      modifies graph
      ensures Parsed(re, i, name, start, markEnding, o, c0, stack, alternatives, endId, next, stack, alternatives, endId)
      ensures var prev, top := stack[|stack| - 2], stack[|stack| - 1];
              var n1 := old(graph.nodes)[top := old(graph.nodes)[top].AddOutgoingEdge(prev, Lambda)];
              graph.counter == old(graph.counter)
              && graph.nodes == MarkedIf(n1, top, next == |re| && markEnding)
    {
      next := i + 1;
      assert NextToken(re, i) == (Plus, next);
      var top := stack[|stack| - 1];
      var prev := stack[|stack| - 2];
      ghost var pre := graph.nodes;
      graph.AddOutgoingEdge(top, prev, Lambda);
      ValidAddEdge(pre, graph.counter, top, prev, Lambda);
      ExtendsAddEdge(o, pre, start, {}, top, prev, Lambda);
      if i + 1 == |re| && markEnding {
        MarkEnd(top, name, false, o, start);
      }
    }

    /** The '?' token: the top node is replaced by a merge node also reached from the one below. */
    method OptStep(re: string, ghost name: string, start: nat, ghost markEnding: bool, i: nat, stack: seq<nat>, ghost endId: nat,
                   ghost o: map<nat, Node>, ghost c0: nat, ghost alternatives: seq<nat>)
      returns (next: nat, stack': seq<nat>)
      requires i < |re| && re[i] == '?' && |stack| >= 2
      requires Built(graph.nodes, graph.counter, o, c0, start, stack, alternatives) && Extends(o, graph.nodes, start, {})
      modifies graph
      ensures Parsed(re, i, name, start, markEnding, o, c0, stack, alternatives, endId, next, stack', alternatives, endId)
      ensures var m, prev, top := old(graph.counter) + 1, stack[|stack| - 2], stack[|stack| - 1];
              var n1 := old(graph.nodes)[prev := old(graph.nodes)[prev].AddOutgoingEdge(m, Lambda)];
              var n2 := n1[top := n1[top].AddOutgoingEdge(m, Lambda)];
              && stack' == stack[..|stack| - 1] + [m]
              && graph.nodes == n2[m := Node("?", [], m, false)]
    {
      next := i + 1;
      assert NextToken(re, i) == (Opt, next);
      var top := stack[|stack| - 1];
      var rest := stack[..|stack| - 1];
      var prev := rest[|rest| - 1];
      var m := AddOpt(prev, top, o, start);
      stack' := rest + [m];
      BuiltSwapTop(old(graph.nodes), old(graph.counter), graph.nodes, graph.counter, o, c0, start, stack, alternatives, m);
    }

    /** Any other character: a node named after it, reached by an edge labelled with it. */
    method LiteralStep(re: string, name: string, start: nat, markEnding: bool, i: nat, stack: seq<nat>, endId: nat,
                       ghost o: map<nat, Node>, ghost c0: nat, ghost alternatives: seq<nat>)
      returns (next: nat, stack': seq<nat>, endId': nat)
      requires i < |re| && re[i] !in "|\\[(*+?"
      requires Built(graph.nodes, graph.counter, o, c0, start, stack, alternatives) && Extends(o, graph.nodes, start, {})
      modifies graph
      ensures Parsed(re, i, name, start, markEnding, o, c0, stack, alternatives, endId, next, stack', alternatives, endId')
      ensures var c, id, top := re[i], old(graph.counter) + 1, stack[|stack| - 1];
              var n1 := old(graph.nodes)[id := Node([c], [], id, false)];
              var n2 := n1[top := n1[top].AddOutgoingEdge(id, [c])];
              && stack' == stack + [id]
              && graph.nodes == if next == |re| && markEnding then n2[id := n2[id].(terminal := true, name := name)] else n2
    {
      var c := re[i];
      next := i + 1;
      assert NextToken(re, i) == (Literal(c), next);
      stack', endId' := CharNodeStep(c, Literal(c), name, start, next == |re| && markEnding, stack, endId, o, c0, alternatives);
    }

    /**
     * The closing step of the branches that end the pattern when `mark_ending`
     * is set: the node becomes terminal and, for a character node, takes the
     * rule's name.
     */
    method MarkEnd(id: nat, name: string, rename: bool, ghost o: map<nat, Node>, ghost root: nat)
      requires graph.Valid() && id in graph.nodes && Extends(o, graph.nodes, root, {})
      requires rename ==> id !in o
      modifies graph
      ensures graph.nodes == old(graph.nodes)[id := old(graph.nodes)[id].(terminal := true,
                                                     name := if rename then name else old(graph.nodes)[id].name)]
      ensures graph.counter == old(graph.counter) && old(graph.nodes).Keys <= graph.nodes.Keys
      ensures graph.Valid() && Extends(o, graph.nodes, root, {id})
    {
      ghost var n0 := graph.nodes;
      graph.SetTerminal(id, true);
      ExtendsMark(o, n0, root, id);
      if rename {
        ghost var n1 := graph.nodes;
        graph.SetName(id, name);
        ExtendsRename(o, n1, root, {id}, id, name);
      }
    }

    /**
     * `Nfa::construct`: every rule not named ";" is parsed from the root, in
     * order, with its end marked. The graph only grows from the root; the
     * marked ends are terminal and the character ends carry their rule's name.
     */
    method Construct() returns (ghost tops: seq<nat>)
      requires Valid()
      requires forall k :: 0 <= k < |keywords| && Compiled(keywords[k]) ==> WellFormed(keywords[k].pattern)
      modifies graph
      ensures Valid() && old(graph.counter) <= graph.counter
      ensures Constructed(old(graph.nodes), graph.nodes, rootId, keywords, tops)
    {
      ghost var n0 := graph.nodes;
      ExtendsRefl(n0, rootId);
      tops := [];
      for k := 0 to |keywords|
        invariant Valid() && old(graph.counter) <= graph.counter
        invariant Constructed(n0, graph.nodes, rootId, keywords[..k], tops)
      {
        var rule := keywords[k];
        assert keywords[..k + 1] == keywords[..k] + [rule];
        if !Compiled(rule) {
          ConstructedSkip(n0, graph.nodes, rootId, keywords[..k], tops, rule);
          tops := tops + [rootId];
          continue;
        }
        ghost var n1 := graph.nodes;
        var _, top := ParseRegex(rule.pattern, rule.name, rootId, true);
        ConstructedParse(n0, n1, graph.nodes, rootId, keywords[..k], tops, rule, top);
        tops := tops + [top];
      }
      assert keywords[..|keywords|] == keywords;
    }
  }
}
