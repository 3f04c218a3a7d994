# lex4oat core in Dafny

lex4oat is a hand-written lexer generator. It reads rules, one per line, each a
regex pattern followed by a token name. It compiles every rule from one shared
root into a single NFA whose accepting nodes carry the rule's name
(`Nfa::parse_regex` and `Nfa::construct`). It turns that NFA into a DFA by
subset construction (`Dfa::construct_dfa`). The DFA then scans input by longest
match (`Dfa::lex`). Both automata are stores of nodes keyed by id, and each
node owns its outgoing edges, labelled with strings (`src/node.rs`). The
label `"<λ>"` marks an epsilon edge. Any other label matches each character it
contains.

The model follows the three source files.

| file | module | what it holds |
|---|---|---|
| node.dfy | `Automaton` | `Edge` and `Node` as values, whose setters return the updated node. Class `Graph` is the node store, with the id counter as a field. `WriteDot`/`ToDot` is the cycle-safe DOT traversal, and `Escape` models its chain of `replace` calls. |
| rules.dfy, strings.dfy | `Rules`, `Strings` | The line parsing of `add_keywords_from_file`. Rust's `split_whitespace`, `join(" ")`, `trim_matches` and `trim` are stated over Rust's `char::is_whitespace`. |
| regex.dfy | `RegexSyntax` | How `parse_regex` splits a pattern into tokens, and which patterns it gets through without a panic (`WellFormed`). Also the label `parse_regex_set` builds for a `[...]` set (`SetLabel`). |
| nfa.dfy | `NfaCompiler` | Class `Nfa` with its rules, its node store and its root. `ParseRegex` is a `while` loop over a node-id stack that updates the store in place, proved against a loop invariant. `Construct` compiles every rule from the root. |
| statesets.dfy | `StateSets` | Epsilon closure (`IsClosure`), `Move`, `Symbols` and the naming of DFA states, as specification functions with their characterising lemmas. |
| scanner.dfy | `Scanning` | The scanner as functions: `StepOn` (first matching edge), `Scan` (lex's inner loop) and `LexFrom` (lex's outer loop). |
| dfa.dfy | `DfaBuilder` | Class `Dfa`, with the worklist of `construct_dfa`, the loops of `epsilon_closure`, `move_nfa`, `extract_symbols`, `create_dfa_state` and `lex`. Each is proved against the functions of `StateSets` and `Scanning`. |
| ordered.dfy, wrappers.dfy | `Ordered`, `Wrappers` | BTreeSet iteration order (ascending), the power set that bounds the number of DFA states, and `Option`. |

What the proofs establish:

- **NFA compilation.**
  - Every operation keeps the graph closed: every edge target is a stored node.
  - Ids come from a counter that only grows.
  - A parse from `start` only adds nodes, and only appends edges to `start` and to nodes it created itself.
  - With `mark_ending`, the last token marks its node exactly as the source's branches do.
  - `parse_regex` returns the node the source returns.
  - `construct` marks exactly the ends of the rules not named `;`.
- **DFA construction.** When `construct_dfa` ends:
  - each DFA state stands for one distinct non-empty epsilon closure;
  - each state is named and flagged as `create_dfa_state` says;
  - each state has an edge on exactly the symbols of its set;
  - the edge on `c` leads to the state of the closure of the move on `c`;
  - no character labels two edges of one state;
  - the start state is the closure of the NFA root;
  - the worklist terminates because there are at most as many DFA states as subsets of NFA ids.
- **Scanning.** `lex` equals `LexFrom`. `LexFrom` is proved to be longest match with the skip and suppression rules, and to emit at most one token per input character.

The source and the model differ in four places.

- `src/dfa.rs` calls `Edge::get_sym` and `Edge::push`, which `src/node.rs` does not define.
  - `get_sym` is modelled as the edge's label (`name`).
  - `push(ch)` is modelled as appending `ch` to the label (`Automaton.Edge.Push`).
- The NFA and the DFA each own a counter that starts at 0, so their ids each start at 1. The source shares one process-wide counter.
- `move_nfa` tests the label with `contains`. It therefore also follows `"<λ>"` edges on the characters `<`, `λ` and `>`. The model keeps this behaviour and states it in `StateSets.MoveFollowsLambda`.
- The range start of a `[a-b]` set goes through `start as u8 + 1`. The model keeps the truncation to the low byte. A start whose low byte is 255, which overflows in a debug build, is a pattern that panics.

## Model

| member | source | states |
|---|---|---|
| Automaton.Graph.IncrementCounter | src/node.rs:7-9 | the result is the previous counter plus one and becomes the counter; the node store is untouched |
| Automaton.Graph.NewNode | src/node.rs:88-96 | the node has the given name and flag, no edges, and the next id; on a valid store that id is above every stored id and not yet used |
| Automaton.Node.SetName | src/node.rs:64-66 | only the name changes |
| Automaton.Node.SetTerminal | src/node.rs:84-86 | only the terminal flag changes |
| Automaton.Node.AddOutgoingEdge | src/node.rs:98-100 | exactly one edge, from the node's own id to `to` with the given label, is appended; earlier edges, name, id and flag are kept |
| Automaton.Graph.AddOutgoingEdge | src/node.rs:98-100 | the stored node gets the edge appended, nothing else in the store changes |
| Automaton.Graph.SetTerminal | src/node.rs:84-86 | only the flag of the stored node changes, and the store stays valid |
| Automaton.Graph.SetName | src/node.rs:64-66 | only the name of the stored node changes, and the store stays valid |
| Automaton.Edge.Push | src/dfa.rs:75 | the label grows by exactly the one character at its end; the ends of the edge are kept |
| Automaton.Node.PushToEdge | src/dfa.rs:70-75 | only the chosen edge's label grows by the character; every other edge and the node's fields are kept |
| Automaton.Graph.PushToEdge | src/dfa.rs:69-75 | the stored node's chosen edge grows by the character, and the store stays valid |
| Automaton.Graph.Insert | src/nfa.rs:147 | the node is stored under its own id and every other entry is kept; the counter is unchanged |
| Automaton.ValidAddNode | src/node.rs:88-96 | storing a node with the next id and no edges keeps the store valid (ids in 1..counter, keyed by id, closed) |
| Automaton.ValidAddEdge | src/node.rs:98-100 | an edge between stored nodes keeps the store valid, in particular closed |
| Automaton.EdgeBeforeNode | src/nfa.rs:143-147 | adding the edge to a node not yet stored and then storing it gives the same store as storing it first |
| Automaton.Escape | src/node.rs:124-130 | the DOT escape of a label, character by character: `\` and `"` get a backslash, and tab, LF and CR become `\\t`, `\\n` and `\\r`. `EscapeIsReplaceChain` proves it equal to the source's chain of five `replace` calls |
| Automaton.EdgeLine | src/node.rs:131-134 | the line written for one edge: four spaces, the two ids in decimal (`NatToStringValue`) joined by ` -> `, and the escaped label in `[label="..."];` |
| Automaton.TerminalLine | src/node.rs:145-148 | the line written for a terminal node: four spaces, its id in decimal and `[shape=doublecircle, label="..."];` with the escaped name |
| Automaton.EscapeIsReplaceChain | src/node.rs:124-130 | the five chained `replace` calls equal escaping each character on its own |
| Automaton.ReplaceChainAppend | src/node.rs:124-130 | the chain of `replace` calls distributes over concatenation |
| Automaton.WriteDot | src/node.rs:112-150 | output only grows; the node is visited; only stored ids are visited; an already visited node adds nothing; every node newly visited has all its edge targets visited, so each node is expanded once and the traversal ends on cyclic graphs |
| Automaton.WriteEdge | src/node.rs:122-136 | one round of the edge loop: the target ends up visited, only stored ids are visited, and newly visited nodes have their targets visited |
| Automaton.ToDot | src/node.rs:103-109 | the text starts with `digraph NFA {\n` and ends with `}\n` |
| Strings.Words | src/nfa.rs:57 | every part of `split_whitespace` is a non-empty run without whitespace |
| Strings.WordsKeepNonWhitespace | src/nfa.rs:57 | the parts of `split_whitespace`, glued back, are exactly the non-whitespace characters of the line in order |
| Strings.WordsOfJoinSpace | src/nfa.rs:59 | splitting words joined by single spaces gives the words back |
| Strings.JoinSpace | src/nfa.rs:59 | `join(" ")`: the words with one space between neighbours. `WordsOfJoinSpace` and `SingleSpacedJoin` prove it inverts `Words`, on word lists and on single-spaced strings |
| Strings.JoinSpaceSingleSpaced | src/nfa.rs:59 | a space-join of words is single-spaced (each whitespace character is one space between two word characters) and starts and ends with a word character |
| Strings.SingleSpacedJoin | src/nfa.rs:59 | a single-spaced string is the space-join of its own words, and has words when it is not empty |
| Strings.StripBounds | src/nfa.rs:58 | `trim_matches` removes the longest prefix and suffix of matching characters and no more |
| Strings.StripNothing | src/nfa.rs:58 | `trim_matches` leaves a string whose ends do not match alone |
| Strings.StripTrims | src/nfa.rs:58 | `Strip` leaves a slice of its input with only dropped characters outside it and a kept character at each of its own ends (`Trimmed`) |
| Strings.Trim | src/dfa.rs:228 | `str::trim`: `Strip` with Unicode whitespace, characterised by `StripBounds` and `StripTrims` |
| Strings.TrimQuotes | src/nfa.rs:58 | `trim_matches('"')`: `Strip` with the quote character, characterised by `StripBounds` and `StripTrims` |
| Strings.TrimQuotesEnclosed | src/nfa.rs:58 | one pair of quotes around a string with no quote at its own ends is removed and the string comes back unchanged |
| Strings.QuotedWord | src/nfa.rs:58 | a word wrapped in quotes is still one word, with no whitespace in it |
| Strings.NatToString | src/node.rs:131-134 | an id prints as decimal digits without a leading zero |
| Strings.NatToStringValue | src/node.rs:131-134 | reading the printed digits back gives the id |
| Rules.ParseLine | src/nfa.rs:57-59 | the rule's pattern splits into the line's words minus the last one; `ParseLineSpec` states the rest |
| Rules.ParseLineSpec | src/nfa.rs:57-59 | the pattern has exactly the line's words but the last and is single-spaced, which fixes its text (`PatternOfWords`); the name is the last word with every `"` at either end removed: a slice of it with only quotes outside and no quote at its own ends |
| Rules.PatternOfWords | src/nfa.rs:59 | two single-spaced strings with the same words are equal, so `ParseLineSpec` determines the pattern |
| Rules.RulesOf | src/nfa.rs:52-61 | the rules of the lines, in order: a skipped line (starting with `%%`, or empty) gives none and every other line gives its `ParseLine`. `RulesOfLine`, `RulesOfAppend` and `RulesOfNext` are its properties |
| Rules.RulesOfLine | src/nfa.rs:53-60 | a line starting with `%%` or empty gives no rule, any other line its parsed rule |
| Rules.RulesOfAppend | src/nfa.rs:52-61 | rules come out in line order: consecutive blocks of lines give their rules one after the other |
| Rules.RulesOfNext | src/nfa.rs:52-61 | reading one more line appends that line's rules to those read before |
| Rules.ParseJoined | src/nfa.rs:57-59 | a line written as words and a last word splits back into exactly those words, and parses to the space-joined words and the last word with its quotes trimmed |
| Rules.RuleLineRoundTrip | src/nfa.rs:57-59 | a line made of pattern words, a space and an unquoted name parses to the space-joined pattern and that name |
| Rules.RuleLineQuotedRoundTrip | src/nfa.rs:57-59 | words plus a quoted name `"name"` parse back to the space-joined words and the name without its quotes |
| RegexSyntax.CloseAt | src/nfa.rs:267-272 | the body of `[` or `(` runs up to the first closing character, or to the end of the pattern when there is none |
| RegexSyntax.CloseAtUnique | src/nfa.rs:284-289 | that index is the only one with this description |
| RegexSyntax.NextToken | src/nfa.rs:217-374 | each token moves the index forward within the pattern, and a set or group body is shorter than the pattern |
| RegexSyntax.WellFormedTokens | src/nfa.rs:217-375 | whether the parser gets through a pattern without a panic depends only on its token list: no trailing `\`, no `*`, `+` or `?` before a node was pushed, sets the set parser accepts, and groups that are themselves accepted |
| RegexSyntax.ScanStep | src/nfa.rs:217-375 | in an accepted pattern each next token is not a panic, and the rest is accepted too |
| RegexSyntax.LeadingRepeatRejected | src/nfa.rs:301-302 | a pattern whose first non-`\|` character is `*`, `+` or `?` panics |
| RegexSyntax.RangeChars | src/nfa.rs:113-116 | the characters of `((start as u8 + 1) as char)..=end`, ascending, surrogates skipped; `RangeCharsSpec` characterises it |
| RegexSyntax.RangeCharsSpec | src/nfa.rs:115-117 | `lo..=hi` over chars holds exactly the scalar values between its ends, in ascending order |
| RegexSyntax.PrintableNotIn | src/nfa.rs:127-135 | the printable ASCII characters, from a code to `~`, that are not in the set, ascending; `PrintableNotInSpec` characterises it |
| RegexSyntax.PrintableNotInSpec | src/nfa.rs:130-135 | the complement holds exactly the printable ASCII characters missing from the set, in ascending order |
| RegexSyntax.SetItems | src/nfa.rs:95-124 | the `set_chars` of a set body, or `None` where the loop panics (a trailing `\`, a range `-` at the end, a range start whose low byte is 255). `RangeItems`, `SpaceItems` and `LoneDashItems` state its cases and `CollectSetChars` is the loop proved equal to it |
| RegexSyntax.SetLabel | src/nfa.rs:83-141 | the label of the set's edge: after a leading `^`, the printable complement of the items (`NegatedLabel`); otherwise the items in order; `None` where the items panic |
| RegexSyntax.NegatedLabel | src/nfa.rs:128-135 | with a leading `^` the label is every character from space to `~` outside the set, ascending |
| RegexSyntax.RangeItems | src/nfa.rs:111-119 | `a-b` adds `a` and then every character after `a` up to and including `b` |
| RegexSyntax.SpaceItems | src/nfa.rs:96-105 | `\s` in a set adds space, tab, line feed and carriage return |
| RegexSyntax.LoneDashItems | src/nfa.rs:111-113 | a `-` with no character before it is dropped |
| NfaCompiler.AddEdges | src/nfa.rs:233-238 | the node gets one edge per label, in order, all to the same target; nothing else changes |
| NfaCompiler.AddEdgesLast | src/nfa.rs:233-238 | adding one more label is one more `add_outgoing_edge` |
| NfaCompiler.ValidAddEdges | src/nfa.rs:233-238 | the whitespace edges keep the store valid |
| NfaCompiler.ExtendsAddEdges | src/nfa.rs:233-238 | the whitespace edges only touch a node the parse may touch |
| NfaCompiler.ExtendsTrans | src/nfa.rs:164-181 | a group parsed from a node created by the enclosing parse stays within what the enclosing parse may do |
| NfaCompiler.ExtendsCompose | src/nfa.rs:405-411 | two successive parses from the root are one parse from the root, marking what either marked |
| NfaCompiler.MergeEdges | src/nfa.rs:386-391 | the store with a λ edge to the merge node appended at each branch end, in order; the keys are kept. `MergeEdgesKeeps`, `MergeEdgesAdds` and `ValidMergeEdges` are its properties |
| NfaCompiler.MergeEdgesKeeps | src/nfa.rs:386-391 | linking branch ends to the merge node only appends edges: ids, names and flags are kept, and nodes outside the ends are untouched |
| NfaCompiler.MergeEdgesAdds | src/nfa.rs:386-391 | every branch end gets an epsilon edge to the merge node |
| NfaCompiler.ValidMergeEdges | src/nfa.rs:386-391 | the merge edges keep the store valid |
| NfaCompiler.ExtendsMergeEdges | src/nfa.rs:386-391 | the merge edges only touch nodes the parse may touch |
| NfaCompiler.AltStep | src/nfa.rs:218-225 | `\|` saves the top node as a branch end and resets the top to the branch start, keeping the loop state |
| NfaCompiler.MarkedEndsSpec | src/nfa.rs:405-411 | the marked nodes are exactly the ends of the rules not named `;` whose pattern marks its end |
| NfaCompiler.ConstructedParse | src/nfa.rs:410 | compiling one more rule from the root extends what construct has done by that rule and its end |
| NfaCompiler.ConstructedSkip | src/nfa.rs:406-408 | a rule named `;` changes nothing |
| NfaCompiler.ReadUntil | src/nfa.rs:266-272 | the body is the text up to the first closing character and the index moves past it, or to the end when the body is unterminated |
| NfaCompiler.CollectSetChars | src/nfa.rs:92-124 | the loop collects exactly the characters the set body denotes |
| NfaCompiler.CollectRange | src/nfa.rs:115-117 | the loop collects exactly the characters of `lo..=hi` |
| NfaCompiler.ComplementLabel | src/nfa.rs:128-135 | the loop builds exactly the complement label |
| NfaCompiler.Nfa.constructor | src/nfa.rs:28-38 | one node, the non-terminal root named "NFA" with id 1, and no rules |
| NfaCompiler.Nfa.AddKeywordsFromLines | src/nfa.rs:52-61 | the rules of the lines are appended to the rules, in line order |
| NfaCompiler.Nfa.LineRules | src/nfa.rs:53-60 | one line gives no rule when skipped and its parsed rule otherwise |
| NfaCompiler.Nfa.AddNodeAfter | src/nfa.rs:358-365 | one fresh non-terminal node with the next id and one edge to it from `from`; the store stays valid and only grows |
| NfaCompiler.Nfa.AddSpaceNode | src/nfa.rs:229-240 | one fresh node named after the rule, reached from the top node by one edge per whitespace label |
| NfaCompiler.Nfa.AddSpaceEdges | src/nfa.rs:233-238 | the loop adds exactly the four whitespace edges, in order |
| NfaCompiler.StarNodes | src/nfa.rs:300-321 | the store after the `*` branch: a fresh non-terminal merge node named after the rule, then λ edges from the node below to it, from the repeated node to it, and from it back to the node below |
| NfaCompiler.MarkedIf | src/nfa.rs:322-327 | the store with one node made terminal, and nothing else changed, when the pattern ends there with `mark_ending`; otherwise the store unchanged |
| NfaCompiler.Nfa.AddStar | src/nfa.rs:300-321 | the merge node is the next id and the store becomes exactly `StarNodes` of the old one: one fresh merge node with λ edges from prev to it, from the repeated node to it and from it back to prev, in that order |
| NfaCompiler.Nfa.AddOpt | src/nfa.rs:342-356 | epsilon edges prev to merge and optional to merge, to a fresh node named "?" stored after them |
| NfaCompiler.Nfa.AddMergeEdges | src/nfa.rs:386-391 | the loop adds exactly one epsilon edge from each branch end to the merge node |
| NfaCompiler.Nfa.AddMerge | src/nfa.rs:378-393 | a fresh non-terminal merge node named after the rule, with an epsilon edge from every branch end; old names and flags are kept |
| NfaCompiler.Nfa.ParseRegexSet | src/nfa.rs:77-149 | exactly one fresh non-terminal node named after the rule and one edge from the start node labelled with the set's label; nothing else changes |
| NfaCompiler.Nfa.ParseRegexGroup | src/nfa.rs:164-181 | a fresh group-start node named "(" and an epsilon edge to it are added; the group's end is that node unless the group holds a `\|` |
| NfaCompiler.Nfa.ParseRegex | src/nfa.rs:198-396 | the store stays valid and only grows from `start`. With `mark_ending`, a final literal or escape becomes terminal with the rule's name and is returned; a final set, group, `*` or `+` node becomes terminal and keeps its name; a final `?` or `\s` marks nothing. A `\|` makes a fresh, non-terminal merge node the result; otherwise the result is `start` |
| NfaCompiler.Nfa.PatternEnd | src/nfa.rs:375-395 | once the pattern is used up, the loop state gives the promises of parse_regex about the whole pattern |
| NfaCompiler.Nfa.AltParsed | src/nfa.rs:218-225 | the `\|` branch keeps the loop state and records a branch end |
| NfaCompiler.Nfa.ParseStep | src/nfa.rs:217-374 | one pass of the loop body moves past the token and keeps the loop state; once the pattern is used up, the token's marking has happened |
| NfaCompiler.Nfa.SpaceStep | src/nfa.rs:229-241 | the `\s` branch adds a fresh non-terminal node named after the rule as the next id, reaches it from the old top by the four whitespace edges (space, tab, LF, CR), pushes it and marks nothing |
| NfaCompiler.Nfa.CharNodeStep | src/nfa.rs:242-263 | an escape or literal pushes exactly one fresh node named after the character, reached from the old top by one edge labelled with it; when it ends the rule, the node is terminal, named after the rule and the end node |
| NfaCompiler.Nfa.EscapeStep | src/nfa.rs:226-264 | the `\` branch: `\s` or an escaped character |
| NfaCompiler.Nfa.SetStep | src/nfa.rs:265-281 | the `[` branch reads the set up to `]` and pushes exactly one fresh node named after the rule, reached from the old top by one edge labelled with the set's label; the node is marked terminal when it ends the rule |
| NfaCompiler.Nfa.PushSet | src/nfa.rs:273-281 | the set's node is pushed onto the stack, with exactly the node and edge `parse_regex_set` adds, and marked terminal, keeping its name, when it ends the rule |
| NfaCompiler.Nfa.GroupStep | src/nfa.rs:282-299 | the `(` branch reads the group up to `)` and pushes one fresh end node onto the stack; the old top gains one epsilon edge to a fresh `(` node, which is the end node when the group has no `\|` |
| NfaCompiler.Nfa.PushGroup | src/nfa.rs:290-299 | the group's fresh end is pushed onto the stack, the old top gains one epsilon edge to the `(` node, and the end is marked terminal when it ends the rule |
| NfaCompiler.Nfa.StarStep | src/nfa.rs:300-327 | the `*` branch replaces the top of the stack with a fresh merge node named after the rule. The graph becomes exactly `StarNodes`: epsilon edges from the node below and from the old top to the merge node, and one back to the node below. The merge node is marked terminal when it ends the rule |
| NfaCompiler.Nfa.PushStar | src/nfa.rs:300-327 | the merge node is the next id; the graph becomes exactly `StarNodes` of the old one, with the merge node marked terminal when it ends the rule |
| NfaCompiler.Nfa.PlusStep | src/nfa.rs:328-341 | the `+` branch keeps the stack and appends exactly one epsilon edge from the top node back to the node below; the top node is marked terminal when it ends the rule, and nothing else changes |
| NfaCompiler.Nfa.OptStep | src/nfa.rs:342-356 | the `?` branch replaces the top of the stack with a fresh non-terminal node named `?`, reached by epsilon edges from the node below and from the old top, and marks nothing |
| NfaCompiler.Nfa.LiteralStep | src/nfa.rs:357-373 | any other character pushes exactly one fresh node named after it, reached from the old top by one edge labelled with it; when it ends the rule, the node is terminal and named after the rule |
| NfaCompiler.Nfa.MarkEnd | src/nfa.rs:252-262 | the node becomes terminal and, for a character node, takes the rule's name; nothing else changes |
| NfaCompiler.Nfa.Construct | src/nfa.rs:402-412 | every rule not named `;` is compiled from the root in rule order: the graph grows from the root only, exactly the ends of those rules whose pattern marks its end are terminal, and character ends carry their rule's name |
| StateSets.IsClosure | src/dfa.rs:87-105 | the epsilon closure: the least superset of the set that is closed under λ edges. `ClosureUnique`, `ClosureIdempotent`, `ClosureEmpty` and `ClosureWithin` are its properties and `Dfa.EpsilonClosure` is proved to compute it |
| StateSets.ClosureUnique | src/dfa.rs:87-105 | a set has only one epsilon closure |
| StateSets.ClosureIdempotent | src/dfa.rs:87-105 | closing a closure again changes nothing |
| StateSets.ClosureEmpty | src/dfa.rs:87-105 | the closure is empty exactly when the input set is |
| StateSets.ClosureWithin | src/dfa.rs:87-105 | in a closed graph the closure of stored ids holds only stored ids |
| StateSets.Targets | src/dfa.rs:111-121 | the targets of one state's edges whose label contains the character; `AddTargets` is the inner loop proved to add exactly these |
| StateSets.Move | src/dfa.rs:108-124 | the union of `Targets` over the stored members of the set; `MoveSpec` characterises its members |
| StateSets.MoveSpec | src/dfa.rs:108-124 | a state is in the move on `ch` exactly when an edge from the set whose label contains `ch` ends there |
| StateSets.MoveFollowsLambda | src/dfa.rs:117 | an epsilon edge is followed on `<`, `λ` and `>` |
| StateSets.MoveWithin | src/dfa.rs:108-124 | in a closed graph every move stays among stored ids |
| StateSets.LabelChars | src/dfa.rs:133-141 | the characters of one state's labels other than λ; `AddLabelChars` is the loop proved to add exactly these |
| StateSets.Symbols | src/dfa.rs:127-146 | the union of `LabelChars` over the stored members of the set; `SymbolsSpec` characterises its members |
| StateSets.SymbolsSpec | src/dfa.rs:127-146 | a character is a symbol exactly when a non-epsilon label of an edge leaving the set holds it |
| StateSets.SymbolMoves | src/dfa.rs:53-57 | every symbol moves somewhere, so its closure is never empty |
| StateSets.TerminalIds | src/dfa.rs:165-171 | exactly the stored terminal states of the set |
| StateSets.TerminalNames | src/dfa.rs:150-161 | the names of the terminal members, in the given order (the `filter_map`); `FirstTerminalName` states its first element |
| StateSets.StateName | src/dfa.rs:163-177 | the name of a new DFA state: the first terminal name in ascending id order, or `<>`; `StateNameSpec` characterises it |
| StateSets.FirstTerminalName | src/dfa.rs:150-161 | over ascending ids, the first name collected is that of the smallest terminal id, and there is one exactly when a terminal id exists |
| StateSets.StateNameSpec | src/dfa.rs:148-177 | a set with a terminal state is named after its smallest terminal state; a set without one is named "<>" |
| Ordered.Ascending | src/dfa.rs:150-152 | a BTreeSet of ids iterates over exactly its elements, strictly ascending |
| Ordered.AscendingChars | src/dfa.rs:51 | a BTreeSet of characters iterates over exactly its elements, strictly ascending |
| Ordered.PowerSet | src/dfa.rs:46-81 | the set of all subsets of the NFA's ids |
| Scanning.StepOn | src/dfa.rs:201-208 | the target of the first edge whose label contains the character, or none when no label does |
| Scanning.Run | src/dfa.rs:197-224 | following edges from a stored state stays among stored states |
| Scanning.Scan | src/dfa.rs:197-224 | the inner loop either keeps the earlier accept or ends an accept past the start within the input |
| Scanning.ScanStep | src/dfa.rs:198-223 | one step follows the edge on the next character and records an accept at a terminal state |
| Scanning.Accepting | src/dfa.rs:197-222 | reading `input[from..to]` from the state follows edges all the way and ends in a terminal state, the condition under which lex records an accept |
| Scanning.AcceptedName | src/dfa.rs:214-222 | the name of the state that reading `input[from..to]` ends in, the name lex records with the accept |
| Scanning.ScanLongest | src/dfa.rs:197-235 | when a prefix is accepted, the scan ends at the longest accepted prefix with the name of the state it reaches; otherwise nothing is accepted |
| Scanning.LexFrom | src/dfa.rs:186-239 | lex from a position on, one round per call. `LexFromStep`, `LexFromBound` and `LexFromTokens` are its properties, and `Dfa.Lex` is proved equal to it from position 0 |
| Scanning.LexFromBound | src/dfa.rs:191-235 | each round consumes at least one character, so there are at most as many tokens as input characters, and none for empty input |
| Scanning.LexFromTokens | src/dfa.rs:226-231 | no token is named `;`, and each lexeme is a trimmed slice of the input |
| Scanning.LexFromStep | src/dfa.rs:191-236 | one round emits the longest accepted prefix, trimmed and named, unless the name is `;`, and continues after it; with no accept it skips one character |
| DfaBuilder.EdgeTo | src/dfa.rs:70-73 | the index of the first edge to the target, or none when no edge ends there |
| DfaBuilder.StepOnFirst | src/dfa.rs:201-208 | the scanner takes the first edge holding the character |
| DfaBuilder.Link | src/dfa.rs:69-78 | the transition on `ch`: `ch` appended to the label of the first edge to the target, or else a new edge labelled `ch` alone. `LinkShape`, `LinkDistinct` and `LinkSteps` are its properties |
| DfaBuilder.LinkShape | src/dfa.rs:69-78 | a transition keeps the node's fields and edge ends, and no label gains a character but `ch`, on an edge to the target |
| DfaBuilder.LinkDistinct | src/dfa.rs:69-78 | merging into the edge to the same target keeps one edge per target |
| DfaBuilder.LinkSteps | src/dfa.rs:69-78 | after a new transition `ch` leads to the target and every other character leads where it did |
| DfaBuilder.SearchEnd | src/dfa.rs:91-104 | when the work stack is empty the search has found the epsilon closure |
| DfaBuilder.SearchPush | src/dfa.rs:96-99 | following an epsilon edge to a new state keeps the search invariant |
| DfaBuilder.InitStep | src/dfa.rs:38-44 | the start state, made from the root's closure and queued, satisfies the worklist invariant |
| DfaBuilder.PopStep | src/dfa.rs:46-47 | popping the front of the queue opens a state that stands for that set and has no edges yet |
| DfaBuilder.CloseStep | src/dfa.rs:51-79 | once every symbol of the open state has its edge, the state is complete |
| DfaBuilder.NewStateStep | src/dfa.rs:62-66 | making, recording and queueing a state for an unseen closure keeps the invariant |
| DfaBuilder.Reuse | src/dfa.rs:60-61 | a closure already in `dfa_states` names the state that stands for it |
| DfaBuilder.LinkStep | src/dfa.rs:69-78 | adding the transition on `ch` from the open state keeps the invariant and marks `ch` done |
| DfaBuilder.ExploredFinal | src/dfa.rs:46-80 | with the queue empty the DFA is determinized |
| DfaBuilder.FinalSymbols | src/dfa.rs:46-80 | each state has an edge on exactly the symbols of its set |
| DfaBuilder.FinalTargets | src/dfa.rs:53-78 | the edge on `c` leads to the state of the closure of the move on `c` |
| DfaBuilder.FinalUnique | src/dfa.rs:69-78 | no character labels two edges of one state |
| DfaBuilder.StatesBound | src/dfa.rs:60-67 | there are at most as many DFA states as subsets of NFA ids |
| DfaBuilder.FindEdgeTo | src/dfa.rs:70-73 | the loop finds the first edge to the target |
| DfaBuilder.AddTargets | src/dfa.rs:112-120 | the loop adds the targets of exactly the edges whose label holds `ch` |
| DfaBuilder.AddLabelChars | src/dfa.rs:135-142 | the loop adds the characters of exactly the non-epsilon labels |
| DfaBuilder.AddChars | src/dfa.rs:138-140 | the loop adds every character of the label |
| DfaBuilder.FindStep | src/dfa.rs:201-208 | the loop finds the edge the scanner takes |
| DfaBuilder.Dfa.constructor | src/dfa.rs:15-26 | the NFA of `Nfa::new` and a store holding only the non-terminal root "DFA" |
| DfaBuilder.Dfa.SetNfa | src/dfa.rs:29-31 | the DFA is built from the given NFA's nodes and root |
| DfaBuilder.Dfa.EpsilonClosure | src/dfa.rs:87-105 | the result holds the input, no epsilon edge leaves it, and it lies inside every such set, so it adds only states reached by epsilon edges |
| DfaBuilder.Dfa.FollowLambdas | src/dfa.rs:92-101 | the edge loop of a popped state leaves its epsilon targets in the closure and keeps the search invariant |
| DfaBuilder.Dfa.AddMovesOf | src/dfa.rs:110-122 | one state's edges are added to the move; an id not stored adds nothing |
| DfaBuilder.Dfa.MoveNfa | src/dfa.rs:108-124 | the result is exactly the move on `ch` |
| DfaBuilder.Dfa.AddSymbolsOf | src/dfa.rs:133-144 | one state's label characters are added; an id not stored adds nothing |
| DfaBuilder.Dfa.ExtractSymbols | src/dfa.rs:127-146 | the result is exactly the symbols of the set |
| DfaBuilder.Dfa.CollectTerminalNames | src/dfa.rs:150-161 | the names of the terminal states, in the given order |
| DfaBuilder.Dfa.AnyTerminal | src/dfa.rs:165-171 | true exactly when some state is a stored terminal state |
| DfaBuilder.Dfa.CreateDfaState | src/dfa.rs:148-183 | one new node with the next id, named and flagged after the set |
| DfaBuilder.Dfa.AddTransition | src/dfa.rs:69-78 | the character is appended to the label of the first edge to the target, or a new edge holding it alone is added |
| DfaBuilder.Dfa.Target | src/dfa.rs:60-67 | the state that stands for the closure, reused or new, and the invariant is kept |
| DfaBuilder.Dfa.NewState | src/dfa.rs:62-67 | a new state stands for the closure, and it is recorded and queued |
| DfaBuilder.Dfa.ClosureOn | src/dfa.rs:53-57 | the closure of the move on a symbol is never empty and holds only stored ids |
| DfaBuilder.Dfa.ExpandOn | src/dfa.rs:52-79 | the transition on one symbol is added and the invariant kept |
| DfaBuilder.Dfa.ExpandAll | src/dfa.rs:51-79 | the transitions on exactly the given symbols are added |
| DfaBuilder.Dfa.Expand | src/dfa.rs:47-79 | the popped state gets its transitions on all its symbols and becomes complete |
| DfaBuilder.Dfa.Drain | src/dfa.rs:46-80 | the loop ends with the queue empty and the invariant kept |
| DfaBuilder.Dfa.StartState | src/dfa.rs:37-44 | the start state is the closure of the NFA root, stored and queued |
| DfaBuilder.Dfa.ConstructDfa | src/dfa.rs:33-81 | the root is the state of the closure of the NFA root. Old nodes are kept, and every other node is a DFA state. Each distinct non-empty closure has one state, named and flagged after it. Each state has edges on exactly its symbols, and the edge on `c` leads to the closure of the move on `c`. No character labels two edges of one state, and no two edges of a state share a target |
| DfaBuilder.Dfa.Longest | src/dfa.rs:192-224 | the inner loop computes the scan from the root: the end and the name of the last accept |
| DfaBuilder.Dfa.LexRound | src/dfa.rs:192-235 | one round of the outer loop moves the index forward and emits what `LexFrom` emits before the new index |
| DfaBuilder.Dfa.Lex | src/dfa.rs:186-239 | the tokens are exactly `LexFrom` from index 0, with longest match, trimming, `;` suppression and skipping as its lemmas state |

## Left out

- File input and output are not modelled.
  - The rules file is read at `src/nfa.rs:49` with a panicking `expect`; the model starts from the file's lines.
  - The `nfa.dot` write (`src/nfa.rs:413-414`) and the `dfa.dot` write (`src/dfa.rs:82-83`) are left out, with their `expect`.
  - `Construct` and `ConstructDfa` therefore do not build the DOT text they would write. `ToDot` models that text on its own.
- `src/main.rs` is not part of this model: it is command-line parsing, logging and coloured output.
- `src/liblex4oat.rs` and `build.rs` are not part of this model: they wrap foreign crates (lrlex, lrpar).
- `src/lex4oat.rs` is not part of this model.
  - Its `Rc<RefCell<..>>` sharing is replaced by `SetNfa`, which takes a copy of the NFA's nodes and root.
  - Later changes to the NFA object are therefore not seen by the DFA.
  - Its `minimize_dfa` does nothing.
- The process-wide atomic counter and `get_global_counter`/`reset_global_counter` (`src/node.rs:5-17`) are replaced by a counter field in each store. Atomicity is irrelevant to a sequential program. NFA and DFA ids each start at 1.
- Panics are preconditions.
  - `WellFormed` covers a trailing `\`, `*`, `+` or `?` with a single node on the stack, a set with a trailing `\`, a trailing range `-`, or a range start whose low byte is 255. `Construct` demands it only of rules not named `;`, which it skips without parsing.
  - `Parsable` covers a non-skipped rules line with no word (`parts.last().unwrap()`).
  - `Closed` covers the `unwrap` lookups of `write_dot` and `lex`.
- `Dfa.Valid` requires the NFA to be closed, as every NFA built by `Nfa` is. Under it, the `continue` for an empty closure in `construct_dfa` (`src/dfa.rs:55-57`) is dead code, which `ClosureOn` proves.
- Edge getters (`src/node.rs:30-44`) are the fields of the `Edge` datatype and need no member of their own.
- Automaton.WriteDot: states how the traversal visits nodes, not the order or exact text of the lines it writes. `EdgeLine`, `TerminalLine` and `EscapeIsReplaceChain` give that text.
- Automaton.ToDot: states the header, the footer and the traversal, not the lines in between.
- NfaCompiler.Nfa.ParseRegex: does not state which strings the compiled NFA accepts. The source promises no language. The contract states only that the graph grows from `start` (the `Extends` envelope), the marking of the end and the node returned. The exact nodes and edges each token adds are stated by the step methods (`CharNodeStep`, `LiteralStep`, `SetStep`, `GroupStep`, `StarStep`, `PlusStep`, `OptStep`).
- NfaCompiler.Nfa.ParseRegexGroup: states the group-start node, its edge and the end node, not the nodes the group body adds.
- Scanning.Scan: the function's own contract bounds the result; longest match is stated in `ScanLongest`.
- Ordered.PowerSet: used only as a termination bound, so its contract states membership and nothing about iteration.
