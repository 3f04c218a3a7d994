/**
 * The rule lines that `Nfa::add_keywords_from_file` reads (src/nfa.rs:52-61):
 * a pattern, whitespace, then a token name that may be wrapped in quotes.
 */
module Rules {
  import opened Strings

  /** A (pattern, token name) pair, the element type of `Nfa::keywords`. */
  datatype Rule = Rule(pattern: string, name: string)

  /** Lines starting with "%%" and empty lines carry no rule. */
  predicate Skipped(line: string) {
    line == [] || (|line| >= 2 && line[..2] == "%%")
  }

  /** A line that is not skipped must hold a word, or `parts.last().unwrap()` panics. */
  predicate Parsable(line: string) {
    Skipped(line) || Words(line) != []
  }

  /** The rule on a line that is not skipped: the last word, quotes trimmed, names the rest. */
  function ParseLine(line: string): (r: Rule)
    requires Words(line) != []
    ensures Words(r.pattern) == Words(line)[..|Words(line)| - 1]
  {
    var parts := Words(line);
    WordsOfJoinSpace(parts[..|parts| - 1]);
    Rule(JoinSpace(parts[..|parts| - 1]), TrimQuotes(parts[|parts| - 1]))
  }

  /**
   * What `ParseLine` gives: the pattern is single-spaced and has the line's
   * other words, which fixes it (`PatternOfWords`); the name is what is left of
   * the last word once the quotes at either end are removed.
   */
  lemma ParseLineSpec(line: string)
    requires Words(line) != []
    ensures var r := ParseLine(line);
      && Words(r.pattern) == Words(line)[..|Words(line)| - 1] && SingleSpaced(r.pattern)
      && Trimmed(Words(line)[|Words(line)| - 1], r.name, c => c == '"')
  {
    var parts := Words(line);
    JoinSpaceSingleSpaced(parts[..|parts| - 1]);
    StripTrims(parts[|parts| - 1], c => c == '"');
  }

  /** Two single-spaced patterns with the same words are the same pattern. */
  lemma PatternOfWords(p: string, q: string)
    requires SingleSpaced(p) && SingleSpaced(q) && Words(p) == Words(q)
    ensures p == q
  {
    SingleSpacedJoin(p);
    SingleSpacedJoin(q);
  }

  /** The rules of a sequence of lines, in line order. */
  function RulesOf(lines: seq<string>): seq<Rule>
    requires forall line :: line in lines ==> Parsable(line)
  {
    if lines == [] then []
    else if Skipped(lines[0]) then RulesOf(lines[1..])
    else
      assert Parsable(lines[0]);
      [ParseLine(lines[0])] + RulesOf(lines[1..])
  }

  /** Rules from consecutive blocks of lines come out in block order. */
  lemma {:induction false} RulesOfAppend(a: seq<string>, b: seq<string>)
    requires forall line :: line in a ==> Parsable(line)
    requires forall line :: line in b ==> Parsable(line)
    ensures RulesOf(a + b) == RulesOf(a) + RulesOf(b)
    decreases |a|
  {
    if a == [] {
      assert a + b == b;
    } else {
      var ab := a + b;
      assert ab[0] == a[0] && a[0] in a && ab[1..] == a[1..] + b;
      RulesOfAppend(a[1..], b);
      if Skipped(a[0]) {
        assert RulesOf(ab) == RulesOf(ab[1..]);
      } else {
        assert RulesOf(ab) == [ParseLine(a[0])] + RulesOf(ab[1..]);
      }
    }
  }

  /** Reading one more line appends that line's rules to those read before. */
  lemma RulesOfNext(before: seq<Rule>, lines: seq<string>, k: nat)
    requires k < |lines| && forall line :: line in lines ==> Parsable(line)
    ensures before + RulesOf(lines[..k + 1]) == (before + RulesOf(lines[..k])) + RulesOf([lines[k]])
  {
    assert lines[..k + 1] == lines[..k] + [lines[k]];
    RulesOfAppend(lines[..k], [lines[k]]);
    assert before + (RulesOf(lines[..k]) + RulesOf([lines[k]])) == (before + RulesOf(lines[..k])) + RulesOf([lines[k]]);
  }

  /** One line gives no rule when skipped and its parsed rule otherwise. */
  lemma RulesOfLine(line: string)
    requires Parsable(line)
    ensures RulesOf([line]) == if Skipped(line) then [] else [ParseLine(line)]
  {
    assert [line][1..] == [];
  }

  /** A line written as words and a last word parses to the joined words and the last word with its quotes trimmed. */
  lemma ParseJoined(words: seq<string>, last: string)
    requires forall i :: 0 <= i < |words| ==> IsWord(words[i])
    requires IsWord(last)
    ensures Words(JoinSpace(words + [last])) == words + [last]
    ensures ParseLine(JoinSpace(words + [last])) == Rule(JoinSpace(words), TrimQuotes(last))
  {
    var ws := words + [last];
    WordsOfJoinSpace(ws);
    assert ws[..|ws| - 1] == words;
  }

  /**
   * A line written as words, a space and a name gives that pattern and name back:
   * the pattern's words are re-joined with single spaces.
   */
  lemma RuleLineRoundTrip(words: seq<string>, name: string)
    requires forall i :: 0 <= i < |words| ==> IsWord(words[i])
    requires IsWord(name) && name[0] != '"' && name[|name| - 1] != '"'
    ensures Words(JoinSpace(words + [name])) == words + [name]
    ensures ParseLine(JoinSpace(words + [name])) == Rule(JoinSpace(words), name)
  {
    ParseJoined(words, name);
    StripNothing(name, c => c == '"');
  }

  /** The same with the name written in quotes, as in `"<name>"`: the quotes are trimmed off. */
  lemma RuleLineQuotedRoundTrip(words: seq<string>, name: string)
    requires forall i :: 0 <= i < |words| ==> IsWord(words[i])
    requires IsWord(name) && name[0] != '"' && name[|name| - 1] != '"'
    ensures Words(JoinSpace(words + ["\"" + name + "\""])) == words + ["\"" + name + "\""]
    ensures ParseLine(JoinSpace(words + ["\"" + name + "\""])) == Rule(JoinSpace(words), name)
  {
    QuotedWord(name);
    ParseJoined(words, "\"" + name + "\"");
    TrimQuotesEnclosed(name);
  }
}
