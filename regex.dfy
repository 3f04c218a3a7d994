/**
 * The pattern language that `Nfa::parse_regex` and `Nfa::parse_regex_set`
 * accept (src/nfa.rs), as pure functions: how a pattern splits into tokens,
 * which patterns the parser gets through without a panic, and the label a
 * `[...]` set turns into.
 */
module RegexSyntax {
  import opened Wrappers

  /** One step of the `while let Some(c) = chars.next()` loop of parse_regex. */
  datatype Token =
    | Alt                  // '|'
    | Space                // "\s"
    | Escaped(c: char)     // '\' followed by any other character
    | Dangling             // '\' as the last character (the parser panics)
    | Class(body: string)  // '[' ... up to the first ']' or the end
    | Group(body: string)  // '(' ... up to the first ')' or the end
    | Star
    | Plus
    | Opt
    | Literal(c: char)
  {
    /** The token pushes a new node on the parser's stack. */
    predicate PushesNode() {
      Space? || Escaped? || Class? || Group? || Literal?
    }

    /** As the last token of a pattern compiled with `mark_ending`, it marks a node terminal. */
    predicate MarksEnd() {
      Escaped? || Class? || Group? || Star? || Plus? || Literal?
    }

    /** As the last token, it also renames its node and makes it the returned end node. */
    predicate NamesEnd() {
      Escaped? || Literal?
    }
  }

  /** Index of the first `close` at or after `i`, or `|s|` when there is none. */
  function CloseAt(s: string, i: nat, close: char): (e: nat)
    requires i <= |s|
    ensures i <= e <= |s|
    ensures forall k :: i <= k < e ==> s[k] != close
    ensures e < |s| ==> s[e] == close
    decreases |s| - i
  {
    if i == |s| || s[i] == close then i else CloseAt(s, i + 1, close)
  }

  /** Only one index satisfies the description of `CloseAt`. */
  lemma {:induction false} CloseAtUnique(s: string, i: nat, close: char, e: nat)
    requires i <= e <= |s|
    requires forall k :: i <= k < e ==> s[k] != close
    requires e < |s| ==> s[e] == close
    ensures e == CloseAt(s, i, close)
    decreases |s| - i
  {
    if i < e {
      CloseAtUnique(s, i + 1, close, e);
    }
  }

  /** The token that starts at `i`, and the index just after it. */
  function NextToken(re: string, i: nat): (r: (Token, nat))
    requires i < |re|
    ensures i < r.1 <= |re|
    ensures r.0.Class? || r.0.Group? ==> |r.0.body| < |re|
  {
    var c := re[i];
    if c == '|' then (Alt, i + 1)
    else if c == '\\' then
      if i + 1 == |re| then (Dangling, i + 1)
      else if re[i + 1] == 's' then (Space, i + 2)
      else (Escaped(re[i + 1]), i + 2)
    else if c == '[' then
      var e := CloseAt(re, i + 1, ']');
      (Class(re[i + 1..e]), if e < |re| then e + 1 else e)
    else if c == '(' then
      var e := CloseAt(re, i + 1, ')');
      (Group(re[i + 1..e]), if e < |re| then e + 1 else e)
    else if c == '*' then (Star, i + 1)
    else if c == '+' then (Plus, i + 1)
    else if c == '?' then (Opt, i + 1)
    else (Literal(c), i + 1)
  }

  /** The tokens of `re` from index `i` on. */
  function TokensFrom(re: string, i: nat): (ts: seq<Token>)
    requires i <= |re|
    ensures |ts| <= |re| - i
    decreases |re| - i
  {
    if i == |re| then []
    else
      var (t, n) := NextToken(re, i);
      [t] + TokensFrom(re, n)
  }

  function Tokens(re: string): seq<Token> {
    TokensFrom(re, 0)
  }

  /**
   * The parser gets from index `i` to the end of `re` without a panic; `seen`
   * says whether a node sits above the branch start on the stack. The panics
   * are: a trailing '\' (src/nfa.rs:227), '*', '+' or '?' with nothing to
   * repeat (src/nfa.rs:301-302, 329-330, 343-344), a set the set parser
   * rejects, and the same inside a group.
   */
  predicate WellFormedFrom(re: string, i: nat, seen: bool)
    requires i <= |re|
    decreases |re|, |re| - i
  {
    if i == |re| then true
    else
      var (t, n) := NextToken(re, i);
      && !t.Dangling?
      && (t.Star? || t.Plus? || t.Opt? ==> seen)
      && (t.Class? ==> SetLabel(t.body).Some?)
      && (t.Group? ==> WellFormedFrom(t.body, 0, false))
      && WellFormedFrom(re, n, seen || t.PushesNode())
  }

  predicate WellFormed(re: string) {
    WellFormedFrom(re, 0, false)
  }

  /** A token list the parser accepts, stated without indices. */
  predicate TokensOk(ts: seq<Token>, seen: bool) {
    if ts == [] then true
    else
      var t := ts[0];
      && !t.Dangling?
      && (t.Star? || t.Plus? || t.Opt? ==> seen)
      && (t.Class? ==> SetLabel(t.body).Some?)
      && (t.Group? ==> WellFormed(t.body))
      && TokensOk(ts[1..], seen || t.PushesNode())
  }

  /** Well-formedness is a property of the token list alone. */
  lemma {:induction false} WellFormedTokens(re: string, i: nat, seen: bool)
    requires i <= |re|
    ensures WellFormedFrom(re, i, seen) <==> TokensOk(TokensFrom(re, i), seen)
    decreases |re| - i
  {
    if i < |re| {
      var (t, n) := NextToken(re, i);
      WellFormedTokens(re, n, seen || t.PushesNode());
      assert TokensFrom(re, i)[1..] == TokensFrom(re, n);
    }
  }

  /** The tokens `done` are those of `re` before index `i`, and the parser gets through the rest. */
  predicate Scanned(re: string, i: nat, done: seq<Token>, seen: bool) {
    i <= |re| && done + TokensFrom(re, i) == Tokens(re) && WellFormedFrom(re, i, seen)
  }

  /**
   * One more token: it is not a panic of the parser, and the scan moves past
   * it, with `seen` set once a node has been pushed.
   */
  lemma ScanStep(re: string, i: nat, done: seq<Token>, seen: bool)
    requires Scanned(re, i, done, seen) && i < |re|
    ensures var (t, n) := NextToken(re, i);
      && !t.Dangling?
      && (t.Star? || t.Plus? || t.Opt? ==> seen)
      && (t.Class? ==> SetLabel(t.body).Some?)
      && (t.Group? ==> WellFormed(t.body))
      && Scanned(re, n, done + [t], seen || t.PushesNode())
  {
    var (t, n) := NextToken(re, i);
    assert TokensFrom(re, i) == [t] + TokensFrom(re, n);
    assert done + [t] + TokensFrom(re, n) == done + TokensFrom(re, i);
  }

  /** No repetition operator may open a pattern or follow a leading run of '|'. */
  lemma {:induction false} LeadingRepeatRejected(re: string, i: nat)
    requires i < |re|
    requires forall k :: 0 <= k < i ==> re[k] == '|'
    requires re[i] == '*' || re[i] == '+' || re[i] == '?'
    ensures !WellFormed(re)
  {
    LeadingRepeatFrom(re, 0, i);
  }

  lemma {:induction false} LeadingRepeatFrom(re: string, j: nat, i: nat)
    requires j <= i < |re|
    requires forall k :: j <= k < i ==> re[k] == '|'
    requires re[i] == '*' || re[i] == '+' || re[i] == '?'
    ensures !WellFormedFrom(re, j, false)
    decreases i - j
  {
    if j < i {
      LeadingRepeatFrom(re, j + 1, i);
    }
  }

  // ---------------------------------------------------------------------------
  // Character sets (parse_regex_set)
  // ---------------------------------------------------------------------------

  /** Prefix the characters produced so far to the rest, unless the rest panicked. */
  function Then(prefix: seq<char>, rest: Option<seq<char>>): (r: Option<seq<char>>)
    ensures r.Some? <==> rest.Some?
    ensures r.Some? ==> r.value == prefix + rest.value
  {
    if rest.None? then None else Some(prefix + rest.value)
  }

  lemma ThenAssoc(a: seq<char>, b: seq<char>, rest: Option<seq<char>>)
    ensures Then(a + b, rest) == Then(a, Then(b, rest))
  {
    if rest.Some? {
      assert (a + b) + rest.value == a + (b + rest.value);
    }
  }

  /**
   * The characters of `RangeInclusive<char>` from code `lo` to code `hi`:
   * every scalar value in between, surrogates skipped, ascending.
   */
  function RangeChars(lo: int, hi: int): seq<char>
    requires 0 <= lo && hi < 0x11_0000
    decreases hi - lo
  {
    if lo > hi then []
    else if 0xD800 <= lo < 0xE000 then RangeChars(0xE000, hi)
    else [lo as char] + RangeChars(lo + 1, hi)
  }

  /** Each character comes strictly after the one before it. */
  predicate Increasing(s: seq<char>) {
    forall i, j :: 0 <= i < j < |s| ==> s[i] < s[j]
  }

  /** Every character has a code of at least `lo`. */
  predicate CodesFrom(s: seq<char>, lo: int) {
    forall i :: 0 <= i < |s| ==> lo <= s[i] as int
  }

  /** A range holds exactly the characters between its ends, in ascending order. */
  lemma {:induction false} RangeCharsSpec(lo: int, hi: int)
    requires 0 <= lo && hi < 0x11_0000
    ensures forall c :: c in RangeChars(lo, hi) <==> lo <= c as int <= hi
    ensures CodesFrom(RangeChars(lo, hi), lo)
    ensures Increasing(RangeChars(lo, hi))
    decreases hi - lo
  {
    if lo > hi {
    } else if 0xD800 <= lo < 0xE000 {
      RangeCharsSpec(0xE000, hi);
      assert RangeChars(lo, hi) == RangeChars(0xE000, hi);
    } else {
      RangeCharsSpec(lo + 1, hi);
      var rest := RangeChars(lo + 1, hi);
      var r := [lo as char] + rest;
      assert RangeChars(lo, hi) == r;
      forall i, j | 0 <= i < j < |r| ensures r[i] < r[j] {
        if i == 0 {
          assert r[j] == rest[j - 1];
        } else {
          assert r[i] == rest[i - 1] && r[j] == rest[j - 1];
        }
      }
    }
  }

  /** The `\s` class: space, tab, line feed, carriage return. */
  const SpaceChars: string := " \t\n\r"

  /**
   * The `set_chars` the loop of src/nfa.rs:95-124 collects from `s`, where
   * `prev` is the last character seen; `None` where that loop panics: a
   * trailing '\', a range '-' at the end, or a range start whose low byte is
   * 255 (`start as u8 + 1` overflows).
   */
  function SetItems(s: string, prev: Option<char>): Option<seq<char>>
    decreases |s|
  {
    if s == [] then Some([])
    else if s[0] == '\\' then
      if |s| == 1 then None
      else Then(if s[1] == 's' then SpaceChars else [s[1]], SetItems(s[2..], Some(s[1])))
    else if s[0] == '-' then
      if prev.None? then SetItems(s[1..], None)
      else if |s| == 1 || prev.value as int % 256 == 255 then None
      else Then(RangeChars(prev.value as int % 256 + 1, s[1] as int), SetItems(s[2..], Some(s[1])))
    else Then([s[0]], SetItems(s[1..], Some(s[0])))
  }

  /** The printable ASCII characters from `code` to '~' that are not in `cs`, ascending. */
  function PrintableNotIn(cs: seq<char>, code: nat): string
    decreases 127 - code
  {
    if code > 126 then []
    else (if code as char in cs then [] else [code as char]) + PrintableNotIn(cs, code + 1)
  }

  /** The complement holds exactly the printable characters from `code` on that `cs` lacks, ascending. */
  lemma {:induction false} PrintableNotInSpec(cs: seq<char>, code: nat)
    ensures forall c :: c in PrintableNotIn(cs, code) <==> code <= c as int <= 126 && c !in cs
    ensures CodesFrom(PrintableNotIn(cs, code), code)
    ensures Increasing(PrintableNotIn(cs, code))
    decreases 127 - code
  {
    if code <= 126 {
      PrintableNotInSpec(cs, code + 1);
      var rest := PrintableNotIn(cs, code + 1);
      var head := if code as char in cs then [] else [code as char];
      var r := head + rest;
      assert PrintableNotIn(cs, code) == r;
      forall i | 0 <= i < |r| ensures code <= r[i] as int {
        if i >= |head| {
          assert r[i] == rest[i - |head|];
        }
      }
      forall i, j | 0 <= i < j < |r| ensures r[i] < r[j] {
        if i >= |head| {
          assert r[i] == rest[i - |head|] && r[j] == rest[j - |head|];
        } else {
          assert r[j] == rest[j - 1];
        }
      }
    }
  }

  predicate Negated(body: string) {
    body != [] && body[0] == '^'
  }

  /** The edge label parse_regex_set builds for `[body]`, or `None` where it panics. */
  function SetLabel(body: string): Option<string> {
    if Negated(body) then
      var items := SetItems(body[1..], None);
      if items.None? then None else Some(PrintableNotIn(items.value, 32))
    else SetItems(body, None)
  }

  /** With a leading '^' the label is every printable ASCII character outside the set, ascending. */
  lemma NegatedLabel(body: string)
    requires Negated(body) && SetLabel(body).Some?
    ensures var items := SetItems(body[1..], None).value;
      forall c :: c in SetLabel(body).value <==> ' ' <= c <= '~' && c !in items
    ensures Increasing(SetLabel(body).value)
  {
    PrintableNotInSpec(SetItems(body[1..], None).value, 32);
  }

  /** `a-b` adds `a` and then every character after `a` up to `b`. */
  lemma {:induction false} RangeItems(a: char, b: char, rest: string, prev: Option<char>)
    requires a != '\\' && a != '-'
    requires a as int < 255
    ensures SetItems([a, '-', b] + rest, prev)
         == Then([a] + RangeChars(a as int + 1, b as int), SetItems(rest, Some(b)))
  {
    var s := [a, '-', b] + rest;
    assert s[1..] == ['-', b] + rest;
    assert s[1..][2..] == rest;
    assert a as int % 256 == a as int;
    var r := SetItems(rest, Some(b));
    assert SetItems(s[1..], Some(a)) == Then(RangeChars(a as int + 1, b as int), r);
    if r.Some? {
      assert [a] + (RangeChars(a as int + 1, b as int) + r.value)
          == ([a] + RangeChars(a as int + 1, b as int)) + r.value;
    }
  }

  /** `\s` adds space, tab, line feed and carriage return. */
  lemma {:induction false} SpaceItems(rest: string, prev: Option<char>)
    ensures SetItems("\\s" + rest, prev) == Then(SpaceChars, SetItems(rest, Some('s')))
  {
    var s := "\\s" + rest;
    assert s[2..] == rest;
  }

  /** A '-' with nothing before it is dropped. */
  lemma {:induction false} LoneDashItems(rest: string)
    ensures SetItems(['-'] + rest, None) == SetItems(rest, None)
  {
    assert (['-'] + rest)[1..] == rest;
  }
}
