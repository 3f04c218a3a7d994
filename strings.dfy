/**
 * The pieces of Rust's string library that the core relies on: `char::is_whitespace`,
 * `str::split_whitespace`, `[&str]::join(" ")`, `str::trim`, `str::trim_matches`
 * and the decimal rendering of `usize` used by `format!`.
 */
module Strings {

  /** Rust's `char::is_whitespace`: the Unicode White_Space property. */
  predicate IsWhitespace(c: char) {
    || ('\t' <= c <= '\r')
    || c == ' '
    || c == '\U{85}'
    || c == '\U{A0}'
    || c == '\U{1680}'
    || ('\U{2000}' <= c <= '\U{200A}')
    || c == '\U{2028}'
    || c == '\U{2029}'
    || c == '\U{202F}'
    || c == '\U{205F}'
    || c == '\U{3000}'
  }

  /** A non-empty run of characters none of which is whitespace. */
  predicate IsWord(w: string) {
    w != [] && forall k :: 0 <= k < |w| ==> !IsWhitespace(w[k])
  }

  /** Length of the leading run of non-whitespace characters of `s`. */
  function WordLen(s: string): (n: nat)
    ensures n <= |s|
    ensures forall k :: 0 <= k < n ==> !IsWhitespace(s[k])
    ensures n < |s| ==> IsWhitespace(s[n])
  {
    if s == [] || IsWhitespace(s[0]) then 0 else 1 + WordLen(s[1..])
  }

  /** `str::split_whitespace`: the maximal whitespace-free runs of `s`, in order. */
  function Words(s: string): (r: seq<string>)
    ensures forall i :: 0 <= i < |r| ==> IsWord(r[i])
    decreases |s|
  {
    if s == [] then []
    else if IsWhitespace(s[0]) then Words(s[1..])
    else
      var n := WordLen(s);
      [s[..n]] + Words(s[n..])
  }

  /** The characters of `s` that are not whitespace, in order. */
  function NonWhitespace(s: string): string {
    if s == [] then []
    else (if IsWhitespace(s[0]) then [] else [s[0]]) + NonWhitespace(s[1..])
  }

  function Concat(ws: seq<string>): string {
    if ws == [] then [] else ws[0] + Concat(ws[1..])
  }

  lemma {:induction false} NonWhitespaceAppend(a: string, b: string)
    ensures NonWhitespace(a + b) == NonWhitespace(a) + NonWhitespace(b)
    decreases |a|
  {
    if a != [] {
      assert (a + b)[1..] == a[1..] + b;
      NonWhitespaceAppend(a[1..], b);
    } else {
      assert a + b == b;
    }
  }

  lemma {:induction false} NonWhitespaceOfWord(w: string)
    requires forall k :: 0 <= k < |w| ==> !IsWhitespace(w[k])
    ensures NonWhitespace(w) == w
    decreases |w|
  {
    if w != [] {
      NonWhitespaceOfWord(w[1..]);
    }
  }

  /** split_whitespace loses exactly the whitespace: gluing the words back gives every other character. */
  lemma {:induction false} WordsKeepNonWhitespace(s: string)
    ensures Concat(Words(s)) == NonWhitespace(s)
    decreases |s|
  {
    if s == [] {
    } else if IsWhitespace(s[0]) {
      WordsKeepNonWhitespace(s[1..]);
    } else {
      var n := WordLen(s);
      WordsKeepNonWhitespace(s[n..]);
      assert s == s[..n] + s[n..];
      NonWhitespaceAppend(s[..n], s[n..]);
      NonWhitespaceOfWord(s[..n]);
    }
  }

  /** `[&str]::join(" ")`. */
  function JoinSpace(ws: seq<string>): string {
    if ws == [] then []
    else if |ws| == 1 then ws[0]
    else ws[0] + " " + JoinSpace(ws[1..])
  }

  lemma WordsAfterWord(w: string, t: string)
    requires IsWord(w)
    requires t == [] || IsWhitespace(t[0])
    ensures Words(w + t) == [w] + Words(t)
  {
    var s := w + t;
    assert forall k :: 0 <= k < |w| ==> !IsWhitespace(s[k]);
    assert |w| < |s| ==> IsWhitespace(s[|w|]);
    var n := WordLen(s);
    assert n == |w|;
    assert s[..n] == w && s[n..] == t;
  }

  /** Splitting a space-joined list of words gives the list back. */
  lemma {:induction false} WordsOfJoinSpace(ws: seq<string>)
    requires forall i :: 0 <= i < |ws| ==> IsWord(ws[i])
    ensures Words(JoinSpace(ws)) == ws
    decreases |ws|
  {
    if ws == [] {
    } else if |ws| == 1 {
      WordsAfterWord(ws[0], []);
      assert ws[0] + [] == ws[0];
    } else {
      var rest := JoinSpace(ws[1..]);
      WordsOfJoinSpace(ws[1..]);
      assert ws[0] + " " + rest == ws[0] + (" " + rest);
      WordsAfterWord(ws[0], " " + rest);
      assert (" " + rest)[1..] == rest;
    }
  }

  /** Every whitespace character of `s` is a single space between two non-whitespace characters. */
  predicate SingleSpaced(s: string) {
    forall k :: 0 <= k < |s| && IsWhitespace(s[k]) ==>
      s[k] == ' ' && 0 < k < |s| - 1 && !IsWhitespace(s[k - 1]) && !IsWhitespace(s[k + 1])
  }

  /** A space-joined list of words has single spaces between them and a word character at each end. */
  lemma {:induction false} JoinSpaceSingleSpaced(ws: seq<string>)
    requires forall i :: 0 <= i < |ws| ==> IsWord(ws[i])
    ensures SingleSpaced(JoinSpace(ws))
    ensures ws != [] ==> |JoinSpace(ws)| > 0 && !IsWhitespace(JoinSpace(ws)[0])
                         && !IsWhitespace(JoinSpace(ws)[|JoinSpace(ws)| - 1])
    decreases |ws|
  {
    if |ws| >= 2 {
      var w, rest := ws[0], JoinSpace(ws[1..]);
      JoinSpaceSingleSpaced(ws[1..]);
      var s := w + " " + rest;
      assert JoinSpace(ws) == s;
      forall k | 0 <= k < |s| && IsWhitespace(s[k])
        ensures s[k] == ' ' && 0 < k < |s| - 1 && !IsWhitespace(s[k - 1]) && !IsWhitespace(s[k + 1])
      {
        if k > |w| {
          assert s[k] == rest[k - |w| - 1];
          assert s[k - 1] == rest[k - |w| - 2] && s[k + 1] == rest[k - |w|];
        } else if k == |w| {
          assert s[k - 1] == w[|w| - 1] && s[k + 1] == rest[0];
        }
      }
      assert s[0] == w[0] && s[|s| - 1] == rest[|rest| - 1];
    }
  }

  /** A single-spaced string is the space-join of its own words: `JoinSpace` inverts `Words` on it. */
  lemma {:induction false} SingleSpacedJoin(s: string)
    requires SingleSpaced(s)
    ensures JoinSpace(Words(s)) == s
    ensures s != [] ==> Words(s) != []
    decreases |s|
  {
    if s != [] {
      assert !IsWhitespace(s[0]);
      var n := WordLen(s);
      var w := s[..n];
      assert n > 0;
      if n == |s| {
        assert s[n..] == [];
        assert Words(s) == [w] && w == s;
      } else {
        var t := s[n + 1..];
        assert s[n] == ' ' && !IsWhitespace(s[n + 1]);
        assert SingleSpaced(t) by {
          forall k | 0 <= k < |t| && IsWhitespace(t[k])
            ensures t[k] == ' ' && 0 < k < |t| - 1 && !IsWhitespace(t[k - 1]) && !IsWhitespace(t[k + 1])
          {
            assert t[k] == s[n + 1 + k];
            assert s[n + 1 + k - 1] == t[k - 1] by { assert k != 0; }
            assert s[n + 1 + k + 1] == t[k + 1];
          }
        }
        SingleSpacedJoin(t);
        assert s[n..][1..] == t;
        assert Words(s[n..]) == Words(t);
        assert Words(s) == [w] + Words(t);
        assert JoinSpace(Words(s)) == w + " " + JoinSpace(Words(t));
        assert s == w + " " + t;
      }
    }
  }

  /** Number of leading characters of `s` that `drop` removes. */
  function LeadingCount(s: string, drop: char -> bool): (n: nat)
    ensures n <= |s|
    ensures forall k :: 0 <= k < n ==> drop(s[k])
    ensures n < |s| ==> !drop(s[n])
  {
    if s == [] || !drop(s[0]) then 0 else 1 + LeadingCount(s[1..], drop)
  }

  /** Number of trailing characters of `s` that `drop` removes. */
  function TrailingCount(s: string, drop: char -> bool): (n: nat)
    ensures n <= |s|
    ensures forall k :: |s| - n <= k < |s| ==> drop(s[k])
    ensures n < |s| ==> !drop(s[|s| - 1 - n])
  {
    if s == [] || !drop(s[|s| - 1]) then 0 else 1 + TrailingCount(s[..|s| - 1], drop)
  }

  /**
   * The bounds of `s.trim_matches(p)`: `s[i..j]` is what remains once the longest
   * prefix and the longest suffix of characters satisfying `drop` are removed.
   */
  function StripBounds(s: string, drop: char -> bool): (b: (nat, nat))
    ensures b.0 <= b.1 <= |s|
    ensures forall k :: 0 <= k < b.0 ==> drop(s[k])
    ensures forall k :: b.1 <= k < |s| ==> drop(s[k])
    ensures b.0 < b.1 ==> !drop(s[b.0]) && !drop(s[b.1 - 1])
  {
    var i := LeadingCount(s, drop);
    if i == |s| then (i, i)
    else
      var n := TrailingCount(s, drop);
      assert !drop(s[i]);
      assert n <= |s| - 1 - i;
      (i, |s| - n)
  }

  /** `str::trim_matches(p)` for a predicate `p`. */
  function Strip(s: string, drop: char -> bool): string {
    var b := StripBounds(s, drop);
    s[b.0..b.1]
  }

  /**
   * `t` is what is left of `s` once every character satisfying `drop` is removed
   * from both ends: a slice of `s`, with only such characters outside it and
   * neither end of it droppable.
   */
  ghost predicate Trimmed(s: string, t: string, drop: char -> bool) {
    exists i, j :: 0 <= i <= j <= |s| && t == s[i..j]
      && (forall k :: 0 <= k < i ==> drop(s[k]))
      && (forall k :: j <= k < |s| ==> drop(s[k]))
      && (i < j ==> !drop(s[i]) && !drop(s[j - 1]))
  }

  /** `Strip` trims exactly. */
  lemma StripTrims(s: string, drop: char -> bool)
    ensures Trimmed(s, Strip(s, drop), drop)
  {
    var b := StripBounds(s, drop);
    assert Strip(s, drop) == s[b.0..b.1];
  }

  /** A word in quotes is still a word. */
  lemma QuotedWord(w: string)
    requires IsWord(w)
    ensures IsWord("\"" + w + "\"")
  {
    var q := "\"" + w + "\"";
    forall k | 0 <= k < |q| ensures !IsWhitespace(q[k]) {
      if 0 < k < |q| - 1 {
        assert q[k] == w[k - 1];
      }
    }
  }

  /** `trim_matches('"')` removes the quotes around a string that has none at its own ends. */
  lemma TrimQuotesEnclosed(name: string)
    requires name != [] && name[0] != '"' && name[|name| - 1] != '"'
    ensures TrimQuotes("\"" + name + "\"") == name
  {
    var q := "\"" + name + "\"";
    var b := StripBounds(q, c => c == '"');
    assert q[0] == '"' && q[|q| - 1] == '"';
    assert q[1] == name[0] && q[|q| - 2] == name[|name| - 1];
    assert b.0 == 1 && b.1 == |q| - 1;
    assert q[1..|q| - 1] == name;
  }

  /** Stripping leaves a string alone when neither end is droppable. */
  lemma StripNothing(s: string, drop: char -> bool)
    requires s != [] && !drop(s[0]) && !drop(s[|s| - 1])
    ensures Strip(s, drop) == s
  {
    assert LeadingCount(s, drop) == 0;
    assert TrailingCount(s, drop) == 0;
  }

  /** `str::trim`. */
  function Trim(s: string): string {
    Strip(s, IsWhitespace)
  }

  /** `str::trim_matches('"')`. */
  function TrimQuotes(s: string): string {
    Strip(s, c => c == '"')
  }

  function DigitChar(d: nat): (c: char)
    requires d < 10
  {
    ('0' as int + d) as char
  }

  predicate IsDigits(s: string) {
    forall k :: 0 <= k < |s| ==> '0' <= s[k] <= '9'
  }

  /** The `Display` rendering of a `usize`: decimal digits, no leading zero. */
  function NatToString(n: nat): (r: string)
    ensures r != [] && IsDigits(r)
    ensures r[0] == '0' ==> r == "0"
  {
    if n < 10 then [DigitChar(n)] else NatToString(n / 10) + [DigitChar(n % 10)]
  }

  function DigitsValue(s: string): nat
    requires IsDigits(s)
  {
    if s == [] then 0 else 10 * DigitsValue(s[..|s| - 1]) + (s[|s| - 1] as int - '0' as int)
  }

  /** Reading the decimal digits back gives the number. */
  lemma {:induction false} NatToStringValue(n: nat)
    ensures DigitsValue(NatToString(n)) == n
  {
    if n >= 10 {
      NatToStringValue(n / 10);
      var r := NatToString(n);
      assert r[..|r| - 1] == NatToString(n / 10);
    }
  }
}
