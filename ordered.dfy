/**
 * Ordered views of finite sets. The source keeps NFA state sets in BTreeSet<usize>
 * and symbol sets in BTreeSet<char>, whose iteration order is ascending; these
 * functions give that order, plus the power set used to bound subset construction.
 */
module Ordered {

  /** A least element of a non-empty set of identifiers, found by removing one element at a time. */
  ghost function LeastNat(s: set<nat>): (m: nat)
    requires s != {}
    ensures m in s && forall x :: x in s ==> m <= x
    decreases |s|
  {
    var y :| y in s;
    if s == {y} then y
    else
      var m := LeastNat(s - {y});
      assert forall x :: x in s ==> x == y || x in s - {y};
      if y < m then y else m
  }

  /** The smallest element of a non-empty set of identifiers. */
  function MinNat(s: set<nat>): (m: nat)
    requires s != {}
    ensures m in s && forall x :: x in s ==> m <= x
  {
    assert LeastNat(s) in s;
    var m :| m in s && forall x :: x in s ==> m <= x; m
  }

  /** A least element of a non-empty set of characters, found by removing one element at a time. */
  ghost function LeastChar(s: set<char>): (m: char)
    requires s != {}
    ensures m in s && forall x :: x in s ==> m <= x
    decreases |s|
  {
    var y :| y in s;
    if s == {y} then y
    else
      var m := LeastChar(s - {y});
      assert forall x :: x in s ==> x == y || x in s - {y};
      if y < m then y else m
  }

  /** The smallest element of a non-empty set of characters. */
  function MinChar(s: set<char>): (m: char)
    requires s != {}
    ensures m in s && forall x :: x in s ==> m <= x
  {
    assert LeastChar(s) in s;
    var m :| m in s && forall x :: x in s ==> m <= x; m
  }

  /** Putting the least element of `s` before an ascending listing of the rest lists `s` in ascending order. */
  lemma ConsNat(m: nat, rest: seq<nat>, s: set<nat>)
    requires m in s && forall x :: x in s ==> m <= x
    requires |rest| == |s - {m}| && forall x :: x in rest <==> x in s - {m}
    requires forall i, j :: 0 <= i < j < |rest| ==> rest[i] < rest[j]
    ensures |[m] + rest| == |s|
    ensures forall x :: x in [m] + rest <==> x in s
    ensures forall i, j :: 0 <= i < j < |[m] + rest| ==> ([m] + rest)[i] < ([m] + rest)[j]
  {
    var r := [m] + rest;
    forall i, j | 0 <= i < j < |r| ensures r[i] < r[j] {
      assert r[j] == rest[j - 1] && rest[j - 1] in rest;
      if i > 0 {
        assert r[i] == rest[i - 1];
      }
    }
  }

  /** The elements of `s` in BTreeSet iteration order. */
  function Ascending(s: set<nat>): (r: seq<nat>)
    ensures |r| == |s|
    ensures forall x :: x in r <==> x in s
    ensures forall i, j :: 0 <= i < j < |r| ==> r[i] < r[j]
    decreases |s|
  {
    if s == {} then []
    else
      var m := MinNat(s);
      var rest := Ascending(s - {m});
      ConsNat(m, rest, s);
      [m] + rest
  }

  /** Putting the least element of `s` before an ascending listing of the rest lists `s` in ascending order. */
  lemma ConsChar(m: char, rest: seq<char>, s: set<char>)
    requires m in s && forall x :: x in s ==> m <= x
    requires |rest| == |s - {m}| && forall x :: x in rest <==> x in s - {m}
    requires forall i, j :: 0 <= i < j < |rest| ==> rest[i] < rest[j]
    ensures |[m] + rest| == |s|
    ensures forall x :: x in [m] + rest <==> x in s
    ensures forall i, j :: 0 <= i < j < |[m] + rest| ==> ([m] + rest)[i] < ([m] + rest)[j]
  {
    var r := [m] + rest;
    forall i, j | 0 <= i < j < |r| ensures r[i] < r[j] {
      assert r[j] == rest[j - 1] && rest[j - 1] in rest;
      if i > 0 {
        assert r[i] == rest[i - 1];
      }
    }
  }

  /** The characters of `s` in BTreeSet iteration order. */
  function AscendingChars(s: set<char>): (r: seq<char>)
    ensures |r| == |s|
    ensures forall x :: x in r <==> x in s
    ensures forall i, j :: 0 <= i < j < |r| ==> r[i] < r[j]
    decreases |s|
  {
    if s == {} then []
    else
      var m := MinChar(s);
      var rest := AscendingChars(s - {m});
      ConsChar(m, rest, s);
      [m] + rest
  }

  /** Every subset of `u`. */
  ghost function PowerSet(u: set<nat>): (r: set<set<nat>>)
    ensures forall s :: s in r <==> s <= u
    decreases |u|
  {
    if u == {} then {{}}
    else
      var x :| x in u;
      var p := PowerSet(u - {x});
      var r := p + set s | s in p :: s + {x};
      assert forall s :: s <= u ==> s in r by {
        forall s | s <= u ensures s in r {
          if x in s {
            assert s - {x} in p;
            assert s == (s - {x}) + {x};
          } else {
            assert s in p;
          }
        }
      }
      r
  }

  /** A proper subset is strictly smaller. */
  lemma {:induction false} ProperSubsetCard<T>(a: set<T>, b: set<T>)
    requires a < b
    ensures |a| < |b|
  {
    assert b - a != {} by {
      assert !(b <= a);
    }
    assert b == a + (b - a);
    assert a * (b - a) == {};
  }
}
