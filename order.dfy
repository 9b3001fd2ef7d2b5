/**
 * Python's ordering of `str` values (lexicographic by code point, a proper
 * prefix first) and the two uses the tool makes of `sorted`: the sorted list
 * of a set of strings, and a list sorted by a string key.
 */
module Order {

  /** `a < b` on Python strings. */
  predicate Below(a: string, b: string)
    decreases |a|
  {
    |b| > 0 && (|a| == 0 || a[0] < b[0] || (a[0] == b[0] && Below(a[1..], b[1..])))
  }

  lemma {:induction false} BelowIrreflexive(a: string)
    ensures !Below(a, a)
    decreases |a|
  {
    if |a| > 0 {
      BelowIrreflexive(a[1..]);
    }
  }

  lemma {:induction false} BelowTransitive(a: string, b: string, c: string)
    requires Below(a, b) && Below(b, c)
    ensures Below(a, c)
    decreases |a|
  {
    if |a| > 0 && a[0] == b[0] && b[0] == c[0] {
      BelowTransitive(a[1..], b[1..], c[1..]);
    }
  }

  /** Two different strings are ordered one way or the other. */
  lemma {:induction false} BelowTotal(a: string, b: string)
    requires a != b
    ensures Below(a, b) || Below(b, a)
    decreases |a|
  {
    if |a| > 0 && |b| > 0 && a[0] == b[0] {
      assert a == [a[0]] + a[1..] && b == [b[0]] + b[1..];
      BelowTotal(a[1..], b[1..]);
    }
  }

  lemma {:induction false} BelowAsymmetric(a: string, b: string)
    requires Below(a, b)
    ensures !Below(b, a)
  {
    if Below(b, a) {
      BelowTransitive(a, b, a);
      BelowIrreflexive(a);
    }
  }

  /** Every element is smaller than every later one, so there are no duplicates. */
  predicate StrictlyAscending(s: seq<string>) {
    forall i, j | 0 <= i < j < |s| :: Below(s[i], s[j])
  }

  /** `s` with `x` added at its place, unless already there: one step of `sorted(set(...))`. */
  function InsertUnique(x: string, s: seq<string>): (r: seq<string>)
    requires StrictlyAscending(s)
    ensures StrictlyAscending(r)
    ensures forall y :: y in r <==> y == x || y in s
  {
    if s == [] then [x]
    else if x == s[0] then s
    else if Below(x, s[0]) then
      LeastBelowAll(x, s);
      [x] + s
    else
      BelowTotal(x, s[0]);
      var r' := InsertUnique(x, s[1..]);
      assert forall y | y in r' :: Below(s[0], y);
      [s[0]] + r'
  }

  /** A strictly ascending sequence is determined by its elements: `sorted` of a set has one answer. */
  lemma {:induction false} AscendingUnique(a: seq<string>, b: seq<string>)
    requires StrictlyAscending(a) && StrictlyAscending(b)
    requires forall y :: y in a <==> y in b
    ensures a == b
    decreases |a|
  {
    if a != [] {
      assert a[0] in a;
    }
    if b != [] {
      assert b[0] in b;
    }
    if a != [] && b != [] {
      if a[0] != b[0] {
        assert b[0] in a && a[0] in b;
        var i :| 0 <= i < |a| && a[i] == b[0];
        var j :| 0 <= j < |b| && b[j] == a[0];
        assert i > 0 && j > 0;
        BelowAsymmetric(a[0], a[i]);
      }
      forall y ensures y in a[1..] <==> y in b[1..] {
        if y in a[1..] {
          OtherThanHead(a, b, y);
        }
        if y in b[1..] {
          OtherThanHead(b, a, y);
        }
      }
      AscendingUnique(a[1..], b[1..]);
      assert a == [a[0]] + a[1..] && b == [b[0]] + b[1..];
    }
  }

  /** With the same head and the same elements, an element of one tail is in the other. */
  lemma OtherThanHead(a: seq<string>, b: seq<string>, y: string)
    requires StrictlyAscending(a) && |a| > 0 && |b| > 0 && a[0] == b[0]
    requires forall x :: x in a <==> x in b
    requires y in a[1..]
    ensures y in b[1..]
  {
    var i :| 0 <= i < |a[1..]| && a[1..][i] == y;
    assert Below(a[0], a[i + 1]);
    if y == a[0] {
      BelowIrreflexive(y);
    }
    assert y in b;
    var j :| 0 <= j < |b| && b[j] == y;
    assert b[1..][j - 1] == y;
  }

  /** An element below the head of an ascending sequence is below all of it. */
  lemma LeastBelowAll(x: string, s: seq<string>)
    requires StrictlyAscending(s) && |s| > 0 && Below(x, s[0])
    ensures forall j | 0 <= j < |s| :: Below(x, s[j])
  {
    forall j | 0 < j < |s| ensures Below(x, s[j]) {
      BelowTransitive(x, s[0], s[j]);
    }
  }

  /** No element is after a later one in the order of its key. */
  predicate SortedBy<T>(s: seq<T>, key: T -> string) {
    forall i, j | 0 <= i < j < |s| :: !Below(key(s[j]), key(s[i]))
  }

  /** `x` inserted into `s` after every element whose key is not above its own. */
  function InsertBy<T>(x: T, s: seq<T>, key: T -> string): (r: seq<T>)
    requires SortedBy(s, key)
    ensures SortedBy(r, key)
    ensures multiset(r) == multiset(s) + multiset{x}
  {
    if s == [] then [x]
    else if !Below(key(x), key(s[0])) then
      var r' := InsertBy(x, s[1..], key);
      HeadStaysFirst(x, s, r', key);
      assert s == [s[0]] + s[1..];
      [s[0]] + r'
    else
      HeadFollowsSmaller(x, s, key);
      [x] + s
  }

  lemma HeadStaysFirst<T>(x: T, s: seq<T>, r': seq<T>, key: T -> string)
    requires SortedBy(s, key) && |s| > 0 && !Below(key(x), key(s[0]))
    requires multiset(r') == multiset(s[1..]) + multiset{x}
    ensures forall j | 0 <= j < |r'| :: !Below(key(r'[j]), key(s[0]))
  {
    forall j | 0 <= j < |r'| ensures !Below(key(r'[j]), key(s[0])) {
      var y := r'[j];
      assert y in multiset(r');
      if y != x {
        assert y in multiset(s[1..]);
        var k :| 0 <= k < |s[1..]| && s[1..][k] == y;
        assert s[k + 1] == y;
      }
    }
  }

  lemma HeadFollowsSmaller<T>(x: T, s: seq<T>, key: T -> string)
    requires SortedBy(s, key) && |s| > 0 && Below(key(x), key(s[0]))
    ensures forall j | 0 <= j < |s| :: !Below(key(s[j]), key(x))
  {
    forall j | 0 <= j < |s| ensures !Below(key(s[j]), key(x)) {
      if Below(key(s[j]), key(x)) {
        if j > 0 {
          BelowTransitive(key(s[j]), key(x), key(s[0]));
        } else {
          BelowAsymmetric(key(x), key(s[0]));
        }
      }
    }
  }

  /** `sorted(xs, key=key)`: the same elements, in the order of their keys. */
  function SortBy<T>(xs: seq<T>, key: T -> string): (r: seq<T>)
    ensures SortedBy(r, key)
    ensures multiset(r) == multiset(xs)
  {
    if xs == [] then []
    else
      assert xs == xs[..|xs| - 1] + [xs[|xs| - 1]];
      InsertBy(xs[|xs| - 1], SortBy(xs[..|xs| - 1], key), key)
  }
}
