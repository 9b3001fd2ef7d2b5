/**
 * The few Python `str` builtins the tool relies on, for text whose only line
 * boundary is "\n": `in`, `startswith`, `split`, `splitlines`, `join`,
 * `strip` and `rstrip`.
 */
module Text {

  /** Python's `str.isspace()`: what `\s` matches in a str pattern and what `str.strip()` removes. */
  predicate IsSpace(c: char) {
    || c == ' '
    || ('\t' <= c <= '\r')
    || ('\U{1c}' <= c <= '\U{1f}')
    || c == '\U{85}' || c == '\U{a0}' || c == '\U{1680}'
    || ('\U{2000}' <= c <= '\U{200a}')
    || c == '\U{2028}' || c == '\U{2029}' || c == '\U{202f}' || c == '\U{205f}' || c == '\U{3000}'
  }

  /** `t[i:].startswith(w)`, with the match required to fit inside `t`. */
  predicate StartsAt(t: string, i: nat, w: string) {
    i + |w| <= |t| && t[i..i + |w|] == w
  }

  /** A match of `a + b` at `i` is a match of `a` at `i` followed by one of `b`. */
  lemma StartsAtSplit(t: string, i: nat, a: string, b: string)
    ensures StartsAt(t, i, a + b) <==> StartsAt(t, i, a) && StartsAt(t, i + |a|, b)
  {
    if StartsAt(t, i, a + b) {
      assert t[i..i + |a|] == (a + b)[..|a|];
      assert t[i + |a|..i + |a| + |b|] == (a + b)[|a|..];
    }
    if StartsAt(t, i, a) && StartsAt(t, i + |a|, b) {
      assert t[i..i + |a| + |b|] == t[i..i + |a|] + t[i + |a|..i + |a| + |b|];
    }
  }

  /** The characters of a match. */
  lemma StartsAtChars(t: string, i: nat, w: string)
    requires StartsAt(t, i, w)
    ensures forall k | 0 <= k < |w| :: t[i + k] == w[k]
  {
    forall k | 0 <= k < |w| ensures t[i + k] == w[k] {
      assert t[i..i + |w|][k] == w[k];
    }
  }

  /** A match begins with the first character of the word. */
  lemma StartsAtFirst(t: string, i: nat, w: string)
    requires |w| > 0
    ensures StartsAt(t, i, w) ==> i < |t| && t[i] == w[0]
  {
    if StartsAt(t, i, w) {
      assert t[i..i + |w|][0] == w[0];
    }
  }

  /** Each part of a concatenation occurs where it was put. */
  lemma StartsAtAppend(x: string, y: string)
    ensures StartsAt(x + y, 0, x) && StartsAt(x + y, |x|, y)
  {
    assert (x + y)[..|x|] == x;
    assert (x + y)[|x|..|x| + |y|] == y;
  }

  /** A match inside the second part of a concatenation is a match in that part. */
  lemma StartsAtShift(x: string, y: string, i: nat, w: string)
    ensures StartsAt(x + y, |x| + i, w) <==> StartsAt(y, i, w)
  {
    if |x| + i + |w| <= |x + y| {
      assert (x + y)[|x| + i..|x| + i + |w|] == y[i..i + |w|];
    }
  }

  /** `t.endswith(w)` */
  predicate EndsWith(t: string, w: string) {
    |w| <= |t| && t[|t| - |w|..] == w
  }

  /** `sep.join(xs)` */
  function Join(sep: string, xs: seq<string>): string {
    if |xs| == 0 then "" else if |xs| == 1 then xs[0] else xs[0] + sep + Join(sep, xs[1..])
  }

  /** `s.split(c)`: the pieces between the occurrences of `c`, always at least one. */
  function Split(s: string, c: char): (r: seq<string>)
    ensures |r| >= 1
    ensures forall i | 0 <= i < |r| :: c !in r[i]
    decreases |s|
  {
    if s == [] then [""]
    else
      var rest := Split(s[1..], c);
      if s[0] == c then [""] + rest else [[s[0]] + rest[0]] + rest[1..]
  }

  /** Joining the pieces of a split with the separator gives back the text. */
  lemma {:induction false} JoinSplit(s: string, c: char)
    ensures Join([c], Split(s, c)) == s
    decreases |s|
  {
    if s != [] {
      var rest := Split(s[1..], c);
      JoinSplit(s[1..], c);
      if s[0] == c {
        assert Join([c], [""] + rest) == "" + [c] + Join([c], rest);
      } else if |rest| == 1 {
        assert Join([c], rest) == rest[0];
      } else {
        assert Join([c], rest) == rest[0] + [c] + Join([c], rest[1..]);
      }
      assert s == [s[0]] + s[1..];
    }
  }

  /** A piece free of the separator, followed by the separator, splits off as one piece. */
  lemma {:induction false} SplitAfterPiece(a: string, c: char, t: string)
    requires c !in a
    ensures Split(a + [c] + t, c) == [a] + Split(t, c)
    ensures Split(a, c) == [a]
    decreases |a|
  {
    if a == [] {
      assert (a + [c] + t)[1..] == t;
    } else {
      SplitAfterPiece(a[1..], c, t);
      assert (a + [c] + t)[1..] == a[1..] + [c] + t;
      assert [a[0]] + a[1..] == a;
    }
  }

  /** Splitting text made by joining separator-free pieces gives back the pieces. */
  lemma {:induction false} SplitJoin(xs: seq<string>, c: char)
    requires |xs| >= 1
    requires forall i | 0 <= i < |xs| :: c !in xs[i]
    ensures Split(Join([c], xs), c) == xs
    decreases |xs|
  {
    if |xs| == 1 {
      SplitAfterPiece(xs[0], c, "");
    } else {
      SplitJoin(xs[1..], c);
      SplitAfterPiece(xs[0], c, Join([c], xs[1..]));
      assert [xs[0]] + xs[1..] == xs;
    }
  }

  /** A separator added at the end adds an empty last piece. */
  lemma {:induction false} SplitSnocSeparator(s: string, c: char)
    ensures Split(s + [c], c) == Split(s, c) + [""]
    decreases |s|
  {
    if s == [] {
      assert [c][1..] == [];
      assert Split([c], c) == [""] + Split([], c);
    } else {
      SplitSnocSeparator(s[1..], c);
      assert (s + [c])[1..] == s[1..] + [c];
      var p' := Split(s[1..], c);
      if s[0] != c {
        assert Split(s[1..] + [c], c)[0] == p'[0];
      }
    }
  }

  /** Another character added at the end extends the last piece. */
  lemma {:induction false} SplitSnocOther(s: string, x: char, c: char)
    requires x != c
    ensures var p := Split(s, c);
      Split(s + [x], c) == p[..|p| - 1] + [p[|p| - 1] + [x]]
    decreases |s|
  {
    if s == [] {
      assert s + [x] == [x] && [x][1..] == [];
      var rest := Split([], c);
      assert rest == [""] && rest[1..] == [] && [x] + rest[0] == [x];
      assert Split([x], c) == [[x] + rest[0]] + rest[1..] == [[x]];
      assert Split(s, c) == [""];
    } else {
      SplitSnocOther(s[1..], x, c);
      assert (s + [x])[1..] == s[1..] + [x];
      var p, p' := Split(s, c), Split(s[1..], c);
      var n := |p'|;
      if s[0] == c {
        assert p[..|p| - 1] == [""] + p'[..n - 1];
      } else if n > 1 {
        assert p[..|p| - 1] == [[s[0]] + p'[0]] + p'[1..n - 1];
      } else {
        assert [s[0]] + (p'[0] + [x]) == ([s[0]] + p'[0]) + [x];
      }
    }
  }

  /** The last piece of a split is empty exactly when the text is empty or ends with the separator. */
  lemma SplitLastEmpty(s: string, c: char)
    ensures var p := Split(s, c); p[|p| - 1] == "" <==> s == [] || s[|s| - 1] == c
  {
    if s != [] {
      var init, x := s[..|s| - 1], s[|s| - 1];
      assert init + [x] == s;
      if x == c {
        SplitSnocSeparator(init, c);
      } else {
        SplitSnocOther(init, x, c);
      }
    }
  }

  /** `s.splitlines()` where "\n" is the only line boundary: a final "\n" ends the last line instead of starting an empty one. */
  function SplitLines(s: string): (r: seq<string>)
    ensures forall i | 0 <= i < |r| :: '\n' !in r[i]
  {
    var pieces := Split(s, '\n');
    if pieces[|pieces| - 1] == "" then pieces[..|pieces| - 1] else pieces
  }

  /** `s.splitlines()` loses nothing but one final "\n": joining the lines with "\n" gives the text back without it. */
  lemma SplitLinesJoin(s: string)
    ensures Join("\n", SplitLines(s)) + (if |s| > 0 && s[|s| - 1] == '\n' then "\n" else "") == s
  {
    SplitLastEmpty(s, '\n');
    if |s| > 0 && s[|s| - 1] == '\n' {
      var s' := s[..|s| - 1];
      assert s' + ['\n'] == s;
      SplitSnocSeparator(s', '\n');
      var p := Split(s', '\n');
      assert SplitLines(s) == (p + [""])[..|p|] == p;
      JoinSplit(s', '\n');
    } else {
      JoinSplit(s, '\n');
    }
  }

  /** A trailing "\n" after a non-empty last line adds no line. */
  lemma SplitLinesTrailingNewline(s: string)
    requires |s| > 0 && s[|s| - 1] != '\n'
    ensures SplitLines(s + "\n") == SplitLines(s)
  {
    SplitSnocSeparator(s, '\n');
    SplitLastEmpty(s, '\n');
  }

  /** `s.rstrip(chars)`: `s` without its longest suffix of characters `drop` accepts. */
  function TrimEnd(s: string, drop: char -> bool): (r: string)
    ensures |r| <= |s| && r == s[..|r|]
    ensures forall i | |r| <= i < |s| :: drop(s[i])
    ensures |r| > 0 ==> !drop(r[|r| - 1])
    decreases |s|
  {
    if |s| > 0 && drop(s[|s| - 1]) then TrimEnd(s[..|s| - 1], drop) else s
  }

  /** `s.lstrip(chars)`: `s` without its longest prefix of characters `drop` accepts. */
  function TrimStart(s: string, drop: char -> bool): (r: string)
    ensures |r| <= |s| && r == s[|s| - |r|..]
    ensures forall i | 0 <= i < |s| - |r| :: drop(s[i])
    ensures |r| > 0 ==> !drop(r[0])
    decreases |s|
  {
    if |s| > 0 && drop(s[0]) then TrimStart(s[1..], drop) else s
  }

  /** `r` occurs in `s` at `i`, with only whitespace before and after it. */
  predicate PaddedAt(s: string, r: string, i: nat) {
    && i + |r| <= |s| && s[i..i + |r|] == r
    && (forall k | 0 <= k < i :: IsSpace(s[k]))
    && (forall k | i + |r| <= k < |s| :: IsSpace(s[k]))
  }

  /** `s.strip()`: `s` without leading and trailing whitespace. */
  function Strip(s: string): (r: string)
    ensures |r| > 0 ==> !IsSpace(r[0]) && !IsSpace(r[|r| - 1])
    ensures (forall i | 0 <= i < |s| :: IsSpace(s[i])) <==> r == ""
    ensures exists i: nat :: PaddedAt(s, r, i)
  {
    var t := TrimEnd(s, IsSpace);
    var r := TrimStart(t, IsSpace);
    TrimmedBothEnds(s, t, r);
    r
  }

  /** A prefix of `s` cut only at whitespace, then a suffix of it cut only at whitespace, sits in `s` between two runs of whitespace. */
  lemma TrimmedBothEnds(s: string, t: string, r: string)
    requires |t| <= |s| && t == s[..|t|] && forall k | |t| <= k < |s| :: IsSpace(s[k])
    requires |r| <= |t| && r == t[|t| - |r|..] && forall k | 0 <= k < |t| - |r| :: IsSpace(t[k])
    ensures exists i: nat :: PaddedAt(s, r, i)
  {
    var i := |t| - |r|;
    assert s[i..i + |r|] == t[i..] == r;
    assert forall k | 0 <= k < i :: s[k] == t[k];
    assert PaddedAt(s, r, i);
  }
}
