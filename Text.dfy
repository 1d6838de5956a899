/**
 * The string built-ins the backend parser and the frontend topic check
 * rely on: Python's `str.strip()` and `str.split(sep)` and JavaScript's
 * `String.prototype.trim()`.
 *
 * Python and JavaScript disagree on which characters are whitespace, so every
 * stripping function takes the whitespace class `ws` as a parameter.
 */
module Text {

  /** Every character of `s` is in the class `ws`. */
  predicate AllIn(s: string, ws: char -> bool) {
    forall k :: 0 <= k < |s| ==> ws(s[k])
  }

  /** `t` occurs in `s` starting at index `i`. */
  predicate OccursAt(s: string, t: string, i: nat) {
    i + |t| <= |s| && s[i..i + |t|] == t
  }

  /** `t` is a substring of `s` (Python's `t in s`). */
  predicate Contains(s: string, t: string) {
    exists i :: 0 <= i <= |s| && OccursAt(s, t, i)
  }

  /** Removes the leading characters of class `ws`. */
  function TrimStart(s: string, ws: char -> bool): (r: string)
    ensures |r| <= |s|
    decreases |s|
  {
    if |s| > 0 && ws(s[0]) then TrimStart(s[1..], ws) else s
  }

  /** Removes the trailing characters of class `ws`. */
  function TrimEnd(s: string, ws: char -> bool): (r: string)
    ensures |r| <= |s|
    decreases |s|
  {
    if |s| > 0 && ws(s[|s| - 1]) then TrimEnd(s[..|s| - 1], ws) else s
  }

  /**
   * Python's `s.strip()` and JavaScript's `s.trim()`, for their respective
   * whitespace classes.
   */
  function Strip(s: string, ws: char -> bool): (r: string)
    ensures |r| <= |s|
  {
    TrimEnd(TrimStart(s, ws), ws)
  }

  /** The number of leading whitespace characters `Strip` removes. */
  function Lead(s: string, ws: char -> bool): nat {
    |s| - |TrimStart(s, ws)|
  }

  /** `TrimStart` drops a whitespace prefix and stops at the first other character. */
  lemma {:induction false} TrimStartSpec(s: string, ws: char -> bool)
    ensures TrimStart(s, ws) == s[Lead(s, ws)..]
    ensures AllIn(s[..Lead(s, ws)], ws)
    ensures TrimStart(s, ws) == [] || !ws(s[Lead(s, ws)])
    decreases |s|
  {
    if |s| > 0 && ws(s[0]) {
      TrimStartSpec(s[1..], ws);
      var n := Lead(s, ws);
      assert Lead(s[1..], ws) == n - 1;
      assert s[1..][n - 1..] == s[n..];
      assert s[..n] == [s[0]] + s[1..][..n - 1];
      AllInConcat([s[0]], s[1..][..n - 1], ws);
    }
  }

  /** `TrimEnd` drops a whitespace suffix and stops at the last other character. */
  lemma {:induction false} TrimEndSpec(s: string, ws: char -> bool)
    ensures TrimEnd(s, ws) == s[..|TrimEnd(s, ws)|]
    ensures AllIn(s[|TrimEnd(s, ws)|..], ws)
    ensures TrimEnd(s, ws) == [] || !ws(s[|TrimEnd(s, ws)| - 1])
    decreases |s|
  {
    if |s| > 0 && ws(s[|s| - 1]) {
      var s' := s[..|s| - 1];
      TrimEndSpec(s', ws);
      var m := |TrimEnd(s, ws)|;
      assert s'[..m] == s[..m];
      assert s[m..] == s'[m..] + [s[|s| - 1]];
      AllInConcat(s'[m..], [s[|s| - 1]], ws);
    }
  }

  /**
   * `Strip` returns the slice `s[a..a + |r|]`, `a` being `Lead(s)`, with
   * only whitespace outside it, and that slice is empty or starts and ends
   * with non-whitespace.
   */
  lemma StripSpec(s: string, ws: char -> bool)
    ensures Lead(s, ws) + |Strip(s, ws)| <= |s|
    ensures Strip(s, ws) == s[Lead(s, ws)..Lead(s, ws) + |Strip(s, ws)|]
    ensures AllIn(s[..Lead(s, ws)], ws) && AllIn(s[Lead(s, ws) + |Strip(s, ws)|..], ws)
    ensures Strip(s, ws) == [] || (!ws(Strip(s, ws)[0]) && !ws(Strip(s, ws)[|Strip(s, ws)| - 1]))
  {
    var t := TrimStart(s, ws);
    TrimStartSpec(s, ws);
    TrimEndSpec(t, ws);
    var r, a := Strip(s, ws), Lead(s, ws);
    assert t[..|r|] == s[a..a + |r|];
    assert t[|r|..] == s[a + |r|..];
    if r != [] { assert r[0] == t[0] == s[a]; assert r[|r| - 1] == t[|r| - 1]; }
  }

  lemma AllInConcat(u: string, v: string, ws: char -> bool)
    ensures AllIn(u + v, ws) <==> AllIn(u, ws) && AllIn(v, ws)
  {
    if AllIn(u, ws) && AllIn(v, ws) {
      forall k | 0 <= k < |u + v| ensures ws((u + v)[k]) {
        if k >= |u| { assert (u + v)[k] == v[k - |u|]; }
      }
    }
    if AllIn(u + v, ws) {
      forall k | 0 <= k < |v| ensures ws(v[k]) { assert v[k] == (u + v)[|u| + k]; }
      forall k | 0 <= k < |u| ensures ws(u[k]) { assert u[k] == (u + v)[k]; }
    }
  }

  lemma AllInSlice(s: string, i: nat, j: nat, ws: char -> bool)
    requires i <= j <= |s| && AllIn(s, ws)
    ensures AllIn(s[i..j], ws)
  {
    forall k | 0 <= k < j - i ensures ws(s[i..j][k]) { assert s[i..j][k] == s[i + k]; }
  }

  /** Whitespace in front of `u` makes no difference to `TrimStart`. */
  lemma {:induction false} TrimStartAfterSpace(w: string, u: string, ws: char -> bool)
    requires AllIn(w, ws)
    ensures TrimStart(w + u, ws) == TrimStart(u, ws)
    decreases |w|
  {
    if w == [] {
      assert w + u == u;
    } else {
      assert (w + u)[0] == w[0] && ws(w[0]);
      assert (w + u)[1..] == w[1..] + u;
      AllInSlice(w, 1, |w|, ws);
      TrimStartAfterSpace(w[1..], u, ws);
      assert TrimStart(w + u, ws) == TrimStart((w + u)[1..], ws);
    }
  }

  /** Whitespace after `u` makes no difference to `TrimEnd`. */
  lemma {:induction false} TrimEndBeforeSpace(u: string, w: string, ws: char -> bool)
    requires AllIn(w, ws)
    ensures TrimEnd(u + w, ws) == TrimEnd(u, ws)
    decreases |w|
  {
    if w == [] {
      assert u + w == u;
    } else {
      assert (u + w)[|u + w| - 1] == w[|w| - 1] && ws(w[|w| - 1]);
      assert (u + w)[..|u + w| - 1] == u + w[..|w| - 1];
      AllInSlice(w, 0, |w| - 1, ws);
      TrimEndBeforeSpace(u, w[..|w| - 1], ws);
      assert TrimEnd(u + w, ws) == TrimEnd((u + w)[..|u + w| - 1], ws);
    }
  }

  /** `TrimStart` stops inside `t` when `t` holds a non-whitespace character. */
  lemma {:induction false} TrimStartStopsEarly(t: string, w: string, ws: char -> bool)
    requires !AllIn(t, ws)
    ensures TrimStart(t + w, ws) == TrimStart(t, ws) + w
    decreases |t|
  {
    assert t != [];
    assert (t + w)[0] == t[0];
    if ws(t[0]) {
      assert (t + w)[1..] == t[1..] + w;
      assert !AllIn(t[1..], ws) by {
        var k :| 0 <= k < |t| && !ws(t[k]);
        assert t[1..][k - 1] == t[k];
      }
      TrimStartStopsEarly(t[1..], w, ws);
    }
  }

  /** A string strips to nothing exactly when it is all whitespace. */
  lemma StripEmptyIff(s: string, ws: char -> bool)
    ensures Strip(s, ws) == [] <==> AllIn(s, ws)
  {
    StripSpec(s, ws);
    var a := Lead(s, ws);
    if Strip(s, ws) == [] {
      assert s == s[..a] + s[a..];
      AllInConcat(s[..a], s[a..], ws);
    }
  }

  /** Stripping twice is stripping once. */
  lemma StripIdempotent(s: string, ws: char -> bool)
    ensures Strip(Strip(s, ws), ws) == Strip(s, ws)
  {
    var r := Strip(s, ws);
    StripSpec(s, ws);
    assert TrimStart(r, ws) == r;
    assert TrimEnd(r, ws) == r;
  }

  /** Whitespace added at either end does not change what `Strip` returns. */
  lemma StripPadded(w1: string, t: string, w2: string, ws: char -> bool)
    requires AllIn(w1, ws) && AllIn(w2, ws)
    ensures Strip(w1 + t + w2, ws) == Strip(t, ws)
  {
    if AllIn(t, ws) {
      AllInConcat(w1, t, ws);
      AllInConcat(w1 + t, w2, ws);
      StripEmptyIff(w1 + t + w2, ws);
      StripEmptyIff(t, ws);
    } else {
      assert w1 + t + w2 == w1 + (t + w2);
      TrimStartAfterSpace(w1, t + w2, ws);
      TrimStartStopsEarly(t, w2, ws);
      TrimEndBeforeSpace(TrimStart(t, ws), w2, ws);
    }
  }

  /**
   * Python's `s.split(sep)` for a non-empty separator: scans left to right
   * and cuts at every occurrence of `sep` that does not overlap an earlier
   * cut. There is always at least one piece, and the first piece is a
   * prefix of `s`.
   */
  function Split(s: string, sep: string): (r: seq<string>)
    requires sep != []
    ensures |r| >= 1
    decreases |s|
  {
    if |s| < |sep| then [s]
    else if s[..|sep|] == sep then [""] + Split(s[|sep|..], sep)
    else
      var rest := Split(s[1..], sep);
      [[s[0]] + rest[0]] + rest[1..]
  }

  /** The first piece of a split is a prefix of the string. */
  lemma {:induction false} SplitFirstIsPrefix(s: string, sep: string)
    requires sep != []
    ensures var p := Split(s, sep)[0]; |p| <= |s| && p == s[..|p|]
    decreases |s|
  {
    if |s| >= |sep| && s[..|sep|] != sep {
      SplitFirstIsPrefix(s[1..], sep);
      var p := Split(s, sep)[0];
      assert p == [s[0]] + s[1..][..|p| - 1];
    }
  }

  /** Python's `sep.join(parts)`, for a non-empty list. */
  function Join(parts: seq<string>, sep: string): string
    requires |parts| >= 1
  {
    if |parts| == 1 then parts[0] else parts[0] + sep + Join(parts[1..], sep)
  }

  /** Python's `s.count(sep)`: non-overlapping occurrences, scanning left to right. */
  function Occurrences(s: string, sep: string): nat
    requires sep != []
    decreases |s|
  {
    if |s| < |sep| then 0
    else if s[..|sep|] == sep then 1 + Occurrences(s[|sep|..], sep)
    else Occurrences(s[1..], sep)
  }

  /** Putting a character in front of the first part puts it in front of the join. */
  lemma JoinExtendFirst(c: char, parts: seq<string>, sep: string)
    requires |parts| >= 1
    ensures Join([[c] + parts[0]] + parts[1..], sep) == [c] + Join(parts, sep)
  {
    var q := [[c] + parts[0]] + parts[1..];
    assert q[0] == [c] + parts[0] && q[1..] == parts[1..];
    if |parts| > 1 {
      assert Join(q, sep) == ([c] + parts[0]) + sep + Join(parts[1..], sep);
    }
  }

  /** Joining the pieces back with the separator restores the original string. */
  lemma {:induction false} JoinSplit(s: string, sep: string)
    requires sep != []
    ensures Join(Split(s, sep), sep) == s
    decreases |s|
  {
    if |s| < |sep| {
    } else if s[..|sep|] == sep {
      JoinSplit(s[|sep|..], sep);
      var r := Split(s, sep);
      assert r[0] == "" && r[1..] == Split(s[|sep|..], sep);
      assert s == "" + sep + s[|sep|..];
    } else {
      JoinSplit(s[1..], sep);
      JoinExtendFirst(s[0], Split(s[1..], sep), sep);
      assert s == [s[0]] + s[1..];
    }
  }

  /** `s` splits into one more piece than it has occurrences of `sep`. */
  lemma {:induction false} SplitLength(s: string, sep: string)
    requires sep != []
    ensures |Split(s, sep)| == Occurrences(s, sep) + 1
    decreases |s|
  {
    if |s| < |sep| {
    } else if s[..|sep|] == sep {
      SplitLength(s[|sep|..], sep);
    } else {
      SplitLength(s[1..], sep);
    }
  }

  /** No piece of a split contains the separator. */
  lemma {:induction false} SplitPiecesAvoidSep(s: string, sep: string)
    requires sep != []
    ensures forall k :: 0 <= k < |Split(s, sep)| ==> !Contains(Split(s, sep)[k], sep)
    decreases |s|
  {
    var r := Split(s, sep);
    if |s| < |sep| {
      assert !OccursAt(s, sep, 0);
      forall i: nat ensures !OccursAt(s, sep, i) { }
    } else if s[..|sep|] == sep {
      SplitPiecesAvoidSep(s[|sep|..], sep);
      forall i: nat ensures !OccursAt("", sep, i) { }
      assert r[0] == "";
      forall k | 1 <= k < |r| ensures r[k] == Split(s[|sep|..], sep)[k - 1] { }
    } else {
      SplitPiecesAvoidSep(s[1..], sep);
      SplitFirstIsPrefix(s, sep);
      var rest := Split(s[1..], sep);
      var p := [s[0]] + rest[0];
      forall i: nat ensures !OccursAt(p, sep, i) {
        if i == 0 {
          if |p| >= |sep| { assert p[..|sep|] == s[..|sep|]; }
        } else {
          OccursShift(s[0], rest[0], sep, i);
        }
      }
      forall k | 1 <= k < |r| ensures r[k] == rest[k] { }
    }
  }

  /** An occurrence after a first character is an occurrence in the rest. */
  lemma OccursShift(c: char, u: string, t: string, i: nat)
    requires i >= 1
    ensures OccursAt([c] + u, t, i) <==> OccursAt(u, t, i - 1)
  {
    if i + |t| <= 1 + |u| {
      assert ([c] + u)[i..i + |t|] == u[i - 1..i - 1 + |t|];
    }
  }

  /** An occurrence in a slice is an occurrence in the whole string. */
  lemma OccursInSlice(s: string, i: nat, j: nat, t: string, k: nat)
    requires i <= j <= |s|
    ensures OccursAt(s[i..j], t, k) ==> OccursAt(s, t, i + k)
  {
    if k + |t| <= j - i {
      var u, v := s[i..j][k..k + |t|], s[i + k..i + k + |t|];
      forall m | 0 <= m < |t| ensures u[m] == v[m] { }
      assert u == v;
    }
  }

  /** A slice of a string that avoids `t` avoids `t` too. */
  lemma SliceAvoids(s: string, i: nat, j: nat, t: string)
    requires i <= j <= |s| && !Contains(s, t)
    ensures !Contains(s[i..j], t)
  {
    forall k: nat ensures !OccursAt(s[i..j], t, k) {
      OccursInSlice(s, i, j, t, k);
    }
  }

  /** A one-character separator occurs in `s` exactly when its character does. */
  lemma ContainsChar(s: string, c: char)
    ensures Contains(s, [c]) <==> c in s
  {
    if c in s {
      var k :| 0 <= k < |s| && s[k] == c;
      assert OccursAt(s, [c], k);
    }
    if Contains(s, [c]) {
      var k :| 0 <= k <= |s| && OccursAt(s, [c], k);
      assert s[k] == s[k..k + 1][0];
    }
  }

  /** A string without the separator character does not split. */
  lemma {:induction false} SplitWithoutSep(s: string, c: char)
    requires c !in s
    ensures Split(s, [c]) == [s]
    decreases |s|
  {
    if |s| >= 1 {
      assert s[..1] != [c] by { assert s[..1][0] == s[0]; }
      SplitWithoutSep(s[1..], c);
      assert [s[0]] + s[1..] == s;
    }
  }

  /** Splitting `p + sep + t` on a one-character `sep` absent from `p` cuts `p` off. */
  lemma {:induction false} SplitAfterPiece(p: string, c: char, t: string)
    requires c !in p
    ensures Split(p + [c] + t, [c]) == [p] + Split(t, [c])
    decreases |p|
  {
    var s := p + [c] + t;
    if p == [] {
      assert s[..1] == [c];
      assert s[1..] == t;
    } else {
      assert s[..1] != [c] by { assert s[..1][0] == p[0]; }
      assert s[1..] == p[1..] + [c] + t;
      SplitAfterPiece(p[1..], c, t);
      assert [s[0]] + p[1..] == p;
    }
  }

  /**
   * For a one-character separator, splitting undoes joining: lines without
   * the separator come back exactly.
   */
  lemma {:induction false} SplitJoin(lines: seq<string>, c: char)
    requires |lines| >= 1
    requires forall k :: 0 <= k < |lines| ==> c !in lines[k]
    ensures Split(Join(lines, [c]), [c]) == lines
    decreases |lines|
  {
    if |lines| == 1 {
      SplitWithoutSep(lines[0], c);
    } else {
      SplitJoin(lines[1..], c);
      SplitAfterPiece(lines[0], c, Join(lines[1..], [c]));
      assert [lines[0]] + lines[1..] == lines;
    }
  }
}
