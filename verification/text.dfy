/**
 * The parts of Rust's `str` API that the menu code relies on: `starts_with`,
 * `split` with a character or string pattern, `trim_start_matches` and
 * `trim_end_matches`. Patterns are searched left to right and matches never
 * overlap, as in Rust.
 */
module Text {
  import opened Wrappers

  predicate StartsWith(s: string, p: string) {
    |p| <= |s| && s[..|p|] == p
  }

  predicate EndsWith(s: string, p: string) {
    |p| <= |s| && s[|s| - |p|..] == p
  }

  /** Appending the same text to both sides keeps a suffix a suffix. */
  lemma EndsWithAppend(s: string, u: string, t: string)
    requires EndsWith(s, u)
    ensures EndsWith(s + t, u + t)
  {
    assert (s + t)[|s + t| - |u + t|..] == s[|s| - |u|..] + t;
  }

  /** Appending text keeps a prefix a prefix. */
  lemma StartsWithAppend(s: string, p: string, t: string)
    requires StartsWith(s, p)
    ensures StartsWith(s + t, p)
  {
    assert (s + t)[..|p|] == s[..|p|];
  }

  /** `<head> (<name>)` ends with ` (<name>)`. */
  lemma EndsWithParenthesized(head: string, name: string)
    ensures EndsWith(head + " " + "(" + name + ")", " (" + name + ")")
  {
    assert EndsWith(head + " ", " ");
    EndsWithAppend(head + " ", " ", "(");
    EndsWithAppend(head + " " + "(", " (", name);
    EndsWithAppend(head + " " + "(" + name, " (" + name, ")");
  }

  /** `pat` occurs in `s` starting at index `j`. */
  predicate OccursAt(s: string, pat: string, j: int) {
    0 <= j && j + |pat| <= |s| && s[j..j + |pat|] == pat
  }

  ghost predicate NoOccurrence(s: string, pat: string) {
    forall j :: !OccursAt(s, pat, j)
  }

  lemma OccursAtShift(s: string, pat: string)
    requires |s| > 0
    ensures forall j :: 1 <= j ==> (OccursAt(s, pat, j) <==> OccursAt(s[1..], pat, j - 1))
  {
    forall j | 1 <= j
      ensures OccursAt(s, pat, j) <==> OccursAt(s[1..], pat, j - 1)
    {
      if j + |pat| <= |s| {
        assert s[1..][j - 1..j - 1 + |pat|] == s[j..j + |pat|];
      }
    }
  }

  /** The index of the leftmost occurrence of `pat` in `s`. */
  function Find(s: string, pat: string): (r: Option<nat>)
    requires pat != []
    ensures r.Some? ==> r.value + |pat| <= |s|
    decreases |s|
  {
    if |s| < |pat| then None
    else if s[..|pat|] == pat then Some(0)
    else
      match Find(s[1..], pat)
      case None => None
      case Some(i) => Some(i + 1)
  }

  /** `Find` gives the leftmost occurrence, and `None` exactly when there is none. */
  lemma {:induction false} FindSpec(s: string, pat: string)
    requires pat != []
    ensures var r := Find(s, pat);
      && (r.Some? ==> OccursAt(s, pat, r.value))
      && (r.Some? ==> forall j :: 0 <= j < r.value ==> !OccursAt(s, pat, j))
      && (r.None? <==> NoOccurrence(s, pat))
    decreases |s|
  {
    if |s| < |pat| {
      assert NoOccurrence(s, pat);
    } else if s[..|pat|] == pat {
      assert OccursAt(s, pat, 0);
    } else {
      OccursAtShift(s, pat);
      FindSpec(s[1..], pat);
      assert !OccursAt(s, pat, 0);
    }
  }

  /** The inverse of `Split`: the parts glued back together with `sep`. */
  function Join(parts: seq<string>, sep: string): string
  {
    if |parts| == 0 then []
    else if |parts| == 1 then parts[0]
    else parts[0] + sep + Join(parts[1..], sep)
  }

  lemma PrefixHasNoOccurrence(s: string, pat: string, i: nat)
    requires pat != [] && i <= |s|
    requires forall j :: 0 <= j < i ==> !OccursAt(s, pat, j)
    ensures NoOccurrence(s[..i], pat)
  {
    forall j | 0 <= j && j + |pat| <= i
      ensures !OccursAt(s[..i], pat, j)
    {
      assert !OccursAt(s, pat, j);
      assert s[..i][j..j + |pat|] == s[j..j + |pat|];
    }
  }

  /**
   * Rust's `s.split(sep).collect()`: the pieces between the leftmost,
   * non-overlapping occurrences of `sep`; there is always at least one.
   */
  function Split(s: string, sep: string): (parts: seq<string>)
    requires sep != []
    ensures |parts| >= 1
    decreases |s|
  {
    match Find(s, sep)
    case None => [s]
    case Some(i) => [s[..i]] + Split(s[i + |sep|..], sep)
  }

  /** Joining the pieces with `sep` gives back `s`, and no piece contains `sep`. */
  lemma {:induction false} SplitSpec(s: string, sep: string)
    requires sep != []
    ensures Join(Split(s, sep), sep) == s
    ensures forall k :: 0 <= k < |Split(s, sep)| ==> NoOccurrence(Split(s, sep)[k], sep)
    decreases |s|
  {
    FindSpec(s, sep);
    match Find(s, sep)
    case None =>
    case Some(i) =>
      PrefixHasNoOccurrence(s, sep, i);
      SplitSpec(s[i + |sep|..], sep);
      assert s == s[..i] + sep + s[i + |sep|..];
      var parts := Split(s, sep);
      assert parts[1..] == Split(s[i + |sep|..], sep);
  }

  /**
   * The pieces are cut at the leftmost occurrences: every piece but the last
   * is followed by `sep`, and `sep` does not start anywhere inside the piece,
   * not even straddling into the `sep` that follows it. This fixes the pieces
   * when `sep` overlaps itself.
   */
  lemma {:induction false} SplitLeftmost(s: string, sep: string)
    requires sep != []
    ensures var parts := Split(s, sep);
      forall k, j :: 0 <= k < |parts| - 1 && 0 <= j < |parts[k]| ==> !OccursAt(parts[k] + sep, sep, j)
    decreases |s|
  {
    FindSpec(s, sep);
    match Find(s, sep)
    case None =>
    case Some(i) =>
      var rest := s[i + |sep|..];
      SplitLeftmost(rest, sep);
      var parts := Split(s, sep);
      assert parts[1..] == Split(rest, sep);
      var head := s[..i] + sep;
      assert head == s[..i + |sep|];
      forall j | 0 <= j < i
        ensures !OccursAt(head, sep, j)
      {
        assert !OccursAt(s, sep, j);
        assert head[j..j + |sep|] == s[j..j + |sep|];
      }
      forall k, j | 0 <= k < |parts| - 1 && 0 <= j < |parts[k]|
        ensures !OccursAt(parts[k] + sep, sep, j)
      {
        if k > 0 {
          assert parts[k] == Split(rest, sep)[k - 1];
        }
      }
  }

  /** A pattern that holds a character `s` lacks never occurs in `s`. */
  lemma MissingChar(s: string, pat: string, k: nat)
    requires k < |pat| && pat[k] !in s
    ensures NoOccurrence(s, pat)
  {
    forall j | 0 <= j && j + |pat| <= |s|
      ensures !OccursAt(s, pat, j)
    {
      assert s[j..j + |pat|][k] == s[j + k];
    }
  }

  /** When the first character of `sep` does not appear in `a`, `sep` is first found right after `a`. */
  lemma FindAfter(a: string, sep: string, b: string)
    requires sep != [] && sep[0] !in a
    ensures Find(a + sep + b, sep) == Some(|a|)
  {
    var s := a + sep + b;
    assert s[|a|..|a| + |sep|] == sep;
    assert OccursAt(s, sep, |a|);
    forall j | 0 <= j < |a|
      ensures !OccursAt(s, sep, j)
    {
      assert s[j] == a[j];
      if j + |sep| <= |s| {
        assert s[j..j + |sep|][0] == s[j];
      }
    }
    FindSpec(s, sep);
  }

  /**
   * When the first character of `sep` does not appear in `a`, splitting
   * `a + sep + b` yields `a` followed by the pieces of `b`.
   */
  lemma SplitFirst(a: string, sep: string, b: string)
    requires sep != [] && sep[0] !in a
    ensures Split(a + sep + b, sep) == [a] + Split(b, sep)
  {
    var s := a + sep + b;
    FindAfter(a, sep, b);
    assert s[..|a|] == a;
    assert s[|a| + |sep|..] == b;
  }

  /** Splitting `a + sep + b` at its single occurrence of `sep`. */
  lemma SplitAround(a: string, sep: string, b: string)
    requires sep != [] && sep[0] !in a
    requires NoOccurrence(b, sep)
    ensures Split(a + sep + b, sep) == [a, b]
  {
    SplitFirst(a, sep, b);
    FindSpec(b, sep);
  }

  /**
   * The first piece of `s` split on `c` is the text before the first `c`,
   * or all of `s` when there is none.
   */
  lemma SplitHead(s: string, c: char)
    ensures var h := Split(s, [c])[0];
      && StartsWith(s, h) && c !in h
      && (|h| == |s| || s[|h|] == c)
  {
    FindSpec(s, [c]);
    match Find(s, [c])
    case None =>
      CharOccursAt(s, c);
    case Some(i) =>
      PrefixHasNoOccurrence(s, [c], i);
      CharOccursAt(s[..i], c);
      assert s[i..i + 1] == [c];
  }

  /** The number of times `c` appears in `s`. */
  function Count(s: string, c: char): (n: nat)
    ensures n == 0 <==> c !in s
  {
    if s == [] then 0
    else (if s[0] == c then 1 else 0) + Count(s[1..], c)
  }

  lemma {:induction false} CountConcat(a: string, b: string, c: char)
    ensures Count(a + b, c) == Count(a, c) + Count(b, c)
  {
    if a == [] {
      assert a + b == b;
    } else {
      assert (a + b)[1..] == a[1..] + b;
      CountConcat(a[1..], b, c);
    }
  }

  lemma CharOccursAt(s: string, c: char)
    ensures NoOccurrence(s, [c]) <==> c !in s
  {
    if c in s {
      var j :| 0 <= j < |s| && s[j] == c;
      assert s[j..j + 1] == [c];
      assert OccursAt(s, [c], j);
    } else {
      MissingChar(s, [c], 0);
    }
  }

  /** Splitting on a character gives one more piece than it has occurrences. */
  lemma {:induction false} SplitCount(s: string, c: char)
    ensures |Split(s, [c])| == Count(s, c) + 1
    decreases |s|
  {
    FindSpec(s, [c]);
    match Find(s, [c])
    case None =>
      CharOccursAt(s, c);
    case Some(i) =>
      PrefixHasNoOccurrence(s, [c], i);
      CharOccursAt(s[..i], c);
      assert s == s[..i] + [c] + s[i + 1..];
      CountConcat(s[..i] + [c], s[i + 1..], c);
      CountConcat(s[..i], [c], c);
      SplitCount(s[i + 1..], c);
  }

  /** Rust's `trim_start_matches(p)`: every leading copy of `p` removed. */
  function TrimStartMatches(s: string, p: string): (r: string)
    requires p != []
    ensures |r| <= |s| && r == s[|s| - |r|..]
    ensures !StartsWith(r, p)
    decreases |s|
  {
    if StartsWith(s, p) then TrimStartMatches(s[|p|..], p) else s
  }

  /** Rust's `trim_end_matches(p)`: every trailing copy of `p` removed. */
  function TrimEndMatches(s: string, p: string): (r: string)
    requires p != []
    ensures |r| <= |s| && r == s[..|r|]
    ensures !EndsWith(r, p)
    decreases |s|
  {
    if EndsWith(s, p) then TrimEndMatches(s[..|s| - |p|], p) else s
  }

  /** `k` copies of `p` in a row. */
  function Repeat(p: string, k: nat): string {
    if k == 0 then [] else p + Repeat(p, k - 1)
  }

  /** One more copy may go at either end. */
  lemma {:induction false} RepeatAppend(p: string, k: nat)
    ensures Repeat(p, k) + p == Repeat(p, k + 1)
  {
    if k > 0 {
      RepeatAppend(p, k - 1);
      assert Repeat(p, k) + p == p + (Repeat(p, k - 1) + p);
    }
  }

  /**
   * `trim_start_matches` removes whole copies of `p` and nothing else: the
   * input is some number of copies followed by the result, and the result
   * does not start with another copy.
   */
  lemma {:induction false} TrimStartRemovesCopies(s: string, p: string)
    requires p != []
    ensures exists k: nat :: s == Repeat(p, k) + TrimStartMatches(s, p)
    decreases |s|
  {
    var r := TrimStartMatches(s, p);
    if StartsWith(s, p) {
      var rest := s[|p|..];
      assert r == TrimStartMatches(rest, p);
      TrimStartRemovesCopies(rest, p);
      var k: nat :| rest == Repeat(p, k) + r;
      calc {
        s;
        s[..|p|] + rest;
        p + (Repeat(p, k) + r);
        (p + Repeat(p, k)) + r;
        Repeat(p, k + 1) + r;
      }
    } else {
      assert s == Repeat(p, 0) + r;
    }
  }

  /**
   * `trim_end_matches` removes whole copies of `p` and nothing else: the
   * input is the result followed by some number of copies, and the result
   * does not end with another copy.
   */
  lemma {:induction false} TrimEndRemovesCopies(s: string, p: string)
    requires p != []
    ensures exists k: nat :: s == TrimEndMatches(s, p) + Repeat(p, k)
    decreases |s|
  {
    var r := TrimEndMatches(s, p);
    if EndsWith(s, p) {
      var init := s[..|s| - |p|];
      TrimEndRemovesCopies(init, p);
      var k: nat :| init == r + Repeat(p, k);
      assert s == init + p;
      RepeatAppend(p, k);
      assert s == r + Repeat(p, k + 1);
    } else {
      assert s == r + Repeat(p, 0);
    }
  }

  /** Removing trailing copies of `p` from `s + p` gives `s` when `s` has none. */
  lemma TrimEndOnce(s: string, p: string)
    requires p != [] && !EndsWith(s, p)
    ensures TrimEndMatches(s + p, p) == s
  {
    assert (s + p)[|s + p| - |p|..] == p;
    assert (s + p)[..|s + p| - |p|] == s;
  }
}
