/** The parts of java.lang.String that the record manager relies on:
    lower-casing, substring containment, case-insensitive comparison and
    splitting on a one-character delimiter. Case folding covers the ASCII
    letters only. */
module Strings {

  /** Character.toLowerCase restricted to the ASCII range. */
  function Lower(c: char): (d: char)
    ensures !('A' <= d <= 'Z')
    ensures !('A' <= c <= 'Z') ==> d == c
    ensures 'A' <= c <= 'Z' ==> 'a' <= d <= 'z' && d as int - 'a' as int == c as int - 'A' as int
  {
    if 'A' <= c <= 'Z' then (c as int + 32) as char else c
  }

  /** String.toLowerCase, character by character. */
  function ToLowerCase(s: string): (t: string)
    ensures |t| == |s|
    ensures forall i :: 0 <= i < |s| ==> t[i] == Lower(s[i])
  {
    seq(|s|, i requires 0 <= i < |s| => Lower(s[i]))
  }

  /** t occurs in s starting at index j. */
  ghost predicate OccursAt(s: string, t: string, j: int)
  {
    0 <= j && j + |t| <= |s| && s[j..j + |t|] == t
  }

  /** String.contains: t is a contiguous piece of s. */
  function Contains(s: string, t: string): (b: bool)
    ensures b <==> exists j :: OccursAt(s, t, j)
    decreases |s|
  {
    if |t| > |s| then false
    else if s[..|t|] == t then assert OccursAt(s, t, 0); true
    else
      var b := Contains(s[1..], t);
      assert b ==> exists j :: OccursAt(s, t, j) by {
        if b {
          var j :| OccursAt(s[1..], t, j);
          assert s[1..][j..j + |t|] == s[j + 1..j + 1 + |t|];
          assert OccursAt(s, t, j + 1);
        }
      }
      assert (exists j :: OccursAt(s, t, j)) ==> b by {
        if exists j :: OccursAt(s, t, j) {
          var j :| OccursAt(s, t, j);
          assert j != 0;
          assert s[1..][j - 1..j - 1 + |t|] == s[j..j + |t|];
          assert OccursAt(s[1..], t, j - 1);
        }
      }
      b
  }

  /** Every string contains the empty string. */
  lemma ContainsEmpty(s: string)
    ensures Contains(s, "")
  {
    assert OccursAt(s, "", 0);
  }

  /** String.compareToIgnoreCase: the difference of the first pair of
      characters that differ after case folding, or else the difference of
      the lengths. */
  function CompareIgnoreCase(a: string, b: string): (r: int)
    ensures r == 0 ==> |a| == |b|
    ensures a == b ==> r == 0
  {
    if a == [] || b == [] then |a| - |b|
    else if Lower(a[0]) != Lower(b[0]) then Lower(a[0]) as int - Lower(b[0]) as int
    else CompareIgnoreCase(a[1..], b[1..])
  }

  /** Two strings compare as equal exactly when they are equal after case folding. */
  lemma {:induction false} CompareZeroIffSameFold(a: string, b: string)
    ensures CompareIgnoreCase(a, b) == 0 <==> ToLowerCase(a) == ToLowerCase(b)
  {
    if a == [] || b == [] {
      assert |ToLowerCase(a)| == |a| && |ToLowerCase(b)| == |b|;
    } else if Lower(a[0]) != Lower(b[0]) {
      assert ToLowerCase(a)[0] != ToLowerCase(b)[0];
    } else {
      CompareZeroIffSameFold(a[1..], b[1..]);
      assert ToLowerCase(a) == [Lower(a[0])] + ToLowerCase(a[1..]);
      assert ToLowerCase(b) == [Lower(b[0])] + ToLowerCase(b[1..]);
    }
  }

  /** Every string compares as equal to itself. */
  lemma {:induction false} CompareReflexive(a: string)
    ensures CompareIgnoreCase(a, a) == 0
  {
    if a != [] {
      CompareReflexive(a[1..]);
    }
  }

  /** Swapping the arguments negates the result, so it flips the sign. */
  lemma {:induction false} CompareAntisymmetric(a: string, b: string)
    ensures CompareIgnoreCase(a, b) == -CompareIgnoreCase(b, a)
  {
    if a != [] && b != [] && Lower(a[0]) == Lower(b[0]) {
      CompareAntisymmetric(a[1..], b[1..]);
    }
  }

  /** "Less than or equal" is transitive. */
  lemma {:induction false} CompareTransitive(a: string, b: string, c: string)
    requires CompareIgnoreCase(a, b) <= 0 && CompareIgnoreCase(b, c) <= 0
    ensures CompareIgnoreCase(a, c) <= 0
  {
    if a != [] && b != [] && c != [] && Lower(a[0]) == Lower(b[0]) && Lower(b[0]) == Lower(c[0]) {
      CompareTransitive(a[1..], b[1..], c[1..]);
    }
  }

  /** Replacing an argument by one that differs only in letter case does not
      change the result. */
  lemma {:induction false} CompareIgnoresCase(a: string, a': string, b: string)
    requires ToLowerCase(a) == ToLowerCase(a')
    ensures CompareIgnoreCase(a, b) == CompareIgnoreCase(a', b)
  {
    assert |a| == |a'|;
    if a != [] && b != [] {
      assert Lower(a[0]) == ToLowerCase(a)[0] == ToLowerCase(a')[0] == Lower(a'[0]);
      assert ToLowerCase(a[1..]) == ToLowerCase(a)[1..];
      assert ToLowerCase(a'[1..]) == ToLowerCase(a')[1..];
      CompareIgnoresCase(a[1..], a'[1..], b[1..]);
    }
  }

  /** Strict and non-strict comparisons chain into a strict one. */
  lemma CompareTransitiveStrict(a: string, b: string, c: string)
    requires CompareIgnoreCase(a, b) <= 0 && CompareIgnoreCase(b, c) <= 0
    requires CompareIgnoreCase(a, b) < 0 || CompareIgnoreCase(b, c) < 0
    ensures CompareIgnoreCase(a, c) < 0
  {
    CompareTransitive(a, b, c);
    if CompareIgnoreCase(a, c) == 0 {
      CompareZeroIffSameFold(a, c);
      CompareIgnoresCase(a, c, b);
      CompareAntisymmetric(b, c);
      CompareAntisymmetric(a, b);
    }
  }

  /** The pieces of s between occurrences of sep, empty pieces included
      (what String.split does before it discards trailing empty strings). */
  function SplitAll(s: string, sep: char): (pieces: seq<string>)
    ensures |pieces| >= 1
    ensures forall k :: 0 <= k < |pieces| ==> sep !in pieces[k]
    ensures |pieces| == 1 <==> sep !in s
    decreases |s|
  {
    if s == [] then [""]
    else
      var rest := SplitAll(s[1..], sep);
      if s[0] == sep then [""] + rest else [[s[0]] + rest[0]] + rest[1..]
  }

  /** Drops the empty strings at the end of a list of pieces. */
  function DropTrailingEmpty(pieces: seq<string>): (r: seq<string>)
    ensures |r| <= |pieces| && r == pieces[..|r|]
    ensures r != [] ==> r[|r| - 1] != ""
    ensures forall k :: |r| <= k < |pieces| ==> pieces[k] == ""
  {
    if pieces != [] && pieces[|pieces| - 1] == "" then DropTrailingEmpty(pieces[..|pieces| - 1])
    else pieces
  }

  /** String.split with a one-character delimiter and the default limit:
      a string without the delimiter is returned whole (even when empty);
      otherwise the pieces lose their trailing empty strings. */
  function JavaSplit(s: string, sep: char): (pieces: seq<string>)
    ensures forall k :: 0 <= k < |pieces| ==> sep !in pieces[k]
    ensures sep !in s ==> pieces == [s]
    ensures sep in s ==> pieces == [] || pieces[|pieces| - 1] != ""
  {
    if sep !in s then [s] else DropTrailingEmpty(SplitAll(s, sep))
  }

  /** Joins pieces with sep between them, as Recycler.toString concatenates
      its fields with ";". */
  function Join(pieces: seq<string>, sep: char): string
    requires pieces != []
  {
    if |pieces| == 1 then pieces[0] else pieces[0] + [sep] + Join(pieces[1..], sep)
  }

  /** Splitting a joined list gives the pieces back when none contains the delimiter. */
  lemma {:induction false} SplitAllJoin(pieces: seq<string>, sep: char)
    requires pieces != []
    requires forall k :: 0 <= k < |pieces| ==> sep !in pieces[k]
    ensures SplitAll(Join(pieces, sep), sep) == pieces
  {
    if |pieces| == 1 {
      SplitAllNoSep(pieces[0], sep);
    } else {
      SplitAllJoin(pieces[1..], sep);
      SplitAllPrefix(pieces[0], Join(pieces[1..], sep), sep);
    }
  }

  lemma {:induction false} SplitAllNoSep(s: string, sep: char)
    requires sep !in s
    ensures SplitAll(s, sep) == [s]
    decreases |s|
  {
    if s != [] {
      SplitAllNoSep(s[1..], sep);
      assert [s[0]] + s[1..] == s;
    }
  }

  lemma {:induction false} SplitAllPrefix(a: string, b: string, sep: char)
    requires sep !in a
    ensures SplitAll(a + [sep] + b, sep) == [a] + SplitAll(b, sep)
    decreases |a|
  {
    if a == [] {
      assert (a + [sep] + b)[1..] == b;
    } else {
      assert (a + [sep] + b)[1..] == a[1..] + [sep] + b;
      SplitAllPrefix(a[1..], b, sep);
      assert [a[0]] + a[1..] == a;
    }
  }

  /** A joined list with at least two pieces contains the delimiter. */
  lemma JoinHasSep(pieces: seq<string>, sep: char)
    requires |pieces| >= 2
    ensures sep in Join(pieces, sep)
  {
    assert Join(pieces, sep)[|pieces[0]|] == sep;
  }
}
