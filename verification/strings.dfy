/**
 * The handful of Python string operations the banner code relies on:
 * substring test (`needle in s`), `str.replace`, `''.join`, `str.split`
 * and ASCII `str.lower`.
 */
module Strings {

  /** Python's `needle in s`: some window of `s` equals `needle`. */
  predicate Contains(s: string, needle: string)
    decreases |s|
  {
    if |s| < |needle| then false
    else if s[..|needle|] == needle then true
    else Contains(s[1..], needle)
  }

  /** `needle` occurs in `s` starting at index `i`. */
  ghost predicate OccursAt(s: string, needle: string, i: int)
  {
    0 <= i && i + |needle| <= |s| && s[i..i + |needle|] == needle
  }

  /** The scanning definition of `Contains` agrees with "some window matches". */
  lemma {:induction false} ContainsIff(s: string, needle: string)
    ensures Contains(s, needle) <==> exists i :: OccursAt(s, needle, i)
    decreases |s|
  {
    if |s| < |needle| {
    } else if s[..|needle|] == needle {
      assert OccursAt(s, needle, 0);
    } else {
      ContainsIff(s[1..], needle);
      if Contains(s[1..], needle) {
        var j :| OccursAt(s[1..], needle, j);
        assert s[j + 1..j + 1 + |needle|] == s[1..][j..j + |needle|];
        assert OccursAt(s, needle, j + 1);
      }
      if exists i :: OccursAt(s, needle, i) {
        var i :| OccursAt(s, needle, i);
        assert i != 0;
        assert s[1..][i - 1..i - 1 + |needle|] == s[i..i + |needle|];
        assert OccursAt(s[1..], needle, i - 1);
      }
    }
  }

  /** A string that has `needle` in the middle contains it. */
  lemma ContainsInfix(a: string, needle: string, b: string)
    ensures Contains(a + needle + b, needle)
  {
    var s := a + needle + b;
    assert s[|a|..|a| + |needle|] == needle;
    assert OccursAt(s, needle, |a|);
    ContainsIff(s, needle);
  }

  /** Every string contains itself. */
  lemma ContainsSelf(s: string)
    ensures Contains(s, s)
  {
    assert s[..|s|] == s;
  }

  /** Text around a string that contains `needle` does not hide it. */
  lemma ContainsPrepend(a: string, s: string, needle: string)
    requires Contains(s, needle)
    ensures Contains(a + s, needle)
  {
    ContainsIff(s, needle);
    var i :| OccursAt(s, needle, i);
    assert (a + s)[|a| + i..|a| + i + |needle|] == s[i..i + |needle|];
    assert OccursAt(a + s, needle, |a| + i);
    ContainsIff(a + s, needle);
  }

  /** Text after a string that contains `needle` does not hide it. */
  lemma ContainsAppend(s: string, b: string, needle: string)
    requires Contains(s, needle)
    ensures Contains(s + b, needle)
  {
    ContainsIff(s, needle);
    var i :| OccursAt(s, needle, i);
    assert (s + b)[i..i + |needle|] == s[i..i + |needle|];
    assert OccursAt(s + b, needle, i);
    ContainsIff(s + b, needle);
  }

  /** A string that lacks one of the characters of `needle` cannot contain it. */
  lemma MissingCharNotContained(s: string, needle: string, c: char)
    requires c in needle && c !in s
    ensures !Contains(s, needle)
  {
    ContainsIff(s, needle);
    var k :| 0 <= k < |needle| && needle[k] == c;
    forall i | 0 <= i
      ensures !OccursAt(s, needle, i)
    {
      if i + |needle| <= |s| {
        assert s[i..i + |needle|][k] == s[i + k];
      }
    }
  }

  /** Python's `''.join(lines)`. */
  function Concat(lines: seq<string>): (r: string)
    ensures lines == [] ==> r == ""
    ensures |lines| == 1 ==> r == lines[0]
    ensures |lines| > 0 ==> |r| >= |lines[0]| && r[..|lines[0]|] == lines[0]
  {
    if lines == [] then "" else lines[0] + Concat(lines[1..])
  }

  /** Joining is concatenation in order: the join of two runs of lines is the two joins one after the other. */
  lemma {:induction false} ConcatAppend(a: seq<string>, b: seq<string>)
    ensures Concat(a + b) == Concat(a) + Concat(b)
    decreases |a|
  {
    if a != [] {
      assert (a + b)[1..] == a[1..] + b;
      ConcatAppend(a[1..], b);
    } else {
      assert a + b == b;
    }
  }

  /** The join of two lines is the first followed by the second. */
  lemma ConcatPair(p: string, q: string)
    ensures Concat([p, q]) == p + q
  {
    assert [p, q][1..] == [q];
  }

  /** A needle split across two adjacent lines is found in the join of the lines. */
  lemma SplitNeedleJoined(before: seq<string>, x: string, needle: string, k: nat, y: string, after: seq<string>)
    requires k <= |needle|
    ensures Contains(Concat(before + [x + needle[..k], needle[k..] + y] + after), needle)
  {
    var p, q := x + needle[..k], needle[k..] + y;
    var lines := before + [p, q] + after;
    var cb, ca := Concat(before), Concat(after);
    ConcatAppend(before + [p, q], after);
    ConcatAppend(before, [p, q]);
    ConcatPair(p, q);
    assert Concat(lines) == cb + (p + q) + ca;
    assert needle[..k] + needle[k..] == needle;
    SplitInfix(cb, x, needle, k, y, ca);
  }

  /** Regrouping: the two halves of a split needle, put back together, contain it. */
  lemma SplitInfix(a: string, x: string, needle: string, k: nat, y: string, b: string)
    requires k <= |needle|
    ensures Contains(a + ((x + needle[..k]) + (needle[k..] + y)) + b, needle)
  {
    assert needle[..k] + needle[k..] == needle;
    assert a + ((x + needle[..k]) + (needle[k..] + y)) + b == (a + x) + needle + (y + b);
    ContainsInfix(a + x, needle, y + b);
  }

  /** A string iterated as Python does: one one-character string per character. */
  function Chars(s: string): (r: seq<string>)
    ensures |r| == |s|
    ensures forall i :: 0 <= i < |s| ==> r[i] == [s[i]]
  {
    seq(|s|, i requires 0 <= i < |s| => [s[i]])
  }

  /** `''.join(s)` of a string gives the string back. */
  lemma {:induction false} ConcatChars(s: string)
    ensures Concat(Chars(s)) == s
    decreases |s|
  {
    if s != [] {
      assert Chars(s)[1..] == Chars(s[1..]);
      ConcatChars(s[1..]);
      assert s == [s[0]] + s[1..];
    }
  }

  /**
   * Python's `s.replace(pat, rep)` for a non-empty `pat`: scans left to right
   * and replaces every non-overlapping occurrence.
   */
  function ReplaceAll(s: string, pat: string, rep: string): (r: string)
    requires |pat| > 0
    ensures |rep| <= |pat| ==> |r| <= |s|
    ensures |rep| == |pat| ==> |r| == |s|
    decreases |s|
  {
    if |s| < |pat| then s
    else if s[..|pat|] == pat then rep + ReplaceAll(s[|pat|..], pat, rep)
    else [s[0]] + ReplaceAll(s[1..], pat, rep)
  }

  /** A string without any occurrence of `pat` is left as it is. */
  lemma {:induction false} ReplaceAllAbsent(s: string, pat: string, rep: string)
    requires |pat| > 0 && !Contains(s, pat)
    ensures ReplaceAll(s, pat, rep) == s
    decreases |s|
  {
    if |s| >= |pat| {
      ReplaceAllAbsent(s[1..], pat, rep);
      assert [s[0]] + s[1..] == s;
    }
  }

  /** Replacing a leading occurrence: it becomes `rep`, the rest is processed on. */
  lemma ReplaceAllLeading(pat: string, rest: string, rep: string)
    requires |pat| > 0
    ensures ReplaceAll(pat + rest, pat, rep) == rep + ReplaceAll(rest, pat, rep)
  {
    var s := pat + rest;
    assert s[..|pat|] == pat;
    assert s[|pat|..] == rest;
  }

  /** Python's `str.split(sep)` for a non-empty `sep`: at least one piece. */
  function Split(s: string, sep: string): (pieces: seq<string>)
    requires |sep| > 0
    ensures |pieces| >= 1
    decreases |s|
  {
    if |s| < |sep| then [s]
    else if s[..|sep|] == sep then [""] + Split(s[|sep|..], sep)
    else
      var tail := Split(s[1..], sep);
      [[s[0]] + tail[0]] + tail[1..]
  }

  /** Python's `glue.join(pieces)` for a non-empty list of pieces. */
  function Join(glue: string, pieces: seq<string>): (r: string)
    requires |pieces| >= 1
  {
    if |pieces| == 1 then pieces[0] else pieces[0] + glue + Join(glue, pieces[1..])
  }

  /** Prepending a character to the first piece prepends it to the joined string. */
  lemma JoinConsFirst(glue: string, c: char, pieces: seq<string>)
    requires |pieces| >= 1
    ensures Join(glue, [[c] + pieces[0]] + pieces[1..]) == [c] + Join(glue, pieces)
  {
    var p := [[c] + pieces[0]] + pieces[1..];
    assert p[1..] == pieces[1..];
  }

  /**
   * The reference definition of `str.replace`: `s.replace(a, b)` equals
   * `b.join(s.split(a))`.
   */
  lemma {:induction false} ReplaceAllIsJoinSplit(s: string, pat: string, rep: string)
    requires |pat| > 0
    ensures ReplaceAll(s, pat, rep) == Join(rep, Split(s, pat))
    decreases |s|
  {
    if |s| < |pat| {
    } else if s[..|pat|] == pat {
      ReplaceAllIsJoinSplit(s[|pat|..], pat, rep);
      var tail := Split(s[|pat|..], pat);
      assert ([""] + tail)[1..] == tail;
    } else {
      ReplaceAllIsJoinSplit(s[1..], pat, rep);
      JoinConsFirst(rep, s[0], Split(s[1..], pat));
    }
  }

  /** Replacing a single character by a single character works position by position. */
  lemma {:induction false} ReplaceCharAt(s: string, c: char, d: char)
    ensures |ReplaceAll(s, [c], [d])| == |s|
    ensures forall i :: 0 <= i < |s| ==>
      ReplaceAll(s, [c], [d])[i] == (if s[i] == c then d else s[i])
    decreases |s|
  {
    if |s| > 0 {
      ReplaceCharAt(s[1..], c, d);
      var r := ReplaceAll(s, [c], [d]);
      var t := ReplaceAll(s[1..], [c], [d]);
      assert s[..1] == [s[0]];
      assert r == (if s[0] == c then [d] else [s[0]]) + t;
      forall i | 0 <= i < |s|
        ensures r[i] == (if s[i] == c then d else s[i])
      {
        if i > 0 {
          assert r[i] == t[i - 1];
          assert s[i] == s[1..][i - 1];
        }
      }
    }
  }

  /** Python's `str.lower` on one character, restricted to ASCII letters. */
  function LowerChar(c: char): (d: char)
    ensures 'A' <= c <= 'Z' ==> 'a' <= d <= 'z' && d as int - 'a' as int == c as int - 'A' as int
    ensures !('A' <= c <= 'Z') ==> d == c
  {
    if 'A' <= c <= 'Z' then (c as int - 'A' as int + 'a' as int) as char else c
  }

  /** Python's `str.lower` on ASCII text, character by character. */
  function LowerAscii(s: string): (r: string)
    ensures |r| == |s|
    ensures forall i :: 0 <= i < |s| ==> r[i] == LowerChar(s[i])
  {
    seq(|s|, i requires 0 <= i < |s| => LowerChar(s[i]))
  }
}
