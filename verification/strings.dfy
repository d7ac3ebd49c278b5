/**
 * The string primitives the replacer relies on: `strpos`, `stripos`,
 * ASCII case mapping (`strtolower`/`strtoupper`) and splitting on a
 * separator character. Strings are sequences of characters; no encoding
 * or Unicode case folding is modelled.
 */
module Strings {
  import opened Wrappers

  /** `pat` occurs in `s` starting at index `i`. */
  predicate OccursAt(s: string, pat: string, i: nat) {
    i + |pat| <= |s| && s[i..i + |pat|] == pat
  }

  /** Each character of an occurrence is the pattern's. */
  lemma OccurrenceHasChar(s: string, pat: string, j: nat, m: nat)
    requires OccursAt(s, pat, j) && m < |pat|
    ensures s[j + m] == pat[m]
  {
    assert s[j..j + |pat|][m] == s[j + m];
  }

  /** First occurrence of `pat` in `s` at or after `from`. */
  function IndexFrom(s: string, pat: string, from: nat): (r: Option<nat>)
    decreases |s| - from
    ensures r.Some? ==> from <= r.value && OccursAt(s, pat, r.value)
    ensures r.Some? ==> forall j :: from <= j < r.value ==> !OccursAt(s, pat, j)
    ensures r.None? ==> forall j :: from <= j ==> !OccursAt(s, pat, j)
  {
    if from + |pat| > |s| then None
    else if s[from..from + |pat|] == pat then Some(from)
    else IndexFrom(s, pat, from + 1)
  }

  /** PHP `strpos`: the index of the first occurrence, `None` for `false`. */
  function IndexOf(s: string, pat: string): (r: Option<nat>)
    ensures r.Some? ==> OccursAt(s, pat, r.value)
    ensures r.Some? ==> forall j: nat :: j < r.value ==> !OccursAt(s, pat, j)
    ensures r.None? <==> forall j :: !OccursAt(s, pat, j)
  {
    IndexFrom(s, pat, 0)
  }

  /** `strpos($s, $pat) !== false`. */
  predicate Contains(s: string, pat: string) {
    IndexOf(s, pat).Some?
  }

  /** For a one-character pattern, `strpos` finds exactly the characters of `s`. */
  lemma ContainsChar(s: string, c: char)
    ensures Contains(s, [c]) <==> c in s
  {
    if c in s {
      var j :| 0 <= j < |s| && s[j] == c;
      assert s[j..j + 1] == [c];
      assert OccursAt(s, [c], j);
    }
    if Contains(s, [c]) {
      var j := IndexOf(s, [c]).value;
      assert s[j..j + 1] == [c];
      assert s[j] == c;
    }
  }

  /** A prefix of `s` keeps every occurrence it contains. */
  lemma ContainsExtend(s: string, t: string, pat: string)
    requires Contains(s, pat)
    ensures Contains(s + t, pat)
  {
    var j := IndexOf(s, pat).value;
    assert (s + t)[j..j + |pat|] == s[j..j + |pat|];
    assert OccursAt(s + t, pat, j);
  }

  /**
   * Joining `s` and `t` with a separator character that `pat` does not
   * contain creates no new occurrence of `pat`.
   */
  lemma ContainsAcrossSeparator(s: string, c: char, t: string, pat: string)
    requires |pat| > 0 && c !in pat
    requires Contains(s + [c] + t, pat)
    ensures Contains(s, pat) || Contains(t, pat)
  {
    var u := s + [c] + t;
    var j := IndexOf(u, pat).value;
    if j + |pat| <= |s| {
      assert s[j..j + |pat|] == u[j..j + |pat|];
      assert OccursAt(s, pat, j);
    } else if j <= |s| {
      SeparatorInsideOccurrence(s, c, t, pat, j);
      assert false;
    } else {
      var k := j - |s| - 1;
      assert u[|s| + 1..] == t;
      assert u[|s| + 1..][k..k + |pat|] == u[j..j + |pat|];
      assert t[k..k + |pat|] == u[j..j + |pat|];
      assert OccursAt(t, pat, k);
    }
  }

  /** An occurrence that straddles the separator contains it. */
  lemma SeparatorInsideOccurrence(s: string, c: char, t: string, pat: string, j: nat)
    requires OccursAt(s + [c] + t, pat, j)
    requires j <= |s| < j + |pat|
    ensures c in pat
  {
    var u := s + [c] + t;
    assert u[j..j + |pat|][|s| - j] == u[|s|];
  }

  /** ASCII lower-casing of one character, as PHP 8's `strtolower`. */
  function LowerChar(c: char): char {
    if 'A' <= c <= 'Z' then (c as int + 32) as char else c
  }

  /** ASCII upper-casing of one character, as PHP 8's `strtoupper`. */
  function UpperChar(c: char): char {
    if 'a' <= c <= 'z' then (c as int - 32) as char else c
  }

  function ToLower(s: string): (r: string)
    ensures |r| == |s| && forall i :: 0 <= i < |s| ==> r[i] == LowerChar(s[i])
  {
    seq(|s|, i requires 0 <= i < |s| => LowerChar(s[i]))
  }

  function ToUpper(s: string): (r: string)
    ensures |r| == |s| && forall i :: 0 <= i < |s| ==> r[i] == UpperChar(s[i])
  {
    seq(|s|, i requires 0 <= i < |s| => UpperChar(s[i]))
  }

  /** `pre` is a prefix of `s` when both are compared ASCII-case-insensitively. */
  predicate IPrefix(pre: string, s: string) {
    |pre| <= |s| && forall i :: 0 <= i < |pre| ==> LowerChar(s[i]) == LowerChar(pre[i])
  }

  /** An exact prefix is a case-insensitive one. */
  lemma PrefixIsIPrefix(pre: string, s: string)
    requires |pre| <= |s| && s[..|pre|] == pre
    ensures IPrefix(pre, s)
  {
    assert forall i :: 0 <= i < |pre| ==> s[..|pre|][i] == s[i];
  }

  /**
   * PHP `stripos`: `strpos` on the lower-cased haystack and needle. The
   * first match is at index 0 exactly when the needle is a
   * case-insensitive prefix of the haystack.
   */
  function StrIPos(haystack: string, needle: string): (r: Option<nat>)
    ensures r == Some(0) <==> IPrefix(needle, haystack)
  {
    var h, n := ToLower(haystack), ToLower(needle);
    var r := IndexOf(h, n);
    assert OccursAt(h, n, 0) ==> r == Some(0);
    assert OccursAt(h, n, 0) <==> IPrefix(needle, haystack) by {
      if IPrefix(needle, haystack) {
        assert h[0..|n|] == n;
      }
      if OccursAt(h, n, 0) {
        forall i | 0 <= i < |needle|
          ensures LowerChar(haystack[i]) == LowerChar(needle[i])
        {
          assert h[0..|n|][i] == n[i];
        }
      }
    }
    r
  }

  /**
   * Splits `s` at every occurrence of `c`, keeping empty pieces; there is
   * always at least one piece.
   */
  function SplitOn(s: string, c: char): (r: seq<string>)
    decreases |s|
    ensures |r| >= 1
    ensures forall k :: 0 <= k < |r| ==> c !in r[k]
  {
    if |s| == 0 then [[]]
    else
      var rest := SplitOn(s[1..], c);
      if s[0] == c then [[]] + rest
      else [[s[0]] + rest[0]] + rest[1..]
  }

  /** Concatenates the pieces with `c` between neighbours (PHP `implode`). */
  function Join(pieces: seq<string>, c: char): string
    requires |pieces| >= 1
    decreases |pieces|
  {
    if |pieces| == 1 then pieces[0]
    else pieces[0] + [c] + Join(pieces[1..], c)
  }

  /** Splitting loses nothing: joining the pieces rebuilds the input. */
  lemma {:induction false} JoinSplit(s: string, c: char)
    decreases |s|
    ensures Join(SplitOn(s, c), c) == s
  {
    if |s| > 0 {
      var rest := SplitOn(s[1..], c);
      JoinSplit(s[1..], c);
      if s[0] == c {
        assert SplitOn(s, c)[1..] == rest;
      } else {
        var r := SplitOn(s, c);
        if |rest| == 1 {
          assert r == [[s[0]] + rest[0]];
        } else {
          assert r[1..] == rest[1..];
          assert Join(r, c) == [s[0]] + rest[0] + [c] + Join(rest[1..], c);
        }
      }
    }
  }

  /** A string without the separator is a single piece. */
  lemma {:induction false} SplitWithoutSeparator(s: string, c: char)
    requires c !in s
    decreases |s|
    ensures SplitOn(s, c) == [s]
  {
    if |s| > 0 {
      SplitWithoutSeparator(s[1..], c);
      assert [s[0]] + s[1..] == s;
    }
  }
}
