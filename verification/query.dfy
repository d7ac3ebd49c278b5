/**
 * The `parse_str($append_get, $appendGET)` call of the GET-form path,
 * simplified: the fragment is cut at every `&`, empty pieces are skipped,
 * each piece is cut at its first `=` (a piece without `=` has the empty
 * value), pieces with an empty key are dropped, and a repeated key keeps
 * its first position but takes its last value, as a PHP array overwrite
 * does. Percent-decoding and the `a[]=` array syntax are not modelled.
 */
module Query {
  import opened Wrappers
  import opened Strings

  type Pair = (string, string)

  /** Cuts one `key=value` piece at its first `=`. */
  function ParsePair(piece: string): (p: Pair)
    ensures '=' !in p.0
    ensures '=' in piece ==> p.0 + "=" + p.1 == piece
    ensures '=' !in piece ==> p == (piece, "")
  {
    ContainsChar(piece, '=');
    match IndexOf(piece, "=")
    case Some(i) =>
      assert piece[i..i + 1] == "=";
      assert piece[..i] + "=" + piece[i + 1..] == piece;
      assert '=' !in piece[..i] by {
        if '=' in piece[..i] {
          var j :| 0 <= j < i && piece[j] == '=';
          assert piece[j..j + 1] == "=";
          assert OccursAt(piece, "=", j);
        }
      }
      (piece[..i], piece[i + 1..])
    case None => (piece, "")
  }

  /** The pairs of the non-empty pieces whose key is non-empty, in order. */
  function RawPairs(pieces: seq<string>): (ps: seq<Pair>)
    ensures forall k :: 0 <= k < |ps| ==> |ps[k].0| > 0 && '=' !in ps[k].0
  {
    if |pieces| == 0 then []
    else
      var rest := RawPairs(pieces[1..]);
      if |pieces[0]| == 0 || |ParsePair(pieces[0]).0| == 0 then rest
      else [ParsePair(pieces[0])] + rest
  }

  /** The pairs of consecutive pieces are the pairs of each part, in order. */
  lemma {:induction false} RawPairsAppend(a: seq<string>, b: seq<string>)
    ensures RawPairs(a + b) == RawPairs(a) + RawPairs(b)
  {
    if |a| == 0 {
      assert a + b == b;
    } else {
      assert (a + b)[0] == a[0];
      assert (a + b)[1..] == a[1..] + b;
      RawPairsAppend(a[1..], b);
    }
  }

  /**
   * One piece gives its cut pair when the key is non-empty and nothing
   * otherwise (an empty piece has an empty key).
   */
  lemma RawPairsOne(piece: string)
    ensures RawPairs([piece]) == if |ParsePair(piece).0| > 0 then [ParsePair(piece)] else []
  {
    assert [piece][1..] == [];
    if |piece| == 0 {
      assert |ParsePair(piece).0| == 0;
    }
  }

  predicate DistinctKeys(ps: seq<Pair>) {
    forall i, j :: 0 <= i < j < |ps| ==> ps[i].0 != ps[j].0
  }

  /** The value the first pair with key `k` holds, if any. */
  function Find(ps: seq<Pair>, k: string): Option<string> {
    if |ps| == 0 then None
    else if ps[0].0 == k then Some(ps[0].1)
    else Find(ps[1..], k)
  }

  /** The value the last pair with key `k` holds, if any. */
  function LastValue(ps: seq<Pair>, k: string): Option<string> {
    if |ps| == 0 then None
    else if ps[|ps| - 1].0 == k then Some(ps[|ps| - 1].1)
    else LastValue(ps[..|ps| - 1], k)
  }

  /**
   * Array assignment `$a[k] = v`: an existing key keeps its place and gets
   * the new value, a new key goes at the end.
   */
  function Upsert(ps: seq<Pair>, k: string, v: string): (r: seq<Pair>)
    ensures forall k' :: Find(r, k') == if k' == k then Some(v) else Find(ps, k')
    ensures DistinctKeys(ps) ==> DistinctKeys(r)
    ensures Find(ps, k).Some? ==> |r| == |ps| && forall i :: 0 <= i < |ps| ==> r[i].0 == ps[i].0
    ensures Find(ps, k).None? ==> r == ps + [(k, v)]
  {
    if |ps| == 0 then [(k, v)]
    else if ps[0].0 == k then [(k, v)] + ps[1..]
    else
      var rest := Upsert(ps[1..], k, v);
      assert DistinctKeys(ps) ==> DistinctKeys(ps[1..]) by {
        if DistinctKeys(ps) {
          forall i, j | 0 <= i < j < |ps[1..]| ensures ps[1..][i].0 != ps[1..][j].0 {
            assert ps[1..][i] == ps[i + 1] && ps[1..][j] == ps[j + 1];
          }
        }
      }
      assert DistinctKeys(ps) ==> forall j :: 0 <= j < |rest| ==> rest[j].0 != ps[0].0 by {
        if DistinctKeys(ps) {
          forall j | 0 <= j < |rest| ensures rest[j].0 != ps[0].0 {
            KeyOfPosition(rest, j);
            assert Find(rest, rest[j].0).Some?;
            if rest[j].0 == ps[0].0 {
              assert Find(ps[1..], ps[0].0).Some?;
              FoundKeyPosition(ps[1..], ps[0].0);
            }
          }
        }
      }
      [ps[0]] + rest
  }

  /** Every key at some position can be found. */
  lemma {:induction false} KeyOfPosition(ps: seq<Pair>, j: nat)
    requires j < |ps|
    ensures Find(ps, ps[j].0).Some?
  {
    if j > 0 && ps[0].0 != ps[j].0 {
      KeyOfPosition(ps[1..], j - 1);
    }
  }

  /** A key that can be found sits at some position. */
  lemma {:induction false} FoundKeyPosition(ps: seq<Pair>, k: string)
    requires Find(ps, k).Some?
    ensures exists j :: 0 <= j < |ps| && ps[j].0 == k
  {
    if ps[0].0 != k {
      FoundKeyPosition(ps[1..], k);
      var j :| 0 <= j < |ps[1..]| && ps[1..][j].0 == k;
      assert ps[j + 1].0 == k;
    }
  }

  /** Assigns the pairs one after the other into an initially empty array. */
  function Merge(ps: seq<Pair>): seq<Pair> {
    if |ps| == 0 then []
    else
      var last := ps[|ps| - 1];
      Upsert(Merge(ps[..|ps| - 1]), last.0, last.1)
  }

  /** Merging yields distinct keys, each holding the value of its last pair. */
  lemma {:induction false} MergeLastWins(ps: seq<Pair>)
    ensures DistinctKeys(Merge(ps))
    ensures forall k :: Find(Merge(ps), k) == LastValue(ps, k)
    ensures |Merge(ps)| <= |ps|
  {
    if |ps| > 0 {
      MergeLastWins(ps[..|ps| - 1]);
    }
  }

  /** Position of the first pair with key `k`, or `|ps|` when there is none. */
  function FirstIndex(ps: seq<Pair>, k: string): (r: nat)
    ensures r <= |ps|
    ensures r < |ps| ==> ps[r].0 == k
    ensures forall j :: 0 <= j < r ==> ps[j].0 != k
  {
    if |ps| == 0 then 0
    else if ps[0].0 == k then 0
    else
      var r := FirstIndex(ps[1..], k);
      assert forall j :: 0 < j <= r ==> ps[j] == ps[1..][j - 1];
      1 + r
  }

  /** A first occurrence in a prefix stays the first occurrence after appending. */
  lemma FirstIndexAppend(ps: seq<Pair>, x: Pair, k: string)
    ensures FirstIndex(ps, k) < |ps| ==> FirstIndex(ps + [x], k) == FirstIndex(ps, k)
    ensures FirstIndex(ps, k) == |ps| ==> FirstIndex(ps + [x], k) == if x.0 == k then |ps| else |ps| + 1
  {
    var r, r' := FirstIndex(ps, k), FirstIndex(ps + [x], k);
    assert forall j :: 0 <= j < |ps| ==> (ps + [x])[j] == ps[j];
    assert (ps + [x])[|ps|] == x;
    if r < |ps| {
      assert (ps + [x])[r].0 == k;
    }
  }

  /** A key has a last value exactly when it has a first occurrence. */
  lemma {:induction false} LastValueIffOccurs(ps: seq<Pair>, k: string)
    ensures LastValue(ps, k).Some? <==> FirstIndex(ps, k) < |ps|
  {
    if |ps| > 0 {
      var p, last := ps[..|ps| - 1], ps[|ps| - 1];
      assert ps == p + [last];
      LastValueIffOccurs(p, k);
      FirstIndexAppend(p, last, k);
    }
  }

  /** The merged keys are exactly the keys that occur. */
  lemma MergeKeysOccur(ps: seq<Pair>)
    ensures forall i :: 0 <= i < |Merge(ps)| ==> FirstIndex(ps, Merge(ps)[i].0) < |ps|
    ensures forall k :: FirstIndex(ps, k) < |ps| ==> Find(Merge(ps), k).Some?
  {
    MergeLastWins(ps);
    forall i | 0 <= i < |Merge(ps)|
      ensures FirstIndex(ps, Merge(ps)[i].0) < |ps|
    {
      KeyOfPosition(Merge(ps), i);
      LastValueIffOccurs(ps, Merge(ps)[i].0);
    }
    forall k | FirstIndex(ps, k) < |ps|
      ensures Find(Merge(ps), k).Some?
    {
      LastValueIffOccurs(ps, k);
    }
  }

  /**
   * Merging keeps the keys in the order of their first occurrence, as a
   * PHP array does when later assignments overwrite earlier ones.
   */
  lemma {:induction false} MergeFirstOccurrenceOrder(ps: seq<Pair>)
    ensures forall i, j :: 0 <= i < j < |Merge(ps)| ==>
      FirstIndex(ps, Merge(ps)[i].0) < FirstIndex(ps, Merge(ps)[j].0)
  {
    if |ps| > 0 {
      var p, last := ps[..|ps| - 1], ps[|ps| - 1];
      assert ps == p + [last];
      MergeFirstOccurrenceOrder(p);
      MergeKeysOccur(p);
      var m, r := Merge(p), Merge(ps);
      assert r == Upsert(m, last.0, last.1);
      forall i | 0 <= i < |m|
        ensures FirstIndex(ps, m[i].0) == FirstIndex(p, m[i].0) < |p|
      {
        FirstIndexAppend(p, last, m[i].0);
      }
      if Find(m, last.0).None? {
        FirstIndexAppend(p, last, last.0);
      }
      forall i, j | 0 <= i < j < |r|
        ensures FirstIndex(ps, r[i].0) < FirstIndex(ps, r[j].0)
      {
        assert r[i].0 == m[i].0;
        if j < |m| {
          assert r[j].0 == m[j].0;
        } else {
          assert r[j] == last && FirstIndex(ps, last.0) == |p|;
        }
      }
    }
  }

  /** The key/value pairs `parse_str` produces from the fragment. */
  function ParseQuery(s: string): seq<Pair> {
    Merge(RawPairs(SplitOn(s, '&')))
  }

  /**
   * The parsed keys are distinct and non-empty, and each key holds the
   * value of its last `key=value` piece in the fragment.
   */
  lemma ParseQueryLastWins(s: string)
    ensures DistinctKeys(ParseQuery(s))
    ensures forall k :: Find(ParseQuery(s), k) == LastValue(RawPairs(SplitOn(s, '&')), k)
    ensures Find(ParseQuery(s), "").None?
  {
    MergeLastWins(RawPairs(SplitOn(s, '&')));
    EmptyKeyNeverLast(RawPairs(SplitOn(s, '&')));
  }

  /**
   * `parse_str` lists the keys in the order in which their first
   * `key=value` piece appears in the fragment, and lists every key that
   * appears.
   */
  lemma ParseQueryFirstOccurrenceOrder(s: string)
    ensures var ps, q := RawPairs(SplitOn(s, '&')), ParseQuery(s);
      && (forall i, j :: 0 <= i < j < |q| ==> FirstIndex(ps, q[i].0) < FirstIndex(ps, q[j].0))
      && (forall k :: FirstIndex(ps, k) < |ps| ==> Find(q, k).Some?)
  {
    MergeFirstOccurrenceOrder(RawPairs(SplitOn(s, '&')));
    MergeKeysOccur(RawPairs(SplitOn(s, '&')));
  }

  /** No pair of `RawPairs` has the empty key. */
  lemma {:induction false} EmptyKeyNeverLast(ps: seq<Pair>)
    requires forall k :: 0 <= k < |ps| ==> |ps[k].0| > 0
    ensures LastValue(ps, "").None?
  {
    if |ps| > 0 {
      EmptyKeyNeverLast(ps[..|ps| - 1]);
    }
  }

  /** A piece `k=v` whose key holds no `=` is cut into exactly `k` and `v`. */
  lemma ParsePairOf(k: string, v: string)
    requires '=' !in k
    ensures ParsePair(k + "=" + v) == (k, v)
  {
    var piece := k + "=" + v;
    assert piece[|k|] == '=';
    var p := ParsePair(piece);
    assert p.0 == piece[..|p.0|] == k;
    assert p.1 == piece[|k| + 1..] == v;
  }

  /** A fragment that is one `k=v` pair with a non-empty key parses to that pair. */
  lemma SinglePair(k: string, v: string)
    requires |k| > 0 && '=' !in k && '&' !in k && '&' !in v
    ensures ParseQuery(k + "=" + v) == [(k, v)]
  {
    var s := k + "=" + v;
    assert '&' !in s;
    SplitWithoutSeparator(s, '&');
    ParsePairOf(k, v);
    assert RawPairs([s]) == [(k, v)];
    assert Merge([(k, v)]) == Upsert([], k, v);
  }

  /** The empty fragment yields no pairs, so a GET form receives no hidden input. */
  lemma EmptyFragment()
    ensures ParseQuery("") == []
  {
    assert SplitOn("", '&') == [[]];
    assert RawPairs([[]]) == [];
  }
}
