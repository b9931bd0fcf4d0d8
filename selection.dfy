/**
 * Elitist selection: the list of (candidate, score) pairs is sorted by
 * score, highest first, with a stable sort, and its head is the elite.
 *
 * `list.sort(key=..., reverse=True)` is a library call; it is specified
 * here by a stable insertion sort on sequences (SortByScoreDesc), and the
 * lemmas below prove what the loop relies on: the result is ordered,
 * is a permutation of the input, keeps the input order among equal
 * scores, and starts with the earliest pair of maximal score.
 */
module Selection {

  /** One entry of the `evaluated` list: a candidate and its total score. */
  datatype Scored<C> = Scored(candidate: C, score: int)

  /** Scores never increase from left to right. */
  ghost predicate SortedDesc<C>(s: seq<Scored<C>>) {
    forall i, j :: 0 <= i < j < |s| ==> s[i].score >= s[j].score
  }

  /** The pairs of `s` whose score is `v`, in the order they appear in `s`. */
  function WithScore<C>(s: seq<Scored<C>>, v: int): seq<Scored<C>> {
    if s == [] then []
    else (if s[0].score == v then [s[0]] else []) + WithScore(s[1..], v)
  }

  /**
   * Inserts `x` after every pair whose score is at least `x.score`: the
   * step of a stable insertion sort in descending order.
   */
  function Insert<C>(x: Scored<C>, s: seq<Scored<C>>): (r: seq<Scored<C>>)
    ensures multiset(r) == multiset(s) + multiset{x}
  {
    if s == [] then [x]
    else if s[0].score >= x.score then
      assert s == [s[0]] + s[1..];
      [s[0]] + Insert(x, s[1..])
    else [x] + s
  }

  /**
   * The stable descending sort: every pair is inserted, left to right,
   * behind the pairs already placed that score at least as much.
   */
  function SortByScoreDesc<C>(s: seq<Scored<C>>): (r: seq<Scored<C>>)
    ensures multiset(r) == multiset(s)
  {
    if s == [] then []
    else
      assert s == s[..|s| - 1] + [s[|s| - 1]];
      Insert(s[|s| - 1], SortByScoreDesc(s[..|s| - 1]))
  }

  /**
   * Index of the earliest pair of maximal score (the "first argmax").
   * Every pair scores at most as much, and every earlier pair strictly less.
   */
  function FirstBestIndex<C>(s: seq<Scored<C>>): (k: nat)
    requires |s| > 0
    ensures k < |s|
    ensures forall j :: 0 <= j < |s| ==> s[j].score <= s[k].score
    ensures forall j :: 0 <= j < k ==> s[j].score < s[k].score
  {
    if |s| == 1 then 0
    else
      var k := FirstBestIndex(s[..|s| - 1]);
      if s[k].score >= s[|s| - 1].score then k else |s| - 1
  }

  lemma {:induction false} InsertKeepsSorted<C>(x: Scored<C>, s: seq<Scored<C>>)
    requires SortedDesc(s)
    ensures SortedDesc(Insert(x, s))
  {
    if s != [] && s[0].score >= x.score {
      InsertKeepsSorted(x, s[1..]);
      var t := Insert(x, s[1..]);
      assert multiset(t) == multiset(s[1..]) + multiset{x};
      forall j | 0 <= j < |t| ensures s[0].score >= t[j].score {
        assert t[j] in multiset(t);
        if t[j] != x {
          assert t[j] in multiset(s[1..]);
          var m :| 0 <= m < |s[1..]| && s[1..][m] == t[j];
          assert s[m + 1] == t[j];
        }
      }
    }
  }

  /** The sort yields scores in non-increasing order. */
  lemma {:induction false} SortIsSorted<C>(s: seq<Scored<C>>)
    ensures SortedDesc(SortByScoreDesc(s))
  {
    if s != [] {
      SortIsSorted(s[..|s| - 1]);
      InsertKeepsSorted(s[|s| - 1], SortByScoreDesc(s[..|s| - 1]));
    }
  }

  lemma {:induction false} WithScoreAppend<C>(a: seq<Scored<C>>, b: seq<Scored<C>>, v: int)
    ensures WithScore(a + b, v) == WithScore(a, v) + WithScore(b, v)
  {
    if a != [] {
      assert (a + b)[1..] == a[1..] + b;
      WithScoreAppend(a[1..], b, v);
    } else {
      assert a + b == b;
    }
  }

  lemma {:induction false} WithScoreAbsent<C>(s: seq<Scored<C>>, v: int)
    requires forall j :: 0 <= j < |s| ==> s[j].score != v
    ensures WithScore(s, v) == []
  {
    if s != [] {
      WithScoreAbsent(s[1..], v);
    }
  }

  lemma WithScoreCons<C>(a: Scored<C>, t: seq<Scored<C>>, v: int)
    ensures WithScore([a] + t, v) == (if a.score == v then [a] else []) + WithScore(t, v)
  {
    var u := [a] + t;
    assert u[0] == a && u[1..] == t;
  }

  /** Putting the same pair in front of both sides keeps a stability equation. */
  lemma WithScoreConsBoth<C>(h: Scored<C>, u: seq<Scored<C>>, t: seq<Scored<C>>, v: int, tail: seq<Scored<C>>)
    requires WithScore(u, v) == WithScore(t, v) + tail
    ensures WithScore([h] + u, v) == WithScore([h] + t, v) + tail
  {
    WithScoreCons(h, u, v);
    WithScoreCons(h, t, v);
  }

  /** Every score of a sorted sequence is at most its first. */
  lemma SortedBelowHead<C>(s: seq<Scored<C>>)
    requires SortedDesc(s) && s != []
    ensures forall j :: 0 <= j < |s| ==> s[j].score <= s[0].score
  {
  }

  lemma {:induction false} InsertIsStable<C>(x: Scored<C>, s: seq<Scored<C>>, v: int)
    requires SortedDesc(s)
    ensures WithScore(Insert(x, s), v) == WithScore(s, v) + (if x.score == v then [x] else [])
    decreases |s|, 1
  {
    if s == [] {
      WithScoreCons(x, [], v);
      assert [x] + [] == [x];
    } else if s[0].score >= x.score {
      InsertBehindIsStable(x, s, v);
    } else {
      InsertInFrontIsStable(x, s, v);
    }
  }

  /** The recursive case: `x` goes behind the head of `s`. */
  lemma {:induction false} InsertBehindIsStable<C>(x: Scored<C>, s: seq<Scored<C>>, v: int)
    requires SortedDesc(s) && s != [] && s[0].score >= x.score
    ensures WithScore(Insert(x, s), v) == WithScore(s, v) + (if x.score == v then [x] else [])
    decreases |s|, 0
  {
    var h, t := s[0], s[1..];
    assert SortedDesc(t);
    InsertIsStable(x, t, v);
    assert s == [h] + t;
    WithScoreConsBoth(h, Insert(x, t), t, v, if x.score == v then [x] else []);
  }

  /** The base case: `x` scores more than every pair of `s` and goes first. */
  lemma InsertInFrontIsStable<C>(x: Scored<C>, s: seq<Scored<C>>, v: int)
    requires SortedDesc(s) && s != [] && s[0].score < x.score
    ensures WithScore(Insert(x, s), v) == WithScore(s, v) + (if x.score == v then [x] else [])
  {
    WithScoreCons(x, s, v);
    if x.score == v {
      SortedBelowHead(s);
      WithScoreAbsent(s, v);
    }
  }

  /**
   * Stability: for every score value, the pairs with that score come out
   * in the order they went in.
   */
  lemma {:induction false} SortIsStable<C>(s: seq<Scored<C>>, v: int)
    ensures WithScore(SortByScoreDesc(s), v) == WithScore(s, v)
  {
    if s != [] {
      var p, x := s[..|s| - 1], s[|s| - 1];
      var tail := if x.score == v then [x] else [];
      assert WithScore(SortByScoreDesc(s), v) == WithScore(SortByScoreDesc(p), v) + tail by {
        SortIsSorted(p);
        InsertIsStable(x, SortByScoreDesc(p), v);
      }
      SortIsStable(p, v);
      assert WithScore(s, v) == WithScore(p, v) + tail by {
        assert s == p + [x];
        WithScoreAppend(p, [x], v);
        WithScoreCons(x, [], v);
        assert [x] + [] == [x];
      }
    }
  }

  /**
   * The head of the sorted list is the earliest pair of maximal score: the
   * pair `evaluated[0]` the loop takes as its elite.
   */
  lemma {:induction false} SortHeadIsFirstBest<C>(s: seq<Scored<C>>)
    requires |s| > 0
    ensures |SortByScoreDesc(s)| == |s|
    ensures SortByScoreDesc(s)[0] == s[FirstBestIndex(s)]
  {
    assert |multiset(SortByScoreDesc(s))| == |multiset(s)|;
    if |s| > 1 {
      var p, x := s[..|s| - 1], s[|s| - 1];
      SortHeadIsFirstBest(p);
    }
  }
}
