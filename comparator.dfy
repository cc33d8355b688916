/** `MoveScoreComparator`: moves ordered by descending score, and the stable
    sort (`Arrays.sort` with a comparator) the look-ahead bots apply with it. */
module Comparator {
  import opened MoveScores

  /** Negative when `o1` scores higher (it sorts first), zero on equal
      scores, positive when `o2` scores higher; row and column play no part. */
  function Compare(o1: MoveScore, o2: MoveScore): (r: int)
    ensures r < 0 <==> o1.score > o2.score
    ensures r == 0 <==> o1.score == o2.score
    ensures r > 0 <==> o1.score < o2.score
  {
    o2.score - o1.score
  }

  lemma CompareAntisymmetric(a: MoveScore, b: MoveScore)
    ensures Compare(a, b) == -Compare(b, a)
  {
  }

  lemma CompareTransitive(a: MoveScore, b: MoveScore, c: MoveScore)
    requires Compare(a, b) <= 0 && Compare(b, c) <= 0
    ensures Compare(a, c) <= 0
  {
  }

  /** Ordered by the comparator: no later element sorts before an earlier one. */
  ghost predicate SortedByCompare(s: seq<MoveScore>)
  {
    forall i, j :: 0 <= i < j < |s| ==> Compare(s[i], s[j]) <= 0
  }

  /** Insert `m`, which came before every element of `s` in the input, ahead
      of the first element it does not sort after: on equal scores `m` stays
      first, which keeps the sort stable. */
  function Insert(m: MoveScore, s: seq<MoveScore>): (r: seq<MoveScore>)
    ensures multiset(r) == multiset(s) + multiset{m}
  {
    if s == [] || Compare(m, s[0]) <= 0 then [m] + s
    else
      assert s == [s[0]] + s[1..];
      [s[0]] + Insert(m, s[1..])
  }

  /** A head that sorts no later than any element of a sorted tail gives a
      sorted list. */
  lemma SortedCons(a: MoveScore, t: seq<MoveScore>)
    requires SortedByCompare(t)
    requires forall x :: x in t ==> Compare(a, x) <= 0
    ensures SortedByCompare([a] + t)
  {
    var r := [a] + t;
    forall i, j | 0 <= i < j < |r|
      ensures Compare(r[i], r[j]) <= 0
    {
      if i == 0 {
        assert r[j] == t[j - 1];
      } else {
        assert r[i] == t[i - 1] && r[j] == t[j - 1];
      }
    }
  }

  /** Inserting into a sorted list keeps it sorted. */
  lemma {:induction false} InsertSorted(m: MoveScore, s: seq<MoveScore>)
    requires SortedByCompare(s)
    ensures SortedByCompare(Insert(m, s))
  {
    if s == [] || Compare(m, s[0]) <= 0 {
      forall x | x in s
        ensures Compare(m, x) <= 0
      {
        var j :| 0 <= j < |s| && s[j] == x;
      }
      SortedCons(m, s);
    } else {
      var tail := s[1..];
      assert SortedByCompare(tail) by {
        forall i, j | 0 <= i < j < |tail|
          ensures Compare(tail[i], tail[j]) <= 0
        {
          assert tail[i] == s[i + 1] && tail[j] == s[j + 1];
        }
      }
      InsertSorted(m, tail);
      var rest := Insert(m, tail);
      forall x | x in rest
        ensures Compare(s[0], x) <= 0
      {
        assert x in multiset(rest);
        if x != m {
          assert x in multiset(tail);
          var j :| 0 <= j < |tail| && tail[j] == x;
          assert s[j + 1] == x;
        }
      }
      SortedCons(s[0], rest);
    }
  }

  /** The stable sort by descending score: insertion from the back. */
  function SortByScore(s: seq<MoveScore>): (r: seq<MoveScore>)
    ensures multiset(r) == multiset(s)
    ensures SortedByCompare(r)
  {
    if s == [] then []
    else
      assert s == [s[0]] + s[1..];
      var rest := SortByScore(s[1..]);
      InsertSorted(s[0], rest);
      Insert(s[0], rest)
  }

  /** Sorted by the comparator, the scores never increase, so the head
      carries the maximum score. */
  lemma SortedHeadIsMax(s: seq<MoveScore>)
    requires SortedByCompare(s) && |s| > 0
    ensures forall i, j :: 0 <= i < j < |s| ==> s[i].score >= s[j].score
    ensures s[0].score == MaxScore(s)
  {
    assert forall x :: x in s ==> x.score <= s[0].score;
    MaxScoreOf(s, s[0]);
  }

  /** The head of the stable sort is the first maximum of the input: the
      earliest of the best-scoring moves, wherever the shuffle put it. */
  lemma {:induction false} SortHeadIsFirstMax(s: seq<MoveScore>)
    requires |s| > 0
    ensures SortByScore(s)[0] == s[FirstMaxIndex(s)]
  {
    if |s| > 1 {
      var rest := SortByScore(s[1..]);
      SortHeadIsFirstMax(s[1..]);
      var k' := FirstMaxIndex(s[1..]);
      assert rest[0] == s[1 + k'];
      assert SortByScore(s) == Insert(s[0], rest);
    }
  }

  /** `Arrays.sort(a, new MoveScoreComparator())`: the array is rearranged
      into the stable descending order of its contents. */
  method Sort(a: array<MoveScore>)
    modifies a
    ensures a[..] == SortByScore(old(a[..]))
  {
    var sorted := SortByScore(a[..]);
    assert |sorted| == a.Length by {
      assert |multiset(sorted)| == |multiset(a[..])|;
    }
    for i := 0 to a.Length
      invariant forall j :: 0 <= j < i ==> a[j] == sorted[j]
    {
      a[i] := sorted[i];
    }
    assert a[..] == sorted;
  }
}
