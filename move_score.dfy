/** Scored moves, the value every engine query and every bot returns. */
module MoveScores {

  /** A board position with a strategy-dependent score: the raw flip count
      for the engine and the greedy bot, a net advantage for look-ahead bots. */
  datatype MoveScore = MoveScore(row: int, col: int, score: int)

  /** A bot's answer: `None` is the source's `null`, "no legal move". */
  datatype Option<T> = None | Some(value: T)

  /** The largest score of a non-empty list of moves. */
  function MaxScore(s: seq<MoveScore>): (r: int)
    requires |s| > 0
    ensures forall j :: 0 <= j < |s| ==> s[j].score <= r
    ensures exists j :: 0 <= j < |s| && s[j].score == r
  {
    if |s| == 1 then s[0].score
    else
      var m := MaxScore(s[1..]);
      assert forall j :: 1 <= j < |s| ==> s[j] == s[1..][j - 1];
      if s[0].score >= m then s[0].score else m
  }

  /** `k` is the first position of a maximum score in `s`: every move scores
      at most `s[k]`, and every move before it scores strictly less. */
  ghost predicate IsFirstMax(s: seq<MoveScore>, k: int)
  {
    && 0 <= k < |s|
    && (forall j :: 0 <= j < |s| ==> s[j].score <= s[k].score)
    && (forall j :: 0 <= j < k ==> s[j].score < s[k].score)
  }

  /** The first maximum of a list is unique and carries the maximum score. */
  lemma FirstMaxIsMax(s: seq<MoveScore>, k: int)
    requires IsFirstMax(s, k)
    ensures s[k].score == MaxScore(s)
    ensures forall k' :: IsFirstMax(s, k') ==> k' == k
  {
    var j :| 0 <= j < |s| && s[j].score == MaxScore(s);
    assert s[j].score <= s[k].score;
  }

  /** The first position of a maximum score: what a left-to-right scan that
      replaces its best only on a strictly larger score ends with. */
  function FirstMaxIndex(s: seq<MoveScore>): (k: nat)
    requires |s| > 0
    ensures IsFirstMax(s, k)
  {
    if |s| == 1 then 0
    else
      var k := FirstMaxIndex(s[1..]);
      assert forall j :: 1 <= j < |s| ==> s[j] == s[1..][j - 1];
      if s[0].score >= s[1 + k].score then 0 else 1 + k
  }

  /** A score that bounds every move and is attained is the maximum. */
  lemma MaxScoreOf(s: seq<MoveScore>, m: MoveScore)
    requires m in s && forall x :: x in s ==> x.score <= m.score
    ensures |s| > 0 && m.score == MaxScore(s)
  {
    var j :| 0 <= j < |s| && s[j].score == MaxScore(s);
  }

  /** The maximum is the score of a member. */
  lemma MaxScoreAttained(s: seq<MoveScore>)
    requires |s| > 0
    ensures exists m :: m in s && m.score == MaxScore(s)
  {
    var j :| 0 <= j < |s| && s[j].score == MaxScore(s);
    assert s[j] in s;
  }

  /** A prefix one element longer is the prefix with that element appended. */
  lemma PrefixSnoc(s: seq<MoveScore>, i: int)
    requires 0 <= i < |s|
    ensures s[..i + 1] == s[..i] + [s[i]]
  {
  }
}
