/** The ranking of the score table: Python's `sorted(..., key=score,
    reverse=True)`, a stable sort from the highest score down in which jobs
    with equal scores keep their catalog order. */
module Ranking {
  import opened Skills

  /** Inserts `x` in front of the first entry whose score does not exceed
      its own, so that it lands after every higher score and before every
      equal one. */
  function Insert(x: Scored, t: seq<Scored>): seq<Scored>
  {
    if t == [] then [x]
    else if x.score >= t[0].score then [x] + t
    else [t[0]] + Insert(x, t[1..])
  }

  /** The ranking: each entry is inserted into the ranking of the entries
      that follow it, so an entry ends up ahead of every later entry with
      the same score. */
  function Rank(s: seq<Scored>): seq<Scored>
  {
    if s == [] then [] else Insert(s[0], Rank(s[1..]))
  }

  /** Scores do not increase from left to right. */
  predicate SortedDesc(s: seq<Scored>) {
    forall i, j :: 0 <= i < j < |s| ==> s[i].score >= s[j].score
  }

  /** The entries of `s` whose score is `v`, in the order of `s`. */
  function WithScore(s: seq<Scored>, v: real): seq<Scored>
  {
    if s == [] then []
    else (if s[0].score == v then [s[0]] else []) + WithScore(s[1..], v)
  }

  lemma {:induction false} InsertPermutes(x: Scored, t: seq<Scored>)
    ensures multiset(Insert(x, t)) == multiset(t) + multiset{x}
  {
    if t != [] && x.score < t[0].score {
      InsertPermutes(x, t[1..]);
      assert t == [t[0]] + t[1..];
    }
  }

  lemma {:induction false} InsertSorted(x: Scored, t: seq<Scored>)
    requires SortedDesc(t)
    ensures SortedDesc(Insert(x, t))
  {
    if t != [] && x.score < t[0].score {
      var rest := Insert(x, t[1..]);
      InsertSorted(x, t[1..]);
      InsertPermutes(x, t[1..]);
      forall k | 0 <= k < |rest|
        ensures t[0].score >= rest[k].score
      {
        assert rest[k] in multiset(rest);
        if rest[k] != x {
          assert rest[k] in multiset(t[1..]);
          var j :| 0 <= j < |t[1..]| && t[1..][j] == rest[k];
          assert t[j + 1] == rest[k];
        }
      }
    }
  }

  /** Inserting `x` puts it ahead of every entry that already had its score,
      and leaves the entries of every other score as they were. */
  lemma {:induction false} InsertWithScore(x: Scored, t: seq<Scored>, v: real)
    ensures WithScore(Insert(x, t), v)
      == (if x.score == v then [x] else []) + WithScore(t, v)
  {
    var here := if x.score == v then [x] else [];
    if t == [] {
      assert Insert(x, t) == [x];
      assert WithScore([x], v) == here + WithScore([x][1..], v);
    } else if x.score >= t[0].score {
      var r := [x] + t;
      assert Insert(x, t) == r;
      assert r[1..] == t;
      assert WithScore(r, v) == here + WithScore(r[1..], v);
    } else {
      var head := if t[0].score == v then [t[0]] else [];
      var rest := Insert(x, t[1..]);
      var r := [t[0]] + rest;
      assert Insert(x, t) == r;
      assert r[1..] == rest;
      InsertWithScore(x, t[1..], v);
      assert WithScore(r, v) == head + WithScore(rest, v);
      assert WithScore(t, v) == head + WithScore(t[1..], v);
      // x's score is below t[0]'s, so at most one of them has score v.
      assert head == [] || here == [];
    }
  }

  /** The ranking is a permutation of the score table. */
  lemma {:induction false} RankPermutes(s: seq<Scored>)
    ensures multiset(Rank(s)) == multiset(s)
    ensures |Rank(s)| == |s|
  {
    if s != [] {
      RankPermutes(s[1..]);
      InsertPermutes(s[0], Rank(s[1..]));
      assert s == [s[0]] + s[1..];
    }
  }

  /** The ranking runs from the highest score down. */
  lemma {:induction false} RankSorted(s: seq<Scored>)
    ensures SortedDesc(Rank(s))
  {
    if s != [] {
      RankSorted(s[1..]);
      InsertSorted(s[0], Rank(s[1..]));
    }
  }

  /** The sort is stable: for every score, the jobs with that score appear
      in the ranking in the same order as in the table. Together with
      RankPermutes and RankSorted this fixes the ranking completely. */
  lemma {:induction false} RankStable(s: seq<Scored>, v: real)
    ensures WithScore(Rank(s), v) == WithScore(s, v)
  {
    if s != [] {
      RankStable(s[1..], v);
      InsertWithScore(s[0], Rank(s[1..]), v);
    }
  }

  /** The first ranked job has the highest score of the table. */
  lemma RankHeadIsMax(s: seq<Scored>)
    requires s != []
    ensures Rank(s) != []
    ensures forall i :: 0 <= i < |s| ==> Rank(s)[0].score >= s[i].score
    ensures exists i :: 0 <= i < |s| && Rank(s)[0] == s[i]
  {
    RankPermutes(s);
    RankSorted(s);
    var r := Rank(s);
    forall i | 0 <= i < |s|
      ensures r[0].score >= s[i].score
    {
      assert s[i] in multiset(r);
      var j :| 0 <= j < |r| && r[j] == s[i];
    }
    assert r[0] in multiset(s);
  }

  /** When every job has the same score, the ranking is the table itself. */
  lemma {:induction false} RankEqualScores(s: seq<Scored>, v: real)
    requires forall i :: 0 <= i < |s| ==> s[i].score == v
    ensures Rank(s) == s
  {
    if s != [] {
      RankEqualScores(s[1..], v);
      assert Rank(s[1..]) == s[1..];
      assert s == [s[0]] + s[1..];
    }
  }
}
