/** The ranking rules of the high-score collection: which documents the leaderboard
    query returns, which score becomes `tenth`, and which documents a prune deletes,
    stated over the collection's contents. */
module Ranking {
  import opened Wrappers
  import opened Seqs
  import opened Ints

  /** A stored high-score document. `score` is None when the document has no `score`
      field; such a document is neither ranked (`{score: {$exists: true}}`) nor ever
      deleted (`{score: {$lt: tenth}}` does not match a missing field). */
  datatype Highscore = Highscore(name: string, score: Option<int>)

  /** The query's `limit(10)`. */
  const BOARD_SIZE: nat := 10

  predicate IsScored(h: Highscore) {
    h.score.Some?
  }

  /** The score a document is ranked by (only scored documents are ever ranked). */
  function Key(h: Highscore): int {
    if h.score.Some? then h.score.value else 0
  }

  /** `{score: {$exists: true}}`: the documents that have a score, in store order. */
  function Scored(s: seq<Highscore>): seq<Highscore> {
    Filter(s, IsScored)
  }

  function Keys(s: seq<Highscore>): (k: seq<int>)
    ensures |k| == |s|
  {
    if s == [] then [] else [Key(s[0])] + Keys(s[1..])
  }

  /** The scores of the scored documents, in store order. */
  function ScoreList(s: seq<Highscore>): seq<int> {
    Keys(Scored(s))
  }

  predicate Descending(k: seq<int>) {
    forall i, j :: 0 <= i < j < |k| ==> k[i] >= k[j]
  }

  /** `sort({score: -1})`: highest score first. */
  predicate ByScoreDesc(s: seq<Highscore>) {
    forall i, j :: 0 <= i < j < |s| ==> Key(s[i]) >= Key(s[j])
  }

  /** Places `h` before the first document of lower score. */
  function InsertByScore(h: Highscore, s: seq<Highscore>): (r: seq<Highscore>)
    ensures |r| == |s| + 1
  {
    if s == [] then [h]
    else if Key(h) >= Key(s[0]) then [h] + s
    else [s[0]] + InsertByScore(h, s[1..])
  }

  /** Inserting into a ranking keeps it a ranking; the new first document is the
      inserted one or the old first. */
  lemma {:induction false} InsertByScoreSorted(h: Highscore, s: seq<Highscore>)
    requires ByScoreDesc(s)
    ensures ByScoreDesc(InsertByScore(h, s))
    ensures InsertByScore(h, s)[0] == h || (s != [] && InsertByScore(h, s)[0] == s[0])
  {
    if s != [] && Key(h) < Key(s[0]) {
      var rest := InsertByScore(h, s[1..]);
      InsertByScoreSorted(h, s[1..]);
      var r := [s[0]] + rest;
      assert InsertByScore(h, s) == r;
      forall i, j | 0 <= i < j < |r| ensures Key(r[i]) >= Key(r[j]) {
        if i == 0 {
          assert Key(s[0]) >= Key(rest[0]) >= Key(rest[j - 1]);
        } else {
          assert r[i] == rest[i - 1];
        }
      }
    }
  }

  /** Inserting adds exactly the one document. */
  lemma {:induction false} InsertByScorePermutes(h: Highscore, s: seq<Highscore>)
    ensures multiset(InsertByScore(h, s)) == multiset(s) + multiset{h}
  {
    if s != [] && Key(h) < Key(s[0]) {
      var rest := InsertByScore(h, s[1..]);
      InsertByScorePermutes(h, s[1..]);
      assert InsertByScore(h, s) == [s[0]] + rest;
      assert multiset([s[0]] + rest) == multiset{s[0]} + multiset(rest);
      assert s == [s[0]] + s[1..];
    }
  }

  /** Inserting adds exactly the one score to the scores. */
  lemma {:induction false} InsertByScoreKeys(h: Highscore, s: seq<Highscore>)
    ensures multiset(Keys(InsertByScore(h, s))) == multiset(Keys(s)) + multiset{Key(h)}
  {
    if s != [] {
      assert Keys(s) == [Key(s[0])] + Keys(s[1..]);
      if Key(h) >= Key(s[0]) {
        assert Keys([h] + s) == [Key(h)] + Keys(s);
      } else {
        var rest := InsertByScore(h, s[1..]);
        InsertByScoreKeys(h, s[1..]);
        assert InsertByScore(h, s) == [s[0]] + rest;
        assert Keys([s[0]] + rest) == [Key(s[0])] + Keys(rest);

      }
    }
  }

  /** The ranking order of the store's sort: insertion sort by descending score. Ties
      keep their store order here, while the store itself leaves the order of ties
      unspecified. `tenth` and the prune are stated on scores and do not depend on that
      order; the exact documents `TopTen` returns among ties do. */
  function SortByScore(s: seq<Highscore>): (r: seq<Highscore>)
    ensures |r| == |s|
  {
    if s == [] then [] else InsertByScore(s[0], SortByScore(s[1..]))
  }

  /** The sort ranks highest score first. */
  lemma {:induction false} SortByScoreSorted(s: seq<Highscore>)
    ensures ByScoreDesc(SortByScore(s))
  {
    if s != [] {
      SortByScoreSorted(s[1..]);
      InsertByScoreSorted(s[0], SortByScore(s[1..]));
    }
  }

  /** The sort keeps every document, as often as it occurs. */
  lemma {:induction false} SortByScorePermutes(s: seq<Highscore>)
    ensures multiset(SortByScore(s)) == multiset(s)
  {
    if s != [] {
      SortByScorePermutes(s[1..]);
      InsertByScorePermutes(s[0], SortByScore(s[1..]));
      assert s == [s[0]] + s[1..];
    }
  }

  /** The sort keeps every score, as often as it occurs. */
  lemma {:induction false} SortByScoreKeys(s: seq<Highscore>)
    ensures multiset(Keys(SortByScore(s))) == multiset(Keys(s))
  {
    if s != [] {
      SortByScoreKeys(s[1..]);
      InsertByScoreKeys(s[0], SortByScore(s[1..]));
      assert Keys(s) == [Key(s[0])] + Keys(s[1..]);
    }
  }

  /** `find({score: {$exists: true}}).sort({score: -1}).limit(10)`. */
  function TopTen(s: seq<Highscore>): (r: seq<Highscore>)
    ensures |r| == Min(BOARD_SIZE, |Scored(s)|)
  {
    var ranked := SortByScore(Scored(s));
    ranked[..Min(BOARD_SIZE, |ranked|)]
  }

  /** `result[result.length - 1].score`: the score of the last of the ten best. */
  function Tenth(s: seq<Highscore>): int
    requires Scored(s) != []
  {
    var top := TopTen(s);
    Key(top[|top| - 1])
  }

  /** A document is deleted by `{score: {$lt: tenth}}` exactly when it has a score
      strictly below `tenth`. */
  predicate Survives(h: Highscore, tenth: int) {
    !IsScored(h) || Key(h) >= tenth
  }

  /** The store after `find({score: {$lt: tenth}}).remove()`. */
  function Pruned(s: seq<Highscore>, tenth: int): seq<Highscore> {
    Filter(s, (h: Highscore) => Survives(h, tenth))
  }

  // ---------------------------------------------------------------------------
  // Lemmas about the query and the prune
  // ---------------------------------------------------------------------------

  lemma {:induction false} KeysAt(s: seq<Highscore>, i: int)
    requires 0 <= i < |s|
    ensures Keys(s)[i] == Key(s[i])
  {
    if i > 0 {
      KeysAt(s[1..], i - 1);
    }
  }

  /** A ranking's scores are descending. */
  lemma KeysDescending(s: seq<Highscore>)
    requires ByScoreDesc(s)
    ensures Descending(Keys(s))
  {
    forall i, j | 0 <= i < j < |s| ensures Keys(s)[i] >= Keys(s)[j] {
      KeysAt(s, i);
      KeysAt(s, j);
    }
  }

  lemma PrefixMultiset<T>(s: seq<T>, m: nat)
    requires m <= |s|
    ensures multiset(s[..m]) + multiset(s[m..]) == multiset(s)
  {
    assert s == s[..m] + s[m..];
  }

  /** The ten best, in order, followed by the rest, are the whole ranking. */
  lemma TopTenIsPrefix(s: seq<Highscore>)
    ensures var ranked := SortByScore(Scored(s));
            && ByScoreDesc(ranked)
            && multiset(ranked) == multiset(Scored(s))
            && TopTen(s) == ranked[..|TopTen(s)|]
            && |TopTen(s)| == Min(BOARD_SIZE, |Scored(s)|)
  {
    SortByScoreSorted(Scored(s));
    SortByScorePermutes(Scored(s));
  }

  /** The ten best are scored documents of the store, highest score first, as many as
      there are up to ten. */
  lemma TopTenRanked(s: seq<Highscore>)
    ensures |TopTen(s)| == Min(BOARD_SIZE, |Scored(s)|)
    ensures ByScoreDesc(TopTen(s))
    ensures forall h :: h in TopTen(s) ==> IsScored(h)
    ensures multiset(TopTen(s)) <= multiset(s)
  {
    TopTenIsPrefix(s);
    var ranked := SortByScore(Scored(s));
    var m := |TopTen(s)|;
    PrefixMultiset(ranked, m);
    forall h | h in TopTen(s) ensures IsScored(h) {
      assert h in multiset(ranked);
    }
    assert multiset(Scored(s)) <= multiset(s);
  }

  /** Every scored document the ten best leave out scores no higher than the last of
      them. */
  lemma TopTenIsBest(s: seq<Highscore>)
    ensures TopTen(s) != [] ==>
              forall h :: h in multiset(Scored(s)) - multiset(TopTen(s)) ==>
                Key(h) <= Key(TopTen(s)[|TopTen(s)| - 1])
  {
    TopTenIsPrefix(s);
    var ranked := SortByScore(Scored(s));
    var top := TopTen(s);
    var m := |top|;
    PrefixMultiset(ranked, m);
    if top != [] {
      forall h | h in multiset(Scored(s)) - multiset(top) ensures Key(h) <= Key(top[m - 1]) {
        assert h in multiset(ranked[m..]);
        var i :| 0 <= i < |ranked[m..]| && ranked[m..][i] == h;
        assert ranked[m + i] == h && ranked[m - 1] == top[m - 1];
      }
    }
  }

  /** Pruning never deletes one of the ten best: they all score at least `tenth`. */
  lemma PruneKeepsTopTen(s: seq<Highscore>)
    requires Scored(s) != []
    ensures multiset(TopTen(s)) <= multiset(Pruned(s, Tenth(s)))
  {
    TopTenRanked(s);
    var top, tenth := TopTen(s), Tenth(s);
    forall h | h in top ensures Survives(h, tenth) {
      var i :| 0 <= i < |top| && top[i] == h;
    }
    forall h ensures multiset(top)[h] <= multiset(Pruned(s, tenth))[h] {
      if h in top {
        assert Survives(h, tenth);
      }
    }
  }

  /** With at most ten scored documents, the ten best are all of them, so `tenth` is the
      lowest score in the store. */
  lemma TenthIsLowestWhenFew(s: seq<Highscore>)
    requires Scored(s) != [] && |Scored(s)| <= BOARD_SIZE
    ensures forall h :: h in s && IsScored(h) ==> Key(h) >= Tenth(s)
  {
    TopTenIsPrefix(s);
    var ranked := SortByScore(Scored(s));
    assert TopTen(s) == ranked;
    forall h | h in s && IsScored(h) ensures Key(h) >= Tenth(s) {
      assert h in multiset(ranked);
      var i :| 0 <= i < |ranked| && ranked[i] == h;
    }
  }

  /** With at most ten scored documents, the prune deletes nothing. */
  lemma PruneKeepsAllWhenFew(s: seq<Highscore>)
    requires Scored(s) != []
    ensures |Scored(s)| <= BOARD_SIZE ==> Pruned(s, Tenth(s)) == s
  {
    if |Scored(s)| <= BOARD_SIZE {
      var tenth := Tenth(s);
      TenthIsLowestWhenFew(s);
      FilterKeepsAll(s, (h: Highscore) => Survives(h, tenth));
    }
  }

  /** Two non-empty descending score lists with the same scores start with the same
      score, the highest. */
  lemma DescendingSameHead(a: seq<int>, b: seq<int>)
    requires Descending(a) && Descending(b)
    requires multiset(a) == multiset(b) && a != []
    ensures b != [] && a[0] == b[0]
  {
    assert a[0] in multiset(b);
    var i :| 0 <= i < |b| && b[i] == a[0];
    assert b[0] in multiset(a);
    var j :| 0 <= j < |a| && a[j] == b[0];
  }

  lemma DropHeadMultiset(a: seq<int>)
    requires a != []
    ensures multiset(a[1..]) == multiset(a) - multiset{a[0]}
  {
    assert a == [a[0]] + a[1..];
    assert multiset(a) == multiset{a[0]} + multiset(a[1..]);
  }

  /** Two descending score lists with the same scores are the same list. */
  lemma {:induction false} DescendingUnique(a: seq<int>, b: seq<int>)
    requires Descending(a) && Descending(b)
    requires multiset(a) == multiset(b)
    ensures a == b
  {
    if a == [] {
      assert |b| == |multiset(b)| == 0;
    } else {
      DescendingSameHead(a, b);
      DropHeadMultiset(a);
      DropHeadMultiset(b);
      assert Descending(a[1..]) && Descending(b[1..]);
      DescendingUnique(a[1..], b[1..]);
      assert a == [a[0]] + a[1..] && b == [b[0]] + b[1..];
    }
  }

  /** The scores in ranking order: a descending list holding exactly the store's scores,
      whose first entries are the scores of the ten best. */
  lemma RankedScores(s: seq<Highscore>)
    ensures var k := Keys(SortByScore(Scored(s)));
            && Descending(k)
            && multiset(k) == multiset(ScoreList(s))
            && (Scored(s) != [] ==> Tenth(s) == k[Min(BOARD_SIZE, |Scored(s)|) - 1])
  {
    var ranked := SortByScore(Scored(s));
    SortByScoreSorted(Scored(s));
    SortByScoreKeys(Scored(s));
    KeysDescending(ranked);
    if Scored(s) != [] {
      KeysAt(ranked, Min(BOARD_SIZE, |Scored(s)|) - 1);
    }
  }

  /** `tenth` depends only on the scores in the store, not on which documents carry
      them nor on how the sort orders ties. */
  lemma TenthDependsOnlyOnScores(s1: seq<Highscore>, s2: seq<Highscore>)
    requires Scored(s1) != []
    requires multiset(ScoreList(s1)) == multiset(ScoreList(s2))
    ensures Scored(s2) != []
    ensures Tenth(s1) == Tenth(s2)
  {
    RankedScores(s1);
    RankedScores(s2);
    var k1, k2 := Keys(SortByScore(Scored(s1))), Keys(SortByScore(Scored(s2)));
    DescendingUnique(k1, k2);
    assert |Scored(s2)| == |k2| == |k1| == |Scored(s1)|;
  }

  // ---------------------------------------------------------------------------
  // A prune is stable: it keeps `tenth`, and pruning again deletes nothing
  // ---------------------------------------------------------------------------

  /** The test a score passes when it is not strictly below `t`. */
  function AtLeast(t: int): int -> bool {
    (k: int) => k >= t
  }

  lemma FilterCons<T(!new)>(x: T, s: seq<T>, keep: T -> bool)
    ensures Filter([x] + s, keep) == if keep(x) then [x] + Filter(s, keep) else Filter(s, keep)
  {
    assert ([x] + s)[1..] == s;
  }

  lemma KeysCons(x: Highscore, s: seq<Highscore>)
    ensures Keys([x] + s) == [Key(x)] + Keys(s)
  {
    assert ([x] + s)[1..] == s;
  }

  /** The scores left after a prune are the store's scores that are at least `t`, in
      store order. */
  lemma {:induction false} PrunedScores(s: seq<Highscore>, t: int)
    ensures ScoreList(Pruned(s, t)) == Filter(ScoreList(s), AtLeast(t))
  {
    if s != [] {
      var x, rest := s[0], s[1..];
      assert s == [x] + rest;
      PrunedScores(rest, t);
      var survive := (h: Highscore) => Survives(h, t);
      FilterCons(x, rest, survive);
      FilterCons(x, rest, IsScored);
      if IsScored(x) {
        KeysCons(x, Scored(rest));
        FilterCons(Key(x), ScoreList(rest), AtLeast(t));
        if Survives(x, t) {
          FilterCons(x, Pruned(rest, t), IsScored);
          KeysCons(x, Scored(Pruned(rest, t)));
        }
      } else {
        FilterCons(x, Pruned(rest, t), IsScored);
      }
    }
  }

  /** The number of scores at least `t` at the head of `k`. */
  function RunAtLeast(k: seq<int>, t: int): (c: nat)
    ensures c <= |k|
    ensures forall i :: 0 <= i < c ==> k[i] >= t
  {
    if k == [] || k[0] < t then 0 else 1 + RunAtLeast(k[1..], t)
  }

  lemma DescendingTail(k: seq<int>)
    requires Descending(k) && k != []
    ensures Descending(k[1..])
    ensures forall i :: 0 <= i < |k| ==> k[i] <= k[0]
  {
  }

  /** In a descending list the scores at least `t` all come first: every score after
      that run is below `t`. */
  lemma {:induction false} DescendingRun(k: seq<int>, t: int)
    requires Descending(k)
    ensures forall i :: RunAtLeast(k, t) <= i < |k| ==> k[i] < t
  {
    if k != [] {
      DescendingTail(k);
      if k[0] >= t {
        DescendingRun(k[1..], t);
        forall i | RunAtLeast(k, t) <= i < |k| ensures k[i] < t {
          assert k[i] == k[1..][i - 1];
        }
      }
    }
  }

  /** A list split into a head of scores at least `t` and a tail of scores below it:
      the head holds exactly the scores at least `t`. */
  lemma SplitAtLeast(k: seq<int>, t: int, c: nat)
    requires c <= |k|
    requires forall i :: 0 <= i < c ==> k[i] >= t
    requires forall i :: c <= i < |k| ==> k[i] < t
    ensures forall x :: multiset(k[..c])[x] == if x >= t then multiset(k)[x] else 0
  {
    assert k == k[..c] + k[c..];
    forall x ensures multiset(k[..c])[x] == if x >= t then multiset(k)[x] else 0 {
      if x >= t {
        assert x !in k[c..];
      } else {
        assert x !in k[..c];
      }
    }
  }

  /** A descending list holding exactly the scores at least `t` of another descending
      list is that list's head run. */
  lemma DescendingAtLeast(k: seq<int>, kp: seq<int>, t: int)
    requires Descending(k) && Descending(kp)
    requires forall x :: multiset(kp)[x] == if x >= t then multiset(k)[x] else 0
    ensures kp == k[..RunAtLeast(k, t)]
  {
    var c := RunAtLeast(k, t);
    DescendingRun(k, t);
    SplitAtLeast(k, t, c);
    assert multiset(kp) == multiset(k[..c]);
    DescendingUnique(kp, k[..c]);
  }

  /** After a prune, the ranked scores are the head run of the ranked scores before it
      that are at least `tenth`. */
  lemma PrunedRanking(s: seq<Highscore>, t: int)
    ensures var k := Keys(SortByScore(Scored(s)));
            Keys(SortByScore(Scored(Pruned(s, t)))) == k[..RunAtLeast(k, t)]
  {
    var k := Keys(SortByScore(Scored(s)));
    var kp := Keys(SortByScore(Scored(Pruned(s, t))));
    RankedScores(s);
    RankedScores(Pruned(s, t));
    PrunedScores(s, t);
    DescendingAtLeast(k, kp, t);
  }

  /** The `tenth` of a ranking is still the last score of the board when the ranking is
      cut down to its head run of scores at least `tenth`. */
  lemma TenthOfRun(k: seq<int>)
    requires Descending(k) && k != []
    ensures var t := k[Min(BOARD_SIZE, |k|) - 1];
            var c := RunAtLeast(k, t);
            Min(BOARD_SIZE, |k|) <= c && k[..c][Min(BOARD_SIZE, c) - 1] == t
  {
    var m := Min(BOARD_SIZE, |k|);
    var t := k[m - 1];
    DescendingRun(k, t);
  }

  /** The part of `RankedScores` about positions only: the ranked scores descend, one
      per scored document, and `tenth` sits at the board's last position. */
  lemma RankedTenth(s: seq<Highscore>)
    ensures var k := Keys(SortByScore(Scored(s)));
            && Descending(k) && |k| == |Scored(s)|
            && (k != [] ==> Scored(s) != [] && Tenth(s) == k[Min(BOARD_SIZE, |k|) - 1])
  {
    RankedScores(s);
  }

  /** A store whose ranked scores are the head run, at least `tenth`, of another store's
      ranked scores has the same `tenth`. */
  lemma SameTenthAfterRun(s: seq<Highscore>, p: seq<Highscore>)
    requires Scored(s) != []
    requires var k := Keys(SortByScore(Scored(s)));
             Keys(SortByScore(Scored(p))) == k[..RunAtLeast(k, Tenth(s))]
    ensures Scored(p) != [] && Tenth(p) == Tenth(s)
  {
    var t := Tenth(s);
    var k := Keys(SortByScore(Scored(s)));
    RankedTenth(s);
    TenthOfRun(k);
    RankedTenth(p);
  }

  /** After a prune, the store still has a scored document and its `tenth` is the same:
      the scores at least `tenth` are a head run of the ranking at least as long as the
      board, so the board's last score does not move. */
  lemma PruneKeepsTenth(s: seq<Highscore>)
    requires Scored(s) != []
    ensures Scored(Pruned(s, Tenth(s))) != []
    ensures Tenth(Pruned(s, Tenth(s))) == Tenth(s)
  {
    PrunedRanking(s, Tenth(s));
    SameTenthAfterRun(s, Pruned(s, Tenth(s)));
  }

  /** A prune is idempotent: pruning the pruned store again deletes nothing. */
  lemma PruneIsIdempotent(s: seq<Highscore>)
    requires Scored(s) != []
    ensures var p := Pruned(s, Tenth(s));
            Scored(p) != [] && Pruned(p, Tenth(p)) == p
  {
    var t := Tenth(s);
    var p := Pruned(s, t);
    PruneKeepsTenth(s);
    FilterKeepsAll(p, (h: Highscore) => Survives(h, t));
  }
  /** A prune can leave more than ten scored documents: when the eleventh score in
      ranking order ties with the tenth, the prune deletes neither of them. */
  lemma PruneKeepsTiesPastTen(s: seq<Highscore>)
    requires var k := Keys(SortByScore(Scored(s)));
             |k| > BOARD_SIZE && k[BOARD_SIZE] == k[BOARD_SIZE - 1]
    ensures |Scored(Pruned(s, Tenth(s)))| > BOARD_SIZE
  {
    var t := Tenth(s);
    var k := Keys(SortByScore(Scored(s)));
    RankedTenth(s);
    DescendingRun(k, t);
    PrunedRanking(s, t);
    RankedTenth(Pruned(s, t));
  }

  /** Everything a prune guarantees, about the store `s` before it. */
  lemma PruneSpec(s: seq<Highscore>)
    requires Scored(s) != []
    ensures var t := Tenth(s);
            var p := Pruned(s, t);
            && (forall h :: h in p && IsScored(h) ==> Key(h) >= t)
            && (forall h :: h in s && Survives(h, t) ==> multiset(p)[h] == multiset(s)[h])
            && multiset(TopTen(s)) <= multiset(p)
            && (|Scored(s)| <= BOARD_SIZE ==> p == s)
            && Scored(p) != [] && Tenth(p) == t && Pruned(p, t) == p
  {
    PruneKeepsTopTen(s);
    PruneKeepsAllWhenFew(s);
    PruneKeepsTenth(s);
    PruneIsIdempotent(s);
  }

}

/** The high-score collection behind `GET /leaderboard` and `POST /leaderboard`.

    The query answers the scored documents, highest score first, at most ten of them, or
    the "no high scores yet" response when there are none. A post saves the new document,
    takes the ten best again, calls the score of the last of them `tenth`, and deletes
    every document whose score is strictly below `tenth`. */
module Leaderboard {
  import opened Ints
  import opened Ranking

  /** What `GET /leaderboard` answers. */
  datatype Board = NoHighScoresYet | TopScores(top: seq<Highscore>)

  /** The stored high scores, in insertion order. */
  class Store {
    var records: seq<Highscore>

    constructor ()
      ensures records == []
    {
      records := [];
    }

    /** `new Highscore(obj).save()`. */
    method Insert(h: Highscore)
      modifies this
      ensures records == old(records) + [h]
    {
      records := records + [h];
    }

    /** The ten best: scored documents only, highest score first, as many as there are
        up to ten, taken from the store, and no document left out scores higher than the
        last one taken. */
    method Top10() returns (top: seq<Highscore>)
      ensures top == TopTen(records)
      ensures |top| == Min(BOARD_SIZE, |Scored(records)|)
      ensures ByScoreDesc(top)
      ensures forall h :: h in top ==> IsScored(h)
      ensures multiset(top) <= multiset(records)
      ensures top != [] ==>
                forall h :: h in multiset(Scored(records)) - multiset(top) ==> Key(h) <= Key(top[|top| - 1])
    {
      top := TopTen(records);
      TopTenRanked(records);
      TopTenIsBest(records);
    }

    /** `GET /leaderboard`. */
    method Query() returns (r: Board)
      ensures r.NoHighScoresYet? <==> forall h :: h in records ==> !IsScored(h)
      ensures r.TopScores? ==>
                && r.top == TopTen(records) && 0 < |r.top| <= BOARD_SIZE
                && |r.top| == Min(BOARD_SIZE, |Scored(records)|)
                && multiset(r.top) <= multiset(records)
                && ByScoreDesc(r.top) && (forall h :: h in r.top ==> IsScored(h))
    {
      var top := Top10();
      if |top| > 0 {
        r := TopScores(top);
      } else {
        r := NoHighScoresYet;
      }
    }

    /** The pruning half of `POST /leaderboard`. The store must hold a scored document,
        or `result[result.length - 1]` is undefined and reading its score throws. */
    method Prune() returns (tenth: int)
      requires Scored(records) != []
      modifies this
      ensures tenth == Tenth(old(records))
      ensures records == Pruned(old(records), tenth)
      ensures forall h :: h in records && IsScored(h) ==> Key(h) >= tenth
      ensures forall h :: h in old(records) && (!IsScored(h) || Key(h) >= tenth) ==>
                multiset(records)[h] == multiset(old(records))[h]
      ensures multiset(TopTen(old(records))) <= multiset(records)
      ensures |Scored(old(records))| <= BOARD_SIZE ==> records == old(records)
      ensures Scored(records) != [] && Tenth(records) == tenth
      ensures Pruned(records, tenth) == records
    {
      var top := Top10();
      tenth := Key(top[|top| - 1]);
      assert tenth == Tenth(records);
      PruneSpec(records);
      records := Pruned(records, tenth);
    }

    /** `POST /leaderboard`: save, then prune. The new document itself is deleted again
        when it has a score below the resulting `tenth`. */
    method Post(h: Highscore) returns (tenth: int)
      requires IsScored(h) || Scored(records) != []
      modifies this
      ensures tenth == Tenth(old(records) + [h])
      ensures records == Pruned(old(records) + [h], tenth)
      ensures h in records <==> Survives(h, tenth)
      ensures forall x :: x in records && IsScored(x) ==> Key(x) >= tenth
      ensures multiset(TopTen(old(records) + [h])) <= multiset(records)
      ensures Scored(records) != [] && Tenth(records) == tenth
    {
      Insert(h);
      assert h in records;
      tenth := Prune();
    }
  }
}
