/** The leaderboard's integer logic: a stable sort by descending score, the
    1-based rank lookup, the typing-speed figure and the "Total Passed" sum.
    The same sort picks the winner when a battle runs out of time. */
module ScoreBoard {
  import opened Common

  /** Non-increasing by score, the order the comparator `b.score - a.score` asks for. */
  predicate SortedByScore(ps: seq<Player>) {
    forall i, j :: 0 <= i < j < |ps| ==> ps[i].score >= ps[j].score
  }

  /** The players of `ps` whose score is `v`, in their order in `ps`. A sort is
      stable exactly when it keeps each of these subsequences as it was. */
  function WithScore(ps: seq<Player>, v: int): seq<Player> {
    if ps == [] then []
    else (if ps[0].score == v then [ps[0]] else []) + WithScore(ps[1..], v)
  }

  /** No two entries share an id (true of `Object.values` of a record keyed by id). */
  predicate DistinctIds(ps: seq<Player>) {
    forall i, j :: 0 <= i < j < |ps| ==> ps[i].id != ps[j].id
  }

  /** Places `p` in front of the first entry whose score does not exceed its own. */
  function Insert(p: Player, s: seq<Player>): (r: seq<Player>)
    ensures multiset(r) == multiset(s) + multiset{p}
    ensures |r| == |s| + 1
    ensures r[0] == p || (s != [] && r[0] == s[0])
  {
    if s == [] || s[0].score <= p.score then [p] + s
    else
      assert s == [s[0]] + s[1..];
      [s[0]] + Insert(p, s[1..])
  }

  lemma {:induction false} InsertSorted(p: Player, s: seq<Player>)
    requires SortedByScore(s)
    ensures SortedByScore(Insert(p, s))
  {
    if s == [] || s[0].score <= p.score {
    } else {
      InsertSorted(p, s[1..]);
      var r := Insert(p, s[1..]);
      var q := [s[0]] + r;
      assert r[0].score <= s[0].score;
      forall i, j | 0 <= i < j < |q| ensures q[i].score >= q[j].score {
        assert q[j] == r[j - 1];
        if i > 0 {
          assert q[i] == r[i - 1];
        }
      }
    }
  }

  lemma MultisetCons(ps: seq<Player>)
    requires ps != []
    ensures multiset(ps) == multiset{ps[0]} + multiset(ps[1..])
  {
    assert ps == [ps[0]] + ps[1..];
  }

  /** The ranking order: `[...players].sort((a, b) => b.score - a.score)`,
      which sorts a copy and is stable. */
  function SortByScore(ps: seq<Player>): (r: seq<Player>)
    ensures multiset(r) == multiset(ps)
    ensures |r| == |ps|
    ensures SortedByScore(r)
  {
    if ps == [] then []
    else
      var tail := SortByScore(ps[1..]);
      InsertSorted(ps[0], tail);
      MultisetCons(ps);
      Insert(ps[0], tail)
  }

  lemma WithScoreCons(x: Player, s: seq<Player>, v: int)
    ensures WithScore([x] + s, v) == (if x.score == v then [x] else []) + WithScore(s, v)
  {
    assert ([x] + s)[1..] == s;
  }

  lemma {:induction false} InsertWithScore(p: Player, s: seq<Player>, v: int)
    ensures WithScore(Insert(p, s), v)
         == (if p.score == v then [p] else []) + WithScore(s, v)
  {
    if s == [] || s[0].score <= p.score {
      WithScoreCons(p, s, v);
    } else {
      var r := Insert(p, s[1..]);
      assert Insert(p, s) == [s[0]] + r;
      assert s == [s[0]] + s[1..];
      WithScoreCons(s[0], r, v);
      WithScoreCons(s[0], s[1..], v);
      InsertWithScore(p, s[1..], v);
      // s[0] outranks p, so at most one of them has score v
      if p.score == v {
        assert s[0].score != v;
      } else {
        assert (if p.score == v then [p] else []) == [];
      }
    }
  }

  /** Equal scores keep their input order: the sort is stable. */
  lemma {:induction false} SortKeepsTies(ps: seq<Player>, v: int)
    ensures WithScore(SortByScore(ps), v) == WithScore(ps, v)
  {
    if ps != [] {
      SortKeepsTies(ps[1..], v);
      InsertWithScore(ps[0], SortByScore(ps[1..]), v);
    }
  }

  /** `i` is the first position holding a maximal score. */
  predicate IsFirstTop(ps: seq<Player>, i: int) {
    && 0 <= i < |ps|
    && (forall j :: 0 <= j < |ps| ==> ps[j].score <= ps[i].score)
    && (forall j :: 0 <= j < i ==> ps[j].score < ps[i].score)
  }

  /** The head of the sorted list is the first player, in input order, whose
      score is maximal: ties go to the earlier entry. */
  lemma {:induction false} SortHeadIsFirstTop(ps: seq<Player>, i: int)
    requires IsFirstTop(ps, i)
    ensures SortByScore(ps)[0] == ps[i]
  {
    var tail := ps[1..];
    var t := SortByScore(tail);
    assert SortByScore(ps) == Insert(ps[0], t);
    if tail == [] {
      assert i == 0;
    } else {
      var k := FirstTopOf(tail);
      assert t[0] == ps[k + 1] by {
        SortHeadIsFirstTop(tail, k);
      }
      assert Insert(ps[0], t)[0] == if t[0].score <= ps[0].score then ps[0] else t[0];
      if i == 0 {
        assert ps[k + 1].score <= ps[0].score;
      } else {
        assert k == i - 1 by {
          TailFirstTop(ps, i);
          FirstTopUnique(tail, k, i - 1);
        }
      }
    }
  }

  /** A first top after the head of the list is the first top of the tail. */
  lemma TailFirstTop(ps: seq<Player>, i: int)
    requires IsFirstTop(ps, i) && i > 0
    ensures IsFirstTop(ps[1..], i - 1)
  {
    var tail := ps[1..];
    forall j | 0 <= j < i - 1 ensures tail[j].score < tail[i - 1].score {
      assert tail[j] == ps[j + 1];
    }
    forall j | 0 <= j < |tail| ensures tail[j].score <= tail[i - 1].score {
      assert tail[j] == ps[j + 1];
    }
  }

  /** Some position is the first top of a non-empty list. */
  function FirstTopOf(ps: seq<Player>): (i: int)
    requires ps != []
    ensures IsFirstTop(ps, i)
  {
    if |ps| == 1 then 0
    else
      var k := FirstTopOf(ps[1..]);
      assert forall j :: 1 <= j < |ps| ==> ps[j] == ps[1..][j - 1];
      if ps[0].score >= ps[k + 1].score then 0 else k + 1
  }

  lemma FirstTopUnique(ps: seq<Player>, i: int, j: int)
    requires IsFirstTop(ps, i) && IsFirstTop(ps, j)
    ensures i == j
  {
    // mentioning both entries lets the two "first top" facts meet
    var si, sj := ps[i].score, ps[j].score;
  }

  /** `findIndex(p => p.id === id)`: the first position holding `id`, or -1. */
  function FindIndex(ps: seq<Player>, id: string): (r: int)
    ensures -1 <= r < |ps|
    ensures r >= 0 ==> ps[r].id == id
    ensures forall j :: 0 <= j < |ps| && (r == -1 || j < r) ==> ps[j].id != id
  {
    if ps == [] then -1
    else if ps[0].id == id then 0
    else
      var k := FindIndex(ps[1..], id);
      assert forall j :: 1 <= j < |ps| ==> ps[j] == ps[1..][j - 1];
      if k == -1 then -1 else k + 1
  }

  /** `getPlayerRank`: the 1-based position of `id` in the ranking, and 0 when
      no player has that id. */
  function Rank(players: seq<Player>, id: string): (r: int)
    ensures 0 <= r <= |players|
    ensures r == 0 <==> Lacks(players, id)
    ensures r > 0 ==> SortByScore(players)[r - 1].id == id
  {
    var sorted := SortByScore(players);
    AbsentFromSorted(players, id);
    FindIndex(sorted, id) + 1
  }

  /** No player in `ps` has the id `id`. */
  predicate Lacks(ps: seq<Player>, id: string)
  {
    forall j :: 0 <= j < |ps| ==> ps[j].id != id
  }

  /** An id is missing from the ranking exactly when it is missing from the players. */
  lemma AbsentFromSorted(ps: seq<Player>, id: string)
    ensures Lacks(ps, id) <==> Lacks(SortByScore(ps), id)
  {
    var t := SortByScore(ps);
    AbsentKept(ps, t, id);
    AbsentKept(t, ps, id);
  }

  /** An id absent from one list is absent from any permutation of it. */
  lemma AbsentKept(ps: seq<Player>, qs: seq<Player>, id: string)
    requires multiset(ps) == multiset(qs)
    ensures Lacks(ps, id) ==> Lacks(qs, id)
  {
    if Lacks(ps, id) {
      forall j | 0 <= j < |qs| ensures qs[j].id != id {
        assert qs[j] in multiset(qs);
        assert qs[j] in multiset(ps);
        var m :| 0 <= m < |ps| && ps[m] == qs[j];
      }
    }
  }

  lemma {:induction false} InsertDistinct(p: Player, s: seq<Player>)
    requires DistinctIds(s)
    requires forall j :: 0 <= j < |s| ==> s[j].id != p.id
    ensures DistinctIds(Insert(p, s))
  {
    if s == [] || s[0].score <= p.score {
    } else {
      InsertDistinct(p, s[1..]);
      var r := Insert(p, s[1..]);
      forall j | 0 <= j < |r| ensures r[j].id != s[0].id {
        assert r[j] in multiset(r);
        if r[j] != p {
          assert r[j] in multiset(s[1..]);
          var m :| 0 <= m < |s[1..]| && s[1..][m] == r[j];
          assert s[m + 1] == r[j];
        }
      }
      assert forall j :: 1 <= j < |[s[0]] + r| ==> ([s[0]] + r)[j] == r[j - 1];
    }
  }

  lemma {:induction false} SortDistinct(ps: seq<Player>)
    requires DistinctIds(ps)
    ensures DistinctIds(SortByScore(ps))
  {
    if ps != [] {
      assert DistinctIds(ps[1..]) by {
        assert forall j :: 0 <= j < |ps[1..]| ==> ps[1..][j] == ps[j + 1];
      }
      SortDistinct(ps[1..]);
      var t := SortByScore(ps[1..]);
      forall j | 0 <= j < |t| ensures t[j].id != ps[0].id {
        assert t[j] in multiset(ps[1..]);
        var m :| 0 <= m < |ps[1..]| && ps[1..][m] == t[j];
        assert ps[m + 1] == t[j];
      }
      InsertDistinct(ps[0], t);
    }
  }

  /** The badge drawn for the entry at `index` of the ranking (`index + 1`)
      agrees with `getPlayerRank` of that entry's id, and rank 1 holds a
      maximal score. */
  lemma RankOfPosition(players: seq<Player>, index: int)
    requires DistinctIds(players)
    requires 0 <= index < |players|
    ensures Rank(players, SortByScore(players)[index].id) == index + 1
    ensures forall j :: 0 <= j < |players| ==> players[j].score <= SortByScore(players)[0].score
  {
    var sorted := SortByScore(players);
    var id := sorted[index].id;
    assert FindIndex(sorted, id) == index by {
      SortDistinct(players);
      var r := FindIndex(sorted, id);
      assert r != -1 && r <= index;
      assert sorted[r].id == sorted[index].id;
    }
    forall j | 0 <= j < |players| ensures players[j].score <= sorted[0].score {
      assert players[j] in multiset(players);
      assert players[j] in multiset(sorted);
      var m :| 0 <= m < |sorted| && sorted[m] == players[j];
      assert m == 0 || sorted[0].score >= sorted[m].score;
    }
  }

  /** The `length` of a JavaScript string holding `s`: the number of UTF-16
      code units, two for each character beyond the Basic Multilingual Plane. */
  function Utf16Length(s: string): (n: nat)
    ensures |s| <= n <= 2 * |s|
    ensures (forall i :: 0 <= i < |s| ==> s[i] as int <= 0xFFFF) ==> n == |s|
    ensures |s| == 1 ==> n == if s[0] as int > 0xFFFF then 2 else 1
  {
    if s == [] then 0
    else (if s[0] as int > 0xFFFF then 2 else 1) + Utf16Length(s[1..])
  }

  /** The length of joined strings is the sum of their lengths; with the
      one-character case this fixes the length of every string. */
  lemma {:induction false} Utf16LengthAppend(a: string, b: string)
    ensures Utf16Length(a + b) == Utf16Length(a) + Utf16Length(b)
    decreases |a|
  {
    if a == [] {
      assert a + b == b;
    } else {
      assert (a + b)[0] == a[0] && (a + b)[1..] == a[1..] + b;
      Utf16LengthAppend(a[1..], b);
    }
  }

  /** `getTypingSpeed`: the `length` of the player's code. */
  function TypingSpeed(p: Player): (r: nat)
    ensures r == 0 <==> p.code == []
    ensures |p.code| <= r <= 2 * |p.code|
  {
    Utf16Length(p.code)
  }

  /** A character beyond the Basic Multilingual Plane counts twice, as in
      JavaScript: the code "😀" has speed 2. */
  lemma AstralCharCountsTwice()
    ensures TypingSpeed(Player("a", "A", "\U{1F600}", 0, 0, true)) == 2
  {
  }

  /** The "Total Passed" figure: the sum of every player's `testsPassedCount`. */
  function TotalPassed(ps: seq<Player>): (r: int)
    ensures (forall i :: 0 <= i < |ps| ==> ps[i].testsPassedCount >= 0) ==>
              0 <= r && forall i :: 0 <= i < |ps| ==> ps[i].testsPassedCount <= r
  {
    if ps == [] then 0 else ps[0].testsPassedCount + TotalPassed(ps[1..])
  }

  lemma {:induction false} InsertTotal(p: Player, s: seq<Player>)
    ensures TotalPassed(Insert(p, s)) == p.testsPassedCount + TotalPassed(s)
  {
    if s == [] || s[0].score <= p.score {
      assert Insert(p, s)[1..] == s;
    } else {
      assert Insert(p, s)[1..] == Insert(p, s[1..]);
      InsertTotal(p, s[1..]);
    }
  }

  /** The total is the same over the ranking as over the unsorted list. */
  lemma {:induction false} TotalPassedOfRanking(ps: seq<Player>)
    ensures TotalPassed(SortByScore(ps)) == TotalPassed(ps)
  {
    if ps != [] {
      TotalPassedOfRanking(ps[1..]);
      InsertTotal(ps[0], SortByScore(ps[1..]));
    }
  }
}
