/** The value-level meaning of the leaderboard kept by `LeaderBoardWorkflow`
    (backend/src/workflows.ts): an upsert by exact player name followed by a
    stable sort, descending by score. */
module Ranking {

  /** `{ player, score }`, both a leaderboard row and the notification a session sends. */
  datatype Entry = Entry(player: string, score: int)

  /** No player appears twice. */
  predicate UniquePlayers(s: seq<Entry>)
  {
    forall i, j :: 0 <= i < j < |s| ==> s[i].player != s[j].player
  }

  /** Descending by score. */
  predicate SortedDesc(s: seq<Entry>)
  {
    forall i, j :: 0 <= i < j < |s| ==> s[i].score >= s[j].score
  }

  function Players(s: seq<Entry>): set<string>
  {
    set e | e in s :: e.player
  }

  /** The entries of `s` with score `v`, in their order in `s`. */
  function WithScore(s: seq<Entry>, v: int): seq<Entry>
  {
    if s == [] then []
    else WithScore(s[..|s| - 1], v) + (if s[|s| - 1].score == v then [s[|s| - 1]] else [])
  }

  /** `leaderboard.find(entry => entry.player === player)`, as an index:
      the first entry of `p`, or `|s|` when there is none. */
  function FindIndex(s: seq<Entry>, p: string): (i: nat)
    ensures i <= |s|
    ensures forall k :: 0 <= k < i ==> s[k].player != p
    ensures i < |s| ==> s[i].player == p
    ensures i == |s| <==> p !in Players(s)
  {
    if s == [] then 0
    else if s[0].player == p then 0
    else
      var k := FindIndex(s[1..], p);
      assert forall e :: e in s[1..] ==> e in s;
      assert p !in Players(s[1..]) ==> p !in Players(s) by {
        assert s == [s[0]] + s[1..];
      }
      1 + k
  }

  lemma FindIndexIsFirst(s: seq<Entry>, p: string, i: nat)
    requires i <= |s|
    requires forall k :: 0 <= k < i ==> s[k].player != p
    requires i < |s| ==> s[i].player == p
    ensures FindIndex(s, p) == i
  {
  }

  /** The upsert: overwrite the score of `p`'s entry in place, or append a new
      entry at the end. */
  function Upsert(s: seq<Entry>, p: string, score: int): (r: seq<Entry>)
    ensures Entry(p, score) in r
    ensures |r| == if p in Players(s) then |s| else |s| + 1
    ensures forall i :: 0 <= i < |s| && s[i].player != p ==> r[i] == s[i]
    ensures p !in Players(s) ==> r == s + [Entry(p, score)]
    ensures UniquePlayers(s) ==> UniquePlayers(r)
    ensures UniquePlayers(s) ==> forall e :: e in r <==> e == Entry(p, score) || (e in s && e.player != p)
  {
    var i := FindIndex(s, p);
    if i < |s| then
      assert s[i := Entry(p, score)][i] == Entry(p, score);
      s[i := Entry(p, score)]
    else s + [Entry(p, score)]
  }

  /** Inserting `x` into a descending list behind every entry whose score is
      at least `x.score`, scanning from the back. */
  function InsertDesc(r: seq<Entry>, x: Entry): (t: seq<Entry>)
    ensures |t| == |r| + 1
  {
    if r == [] then [x]
    else if r[|r| - 1].score < x.score then InsertDesc(r[..|r| - 1], x) + [r[|r| - 1]]
    else r + [x]
  }

  /** The insertion adds `x` and loses nothing. */
  lemma {:induction false} InsertDescPermutes(r: seq<Entry>, x: Entry)
    ensures multiset(InsertDesc(r, x)) == multiset(r) + multiset{x}
  {
    if r != [] && r[|r| - 1].score < x.score {
      assert r == r[..|r| - 1] + [r[|r| - 1]];
      InsertDescPermutes(r[..|r| - 1], x);
    }
  }

  /** Every entry of the insertion is an entry of `r` or `x` itself. */
  lemma InsertDescMembers(r: seq<Entry>, x: Entry, e: Entry)
    requires e in InsertDesc(r, x)
    ensures e == x || e in r
  {
    InsertDescPermutes(r, x);
    assert e in multiset(InsertDesc(r, x));
  }

  lemma {:induction false} InsertDescSorted(r: seq<Entry>, x: Entry)
    requires SortedDesc(r)
    ensures SortedDesc(InsertDesc(r, x))
  {
    if r != [] && r[|r| - 1].score < x.score {
      var front, last := r[..|r| - 1], r[|r| - 1];
      InsertDescSorted(front, x);
      var t := InsertDesc(front, x);
      forall e | e in t ensures e.score >= last.score {
        InsertDescMembers(front, x, e);
        if e != x {
          var k :| 0 <= k < |front| && front[k] == e;
          assert r[k] == e;
        }
      }
      forall i, j | 0 <= i < j < |t| + 1 ensures (t + [last])[i].score >= (t + [last])[j].score {
        if j == |t| {
          assert (t + [last])[i] == t[i] && t[i] in t;
        }
      }
    }
  }

  lemma {:induction false} InsertDescUnique(r: seq<Entry>, x: Entry)
    requires UniquePlayers(r) && x.player !in Players(r)
    ensures UniquePlayers(InsertDesc(r, x))
  {
    if r == [] {
    } else if r[|r| - 1].score < x.score {
      var front, last := r[..|r| - 1], r[|r| - 1];
      assert r == front + [last];
      assert x.player !in Players(front) by { assert forall e :: e in front ==> e in r; }
      InsertDescUnique(front, x);
      forall e | e in InsertDesc(front, x) ensures e.player != last.player {
        InsertDescMembers(front, x, e);
        if e != x {
          var k :| 0 <= k < |front| && front[k] == e;
          assert r[k] == e && r[|r| - 1] == last;
        } else {
          assert last in r;
        }
      }
      UniqueSnoc(InsertDesc(front, x), last);
    } else {
      UniqueSnoc(r, x);
    }
  }

  /** The insertion is stable: among entries with one score, `x` comes last. */
  lemma {:induction false} InsertDescWithScore(r: seq<Entry>, x: Entry, v: int)
    ensures WithScore(InsertDesc(r, x), v) == WithScore(r, v) + (if x.score == v then [x] else [])
  {
    var t := InsertDesc(r, x);
    if r == [] {
      assert t[..|t| - 1] == [];
    } else if r[|r| - 1].score < x.score {
      var front, last := r[..|r| - 1], r[|r| - 1];
      InsertDescWithScore(front, x, v);
      assert t[..|t| - 1] == InsertDesc(front, x) && t[|t| - 1] == last;
    } else {
      assert t[..|t| - 1] == r;
    }
  }

  lemma UniqueSnoc(a: seq<Entry>, y: Entry)
    requires UniquePlayers(a)
    requires forall e :: e in a ==> e.player != y.player
    ensures UniquePlayers(a + [y])
  {
    var t := a + [y];
    forall i, j | 0 <= i < j < |t| ensures t[i].player != t[j].player {
      if j == |a| {
        assert t[i] in a;
      }
    }
  }

  /** The sort: a stable sort, descending by score (an insertion sort of the
      entries in their current order). */
  function SortDesc(s: seq<Entry>): (r: seq<Entry>)
    ensures |r| == |s|
    ensures multiset(r) == multiset(s)
  {
    if s == [] then []
    else
      assert s == s[..|s| - 1] + [s[|s| - 1]];
      InsertDescPermutes(SortDesc(s[..|s| - 1]), s[|s| - 1]);
      InsertDesc(SortDesc(s[..|s| - 1]), s[|s| - 1])
  }

  lemma {:induction false} SortDescSorted(s: seq<Entry>)
    ensures SortedDesc(SortDesc(s))
  {
    if s != [] {
      SortDescSorted(s[..|s| - 1]);
      InsertDescSorted(SortDesc(s[..|s| - 1]), s[|s| - 1]);
    }
  }

  lemma {:induction false} SortDescUnique(s: seq<Entry>)
    requires UniquePlayers(s)
    ensures UniquePlayers(SortDesc(s))
  {
    if s != [] {
      var front, last := s[..|s| - 1], s[|s| - 1];
      SortDescUnique(front);
      var sorted := SortDesc(front);
      forall e | e in sorted ensures e.player != last.player {
        assert e in multiset(front);
        var k :| 0 <= k < |front| && front[k] == e;
        assert s[k] == e;
      }
      InsertDescUnique(sorted, last);
    }
  }

  /** The sort is stable: for every score, the entries with that score keep
      their relative order. */
  lemma {:induction false} SortDescStable(s: seq<Entry>, v: int)
    ensures WithScore(SortDesc(s), v) == WithScore(s, v)
  {
    if s != [] {
      var front, last := s[..|s| - 1], s[|s| - 1];
      SortDescStable(front, v);
      InsertDescWithScore(SortDesc(front), last, v);
    }
  }

  /** Sorting a list that is already descending leaves it as it is. */
  lemma {:induction false} SortDescOfSorted(s: seq<Entry>)
    requires SortedDesc(s)
    ensures SortDesc(s) == s
  {
    if s != [] {
      var front, last := s[..|s| - 1], s[|s| - 1];
      SortedFront(s);
      SortDescOfSorted(front);
      InsertDescAtEnd(front, last);
      assert s == front + [last];
    }
  }

  lemma SortedFront(s: seq<Entry>)
    requires SortedDesc(s) && s != []
    ensures SortedDesc(s[..|s| - 1])
    ensures |s| > 1 ==> s[|s| - 2].score >= s[|s| - 1].score
  {
  }

  /** An entry no higher than the last one is simply appended. */
  lemma InsertDescAtEnd(r: seq<Entry>, x: Entry)
    requires r == [] || r[|r| - 1].score >= x.score
    ensures InsertDesc(r, x) == r + [x]
  {
  }

  /** One `updateLeaderboard` signal: upsert, then sort. */
  function Update(s: seq<Entry>, p: string, score: int): (r: seq<Entry>)
    ensures SortedDesc(r)
    ensures Entry(p, score) in r
    ensures |r| == if p in Players(s) then |s| else |s| + 1
    ensures UniquePlayers(s) ==> UniquePlayers(r)
    ensures UniquePlayers(s) ==> forall e :: e in r <==> e == Entry(p, score) || (e in s && e.player != p)
  {
    var u := Upsert(s, p, score);
    var r := SortDesc(u);
    SortDescSorted(u);
    assert UniquePlayers(s) ==> UniquePlayers(r) by {
      if UniquePlayers(s) { SortDescUnique(u); }
    }
    assert forall e :: e in r <==> e in u by {
      forall e ensures e in r <==> e in u {
        assert e in r <==> e in multiset(r);
        assert e in u <==> e in multiset(u);
      }
    }
    r
  }

  /** The sort behind `Update` is a stable permutation of the upserted list:
      the same entries, and entries of equal score in the order they had. */
  lemma UpdateIsStableSort(s: seq<Entry>, p: string, score: int)
    ensures multiset(Update(s, p, score)) == multiset(Upsert(s, p, score))
    ensures forall v :: WithScore(Update(s, p, score), v) == WithScore(Upsert(s, p, score), v)
  {
    var u := Upsert(s, p, score);
    forall v ensures WithScore(Update(s, p, score), v) == WithScore(u, v) {
      SortDescStable(u, v);
    }
  }

  /** Repeating an update changes nothing. */
  lemma UpdateIdempotent(s: seq<Entry>, p: string, score: int)
    requires UniquePlayers(s)
    ensures Update(Update(s, p, score), p, score) == Update(s, p, score)
  {
    var t := Update(s, p, score);
    var i := FindIndex(t, p);
    assert Entry(p, score) in t;
    assert p in Players(t);
    assert t[i] == Entry(p, score);
    assert Upsert(t, p, score) == t;
    SortDescOfSorted(t);
  }

  /** The last write wins: two updates of one player hold the same entries as
      the second alone (score overwrite, not maximum). */
  lemma UpdateLastWriteWins(s: seq<Entry>, p: string, first: int, second: int)
    requires UniquePlayers(s)
    ensures forall e :: e in Update(Update(s, p, first), p, second) <==> e in Update(s, p, second)
  {
  }

  /** The leaderboard after a sequence of `updateLeaderboard` signals, in order. */
  function Replay(s: seq<Entry>, signals: seq<Entry>): (r: seq<Entry>)
    ensures UniquePlayers(s) ==> UniquePlayers(r)
    ensures signals != [] ==> SortedDesc(r)
    decreases |signals|
  {
    if signals == [] then s
    else
      var last := signals[|signals| - 1];
      Update(Replay(s, signals[..|signals| - 1]), last.player, last.score)
  }

  /** Replaying signals that all name one player leaves that player with the
      last signalled score and every other player as before. */
  lemma {:induction false} ReplayOnePlayer(s: seq<Entry>, p: string, signals: seq<Entry>)
    requires UniquePlayers(s)
    requires signals != []
    requires forall i :: 0 <= i < |signals| ==> signals[i].player == p
    ensures UniquePlayers(Replay(s, signals))
    ensures SortedDesc(Replay(s, signals))
    ensures forall e :: e in Replay(s, signals) <==>
      e == signals[|signals| - 1] || (e in s && e.player != p)
    decreases |signals|
  {
    var front, last := signals[..|signals| - 1], signals[|signals| - 1];
    assert last == Entry(p, last.score);
    if front == [] {
      assert Replay(s, signals) == Update(s, p, last.score);
    } else {
      forall i | 0 <= i < |front| ensures front[i].player == p {
        assert front[i] == signals[i];
      }
      ReplayOnePlayer(s, p, front);
      var r := Replay(s, front);
      assert Replay(s, signals) == Update(r, p, last.score);
      UpdateAfterMembers(s, p, r, front[|front| - 1], last.score);
    }
  }

  /** Updating `p` in a list that holds, apart from an earlier entry of `p`,
      what `s` holds, gives a list that holds the new entry of `p` and, apart
      from `p`, what `s` holds. */
  lemma UpdateAfterMembers(s: seq<Entry>, p: string, r: seq<Entry>, earlier: Entry, score: int)
    requires UniquePlayers(r) && earlier.player == p
    requires forall e :: e in r <==> e == earlier || (e in s && e.player != p)
    ensures forall e :: e in Update(r, p, score) <==> e == Entry(p, score) || (e in s && e.player != p)
  {
  }

  /** Ties follow the current order of the list, not the order of first
      registration: "x" joins first with 5, "p" joins with 9 and then drops to
      5, and "p" ends up ahead of "x". */
  lemma TiesFollowCurrentOrder()
    ensures Update(Update(Update([], "x", 5), "p", 9), "p", 5) == [Entry("p", 5), Entry("x", 5)]
  {
    UpdateJoinsEmpty("x", 5);
    UpdateNewcomerLeads(Entry("x", 5), Entry("p", 9));
    UpdateDropsToTie();
  }

  lemma UpdateJoinsEmpty(p: string, score: int)
    ensures Update([], p, score) == [Entry(p, score)]
  {
    assert Upsert([], p, score) == [Entry(p, score)];
  }

  lemma UpdateNewcomerLeads(first: Entry, newcomer: Entry)
    requires first.player != newcomer.player && first.score < newcomer.score
    ensures Update([first], newcomer.player, newcomer.score) == [newcomer, first]
  {
    assert FindIndex([first], newcomer.player) == 1;
    assert Upsert([first], newcomer.player, newcomer.score) == [first] + [newcomer];
  }

  lemma UpdateDropsToTie()
    ensures Update([Entry("p", 9), Entry("x", 5)], "p", 5) == [Entry("p", 5), Entry("x", 5)]
  {
    var b, c := [Entry("p", 9), Entry("x", 5)], [Entry("p", 5), Entry("x", 5)];
    assert FindIndex(b, "p") == 0;
    assert Upsert(b, "p", 5) == c;
    SortDescOfSorted(c);
  }
}
