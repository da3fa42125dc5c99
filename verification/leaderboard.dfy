/** The state of `LeaderBoardWorkflow` (backend/src/workflows.ts): a list of
    entries kept in an array that grows on `push`, changed in place by the
    update handler and handed out by the query. */
module LeaderBoard {
  import opened Ranking

  class Leaderboard {
    /** Backing store; the list is `data[..len]`. */
    var data: array<Entry>
    var len: nat

    /** Players are distinct and the list is descending by score. */
    ghost predicate Valid()
      reads this, data
    {
      len <= data.Length && UniquePlayers(data[..len]) && SortedDesc(data[..len])
    }

    /** The list as the query sees it. */
    function Entries(): seq<Entry>
      reads this, data
      requires len <= data.Length
    {
      data[..len]
    }

    /** `let leaderboard = []`. */
    constructor ()
      ensures Valid() && Entries() == []
    {
      data := new Entry[8];
      len := 0;
    }

    /** The `updateLeaderboard` signal handler: find the player's entry, overwrite
        its score or push a new entry, then sort. */
    method Update(player: string, score: int)
      requires Valid()
      modifies this, data
      ensures Valid()
      ensures Entries() == Ranking.Update(old(Entries()), player, score)
    {
      ghost var before := data[..len];
      Put(player, score);
      SortByScoreDesc(data, len);
      SortDescSorted(Upsert(before, player, score));
      SortDescUnique(Upsert(before, player, score));
    }

    /** The first half of the handler: overwrite the score of the player's
        first entry, or push a new entry when the player has none. */
    method Put(player: string, score: int)
      requires len <= data.Length
      modifies this, data
      ensures data == old(data) || fresh(data)
      ensures len <= data.Length
      ensures Entries() == Upsert(old(Entries()), player, score)
    {
      ghost var before := data[..len];
      var i := 0;
      while i < len && data[i].player != player
        invariant 0 <= i <= len
        invariant forall k :: 0 <= k < i ==> data[k].player != player
      {
        i := i + 1;
      }
      FindIndexIsFirst(before, player, i);
      if i < len {
        data[i] := Entry(player, score);
        assert data[..len] == before[i := Entry(player, score)];
      } else {
        Push(Entry(player, score));
        assert data[..len] == before + [Entry(player, score)];
      }
    }

    /** `leaderboard.push(entry)`: appends, growing the array when it is full. */
    method Push(e: Entry)
      requires len <= data.Length
      modifies this, data
      ensures data == old(data) || fresh(data)
      ensures len == old(len) + 1 && len <= data.Length
      ensures Entries() == old(Entries()) + [e]
    {
      if len == data.Length {
        var bigger := new Entry[2 * data.Length + 1];
        forall k | 0 <= k < len {
          bigger[k] := data[k];
        }
        data := bigger;
      }
      data[len] := e;
      len := len + 1;
    }

    /** The `getLeaderboard` query: the list as it is. */
    method GetLeaderboard() returns (r: seq<Entry>)
      requires Valid()
      ensures r == Entries()
      ensures SortedDesc(r) && UniquePlayers(r)
    {
      r := data[..len];
    }
  }

  /** `leaderboard.sort((a, b) => b.score - a.score)` on the first `n` cells:
      a stable sort descending by score, here an insertion sort. */
  method SortByScoreDesc(a: array<Entry>, n: nat)
    requires n <= a.Length
    modifies a
    ensures a[..n] == SortDesc(old(a[..n]))
    ensures forall k :: n <= k < a.Length ==> a[k] == old(a[k])
  {
    ghost var orig := a[..n];
    var i := 0;
    while i < n
      invariant 0 <= i <= n
      invariant a[..i] == SortDesc(orig[..i])
      invariant forall k :: i <= k < n ==> a[k] == orig[k]
      invariant forall k :: n <= k < a.Length ==> a[k] == old(a[k])
    {
      assert a[i] == orig[i];
      InsertAt(a, i);
      TakeOneMore(orig, i);
      i := i + 1;
    }
    assert orig[..n] == orig;
  }

  /** One pass of the insertion sort: `a[i]` is moved into the sorted prefix
      `a[..i]` behind every entry whose score is at least its own. */
  method InsertAt(a: array<Entry>, i: nat)
    requires i < a.Length
    modifies a
    ensures a[..i + 1] == InsertDesc(old(a[..i]), old(a[i]))
    ensures forall k :: i < k < a.Length ==> a[k] == old(a[k])
  {
    var x := a[i];
    ghost var sorted := a[..i];
    var j := i;
    while j > 0 && a[j - 1].score < x.score
      invariant 0 <= j <= i
      invariant forall k :: 0 <= k < j ==> a[k] == sorted[k]
      invariant forall k :: j < k <= i ==> a[k] == sorted[k - 1]
      invariant forall k :: i < k < a.Length ==> a[k] == old(a[k])
      invariant forall k :: j <= k < i ==> sorted[k].score < x.score
    {
      a[j] := a[j - 1];
      j := j - 1;
    }
    a[j] := x;
    ghost var spliced := sorted[..j] + [x] + sorted[j..];
    assert a[..i + 1] == spliced by {
      Spliced(a[..i + 1], sorted, x, j);
    }
    InsertDescSplit(sorted, x, j);
  }

  /** Where the scan from the back stops, at `j`: everything behind `j`
      scores less than `x`, and the entry before it (if any) does not. */
  lemma {:induction false} InsertDescSplit(sorted: seq<Entry>, x: Entry, j: nat)
    requires j <= |sorted|
    requires forall k :: j <= k < |sorted| ==> sorted[k].score < x.score
    requires j == 0 || sorted[j - 1].score >= x.score
    ensures InsertDesc(sorted, x) == sorted[..j] + [x] + sorted[j..]
    decreases |sorted|
  {
    if j < |sorted| {
      var front, last := sorted[..|sorted| - 1], sorted[|sorted| - 1];
      assert InsertDesc(sorted, x) == InsertDesc(front, x) + [last];
      forall k | j <= k < |front| ensures front[k].score < x.score {
        assert front[k] == sorted[k];
      }
      if j > 0 {
        assert front[j - 1] == sorted[j - 1];
      }
      InsertDescSplit(front, x, j);
      assert front[..j] == sorted[..j];
      assert sorted[j..] == front[j..] + [last];
      assert (front[..j] + [x] + front[j..]) + [last] == front[..j] + [x] + (front[j..] + [last]);
    } else {
      assert sorted[..j] == sorted;
    }
  }

  /** Extending a prefix by one element. A lemma rather than an assertion in
      the sorting loop, where the array and its frame make the same fact
      expensive to prove. */
  lemma TakeOneMore(s: seq<Entry>, i: nat)
    requires i < |s|
    ensures s[..i + 1] == s[..i] + [s[i]]
  {
  }

  /** A list that agrees with `sorted` before `j`, holds `x` at `j` and
      agrees with `sorted` shifted by one after `j` is `sorted` with `x` spliced in. */
  lemma Spliced(s: seq<Entry>, sorted: seq<Entry>, x: Entry, j: nat)
    requires |s| == |sorted| + 1 && j <= |sorted|
    requires forall k :: 0 <= k < j ==> s[k] == sorted[k]
    requires s[j] == x
    requires forall k :: j < k < |s| ==> s[k] == sorted[k - 1]
    ensures s == sorted[..j] + [x] + sorted[j..]
  {
  }

}
