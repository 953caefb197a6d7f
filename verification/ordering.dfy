/** The ordering `getMessagesByChannelId` applies: a stable sort by
    `createdAt`, newest first (the comparator `b.createdAt - a.createdAt`
    under the stable `Array.prototype.sort`), followed by
    `Array.prototype.slice(0, limit)`. */
module Ordering {
  import opened Types
  import Seqs

  /** Non-increasing `createdAt` from front to back. */
  ghost predicate NewestFirst(s: seq<Message>) {
    forall i, j | 0 <= i < j < |s| :: s[i].createdAt >= s[j].createdAt
  }

  /** Places `x` in front of the first element that is not newer than it,
      so it precedes every element with the same timestamp. */
  function InsertNewest(x: Message, t: seq<Message>): (r: seq<Message>)
    ensures multiset(r) == multiset(t) + multiset{x}
    ensures |r| == |t| + 1
    ensures r[0] == x || (t != [] && r[0] == t[0])
  {
    if t == [] || x.createdAt >= t[0].createdAt then [x] + t
    else
      assert t == [t[0]] + t[1..];
      [t[0]] + InsertNewest(x, t[1..])
  }

  /** Inserting into a newest-first sequence keeps it newest-first. */
  lemma {:induction false} InsertKeepsNewestFirst(x: Message, t: seq<Message>)
    requires NewestFirst(t)
    ensures NewestFirst(InsertNewest(x, t))
  {
    if t != [] && x.createdAt < t[0].createdAt {
      var rest := InsertNewest(x, t[1..]);
      InsertKeepsNewestFirst(x, t[1..]);
      assert rest[0] == x || rest[0] == t[1];
      var r := [t[0]] + rest;
      forall i, j | 0 <= i < j < |r| ensures r[i].createdAt >= r[j].createdAt {
        if i == 0 {
          assert r[j] == rest[j - 1];
          assert rest[0].createdAt >= rest[j - 1].createdAt;
        } else {
          assert r[i] == rest[i - 1] && r[j] == rest[j - 1];
        }
      }
    }
  }

  /** The stable newest-first sort. */
  function SortNewestFirst(s: seq<Message>): (r: seq<Message>)
    ensures multiset(r) == multiset(s)
    ensures NewestFirst(r)
  {
    if s == [] then []
    else
      assert s == [s[0]] + s[1..];
      InsertKeepsNewestFirst(s[0], SortNewestFirst(s[1..]));
      InsertNewest(s[0], SortNewestFirst(s[1..]))
  }

  /** The messages carrying timestamp `t`, in the order given. */
  function WithTimestamp(t: int, s: seq<Message>): seq<Message> {
    Seqs.Filter(AtTime(t), s)
  }

  function AtTime(t: int): Message -> bool {
    (m: Message) => m.createdAt == t
  }

  lemma {:induction false} InsertNewestStable(x: Message, t: seq<Message>, k: int)
    ensures WithTimestamp(k, InsertNewest(x, t))
         == (if x.createdAt == k then [x] + WithTimestamp(k, t) else WithTimestamp(k, t))
  {
    if t == [] || x.createdAt >= t[0].createdAt {
      assert ([x] + t)[1..] == t;
    } else {
      InsertNewestStable(x, t[1..], k);
      var r := [t[0]] + InsertNewest(x, t[1..]);
      assert r[1..] == InsertNewest(x, t[1..]);
    }
  }

  /** Stability: among messages with equal `createdAt` the sort keeps the
      order they were given in (for the store, their insertion order). */
  lemma {:induction false} SortIsStable(s: seq<Message>, k: int)
    ensures WithTimestamp(k, SortNewestFirst(s)) == WithTimestamp(k, s)
  {
    if s != [] {
      SortIsStable(s[1..], k);
      InsertNewestStable(s[0], SortNewestFirst(s[1..]), k);
    }
  }

  /** The head of the sort is the first, in the given order, of the
      elements carrying the greatest timestamp `k`. */
  lemma SortHeadIsFirstOfNewest(s: seq<Message>, k: int)
    requires exists i | 0 <= i < |s| :: s[i].createdAt == k
    requires forall i | 0 <= i < |s| :: s[i].createdAt <= k
    ensures |WithTimestamp(k, s)| > 0
    ensures |SortNewestFirst(s)| > 0 && SortNewestFirst(s)[0] == WithTimestamp(k, s)[0]
  {
    var sorted := SortNewestFirst(s);
    var i :| 0 <= i < |s| && s[i].createdAt == k;
    assert s[i] in WithTimestamp(k, s);
    SortHeadIsNewest(s, k);
    SortIsStable(s, k);
    assert sorted == [sorted[0]] + sorted[1..];
  }

  /** The head of the sort carries the greatest timestamp `k`. */
  lemma SortHeadIsNewest(s: seq<Message>, k: int)
    requires exists i | 0 <= i < |s| :: s[i].createdAt == k
    requires forall i | 0 <= i < |s| :: s[i].createdAt <= k
    ensures |SortNewestFirst(s)| > 0 && SortNewestFirst(s)[0].createdAt == k
  {
    var sorted := SortNewestFirst(s);
    var i :| 0 <= i < |s| && s[i].createdAt == k;
    assert s[i] in multiset(sorted);
    var j :| 0 <= j < |sorted| && sorted[j] == s[i];
    assert sorted[0] in multiset(s);
  }

  /** An element appended after strictly older ones heads the sort. */
  lemma NewestAppendedHeadsSort(old_: seq<Message>, m: Message)
    requires forall i | 0 <= i < |old_| :: old_[i].createdAt < m.createdAt
    ensures |SortNewestFirst(old_ + [m])| > 0 && SortNewestFirst(old_ + [m])[0] == m
  {
    var cands := old_ + [m];
    Seqs.FilterKeepsNone(AtTime(m.createdAt), old_);
    Seqs.FilterAppend(AtTime(m.createdAt), old_, [m]);
    assert [m][1..] == [];
    assert cands[|old_|] == m;
    SortHeadIsFirstOfNewest(cands, m.createdAt);
  }

  /** An element appended after others of which one shares its timestamp
      and none is newer does not head the sort: an earlier element does. */
  lemma TiedAppendedDoesNotHeadSort(old_: seq<Message>, m: Message, o: Message)
    requires forall i | 0 <= i < |old_| :: old_[i].createdAt <= m.createdAt
    requires o in old_ && o.createdAt == m.createdAt
    ensures |SortNewestFirst(old_ + [m])| > 0 && SortNewestFirst(old_ + [m])[0] in old_
  {
    var cands := old_ + [m];
    var k := m.createdAt;
    forall i | 0 <= i < |cands| ensures cands[i].createdAt <= k {
      if i < |old_| {
        assert cands[i] == old_[i];
      }
    }
    assert cands[|old_|] == m;
    SortHeadIsFirstOfNewest(cands, k);
    Seqs.FilterAppend(AtTime(k), old_, [m]);
    assert o in WithTimestamp(k, old_);
    assert WithTimestamp(k, old_)[0] in WithTimestamp(k, old_);
  }

  /** The end index `Array.prototype.slice(0, end)` stops at for a sequence
      of length `len`: a negative `end` counts back from the length. */
  function SliceEnd(len: nat, end: int): (e: nat)
    ensures e <= len
    ensures 0 <= end ==> e == if end < len then end else len
    ensures end < 0 ==> e + (-end) >= len && (e > 0 ==> e + (-end) == len)
    ensures end < 0 && len + end >= 0 ==> e == len + end
  {
    if end < 0 then (if len + end < 0 then 0 else len + end)
    else if end > len then len
    else end
  }

  /** `s.slice(0, end)`. */
  function Take<T>(s: seq<T>, end: int): (r: seq<T>)
    ensures |r| <= |s| && r == s[..|r|]
    ensures 0 <= end ==> |r| <= end
    ensures 0 <= end && |r| < end ==> r == s
    ensures 0 <= end ==> |r| == if end < |s| then end else |s|
    ensures end < 0 ==> |r| == if |s| + end < 0 then 0 else |s| + end
  {
    s[..SliceEnd(|s|, end)]
  }

  /** The first `limit` of a stable newest-first sort hold the newest
      elements: an element of `s` left out is no newer than any kept one,
      and a result shorter than a non-negative `limit` leaves nothing out. */
  lemma TopIsNewest(s: seq<Message>, limit: int, m: Message)
    requires m in s
    ensures var r := Take(SortNewestFirst(s), limit);
      && (m !in r ==> forall i | 0 <= i < |r| :: r[i].createdAt >= m.createdAt)
      && (0 <= limit && |r| < limit ==> m in r)
  {
    var sorted := SortNewestFirst(s);
    var r := Take(sorted, limit);
    assert m in multiset(sorted);
    var j :| 0 <= j < |sorted| && sorted[j] == m;
    if m !in r {
      assert |r| <= j;
      forall i | 0 <= i < |r| ensures r[i].createdAt >= m.createdAt {
        assert r[i] == sorted[i];
      }
    }
  }

  /** Taking the first `limit` of the sort keeps stability: for every
      timestamp `k`, the kept elements at `k` are the first elements of `s`
      at `k`, in their order in `s`. */
  lemma {:induction false} TopIsStable(s: seq<Message>, limit: int, k: int)
    ensures var r := Take(SortNewestFirst(s), limit);
      var w := WithTimestamp(k, s);
      |WithTimestamp(k, r)| <= |w| && WithTimestamp(k, r) == w[..|WithTimestamp(k, r)|]
  {
    var sorted := SortNewestFirst(s);
    var r := Take(sorted, limit);
    assert sorted == r + sorted[|r|..];
    Seqs.FilterAppend(AtTime(k), r, sorted[|r|..]);
    SortIsStable(s, k);
  }
}
