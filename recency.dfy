/**
 * The query pipeline shared by the three listings: keep the posts a
 * predicate selects (`Array.prototype.filter`) and sort them newest first
 * with the stable `Array.prototype.sort` and the comparator
 * `(a, b) => b.updatedAt - a.updatedAt`.
 */
module Recency {
  import opened Posts

  /** Every post is at least as recently updated as every post after it. */
  ghost predicate NewestFirst(s: seq<Post>)
  {
    forall i, j :: 0 <= i < j < |s| ==> s[i].updatedAt >= s[j].updatedAt
  }

  /** The posts of `s` that `keep` selects, in their order in `s`. */
  function Filter(s: seq<Post>, keep: Post -> bool): (r: seq<Post>)
    ensures |r| <= |s|
    ensures forall i :: 0 <= i < |r| ==> keep(r[i])
  {
    if s == [] then []
    else
      if keep(s[0]) then [s[0]] + Filter(s[1..], keep)
      else Filter(s[1..], keep)
  }

  /** A filter keeps every selected post as often as it occurs and drops the others. */
  lemma {:induction false} FilterCounts(s: seq<Post>, keep: Post -> bool)
    ensures forall p :: multiset(Filter(s, keep))[p] == if keep(p) then multiset(s)[p] else 0
  {
    if s != [] {
      FilterCounts(s[1..], keep);
      assert s == [s[0]] + s[1..];
    }
  }

  /** A post is selected exactly when it is in the input and `keep` holds of it. */
  lemma FilterMembers(s: seq<Post>, keep: Post -> bool)
    ensures forall p :: p in Filter(s, keep) <==> p in s && keep(p)
  {
    FilterCounts(s, keep);
    assert forall p :: p in Filter(s, keep) <==> p in multiset(Filter(s, keep));
  }

  /** Filtering a concatenation filters each part. */
  lemma {:induction false} FilterAppend(a: seq<Post>, b: seq<Post>, keep: Post -> bool)
    ensures Filter(a + b, keep) == Filter(a, keep) + Filter(b, keep)
  {
    if a == [] {
      assert a + b == b;
    } else {
      assert (a + b)[0] == a[0];
      assert (a + b)[1..] == a[1..] + b;
      FilterAppend(a[1..], b, keep);
    }
  }

  /** A filter that keeps everything returns its input. */
  lemma {:induction false} FilterKeepsAll(s: seq<Post>, keep: Post -> bool)
    requires forall i :: 0 <= i < |s| ==> keep(s[i])
    ensures Filter(s, keep) == s
  {
    if s != [] {
      FilterKeepsAll(s[1..], keep);
    }
  }

  /**
   * Two filters that never both select a post split the posts that either
   * selects between them.
   */
  lemma {:induction false} FilterSizesAdd(s: seq<Post>, a: Post -> bool, b: Post -> bool, either: Post -> bool)
    requires forall p :: !(a(p) && b(p))
    requires forall p :: either(p) == (a(p) || b(p))
    ensures |Filter(s, a)| + |Filter(s, b)| == |Filter(s, either)|
  {
    if s != [] {
      FilterSizesAdd(s[1..], a, b, either);
    }
  }

  /**
   * One step of the stable sort: `p` goes before the first post that is
   * not strictly newer than it, so it stays ahead of posts with its own
   * timestamp that followed it in the input.
   */
  function Insert(p: Post, s: seq<Post>): (r: seq<Post>)
    ensures |r| == |s| + 1
  {
    if s == [] || s[0].updatedAt <= p.updatedAt then [p] + s
    else [s[0]] + Insert(p, s[1..])
  }

  /** Inserting adds `p` once and keeps every other post. */
  lemma {:induction false} InsertCounts(p: Post, s: seq<Post>)
    ensures multiset(Insert(p, s)) == multiset(s) + multiset{p}
  {
    if s != [] && s[0].updatedAt > p.updatedAt {
      InsertCounts(p, s[1..]);
      assert s == [s[0]] + s[1..];
    }
  }

  /** Inserting into a newest-first sequence keeps it newest first. */
  lemma {:induction false} InsertKeepsOrder(p: Post, s: seq<Post>)
    requires NewestFirst(s)
    ensures NewestFirst(Insert(p, s))
    ensures Insert(p, s)[0] == p || Insert(p, s)[0] == s[0]
  {
    if s != [] && s[0].updatedAt > p.updatedAt {
      var rest := Insert(p, s[1..]);
      InsertKeepsOrder(p, s[1..]);
      assert rest[0].updatedAt <= s[0].updatedAt;
      assert Insert(p, s) == [s[0]] + rest;
    }
  }

  /** `Array.prototype.sort` with the newest-first comparator. */
  function SortByRecency(s: seq<Post>): (r: seq<Post>)
    ensures NewestFirst(r)
    ensures multiset(r) == multiset(s)
    ensures |r| == |s|
  {
    if s == [] then []
    else
      assert s == [s[0]] + s[1..];
      InsertKeepsOrder(s[0], SortByRecency(s[1..]));
      InsertCounts(s[0], SortByRecency(s[1..]));
      Insert(s[0], SortByRecency(s[1..]))
  }

  /** Selects the posts last updated at `ts`. */
  function Stamped(ts: Timestamp): Post -> bool
  {
    (p: Post) => p.updatedAt == ts
  }

  /** A filter selects no post newer than its input holds. */
  lemma {:induction false} FilterBounded(s: seq<Post>, keep: Post -> bool, t: Timestamp)
    requires forall i :: 0 <= i < |s| ==> s[i].updatedAt <= t
    ensures forall i :: 0 <= i < |Filter(s, keep)| ==> Filter(s, keep)[i].updatedAt <= t
  {
    if s != [] {
      FilterBounded(s[1..], keep, t);
    }
  }

  /** `FilterInsert` when `p` goes to the front. */
  lemma FilterInsertFront(p: Post, s: seq<Post>, keep: Post -> bool)
    requires NewestFirst(s)
    requires s == [] || s[0].updatedAt <= p.updatedAt
    ensures Filter(Insert(p, s), keep) == if keep(p) then Insert(p, Filter(s, keep)) else Filter(s, keep)
  {
    assert Insert(p, s) == [p] + s;
    assert ([p] + s)[1..] == s;
    var f := Filter(s, keep);
    FilterBounded(s, keep, p.updatedAt);
    assert f == [] || f[0].updatedAt <= p.updatedAt;
    assert Insert(p, f) == [p] + f;
  }

  /** Filtering after inserting is inserting after filtering, or just filtering. */
  lemma {:induction false} FilterInsert(p: Post, s: seq<Post>, keep: Post -> bool)
    requires NewestFirst(s)
    ensures Filter(Insert(p, s), keep) == if keep(p) then Insert(p, Filter(s, keep)) else Filter(s, keep)
  {
    if s == [] || s[0].updatedAt <= p.updatedAt {
      FilterInsertFront(p, s, keep);
    } else {
      var rest := s[1..];
      var ins := Insert(p, rest);
      assert Insert(p, s) == [s[0]] + ins;
      assert ([s[0]] + ins)[1..] == ins;
      FilterInsert(p, rest, keep);
      if keep(s[0]) {
        assert Filter(s, keep) == [s[0]] + Filter(rest, keep);
      } else {
        assert Filter(s, keep) == Filter(rest, keep);
      }
    }
  }

  /** Sorting the selected posts gives the sorted listing with the others removed. */
  lemma {:induction false} SortFilterCommute(s: seq<Post>, keep: Post -> bool)
    ensures SortByRecency(Filter(s, keep)) == Filter(SortByRecency(s), keep)
  {
    if s != [] {
      SortFilterCommute(s[1..], keep);
      FilterInsert(s[0], SortByRecency(s[1..]), keep);
      if keep(s[0]) {
        assert Filter(s, keep) == [s[0]] + Filter(s[1..], keep);
      }
    }
  }

  /** A sequence that is already newest first comes back unchanged. */
  lemma {:induction false} SortOfSorted(s: seq<Post>)
    requires NewestFirst(s)
    ensures SortByRecency(s) == s
  {
    if s != [] {
      SortOfSorted(s[1..]);
    }
  }

  /**
   * Stability: the posts that share an update time come out in the order
   * they went in.
   */
  lemma SortIsStable(s: seq<Post>)
    ensures forall ts :: Filter(SortByRecency(s), Stamped(ts)) == Filter(s, Stamped(ts))
  {
    forall ts ensures Filter(SortByRecency(s), Stamped(ts)) == Filter(s, Stamped(ts)) {
      SortFilterCommute(s, Stamped(ts));
      SortOfSorted(Filter(s, Stamped(ts)));
    }
  }

  /** The first post of a sequence is the first post of its own timestamp. */
  lemma StampedHead(s: seq<Post>)
    requires s != []
    ensures Filter(s, Stamped(s[0].updatedAt)) == [s[0]] + Filter(s[1..], Stamped(s[0].updatedAt))
  {
  }

  /** Dropping the first post leaves the other timestamps' posts alone. */
  lemma StampedTail(s: seq<Post>, ts: Timestamp)
    requires s != [] && s[0].updatedAt != ts
    ensures Filter(s, Stamped(ts)) == Filter(s[1..], Stamped(ts))
  {
  }

  /**
   * Two newest-first sequences that agree on the posts of every timestamp
   * start with the same post and agree on the rest.
   */
  lemma SameStampsSameHead(a: seq<Post>, b: seq<Post>)
    requires a != [] && b != []
    requires NewestFirst(a) && NewestFirst(b)
    requires forall ts :: Filter(a, Stamped(ts)) == Filter(b, Stamped(ts))
    ensures a[0] == b[0]
  {
    var ma, mb := a[0].updatedAt, b[0].updatedAt;
    assert Filter(a, Stamped(ma)) == Filter(b, Stamped(ma));
    assert Filter(a, Stamped(mb)) == Filter(b, Stamped(mb));
    HeadsAgree(a, b);
  }

  /** `SameStampsSameHead` given the agreement on the two head timestamps only. */
  lemma HeadsAgree(a: seq<Post>, b: seq<Post>)
    requires a != [] && b != []
    requires NewestFirst(a) && NewestFirst(b)
    requires Filter(a, Stamped(a[0].updatedAt)) == Filter(b, Stamped(a[0].updatedAt))
    requires Filter(a, Stamped(b[0].updatedAt)) == Filter(b, Stamped(b[0].updatedAt))
    ensures a[0] == b[0]
  {
    var ma, mb := a[0].updatedAt, b[0].updatedAt;
    StampedHead(a);
    StampedHead(b);
    StampNotAbove(b, ma);
    StampNotAbove(a, mb);
    assert ma == mb;
    assert Filter(a, Stamped(ma))[0] == a[0];
    assert Filter(b, Stamped(mb))[0] == b[0];
  }

  /** A newest-first sequence holds no post newer than its head. */
  lemma StampNotAbove(s: seq<Post>, ts: Timestamp)
    requires s != [] && NewestFirst(s)
    requires Filter(s, Stamped(ts)) != []
    ensures ts <= s[0].updatedAt
  {
    FilterBounded(s, Stamped(ts), s[0].updatedAt);
    assert Filter(s, Stamped(ts))[0].updatedAt == ts;
  }

  /** Dropping one and the same first post keeps the agreement on every timestamp. */
  lemma SameStampsSameTail(a: seq<Post>, b: seq<Post>)
    requires a != [] && b != [] && a[0] == b[0]
    requires forall ts :: Filter(a, Stamped(ts)) == Filter(b, Stamped(ts))
    ensures forall ts :: Filter(a[1..], Stamped(ts)) == Filter(b[1..], Stamped(ts))
  {
    var m := a[0].updatedAt;
    forall ts ensures Filter(a[1..], Stamped(ts)) == Filter(b[1..], Stamped(ts)) {
      if ts == m {
        StampedHead(a);
        StampedHead(b);
        assert Filter(a, Stamped(m))[1..] == Filter(a[1..], Stamped(m));
        assert Filter(b, Stamped(m))[1..] == Filter(b[1..], Stamped(m));
      } else {
        StampedTail(a, ts);
        StampedTail(b, ts);
      }
    }
  }

  /** Only the empty sequence has no post at any timestamp. */
  lemma NoStampsEmpty(s: seq<Post>)
    requires forall ts :: Filter(s, Stamped(ts)) == []
    ensures s == []
  {
    if s != [] {
      StampedHead(s);
    }
  }

  /** Two newest-first sequences that agree on the posts of every timestamp are equal. */
  lemma {:induction false} SameStampsSame(a: seq<Post>, b: seq<Post>)
    requires NewestFirst(a) && NewestFirst(b)
    requires forall ts :: Filter(a, Stamped(ts)) == Filter(b, Stamped(ts))
    ensures a == b
    decreases |a|
  {
    if a == [] {
      NoStampsEmpty(b);
    } else if b == [] {
      NoStampsEmpty(a);
    } else {
      SameStampsSameHead(a, b);
      SameStampsSameTail(a, b);
      var a', b' := a[1..], b[1..];
      assert NewestFirst(a') && NewestFirst(b');
      SameStampsSame(a', b');
      assert a == [a[0]] + a';
      assert b == [b[0]] + b';
    }
  }

  /**
   * The listing order is determined by the two promises of a stable
   * newest-first sort: any newest-first arrangement of `s` that keeps the
   * input order among equal timestamps is `SortByRecency(s)`.
   */
  lemma SortUnique(s: seq<Post>, r: seq<Post>)
    requires NewestFirst(r)
    requires forall ts :: Filter(r, Stamped(ts)) == Filter(s, Stamped(ts))
    ensures r == SortByRecency(s)
  {
    SortIsStable(s);
    SameStampsSame(r, SortByRecency(s));
  }

  /** Sorting neither adds nor drops a post. */
  lemma SortMembers(s: seq<Post>)
    ensures forall p :: p in SortByRecency(s) <==> p in s
  {
    assert forall p :: p in SortByRecency(s) <==> p in multiset(SortByRecency(s));
  }

  /** No two posts of `s` share an id. */
  ghost predicate DistinctIds(s: seq<Post>)
  {
    forall i, j :: 0 <= i < j < |s| ==> s[i].id != s[j].id
  }

  /** The ids of the posts of `s`. */
  ghost function Ids(s: seq<Post>): set<Id>
  {
    set i | 0 <= i < |s| :: s[i].id
  }

  /** The ids of a sequence headed by `x` are `x`'s id and the ids of the rest. */
  lemma IdsCons(x: Post, t: seq<Post>)
    ensures Ids([x] + t) == Ids(t) + {x.id}
    ensures DistinctIds([x] + t) <==> DistinctIds(t) && x.id !in Ids(t)
  {
    var r := [x] + t;
    assert forall i :: 0 < i < |r| ==> r[i] == t[i - 1];
    forall y | y in Ids(t) ensures y in Ids(r) {
      var i :| 0 <= i < |t| && t[i].id == y;
      assert r[i + 1].id == y;
    }
    assert r[0].id == x.id;
    forall y | y in Ids(r) ensures y in Ids(t) + {x.id} {
      var i :| 0 <= i < |r| && r[i].id == y;
      if i > 0 { assert t[i - 1].id == y; }
    }
    if DistinctIds(t) && x.id !in Ids(t) {
      forall i, j | 0 <= i < j < |r| ensures r[i].id != r[j].id {
        if i == 0 { assert t[j - 1].id in Ids(t); }
      }
    }
    if DistinctIds(r) {
      forall i, j | 0 <= i < j < |t| ensures t[i].id != t[j].id {
        assert r[i + 1] == t[i] && r[j + 1] == t[j];
      }
      forall j | 0 <= j < |t| ensures t[j].id != x.id {
        assert r[j + 1] == t[j];
      }
    }
  }

  /** Inserting a post with a new id adds that id and keeps the ids distinct. */
  lemma {:induction false} InsertIds(p: Post, s: seq<Post>)
    ensures Ids(Insert(p, s)) == Ids(s) + {p.id}
    ensures DistinctIds(s) && p.id !in Ids(s) ==> DistinctIds(Insert(p, s))
  {
    if s == [] || s[0].updatedAt <= p.updatedAt {
      IdsCons(p, s);
    } else {
      var rest := Insert(p, s[1..]);
      InsertIds(p, s[1..]);
      assert s == [s[0]] + s[1..];
      IdsCons(s[0], s[1..]);
      IdsCons(s[0], rest);
    }
  }

  /** Filtering keeps the ids distinct and brings in no new id. */
  lemma {:induction false} FilterKeepsIdsDistinct(s: seq<Post>, keep: Post -> bool)
    requires DistinctIds(s)
    ensures DistinctIds(Filter(s, keep))
    ensures Ids(Filter(s, keep)) <= Ids(s)
  {
    if s != [] {
      assert s == [s[0]] + s[1..];
      IdsCons(s[0], s[1..]);
      FilterKeepsIdsDistinct(s[1..], keep);
      if keep(s[0]) {
        IdsCons(s[0], Filter(s[1..], keep));
      }
    }
  }

  /** Sorting keeps the ids distinct. */
  lemma {:induction false} SortKeepsIdsDistinct(s: seq<Post>)
    requires DistinctIds(s)
    ensures DistinctIds(SortByRecency(s))
    ensures Ids(SortByRecency(s)) == Ids(s)
  {
    if s != [] {
      var rest := s[1..];
      assert s == [s[0]] + rest;
      IdsCons(s[0], rest);
      SortKeepsIdsDistinct(rest);
      InsertIds(s[0], SortByRecency(rest));
    }
  }

  /** Inserting before an older post is the same with or without that post at the end. */
  lemma {:induction false} InsertBeforeOlder(p: Post, s: seq<Post>, last: Post)
    requires last.updatedAt <= p.updatedAt
    ensures Insert(p, s + [last]) == Insert(p, s) + [last]
  {
    var t := s + [last];
    if s == [] {
      assert Insert(p, t) == [p, last];
    } else if s[0].updatedAt <= p.updatedAt {
      assert t[0] == s[0];
      assert Insert(p, t) == [p] + t;
      assert Insert(p, s) == [p] + s;
    } else {
      assert t[0] == s[0] && t[1..] == s[1..] + [last];
      var x := Insert(p, s[1..]);
      InsertBeforeOlder(p, s[1..], last);
      assert Insert(p, t) == [s[0]] + (x + [last]);
      assert Insert(p, s) == [s[0]] + x;
    }
  }

  /**
   * A post that is last in the input and no newer than any other post is
   * listed last.
   */
  lemma {:induction false} OldestLastGoesLast(s: seq<Post>, p: Post)
    requires forall i :: 0 <= i < |s| ==> p.updatedAt <= s[i].updatedAt
    ensures SortByRecency(s + [p]) == SortByRecency(s) + [p]
  {
    if s == [] {
      assert [] + [p] == [p];
    } else {
      assert (s + [p])[0] == s[0];
      assert (s + [p])[1..] == s[1..] + [p];
      OldestLastGoesLast(s[1..], p);
      InsertBeforeOlder(s[0], SortByRecency(s[1..]), p);
    }
  }

  /** A post newer than every other post and last in the input is listed first. */
  lemma {:induction false} NewestGoesFirst(s: seq<Post>, p: Post)
    requires forall i :: 0 <= i < |s| ==> s[i].updatedAt < p.updatedAt
    ensures SortByRecency(s + [p]) == [p] + SortByRecency(s)
  {
    if s == [] {
      assert [] + [p] == [p];
    } else {
      assert (s + [p])[0] == s[0];
      assert (s + [p])[1..] == s[1..] + [p];
      NewestGoesFirst(s[1..], p);
      assert Insert(s[0], [p] + SortByRecency(s[1..])) == [p] + Insert(s[0], SortByRecency(s[1..]));
    }
  }

  /** Posts stored oldest first are listed newest first. */
  lemma ThreeNewestFirst(sample: Post, guide: Post, item: Post)
    requires sample.updatedAt < guide.updatedAt < item.updatedAt
    ensures SortByRecency([sample, guide, item]) == [item, guide, sample]
    ensures SortByRecency([sample, item]) == [item, sample]
  {
    var s := [sample, guide, item];
    assert s[1..] == [guide, item] && s[1..][1..] == [item] && [item][1..] == [];
    assert SortByRecency([item]) == [item];
    assert Insert(guide, []) == [guide];
    assert SortByRecency([guide, item]) == Insert(guide, [item]) == [item, guide];
    assert Insert(sample, []) == [sample];
    assert Insert(sample, [guide]) == [guide, sample];
    assert Insert(sample, [item, guide]) == [item, guide, sample];
    assert [sample, item][1..] == [item];
    assert Insert(sample, [item]) == [item, sample];
  }
}
