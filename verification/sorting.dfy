/** Stable sorting of stake accounts by stake id (`sort_by` on the ids).
    The model sorts by insertion; `SortedProjectionsUnique` shows that every
    stable sort by id yields the same sequence, so the choice of algorithm
    does not matter. */
module Sorting {
  import opened Types
  import opened Seqs

  /** Ids never decrease along `s`. */
  predicate SortedById(s: seq<StakeAccount>)
  {
    forall i, j :: 0 <= i < j < |s| ==> s[i].id <= s[j].id
  }

  /** No two accounts of `s` share a stake id. */
  predicate DistinctIds(s: seq<StakeAccount>)
  {
    forall i, j :: 0 <= i < j < |s| ==> s[i].id != s[j].id
  }

  /** The accounts of `s` whose stake id is `v`, in their order in `s`. */
  function WithId(s: seq<StakeAccount>, v: nat): seq<StakeAccount>
  {
    Filter(s, (a: StakeAccount) => a.id == v)
  }

  /** An account no larger than the head of a sorted list can go in front. */
  lemma SortedCons(y: StakeAccount, t: seq<StakeAccount>)
    requires SortedById(t) && (|t| == 0 || y.id <= t[0].id)
    ensures SortedById([y] + t)
  {
    var r := [y] + t;
    forall i, j | 0 <= i < j < |r|
      ensures r[i].id <= r[j].id
    {
      if i > 0 {
        assert r[i] == t[i - 1] && r[j] == t[j - 1];
      } else if j > 1 {
        assert r[j] == t[j - 1];
        assert t[0].id <= t[j - 1].id;
      }
    }
  }

  /** `x` placed before the first account whose id is not smaller. */
  function Insert(x: StakeAccount, s: seq<StakeAccount>): (r: seq<StakeAccount>)
    requires SortedById(s)
    ensures SortedById(r)
    ensures multiset(r) == multiset(s) + multiset{x}
    ensures |r| > 0 && r[0] == if |s| == 0 || x.id <= s[0].id then x else s[0]
  {
    if |s| == 0 || x.id <= s[0].id then
      SortedCons(x, s);
      [x] + s
    else
      assert SortedById(s[1..]);
      var rest := Insert(x, s[1..]);
      assert s == [s[0]] + s[1..];
      assert s[0].id <= rest[0].id;
      SortedCons(s[0], rest);
      [s[0]] + rest
  }

  lemma WithIdCons(y: StakeAccount, t: seq<StakeAccount>, v: nat)
    ensures WithId([y] + t, v) == (if y.id == v then [y] else []) + WithId(t, v)
  {
    assert ([y] + t)[0] == y;
    assert ([y] + t)[1..] == t;
  }

  /** Inserting `x` adds it in front of the accounts that share its id and
      leaves the accounts of every other id as they were. */
  lemma {:induction false} InsertStable(x: StakeAccount, s: seq<StakeAccount>, v: nat)
    requires SortedById(s)
    ensures WithId(Insert(x, s), v) == (if x.id == v then [x] else []) + WithId(s, v)
  {
    if |s| == 0 || x.id <= s[0].id {
      WithIdCons(x, s, v);
    } else {
      var rest := Insert(x, s[1..]);
      assert Insert(x, s) == [s[0]] + rest;
      WithIdCons(s[0], rest, v);
      InsertStable(x, s[1..], v);
      assert s == [s[0]] + s[1..];
      WithIdCons(s[0], s[1..], v);
      if x.id == v {
        assert s[0].id != v;
        assert WithId(Insert(x, s), v) == WithId(rest, v);
        assert WithId(s, v) == WithId(s[1..], v);
      } else {
        assert WithId(rest, v) == WithId(s[1..], v);
      }
    }
  }

  /** Sorts by stake id, keeping accounts with equal ids in input order. */
  function SortById(s: seq<StakeAccount>): (r: seq<StakeAccount>)
    ensures SortedById(r)
    ensures multiset(r) == multiset(s)
  {
    if |s| == 0 then []
    else
      assert s == [s[0]] + s[1..];
      Insert(s[0], SortById(s[1..]))
  }

  /** The sorted list holds exactly the accounts of the input. */
  lemma SortKeepsMembers(s: seq<StakeAccount>)
    ensures forall a :: a in SortById(s) <==> a in s
  {
    var r := SortById(s);
    forall a
      ensures a in r <==> a in s
    {
      assert a in r <==> a in multiset(r);
      assert a in s <==> a in multiset(s);
    }
  }

  /** The sort is stable: for every id, the accounts carrying it come out in
      the order they went in. */
  lemma {:induction false} SortStable(s: seq<StakeAccount>, v: nat)
    ensures WithId(SortById(s), v) == WithId(s, v)
  {
    if |s| > 0 {
      var tail := SortById(s[1..]);
      var pre := if s[0].id == v then [s[0]] else [];
      calc {
        WithId(SortById(s), v);
        WithId(Insert(s[0], tail), v);
        == { InsertStable(s[0], tail, v); }
        pre + WithId(tail, v);
        == { SortStable(s[1..], v); }
        pre + WithId(s[1..], v);
        == { WithIdCons(s[0], s[1..], v); assert s == [s[0]] + s[1..]; }
        WithId(s, v);
      }
    }
  }

  lemma HeadHasProjection(r: seq<StakeAccount>)
    requires |r| > 0
    ensures WithId(r, r[0].id) != []
  {
    WithIdCons(r[0], r[1..], r[0].id);
    assert r == [r[0]] + r[1..];
  }

  /** In a sorted sequence no account with id below the head's exists. */
  lemma HeadIsLeast(r: seq<StakeAccount>, v: nat)
    requires SortedById(r) && |r| > 0 && WithId(r, v) != []
    ensures r[0].id <= v
  {
    FilterMembers(r, (a: StakeAccount) => a.id == v);
    var y := WithId(r, v)[0];
    assert y in WithId(r, v);
  }

  /** Two sequences sorted by id that agree on the accounts of every id, in
      order, are equal: a stable sort by id has exactly one possible result. */
  lemma {:induction false} SortedProjectionsUnique(r1: seq<StakeAccount>, r2: seq<StakeAccount>)
    requires SortedById(r1) && SortedById(r2)
    requires forall v :: WithId(r1, v) == WithId(r2, v)
    ensures r1 == r2
    decreases |r1| + |r2|
  {
    if |r1| == 0 && |r2| > 0 {
      HeadHasProjection(r2);
      assert false;
    } else if |r2| == 0 && |r1| > 0 {
      HeadHasProjection(r1);
      assert false;
    } else if |r1| > 0 && |r2| > 0 {
      var x1, x2 := r1[0], r2[0];
      assert r1 == [x1] + r1[1..] && r2 == [x2] + r2[1..];
      HeadHasProjection(r1);
      HeadHasProjection(r2);
      HeadIsLeast(r1, x2.id);
      HeadIsLeast(r2, x1.id);
      var v0 := x1.id;
      WithIdCons(x1, r1[1..], v0);
      WithIdCons(x2, r2[1..], v0);
      assert x1 == WithId(r1, v0)[0] == WithId(r2, v0)[0] == x2;
      forall v
        ensures WithId(r1[1..], v) == WithId(r2[1..], v)
      {
        WithIdCons(x1, r1[1..], v);
        WithIdCons(x2, r2[1..], v);
        var pre := if v0 == v then [x1] else [];
        assert WithId(r1[1..], v) == WithId(r1, v)[|pre|..];
        assert WithId(r2[1..], v) == WithId(r2, v)[|pre|..];
      }
      SortedProjectionsUnique(r1[1..], r2[1..]);
    }
  }

  lemma {:induction false} WithIdNone(s: seq<StakeAccount>, v: nat)
    requires forall i :: 0 <= i < |s| ==> s[i].id != v
    ensures WithId(s, v) == []
  {
    if |s| > 0 {
      WithIdNone(s[1..], v);
    }
  }

  /** With distinct ids an account is identified by its id: at most one
      account carries any given id. */
  lemma {:induction false} DistinctWithIdAtMostOne(s: seq<StakeAccount>, v: nat)
    requires DistinctIds(s)
    ensures |WithId(s, v)| <= 1
  {
    if |s| > 0 {
      assert DistinctIds(s[1..]);
      DistinctWithIdAtMostOne(s[1..], v);
      assert s == [s[0]] + s[1..];
      WithIdCons(s[0], s[1..], v);
      if s[0].id == v {
        assert forall i :: 0 <= i < |s[1..]| ==> s[1..][i].id != v by {
          forall i | 0 <= i < |s[1..]|
            ensures s[1..][i].id != v
          {
            assert s[1..][i] == s[i + 1];
          }
        }
        WithIdNone(s[1..], v);
      }
    }
  }

  /** Rearranging accounts with distinct ids changes none of their
      projections by id. */
  lemma {:induction false} PermutationSameProjections(a1: seq<StakeAccount>, a2: seq<StakeAccount>, v: nat)
    requires multiset(a1) == multiset(a2) && DistinctIds(a1)
    ensures WithId(a1, v) == WithId(a2, v)
  {
    var w1, w2 := WithId(a1, v), WithId(a2, v);
    DistinctWithIdAtMostOne(a1, v);
    FilterMultiset(a1, (a: StakeAccount) => a.id == v);
    FilterMultiset(a2, (a: StakeAccount) => a.id == v);
    assert multiset(w1) == multiset(w2);
    assert |w2| == |w1|;
    if |w1| == 1 {
      assert w2[0] in multiset(w1);
    }
  }

  /** Sorting accounts with distinct ids gives the same sequence whatever
      order they arrived in. */
  lemma {:induction false} SortOrderIndependent(a1: seq<StakeAccount>, a2: seq<StakeAccount>)
    requires multiset(a1) == multiset(a2) && DistinctIds(a1)
    ensures SortById(a1) == SortById(a2)
  {
    forall v
      ensures WithId(SortById(a1), v) == WithId(SortById(a2), v)
    {
      PermutationSameProjections(a1, a2, v);
      SortStable(a1, v);
      SortStable(a2, v);
    }
    SortedProjectionsUnique(SortById(a1), SortById(a2));
  }
}
