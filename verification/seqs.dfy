/** Generic sequence operations: filtering, flattening and fixed-size
    chunking, with the facts the rest of the model relies on. */
module Seqs {

  /** `a` can be obtained from `b` by deleting elements. */
  ghost predicate IsSubsequence<T>(a: seq<T>, b: seq<T>)
    decreases |b|
  {
    |a| == 0 ||
    (|b| > 0 &&
      ((a[0] == b[0] && IsSubsequence(a[1..], b[1..])) || IsSubsequence(a, b[1..])))
  }

  /** The elements of `s` satisfying `p`, in their original order. */
  function Filter<T>(s: seq<T>, p: T -> bool): (r: seq<T>)
    ensures |r| <= |s|
    ensures forall i :: 0 <= i < |r| ==> p(r[i])
  {
    if |s| == 0 then []
    else if p(s[0]) then [s[0]] + Filter(s[1..], p)
    else Filter(s[1..], p)
  }

  /** Filtering keeps exactly the elements that pass. */
  lemma {:induction false} FilterMembers<T>(s: seq<T>, p: T -> bool)
    ensures forall x :: x in Filter(s, p) <==> x in s && p(x)
  {
    if |s| > 0 {
      FilterMembers(s[1..], p);
      assert s == [s[0]] + s[1..];
    }
  }

  /** The first element kept by a filter is the first element that passes. */
  lemma {:induction false} FilterHead<T>(s: seq<T>, p: T -> bool)
    requires |Filter(s, p)| > 0
    ensures exists i :: 0 <= i < |s| && s[i] == Filter(s, p)[0] && p(s[i]) &&
                        (forall j :: 0 <= j < i ==> !p(s[j]))
  {
    if !p(s[0]) {
      FilterHead(s[1..], p);
      var i :| 0 <= i < |s[1..]| && s[1..][i] == Filter(s[1..], p)[0] && p(s[1..][i]) &&
        forall j :: 0 <= j < i ==> !p(s[1..][j]);
      assert s[i + 1] == Filter(s, p)[0];
      assert forall j :: 0 < j < i + 1 ==> s[j] == s[1..][j - 1];
    } else {
      assert s[0] == Filter(s, p)[0];
    }
  }

  /** Filtering keeps every passing element as often as it occurs and drops
      every other. */
  lemma {:induction false} FilterMultiset<T>(s: seq<T>, p: T -> bool)
    ensures forall x :: multiset(Filter(s, p))[x] == if p(x) then multiset(s)[x] else 0
  {
    if |s| > 0 {
      FilterMultiset(s[1..], p);
      assert s == [s[0]] + s[1..];
    }
  }

  /** Filtering deletes elements and keeps the order of the others. */
  lemma {:induction false} FilterSubsequence<T>(s: seq<T>, p: T -> bool)
    ensures IsSubsequence(Filter(s, p), s)
  {
    if |s| > 0 {
      FilterSubsequence(s[1..], p);
      var r := Filter(s, p);
      if p(s[0]) {
        assert r[0] == s[0] && r[1..] == Filter(s[1..], p);
      }
    }
  }

  /** Filtering a sequence whose every element passes returns it unchanged. */
  lemma {:induction false} FilterAll<T>(s: seq<T>, p: T -> bool)
    requires forall i :: 0 <= i < |s| ==> p(s[i])
    ensures Filter(s, p) == s
  {
    if |s| > 0 {
      FilterAll(s[1..], p);
    }
  }

  /** The concatenation of a sequence of sequences. */
  function Flatten<T>(ss: seq<seq<T>>): (r: seq<T>)
    ensures |ss| == 0 ==> r == []
  {
    if |ss| == 0 then [] else ss[0] + Flatten(ss[1..])
  }

  lemma {:induction false} FlattenAppend<T>(a: seq<seq<T>>, b: seq<seq<T>>)
    ensures Flatten(a + b) == Flatten(a) + Flatten(b)
  {
    if |a| == 0 {
      assert a + b == b;
    } else {
      assert (a + b)[1..] == a[1..] + b;
      FlattenAppend(a[1..], b);
    }
  }

  lemma FlattenSnoc<T>(ss: seq<seq<T>>, s: seq<T>)
    ensures Flatten(ss + [s]) == Flatten(ss) + s
  {
    FlattenAppend(ss, [s]);
    assert Flatten([s]) == s + Flatten([s][1..]);
  }

  lemma AppendAssoc<T>(a: seq<T>, b: seq<T>, c: seq<T>)
    ensures a + (b + c) == (a + b) + c
  {
  }

  lemma TakeDrop<T>(s: seq<T>, k: nat)
    requires k <= |s|
    ensures s[..k] + s[k..] == s
  {
  }

  lemma MulPred(k: nat, b: nat)
    requires b > 0
    ensures k * b == k + k * (b - 1)
  {
  }

  /** Behind `b` pieces of `k` elements each, element `t` of piece `b` is
      element `k * b + t` of the concatenation. */
  lemma {:induction false} FlattenIndex<T>(cs: seq<seq<T>>, k: nat, b: nat, t: nat)
    requires b < |cs| && t < |cs[b]|
    requires forall i :: 0 <= i < b ==> |cs[i]| == k
    ensures k * b + t < |Flatten(cs)| && Flatten(cs)[k * b + t] == cs[b][t]
    decreases b
  {
    if b > 0 {
      FlattenIndex(cs[1..], k, b - 1, t);
      MulPred(k, b);
      assert Flatten(cs) == cs[0] + Flatten(cs[1..]);
    }
  }

  /** `s` cut into consecutive pieces of `k` elements; the last piece may be
      shorter, and no piece is empty. */
  function Chunks<T>(s: seq<T>, k: nat): (r: seq<seq<T>>)
    requires k > 0
    ensures Flatten(r) == s
    ensures forall i :: 0 <= i < |r| ==> 0 < |r[i]| <= k
    ensures forall i :: 0 <= i < |r| - 1 ==> |r[i]| == k
    decreases |s|
  {
    if |s| == 0 then []
    else if |s| <= k then [s]
    else
      assert s == s[..k] + s[k..];
      [s[..k]] + Chunks(s[k..], k)
  }

  /** One step of chunking: the first `k` elements, then the rest. */
  lemma ChunksUnfold<T>(s: seq<T>, k: nat)
    requires k > 0 && |s| > k
    ensures Chunks(s, k) == [s[..k]] + Chunks(s[k..], k)
  {
  }

  lemma MulSucc(c: nat, k: nat)
    ensures (1 + c) * k == k + c * k
  {
  }

  /** There are `|s| / k` chunks, rounded up: the fewest chunks of `k`
      elements that can hold all of `s`. */
  lemma {:induction false} ChunksCount<T>(s: seq<T>, k: nat)
    requires k > 0
    ensures |s| <= |Chunks(s, k)| * k < |s| + k
    decreases |s|
  {
    if |s| > k {
      ChunksUnfold(s, k);
      ChunksCount(s[k..], k);
      MulSucc(|Chunks(s[k..], k)|, k);
    }
  }

  /** A partition of `s` into pieces that are all exactly `k` long except a
      last one that is non-empty and at most `k` long is the one `Chunks`
      computes: chunking is characterised by its shape. */
  lemma {:induction false} ChunksUnique<T>(cs: seq<seq<T>>, s: seq<T>, k: nat)
    requires k > 0 && Flatten(cs) == s
    requires forall i :: 0 <= i < |cs| ==> 0 < |cs[i]| <= k
    requires forall i :: 0 <= i < |cs| - 1 ==> |cs[i]| == k
    ensures cs == Chunks(s, k)
    decreases |cs|
  {
    if |cs| == 1 {
      assert Flatten(cs[1..]) == [];
      assert s == cs[0];
    } else if |cs| > 1 {
      var rest := Flatten(cs[1..]);
      assert s == cs[0] + rest;
      assert |rest| > 0 by {
        assert cs[1..][0] == cs[1];
      }
      ChunksUnique(cs[1..], rest, k);
      assert s[..k] == cs[0] && s[k..] == rest;
      assert cs == [cs[0]] + cs[1..];
    }
  }
}
