/** One pass of the checkpoint worker for a boost (`checkpoint_once`), as a
    pure function of the ledger clock, the checkpoint account, the scanned
    stake accounts and the checkpoint interval. What the pass submits is
    part of its result. */
module Checkpoint {
  import opened Types
  import opened Seqs
  import opened Sorting

  /** The on-ledger checkpoint: time of the last completed checkpoint and the
      id of the next stake account to process. */
  datatype CheckpointAccount = CheckpointAccount(ts: int, currentId: nat)

  /** How a pass ended. */
  datatype Outcome =
      /** The interval has not elapsed; `wait` seconds remain. Nothing is sent. */
    | IntervalNotElapsed(wait: int)
      /** The scan found no stake account for the boost. Nothing is sent. */
    | NoStakeAccounts
      /** The pass reached the cursor filter: `remaining` are the accounts
          still to rebase and `submitted` the transactions sent. */
    | Reconciled(remaining: seq<StakeAccount>, submitted: seq<Transaction>)

  /** The transactions a pass sends. */
  function Submitted(o: Outcome): seq<Transaction>
  {
    if o.Reconciled? then o.submitted else []
  }

  /** The accounts of `sorted` at or past the cursor. */
  function Remaining(sorted: seq<StakeAccount>, cursor: nat): (r: seq<StakeAccount>)
    ensures forall a :: a in r <==> a in sorted && a.id >= cursor
    ensures IsSubsequence(r, sorted)
  {
    var pending := (a: StakeAccount) => a.id >= cursor;
    FilterMembers(sorted, pending);
    FilterSubsequence(sorted, pending);
    Filter(sorted, pending)
  }

  /** The rebase with the default address that advances an interval in which
      no account is left to process. */
  function DefaultRebase(signer: Pubkey, mint: Pubkey): Transaction
  {
    [Rebase(signer, mint, DEFAULT_PUBKEY)]
  }

  /** `checkpoint_once`: wait out the interval, scan, sort by id, keep the
      accounts from the cursor on, and send the default-address rebase when
      none is left. */
  function CheckpointOnce(now: int, checkpoint: CheckpointAccount, accounts: seq<StakeAccount>,
                          interval: int, signer: Pubkey, mint: Pubkey): (r: Outcome)
    ensures r.IntervalNotElapsed? <==> now - checkpoint.ts < interval
    ensures r.IntervalNotElapsed? ==> r.wait > 0 && now - checkpoint.ts + r.wait == interval
    ensures r.NoStakeAccounts? <==> now - checkpoint.ts >= interval && |accounts| == 0
    ensures r.Reconciled? ==>
      && SortedById(r.remaining)
      && (forall a :: a in r.remaining <==> a in accounts && a.id >= checkpoint.currentId)
    ensures r.Reconciled? ==>
      var s := SortById(accounts);
      && |r.remaining| <= |s|
      && r.remaining == s[|s| - |r.remaining|..]
      && (forall i :: 0 <= i < |s| - |r.remaining| ==> s[i].id < checkpoint.currentId)
    ensures r.Reconciled? && r.remaining == [] ==> r.submitted == [DefaultRebase(signer, mint)]
    ensures r.Reconciled? && r.remaining != [] ==> r.submitted == []
  {
    var timeSinceLast := now - checkpoint.ts;
    if timeSinceLast < interval then
      IntervalNotElapsed(interval - timeSinceLast)
    else if |accounts| == 0 then
      NoStakeAccounts
    else
      var sorted := SortById(accounts);
      var remaining := Remaining(sorted, checkpoint.currentId);
      SortKeepsMembers(accounts);
      RemainingIsSuffix(sorted, checkpoint.currentId);
      var ixs := if |remaining| == 0 then [DefaultRebase(signer, mint)] else [];
      Reconciled(remaining, ixs)
  }

  /** Over accounts sorted by id, the accounts at or past the cursor are a
      suffix: exactly the last |remaining| accounts, and every account before
      them is below the cursor. */
  lemma {:induction false} RemainingIsSuffix(sorted: seq<StakeAccount>, cursor: nat)
    requires SortedById(sorted)
    ensures var r := Remaining(sorted, cursor);
      && r == sorted[|sorted| - |r|..]
      && (forall i :: 0 <= i < |sorted| - |r| ==> sorted[i].id < cursor)
  {
    var pending := (a: StakeAccount) => a.id >= cursor;
    if |sorted| > 0 {
      if sorted[0].id >= cursor {
        FilterAll(sorted, pending);
      } else {
        assert SortedById(sorted[1..]);
        RemainingIsSuffix(sorted[1..], cursor);
        assert Remaining(sorted, cursor) == Remaining(sorted[1..], cursor);
        var r := Remaining(sorted, cursor);
        assert sorted[1..][|sorted| - 1 - |r|..] == sorted[|sorted| - |r|..];
        assert forall i :: 1 <= i < |sorted| - |r| ==> sorted[i] == sorted[1..][i - 1];
      }
    }
  }

  /** Recomputing a pass over the same stake accounts, with distinct ids,
      scanned in any order, gives the same outcome: the same remaining
      accounts in the same order and the same submissions. */
  lemma {:induction false} PassOrderIndependent(now: int, checkpoint: CheckpointAccount, a1: seq<StakeAccount>,
                             a2: seq<StakeAccount>, interval: int, signer: Pubkey, mint: Pubkey)
    requires multiset(a1) == multiset(a2) && DistinctIds(a1)
    ensures CheckpointOnce(now, checkpoint, a1, interval, signer, mint)
         == CheckpointOnce(now, checkpoint, a2, interval, signer, mint)
  {
    assert |a1| == |multiset(a1)| == |multiset(a2)| == |a2|;
    SortOrderIndependent(a1, a2);
  }

  /** A pass sends something exactly when the interval has elapsed, the scan
      found accounts and none of them is at or past the cursor; what it sends
      then is one transaction holding the default-address rebase. */
  lemma {:induction false} DefaultRebaseIff(now: int, checkpoint: CheckpointAccount, accounts: seq<StakeAccount>,
                         interval: int, signer: Pubkey, mint: Pubkey)
    ensures var sent := Submitted(CheckpointOnce(now, checkpoint, accounts, interval, signer, mint));
      && (sent != [] <==>
            && now - checkpoint.ts >= interval
            && |accounts| > 0
            && (forall i :: 0 <= i < |accounts| ==> accounts[i].id < checkpoint.currentId))
      && (sent != [] ==> sent == [DefaultRebase(signer, mint)])
  {
    var o := CheckpointOnce(now, checkpoint, accounts, interval, signer, mint);
    if o.Reconciled? {
      if o.remaining == [] {
        forall i | 0 <= i < |accounts|
          ensures accounts[i].id < checkpoint.currentId
        {
          assert accounts[i] !in o.remaining;
        }
      } else {
        assert o.remaining[0] in accounts;
      }
    }
  }

  /** `run`: does nothing and succeeds. */
  function Run(): (r: Result<seq<Transaction>>)
    ensures r.Ok? && r.value == []
  {
    Ok([])
  }
}
