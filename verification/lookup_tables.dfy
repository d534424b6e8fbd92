/** The pure parts of lookup-table synchronisation for one boost: which
    stake accounts are already held by a lookup table, which fetched table
    still has room, and how an extension is cut into instructions and
    bundles. The fetched tables, the stake accounts and the signer are
    parameters; submission is the returned list of bundles. */
module LookupTables {
  import opened Types
  import opened Seqs

  /** A lookup table holds at most this many addresses. */
  const MAX_ACCOUNTS_PER_LUT: nat := 256

  /** Addresses carried by one extend instruction. */
  const EXTEND_CHUNK: nat := 26

  /** Transactions sent together in one bundle. */
  const BUNDLE_SIZE: nat := 5

  /** Some fetched table holds `address`. */
  predicate IsTabled(tables: seq<LookupTable>, address: Pubkey)
  {
    exists i :: 0 <= i < |tables| && address in tables[i].addresses
  }

  /** The addresses of every fetched table, table after table. */
  function TabledAddresses(tables: seq<LookupTable>): (r: seq<Pubkey>)
    ensures forall a :: a in r <==> IsTabled(tables, a)
  {
    if |tables| == 0 then []
    else
      var rest := TabledAddresses(tables[1..]);
      assert forall a :: IsTabled(tables, a) <==> a in tables[0].addresses || IsTabled(tables[1..], a) by {
        forall a
          ensures IsTabled(tables, a) <==> a in tables[0].addresses || IsTabled(tables[1..], a)
        {
          if IsTabled(tables[1..], a) {
            var i :| 0 <= i < |tables[1..]| && a in tables[1..][i].addresses;
            assert a in tables[i + 1].addresses;
          }
          if IsTabled(tables, a) && a !in tables[0].addresses {
            var i :| 0 <= i < |tables| && a in tables[i].addresses;
            assert tables[1..][i - 1] == tables[i];
          }
        }
      }
      tables[0].addresses + rest
  }

  /** The total number of tabled addresses is the sum of the tables' sizes. */
  function TotalSize(tables: seq<LookupTable>): nat
  {
    if |tables| == 0 then 0 else |tables[0].addresses| + TotalSize(tables[1..])
  }

  lemma {:induction false} TabledAddressesCount(tables: seq<LookupTable>)
    ensures |TabledAddresses(tables)| == TotalSize(tables)
  {
    if |tables| > 0 {
      TabledAddressesCount(tables[1..]);
    }
  }

  /** The stake accounts no fetched table holds yet, in their original order. */
  function Untabled(accounts: seq<StakeAccount>, tables: seq<LookupTable>): (r: seq<StakeAccount>)
    ensures forall x :: x in r <==> x in accounts && !IsTabled(tables, x.address)
    ensures forall x :: multiset(r)[x] == if IsTabled(tables, x.address) then 0 else multiset(accounts)[x]
    ensures IsSubsequence(r, accounts)
  {
    var tabled := TabledAddresses(tables);
    var untabled := (acct: StakeAccount) => acct.address !in tabled;
    FilterMembers(accounts, untabled);
    FilterMultiset(accounts, untabled);
    FilterSubsequence(accounts, untabled);
    Filter(accounts, untabled)
  }

  /** The tables that can take more addresses, in fetch order. */
  function WithCapacity(tables: seq<LookupTable>): seq<LookupTable>
  {
    Filter(tables, (t: LookupTable) => |t.addresses| < MAX_ACCOUNTS_PER_LUT)
  }

  /** The capacity choice of `sync`: the first fetched table holding fewer
      than 256 addresses, or none when every table is full. */
  function FirstWithCapacity(tables: seq<LookupTable>): (r: Option<LookupTable>)
    ensures r.None? <==> forall i :: 0 <= i < |tables| ==> |tables[i].addresses| >= MAX_ACCOUNTS_PER_LUT
    ensures r.Some? ==>
      exists i :: && 0 <= i < |tables| && tables[i] == r.value
                  && |r.value.addresses| < MAX_ACCOUNTS_PER_LUT
                  && (forall j :: 0 <= j < i ==> |tables[j].addresses| >= MAX_ACCOUNTS_PER_LUT)
  {
    var open := WithCapacity(tables);
    if |open| == 0 then
      FilterMembers(tables, (t: LookupTable) => |t.addresses| < MAX_ACCOUNTS_PER_LUT);
      assert forall i :: 0 <= i < |tables| ==> tables[i] !in open;
      None
    else
      FilterHead(tables, (t: LookupTable) => |t.addresses| < MAX_ACCOUNTS_PER_LUT);
      Some(open[0])
  }

  /** The instruction adding `chunk` to `table`, signed and paid for by `authority`. */
  function ExtendInstruction(table: Pubkey, authority: Pubkey, chunk: seq<Pubkey>): Instruction
  {
    ExtendLookupTable(table, authority, authority, chunk)
  }

  /** One single-instruction transaction per chunk of 26 addresses. */
  function ExtendTransactions(table: Pubkey, authority: Pubkey, addresses: seq<Pubkey>): (r: seq<Transaction>)
  {
    var chunks := Chunks(addresses, EXTEND_CHUNK);
    seq(|chunks|, i requires 0 <= i < |chunks| => [ExtendInstruction(table, authority, chunks[i])])
  }

  /** The bundles `extend_lookup_table` sends: the transactions grouped five
      at a time, the last group possibly smaller. */
  function ExtendPlan(table: Pubkey, authority: Pubkey, addresses: seq<Pubkey>): seq<Bundle>
  {
    Chunks(ExtendTransactions(table, authority, addresses), BUNDLE_SIZE)
  }

  /** The addresses named by the extend instructions of `txs`, in order. */
  function ExtendedAddresses(txs: seq<Transaction>): seq<Pubkey>
  {
    if |txs| == 0 then []
    else
      var here := seq(|txs[0]|, i requires 0 <= i < |txs[0]| =>
        if txs[0][i].ExtendLookupTable? then txs[0][i].newAddresses else []);
      Flatten(here) + ExtendedAddresses(txs[1..])
  }

  /** The extend transactions name every address once, in input order. */
  lemma {:induction false} ExtendTransactionsCover(table: Pubkey, authority: Pubkey, chunks: seq<seq<Pubkey>>)
    ensures ExtendedAddresses(seq(|chunks|, i requires 0 <= i < |chunks| =>
      [ExtendInstruction(table, authority, chunks[i])])) == Flatten(chunks)
  {
    var txs := seq(|chunks|, i requires 0 <= i < |chunks| => [ExtendInstruction(table, authority, chunks[i])]);
    if |chunks| > 0 {
      var tail := seq(|chunks[1..]|, i requires 0 <= i < |chunks[1..]| =>
        [ExtendInstruction(table, authority, chunks[1..][i])]);
      assert txs[1..] == tail;
      ExtendTransactionsCover(table, authority, chunks[1..]);
      var here := seq(|txs[0]|, i requires 0 <= i < |txs[0]| =>
        if txs[0][i].ExtendLookupTable? then txs[0][i].newAddresses else []);
      assert here == [chunks[0]];
      assert Flatten(here) == chunks[0] + Flatten(here[1..]);
    }
  }

  /** Shape of an extension: every address is sent exactly once, in order,
      through one extend instruction per transaction, at most 26 addresses
      per instruction and at most 5 transactions per bundle, in
      ceil(ceil(n / 26) / 5) bundles; nothing is sent for no addresses. */
  lemma {:induction false} ExtendPlanShape(table: Pubkey, authority: Pubkey, addresses: seq<Pubkey>)
    ensures var plan := ExtendPlan(table, authority, addresses);
      && ExtendedAddresses(Flatten(plan)) == addresses
      && (forall b :: 0 <= b < |plan| ==> 0 < |plan[b]| <= BUNDLE_SIZE)
      && (forall b, t :: 0 <= b < |plan| && 0 <= t < |plan[b]| ==>
            exists chunk :: plan[b][t] == [ExtendInstruction(table, authority, chunk)]
              && 0 < |chunk| <= EXTEND_CHUNK)
      && |Flatten(plan)| == (|addresses| + EXTEND_CHUNK - 1) / EXTEND_CHUNK
      && |plan| == (|Flatten(plan)| + BUNDLE_SIZE - 1) / BUNDLE_SIZE
      && (|addresses| == 0 <==> plan == [])
  {
    var chunks := Chunks(addresses, EXTEND_CHUNK);
    var txs := ExtendTransactions(table, authority, addresses);
    var plan := ExtendPlan(table, authority, addresses);
    ExtendTransactionsCover(table, authority, chunks);
    ChunksCount(addresses, EXTEND_CHUNK);
    ChunksCount(txs, BUNDLE_SIZE);
    forall b, t | 0 <= b < |plan| && 0 <= t < |plan[b]|
      ensures exists chunk :: (plan[b][t] == [ExtendInstruction(table, authority, chunk)]
                                 && 0 < |chunk| <= EXTEND_CHUNK)
    {
      TransactionOfPlan(txs, b, t);
      assert plan[b][t] == [ExtendInstruction(table, authority, chunks[5 * b + t])];
    }
  }

  /** The `t`-th transaction of the `b`-th bundle is transaction `5 * b + t`
      of the sequence that was grouped. */
  lemma TransactionOfPlan<T>(s: seq<T>, b: nat, t: nat)
    requires b < |Chunks(s, BUNDLE_SIZE)| && t < |Chunks(s, BUNDLE_SIZE)[b]|
    ensures 5 * b + t < |s| && Chunks(s, BUNDLE_SIZE)[b][t] == s[5 * b + t]
  {
    FlattenIndex(Chunks(s, BUNDLE_SIZE), BUNDLE_SIZE, b, t);
  }

  /** Full bundles followed by the flushed remainder of the buffer are the
      transactions grouped five at a time. */
  lemma FlushCompletesPlan<T>(sent: seq<seq<T>>, buffer: seq<T>, txs: seq<T>)
    requires Flatten(sent) + buffer == txs && |buffer| < BUNDLE_SIZE
    requires forall j :: 0 <= j < |sent| ==> |sent[j]| == BUNDLE_SIZE
    ensures (if |buffer| > 0 then sent + [buffer] else sent) == Chunks(txs, BUNDLE_SIZE)
  {
    if |buffer| > 0 {
      FlattenSnoc(sent, buffer);
      ChunksUnique(sent + [buffer], txs, BUNDLE_SIZE);
    } else {
      assert Flatten(sent) == txs;
      ChunksUnique(sent, txs, BUNDLE_SIZE);
    }
  }

  /** One step of the send loop: the transaction joins the buffer, and a
      buffer that reaches five transactions is sent as a bundle and cleared.
      Nothing is lost or reordered, and only full bundles are sent. */
  method PushTransaction(sent: seq<Bundle>, buffer: Bundle, tx: Transaction)
    returns (sent': seq<Bundle>, buffer': Bundle)
    requires |buffer| < BUNDLE_SIZE
    ensures Flatten(sent') + buffer' == Flatten(sent) + buffer + [tx]
    ensures |buffer'| < BUNDLE_SIZE
    ensures sent' == sent || sent' == sent + [buffer + [tx]]
    ensures sent' != sent ==> |buffer + [tx]| == BUNDLE_SIZE
  {
    buffer' := buffer + [tx];
    sent' := sent;
    if |buffer'| == BUNDLE_SIZE {
      FlattenSnoc(sent, buffer');
      sent' := sent + [buffer'];
      buffer' := [];
    }
  }

  /** `extend_lookup_table`: one extend instruction per chunk of 26
      addresses, each in its own transaction, collected into a buffer that is
      sent as a bundle whenever it holds five transactions; a non-empty
      remainder is sent as a last bundle. Returns the bundles in send order. */
  method ExtendLookupTableBundles(table: Pubkey, authority: Pubkey, stakeAccounts: seq<Pubkey>)
    returns (sent: seq<Bundle>)
    ensures sent == ExtendPlan(table, authority, stakeAccounts)
    ensures ExtendedAddresses(Flatten(sent)) == stakeAccounts
    ensures forall b :: 0 <= b < |sent| ==> 0 < |sent[b]| <= BUNDLE_SIZE
    ensures |sent| == ((|stakeAccounts| + EXTEND_CHUNK - 1) / EXTEND_CHUNK + BUNDLE_SIZE - 1) / BUNDLE_SIZE
    ensures |stakeAccounts| == 0 ==> sent == []
  {
    var chunks := Chunks(stakeAccounts, EXTEND_CHUNK);
    ghost var txs := ExtendTransactions(table, authority, stakeAccounts);
    var bundles: Bundle := [];
    sent := [];
    var i := 0;
    while i < |chunks|
      invariant 0 <= i <= |chunks|
      invariant |bundles| < BUNDLE_SIZE
      invariant Flatten(sent) + bundles == txs[..i]
      invariant forall j :: 0 <= j < |sent| ==> |sent[j]| == BUNDLE_SIZE
    {
      var tx := [ExtendInstruction(table, authority, chunks[i])];
      assert txs[..i + 1] == txs[..i] + [tx];
      sent, bundles := PushTransaction(sent, bundles, tx);
      i := i + 1;
    }
    assert txs[..i] == txs;
    FlushCompletesPlan(sent, bundles, txs);
    if |bundles| > 0 {
      sent := sent + [bundles];
    }
    ExtendPlanShape(table, authority, stakeAccounts);
  }
}
