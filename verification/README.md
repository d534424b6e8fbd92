# ORE boost rebase worker: lookup-table registry and checkpoint decision

This project models, in Dafny, the two pure cores of the ORE boost rebase
worker. Everything the worker does over the network or on disk is left out.
File contents, fetched accounts, the ledger clock and the checkpoint
interval are parameters. What the worker would submit is returned as a value.

The first core is the lookup-table logic of `src/lookup_tables.rs`:

- **Registry codec** (module `Registry`).
  - `write_file` appends one 33-byte record per table address: the 32 address bytes, then `'\n'`.
  - `read_file` splits the file at newline bytes and pops the last byte of each line. It keeps every line whose remainder is exactly 32 bytes.
- **Tabled/untabled split and capacity choice** (module `LookupTables`).
  - The stake accounts that no fetched table holds are split off.
  - The first fetched table with fewer than 256 addresses is selected.
- **Extend batching** (`extend_lookup_table`). Addresses are cut into chunks of 26. Each chunk becomes a one-instruction transaction. Transactions are sent in bundles of five, and a final partial bundle is flushed.

The second core is `checkpoint_once` in `src/checkpoint.rs` (module
`Checkpoint`, with the stable sort in module `Sorting`). It covers:

- the interval gate;
- the stable sort of the scanned stake accounts by stake id;
- the cursor filter `id >= current_id`;
- the single rebase naming the default (all-zero) address, sent when no account is left at or past the cursor.

`run` is a no-op that succeeds.

Module `Types` holds the shared values:

- addresses are `seq<bv8>` of length 32;
- stake accounts, lookup tables and instructions are datatypes;
- a transaction is a list of instructions, and a bundle is a list of transactions.

Module `Seqs` holds the generic sequence tools the cores are built from: `Filter`, `Flatten` and `Chunks` (the model of Rust's `slice::chunks`).

## Model

| member | source | states |
|---|---|---|
| Seqs.Chunks | src/lookup_tables.rs:73 | `chunks(k)`: the chunks concatenate back to the input, every chunk holds 1..k elements, and every chunk but the last holds exactly k |
| Seqs.ChunksCount | src/lookup_tables.rs:73 | the number of chunks is the ceiling of n/k: `n <= chunks*k < n + k` |
| Seqs.ChunksUnique | src/lookup_tables.rs:82-95 | any partition into full groups of k followed by one non-empty group of at most k is exactly `Chunks` |
| Registry.WriteFile | src/lookup_tables.rs:116-123 | appending keeps the earlier contents byte for byte as a prefix and adds exactly 33 bytes per address; a missing file is created |
| Registry.Encode | src/lookup_tables.rs:120-123 | the write loop turns every address into one record of its 32 bytes and a newline, so n addresses take exactly 33*n bytes |
| Registry.EncodeLayout | src/lookup_tables.rs:120-123 | the i-th address written sits at offset 33*i, followed by a newline byte |
| Registry.WriteFileLayout | src/lookup_tables.rs:116-123 | after a write, the i-th new address and its newline sit 33*i bytes past the end of the earlier contents |
| Registry.EncodeAppend | src/lookup_tables.rs:116-123 | two appending writes leave the same bytes as one write of both address lists in call order |
| Registry.ReadUntil | src/lookup_tables.rs:139 | `read_until(b'\n')` returns no more bytes than remain, and at least one byte while any remain, so the read loop advances |
| Registry.ReadUntilSpec | src/lookup_tables.rs:139 | the line read is a prefix of the input with no newline before its last byte; it ends in a newline unless it takes the whole input, and it takes the whole input when the input has no newline |
| Registry.DecodeLine | src/lookup_tables.rs:141-154 | after the pop, a line decodes exactly when it was 33 bytes long, to its first 32 bytes; otherwise it is an `InvalidPubkeyBytes` error |
| Registry.ReadFile | src/lookup_tables.rs:129-160 | a missing file is an error and is the only error; otherwise the line-by-line loop returns exactly the addresses of the recursive line parser `Registry.ParseRecords`, in file order, and never fails on a malformed line |
| Registry.ReadUntilLine | src/lookup_tables.rs:139 | a newline-free line followed by a newline is read as one line, whatever follows |
| Registry.ParseLine | src/lookup_tables.rs:139-151 | a terminated line yields its bytes as an address exactly when it holds 32 bytes, and reading continues with the rest of the file |
| Registry.ParseConcat | src/lookup_tables.rs:139-157 | reading a terminated part and then more bytes gives the addresses of the first part followed by those of the rest |
| Registry.SkipMalformed | src/lookup_tables.rs:144-156 | a terminated line that is not 32 bytes long is skipped, and every line after it is still read |
| Registry.UnterminatedLine | src/lookup_tables.rs:139-142 | a last line without a newline still loses its last byte, so it yields an address only when it holds 33 bytes |
| Registry.UnterminatedRecordDropped | src/lookup_tables.rs:139-142 | an address written without its newline after terminated records is not read back, whatever bytes it holds, newline bytes included |
| Registry.RoundTrip | src/lookup_tables.rs:120-151 | when no address holds a newline byte, reading what was written returns the same addresses in the same order |
| Registry.AppendThenRead | src/lookup_tables.rs:116-157 | appending newline-free addresses to a terminated registry and reading it returns the earlier addresses followed by the new ones |
| Registry.ParseRecordsBound | src/lookup_tables.rs:139-151 | 32 bytes per address read plus one per newline byte never exceed the file's size |
| Registry.EncodeNewlines | src/lookup_tables.rs:120-123 | written bytes hold at least one newline per address, and more when some address holds a newline byte |
| Registry.RoundTripIff | src/lookup_tables.rs:120-151 | the round trip holds exactly when no written address holds a newline byte |
| Registry.SingleRoundTripIff | src/lookup_tables.rs:120-151 | a single address reads back exactly when it is newline-free; otherwise nothing at all is read back |
| Registry.NewlineAddressIsLost | src/lookup_tables.rs:120-151 | a concrete address starting with byte 0x0A, written to a new registry, reads back as no address at all |
| Registry.ParseFixedWidth | src/lookup_tables.rs:139-151 | corrected reader: takes 33-byte frames and yields at most one address per frame |
| Registry.FixedWidthRoundTrip | src/lookup_tables.rs:120-151 | corrected reader: every written address list reads back unchanged, whatever bytes the addresses hold |
| Registry.FixedWidthAppendThenRead | src/lookup_tables.rs:116-151 | corrected reader: after appending to a registry, the earlier addresses and then the new ones read back |
| Registry.FixedWidthLosesResync | src/lookup_tables.rs:139-156 | what the corrected reader gives up: after a short malformed line it reads the following record out of step and loses it, where the newline-splitting reader skips the line and still returns the record |
| LookupTables.TabledAddresses | src/lookup_tables.rs:34-37 | an address is in the tabled list exactly when some fetched table holds it |
| LookupTables.TabledAddressesCount | src/lookup_tables.rs:34-37 | the tabled list is as long as the tables' sizes added up, so duplicates across tables are kept |
| LookupTables.Untabled | src/lookup_tables.rs:38-41 | the untabled accounts are exactly the input accounts whose address no table holds, each with its input multiplicity, and they form a subsequence of the input, so input order is kept |
| LookupTables.FirstWithCapacity | src/lookup_tables.rs:53-57 | none exactly when every table holds at least 256 addresses; otherwise the chosen table has fewer than 256 and every table fetched before it is full |
| LookupTables.ExtendTransactionsCover | src/lookup_tables.rs:73-81 | one extend transaction per chunk names the chunks' addresses in order |
| LookupTables.ExtendPlanShape | src/lookup_tables.rs:72-95 | the bundles name every address once, in order, through one extend instruction per transaction carrying 1..26 addresses; each bundle holds 1..5 transactions; there are ceil(n/26) transactions in ceil(ceil(n/26)/5) bundles; and no address means no bundle |
| LookupTables.TransactionOfPlan | src/lookup_tables.rs:82-95 | the t-th transaction of the b-th bundle is transaction 5*b+t of the sequence that was grouped |
| LookupTables.PushTransaction | src/lookup_tables.rs:81-87 | one step of the send loop: the buffer takes the transaction, and a buffer that reaches five transactions is sent and cleared, so nothing is lost or reordered and only full bundles go out |
| LookupTables.FlushCompletesPlan | src/lookup_tables.rs:89-95 | the full bundles sent in the loop followed by the flushed non-empty remainder are exactly the transactions grouped five at a time |
| LookupTables.ExtendLookupTableBundles | src/lookup_tables.rs:72-95 | the buffered send loop with its final flush sends exactly the planned bundles: every address in order, bundles of 1..5 transactions, ceil(ceil(n/26)/5) of them, and none for no addresses |
| Sorting.Insert | src/checkpoint.rs:35 | inserting into an id-sorted list keeps it sorted, adds exactly the new account, and puts it first when no smaller id precedes it |
| Sorting.InsertStable | src/checkpoint.rs:35 | insertion puts the new account before the accounts sharing its id and leaves every other id's accounts in place |
| Sorting.SortById | src/checkpoint.rs:35 | the result has non-decreasing ids and is a permutation of the input |
| Sorting.SortKeepsMembers | src/checkpoint.rs:35 | the sorted list holds exactly the accounts of the input |
| Sorting.SortStable | src/checkpoint.rs:35 | for every id, the accounts with that id leave the sort in the order they entered it |
| Sorting.SortedProjectionsUnique | src/checkpoint.rs:35 | two id-sorted lists that agree on the accounts of every id are equal, so a stable sort by id has one possible result |
| Sorting.PermutationSameProjections | src/checkpoint.rs:35 | rearranging accounts with distinct ids changes no id's accounts |
| Sorting.SortOrderIndependent | src/checkpoint.rs:35 | accounts with distinct ids sort to the same list whatever order they arrive in |
| Checkpoint.Remaining | src/checkpoint.rs:37-40 | the remaining accounts are exactly the sorted accounts with id at or past the cursor, as a subsequence of the sorted list |
| Checkpoint.RemainingIsSuffix | src/checkpoint.rs:37-40 | over an id-sorted list the remaining accounts are a suffix, and every account before them is below the cursor |
| Checkpoint.CheckpointOnce | src/checkpoint.rs:20-54 | the pass stops exactly when less than the interval has elapsed, with a strictly positive wait that completes the interval; it stops with nothing sent exactly when the interval has elapsed and the scan is empty; otherwise the remaining accounts are id-sorted and are exactly the scanned accounts at or past the cursor, and they are the tail of the stable sort by id, every account before that tail being below the cursor, so no account is duplicated and accounts with equal ids keep their scan order; one default-address rebase is sent when none remain, and nothing is sent otherwise |
| Checkpoint.PassOrderIndependent | src/checkpoint.rs:35-40 | for accounts with distinct ids, the order of the scan changes neither the remaining accounts nor what is sent |
| Checkpoint.DefaultRebaseIff | src/checkpoint.rs:42-53 | a pass sends something exactly when the interval has elapsed, the scan is non-empty and every id is below the cursor; it then sends one transaction holding the default-address rebase |
| Checkpoint.Run | src/checkpoint.rs:7-9 | `run` succeeds and submits nothing |

## Left out

- `src/client.rs`, `src/main.rs` and `src/error.rs` are not part of this model. They hold RPC wrappers, configuration, logger start-up and the error enum. `InvalidPubkeyBytes` is mirrored as an `Error` variant.
- File system access and `luts_path`, including the `LUTS_PATH` variable and the path formatting at src/lookup_tables.rs:113-114 and 131-132. A file is its byte contents. A missing file is `None`: `WriteFile` creates it and `ReadFile` returns `RegistryFileMissing`. Other I/O errors of `open`, `write_all` and `read_until` are not modelled.
- `create_lookup_table`, the boost and checkpoint address derivations, and fetching the boost account. They depend on RPC and hash-based address derivation.
- The extend call inside `sync` (src/lookup_tables.rs:59-62). It names an undefined `lookup_table` and would not compile. The tabled/untabled split and the capacity choice are modelled on their own, and nothing is invented for tables without capacity.
- Bundle and transaction submission, and logging.
  - Submissions are returned values.
  - `ExtendLookupTableBundles` returns every bundle in send order. In the source, a failed send ends the function and the later bundles are never sent.
  - `CheckpointOnce` returns the rebase transaction instead of sending it. A failed send or a failed fetch, which the source propagates with `?`, is not modelled.
- `CHECKPOINT_INTERVAL` is a parameter of `CheckpointOnce`. No property needs it to be positive.
- CheckpointOnce: `clock.unix_timestamp - checkpoint.ts` is computed on unbounded integers, so the model does not cover a 64-bit overflow of that subtraction.
- When the scan finds no stake account, the code returns without sending anything (src/checkpoint.rs:30-33). The comment at src/checkpoint.rs:44-46 says the default-address rebase is meant for the case where the total number of stakers is zero, but that early return makes the case unreachable: the default rebase goes out only when stake accounts exist and all of them are below the cursor (`Checkpoint.DefaultRebaseIff`). The model follows the code.
- Table rotation, deactivation and closing, and the cross-table invariant that no address is held by two tables for one pool. None of them exists in this code.

## Findings

| source | as written | input that shows it | evidently intended | confidence | as-written member | corrected member |
|---|---|---|---|---|---|---|
| src/lookup_tables.rs:120-151 | records are raw 32-byte addresses separated by `'\n'`, and the reader splits at every newline byte | a table address with a 0x0A byte, e.g. `0x0A` followed by 31 zero bytes: the record splits into two short lines, both are skipped, and the table is forgotten | every written table address reads back; the fixed-width correction achieves this but no longer resynchronises after a malformed line | not executed; high, because a 0x0A byte occurs in roughly one address in nine | Registry.NewlineAddressIsLost | Registry.FixedWidthRoundTrip |

The as-written reader is `Registry.ParseRecords`, the reference definition that `Registry.ReadFile` is proved to compute. `Registry.RoundTripIff` shows that its round trip holds exactly for newline-free addresses. The corrected reader, `Registry.ParseFixedWidth`, reads the same file format by its fixed 33-byte records. It returns every address written, whatever bytes they hold. It trades resynchronisation for that: a malformed line of the wrong length puts the fixed-width reader out of step with the records after it, while the newline-splitting reader skips the line and still returns every later well-formed record (`Registry.SkipMalformed` against `Registry.FixedWidthLosesResync`). A file written only by `write_file` has no such line. No other part of this model consumes the reader's output, because the fetched tables are a parameter of the lookup-table functions.
