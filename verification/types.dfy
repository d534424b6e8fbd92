/** Values shared by the lookup-table registry and the checkpoint logic:
    bytes, 32-byte public keys, stake accounts and the instructions the
    worker submits. */
module Types {

  type Byte = bv8

  /** The record delimiter of the lookup-table registry file. */
  const NEWLINE: Byte := 0x0A

  /** Width of a ledger address in bytes. */
  const PUBKEY_LEN: nat := 32

  /** `n` zero bytes. */
  function Zeros(n: nat): (r: seq<Byte>)
    ensures |r| == n
  {
    if n == 0 then [] else [0] + Zeros(n - 1)
  }

  /** A ledger address: exactly 32 bytes. */
  type Pubkey = s: seq<Byte> | |s| == 32 witness Zeros(32)

  /** The all-zero address (`Pubkey::default()`). */
  const DEFAULT_PUBKEY: Pubkey := Zeros(32)

  /** A stake account as returned by the filtered account scan:
      its address and the stake's sequential id. */
  datatype StakeAccount = StakeAccount(address: Pubkey, id: nat)

  /** An on-ledger address lookup table: its own address and the
      addresses it currently holds. */
  datatype LookupTable = LookupTable(key: Pubkey, addresses: seq<Pubkey>)

  /** The instructions this worker builds. */
  datatype Instruction =
    | ExtendLookupTable(table: Pubkey, authority: Pubkey, payer: Pubkey, newAddresses: seq<Pubkey>)
    | Rebase(signer: Pubkey, mint: Pubkey, stake: Pubkey)

  /** One transaction is the list of instructions it carries. */
  type Transaction = seq<Instruction>

  /** A bundle is a list of transactions submitted together. */
  type Bundle = seq<Transaction>

  /** Errors the core can report. */
  datatype Error = InvalidPubkeyBytes | RegistryFileMissing

  datatype Result<+T> = Ok(value: T) | Err(error: Error)

  datatype Option<+T> = None | Some(value: T)
}
