# Hash-chained ledgers, modelled in Dafny

The repository holds two small, independent versions of an append-only,
hash-chained ledger. This project models both as pure functions over
immutable datatypes and proves their contracts.

- **Transfer ledger** (`b_s.py`, module `TransferLedger` in
  `transfer_ledger.dfy`). Users hold wallets. `make_transaction` is a
  check-then-move transfer. A `Block` records a transfer
  `(index, user_1, amount, user_2, previous_hash)` and stores the SHA-512
  digest of those fields, joined with `-`. The `Blockchain` starts with a
  genesis block at index 1 and appends blocks unchecked. `is_chain_valid`
  checks every block after the first against its predecessor.
  `create_transaction_block` appends a block only when the transfer succeeds.
- **Note ledger** (`start.py`, modules `PseudoHash` in `pseudo_hash.dfy` and
  `NoteLedger` in `note_ledger.dfy`). Blocks carry free text. They are bound
  to their predecessor by a home-made "pseudo-hash", which is modelled
  concretely:
  - letters become their alphabet position and digits are kept;
  - everything else is dropped;
  - the resulting number is written in hex, zero-padded to 32 characters,
    and every character is tripled.

  The genesis has index 0. `add_block` builds each block on the tail.
  `is_chain_valid` re-checks hashes and links.

Shared pieces:
- `numerals.dfy` (module `Numerals`) holds one notion of a positional
  numeral. It covers Python's `str(int)`, `hex(n)[2:]` and `int(digits)`.
- `wrappers.dfy` (module `Wrappers`) holds `Option`. It stands for the
  optional predecessor argument of `is_block_valid`.

Modelling choices:
- SHA-512 is a parameter `h: string -> string` of every `TransferLedger`
  operation that hashes. It is deterministic and otherwise uninterpreted, so
  every result about the transfer ledger holds for any digest function.
- Users are a `seq<User>`. The sender and receiver are positions in it, which
  stand for Python object identity. So a user paying itself is debited and
  then credited on the same record, as the two in-place updates do.
- The module globals of `b_s.py` (`user1`..`user3`, `my_BC`) become a
  `State` value passed in and returned.
- The clock readings of `start.py` are opaque strings passed by the caller.

Behaviour of the source worth noting:
- `b_s.py` puts its genesis at index 1, with `user_1 == user_2 == 0`.
  `is_block_valid` would reject that genesis, and
  `TransferLedger.NewChainValid` shows that it is simply never checked.
- Neither `is_chain_valid` returns a reason or a failing index. Both return
  only a boolean, and print the failing index or check, which is not
  modelled (see "## Left out").
- A transfer does not require `amount >= 0`. A negative amount passes the
  funds check whenever the sender's wallet is at least that amount, as every
  non-negative wallet is. It then poisons the chain
  (`TransferLedger.NegativeTransferBreaksChain`).
- The hash of `start.py` is a digit transform from which only the number `int(converted)` can be read back, not a
  cryptographic digest: distinct inputs collide whenever their digit strings
  denote the same number (`PseudoHash.SameHashIffSameValue`).

## Model

| member | source | states |
|---|---|---|
| TransferLedger.MakeTransaction | b_s.py:11-18 | Succeeds iff the sender's wallet is at least `amount`. On success between distinct users the sender loses and the receiver gains exactly `amount`. On failure, or when paying oneself, every wallet is unchanged. Other users, names and ids never change. |
| TransferLedger.TotalFundsAfterAdjust | b_s.py:13-14 | Changing one wallet by `delta` changes the sum of all wallets by exactly `delta`. |
| TransferLedger.DebitCreditConservesFunds | b_s.py:13-14 | Debiting one wallet and crediting another by the same amount keeps the total of all wallets. |
| TransferLedger.TransferConservesFunds | b_s.py:11-18 | Every transfer, successful or not, keeps the total of all wallets. |
| TransferLedger.DataString | b_s.py:31 | The f-string `index-user_1-amount-user_2-previous_hash`, each integer written as `str()` writes it. No contract of its own; `Numerals.IntToDecimalValue` states what each field's text denotes. |
| TransferLedger.CalculateHash | b_s.py:30-32 | The digest `h` of the block's data string. No contract of its own; `TransferLedger.NewBlock` and `TransferLedger.NewBlockDeterministic` state what it binds. |
| TransferLedger.NewBlock | b_s.py:22-32 | A freshly built block stores the digest of its own fields, so it passes the hash-recompute check. |
| TransferLedger.NewBlockDeterministic | b_s.py:28-32 | A block whose hash recomputes is exactly the block the constructor builds from its fields. |
| TransferLedger.IsBlockValid | b_s.py:34-41 | Valid iff amount ≥ 0, the two user ids differ, index > 0, the stored hash recomputes, and, when a predecessor is given, `previous_hash` equals its hash. |
| TransferLedger.UnsoundBlockRejected | b_s.py:35-36 | A negative amount, equal user ids or an index ≤ 0 makes a block invalid, whatever its hash or predecessor. |
| TransferLedger.FreshBlockValidity | b_s.py:22-41 | A freshly built block is valid after `previous` iff it is structurally sound and was built on `previous`'s hash. |
| TransferLedger.GenesisBlock | b_s.py:46 | The genesis has index 1, predecessor "0", amount 0, users 0 and 0. Its hash recomputes, but it is not structurally sound. |
| TransferLedger.NewBlockchain | b_s.py:45-47 | A new chain holds exactly the genesis block. |
| TransferLedger.NewChainValid | b_s.py:46-62 | A new chain is valid even though `is_block_valid` rejects its genesis, because position 0 is never checked. |
| TransferLedger.GetPreviousBlock | b_s.py:49-50 | Returns the last block of the chain. |
| TransferLedger.AddBlock | b_s.py:52-53 | Appends the given block unchecked. The chain grows by one and earlier blocks stay in place. |
| TransferLedger.IsChainValid | b_s.py:55-62 | Returns true iff every block at position i ≥ 1 is valid after block i-1. |
| TransferLedger.AddBlockValidity | b_s.py:52-62 | After an append, the chain is valid iff the old chain was valid and the new block is valid after the old tail. |
| TransferLedger.CreateTransactionBlock | b_s.py:72-79 | Wallets change exactly as `make_transaction` changes them, and the total is kept. On failure nothing changes. On success exactly one block is appended, with index tail+1, the tail's hash as predecessor, the amount, both user ids and a recomputing hash. |
| TransferLedger.TransactionKeepsChainValid | b_s.py:72-76 | A transfer of a non-negative amount between users with distinct ids keeps a valid chain valid, provided the first block's index is non-negative, as the genesis's index 1 is. Without that proviso the new block may get index 0 and fail the check. |
| TransferLedger.ValidChainTailIndex | b_s.py:35-36 | In a valid chain whose first block has a non-negative index, so does the last block, because every later block must pass `index > 0`. |
| TransferLedger.NegativeTransferBreaksChain | b_s.py:11-15 | A negative amount passes the funds check whenever the sender's wallet is at least that amount, as every non-negative wallet is, and the block it appends makes the chain invalid. |
| TransferLedger.SameIdTransferBreaksChain | b_s.py:72-76 | A funded transfer between users sharing an id is appended, and it makes the chain invalid. |
| TransferLedger.ExampleOutcome | b_s.py:65-87 | The example run ends with Alice 4000, Bob 3500 and Charlie 1500, because the last transfer fails. The chain has length 3 and is valid, for any digest function. |
| Numerals.Value | start.py:29 | `int()` of a digit string, most significant digit first. No contract of its own; `Numerals.ValueOfFromNat` makes it the inverse of `Numerals.FromNat`. |
| Numerals.FromNat | start.py:30 | A canonical numeral (`hex(n)[2:]`, `str(n)`) is never empty, uses only digits of the base, and has no leading zero. |
| Numerals.ValueOfFromNat | start.py:29-30 | Reading back the canonical numeral of n gives n. |
| Numerals.FromNatInjective | start.py:30 | Two numbers have the same canonical numeral iff they are equal. |
| Numerals.ValueIgnoresLeadingZero | start.py:29 | A leading '0' does not change the value `int()` reads. |
| Numerals.ValueIgnoresLeadingZeros | start.py:31 | Zero-padding on the left does not change the value of a numeral. |
| Numerals.IntToDecimal | b_s.py:31 | Python's `str()` of an int. No contract of its own; see `Numerals.IntToDecimalValue`. |
| Numerals.IntToDecimalValue | b_s.py:31 | `str(i)` carries a '-' exactly when i < 0, and its digits denote the magnitude of i. |
| Numerals.Zeros | start.py:27 | `'0' * n` has length n and holds only '0'. |
| PseudoHash.AlphabetPosition | start.py:20 | A letter maps to its 1-based alphabet position, case-insensitively: 'a' and 'A' give 1, 'z' and 'Z' give 26. |
| PseudoHash.CharDigits | start.py:18-24 | A letter contributes the canonical decimal text of its alphabet position, without a leading zero. A digit contributes itself. Any other character contributes nothing. |
| PseudoHash.Convert | start.py:17-24 | The converted string consists of decimal digits only. |
| PseudoHash.ConvertAppend | start.py:18-24 | Conversion is character by character: converting a + b gives the conversion of a followed by that of b. |
| PseudoHash.ScanFromConverts | start.py:17-33 | Running the scan loop on the rest of the input appends the rest's digit string to what was built so far, and then takes its digest. |
| PseudoHash.HashIsDigestOfConverted | start.py:15-33 | `calculate_hash` is the digest of the converted digit string of `str(index)+str(timestamp)+str(data)+str(previous_hash)`. |
| PseudoHash.ScanFrom | start.py:17-33 | The character loop of `calculate_hash` run from an intermediate state, then the digest. No contract of its own; see `PseudoHash.ScanFromConverts`. |
| PseudoHash.HashOfString | start.py:17-33 | `calculate_hash` on the concatenated field string. No contract of its own; see `PseudoHash.HashIsDigestOfConverted`, `PseudoHash.HashShape` and `PseudoHash.SameHashIffSameValue`. |
| PseudoHash.Zfill | start.py:31 | `zfill(w)` right-justifies in w characters, padding with '0' on the left. It never truncates. |
| PseudoHash.Triple | start.py:32 | The tripled string is three times as long, and character i is character i/3 of the original. |
| PseudoHash.TripledInPlace | start.py:32 | In a tripled string the three characters of each group agree, and hex stays hex. |
| PseudoHash.EveryThirdOfTriple | start.py:32 | Taking every third character undoes the tripling. |
| PseudoHash.PaddedHex | start.py:30-31 | `hex(n)[2:].zfill(32)` uses only hex digits and is exactly max(32, hex length) long. |
| PseudoHash.PaddedHexValue | start.py:29-31 | The zero-padded hex of n reads back as n. |
| PseudoHash.DigestOfDigits | start.py:26-32 | The tail of `calculate_hash` after the loop. No contract of its own; see `PseudoHash.DigestShape`, `PseudoHash.DigestRoundTrip` and `PseudoHash.SameDigestIffSameNumber`. |
| PseudoHash.ZeroPaddedTripled | start.py:26-32 | The padded, tripled hex of 0 is exactly 96 zeros. |
| PseudoHash.EmptyBranchAgrees | start.py:26-32 | The early return for an empty digit string gives the same result as the general path would with value 0. |
| PseudoHash.DigestShape | start.py:26-32 | The digest length is 3·max(32, hex length), so at least 96 and a multiple of 3. It uses only `0-9a-f`, the characters at 3k, 3k+1 and 3k+2 agree, and an empty digit string gives exactly 96 '0's. |
| PseudoHash.HashShape | start.py:15-33 | For every input, the hash has at least 96 characters, a multiple of 3, only lower-case hex, and tripled characters. It is 96 zeros when the input has no letters or digits. |
| PseudoHash.DigestRoundTrip | start.py:29-32 | Reading every third character of the digest as hex gives back `int(converted)`, or 0 for an empty digit string. |
| PseudoHash.SameDigestIffSameNumber | start.py:26-32 | Two digit strings have the same digest iff they denote the same number. |
| PseudoHash.SameHashIffSameValue | start.py:15-33 | Two inputs have the same pseudo-hash iff their converted digit strings denote the same number. |
| PseudoHash.NonAlphanumericIgnored | start.py:23-24 | Inserting an ASCII character that is neither a letter nor a digit leaves the hash unchanged. |
| PseudoHash.LeadingZeroIgnored | start.py:29 | Prefixing a '0' leaves the hash unchanged. |
| PseudoHash.ZeroDigitsGiveZeroDigest | start.py:26-32 | A digit string of zeros only gives the same 96 zeros as an empty digit string. |
| PseudoHash.LetterDigitCollision | start.py:19-22 | "k", "aa" and "11" all hash alike. |
| NoteLedger.HashInput | start.py:16 | `str(index) + str(timestamp) + str(data) + str(previous_hash)`. No contract of its own; see `NoteLedger.SeparatorKeepsHash`. |
| NoteLedger.CalculateHash | start.py:15-33 | The pseudo-hash of the block's fields. No contract of its own; see `NoteLedger.NewBlock` and `NoteLedger.SeparatorKeepsHash`. |
| NoteLedger.NewBlock | start.py:8-13 | A new block stores its fields and the pseudo-hash of those fields. |
| NoteLedger.CreateGenesisBlock | start.py:40-41 | The genesis has index 0, data "Genesis Block" and predecessor "0", and its hash recomputes. |
| NoteLedger.NewBlockchain | start.py:37-38 | A new chain holds exactly the genesis block. |
| NoteLedger.GetLatestBlock | start.py:43-44 | Returns the last block of the chain. |
| NoteLedger.AddBlock | start.py:46-54 | Appends exactly one block and keeps earlier blocks. The new block has index latest+1, the latest hash as predecessor, the given data and time, and a recomputing hash. |
| NoteLedger.IsChainValid | start.py:56-66 | Returns true iff every block at position i ≥ 1 has a recomputing hash and the hash of block i-1 as predecessor. The genesis is never checked. |
| NoteLedger.AddBlockPreservesValidity | start.py:46-66 | `add_block` keeps a valid chain valid and never repairs an invalid one. |
| NoteLedger.Build | start.py:37-54 | The constructor followed by n `add_block` calls gives a chain of n+1 blocks. |
| NoteLedger.BuiltChainIndices | start.py:41-49 | In a built chain the genesis comes first and block i has index i. |
| NoteLedger.BuiltChainNotes | start.py:46-54 | In a built chain, block i ≥ 1 carries the i-th note. |
| NoteLedger.BuiltChainIsValid | start.py:37-66 | Every chain built only through the constructor and `add_block` is valid. |
| NoteLedger.SeparatorKeepsHash | start.py:16-24 | Appending an ASCII character that is neither a letter nor a digit to a block's data keeps its recomputed hash. |
| NoteLedger.SeparatorTamperUndetected | start.py:56-66 | Editing a block's data by adding an ASCII character that is neither a letter nor a digit leaves a valid chain valid, so the check cannot detect it. |
| NoteLedger.ExampleOutcome | start.py:70-83 | The example chain has four blocks, the last with index 3 and data "Transaction 3", and is valid whatever the clock reads. |

## Left out

- `snake_game.py`: a real-time game loop with rendering, keyboard input, sleeping and randomness, unrelated to the ledger.
- All `print` output of `b_s.py` and `start.py`. Only the returned booleans and the resulting state are modelled.
- SHA-512 internals (`hashlib.sha512`): the digest is the uninterpreted parameter `h`. So no result relies on collision resistance, and tamper detection for the transfer ledger is not proved.
- Floats: wallets and amounts are integers, which is what the example passes. The genesis amount `0.0` prints as "0.0" in Python but renders as "0" here. That changes only the input of the uninterpreted digest.
- `time.time()` and `str()` of a float: timestamps are opaque strings supplied by the caller.
- `str(data)` of non-string objects: notes are strings.
- PseudoHash.CharDigits: letters and digits are the ASCII ones. A non-ASCII character that Python's `isalpha`/`isdigit` accepts is treated as dropped.
- PseudoHash.NonAlphanumericIgnored: stated for ASCII characters only. The model does not know which non-ASCII characters Python's `isalpha`/`isdigit` accept, and a non-ASCII letter such as 'é' changes the hash in the source.
- NoteLedger.SeparatorKeepsHash: ASCII separators only, for the same reason.
- NoteLedger.SeparatorTamperUndetected: ASCII separators only, for the same reason.
- PseudoHash.HashOfString: does not model the `ValueError` that Python 3.11 and later raise from `int()` on a digit string longer than 4300 digits. The model returns the digest for any length.
- Python exceptions from `chain[-1]` on an empty chain: the getters require a non-empty chain. The constructors never produce an empty one.
- Concurrency: the source is single-threaded.
