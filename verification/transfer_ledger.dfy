/** The transfer ledger of b_s.py: users with wallets, a check-then-move
    transfer, blocks that record a transfer and are bound to their
    predecessor by a SHA-512 digest, and a chain seeded with a genesis block
    at index 1.

    SHA-512 is left uninterpreted: every operation that hashes takes the
    digest function `h` as a parameter, so everything proved here holds for
    any deterministic function from the block's data string to a digest. */
module TransferLedger {
  import opened Wrappers
  import opened Numerals

  /** `hashlib.sha512(data.encode()).hexdigest()`, as an uninterpreted function. */
  type HashFunction = string -> string

  // ----- Users ---------------------------------------------------------------

  /** A user: a name, a wallet balance and the id recorded in blocks. */
  datatype User = User(name: string, wallet: int, globalNumber: int)

  /** The sum of all wallets of a population of users. */
  function TotalFunds(users: seq<User>): int
    decreases |users|
  {
    if users == [] then 0 else users[0].wallet + TotalFunds(users[1..])
  }

  /** The users after adding `delta` to the wallet of user `k`. */
  function Adjust(users: seq<User>, k: nat, delta: int): (r: seq<User>)
    requires k < |users|
    ensures |r| == |users|
    ensures r[k] == users[k].(wallet := users[k].wallet + delta)
    ensures forall j :: 0 <= j < |users| && j != k ==> r[j] == users[j]
  {
    users[k := users[k].(wallet := users[k].wallet + delta)]
  }

  /** Adjusting one wallet changes the total by exactly that amount. */
  lemma {:induction false} TotalFundsAfterAdjust(users: seq<User>, k: nat, delta: int)
    requires k < |users|
    ensures TotalFunds(Adjust(users, k, delta)) == TotalFunds(users) + delta
    decreases |users|
  {
    var r := Adjust(users, k, delta);
    if k == 0 {
      assert r[1..] == users[1..];
    } else {
      assert r[1..] == Adjust(users[1..], k - 1, delta);
      TotalFundsAfterAdjust(users[1..], k - 1, delta);
    }
  }

  /** Whether a transfer happened, and the population of users afterwards. */
  datatype TransferResult = TransferResult(ok: bool, users: seq<User>)

  /** `sender.make_transaction(receiver, amount)`.  The users are identified
      by their position in `users`, which stands for object identity, so a
      sender that is its own receiver is debited and then credited the same
      record, exactly as the two in-place updates do. */
  function MakeTransaction(users: seq<User>, sender: nat, receiver: nat, amount: int): (r: TransferResult)
    requires sender < |users| && receiver < |users|
    ensures |r.users| == |users|
    ensures r.ok <==> users[sender].wallet >= amount
    ensures !r.ok ==> r.users == users
    ensures r.ok && sender != receiver ==>
              && r.users[sender].wallet == users[sender].wallet - amount
              && r.users[receiver].wallet == users[receiver].wallet + amount
    ensures sender == receiver ==> r.users == users
    ensures forall k :: 0 <= k < |users| && k != sender && k != receiver ==> r.users[k] == users[k]
    ensures forall k :: 0 <= k < |users| ==>
              r.users[k].name == users[k].name && r.users[k].globalNumber == users[k].globalNumber
  {
    if users[sender].wallet >= amount then
      TransferResult(true, Adjust(Adjust(users, sender, -amount), receiver, amount))
    else
      TransferResult(false, users)
  }

  /** Debiting one wallet and crediting another by the same amount keeps the total. */
  lemma DebitCreditConservesFunds(users: seq<User>, sender: nat, receiver: nat, amount: int)
    requires sender < |users| && receiver < |users|
    ensures TotalFunds(Adjust(Adjust(users, sender, -amount), receiver, amount)) == TotalFunds(users)
  {
    TotalFundsAfterAdjust(users, sender, -amount);
    TotalFundsAfterAdjust(Adjust(users, sender, -amount), receiver, amount);
  }

  /** A transfer, successful or not, conserves the total funds. */
  lemma TransferConservesFunds(users: seq<User>, sender: nat, receiver: nat, amount: int)
    requires sender < |users| && receiver < |users|
    ensures TotalFunds(MakeTransaction(users, sender, receiver, amount).users) == TotalFunds(users)
  {
    DebitCreditConservesFunds(users, sender, receiver, amount);
  }

  // ----- Blocks --------------------------------------------------------------

  /** A block recording `amount` moved from user id `user1` to user id `user2`. */
  datatype Block = Block(amount: int, previousHash: string, index: int, user1: int, user2: int, hash: string)

  /** The string that is hashed: the fields as Python prints them, joined by `-`
      in the order index, user_1, amount, user_2, previous_hash. */
  function DataString(index: int, user1: int, amount: int, user2: int, previousHash: string): string
  {
    IntToDecimal(index) + "-" + IntToDecimal(user1) + "-" + IntToDecimal(amount) + "-"
      + IntToDecimal(user2) + "-" + previousHash
  }

  /** `Block.calculate_hash`: the digest of the block's own fields. */
  function CalculateHash(h: HashFunction, b: Block): string
  {
    h(DataString(b.index, b.user1, b.amount, b.user2, b.previousHash))
  }

  /** `Block(amount, previous_hash, index, user_1, user_2)`: the stored hash is
      computed from the other fields at construction. */
  function NewBlock(h: HashFunction, amount: int, previousHash: string, index: int, user1: int, user2: int): (b: Block)
    ensures b.hash == CalculateHash(h, b)
    ensures b.amount == amount && b.previousHash == previousHash && b.index == index
    ensures b.user1 == user1 && b.user2 == user2
  {
    var fields := Block(amount, previousHash, index, user1, user2, "");
    fields.(hash := CalculateHash(h, fields))
  }

  /** A block whose stored hash recomputes is exactly the block the
      constructor builds from its fields. */
  lemma NewBlockDeterministic(h: HashFunction, b: Block)
    requires b.hash == CalculateHash(h, b)
    ensures NewBlock(h, b.amount, b.previousHash, b.index, b.user1, b.user2) == b
  {
  }

  /** The structural part of `is_block_valid`: a non-negative amount, distinct
      parties and a positive index. */
  predicate StructurallySound(b: Block) {
    b.amount >= 0 && b.user1 != b.user2 && b.index > 0
  }

  /** `block.is_block_valid(previous_block)`; `None` stands for calling it
      without a predecessor, which skips the linkage check. */
  function IsBlockValid(h: HashFunction, b: Block, previous: Option<Block>): (ok: bool)
    ensures ok <==>
              && StructurallySound(b)
              && b.hash == CalculateHash(h, b)
              && (previous.Some? ==> b.previousHash == previous.value.hash)
  {
    if b.amount < 0 || b.user1 == b.user2 || b.index <= 0 then false
    else if b.hash != CalculateHash(h, b) then false
    else if previous.Some? && b.previousHash != previous.value.hash then false
    else true
  }

  /** A structurally unsound block is rejected whatever its hash and predecessor. */
  lemma UnsoundBlockRejected(h: HashFunction, b: Block, previous: Option<Block>)
    requires b.amount < 0 || b.user1 == b.user2 || b.index <= 0
    ensures !IsBlockValid(h, b, previous)
  {
  }

  /** A freshly built block is valid after `previous` exactly when it is
      structurally sound and was built on `previous`'s hash. */
  lemma FreshBlockValidity(h: HashFunction, amount: int, previousHash: string, index: int,
                           user1: int, user2: int, previous: Block)
    ensures IsBlockValid(h, NewBlock(h, amount, previousHash, index, user1, user2), Some(previous))
            <==> amount >= 0 && user1 != user2 && index > 0 && previousHash == previous.hash
  {
  }

  // ----- Blockchain ----------------------------------------------------------

  datatype Blockchain = Blockchain(chain: seq<Block>)

  /** The genesis block: amount 0, predecessor "0", index 1, users 0 and 0. */
  function GenesisBlock(h: HashFunction): (g: Block)
    ensures g.index == 1 && g.previousHash == "0" && g.amount == 0
    ensures g.user1 == 0 && g.user2 == 0
    ensures g.hash == CalculateHash(h, g)
    ensures !StructurallySound(g)
  {
    NewBlock(h, 0, "0", 1, 0, 0)
  }

  /** `Blockchain()`: a chain holding only the genesis block. */
  function NewBlockchain(h: HashFunction): (bc: Blockchain)
    ensures bc.chain == [GenesisBlock(h)]
  {
    Blockchain([GenesisBlock(h)])
  }

  /** A new chain is valid only because its genesis, which the structural
      check would reject, is never checked. */
  lemma NewChainValid(h: HashFunction)
    ensures ChainValid(h, NewBlockchain(h).chain)
    ensures !IsBlockValid(h, NewBlockchain(h).chain[0], None)
  {
  }

  /** `get_previous_block`: the tail of the chain. */
  function GetPreviousBlock(bc: Blockchain): (b: Block)
    requires |bc.chain| > 0
    ensures b in bc.chain
    ensures b == bc.chain[|bc.chain| - 1]
  {
    bc.chain[|bc.chain| - 1]
  }

  /** `add_block`: appends the given block, whatever it holds, and leaves the
      earlier blocks in place. */
  function AddBlock(bc: Blockchain, b: Block): (r: Blockchain)
    ensures |r.chain| == |bc.chain| + 1
    ensures r.chain[..|bc.chain|] == bc.chain
    ensures r.chain[|bc.chain|] == b
  {
    Blockchain(bc.chain + [b])
  }

  /** Every block after the first is valid after its predecessor; the first
      block is never checked. */
  predicate ChainValid(h: HashFunction, chain: seq<Block>) {
    forall i :: 1 <= i < |chain| ==> IsBlockValid(h, chain[i], Some(chain[i - 1]))
  }

  /** `is_chain_valid`: scans the chain from position 1 and stops at the first
      block that is not valid after its predecessor. */
  method IsChainValid(h: HashFunction, bc: Blockchain) returns (ok: bool)
    ensures ok <==> ChainValid(h, bc.chain)
  {
    var i := 1;
    while i < |bc.chain|
      invariant 1 <= i
      invariant forall j :: 1 <= j < i && j < |bc.chain| ==> IsBlockValid(h, bc.chain[j], Some(bc.chain[j - 1]))
      decreases |bc.chain| - i
    {
      if !IsBlockValid(h, bc.chain[i], Some(bc.chain[i - 1])) {
        return false;
      }
      i := i + 1;
    }
    return true;
  }

  /** Appending keeps a chain valid exactly when the new block is valid after
      the old tail; an invalid chain stays invalid. */
  lemma AddBlockValidity(h: HashFunction, bc: Blockchain, b: Block)
    requires |bc.chain| > 0
    ensures ChainValid(h, AddBlock(bc, b).chain) <==>
              ChainValid(h, bc.chain) && IsBlockValid(h, b, Some(GetPreviousBlock(bc)))
  {
    var c := bc.chain + [b];
    var n := |bc.chain|;
    assert AddBlock(bc, b).chain == c;
    assert c[n] == b && c[n - 1] == GetPreviousBlock(bc);
    if ChainValid(h, c) {
      assert IsBlockValid(h, c[n], Some(c[n - 1]));
      forall i | 1 <= i < n
        ensures IsBlockValid(h, bc.chain[i], Some(bc.chain[i - 1]))
      {
        assert c[i] == bc.chain[i] && c[i - 1] == bc.chain[i - 1];
        assert IsBlockValid(h, c[i], Some(c[i - 1]));
      }
    }
    if ChainValid(h, bc.chain) && IsBlockValid(h, b, Some(GetPreviousBlock(bc))) {
      forall i | 1 <= i < |c|
        ensures IsBlockValid(h, c[i], Some(c[i - 1]))
      {
        if i < n {
          assert c[i] == bc.chain[i] && c[i - 1] == bc.chain[i - 1];
        }
      }
    }
  }

  // ----- Transactions --------------------------------------------------------

  /** The users and the blockchain, which b_s.py keeps in module globals. */
  datatype State = State(users: seq<User>, ledger: Blockchain)

  /** The sender and receiver are users of the state, and the chain is
      non-empty, as the constructor makes it, so that it has a tail to build on. */
  predicate ValidParties(s: State, sender: nat, receiver: nat) {
    sender < |s.users| && receiver < |s.users| && |s.ledger.chain| > 0
  }

  /** `create_transaction_block(sender, receiver, amount)`: on a successful
      transfer, a block recording it is built on the chain's tail and appended;
      on a failed one, only the (unchanged) users are returned. */
  function CreateTransactionBlock(h: HashFunction, s: State, sender: nat, receiver: nat, amount: int): (r: State)
    requires ValidParties(s, sender, receiver)
    ensures r.users == MakeTransaction(s.users, sender, receiver, amount).users
    ensures TotalFunds(r.users) == TotalFunds(s.users)
    ensures s.users[sender].wallet < amount ==> r == s
    ensures s.users[sender].wallet >= amount ==>
              && |r.ledger.chain| == |s.ledger.chain| + 1
              && r.ledger.chain[..|s.ledger.chain|] == s.ledger.chain
              && var tail := GetPreviousBlock(s.ledger);
              var b := r.ledger.chain[|s.ledger.chain|];
              && b.index == tail.index + 1
              && b.previousHash == tail.hash
              && b.amount == amount
              && b.user1 == s.users[sender].globalNumber
              && b.user2 == s.users[receiver].globalNumber
              && b.hash == CalculateHash(h, b)
  {
    var t := MakeTransaction(s.users, sender, receiver, amount);
    TransferConservesFunds(s.users, sender, receiver, amount);
    if t.ok then
      var tail := GetPreviousBlock(s.ledger);
      var b := NewBlock(h, amount, tail.hash, tail.index + 1,
                        s.users[sender].globalNumber, s.users[receiver].globalNumber);
      State(t.users, AddBlock(s.ledger, b))
    else
      State(t.users, s.ledger)
  }

  /** In a valid chain whose first block has a non-negative index, so does
      the last block: every later block passes `index > 0`. */
  lemma ValidChainTailIndex(h: HashFunction, chain: seq<Block>)
    requires |chain| > 0 && ChainValid(h, chain)
    requires chain[0].index >= 0
    ensures chain[|chain| - 1].index >= 0
  {
    if |chain| > 1 {
      assert IsBlockValid(h, chain[|chain| - 1], Some(chain[|chain| - 2]));
    }
  }

  /** A transfer between users with distinct ids, of a non-negative amount,
      keeps a valid chain valid, provided its first block's index is not
      negative, as the genesis's index 1 is. */
  lemma TransactionKeepsChainValid(h: HashFunction, s: State, sender: nat, receiver: nat, amount: int)
    requires ValidParties(s, sender, receiver)
    requires ChainValid(h, s.ledger.chain)
    requires s.ledger.chain[0].index >= 0
    requires amount >= 0
    requires s.users[sender].globalNumber != s.users[receiver].globalNumber
    ensures ChainValid(h, CreateTransactionBlock(h, s, sender, receiver, amount).ledger.chain)
  {
    if s.users[sender].wallet >= amount {
      var tail := GetPreviousBlock(s.ledger);
      ValidChainTailIndex(h, s.ledger.chain);
      var b := NewBlock(h, amount, tail.hash, tail.index + 1,
                        s.users[sender].globalNumber, s.users[receiver].globalNumber);
      AddBlockValidity(h, s.ledger, b);
    }
  }

  /** The funds check alone does not reject a negative amount: whenever the
      sender's wallet is at least that amount, as every non-negative wallet
      is, the transfer goes through, moving funds from receiver to sender,
      and the block it appends makes the chain invalid. */
  lemma NegativeTransferBreaksChain(h: HashFunction, s: State, sender: nat, receiver: nat, amount: int)
    requires ValidParties(s, sender, receiver)
    requires amount < 0 && s.users[sender].wallet >= amount
    ensures !ChainValid(h, CreateTransactionBlock(h, s, sender, receiver, amount).ledger.chain)
  {
    var c := CreateTransactionBlock(h, s, sender, receiver, amount).ledger.chain;
    var n := |s.ledger.chain|;
    assert !IsBlockValid(h, c[n], Some(c[n - 1]));
  }

  /** A funded transfer between two users sharing an id is recorded, and the
      block it appends makes the chain invalid. */
  lemma SameIdTransferBreaksChain(h: HashFunction, s: State, sender: nat, receiver: nat, amount: int)
    requires ValidParties(s, sender, receiver)
    requires s.users[sender].globalNumber == s.users[receiver].globalNumber
    requires s.users[sender].wallet >= amount
    ensures !ChainValid(h, CreateTransactionBlock(h, s, sender, receiver, amount).ledger.chain)
  {
    var c := CreateTransactionBlock(h, s, sender, receiver, amount).ledger.chain;
    var n := |s.ledger.chain|;
    assert !IsBlockValid(h, c[n], Some(c[n - 1]));
  }

  // ----- The example run -----------------------------------------------------

  /** Alice, Bob and Charlie with 5000, 3000 and 1000, ids 1 to 3. */
  function ExampleUsers(): seq<User> {
    [User("Alice", 5000, 1), User("Bob", 3000, 2), User("Charlie", 1000, 3)]
  }

  /** The three transfers of the example: Alice to Bob 1000, Bob to Charlie
      500, Charlie to Alice 2000. */
  function ExampleRun(h: HashFunction): State {
    var s0 := State(ExampleUsers(), NewBlockchain(h));
    var s1 := CreateTransactionBlock(h, s0, 0, 1, 1000);
    var s2 := CreateTransactionBlock(h, s1, 1, 2, 500);
    CreateTransactionBlock(h, s2, 2, 0, 2000)
  }

  /** The example ends with Alice 4000, Bob 3500, Charlie 1500 (the last
      transfer fails for lack of funds), a chain of three blocks, and a valid
      chain, whatever the digest function. */
  lemma ExampleOutcome(h: HashFunction)
    ensures ExampleRun(h).users ==
              [User("Alice", 4000, 1), User("Bob", 3500, 2), User("Charlie", 1500, 3)]
    ensures |ExampleRun(h).ledger.chain| == 3
    ensures ChainValid(h, ExampleRun(h).ledger.chain)
  {
    var s0 := State(ExampleUsers(), NewBlockchain(h));
    var s1 := CreateTransactionBlock(h, s0, 0, 1, 1000);
    TransactionKeepsChainValid(h, s0, 0, 1, 1000);
    var s2 := CreateTransactionBlock(h, s1, 1, 2, 500);
    TransactionKeepsChainValid(h, s1, 1, 2, 500);
    var s3 := CreateTransactionBlock(h, s2, 2, 0, 2000);
    assert s3 == s2;
  }
}
