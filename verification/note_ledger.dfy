/** The note ledger of start.py: blocks carrying free text, bound to their
    predecessor by the pseudo-hash, in a chain whose genesis has index 0.
    Timestamps (`time.time()`) are opaque strings the caller passes in. */
module NoteLedger {
  import opened Numerals
  import opened PseudoHash

  datatype Block = Block(index: int, timestamp: string, data: string, previousHash: string, hash: string)

  /** `str(index) + str(timestamp) + str(data) + str(previous_hash)`. */
  function HashInput(b: Block): string {
    IntToDecimal(b.index) + b.timestamp + b.data + b.previousHash
  }

  /** `Block.calculate_hash`: the pseudo-hash of the block's own fields. */
  function CalculateHash(b: Block): string
  {
    HashOfString(HashInput(b))
  }

  /** `Block(index, timestamp, data, previous_hash)`: the stored hash is
      computed from the other fields at construction. */
  function NewBlock(index: int, timestamp: string, data: string, previousHash: string): (b: Block)
    ensures b.hash == CalculateHash(b)
    ensures b.index == index && b.timestamp == timestamp
    ensures b.data == data && b.previousHash == previousHash
  {
    var fields := Block(index, timestamp, data, previousHash, "");
    fields.(hash := CalculateHash(fields))
  }

  datatype Blockchain = Blockchain(chain: seq<Block>)

  /** `create_genesis_block`: index 0, data "Genesis Block", predecessor "0". */
  function CreateGenesisBlock(timestamp: string): (g: Block)
    ensures g.index == 0 && g.data == "Genesis Block" && g.previousHash == "0"
    ensures g.timestamp == timestamp && g.hash == CalculateHash(g)
  {
    NewBlock(0, timestamp, "Genesis Block", "0")
  }

  /** `Blockchain()`: a chain holding only the genesis block. */
  function NewBlockchain(timestamp: string): (bc: Blockchain)
    ensures |bc.chain| == 1 && bc.chain[0] == CreateGenesisBlock(timestamp)
  {
    Blockchain([CreateGenesisBlock(timestamp)])
  }

  /** `get_latest_block`: the tail of the chain. */
  function GetLatestBlock(bc: Blockchain): (b: Block)
    requires |bc.chain| > 0
    ensures b in bc.chain
    ensures b == bc.chain[|bc.chain| - 1]
  {
    bc.chain[|bc.chain| - 1]
  }

  /** `add_block(data)`: builds a block on the tail, with the next index and
      the tail's hash as predecessor, and appends it. */
  function AddBlock(bc: Blockchain, data: string, timestamp: string): (r: Blockchain)
    requires |bc.chain| > 0
    ensures |r.chain| == |bc.chain| + 1
    ensures r.chain[..|bc.chain|] == bc.chain
    ensures var b := r.chain[|bc.chain|];
            && b.index == GetLatestBlock(bc).index + 1
            && b.previousHash == GetLatestBlock(bc).hash
            && b.data == data && b.timestamp == timestamp
            && b.hash == CalculateHash(b)
  {
    var previous := GetLatestBlock(bc);
    Blockchain(bc.chain + [NewBlock(previous.index + 1, timestamp, data, previous.hash)])
  }

  /** Block `i` has its own hash and its predecessor's hash. */
  predicate LinkValid(chain: seq<Block>, i: nat)
    requires 1 <= i < |chain|
  {
    chain[i].hash == CalculateHash(chain[i]) && chain[i].previousHash == chain[i - 1].hash
  }

  /** Every block after the first is linked; the genesis is never checked. */
  predicate ChainValid(chain: seq<Block>) {
    forall i :: 1 <= i < |chain| ==> LinkValid(chain, i)
  }

  /** `is_chain_valid`: scans the chain from position 1, first comparing the
      stored hash with the recomputed one, then the predecessor hash, and
      stops at the first mismatch. */
  method IsChainValid(bc: Blockchain) returns (ok: bool)
    ensures ok <==> ChainValid(bc.chain)
  {
    var i := 1;
    while i < |bc.chain|
      invariant 1 <= i
      invariant forall j :: 1 <= j < i && j < |bc.chain| ==> LinkValid(bc.chain, j)
      decreases |bc.chain| - i
    {
      var current := bc.chain[i];
      var previous := bc.chain[i - 1];
      if current.hash != CalculateHash(current) {
        assert !LinkValid(bc.chain, i);
        return false;
      }
      if current.previousHash != previous.hash {
        assert !LinkValid(bc.chain, i);
        return false;
      }
      i := i + 1;
    }
    return true;
  }

  /** `add_block` neither breaks a valid chain nor repairs an invalid one. */
  lemma AddBlockPreservesValidity(bc: Blockchain, data: string, timestamp: string)
    requires |bc.chain| > 0
    ensures ChainValid(AddBlock(bc, data, timestamp).chain) <==> ChainValid(bc.chain)
  {
    var c := AddBlock(bc, data, timestamp).chain;
    var n := |bc.chain|;
    forall i | 1 <= i < n
      ensures LinkValid(c, i) <==> LinkValid(bc.chain, i)
    {
      assert c[i] == bc.chain[i] && c[i - 1] == bc.chain[i - 1];
    }
    assert LinkValid(c, n);
  }

  /** One call of `add_block`: the note and the time it is made. */
  datatype Append = Append(data: string, timestamp: string)

  /** The chain that `Blockchain()` followed by the given `add_block` calls builds. */
  function Build(genesisTime: string, appends: seq<Append>): (bc: Blockchain)
    ensures |bc.chain| == |appends| + 1
    decreases |appends|
  {
    if appends == [] then NewBlockchain(genesisTime)
    else
      var last := appends[|appends| - 1];
      AddBlock(Build(genesisTime, appends[..|appends| - 1]), last.data, last.timestamp)
  }

  /** A built chain starts with the genesis block, and block `i` has index `i`. */
  lemma {:induction false} BuiltChainIndices(genesisTime: string, appends: seq<Append>)
    ensures Build(genesisTime, appends).chain[0] == CreateGenesisBlock(genesisTime)
    ensures forall i :: 0 <= i < |appends| + 1 ==> Build(genesisTime, appends).chain[i].index == i
    decreases |appends|
  {
    if appends != [] {
      var n := |appends|;
      var prefix := appends[..n - 1];
      var last := appends[n - 1];
      var bc := Build(genesisTime, prefix);
      BuiltChainIndices(genesisTime, prefix);
      var c := Build(genesisTime, appends).chain;
      assert c == AddBlock(bc, last.data, last.timestamp).chain;
      forall i | 0 <= i < n + 1
        ensures c[i].index == i
      {
        if i < n {
          assert c[i] == c[..n][i] == bc.chain[i];
        }
      }
      assert c[0] == bc.chain[0];
    }
  }

  /** Block `i` of a built chain, after the genesis, carries the `i`-th note. */
  lemma {:induction false} BuiltChainNotes(genesisTime: string, appends: seq<Append>)
    ensures forall i :: 1 <= i < |appends| + 1 ==> Build(genesisTime, appends).chain[i].data == appends[i - 1].data
    decreases |appends|
  {
    if appends != [] {
      var n := |appends|;
      var prefix := appends[..n - 1];
      var last := appends[n - 1];
      var bc := Build(genesisTime, prefix);
      BuiltChainNotes(genesisTime, prefix);
      var c := Build(genesisTime, appends).chain;
      assert c == AddBlock(bc, last.data, last.timestamp).chain;
      forall i | 1 <= i < n + 1
        ensures c[i].data == appends[i - 1].data
      {
        if i < n {
          assert c[i] == c[..n][i] == bc.chain[i];
          assert appends[i - 1] == prefix[i - 1];
        }
      }
    }
  }

  /** Any chain built only through the constructor and `add_block` is valid. */
  lemma {:induction false} BuiltChainIsValid(genesisTime: string, appends: seq<Append>)
    ensures ChainValid(Build(genesisTime, appends).chain)
    decreases |appends|
  {
    if appends != [] {
      var prefix := appends[..|appends| - 1];
      var last := appends[|appends| - 1];
      BuiltChainIsValid(genesisTime, prefix);
      AddBlockPreservesValidity(Build(genesisTime, prefix), last.data, last.timestamp);
    }
  }

  /** Appending an ASCII character that is neither a letter nor a digit to a
      block's note does not change its recomputed hash. */
  lemma SeparatorKeepsHash(b: Block, c: char)
    requires c as int < 128
    requires !IsAsciiLetter(c) && !IsDecimalDigit(c)
    ensures CalculateHash(b.(data := b.data + [c])) == CalculateHash(b)
  {
    var t := b.(data := b.data + [c]);
    var pre := IntToDecimal(b.index) + b.timestamp + b.data;
    assert HashInput(t) == pre + [c] + b.previousHash;
    assert HashInput(b) == pre + b.previousHash;
    NonAlphanumericIgnored(pre, c, b.previousHash);
  }

  /** Tampering goes undetected when it only adds an ASCII character that is
      neither a letter nor a digit to a block's note: the recomputed hash is
      the same, so a valid chain stays valid. */
  lemma SeparatorTamperUndetected(chain: seq<Block>, k: nat, c: char)
    requires ChainValid(chain) && k < |chain|
    requires c as int < 128
    requires !IsAsciiLetter(c) && !IsDecimalDigit(c)
    ensures ChainValid(chain[k := chain[k].(data := chain[k].data + [c])])
  {
    var tampered := chain[k := chain[k].(data := chain[k].data + [c])];
    SeparatorKeepsHash(chain[k], c);
    forall i | 1 <= i < |tampered|
      ensures LinkValid(tampered, i)
    {
      assert LinkValid(chain, i);
      assert tampered[i].hash == chain[i].hash && tampered[i - 1].hash == chain[i - 1].hash;
      assert tampered[i].previousHash == chain[i].previousHash;
      assert CalculateHash(tampered[i]) == CalculateHash(chain[i]);
    }
  }

  /** The example run: three notes appended after the genesis. */
  function ExampleRun(t0: string, t1: string, t2: string, t3: string): Blockchain {
    Build(t0, [Append("Transaction 1", t1), Append("Transaction 2", t2), Append("Transaction 3", t3)])
  }

  /** The example chain has four blocks, indexed 0 to 3, and is valid, whatever
      the clock reads. */
  lemma ExampleOutcome(t0: string, t1: string, t2: string, t3: string)
    ensures var c := ExampleRun(t0, t1, t2, t3).chain;
            |c| == 4 && ChainValid(c) && c[3].index == 3 && c[3].data == "Transaction 3"
  {
    var appends := [Append("Transaction 1", t1), Append("Transaction 2", t2), Append("Transaction 3", t3)];
    BuiltChainIsValid(t0, appends);
    BuiltChainIndices(t0, appends);
    BuiltChainNotes(t0, appends);
  }
}
