/** Compact blocks, their hashes, and the successor check that links them. */
module Chain {
  type Bytes = seq<nat>
  type Coin = nat

  datatype Option<+T> = None | Some(value: T)

  datatype Output = Output(coin: Coin, note: Bytes, clue: Bytes, meta: Bytes)

  datatype Tx = Tx(id: nat, outputs: seq<Output>, nullifiers: seq<nat>)

  /** An ideal block hash: it is the term it was computed from, so it is injective in the
      previous hash, the height and everything the node serves for the block. */
  datatype Hash = Origin | Digest(prev: Hash, height: nat, body: seq<Tx>)

  datatype Block = Block(height: nat, hash: Hash, prevHash: Hash, txs: seq<Tx>)

  /** Outputs as the node serves them: the clue and the metadata are added by this server. */
  function BareOutputs(outputs: seq<Output>): seq<Output> {
    seq(|outputs|, i requires 0 <= i < |outputs| => outputs[i].(clue := [], meta := []))
  }

  function Bare(txs: seq<Tx>): seq<Tx> {
    seq(|txs|, i requires 0 <= i < |txs| => txs[i].(outputs := BareOutputs(txs[i].outputs)))
  }

  /** The hash of `b` is the hash of its own header and content. */
  predicate Genuine(b: Block) {
    b.hash == Digest(b.prevHash, b.height, Bare(b.txs))
  }

  function OutputCoins(outputs: seq<Output>): seq<Coin> {
    seq(|outputs|, i requires 0 <= i < |outputs| => outputs[i].coin)
  }

  /** Coins of a block in transaction, then output order. */
  function TxCoins(txs: seq<Tx>): seq<Coin> {
    if txs == [] then [] else OutputCoins(txs[0].outputs) + TxCoins(txs[1..])
  }

  function Coins(b: Block): seq<Coin> {
    TxCoins(b.txs)
  }

  function TxNullifiers(txs: seq<Tx>): seq<nat> {
    if txs == [] then [] else txs[0].nullifiers + TxNullifiers(txs[1..])
  }

  // ---- where an output is in a block ----

  /** Number of outputs of the first `i` transactions. */
  function OutputsBefore(txs: seq<Tx>, i: nat): nat
    requires i <= |txs|
  {
    if i == 0 then 0 else OutputsBefore(txs, i - 1) + |txs[i - 1].outputs|
  }

  lemma {:induction false} OutputsBeforeFront(txs: seq<Tx>, i: nat)
    requires 0 < i <= |txs|
    ensures OutputsBefore(txs, i) == |txs[0].outputs| + OutputsBefore(txs[1..], i - 1)
  {
    if i > 1 {
      OutputsBeforeFront(txs, i - 1);
    }
  }

  /** Every place below the number of outputs is that of one output. */
  lemma {:induction false} OutputAtPlace(txs: seq<Tx>, n: nat, k: nat) returns (i: nat, j: nat)
    requires n <= |txs| && k < OutputsBefore(txs, n)
    ensures i < n && j < |txs[i].outputs| && OutputsBefore(txs, i) + j == k
  {
    if k >= OutputsBefore(txs, n - 1) {
      i, j := n - 1, k - OutputsBefore(txs, n - 1);
    } else {
      i, j := OutputAtPlace(txs, n - 1, k);
    }
  }

  /** The coins of a block are those of its outputs, each once, in transaction and then output order. */
  lemma {:induction false} CoinAt(txs: seq<Tx>, i: nat, j: nat)
    ensures |TxCoins(txs)| == OutputsBefore(txs, |txs|)
    ensures i < |txs| && j < |txs[i].outputs| ==>
      && OutputsBefore(txs, i) + j < |TxCoins(txs)|
      && TxCoins(txs)[OutputsBefore(txs, i) + j] == txs[i].outputs[j].coin
  {
    if txs != [] {
      var rest := txs[1..];
      CoinAt(rest, if i > 0 then i - 1 else 0, j);
      assert TxCoins(txs) == OutputCoins(txs[0].outputs) + TxCoins(rest);
      OutputsBeforeFront(txs, |txs|);
      hide TxCoins;
      if 0 < i < |txs| {
        OutputsBeforeFront(txs, i);
        assert txs[i] == rest[i - 1];
        hide OutputsBefore;
      }
    }
  }

  function NullifiersBefore(txs: seq<Tx>, i: nat): nat
    requires i <= |txs|
  {
    if i == 0 then 0 else NullifiersBefore(txs, i - 1) + |txs[i - 1].nullifiers|
  }

  lemma {:induction false} NullifiersBeforeFront(txs: seq<Tx>, i: nat)
    requires 0 < i <= |txs|
    ensures NullifiersBefore(txs, i) == |txs[0].nullifiers| + NullifiersBefore(txs[1..], i - 1)
  {
    if i > 1 {
      NullifiersBeforeFront(txs, i - 1);
    }
  }

  /** The nullifiers of a block are those of its transactions, each once, in order. */
  lemma {:induction false} NullifierAt(txs: seq<Tx>, i: nat, j: nat)
    ensures |TxNullifiers(txs)| == NullifiersBefore(txs, |txs|)
    ensures i < |txs| && j < |txs[i].nullifiers| ==>
      && NullifiersBefore(txs, i) + j < |TxNullifiers(txs)|
      && TxNullifiers(txs)[NullifiersBefore(txs, i) + j] == txs[i].nullifiers[j]
  {
    if txs != [] {
      var rest := txs[1..];
      NullifierAt(rest, if i > 0 then i - 1 else 0, j);
      assert TxNullifiers(txs) == txs[0].nullifiers + TxNullifiers(rest);
      NullifiersBeforeFront(txs, |txs|);
      hide TxNullifiers;
      if 0 < i < |txs| {
        NullifiersBeforeFront(txs, i);
        assert txs[i] == rest[i - 1];
        hide NullifiersBefore;
      }
    }
  }

  /** Bare content is everything the node serves: only clues and metadata are cleared. */
  lemma BareClearsOnly(txs: seq<Tx>, i: nat, j: nat)
    ensures |Bare(txs)| == |txs|
    ensures i < |txs| ==> Bare(txs)[i].(outputs := []) == txs[i].(outputs := [])
                          && |Bare(txs)[i].outputs| == |txs[i].outputs|
    ensures i < |txs| && j < |txs[i].outputs| ==>
      Bare(txs)[i].outputs[j] == Output(txs[i].outputs[j].coin, txs[i].outputs[j].note, [], [])
  {
  }

  /** `next` is the block right after `prev` on the same fork. */
  predicate IsSuccessor(prev: Block, next: Block) {
    next.height == prev.height + 1 && next.prevHash == prev.hash
  }

  /** A run of genuine blocks on one fork. */
  ghost predicate Linked(chain: seq<Block>) {
    && (forall i :: 0 <= i < |chain| ==> Genuine(chain[i]))
    && (forall i :: 0 < i < |chain| ==> IsSuccessor(chain[i - 1], chain[i]))
  }

  /** Same content up to what this server adds to outputs. */
  predicate SameBareBlock(a: Block, b: Block) {
    a.height == b.height && a.hash == b.hash && a.prevHash == b.prevHash && Bare(a.txs) == Bare(b.txs)
  }

  lemma {:induction false} BareKeepsCoins(txs: seq<Tx>)
    ensures TxCoins(Bare(txs)) == TxCoins(txs)
  {
    if txs != [] {
      BareKeepsCoins(txs[1..]);
      assert Bare(txs)[1..] == Bare(txs[1..]);
      assert OutputCoins(Bare(txs)[0].outputs) == OutputCoins(txs[0].outputs);
    }
  }

  /** Blocks with the same bare content have the same shape and differ in clues and metadata only. */
  lemma BareFixesShape(left: seq<Tx>, right: seq<Tx>)
    requires Bare(left) == Bare(right)
    ensures |left| == |right|
    ensures forall i :: 0 <= i < |left| ==>
      && left[i].(outputs := []) == right[i].(outputs := []) && |left[i].outputs| == |right[i].outputs|
      && BareOutputs(left[i].outputs) == BareOutputs(right[i].outputs)
    ensures forall i, j :: 0 <= i < |left| && 0 <= j < |left[i].outputs| ==>
      left[i].outputs[j].(clue := [], meta := []) == right[i].outputs[j].(clue := [], meta := [])
  {
    assert |Bare(left)| == |left| && |Bare(right)| == |right|;
    forall i | 0 <= i < |left|
      ensures left[i].(outputs := []) == right[i].(outputs := [])
      ensures BareOutputs(left[i].outputs) == BareOutputs(right[i].outputs)
    {
      assert Bare(left)[i] == Bare(right)[i];
    }
    forall i | 0 <= i < |left| ensures |left[i].outputs| == |right[i].outputs| {
      assert |BareOutputs(left[i].outputs)| == |BareOutputs(right[i].outputs)|;
    }
    forall i, j | 0 <= i < |left| && 0 <= j < |left[i].outputs|
      ensures left[i].outputs[j].(clue := [], meta := []) == right[i].outputs[j].(clue := [], meta := [])
    {
      assert BareOutputs(left[i].outputs)[j] == BareOutputs(right[i].outputs)[j];
    }
  }

  /** The hash fixes the height, the previous hash and the bare content, hence the coins. */
  lemma HashFixesBlock(a: Block, b: Block)
    requires Genuine(a) && Genuine(b) && a.hash == b.hash
    ensures SameBareBlock(a, b) && Coins(a) == Coins(b)
  {
    BareKeepsCoins(a.txs);
    BareKeepsCoins(b.txs);
  }

  /** Two linked runs that end in the same hash agree block for block, back to the start of
      the shorter one: a hash has one history. */
  lemma {:induction false} OneHistory(left: seq<Block>, right: seq<Block>, back: nat)
    requires Linked(left) && Linked(right)
    requires back < |left| && back < |right|
    requires left[|left| - 1].hash == right[|right| - 1].hash
    ensures SameBareBlock(left[|left| - 1 - back], right[|right| - 1 - back])
  {
    if back > 0 {
      OneHistory(left, right, back - 1);
      var i, j := |left| - back, |right| - back;
      assert IsSuccessor(left[i - 1], left[i]) && IsSuccessor(right[j - 1], right[j]);
    }
    HashFixesBlock(left[|left| - 1 - back], right[|right| - 1 - back]);
  }
}
