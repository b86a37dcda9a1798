/**
 * A concrete run of the ledger: a transfer of 40 coins from alice (balance 100) to bob in a block
 * on top of genesis, then a second block that replays the same transfer.
 */
module Scenario {
  import opened Types
  import opened Actions
  import opened Blocks

  function Genesis(alice: Identity, bob: Identity, ka: PublicKey, kb: PublicKey): State
  {
    map[alice := Account(ka, 100, 0), bob := Account(kb, 0, 0)]
  }

  /** The transfer is accepted with alice at 60 and counter 1, bob at 40; its replay on top is rejected. */
  lemma TransferThenReplay(alice: Identity, bob: Identity, ka: PublicKey, kb: PublicKey, sig: Signature,
                           genesis: Block, genesisHash: HashOutput,
                           proof: Proof, miner: PublicKey, t1: Timestamp, now1: Timestamp,
                           t2: Timestamp, now2: Timestamp, hash: Hasher, sigOk: SigCheck)
    requires alice != bob
    requires genesis.timestamp < t1 < now1
    requires sigOk(ka, SignedPayload(alice, bob, 1, 40), sig)
    ensures var known := map[genesisHash := Entry(genesis, Genesis(alice, bob, ka, kb), 10)];
      var tx := Transaction(alice, bob, 1, 40, sig);
      var b1 := Block(genesisHash, proof, miner, t1, [tx]);
      var known2 := AfterPerform(known, b1, now1, hash, sigOk);
      var b2 := Block(BlockKey(b1, hash), proof, miner, t2, [tx]);
      && Admit(known, b1, now1, sigOk).Some?
      && known2[BlockKey(b1, hash)].state == map[alice := Account(ka, 60, 1), bob := Account(kb, 40, 0)]
      && Admit(known2, b2, now2, sigOk).None?
      && AfterPerform(known2, b2, now2, hash, sigOk) == known2
  {
    var known := map[genesisHash := Entry(genesis, Genesis(alice, bob, ka, kb), 10)];
    var tx := Transaction(alice, bob, 1, 40, sig);
    var b1 := Block(genesisHash, proof, miner, t1, [tx]);
    var s1 := Perform(tx, Genesis(alice, bob, ka, kb));
    assert s1 == map[alice := Account(ka, 60, 1), bob := Account(kb, 40, 0)];
    assert ApplyActions(Genesis(alice, bob, ka, kb), [tx], sigOk) == ApplyActions(s1, [], sigOk);
    var known2 := AfterPerform(known, b1, now1, hash, sigOk);
    var b2 := Block(BlockKey(b1, hash), proof, miner, t2, [tx]);
    ReplayedActionRejected(known, b1, now1, known2, b2, now2, 0, 0, sigOk);
  }
}
