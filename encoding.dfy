/**
 * The canonical byte encodings that blocks are hashed over
 * (`Action::to_bytes`, src/main.rs:168-197, and `Block::to_bytes`, src/main.rs:73-88),
 * with decoders that show the encodings lose nothing but the block's timestamp.
 */
module Encoding {
  import opened Bytes
  import opened Types

  const TRANSACTION_TAG: byte := 0
  const ADD_PUBLIC_KEY_TAG: byte := 1
  /** Tag, source, sink, counter, amount, signature: 1 + 16 + 16 + 8 + 16 + 64 bytes. */
  const TRANSACTION_SIZE: nat := 121
  /** Tag, identity, key: 1 + 16 + 32 bytes. */
  const ADD_PUBLIC_KEY_SIZE: nat := 49
  /** Previous hash, proof, miner key: 32 + 8 + 32 bytes. */
  const HEADER_SIZE: nat := 72

  /** The specification of `Action::to_bytes`: a one-byte tag, then the fields at fixed widths. */
  function ActionBytes(a: Action): (r: seq<byte>)
    ensures |r| == if a.Transaction? then TRANSACTION_SIZE else ADD_PUBLIC_KEY_SIZE
    ensures r[0] == if a.Transaction? then TRANSACTION_TAG else ADD_PUBLIC_KEY_TAG
  {
    match a
    case Transaction(source, sink, counter, amount, signature) =>
      [TRANSACTION_TAG] + source + sink + BE(counter, 8) + BE(amount, 16) + signature
    case AddPublicKey(id, pk) =>
      [ADD_PUBLIC_KEY_TAG] + id + pk
  }

  /** The encodings of a list of actions, concatenated without separators. */
  function ActionsBytes(actions: seq<Action>): (r: seq<byte>)
    ensures ADD_PUBLIC_KEY_SIZE * |actions| <= |r| <= TRANSACTION_SIZE * |actions|
  {
    if actions == [] then [] else ActionBytes(actions[0]) + ActionsBytes(actions[1..])
  }

  /** The specification of `Block::to_bytes`: the 72-byte header, then every action; no timestamp. */
  function BlockBytes(b: Block): (r: seq<byte>)
    ensures HEADER_SIZE + ADD_PUBLIC_KEY_SIZE * |b.actions| <= |r| <= HEADER_SIZE + TRANSACTION_SIZE * |b.actions|
  {
    b.prevHash + b.proof + b.minerPk + ActionsBytes(b.actions)
  }

  /** `Action::to_bytes`: pushes the tag, then every byte of the chained fields. */
  method ActionToBytes(a: Action) returns (r: seq<byte>)
    ensures r == ActionBytes(a)
  {
    r := [];
    match a
    case Transaction(source, sink, counter, amount, signature) =>
      r := r + [TRANSACTION_TAG];
      var fields := source + sink + BE(counter, 8) + BE(amount, 16) + signature;
      for i := 0 to |fields|
        invariant r == [TRANSACTION_TAG] + fields[..i]
      {
        r := r + [fields[i]];
      }
      assert fields[..|fields|] == fields;
    case AddPublicKey(id, pk) =>
      r := r + [ADD_PUBLIC_KEY_TAG];
      var fields := id + pk;
      for i := 0 to |fields|
        invariant r == [ADD_PUBLIC_KEY_TAG] + fields[..i]
      {
        r := r + [fields[i]];
      }
      assert fields[..|fields|] == fields;
  }

  /** `Block::to_bytes`: pushes the header bytes, then appends each action's encoding in order. */
  method BlockToBytes(b: Block) returns (r: seq<byte>)
    ensures r == BlockBytes(b)
  {
    r := [];
    var header := b.prevHash + b.proof + b.minerPk;
    for i := 0 to |header|
      invariant r == header[..i]
    {
      r := r + [header[i]];
    }
    assert header[..|header|] == header;
    for j := 0 to |b.actions|
      invariant r == header + ActionsBytes(b.actions[..j])
    {
      var encoded := ActionToBytes(b.actions[j]);
      ActionsBytesSnoc(b.actions, j);
      r := r + encoded;
    }
    assert b.actions[..|b.actions|] == b.actions;
    assert BlockBytes(b) == header + ActionsBytes(b.actions);
  }

  lemma {:induction false} ActionsBytesAppend(p: seq<Action>, q: seq<Action>)
    ensures ActionsBytes(p + q) == ActionsBytes(p) + ActionsBytes(q)
  {
    if p == [] {
      assert p + q == q;
    } else {
      assert (p + q)[0] == p[0];
      assert (p + q)[1..] == p[1..] + q;
      ActionsBytesAppend(p[1..], q);
      calc {
        ActionsBytes(p + q);
        ActionBytes(p[0]) + ActionsBytes(p[1..] + q);
        ActionBytes(p[0]) + (ActionsBytes(p[1..]) + ActionsBytes(q));
        (ActionBytes(p[0]) + ActionsBytes(p[1..])) + ActionsBytes(q);
      }
    }
  }

  /** Encoding one more action appends its encoding. */
  lemma ActionsBytesSnoc(actions: seq<Action>, j: nat)
    requires j < |actions|
    ensures ActionsBytes(actions[..j + 1]) == ActionsBytes(actions[..j]) + ActionBytes(actions[j])
  {
    assert actions[..j + 1] == actions[..j] + [actions[j]];
    ActionsBytesAppend(actions[..j], [actions[j]]);
    assert ActionsBytes([actions[j]]) == ActionBytes(actions[j]) + ActionsBytes([]);
  }

  /** Reads back the 120 bytes that follow a transaction's tag. */
  function DecodeTransaction(body: seq<byte>): (a: Action)
    requires |body| == TRANSACTION_SIZE - 1
    ensures a.Transaction?
  {
    Pow256Widths();
    Transaction(body[..16], body[16..32], FromBE(body[32..40]), FromBE(body[40..56]), body[56..])
  }

  /** Splits a byte string into actions by their tags and fixed sizes; None if it is not such a list. */
  function DecodeActions(bs: seq<byte>): (r: Option<seq<Action>>)
    decreases |bs|
  {
    if bs == [] then Some([])
    else if bs[0] == TRANSACTION_TAG && |bs| >= TRANSACTION_SIZE then
      match DecodeActions(bs[TRANSACTION_SIZE..])
      case None => None
      case Some(rest) => Some([DecodeTransaction(bs[1..TRANSACTION_SIZE])] + rest)
    else if bs[0] == ADD_PUBLIC_KEY_TAG && |bs| >= ADD_PUBLIC_KEY_SIZE then
      match DecodeActions(bs[ADD_PUBLIC_KEY_SIZE..])
      case None => None
      case Some(rest) => Some([AddPublicKey(bs[1..17], bs[17..ADD_PUBLIC_KEY_SIZE])] + rest)
    else None
  }

  /** Reads a block back from its encoding; the timestamp, which is not encoded, is supplied. */
  function DecodeBlock(bs: seq<byte>, timestamp: Timestamp): Option<Block>
  {
    if |bs| < HEADER_SIZE then None
    else
      match DecodeActions(bs[HEADER_SIZE..])
      case None => None
      case Some(actions) => Some(Block(bs[..32], bs[32..40], bs[40..HEADER_SIZE], timestamp, actions))
  }

  /** A transaction's encoding, followed by anything, starts with its tag and reads back. */
  lemma DecodeTransactionRoundTrip(a: Action, rest: seq<byte>)
    requires a.Transaction?
    ensures var bs := ActionBytes(a) + rest;
      && |bs| >= TRANSACTION_SIZE && bs[0] == TRANSACTION_TAG
      && bs[TRANSACTION_SIZE..] == rest
      && DecodeTransaction(bs[1..TRANSACTION_SIZE]) == a
  {
    var enc := ActionBytes(a);
    var bs := enc + rest;
    var body := enc[1..];
    assert bs[1..TRANSACTION_SIZE] == body;
    assert body == a.source + a.sink + BE(a.counter, 8) + BE(a.amount, 16) + a.signature;
    assert body[..16] == a.source && body[16..32] == a.sink;
    assert body[32..40] == BE(a.counter, 8);
    assert body[40..56] == BE(a.amount, 16);
    assert body[56..] == a.signature;
    Pow256Widths();
    FromBEOfBE(a.counter, 8);
    FromBEOfBE(a.amount, 16);
  }

  /** A key registration's encoding, followed by anything, starts with its tag and reads back. */
  lemma DecodeAddPublicKeyRoundTrip(a: Action, rest: seq<byte>)
    requires a.AddPublicKey?
    ensures var bs := ActionBytes(a) + rest;
      && |bs| >= ADD_PUBLIC_KEY_SIZE && bs[0] == ADD_PUBLIC_KEY_TAG
      && bs[ADD_PUBLIC_KEY_SIZE..] == rest
      && bs[1..17] == a.id && bs[17..ADD_PUBLIC_KEY_SIZE] == a.pk
  {
    var bs := ActionBytes(a) + rest;
    assert bs[1..ADD_PUBLIC_KEY_SIZE] == a.id + a.pk;
  }

  /** Decoding the encoding of any list of actions gives the list back. */
  lemma {:induction false} DecodeActionsRoundTrip(actions: seq<Action>)
    ensures DecodeActions(ActionsBytes(actions)) == Some(actions)
  {
    if actions != [] {
      var rest := ActionsBytes(actions[1..]);
      if actions[0].Transaction? {
        DecodeTransactionRoundTrip(actions[0], rest);
      } else {
        DecodeAddPublicKeyRoundTrip(actions[0], rest);
      }
      DecodeActionsRoundTrip(actions[1..]);
      assert [actions[0]] + actions[1..] == actions;
    }
  }

  /** Distinct lists of actions never share an encoding. */
  lemma ActionsBytesInjective(p: seq<Action>, q: seq<Action>)
    requires ActionsBytes(p) == ActionsBytes(q)
    ensures p == q
  {
    DecodeActionsRoundTrip(p);
    DecodeActionsRoundTrip(q);
  }

  /** Decoding a block's encoding with its own timestamp gives the block back. */
  lemma DecodeBlockRoundTrip(b: Block)
    ensures DecodeBlock(BlockBytes(b), b.timestamp) == Some(b)
  {
    var bs := BlockBytes(b);
    assert bs[HEADER_SIZE..] == ActionsBytes(b.actions);
    assert bs[..32] == b.prevHash && bs[32..40] == b.proof && bs[40..HEADER_SIZE] == b.minerPk;
    DecodeActionsRoundTrip(b.actions);
  }

  /** Two blocks share an encoding exactly when they agree on everything but the timestamp. */
  lemma BlockBytesInjective(b1: Block, b2: Block)
    ensures BlockBytes(b1) == BlockBytes(b2) <==>
      b1.prevHash == b2.prevHash && b1.proof == b2.proof && b1.minerPk == b2.minerPk
      && b1.actions == b2.actions
  {
    if BlockBytes(b1) == BlockBytes(b2) {
      DecodeBlockRoundTrip(b1);
      DecodeBlockRoundTrip(b2);
    }
  }
}
