/**
 * The ledger's entities (src/main.rs:16-21, 36-43, 91-104).
 * Public keys and signatures are represented by their fixed-width byte encodings,
 * so their `to_bytes` is the identity here.
 */
module Types {
  import opened Bytes

  datatype Option<T> = None | Some(value: T)

  type HashOutput = s: seq<byte> | |s| == 32 witness seq(32, _ => 0)
  type Proof = s: seq<byte> | |s| == 8 witness seq(8, _ => 0)
  type Identity = s: seq<byte> | |s| == 16 witness seq(16, _ => 0)
  /** An Ed25519 public key, as its 32-byte compressed encoding. */
  type PublicKey = s: seq<byte> | |s| == 32 witness seq(32, _ => 0)
  /** An Ed25519 signature, as its 64-byte encoding. */
  type Signature = s: seq<byte> | |s| == 64 witness seq(64, _ => 0)

  /** The wall-clock timestamp of a block, as an integer instant. */
  type Timestamp = int

  /** An account record: registered key, coin amount and replay counter. */
  datatype Account = Account(key: PublicKey, balance: nat, counter: nat)

  /** One branch's ledger: identity to account record. */
  type State = map<Identity, Account>

  datatype Action =
    | Transaction(source: Identity, sink: Identity, counter: u64, amount: u128, signature: Signature)
    | AddPublicKey(id: Identity, pk: PublicKey)

  datatype Block = Block(prevHash: HashOutput, proof: Proof, minerPk: PublicKey,
                         timestamp: Timestamp, actions: seq<Action>)

  /** A known timeline: the block, the state after it and the size cap it hands to its children. */
  datatype Entry = Entry(block: Block, state: State, maxSize: nat)

  type KnownTimelines = map<HashOutput, Entry>

  /** The SHA3-256 digest function, which the model takes as a parameter. */
  type Hasher = seq<byte> -> HashOutput

  /** Ed25519 strict verification of a signature over a message under a key, as a parameter. */
  type SigCheck = (PublicKey, seq<byte>, Signature) -> bool
}
