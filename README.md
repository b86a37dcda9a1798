# jcoin ledger core in Dafny

This project models the state-transition core of jcoin. jcoin is a small account ledger made of hash-linked blocks. Several competing branches ("timelines") can be known at the same time. The model covers these parts of `src/main.rs`:

- **Ledger state**: a map from a 16-byte identity to an account record `(public key, balance, counter)`. It is `Types.State`.
- **Action validation** (`Action::verify`). `AddPublicKey` registers a fresh identity. A `Transaction` needs all of:
  - a registered source;
  - enough balance;
  - a counter exactly one above the stored one;
  - a signature by the source's key over `source ‖ sink ‖ counter (8 bytes BE) ‖ amount (16 bytes BE)`.

  `Actions.Verify` specifies it. `Actions.VerifyAction` builds the payload byte by byte, as the code does.
- **Action execution** (`Action::perform`) is `Actions.Perform`. It does one of two things:
  - registers a key with balance 0 and counter 0;
  - debits the source and bumps its counter, then credits the sink only if the sink is registered.
- **Block admission** (`Block::perform`) is `Blocks.Timelines.PerformBlock`. The class holds the `KnownTimelines` map from block hash to `(block, state, size cap)`. The method:
  - looks up the parent;
  - checks `parent.timestamp < timestamp < now`;
  - copies the parent's state and applies the actions in order, rejecting the whole block at the first invalid one;
  - derives the child's size cap;
  - inserts the new entry under `hash(to_bytes(block))`.

  `Blocks.Admit` and `Blocks.AfterPerform` are its specification.
- **Canonical encodings**: `Action::to_bytes` and `Block::to_bytes`. Methods push bytes in loops, as the code does, and are proved equal to the functions `Encoding.ActionBytes` and `Encoding.BlockBytes`. The decoders in `Encoding` show that nothing except the block timestamp is lost.
- **Supply** (module `Supply`): verified actions never create coins. As long as a branch's total supply fits in a u128, balances stay within u128 and counters within u64.

Three collaborators are parameters:
- the SHA3-256 digest: `Types.Hasher`, a function from bytes to 32 bytes, with no assumption of injectivity;
- Ed25519 strict verification: `Types.SigCheck`;
- the wall clock: `now`, an integer timestamp.

Public keys and signatures are represented by their 32- and 64-byte encodings.

## Model

| member | source | states |
|---|---|---|
| `Bytes.FromBEOfBE` | src/main.rs:182-183 | Decoding the w-byte big-endian encoding of a number below 256^w gives the number back. |
| `Actions.SignedPayloadFields` | src/main.rs:143-151 | The signed payload is 56 bytes: source at 0..16, sink at 16..32, counter BE at 32..40, amount BE at 40..56. Each field reads back from its place. |
| `Actions.SignedPayloadInjective` | src/main.rs:143-157 | Two transfers with the same signed payload agree on source, sink, counter and amount, so a signature covers exactly one transfer. |
| `Actions.VerifyAction` | src/main.rs:133-166 | `Action::verify`, with its byte-pushing loop, returns exactly `Verify`. For AddPublicKey that is "id not registered". For a transfer it is: source registered, balance ≥ amount, stored counter + 1 = counter, and the signature checks over the payload. |
| `Actions.Perform` | src/main.rs:108-131 | AddPublicKey: the identity now maps to (key, 0, 0) and no other identity changes. Transfer: the identities and all keys stay the same. A distinct source loses `amount` and its counter rises by 1. A registered distinct sink gains `amount`. When source = sink, the balance is unchanged and the counter rises by 1. Nothing else changes, and an unregistered sink gets no entry. |
| `Actions.VerifiedCanPerform` | src/main.rs:120-125 | After a successful verify, the u128 debit in perform cannot underflow. |
| `Actions.PerformAdvancesCounter` | src/main.rs:122-125 | After a verified transfer, the source's counter equals the counter the transfer carried. |
| `Actions.PerformDescends` | src/main.rs:108-131 | A verified action removes no account, changes no key and lowers no counter. |
| `Actions.VerifiedActionIsStale` | src/main.rs:153-154 | Replay protection: once a verified action is performed, the resulting state rejects it, and so does every state that extends that state. |
| `Encoding.ActionBytes` | src/main.rs:168-197 | A transaction encodes to 121 bytes starting with tag 0. An AddPublicKey encodes to 49 bytes starting with tag 1. |
| `Encoding.ActionsBytes` | src/main.rs:84-86 | The concatenated encodings of n actions are between 49·n and 121·n bytes long. |
| `Encoding.BlockBytes` | src/main.rs:74-88 | A block encodes to the 72-byte header plus between 49 and 121 bytes per action. |
| `Encoding.ActionToBytes` | src/main.rs:168-197 | The push loops of `Action::to_bytes` produce exactly `ActionBytes`. |
| `Encoding.BlockToBytes` | src/main.rs:74-88 | The header loop and the action-appending loop of `Block::to_bytes` produce exactly `BlockBytes`. |
| `Encoding.DecodeActionsRoundTrip` | src/main.rs:168-197 | Decoding the encoding of any list of actions gives the list back. |
| `Encoding.ActionsBytesInjective` | src/main.rs:84-86 | Different action lists never share an encoding. |
| `Encoding.DecodeBlockRoundTrip` | src/main.rs:74-88 | Decoding a block's encoding, with its timestamp supplied, gives the block back. |
| `Encoding.BlockBytesInjective` | src/main.rs:73-88 | Two blocks share an encoding exactly when they agree on previous hash, proof, miner key and actions. The timestamp plays no part. |
| `Blocks.ApplyActions` | src/main.rs:52-58 | When the actions of a block all apply, the resulting state extends the parent's copy. |
| `Blocks.ApplyActionsNoneIff` | src/main.rs:53-56 | A block's actions are rejected exactly when some action fails to verify against the state accumulated from the actions before it. |
| `Blocks.AppliedAction` | src/main.rs:53-57 | In an accepted list, each action verified against the state its predecessors left. The final state extends the effect of performing it. |
| `Blocks.ActionStaleAfterApply` | src/main.rs:53-57 | No action of an accepted list verifies against the resulting state, or against any state that extends it. |
| `Blocks.NextMaxSize` | src/main.rs:59-64 | The cap rises exactly when the parent block was full (length = cap). It falls exactly when the parent used under half of it (2·len + 1 < cap, so cap ≥ 2 and no underflow). It moves by at most 1 and never drops from ≥ 1 to 0. |
| `Blocks.SizeCapExamples` | src/main.rs:59-64 | Cap 10: a parent with 10 actions gives 11, 4 actions give 9, 7 actions give 10. |
| `Blocks.Admit` | src/main.rs:46-71 | An admitted block has a known parent and is stored as itself, with a state that extends the parent's state. |
| `Blocks.AdmitCases` | src/main.rs:47-58 | `Block::perform` rejects exactly on an unknown parent, a timestamp outside (parent's, now), or an action that fails against the accumulated state. On acceptance the entry is (block, actions applied to the parent's state, next cap). |
| `Blocks.AfterPerformFrame` | src/main.rs:65 | On rejection the map is unchanged. On acceptance exactly one key, the block's hash, is set, replacing any earlier entry there, and every other key keeps its entry. |
| `Blocks.SiblingsIndependent` | src/main.rs:47-65 | Admitting a block does not change how a sibling with the same parent is judged, unless its hash equals the parent's. Siblings with distinct hashes both remain stored. |
| `Blocks.TimestampNotInKey` | src/main.rs:73-80 | A block that differs from another only in its timestamp gets the same key. If admitted after it, it replaces that entry. |
| `Blocks.ReplayedActionRejected` | src/main.rs:52-58 | A block built on an admitted block's state, or on any extension of it, that repeats one of the admitted block's actions is rejected. |
| `Blocks.Timelines.constructor` | src/main.rs:21 | The known timelines start as the caller's seed map, whose keys are the roots. |
| `Blocks.Timelines.PerformBlock` | src/main.rs:46-71 | Returns true exactly when `Admit` accepts. The map becomes `AfterPerform` of the old map. Every non-root entry keeps a known parent. |
| `Supply.PerformSupply` | src/main.rs:113-129 | A verified action conserves the total of all balances, except that a transfer to an unregistered sink destroys its amount. |
| `Supply.ApplyActionsSupply` | src/main.rs:52-58 | Applying a block's actions never increases the total supply. |
| `Supply.FitsWidthsBalances` | src/main.rs:20 | While the supply fits in a u128, so does every balance. |
| `Supply.PerformFitsWidths` | src/main.rs:120-128 | A verified action keeps the supply within u128 and counters within u64, so the `+=` on the sink and on the counter cannot overflow. |
| `Supply.ApplyActionsFitsWidths` | src/main.rs:52-58 | The same holds for all the actions of an accepted block. |
| `Scenario.TransferThenReplay` | src/main.rs:46-71 | Genesis has A (100, counter 0) and B (0). A block moving 40 from A to B with counter 1 is accepted, giving A 60 with counter 1 and B 40. A child block replaying that transfer is rejected and the map is unchanged. |

## Left out

- `hash` (SHA3-256, src/main.rs:23-25) is a foreign library. It is the parameter `Hasher`, and nothing is assumed about it beyond its 32-byte output.
- Ed25519 `verify_strict`, `PublicKey::to_bytes` and `Signature::to_bytes` are foreign cryptography. Verification is the parameter `SigCheck`. Keys and signatures are their 32- and 64-byte encodings.
- `Utc::now()` is the wall clock. It is the parameter `now`, and timestamps are integers.
- `main` (src/main.rs:27-34) only prints a digest.
- src/signature.rs is unused (its import is commented out).
- The proof-of-work check is only a TODO in the code (src/main.rs:66), so there is nothing to model.
- Actions.Perform: balances and counters are unbounded naturals, so the u128 `+= amount` on the sink and the u64 `+= 1` on the counter cannot overflow in the model. Rust would panic there in a debug build. `Supply.PerformFitsWidths` shows this cannot happen when the branch's supply fits in a u128.
- Actions.Perform: requires that a registered source's balance covers the amount. Otherwise the u128 `-=` panics. The code calls `perform` only after `verify`, which guarantees this (`Actions.VerifiedCanPerform`).
- Actions.Verify: `stored counter + 1` is computed without u64 overflow. For a stored counter of 2^64−1, Rust panics in a debug build and wraps in a release build, while the model simply rejects. Reaching that counter takes 2^64−1 transfers from one account.
- Blocks.NextMaxSize: the usize `+= 1` on the cap is unbounded.
- Aliasing: the cloned parent state is a value in Dafny, so isolation between branches holds by construction rather than by a separate copy.

## Kept as the code has it

A ledger of this kind would be expected to make some checks that `src/main.rs` does not make. In each case the model follows the code:
- A transfer to an unregistered sink is accepted, and its amount disappears (`Supply.PerformSupply`). The block is not rejected.
- The size cap is computed but never enforced against a block's length.
- `HashMap::insert` replaces an existing entry under the same hash. No duplicate or collision rejection exists (`Blocks.AfterPerformFrame`, `Blocks.TimestampNotInKey`).
- `verify` and `Block::perform` return only a boolean, not a rejection reason.
