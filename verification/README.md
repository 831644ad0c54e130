# Blockchain access control: ledger and flow-authorization model

This project models the core of an SDN controller that gates network flows with a small proof-of-work blockchain.

- **Ledger** (`ledger.dfy`, module `Ledger`). It models `Block`, `Blockchain`, nonce search (`proof_of_work`), proof checking (`is_valid_proof`), guarded append (`add_block`), `mine` and `last_block`.
- **Controller policy** (`controller.dfy`, module `NetworkController`). It models the exact-match flow lookup (`flow_is_allowed`) and the ledger decision inside `act_like_switch`. That decision builds the flow key `"<src> -> <dst>"` and extracts the route of an HTTP `GET` line. A route containing `"data"` is forwarded only if the flow is already recorded. A route containing `"add"` mines the flow into the chain.
- **Python string semantics** (`pystrings.dfy`, module `PyStrings`). It models `startswith`, `find`, `in` and slicing, including negative and out-of-range slice bounds.
- **Optional values** (`wrappers.dfy`). Used for attributes the Python object may not have yet.

The hash (SHA-256 over the key-sorted JSON of the block's `__dict__`) is a parameter `h: Hasher`. It is a deterministic function of a `Block` value. `Block.nonce` and `Block.hash` are `Option`s that mirror whether the Python object has that attribute when it is hashed:

- genesis is hashed with neither attribute;
- a mined block is hashed with a nonce but no hash;
- a block that already carries `hash` would be hashed with it.

The ledger invariants use `Unsealed(b)`, the block with its `hash` attribute removed. They are stated as predicates over the chain:

- `GenesisShaped`: the first block has the genesis shape.
- `Linked`: `chain[i].previousHash` is the hash of `chain[i-1]`.
- `Proven`: every later block's stored hash is the digest of its unsealed self and has the zero prefix.
- `Contiguous`: `chain[i].index == i`.

Behaviour of the code worth noting:

- The genesis payload is `""`, so on a fresh ledger `flow_is_allowed("")` is true.
- `mine` reports `True` whatever `add_block` returned.
- Any integer difficulty is accepted. When the difficulty is at most 0, `"0" * d` is empty and every digest passes.
- `add_block` does not check `index`. Contiguous indices are therefore preserved by `Mine`, which numbers the candidate after the tail, but not by `AddBlock` in general.

## Model

| member | source | states |
|---|---|---|
| `Ledger.NewBlock` | Blockchain.py:16-27 | A new block has the given index, payload, timestamp and previous hash, and has neither a nonce nor a hash attribute |
| `Ledger.Zeros` | Blockchain.py:56 | `"0" * d` has `max(d, 0)` characters, all of them `'0'` |
| `Ledger.MeetsDifficultyChars` | Blockchain.py:82 | `s.startswith("0" * d)` holds exactly when `s` has at least `d` characters and its first `d` are `'0'` |
| `Ledger.IsValidProof` | Blockchain.py:76-83 | A proof is valid iff it has `difficulty` leading `'0'` characters and equals the block's digest, nonce included |
| `Ledger.ProofOfWork` | Blockchain.py:49-59 | When some nonce works, the result is the block with a nonce set and every other attribute unchanged. The proof is that block's digest and has the zero prefix. Every smaller nonce fails, so the returned nonce is the least that works |
| `Ledger.LastBlock` | Blockchain.py:100-105 | The tail is the last element of the chain (`chain[-1]`): the chain's one-element suffix is exactly it. With contiguous indices, its index is the chain length minus one |
| `Ledger.AddBlock` | Blockchain.py:61-74 | Append succeeds iff the block's previous hash equals the tail's hash and the proof is valid. On rejection (stale link, forged digest, missing zero prefix) the ledger is unchanged. On success the chain grows by exactly the block with `hash == proof`; earlier blocks and the difficulty are unchanged |
| `Ledger.Init` | Blockchain.py:39-47 | A new ledger has exactly one block: index 0, payload `""`, previous hash `"0"`, no nonce. Its hash is the digest of those fields with no nonce. The ledger satisfies the validity and contiguity invariants |
| `Ledger.InitDefault` | network_controller.py:29 | The controller's ledger has difficulty 2 and a single valid genesis block |
| `Ledger.AddBlockPreservesValid` | Blockchain.py:67-73 | Appending a block without a hash attribute preserves genesis shape, linkage and the sealed zero-prefix hash of every later block |
| `Ledger.AddBlockPreservesContiguous` | Blockchain.py:67-73 | Appending keeps indices contiguous when the block is numbered one past the tail; `add_block` itself does not check this |
| `Ledger.Candidate` | Blockchain.py:89-94 | The block `mine` builds is numbered after the tail, links to the tail's hash, and carries the given payload and time with no nonce and no hash |
| `Ledger.Mine` | Blockchain.py:85-98 | `mine` always reports success, and its internal `add_block` always succeeds. It appends exactly one block: index `last.index + 1`, the given payload, linked to the old tail, sealed, zero-prefixed, with the least working nonce. Validity and contiguity are preserved |
| `Ledger.MineAll` | Blockchain.py:85-98 | N consecutive mines append N blocks carrying the given payloads and timestamps in order, keep the difficulty, and keep the ledger valid and contiguous. From genesis, the tail's index afterwards is N |
| `Ledger.StaleCandidateRejected` | Blockchain.py:67-69 | A candidate linked to a tail that has since been extended is rejected and the ledger is unchanged, whenever the appended block's digest differs from the old tail's |
| `Ledger.TailHashCommits` | Blockchain.py:67-72 | Two valid chains of equal length with the same tail hash are identical, whenever the digest separates their corresponding blocks. So altering an earlier block unnoticed takes a digest collision |
| `PyStrings.StartsWithChars` | Blockchain.py:82 | `s.startswith(p)` holds iff `p` is no longer than `s` and agrees with it character by character |
| `PyStrings.SliceBound` | network_controller.py:65 | A slice bound is clamped to `[0, n]`, and a negative bound counts from the end |
| `PyStrings.Slice` | network_controller.py:65 | `s[i:j]` has length `b - a` (or 0 when `a >= b`) for the normalised bounds `a`, `b`, and its `k`-th character is `s[a + k]` |
| `PyStrings.Find` | network_controller.py:64-65 | `str.find` returns -1 iff the substring does not occur, and otherwise its first position |
| `PyStrings.In` | network_controller.py:66-70 | `sub in s` holds iff `sub` occurs somewhere in `s` |
| `NetworkController.FlowIsAllowed` | network_controller.py:43-47 | The scan returns true iff some block's payload equals the flow exactly |
| `NetworkController.InChainAppend` | network_controller.py:43-47 | After appending one block, a flow is recorded iff it was recorded before or is that block's payload |
| `NetworkController.FreshLedgerAllowsOnlyEmpty` | network_controller.py:43-47 | On a fresh ledger the only allowed flow is `""`, the genesis payload; every non-empty flow is refused |
| `NetworkController.ExactMatchOnly` | network_controller.py:45 | With only `10.0.0.1 -> 10.0.0.3` recorded, that flow is allowed. `10.0.0.1 -> 10.0.0.2` and the prefix `10.0.0.1 -> 10.0.0.` are not |
| `NetworkController.FlowKey` | network_controller.py:62 | The key is the source text, then `" -> "`, then the destination text |
| `NetworkController.FlowKeyInjective` | network_controller.py:60-62 | For addresses without spaces, equal keys mean equal source and destination |
| `NetworkController.HttpAfterGet` | network_controller.py:64-65 | In a line starting with `GET`, `"HTTP"`, when found, is first found at position 3 or later, so the slice end `find("HTTP") - 1` is at least 2. When `"HTTP"` is absent, `find` returns -1 and the end is -2, which counts from the end of the line |
| `NetworkController.Route` | network_controller.py:64-65 | A route exists iff the payload starts with `GET`. It is the text from index 4 up to one before the first `"HTTP"`. Without `"HTTP"`, it ends two characters before the end. When the end is not past index 4, the route is empty |
| `NetworkController.DataRequestExample` | network_controller.py:64-67 | `GET /data HTTP/1.1` has route `/data` and is a data query |
| `NetworkController.Classify` | network_controller.py:64-70 | A GET route containing `"data"` is a query, whether or not it also contains `"add"`. One containing `"add"` and not `"data"` is an admission. Everything else needs no ledger check |
| `NetworkController.ActLikeSwitch` | network_controller.py:60-74 | A query is dropped iff its flow is not recorded, and the ledger is unchanged. An admission mines the flow key, appends exactly one block, forwards, and leaves the flow allowed. Other payloads forward with the ledger unchanged. The difficulty never changes, and validity and contiguity are preserved |

## Left out

- The real SHA-256 and JSON encoding are modelled as an arbitrary deterministic `Hasher`. Properties that need collision freedom assume only the specific non-collisions they use, as preconditions.
- Timestamps from `time.time()` are opaque `real` values passed in as parameters. No ordering is assumed.
- `unconfirmed_trans` is assigned in `mine` but never read, so it is not modelled.
- Packet I/O and logging are library-bound plumbing and are not modelled. This covers `resend_packet`, `_handle_PacketIn`, `launch`, the `boot` entry point, the OpenFlow messages and the `LOG.debug` calls in the policy branches (network_controller.py:68, 72).
- MAC learning and port selection (network_controller.py:57, 75-78) are not modelled. The `len(packet_in.data) == packet_in.total_len` check is left out too. `ActLikeSwitch` starts at the TCP branch and returns `Forward` where control would reach the forwarding step.
- Decoding of the TCP payload is not modelled; the payload is given as a string. Source and destination addresses are given as their text.
- create_network.py (Mininet topology) and Server.py (a Flask endpoint) are not part of this model.
- `Ledger.ProofOfWork`: termination is not unconditional. The nonce search in `proof_of_work` is unbounded, so the method requires that some nonce solves the puzzle (`Minable`).
- `Ledger.Mine`: requires a solvable candidate, for the same reason as `ProofOfWork`.
- `Ledger.MineAll`: requires every block to be solvable, so that each successive candidate has a working nonce.
- `Ledger.AddBlockPreservesValid`: covers only blocks that arrive without a `hash` attribute, as every block built by `mine` does. A block that already carries `hash` is hashed with it, so its stored hash is not the digest of its unsealed self.
- `NetworkController.FlowIsAllowed`: "never modifies the chain" and "repeated queries agree" are not separate lemmas. The method takes the chain by value and returns only a boolean, and its result is a function of the chain and the flow.
- `NetworkController.ActLikeSwitch`: the dead `else: return` after `mine` is modelled as `Drop` when `mine` reports failure, which never happens.
