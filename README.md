# hyper-evm-sync: system-address map and sync entry logic

A Dafny model of two pieces of hyper-evm-sync, a tool that replays HyperEVM
blocks against an account/storage database and checkpoints it:

- **The ERC-20 system-address map** (`src/evm_map.rs`). For every spot token
  that carries an EVM contract, the tool derives a synthetic 20-byte address:
  `0x20`, eleven zero bytes, then the token index as a big-endian u64. It
  inserts `contract -> synthetic address` into a map; a later token overwrites
  an earlier one for the same contract.
- **The sync entry logic** (`src/cli.rs`). This covers how `sync-from-state`
  picks its start block and state: genesis at block 1, or the cursor of the
  abci or evm snapshot reader. It covers the two Testnet guards, how the
  reader task cuts `[start_block, end_block]` into read windows of at most
  `READ_LIMIT` blocks, the `next-block-number` command, and how a `Chain` is
  displayed.

Modules:

- `Outcomes` (`outcomes.dfy`): `Option` and `Result`.
- `Bytes` (`bytes.dfy`): `u8`/`u64` as newtypes. Big-endian encoding and
  decoding, i.e. `u64::to_be_bytes` and its inverse.
- `Chains` (`chain.dfy`): `Chain` and `Display for Chain`.
- `EvmMap` (`evm_map.dfy`): address derivation, the map-building loop and
  the endpoint URLs.
- `Cli` (`cli.dfy`): start-state resolution, the guards, the reader loop,
  `run_from_state` and `next-block-number`.

The outside world enters as parameters:

- The spot-metadata request is a total function from URL to decoded
  metadata or a failure reason. `Erc20ContractToSystemAddress` applies it to
  `InfoUrl(chain)`, so the chain affects only the endpoint.
- The two snapshot readers are functions from file name to
  `(next block number, state)` or a failure reason.
- The chain state is a type parameter `S` that the model never inspects.
  The genesis state is passed in.

u64 arithmetic uses a newtype, so Dafny checks that no operation overflows.
The one precondition this needs is that `end_block + READ_LIMIT` fits in a
u64. That is exactly where the reader's `cur_block + READ_LIMIT - 1`, read
left to right, could overflow.

Two points about the code the model follows:

- `next-block-number` given both an abci and an evm file is not rejected:
  the abci file wins, and only its reader can fail (`src/cli.rs:97-103`). It
  fails with "No file specified" only when neither file is given.
- `src/cli.rs:119` passes `chain_id(chain)` to
  `erc20_contract_to_system_address`, whose parameter is a `Chain`. `chain_id`
  is not part of this model. The model passes the chain itself.

## Model

| member | source | states |
|---|---|---|
| `Bytes.ToBeBytes` | src/evm_map.rs:45 | `to_be_bytes` of a u64 is exactly 8 bytes |
| `Bytes.DecodeEncode` | src/evm_map.rs:45 | decoding the n-byte big-endian encoding of any x < 256^n gives x back |
| `Bytes.EncodeDecode` | src/evm_map.rs:45 | every byte sequence is the big-endian encoding of the number it decodes to |
| `Bytes.EncodeBeInjective` | src/evm_map.rs:45 | two numbers have the same n-byte encoding if and only if they are equal |
| `Bytes.BeBytesRoundTrip` | src/evm_map.rs:45 | `from_be_bytes(to_be_bytes(x)) == x` for every u64, and `to_be_bytes(from_be_bytes(s)) == s` for every 8 bytes |
| `Chains.Display` | src/cli.rs:37-47 | a chain displays as "Mainnet" exactly when it is Mainnet and as "Testnet" exactly when it is Testnet |
| `Chains.DisplayInjective` | src/cli.rs:37-47 | two chains display the same if and only if they are the same chain |
| `EvmMap.InfoUrl` | src/evm_map.rs:24-29 | each chain's metadata endpoint is an `https://` URL ending in `/info` |
| `EvmMap.InfoUrlDistinct` | src/evm_map.rs:24-29 | Mainnet and Testnet use different endpoints |
| `EvmMap.DeriveSystemAddress` | src/evm_map.rs:43-46 | filling a zeroed 20-byte buffer gives byte 0 = 0x20, bytes 1..11 = 0 and bytes 12..20 = the big-endian index; this is the address `SystemAddress(index)` |
| `EvmMap.SystemAddressRoundTrip` | src/evm_map.rs:43-46 | the index can be read back from any derived address: it has the system layout and bytes 12..20 decode to the index exactly |
| `EvmMap.SystemAddressIndexSound` | src/evm_map.rs:43-46 | every address with the system layout is the derived address of the index its last 8 bytes encode |
| `EvmMap.SystemAddressInjective` | src/evm_map.rs:43-46 | two token indices give the same system address if and only if they are equal |
| `EvmMap.SystemAddressOfFive` | src/evm_map.rs:43-46 | index 5 gives 0x20, eighteen zero bytes, then 0x05 |
| `EvmMap.SystemAddressMapKeys` | src/evm_map.rs:41-49 | the map's keys are exactly the contract addresses that occur in the token list; tokens without a contract add no key |
| `EvmMap.SystemAddressMapLastWriter` | src/evm_map.rs:48 | when several tokens carry the same contract, the map holds the system address of the last of them in list order |
| `EvmMap.ContractToSystemAddress` | src/evm_map.rs:40-51 | the loop builds `SystemAddressMap(tokens)`, a function of the token list alone; its keys are the listed contracts and every value has the system layout |
| `EvmMap.Erc20ContractToSystemAddress` | src/evm_map.rs:38-52 | metadata is fetched from the chain's endpoint; a failed fetch is returned as the error, otherwise the result is the map built from the returned tokens |
| `Cli.Message` | src/cli.rs:102-134 | fetch and snapshot-read failures keep their own reason. The guards report "Testnet must start from a snapshot" and "Testnet must be run after 26800000", and next-block-number reports "No file specified" |
| `Cli.ResolveStart` | src/cli.rs:120-136 | no state file on Mainnet gives block 1 and genesis, and on Testnet "Testnet must start from a snapshot". With a state file, `is_abci` picks the reader and its failure propagates. A readable snapshot is the start on Mainnet, and on Testnet whenever its cursor is at or above `TESTNET_BLOCK_THRESHOLD`. A successful Testnet start always comes from a file at or above `TESTNET_BLOCK_THRESHOLD`. The below-threshold error arises exactly for a Testnet snapshot below it; Mainnet never checks it |
| `Cli.ReadWindows` | src/cli.rs:165-173 | the windows sent cover `[start_block, end_block]` in order: the first starts at start_block, the last ends at end_block, each starts right after the previous one, each holds 1..READ_LIMIT blocks and all but the last exactly READ_LIMIT. Nothing is sent when start_block > end_block, and the loop terminates |
| `Cli.WindowBounds` | src/cli.rs:168 | every window is `[cur, min(end_block, cur + READ_LIMIT - 1)]` |
| `Cli.TilesFirst` | src/cli.rs:166-171 | window k starts at `start_block + k * READ_LIMIT` |
| `Cli.WindowCount` | src/cli.rs:166-172 | the reader sends `(end_block - start_block) / READ_LIMIT + 1` windows when start_block <= end_block |
| `Cli.TilesOrdered` | src/cli.rs:166-172 | windows are strictly increasing: an earlier window ends before any later one starts |
| `Cli.TilesCover` | src/cli.rs:166-172 | a block lies in some window if and only if it lies in `[start_block, end_block]`, so there are no gaps |
| `Cli.TilesUnique` | src/cli.rs:166-172 | no block lies in two windows, so there are no overlaps |
| `Cli.RunFromState` | src/cli.rs:110-183 | the token map is fetched first, and a fetch failure is the result even where a Testnet guard would also fail. Then a start-state error is the result. Otherwise the run holds the map built from the fetched tokens, the resolved start, and reader windows that tile `[start, end_block]` |
| `Cli.NextBlockNumber` | src/cli.rs:96-103 | the abci reader's cursor (or failure) when an abci file is given, even if an evm file is too; else the evm reader's; "No file specified" exactly when neither file is given |

## Left out

- The HTTP request and JSON decoding in `fetch_spot_meta` (`src/evm_map.rs:31-36`) are network I/O. They are a parameter whose outcome is either the decoded metadata or an opaque failure reason.
- The tokio channel, `spawn` and `join!` (`src/cli.rs:146-163`, `175-182`) are concurrency. The reader's sends are modelled as the returned sequence of windows. That is what is sent when every send succeeds. `tx.send(blocks).await.unwrap()` (`src/cli.rs:170`) panics the reader once the processor task has ended, so what is actually sent can be a proper prefix of that sequence. The processor task is not modelled: it hashes the state, calls `run_blocks` for each received element and takes snapshots.
- Task failures are only printed, and `run_from_state` still returns `Ok(())`. `RunFromState` accordingly succeeds once the reader has computed its windows.
- `run_blocks`, `read_blocks`, `read_abci_state`, `read_evm_state`, `download_blocks`, `chain_id` and `blake3_hash_slow` live in files that are not part of this model. The readers are opaque parameters. The others are not modelled, so the contents of each window, the snapshot cadence (`chunk_size`, `CHUNK_SIZE`) and the state hash are not modelled either.
- The `download-blocks` and `sync-from-state` arms of `Cli::execute` (`src/cli.rs:89-95`) only forward their arguments. The second is `RunFromState`; the first calls `download_blocks`, which is not part of this model.
- The progress bar, `println!`/`eprintln!`, clap argument parsing and `Instant` timing are UI and the clock. One consequence: the model does not capture that `end_block - start_block + 1` (`src/cli.rs:139`), evaluated as `(end_block - start_block) + 1`, underflows as soon as `start_block > end_block`. That includes an already-synced resume whose cursor is `end_block + 1`. A debug build panics there before the reader starts. The model returns a run with no windows.
- `BTreeMap` is modelled as a Dafny `map`, which has no key order. Nothing in the modelled code iterates over the map.
- `Cli.RunFromState`, `Cli.ReadWindows`: the model does not capture u64 overflow. Both require `end_block + READ_LIMIT` to fit in a u64, instead of modelling a Rust overflow panic or wrap-around. Once `cur_block > u64::MAX - READ_LIMIT`, `cur_block + READ_LIMIT` (`src/cli.rs:168`) overflows. A debug build panics. A release build wraps. `last_block_in_chunk` then drops below `cur_block`, except at `cur_block == u64::MAX - READ_LIMIT + 1`, where it equals `end_block`; if `end_block == u64::MAX`, `last_block_in_chunk + 1` (`src/cli.rs:171`) wraps to 0. With `end_block == u64::MAX` the condition `cur_block <= end_block` can never be false, so a release-build reader goes back to a block below `READ_LIMIT` and never stops. The model's termination proof holds only because the precondition excludes these inputs.
- `Cli.Message`: the threshold in "Testnet must be run after 26800000" is written out as text. It is not formatted from `TESTNET_BLOCK_THRESHOLD`.
