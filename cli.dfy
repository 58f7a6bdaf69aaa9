/**
 * The sync entry logic: where a run starts, the guards on Testnet runs, how
 * the reader splits the block range into read windows, and the
 * next-block-number command.
 *
 * Snapshot readers and the metadata request are parameters; the chain state
 * is the type parameter S, which this model never looks inside.
 */
module Cli {
  import opened Bytes
  import opened Outcomes
  import opened Chains
  import EvmMap

  /** The reader never requests more than this many blocks at once. */
  const READ_LIMIT: u64 := 100000
  /** Testnet runs may only start at or after this block. */
  const TESTNET_BLOCK_THRESHOLD: u64 := 26800000

  datatype Error =
    | FetchFailed(reason: string)
    | ReadFailed(reason: string)
    | TestnetWithoutSnapshot
    | TestnetBelowThreshold
    | NoFileSpecified

  /** The text each error is reported with. */
  function Message(e: Error): (s: string)
    ensures e.FetchFailed? || e.ReadFailed? ==> s == e.reason
    ensures e == TestnetWithoutSnapshot ==> s == "Testnet must start from a snapshot"
    ensures e == TestnetBelowThreshold ==> s == "Testnet must be run after 26800000"
    ensures e == NoFileSpecified ==> s == "No file specified"
  {
    match e
    case FetchFailed(reason) => reason
    case ReadFailed(reason) => reason
    case TestnetWithoutSnapshot => "Testnet must start from a snapshot"
    case TestnetBelowThreshold => "Testnet must be run after 26800000"
    case NoFileSpecified => "No file specified"
  }

  /** A decoded snapshot: the next block number to apply and the state. */
  datatype Snapshot<S> = Snapshot(nextBlock: u64, state: S)

  /** A snapshot reader (abci or evm format): file name to snapshot, or a failure reason. */
  type SnapshotReader<S> = string -> Result<Snapshot<S>, string>

  /** The snapshot the selected reader makes of a file, with its failure lifted into Error. */
  function ReadSnapshot<S>(isAbci: bool, readAbci: SnapshotReader<S>, readEvm: SnapshotReader<S>, file: string)
    : (loaded: Result<Snapshot<S>, Error>)
  {
    var read := if isAbci then readAbci(file) else readEvm(file);
    match read
    case Ok(snapshot) => Ok(snapshot)
    case Err(reason) => Err(ReadFailed(reason))
  }

  /**
   * Start-state resolution of run_from_state and the Testnet guards: without
   * a state file Mainnet starts from genesis at block 1 and Testnet fails;
   * with one, is_abci picks the reader and its cursor is the start block; a
   * Testnet start below the threshold fails.
   */
  function ResolveStart<S>(chain: Chain, stateFile: Option<string>, isAbci: bool,
                           readAbci: SnapshotReader<S>, readEvm: SnapshotReader<S>, genesis: S)
    : (r: Result<Snapshot<S>, Error>)
    ensures stateFile.None? && chain == Mainnet ==> r == Ok(Snapshot(1, genesis))
    ensures stateFile.None? && chain == Testnet ==> r == Err(TestnetWithoutSnapshot)
    ensures stateFile.Some? && isAbci && readAbci(stateFile.value).Err? ==>
              r == Err(ReadFailed(readAbci(stateFile.value).error))
    ensures stateFile.Some? && !isAbci && readEvm(stateFile.value).Err? ==>
              r == Err(ReadFailed(readEvm(stateFile.value).error))
    ensures r.Ok? && stateFile.Some? && isAbci ==> readAbci(stateFile.value) == Ok(r.value)
    ensures r.Ok? && stateFile.Some? && !isAbci ==> readEvm(stateFile.value) == Ok(r.value)
    ensures stateFile.Some? && isAbci && readAbci(stateFile.value).Ok?
            && (chain == Testnet ==> TESTNET_BLOCK_THRESHOLD <= readAbci(stateFile.value).value.nextBlock) ==>
              r == Ok(readAbci(stateFile.value).value)
    ensures stateFile.Some? && !isAbci && readEvm(stateFile.value).Ok?
            && (chain == Testnet ==> TESTNET_BLOCK_THRESHOLD <= readEvm(stateFile.value).value.nextBlock) ==>
              r == Ok(readEvm(stateFile.value).value)
    ensures r.Ok? && chain == Testnet ==> stateFile.Some? && TESTNET_BLOCK_THRESHOLD <= r.value.nextBlock
    ensures r == Err(TestnetBelowThreshold) <==>
              chain == Testnet && stateFile.Some?
              && ReadSnapshot(isAbci, readAbci, readEvm, stateFile.value).Ok?
              && ReadSnapshot(isAbci, readAbci, readEvm, stateFile.value).value.nextBlock < TESTNET_BLOCK_THRESHOLD
  {
    var loaded :=
      if stateFile.Some? then ReadSnapshot(isAbci, readAbci, readEvm, stateFile.value)
      else if chain == Testnet then Err(TestnetWithoutSnapshot)
      else Ok(Snapshot(1, genesis));
    if loaded.Err? then loaded
    else if chain == Testnet && loaded.value.nextBlock < TESTNET_BLOCK_THRESHOLD then Err(TestnetBelowThreshold)
    else loaded
  }

  /** The inclusive block range [first, last] of one read_blocks request. */
  datatype Window = Window(first: u64, last: u64)

  /** The number of blocks in a window. */
  function Size(w: Window): (n: int)
  {
    w.last as int - w.first as int + 1
  }

  /**
   * ws splits [start, end] into consecutive windows of 1 to READ_LIMIT blocks
   * each, in increasing order; when start > end there are none.
   */
  ghost predicate Tiles(ws: seq<Window>, start: int, end: int)
  {
    && (ws == [] <==> start > end)
    && (ws != [] ==> ws[0].first as int == start && ws[|ws| - 1].last as int == end)
    && (forall i :: 0 <= i < |ws| ==> 1 <= Size(ws[i]) <= READ_LIMIT as int)
    && (forall i :: 0 < i < |ws| ==> ws[i].first as int == ws[i - 1].last as int + 1)
  }

  /** Every window except the last holds exactly READ_LIMIT blocks. */
  ghost predicate FullExceptLast(ws: seq<Window>)
  {
    forall i :: 0 <= i < |ws| - 1 ==> Size(ws[i]) == READ_LIMIT as int
  }

  /** Appending the window that starts right after a tiling of [start, end] tiles [start, w.last]. */
  lemma TilesExtend(ws: seq<Window>, start: int, end: int, w: Window)
    requires Tiles(ws, start, end) && (ws == [] ==> start == end + 1)
    requires w.first as int == end + 1 && 1 <= Size(w) <= READ_LIMIT as int
    ensures Tiles(ws + [w], start, w.last as int)
  {
  }

  /**
   * The reader task: starting at start_block, request [cur, min(end, cur + READ_LIMIT - 1)]
   * and continue after it, until cur passes end_block. The returned sequence
   * lists the windows the reader requests and sends, in order, when every
   * send succeeds.
   */
  method ReadWindows(startBlock: u64, endBlock: u64) returns (sent: seq<Window>)
    requires endBlock as int + READ_LIMIT as int < U64_BOUND
    ensures Tiles(sent, startBlock as int, endBlock as int)
    ensures FullExceptLast(sent)
  {
    var cur := startBlock;
    sent := [];
    while cur <= endBlock
      invariant sent == [] ==> cur == startBlock
      invariant sent != [] ==> startBlock <= cur <= endBlock + 1
      invariant Tiles(sent, startBlock as int, cur as int - 1)
      invariant FullExceptLast(sent)
      invariant sent != [] && cur <= endBlock ==> Size(sent[|sent| - 1]) == READ_LIMIT as int
      decreases endBlock as int - cur as int
    {
      var lastBlockInChunk := if endBlock < cur + READ_LIMIT - 1 then endBlock else cur + READ_LIMIT - 1;
      TilesExtend(sent, startBlock as int, cur as int - 1, Window(cur, lastBlockInChunk));
      sent := sent + [Window(cur, lastBlockInChunk)];
      cur := lastBlockInChunk + 1;
    }
  }

  /** Window k of a tiling starts k full windows after start. */
  lemma {:induction false} TilesFirst(ws: seq<Window>, start: int, end: int, k: nat)
    requires Tiles(ws, start, end) && FullExceptLast(ws) && k < |ws|
    ensures ws[k].first as int == start + k * READ_LIMIT as int
  {
    if k > 0 {
      TilesFirst(ws, start, end, k - 1);
    }
  }

  /** The reader sends ceil((end - start + 1) / READ_LIMIT) windows. */
  lemma WindowCount(ws: seq<Window>, start: int, end: int)
    requires Tiles(ws, start, end) && FullExceptLast(ws) && start <= end
    ensures |ws| == (end - start) / READ_LIMIT as int + 1
  {
    var n := |ws|;
    TilesFirst(ws, start, end, n - 1);
    var q, r := n - 1, Size(ws[n - 1]) - 1;
    assert end - start == q * READ_LIMIT as int + r && 0 <= r < READ_LIMIT as int;
  }

  /** Windows never overlap: an earlier window ends before a later one starts. */
  lemma {:induction false} TilesOrdered(ws: seq<Window>, start: int, end: int, i: nat, j: nat)
    requires Tiles(ws, start, end) && i < j < |ws|
    ensures ws[i].last < ws[j].first
  {
    if i < j - 1 {
      TilesOrdered(ws, start, end, i, j - 1);
    }
  }

  /** Each window is [first, min(end, first + READ_LIMIT - 1)], as the reader computes it. */
  lemma WindowBounds(ws: seq<Window>, start: int, end: int, i: nat)
    requires Tiles(ws, start, end) && FullExceptLast(ws) && i < |ws|
    ensures ws[i].last as int == if end < ws[i].first as int + READ_LIMIT as int - 1
                                 then end else ws[i].first as int + READ_LIMIT as int - 1
  {
    if i < |ws| - 1 {
      TilesOrdered(ws, start, end, i, |ws| - 1);
    }
  }

  /** A block lies in some window exactly when it lies in [start, end]. */
  lemma {:induction false} TilesCover(ws: seq<Window>, start: int, end: int, b: int)
    requires Tiles(ws, start, end)
    ensures start <= b <= end <==> exists i :: 0 <= i < |ws| && ws[i].first as int <= b <= ws[i].last as int
    decreases |ws|
  {
    if ws != [] {
      var n := |ws|;
      var init := ws[..n - 1];
      var last := ws[n - 1];
      if n == 1 {
        assert start <= b <= end <==> last.first as int <= b <= last.last as int;
      } else {
        TilesOrdered(ws, start, end, 0, n - 1);
        assert Tiles(init, start, last.first as int - 1);
        TilesCover(init, start, last.first as int - 1, b);
        if start <= b <= end && b < last.first as int {
          var i :| 0 <= i < |init| && init[i].first as int <= b <= init[i].last as int;
          assert ws[i] == init[i];
        }
        if i :| 0 <= i < n && ws[i].first as int <= b <= ws[i].last as int {
          if i < n - 1 {
            assert init[i] == ws[i];
          }
        }
      }
    }
  }

  /** A block lies in at most one window. */
  lemma TilesUnique(ws: seq<Window>, start: int, end: int, b: int, i: nat, j: nat)
    requires Tiles(ws, start, end) && i < |ws| && j < |ws|
    requires ws[i].first as int <= b <= ws[i].last as int && ws[j].first as int <= b <= ws[j].last as int
    ensures i == j
  {
    if i < j {
      TilesOrdered(ws, start, end, i, j);
    } else if j < i {
      TilesOrdered(ws, start, end, j, i);
    }
  }

  /** What a run_from_state that gets past its checks has set up. */
  datatype Run<S> = Run(systemAddresses: map<EvmMap.Address, EvmMap.Address>, start: Snapshot<S>, sent: seq<Window>)

  /**
   * run_from_state: fetch the token map first, then resolve the start state
   * and apply the Testnet guards, then run the reader over
   * [start block, end_block]. The processor's replay of the sent windows is
   * not part of this model; the run succeeds once the reader is done.
   */
  method RunFromState<S>(chain: Chain, fetch: EvmMap.SpotMetaFetch, stateFile: Option<string>, isAbci: bool,
                         readAbci: SnapshotReader<S>, readEvm: SnapshotReader<S>, genesis: S, endBlock: u64)
    returns (r: Result<Run<S>, Error>)
    requires endBlock as int + READ_LIMIT as int < U64_BOUND
    ensures fetch(EvmMap.InfoUrl(chain)).Err? ==> r == Err(FetchFailed(fetch(EvmMap.InfoUrl(chain)).error))
    ensures fetch(EvmMap.InfoUrl(chain)).Ok? ==>
              var start := ResolveStart(chain, stateFile, isAbci, readAbci, readEvm, genesis);
              (start.Err? ==> r == Err(start.error)) &&
              (start.Ok? ==> r.Ok? && r.value.start == start.value
                             && r.value.systemAddresses == EvmMap.SystemAddressMap(fetch(EvmMap.InfoUrl(chain)).value.tokens))
    ensures r.Ok? ==> Tiles(r.value.sent, r.value.start.nextBlock as int, endBlock as int) && FullExceptLast(r.value.sent)
  {
    var systemAddresses := EvmMap.Erc20ContractToSystemAddress(chain, fetch);
    if systemAddresses.Err? {
      return Err(FetchFailed(systemAddresses.error));
    }
    var start := ResolveStart(chain, stateFile, isAbci, readAbci, readEvm, genesis);
    if start.Err? {
      return Err(start.error);
    }
    var sent := ReadWindows(start.value.nextBlock, endBlock);
    r := Ok(Run(systemAddresses.value, start.value, sent));
  }

  /**
   * The next-block-number command: the abci file's cursor when that file is
   * given (whether or not an evm file is too), else the evm file's cursor,
   * else "No file specified".
   */
  function NextBlockNumber<S>(abciFile: Option<string>, evmFile: Option<string>,
                              readAbci: SnapshotReader<S>, readEvm: SnapshotReader<S>)
    : (r: Result<u64, Error>)
    ensures abciFile.Some? && readAbci(abciFile.value).Ok? ==> r == Ok(readAbci(abciFile.value).value.nextBlock)
    ensures abciFile.Some? && readAbci(abciFile.value).Err? ==> r == Err(ReadFailed(readAbci(abciFile.value).error))
    ensures abciFile.None? && evmFile.Some? && readEvm(evmFile.value).Ok? ==> r == Ok(readEvm(evmFile.value).value.nextBlock)
    ensures abciFile.None? && evmFile.Some? && readEvm(evmFile.value).Err? ==> r == Err(ReadFailed(readEvm(evmFile.value).error))
    ensures r == Err(NoFileSpecified) <==> abciFile.None? && evmFile.None?
  {
    if abciFile.Some? then
      match ReadSnapshot(true, readAbci, readEvm, abciFile.value)
      case Ok(snapshot) => Ok(snapshot.nextBlock)
      case Err(e) => Err(e)
    else if evmFile.Some? then
      match ReadSnapshot(false, readAbci, readEvm, evmFile.value)
      case Ok(snapshot) => Ok(snapshot.nextBlock)
      case Err(e) => Err(e)
    else Err(NoFileSpecified)
  }
}
