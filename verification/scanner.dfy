/** The contract scanner's sequential logic: the RPC endpoint derived from the stored list of
    running boxes, the window of recent blocks it scans, the hex block parameters it sends,
    and the two-stage filter that turns block transactions into contract deployments. The
    JSON-RPC calls themselves are replaced by their answers, given as inputs. */
module Scanner {
  import opened Wrappers
  import Numerals

  // ---------------------------------------------------------------- RPC endpoint

  /** One element of the stored `runningBoxes` list. */
  datatype RunningBox = RunningBox(
    id: int,
    status: string,
    containerName: string,
    ip: Option<string>,
    timeRemaining: string)

  /** What `localStorage.getItem('runningBoxes')` returned, and what `JSON.parse` made of it.
      `None` stands for every stored value that makes the reading throw: text `JSON.parse`
      rejects, a stored `null`, and a non-empty list whose first element is `null`. */
  datatype StoredBoxes = NoEntry | Entry(text: string, parsed: Option<seq<RunningBox>>)

  /** JavaScript truthiness of an optional string. */
  predicate Truthy(s: Option<string>) {
    s.Some? && s.value != ""
  }

  const Scheme: string := "https://"
  const RpcPort: string := ":8545"

  function RpcUrl(ip: string): (url: string)
    ensures |url| == |Scheme| + |ip| + |RpcPort|
  {
    Scheme + ip + RpcPort
  }

  /** The host part of an endpoint built by `RpcUrl`. */
  function RpcHost(url: string): Option<string> {
    if |url| >= |Scheme| + |RpcPort| && url[..|Scheme|] == Scheme && url[|url| - |RpcPort|..] == RpcPort
    then Some(url[|Scheme|..|url| - |RpcPort|])
    else None
  }

  lemma RpcHostRoundTrip(ip: string)
    ensures RpcHost(RpcUrl(ip)) == Some(ip)
  {
  }

  /** `updateRpcFromStorage`: the endpoint of the first stored box when the entry is present,
      parses, is non-empty and its first box has a truthy `ip`; otherwise no endpoint. A parse
      failure keeps the endpoint the scanner already had. */
  function RpcUrlFromStorage(current: Option<string>, stored: StoredBoxes): (r: Option<string>)
    ensures stored.NoEntry? || stored.text == "" ==> r == None
    ensures stored.Entry? && stored.text != "" && stored.parsed.None? ==> r == current
    ensures stored.Entry? && stored.text != "" && stored.parsed.Some? ==>
      var list := stored.parsed.value;
      (r.Some? <==> |list| > 0 && Truthy(list[0].ip))
      && (r.Some? ==> RpcHost(r.value) == list[0].ip)
  {
    match stored
    case NoEntry => None
    case Entry(text, parsed) =>
      if text == "" then None
      else
        match parsed
        case None => current
        case Some(list) =>
          if |list| > 0 && Truthy(list[0].ip) then
            RpcHostRoundTrip(list[0].ip.value);
            Some(RpcUrl(list[0].ip.value))
          else None
  }

  /** Only the first stored box is consulted. */
  lemma OnlyFirstBoxConsulted(current: Option<string>, text: string, a: seq<RunningBox>, b: seq<RunningBox>)
    requires |a| > 0 && |b| > 0 && a[0].ip == b[0].ip
    ensures RpcUrlFromStorage(current, Entry(text, Some(a))) == RpcUrlFromStorage(current, Entry(text, Some(b)))
  {
  }

  // ---------------------------------------------------------------- block window

  /** How many blocks below the latest one the scanner looks back. */
  const Lookback: nat := 50

  /** The consecutive block numbers `lo, lo + 1, ..., hi - 1`. */
  function Range(lo: nat, hi: nat): (r: seq<nat>)
    requires lo <= hi
    ensures |r| == hi - lo
    ensures forall k | 0 <= k < |r| :: r[k] == lo + k
  {
    seq(hi - lo, k requires 0 <= k < hi - lo => lo + k)
  }

  lemma RangeMembership(lo: nat, hi: nat, b: nat)
    requires lo <= hi
    ensures b in Range(lo, hi) <==> lo <= b < hi
  {
    if lo <= b < hi {
      assert Range(lo, hi)[b - lo] == b;
    }
  }

  /** The blocks `fetchContracts` visits: `Math.max(0, latest - 50)` through `latest`, or none
      when the latest block number did not parse (`NaN`). */
  function ScanWindow(latest: Option<nat>): (w: seq<nat>)
    ensures latest.None? ==> w == []
    ensures latest.Some? ==> 1 <= |w| <= Lookback + 1 && w[|w| - 1] == latest.value
    ensures latest.Some? ==> forall b: nat :: b in w <==> latest.value - Lookback <= b <= latest.value
    ensures forall k | 0 < k < |w| :: w[k] == w[k - 1] + 1
  {
    match latest
    case None => []
    case Some(last) =>
      var start := if last >= Lookback then last - Lookback else 0;
      var w := Range(start, last + 1);
      forall b: nat ensures b in w <==> start <= b <= last {
        RangeMembership(start, last + 1, b);
      }
      w
  }

  /** The `eth_getBlockByNumber` parameter for block `i`: `0x` and lower-case hex. */
  function BlockParam(i: nat): (p: string)
    ensures Numerals.ParseHex(p) == Some(i)
    ensures |p| >= 3 && p[..2] == "0x" && Numerals.AllDigits(p[2..], 16)
    ensures Numerals.Canonical(p[2..]) && (p[2] == '0' ==> i == 0)
    ensures Numerals.NoUpperCase(p)
  {
    Numerals.HexQuantityRoundTrip(i, []);
    assert Numerals.HexQuantity(i) + [] == Numerals.HexQuantity(i);
    Numerals.HexQuantity(i)
  }

  /** Encoding a block number and decoding it with radix 16 (as the table does for the
      `blockNumber` of a record) is the identity, and distinct blocks get distinct parameters. */
  lemma BlockParamRoundTrip(i: nat, j: nat)
    ensures Numerals.ParseHex(BlockParam(i)) == Some(i)
    ensures BlockParam(i) == BlockParam(j) ==> i == j
  {
  }

  // ---------------------------------------------------------------- deployments

  datatype Tx = Tx(hash: string, blockNumber: string, from: string, to: Option<string>, gas: string)

  datatype Receipt = Receipt(contractAddress: Option<string>, gasUsed: string)

  datatype Deployment = Deployment(
    hash: string,
    blockNumber: string,
    from: string,
    contractAddress: string,
    gas: string,
    gasUsed: string)

  /** The transactions of block `i`; a block without a `transactions` list contributes none. */
  function TxsAt(blocks: map<nat, seq<Tx>>, i: nat): seq<Tx> {
    if i in blocks then blocks[i] else []
  }

  /** The receipt of `hash` reports a created contract. */
  predicate Deployed(receipts: map<string, Receipt>, hash: string) {
    hash in receipts && Truthy(receipts[hash].contractAddress)
  }

  /** A transaction that the scanner records: `to === null` and a receipt with a contract. */
  predicate IsDeployment(tx: Tx, receipts: map<string, Receipt>) {
    tx.to == None && Deployed(receipts, tx.hash)
  }

  /** The table row of a deployment: the transaction's hash, block, sender and gas limit,
      and the receipt's contract address and gas used; the address is never empty. */
  function Record(tx: Tx, receipt: Receipt): (d: Deployment)
    requires Truthy(receipt.contractAddress)
    ensures d.contractAddress != "" && Some(d.contractAddress) == receipt.contractAddress
    ensures d.hash == tx.hash && d.blockNumber == tx.blockNumber && d.from == tx.from
    ensures d.gas == tx.gas && d.gasUsed == receipt.gasUsed
  {
    Deployment(tx.hash, tx.blockNumber, tx.from, receipt.contractAddress.value, tx.gas, receipt.gasUsed)
  }

  /** First stage: `transactions.filter(tx => tx.to === null)`. */
  function ContractCreations(txs: seq<Tx>): (r: seq<Tx>)
    ensures |r| <= |txs|
    decreases |txs|
  {
    if |txs| == 0 then []
    else
      var last := txs[|txs| - 1];
      ContractCreations(txs[..|txs| - 1]) + (if last.to == None then [last] else [])
  }

  /** Second stage: a record for each candidate whose receipt has a `contractAddress`. */
  function KeepDeployed(candidates: seq<Tx>, receipts: map<string, Receipt>): (r: seq<Deployment>)
    ensures |r| <= |candidates|
    ensures AllAddressed(r)
    decreases |candidates|
  {
    if |candidates| == 0 then []
    else
      var last := candidates[|candidates| - 1];
      KeepDeployed(candidates[..|candidates| - 1], receipts)
        + (if Deployed(receipts, last.hash) then [Record(last, receipts[last.hash])] else [])
  }

  /** Every record names a contract: its address is not empty. */
  predicate AllAddressed(r: seq<Deployment>) {
    forall d | d in r :: d.contractAddress != ""
  }

  /** The deployments found in one block: at most one per transaction, each with a contract
      address. */
  function CollectBlock(txs: seq<Tx>, receipts: map<string, Receipt>): (r: seq<Deployment>)
    ensures |r| <= |txs|
    ensures AllAddressed(r)
  {
    KeepDeployed(ContractCreations(txs), receipts)
  }

  /** The deployments found in a sequence of blocks, block by block, each with a contract
      address. */
  function ScanBlocks(window: seq<nat>, blocks: map<nat, seq<Tx>>, receipts: map<string, Receipt>): (r: seq<Deployment>)
    ensures AllAddressed(r)
    decreases |window|
  {
    if |window| == 0 then []
    else
      ScanBlocks(window[..|window| - 1], blocks, receipts)
        + CollectBlock(TxsAt(blocks, window[|window| - 1]), receipts)
  }

  /** How many transactions the blocks of `window` hold together. */
  function TxCount(window: seq<nat>, blocks: map<nat, seq<Tx>>): nat
    decreases |window|
  {
    if |window| == 0 then 0
    else TxCount(window[..|window| - 1], blocks) + |TxsAt(blocks, window[|window| - 1])|
  }

  lemma {:induction false} ContractCreationsMembership(txs: seq<Tx>, tx: Tx)
    ensures tx in ContractCreations(txs) <==> tx in txs && tx.to == None
    decreases |txs|
  {
    if |txs| > 0 {
      ContractCreationsMembership(txs[..|txs| - 1], tx);
      assert txs == txs[..|txs| - 1] + [txs[|txs| - 1]];
    }
  }

  lemma {:induction false} KeepDeployedMembership(candidates: seq<Tx>, receipts: map<string, Receipt>, d: Deployment)
    ensures d in KeepDeployed(candidates, receipts) <==>
      exists tx :: tx in candidates && Deployed(receipts, tx.hash) && d == Record(tx, receipts[tx.hash])
    decreases |candidates|
  {
    if |candidates| > 0 {
      var init, last := candidates[..|candidates| - 1], candidates[|candidates| - 1];
      KeepDeployedMembership(init, receipts, d);
      assert candidates == init + [last];
      if d in KeepDeployed(candidates, receipts) && d !in KeepDeployed(init, receipts) {
        assert last in candidates;
      }
    }
  }

  /** A record is produced for a block exactly when some transaction of it has `to === null`
      and a receipt with a contract address, and the record is built from that pair. */
  lemma CollectBlockMembership(txs: seq<Tx>, receipts: map<string, Receipt>, d: Deployment)
    ensures d in CollectBlock(txs, receipts) <==>
      exists tx :: tx in txs && IsDeployment(tx, receipts) && d == Record(tx, receipts[tx.hash])
  {
    KeepDeployedMembership(ContractCreations(txs), receipts, d);
    forall tx {
      ContractCreationsMembership(txs, tx);
    }
  }

  lemma {:induction false} ContractCreationsAppend(a: seq<Tx>, b: seq<Tx>)
    ensures ContractCreations(a + b) == ContractCreations(a) + ContractCreations(b)
    decreases |b|
  {
    if |b| > 0 {
      assert (a + b)[..|a + b| - 1] == a + b[..|b| - 1];
      ContractCreationsAppend(a, b[..|b| - 1]);
    } else {
      assert a + b == a;
    }
  }

  lemma {:induction false} KeepDeployedAppend(a: seq<Tx>, b: seq<Tx>, receipts: map<string, Receipt>)
    ensures KeepDeployed(a + b, receipts) == KeepDeployed(a, receipts) + KeepDeployed(b, receipts)
    decreases |b|
  {
    if |b| > 0 {
      assert (a + b)[..|a + b| - 1] == a + b[..|b| - 1];
      KeepDeployedAppend(a, b[..|b| - 1], receipts);
    } else {
      assert a + b == a;
    }
  }

  /** Records keep transaction order: the records of a split block are the records of its
      first part followed by those of its second. */
  lemma CollectBlockAppend(a: seq<Tx>, b: seq<Tx>, receipts: map<string, Receipt>)
    ensures CollectBlock(a + b, receipts) == CollectBlock(a, receipts) + CollectBlock(b, receipts)
  {
    ContractCreationsAppend(a, b);
    KeepDeployedAppend(ContractCreations(a), ContractCreations(b), receipts);
  }

  /** Records keep block order: scanning two runs of blocks one after the other yields the
      records of the first run followed by those of the second. */
  lemma {:induction false} ScanBlocksAppend(v: seq<nat>, w: seq<nat>, blocks: map<nat, seq<Tx>>, receipts: map<string, Receipt>)
    ensures ScanBlocks(v + w, blocks, receipts) == ScanBlocks(v, blocks, receipts) + ScanBlocks(w, blocks, receipts)
    decreases |w|
  {
    if |w| > 0 {
      assert (v + w)[..|v + w| - 1] == v + w[..|w| - 1];
      ScanBlocksAppend(v, w[..|w| - 1], blocks, receipts);
    } else {
      assert v + w == v;
    }
  }

  /** A scan yields at most one record per transaction of the scanned blocks. */
  lemma {:induction false} ScanBlocksBound(window: seq<nat>, blocks: map<nat, seq<Tx>>, receipts: map<string, Receipt>)
    ensures |ScanBlocks(window, blocks, receipts)| <= TxCount(window, blocks)
    decreases |window|
  {
    if |window| > 0 {
      ScanBlocksBound(window[..|window| - 1], blocks, receipts);
    }
  }

  /** Every record of a scan comes from a deployment in one of the scanned blocks. */
  lemma {:induction false} ScanFound(window: seq<nat>, blocks: map<nat, seq<Tx>>, receipts: map<string, Receipt>, d: Deployment)
    requires d in ScanBlocks(window, blocks, receipts)
    ensures exists k, tx :: (0 <= k < |window| && tx in TxsAt(blocks, window[k])
      && IsDeployment(tx, receipts) && d == Record(tx, receipts[tx.hash]))
    decreases |window|
  {
    var init, last := window[..|window| - 1], window[|window| - 1];
    if d in ScanBlocks(init, blocks, receipts) {
      ScanFound(init, blocks, receipts, d);
      var k, tx :| 0 <= k < |init| && tx in TxsAt(blocks, init[k])
        && IsDeployment(tx, receipts) && d == Record(tx, receipts[tx.hash]);
      assert init[k] == window[k];
    } else {
      CollectBlockMembership(TxsAt(blocks, last), receipts, d);
      var tx :| tx in TxsAt(blocks, last) && IsDeployment(tx, receipts) && d == Record(tx, receipts[tx.hash]);
      assert tx in TxsAt(blocks, window[|window| - 1]);
    }
  }

  /** Every deployment in a scanned block yields its record in the scan. */
  lemma {:induction false} ScanFinds(window: seq<nat>, blocks: map<nat, seq<Tx>>, receipts: map<string, Receipt>, k: nat, tx: Tx)
    requires k < |window| && tx in TxsAt(blocks, window[k]) && IsDeployment(tx, receipts)
    ensures Record(tx, receipts[tx.hash]) in ScanBlocks(window, blocks, receipts)
    decreases |window|
  {
    var init, last := window[..|window| - 1], window[|window| - 1];
    if k < |init| {
      assert init[k] == window[k];
      ScanFinds(init, blocks, receipts, k, tx);
    } else {
      CollectBlockMembership(TxsAt(blocks, last), receipts, Record(tx, receipts[tx.hash]));
    }
  }

  /** A record comes out of a scan exactly when some scanned block holds a transaction with
      `to === null` whose receipt has a contract address. */
  lemma ScanMembership(window: seq<nat>, blocks: map<nat, seq<Tx>>, receipts: map<string, Receipt>, d: Deployment)
    ensures d in ScanBlocks(window, blocks, receipts) <==>
      exists k, tx :: (0 <= k < |window| && tx in TxsAt(blocks, window[k])
        && IsDeployment(tx, receipts) && d == Record(tx, receipts[tx.hash]))
  {
    if d in ScanBlocks(window, blocks, receipts) {
      ScanFound(window, blocks, receipts, d);
    }
    if exists k, tx :: (0 <= k < |window| && tx in TxsAt(blocks, window[k])
      && IsDeployment(tx, receipts) && d == Record(tx, receipts[tx.hash]))
    {
      var k, tx :| 0 <= k < |window| && tx in TxsAt(blocks, window[k])
        && IsDeployment(tx, receipts) && d == Record(tx, receipts[tx.hash]);
      ScanFinds(window, blocks, receipts, k, tx);
    }
  }

  /** The inner loop of `fetchContracts`: one receipt lookup per candidate, in order, pushing
      a record when the receipt has a contract address. */
  method KeepDeployedLoop(candidates: seq<Tx>, receipts: map<string, Receipt>) returns (found: seq<Deployment>)
    ensures found == KeepDeployed(candidates, receipts)
  {
    found := [];
    var j := 0;
    while j < |candidates|
      invariant 0 <= j <= |candidates|
      invariant found == KeepDeployed(candidates[..j], receipts)
    {
      var tx := candidates[j];
      if tx.hash in receipts && Truthy(receipts[tx.hash].contractAddress) {
        found := found + [Record(tx, receipts[tx.hash])];
      }
      assert candidates[..j + 1][..j] == candidates[..j];
      j := j + 1;
    }
    assert candidates[..j] == candidates;
  }

  /** Scanning one more block appends that block's records. */
  lemma ScanRangeSnoc(start: nat, i: nat, blocks: map<nat, seq<Tx>>, receipts: map<string, Receipt>)
    requires start <= i
    ensures ScanBlocks(Range(start, i + 1), blocks, receipts)
      == ScanBlocks(Range(start, i), blocks, receipts) + CollectBlock(TxsAt(blocks, i), receipts)
  {
    assert Range(start, i + 1)[..i - start] == Range(start, i);
  }

  /** The outer loop of `fetchContracts`: visit blocks `start` through `last` in order and
      collect each block's deployments. */
  method ScanRange(start: nat, last: nat, blocks: map<nat, seq<Tx>>, receipts: map<string, Receipt>)
    returns (found: seq<Deployment>)
    requires start <= last
    ensures found == ScanBlocks(Range(start, last + 1), blocks, receipts)
  {
    found := [];
    var i := start;
    while i <= last
      invariant start <= i <= last + 1
      invariant found == ScanBlocks(Range(start, i), blocks, receipts)
    {
      var candidates := ContractCreations(TxsAt(blocks, i));
      var records := KeepDeployedLoop(candidates, receipts);
      ScanRangeSnoc(start, i, blocks, receipts);
      found := found + records;
      i := i + 1;
    }
  }

  /** `fetchContracts` once the latest block number is known: scan blocks
      `max(0, latest - 50)` through `latest`. It yields exactly the scan of the block window;
      a latest block number that does not parse (`NaN`) runs no iteration. */
  method CollectDeployments(latestResult: string, blocks: map<nat, seq<Tx>>, receipts: map<string, Receipt>)
    returns (found: seq<Deployment>)
    ensures found == ScanBlocks(ScanWindow(Numerals.ParseHex(latestResult)), blocks, receipts)
  {
    var latest := Numerals.ParseHex(latestResult);
    if latest.None? {
      return [];
    }
    var last := latest.value;
    var start := if last >= Lookback then last - Lookback else 0;
    found := ScanRange(start, last, blocks, receipts);
    assert Range(start, last + 1) == ScanWindow(latest);
  }

  // ---------------------------------------------------------------- scanner state

  datatype ScannerState = ScannerState(
    rpcUrl: Option<string>,
    contracts: seq<Deployment>,
    loading: bool,
    error: Option<string>)

  /** The answers of the node to one refresh, or the error that ended it (with the message of
      the thrown `Error`, if it was one). */
  datatype RpcOutcome =
    | Failed(message: Option<string>)
    | Answered(latestResult: string, blocks: map<nat, seq<Tx>>, receipts: map<string, Receipt>)

  const FetchErrorPrefix: string := "Failed to fetch contracts: "

  function FetchErrorText(message: Option<string>): (text: string)
    ensures |text| >= |FetchErrorPrefix|
    ensures text[..|FetchErrorPrefix|] == FetchErrorPrefix
    ensures message.Some? ==> text[|FetchErrorPrefix|..] == message.value
    ensures message.None? ==> text[|FetchErrorPrefix|..] == "Unknown error"
  {
    FetchErrorPrefix + message.GetOr("Unknown error")
  }

  /** `fetchContracts`: nothing at all without a truthy endpoint (`null` or `""`); otherwise the scan replaces the
      table and clears the error, or the failure is reported and the old table kept; either
      way loading ends. */
  function FetchContracts(s: ScannerState, outcome: RpcOutcome): (r: ScannerState)
    ensures !Truthy(s.rpcUrl) ==> r == s
    ensures Truthy(s.rpcUrl) ==> r.rpcUrl == s.rpcUrl && !r.loading
    ensures Truthy(s.rpcUrl) && outcome.Failed? ==>
      r.contracts == s.contracts && r.error == Some(FetchErrorText(outcome.message))
    ensures Truthy(s.rpcUrl) && outcome.Answered? ==>
      && r.error.None?
      && r.contracts == ScanBlocks(ScanWindow(Numerals.ParseHex(outcome.latestResult)), outcome.blocks, outcome.receipts)
  {
    if !Truthy(s.rpcUrl) then s
    else
      match outcome
      case Failed(message) => s.(loading := false, error := Some(FetchErrorText(message)))
      case Answered(latestResult, blocks, receipts) =>
        var window := ScanWindow(Numerals.ParseHex(latestResult));
        s.(contracts := ScanBlocks(window, blocks, receipts), loading := false, error := None)
  }

  /** Every record a refresh shows comes from one of the last 51 blocks and is a contract
      creation with a receipt that names the contract; a latest block number that does not
      parse shows an empty table. */
  lemma FetchedRecordsAreRecentDeployments(s: ScannerState, latestResult: string,
      blocks: map<nat, seq<Tx>>, receipts: map<string, Receipt>, d: Deployment)
    requires Truthy(s.rpcUrl)
    ensures Numerals.ParseHex(latestResult).None? ==> FetchContracts(s, Answered(latestResult, blocks, receipts)).contracts == []
    ensures d in FetchContracts(s, Answered(latestResult, blocks, receipts)).contracts ==>
      exists b: nat, tx ::
        (Numerals.ParseHex(latestResult).Some?
         && Numerals.ParseHex(latestResult).value - Lookback <= b <= Numerals.ParseHex(latestResult).value
         && tx in TxsAt(blocks, b) && IsDeployment(tx, receipts) && d == Record(tx, receipts[tx.hash]))
  {
    var latest := Numerals.ParseHex(latestResult);
    var w := ScanWindow(latest);
    ScanMembership(w, blocks, receipts, d);
    if d in ScanBlocks(w, blocks, receipts) {
      var k, tx :| 0 <= k < |w| && tx in TxsAt(blocks, w[k]) && IsDeployment(tx, receipts) && d == Record(tx, receipts[tx.hash]);
      assert w[k] in w;
    }
  }
}
