# Practice-lab front end: verified model of its sequential core

This project models, in Dafny, the three pieces of sequential logic inside the
lab front end's pages:

- **The box catalog page** (`Boxes`, `boxes.dfy`). The catalog is a list of boxes. Three
  transitions each rewrite the boxes with a given `id`:
  - `startBox` sets a box to `starting`;
  - the deferred start completion sets it to `running`, with the fixed rental window
    `"4h 0m"` and a random address `10.10.11.x`;
  - `stopBox` sets it to `stopped`.

  Around these sit the Active/Available counters, the status label and the button offered
  for each box. The three-second timer becomes its own event. The random draw
  `Math.floor(Math.random() * 200)` is made once per matching box, so it becomes a parameter
  `draws`: `draws(i)` is the draw for the box at index `i`, with `0 <= draws(i) < 200`.
- **The contract scanner** (`Scanner`, `scanner.dfy`). This covers:
  - the RPC endpoint derived from the stored `runningBoxes` list;
  - the window of the last 51 blocks;
  - the `0x`-prefixed lower-case hex block parameter and its radix-16 decoding;
  - the two-stage filter: first `to === null`, then a receipt with a `contractAddress`.
    It turns block transactions into deployment records.

  The node's answers (latest block number, per-block transaction lists, per-hash receipts)
  are inputs.
- **The wallet sign-in page** (`WalletAuth`, `wallet_auth.dfy`). Its state is the account and
  the connected / authenticated / needs-signup / loading flags. Connect, sign-up, login and
  logout drive it. The model also covers the signed message and which panel is shown. The
  wallet provider, the signature request and the HTTP response are inputs.

`Numerals` (`numerals.dfy`) holds JavaScript's `toString(radix)` and `parseInt(s, 16)`, which
the other three share. `Wrappers` (`wrappers.dfy`) holds `Option`. Its `None` stands for
`NaN` in `Numerals.ParseHex`. Where the source only tests a field for truthiness (a stored
running box's `ip`, a receipt's `contractAddress`), `None` stands for both `null` and a
missing field, because the source treats the two alike. A login response's `error` is not
tested but dereferenced (`result.error.includes('not found')`): for `null` or a missing field
that call throws into the `catch`, which alerts and ends loading, the same outcome as an
`error` without "not found". So `None` stands for both there too. `Scanner.Tx.to` is different:
the filter is `tx.to === null`, so `None` there means JSON `null` only. A transaction whose
`to` field is missing (`undefined`) is not a contract creation and must be given as `Some`
of some address.

The catalog page has three statuses (`stopped`, `starting`, `running`) and no `Stopping`
state. Nothing is rolled back when a start fails, since nothing can fail. Boxes live only in
the page's component state: there is no persisted store and no change notification, and the
scanner only reads the `runningBoxes` entry of local storage. Neither `startBox` nor
`stopBox` checks the current status of a box, and the start completion overwrites whatever
status the box has by then. `CompletionIgnoresPriorStatus` states this explicitly.

## Model

| member | source | states |
|---|---|---|
| Boxes.UpdateMatching | app/page.tsx:36-41 | the rewrite keeps length and order, leaves every box with another id as it was, and rewrites each box with the id, the one at index `i` with the rewrite for `i` |
| Boxes.StartBox | app/page.tsx:35-42 | every box with the id becomes `starting` with null IP and time and the same catalog fields; every other box is unchanged; length and order are kept |
| Boxes.CompleteStartAsWritten | app/page.tsx:44-57 | every box with the id becomes `running`, time `"4h 0m"`, and an IP whose last octet reads back as its own draw `draws(i)` plus 100, catalog fields kept; every other box is unchanged |
| Boxes.FinishWithLeases | app/page.tsx:44-57 | a completion leasing `octets(i)` to the box at index `i` makes each matching box running with time `"4h 0m"` and an IP whose last octet reads back as `octets(i)` |
| Boxes.OctetsAsWritten | app/page.tsx:52 | every octet the source leases lies in 100..299, and it exceeds 255 exactly when that box's draw is 156 or more |
| Boxes.CorrectedOctets | app/page.tsx:52 | each box's corrected octet lies in 100..255 |
| Boxes.CompleteStart | app/page.tsx:44-57 | the completion with the corrected octet: the same effect, but every leased IP reads back as an octet in 100..255 |
| Boxes.LeaseAddress | app/page.tsx:52 | a leased address is `10.10.11.` followed by the octet's decimal digits with no leading zero, and nothing else |
| Boxes.StopBox | app/page.tsx:60-66 | every box with the id becomes `stopped` with null IP and time and the same catalog fields; every other box is unchanged |
| Boxes.OctetAsWritten | app/page.tsx:52 | the octet the source draws lies in 100..299 |
| Boxes.CorrectedOctet | app/page.tsx:52 | the corrected octet lies in 100..255 and equals the source's whenever the source's is at most 255 |
| Boxes.AsWrittenOctetExceedsByte | app/page.tsx:52 | draw 199 leases `10.10.11.299`, whose last octet reads back as 299 |
| Boxes.AsWrittenOctetRange | app/page.tsx:52 | the source's octet exceeds 255 exactly for draws 156..199 |
| Boxes.LeaseAddressRoundTrip | app/page.tsx:52 | the last octet of a leased address reads back as the octet it was built from |
| Boxes.LeasedOctetInverse | app/page.tsx:52 | an address that reads back as octet `o` is exactly the address leased with `o`; a zero-padded last octet does not read back |
| Boxes.CompletionIgnoresPriorStatus | app/page.tsx:35-57 | a stop between start and completion makes no difference: the completion overwrites whatever status the box has |
| Boxes.StartStopIdempotent | app/page.tsx:35-66 | starting twice equals starting once; stopping twice equals stopping once |
| Boxes.TransitionsPreserveConsistency | app/page.tsx:35-66 | if every box has IP and time exactly when running, all three transitions keep that true |
| Boxes.CountStatus | app/page.tsx:106 | a status count is at most the list length, zero iff no box has the status, the full length iff every box has it |
| Boxes.ActiveCount | app/page.tsx:106 | the Active counter is zero iff no box is running and equals the list length iff every box is |
| Boxes.AvailableCount | app/page.tsx:110 | the Available counter is zero iff no box is stopped and equals the list length iff every box is |
| Boxes.CountersPartition | app/page.tsx:105-111 | Active + Available + starting boxes = list length, so Active + Available <= length |
| Boxes.CountAfterReplace | app/page.tsx:106 | replacing one box changes a status count by the old and new box's contributions |
| Boxes.UpdateIsPointwise | app/page.tsx:36-41 | with unique ids, a transition rewrites exactly the box at that id's index |
| Boxes.CountersAfterStart | app/page.tsx:35-42 | with unique ids, starting a stopped box lowers Available by one and leaves Active unchanged |
| Boxes.CountersAfterCompletion | app/page.tsx:44-57 | with unique ids, completing a starting box raises Active by one and leaves Available unchanged, both as written and with the corrected octet |
| Boxes.CountersAfterStop | app/page.tsx:60-66 | with unique ids, stopping a running box moves one box from Active to Available |
| Boxes.StatusLabel | app/page.tsx:170-172 | `"Starting..."` for starting; otherwise the status text with its first letter upper-cased and the rest unchanged |
| Boxes.StatusLabelsDistinct | app/page.tsx:170-172 | distinct statuses show distinct labels |
| Boxes.OfferedButton | app/page.tsx:175-203 | Start is offered iff stopped, Stop iff running, the disabled spinner iff starting |
| Boxes.Step | app/page.tsx:175-203 | a click or a timer keeps length and catalog entries, and keeps lease fields consistent with status |
| Boxes.RunPreservesCatalogAndConsistency | app/page.tsx:35-66 | over any run of clicks and timers, length, catalog entries and status/lease consistency are kept |
| Boxes.ClickFollowsButton | app/page.tsx:175-203 | the offered button is disabled iff the box is starting, and clicking it then changes nothing; clicking a stopped box starts it; clicking a running box stops it |
| Numerals.DigitChar | app/_components/blocks/scanner.tsx:87 | the written digit reads back as its value, is never `x`, and is never an upper-case letter |
| Numerals.ToRadix | app/_components/blocks/scanner.tsx:87 | `toString(radix)` writes at least one digit, all valid in the radix |
| Numerals.ToRadixNoLeadingZero | app/_components/blocks/scanner.tsx:87 | the numeral starts with `0` iff the number is 0, so there is no leading zero |
| Numerals.ToRadixCanonical | app/_components/blocks/scanner.tsx:87 | `toString(radix)` writes no leading zero except for 0 itself, and no upper-case letter |
| Numerals.CanonicalToRadix | app/_components/blocks/scanner.tsx:87 | every numeral of that form is the one `toString(radix)` writes for its value |
| Numerals.FromToRadix | app/_components/blocks/scanner.tsx:87 | reading back a written numeral gives the original number |
| Numerals.ToRadixLowerCase | app/_components/blocks/scanner.tsx:87 | `toString(radix)` writes no upper-case letter |
| Numerals.ToRadixInjective | app/_components/blocks/scanner.tsx:87 | distinct numbers have distinct numerals |
| Numerals.DigitRun | app/_components/blocks/scanner.tsx:73 | `parseInt` reads the longest digit prefix: every character in it is a digit, and the next one is not |
| Numerals.DigitRunOfDigits | app/_components/blocks/scanner.tsx:73 | a digit string followed by a non-digit is read up to the end of the digits |
| Numerals.HexQuantityRoundTrip | app/_components/blocks/scanner.tsx:73 | `parseInt("0x" + n.toString(16) + rest, 16)` is n whenever `rest` does not start with a hex digit |
| Numerals.BareHexRoundTrip | app/_components/blocks/scanner.tsx:73 | a general property of `parseInt(s, 16)`: an unprefixed hex numeral also parses back to its number (the page only decodes prefixed quantities) |
| Numerals.ParseHex | app/_components/blocks/scanner.tsx:73 | `parseInt(s, 16)` is `NaN` iff no hex digit follows the optional `0x`; when only hex digits follow, it is their value |
| Numerals.HexQuantity | app/_components/blocks/scanner.tsx:87 | the parameter is `0x` followed by at least one hex digit, with no leading zero unless the number is 0, and with no upper-case letter |
| Scanner.RpcUrlFromStorage | app/_components/blocks/scanner.tsx:29-44 | a missing or empty entry gives no endpoint; a parse failure keeps the previous one; a parsed list gives an endpoint iff it is non-empty and its first `ip` is truthy, and that endpoint's host is that `ip` |
| Scanner.OnlyFirstBoxConsulted | app/_components/blocks/scanner.tsx:34-36 | two lists with the same first `ip` give the same endpoint |
| Scanner.RpcHostRoundTrip | app/_components/blocks/scanner.tsx:36 | the host of `https://<ip>:8545` reads back as `ip` |
| Scanner.Range | app/_components/blocks/scanner.tsx:80 | the consecutive run from lo up to hi, exclusive |
| Scanner.RangeMembership | app/_components/blocks/scanner.tsx:80 | a block is in the run iff lo <= it < hi |
| Scanner.ScanWindow | app/_components/blocks/scanner.tsx:73-80 | no blocks when the latest number is `NaN`; otherwise 1 to 51 consecutive blocks ending at latest, containing exactly those from latest-50 (not below 0) up to latest |
| Scanner.BlockParam | app/_components/blocks/scanner.tsx:87 | the block parameter is `0x` followed by hex digits with no upper-case letter and no leading zero unless the block is 0, and it decodes with radix 16 to the block number |
| Scanner.BlockParamRoundTrip | app/_components/blocks/scanner.tsx:87 | the parameter decodes to its block, and distinct blocks get distinct parameters |
| Scanner.ContractCreations | app/_components/blocks/scanner.tsx:95 | the first stage keeps no more transactions than the block has |
| Scanner.Record | app/_components/blocks/scanner.tsx:110-118 | a record takes hash, block, sender and gas from the transaction and gas used and a non-empty contract address from the receipt |
| Scanner.KeepDeployed | app/_components/blocks/scanner.tsx:97-119 | the second stage yields at most one record per candidate, each with a non-empty contract address |
| Scanner.CollectBlock | app/_components/blocks/scanner.tsx:94-121 | a block yields at most one record per transaction, each with a non-empty contract address |
| Scanner.ScanBlocks | app/_components/blocks/scanner.tsx:80-122 | every record of a scan has a non-empty contract address |
| Scanner.ScanBlocksBound | app/_components/blocks/scanner.tsx:80-122 | a scan yields at most one record per transaction of the scanned blocks |
| Scanner.ContractCreationsMembership | app/_components/blocks/scanner.tsx:95 | a transaction survives the first stage iff it is in the block and its `to` is null |
| Scanner.KeepDeployedMembership | app/_components/blocks/scanner.tsx:97-119 | a record comes out of the second stage iff it is built from a candidate whose receipt has a contract address |
| Scanner.CollectBlockMembership | app/_components/blocks/scanner.tsx:94-121 | a block yields a record iff one of its transactions has a null `to` and a receipt with a contract address, and the record is built from that pair |
| Scanner.ContractCreationsAppend | app/_components/blocks/scanner.tsx:95 | the first stage keeps transaction order |
| Scanner.KeepDeployedAppend | app/_components/blocks/scanner.tsx:97-119 | the second stage keeps candidate order |
| Scanner.CollectBlockAppend | app/_components/blocks/scanner.tsx:94-121 | records come out in transaction order within a block |
| Scanner.ScanBlocksAppend | app/_components/blocks/scanner.tsx:80-122 | records come out in block order |
| Scanner.ScanFound | app/_components/blocks/scanner.tsx:80-122 | every record of a scan is built from a deployment transaction of a scanned block |
| Scanner.ScanFinds | app/_components/blocks/scanner.tsx:80-122 | every deployment transaction of a scanned block yields its record in the scan |
| Scanner.ScanMembership | app/_components/blocks/scanner.tsx:80-122 | a scan yields a record iff some scanned block has a deployment transaction from which the record is built |
| Scanner.KeepDeployedLoop | app/_components/blocks/scanner.tsx:97-120 | the receipt loop collects exactly the second-stage records, in order |
| Scanner.ScanRangeSnoc | app/_components/blocks/scanner.tsx:80 | scanning one more block appends that block's records |
| Scanner.ScanRange | app/_components/blocks/scanner.tsx:80-122 | the block loop from `start` to `last` collects exactly the scan of those blocks, in order |
| Scanner.CollectDeployments | app/_components/blocks/scanner.tsx:73-122 | the fetch collects exactly the scan of the window; a latest number that does not parse collects nothing |
| Scanner.FetchErrorText | app/_components/blocks/scanner.tsx:126 | the error is `"Failed to fetch contracts: "` followed by the message, or by `"Unknown error"` |
| Scanner.FetchContracts | app/_components/blocks/scanner.tsx:54-130 | no truthy endpoint (`null` or `""`) means nothing changes. Otherwise loading ends; a failure keeps the old table and sets the error; an answer clears the error and shows the window's deployments |
| Scanner.FetchedRecordsAreRecentDeployments | app/_components/blocks/scanner.tsx:78-122 | with a truthy endpoint, a latest number that does not parse shows an empty table; every shown record comes from a block within 50 below the latest and is a contract creation whose receipt names the contract |
| WalletAuth.Connect | app/home/page.tsx:11-30 | no provider means nothing changes. A success sets the first account and connected; a failure changes nothing but loading. The auth and sign-up flags are never touched |
| WalletAuth.HandleAuth | app/home/page.tsx:32-77 | no account or provider means nothing changes, otherwise loading ends. Authenticated iff it already was or a login succeeded. A sign-up success clears needs-signup. A login success leaves it alone. A login "not found" sets it. Other failures change no flag |
| WalletAuth.Contains | app/home/page.tsx:66 | `includes` holds iff the substring occurs at some index |
| WalletAuth.AccountNotFound | app/home/page.tsx:66 | sign-up is requested iff a login was answered with a failure whose error contains `not found`; never on success or on sign-up |
| WalletAuth.Logout | app/home/page.tsx:79-84 | the account becomes empty and all three flags become false |
| WalletAuth.Message | app/home/page.tsx:37 | the signed message is the action's prefix (`"Sign up to App\nNonce: "` or `"Login to App\nNonce: "`) followed by the timestamp's decimal digits with no leading zero |
| WalletAuth.MessageRoundTrip | app/home/page.tsx:37 | the message parses back to its action and timestamp |
| WalletAuth.ParseMessageInverse | app/home/page.tsx:37 | a message that parses is exactly the message signed for its action and timestamp; a zero-padded timestamp does not parse |
| WalletAuth.MessageInjective | app/home/page.tsx:37 | distinct actions or timestamps give distinct messages |
| WalletAuth.ViewOf | app/home/page.tsx:97-164 | Connect iff not connected; Sign Up iff connected, unauthenticated and needs-signup; Sign & Login iff connected, unauthenticated and not needs-signup; Logout iff connected and authenticated |
| WalletAuth.RunKeepsCoherent | app/home/page.tsx:11-84 | over any run of connects, auth attempts and logouts, an account, authentication or needs-signup implies a connection |
| WalletAuth.LogoutResets | app/home/page.tsx:79-84 | after logout the Connect panel is shown, logout is idempotent, and the state is the initial one except for loading |
| WalletAuth.LoginPanelOutcomes | app/home/page.tsx:57-75 | on the login panel: success shows Logout, "not found" shows Sign Up, any other failure stays on Login |
| WalletAuth.SignUpPanelOutcomes | app/home/page.tsx:57-71 | on the sign-up panel: success returns to Login without authenticating, and failure stays on Sign Up |
| WalletAuth.SignUpThenLoginScenario | app/home/page.tsx:11-77 | connect, a login refused with "User not found", sign-up, then login: the panels go Login, Sign Up, Login, Logout |

## Findings

| source | as written | input that shows it | evidently intended | confidence | as-written member | corrected member |
|---|---|---|---|---|---|---|
| app/page.tsx:52 | the last octet is `Math.floor(Math.random() * 200) + 100`, so it ranges over 100..299 | draw 199 (`Math.random()` >= 0.995) leases `10.10.11.299`, which is not an IPv4 address; so is every draw of 156 or more | a valid octet: 100..255 | medium (not executed) | Boxes.AsWrittenOctetExceedsByte | Boxes.CompleteStart |

`Boxes.CompleteStartAsWritten` keeps the source's formula. `Boxes.CompleteStart` uses
`Boxes.CorrectedOctet`, which is `100 + n % 156`. It agrees with the source on every draw
whose octet was already valid. Its proved property is that every leased address reads back
with an octet in 100..255. The click/timer runs in `Boxes.Step` use the as-written completion,
because those runs are about the page as it behaves.

## Left out

- Fetching `/data/boxes.json` and the loading screen (app/page.tsx:22-33, 94). The catalog is the input list.
- The difficulty and status colour helpers (app/page.tsx:68-92). They are presentation only.
- The 3-second `setTimeout` and `Math.random`. The timer is an event, and the draws are a parameter `draws`, one per list index, each below 200. A timer event may fire for any id at any time, which covers every timer the page can schedule.
- React state, effects, the `storage` event listener, `alert` and `console`. The transitions are modelled as pure functions of the previous state.
- The JSON-RPC transport (`fetch`, request bodies, ids). The answers are inputs, and a transport failure is `Scanner.Failed`.
- `JSON.parse` is not modelled. Its result is the input `StoredBoxes.parsed`. `None` stands for every stored value that makes the `try` block throw, so that the previous endpoint is kept. That covers text `JSON.parse` rejects, a stored `null` (reading `.length` throws), and a non-empty list whose first element is `null` (reading `[0].ip` throws). A stored value that parses to a non-list is not distinguished.
- Numerals.ParseHex: models `parseInt(s, 16)` without skipping leading white space and without a sign. It also ignores the precision loss above 2^53, because block numbers and timestamps are far below it.
- Radixes other than 10 and 16. The pages use only these two, so `Numerals.ValidBase` admits only them.
- The table's `parseInt(gasUsed, 16).toLocaleString()` (scanner.tsx:201). It is display formatting.
- WalletAuth.Connect: an empty account list (where `accounts[0]` is `undefined`) is modelled as the empty account. Both are falsy for `handleAuth`, and the page shows nothing for either.
- The `loading` flag while a request is in flight. Each operation is modelled as one atomic step, so only its final value (false) is stated. The disabled buttons that `loading` controls are not modelled.
- `Date.now()` is the parameter `now` of `WalletAuth.Message`.
- The server side of wallet auth (app/api/auth/wallet/route.ts): signature recovery, the database and token minting. Only its answer (`ok`, `error`) enters the model.
- The password login modal, navbar session handling, VPN download and accounts table. They are I/O glue outside this core.
