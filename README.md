# Protocol-pool genesis handling, modelled in Dafny

This project models the genesis handling of the Cosmos SDK `x/protocolpool` module.
That module pays out a shared pool to two kinds of recipients:

- **continuous funds** get a percentage of the pool's inflow, up to a cap and until an expiry;
- **budgets** get a total amount in a fixed number of tranches, one per period.

Two files are modelled:

- `x/protocolpool/types/genesis.go` (module `Genesis`, file `genesis.dfy`). It builds the
  genesis state and validates it. The validators are pure chains of guards. Each becomes a
  function returning an `Outcome` (`Pass`, or `Fail` with the first guard's error).
  The two loops of `ValidateGenesis` only return early, so they become recursive functions
  over the record lists.
- `x/protocolpool/keeper/genesis.go` (module `KeeperGenesis`, file `keeper.dfy`). The keeper
  is a class. Its two fields are the `ContinuousFund` and `BudgetProposal` stores, as maps
  from account address to record. `InitGenesis` and `ExportGenesis` are methods with loops.
  Each method is proved against a specification function: `InitGenesisSpec`, `Stores.Export`.
  Import and export are written once, generically in the record type, in module `Stores`
  (`stores.dfy`). That module also holds their round-trip lemmas.

`types.dfy` holds the records and value types. `wrappers.dfy` holds `Option` and `Outcome`.

Modelling choices:

- The percentage is a `LegacyDec`: an integer scaled by 10^18, with `One` = 10^18. The
  percentage checks are exact integer comparisons.
- Coin validity is the predicate `ValidCoin`. It says that `sdk.NewCoins(c)` gives a coin set
  that passes `Validate`. A zero coin is dropped and leaves the empty set, which is valid.
  Any other coin needs a positive amount and a well-formed denomination (the SDK's default
  denomination syntax).
- The account address codec is a pair of functions: `decode` may fail, `encode` cannot.
  Lemmas that need decoding to undo encoding assume it only for the keys of the store at
  hand (`KeysRoundTrip`), since the codec refuses the encoding of the empty address.
- Store writes can fail. This is modelled as two `seq<bool>` parameters of `InitGenesis`:
  entry `i` says whether the i-th write fails. A failed write leaves the store unchanged.
- The order of a store walk is not modelled. `ExportGenesis` visits the keys in an
  unspecified order and returns that order as a ghost result. `WalkOrder` states that the
  order holds each key exactly once.

Behaviour of the code that a reader might not expect (the model follows the code):

- `validateBudget` rejects only a nil or zero period (`x/protocolpool/types/genesis.go:63`).
  A negative period passes, although the error message says the period must be greater than
  zero. `ValidateBudget`'s contract states `period.value != 0`.
- `InitGenesis` assigns the error of the budget store write and never reads it
  (`x/protocolpool/keeper/genesis.go:28`). A failed budget write is lost, and the import
  still succeeds. `InitIgnoresBudgetWriteFailures` proves this, including the case where
  every budget write fails and the budget store is left as it was.
- Export followed by import gives back identical stores only when each stored record's
  recipient is the encoding of its key. When the keys decode back from their encoding and no
  write fails, each re-imported record carries its key's encoded address as recipient
  (`Relabelled`).

The validators take their record by value, and the Dafny functions are pure. So validation
never changes its input.

## Model

| member | source | states |
|---|---|---|
| `Genesis.NewGenesisState` | x/protocolpool/types/genesis.go:13-18 | The state holds exactly the given fund and budget lists, in order. |
| `Genesis.DefaultGenesisState` | x/protocolpool/types/genesis.go:20-25 | The default state has no funds and no budgets, and it passes `ValidateGenesis`. |
| `Genesis.ValidateBudget` | x/protocolpool/types/genesis.go:42-67 | An empty recipient is reported first, then a zero total budget. Zero tranches or a nil/zero period fail. A budget passes iff its recipient is non-empty, its total budget is a non-zero valid coin, tranches > 0 and the period is set and non-zero. |
| `Genesis.ValidateContinuousFund` | x/protocolpool/types/genesis.go:69-93 | The empty recipient is reported first, then an invalid cap. Then a zero, a negative and an above-one percentage are each reported. A fund passes iff its recipient is non-empty, its cap is valid and 0 < percentage <= One (so exactly One passes). |
| `Genesis.ValidateFunds` | x/protocolpool/types/genesis.go:29-33 | The funds loop passes iff every fund passes. |
| `Genesis.ValidateBudgets` | x/protocolpool/types/genesis.go:34-38 | The budgets loop passes iff every budget passes. |
| `Genesis.ValidateGenesis` | x/protocolpool/types/genesis.go:28-40 | The genesis state is accepted iff every continuous fund and every budget passes its validator. |
| `Genesis.FirstFailingFundWins` | x/protocolpool/types/genesis.go:29-33 | The error of the funds loop is the error of the first failing fund. |
| `Genesis.FirstFailingBudgetWins` | x/protocolpool/types/genesis.go:34-38 | The error of the budgets loop is the error of the first failing budget. |
| `Genesis.FundErrorPrecedesBudgets` | x/protocolpool/types/genesis.go:28-40 | If a fund fails, `ValidateGenesis` returns the first failing fund's error, whatever the budgets are. Budgets are only checked after all funds. |
| `Genesis.BudgetErrorWhenFundsPass` | x/protocolpool/types/genesis.go:34-40 | When every fund passes, `ValidateGenesis` returns the first failing budget's error. |
| `Stores.Kept` | x/protocolpool/keeper/genesis.go:28 | The budgets that land in the store: an entry is kept iff its write did not fail (every kept element is an entry with a successful write, and every such entry is kept); all entries when no write fails, none when every write fails. |
| `Stores.Put` | x/protocolpool/keeper/genesis.go:18 | The successful `Set` writes of the import, applied in order to a store; the resulting key set is exactly the old keys plus the decoded recipient addresses. |
| `Stores.PutLookup` | x/protocolpool/keeper/genesis.go:13-29 | After the import writes, each key holds the last record written under its address, unchanged. A key no entry decodes to keeps its old value or stays absent. The key set is the old keys plus the decoded addresses. |
| `Stores.WalkOrderLength` | x/protocolpool/keeper/genesis.go:35-43 | A walk visits exactly as many keys as the store holds. |
| `Stores.Export` | x/protocolpool/keeper/genesis.go:35-61 | One exported record per walked key, in walk order. Each one is the stored record rebuilt under the key's encoded address. |
| `Stores.ExportDecodes` | x/protocolpool/keeper/genesis.go:35-61 | When each key of the store decodes back from its encoding, each exported record's recipient decodes to the key it was exported from. |
| `Stores.ExportRefused` | x/protocolpool/keeper/genesis.go:35-61 | A stored key whose encoded address the codec refuses leaves an exported record whose recipient does not decode. |
| `Stores.RelabelledCanonical` | x/protocolpool/keeper/genesis.go:35-61 | Giving each record its key's encoded address changes nothing when every record's recipient already is that address. |
| `Stores.ExportThenPut` | x/protocolpool/keeper/genesis.go:12-67 | When each key of the store decodes back from its encoding, exporting the store and writing the records into an empty store gives `Relabelled`: every key, holding its record with the key's encoded address as recipient. A store whose records already carry that address is rebuilt exactly. |
| `Stores.PutThenExport` | x/protocolpool/keeper/genesis.go:12-67 | Entries with distinct, canonical recipients, written into an empty store and exported in any walk order, come back as the same multiset. |
| `KeeperGenesis.ExportedFund` | x/protocolpool/keeper/genesis.go:36-41 | The exported fund equals the stored fund with only the recipient replaced; percentage, cap and expiry are copied. |
| `KeeperGenesis.ExportedBudget` | x/protocolpool/keeper/genesis.go:50-59 | The exported budget equals the stored budget with only the recipient replaced; every other field is copied. |
| `KeeperGenesis.SetFunds` | x/protocolpool/keeper/genesis.go:13-22 | The continuous-fund loop from a given store: it succeeds iff every recipient decodes and no write fails; its error is never the budget-decode error; it never removes a key. |
| `KeeperGenesis.SetBudgets` | x/protocolpool/keeper/genesis.go:23-29 | The budget loop from a given store: it succeeds iff every recipient decodes, whatever the write failures; its only error is the budget-decode error; it never removes a key. |
| `KeeperGenesis.InitGenesisSpec` | x/protocolpool/keeper/genesis.go:12-31 | The whole import: it succeeds iff every fund recipient decodes, no fund write fails and every budget recipient decodes; an error in the fund loop leaves the budget store untouched; no key is ever removed. |
| `KeeperGenesis.SetFundsStopped` | x/protocolpool/keeper/genesis.go:13-22 | Once the funds loop fails on a prefix, later funds change neither the error nor the store. |
| `KeeperGenesis.SetBudgetsStopped` | x/protocolpool/keeper/genesis.go:23-29 | Once the budgets loop fails on a prefix, later budgets change neither the error nor the store. |
| `KeeperGenesis.SetFundsStopsAt` | x/protocolpool/keeper/genesis.go:13-22 | The funds loop stops at the first fund whose recipient does not decode, or whose write fails, with that step's error; the store then holds exactly the earlier funds, written in order. |
| `KeeperGenesis.SetBudgetsStopsAt` | x/protocolpool/keeper/genesis.go:23-29 | The budgets loop stops at the first budget whose recipient does not decode, with the budget-decode error; the store then holds the earlier budgets whose write succeeded. |
| `KeeperGenesis.SetFundsWrites` | x/protocolpool/keeper/genesis.go:13-22 | If every fund decodes and no write fails, the funds loop succeeds and writes every fund in order. |
| `KeeperGenesis.SetBudgetsLastWriter` | x/protocolpool/keeper/genesis.go:23-29 | When every budget recipient decodes, the budgets loop succeeds, and an address holds the last budget decoding to it whose write succeeded. |
| `KeeperGenesis.SetBudgetsWrites` | x/protocolpool/keeper/genesis.go:23-29 | If every budget decodes, the budgets loop succeeds whatever the write failures are. It writes exactly the budgets whose write succeeded. |
| `KeeperGenesis.InitStopsAtUndecodableFund` | x/protocolpool/keeper/genesis.go:13-17 | A fund recipient that fails to decode returns that error. Earlier funds stay written, later funds are not written, and the budget store is unchanged. |
| `KeeperGenesis.InitStopsAtFailedFundWrite` | x/protocolpool/keeper/genesis.go:18-21 | A failed fund write returns the fund-write error. Earlier funds stay written, later funds are not written, and the budget store is unchanged. |
| `KeeperGenesis.InitStopsAtUndecodableBudget` | x/protocolpool/keeper/genesis.go:23-27 | A budget recipient that fails to decode returns that error. All funds are already written, and so are the earlier budgets whose write succeeded. |
| `KeeperGenesis.InitIgnoresBudgetWriteFailures` | x/protocolpool/keeper/genesis.go:28-30 | If every recipient decodes and no fund write fails, the import succeeds whatever budget writes fail. If every budget write fails, the budget store is unchanged. |
| `KeeperGenesis.ExportThenSetFunds` | x/protocolpool/keeper/genesis.go:35-46 | For a fund store whose keys decode back from their encoding, re-importing its export into an empty store with no write failing succeeds and gives `Relabelled` of the store (each fund's recipient replaced by its key's encoded address). That is the store itself when every recipient already is its key's encoding. |
| `KeeperGenesis.ExportThenSetBudgets` | x/protocolpool/keeper/genesis.go:48-64 | For a budget store whose keys decode back from their encoding, re-importing its export into an empty store succeeds whatever writes fail. When no write fails it gives `Relabelled` of the store, which is the store itself when every recipient already is its key's encoding. |
| `KeeperGenesis.ExportThenInitGenesis` | x/protocolpool/keeper/genesis.go:12-67 | For stores whose keys decode back from their encoding, `InitGenesis` of their export into empty stores succeeds when no fund write fails, whatever budget writes fail. When no write fails at all it gives `Relabelled` of both stores. |
| `KeeperGenesis.ExportThenInitGenesisRefused` | x/protocolpool/keeper/genesis.go:12-67 | If either store holds a key whose encoded address the codec refuses, `InitGenesis` of the export fails, whatever writes fail. |
| `KeeperGenesis.InitGenesisThenExport` | x/protocolpool/keeper/genesis.go:12-67 | When no store write fails, `InitGenesis` into empty stores of records with distinct, canonical recipients succeeds, and exporting afterwards gives back the same funds and budgets as multisets. |
| `KeeperGenesis.Keeper.InitGenesis` | x/protocolpool/keeper/genesis.go:12-31 | The error and both new stores are those of `InitGenesisSpec`: funds first, then budgets, stopping at the first decode error or fund write error. |
| `KeeperGenesis.Keeper.ExportGenesis` | x/protocolpool/keeper/genesis.go:33-67 | Visits each key of each store exactly once and returns `Export` of both stores. It has one entry per stored record, never fails and changes nothing. |

## Left out

- `x/protocolpool/keeper/abci.go` (`EndBlocker`) is not part of this model. It only walks the fund store and calls `continuousDistribution`, whose code is not in the modelled files.
- The distribution arithmetic is not modelled: percentage shares, cap and expiry enforcement, and tranche and claim scheduling. None of it is in the modelled files.
- Bech32 address encoding is abstracted as the `AddressCodec` pair of functions. In the source these are two different functions: `decode` is the auth keeper's `AddressCodec().StringToBytes` (`x/protocolpool/keeper/genesis.go:14`, `24`), while `encode` is `sdk.AccAddress.String()` (`x/protocolpool/keeper/genesis.go:37`, `51`), which uses the global bech32 prefix, not the keeper's codec. `KeysRoundTrip` is the assumption that the two agree on the keys of the store being exported; it is a hypothesis of the round-trip lemmas, not a proved fact. It is stated per store rather than for every byte string because the codec refuses the encoding of the empty address; `ExportThenInitGenesisRefused` states what happens to a store holding a key the codec refuses.
- Coin internals are abstracted as `ValidCoin`. In the library, `sdk.NewCoins` panics on a coin that would fail validation; the model takes the error branch the code has for that case (`InvalidCoins`). `NewCoins` never returns nil, so the `amount cannot be nil` branches (`x/protocolpool/types/genesis.go:52-54`, `75-77`) are not modelled.
- `LegacyDec` internals are not modelled beyond comparison with 0 and `One`.
- Some nil fields make Go panic: a cap dereferenced at `x/protocolpool/types/genesis.go:74`, a total budget at `x/protocolpool/types/genesis.go:47`, and a percentage whose `IsZero` runs before `IsNil`. The validators require these fields to be present only where the code reaches them (`FundDereferenceable`, `BudgetDereferenceable`, and the list forms for `ValidateGenesis`). So the `IsNil` test is not a separate case.
- Nil pointers inside the record lists are not modelled.
- The order of a store walk, walk errors, and the panic on a walk error (`x/protocolpool/keeper/genesis.go:44-46`, `62-64`) are not modelled. The walk order is any order with each key once.
- The `context.Context` argument and the store's encoding of keys and values are not modelled.
- Error texts and `%w` wrapping are not modelled. The `InitError` constructors are tags of the model saying which step failed; the Go errors wrap the codec's or the store's error and carry no address or recipient, and the two decode errors (`x/protocolpool/keeper/genesis.go:16`, `26`) have the same text.
- A nil slice and an empty slice are the same empty sequence here. Exporting empty stores gives nil lists in Go, and `DefaultGenesisState` gives empty ones.
- `Tranches`, `TranchesLeft` (uint64) and `Period` (int64 nanoseconds) are unbounded integers. The validator compares `Tranches` and `Period` with zero, and the import and export only copy all three, so their width does not matter.
