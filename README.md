# Curve pool stateful fuzz harness — a Dafny model

This project models the stateful fuzz harness that drives a Curve-style
pool through random exchanges, deposits, single-coin withdrawals and ramps
of the amplification parameter A. It also models the two smaller pieces of
core logic beside the harness.

- **`CurveStateMachine`** (`curve_fuzz.dfy`, a class).
  - It reads the pool's invariant value D and its balances, each through
    several accessor forms.
  - It snapshots D at initialisation.
  - It checks three invariants: no negative balance; D is not negative;
    D does not drop more than 1% below the snapshot.
  - It runs four rules. `exchange`, `add_liquidity` and
    `remove_liquidity_one` submit their call with a receiver argument
    first, then without one. `ramp_A` makes a single call and is the only
    guarded rule: it needs an admin address. `exchange` runs whatever D
    is, so a negative D reaches its post-check.
  - It writes a failure record for a transaction error in the first three
    rules, for any exception of the `ramp_A` call, and for a failed
    post-check. Failing reads of D, the admin-account lookup, other
    exceptions and failed invariants surface without a record.
- **The failure recorder** (`failures.dfy`).
  - A record is a JSON object with the keys `name`, `params`, `info` and
    `block`.
  - It is written to `fail_<name>_<count>.json`, where `<count>` is the
    number of entries already in the directory.
  - `FailureDir` is a class whose `entries` map the `Save` method updates.
- **The signature fallback** (`calls.dfy`): `TryInOrder` submits call
  variants in order. It moves on only when the current variant raises an
  error its handler swallows.
- **The deposit script** (`add_liquidity.dfy`):
  - native-asset address recognition;
  - coin discovery through `coins(i)`, then `tokens(i)`, then `coins[i]`;
  - decimals lookup;
  - the native-asset leg search;
  - the balance and allowance report, whose reads can abort the script
    before any approval;
  - allowance-driven approvals;
  - the native leg's amount attached as the call's value;
  - `add_liquidity` with a receiver, then without one after a
    contract-logic revert.
- **`make_chunks`** (`mem_fuzz.dfy`): 64 byte strings of lengths 31, 32 and
  33 in turn. Byte j of chunk i is `(j + i) mod 256`.

## How the pool is modelled

The pool, the chain and the token contracts are oracles. Reads and calls
either return a value or raise.

- A `PoolView` holds what the pool's read accessors answer at one moment:
  - `D()`;
  - the `D` attribute, when the pool has one;
  - `balances(i)`;
  - `balances[i]`.
- A `Ledger` maps each submitted `Call` to its outcome.

A rule method takes these as parameters:
- the view before the call;
- the ledger;
- the view after the call;
- the block number at which a record would be saved.

It returns two things:
- a `Verdict`: passed, assertion failed with the source's message, or
  exception propagated;
- the calls it submitted.

Its `ensures` fix the new contents of the failure directory in every case.

Errors come in three kinds:
- `ContractLogicError` (a revert);
- `TransactionError`, which is the parent of `ContractLogicError`;
- any other exception.

The first three rules record only the transaction family. `ramp_A`
records every exception its call raises.

The exchange rule and the invariant compare D against 99%. The model uses
exact integer arithmetic, `100 * d1 < 99 * d0`. `DropsOverOnePercent` proves
this is the same as the comparison on reals with 0.99.

## Model

| member | source | states |
|---|---|---|
| Calls.TryInOrder | fuzz/tests/test_curve_stateful_fuzz.py:125-130 | The variants tried form a nonempty prefix of the list. Every variant before the last raised an error the handler swallows. The outcome is the last variant's outcome. A swallowed failure surfaces only once every variant was tried. |
| Calls.TwoVariants | fuzz/tests/test_curve_stateful_fuzz.py:126-130 | With two variants, the second is submitted exactly when the first raised a swallowed error, and then its outcome is the result. A first variant that succeeds is the only call made. |
| Text.NatToString | fuzz/tests/test_curve_stateful_fuzz.py:209 | `str(n)` for the file index: nonempty, decimal digits only, no leading zero, and one digit exactly when n < 10. |
| Text.ParseNatToString | fuzz/tests/test_curve_stateful_fuzz.py:209 | Reading the printed index back yields the index. |
| Text.NatToStringInjective | fuzz/tests/test_curve_stateful_fuzz.py:209 | Distinct indices print differently. |
| Failures.Encode | fuzz/tests/test_curve_stateful_fuzz.py:210-215 | A record is an object with exactly the keys name, params, info and block. |
| Failures.DecodeEncode | fuzz/tests/test_curve_stateful_fuzz.py:210-217 | A written record reads back as the same name, params, info and block. |
| Failures.EncodeDecode | fuzz/tests/test_curve_stateful_fuzz.py:210-217 | Any object that reads back as a record is exactly that record's encoding. |
| Failures.FileNameInjective | fuzz/tests/test_curve_stateful_fuzz.py:209 | Two `fail_<name>_<index>.json` names are equal only when both name and index agree, even when the name itself contains `_`. |
| Failures.ReplayKeys | fuzz/tests/test_curve_stateful_fuzz.py:208-217 | Every file in a directory built by saves alone is the file of one save, named by that save's position. |
| Failures.NextNameIsNew | fuzz/tests/test_curve_stateful_fuzz.py:209 | In such a directory, the next save's file name is not yet taken. |
| Failures.ReplayCount | fuzz/tests/test_curve_stateful_fuzz.py:209 | Such a directory holds exactly one entry per save, so the entry count equals the number of saves. |
| Failures.ReplayContents | fuzz/tests/test_curve_stateful_fuzz.py:208-217 | Save k sits in `fail_<name>_k.json` with its own contents: no save overwrites an earlier one. |
| Failures.SaveExtendsReplay | fuzz/tests/test_curve_stateful_fuzz.py:208-217 | A save into such a directory yields the directory of the extended log, and the directory grows by exactly one entry. |
| Failures.RemovedRecordCausesOverwrite | fuzz/tests/test_curve_stateful_fuzz.py:209 | Once an entry has been removed, the count-based index can name an existing file. The save then overwrites it and the directory does not grow. |
| Failures.FailureDir.constructor | fuzz/tests/test_curve_stateful_fuzz.py:16-17 | The failure directory starts with whatever it already holds. |
| Failures.FailureDir.Save | fuzz/tests/test_curve_stateful_fuzz.py:208-217 | The file name uses the current entry count as its index. The new directory is the old one with that file set to the encoded record. |
| CurveFuzz.ReadD | fuzz/tests/test_curve_stateful_fuzz.py:63-68 | D is the `D()` call's answer. If that raises, it is the `D` attribute when the pool has one, else 0. Only a failing attribute read raises. |
| CurveFuzz.FirstNegative | fuzz/tests/test_curve_stateful_fuzz.py:96-97 | Returns the first negative balance's position, with every earlier one non-negative, or the length when none is negative. |
| CurveFuzz.DropsOverOnePercent | fuzz/tests/test_curve_stateful_fuzz.py:142 | The integer test `100*d1 < 99*d0` holds exactly when d1 < 0.99·d0 on the reals. |
| CurveFuzz.ClassifyExchange | fuzz/tests/test_curve_stateful_fuzz.py:137-145 | The exchange post-check is NegativeD iff D1 < 0. It is DropOverOnePercent iff 0 ≤ D1 < 0.99·D0. It is Steady iff 0.99·D0 ≤ D1 and D1 ≥ 0. |
| CurveFuzz.CallerIndex | fuzz/tests/test_curve_stateful_fuzz.py:120 | The caller index `dx % len(actors)` is a valid actor position. |
| CurveFuzz.CallerIndexPeriodic | fuzz/tests/test_curve_stateful_fuzz.py:120 | Amounts that differ by a multiple of the actor count choose the same caller. |
| CurveFuzz.EveryActorExchanges | fuzz/tests/test_curve_stateful_fuzz.py:117-120 | Every actor is the caller for some dx in the rule's range [10^3, 10^22]. |
| CurveFuzz.TwoSteadyExchangesBound | fuzz/tests/test_curve_stateful_fuzz.py:105-145 | Two exchanges that each pass the per-step post-check keep D at or above 98.01% of the starting value. The bound is not enough for the snapshot invariant: 1000→995→989 passes both steps and fails it. |
| CurveFuzz.CurveStateMachine.constructor | fuzz/tests/test_curve_stateful_fuzz.py:42-54 | The actors are the first min(10, n) test accounts. The caller is the first actor. The coin count is `N_COINS()`, or 2 when that read raises. No snapshot exists yet. |
| CurveFuzz.CurveStateMachine.Balances | fuzz/tests/test_curve_stateful_fuzz.py:70-83 | Returns one balance per coin: the call form, else the index form, else 0. |
| CurveFuzz.CurveStateMachine.InitState | fuzz/tests/test_curve_stateful_fuzz.py:56-60 | Snapshots D and the balances. When reading D raises, the error propagates and nothing changes. |
| CurveFuzz.CurveStateMachine.NoNegativeBalances | fuzz/tests/test_curve_stateful_fuzz.py:93-97 | Passes iff every balance read is ≥ 0. Fails its assertion iff some balance is negative, and then its message is `Negative balance detected: <b>` for the first negative balance b. Never raises. |
| CurveFuzz.CurveStateMachine.DNonNegative | fuzz/tests/test_curve_stateful_fuzz.py:99-102 | Passes iff the D read returns a value ≥ 0; otherwise the message is `D negative <d>`. When the D read raises, its own error propagates. |
| CurveFuzz.CurveStateMachine.DNotSpikingDown | fuzz/tests/test_curve_stateful_fuzz.py:104-113 | Fails its assertion iff the snapshot is present and nonzero and D < 0.99·snapshot. The message is then `D dropped too much: <prev> -> <d>`. It always passes without a snapshot or with a zero one. When the D read raises, its own error propagates. |
| CurveFuzz.CurveStateMachine.SteadyExchangeKeepsDInvariants | fuzz/tests/test_curve_stateful_fuzz.py:99-145 | An exchange from the snapshot value that passes its post-check leaves both D invariants passing. |
| CurveFuzz.CurveStateMachine.Enabled | fuzz/tests/test_curve_stateful_fuzz.py:116-194 | A rule is disabled exactly when it is `ramp_A` and no ADMIN_ADDR is set. |
| CurveFuzz.CurveStateMachine.ExchangeCaller | fuzz/tests/test_curve_stateful_fuzz.py:120 | The exchange caller is one of the actors. |
| CurveFuzz.CurveStateMachine.Exchange | fuzz/tests/test_curve_stateful_fuzz.py:116-145 | The caller is actor `dx % len(actors)`; the exchange is tried with a receiver, then without. A failing D read before the call submits nothing. If the last variant raises, a transaction error is recorded as `exchange` and any error propagates. Otherwise a negative D is recorded as `D_negative_after_exchange`, a drop over 1% as `D_drop` with the `D0->D1` text, and each fails; any other result passes with the directory unchanged. |
| CurveFuzz.CurveStateMachine.AddLiquidity | fuzz/tests/test_curve_stateful_fuzz.py:147-167 | The first actor deposits with a receiver, then without one. A transaction error is recorded as `add_liquidity` and any error propagates. After success a negative balance is recorded as `neg_bal_add_liq` with the balance list, then fails. Otherwise the directory is unchanged. |
| CurveFuzz.CurveStateMachine.RemoveLiquidityOne | fuzz/tests/test_curve_stateful_fuzz.py:169-190 | Without the entry point the rule passes with no call. Otherwise it follows the same fallback and records as `remove_liquidity_one_coin` and `neg_bal_after_remove`, with messages and directory contents fixed in each case. |
| CurveFuzz.CurveStateMachine.RampA | fuzz/tests/test_curve_stateful_fuzz.py:192-205 | A failing admin-account lookup, which sits outside the `try`, propagates with no call and no record. Otherwise the rule calls `ramp_A_gamma(A, A, now+3600)` when present, else `ramp_A(A, now+3600)`, else nothing, as the admin account. Any exception of that call is recorded as `ramp_A_fail` and propagates. Success leaves the directory unchanged. |
| AddLiquidity.Lower | scripts/add_liquidity_correct.py:26 | Lower-cases letter by letter and keeps the length. |
| AddLiquidity.IsEthAddr | scripts/add_liquidity_correct.py:9-26 | An address is native iff it is non-empty and its lowered form is the lowered sentinel or the zero address. None and "" are not native. |
| AddLiquidity.LoweredIsNeverChecksummed | scripts/add_liquidity_correct.py:9-13 | No lowered string equals the checksummed sentinel, so the set's third entry never matches. |
| AddLiquidity.IsEthAddrIgnoresCase | scripts/add_liquidity_correct.py:23-26 | Addresses that differ only in letter case are classified alike. |
| AddLiquidity.GetCoins | scripts/add_liquidity_correct.py:31-42 | The getter loop with its early return answers exactly `CoinsOf`. That is `coins(0..1)` when the getter exists and both calls return, else `tokens(0..1)`, else `coins[0..1]` tagged "coins[]", whose read failures propagate in index order. |
| AddLiquidity.CoinsOf | scripts/add_liquidity_correct.py:31-42 | A successful coin read yields exactly two coins. |
| AddLiquidity.GetDecimals | scripts/add_liquidity_correct.py:44-51 | The loop answers exactly `DecimalsOf`. It succeeds iff every token's decimals() returns, and then holds 18 for a native coin and the token's decimals otherwise. A failure is the error of the first token whose decimals() raises. |
| AddLiquidity.DecimalsOf | scripts/add_liquidity_correct.py:44-51 | A successful decimals read has one entry per coin. |
| AddLiquidity.DecimalsOfSpec | scripts/add_liquidity_correct.py:44-51 | DecimalsOf succeeds iff every token's decimals() returns, with 18 or the token's decimals per coin. Otherwise it fails with the error of the first token whose decimals() raises. |
| AddLiquidity.FirstEth | scripts/add_liquidity_correct.py:70-75 | Returns the first native-asset index, with no native coin before it, or None iff no coin is native. |
| AddLiquidity.EthIndex | scripts/add_liquidity_correct.py:70-75 | The loop with `break` finds exactly `FirstEth`. |
| AddLiquidity.FirstEthIsUnique | scripts/add_liquidity_correct.py:70-75 | An index that is native, with none native before it, is the first native index. |
| AddLiquidity.EthValueOfCoins | scripts/add_liquidity_correct.py:114-117 | The value attached is the amount of the first native leg, and 0 when every leg is a token. |
| AddLiquidity.PlannedApprovalsExact | scripts/add_liquidity_correct.py:93-102 | The planned approvals are exactly the token legs whose allowance is below the amount, each for exactly that amount. |
| AddLiquidity.ApproveLegs | scripts/add_liquidity_correct.py:93-102 | Every approval issued is for a short token leg, for its amount. The outcome is the error of the first failing leg, or Ok when no leg fails. On success every token's allowance read returned, and exactly the planned approvals were issued, each returning. On failure at leg k, every earlier leg passed, and the submitted approvals are the planned ones of the legs before k, then leg k's own approve when its allowance was read. |
| AddLiquidity.ApprovalFailureFirst | scripts/add_liquidity_correct.py:94-102 | The approval pass fails iff some leg fails (its allowance read raises, or its approve raises when the allowance is short). It then fails with the first failing leg's error. |
| AddLiquidity.ApprovalPassSucceeds | scripts/add_liquidity_correct.py:94-102 | The pass completes iff every token's allowance read returns and every planned approval returns. |
| AddLiquidity.Deposit | scripts/add_liquidity_correct.py:120-126 | Deposits with a receiver first. The variant without a receiver is tried exactly when the first call reverts with a contract-logic error, and its outcome is then the result. Otherwise the first call's outcome is. Both carry the native leg's value. |
| AddLiquidity.HalfUnit | scripts/add_liquidity_correct.py:53-54 | Twice the half unit is 10^decimals, except for 0 decimals, where it is 0. |
| AddLiquidity.MinMint | scripts/add_liquidity_correct.py:104-112 | Is 99% of the (non-negative) quote rounded down, or 0 when the quote raises. |
| AddLiquidity.ReportLegs | scripts/add_liquidity_correct.py:77-91 | Leg by leg, a native leg reads the sender's balance and a token leg reads its balanceOf, then its allowance. The outcome is the first failing read's error, or Ok. On Ok every token's balanceOf and allowance read returned. |
| AddLiquidity.ReportFailureFirst | scripts/add_liquidity_correct.py:77-91 | The report fails iff some leg's read fails, and then with the error of the first failing leg. |
| AddLiquidity.ReportPassSucceeds | scripts/add_liquidity_correct.py:77-91 | The report completes iff every native leg's balance read and every token leg's balanceOf and allowance reads return. |
| AddLiquidity.ReportThenApproval | scripts/add_liquidity_correct.py:77-102 | Once the report completes, the approval pass can only fail at a leg that needs an approval, whose approve raised, and with that error. |
| AddLiquidity.DepositFlow | scripts/add_liquidity_correct.py:56-126 | A failing coin read, the first failing decimals() read, or the first failing balance or allowance read of the report aborts with its error before any approval. Otherwise the amounts are half a unit per coin. A failing approval pass then aborts at a leg that needs an approval, with its approve's error, after exactly the planned approvals of the legs before it and that approve. The deposit is reached iff the coin read, every token's decimals(), every report read and every planned approve return. It is then the receiver-first attempt carrying the first native leg's amount as value, after exactly the planned approvals. |
| MemFuzz.Chunk | tests/test_mem_fuzz.py:4-5 | Chunk i has length `31 + i % 3`. |
| MemFuzz.MakeChunks | tests/test_mem_fuzz.py:1-6 | Returns 64 chunks, chunk i being exactly `Chunk(i)`: length `31 + i % 3`, byte j equal to `(j + i) mod 256`. |
| MemFuzz.ChunkSizesStraddleWord | tests/test_mem_fuzz.py:4 | Every length is 31, 32 or 33, and each occurs. |
| MemFuzz.ChunkIsConsecutive | tests/test_mem_fuzz.py:5 | A chunk starts at byte `i mod 256`, and each byte is one more than the last, mod 256. |
| MemFuzz.TotalSizeOfThreeBlocks | tests/test_mem_fuzz.py:3-5 | Each run of three chunks holds 96 bytes. |
| MemFuzz.TotalPayload | tests/test_mem_fuzz.py:1-6 | The 64 chunks hold 2047 bytes in all. |

## Left out

- CurveFuzz.CurveStateMachine.DNotSpikingDown: the source multiplies the
  snapshot by the float 0.99. The model compares exactly, so it can
  disagree within a float's rounding of 0.99·snapshot.
- AddLiquidity.HalfUnit: `int(0.5 * 10**d)` equals 10^d/2 only while 10^d
  is exact as a float, which means decimals up to 22. For larger decimals
  the float result is not modelled.
- AddLiquidity.MinMint: the source truncates the float `minted * 0.99`. The
  model takes the exact floor of 99% of the quote, which can differ once
  0.99·quote passes about 2^46. That covers ordinary 18-decimal LP quotes.
- AddLiquidity.Lower: folds ASCII letters only. Addresses are ASCII hex
  strings.
- CurveFuzz.CurveStateMachine.constructor: requires at least one test
  account. The source fails with an IndexError when there is none.
- AddLiquidity.ApproveLegs: each allowance read is a fixed oracle answer
  per coin, the same one the report read. An earlier approve of the same
  coin in the same pass does not change a later read.
- AddLiquidity.DepositFlow: stops before the receipt's `gas_used` is read
  and printed.
- AddLiquidity.ReportLegs: the symbol() read is left out, since its
  failure is swallowed and it only feeds the printed report.
- `_virtual_price` and `safe_decimal`: nothing in the core calls them.
- Hypothesis's drawing of rule arguments, rule scheduling, example
  shrinking and settings are left out. The rule methods accept any
  argument; only the exchange rule's range for dx (`DX_MIN`..`DX_MAX`)
  appears, in `EveryActorExchanges`.
- Environment variables, the current working directory, directory
  creation, JSON text formatting, file writes and `print` are left out. The
  failure directory is a map from file name to JSON value. `str(e)` of an
  exception is its message.
- The chain's block number and timestamp are parameters.
- The pool, the tokens and the chain are oracles. Their arithmetic
  (D, balances, minted amounts) is not modelled.
- The deployment, account-seeding and failure-minimizing scripts, and the
  MemFuzz contract run by the memory tests, are not part of this model.
