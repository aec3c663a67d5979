# Session account table of the investment dashboard

A Dafny model of `src/lib/userService.js`. That module holds the
session's copy of every investor account (`localUsersData`) and the
operations the dashboard applies to that copy:

- load the table from the remote `profiles` query, filling in a missing
  baseline (`getUsers`);
- add percentage points to one account's monthly rate and recompute its
  balance (`updateUserLocal`);
- apply that same rule to a list of ids, skipping zero-balance accounts and
  reporting unknown ids (`updateMultipleUsersLocal`);
- reinvest: the balance becomes the new baseline and the rate drops to 0
  (`reinvestUsers`);
- renew: the balance returns to the baseline and the rate drops to 0
  (`renewUsers`);
- read the table back (`getLocalUsersData`).

Files:

- `js_values.dfy` (`JsValues`): the JavaScript semantics the rules
  depend on. A numeric slot may be `undefined`, `null` or a number.
  The module also gives truthiness and `||`, the strict `=== 0 || === null`
  test, `parseFloat(x.toFixed(2))` as exact rounding half away from zero
  to cents, and `${n}` for the counts in messages.
- `accounts.dfy` (`Accounts`): the account record, the baseline fallback
  `initial_balance || balance || 1000`, and the load normalisation. It also
  holds the record each operation stores for one account, and the lemmas
  about those records.
- `batch.dfy` (`Batch`): the specification of the three batch loops.
  `Step` is one iteration against the current table. `Run` folds `Step`
  over the ids, in order, and keeps each id's outcome (updated, skipped
  or failed). `ReplyOf` builds the returned object from that trace. The
  lemmas classify each outcome, give the reply's meaning, give a closed
  form of reinvest/renew, and relate runs to one another.
- `user_service.dfy` (`UserService`): the module state as a class
  `Service`. Its field `users` is `localUsersData`. Each exported
  function is a method, proved against the functions above. The batch
  loop is a `for` loop whose invariant ties the table and the three
  output lists to `Run` over the ids seen so far. `Valid()` (no baseline
  is `0` or `null`) is established by the load and preserved by every
  operation. `Session` is a caller reasoning only from the contracts.

Behaviours of the code that the model keeps:

- The balance is recomputed from `initial_balance || balance || 1000`,
  not from `initial_balance` alone.
- Eligibility uses strict equality, so an account whose `balance` is
  missing (`undefined`) is not skipped.
- The load replaces every falsy baseline (`0`, `null`, missing). It falls
  back to 1000 also when the balance is `0`.
- The single edit spreads the update keys into the record. The batch
  edit does not; it only restamps and, when a rate is given, applies the
  profit rule. An eligible account with no rate given still counts as
  updated.
- A reinvest of an account whose balance is missing leaves that account
  without a baseline.
- The batch error message counts only the ids that were not found. An id
  listed twice is processed twice.

## Model

| member | source | states |
|---|---|---|
| JsValues.Or | src/lib/userService.js:25 | `a \|\| b` is `a` when `a` is truthy and `b` otherwise, so it is truthy exactly when either operand is |
| JsValues.ZeroOrNull | src/lib/userService.js:102 | `x === 0 \|\| x === null` holds exactly for the falsy values other than `undefined` |
| JsValues.OrZero | src/lib/userService.js:59 | `n \|\| 0` read as a number: the number itself when it is a non-zero number, otherwise 0 |
| JsValues.Round2 | src/lib/userService.js:66 | `parseFloat(x.toFixed(2))` is a whole number of cents within half a cent of `x`; ties go away from zero |
| JsValues.Round2Unique | src/lib/userService.js:66 | the contract of `Round2` determines it: any whole number of cents in the same half-open interval around `x` equals `Round2(x)`; since `Grown`'s contract is that interval around `base * (1 + rate / 100)`, it also fixes the recomputed balance as `Round2` of that product |
| JsValues.Round2OfCents | src/lib/userService.js:66 | rounding an amount that is already whole cents returns it unchanged |
| JsValues.NatToString | src/lib/userService.js:142 | `${n}` is a non-empty string of decimal digits with no leading zero |
| JsValues.NatToStringRoundTrip | src/lib/userService.js:142 | reading the rendered digits back gives the count again |
| Accounts.FindIndex | src/lib/userService.js:43 | `findIndex(user => user.id === userId)`: the first index whose id matches, or -1 exactly when no account has that id |
| Accounts.Base | src/lib/userService.js:64 | the baseline `initial_balance \|\| balance \|\| 1000` is never 0; it is the first truthy of the three |
| Accounts.Normalize | src/lib/userService.js:23-26 | the load changes only `initial_balance`; afterwards it is truthy and never 0 or `null`; the baseline fallback is unchanged; a truthy baseline is left as it is |
| Accounts.Grown | src/lib/userService.js:66 | the recomputed balance is a whole number of cents within half a cent of `base * (1 + rate / 100)`, halves away from zero |
| Accounts.Ineligible | src/lib/userService.js:102 | an account is skipped by a batch exactly when its balance is falsy but present: `0` or `null`, not `undefined` |
| Accounts.ProfitGiven | src/lib/userService.js:58 | the profit rule applies exactly when reading `updates.monthly_profit`, with an absent key read as `undefined`, does not give `undefined` |
| Accounts.ProfitDelta | src/lib/userService.js:60 | the added rate is the given value `\|\| 0`: the number itself, and 0 for `null`, `undefined` or an absent key |
| Accounts.Reprofit | src/lib/userService.js:59-66 | the profit rule changes only rate and balance of the record under construction; the rate is the current rate (or 0) plus the delta, and the balance is `Grown` of the baseline by that rate |
| Accounts.Spread | src/lib/userService.js:51-55 | a key present in `updates` sets its field, even to `undefined`; an absent key keeps the current value; identity, baseline and the rest are kept and the time is stamped |
| Accounts.SingleEdited | src/lib/userService.js:50-67 | the single edit keeps id, name, e-mail, PIX key and baseline, and stamps the call's time; `accumulated_profit` is the one in `updates` when given; with no rate given, `balance` and `monthly_profit` are the ones in `updates` when given, and kept otherwise |
| Accounts.BatchEdited | src/lib/userService.js:107-122 | the batch edit also keeps `accumulated_profit`: only rate, balance and timestamp can change |
| Accounts.EditRule | src/lib/userService.js:113-122 | when a rate is given, the new rate is the old rate (or 0) plus the given amount, and the new balance is `Grown` of the baseline by the new rate, for both edits; with no rate given, the batch edit only restamps |
| Accounts.EditsAccumulate | src/lib/userService.js:113-122 | for an account with a truthy baseline, two batch edits by d1 and d2 store the same rate and balance as one edit by d1+d2 |
| Accounts.TwoEditsFromThousand | src/lib/userService.js:58-66 | from balance 1000 with no baseline, two +5 edits give 1050 and then 1100, not compounded |
| Accounts.Reinvested | src/lib/userService.js:236-241 | reinvest makes the balance the baseline, keeps the balance, sets the rate to 0, stamps the time and keeps every other field |
| Accounts.Renewed | src/lib/userService.js:300-305 | renew sets the balance to the baseline, keeps the baseline, sets the rate to 0, stamps the time and keeps every other field |
| Accounts.ReinvestKeepsEligibility | src/lib/userService.js:236-241 | reinvesting an eligible account leaves it eligible, with a baseline that is neither 0 nor `null`; reinvesting it again, at any later time, changes nothing but the timestamp |
| Accounts.RenewKeepsEligibility | src/lib/userService.js:300-305 | renewing an account whose baseline is neither 0 nor `null` leaves it eligible with that baseline; renewing it again, at any later time, changes nothing but the timestamp |
| Accounts.ReinvestThenRenew | src/lib/userService.js:236-305 | reinvesting and then renewing an account gives back the balance it had; that balance is now also its baseline, and its rate is 0 |
| Batch.Apply | src/lib/userService.js:107-127 | what one eligible account becomes under each operation keeps its id and name |
| Batch.Step | src/lib/userService.js:92-127 | one iteration changes at most the entry at the id's index and keeps the table's length, ids and names |
| Batch.Run | src/lib/userService.js:90-131 | the loop keeps the table's length, ids and names, and produces one outcome per id |
| Batch.UpdatedOf | src/lib/userService.js:127 | `results` has at most one entry per id, and a record is in it exactly when some id's outcome stored that record |
| Batch.SkippedOf | src/lib/userService.js:103 | `skippedUsers` has at most one entry per id, and an entry is in it exactly when some id's outcome is that skip |
| Batch.FailedOf | src/lib/userService.js:95 | `errors` has at most one entry per id, and an entry is in it exactly when some id's outcome is that failure |
| Batch.PartitionSizes | src/lib/userService.js:90-131 | every id lands in exactly one of `results`, `skippedUsers` and `errors` |
| Batch.Classify | src/lib/userService.js:92-105 | the j-th id fails, with 'Usuário não encontrado', exactly when it is unknown; it is skipped with its account's name and reason 'Saldo zerado' when that account's balance is 0 or `null`; when the account is eligible and no earlier id resolved to it, the result is the operation applied to the account as loaded |
| Batch.FailuresAreMissing | src/lib/userService.js:94-97 | `errors` is exactly the unknown ids in order, each with 'Usuário não encontrado' |
| Batch.UntargetedUnchanged | src/lib/userService.js:126 | an account whose id is not listed is unchanged by a batch |
| Batch.IneligibleUnchanged | src/lib/userService.js:101-105 | a batch leaves an account unchanged when its balance is 0 or `null` |
| Batch.ResultsNonEmpty | src/lib/userService.js:143 | `results` is non-empty exactly when some listed id resolves to an account that was eligible before the batch |
| Batch.ErrorMessage | src/lib/userService.js:142 | the message is 'Erro ao <verb> ' followed by the decimal count of failures, ' de ', the decimal count of ids and ' usuários' |
| Batch.ErrorMessageCounts | src/lib/userService.js:142 | two messages for the same verb are equal only when both counts are equal |
| Batch.Reply | src/lib/userService.js:138-148 | `data` and `skippedUsers` are always the lists; `error` and `partialSuccess` are present exactly when there are errors; the error is the message for that count and `partialSuccess` says whether `results` is non-empty |
| Batch.ReplyOf | src/lib/userService.js:138-148 | the reply of a trace has its updated and skipped views, and an error exactly when some outcome failed, counting the failures |
| Batch.ReplyMeaning | src/lib/userService.js:138-148 | the reply has an error exactly when some id is unknown; the message is 'Erro ao <verb> K de N usuários' with K the unknown ids and N all ids; `partialSuccess` is present only then and says whether anything was updated; `data` and `skippedUsers` are the views of the trace |
| Batch.ResetClosedForm | src/lib/userService.js:218-248 | after a reinvest or renew batch, each account is the reset of its original record when listed and eligible, and otherwise unchanged; repeated ids do not compound |
| Batch.RunKeepsBaselines | src/lib/userService.js:236-241 | no batch produces a baseline that is 0 or `null` when the table had none |
| Batch.ReinvestThenRenewRestoresBalances | src/lib/userService.js:236-305 | reinvesting and then renewing the same ids restores every balance |
| Batch.RenewIdempotent | src/lib/userService.js:300-307 | renewing the same ids a second time, at any later time, leaves every record as the first renew left it apart from its timestamp |
| Batch.LastUpdateStored | src/lib/userService.js:126-127 | after a batch, an account holds the record of the last id that resolved to it and was updated, the same record that id pushed to `results` |
| Batch.NoUpdateUnchanged | src/lib/userService.js:92-127 | an account for which no requested id produced an update keeps its loaded record |
| Batch.ListedOnce | src/lib/userService.js:107-127 | an eligible account that exactly one requested id resolves to ends up holding the operation's record of it, which is also that id's entry in `results` |
| Batch.EditedOnce | src/lib/userService.js:107-127 | after `updateMultipleUsersLocal`, an eligible account listed once holds rate `current \|\| 0` plus the given amount and balance `Grown` of its baseline by that rate when a rate is given, is only restamped otherwise, and keeps its baseline and `accumulated_profit` |
| Batch.ListedTwice | src/lib/userService.js:90-127 | against any table, an id listed twice is applied twice, the second time to the first result, as long as the account stays eligible; both records are in `results` and the table keeps the second |
| Batch.DuplicateIdAppliedTwice | src/lib/userService.js:90-127 | an id listed twice in a +5 edit batch is edited twice: 1000 becomes 1100, with two entries in `results` |
| UserService.Service.constructor | src/lib/userService.js:4 | the table starts empty |
| UserService.Service.GetUsers | src/lib/userService.js:17-28 | a failed fetch keeps the table and returns the error; a successful one replaces the table by the normalised rows, same order and count, and returns it |
| UserService.Service.UpdateUserLocal | src/lib/userService.js:41-76 | an unknown id returns 'Usuário não encontrado' and changes nothing; otherwise only the entry at the found index is replaced by the edited record, which is returned |
| UserService.Service.ApplyBatch | src/lib/userService.js:90-131 | the loop leaves the table and the three lists equal to `Run` over all ids and its views |
| UserService.Service.UpdateMultipleUsersLocal | src/lib/userService.js:84-153 | the new table is `Run` of the edit over the ids and the reply is `ReplyOf` with verb 'atualizar' |
| UserService.Service.ReinvestUsers | src/lib/userService.js:212-269 | the new table is `Run` of reinvest over the ids and the reply is `ReplyOf` with verb 'reinvestir' |
| UserService.Service.RenewUsers | src/lib/userService.js:276-333 | the new table is `Run` of renew over the ids and the reply is `ReplyOf` with verb 'renovar' |
| UserService.Service.GetLocalUsersData | src/lib/userService.js:339-341 | returns the current table |

## Left out

- `syncWithSupabase` (lines 159-205) is left out: it only writes the table to the remote store, one network call per account.
- The remote query of `profiles` is a parameter (`Fetch`): the rows come in the store's order (by name), or as the store's error.
- The clock is a parameter: `now` is one timestamp for the whole call, where the source reads the clock once per account.
- The `try`/`catch` paths and the `{ userId, error }` pushed by the inner `catch` are left out: nothing in the modelled logic throws.
- Console logging is left out.
- `parseFloat` of a string or non-numeric update is left out, and so is NaN: an update value is a number, `null` or missing.
- Update keys other than `monthly_profit`, `balance` and `accumulated_profit` are left out; a single edit that spreads `id`, `name` or `initial_balance` is not modelled.
- Rates and amounts are exact reals throughout, not IEEE-754 doubles. The rate sum `currentMonthlyProfit + newMonthlyProfit` is stored unrounded, so the source can store `0.30000000000000004` where the model stores `0.3`.
- JsValues.Round2: rounds the exact real product, where the source rounds the nearest IEEE-754 double; the two can differ on halves that a double cannot represent exactly.
- Accounts.Grown: exact arithmetic, so floating-point error in `initial_balance * (1 + rate / 100)` is not modelled.
- Accounts.EditsAccumulate: holds for exact addition only; double addition is not associative, so two edits by `d1` and `d2` can store a rate that differs in the last bit from one edit by `d1 + d2`.
- `getUsers` and `getLocalUsersData` return the live array itself, so a caller that mutates it changes the table. That aliasing is not modelled: the model returns the table as a value.
- The React components and `App.jsx` are not part of this model.
