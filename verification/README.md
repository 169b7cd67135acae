# zerosum game resolution, in Dafny

This project models the betting core of zerosum, a game in which players stake
coins on the options of a question. When a game is resolved, the options are
split into winners and losers by the game mode:

- **MAJORITY:** the options holding the largest stake total win.
- **MINORITY:** the options holding the smallest non-zero total win.

Every vote on a winning option gets its stake back plus its share of the losing
pool. Every vote on a losing option records the loss of its stake.

Around that sit:

- the per-user bookkeeping (balance, experience, games played and won);
- the experience-level table;
- on the client, the game screen's net-change caption and its bet dialog, which decides when a vote is sent and with what amount.

The backend parts come from `backend/src/zerosum/logic/game_logic.go`. The
client parts come from `frontend/src/components/Game/GameScreen.js`.

| file | module | models |
|---|---|---|
| `wrappers.dfy` | `Wrappers` | `Option` and `Result` |
| `digits.dfy` | `Digits` | decimal digit sequences and their values, shared by the caption reader and the bet field |
| `outcomes.dfy` | `Outcomes` | `resolveMajority` and `resolveMinority`, as folds that follow the source loops step by step, with reference definitions (largest total, smallest non-zero total) |
| `levels.dfy` | `Levels` | `EXP_REQUIRED`, `GetLevelInfo` and `getLevel` as loop methods, against the reference level "1 + number of cumulative thresholds reached" |
| `users.dfy` | `Users` | the user table as a map, with `AllocateMoney`, `allocateWinOrLoss`, `allocateExp` and the three fixed experience rewards |
| `payout.dfy` | `Payout` | the share of the losing pool a winning stake earns, and the bound on what rounding hands out |
| `votes.dfy` | `Votes` | votes grouped by option, the option totals, and order-independence of gathering and summing |
| `settlement.dfy` | `Settlement` | `ResolveGame`: option results, pools, winner and loser settlement, and the all-zero minority case |
| `ledger.dfy` | `Ledger` | the per-vote user updates of the two settlement loops, applied to the user table |
| `changetext.dfy` | `ChangeText` | `parseChange` and a reader that inverts it |
| `betdialog.dfy` | `BetDialog` | the bet dialog's state, `handleChoice`, `handleChange('bet')`, `handleSubmit`, `handleClose`, the vote amount, and the dialog as a state machine run under either submit guard |

Calls that the core makes into the database, into push notifications and into
the achievements code are not part of this model. Resolution is a pure
function from the votes of each option to the option results and the list of
vote results. The user-table updates are a fold of that list over a map.

Two things in the source looked wrong; they are described under "## Findings".
`ResolveGame` uses the corrected settlement. `ResolveGameAsWritten` keeps the
source's, is proved equal to `ResolveGame` on every game outside the faulty
case, and is shown to settle votes twice inside it. The dialog's `Step` takes
the submit guard as a parameter, so its properties are proved for the source's
guard and for the corrected one alike.

## Model

| member | source | states |
|---|---|---|
| Outcomes.ResolveMajority | backend/src/zerosum/logic/game_logic.go:244-258 | the winners are the indices whose total equals the largest total, in ascending order; every loser's total is below the largest; winners and losers together hold each index below n exactly once |
| Outcomes.MajorityWinners | backend/src/zerosum/logic/game_logic.go:244-258 | on a non-empty input there is at least one winner; an index wins exactly when its total is at least every other total; winners ascend |
| Outcomes.MajorityPartition | backend/src/zerosum/logic/game_logic.go:244-258 | every index below n occurs exactly once among winners and losers, and no other index occurs |
| Outcomes.ResolveMinority | backend/src/zerosum/logic/game_logic.go:260-285 | when some total is non-zero, the winners are the indices holding the smallest non-zero total, ascending; when all are zero there are no winners and the losers are 0..n-1 in order; every loser holds zero or more than the winning total; winners and losers partition the indices |
| Outcomes.MinorityWinners | backend/src/zerosum/logic/game_logic.go:260-285 | an index wins exactly when its total is non-zero and at most every non-zero total; winners ascend |
| Outcomes.MinorityZeroesLose | backend/src/zerosum/logic/game_logic.go:270-273 | an option with a zero total always loses; if every total is zero there is no winner and every index loses |
| Outcomes.MinorityPartition | backend/src/zerosum/logic/game_logic.go:260-285 | every index below n occurs exactly once among winners and losers, and no other index occurs |
| Levels.GetLevelInfo | backend/src/zerosum/logic/game_logic.go:99-112 | the level is 1 plus the number of cumulative thresholds reached and lies in 1..10; below level 10 the next milestone is the next table entry and the progress is the experience above the last threshold, with 0 <= progress < milestone for non-negative experience; at level 10 both are 0 |
| Levels.GetLevel | backend/src/zerosum/logic/game_logic.go:114-125 | the level is 1 plus the number of cumulative thresholds reached, the same level GetLevelInfo reports, and lies in 1..10 |
| Levels.LevelMonotone | backend/src/zerosum/logic/game_logic.go:99-125 | more experience never gives a lower level, and every level lies in 1..10 |
| Levels.LevelAtThresholds | backend/src/zerosum/logic/game_logic.go:99-112 | exactly the k-th cumulative threshold reaches level k + 1, and one point less stays at level k |
| Levels.CumulativeTable | backend/src/zerosum/logic/game_logic.go:11 | the cumulative thresholds are 10, 30, 80, 180, 430, 930, 1730, 2980 and 4980 |
| Users.AllocateMoney | backend/src/zerosum/logic/game_logic.go:86-97 | an unknown user is an error; a change that would make the balance negative is refused with "not enough money"; otherwise the balance becomes old balance + money and nothing else in the table changes |
| Users.AllocateMoneySucceeds | backend/src/zerosum/logic/game_logic.go:86-97 | the change is accepted exactly when the user exists and the new balance is not negative |
| Users.AllocateMoneyKeepsSolvent | backend/src/zerosum/logic/game_logic.go:86-97 | if no balance was negative, none is afterwards, whether the change was accepted or refused |
| Users.AllocateMoneyUndo | backend/src/zerosum/logic/game_logic.go:86-97 | from a non-negative balance, an accepted change followed by its opposite restores the table exactly |
| Users.AllocateWinOrLoss | backend/src/zerosum/logic/game_logic.go:39-50 | an unknown user is an error; otherwise games played goes up by 1, games won by 1 exactly when the game was won, the user's balance and experience stay the same, and no other user changes |
| Users.WinOrLossKeepsStats | backend/src/zerosum/logic/game_logic.go:39-50 | 0 <= games won <= games played is preserved for every user |
| Users.AllocateExp | backend/src/zerosum/logic/game_logic.go:30-37 | an unknown user is an error; otherwise experience goes up by the given amount, the user's balance and game counters stay the same, and no other user changes |
| Users.AllocateHostExp | backend/src/zerosum/logic/game_logic.go:127-129 | an unknown user is an error; a known user gains 10 experience, the user's balance and game counters stay the same, and no other user changes |
| Users.AllocateVoteExp | backend/src/zerosum/logic/game_logic.go:131-133 | an unknown user is an error; a known user gains 5 experience, the user's balance and game counters stay the same, and no other user changes |
| Users.AllocateWinExp | backend/src/zerosum/logic/game_logic.go:135-137 | an unknown user is an error; a known user gains 10 experience, the user's balance and game counters stay the same, and no other user changes |
| Users.ExpNeverLowersLevel | backend/src/zerosum/logic/game_logic.go:30-37 | gaining non-negative experience never lowers a user's level |
| Payout.Share | backend/src/zerosum/logic/game_logic.go:216 | with a positive winning pool W, a non-negative stake s and a non-negative losing pool L, the share is the largest integer r with r * W <= s * L, that is s / W * L truncated, and it is not negative |
| Payout.Credit | backend/src/zerosum/logic/game_logic.go:216 | with W > 0, s >= 0 and L >= 0, a winning stake s is credited s plus exactly the truncated share: the gain g over the stake satisfies g * W <= s * L < (g + 1) * W |
| Payout.CreditBounds | backend/src/zerosum/logic/game_logic.go:216 | a winning stake is credited at least itself and at most itself plus the whole losing pool |
| Payout.BonusesWithinLosingPool | backend/src/zerosum/logic/game_logic.go:204-220 | the shares of all winning stakes add up to at most the losing pool, and fall short of it by less than the number of winning votes |
| Votes.Totals | backend/src/zerosum/logic/game_logic.go:148-157 | there is one total per option, and each is the sum of the stakes of that option's votes |
| Settlement.OptionResults | backend/src/zerosum/logic/game_logic.go:174-187 | one result per option; an option is flagged as a winner exactly when it is on the winning side and as a loser exactly when it is on the losing side; each result carries the option's total and its number of votes |
| Settlement.WinnerResults | backend/src/zerosum/logic/game_logic.go:214-227 | one result per vote of the winning options, in order, each marked won and credited its stake plus its truncated share of the losing pool |
| Settlement.LoserResults | backend/src/zerosum/logic/game_logic.go:228-239 | one result per vote of the losing options, in order, each marked lost, with the change equal to minus the stake |
| Settlement.Payouts | backend/src/zerosum/logic/game_logic.go:204-239 | the results hold every vote of the winning options, in order, marked won and credited its stake plus its share, with the winning pool the sum of the winning options' totals and the losing pool the sum of the losing options' totals; followed by every vote of the losing options, in order, marked lost, with minus its stake as the change |
| Settlement.SettledSides | backend/src/zerosum/logic/game_logic.go:195-201 | when some option wins, the winners are settled as won and the losers as lost; when none wins, every option is settled as won and none as lost, so each option is settled exactly once |
| Settlement.SettledSidesAsWritten | backend/src/zerosum/logic/game_logic.go:195-201 | when some option wins, the same sides as SettledSides; when none wins, the losers are settled on both sides, so every losing option is settled twice, once as won and once as lost |
| Settlement.ResolveGame | backend/src/zerosum/logic/game_logic.go:139-242 | a game without options is an error (the source panics there; see "## Left out"); any game with options resolves, so the "error in resolving game" branch is never taken; each option result carries the option's stake total and vote count |
| Settlement.MajorityFlags | backend/src/zerosum/logic/game_logic.go:174-186 | in a majority game an option is flagged as a winner exactly when its total is the largest |
| Settlement.MinorityFlags | backend/src/zerosum/logic/game_logic.go:174-186 | in a minority game an option is flagged as a winner exactly when its total is non-zero and the smallest non-zero total |
| Settlement.EachVoteSettledOnce | backend/src/zerosum/logic/game_logic.go:214-239 | the vote results hold every vote of the game exactly once |
| Settlement.ResultsFollowFlags | backend/src/zerosum/logic/game_logic.go:174-239 | when some option wins, at least one option is flagged a winner; every vote result is the settlement of one vote of some option by that option's stored flag, with a won vote credited its stake plus its truncated share of the losing pool (the pools being the sums of the flagged and of the unflagged options' totals) and a lost vote debited its stake; and every vote of every option has its settlement among the results |
| Settlement.PayoutsFollowFlags | backend/src/zerosum/logic/game_logic.go:174-239 | for any split of the options, the payouts of the two sides are exactly the settlements of the votes by the option flags that split produces |
| Settlement.AllZeroMinoritySettlement | backend/src/zerosum/logic/game_logic.go:194-227 | in a minority game whose totals are all zero, no option is flagged a winner, and every vote is settled once, as won, with its stake as the change |
| Settlement.WinnerGetsStakeBack | backend/src/zerosum/logic/game_logic.go:214-232 | with non-negative stakes, every won vote of the resolved game records a change of at least its stake, and every lost vote records minus its stake |
| Settlement.PayoutSigns | backend/src/zerosum/logic/game_logic.go:214-232 | for any split of the options into winning and losing ones, every winning vote is credited at least its stake and every losing vote is debited exactly its stake |
| Settlement.PoolsAddUp | backend/src/zerosum/logic/game_logic.go:204-211 | the winning and losing pools together are the sum of all option totals |
| Settlement.WinningPoolPositive | backend/src/zerosum/logic/game_logic.go:204-208 | when the pot is positive and no stake is negative, some option wins and the winning pool is positive |
| Settlement.PayoutWithinPot | backend/src/zerosum/logic/game_logic.go:204-227 | when the pot is positive, the total credited to winners is at most the pot, and the rounding leftover is less than one coin per won vote |
| Settlement.ResolveGameAsWritten | backend/src/zerosum/logic/game_logic.go:139-242 | a game without options is an error, and only then: every game with options resolves |
| Settlement.AsWrittenAgrees | backend/src/zerosum/logic/game_logic.go:194-201 | in a majority game, or a minority game with some non-zero total, the source's resolution is exactly the corrected one, so every property of ResolveGame holds for it there |
| Settlement.AsWrittenSettlesTwice | backend/src/zerosum/logic/game_logic.go:194-201 | as written, a minority game whose totals are all zero settles every vote twice |
| Settlement.DoubleSettlementExample | backend/src/zerosum/logic/game_logic.go:194-201 | any zero-stake vote, alone in a two-option minority game, is settled as won and then as lost by the source, and once, as won, by the corrected resolution |
| Ledger.ApplyResult | backend/src/zerosum/logic/game_logic.go:214-239 | applying one vote result keeps the set of users and changes no user other than the voter |
| Ledger.ApplyResults | backend/src/zerosum/logic/game_logic.go:214-239 | applying the results in order keeps the set of users and leaves every user without a settled vote unchanged |
| Ledger.Settle | backend/src/zerosum/logic/game_logic.go:139-242 | settling succeeds exactly when resolution does, and keeps the set of users |
| Ledger.SettleAsWritten | backend/src/zerosum/logic/game_logic.go:139-242 | the same, for the source's resolution |
| Ledger.ApplyResultCounters | backend/src/zerosum/logic/game_logic.go:214-236 | one settled vote adds a game to its voter, and a win and 10 experience when it won; nobody else's counters change |
| Ledger.ApplyResultMoney | backend/src/zerosum/logic/game_logic.go:218-220 | for a solvent table and a non-negative credit, a won vote adds its recorded change to its voter's balance and a lost vote touches no balance |
| Ledger.ApplyResultsKeepsInvariants | backend/src/zerosum/logic/game_logic.go:214-239 | settling keeps every balance non-negative and every user's wins within their games |
| Ledger.ApplyResultsCounters | backend/src/zerosum/logic/game_logic.go:214-239 | each user gains one game per settled vote of theirs, and one win and 10 experience per won vote |
| Ledger.ApplyResultsMoney | backend/src/zerosum/logic/game_logic.go:214-239 | each user's balance grows by exactly the credits of their won votes |
| Ledger.GameCreditsNonNegative | backend/src/zerosum/logic/game_logic.go:214-220 | with non-negative stakes, no won vote credits a negative amount |
| Ledger.SettleCountsEachVoteOnce | backend/src/zerosum/logic/game_logic.go:214-239 | a resolved game adds to each user exactly one game per vote they cast |
| Ledger.SettleCreditsWinners | backend/src/zerosum/logic/game_logic.go:214-239 | a resolved game with non-negative stakes changes each user's balance by the credits of their won votes, and keeps solvency and the game counters valid |
| Ledger.AsWrittenCountsTwice | backend/src/zerosum/logic/game_logic.go:194-239 | as written, a minority game whose totals are all zero adds two games per vote |
| Ledger.GamesPlayedExample | backend/src/zerosum/logic/game_logic.go:194-201 | a user with one zero-stake vote ends with two games played under the source and one under the correction |
| ChangeText.ParseChange | frontend/src/components/Game/GameScreen.js:251-257 | the caption starts with "loss: " exactly for negative changes and with "gained: " exactly for the others, zero included |
| ChangeText.ChangeRoundTrip | frontend/src/components/Game/GameScreen.js:251-257 | reading a caption gives back the change it was made from, so the number after the prefix is the decimal magnitude |
| ChangeText.CaptionOfReading | frontend/src/components/Game/GameScreen.js:251-257 | every string that reads as a change is exactly the caption of that change |
| ChangeText.CaptionsDistinct | frontend/src/components/Game/GameScreen.js:251-257 | different changes get different captions |
| BetDialog.ParseInt | frontend/src/components/Game/GameScreen.js:501 | parsing yields an integer exactly when the bet has digits before its point, and NaN otherwise; the integer is the signed value of those digits, so the fraction and the exponent are ignored |
| BetDialog.ParseIntIgnoresExponent | frontend/src/components/Game/GameScreen.js:501 | the amount parsed from a numeral does not depend on its exponent |
| BetDialog.ExponentBetSendsMantissa | frontend/src/components/Game/GameScreen.js:298-302 | the bet 5e2 is worth 500 and passes the source's guard, and the vote it sends stakes 5 |
| BetDialog.ParseIntTruncates | frontend/src/components/Game/GameScreen.js:501 | for a non-negative bet without exponent, the parsed amount is the bet truncated to whole coins |
| BetDialog.VoteAmount | frontend/src/components/Game/GameScreen.js:498-502 | the amount is 100 under fixed stakes and the parsed bet otherwise |
| BetDialog.BetPositiveMeansAboveZero | frontend/src/components/Game/GameScreen.js:298 | the guard's comparison `bet > 0` holds exactly when the number the field holds is greater than zero |
| BetDialog.MakeVote | frontend/src/components/Game/GameScreen.js:497-503 | the vote carries the shown game's id and the chosen option, and the amount is 100 under fixed stakes and parseInt of the bet otherwise |
| BetDialog.HandleChoice | frontend/src/components/Game/GameScreen.js:276-281 | the chosen option is stored and the dialog opens; no other field changes |
| BetDialog.HandleBetChange | frontend/src/components/Game/GameScreen.js:282-286 | the bet field takes the typed text; no other field changes |
| BetDialog.HandleClose | frontend/src/components/Game/GameScreen.js:287-296 | the dialog closes and the bet is cleared, nothing else changes, and the screen leaves for the game list exactly when a vote was sent |
| BetDialog.CloseIdempotent | frontend/src/components/Game/GameScreen.js:287-296 | closing twice is the same as closing once |
| BetDialog.HandleSubmit | frontend/src/components/Game/GameScreen.js:297-308 | the vote is sent and querySent set exactly when the stakes are fixed or the bet is positive; otherwise errorMsg is set, nothing is sent and querySent is unchanged |
| BetDialog.HandleSubmitChecked | frontend/src/components/Game/GameScreen.js:297-308 | the vote is sent exactly when the stakes are fixed or the amount sent is a positive integer, and then it is one |
| BetDialog.Step | frontend/src/components/Game/GameScreen.js:276-308 | after any event, under either guard, querySent and the mutation's called flag each hold exactly when they held before or a vote was just sent; an event the screen does not offer changes nothing; an offered choice, bet change, submit or close runs handleChoice, handleChange('bet'), the selected handleSubmit or handleClose; so a vote is sent exactly by an admitted submit while the dialog is open and the mutation has not yet been called, and handleClose navigates away only after a vote was sent |
| BetDialog.QuerySentIffVoted | frontend/src/components/Game/GameScreen.js:262-308 | from the initial state, under the source's guard and under the corrected one, querySent and called each hold exactly when a vote has been sent, at most one vote is ever sent, and handleClose navigates away only after one has |
| BetDialog.FixedStakesVoteSent | frontend/src/components/Game/GameScreen.js:276-308 | under fixed stakes, with either guard, choosing an option and submitting sends exactly one vote, for the shown game and option, staking 100 |
| BetDialog.SentVotesForGame | frontend/src/components/Game/GameScreen.js:497-503 | under either guard, every vote the dialog sends is for the shown game and carries 100 under fixed stakes |
| BetDialog.SentAmountsValid | frontend/src/components/Game/GameScreen.js:498-502 | under the corrected guard, every vote the dialog sends is for the shown game and carries 100 under fixed stakes and a positive integer in every case |
| BetDialog.CheckedGuardStricter | frontend/src/components/Game/GameScreen.js:298 | the corrected guard only admits bets the source's guard admits |
| BetDialog.GuardsAgreeOnWholeNumbers | frontend/src/components/Game/GameScreen.js:298 | on a whole-number bet the two guards agree |
| BetDialog.HalfCoinBetSendsZero | frontend/src/components/Game/GameScreen.js:298 | the bet 0.5 passes the source's guard and the vote it sends stakes 0 |
| BetDialog.PointFiveBetSendsNaN | frontend/src/components/Game/GameScreen.js:298 | the bet .5 passes the source's guard and the vote it sends carries NaN |
| BetDialog.HalfCoinRun | frontend/src/components/Game/GameScreen.js:276-308 | choosing an option, typing 0.5 and submitting, with the source's guard, sends exactly one vote, and it stakes 0 |
| BetDialog.HalfCoinBetRefused | frontend/src/components/Game/GameScreen.js:297-308 | the corrected guard refuses the bet 0.5 and raises the error message |

## Left out

- Integer width: totals, balances and changes are `int32` in the source and unbounded here, so overflow and wrap-around are not modelled.
- Payout.Share: the source computes the share in float64 (stake / winning pool * losing pool) and truncates it. The model uses exact truncated division, so float rounding is not captured. When the winning pool is 0 the source divides 0 by 0 and converts NaN to int32, which is platform-dependent; the model takes the share to be 0.
- Settlement.WinnerGetsStakeBack: states only the signs of the recorded changes. The exact credit of each won vote, and the link between a result and its option's flag, are stated by Settlement.ResultsFollowFlags.
- The win rate kept with each user is a float quotient of the two game counters; only the counters are modelled.
- Database access: the queries that load options, votes and the game, the writes of option, game and vote results, and all their errors. The option results and the list of vote results stand in for the writes. The order in which the source interleaves these writes is not modelled; a failed query part-way through a resolution is not modelled.
- Settlement.ResolveGame: on a game without options the source reads `values[0]` in resolveMajority and resolveMinority (game_logic.go:245, 263) and panics with an index out of range. The model returns the error NoOptions instead.
- Settlement.ResolveGame: a game mode other than MAJORITY or MINORITY leaves the source with no winners and ends in the "error in resolving game" branch. The model has only the two modes.
- Ledger.ApplyResult: the achievement check and the push notification sent for each settled vote are not modelled; they are calls into code outside this core.
- The stake taken from a voter when the vote is cast happens outside this core; the ledger applies only what resolution does.
- AllocateHostExp and AllocateVoteExp are modelled but not called by resolution; their callers are outside this core.
- BetDialog.Step: the app bar's back arrow (GameScreen.js:585-590) links to the game list at any time. It is not an event of the model, so the trace's `left` flag records only navigation by handleClose.
- The percentage display, the render tree and the Apollo queries of the game screen, and every other screen.
- BetDialog.BetPositive: the numeral's value is compared with zero exactly. JavaScript's conversion of a huge exponent to Infinity, or of a tiny one to 0, is not modelled.
- BetDialog.ParseInt: JavaScript's `parseInt` returns a double, so a whole part above 2^53 is rounded ("9007199254740993" parses to 9007199254740992). The model returns the exact integer.
- The input's `min: '1'` attribute: the browser does not enforce it on the field's value, so it has no effect on the guard.
- Authentication, the GraphQL resolvers and the ORM repository code.

## Findings

| source | as written | input that shows it | evidently intended | confidence | as-written member | corrected member |
|---|---|---|---|---|---|---|
| backend/src/zerosum/logic/game_logic.go:194-201 | when no option wins in a minority game, the losers are copied to the winners but left in the losers | a minority game with options [[one vote staking 0], []]: the vote is settled as won and then as lost, and its voter gains two games played | every option is treated as a winner and none as a loser, so each vote is settled once | medium, not executed | Settlement.ResolveGameAsWritten, Settlement.DoubleSettlementExample | Settlement.ResolveGame, Settlement.EachVoteSettledOnce |
| frontend/src/components/Game/GameScreen.js:298 | the guard compares the field's numeric value with 0, but the amount sent is `parseInt` of the field | the bet 0.5 passes the guard and sends amount 0; the bet .5 passes and sends NaN | a vote is sent only when the amount sent is a positive integer | high, not executed | BetDialog.HandleSubmit, BetDialog.HalfCoinBetSendsZero | BetDialog.HandleSubmitChecked, BetDialog.SentAmountsValid |

A zero-stake vote in an open-stakes game is what the second finding lets
through. It is one way the first finding's input arises.
