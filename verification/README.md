# Verified models of the learning platform's contracts and services

This project models ten parts of the platform and proves what they guarantee. Six
are Soroban contracts or contract modules (liquidity pool, token, airdrop,
governance, analytics, course NFTs); four are backend services (prerequisites, peer
review assignment, certificate PDF, forum votes).

How the models are built:

- The storage of a contract is a value (`State`), and each entry point is a function
  from a state to the next one, or to `Panic`. A failed assertion, a missing record
  or an i128/u32/u64 overflow aborts the call and leaves the state alone (the build
  turns overflow checks on, `Cargo.toml:18`).
- Beside it stands a class whose fields are the storage entries and whose methods
  update them in place, in the order of the source. Every method is proved to do
  exactly what the function says (`Refines`), rollback after an abort included.
- A run is a sequence of calls from the initial state. The main results are about
  every run: invariants, sums recomputed from history, exact conditions.
- What an entry point does is also told without its specification function: when a
  call is accepted (`CallsSucceedExactly` of each contract), and what storage then
  holds, recomputed from the calls of the run (the lemmas named `...FollowCalls`) or
  described by the numbers themselves (`LaterProvisionExactly`, `RemovalExactly`,
  `SwapMeaning`, `VestedAsPromised`).
- `require_auth` is taken as given: a call in a run is made by the account it names.
- Values the code reads from elsewhere (time, a voter's token balance, the answer of a
  called contract, whether a Merkle proof checks out) are parameters of the call.
- In the certificate writer a character stands for one byte of the UTF-8 text.

Files: `Common` (results, checked arithmetic, sums over maps), `SquareRoot`,
`LiquidityPool` and `PoolProofs`, `Vesting`, `Token`, `TokenProofs` and `TokenCalls`,
`Prerequisites`, `Assignments`, `CertificatePdf`, `PdfReader`, `PdfText`, `PdfPage`
and `PdfLines`, `Governance` and `GovernanceProofs`, `Forums`, `Analytics` and `AnalyticsProofs`,
`Nft`.

Properties one would expect that the code does not have, with the exact condition
proved instead:

- Pool reserves can become negative: `add_liquidity` does not check the sign of a
  first provision. The invariant survives a call exactly when it is not a first
  provision of two negative amounts at or above their minima, with a product of at
  least 1001² and at most half the i128 range (`StepKeepsInvExactly`,
  `FirstProvisionSucceedsExactly`, `NegativeProvisionIsAccepted`).
- Depositing and redeeming can return more than was deposited, exactly when the pool
  had no shares and left-over tokens (`ProvideThenRedeemNeverGains`,
  `LeftoversGoToTheNextProvider`).
- A vesting schedule may have claimed more than is now vested, once its end was
  moved. `ClaimedWithinVestedExactly` says when it has not, for both kinds of
  schedule; a call keeps it that way if and only if it is not a modification to terms
  that no longer cover the claims (`StepKeepsWithinVestedExactly`), so it holds after
  every run without such a modification (`ClaimedStaysWithinVested`), and
  `LaterEndUndercutsClaims` is a run with one.
- A later end can also vest more: exactly for a stepped schedule that had fewer ledgers
  than steps and gets enough of them (`LaterEndVestsNoMoreExactly`,
  `LaterEndCanVestMore`).
- Step vesting can be complete well before the end ledger, exactly when `stepCount`
  floored steps have elapsed (`FullyVestedBeforeEnd`).
- A text with a carriage return does not read back from the PDF; every other text does
  (`EscapeRoundTrip`, `CertificateReadsBack`).
- `contracts/governance/README.md:42` promises a delay that starts at approval, of
  the length given to `initialize`. The code stores that length and never uses it
  (`InitializedDelayHasNoEffect`): the wait ends at the absolute ledger given when the
  upgrade was proposed. An approved upgrade waits d ledgers from its approval exactly
  when its timelock is that far away (`ApprovedUpgradeWaitsExactly`); in the run of
  `LateApprovalCutsDelay` it waits 10 under a delay of 50. The model follows the code.
- The owner of a course token can be without access to it, but only after revoking its
  own (`OwnersLoseAccessByTheirOwnHand`); and a former owner keeps access until the
  new one revokes it (`AccessIsLastGiven`).
- `mint_reward` never releases its lock, so it succeeds once (`RewardsAreMintedOnce`).

## Model

| member | source | states |
|---|---|---|
| SquareRoot.Sqrt | contracts/liquidity_pool/src/lib.rs:415-436 | the Newton loop terminates and returns the floor of the square root, aborts exactly above half the i128 range, never divides by zero and never overflows its addition; 0, 1 and negative inputs come back unchanged |
| SquareRoot.FloorSqrt | contracts/liquidity_pool/src/lib.rs:415-436 | the reference root r, found by counting, has r² ≤ x < (r+1)² |
| SquareRoot.NewtonStaysAbove | contracts/liquidity_pool/src/lib.rs:426-433 | no Newton step falls below the root, despite both floors |
| LiquidityPool.LiquidityPoolContract.AddLiquidity | contracts/liquidity_pool/src/lib.rs:146-216 | the in-place entry point makes exactly the transition AddLiquiditySpec, aborts included; LaterProvisionExactly and FirstProvisionSucceedsExactly say what that is |
| LiquidityPool.LiquidityPoolContract.ChooseAmounts | contracts/liquidity_pool/src/lib.rs:163-181 | the deposited pair: all of a first provision, later one side cut to the pool's ratio within the caller's minima (DepositInRatio names the floor exactly) |
| LiquidityPool.LiquidityPoolContract.ComputeShares | contracts/liquidity_pool/src/lib.rs:185-196 | the shares for a deposit, through the verified square root on a first provision |
| LiquidityPool.LiquidityPoolContract.RemoveLiquidity | contracts/liquidity_pool/src/lib.rs:218-257 | makes exactly the transition RemoveLiquiditySpec, characterized by RemovalExactly |
| LiquidityPool.LiquidityPoolContract.Swap | contracts/liquidity_pool/src/lib.rs:263-331 | makes exactly the transition SwapSpec, history record included, characterized by SwapMeaning and SwapSucceedsExactly |
| PoolProofs.SwapOutputMeaning | contracts/liquidity_pool/src/lib.rs:287-296 | a payout is the largest one that keeps the reserves' product net of the fee; it never exceeds the reserve and empties it only against an empty input side |
| PoolProofs.SwapSucceedsExactly | contracts/liquidity_pool/src/lib.rs:263-331 | a swap succeeds exactly when the amount is positive, the token known, the arithmetic fits and the minimum keeps the net product; division and reserve check never fail |
| PoolProofs.SwapMeaning | contracts/liquidity_pool/src/lib.rs:263-331 | a successful swap takes the whole input, pays the largest payout that keeps the net product, at least the minimum, and leaves shares and positions alone |
| PoolProofs.LaterProvisionMeaning | contracts/liquidity_pool/src/lib.rs:163-198 | a later provision takes positive amounts within the desired and minimum ones, all of one side, and mints the largest share that dilutes neither side |
| PoolProofs.DepositInRatio | contracts/liquidity_pool/src/lib.rs:163-181 | the deposit is (a, b) if and only if either a is all that was offered and b = floor(a·B/A) within the offer, or b is all and a = floor(b·A/B), floor(aDesired·B/A) exceeding the offer of b |
| PoolProofs.SharesAreLargest | contracts/liquidity_pool/src/lib.rs:185-196 | the shares minted later are m if and only if m is the largest share that dilutes neither side and the products fit |
| PoolProofs.LaterProvisionExactly | contracts/liquidity_pool/src/lib.rs:146-216 | a later provision takes (a, b) for m shares and leaves the state so if and only if those are the amounts in ratio within the minima, the largest fair share, positive, and the sums fit |
| PoolProofs.LaterProvisionSucceedsExactly | contracts/liquidity_pool/src/lib.rs:146-216 | it succeeds if and only if such amounts exist |
| PoolProofs.FirstProvisionMeaning | contracts/liquidity_pool/src/lib.rs:163-198 | a first provision mints floor(√(a·b)) − 1000 and requires amounts of equal sign |
| PoolProofs.RemovalMeaning | contracts/liquidity_pool/src/lib.rs:228-249 | a removal burns a positive held amount and pays the floors of the proportional reserves; removing everything leaves nothing |
| PoolProofs.RemovalExactly | contracts/liquidity_pool/src/lib.rs:218-257 | a removal pays (a, b) and leaves the state so if and only if the shares are held, a and b are the positive floors of their part of the reserves and the products fit |
| PoolProofs.StepKeepsShareValue | contracts/liquidity_pool/src/lib.rs:146-331 | while shares are outstanding no call lowers ReserveA·ReserveB/T² |
| PoolProofs.FirstProvisionSucceedsExactly | contracts/liquidity_pool/src/lib.rs:146-216 | a first provision succeeds exactly when its minima are met, its product lies between 1001² and half the i128 range, whatever the signs, and the reserves have room |
| PoolProofs.StepKeepsInvExactly | contracts/liquidity_pool/src/lib.rs:146-331 | a call keeps T² ≤ A·B, reserves in 0..i128 maximum and Σ positions = T if and only if it is not a first provision of two negative amounts that meets those conditions |
| PoolProofs.RunKeepsInv | contracts/liquidity_pool/src/lib.rs:146-331 | the invariant holds after every run without such a provision |
| PoolProofs.ReachableStatesAreBacked | contracts/liquidity_pool/src/lib.rs:100-331 | every such reachable state satisfies the invariant |
| PoolProofs.SharesAreBacked | contracts/liquidity_pool/src/lib.rs:146-331 | positive T implies both reserves positive |
| PoolProofs.RunKeepsShareValue | contracts/liquidity_pool/src/lib.rs:146-331 | over any run that keeps shares outstanding, A·B/T² never decreases from start to end |
| PoolProofs.NegativeProvisionIsAccepted | contracts/liquidity_pool/src/lib.rs:146-216 | the input −2000, −2000 is accepted by an empty pool and leaves negative reserves |
| PoolProofs.OneWayRunKeepsNetProduct | contracts/liquidity_pool/src/lib.rs:287-305 | any one-way run of swaps keeps the net product of everything it took in |
| PoolProofs.SplittingNeverPays | contracts/liquidity_pool/src/lib.rs:287-305 | any number of one-way swaps pays out at most what one swap of their total pays |
| PoolProofs.TradingNeverDrains | contracts/liquidity_pool/src/lib.rs:263-331 | over any mix of swaps in both directions the reserves' product never falls, and neither reserve ends lower unless the other ends higher |
| PoolProofs.SwapRoundTripNeverGains | contracts/liquidity_pool/src/lib.rs:287-305 | swapping there and back returns at most the input, strictly less if and only if the input side was not empty |
| PoolProofs.ProvideThenRedeemNeverGains | contracts/liquidity_pool/src/lib.rs:163-256 | redeeming the minted shares returns at most the deposit of a token if and only if shares existed before or none of that token was left over |
| PoolProofs.LeftoversGoToTheNextProvider | contracts/liquidity_pool/src/lib.rs:146-305 | a concrete run in which a provider deposits 2000 and redeems 7000 |
| PoolProofs.HistoryExplainsReserves | contracts/liquidity_pool/src/lib.rs:298-323 | each history record has opposite tokens, a positive amount and the floored 0.3% fee, and the history with the liquidity flows accounts for both reserves in every reachable state |
| PoolProofs.PositionsAreOwnShares | contracts/liquidity_pool/src/lib.rs:188-249 | each position is what its provider's own calls minted less what they burned; the locked 1000 is recorded and is never part of the total |
| Vesting.VestedAsPromised | contracts/token/src/lib.rs:694-745 | the formula answers v if and only if the schedule's fields promise it: 0 before the cliff, all from the end on, between them floor(total·elapsed/duration), or floor(total·k/n) for the largest number k ≤ n of whole steps of length floor(duration/n) elapsed (0 for steps without length), products within i128 |
| Vesting.VestedWithinTotal | contracts/token/src/lib.rs:694-745 | 0 ≤ vested ≤ total |
| Vesting.VestedNeverDecreases | contracts/token/src/lib.rs:694-745 | vested amounts never decrease with the ledger, across cliff, end, zero steps and more steps than ledgers |
| Vesting.SmallTotalsNeverAbort | contracts/token/src/lib.rs:694-745 | if total·2³² fits i128 no ledger makes the formula abort |
| Vesting.FullyVestedBeforeEnd | contracts/token/src/lib.rs:720-743 | exactly when everything is vested before the end ledger |
| Vesting.LaterEndVestsNoMoreExactly | contracts/token/src/lib.rs:540-565 | moving the end of a schedule of either type later vests no more, except exactly when it had fewer ledgers than steps before its end, has enough with the new one, and the completed steps are worth something |
| Vesting.LaterEndCanVestMore | contracts/token/src/lib.rs:720-743 | a concrete stepped schedule in which a later end vests 400 instead of 0 |
| Vesting.ClaimedWithinVestedExactly | contracts/token/src/lib.rs:694-745 | claimed ≤ vested if and only if nothing is claimed before the cliff, claimed·whole ≤ total·done before the end, and always from the end on, for both types |
| Vesting.OverflowLastsToTheEnd | contracts/token/src/lib.rs:694-745 | a formula that aborts on overflow keeps aborting until the end ledger |
| Vesting.FirstVersionIsLinear | contracts/token/src/lib.rs:671-692 | the first formula is the linear case of the second and stays within the total |
| Vesting.FirstVersionNeverDecreases | contracts/token/src/lib.rs:671-692 | the first formula never decreases with the ledger |
| Token.TokenContract.Issue | contracts/token/src/lib.rs:638-661 | crediting a balance and the supply happens entirely or not at all |
| Token.TokenContract.Destroy | contracts/token/src/lib.rs:222-248 | debiting balance, supply and burn statistics happens entirely or not at all |
| Token.TokenContract.Shift | contracts/token/src/lib.rs:299-303 | moving an amount, to oneself included, happens entirely or not at all |
| Token.TokenContract.Mint | contracts/token/src/lib.rs:202-212 | makes exactly the transition MintSpec |
| Token.TokenContract.Burn | contracts/token/src/lib.rs:218-248 | makes exactly the transition BurnSpec |
| Token.TokenContract.BurnFrom | contracts/token/src/lib.rs:250-289 | makes exactly the transition BurnFromSpec, characterized by BurnFromExactly, restoring the allowance on abort |
| Token.TokenContract.Transfer | contracts/token/src/lib.rs:295-309 | makes exactly the transition TransferSpec |
| Token.TokenContract.Approve | contracts/token/src/lib.rs:315-325 | makes exactly the transition ApproveSpec |
| Token.TokenContract.TransferFrom | contracts/token/src/lib.rs:334-355 | makes exactly the transition TransferFromSpec, characterized by TransferFromExactly |
| Token.TokenContract.CreateVesting | contracts/token/src/lib.rs:362-390 | makes exactly the transition CreateVestingSpec |
| Token.TokenContract.ClaimVesting | contracts/token/src/lib.rs:393-419 | makes exactly the transition ClaimVestingSpec, restoring the schedule on abort |
| Token.TokenContract.CreateVestingV2 | contracts/token/src/lib.rs:441-489 | makes exactly the transition CreateVestingV2Spec |
| Token.TokenContract.ClaimVestingV2 | contracts/token/src/lib.rs:491-517 | makes exactly the transition ClaimVestingV2Spec |
| Token.TokenContract.ModifyVestingV2 | contracts/token/src/lib.rs:540-565 | makes exactly the transition ModifyVestingV2Spec |
| Token.TokenContract.CreateAirdrop | contracts/token/src/airdrop.rs:28-63 | makes exactly the transition CreateAirdropSpec |
| Token.TokenContract.ClaimAirdrop | contracts/token/src/airdrop.rs:65-120 | makes exactly the transition ClaimAirdropSpec, the mint of the caller included |
| Token.TokenContract.RecoverUnclaimed | contracts/token/src/airdrop.rs:122-148 | makes exactly the transition RecoverUnclaimedSpec |
| Token.TokenContract.MintReward | contracts/token/src/lib.rs:619-632 | makes exactly the transition MintRewardSpec, lock included |
| TokenProofs.ReachableStatesBalance | contracts/token/src/lib.rs:202-669 | in every reachable state Σ balances = supply in 0..MAX_SUPPLY, balances are non-negative, supply = ever minted − burned, every balance is the net of the published events, schedules are valid, campaigns add up |
| TokenProofs.StepKeepsInv | contracts/token/src/lib.rs:202-669 | each of the sixteen kinds of call keeps that invariant |
| TokenProofs.MintSucceedsExactly | contracts/token/src/lib.rs:202-212 | a mint succeeds exactly when positive and within the cap |
| TokenProofs.TransferSucceedsExactly | contracts/token/src/lib.rs:295-309 | a transfer succeeds exactly when positive and covered, so its addition never overflows, and changes just the two balances |
| TokenProofs.BurnSucceedsExactly | contracts/token/src/lib.rs:218-248 | a burn succeeds exactly when positive, covered and the counter has room; the burned total never overflows |
| TokenProofs.ClaimV2Effect | contracts/token/src/lib.rs:491-517 | a successful claim leaves claimed equal to the amount vested now and mints the difference |
| TokenProofs.ClaimEffect | contracts/token/src/lib.rs:393-419 | the same for a first-version schedule |
| TokenProofs.StepOnSchedule | contracts/token/src/lib.rs:441-565 | only its own claims raise a schedule's claimed amount, nothing lowers it, and its terms stay but for the end ledger |
| TokenProofs.StepOnMissingSchedule | contracts/token/src/lib.rs:441-489 | a schedule only appears as the admin created it, starting at the current ledger with nothing claimed |
| TokenProofs.ClaimedIsMinted | contracts/token/src/lib.rs:441-565 | in every reachable state a schedule has claimed exactly what it minted, at most its total, under any mix of claims and modifications |
| TokenProofs.ClaimsTelescope | contracts/token/src/lib.rs:491-517 | right after a successful claim everything the schedule minted is the amount vested at that ledger |
| TokenProofs.FirstVersionClaimedIsMinted | contracts/token/src/lib.rs:362-419 | a first-version schedule has claimed what it minted since it was created, at most its total |
| TokenProofs.FirstVersionClaimsTelescope | contracts/token/src/lib.rs:393-419 | its claims sum to the vested amount at the last claim |
| TokenProofs.ClaimSucceedsExactly | contracts/token/src/lib.rs:491-517 | a claim succeeds exactly when the schedule exists, more is vested than claimed and the cap leaves room |
| TokenProofs.StepKeepsWithinVestedExactly | contracts/token/src/lib.rs:441-565 | a call of any kind keeps a schedule's claims within the vested amount if and only if it is not an admin's change of its end to terms that no longer cover them |
| TokenProofs.ClaimedStaysWithinVested | contracts/token/src/lib.rs:441-565 | after every run without such a change no schedule has claimed more than is vested |
| TokenProofs.LaterEndUndercutsClaims | contracts/token/src/lib.rs:540-565 | a run of create, claim and modify after which 500 are claimed and 50 vested |
| TokenProofs.ClaimAirdropKeepsInv | contracts/token/src/airdrop.rs:65-120 | after a paid claim the campaign's claimed amount is still the sum over its distinct claimants and at most its total |
| TokenProofs.RecoveredIsTheRest | contracts/token/src/airdrop.rs:122-148 | recovery works exactly after expiry and reports the total less what distinct claimants were paid, never negative |
| TokenProofs.SpendersStayWithinApproval | contracts/token/src/lib.rs:250-355 | every allowance is the last approval less what the spender moved or burned since, and never negative |
| TokenProofs.RewardsAreMintedOnce | contracts/token/src/lib.rs:619-632 | in every reachable state at most one reward was minted, and another succeeds if and only if none was, the caller is the admin, the amount is positive and the cap leaves room |
| TokenCalls.CallsSucceedExactly | contracts/token/src/lib.rs:202-669 | for each of the sixteen kinds of call, the exact condition on the state and the call under which it succeeds |
| TokenCalls.ClaimAirdropSucceedsExactly | contracts/token/src/airdrop.rs:65-120 | an airdrop claim succeeds exactly when the campaign exists and runs, the recipient was not paid, the proof is valid and its total and the cap leave room |
| TokenCalls.TransferFromExactly | contracts/token/src/lib.rs:334-355 | succeeds if and only if positive, covered and approved; then the holder loses and the named receiver gains the amount, that allowance shrinks by it and nothing else changes |
| TokenCalls.BurnFromExactly | contracts/token/src/lib.rs:250-289 | succeeds if and only if positive, covered, approved and the counter has room; then that balance, that allowance, the supply and the burn statistics change by it and nothing else |
| TokenCalls.StepMovesBalances | contracts/token/src/lib.rs:202-669 | every call changes balances, supply and burn statistics by what it should publish, told from the call: who is credited and who is debited, vesting and airdrop claims included |
| TokenCalls.BalancesFollowCalls | contracts/token/src/lib.rs:202-669 | in every reachable state the published events are those the accepted calls should publish, and every balance is their net |
| TokenCalls.TermsFollowCalls | contracts/token/src/lib.rs:441-565 | in every reachable state a beneficiary's schedules are numbered by creation, with the terms of their creation and the end of their last accepted modification |
| TokenCalls.FirstTermsFollowCalls | contracts/token/src/lib.rs:362-390 | a first-version schedule has the terms of the beneficiary's last accepted creation |
| TokenCalls.CampaignsFollowCalls | contracts/token/src/airdrop.rs:28-120 | in every reachable state the campaigns are those opened, under their numbers and terms, each having paid the sum of its claims |
| Prerequisites.PrerequisitesService.GetPrerequisiteChain | apps/backend/src/courses/prerequisites.service.ts:52-70 | terminates on every graph, cycles included; its keys are exactly the reachable courses, each expanded once, mapped to its direct prerequisites and inserted in order of their distance from the course |
| Prerequisites.Distance | apps/backend/src/courses/prerequisites.service.ts:51-70 | the length of the shortest walk along prerequisite rows, defined for exactly the reachable courses |
| Prerequisites.ReachesIsWithin | apps/backend/src/courses/prerequisites.service.ts:57-67 | a course is reachable if and only if some number of rows leads to it, which links the chain's contents to its order |
| Prerequisites.PrerequisitesService.PushUnvisited | apps/backend/src/courses/prerequisites.service.ts:64-66 | pushes exactly the prerequisites not visited yet, in order |
| Prerequisites.EmptyQueueMeansDone | apps/backend/src/courses/prerequisites.service.ts:57-69 | when the queue is empty exactly the reachable courses were visited |
| Prerequisites.VisitKeepsDistanceOrder | apps/backend/src/courses/prerequisites.service.ts:57-67 | the next course visited is no nearer than any visited before |
| Prerequisites.PrerequisitesService.AddPrerequisite | apps/backend/src/courses/prerequisites.service.ts:24-36 | exactly when each error is raised; otherwise one row is appended; rows stay distinct and never self-referring |
| Prerequisites.PrerequisitesService.RemovePrerequisite | apps/backend/src/courses/prerequisites.service.ts:38-42 | removes exactly that row or reports it missing, and undoes the last addition |
| Prerequisites.DirectIsRows | apps/backend/src/courses/prerequisites.service.ts:44-49 | the query for a course returns exactly the rows of that course, each as often as it is stored |
| Prerequisites.DirectKeepsOrder | apps/backend/src/courses/prerequisites.service.ts:44-49 | the answers for two stretches of rows follow one another, so they come in row order |
| Prerequisites.ValidationIsExact | apps/backend/src/courses/prerequisites.service.ts:73-97 | a user passes exactly when overridden or with no direct prerequisite lacking, and the missing list is exactly the lacking ones |
| Prerequisites.MissingIsListedOnce | apps/backend/src/courses/prerequisites.service.ts:73-97 | under the unique constraint every lacking prerequisite is listed once |
| Prerequisites.StatusAgreesWithValidation | apps/backend/src/courses/prerequisites.service.ts:110-139 | with unique enrollments the status view gives the same verdict, entry by entry, and shows an entry as enrolled exactly when the user has an enrollment in it |
| Assignments.AssignCircularly | apps/backend/src/assignments/assignments.service.ts:100-112 | the nested loops with their modular index build the circular pairs |
| Assignments.ForwardIsModular | apps/backend/src/assignments/assignments.service.ts:106 | stepping around the circle is addition modulo n |
| Assignments.AllPairsDiffer | apps/backend/src/assignments/assignments.service.ts:96-113 | there are 3n pairs, all different |
| Assignments.EveryAuthorReviewsThree | apps/backend/src/assignments/assignments.service.ts:96-113 | author i reviews exactly the submissions i+1, i+2 and i+3 modulo n, three different ones |
| Assignments.EverySubmissionGetsThree | apps/backend/src/assignments/assignments.service.ts:96-113 | every submission gets exactly three different reviewers, none its author |
| Assignments.ThreeSubmissionsAreTooFew | apps/backend/src/assignments/assignments.service.ts:96-98 | with three submissions everybody would review their own |
| Assignments.AssignmentsService.AssignReviewers | apps/backend/src/assignments/assignments.service.ts:90-126 | which outcome occurs exactly when, and the whole review table after each, the cleared rows of a refused save included |
| Assignments.AssignmentIsBalanced | apps/backend/src/assignments/assignments.service.ts:114-125 | after every saved assignment a submission's reviewers are its three circular ones and those who had handed in a review of it, which are others and stay handed in; there are exactly three if and only if nobody had |
| Assignments.AssigningAgainChangesNothing | apps/backend/src/assignments/assignments.service.ts:114-125 | after every saved assignment, assigning again is accepted and changes nothing |
| Assignments.OtherSubmissionsKeepReviewers | apps/backend/src/assignments/assignments.service.ts:119-123 | submissions of other assignments keep their reviewers and what was handed in |
| CertificatePdf.CertificatePdfService.BuildPdf | apps/backend/src/credentials/certificate-pdf.service.ts:38-66 | writes exactly the file of the five objects for the content |
| CertificatePdf.CertificatePdfService.Assemble | apps/backend/src/credentials/certificate-pdf.service.ts:47-65 | the two loops with remembered offsets write body, table and trailer of any list of objects |
| PdfReader.EntryReads | apps/backend/src/credentials/certificate-pdf.service.ts:59-61 | a table entry is 20 bytes and reads back as its offset (section 7.5.4 of ISO 32000-1) |
| PdfReader.EntryIsTwentyBytesExactly | apps/backend/src/credentials/certificate-pdf.service.ts:59-61 | an entry keeps its 20 bytes if and only if the offset is below 10^10 |
| PdfReader.CertificateOffsetsFit | apps/backend/src/credentials/certificate-pdf.service.ts:39-53 | the five recorded offsets fit for every content, because each object starts before the content does |
| PdfReader.StartxrefReads | apps/backend/src/credentials/certificate-pdf.service.ts:55-63 | startxref read from the end of the file is the position of the table (section 7.5.5) |
| PdfReader.TableReads | apps/backend/src/credentials/certificate-pdf.service.ts:55-61 | the table found there reads as the free entry and one in-use entry per object |
| PdfReader.SeekFindsObject | apps/backend/src/credentials/certificate-pdf.service.ts:50-61 | following entry k leads to the first byte of object k |
| PdfReader.FileRoundTrip | apps/backend/src/credentials/certificate-pdf.service.ts:38-66 | a reader recovers the content of every written file, /Length bytes after the stream keyword (section 7.3.8) |
| PdfText.ThreePassesAreOne | apps/backend/src/credentials/certificate-pdf.service.ts:68-70 | the three successive replacements are the one-pass escape |
| PdfText.EscapeRoundTrip | apps/backend/src/credentials/certificate-pdf.service.ts:68-70 | a literal-string reader ends at the matching parenthesis and returns the text if and only if it has no carriage return (section 7.3.4.2) |
| PdfText.StreamShowsTexts | apps/backend/src/credentials/certificate-pdf.service.ts:25-33 | the strings of the content stream are the lines' texts, in order, with line ends normalized |
| PdfPage.RootReads | apps/backend/src/credentials/certificate-pdf.service.ts:55-63 | the trailer after the table names object 1 as the catalogue (section 7.5.5) |
| PdfPage.PageRoundTrip | apps/backend/src/credentials/certificate-pdf.service.ts:38-66 | a reader that starts at the end of the file goes from the trailer to the catalogue, the page tree, its first page and that page's content stream, and recovers any content (section 7.7) |
| PdfLines.PageLinesRead | apps/backend/src/credentials/certificate-pdf.service.ts:25-33 | every content stream reads back as its lines with their sizes and positions, line ends normalized |
| PdfLines.CertificateReadsBack | apps/backend/src/credentials/certificate-pdf.service.ts:6-36 | end to end, the file of a credential reads back as the ten lines it should say, each in its size and place, with the first given of username, e-mail and user id as recipient, if and only if no printed field has a carriage return |
| Governance.GovernanceContract.CreateProposal | contracts/governance/src/lib.rs:114-152 | makes exactly the transition CreateProposalSpec |
| Governance.GovernanceContract.Vote | contracts/governance/src/lib.rs:158-209 | makes exactly the transition VoteSpec |
| Governance.GovernanceContract.ExecuteProposal | contracts/governance/src/lib.rs:215-241 | makes exactly the transition ExecuteProposalSpec |
| Governance.GovernanceContract.ProposeUpgrade | contracts/governance/src/lib.rs:247-293 | makes exactly the transition ProposeUpgradeSpec |
| Governance.GovernanceContract.VoteUpgrade | contracts/governance/src/lib.rs:295-342 | makes exactly the transition VoteUpgradeSpec |
| Governance.GovernanceContract.ApproveUpgrade | contracts/governance/src/lib.rs:344-373 | makes exactly the transition ApproveUpgradeSpec |
| Governance.GovernanceContract.ExecuteUpgrade | contracts/governance/src/lib.rs:375-412 | makes exactly the transition ExecuteUpgradeSpec, undoing the mark when the call fails |
| GovernanceProofs.ReachableStatesAreSafe | contracts/governance/src/lib.rs:114-412 | in every reachable state no id is both a proposal and an upgrade, whatever was executed passed after voting ended, an executed upgrade was approved and its timelock is over, and upgrade calls were issued exactly once for exactly the executed upgrades |
| GovernanceProofs.StepKeepsInv | contracts/governance/src/lib.rs:114-412 | each kind of call keeps that invariant |
| GovernanceProofs.TalliesAreSums | contracts/governance/src/lib.rs:127-342 | each tally is the sum of the balances read when its votes were cast, and no voter is counted twice on an id |
| GovernanceProofs.VotesFollowCalls | contracts/governance/src/lib.rs:158-342 | the record of a vote says what the voter's accepted vote said |
| GovernanceProofs.CallsSucceedExactly | contracts/governance/src/lib.rs:114-412 | for each kind of call, the exact condition under which it succeeds: deadlines, single votes with power that the tally has room for, majorities, timelocks |
| GovernanceProofs.TermsFollowCalls | contracts/governance/src/lib.rs:114-293 | in every reachable state ids are numbered in the order of accepted proposing, proposals and upgrades together, and the terms under each are those it was proposed with |
| GovernanceProofs.MarksFollowCalls | contracts/governance/src/lib.rs:215-412 | a proposal or upgrade is marked executed if and only if exactly one accepted call executed it, and approved if and only if one approved it |
| GovernanceProofs.ProposalTallyIsFrozen | contracts/governance/src/lib.rs:158-241 | once voting on a proposal has ended its tallies and terms never change and its execution is never taken back |
| GovernanceProofs.TallyIsFrozen | contracts/governance/src/lib.rs:304-412 | once voting on an upgrade has ended its tallies and terms never change, and approval and execution are never taken back |
| GovernanceProofs.ExecutionWaitsForTimelock | contracts/governance/src/lib.rs:375-412 | an upgrade can be executed exactly when approved, not yet executed and from its timelock on |
| GovernanceProofs.ApprovedUpgradeWaitsExactly | contracts/governance/src/lib.rs:344-412 | for every d: no run after an approval executes the upgrade within d ledgers of it, if and only if d is 0 or the timelock given at proposal lies at least d ledgers after the approval |
| GovernanceProofs.InitializedDelayHasNoEffect | contracts/governance/src/lib.rs:82-108 | two contracts initialized with different delays stay equal but for that number under every run |
| GovernanceProofs.LateApprovalCutsDelay | contracts/governance/src/lib.rs:247-412 | a run in which an upgrade is approved at ledger 1150 and its call issued at 1160 under an initialized delay of 50 |
| Forums.ForumsService.VotePost | apps/backend/src/forums/forums.service.ts:108-117 | a missing post is refused, otherwise the request is applied and the counters returned |
| Forums.ForumsService.VoteReply | apps/backend/src/forums/forums.service.ts:119-128 | the same for replies |
| Forums.ForumsService.Apply | apps/backend/src/forums/forums.service.ts:130-171 | the branches make exactly the transition ApplyVote |
| Forums.ApplyKeepsCounts | apps/backend/src/forums/forums.service.ts:142-168 | counters stay equal to the recount of the records, and a counter to be lowered is positive, so the clamp never takes effect |
| Forums.ApplyLeavesOthers | apps/backend/src/forums/forums.service.ts:130-171 | other targets keep their counters and their agreement |
| Forums.RecordsAreLastRequests | apps/backend/src/forums/forums.service.ts:138-168 | a user's record on a target is exactly their last request on it |
| Forums.CountersCountLastRequests | apps/backend/src/forums/forums.service.ts:108-171 | after any sequence of requests the counters are the numbers of users whose last request was up, respectively down |
| Analytics.AnalyticsContract.RecordProgress | contracts/analytics/src/lib.rs:114-174 | makes exactly the transition RecordSpec; RecordsFollowCalls says what storage then holds |
| Analytics.AnalyticsContract.CheckMilestones | contracts/analytics/src/lib.rs:247-282 | the loop over the thresholds awards and stamps them |
| Analytics.AnalyticsContract.SetAdmin | contracts/analytics/src/lib.rs:98-102 | makes exactly the transition SetAdminSpec |
| Analytics.AnalyticsContract.ResetProgress | contracts/analytics/src/lib.rs:177-201 | makes exactly the transition ResetSpec |
| Analytics.AnalyticsContract.GetAllProgress | contracts/analytics/src/lib.rs:218-241 | collects the records of the indexed courses in order |
| Analytics.AnalyticsContract.GetProgressPaginated | contracts/analytics/src/lib.rs:429-447 | answers the page of the listing, and aborts exactly when the end index overflows |
| AnalyticsProofs.RunKeepsIndex | contracts/analytics/src/lib.rs:144-200 | in every reachable state a student's index lists each recorded course once and no other, and records are consistent |
| AnalyticsProofs.RecordsFollowCalls | contracts/analytics/src/lib.rs:98-201 | in every reachable state a student has a record of a course if and only if some accepted one was neither replaced nor reset since, and it holds that call's percentage, completion and time |
| AnalyticsProofs.IndexFollowsCalls | contracts/analytics/src/lib.rs:144-200 | the index lists the courses in the order they were first recorded since their last reset |
| AnalyticsProofs.AdminFollowsCalls | contracts/analytics/src/lib.rs:89-102 | the admin is the one a former admin named last |
| AnalyticsProofs.CallsSucceedExactly | contracts/analytics/src/lib.rs:98-201 | records succeed exactly for the student or the admin with 0 to 100 percent, resets and changes of admin exactly for the admin |
| AnalyticsProofs.AllProgressIsComplete | contracts/analytics/src/lib.rs:218-241 | the full listing has one record per recorded course and misses none |
| AnalyticsProofs.PagesCoverAll | contracts/analytics/src/lib.rs:429-447 | n calls for successive pages of one size all succeed if and only if size·n is a 32-bit index, and together they are the full listing if and only if it is also at least the listing's length |
| AnalyticsProofs.MilestonesFollowHighest | contracts/analytics/src/lib.rs:98-282 | achieved milestones are exactly the thresholds up to the highest progress ever accepted, in increasing order, resets and changes of admin included |
| AnalyticsProofs.MilestonesKeepFirstTime | contracts/analytics/src/lib.rs:256-267 | a milestone record carries the time it was first reached, whatever follows |
| Nft.NftContract.MintCourseNft | contracts/nft/src/lib.rs:58-123 | makes exactly the transition MintSpec |
| Nft.NftContract.TransferNft | contracts/nft/src/lib.rs:125-176 | makes exactly the transition TransferSpec, self-transfer included; OwnersFollowCalls and ListsFollowCalls say what storage then holds |
| Nft.NftContract.GrantAccess | contracts/nft/src/lib.rs:178-197 | makes exactly the transition GrantSpec |
| Nft.NftContract.RevokeAccess | contracts/nft/src/lib.rs:199-218 | makes exactly the transition RevokeSpec |
| Nft.NftContract.Without | contracts/nft/src/lib.rs:151-156 | the search loop removes the first occurrence of the id |
| Nft.TransferKeepsLists | contracts/nft/src/lib.rs:149-165 | a transfer, to oneself included, keeps each id once in its owner's list and nowhere else |
| Nft.OwnershipAgrees | contracts/nft/src/lib.rs:58-218 | after any run owner entry, metadata and lists agree and the minted ids are exactly 0..NextNFTId−1 |
| Nft.ListIsOwned | contracts/nft/src/lib.rs:239-244 | an account's list shows exactly the ids it owns, each once |
| Nft.OwnersFollowCalls | contracts/nft/src/lib.rs:58-176 | in every reachable state the owner of an id is the receiver of its last accepted transfer, or its minted owner if there was none, recomputed from the calls; metadata and royalty are those of its mint |
| Nft.CallsSucceedExactly | contracts/nft/src/lib.rs:58-218 | a transfer, grant or revocation succeeds if and only if its caller is the owner the calls make out; a mint for the admin within the royalty bound while ids last |
| Nft.ListsFollowCalls | contracts/nft/src/lib.rs:58-176 | an account's list is the ids it holds in the order it got them |
| Nft.AccessIsLastGiven | contracts/nft/src/lib.rs:58-225 | in every reachable state an account has access to a token if and only if some mint, transfer or grant gave it and no later revocation by the token's owner took it |
| Nft.OwnersLoseAccessByTheirOwnHand | contracts/nft/src/lib.rs:178-218 | in every reachable state an owner without access revoked its own |

## Left out

- Pool: `claim_mining_rewards`, which computes one number from a position and pays nothing; `get_pool_stats` and `get_swap_history`, which only read; and the enable flags, which no entry point changes.
- Pool events and the actual token transfers, which the source leaves as comments.
- Token: `staking.rs`; restaking overwrites the record while the total grows, so its natural sum is not what the code keeps.
- Airdrop: the Merkle proof is a yes-or-no parameter of the claim; its demo hash is not modelled.
- Token: metadata queries and `get_vesting_analytics`, whose record nothing writes.
- Storage TTL extension and event publishing, except the token events from which the books are recomputed.
- Schedules, campaigns and approvals hold their integers in i128 and u32; amounts passed to the other entry points are unbounded integers, which covers every machine value.
- Governance: `voting.rs` (delegation and quorum), which the contract in `lib.rs` does not call; a second `initialize` and one with a delay of 0, which abort before anything is stored.
- Forums: posts, replies and moderation around the votes; a target is created with zero counters.
- Analytics: aggregates, period statistics, top performers and the one-line filters over the full listing.
- NFT: the royalty query and the price that is only published.
- Prerequisites: course rows other than their ids, and the `enforcePrerequisites` wrapper that only throws.
- Assignments: submitting and grading; averages are floating point.
- PDF reader: it finds a dictionary entry by its name in the text of an object; general tokenization, compression and incremental updates, which the writer never uses, are left out.
- Requests of one service are atomic; interleavings inside a request depend on database isolation.
