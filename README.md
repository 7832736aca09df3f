# Quiz attempts and the reward-coin economy

A model of the stateful core of a quiz web application. Users take tests
(sets of questions with one or more answers each), are scored, earn coins
for a first pass, and spend coins on a cosmetic name colour.

The database is one object, `Database.Db`. Its tables are sequences and
maps: colours, users, wallets, tests, answers and attempts. Each attempt
carries its answer slots. A ghost log records every reward paid. `Db.Valid()`
gathers the constraints the schema and the views keep:

- every wallet has `current_sum <= total_won`, and belongs to one existing user;
- colour hex codes are unique and at most six characters long;
- every attempt has one slot per question of its test, in order;
- a user has at most one open attempt per test;
- an open attempt has not succeeded;
- a finished attempt carries the score of its slots;
- no (user, test) pair is ever rewarded twice, and a rewarded pair has a successful attempt.

Every operation below is proved to keep `Valid()`.

- `CoreViews.TestDetailView` is the test page, one object per request. Its
  fields are the ones the view sets on itself as it goes. `Get` and `Post`
  start or resume the open attempt. They then serve the first unanswered
  slot, or score the attempt: the percentage, the pass decision, and the
  prize on a first pass. `Post` also binds a valid answer to the served slot.
- `UsersViews` holds signup (a user plus an empty wallet), the personal
  page's colour offer, the colour purchase, and the leaderboard's order and
  pages.
- `UsersModels` and `CoreModels` hold the entities and the pure rules: wallet
  updates, the default-colour lookup, slot selection, scoring, and the table
  invariants with the lemmas that the updates preserve them.

The entity shapes of the quiz app are taken from `testcases/core/views.py`
and the test fixtures. `testcases/core/models.py` is an older snapshot that
lacks `Attempt`, `TestingData` and `Test.percent_success`, so it is not part
of this model.

## Model

| member | source | states |
|---|---|---|
| UsersModels.NewWallet | testcases/users/models.py:94-101 | a new wallet has `total_won = 0` and `current_sum = 0` and meets the check constraint |
| UsersModels.Credit | testcases/core/views.py:169-174 | a reward raises both counters by the prize; `current_sum <= total_won` is preserved and the amount spent is unchanged |
| UsersModels.Debit | testcases/users/views.py:67-70 | a purchase lowers `current_sum` by exactly the cost, leaves `total_won` alone and keeps the constraint |
| UsersModels.ColorByPk | testcases/users/views.py:66 | the colour lookup finds the colour with that key, and finds nothing (404) iff no such colour exists |
| UsersModels.DefaultPk | testcases/users/models.py:32-38 | get-or-create of colour D8BFD8 at cost 0: returns the existing one unchanged, inserts it only when its hex code is free, fails when the hex is taken at another cost; the colour constraints survive |
| UsersModels.DefaultPkIdempotent | testcases/users/models.py:32-38 | a second call after a successful one returns the same key and inserts nothing |
| CoreModels.BuildSlots | testcases/core/views.py:133-138 | the slots made for a new attempt are one per question of the test, in order, each unanswered |
| CoreModels.FreshSlotsAllEmpty | testcases/core/views.py:133-138 | a new attempt of a test with N questions has exactly N empty slots |
| CoreModels.FirstEmpty | testcases/core/views.py:112-120 | the served slot is unanswered and every earlier slot is answered; none is served iff every slot is answered |
| CoreModels.NoEmptyIffFinished | testcases/core/views.py:113-119 | the attempt goes to scoring exactly when its count of empty slots is zero |
| CoreModels.AnsweringProgresses | testcases/core/views.py:84-87 | binding an answer to an empty slot leaves exactly one empty slot fewer |
| CoreModels.CountCorrect | testcases/core/views.py:141-146 | the correct count is at most the slot count; it equals it iff every slot is correct and is 0 iff none is |
| CoreModels.Percent | testcases/core/views.py:147-151 | the result is 0 with no slots, else result × total = correct × 100; it lies in [0, 100] |
| CoreModels.PassesIffCrossMultiplied | testcases/core/views.py:160-163 | success (pass mark ≤ result, boundary included) iff `percent_success * total <= correct * 100`, or pass mark 0 when there are no slots |
| CoreModels.OneCorrectOfOne | testcases/core/tests/test_views.py:159-173 | one correct answer out of one gives result 100 and success at a pass mark of 50 |
| CoreModels.HalfCorrectPassesAtFifty | testcases/core/views.py:147-163 | one correct out of two gives result 50, which passes a pass mark of 50 |
| CoreModels.FindOpen | testcases/core/views.py:127-132 | the lookup finds an open attempt of this user at this test, or reports that none exists |
| CoreModels.OpenPreservesValid | testcases/core/views.py:127-138 | creating an attempt when none is open keeps the attempt table valid, with one open attempt per pair, and changes no success |
| CoreModels.AnswerPreservesValid | testcases/core/views.py:80-87 | binding an answer in an open attempt keeps the table valid and changes no success |
| CoreModels.FinalizePreservesValid | testcases/core/views.py:160-164 | scoring an open attempt keeps the table valid; the successes become the old ones plus this attempt's if it passed |
| CoreModels.RewardOnce | testcases/core/views.py:155-167 | paying a pair that had no successful attempt before keeps the reward log valid: that pair was never paid before |
| CoreModels.CreditOwner | testcases/core/views.py:170-173 | the wallet update touches only the user's wallet, adds the prize to both counters, is a no-op without a wallet, and keeps every wallet's constraint |
| Database.Db.GetDefaultColorPk | testcases/users/models.py:32-38 | the method leaves the colour table and returns the key exactly as `DefaultPk` says, keeping the database valid |
| Database.Db.CreateColor | testcases/users/models.py:8-15 | a colour is inserted iff its hex code has at most six characters and is not taken yet |
| CoreViews.TestDetailView.GetTestingData | testcases/core/views.py:122-138 | 404 iff the test is missing; otherwise the open attempt is resumed unchanged, or a new one is appended with one empty slot per question |
| CoreViews.TestDetailView.GetQueryset | testcases/core/views.py:112-120 | serves the question of the first empty slot and changes nothing, or scores the attempt when no slot is empty |
| CoreViews.TestDetailView.CreateTestingResult | testcases/core/views.py:140-152 | counts correct answers and slots over the attempt and turns them into the percentage, then records the attempt |
| CoreViews.TestDetailView.AddedAttemptsData | testcases/core/views.py:154-167 | re-passing is checked before saving; result and success are saved; the prize is paid iff the attempt passed and no earlier attempt of the user at this test succeeded |
| CoreViews.TestDetailView.GetCoinsInWallet | testcases/core/views.py:169-174 | the user's wallet, if any, gains the prize in both counters; the pair enters the reward log; the database stays valid |
| CoreViews.TestDetailView.Get | testcases/core/views.py:72-74 | 404 for a missing test; otherwise start or resume, then show the first unanswered question or the scored attempt |
| CoreViews.TestDetailView.Post | testcases/core/views.py:76-92 | a valid answer is bound to the served slot only, then redirect; an invalid form saves nothing; with no slot left, the attempt is scored and a valid form fails to save |
| UsersViews.SignUp | testcases/users/views.py:20-23 | a valid form adds exactly one user, with the default colour, and exactly one wallet at zero; the default-colour lookup runs even for an invalid form |
| UsersViews.OfferedColor | testcases/users/views.py:53-55 | the colour offered is in the table, dearer than the current one, and no dearer colour is cheaper; none iff no colour is dearer |
| UsersViews.UserMe | testcases/users/views.py:49-56 | the personal page offers `OfferedColor` for the cost of the user's colour, and fails when the user's colour is null |
| UsersViews.ChangeColor | testcases/users/views.py:64-73 | 404 for an unknown colour; with a wallet, the purchase goes through iff cost ≤ current_sum, debiting exactly the cost and assigning the colour, else nothing changes; the answer is a redirect to the personal page either way |
| UsersViews.Leaderboard | testcases/users/views.py:37 | the user list is a permutation of the users, ordered by `total_won` descending |
| UsersViews.NumPages | testcases/users/views.py:30 | pages of ten: the last page is non-empty unless there are no users, and there is always at least one page |
| UsersViews.PageSizes | testcases/users/views.py:30 | every page but the last holds exactly ten users, the last holds the rest |
| UsersViews.ItemOnItsPage | testcases/users/views.py:30 | the j-th user is on page j/10 + 1 at position j mod 10 |
| UsersViews.TwentyFourUsers | testcases/users/tests/test_views.py:286-299 | 24 users give pages of 10, 10 and 4, "last" is page 3, and pages 0 and 4 are not found |

## Left out

- The theme and test list views, the test search (it uses the database's regular-expression engine), templates and context keys, URL routing, the admin, login redirects and the error pages.
- The leaderboard's per-user attempt counts. They aggregate over a relation the attempt flow does not write, so only the ordering and the pages are modelled.
- Percent is exact `real` arithmetic. Python's float division can land just below an integer: 29/100*100 is 28.999999999999996. At that boundary the source can fail an attempt that the exact model passes.
- How the stored `result` column rounds the percentage is not modelled. The pass decision is taken on the unrounded value, as in the source.
- The upper bound 32767 of the small-integer columns is not modelled, because whether an overflow is refused depends on the database backend.
- Each counter update is one atomic step. Creating an attempt and bulk-creating its slots is one step too, so the row is never seen with no slots. Concurrent requests are not modelled.
- Tests, questions and answers are edited only through the admin, so they are fixed when the database is built. Deleting a colour (which clears the users' colour) is not modelled.
- `Attempt.success` of an open attempt is taken to be false. That is the default the views rely on: the re-pass check runs over all rows before the current one is saved.
- UsersViews.Leaderboard: users without a wallet are ranked below everyone, as a backend that sorts NULL lowest does. The order among users with equal totals is left open, as in the source.
- UsersViews.OfferedColor: among equally cheap dearer colours it picks the earliest row. The source leaves that tie to the database.
- Signup form validation (username, passwords, e-mail) is a boolean input.
- Every request comes from an existing user; anonymous access is not modelled.
