# LivingDex user tracker — a Dafny model

LivingDex keeps, for each registered user, one capture bit per species of a
fixed-size catalog (the Pokédex). A species is either `Caught` or `Uncaught`.
The user database registers users and hands each one to a database session,
which records it with `add` and then `commit`. It can catch or release a
species for a user, query the state of one species, and compare two users on
one species. The comparison gives one of four results: `NeitherCaught`,
`FirstCaught`, `SecondCaught` or `BothCaught`.

The implementation modules (`users.py`, `user.py`) are not part of this
model's sources. The behaviour modelled is the one the unit tests in
`test_user_operations.py` pin down, together with the fake session those
tests use.

Modules:

- `UserRecord` (`user_record.dfy`): the catalog size `N`, the two index
  conventions, the `User` record and a freshly created user. The size is not
  visible anywhere in the sources. The only thing known is that species 128
  exists, so `N` is an abstract constant of type `CatalogSize` (every
  `n >= 128`). Every proof holds for every such size.
- `DatabaseSession` (`database_session.dfy`): the fake session's observable
  state, which is the `things` log of added records plus the `didCommit`
  flag.
- `Users` (`users.dfy`): `CapturedState`, `ComparisonResult`, the
  per-user operations and the database operations through the session.
  Catch, release and `StateOf` take a 1-based catalog number. `Compare` takes
  a 0-based container index. Both conventions are kept exactly as observed.
  The Python operations mutate a user object that the session also holds.
  The model names that user by its position `k` in the session log and
  returns the session with that record replaced.
- `CaptureHistory` (`capture_history.dfy`): a run of catch and release calls
  on one user. No transition is ever refused and no history is kept. So the
  last call that names a species decides its state, and a species no call
  names keeps its state.
- `UserOperationsScenarios` (`user_operations_scenarios.dfy`): the test
  fixture (Ash registered, then Misty) and each test case as a lemma.

## Model

| member | source | states |
|---|---|---|
| UserRecord.NewUser | test_user_operations.py:57-62 | a new user covers the whole catalog, keeps the given identity fields and has no species caught |
| DatabaseSession.Empty | test_user_operations.py:8-10 | a new session has logged nothing and has not committed |
| DatabaseSession.Add | test_user_operations.py:13-14 | `add` makes the record the last entry of the log, keeps every earlier entry and leaves the commit flag alone |
| DatabaseSession.Commit | test_user_operations.py:11-12 | `commit` raises the flag and leaves the log untouched |
| DatabaseSession.CommitIdempotent | test_user_operations.py:11-12 | committing twice is the same as committing once |
| Users.StateOf | test_user_operations.py:55-71 | the state queried for 1-based catalog number n is Caught exactly when container slot n - 1 is set |
| Users.UserExtensionality | test_user_operations.py:50-71 | a user is fully determined by its identity fields and the state of every catalog number |
| Users.Catch | test_user_operations.py:50-56 | after catching species n, its state is Caught, every other species keeps its state and the identity is unchanged |
| Users.Uncatch | test_user_operations.py:63-71 | after releasing species n, its state is Uncaught, every other species keeps its state and the identity is unchanged |
| Users.NewUserCaughtNothing | test_user_operations.py:57-62 | a fresh user's state is Uncaught for every valid catalog number |
| Users.CatchIdempotent | test_user_operations.py:53-55 | catching a species twice leaves the user as catching it once |
| Users.UncatchIdempotent | test_user_operations.py:68-70 | releasing a species twice leaves the user as releasing it once |
| Users.UncatchAfterCatch | test_user_operations.py:63-71 | catch then release gives Uncaught, is the same as a plain release, and restores the original user when the species was uncaught |
| Users.CatchAfterUncatch | test_user_operations.py:63-71 | release then catch is the same as a plain catch, and restores the original user when the species was caught |
| Users.Classify | test_user_operations.py:76-99 | the result says the first user holds the species iff the first state is Caught, and likewise for the second |
| Users.Split | test_user_operations.py:76-99 | every comparison result comes from a pair of states, so `Classify` is onto |
| Users.ClassifySplitRoundTrip | test_user_operations.py:76-99 | the pair of states is recovered from the result, so `Classify` is one-to-one |
| Users.Compare | test_user_operations.py:74-99 | comparing at 0-based index i reports the first (second) user as holding the species iff that user's state at 1-based number i + 1 is Caught |
| Users.CompareAtNumber | test_user_operations.py:74-99 | the comparison at index n - 1 is the four-way table applied to the two users' states at number n |
| Users.Swapped | test_user_operations.py:76-99 | swapping exchanges which user holds the species |
| Users.CompareSwap | test_user_operations.py:76-99 | exchanging the users exchanges FirstCaught and SecondCaught and fixes NeitherCaught and BothCaught |
| Users.RegisterUser | test_user_operations.py:34-47 | registration appends exactly the new user to the log and commits; the user has the given username and identifier, the hashed password, and nothing caught |
| Users.SetStateForUser | test_user_operations.py:50-71 | writing a state for the user at position k changes only that user's slot n, keeps every other record, and commits |
| Users.CatchPokemonForUser | test_user_operations.py:81-92 | catching for one user sets that user's slot to Caught, commits, and leaves every other user's record unchanged |
| Users.UncatchPokemonForUser | test_user_operations.py:63-71 | releasing for one user sets that user's slot to Uncaught, commits, and leaves every other record unchanged |
| Users.CatchPokemonForUserIsCatch | test_user_operations.py:53-55 | the stored user after a session-level catch is exactly `Catch` of the stored user |
| Users.UncatchPokemonForUserIsUncatch | test_user_operations.py:66-70 | the stored user after a session-level release is exactly `Uncatch` of the stored user |
| Users.SignupUser | test_user_operations.py:34-37 | the user built from one registration's arguments has that username, identifier and hashed password, and nothing caught |
| Users.RegisterAll | test_user_operations.py:26-37 | registering several users in a row adds exactly one record per registration, and leaves the session committed iff it was before or something was registered |
| Users.RegisterAllInOrder | test_user_operations.py:26-41 | successive registrations appear in the log in call order after the earlier records, each as a fresh user from its arguments; the session is committed iff it was before or something was registered |
| CaptureHistory.Apply | test_user_operations.py:50-71 | one catch or release call sets the slot it names to the state it writes, keeps every other slot, and keeps the identity |
| CaptureHistory.Replay | test_user_operations.py:63-71 | any run of catch and release calls keeps the user well formed and its identity unchanged |
| CaptureHistory.ReplayUntouched | test_user_operations.py:50-71 | a species no call of the run names keeps the state it had |
| CaptureHistory.ReplayLastWriteWins | test_user_operations.py:63-71 | the state of a species after a run is the one written by the last call that names it |
| CaptureHistory.ReplayRepeatIdempotent | test_user_operations.py:53-55 | repeating a call right away has no further effect |
| UserOperationsScenarios.SetUp | test_user_operations.py:21-27 | the fixture's session holds two records and has committed |
| UserOperationsScenarios.SetUpShape | test_user_operations.py:21-41 | after the fixture, Ash is record 0 and Misty record 1, both fresh, and the session has committed |
| UserOperationsScenarios.RegistrationScenario | test_user_operations.py:44-47 | the first record is AshKetchum and the session has committed |
| UserOperationsScenarios.NewUserHasntCaughtScenario | test_user_operations.py:57-62 | Ash has not caught species 25 |
| UserOperationsScenarios.CatchingScenario | test_user_operations.py:50-56 | after Ash catches species 25, its state is Caught |
| UserOperationsScenarios.CatchingThenReleasingScenario | test_user_operations.py:63-71 | after Ash catches and releases species 25, its state is Uncaught |
| UserOperationsScenarios.NeitherCaughtScenario | test_user_operations.py:76-80 | with nothing caught, comparing Ash and Misty at index 24 gives NeitherCaught |
| UserOperationsScenarios.FirstCaughtScenario | test_user_operations.py:81-86 | after Ash catches 25, the comparison at index 24 gives FirstCaught |
| UserOperationsScenarios.SecondCaughtScenario | test_user_operations.py:87-92 | after Misty catches 116, the comparison at index 115 gives SecondCaught |
| UserOperationsScenarios.BothCaughtScenario | test_user_operations.py:93-99 | after both catch 128, the comparison at index 127 gives BothCaught |

## Left out

- Password hashing: the policy lives in `user.py`/`users.py`, which are not part of this model. `RegisterUser` takes the hash as a function parameter and stores its output opaquely.
- The `identifier` argument is stored as given. Nothing is stated about it beyond that.
- The real database and ORM session are left out. Only the fake session's `things` log and `didCommit` flag are modelled. The `FakeDatabase` wrapper, which only holds the session, is folded into the session itself.
- Persistence failures are left out, because the fake session never fails.
- Users.StateOf, Users.Catch, Users.Uncatch, Users.CatchPokemonForUser, Users.UncatchPokemonForUser and Users.Compare require an in-range catalog number (1..N) or index (0..N-1). Out-of-range behaviour is not modelled: `users.py` is not part of this model, and the tests never use such an input.
- Users.CatchPokemonForUser and Users.UncatchPokemonForUser are assumed to commit after the update and not to call `add`. `users.py` is not part of this model, and the tests assert neither.
- The catalog size: its value is not visible, so `N` is left abstract with `N >= 128`.
- Object aliasing: a user is named by its position in the session log. Registration always creates a new record, so no two positions share one user.
- Uniqueness of usernames is not checked by the database, and nothing here asserts it.
- The unittest scaffolding (`setUp`'s object construction, `tearDown`, `unittest.main`) is not behaviour. Only the registrations the fixture performs are modelled, in `SetUp`.
